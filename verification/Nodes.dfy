/** Function nodes, the definitions they hold, and their content blobs. */
module Nodes {
  import opened Options

  /** A small expression language for function bodies. */
  datatype Expr =
    | Num(n: int)
    | Name(x: string)
    | Sum(left: Expr, right: Expr)
    | If(cond: Expr, thn: Expr, els: Expr)
    | Call(callee: Expr, args: Exprs)

  datatype Exprs = NoArgs | Arg(first: Expr, rest: Exprs)

  /** The expression of a keyword-only default: a captured value, or the name of a function. */
  datatype Default = Value(n: int) | FunctionName(name: string)

  /** One function definition: positional parameters, keyword-only parameters with their
      defaults, and a body. */
  datatype Source = Source(params: seq<string>, kwonly: seq<(string, Default)>, body: Expr)

  /** The content of a node, without its qualified name and its dependencies. extras stands for
      the fields that the store only copies: imports, module variables and class data. */
  datatype Blob = Blob(
    name: string,
    moduleName: string,
    source: Source,
    ownerClass: Option<string>,
    closureVars: seq<(string, int)>,
    closureFuncRefs: seq<(string, string)>,
    extras: seq<string>)

  datatype FunctionNode = FunctionNode(qualifiedName: string, content: Blob, dependencies: seq<string>)
}
