/** Python values as the task codec sees them, with their sizes. */
module Values {
  import opened Options

  datatype BytesKind = BytesObject | ByteArray | MemoryView

  /** An enum class may also derive from int or from str. */
  datatype EnumBase = PlainEnum | IntEnum | StrEnum

  /** A defaultdict factory: none, one of the recognised builtins, or anything else. */
  datatype Factory = NoFactory | Builtin(name: string) | OtherFactory

  datatype Maxlen = Unbounded | Bounded(n: nat)

  datatype Value =
    | Null
    | Bool(b: bool)
    | Int(n: int)
    | Float(r: real)
    | Str(s: string)
    | Base64(data: seq<nat>)                     // a string: the base64 text of some bytes
    | Bytes(kind: BytesKind, bytes: seq<nat>)
    | Tuple(items: Values)
    | NamedTuple(cls: string, fields: seq<string>, items: Values)
    | List(items: Values)
    | Dict(pairs: Pairs)
    | Counter(pairs: Pairs)
    | OrderedDict(pairs: Pairs)
    | DefaultDict(factory: Factory, pairs: Pairs)
    | Set(items: Values)
    | FrozenSet(items: Values)
    | Deque(items: Values, maxlen: Maxlen)
    | Leaf(leafKind: string, text: string)       // datetime, Decimal, UUID and the like; the class of a path
    | Enum(cls: string, member: Option<string>, value: Value, base: EnumBase)   // a flag may have no name
    | Object(cls: string, state: Pairs)
    | Opaque(data: seq<nat>)                     // anything that only pickles

  datatype Values = Nil | Cons(head: Value, tail: Values)

  datatype Pairs = Empty | Entry(key: Value, value: Value, rest: Pairs)

  // ---- Sizes ----

  function Size(v: Value): nat {
    match v
    case Tuple(vs) => 1 + SizeAll(vs)
    case NamedTuple(_, _, vs) => 1 + SizeAll(vs)
    case List(vs) => 1 + SizeAll(vs)
    case Dict(ps) => 1 + SizePairs(ps)
    case Counter(ps) => 1 + SizePairs(ps)
    case OrderedDict(ps) => 1 + SizePairs(ps)
    case DefaultDict(_, ps) => 1 + SizePairs(ps)
    case Set(vs) => 1 + SizeAll(vs)
    case FrozenSet(vs) => 1 + SizeAll(vs)
    case Deque(vs, _) => 1 + SizeAll(vs)
    case Enum(_, _, w, _) => 1 + Size(w)
    case Object(_, ps) => 1 + SizePairs(ps)
    case _ => 1
  }

  function SizeAll(vs: Values): nat {
    match vs
    case Nil => 0
    case Cons(v, rest) => 1 + Size(v) + SizeAll(rest)
  }

  function SizePairs(ps: Pairs): nat {
    match ps
    case Empty => 0
    case Entry(k, v, rest) => 1 + Size(k) + Size(v) + SizePairs(rest)
  }

  // ---- Lists and dictionaries ----

  function Length(vs: Values): nat {
    match vs case Nil => 0 case Cons(_, rest) => 1 + Length(rest)
  }

  function Count(ps: Pairs): nat {
    match ps case Empty => 0 case Entry(_, _, rest) => 1 + Count(rest)
  }

  predicate Contains(vs: Values, v: Value) {
    match vs case Nil => false case Cons(w, rest) => w == v || Contains(rest, v)
  }

  predicate HasKey(ps: Pairs, k: Value) {
    match ps case Empty => false case Entry(j, _, rest) => j == k || HasKey(rest, k)
  }

  /** info.get(name). */
  function Field(ps: Pairs, name: string): (r: Option<Value>)
    ensures r.Some? ==> Size(r.value) < SizePairs(ps)
  {
    match ps
    case Empty => None
    case Entry(k, v, rest) => if k == Str(name) then Some(v) else Field(rest, name)
  }

  predicate Distinct(vs: Values) {
    match vs case Nil => true case Cons(v, rest) => !Contains(rest, v) && Distinct(rest)
  }

  predicate DistinctKeys(ps: Pairs) {
    match ps case Empty => true case Entry(k, _, rest) => !HasKey(rest, k) && DistinctKeys(rest)
  }

  /** Adds an element to a set unless it is there. */
  function Insert(vs: Values, v: Value): Values {
    match vs
    case Nil => Cons(v, Nil)
    case Cons(w, rest) => if w == v then vs else Cons(w, Insert(rest, v))
  }

  /** Assigns a key: in place when it is there, at the end otherwise. */
  function Assign(ps: Pairs, k: Value, v: Value): Pairs {
    match ps
    case Empty => Entry(k, v, Empty)
    case Entry(j, w, rest) => if j == k then Entry(j, v, rest) else Entry(j, w, Assign(rest, k, v))
  }

  function InsertAll(done: Values, vs: Values): Values
    decreases vs
  {
    match vs case Nil => done case Cons(v, rest) => InsertAll(Insert(done, v), rest)
  }

  function AssignAll(done: Pairs, ps: Pairs): Pairs
    decreases ps
  {
    match ps case Empty => done case Entry(k, v, rest) => AssignAll(Assign(done, k, v), rest)
  }

  /** set(values) and dict(pairs). */
  function SetOf(vs: Values): Values { InsertAll(Nil, vs) }

  function DictOf(ps: Pairs): Pairs { AssignAll(Empty, ps) }

  function Append(a: Values, b: Values): Values {
    match a case Nil => b case Cons(v, rest) => Cons(v, Append(rest, b))
  }

  function Join(a: Pairs, b: Pairs): Pairs {
    match a case Empty => b case Entry(k, v, rest) => Entry(k, v, Join(rest, b))
  }

  lemma {:induction false} InsertNew(vs: Values, v: Value)
    ensures Contains(vs, v) ==> Insert(vs, v) == vs
    ensures !Contains(vs, v) ==> Insert(vs, v) == Append(vs, Cons(v, Nil))
    ensures Length(Insert(vs, v)) == Length(vs) + if Contains(vs, v) then 0 else 1
    ensures forall w :: Contains(Insert(vs, v), w) <==> w == v || Contains(vs, w)
  {
    if vs.Cons? {
      InsertNew(vs.tail, v);
    }
  }

  lemma {:induction false} AppendOne(a: Values, v: Value, b: Values)
    ensures Append(Append(a, Cons(v, Nil)), b) == Append(a, Cons(v, b))
  {
    if a.Cons? {
      AppendOne(a.tail, v, b);
    }
  }

  lemma {:induction false} AppendNil(a: Values)
    ensures Append(a, Nil) == a
  {
    if a.Cons? {
      AppendNil(a.tail);
    }
  }

  /** Building a set from distinct elements keeps them as they are; otherwise it gets shorter. */
  lemma {:induction false} InsertAllExact(done: Values, vs: Values)
    ensures Length(InsertAll(done, vs)) <= Length(done) + Length(vs)
    ensures Length(InsertAll(done, vs)) == Length(done) + Length(vs) ==> InsertAll(done, vs) == Append(done, vs)
    ensures Distinct(vs) && (forall v :: Contains(vs, v) ==> !Contains(done, v)) ==> InsertAll(done, vs) == Append(done, vs)
    decreases vs
  {
    if vs.Nil? {
      AppendNil(done);
    } else {
      InsertNew(done, vs.head);
      AppendOne(done, vs.head, vs.tail);
      InsertAllExact(Insert(done, vs.head), vs.tail);
    }
  }

  lemma SetOfExact(vs: Values)
    ensures Length(SetOf(vs)) <= Length(vs)
    ensures Length(SetOf(vs)) == Length(vs) ==> SetOf(vs) == vs
    ensures Distinct(vs) ==> SetOf(vs) == vs
  {
    InsertAllExact(Nil, vs);
  }

  lemma {:induction false} AssignNew(ps: Pairs, k: Value, v: Value)
    ensures !HasKey(ps, k) ==> Assign(ps, k, v) == Join(ps, Entry(k, v, Empty))
    ensures Count(Assign(ps, k, v)) == Count(ps) + if HasKey(ps, k) then 0 else 1
    ensures forall j :: HasKey(Assign(ps, k, v), j) <==> j == k || HasKey(ps, j)
  {
    if ps.Entry? {
      AssignNew(ps.rest, k, v);
      forall j
        ensures HasKey(Assign(ps, k, v), j) <==> j == k || HasKey(ps, j)
      {
        AssignHasKey(ps, k, v, j);
      }
    }
  }

  lemma AssignHasKey(ps: Pairs, k: Value, v: Value, j: Value)
    requires ps.Entry? && (HasKey(Assign(ps.rest, k, v), j) <==> j == k || HasKey(ps.rest, j))
    ensures HasKey(Assign(ps, k, v), j) <==> j == k || HasKey(ps, j)
  {
    hide *;
    FirstKey(ps.key, v, ps.rest, j);
    FirstKey(ps.key, ps.value, ps.rest, j);
    FirstKey(ps.key, ps.value, Assign(ps.rest, k, v), j);
    AssignFirst(ps, k, v);
  }

  lemma FirstKey(k: Value, v: Value, rest: Pairs, j: Value)
    ensures HasKey(Entry(k, v, rest), j) <==> k == j || HasKey(rest, j)
  {
  }

  lemma AssignFirst(ps: Pairs, k: Value, v: Value)
    requires ps.Entry?
    ensures ps == Entry(ps.key, ps.value, ps.rest)
    ensures Assign(ps, k, v) == if ps.key == k then Entry(ps.key, v, ps.rest) else Entry(ps.key, ps.value, Assign(ps.rest, k, v))
  {
  }

  lemma {:induction false} JoinOne(a: Pairs, k: Value, v: Value, b: Pairs)
    ensures Join(Join(a, Entry(k, v, Empty)), b) == Join(a, Entry(k, v, b))
  {
    if a.Entry? {
      JoinOne(a.rest, k, v, b);
    }
  }

  lemma {:induction false} JoinEmpty(a: Pairs)
    ensures Join(a, Empty) == a
  {
    if a.Entry? {
      JoinEmpty(a.rest);
    }
  }

  lemma {:induction false} AssignAllExact(done: Pairs, ps: Pairs)
    ensures Count(AssignAll(done, ps)) <= Count(done) + Count(ps)
    ensures Count(AssignAll(done, ps)) == Count(done) + Count(ps) ==> AssignAll(done, ps) == Join(done, ps)
    ensures DistinctKeys(ps) && (forall k :: HasKey(ps, k) ==> !HasKey(done, k)) ==> AssignAll(done, ps) == Join(done, ps)
    decreases ps
  {
    if ps.Empty? {
      JoinEmpty(done);
    } else {
      AssignNew(done, ps.key, ps.value);
      JoinOne(done, ps.key, ps.value, ps.rest);
      AssignAllExact(Assign(done, ps.key, ps.value), ps.rest);
    }
  }

  lemma DictOfExact(ps: Pairs)
    ensures Count(DictOf(ps)) <= Count(ps)
    ensures Count(DictOf(ps)) == Count(ps) ==> DictOf(ps) == ps
    ensures DistinctKeys(ps) ==> DictOf(ps) == ps
  {
    AssignAllExact(Empty, ps);
  }

  // ---- Looking up ----

  /** The value of a key. */
  function Lookup(ps: Pairs, k: Value): Option<Value> {
    match ps case Empty => None case Entry(j, v, rest) => if j == k then Some(v) else Lookup(rest, k)
  }

  /** The last value given for a key. */
  function LastGiven(ps: Pairs, k: Value): Option<Value> {
    match ps
    case Empty => None
    case Entry(j, v, rest) => if LastGiven(rest, k).Some? then LastGiven(rest, k) else if j == k then Some(v) else None
  }

  /** Assigning a key sets its value and no other. */
  lemma {:induction false} AssignLookup(ps: Pairs, k: Value, v: Value, j: Value)
    ensures Lookup(Assign(ps, k, v), j) == if j == k then Some(v) else Lookup(ps, j)
  {
    if ps.Entry? {
      AssignLookup(ps.rest, k, v, j);
      AssignFirst(ps, k, v);
      hide Assign;
    }
  }

  lemma {:induction false} AssignAllLookup(done: Pairs, ps: Pairs, k: Value)
    ensures Lookup(AssignAll(done, ps), k) == if LastGiven(ps, k).Some? then LastGiven(ps, k) else Lookup(done, k)
    decreases ps
  {
    if ps.Entry? {
      AssignLookup(done, ps.key, ps.value, k);
      AssignAllLookup(Assign(done, ps.key, ps.value), ps.rest, k);
      hide Assign, Lookup;
    }
  }

  /** A dict made of pairs has for every key the last value given. */
  lemma DictLookup(ps: Pairs, k: Value)
    ensures Lookup(DictOf(ps), k) == LastGiven(ps, k)
  {
    AssignAllLookup(Empty, ps, k);
  }
}
