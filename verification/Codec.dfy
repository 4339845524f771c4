/** The sentinel codec of task arguments: encoding to JSON values, the JSON text in between,
    and decoding in a namespace of classes. */
module Codec {
  import opened Options
  import opened Values

  const OBJECT := "__offwork_obj__"
  const BYTES := "__offwork_bytes__"
  const BUILTIN := "__offwork_builtin__"
  const TUPLE := "__offwork_tuple__"
  const DICT := "__offwork_dict__"
  const PICKLE := "__offwork_pickle__"

  predicate IsSentinel(s: string) {
    s == OBJECT || s == BYTES || s == BUILTIN || s == TUPLE || s == DICT || s == PICKLE
  }

  predicate IsFactory(s: string) {
    s in {"int", "list", "dict", "set", "tuple", "frozenset", "str", "float", "bytes", "bool"}
  }

  predicate IsLeafKind(s: string) {
    s in {"datetime", "date", "time", "timedelta", "decimal", "fraction", "uuid", "complex", "range", "path", "purepath", "ipaddress"}
  }

  /** A concrete path is rebuilt as a pure one. The source tells them apart by a class name beside
      the text. */
  function Rebuilt(kind: string): string {
    if kind == "path" then "purepath" else kind
  }

  function One(key: string, v: Value): Value {
    Dict(Entry(Str(key), v, Empty))
  }

  // ---- Encoding ----

  /** isinstance(k, str). */
  predicate IsStr(v: Value) {
    v.Str? || (v.Enum? && v.base == StrEnum)
  }

  predicate AllStr(ps: Pairs) {
    match ps case Empty => true case Entry(k, _, rest) => IsStr(k) && AllStr(rest)
  }

  function KindName(kind: BytesKind): string {
    match kind case BytesObject => "bytes" case ByteArray => "bytearray" case MemoryView => "memoryview"
  }

  function FactoryField(f: Factory): Value {
    if f.Builtin? && IsFactory(f.name) then Str(f.name) else Null
  }

  function MaxlenField(m: Maxlen): Value {
    if m.Bounded? then Int(m.n) else Null
  }

  function StrList(ss: seq<string>): Values {
    if ss == [] then Nil else Cons(Str(ss[0]), StrList(ss[1..]))
  }

  function NameField(member: Option<string>): Value {
    if member.Some? then Str(member.value) else Null
  }

  function EnumInfo(cls: string, member: Option<string>, v: Value): Pairs {
    Entry(Str("type"), Str("enum"), Entry(Str("cls"), Str(cls), Entry(Str("name"), NameField(member), Entry(Str("value"), v, Empty))))
  }

  function BytesInfo(kind: BytesKind, data: seq<nat>): Pairs {
    Entry(Str("data"), Base64(data), Entry(Str("type"), Str(KindName(kind)), Empty))
  }

  function ObjectInfo(cls: string, state: Pairs): Pairs {
    Entry(Str("class"), Str(cls), Entry(Str("state"), Dict(state), Empty))
  }

  function TupleInfo(fields: seq<string>, items: Values): Pairs {
    Entry(Str("fields"), List(StrList(fields)), Entry(Str("values"), List(items), Empty))
  }

  function Typed(kind: string, field: string, v: Value, more: Pairs): Value {
    One(BUILTIN, Dict(Entry(Str("type"), Str(kind), Entry(Str(field), v, more))))
  }

  /** _to_jsonable: a str enum passes as the string it is, and counter values pass as they are. */
  function ToJsonable(v: Value): Value {
    match v
    case Null => v
    case Bool(_) => v
    case Str(_) => v
    case Base64(_) => v
    case Int(_) => v
    case Float(_) => v
    case Enum(cls, member, value, base) =>
      if base == StrEnum then v
      else One(BUILTIN, Dict(EnumInfo(cls, member, ToJsonable(value))))
    case Bytes(kind, bytes) => One(BYTES, Dict(BytesInfo(kind, bytes)))
    case NamedTuple(cls, fields, items) => Typed("namedtuple", "cls", Str(cls), TupleInfo(fields, EncodeAll(items)))
    case Tuple(items) => One(TUPLE, List(EncodeAll(items)))
    case List(items) => List(EncodeAll(items))
    case Counter(pairs) => Typed("counter", "items", List(EncodeKeys(pairs)), Empty)
    case OrderedDict(pairs) => Typed("ordereddict", "items", List(EncodePairs(pairs)), Empty)
    case DefaultDict(factory, pairs) =>
      Typed("defaultdict", "factory", FactoryField(factory), Entry(Str("items"), List(EncodePairs(pairs)), Empty))
    case Dict(pairs) =>
      if AllStr(pairs) then Dict(EncodeValues(pairs)) else One(DICT, List(EncodePairs(pairs)))
    case Set(items) => Typed("set", "value", List(EncodeAll(items)), Empty)
    case FrozenSet(items) => Typed("frozenset", "value", List(EncodeAll(items)), Empty)
    case Deque(items, maxlen) =>
      Typed("deque", "value", List(EncodeAll(items)), Entry(Str("maxlen"), MaxlenField(maxlen), Empty))
    case Leaf(kind, text) => Typed(kind, "value", Str(text), Empty)
    case Object(cls, state) => One(OBJECT, Dict(ObjectInfo(cls, EncodeValues(state))))
    case Opaque(data) => One(PICKLE, Base64(data))
  }

  function EncodeAll(vs: Values): Values {
    match vs case Nil => Nil case Cons(v, rest) => Cons(ToJsonable(v), EncodeAll(rest))
  }

  function PairList(k: Value, v: Value): Value {
    List(Cons(k, Cons(v, Nil)))
  }

  function EncodePairs(ps: Pairs): Values {
    match ps case Empty => Nil case Entry(k, v, rest) => Cons(PairList(ToJsonable(k), ToJsonable(v)), EncodePairs(rest))
  }

  function EncodeKeys(ps: Pairs): Values {
    match ps case Empty => Nil case Entry(k, v, rest) => Cons(PairList(ToJsonable(k), v), EncodeKeys(rest))
  }

  function EncodeValues(ps: Pairs): Pairs {
    match ps case Empty => Empty case Entry(k, v, rest) => Entry(k, ToJsonable(v), EncodeValues(rest))
  }

  // ---- JSON ----

  predicate IsJson(v: Value) {
    match v
    case Null => true
    case Bool(_) => true
    case Int(_) => true
    case Float(_) => true
    case Str(_) => true
    case Base64(_) => true
    case List(items) => AllJson(items)
    case Dict(pairs) => PairsJson(pairs)
    case _ => false
  }

  predicate AllJson(vs: Values) {
    match vs case Nil => true case Cons(v, rest) => IsJson(v) && AllJson(rest)
  }

  predicate PairsJson(ps: Pairs) {
    match ps case Empty => true case Entry(k, v, rest) => k.Str? && IsJson(v) && PairsJson(rest)
  }

  /** Writing JSON text and reading it back: a str enum comes back as its string. */
  function Wire(v: Value): Value {
    match v
    case List(items) => List(WireAll(items))
    case Dict(pairs) => Dict(WirePairs(pairs))
    case Enum(_, _, value, _) => if v.base == StrEnum then value else v
    case _ => v
  }

  function WireAll(vs: Values): Values {
    match vs case Nil => Nil case Cons(v, rest) => Cons(Wire(v), WireAll(rest))
  }

  function WirePairs(ps: Pairs): Pairs {
    match ps case Empty => Empty case Entry(k, v, rest) => Entry(Wire(k), Wire(v), WirePairs(rest))
  }

  /** What the worker gets to see of a value. */
  function Sent(v: Value): Value { Wire(ToJsonable(v)) }

  // ---- Decoding ----

  datatype Cls =
    | EnumClass(members: Pairs, composites: Pairs, enumBase: EnumBase)
    | TupleClass(fields: seq<string>)
    | PlainClass

  type Namespace = map<string, Cls>

  datatype Result<+T> = Ok(value: T) | Err

  function LastN(vs: Values, n: nat): Values {
    if Length(vs) <= n then vs else if vs.Nil? then Nil else LastN(vs.tail, n)
  }

  /** The name of the first member with a value; it may have none. */
  function MemberByValue(members: Pairs, v: Value): Option<Option<string>> {
    match members
    case Empty => None
    case Entry(k, w, rest) =>
      if w == v && k.Str? then Some(Some(k.s)) else if w == v && k.Null? then Some(None) else MemberByValue(rest, v)
  }

  /** cls(value): the named members, then those that a flag class makes by combining them. */
  function FindByValue(c: Cls, v: Value): Option<Option<string>>
    requires c.EnumClass?
  {
    var found := MemberByValue(c.members, v);
    if found.Some? then found else MemberByValue(c.composites, v)
  }

  function Resolve(v: Value, ns: Namespace): Result<Value>
    decreases Size(v)
  {
    match v
    case List(items) =>
      (match ResolveAll(items, ns) case Ok(vs) => Ok(List(vs)) case Err => Err)
    case Dict(pairs) =>
      if pairs.Entry? && pairs.rest.Empty? && pairs.key.Str? && IsSentinel(pairs.key.s) then
        assert Size(v) == 1 + SizePairs(pairs);
        ResolveSentinel(pairs.key.s, pairs.value, ns)
      else
        (match ResolveValues(pairs, ns) case Ok(ps) => Ok(Dict(ps)) case Err => Err)
    case _ => Ok(v)
  }

  function ResolveAll(vs: Values, ns: Namespace): Result<Values>
    decreases SizeAll(vs)
  {
    match vs
    case Nil => Ok(Nil)
    case Cons(v, rest) =>
      match Resolve(v, ns)
      case Err => Err
      case Ok(w) => match ResolveAll(rest, ns) case Ok(ws) => Ok(Cons(w, ws)) case Err => Err
  }

  function ResolveValues(ps: Pairs, ns: Namespace): Result<Pairs>
    decreases SizePairs(ps)
  {
    match ps
    case Empty => Ok(Empty)
    case Entry(k, v, rest) =>
      match Resolve(v, ns)
      case Err => Err
      case Ok(w) => match ResolveValues(rest, ns) case Ok(ws) => Ok(Entry(k, w, ws)) case Err => Err
  }

  function TwoItems(p: Value): (r: Option<(Value, Value)>)
    ensures r.Some? ==> Size(r.value.0) < Size(p) && Size(r.value.1) < Size(p)
    ensures r.Some? ==> p == PairList(r.value.0, r.value.1)
  {
    if p.List? && p.items.Cons? && p.items.tail.Cons? && p.items.tail.tail.Nil? then
      assert Size(p) == 1 + SizeAll(p.items);
      assert SizeAll(p.items) == 1 + Size(p.items.head) + SizeAll(p.items.tail);
      Some((p.items.head, p.items.tail.head))
    else None
  }

  /** A list of [key, value] lists; values stay as they are when raw is set. */
  function ResolvePairs(vs: Values, ns: Namespace, raw: bool): Result<Pairs>
    decreases SizeAll(vs)
  {
    match vs
    case Nil => Ok(Empty)
    case Cons(p, rest) =>
      var kv := TwoItems(p);
      if kv.None? then Err
      else
        var k, v := kv.value.0, kv.value.1;
        match Resolve(k, ns)
        case Err => Err
        case Ok(k') =>
          match (if raw then Ok(v) else Resolve(v, ns))
          case Err => Err
          case Ok(v') => match ResolvePairs(rest, ns, raw) case Ok(ps) => Ok(Entry(k', v', ps)) case Err => Err
  }

  /** The sentinel branches of _resolve. */
  function ResolveSentinel(s: string, v: Value, ns: Namespace): Result<Value>
    decreases Size(v)
  {
    if s == OBJECT then (if v.Dict? then ResolveObject(v.pairs, ns) else Err)
    else if s == BYTES then (if v.Dict? then ResolveBytes(v.pairs) else Err)
    else if s == BUILTIN then (if v.Dict? then ResolveBuiltin(v.pairs, ns) else Err)
    else if s == TUPLE then
      (if v.List? then match ResolveAll(v.items, ns) case Ok(vs) => Ok(Tuple(vs)) case Err => Err else Err)
    else if s == DICT then
      (if v.List? then match ResolvePairs(v.items, ns, false) case Ok(ps) => Ok(Dict(DictOf(ps))) case Err => Err else Err)
    else if v.Base64? then Ok(Opaque(v.data)) else Err
  }

  /** _reconstruct_object: without the class, the sentinel dict is returned as it is. */
  function ResolveObject(info: Pairs, ns: Namespace): Result<Value>
    decreases SizePairs(info)
  {
    var cls := Field(info, "class");
    if cls.None? || !cls.value.Str? then Err
    else if cls.value.s !in ns then Ok(One(OBJECT, Dict(info)))
    else if !ns[cls.value.s].PlainClass? then Err
    else
      var state := Field(info, "state");
      if state.None? then Ok(Object(cls.value.s, Empty))
      else if !state.value.Dict? then Err
      else match ResolveValues(state.value.pairs, ns) case Ok(ps) => Ok(Object(cls.value.s, ps)) case Err => Err
  }

  function ResolveBytes(info: Pairs): Result<Value> {
    var data := Field(info, "data");
    if data.None? || !data.value.Base64? then Err
    else if Field(info, "type") == Some(Str("bytearray")) then Ok(Bytes(ByteArray, data.value.data))
    else if Field(info, "type") == Some(Str("memoryview")) then Ok(Bytes(MemoryView, data.value.data))
    else Ok(Bytes(BytesObject, data.value.data))
  }

  /** The values listed in a field. */
  function ResolveField(info: Pairs, field: string, ns: Namespace): Result<Values>
    decreases SizePairs(info), 0
  {
    var raw := Field(info, field);
    if raw.None? || !raw.value.List? then Err else ResolveAll(raw.value.items, ns)
  }

  function ResolveItems(info: Pairs, ns: Namespace, raw: bool): Result<Pairs>
    decreases SizePairs(info), 0
  {
    var items := Field(info, "items");
    if items.None? || !items.value.List? then Err else ResolvePairs(items.value.items, ns, raw)
  }

  /** _decode_builtin. */
  function ResolveBuiltin(info: Pairs, ns: Namespace): Result<Value>
    decreases SizePairs(info), 2
  {
    var kind := Field(info, "type");
    if kind.None? || !kind.value.Str? then Err
    else if IsLeafKind(kind.value.s) then
      var raw := Field(info, "value");
      if raw.Some? && raw.value.Str? then Ok(Leaf(Rebuilt(kind.value.s), raw.value.s)) else Err
    else if kind.value.s == "set" then
      (match ResolveField(info, "value", ns) case Ok(vs) => Ok(Set(SetOf(vs))) case Err => Err)
    else if kind.value.s == "frozenset" then
      (match ResolveField(info, "value", ns) case Ok(vs) => Ok(FrozenSet(SetOf(vs))) case Err => Err)
    else if kind.value.s == "deque" then ResolveDeque(info, ns)
    else if kind.value.s == "counter" then
      (match ResolveItems(info, ns, true) case Ok(ps) => Ok(Counter(DictOf(ps))) case Err => Err)
    else if kind.value.s == "ordereddict" then
      (match ResolveItems(info, ns, false) case Ok(ps) => Ok(OrderedDict(DictOf(ps))) case Err => Err)
    else if kind.value.s == "defaultdict" then
      (match ResolveItems(info, ns, false)
       case Ok(ps) => Ok(DefaultDict(FactoryOf(Field(info, "factory")), DictOf(ps)))
       case Err => Err)
    else if kind.value.s == "namedtuple" then ResolveNamedTuple(info, ns)
    else if kind.value.s == "enum" then ResolveEnum(info, ns)
    else Err
  }

  function FactoryOf(f: Option<Value>): Factory {
    if f.Some? && f.value.Str? && IsFactory(f.value.s) then Builtin(f.value.s) else NoFactory
  }

  function ResolveDeque(info: Pairs, ns: Namespace): Result<Value>
    decreases SizePairs(info), 1
  {
    match ResolveField(info, "value", ns)
    case Err => Err
    case Ok(vs) =>
      var maxlen := Field(info, "maxlen");
      if maxlen.None? || maxlen.value.Null? then Ok(Deque(vs, Unbounded))
      else if maxlen.value.Int? && maxlen.value.n >= 0 then
        Ok(Deque(LastN(vs, maxlen.value.n), Bounded(maxlen.value.n)))
      else Err
  }

  function ResolveNamedTuple(info: Pairs, ns: Namespace): Result<Value>
    decreases SizePairs(info), 1
  {
    var cls := Field(info, "cls");
    if cls.None? || !cls.value.Str? then Err
    else
      match ResolveField(info, "values", ns)
      case Err => Err
      case Ok(vs) =>
        if cls.value.s !in ns then Ok(Tuple(vs))
        else
          var c := ns[cls.value.s];
          if c.TupleClass? && |c.fields| == Length(vs) then Ok(NamedTuple(cls.value.s, c.fields, vs)) else Err
  }

  /** By name first, then by value; without the class, the bare value. */
  function ResolveEnum(info: Pairs, ns: Namespace): Result<Value>
    decreases SizePairs(info), 1
  {
    var cls, raw := Field(info, "cls"), Field(info, "value");
    if cls.None? || !cls.value.Str? then Err
    else if cls.value.s !in ns then (if raw.None? then Ok(Null) else Resolve(raw.value, ns))
    else
      var c, name := ns[cls.value.s], Field(info, "name");
      if !c.EnumClass? || (name.Some? && (name.value.List? || name.value.Dict?)) then Err
      else if name.Some? && name.value.Str? && Field(c.members, name.value.s).Some? then
        Ok(Enum(cls.value.s, Some(name.value.s), Field(c.members, name.value.s).value, c.enumBase))
      else
        match (if raw.None? then Ok(Null) else Resolve(raw.value, ns))
        case Err => Err
        case Ok(w) =>
          var found := FindByValue(c, w);
          if found.None? then Err else Ok(Enum(cls.value.s, found.value, w, c.enumBase))
  }
}
