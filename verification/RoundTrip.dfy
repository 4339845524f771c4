/** What the codec guarantees: which values come back as they were, and that encoded values
    are encoded once and for all. */
module CodecRoundTrip {
  import opened Options
  import opened Values
  import opened Codec

  // ---- Encoded values ----

  /** Encoding leaves JSON values as they are, so encoding twice is encoding once. */
  lemma {:induction false} JsonUnchanged(v: Value)
    requires IsJson(v)
    ensures ToJsonable(v) == v && Wire(v) == v
  {
    match v
    case List(items) => AllUnchanged(items);
    case Dict(pairs) => PairsUnchanged(pairs);
    case _ =>
  }

  lemma {:induction false} AllUnchanged(vs: Values)
    requires AllJson(vs)
    ensures EncodeAll(vs) == vs && WireAll(vs) == vs
  {
    if vs.Cons? {
      JsonUnchanged(vs.head);
      AllUnchanged(vs.tail);
    }
  }

  lemma {:induction false} PairsUnchanged(ps: Pairs)
    requires PairsJson(ps)
    ensures AllStr(ps) && EncodeValues(ps) == ps && WirePairs(ps) == ps
  {
    if ps.Entry? {
      JsonUnchanged(ps.value);
      PairsUnchanged(ps.rest);
    }
  }

  // ---- The dictionaries that the encoder makes ----

  /** One entry with a string key, as reading and writing see it. */
  lemma FirstEntry(k: string, v: Value, rest: Pairs)
    ensures WirePairs(Entry(Str(k), v, rest)) == Entry(Str(k), Wire(v), WirePairs(rest))
    ensures PairsJson(Entry(Str(k), v, rest)) <==> IsJson(v) && PairsJson(rest)
    ensures forall name :: Field(Entry(Str(k), v, rest), name) == if name == k then Some(v) else Field(rest, name)
  {
  }

  lemma Unfold(vs: Values, ps: Pairs)
    ensures Wire(List(vs)) == List(WireAll(vs)) && (IsJson(List(vs)) <==> AllJson(vs))
    ensures Wire(Dict(ps)) == Dict(WirePairs(ps)) && (IsJson(Dict(ps)) <==> PairsJson(ps))
    ensures WirePairs(Empty) == Empty && PairsJson(Empty)
  {
  }

  lemma Scalars(v: Value)
    requires v.Null? || v.Bool? || v.Int? || v.Float? || v.Str? || v.Base64?
    ensures Wire(v) == v && ToJsonable(v) == v && IsJson(v)
  {
  }

  lemma OneWire(k: string, v: Value)
    ensures Wire(One(k, v)) == One(k, Wire(v))
    ensures IsJson(One(k, v)) <==> IsJson(v)
  {
    FirstEntry(k, v, Empty);
  }

  lemma TypedWire(kind: string, field: string, v: Value, more: Pairs)
    ensures Wire(Typed(kind, field, v, more)) == Typed(kind, field, Wire(v), WirePairs(more))
    ensures IsJson(Typed(kind, field, v, more)) <==> IsJson(v) && PairsJson(more)
  {
    var info := Entry(Str("type"), Str(kind), Entry(Str(field), v, more));
    FirstEntry("type", Str(kind), info.rest);
    FirstEntry(field, v, more);
    OneWire(BUILTIN, Dict(info));
  }

  lemma EnumInfoFields(cls: string, member: Option<string>, v: Value)
    ensures var info := EnumInfo(cls, member, v);
      && Field(info, "type") == Some(Str("enum")) && Field(info, "cls") == Some(Str(cls))
      && Field(info, "name") == Some(NameField(member)) && Field(info, "value") == Some(v)
  {
    var fourth := Entry(Str("value"), v, Empty);
    var third := Entry(Str("name"), NameField(member), fourth);
    var second := Entry(Str("cls"), Str(cls), third);
    hide Field;
    FirstEntry("value", v, Empty);
    FirstEntry("name", NameField(member), fourth);
    FirstEntry("cls", Str(cls), third);
    FirstEntry("type", Str("enum"), second);
  }

  lemma EnumInfoFacts(cls: string, member: Option<string>, v: Value)
    ensures var info := EnumInfo(cls, member, v);
      && WirePairs(info) == EnumInfo(cls, member, Wire(v)) && (PairsJson(info) <==> IsJson(v))
      && Field(info, "type") == Some(Str("enum")) && Field(info, "cls") == Some(Str(cls))
      && Field(info, "name") == Some(NameField(member)) && Field(info, "value") == Some(v)
  {
    EnumInfoFields(cls, member, v);
    Scalars(Str("enum"));
    Scalars(Str(cls));
    Scalars(NameField(member));
    Unfold(Nil, Empty);
    hide Wire, WirePairs, IsJson, PairsJson, Field;
    var fourth := Entry(Str("value"), v, Empty);
    var third := Entry(Str("name"), NameField(member), fourth);
    var second := Entry(Str("cls"), Str(cls), third);
    FirstEntry("value", v, Empty);
    FirstEntry("name", NameField(member), fourth);
    FirstEntry("cls", Str(cls), third);
    FirstEntry("type", Str("enum"), second);
  }

  lemma TwoEntries(k1: string, v1: Value, k2: string, v2: Value)
    requires k1 != k2
    ensures var info := Entry(Str(k1), v1, Entry(Str(k2), v2, Empty));
      && WirePairs(info) == Entry(Str(k1), Wire(v1), Entry(Str(k2), Wire(v2), Empty))
      && (PairsJson(info) <==> IsJson(v1) && IsJson(v2))
      && Field(info, k1) == Some(v1) && Field(info, k2) == Some(v2)
      && forall name :: name != k1 && name != k2 ==> Field(info, name) == None
  {
    FirstEntry(k1, v1, Entry(Str(k2), v2, Empty));
    FirstEntry(k2, v2, Empty);
  }

  lemma PairListWire(k: Value, v: Value)
    ensures Wire(PairList(k, v)) == PairList(Wire(k), Wire(v))
    ensures IsJson(PairList(k, v)) <==> IsJson(k) && IsJson(v)
    ensures TwoItems(PairList(k, v)) == Some((k, v))
  {
    hide Wire, IsJson, WireAll, AllJson;
    FirstValue(k, Cons(v, Nil));
    FirstValue(v, Nil);
    Unfold(Cons(k, Cons(v, Nil)), Empty);
  }

  lemma FirstValue(v: Value, rest: Values)
    ensures WireAll(Cons(v, rest)) == Cons(Wire(v), WireAll(rest)) && WireAll(Nil) == Nil
    ensures (AllJson(Cons(v, rest)) <==> IsJson(v) && AllJson(rest)) && AllJson(Nil)
  {
  }

  // ---- Well-formed values ----

  /** What every Python value satisfies, and counts that are integers. */
  predicate WellFormed(v: Value) {
    match v
    case Tuple(vs) => AllWellFormed(vs)
    case NamedTuple(_, fields, vs) => |fields| == Length(vs) && AllWellFormed(vs)
    case List(vs) => AllWellFormed(vs)
    case Set(vs) => Distinct(vs) && AllWellFormed(vs)
    case FrozenSet(vs) => Distinct(vs) && AllWellFormed(vs)
    case Deque(vs, maxlen) => (maxlen.Bounded? ==> Length(vs) <= maxlen.n) && AllWellFormed(vs)
    case Dict(ps) => DistinctKeys(ps) && PairsWellFormed(ps)
    case Counter(ps) => DistinctKeys(ps) && PairsWellFormed(ps) && AllCounts(ps)
    case OrderedDict(ps) => DistinctKeys(ps) && PairsWellFormed(ps)
    case DefaultDict(factory, ps) =>
      (factory.Builtin? ==> IsFactory(factory.name)) && DistinctKeys(ps) && PairsWellFormed(ps)
    case Leaf(kind, _) => IsLeafKind(kind)
    case Enum(_, _, value, base) => WellFormed(value) && (base == StrEnum ==> value.Str?)
    case Object(_, state) => AllNames(state) && PairsWellFormed(state)
    case _ => true
  }

  predicate AllWellFormed(vs: Values) {
    match vs case Nil => true case Cons(v, rest) => WellFormed(v) && AllWellFormed(rest)
  }

  predicate PairsWellFormed(ps: Pairs) {
    match ps case Empty => true case Entry(k, v, rest) => WellFormed(k) && WellFormed(v) && PairsWellFormed(rest)
  }

  predicate AllCounts(ps: Pairs) {
    match ps case Empty => true case Entry(_, v, rest) => v.Int? && AllCounts(rest)
  }

  predicate AllNames(ps: Pairs) {
    match ps case Empty => true case Entry(k, _, rest) => k.Str? && AllNames(rest)
  }

  // ---- What is sent ----

  function SentAll(vs: Values): Values { WireAll(EncodeAll(vs)) }

  function SentPairs(ps: Pairs): Values { WireAll(EncodePairs(ps)) }

  function SentKeys(ps: Pairs): Values { WireAll(EncodeKeys(ps)) }

  function SentValues(ps: Pairs): Pairs { WirePairs(EncodeValues(ps)) }

  lemma SentTuple(vs: Values)
    ensures Sent(Tuple(vs)) == One(TUPLE, List(SentAll(vs)))
  {
    assert ToJsonable(Tuple(vs)) == One(TUPLE, List(EncodeAll(vs)));
    hide ToJsonable, Wire, One;
    OneWire(TUPLE, List(EncodeAll(vs)));
    Unfold(EncodeAll(vs), Empty);
  }

  lemma SentNamedTuple(cls: string, fields: seq<string>, vs: Values)
    ensures Sent(NamedTuple(cls, fields, vs)) == Typed("namedtuple", "cls", Str(cls), TupleInfo(fields, SentAll(vs)))
  {
    var encoded := EncodeAll(vs);
    assert ToJsonable(NamedTuple(cls, fields, vs)) == Typed("namedtuple", "cls", Str(cls), TupleInfo(fields, encoded));
    hide ToJsonable, Wire, Typed, StrList;
    StrListJson(fields);
    AllUnchanged(StrList(fields));
    Unfold(StrList(fields), Empty);
    Unfold(encoded, Empty);
    TwoEntries("fields", List(StrList(fields)), "values", List(encoded));
    Scalars(Str(cls));
    TypedWire("namedtuple", "cls", Str(cls), TupleInfo(fields, encoded));
  }

  lemma SentCollection(v: Value)
    ensures v.List? ==> Sent(v) == List(SentAll(v.items))
    ensures v.Set? ==> Sent(v) == Typed("set", "value", List(SentAll(v.items)), Empty)
    ensures v.FrozenSet? ==> Sent(v) == Typed("frozenset", "value", List(SentAll(v.items)), Empty)
  {
    if v.Set? || v.FrozenSet? || v.List? {
      var encoded := EncodeAll(v.items);
      assert v.List? ==> ToJsonable(v) == List(encoded);
      assert v.Set? ==> ToJsonable(v) == Typed("set", "value", List(encoded), Empty);
      assert v.FrozenSet? ==> ToJsonable(v) == Typed("frozenset", "value", List(encoded), Empty);
      hide ToJsonable, Wire, Typed;
      Unfold(encoded, Empty);
      TypedWire("set", "value", List(encoded), Empty);
      TypedWire("frozenset", "value", List(encoded), Empty);
    }
  }

  lemma SentItems(v: Value)
    ensures v.Counter? ==> Sent(v) == Typed("counter", "items", List(SentKeys(v.pairs)), Empty)
    ensures v.OrderedDict? ==> Sent(v) == Typed("ordereddict", "items", List(SentPairs(v.pairs)), Empty)
  {
    if v.Counter? || v.OrderedDict? {
      var items := if v.Counter? then EncodeKeys(v.pairs) else EncodePairs(v.pairs);
      assert v.Counter? ==> ToJsonable(v) == Typed("counter", "items", List(items), Empty);
      assert v.OrderedDict? ==> ToJsonable(v) == Typed("ordereddict", "items", List(items), Empty);
      hide ToJsonable, Wire, Typed;
      Unfold(items, Empty);
      TypedWire("counter", "items", List(items), Empty);
      TypedWire("ordereddict", "items", List(items), Empty);
    }
  }

  lemma SentLeaf(kind: string, text: string)
    ensures Sent(Leaf(kind, text)) == Typed(kind, "value", Str(text), Empty)
  {
    assert ToJsonable(Leaf(kind, text)) == Typed(kind, "value", Str(text), Empty);
    hide ToJsonable, Wire, Typed;
    Scalars(Str(text));
    Unfold(Nil, Empty);
    TypedWire(kind, "value", Str(text), Empty);
  }

  lemma SentDeque(vs: Values, maxlen: Maxlen)
    ensures Sent(Deque(vs, maxlen)) == Typed("deque", "value", List(SentAll(vs)), Entry(Str("maxlen"), MaxlenField(maxlen), Empty))
  {
    var encoded, more := EncodeAll(vs), Entry(Str("maxlen"), MaxlenField(maxlen), Empty);
    assert ToJsonable(Deque(vs, maxlen)) == Typed("deque", "value", List(encoded), more);
    hide ToJsonable, Wire, Typed;
    Scalars(MaxlenField(maxlen));
    Unfold(encoded, Empty);
    FirstEntry("maxlen", MaxlenField(maxlen), Empty);
    TypedWire("deque", "value", List(encoded), more);
  }

  lemma SentDefaultDict(factory: Factory, ps: Pairs)
    ensures Sent(DefaultDict(factory, ps))
         == Typed("defaultdict", "factory", FactoryField(factory), Entry(Str("items"), List(SentPairs(ps)), Empty))
  {
    var items := EncodePairs(ps);
    assert ToJsonable(DefaultDict(factory, ps))
        == Typed("defaultdict", "factory", FactoryField(factory), Entry(Str("items"), List(items), Empty));
    hide ToJsonable, Wire, Typed;
    Scalars(FactoryField(factory));
    Unfold(items, Empty);
    FirstEntry("items", List(items), Empty);
    TypedWire("defaultdict", "factory", FactoryField(factory), Entry(Str("items"), List(items), Empty));
  }

  lemma SentDict(ps: Pairs)
    ensures Sent(Dict(ps)) == if AllStr(ps) then Dict(SentValues(ps)) else One(DICT, List(SentPairs(ps)))
  {
    assert ToJsonable(Dict(ps)) == if AllStr(ps) then Dict(EncodeValues(ps)) else One(DICT, List(EncodePairs(ps)));
    hide ToJsonable, Wire, One;
    Unfold(EncodePairs(ps), EncodeValues(ps));
    OneWire(DICT, List(EncodePairs(ps)));
  }

  lemma SentEnum(cls: string, member: Option<string>, value: Value, base: EnumBase)
    ensures Sent(Enum(cls, member, value, base))
         == if base == StrEnum then value else One(BUILTIN, Dict(EnumInfo(cls, member, Sent(value))))
  {
    if base != StrEnum {
      var info := EnumInfo(cls, member, ToJsonable(value));
      assert ToJsonable(Enum(cls, member, value, base)) == One(BUILTIN, Dict(info));
      hide ToJsonable, Wire, One, EnumInfo;
      EnumInfoFacts(cls, member, ToJsonable(value));
      Unfold(Nil, info);
      OneWire(BUILTIN, Dict(info));
    }
  }

  lemma SentObject(cls: string, state: Pairs)
    ensures Sent(Object(cls, state)) == One(OBJECT, Dict(ObjectInfo(cls, SentValues(state))))
  {
    var encoded := EncodeValues(state);
    assert ToJsonable(Object(cls, state)) == One(OBJECT, Dict(ObjectInfo(cls, encoded)));
    hide ToJsonable, Wire, One;
    Scalars(Str(cls));
    Unfold(Nil, encoded);
    TwoEntries("class", Str(cls), "state", Dict(encoded));
    Unfold(Nil, ObjectInfo(cls, encoded));
    OneWire(OBJECT, Dict(ObjectInfo(cls, encoded)));
  }

  lemma SentBytes(kind: BytesKind, bytes: seq<nat>)
    ensures Sent(Bytes(kind, bytes)) == One(BYTES, Dict(BytesInfo(kind, bytes)))
  {
    assert ToJsonable(Bytes(kind, bytes)) == One(BYTES, Dict(BytesInfo(kind, bytes)));
    hide ToJsonable, Wire, One;
    Scalars(Base64(bytes));
    Scalars(Str(KindName(kind)));
    TwoEntries("data", Base64(bytes), "type", Str(KindName(kind)));
    Unfold(Nil, BytesInfo(kind, bytes));
    OneWire(BYTES, Dict(BytesInfo(kind, bytes)));
  }

  lemma SentOpaque(data: seq<nat>)
    ensures Sent(Opaque(data)) == One(PICKLE, Base64(data))
  {
    assert ToJsonable(Opaque(data)) == One(PICKLE, Base64(data));
    hide ToJsonable, Wire, One;
    Scalars(Base64(data));
    OneWire(PICKLE, Base64(data));
  }

  /** Everything that is sent is JSON. */
  lemma {:induction false} SentIsJson(v: Value)
    requires WellFormed(v)
    ensures IsJson(Sent(v))
  {
    hide ToJsonable, Wire, Sent, Typed, One, IsJson, EnumInfo, StrList, SentAll, SentPairs, SentKeys, SentValues;
    SentCollection(v);
    SentItems(v);
    match v
    case Tuple(vs) =>
      AllSentJson(vs);
      SentTuple(vs);
      Unfold(SentAll(vs), Empty);
      OneWire(TUPLE, List(SentAll(vs)));
    case NamedTuple(cls, fields, vs) =>
      AllSentJson(vs);
      SentNamedTuple(cls, fields, vs);
      StrListJson(fields);
      Unfold(StrList(fields), Empty);
      Unfold(SentAll(vs), Empty);
      Scalars(Str(cls));
      TwoEntries("fields", List(StrList(fields)), "values", List(SentAll(vs)));
      TypedWire("namedtuple", "cls", Str(cls), TupleInfo(fields, SentAll(vs)));
    case List(vs) =>
      AllSentJson(vs);
      Unfold(SentAll(vs), Empty);
    case Set(vs) =>
      AllSentJson(vs);
      Unfold(SentAll(vs), Empty);
      TypedWire("set", "value", List(SentAll(vs)), Empty);
    case FrozenSet(vs) =>
      AllSentJson(vs);
      Unfold(SentAll(vs), Empty);
      TypedWire("frozenset", "value", List(SentAll(vs)), Empty);
    case Deque(vs, maxlen) =>
      AllSentJson(vs);
      SentDeque(vs, maxlen);
      Scalars(MaxlenField(maxlen));
      Unfold(SentAll(vs), Empty);
      FirstEntry("maxlen", MaxlenField(maxlen), Empty);
      TypedWire("deque", "value", List(SentAll(vs)), Entry(Str("maxlen"), MaxlenField(maxlen), Empty));
    case Dict(ps) =>
      PairsSentJson(ps);
      SentDict(ps);
      Unfold(SentPairs(ps), SentValues(ps));
      OneWire(DICT, List(SentPairs(ps)));
    case Counter(ps) =>
      KeysSentJson(ps);
      Unfold(SentKeys(ps), Empty);
      TypedWire("counter", "items", List(SentKeys(ps)), Empty);
    case OrderedDict(ps) =>
      PairsSentJson(ps);
      Unfold(SentPairs(ps), Empty);
      TypedWire("ordereddict", "items", List(SentPairs(ps)), Empty);
    case DefaultDict(factory, ps) =>
      PairsSentJson(ps);
      SentDefaultDict(factory, ps);
      Scalars(FactoryField(factory));
      Unfold(SentPairs(ps), Empty);
      FirstEntry("items", List(SentPairs(ps)), Empty);
      TypedWire("defaultdict", "factory", FactoryField(factory), Entry(Str("items"), List(SentPairs(ps)), Empty));
    case Enum(cls, member, value, base) =>
      SentEnum(cls, member, value, base);
      if base == StrEnum {
        Scalars(value);
      } else {
        SentIsJson(value);
        EnumInfoFacts(cls, member, Sent(value));
        Unfold(Nil, EnumInfo(cls, member, Sent(value)));
        OneWire(BUILTIN, Dict(EnumInfo(cls, member, Sent(value))));
      }
    case Object(cls, state) =>
      PairsSentJson(state);
      NamesAreStr(state);
      SentObject(cls, state);
      Scalars(Str(cls));
      Unfold(Nil, SentValues(state));
      TwoEntries("class", Str(cls), "state", Dict(SentValues(state)));
      Unfold(Nil, ObjectInfo(cls, SentValues(state)));
      OneWire(OBJECT, Dict(ObjectInfo(cls, SentValues(state))));
    case Bytes(kind, bytes) =>
      SentBytes(kind, bytes);
      Scalars(Base64(bytes));
      Scalars(Str(KindName(kind)));
      TwoEntries("data", Base64(bytes), "type", Str(KindName(kind)));
      Unfold(Nil, BytesInfo(kind, bytes));
      OneWire(BYTES, Dict(BytesInfo(kind, bytes)));
    case Leaf(kind, text) =>
      SentLeaf(kind, text);
      Scalars(Str(text));
      Unfold(Nil, Empty);
      TypedWire(kind, "value", Str(text), Empty);
    case Opaque(data) =>
      SentOpaque(data);
      Scalars(Base64(data));
      OneWire(PICKLE, Base64(data));
    case _ =>
      SentScalar(v);
      Scalars(v);
  }

  lemma SentScalar(v: Value)
    requires v.Null? || v.Bool? || v.Int? || v.Float? || v.Str? || v.Base64?
    ensures Sent(v) == v
  {
  }

  lemma {:induction false} AllSentJson(vs: Values)
    requires AllWellFormed(vs)
    ensures AllJson(SentAll(vs))
  {
    if vs.Cons? {
      SentIsJson(vs.head);
      AllSentJson(vs.tail);
    }
  }

  lemma {:induction false} PairsSentJson(ps: Pairs)
    requires PairsWellFormed(ps)
    ensures AllJson(SentPairs(ps))
    ensures AllStr(ps) ==> PairsJson(SentValues(ps))
  {
    if ps.Entry? {
      SentIsJson(ps.key);
      SentIsJson(ps.value);
      PairListWire(ToJsonable(ps.key), ToJsonable(ps.value));
      PairListWire(Sent(ps.key), Sent(ps.value));
      PairsSentJson(ps.rest);
    }
  }

  lemma {:induction false} KeysSentJson(ps: Pairs)
    requires PairsWellFormed(ps) && AllCounts(ps)
    ensures AllJson(SentKeys(ps))
  {
    if ps.Entry? {
      SentIsJson(ps.key);
      PairListWire(ToJsonable(ps.key), ps.value);
      PairListWire(Sent(ps.key), ps.value);
      KeysSentJson(ps.rest);
    }
  }

  lemma {:induction false} NamesAreStr(ps: Pairs)
    requires AllNames(ps)
    ensures AllStr(ps)
  {
    if ps.Entry? {
      NamesAreStr(ps.rest);
    }
  }

  lemma {:induction false} StrListJson(ss: seq<string>)
    ensures AllJson(StrList(ss))
  {
    if ss != [] {
      StrListJson(ss[1..]);
    }
  }

  /** Encoding what was sent a second time changes nothing. */
  lemma SentOnce(v: Value)
    requires WellFormed(v)
    ensures Sent(Sent(v)) == Sent(v)
  {
    SentIsJson(v);
    JsonUnchanged(Sent(v));
  }

  // ---- Which values come back ----

  /** The text of a key that is a str. */
  function KeyText(k: Value): Option<string> {
    match k
    case Str(s) => Some(s)
    case Enum(_, _, Str(s), StrEnum) => Some(s)
    case _ => None
  }

  predicate SentinelOnly(ps: Pairs) {
    ps.Entry? && ps.rest.Empty? && KeyText(ps.key).Some? && IsSentinel(KeyText(ps.key).value)
  }

  /** A plain dict whose only key is the object sentinel is kept if it is JSON that names a class
      the namespace does not have. */
  predicate KeptAsIs(k: Value, w: Value, ns: Namespace) {
    && k == Str(OBJECT) && IsJson(w) && w.Dict?
    && Field(w.pairs, "class").Some? && Field(w.pairs, "class").value.Str? && Field(w.pairs, "class").value.s !in ns
  }

  /** The worker has what it takes to rebuild a value: the classes it names, and no part whose
      kind is lost, as a str enum, a factory that is no builtin, or a plain dict that is taken
      for what its only key announces. */
  predicate Recoverable(v: Value, ns: Namespace) {
    match v
    case Tuple(vs) => AllRecoverable(vs, ns)
    case NamedTuple(cls, fields, vs) => cls in ns && ns[cls] == TupleClass(fields) && AllRecoverable(vs, ns)
    case List(vs) => AllRecoverable(vs, ns)
    case Set(vs) => AllRecoverable(vs, ns)
    case FrozenSet(vs) => AllRecoverable(vs, ns)
    case Deque(vs, _) => AllRecoverable(vs, ns)
    case Dict(ps) =>
      if SentinelOnly(ps) then KeptAsIs(ps.key, ps.value, ns) else KeysRecoverable(ps, ns) && ValuesRecoverable(ps, ns)
    case Counter(ps) => KeysRecoverable(ps, ns)
    case OrderedDict(ps) => KeysRecoverable(ps, ns) && ValuesRecoverable(ps, ns)
    case DefaultDict(factory, ps) => !factory.OtherFactory? && KeysRecoverable(ps, ns) && ValuesRecoverable(ps, ns)
    case Enum(cls, member, value, base) =>
      base != StrEnum && cls in ns && ns[cls].EnumClass? && ns[cls].enumBase == base
      && (if member.Some? && Field(ns[cls].members, member.value).Some?
          then Field(ns[cls].members, member.value) == Some(value)
          else Recoverable(value, ns) && FindByValue(ns[cls], value) == Some(member))
    case Leaf(kind, _) => kind != "path"
    case Object(cls, state) => cls in ns && ns[cls].PlainClass? && ValuesRecoverable(state, ns)
    case _ => true
  }

  predicate AllRecoverable(vs: Values, ns: Namespace) {
    match vs case Nil => true case Cons(v, rest) => Recoverable(v, ns) && AllRecoverable(rest, ns)
  }

  predicate KeysRecoverable(ps: Pairs, ns: Namespace) {
    match ps case Empty => true case Entry(k, _, rest) => Recoverable(k, ns) && KeysRecoverable(rest, ns)
  }

  predicate ValuesRecoverable(ps: Pairs, ns: Namespace) {
    match ps case Empty => true case Entry(_, v, rest) => Recoverable(v, ns) && ValuesRecoverable(rest, ns)
  }

  // ---- One case at a time ----

  /** Reading a sentinel goes to the branch of that sentinel. */
  lemma ReadSentinel(s: string, v: Value, ns: Namespace)
    requires IsSentinel(s)
    ensures Resolve(One(s, v), ns) == ResolveSentinel(s, v, ns)
  {
  }

  lemma {:induction false} ResolveAllLength(vs: Values, ns: Namespace)
    ensures ResolveAll(vs, ns).Ok? ==> Length(ResolveAll(vs, ns).value) == Length(vs)
  {
    if vs.Cons? {
      ResolveAllLength(vs.tail, ns);
    }
  }

  lemma {:induction false} ResolvePairsCount(vs: Values, ns: Namespace, raw: bool)
    ensures ResolvePairs(vs, ns, raw).Ok? ==> Count(ResolvePairs(vs, ns, raw).value) == Length(vs)
  {
    if vs.Cons? {
      ResolvePairsCount(vs.tail, ns, raw);
    }
  }

  lemma {:induction false} SentLength(vs: Values)
    ensures Length(SentAll(vs)) == Length(vs)
  {
    if vs.Cons? {
      SentLength(vs.tail);
    }
  }

  lemma {:induction false} SentCounts(ps: Pairs)
    ensures Length(SentPairs(ps)) == Count(ps)
    ensures Length(SentKeys(ps)) == Count(ps)
  {
    if ps.Entry? {
      SentCounts(ps.rest);
    }
  }

  lemma OnlyBuiltinGivesEnum(s: string, v: Value, ns: Namespace)
    requires IsSentinel(s) && ResolveSentinel(s, v, ns).Ok? && ResolveSentinel(s, v, ns).value.Enum?
    ensures s == BUILTIN && v.Dict? && ResolveSentinel(s, v, ns) == ResolveBuiltin(v.pairs, ns)
  {
  }

  lemma OnlyEnumGivesEnum(info: Pairs, ns: Namespace)
    requires ResolveBuiltin(info, ns).Ok? && ResolveBuiltin(info, ns).value.Enum?
    ensures ResolveBuiltin(info, ns) == ResolveEnum(info, ns)
  {
  }

  lemma JsonEnum(v: Value, ns: Namespace) returns (info: Pairs)
    requires IsJson(v) && Resolve(v, ns).Ok? && Resolve(v, ns).value.Enum?
    ensures PairsJson(info) && SizePairs(info) < Size(v) && Resolve(v, ns) == ResolveEnum(info, ns)
  {
    assert v.Dict?;
    var ps := v.pairs;
    assert ps.Entry? && PairsJson(ps) && Size(v) == 1 + SizePairs(ps);
    OnlyBuiltinGivesEnum(ps.key.s, ps.value, ns);
    info := ps.value.pairs;
    assert IsJson(ps.value) && Size(ps.value) == 1 + SizePairs(info);
    OnlyEnumGivesEnum(info, ns);
  }

  /** A decoded enum member belongs to a class of the namespace. */
  lemma {:induction false} DecodedEnumKnown(v: Value, ns: Namespace)
    requires IsJson(v) && Resolve(v, ns).Ok? && Resolve(v, ns).value.Enum?
    ensures Resolve(v, ns).value.cls in ns
    decreases Size(v)
  {
    var info := JsonEnum(v, ns);
    hide Resolve, IsJson;
    var raw := Field(info, "value");
    if raw.Some? {
      FieldIsJson(info, "value");
      if Resolve(raw.value, ns).Ok? && Resolve(raw.value, ns).value.Enum? {
        DecodedEnumKnown(raw.value, ns);
      }
    }
  }

  lemma {:induction false} FieldIsJson(ps: Pairs, name: string)
    requires PairsJson(ps) && Field(ps, name).Some?
    ensures IsJson(Field(ps, name).value)
  {
    if ps.key != Str(name) {
      FieldIsJson(ps.rest, name);
    }
  }

  /** A member comes back by its name, if its class has a member of that name; otherwise, as a
      combination of flags does, if its value comes back and belongs to a member of its name. */
  lemma EnumDecides(v: Value, info: Pairs, ns: Namespace)
    requires v.Enum? && WellFormed(v) && v.base != StrEnum
    requires Field(info, "cls") == Some(Str(v.cls)) && Field(info, "name") == Some(NameField(v.member))
    requires Field(info, "value") == Some(Sent(v.value))
    requires Resolve(Sent(v.value), ns) == Ok(v.value) <==> Recoverable(v.value, ns)
    ensures ResolveEnum(info, ns) == Ok(v) <==> Recoverable(v, ns)
  {
    hide Resolve, Sent, IsJson;
    if v.cls !in ns {
      SentIsJson(v.value);
      if Resolve(Sent(v.value), ns).Ok? && Resolve(Sent(v.value), ns).value.Enum? {
        DecodedEnumKnown(Sent(v.value), ns);
      }
    }
  }

  // ---- Decoding, one kind at a time ----

  /** Applies a constructor to the result of decoding a list. */
  function Map<S, T>(r: Result<S>, f: S -> T): Result<T> {
    match r case Ok(x) => Ok(f(x)) case Err => Err
  }

  lemma ReadList(vs: Values, ns: Namespace)
    ensures Resolve(List(vs), ns) == Map(ResolveAll(vs, ns), ws => List(ws))
  {
  }

  lemma ReadTuple(vs: Values, ns: Namespace)
    ensures Resolve(One(TUPLE, List(vs)), ns) == Map(ResolveAll(vs, ns), ws => Tuple(ws))
  {
    ReadSentinel(TUPLE, List(vs), ns);
  }

  lemma ReadDict(vs: Values, ns: Namespace)
    ensures Resolve(One(DICT, List(vs)), ns) == Map(ResolvePairs(vs, ns, false), ps => Dict(DictOf(ps)))
  {
    ReadSentinel(DICT, List(vs), ns);
  }

  lemma ReadPlainDict(ps: Pairs, ns: Namespace)
    requires !(ps.Entry? && ps.rest.Empty? && ps.key.Str? && IsSentinel(ps.key.s))
    ensures Resolve(Dict(ps), ns) == Map(ResolveValues(ps, ns), qs => Dict(qs))
  {
  }

  function TypedInfo(kind: string, field: string, v: Value, more: Pairs): Pairs {
    Entry(Str("type"), Str(kind), Entry(Str(field), v, more))
  }

  lemma ReadTyped(kind: string, field: string, v: Value, more: Pairs, ns: Namespace)
    requires field != "type"
    ensures var info := TypedInfo(kind, field, v, more);
      && Resolve(Typed(kind, field, v, more), ns) == ResolveBuiltin(info, ns)
      && Field(info, "type") == Some(Str(kind)) && Field(info, field) == Some(v)
      && forall name :: name != "type" && name != field ==> Field(info, name) == Field(more, name)
  {
    var info := TypedInfo(kind, field, v, more);
    FirstEntry("type", Str(kind), info.rest);
    FirstEntry(field, v, more);
    ReadSentinel(BUILTIN, Dict(info), ns);
    assert Typed(kind, field, v, more) == One(BUILTIN, Dict(info));
  }

  /** The branch of _decode_builtin for each kind of collection. */
  lemma Dispatch(info: Pairs, kind: string, ns: Namespace)
    requires Field(info, "type") == Some(Str(kind))
    ensures kind == "set" ==> ResolveBuiltin(info, ns) == Map(ResolveField(info, "value", ns), ws => Set(SetOf(ws)))
    ensures kind == "frozenset" ==> ResolveBuiltin(info, ns) == Map(ResolveField(info, "value", ns), ws => FrozenSet(SetOf(ws)))
    ensures kind == "deque" ==> ResolveBuiltin(info, ns) == ResolveDeque(info, ns)
    ensures kind == "counter" ==> ResolveBuiltin(info, ns) == Map(ResolveItems(info, ns, true), ps => Counter(DictOf(ps)))
    ensures kind == "ordereddict" ==> ResolveBuiltin(info, ns) == Map(ResolveItems(info, ns, false), ps => OrderedDict(DictOf(ps)))
    ensures kind == "defaultdict" ==>
      ResolveBuiltin(info, ns)
      == Map(ResolveItems(info, ns, false), ps => DefaultDict(FactoryOf(Field(info, "factory")), DictOf(ps)))
    ensures kind == "namedtuple" ==> ResolveBuiltin(info, ns) == ResolveNamedTuple(info, ns)
  {
    hide ResolveField, ResolveItems, ResolveDeque, ResolveNamedTuple, ResolveEnum, FactoryOf, SetOf, DictOf, Field;
  }

  lemma ReadField(info: Pairs, field: string, vs: Values, ns: Namespace)
    requires Field(info, field) == Some(List(vs))
    ensures ResolveField(info, field, ns) == ResolveAll(vs, ns)
    ensures field == "items" ==> forall raw :: ResolveItems(info, ns, raw) == ResolvePairs(vs, ns, raw)
  {
    hide Field, ResolveAll, ResolvePairs;
  }

  lemma ReadCollection(vs: Values, ns: Namespace)
    ensures Resolve(Typed("set", "value", List(vs), Empty), ns) == Map(ResolveAll(vs, ns), ws => Set(SetOf(ws)))
    ensures Resolve(Typed("frozenset", "value", List(vs), Empty), ns) == Map(ResolveAll(vs, ns), ws => FrozenSet(SetOf(ws)))
  {
    hide Resolve, Typed, ResolveBuiltin, Field, ResolveField, SetOf, TypedInfo;
    ReadTyped("set", "value", List(vs), Empty, ns);
    ReadTyped("frozenset", "value", List(vs), Empty, ns);
    var info, frozen := TypedInfo("set", "value", List(vs), Empty), TypedInfo("frozenset", "value", List(vs), Empty);
    Dispatch(info, "set", ns);
    Dispatch(frozen, "frozenset", ns);
    ReadField(info, "value", vs, ns);
    ReadField(frozen, "value", vs, ns);
  }

  function DequeOf(ws: Values, maxlen: Maxlen): Value {
    Deque(if maxlen.Bounded? then LastN(ws, maxlen.n) else ws, maxlen)
  }

  lemma ReadDeque(vs: Values, maxlen: Maxlen, ns: Namespace)
    ensures Resolve(Typed("deque", "value", List(vs), Entry(Str("maxlen"), MaxlenField(maxlen), Empty)), ns)
         == Map(ResolveAll(vs, ns), ws => DequeOf(ws, maxlen))
  {
    hide Resolve, Typed, ResolveBuiltin, Field, ResolveField, TypedInfo;
    var more := Entry(Str("maxlen"), MaxlenField(maxlen), Empty);
    FirstEntry("maxlen", MaxlenField(maxlen), Empty);
    ReadTyped("deque", "value", List(vs), more, ns);
    var info := TypedInfo("deque", "value", List(vs), more);
    Dispatch(info, "deque", ns);
    ReadField(info, "value", vs, ns);
    assert Field(info, "maxlen") == Some(MaxlenField(maxlen));
  }

  lemma ReadItems(vs: Values, ns: Namespace)
    ensures Resolve(Typed("counter", "items", List(vs), Empty), ns) == Map(ResolvePairs(vs, ns, true), ps => Counter(DictOf(ps)))
    ensures Resolve(Typed("ordereddict", "items", List(vs), Empty), ns)
         == Map(ResolvePairs(vs, ns, false), ps => OrderedDict(DictOf(ps)))
  {
    hide Resolve, Typed, ResolveBuiltin, Field, ResolveItems, DictOf, TypedInfo;
    ReadTyped("counter", "items", List(vs), Empty, ns);
    ReadTyped("ordereddict", "items", List(vs), Empty, ns);
    var info, ordered := TypedInfo("counter", "items", List(vs), Empty), TypedInfo("ordereddict", "items", List(vs), Empty);
    Dispatch(info, "counter", ns);
    Dispatch(ordered, "ordereddict", ns);
    ReadField(info, "items", vs, ns);
    ReadField(ordered, "items", vs, ns);
  }

  lemma ReadDefaultDict(factory: Factory, vs: Values, ns: Namespace)
    requires factory.Builtin? ==> IsFactory(factory.name)
    ensures Resolve(Typed("defaultdict", "factory", FactoryField(factory), Entry(Str("items"), List(vs), Empty)), ns)
         == Map(ResolvePairs(vs, ns, false), ps => DefaultDict(if factory.Builtin? then factory else NoFactory, DictOf(ps)))
  {
    hide Resolve, Typed, ResolveBuiltin, Field, ResolveItems, DictOf, TypedInfo;
    var more := Entry(Str("items"), List(vs), Empty);
    FirstEntry("items", List(vs), Empty);
    ReadTyped("defaultdict", "factory", FactoryField(factory), more, ns);
    var info := TypedInfo("defaultdict", "factory", FactoryField(factory), more);
    Dispatch(info, "defaultdict", ns);
    assert Field(info, "items") == Some(List(vs));
    ReadField(info, "items", vs, ns);
    assert FactoryOf(Field(info, "factory")) == if factory.Builtin? then factory else NoFactory;
  }

  function NamedTupleOf(cls: string, ws: Values, ns: Namespace): Result<Value> {
    if cls !in ns then Ok(Tuple(ws))
    else if ns[cls].TupleClass? && |ns[cls].fields| == Length(ws) then Ok(NamedTuple(cls, ns[cls].fields, ws))
    else Err
  }

  lemma ReadNamedTuple(cls: string, fields: seq<string>, vs: Values, ns: Namespace)
    ensures Resolve(Typed("namedtuple", "cls", Str(cls), TupleInfo(fields, vs)), ns)
         == match ResolveAll(vs, ns) case Err => Err case Ok(ws) => NamedTupleOf(cls, ws, ns)
  {
    hide Resolve, Typed, ResolveBuiltin, Field, ResolveField, TypedInfo, TupleInfo;
    TupleValues(fields, vs);
    ReadTyped("namedtuple", "cls", Str(cls), TupleInfo(fields, vs), ns);
    var info := TypedInfo("namedtuple", "cls", Str(cls), TupleInfo(fields, vs));
    Dispatch(info, "namedtuple", ns);
    assert Field(info, "values") == Some(List(vs));
    ReadField(info, "values", vs, ns);
  }

  lemma TupleValues(fields: seq<string>, vs: Values)
    ensures Field(TupleInfo(fields, vs), "values") == Some(List(vs))
  {
    TwoEntries("fields", List(StrList(fields)), "values", List(vs));
  }

  lemma ReadLeaf(kind: string, text: string, ns: Namespace)
    requires IsLeafKind(kind)
    ensures Resolve(Typed(kind, "value", Str(text), Empty), ns) == Ok(Leaf(Rebuilt(kind), text))
  {
    ReadTyped(kind, "value", Str(text), Empty, ns);
    hide Resolve, Typed;
  }

  lemma ReadEnum(cls: string, member: Option<string>, w: Value, ns: Namespace)
    ensures Resolve(One(BUILTIN, Dict(EnumInfo(cls, member, w))), ns) == ResolveEnum(EnumInfo(cls, member, w), ns)
  {
    EnumInfoFacts(cls, member, w);
    ReadSentinel(BUILTIN, Dict(EnumInfo(cls, member, w)), ns);
    hide Resolve, EnumInfo;
    assert !IsLeafKind("enum");
  }

  lemma ReadObject(cls: string, state: Pairs, ns: Namespace)
    ensures Resolve(One(OBJECT, Dict(ObjectInfo(cls, state))), ns)
         == if cls !in ns then Ok(One(OBJECT, Dict(ObjectInfo(cls, state))))
            else if !ns[cls].PlainClass? then Err
            else Map(ResolveValues(state, ns), ps => Object(cls, ps))
  {
    TwoEntries("class", Str(cls), "state", Dict(state));
    ReadSentinel(OBJECT, Dict(ObjectInfo(cls, state)), ns);
  }

  lemma ReadBytes(kind: BytesKind, data: seq<nat>, ns: Namespace)
    ensures Resolve(One(BYTES, Dict(BytesInfo(kind, data))), ns) == Ok(Bytes(kind, data))
  {
    TwoEntries("data", Base64(data), "type", Str(KindName(kind)));
    ReadSentinel(BYTES, Dict(BytesInfo(kind, data)), ns);
  }

  // ---- The dicts that are taken for something else ----

  /** How deep lists and dicts nest, as far as decoding can bring them back: nothing else counts,
      nor does an object's dict; an enum of a class that the namespace lacks counts as its value. */
  function Nesting(v: Value, ns: Namespace): nat {
    match v
    case List(vs) => 1 + DeepestOf(vs, ns)
    case Dict(ps) => if ps.Entry? && ps.rest.Empty? && ps.key == Str(OBJECT) then 0 else 1 + DeepestIn(ps, ns)
    case Enum(cls, _, value, _) => if cls in ns then 0 else Nesting(value, ns)
    case _ => 0
  }

  function DeepestOf(vs: Values, ns: Namespace): nat {
    match vs case Nil => 0 case Cons(v, rest) => Max(Nesting(v, ns), DeepestOf(rest, ns))
  }

  function DeepestIn(ps: Pairs, ns: Namespace): nat {
    match ps case Empty => 0 case Entry(_, v, rest) => Max(Nesting(v, ns), DeepestIn(rest, ns))
  }

  function Max(a: nat, b: nat): nat {
    if a < b then b else a
  }

  /** Assigning keys adds no nesting. */
  lemma {:induction false} AssignNesting(ps: Pairs, k: Value, v: Value, ns: Namespace)
    ensures DeepestIn(Assign(ps, k, v), ns) <= Max(DeepestIn(ps, ns), Nesting(v, ns))
  {
    if ps.Entry? {
      AssignNesting(ps.rest, k, v, ns);
    }
  }

  lemma {:induction false} AssignAllNesting(done: Pairs, ps: Pairs, ns: Namespace)
    ensures DeepestIn(AssignAll(done, ps), ns) <= Max(DeepestIn(done, ns), DeepestIn(ps, ns))
    decreases ps
  {
    if ps.Entry? {
      AssignNesting(done, ps.key, ps.value, ns);
      AssignAllNesting(Assign(done, ps.key, ps.value), ps.rest, ns);
    }
  }

  lemma DictNesting(ps: Pairs, ns: Namespace)
    ensures Nesting(Dict(DictOf(ps)), ns) <= 1 + DeepestIn(ps, ns)
  {
    AssignAllNesting(Empty, ps, ns);
  }

  /** A dict with one string key is sent with the text of that key. */
  lemma SentKeyed(k: Value, w: Value)
    requires KeyText(k).Some?
    ensures Sent(Dict(Entry(k, w, Empty))) == One(KeyText(k).value, Sent(w))
  {
    assert AllStr(Entry(k, w, Empty));
    SentDict(Entry(k, w, Empty));
    PairsStep(Entry(k, w, Empty));
    assert SentValues(Empty) == Empty;
    hide Sent, SentValues;
  }

  /** Only lists are sent as lists, and only plain dicts as dicts that have a type. */
  lemma SentShapes(v: Value)
    requires WellFormed(v)
    ensures Sent(v).List? ==> v.List? && Sent(v) == List(SentAll(v.items))
    ensures Sent(v).Dict? && Field(Sent(v).pairs, "type").Some? ==>
      v.Dict? && AllStr(v.pairs) && Sent(v) == Dict(SentValues(v.pairs))
  {
    hide Sent, SentAll, SentValues, SentPairs, SentKeys, TupleInfo, EnumInfo, ObjectInfo, BytesInfo, StrList, AllStr;
    SentCollection(v);
    SentItems(v);
    match v
    case Tuple(vs) => SentTuple(vs);
    case NamedTuple(cls, fields, vs) => SentNamedTuple(cls, fields, vs);
    case Deque(vs, maxlen) => SentDeque(vs, maxlen);
    case Dict(ps) => SentDict(ps);
    case DefaultDict(factory, ps) => SentDefaultDict(factory, ps);
    case Leaf(kind, text) => SentLeaf(kind, text);
    case Enum(cls, member, value, base) => SentEnum(cls, member, value, base);
    case Object(cls, state) => SentObject(cls, state);
    case Bytes(kind, bytes) => SentBytes(kind, bytes);
    case Opaque(data) => SentOpaque(data);
    case List(_) =>
    case Set(_) =>
    case FrozenSet(_) =>
    case Counter(_) =>
    case OrderedDict(_) =>
    case _ => SentScalar(v);
  }

  /** What the object, bytes, tuple and pickle sentinels announce does not nest. */
  lemma SentinelFlat(s: string, x: Value, ns: Namespace)
    requires s == OBJECT || s == BYTES || s == TUPLE || s == PICKLE
    ensures Resolve(One(s, x), ns).Ok? ==>
      Nesting(Resolve(One(s, x), ns).value, ns) == 0 && (s != OBJECT ==> !Resolve(One(s, x), ns).value.Dict?)
  {
    ReadSentinel(s, x, ns);
    hide Resolve, ResolveAll, ResolveValues, Field;
  }

  /** A decoded builtin does not nest, unless it is an enum of a missing class. */
  lemma BuiltinFlat(info: Pairs, ns: Namespace)
    requires ResolveBuiltin(info, ns).Ok?
    ensures Field(info, "type").Some?
    ensures Nesting(ResolveBuiltin(info, ns).value, ns) == 0
         || (Field(info, "type") == Some(Str("enum")) && Field(info, "value").Some?
             && Resolve(Field(info, "value").value, ns) == ResolveBuiltin(info, ns))
  {
    hide Resolve, ResolveAll, ResolvePairs, ResolveValues, Field, SetOf, DictOf;
  }

  lemma TypedFlat(kind: string, field: string, x: Value, more: Pairs, ns: Namespace)
    requires field != "type" && kind != "enum"
    ensures Resolve(Typed(kind, field, x, more), ns).Ok? ==> Nesting(Resolve(Typed(kind, field, x, more), ns).value, ns) == 0
  {
    ReadTyped(kind, field, x, more, ns);
    hide Resolve, Typed, ResolveBuiltin, Field;
    if ResolveBuiltin(TypedInfo(kind, field, x, more), ns).Ok? {
      BuiltinFlat(TypedInfo(kind, field, x, more), ns);
    }
  }

  /** Sending and reading a value never makes it nest deeper. */
  lemma {:induction false} NestsNoDeeper(v: Value, ns: Namespace)
    requires WellFormed(v)
    ensures Resolve(Sent(v), ns).Ok? ==> Nesting(Resolve(Sent(v), ns).value, ns) <= Nesting(v, ns)
    decreases v
  {
    hide Resolve, ResolveAll, ResolvePairs, ResolveValues, Sent, SentAll, SentPairs, SentKeys, SentValues, Typed, One, EnumInfo;
    hide SetOf, DictOf, Length, Count, Field, Distinct, DistinctKeys, FactoryField, MaxlenField, TupleInfo, ObjectInfo, BytesInfo;
    SentCollection(v);
    SentItems(v);
    match v
    case Tuple(vs) =>
      SentTuple(vs);
      SentinelFlat(TUPLE, List(SentAll(vs)), ns);
    case NamedTuple(cls, fields, vs) =>
      SentNamedTuple(cls, fields, vs);
      TypedFlat("namedtuple", "cls", Str(cls), TupleInfo(fields, SentAll(vs)), ns);
    case List(vs) =>
      AllNestNoDeeper(vs, ns);
      ReadList(SentAll(vs), ns);
    case Set(vs) =>
      TypedFlat("set", "value", List(SentAll(vs)), Empty, ns);
    case FrozenSet(vs) =>
      TypedFlat("frozenset", "value", List(SentAll(vs)), Empty, ns);
    case Deque(vs, maxlen) =>
      SentDeque(vs, maxlen);
      TypedFlat("deque", "value", List(SentAll(vs)), Entry(Str("maxlen"), MaxlenField(maxlen), Empty), ns);
    case Dict(ps) =>
      DictNestsNoDeeper(ps, ns);
    case Counter(ps) =>
      TypedFlat("counter", "items", List(SentKeys(ps)), Empty, ns);
    case OrderedDict(ps) =>
      TypedFlat("ordereddict", "items", List(SentPairs(ps)), Empty, ns);
    case DefaultDict(factory, ps) =>
      SentDefaultDict(factory, ps);
      TypedFlat("defaultdict", "factory", FactoryField(factory), Entry(Str("items"), List(SentPairs(ps)), Empty), ns);
    case Leaf(kind, text) =>
      SentLeaf(kind, text);
      TypedFlat(kind, "value", Str(text), Empty, ns);
    case Enum(cls, member, value, base) =>
      SentEnum(cls, member, value, base);
      if base == StrEnum {
        SentScalar(value);
        ReadScalar(value, ns);
      } else {
        NestsNoDeeper(value, ns);
        EnumInfoFacts(cls, member, Sent(value));
        ReadEnum(cls, member, Sent(value), ns);
        EnumNesting(EnumInfo(cls, member, Sent(value)), cls, Sent(value), ns);
      }
    case Object(cls, state) =>
      SentObject(cls, state);
      SentinelFlat(OBJECT, Dict(ObjectInfo(cls, SentValues(state))), ns);
    case Bytes(kind, bytes) =>
      SentBytes(kind, bytes);
      SentinelFlat(BYTES, Dict(BytesInfo(kind, bytes)), ns);
    case Opaque(data) =>
      SentOpaque(data);
      SentinelFlat(PICKLE, Base64(data), ns);
    case _ =>
      SentScalar(v);
      ReadScalar(v, ns);
  }

  lemma EnumNesting(info: Pairs, cls: string, x: Value, ns: Namespace)
    requires Field(info, "cls") == Some(Str(cls)) && Field(info, "value") == Some(x)
    ensures cls !in ns ==> ResolveEnum(info, ns) == Resolve(x, ns)
    ensures cls in ns && ResolveEnum(info, ns).Ok? ==> Nesting(ResolveEnum(info, ns).value, ns) == 0
  {
    hide Resolve, Field;
  }

  lemma {:induction false} AllNestNoDeeper(vs: Values, ns: Namespace)
    requires AllWellFormed(vs)
    ensures ResolveAll(SentAll(vs), ns).Ok? ==> DeepestOf(ResolveAll(SentAll(vs), ns).value, ns) <= DeepestOf(vs, ns)
    decreases vs
  {
    if vs.Cons? {
      NestsNoDeeper(vs.head, ns);
      AllNestNoDeeper(vs.tail, ns);
      assert SentAll(vs) == Cons(Sent(vs.head), SentAll(vs.tail));
      hide Sent, Resolve, SentAll, Nesting, WellFormed;
    }
  }

  lemma {:induction false} PairsNestNoDeeper(ps: Pairs, ns: Namespace)
    requires PairsWellFormed(ps)
    ensures ResolvePairs(SentPairs(ps), ns, false).Ok? ==> DeepestIn(ResolvePairs(SentPairs(ps), ns, false).value, ns) <= DeepestIn(ps, ns)
    decreases ps, 0
  {
    if ps.Entry? {
      NestsNoDeeper(ps.value, ns);
      PairsNestNoDeeper(ps.rest, ns);
      PairsStep(ps);
      hide Sent, Resolve, SentPairs, Nesting, WellFormed, PairList;
      ReadPair(Sent(ps.key), Sent(ps.value), SentPairs(ps.rest), ns, false);
    }
  }

  lemma {:induction false} ValuesNestNoDeeper(ps: Pairs, ns: Namespace)
    requires PairsWellFormed(ps)
    ensures ResolveValues(SentValues(ps), ns).Ok? ==> DeepestIn(ResolveValues(SentValues(ps), ns).value, ns) <= DeepestIn(ps, ns)
    decreases ps, 0
  {
    if ps.Entry? {
      NestsNoDeeper(ps.value, ns);
      ValuesNestNoDeeper(ps.rest, ns);
      PairsStep(ps);
      hide Sent, Resolve, SentValues, Nesting, WellFormed;
    }
  }

  /** The decoded field of a sent dict. */
  lemma {:induction false} FieldNestsNoDeeper(ps: Pairs, name: string, ns: Namespace)
    requires PairsWellFormed(ps) && Field(SentValues(ps), name).Some?
    ensures var r := Resolve(Field(SentValues(ps), name).value, ns); r.Ok? ==> Nesting(r.value, ns) <= DeepestIn(ps, ns)
    decreases ps
  {
    if ps.Entry? {
      PairsStep(ps);
      NestsNoDeeper(ps.value, ns);
      hide Sent, Resolve, SentValues, Nesting, WellFormed;
      if Wire(ps.key) != Str(name) {
        FieldNestsNoDeeper(ps.rest, name, ns);
      }
    }
  }

  /** Lists of two read as keys and values. */
  lemma {:induction false} ListedPairsNestNoDeeper(xs: Values, ns: Namespace)
    requires AllWellFormed(xs)
    ensures ResolvePairs(SentAll(xs), ns, false).Ok? ==> DeepestIn(ResolvePairs(SentAll(xs), ns, false).value, ns) <= DeepestOf(xs, ns)
    decreases xs
  {
    if xs.Cons? {
      var x := xs.head;
      assert SentAll(xs) == Cons(Sent(x), SentAll(xs.tail));
      ListedPairsNestNoDeeper(xs.tail, ns);
      hide Resolve, Sent, SentAll, Nesting, WellFormed, AllWellFormed;
      if TwoItems(Sent(x)).Some? {
        TwoSent(x, ns);
        NestsNoDeeper(x.items.tail.head, ns);
      }
    }
  }

  lemma TwoSent(x: Value, ns: Namespace)
    requires WellFormed(x) && TwoItems(Sent(x)).Some?
    ensures x.List? && x.items.Cons? && x.items.tail.Cons? && x.items.tail.tail.Nil?
    ensures var second := x.items.tail.head;
      WellFormed(second) && TwoItems(Sent(x)).value == (Sent(x.items.head), Sent(second)) && Nesting(second, ns) <= Nesting(x, ns)
  {
    hide Sent, SentAll, Nesting, WellFormed;
    SentShapes(x);
    var vs := x.items;
    SentStep(vs);
    if vs.Cons? {
      SentStep(vs.tail);
      if vs.tail.Cons? {
        SentStep(vs.tail.tail);
        SecondNesting(x, ns);
      }
    }
  }

  lemma SentStep(vs: Values)
    ensures SentAll(vs) == match vs case Nil => Nil case Cons(v, rest) => Cons(Sent(v), SentAll(rest))
  {
  }

  lemma SecondNesting(x: Value, ns: Namespace)
    requires WellFormed(x) && x.List? && x.items.Cons? && x.items.tail.Cons?
    ensures WellFormed(x.items.tail.head) && Nesting(x.items.tail.head, ns) <= Nesting(x, ns)
  {
    var tail := x.items.tail;
    assert AllWellFormed(x.items) && AllWellFormed(tail);
    assert DeepestOf(x.items, ns) >= DeepestOf(tail, ns) >= Nesting(tail.head, ns);
  }

  /** A plain dict, whatever its keys. */
  lemma {:induction false} DictNestsNoDeeper(ps: Pairs, ns: Namespace)
    requires PairsWellFormed(ps)
    ensures Resolve(Sent(Dict(ps)), ns).Ok? ==> Nesting(Resolve(Sent(Dict(ps)), ns).value, ns) <= Nesting(Dict(ps), ns)
    decreases ps, 1
  {
    hide Resolve, Sent, SentValues, SentPairs, ResolveValues, ResolvePairs, DictOf, One;
    SentDict(ps);
    if SentinelOnly(ps) {
      SentKeyed(ps.key, ps.value);
      var s := KeyText(ps.key).value;
      if s == BUILTIN {
        BuiltinNesting(ps.value, ns);
      } else if s == DICT {
        ListedDictNesting(ps.value, ns);
      } else {
        SentinelFlat(s, Sent(ps.value), ns);
      }
    } else if AllStr(ps) {
      ValuesNestNoDeeper(ps, ns);
      PlainKeys(ps);
      ReadPlainDict(SentValues(ps), ns);
    } else {
      PairsNestNoDeeper(ps, ns);
      ReadDict(SentPairs(ps), ns);
      if ResolvePairs(SentPairs(ps), ns, false).Ok? {
        DictNesting(ResolvePairs(SentPairs(ps), ns, false).value, ns);
      }
    }
  }

  /** What the builtin sentinel announces nests no deeper than what follows it. */
  lemma {:induction false} BuiltinNesting(w: Value, ns: Namespace)
    requires WellFormed(w)
    ensures Resolve(One(BUILTIN, Sent(w)), ns).Ok? ==> Nesting(Resolve(One(BUILTIN, Sent(w)), ns).value, ns) <= Nesting(w, ns)
    decreases w
  {
    hide Resolve, Sent, SentValues, One, Field, ResolveBuiltin;
    ReadSentinel(BUILTIN, Sent(w), ns);
    if Resolve(One(BUILTIN, Sent(w)), ns).Ok? {
      var info := Sent(w).pairs;
      BuiltinFlat(info, ns);
      SentShapes(w);
      if Field(info, "value").Some? {
        FieldNestsNoDeeper(w.pairs, "value", ns);
        TypeOfObject(w.pairs);
      }
    }
  }

  lemma TypeOfObject(ps: Pairs)
    requires Field(SentValues(ps), "type").Some?
    ensures !(ps.Entry? && ps.rest.Empty? && ps.key == Str(OBJECT))
  {
    if ps.Entry? {
      PairsStep(ps);
      Scalars(Str(OBJECT));
    }
    assert SentValues(Empty) == Empty;
    hide Sent, SentValues;
  }

  /** What the dict sentinel announces nests less deep inside than what follows it. */
  lemma {:induction false} ListedDictNesting(w: Value, ns: Namespace)
    requires WellFormed(w)
    ensures var r := Resolve(One(DICT, Sent(w)), ns); r.Ok? ==> r.value.Dict? && DeepestIn(r.value.pairs, ns) < Nesting(w, ns)
    decreases w
  {
    hide Resolve, ResolvePairs, Sent, SentAll, One, Field;
    ReadSentinel(DICT, Sent(w), ns);
    if Resolve(One(DICT, Sent(w)), ns).Ok? {
      SentShapes(w);
      ReadDict(SentAll(w.items), ns);
      ListedPairsNestNoDeeper(w.items, ns);
      AssignAllNesting(Empty, ResolvePairs(SentAll(w.items), ns, false).value, ns);
    }
  }

  /** A plain dict whose only key is a sentinel is written like any other, and read as what the
      sentinel announces: it comes back exactly when it is kept as it is. */
  lemma SentinelDict(k: Value, w: Value, ns: Namespace)
    requires KeyText(k).Some? && IsSentinel(KeyText(k).value) && WellFormed(k) && WellFormed(w)
    ensures Resolve(Sent(Dict(Entry(k, w, Empty))), ns) == Ok(Dict(Entry(k, w, Empty))) <==> KeptAsIs(k, w, ns)
  {
    var v, s := Dict(Entry(k, w, Empty)), KeyText(k).value;
    SentKeyed(k, w);
    KeyedNesting(k, w, ns);
    hide Resolve, Sent, WellFormed, Field, Nesting, DeepestIn;
    if s == BUILTIN {
      BuiltinNesting(w, ns);
    } else if s == DICT {
      ListedDictNesting(w, ns);
    } else if s == OBJECT {
      ObjectDictKept(k, w, ns);
    } else {
      SentinelFlat(s, Sent(w), ns);
    }
  }

  lemma KeyedNesting(k: Value, w: Value, ns: Namespace)
    ensures DeepestIn(Entry(k, w, Empty), ns) == Nesting(w, ns)
    ensures KeyText(k) == Some(BUILTIN) ==> Nesting(Dict(Entry(k, w, Empty)), ns) == 1 + Nesting(w, ns)
  {
    assert |BUILTIN| != |OBJECT|;
  }

  /** With the object sentinel it comes back exactly when it is JSON that names a class the
      namespace does not have. */
  lemma ObjectDictKept(k: Value, w: Value, ns: Namespace)
    requires KeyText(k) == Some(OBJECT) && WellFormed(w)
    ensures Resolve(Sent(Dict(Entry(k, w, Empty))), ns) == Ok(Dict(Entry(k, w, Empty))) <==> KeptAsIs(k, w, ns)
  {
    SentKeyed(k, w);
    ReadSentinel(OBJECT, Sent(w), ns);
    SentIsJson(w);
    if IsJson(w) {
      JsonUnchanged(w);
    }
    hide Sent, Resolve, IsJson;
  }

  lemma SentinelOnlyComesBack(ps: Pairs, ns: Namespace)
    requires SentinelOnly(ps) && PairsWellFormed(ps)
    ensures Resolve(Sent(Dict(ps)), ns) == Ok(Dict(ps)) <==> Recoverable(Dict(ps), ns)
  {
    hide Resolve, Sent, KeptAsIs;
    SentinelDict(ps.key, ps.value, ns);
    assert ps == Entry(ps.key, ps.value, Empty);
  }

  /** With any other sentinel as its only key a plain dict never comes back. */
  lemma SentinelDictLost(s: string, w: Value, ns: Namespace)
    requires IsSentinel(s) && s != OBJECT && WellFormed(w)
    ensures Resolve(Sent(One(s, w)), ns) != Ok(One(s, w))
  {
    SentinelDict(Str(s), w, ns);
  }

  // ---- The round trip ----

  lemma {:induction false} AllComeBack(vs: Values, ns: Namespace)
    requires AllWellFormed(vs)
    ensures ResolveAll(SentAll(vs), ns) == Ok(vs) <==> AllRecoverable(vs, ns)
    decreases vs
  {
    if vs.Cons? {
      ComesBack(vs.head, ns);
      AllComeBack(vs.tail, ns);
      assert SentAll(vs) == Cons(Sent(vs.head), SentAll(vs.tail));
      hide Sent, Resolve, SentAll, Recoverable, WellFormed;
    }
  }

  lemma PairsStep(ps: Pairs)
    requires ps.Entry?
    ensures SentPairs(ps) == Cons(PairList(Sent(ps.key), Sent(ps.value)), SentPairs(ps.rest))
    ensures SentKeys(ps) == Cons(PairList(Sent(ps.key), Wire(ps.value)), SentKeys(ps.rest))
    ensures SentValues(ps) == Entry(Wire(ps.key), Sent(ps.value), SentValues(ps.rest))
  {
    PairListWire(ToJsonable(ps.key), ToJsonable(ps.value));
    PairListWire(ToJsonable(ps.key), ps.value);
    hide ToJsonable, Wire, PairList;
  }

  lemma ReadPair(k: Value, v: Value, rest: Values, ns: Namespace, raw: bool)
    ensures ResolvePairs(Cons(PairList(k, v), rest), ns, raw)
         == match Resolve(k, ns)
            case Err => Err
            case Ok(k') =>
              match (if raw then Ok(v) else Resolve(v, ns))
              case Err => Err
              case Ok(v') => Map(ResolvePairs(rest, ns, raw), ps => Entry(k', v', ps))
  {
    PairListWire(k, v);
    hide Resolve, PairList;
  }

  lemma {:induction false} PairsComeBack(ps: Pairs, ns: Namespace)
    requires PairsWellFormed(ps)
    ensures ResolvePairs(SentPairs(ps), ns, false) == Ok(ps) <==> KeysRecoverable(ps, ns) && ValuesRecoverable(ps, ns)
    decreases ps
  {
    if ps.Entry? {
      ComesBack(ps.key, ns);
      ComesBack(ps.value, ns);
      PairsComeBack(ps.rest, ns);
      PairsStep(ps);
      hide Sent, Resolve, SentPairs, Recoverable, WellFormed, PairList;
      ReadPair(Sent(ps.key), Sent(ps.value), SentPairs(ps.rest), ns, false);
    }
  }

  lemma {:induction false} KeysComeBack(ps: Pairs, ns: Namespace)
    requires PairsWellFormed(ps) && AllCounts(ps)
    ensures ResolvePairs(SentKeys(ps), ns, true) == Ok(ps) <==> KeysRecoverable(ps, ns)
    decreases ps
  {
    if ps.Entry? {
      ComesBack(ps.key, ns);
      KeysComeBack(ps.rest, ns);
      PairsStep(ps);
      Scalars(ps.value);
      hide Sent, Resolve, SentKeys, Recoverable, WellFormed, PairList, Wire;
      ReadPair(Sent(ps.key), Wire(ps.value), SentKeys(ps.rest), ns, true);
    }
  }

  lemma StrKey(k: Value, ns: Namespace)
    requires IsStr(k) && WellFormed(k)
    ensures Wire(k).Str? && KeyText(k) == Some(Wire(k).s)
    ensures Wire(k) == k <==> Recoverable(k, ns)
  {
  }

  lemma {:induction false} ValuesComeBack(ps: Pairs, ns: Namespace)
    requires PairsWellFormed(ps) && AllStr(ps)
    ensures ResolveValues(SentValues(ps), ns) == Ok(ps) <==> KeysRecoverable(ps, ns) && ValuesRecoverable(ps, ns)
    decreases ps
  {
    if ps.Entry? {
      ComesBack(ps.value, ns);
      ValuesComeBack(ps.rest, ns);
      PairsStep(ps);
      StrKey(ps.key, ns);
      hide Sent, Resolve, SentValues, Recoverable, WellFormed, Wire;
    }
  }

  lemma {:induction false} NamesRecoverable(ps: Pairs, ns: Namespace)
    requires AllNames(ps)
    ensures KeysRecoverable(ps, ns) && AllStr(ps)
  {
    if ps.Entry? {
      NamesRecoverable(ps.rest, ns);
    }
  }

  /** Rebuilding a set or a dict from what came back gives the original exactly when
      everything came back as it was. */
  lemma RebuiltSet(vs: Values, ns: Namespace)
    requires Distinct(vs)
    ensures var r := ResolveAll(SentAll(vs), ns);
      r.Ok? && SetOf(r.value) == vs <==> r == Ok(vs)
  {
    SetOfExact(vs);
    SentLength(vs);
    ResolveAllLength(SentAll(vs), ns);
    if ResolveAll(SentAll(vs), ns).Ok? {
      SetOfExact(ResolveAll(SentAll(vs), ns).value);
    }
  }

  lemma RebuiltDict(ps: Pairs, sent: Values, ns: Namespace, raw: bool)
    requires DistinctKeys(ps) && Length(sent) == Count(ps)
    ensures var r := ResolvePairs(sent, ns, raw);
      r.Ok? && DictOf(r.value) == ps <==> r == Ok(ps)
  {
    DictOfExact(ps);
    ResolvePairsCount(sent, ns, raw);
    if ResolvePairs(sent, ns, raw).Ok? {
      DictOfExact(ResolvePairs(sent, ns, raw).value);
    }
  }

  lemma RebuiltDeque(vs: Values, maxlen: Maxlen, ns: Namespace)
    requires maxlen.Bounded? ==> Length(vs) <= maxlen.n
    ensures var r := ResolveAll(SentAll(vs), ns);
      r.Ok? ==> DequeOf(r.value, maxlen) == Deque(r.value, maxlen)
  {
    SentLength(vs);
    ResolveAllLength(SentAll(vs), ns);
  }

  lemma PlainKeys(ps: Pairs)
    requires AllStr(ps) && !SentinelOnly(ps) && PairsWellFormed(ps)
    ensures var sent := SentValues(ps); !(sent.Entry? && sent.rest.Empty? && sent.key.Str? && IsSentinel(sent.key.s))
  {
    if ps.Entry? {
      PairsStep(ps);
      StrKey(ps.key, map[]);
      if ps.rest.Entry? {
        PairsStep(ps.rest);
      }
    }
  }

  lemma LeafComesBack(v: Value, ns: Namespace)
    requires WellFormed(v)
    requires v.Null? || v.Bool? || v.Int? || v.Float? || v.Str? || v.Base64? || v.Bytes? || v.Leaf? || v.Enum? || v.Opaque?
    requires v.Enum? ==> (Resolve(Sent(v.value), ns) == Ok(v.value) <==> Recoverable(v.value, ns))
    ensures Resolve(Sent(v), ns) == Ok(v) <==> Recoverable(v, ns)
  {
    hide Resolve, Sent, Typed, One, EnumInfo;
    match v
    case Enum(cls, member, value, base) =>
      SentEnum(cls, member, value, base);
      if base == StrEnum {
        SentScalar(value);
        ReadScalar(value, ns);
      } else {
        EnumInfoFacts(cls, member, Sent(value));
        ReadEnum(cls, member, Sent(value), ns);
        EnumDecides(v, EnumInfo(cls, member, Sent(value)), ns);
      }
    case Bytes(kind, bytes) =>
      SentBytes(kind, bytes);
      ReadBytes(kind, bytes, ns);
    case Leaf(kind, text) =>
      SentLeaf(kind, text);
      ReadLeaf(kind, text, ns);
    case Opaque(data) =>
      SentOpaque(data);
      ReadOpaque(data, ns);
    case _ =>
      SentScalar(v);
      ReadScalar(v, ns);
  }

  /** A value comes back from the wire as it was exactly when the worker has what it takes to
      rebuild it. */
  lemma {:induction false} ComesBack(v: Value, ns: Namespace)
    requires WellFormed(v)
    ensures Resolve(Sent(v), ns) == Ok(v) <==> Recoverable(v, ns)
    decreases v
  {
    hide Resolve, ResolveAll, ResolvePairs, ResolveValues, Sent, SentAll, SentPairs, SentKeys, SentValues, Typed, One, EnumInfo;
    hide SetOf, DictOf, DequeOf, LastN, Length, Count, Field, SentinelOnly, Distinct, DistinctKeys;
    SentCollection(v);
    SentItems(v);
    match v
    case Tuple(vs) =>
      AllComeBack(vs, ns);
      SentTuple(vs);
      ReadTuple(SentAll(vs), ns);
    case NamedTuple(cls, fields, vs) =>
      AllComeBack(vs, ns);
      SentNamedTuple(cls, fields, vs);
      ReadNamedTuple(cls, fields, SentAll(vs), ns);
    case List(vs) =>
      AllComeBack(vs, ns);
      ReadList(SentAll(vs), ns);
    case Set(vs) =>
      AllComeBack(vs, ns);
      ReadCollection(SentAll(vs), ns);
      RebuiltSet(vs, ns);
    case FrozenSet(vs) =>
      AllComeBack(vs, ns);
      ReadCollection(SentAll(vs), ns);
      RebuiltSet(vs, ns);
    case Deque(vs, maxlen) =>
      AllComeBack(vs, ns);
      SentDeque(vs, maxlen);
      ReadDeque(SentAll(vs), maxlen, ns);
      RebuiltDeque(vs, maxlen, ns);
    case Dict(ps) =>
      SentDict(ps);
      if SentinelOnly(ps) {
        SentinelOnlyComesBack(ps, ns);
      } else if AllStr(ps) {
        ValuesComeBack(ps, ns);
        PlainKeys(ps);
        ReadPlainDict(SentValues(ps), ns);
      } else {
        PairsComeBack(ps, ns);
        ReadDict(SentPairs(ps), ns);
        SentCounts(ps);
        RebuiltDict(ps, SentPairs(ps), ns, false);
      }
    case Counter(ps) =>
      KeysComeBack(ps, ns);
      ReadItems(SentKeys(ps), ns);
      SentCounts(ps);
      RebuiltDict(ps, SentKeys(ps), ns, true);
    case OrderedDict(ps) =>
      PairsComeBack(ps, ns);
      ReadItems(SentPairs(ps), ns);
      SentCounts(ps);
      RebuiltDict(ps, SentPairs(ps), ns, false);
    case DefaultDict(factory, ps) =>
      PairsComeBack(ps, ns);
      SentDefaultDict(factory, ps);
      ReadDefaultDict(factory, SentPairs(ps), ns);
      SentCounts(ps);
      RebuiltDict(ps, SentPairs(ps), ns, false);
    case Object(cls, state) =>
      NamesRecoverable(state, ns);
      ValuesComeBack(state, ns);
      SentObject(cls, state);
      ReadObject(cls, SentValues(state), ns);
      OneIsDict(OBJECT, Dict(ObjectInfo(cls, SentValues(state))));
    case Enum(_, _, value, _) =>
      ComesBack(value, ns);
      LeafComesBack(v, ns);
    case _ =>
      LeafComesBack(v, ns);
  }

  lemma OneIsDict(k: string, v: Value)
    ensures One(k, v).Dict?
  {
  }

  lemma ReadScalar(v: Value, ns: Namespace)
    requires !v.List? && !v.Dict?
    ensures Resolve(v, ns) == Ok(v)
  {
  }

  lemma ReadOpaque(data: seq<nat>, ns: Namespace)
    ensures Resolve(One(PICKLE, Base64(data)), ns) == Ok(Opaque(data))
  {
    ReadSentinel(PICKLE, Base64(data), ns);
  }
}
