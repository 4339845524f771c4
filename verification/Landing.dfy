/** What arrives: the value that comes out of sending and reading, told from the value alone. */
module CodecLanding {
  import opened Options
  import opened Values
  import opened Codec
  import opened CodecRoundTrip

  /** The value that the worker gets. Only for a plain dict with a sentinel as its only key it is
      whatever that sentinel announces. */
  function Landed(v: Value, ns: Namespace): Result<Value>
    decreases v
  {
    match v
    case Tuple(vs) => Map(LandedAll(vs, ns), ws => Tuple(ws))
    case List(vs) => Map(LandedAll(vs, ns), ws => List(ws))
    case Set(vs) => Map(LandedAll(vs, ns), ws => Set(SetOf(ws)))
    case FrozenSet(vs) => Map(LandedAll(vs, ns), ws => FrozenSet(SetOf(ws)))
    case Deque(vs, maxlen) => Map(LandedAll(vs, ns), ws => Deque(ws, maxlen))
    case NamedTuple(cls, _, vs) =>
      (match LandedAll(vs, ns)
       case Err => Err
       case Ok(ws) =>
         if cls !in ns then Ok(Tuple(ws))
         else if ns[cls].TupleClass? && |ns[cls].fields| == Length(ws) then Ok(NamedTuple(cls, ns[cls].fields, ws))
         else Err)
    case Dict(ps) =>
      if SentinelOnly(ps) then Resolve(Sent(v), ns)
      else if AllStr(ps) then Map(LandedValues(ps, ns), qs => Dict(qs))
      else Map(LandedPairs(ps, ns), qs => Dict(DictOf(qs)))
    case Counter(ps) => Map(LandedKeys(ps, ns), qs => Counter(DictOf(qs)))
    case OrderedDict(ps) => Map(LandedPairs(ps, ns), qs => OrderedDict(DictOf(qs)))
    case DefaultDict(factory, ps) =>
      Map(LandedPairs(ps, ns), qs => DefaultDict(if factory.OtherFactory? then NoFactory else factory, DictOf(qs)))
    case Leaf(kind, text) => Ok(Leaf(if kind == "path" then "purepath" else kind, text))
    case Enum(cls, member, value, base) =>
      if base == StrEnum then Ok(value)
      else if cls !in ns then Landed(value, ns)
      else if !ns[cls].EnumClass? then Err
      else if member.Some? && Field(ns[cls].members, member.value).Some? then
        Ok(Enum(cls, member, Field(ns[cls].members, member.value).value, ns[cls].enumBase))
      else
        (match Landed(value, ns)
         case Err => Err
         case Ok(w) =>
           var found := FindByValue(ns[cls], w);
           if found.None? then Err else Ok(Enum(cls, found.value, w, ns[cls].enumBase)))
    case Object(cls, state) =>
      if cls !in ns then Ok(One(OBJECT, Dict(ObjectInfo(cls, SentValues(state)))))
      else if !ns[cls].PlainClass? then Err
      else Map(LandedValues(state, ns), qs => Object(cls, qs))
    case _ => Ok(v)
  }

  function LandedAll(vs: Values, ns: Namespace): Result<Values>
    decreases vs
  {
    match vs
    case Nil => Ok(Nil)
    case Cons(v, rest) =>
      match Landed(v, ns)
      case Err => Err
      case Ok(w) => Map(LandedAll(rest, ns), ws => Cons(w, ws))
  }

  function LandedPairs(ps: Pairs, ns: Namespace): Result<Pairs>
    decreases ps
  {
    match ps
    case Empty => Ok(Empty)
    case Entry(k, v, rest) =>
      match Landed(k, ns)
      case Err => Err
      case Ok(k') =>
        match Landed(v, ns)
        case Err => Err
        case Ok(v') => Map(LandedPairs(rest, ns), qs => Entry(k', v', qs))
  }

  /** Counts arrive as they are. */
  function LandedKeys(ps: Pairs, ns: Namespace): Result<Pairs>
    decreases ps
  {
    match ps
    case Empty => Ok(Empty)
    case Entry(k, v, rest) =>
      match Landed(k, ns)
      case Err => Err
      case Ok(k') => Map(LandedKeys(rest, ns), qs => Entry(k', v, qs))
  }

  /** String keys arrive as their text. */
  function LandedValues(ps: Pairs, ns: Namespace): Result<Pairs>
    decreases ps
  {
    match ps
    case Empty => Ok(Empty)
    case Entry(k, v, rest) =>
      match Landed(v, ns)
      case Err => Err
      case Ok(v') => Map(LandedValues(rest, ns), qs => Entry(if KeyText(k).Some? then Str(KeyText(k).value) else k, v', qs))
  }

  lemma {:induction false} AllLand(vs: Values, ns: Namespace)
    requires AllWellFormed(vs)
    ensures ResolveAll(SentAll(vs), ns) == LandedAll(vs, ns)
    decreases vs
  {
    if vs.Cons? {
      Lands(vs.head, ns);
      AllLand(vs.tail, ns);
      SentStep(vs);
      hide Sent, Resolve, SentAll, Landed, WellFormed;
    }
  }

  lemma {:induction false} PairsLand(ps: Pairs, ns: Namespace)
    requires PairsWellFormed(ps)
    ensures ResolvePairs(SentPairs(ps), ns, false) == LandedPairs(ps, ns)
    decreases ps
  {
    if ps.Entry? {
      Lands(ps.key, ns);
      Lands(ps.value, ns);
      PairsLand(ps.rest, ns);
      PairsStep(ps);
      hide Sent, Resolve, SentPairs, Landed, WellFormed, PairList;
      ReadPair(Sent(ps.key), Sent(ps.value), SentPairs(ps.rest), ns, false);
    }
  }

  lemma {:induction false} KeysLand(ps: Pairs, ns: Namespace)
    requires PairsWellFormed(ps) && AllCounts(ps)
    ensures ResolvePairs(SentKeys(ps), ns, true) == LandedKeys(ps, ns)
    decreases ps
  {
    if ps.Entry? {
      Lands(ps.key, ns);
      KeysLand(ps.rest, ns);
      PairsStep(ps);
      Scalars(ps.value);
      hide Sent, Resolve, SentKeys, Landed, WellFormed, PairList, Wire;
      ReadPair(Sent(ps.key), Wire(ps.value), SentKeys(ps.rest), ns, true);
    }
  }

  lemma {:induction false} ValuesLand(ps: Pairs, ns: Namespace)
    requires PairsWellFormed(ps) && AllStr(ps)
    ensures ResolveValues(SentValues(ps), ns) == LandedValues(ps, ns)
    decreases ps
  {
    if ps.Entry? {
      Lands(ps.value, ns);
      ValuesLand(ps.rest, ns);
      PairsStep(ps);
      StrKey(ps.key, ns);
      hide Sent, Resolve, SentValues, Landed, WellFormed, Wire;
    }
  }

  lemma EnumLands(v: Value, info: Pairs, ns: Namespace)
    requires v.Enum? && v.base != StrEnum && Resolve(Sent(v.value), ns) == Landed(v.value, ns)
    requires Field(info, "cls") == Some(Str(v.cls)) && Field(info, "name") == Some(NameField(v.member))
    requires Field(info, "value") == Some(Sent(v.value))
    ensures ResolveEnum(info, ns) == Landed(v, ns)
  {
    hide Resolve, Sent;
  }

  lemma DequeLands(vs: Values, maxlen: Maxlen, ns: Namespace)
    requires WellFormed(Deque(vs, maxlen))
    ensures Map(ResolveAll(SentAll(vs), ns), ws => DequeOf(ws, maxlen)) == Map(ResolveAll(SentAll(vs), ns), ws => Deque(ws, maxlen))
  {
    RebuiltDeque(vs, maxlen, ns);
    hide ResolveAll, SentAll;
  }

  /** Every value arrives as told. */
  lemma {:induction false} Lands(v: Value, ns: Namespace)
    requires WellFormed(v)
    ensures Resolve(Sent(v), ns) == Landed(v, ns)
    decreases v
  {
    hide Resolve, ResolveAll, ResolvePairs, ResolveValues, Sent, SentAll, SentPairs, SentKeys, SentValues, Typed, One, EnumInfo;
    hide SetOf, DictOf, DequeOf, LastN, Field, SentinelOnly, Distinct, DistinctKeys, LandedAll, LandedPairs, LandedKeys, LandedValues;
    SentCollection(v);
    SentItems(v);
    match v
    case Tuple(vs) =>
      AllLand(vs, ns);
      SentTuple(vs);
      ReadTuple(SentAll(vs), ns);
    case NamedTuple(cls, fields, vs) =>
      AllLand(vs, ns);
      SentNamedTuple(cls, fields, vs);
      ReadNamedTuple(cls, fields, SentAll(vs), ns);
    case List(vs) =>
      AllLand(vs, ns);
      ReadList(SentAll(vs), ns);
    case Set(vs) =>
      AllLand(vs, ns);
      ReadCollection(SentAll(vs), ns);
    case FrozenSet(vs) =>
      AllLand(vs, ns);
      ReadCollection(SentAll(vs), ns);
    case Deque(vs, maxlen) =>
      AllLand(vs, ns);
      SentDeque(vs, maxlen);
      ReadDeque(SentAll(vs), maxlen, ns);
      DequeLands(vs, maxlen, ns);
    case Dict(ps) =>
      SentDict(ps);
      if SentinelOnly(ps) {
      } else if AllStr(ps) {
        ValuesLand(ps, ns);
        PlainKeys(ps);
        ReadPlainDict(SentValues(ps), ns);
      } else {
        PairsLand(ps, ns);
        ReadDict(SentPairs(ps), ns);
      }
    case Counter(ps) =>
      KeysLand(ps, ns);
      ReadItems(SentKeys(ps), ns);
    case OrderedDict(ps) =>
      PairsLand(ps, ns);
      ReadItems(SentPairs(ps), ns);
    case DefaultDict(factory, ps) =>
      PairsLand(ps, ns);
      SentDefaultDict(factory, ps);
      ReadDefaultDict(factory, SentPairs(ps), ns);
    case Object(cls, state) =>
      NamesRecoverable(state, ns);
      ValuesLand(state, ns);
      SentObject(cls, state);
      ReadObject(cls, SentValues(state), ns);
    case Enum(cls, member, value, base) =>
      SentEnum(cls, member, value, base);
      if base == StrEnum {
        SentScalar(value);
        ReadScalar(value, ns);
      } else {
        Lands(value, ns);
        EnumInfoFacts(cls, member, Sent(value));
        ReadEnum(cls, member, Sent(value), ns);
        EnumLands(v, EnumInfo(cls, member, Sent(value)), ns);
      }
    case _ =>
      LeafLands(v, ns);
  }

  lemma LeafLands(v: Value, ns: Namespace)
    requires WellFormed(v)
    requires v.Null? || v.Bool? || v.Int? || v.Float? || v.Str? || v.Base64? || v.Bytes? || v.Leaf? || v.Opaque?
    ensures Resolve(Sent(v), ns) == Landed(v, ns)
  {
    hide Resolve, Sent, Typed, One;
    match v
    case Bytes(kind, bytes) =>
      SentBytes(kind, bytes);
      ReadBytes(kind, bytes, ns);
    case Leaf(kind, text) =>
      SentLeaf(kind, text);
      ReadLeaf(kind, text, ns);
    case Opaque(data) =>
      SentOpaque(data);
      ReadOpaque(data, ns);
    case _ =>
      SentScalar(v);
      ReadScalar(v, ns);
  }
}
