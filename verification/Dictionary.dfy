/** Insertion-ordered dictionaries with string keys. */
module Dictionary {
  import opened Options

  type Dict<V> = seq<(string, V)>

  function Get<V>(d: Dict<V>, k: string): Option<V> {
    if d == [] then None else if d[0].0 == k then Some(d[0].1) else Get(d[1..], k)
  }

  /** Assigning an existing key keeps its position; a new key goes last. */
  function Put<V>(d: Dict<V>, k: string, v: V): Dict<V> {
    if d == [] then [(k, v)]
    else if d[0].0 == k then [(k, v)] + d[1..]
    else [d[0]] + Put(d[1..], k, v)
  }

  function Keys<V>(d: Dict<V>): seq<string> {
    seq(|d|, i requires 0 <= i < |d| => d[i].0)
  }

  function GetOr<V>(o: Option<V>, v: V): V {
    if o.Some? then o.value else v
  }

  ghost predicate UniqueKeys<V>(d: Dict<V>) {
    forall i, j :: 0 <= i < j < |d| ==> d[i].0 != d[j].0
  }

  lemma {:induction false} GetSome<V>(d: Dict<V>, k: string)
    ensures Get(d, k).Some? <==> exists i :: 0 <= i < |d| && d[i].0 == k
    ensures Get(d, k).Some? ==> exists i :: 0 <= i < |d| && d[i] == (k, Get(d, k).value)
  {
    if d != [] {
      GetSome(d[1..], k);
      if d[0].0 == k {
        assert d[0] == (k, Get(d, k).value);
      } else {
        if Get(d[1..], k).Some? {
          var i :| 0 <= i < |d[1..]| && d[1..][i] == (k, Get(d[1..], k).value);
          assert d[i + 1] == (k, Get(d, k).value);
        }
        if i :| 0 <= i < |d| && d[i].0 == k {
          assert d[1..][i - 1].0 == k;
        }
      }
    }
  }

  lemma {:induction false} GetUnique<V>(d: Dict<V>, i: nat)
    requires UniqueKeys(d) && i < |d|
    ensures Get(d, d[i].0) == Some(d[i].1)
  {
    if i > 0 {
      assert d[0].0 != d[i].0;
      GetUnique(d[1..], i - 1);
    }
  }

  lemma {:induction false} GetAppend<V>(d: Dict<V>, e: Dict<V>, k: string)
    ensures Get(d + e, k) == if Get(d, k).Some? then Get(d, k) else Get(e, k)
  {
    if d == [] {
      assert d + e == e;
    } else {
      assert (d + e)[1..] == d[1..] + e;
      GetAppend(d[1..], e, k);
    }
  }

  lemma {:induction false} GetPut<V>(d: Dict<V>, k: string, v: V, n: string)
    ensures Get(Put(d, k, v), n) == if n == k then Some(v) else Get(d, n)
  {
    if d != [] && d[0].0 != k {
      GetPut(d[1..], k, v, n);
      assert Put(d, k, v)[1..] == Put(d[1..], k, v);
    }
  }

  lemma {:induction false} PutKeys<V>(d: Dict<V>, k: string, v: V)
    ensures forall i :: 0 <= i < |Put(d, k, v)| ==>
      Put(d, k, v)[i].0 == (if i < |d| then d[i].0 else k)
    ensures |Put(d, k, v)| == |d| + if Get(d, k).Some? then 0 else 1
  {
    if d != [] && d[0].0 != k {
      PutKeys(d[1..], k, v);
    }
  }

  lemma PutUnique<V>(d: Dict<V>, k: string, v: V)
    requires UniqueKeys(d)
    ensures UniqueKeys(Put(d, k, v))
  {
    PutKeys(d, k, v);
    GetSome(d, k);
  }

  lemma {:induction false} PutNew<V>(d: Dict<V>, k: string, v: V)
    requires Get(d, k).None?
    ensures Put(d, k, v) == d + [(k, v)]
  {
    if d != [] {
      PutNew(d[1..], k, v);
    }
  }
}
