/**
 * PHP arrays that are used as dictionaries: sequences of (key, value) pairs
 * in insertion order. PHP's own operations on them are modelled here:
 * lookup (isset / array_key_exists), `$m[$k] = $v`, `unset($m[$k])` and
 * array_merge for non-integer keys. Keys are strings: PHP normalises an
 * integer key and its decimal string to one key, so nothing is lost.
 */
module OrderedMaps {
  import opened Wrappers

  function Keys<V>(m: seq<(string, V)>): (ks: seq<string>)
    ensures |ks| == |m| && forall i :: 0 <= i < |m| ==> ks[i] == m[i].0
  {
    seq(|m|, i requires 0 <= i < |m| => m[i].0)
  }

  function Values<V>(m: seq<(string, V)>): (vs: seq<V>)
    ensures |vs| == |m| && forall i :: 0 <= i < |m| ==> vs[i] == m[i].1
  {
    seq(|m|, i requires 0 <= i < |m| => m[i].1)
  }

  /** No key occurs twice, as in every PHP array. */
  predicate UniqueKeys<V>(m: seq<(string, V)>)
  {
    forall i, j :: 0 <= i < j < |m| ==> m[i].0 != m[j].0
  }

  /** The position of key `k`, if it is there. */
  function IndexOf<V>(m: seq<(string, V)>, k: string): (r: Option<nat>)
    ensures r.Some? ==> r.value < |m| && m[r.value].0 == k
    ensures r.Some? ==> forall j :: 0 <= j < r.value ==> m[j].0 != k
    ensures r.None? ==> forall j :: 0 <= j < |m| ==> m[j].0 != k
    decreases |m|
  {
    if m == [] then None
    else if m[0].0 == k then Some(0)
    else match IndexOf(m[1..], k)
      case None => None
      case Some(i) => Some(i + 1)
  }

  predicate HasKey<V>(m: seq<(string, V)>, k: string)
  {
    IndexOf(m, k).Some?
  }

  /** The value stored under `k`. */
  function Get<V>(m: seq<(string, V)>, k: string): (r: Option<V>)
    ensures r.Some? <==> HasKey(m, k)
  {
    match IndexOf(m, k)
    case Some(i) => Some(m[i].1)
    case None => None
  }

  /** In an array with unique keys, each entry is what its key looks up. */
  lemma GetAt<V>(m: seq<(string, V)>, i: nat)
    requires UniqueKeys(m) && i < |m|
    ensures IndexOf(m, m[i].0) == Some(i) && Get(m, m[i].0) == Some(m[i].1)
  {
  }

  lemma HasKeyAt<V>(m: seq<(string, V)>, k: string)
    ensures HasKey(m, k) <==> k in Keys(m)
  {
    if k in Keys(m) {
      var i :| 0 <= i < |m| && Keys(m)[i] == k;
    }
  }

  /** `$m[$k] = $v`: an existing key keeps its place, a new one goes last. */
  function Set<V>(m: seq<(string, V)>, k: string, v: V): (r: seq<(string, V)>)
    ensures UniqueKeys(m) ==> UniqueKeys(r)
  {
    match IndexOf(m, k)
    case Some(i) => m[i := (k, v)]
    case None => m + [(k, v)]
  }

  /** The key set holds the value it was set to. */
  lemma SetGet<V>(m: seq<(string, V)>, k: string, v: V)
    ensures Get(Set(m, k, v), k) == Some(v)
  {
    match IndexOf(m, k)
    case Some(i) => IndexOfUpdate(m, i, v, k);
    case None => IndexOfAppend(m, (k, v), k);
  }

  /** Setting one key leaves every other key's value as it was. */
  lemma SetOther<V>(m: seq<(string, V)>, k: string, v: V, k': string)
    requires k' != k
    ensures Get(Set(m, k, v), k') == Get(m, k')
  {
    match IndexOf(m, k)
    case Some(i) => IndexOfUpdate(m, i, v, k');
    case None => IndexOfAppend(m, (k, v), k');
  }

  /** Setting an existing key keeps the key order; a new key is added last. */
  lemma SetKeys<V>(m: seq<(string, V)>, k: string, v: V)
    ensures HasKey(m, k) ==> Keys(Set(m, k, v)) == Keys(m)
    ensures !HasKey(m, k) ==> Keys(Set(m, k, v)) == Keys(m) + [k]
  {
  }

  /** Setting a key to the value it already holds changes nothing. */
  lemma SetSame<V>(m: seq<(string, V)>, k: string, v: V)
    requires Get(m, k) == Some(v)
    ensures Set(m, k, v) == m
  {
    var i := IndexOf(m, k).value;
    assert m[i] == (k, v);
  }

  lemma {:induction false} IndexOfUpdate<V>(m: seq<(string, V)>, i: nat, v: V, k': string)
    requires i < |m|
    ensures IndexOf(m[i := (m[i].0, v)], k') == IndexOf(m, k')
    decreases |m|
  {
    var r := m[i := (m[i].0, v)];
    if m[0].0 != k' && i > 0 {
      assert r[1..] == m[1..][i - 1 := (m[i].0, v)];
      IndexOfUpdate(m[1..], i - 1, v, k');
    } else if m[0].0 != k' {
      assert r[1..] == m[1..];
    }
  }

  lemma {:induction false} IndexOfAppend<V>(m: seq<(string, V)>, e: (string, V), k': string)
    ensures IndexOf(m + [e], k') == match IndexOf(m, k') case Some(i) => Some(i) case None => if e.0 == k' then Some(|m|) else None
    decreases |m|
  {
    if m != [] && m[0].0 != k' {
      assert (m + [e])[1..] == m[1..] + [e];
      IndexOfAppend(m[1..], e, k');
    }
  }

  lemma IndexOfCons<V>(e: (string, V), m: seq<(string, V)>, k: string)
    ensures IndexOf([e] + m, k) == if e.0 == k then Some(0) else match IndexOf(m, k) case None => None case Some(i) => Some(i + 1)
  {
    assert ([e] + m)[1..] == m;
  }

  lemma GetCons<V>(e: (string, V), m: seq<(string, V)>, k: string)
    ensures Get([e] + m, k) == if e.0 == k then Some(e.1) else Get(m, k)
  {
    IndexOfCons(e, m, k);
  }

  /** `unset($m[$k])`: the other entries stay, in their order. */
  function Remove<V>(m: seq<(string, V)>, k: string): (r: seq<(string, V)>)
    ensures Get(r, k) == None
    ensures forall k' :: k' != k ==> Get(r, k') == Get(m, k')
    ensures !HasKey(m, k) ==> r == m
    ensures UniqueKeys(m) ==> UniqueKeys(r)
    ensures forall e :: e in r ==> e in m
    decreases |m|
  {
    if m == [] then []
    else if m[0].0 == k then Remove(m[1..], k)
    else
      var t := Remove(m[1..], k);
      assert forall k' :: Get([m[0]] + t, k') == if m[0].0 == k' then Some(m[0].1) else Get(t, k') by {
        forall k' { GetCons(m[0], t, k'); }
      }
      assert forall k' :: Get(m, k') == if m[0].0 == k' then Some(m[0].1) else Get(m[1..], k') by {
        assert [m[0]] + m[1..] == m;
        forall k' { GetCons(m[0], m[1..], k'); }
      }
      assert UniqueKeys(m) ==> UniqueKeys([m[0]] + t) by {
        if UniqueKeys(m) {
          forall j | 0 <= j < |t| ensures t[j].0 != m[0].0 {
            assert t[j] in m[1..];
          }
        }
      }
      [m[0]] + t
  }

  lemma RemoveCons<V>(e: (string, V), m: seq<(string, V)>, k: string)
    ensures Remove([e] + m, k) == if e.0 == k then Remove(m, k) else [e] + Remove(m, k)
  {
    assert ([e] + m)[1..] == m;
  }

  /**
   * array_merge(a, b) for arrays whose keys are not integers: the entries of
   * `a`, those whose key `b` also has taking `b`'s value, then the entries of
   * `b` with new keys, in `b`'s order.
   */
  function Merge<V>(a: seq<(string, V)>, b: seq<(string, V)>): (r: seq<(string, V)>)
    ensures Keys(a) <= Keys(r)
    ensures UniqueKeys(a) ==> UniqueKeys(r)
    decreases |b|
  {
    if b == [] then a
    else
      SetKeys(a, b[0].0, b[0].1);
      Merge(Set(a, b[0].0, b[0].1), b[1..])
  }

  /** In an array with unique keys, the first key does not occur again. */
  lemma UniqueTail<V>(b: seq<(string, V)>)
    requires UniqueKeys(b) && b != []
    ensures !HasKey(b[1..], b[0].0) && UniqueKeys(b[1..])
  {
    var t := b[1..];
    forall j | 0 <= j < |t|
      ensures t[j].0 != b[0].0
    {
      assert t[j] == b[j + 1];
    }
  }

  /** In an array with unique keys, the key at n - 1 does not occur before it. */
  lemma UniqueLast<V>(m: seq<(string, V)>, n: nat)
    requires UniqueKeys(m) && 0 < n <= |m|
    ensures !HasKey(m[..n - 1], m[n - 1].0)
  {
    var front := m[..n - 1];
    forall j | 0 <= j < |front|
      ensures front[j].0 != m[n - 1].0
    {
      assert front[j] == m[j];
    }
  }

  /** A key of `b` takes `b`'s value; every other key keeps `a`'s. */
  lemma {:induction false} MergeGet<V>(a: seq<(string, V)>, b: seq<(string, V)>, k: string)
    requires UniqueKeys(b)
    ensures Get(Merge(a, b), k) == if HasKey(b, k) then Get(b, k) else Get(a, k)
    decreases |b|
  {
    if b != [] {
      var t := b[1..];
      UniqueTail(b);
      MergeGet(Set(a, b[0].0, b[0].1), t, k);
      assert [b[0]] + t == b;
      GetCons(b[0], t, k);
      if b[0].0 != k {
        SetOther(a, b[0].0, b[0].1, k);
      } else {
        SetGet(a, b[0].0, b[0].1);
      }
    }
  }
}
