/**
 * The array helpers of `Arr`: membership of one or several needles,
 * prefixing every value, recursive emptiness, keeping listed keys,
 * replacing the values of existing keys (optionally recursively), picking
 * values in the order of a list of ids, and looking a key up with a
 * default. A PHP array is a sequence of (key, value) pairs in order.
 */
module Arr {
  import opened Wrappers
  import opened PhpStrings
  import opened PhpValues
  import opened OrderedMaps

  type PhpArray = seq<(string, Value)>

  // ---------------------------------------------------------------------
  // anyIn, allIn

  /** array_intersect(a, b): the entries of `a` whose value is among `b`'s values, keys kept. */
  function Intersect(a: PhpArray, b: PhpArray): (r: PhpArray)
    ensures forall e :: e in r <==> e in a && e.1 in Values(b)
    ensures |r| <= |a|
  {
    if a == [] then []
    else (if a[0].1 in Values(b) then [a[0]] else []) + Intersect(a[1..], b)
  }

  /** anyIn: some needle (one value, or the values of an array of needles) is in the haystack. */
  function AnyIn(anyValue: Value, haystack: PhpArray): (r: bool)
    ensures anyValue.Arr? ==>
      (r <==> exists i :: 0 <= i < |anyValue.entries| && anyValue.entries[i].1 in Values(haystack))
    ensures !anyValue.Arr? ==> (r <==> anyValue in Values(haystack))
  {
    if anyValue.Arr? then
      var common := Intersect(anyValue.entries, haystack);
      assert forall i :: 0 <= i < |anyValue.entries| && anyValue.entries[i].1 in Values(haystack) ==>
        anyValue.entries[i] in common;
      assert common != [] ==> common[0] in anyValue.entries;
      common != []
    else anyValue in Values(haystack)
  }

  /**
   * allIn: every needle is in the haystack. An empty array of needles is
   * not all in: the method answers false for it.
   */
  method AllIn(allValues: Value, haystack: PhpArray) returns (r: bool)
    ensures allValues.Arr? ==>
      (r <==> allValues.entries != [] &&
              forall i :: 0 <= i < |allValues.entries| ==> allValues.entries[i].1 in Values(haystack))
    ensures !allValues.Arr? ==> (r <==> allValues in Values(haystack))
  {
    if allValues.Arr? {
      var needles := allValues.entries;
      if Empty(allValues) {
        return false;
      }
      var i := 0;
      while i < |needles|
        invariant 0 <= i <= |needles|
        invariant forall j :: 0 <= j < i ==> needles[j].1 in Values(haystack)
      {
        if needles[i].1 !in Values(haystack) {
          return false;
        }
        i := i + 1;
      }
      return true;
    }
    r := allValues in Values(haystack);
  }

  // ---------------------------------------------------------------------
  // valuesWithPrefix

  /**
   * valuesWithPrefix: a list with the prefix put before each value's string
   * form. A closure cannot be concatenated, and PHP throws: None.
   */
  method ValuesWithPrefix(input: PhpArray, prefix: string) returns (r: Option<seq<string>>)
    ensures r.Some? <==> forall i :: 0 <= i < |input| ==> !input[i].1.Closure?
    ensures r.Some? ==> |r.value| == |input|
    ensures r.Some? ==> forall i :: 0 <= i < |input| ==> r.value[i] == prefix + StringForm(input[i].1)
  {
    var newArray := [];
    var i := 0;
    while i < |input|
      invariant 0 <= i <= |input|
      invariant |newArray| == i
      invariant forall j :: 0 <= j < i ==> !input[j].1.Closure? && newArray[j] == prefix + StringForm(input[j].1)
    {
      if input[i].1.Closure? {
        return None;
      }
      newArray := newArray + [prefix + StringForm(input[i].1)];
      i := i + 1;
    }
    return Some(newArray);
  }

  // ---------------------------------------------------------------------
  // allEmpty

  /** allEmpty: every value, at any depth, is empty; an array counts only through its elements. */
  function AllEmpty(v: Value): bool
    decreases v
  {
    match v
    case Arr(es) => forall i :: 0 <= i < |es| ==> AllEmpty(es[i].1)
    case _ => Empty(v)
  }

  function Flatten<T>(ss: seq<seq<T>>): seq<T>
  {
    if ss == [] then [] else ss[0] + Flatten(ss[1..])
  }

  lemma {:induction false} FlattenIn<T>(ss: seq<seq<T>>, x: T)
    ensures x in Flatten(ss) <==> exists i :: 0 <= i < |ss| && x in ss[i]
  {
    if ss != [] {
      FlattenIn(ss[1..], x);
      if x in Flatten(ss[1..]) {
        var i :| 0 <= i < |ss[1..]| && x in ss[1..][i];
        assert x in ss[i + 1];
      }
      if exists i :: 0 <= i < |ss| && x in ss[i] {
        var i :| 0 <= i < |ss| && x in ss[i];
        if i > 0 {
          assert x in ss[1..][i - 1];
        }
      }
    }
  }

  /** The non-array values inside a value, in order: the value itself when it is no array. */
  function Leaves(v: Value): seq<Value>
    decreases v
  {
    match v
    case Arr(es) => Flatten(seq(|es|, i requires 0 <= i < |es| => Leaves(es[i].1)))
    case _ => [v]
  }

  /** allEmpty holds exactly when every leaf is empty. */
  lemma {:induction false} AllEmptyLeaves(v: Value)
    ensures AllEmpty(v) <==> forall l :: l in Leaves(v) ==> Empty(l)
    decreases v
  {
    match v
    case Arr(es) =>
      var parts := seq(|es|, i requires 0 <= i < |es| => Leaves(es[i].1));
      forall i | 0 <= i < |es|
        ensures AllEmpty(es[i].1) <==> forall l :: l in parts[i] ==> Empty(l)
      {
        AllEmptyLeaves(es[i].1);
      }
      forall l
        ensures l in Leaves(v) <==> exists i :: 0 <= i < |parts| && l in parts[i]
      {
        FlattenIn(parts, l);
      }
    case _ =>
  }

  /** allEmpty looks inside arrays where empty() does not: an array of empty values is all empty. */
  lemma AllEmptyVersusEmpty(v: Value)
    ensures !v.Arr? ==> (AllEmpty(v) <==> Empty(v))
    ensures v.Arr? && Empty(v) ==> AllEmpty(v)
    ensures AllEmpty(Arr([("a", Null)])) && !Empty(Arr([("a", Null)]))
  {
  }

  lemma AllEmptyExamples()
    ensures AllEmpty(Arr([("one", Null), ("two", Int(0)), ("three", Arr([("subone", Str(""))]))]))
    ensures !AllEmpty(Arr([("one", Null), ("two", Int(1)), ("three", Arr([("subone", Str(""))]))]))
    ensures AllEmpty(Arr([]))
  {
    var inner := Arr([("subone", Str(""))]);
    assert AllEmpty(inner);
    var yes := [("one", Null), ("two", Int(0)), ("three", inner)];
    assert forall i :: 0 <= i < |yes| ==> AllEmpty(yes[i].1);
    var no := [("one", Null), ("two", Int(1)), ("three", inner)];
    assert !AllEmpty(no[1].1);
  }

  // ---------------------------------------------------------------------
  // filterKeys with a list of keys

  /** filterKeys(input, keys): the entries of `input` whose key is listed, in `input`'s order. */
  function FilterKeys(input: PhpArray, keys: seq<string>): (r: PhpArray)
    ensures forall e :: e in r <==> e in input && e.0 in keys
    ensures |r| <= |input|
  {
    if input == [] then []
    else (if input[0].0 in keys then [input[0]] else []) + FilterKeys(input[1..], keys)
  }

  /** Filtering keeps order: it filters each part of an array on its own. */
  lemma {:induction false} FilterKeysConcat(a: PhpArray, b: PhpArray, keys: seq<string>)
    ensures FilterKeys(a + b, keys) == FilterKeys(a, keys) + FilterKeys(b, keys)
  {
    if a != [] {
      assert (a + b)[1..] == a[1..] + b;
      FilterKeysConcat(a[1..], b, keys);
    } else {
      assert a + b == b;
    }
  }

  /** Looking a key up in the filtered input: the input's value for a listed key, nothing otherwise. */
  lemma {:induction false} FilterKeysGet(input: PhpArray, keys: seq<string>, k: string)
    ensures Get(FilterKeys(input, keys), k) == if k in keys then Get(input, k) else None
  {
    if input != [] {
      var rest := FilterKeys(input[1..], keys);
      FilterKeysGet(input[1..], keys, k);
      GetCons(input[0], input[1..], k);
      assert input == [input[0]] + input[1..];
      if input[0].0 in keys {
        assert FilterKeys(input, keys) == [input[0]] + rest;
        GetCons(input[0], rest, k);
      } else {
        assert FilterKeys(input, keys) == rest;
      }
    }
  }

  lemma FilterKeysExample()
    ensures FilterKeys([("a", Int(1)), ("b", Int(2)), ("c", Int(3))], ["c"]) == [("c", Int(3))]
  {
  }

  // ---------------------------------------------------------------------
  // getValue

  /** getValue: the value under `key` when it is set (present and not null), else the default. */
  function GetValue(input: PhpArray, key: string, default: Value): (r: Value)
    ensures HasKey(input, key) && Get(input, key).value != Null ==> r == Get(input, key).value
    ensures !HasKey(input, key) || Get(input, key).value == Null ==> r == default
  {
    match Get(input, key)
    case Some(v) => if v != Null then v else default
    case None => default
  }

  /** getValue gives null only when null is the default. */
  lemma GetValueNull(input: PhpArray, key: string, default: Value)
    ensures GetValue(input, key, default) == Null ==> default == Null
  {
  }

  lemma GetValueSet(input: PhpArray, key: string, v: Value, default: Value)
    ensures GetValue(Set(input, key, v), key, default) == if v == Null then default else v
  {
    SetGet(input, key, v);
  }

  // ---------------------------------------------------------------------
  // replaceExisting

  /**
   * The first `n` entries replaceExisting makes of `base`: the
   * replacements' value when replacements has the key, replaced into recursively when
   * both are arrays and recursion is on. A nested replacements value that is no
   * array cannot be passed on, and PHP throws a TypeError: None.
   */
  function Replaced(base: PhpArray, replacements: PhpArray, recursive: bool, n: nat): (r: Option<PhpArray>)
    requires n <= |base|
    ensures r.Some? ==> |r.value| == n
    decreases Arr(base), n
  {
    if n == 0 then Some([])
    else
      match Replaced(base, replacements, recursive, n - 1)
      case None => None
      case Some(done) =>
        var (key, value) := base[n - 1];
        if !HasKey(replacements, key) then Some(done + [(key, value)])
        else
          var value2 := Get(replacements, key).value;
          if recursive && value.Arr? then
            assert value == base[n - 1].1;
            if !value2.Arr? then None
            else match Replaced(value.entries, value2.entries, recursive, |value.entries|)
              case None => None
              case Some(nested) => Some(done + [(key, Arr(nested))])
          else Some(done + [(key, value2)])
  }

  /** Once a prefix fails, every longer prefix fails too. */
  lemma {:induction false} ReplacedNoneStays(base: PhpArray, replacements: PhpArray, recursive: bool, n: nat, m: nat)
    requires n <= m <= |base| && Replaced(base, replacements, recursive, n).None?
    ensures Replaced(base, replacements, recursive, m).None?
    decreases m - n
  {
    if n < m {
      ReplacedNoneStays(base, replacements, recursive, n + 1, m);
    }
  }

  /**
   * replaceExisting: each key of base takes replacements's value, when replacements
   * has it; base's keys and their order are kept.
   */
  method ReplaceExisting(base: PhpArray, replacements: PhpArray, recursive: bool) returns (r: Option<PhpArray>)
    ensures r == Replaced(base, replacements, recursive, |base|)
    decreases Arr(base)
  {
    var result := base;
    var i := 0;
    while i < |base|
      invariant 0 <= i <= |base| && |result| == |base|
      invariant Replaced(base, replacements, recursive, i) == Some(result[..i])
      invariant result[i..] == base[i..]
    {
      var (key, value) := base[i];
      assert result[..i + 1] == result[..i] + [result[i]];
      if HasKey(replacements, key) {
        var value2 := Get(replacements, key).value;
        if recursive && value.Arr? {
          assert value == base[i].1;
          if !value2.Arr? {
            ReplacedNoneStays(base, replacements, recursive, i + 1, |base|);
            return None;
          }
          var nested := ReplaceExisting(value.entries, value2.entries, recursive);
          if nested.None? {
            ReplacedNoneStays(base, replacements, recursive, i + 1, |base|);
            return None;
          }
          value2 := Arr(nested.value);
        }
        result := result[i := (key, value2)];
        assert result[..i + 1] == result[..i] + [(key, value2)];
      }
      i := i + 1;
    }
    assert result[..|base|] == result;
    return Some(result);
  }

  /** replaceExisting keeps exactly base's keys, in base's order. */
  lemma {:induction false} ReplacedKeys(base: PhpArray, replacements: PhpArray, recursive: bool, n: nat)
    requires n <= |base| && Replaced(base, replacements, recursive, n).Some?
    ensures Keys(Replaced(base, replacements, recursive, n).value) == Keys(base[..n])
    decreases n
  {
    if n > 0 {
      ReplacedKeys(base, replacements, recursive, n - 1);
      var r := Replaced(base, replacements, recursive, n).value;
      var done := Replaced(base, replacements, recursive, n - 1).value;
      assert r[..n - 1] == done;
      assert Keys(base[..n]) == Keys(base[..n - 1]) + [base[n - 1].0];
      assert Keys(r) == Keys(done) + [r[n - 1].0];
    }
  }

  /**
   * Without recursion replaceExisting cannot fail, and every entry holds
   * replacements's value where replacements has the key and base's value otherwise.
   */
  lemma {:induction false} ReplacedFlat(base: PhpArray, replacements: PhpArray, n: nat)
    requires n <= |base|
    ensures Replaced(base, replacements, false, n).Some?
    ensures forall i :: 0 <= i < n ==>
      var key := base[i].0;
      Replaced(base, replacements, false, n).value[i] ==
        (key, if HasKey(replacements, key) then Get(replacements, key).value else base[i].1)
    decreases n
  {
    if n > 0 {
      ReplacedFlat(base, replacements, n - 1);
    }
  }

  /**
   * With recursion, a key whose value is an array in both arrays gets the
   * nested replacement, which keeps only the nested keys of base: nested
   * keys only replacements has are dropped.
   */
  lemma ReplacedNested(base: PhpArray, replacements: PhpArray, n: nat, i: nat)
    requires i < n <= |base| && Replaced(base, replacements, true, n).Some?
    requires HasKey(replacements, base[i].0) && base[i].1.Arr?
    ensures var r := Replaced(base, replacements, true, n).value;
      var v2 := Get(replacements, base[i].0).value;
      v2.Arr? && r[i].1.Arr?
      && Replaced(base[i].1.entries, v2.entries, true, |base[i].1.entries|) == Some(r[i].1.entries)
      && Keys(r[i].1.entries) == Keys(base[i].1.entries)
    decreases n
  {
    if i < n - 1 {
      ReplacedNested(base, replacements, n - 1, i);
    } else {
      var e := base[i].1.entries;
      ReplacedKeys(e, Get(replacements, base[i].0).value.entries, true, |e|);
      assert e[..|e|] == e;
    }
  }

  /**
   * With recursion, every other entry is as without it: replacements's
   * value where replacements has the key, base's value otherwise.
   */
  lemma {:induction false} ReplacedRecursiveOther(base: PhpArray, replacements: PhpArray, n: nat, i: nat)
    requires i < n <= |base| && Replaced(base, replacements, true, n).Some?
    requires !(HasKey(replacements, base[i].0) && base[i].1.Arr?)
    ensures var key := base[i].0;
      Replaced(base, replacements, true, n).value[i] ==
        (key, if HasKey(replacements, key) then Get(replacements, key).value else base[i].1)
    decreases n
  {
    if i < n - 1 {
      ReplacedRecursiveOther(base, replacements, n - 1, i);
    }
  }

  // ---------------------------------------------------------------------
  // sortByArray

  /** The values of `sortArray` under the ids of `mapArray`, in `mapArray`'s order; missing ids are skipped. */
  function Picked(sortArray: PhpArray, mapArray: seq<string>): (r: seq<Value>)
    ensures |r| <= |mapArray|
    ensures forall v :: v in r ==> v in Values(sortArray)
  {
    if mapArray == [] then []
    else
      var rest := Picked(sortArray, mapArray[..|mapArray| - 1]);
      var id := mapArray[|mapArray| - 1];
      match IndexOf(sortArray, id)
      case Some(j) => assert sortArray[j].1 == Values(sortArray)[j]; rest + [sortArray[j].1]
      case None => rest
  }

  /** sortByArray: the values of `sortArray` in the order `mapArray` lists their ids. */
  method SortByArray(sortArray: PhpArray, mapArray: seq<string>) returns (sortedArray: seq<Value>)
    ensures sortedArray == Picked(sortArray, mapArray)
  {
    sortedArray := [];
    var i := 0;
    while i < |mapArray|
      invariant 0 <= i <= |mapArray|
      invariant sortedArray == Picked(sortArray, mapArray[..i])
    {
      var id := mapArray[i];
      assert mapArray[..i + 1][..i] == mapArray[..i];
      if HasKey(sortArray, id) {
        sortedArray := sortedArray + [Get(sortArray, id).value];
      }
      i := i + 1;
    }
    assert mapArray[..|mapArray|] == mapArray;
  }

  /** When every id is a key, the output has one value per id: the value under it. */
  lemma {:induction false} PickedAll(sortArray: PhpArray, mapArray: seq<string>)
    requires forall i :: 0 <= i < |mapArray| ==> HasKey(sortArray, mapArray[i])
    ensures |Picked(sortArray, mapArray)| == |mapArray|
    ensures forall i :: 0 <= i < |mapArray| ==> Picked(sortArray, mapArray)[i] == Get(sortArray, mapArray[i]).value
  {
    if mapArray != [] {
      PickedAll(sortArray, mapArray[..|mapArray| - 1]);
    }
  }

  /** Ids without a key add nothing: the output only depends on the ids that are keys. */
  lemma {:induction false} PickedSkips(sortArray: PhpArray, mapArray: seq<string>, id: string)
    requires !HasKey(sortArray, id)
    ensures Picked(sortArray, mapArray + [id]) == Picked(sortArray, mapArray)
  {
    assert (mapArray + [id])[..|mapArray|] == mapArray;
  }

  /** The value `lookup` gives each id, in order. */
  function MapIds(lookup: string -> Value, ids: seq<string>): (r: seq<Value>)
    ensures |r| == |ids|
  {
    if ids == [] then [] else [lookup(ids[0])] + MapIds(lookup, ids[1..])
  }

  lemma {:induction false} MapIdsAt(lookup: string -> Value, ids: seq<string>)
    ensures forall i :: 0 <= i < |ids| ==> MapIds(lookup, ids)[i] == lookup(ids[i])
  {
    if ids != [] {
      MapIdsAt(lookup, ids[1..]);
      var r := MapIds(lookup, ids);
      assert r == [lookup(ids[0])] + MapIds(lookup, ids[1..]);
      forall i | 1 <= i < |ids|
        ensures r[i] == lookup(ids[i])
      {
        assert ids[i] == ids[1..][i - 1];
      }
    }
  }

  lemma {:induction false} MapIdsConcat(lookup: string -> Value, a: seq<string>, b: seq<string>)
    ensures MapIds(lookup, a + b) == MapIds(lookup, a) + MapIds(lookup, b)
  {
    if a != [] {
      MapIdsConcat(lookup, a[1..], b);
      assert (a + b)[1..] == a[1..] + b;
      var x := [lookup(a[0])];
      assert MapIds(lookup, a + b) == x + MapIds(lookup, a[1..] + b);
      assert MapIds(lookup, a) == x + MapIds(lookup, a[1..]);
      assert x + (MapIds(lookup, a[1..]) + MapIds(lookup, b)) == (x + MapIds(lookup, a[1..])) + MapIds(lookup, b);
    } else {
      assert a + b == b;
    }
  }

  /** Taking the same id out of two equal multisets of ids leaves equal multisets. */
  lemma MultisetTakeOut(ids: seq<string>, others: seq<string>, k: nat)
    requires ids != [] && k < |others| && others[k] == ids[0]
    requires multiset(ids) == multiset(others)
    ensures multiset(ids[1..]) == multiset(others[..k] + others[k + 1..])
  {
    assert ids == [ids[0]] + ids[1..];
    assert others == others[..k] + [others[k]] + others[k + 1..];
    var rest := others[..k] + others[k + 1..];
    assert multiset(others) == multiset(rest) + multiset{ids[0]};
    assert multiset(ids) == multiset(ids[1..]) + multiset{ids[0]};
    forall y
      ensures multiset(ids[1..])[y] == multiset(rest)[y]
    {
      assert multiset(ids)[y] == multiset(others)[y];
    }
  }

  /** Mapping depends only on the multiset of ids, not on their order. */
  lemma {:induction false} MapIdsMultiset(lookup: string -> Value, ids: seq<string>, others: seq<string>)
    requires multiset(ids) == multiset(others)
    ensures multiset(MapIds(lookup, ids)) == multiset(MapIds(lookup, others))
    decreases |ids|
  {
    if ids == [] {
      assert |others| == |multiset(others)|;
    } else {
      assert ids[0] in multiset(others);
      var k :| 0 <= k < |others| && others[k] == ids[0];
      MultisetTakeOut(ids, others, k);
      MapIdsMultiset(lookup, ids[1..], others[..k] + others[k + 1..]);
      MapIdsHead(lookup, ids);
      MapIdsTakeOut(lookup, others, k);
    }
  }

  lemma MapIdsHead(lookup: string -> Value, ids: seq<string>)
    requires ids != []
    ensures multiset(MapIds(lookup, ids)) == multiset{lookup(ids[0])} + multiset(MapIds(lookup, ids[1..]))
  {
    assert MapIds(lookup, ids) == [lookup(ids[0])] + MapIds(lookup, ids[1..]);
  }

  /** The id at `k` contributes its value; the rest map as without it. */
  lemma MapIdsTakeOut(lookup: string -> Value, others: seq<string>, k: nat)
    requires k < |others|
    ensures multiset(MapIds(lookup, others))
         == multiset{lookup(others[k])} + multiset(MapIds(lookup, others[..k] + others[k + 1..]))
  {
    var left, right := others[..k], others[k + 1..];
    var l, r, v := MapIds(lookup, left), MapIds(lookup, right), lookup(others[k]);
    SplitAround(others, k);
    MapIdsConcat(lookup, left + [others[k]], right);
    MapIdsConcat(lookup, left, [others[k]]);
    MapIdsConcat(lookup, left, right);
    MapIdsOne(lookup, others[k]);
    assert MapIds(lookup, others) == l + [v] + r;
    assert multiset(l + [v] + r) == multiset{v} + multiset(l + r);
  }

  lemma SplitAround(s: seq<string>, k: nat)
    requires k < |s|
    ensures s == s[..k] + [s[k]] + s[k + 1..]
  {
  }

  lemma MapIdsOne(lookup: string -> Value, id: string)
    ensures MapIds(lookup, [id]) == [lookup(id)]
  {
    assert [id][1..] == [];
  }

  /**
   * Listing every key once sorts the array: the output holds exactly the
   * array's values, each as often as before.
   */
  lemma SortByKeysPermutes(sortArray: PhpArray, mapArray: seq<string>)
    requires UniqueKeys(sortArray) && multiset(mapArray) == multiset(Keys(sortArray))
    ensures multiset(Picked(sortArray, mapArray)) == multiset(Values(sortArray))
  {
    var lookup := (k: string) => Get(sortArray, k).GetOr(Null);
    forall i | 0 <= i < |mapArray|
      ensures HasKey(sortArray, mapArray[i])
    {
      assert mapArray[i] in multiset(Keys(sortArray));
      HasKeyAt(sortArray, mapArray[i]);
    }
    PickedAll(sortArray, mapArray);
    MapIdsAt(lookup, mapArray);
    MapIdsAt(lookup, Keys(sortArray));
    assert Picked(sortArray, mapArray) == MapIds(lookup, mapArray);
    forall i | 0 <= i < |sortArray|
      ensures lookup(Keys(sortArray)[i]) == Values(sortArray)[i]
    {
      GetAt(sortArray, i);
    }
    assert MapIds(lookup, Keys(sortArray)) == Values(sortArray);
    MapIdsMultiset(lookup, mapArray, Keys(sortArray));
  }

  lemma SortByArrayExample()
    ensures Picked([("1", Int(1)), ("3", Int(3)), ("4", Int(4)), ("5", Int(5))], ["4", "3", "5", "1"])
         == [Int(4), Int(3), Int(5), Int(1)]
  {
    var sortArray := [("1", Int(1)), ("3", Int(3)), ("4", Int(4)), ("5", Int(5))];
    var mapArray := ["4", "3", "5", "1"];
    assert Get(sortArray, "4") == Some(Int(4));
    assert Get(sortArray, "3") == Some(Int(3));
    assert Get(sortArray, "5") == Some(Int(5));
    assert Get(sortArray, "1") == Some(Int(1));
    PickedAll(sortArray, mapArray);
  }
}
