/** The two ECMAScript built-ins the contact form goes through
    (script.js:370-373): `Object.fromEntries` builds an object from the
    form's name/value pairs, and `Object.entries` lists its properties
    back. An object is its own string-keyed properties in insertion order.
    A repeated name keeps its first position and takes its last value, and
    `Object.entries` lists array-index keys ("0", "7", "42", ...) first in
    ascending numeric order, then the other keys in insertion order. */
module JsObject {
  import JsParseInt

  type Pair = (string, string)

  /** The property names, in order. */
  function Keys(ps: seq<Pair>): (ks: seq<string>)
    ensures |ks| == |ps| && forall i :: 0 <= i < |ps| ==> ks[i] == ps[i].0
  {
    seq(|ps|, i requires 0 <= i < |ps| => ps[i].0)
  }

  predicate DistinctKeys(ps: seq<Pair>) {
    forall i, j :: 0 <= i < j < |ps| ==> ps[i].0 != ps[j].0
  }

  /** The position of the first occurrence of `k` in `ks`. */
  function IndexOf(ks: seq<string>, k: string): (i: nat)
    requires k in ks
    ensures i < |ks| && ks[i] == k
    ensures forall j :: 0 <= j < i ==> ks[j] != k
  {
    if ks[0] == k then 0 else 1 + IndexOf(ks[1..], k)
  }

  /** The value of the last pair named `k`: what the property ends up with. */
  function LastValue(ps: seq<Pair>, k: string): string
    requires k in Keys(ps)
  {
    var n := |ps| - 1;
    if ps[n].0 == k then ps[n].1
    else
      assert k in Keys(ps[..n]) by {
        var i := IndexOf(Keys(ps), k);
        assert Keys(ps[..n])[i] == k;
      }
      LastValue(ps[..n], k)
  }

  /** Defining property `k` on an object: an existing property keeps its
      place and takes the new value; a new one goes last. */
  function Put(obj: seq<Pair>, k: string, v: string): (r: seq<Pair>)
    ensures k in Keys(obj) ==> |r| == |obj| && Keys(r) == Keys(obj)
    ensures k !in Keys(obj) ==> r == obj + [(k, v)]
    ensures forall i :: 0 <= i < |r| && r[i].0 != k ==> r[i] == obj[i]
    ensures DistinctKeys(obj) ==> forall i :: 0 <= i < |r| && r[i].0 == k ==> r[i].1 == v
    ensures DistinctKeys(obj) ==> DistinctKeys(r)
  {
    if k in Keys(obj) then
      var i := IndexOf(Keys(obj), k);
      var r := obj[i := (k, v)];
      assert Keys(r) == Keys(obj);
      r
    else
      var r := obj + [(k, v)];
      assert DistinctKeys(obj) ==> DistinctKeys(r) by {
        if DistinctKeys(obj) {
          forall i, j | 0 <= i < j < |r|
            ensures r[i].0 != r[j].0
          {
            if j == |obj| {
              assert Keys(obj)[i] == r[i].0;
            }
          }
        }
      }
      r
  }

  /** `Object.fromEntries(pairs)`: the pairs defined one after another.
      Every name appears once, the names are those of the pairs, and each
      carries the value of the last pair with that name. */
  function FromEntries(pairs: seq<Pair>): (obj: seq<Pair>)
    ensures DistinctKeys(obj)
    ensures forall k :: k in Keys(obj) <==> k in Keys(pairs)
    ensures forall i :: 0 <= i < |obj| ==> obj[i].0 in Keys(pairs) && obj[i].1 == LastValue(pairs, obj[i].0)
    decreases |pairs|
  {
    if |pairs| == 0 then []
    else
      var n := |pairs| - 1;
      var init := pairs[..n];
      var last := pairs[n];
      var obj := FromEntries(init);
      var r := Put(obj, last.0, last.1);
      assert Keys(pairs) == Keys(init) + [last.0];
      assert forall k :: k in Keys(r) <==> k in Keys(obj) || k == last.0 by {
        if last.0 !in Keys(obj) {
          assert Keys(r) == Keys(obj) + [last.0];
        }
      }
      forall i | 0 <= i < |r|
        ensures r[i].0 in Keys(pairs) && r[i].1 == LastValue(pairs, r[i].0)
      {
        if r[i].0 != last.0 {
          assert r[i] == obj[i];
          assert Keys(obj)[i] == obj[i].0;
        }
      }
      r
  }

  /** For pairs with distinct names, `Object.fromEntries` keeps every pair,
      in order. */
  lemma {:induction false} FromEntriesDistinct(pairs: seq<Pair>)
    requires DistinctKeys(pairs)
    ensures FromEntries(pairs) == pairs
    decreases |pairs|
  {
    if |pairs| > 0 {
      var n := |pairs| - 1;
      var init := pairs[..n];
      var last := pairs[n];
      FromEntriesDistinct(init);
      assert last.0 !in Keys(init);
      assert init + [last] == pairs;
    }
  }

  /** `Object.fromEntries` of one more pair: that pair defined on the
      object the earlier pairs built. */
  lemma FromEntriesSnoc(init: seq<Pair>, last: Pair)
    ensures FromEntries(init + [last]) == Put(FromEntries(init), last.0, last.1)
  {
    var p := init + [last];
    assert p[..|p| - 1] == init;
  }

  /** Redefining an existing property replaces its value in place. */
  lemma PutExisting(obj: seq<Pair>, i: nat, v: string)
    requires DistinctKeys(obj) && i < |obj|
    ensures Put(obj, obj[i].0, v) == obj[i := (obj[i].0, v)]
  {
    var k := obj[i].0;
    assert Keys(obj)[i] == k;
    var r := Put(obj, k, v);
    assert Keys(r) == Keys(obj);
    forall j | 0 <= j < |r|
      ensures r[j] == obj[i := (k, v)][j]
    {
      assert Keys(r)[j] == Keys(obj)[j];
    }
  }

  /** The distinct names of `ks`, each once, in order of first occurrence
      (`FirstKeysOrder`). */
  function FirstKeys(ks: seq<string>): (r: seq<string>)
    ensures forall k :: k in r <==> k in ks
    ensures forall i, j :: 0 <= i < j < |r| ==> r[i] != r[j]
    decreases |ks|
  {
    if |ks| == 0 then []
    else
      var n := |ks| - 1;
      var p := FirstKeys(ks[..n]);
      assert ks == ks[..n] + [ks[n]];
      if ks[n] in p then p else p + [ks[n]]
  }

  /** Of two first-occurrence names, the earlier one occurs first in `ks`. */
  lemma {:induction false} FirstKeysOrder(ks: seq<string>, i: nat, j: nat)
    requires i < j < |FirstKeys(ks)|
    ensures IndexOf(ks, FirstKeys(ks)[i]) < IndexOf(ks, FirstKeys(ks)[j])
    decreases |ks|
  {
    var n := |ks| - 1;
    var p := FirstKeys(ks[..n]);
    var r := FirstKeys(ks);
    assert r[i] == p[i];
    FirstIndexInPrefix(ks, n, r[i]);
    if j < |p| {
      FirstKeysOrder(ks[..n], i, j);
      FirstIndexInPrefix(ks, n, r[j]);
    } else {
      FirstIndexAtEnd(ks);
    }
  }

  /** The first occurrence of a name found before position `n` is its first
      occurrence in the prefix of length `n`. */
  lemma FirstIndexInPrefix(ks: seq<string>, n: nat, k: string)
    requires n <= |ks| && k in ks[..n]
    ensures k in ks && IndexOf(ks, k) == IndexOf(ks[..n], k) < n
  {
    var i := IndexOf(ks[..n], k);
    assert ks[..n][i] == ks[i];
  }

  /** A name first found at the end of the list has its first occurrence
      there. */
  lemma FirstIndexAtEnd(ks: seq<string>)
    requires |ks| > 0 && ks[|ks| - 1] !in ks[..|ks| - 1]
    ensures IndexOf(ks, ks[|ks| - 1]) == |ks| - 1
  {
    var n := |ks| - 1;
    assert forall j :: 0 <= j < n ==> ks[..n][j] == ks[j];
  }

  /** The names of one more pair. */
  lemma KeysSnoc(ps: seq<Pair>, p: Pair)
    ensures Keys(ps + [p]) == Keys(ps) + [p.0]
  {
  }

  /** The names after defining `k`: unchanged when `k` exists, else `k` last. */
  lemma KeysPut(obj: seq<Pair>, k: string, v: string)
    ensures Keys(Put(obj, k, v)) == if k in Keys(obj) then Keys(obj) else Keys(obj) + [k]
  {
    if k !in Keys(obj) {
      KeysSnoc(obj, (k, v));
    }
  }

  /** The first-occurrence names of one more name. */
  lemma FirstKeysSnoc(ks: seq<string>, k: string)
    ensures FirstKeys(ks + [k]) == if k in FirstKeys(ks) then FirstKeys(ks) else FirstKeys(ks) + [k]
  {
    assert (ks + [k])[..|ks|] == ks;
  }

  /** `Object.fromEntries` lists each name once, at the place of its first
      pair: a repeated name keeps its first position. */
  lemma {:induction false} FromEntriesKeyOrder(pairs: seq<Pair>)
    ensures Keys(FromEntries(pairs)) == FirstKeys(Keys(pairs))
    decreases |pairs|
  {
    if |pairs| > 0 {
      var init := pairs[..|pairs| - 1];
      var last := pairs[|pairs| - 1];
      assert init + [last] == pairs;
      FromEntriesKeyOrder(init);
      FromEntriesSnoc(init, last);
      KeysPut(FromEntries(init), last.0, last.1);
      KeysSnoc(init, last);
      FirstKeysSnoc(Keys(init), last.0);
    }
  }

  /** The object `Object.fromEntries` builds, stated without definitions one
      by one: the names in order of first occurrence, each with the value of
      its last pair. */
  function Merged(pairs: seq<Pair>): (r: seq<Pair>)
    ensures Keys(r) == FirstKeys(Keys(pairs))
  {
    var ks := FirstKeys(Keys(pairs));
    seq(|ks|, i requires 0 <= i < |ks| => (ks[i], LastValue(pairs, ks[i])))
  }

  /** `Object.fromEntries` agrees with the merged form for every list of
      pairs, repeated names included. */
  lemma FromEntriesMerged(pairs: seq<Pair>)
    ensures FromEntries(pairs) == Merged(pairs)
  {
    FromEntriesKeyOrder(pairs);
    var obj := FromEntries(pairs);
    var m := Merged(pairs);
    assert |obj| == |Keys(obj)| == |Keys(m)| == |m|;
    forall i | 0 <= i < |obj|
      ensures obj[i] == m[i]
    {
      assert Keys(obj)[i] == Keys(m)[i];
    }
  }

  /** With a repeated name, the property keeps the place of the first pair
      and the value of the last: a form with fields `k`, `k2`, `k` yields
      `k` with the second value of `k`, then `k2`. */
  lemma RepeatedNameScenario(k: string, k2: string, first: string, other: string, last: string)
    requires k != k2
    ensures FromEntries([(k, first), (k2, other), (k, last)]) == [(k, last), (k2, other)]
  {
    var o2 := [(k, first), (k2, other)];
    var p := [(k, first), (k2, other), (k, last)];
    var r := [(k, last), (k2, other)];
    assert FromEntries(o2) == o2 by {
      FromEntriesDistinct(o2);
    }
    assert FromEntries(p) == Put(FromEntries(o2), k, last) by {
      FromEntriesSnoc(o2, (k, last));
      assert o2 + [(k, last)] == p;
    }
    assert Put(o2, k, last) == r by {
      PutExisting(o2, 0, last);
      assert o2[0 := (k, last)] == r;
    }
  }

  /** A canonical array index: "0", or decimal digits without a leading zero,
      denoting at most 2^32 - 2. */
  predicate IsArrayIndex(k: string) {
    && |k| >= 1 && JsParseInt.AllDigits(k)
    && (|k| == 1 || k[0] != '0')
    && JsParseInt.DigitsValue(k) <= 0xFFFF_FFFE
  }

  function IndexValue(p: Pair): nat
    requires IsArrayIndex(p.0)
  {
    JsParseInt.DigitsValue(p.0)
  }

  /** The properties with array-index keys, and the others, in order. */
  function IndexPairs(ps: seq<Pair>): (r: seq<Pair>)
    ensures forall i :: 0 <= i < |r| ==> IsArrayIndex(r[i].0)
  {
    if |ps| == 0 then []
    else (if IsArrayIndex(ps[0].0) then [ps[0]] else []) + IndexPairs(ps[1..])
  }

  function OtherPairs(ps: seq<Pair>): (r: seq<Pair>)
    ensures forall i :: 0 <= i < |r| ==> !IsArrayIndex(r[i].0)
  {
    if |ps| == 0 then []
    else (if IsArrayIndex(ps[0].0) then [] else [ps[0]]) + OtherPairs(ps[1..])
  }

  /** One step of the split: `h` goes to exactly one side. */
  lemma SplitStep(h: Pair, t: seq<Pair>, idx: seq<Pair>, other: seq<Pair>, toIndex: bool)
    requires multiset(idx) + multiset(other) == multiset(t)
    ensures multiset((if toIndex then [h] else []) + idx) + multiset((if toIndex then [] else [h]) + other)
         == multiset([h] + t)
  {
    assert multiset([h] + t) == multiset{h} + multiset(t);
    if toIndex {
      assert multiset([h] + idx) == multiset{h} + multiset(idx);
      assert [] + other == other;
    } else {
      assert multiset([h] + other) == multiset{h} + multiset(other);
      assert [] + idx == idx;
    }
  }

  lemma {:induction false} SplitKeepsPairs(ps: seq<Pair>)
    ensures multiset(IndexPairs(ps)) + multiset(OtherPairs(ps)) == multiset(ps)
    decreases |ps|
  {
    if |ps| > 0 {
      var t := ps[1..];
      SplitKeepsPairs(t);
      SplitStep(ps[0], t, IndexPairs(t), OtherPairs(t), IsArrayIndex(ps[0].0));
      assert [ps[0]] + t == ps;
    }
  }

  predicate SortedByIndex(ps: seq<Pair>)
    requires forall i :: 0 <= i < |ps| ==> IsArrayIndex(ps[i].0)
  {
    forall i, j :: 0 <= i < j < |ps| ==> IndexValue(ps[i]) <= IndexValue(ps[j])
  }

  /** A sorted list stays sorted when a property whose index is no larger
      than its head's goes in front. */
  lemma ConsSorted(p: Pair, ps: seq<Pair>)
    requires IsArrayIndex(p.0) && forall i :: 0 <= i < |ps| ==> IsArrayIndex(ps[i].0)
    requires SortedByIndex(ps)
    requires |ps| > 0 ==> IndexValue(p) <= IndexValue(ps[0])
    ensures forall i :: 0 <= i < |[p] + ps| ==> IsArrayIndex(([p] + ps)[i].0)
    ensures SortedByIndex([p] + ps)
  {
    var r := [p] + ps;
    forall i, j | 0 <= i < j < |r|
      ensures IndexValue(r[i]) <= IndexValue(r[j])
    {
      if i == 0 && j > 1 {
        assert r[1] == ps[0] && r[j] == ps[j - 1];
      }
    }
  }

  /** Putting `h` in front of both sides of `rest ~ tail + {p}` keeps them
      the same multiset. */
  lemma ConsMultiset(h: Pair, tail: seq<Pair>, rest: seq<Pair>, p: Pair)
    requires multiset(rest) == multiset(tail) + multiset{p}
    ensures multiset([h] + rest) == multiset([h] + tail) + multiset{p}
  {
    calc {
      multiset([h] + rest);
      multiset{h} + multiset(rest);
      multiset{h} + multiset(tail) + multiset{p};
      multiset([h] + tail) + multiset{p};
    }
  }

  /** Inserts an array-index property into a list sorted by index. */
  function Insert(p: Pair, sorted: seq<Pair>): (r: seq<Pair>)
    requires IsArrayIndex(p.0)
    requires forall i :: 0 <= i < |sorted| ==> IsArrayIndex(sorted[i].0)
    requires SortedByIndex(sorted)
    ensures |r| == |sorted| + 1
    ensures forall i :: 0 <= i < |r| ==> IsArrayIndex(r[i].0)
    ensures r[0] == p || (|sorted| > 0 && r[0] == sorted[0])
    ensures SortedByIndex(r)
    ensures multiset(r) == multiset(sorted) + multiset{p}
  {
    if |sorted| == 0 || IndexValue(p) <= IndexValue(sorted[0]) then
      ConsSorted(p, sorted);
      [p] + sorted
    else
      var h := sorted[0];
      var tail := sorted[1..];
      var rest := Insert(p, tail);
      assert IndexValue(h) <= IndexValue(rest[0]) by {
        if rest[0] != p {
          assert IndexValue(h) <= IndexValue(sorted[1]);
        }
      }
      ConsSorted(h, rest);
      ConsMultiset(h, tail, rest, p);
      assert [h] + tail == sorted;
      [h] + rest
  }

  /** The array-index properties sorted ascending by index. */
  function SortByIndex(ps: seq<Pair>): (r: seq<Pair>)
    requires forall i :: 0 <= i < |ps| ==> IsArrayIndex(ps[i].0)
    ensures forall i :: 0 <= i < |r| ==> IsArrayIndex(r[i].0)
    ensures SortedByIndex(r)
    ensures multiset(r) == multiset(ps)
  {
    if |ps| == 0 then []
    else
      assert ps == [ps[0]] + ps[1..];
      Insert(ps[0], SortByIndex(ps[1..]))
  }

  /** `Object.entries(obj)`: array-index keys ascending, then the other
      keys in insertion order; every property exactly once. */
  function Entries(obj: seq<Pair>): (r: seq<Pair>)
    ensures multiset(r) == multiset(obj)
  {
    SplitKeepsPairs(obj);
    SortByIndex(IndexPairs(obj)) + OtherPairs(obj)
  }

  /** Without array-index keys, `Object.entries` lists the properties in
      insertion order. */
  lemma {:induction false} EntriesWithoutIndices(obj: seq<Pair>)
    requires forall i :: 0 <= i < |obj| ==> !IsArrayIndex(obj[i].0)
    ensures Entries(obj) == obj
  {
    NoIndexPairs(obj);
  }

  lemma {:induction false} NoIndexPairs(ps: seq<Pair>)
    requires forall i :: 0 <= i < |ps| ==> !IsArrayIndex(ps[i].0)
    ensures IndexPairs(ps) == [] && OtherPairs(ps) == ps
    decreases |ps|
  {
    if |ps| > 0 {
      NoIndexPairs(ps[1..]);
      assert ps == [ps[0]] + ps[1..];
    }
  }

  lemma {:induction false} OtherPairsAppend(a: seq<Pair>, b: seq<Pair>)
    ensures OtherPairs(a + b) == OtherPairs(a) + OtherPairs(b)
    decreases |a|
  {
    if |a| > 0 {
      OtherPairsAppend(a[1..], b);
      assert (a + b)[0] == a[0] && (a + b)[1..] == a[1..] + b;
      var head := if IsArrayIndex(a[0].0) then [] else [a[0]];
      assert OtherPairs(a) == head + OtherPairs(a[1..]);
      assert OtherPairs(a + b) == head + OtherPairs(a[1..] + b);
    } else {
      assert a + b == b;
    }
  }

  lemma {:induction false} OnlyIndexPairs(ps: seq<Pair>)
    requires forall i :: 0 <= i < |ps| ==> IsArrayIndex(ps[i].0)
    ensures OtherPairs(ps) == []
    decreases |ps|
  {
    if |ps| > 0 {
      OnlyIndexPairs(ps[1..]);
      assert OtherPairs(ps) == [] + OtherPairs(ps[1..]);
    }
  }

  /** `Object.entries` lists every array-index key before any other key,
      the array-index keys in ascending order, and the other keys in the
      object's insertion order. */
  lemma EntriesOrder(obj: seq<Pair>)
    ensures forall i, j :: 0 <= i < j < |Entries(obj)| && IsArrayIndex(Entries(obj)[j].0) ==>
      IsArrayIndex(Entries(obj)[i].0) && IndexValue(Entries(obj)[i]) <= IndexValue(Entries(obj)[j])
    ensures OtherPairs(Entries(obj)) == OtherPairs(obj)
  {
    var sorted := SortByIndex(IndexPairs(obj));
    var others := OtherPairs(obj);
    var r := Entries(obj);
    assert r == sorted + others;
    forall i, j | 0 <= i < j < |r| && IsArrayIndex(r[j].0)
      ensures IsArrayIndex(r[i].0) && IndexValue(r[i]) <= IndexValue(r[j])
    {
      assert j < |sorted|;
    }
    OtherPairsAppend(sorted, others);
    OnlyIndexPairs(sorted);
    NoIndexPairs(others);
  }
}
