/** Key order does not matter: reordering distinct keys, at any depth, leaves the text unchanged. */
module Reordering {
  import opened Basics
  import opened Values
  import opened Sorting
  import opened Json
  import opened Canonical

  ghost predicate DistinctKeys(es: seq<Entry>) {
    forall i, j :: 0 <= i < j < |es| ==> es[i].key != es[j].key
  }

  /** The same value up to the order of distinct keys in its maps, however deep. */
  ghost predicate Reordered(a: AnyValue, b: AnyValue) {
    match (a, b)
    case (Array(xs), Array(ys)) => |xs| == |ys| && forall i :: 0 <= i < |xs| ==> Reordered(xs[i], ys[i])
    case (Map(xs), Map(ys)) =>
      && DistinctKeys(xs) && DistinctKeys(ys) && |xs| == |ys|
      && forall i :: 0 <= i < |xs| ==> exists y :: y in ys && SameEntry(xs[i], y)
    case _ => a == b
  }

  ghost predicate SameEntry(x: Entry, y: Entry) {
    x.key == y.key && Reordered(x.value, y.value)
  }

  function Elements(es: seq<Entry>): set<Entry> {
    set e | e in es
  }

  lemma {:induction false} ElementsOfDistinct(es: seq<Entry>)
    requires DistinctKeys(es)
    ensures |Elements(es)| == |es|
  {
    if es != [] {
      var n := |es| - 1;
      ElementsOfDistinct(es[..n]);
      assert es == es[..n] + [es[n]];
      assert Elements(es) == Elements(es[..n]) + {es[n]};
    }
  }

  lemma SameElements(p: seq<Entry>, q: seq<Entry>)
    requires DistinctKeys(p) && DistinctKeys(q) && |p| == |q|
    requires forall e :: e in p ==> e in q
    ensures forall e :: e in p <==> e in q
  {
    ElementsOfDistinct(p);
    ElementsOfDistinct(q);
    SubsetSize(Elements(p), Elements(q));
    assert forall e :: e in q ==> e in Elements(q);
  }

  /** Strictly ascending keys. */
  ghost predicate Ascending(es: seq<Entry>) {
    Sorted(KeyLe, es) && DistinctKeys(es)
  }

  predicate KeyLt(a: Entry, b: Entry) { a.key != b.key && KeyLe(a, b) }

  lemma {:induction false} AscendingUnique(s: seq<Entry>, t: seq<Entry>)
    requires Ascending(s) && Ascending(t) && forall e :: e in s <==> e in t
    ensures s == t
  {
    forall a, b | KeyLt(a, b)
      ensures !KeyLt(b, a)
    {
      StrLeTotal(a.key, b.key);
    }
    StrictIsUnique(KeyLt, s, t);
  }

  lemma SortOfDistinct(es: seq<Entry>)
    requires DistinctKeys(es)
    ensures Ascending(Sort(KeyLe, es)) && forall e :: e in Sort(KeyLe, es) <==> e in es
  {
    var s := Sort(KeyLe, es);
    SortSortedEntries(es);
    SortKeepsElements(KeyLe, es);
    assert forall e :: e in s <==> e in multiset(s);
    assert forall e :: e in es <==> e in multiset(es);
    forall i, j | 0 <= i < j < |s|
      ensures s[i].key != s[j].key
    {
      SortedDistinctAt(es, i, j);
    }
  }

  /** A repeated key in a permutation would be a repeated key in the original. */
  lemma SortedDistinctAt(es: seq<Entry>, i: nat, j: nat)
    requires DistinctKeys(es) && i < j < |Sort(KeyLe, es)|
    ensures Sort(KeyLe, es)[i].key != Sort(KeyLe, es)[j].key
  {
    var s := Sort(KeyLe, es);
    var p := (e: Entry) => e.key == s[i].key;
    forall a, b | a in es && b in es && p(a) && p(b)
      ensures KeyLe(a, b)
    {
      StrLeReflexive(a.key);
    }
    SortStable(KeyLe, p, es);
    FilterOfDistinct(es, s[i].key);
    if s[i].key == s[j].key {
      TwoPicks(p, s, i, j);
      assert false;
    }
  }

  lemma {:induction false} FilterOfDistinct(es: seq<Entry>, key: string)
    requires DistinctKeys(es)
    ensures |Filter((e: Entry) => e.key == key, es)| <= 1
  {
    if es != [] {
      FilterOfDistinct(es[1..], key);
      if es[0].key == key {
        FilterNone((e: Entry) => e.key == key, es[1..]);
      }
    }
  }

  lemma {:induction false} TwoPicks<T>(p: T -> bool, s: seq<T>, i: nat, j: nat)
    requires i < j < |s| && p(s[i]) && p(s[j])
    ensures |Filter(p, s)| >= 2
  {
    if i > 0 {
      TwoPicks(p, s[1..], i - 1, j - 1);
    } else {
      FilterMembers(p, s[1..], s[j]);
      assert s[1..][j - 1] == s[j];
    }
  }

  lemma {:induction false} NormEntriesAt(es: seq<Entry>)
    ensures |NormEntries(es)| == |es|
    ensures forall i :: 0 <= i < |es| ==> NormEntries(es)[i] == Entry(es[i].key, Norm(es[i].value))
  {
    if es != [] {
      NormEntriesAt(es[1..]);
    }
  }

  lemma {:induction false} NormItemsAt(items: seq<AnyValue>)
    ensures |NormItems(items)| == |items|
    ensures forall i :: 0 <= i < |items| ==> NormItems(items)[i] == Norm(items[i])
  {
    if items != [] {
      NormItemsAt(items[1..]);
    }
  }

  predicate IsTwin(x: Entry, y: Entry) {
    x.key == y.key && Norm(x.value) == Norm(y.value)
  }

  ghost predicate HasTwin(x: Entry, ys: seq<Entry>) {
    exists y :: y in ys && IsTwin(x, y)
  }

  lemma SameNormEntries(xs: seq<Entry>, ys: seq<Entry>)
    requires DistinctKeys(xs) && DistinctKeys(ys) && |xs| == |ys|
    requires forall i :: 0 <= i < |xs| ==> HasTwin(xs[i], ys)
    ensures Sort(KeyLe, NormEntries(xs)) == Sort(KeyLe, NormEntries(ys))
  {
    var p, q := NormEntries(xs), NormEntries(ys);
    NormEntriesAt(xs);
    NormEntriesAt(ys);
    forall i | 0 <= i < |p|
      ensures p[i] in q
    {
      var y :| y in ys && IsTwin(xs[i], y);
      var j :| 0 <= j < |ys| && ys[j] == y;
      assert q[j] == p[i];
    }
    SameElements(p, q);
    SortOfDistinct(p);
    SortOfDistinct(q);
    SortKeepsElements(KeyLe, p);
    SortKeepsElements(KeyLe, q);
    AscendingUnique(Sort(KeyLe, p), Sort(KeyLe, q));
  }

  /** Values that differ only in key order, at any depth, are written byte for byte alike. */
  lemma {:induction false} ReorderedSameNorm(a: AnyValue, b: AnyValue)
    requires Reordered(a, b)
    ensures Norm(a) == Norm(b)
  {
    match (a, b)
    case (Array(xs), Array(ys)) =>
      NormItemsAt(xs);
      NormItemsAt(ys);
      forall i | 0 <= i < |xs|
        ensures Norm(xs[i]) == Norm(ys[i])
      {
        ReorderedSameNorm(xs[i], ys[i]);
      }
    case (Map(xs), Map(ys)) =>
      forall i | 0 <= i < |xs|
        ensures HasTwin(xs[i], ys)
      {
        var y :| y in ys && SameEntry(xs[i], y);
        ReorderedSameNorm(xs[i].value, y.value);
        assert IsTwin(xs[i], y);
      }
      SameNormEntries(xs, ys);
    case _ =>
  }

  lemma KeyOrderIsInvisible(a: AnyValue, b: AnyValue)
    requires Reordered(a, b)
    ensures Encode(a) == Encode(b)
  {
    ReorderedSameNorm(a, b);
    SameTextIffSameNorm(a, b);
  }
}
