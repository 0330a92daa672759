/** Stable sorting and the order on strings, as Rust's `sort_by` and `str::cmp` define them. */
module Sorting {
  import opened Basics

  ghost predicate TotalPreorder<T(!new)>(le: (T, T) -> bool) {
    && (forall a, b :: le(a, b) || le(b, a))
    && (forall a, b, c :: le(a, b) && le(b, c) ==> le(a, c))
  }

  ghost predicate Sorted<T>(le: (T, T) -> bool, xs: seq<T>) {
    forall i, j :: 0 <= i < j < |xs| ==> le(xs[i], xs[j])
  }

  function Insert<T>(le: (T, T) -> bool, x: T, xs: seq<T>): seq<T> {
    if xs == [] || le(x, xs[0]) then [x] + xs else [xs[0]] + Insert(le, x, xs[1..])
  }

  /** A stable sort: `x` goes before its equals, which came after it. */
  function Sort<T>(le: (T, T) -> bool, xs: seq<T>): seq<T> {
    if xs == [] then [] else Insert(le, xs[0], Sort(le, xs[1..]))
  }

  lemma {:induction false} InsertKeepsElements<T>(le: (T, T) -> bool, x: T, xs: seq<T>)
    ensures multiset(Insert(le, x, xs)) == multiset(xs) + multiset{x}
    ensures |Insert(le, x, xs)| == |xs| + 1
  {
    if xs != [] && !le(x, xs[0]) {
      InsertKeepsElements(le, x, xs[1..]);
      assert xs == [xs[0]] + xs[1..];
    }
  }

  lemma {:induction false} SortKeepsElements<T>(le: (T, T) -> bool, xs: seq<T>)
    ensures multiset(Sort(le, xs)) == multiset(xs)
    ensures |Sort(le, xs)| == |xs|
  {
    if xs != [] {
      SortKeepsElements(le, xs[1..]);
      InsertKeepsElements(le, xs[0], Sort(le, xs[1..]));
      assert xs == [xs[0]] + xs[1..];
    }
  }

  lemma {:induction false} InsertSorted<T(!new)>(le: (T, T) -> bool, x: T, xs: seq<T>)
    requires TotalPreorder(le) && Sorted(le, xs)
    ensures Sorted(le, Insert(le, x, xs))
  {
    if xs != [] && !le(x, xs[0]) {
      var rest := Insert(le, x, xs[1..]);
      InsertSorted(le, x, xs[1..]);
      InsertKeepsElements(le, x, xs[1..]);
      forall i | 0 <= i < |rest|
        ensures le(xs[0], rest[i])
      {
        assert rest[i] in multiset(rest);
        assert rest[i] in multiset(xs[1..]) || rest[i] == x;
      }
    }
  }

  lemma {:induction false} SortSorted<T(!new)>(le: (T, T) -> bool, xs: seq<T>)
    requires TotalPreorder(le)
    ensures Sorted(le, Sort(le, xs))
  {
    if xs != [] {
      SortSorted(le, xs[1..]);
      InsertSorted(le, xs[0], Sort(le, xs[1..]));
    }
  }

  lemma {:induction false} SortOfSorted<T>(le: (T, T) -> bool, xs: seq<T>)
    requires Sorted(le, xs)
    ensures Sort(le, xs) == xs
  {
    if xs != [] {
      SortOfSorted(le, xs[1..]);
      assert xs == [xs[0]] + xs[1..];
    }
  }

  function Filter<T>(p: T -> bool, xs: seq<T>): seq<T> {
    if xs == [] then []
    else (if p(xs[0]) then [xs[0]] else []) + Filter(p, xs[1..])
  }

  lemma {:induction false} FilterOfConcat<T>(p: T -> bool, xs: seq<T>, ys: seq<T>)
    ensures Filter(p, xs + ys) == Filter(p, xs) + Filter(p, ys)
  {
    if xs == [] {
      assert xs + ys == ys;
    } else {
      var head, rest := if p(xs[0]) then [xs[0]] else [], xs[1..];
      FilterOfConcat(p, rest, ys);
      assert (xs + ys)[0] == xs[0] && (xs + ys)[1..] == rest + ys;
      ConcatAssociates(head, Filter(p, rest), Filter(p, ys));
    }
  }

  lemma {:induction false} FilterMembers<T>(p: T -> bool, xs: seq<T>, x: T)
    ensures x in Filter(p, xs) <==> x in xs && p(x)
  {
    if xs != [] {
      FilterMembers(p, xs[1..], x);
      assert xs == [xs[0]] + xs[1..];
    }
  }

  lemma {:induction false} FilterNone<T>(p: T -> bool, xs: seq<T>)
    requires forall i :: 0 <= i < |xs| ==> !p(xs[i])
    ensures Filter(p, xs) == []
  {
    if xs != [] {
      FilterNone(p, xs[1..]);
    }
  }

  /** Filtering keeps any relation between earlier and later elements. */
  lemma {:induction false} FilterKeepsOrder<T>(p: T -> bool, rel: (T, T) -> bool, xs: seq<T>)
    requires Sorted(rel, xs)
    ensures Sorted(rel, Filter(p, xs))
  {
    if xs != [] {
      var rest := Filter(p, xs[1..]);
      FilterKeepsOrder(p, rel, xs[1..]);
      forall i | 0 <= i < |rest|
        ensures rel(xs[0], rest[i])
      {
        FilterMembers(p, xs[1..], rest[i]);
        var j :| 0 <= j < |xs| - 1 && xs[1..][j] == rest[i];
        assert xs[j + 1] == rest[i];
      }
    }
  }

  lemma {:induction false} InsertStable<T>(le: (T, T) -> bool, p: T -> bool, x: T, xs: seq<T>)
    requires forall i :: 0 <= i < |xs| && p(x) && p(xs[i]) ==> le(x, xs[i])
    ensures Filter(p, Insert(le, x, xs)) == Filter(p, [x]) + Filter(p, xs)
  {
    if xs == [] || le(x, xs[0]) {
      FilterOfConcat(p, [x], xs);
    } else {
      InsertStable(le, p, x, xs[1..]);
      FilterOfConcat(p, [xs[0]], Insert(le, x, xs[1..]));
      FilterOfConcat(p, [xs[0]], xs[1..]);
      assert xs == [xs[0]] + xs[1..];
      assert !p(x) || !p(xs[0]);
      assert Filter(p, [x]) == if p(x) then [x] else [];
      assert Filter(p, [xs[0]]) == if p(xs[0]) then [xs[0]] else [];
    }
  }

  /** Stability: elements that all compare equal keep their order. */
  lemma {:induction false} SortStable<T>(le: (T, T) -> bool, p: T -> bool, xs: seq<T>)
    requires forall a, b :: a in xs && b in xs && p(a) && p(b) ==> le(a, b)
    ensures Filter(p, Sort(le, xs)) == Filter(p, xs)
  {
    if xs != [] {
      var rest := Sort(le, xs[1..]);
      SortStable(le, p, xs[1..]);
      SortKeepsElements(le, xs[1..]);
      forall i | 0 <= i < |rest|
        ensures rest[i] in xs
      {
        assert rest[i] in multiset(rest);
      }
      InsertStable(le, p, xs[0], rest);
      FilterOfConcat(p, [xs[0]], xs[1..]);
      assert xs == [xs[0]] + xs[1..];
    }
  }

  // ----- where each element goes

  /** `order` lists the positions of `xs` so that their elements ascend and ties keep their positions. */
  ghost predicate Arranges<T>(le: (T, T) -> bool, xs: seq<T>, order: seq<nat>) {
    && |order| == |xs|
    && (forall i :: 0 <= i < |order| ==> order[i] < |xs|)
    && (forall i, j :: 0 <= i < j < |order| ==>
          && le(xs[order[i]], xs[order[j]])
          && (le(xs[order[j]], xs[order[i]]) ==> order[i] < order[j]))
  }

  ghost predicate Placed<T>(xs: seq<T>, order: seq<nat>, ys: seq<T>) {
    |ys| == |order| && forall i :: 0 <= i < |order| ==> order[i] < |xs| && ys[i] == xs[order[i]]
  }

  lemma {:induction false} InsertPlace<T(!new)>(le: (T, T) -> bool, x: T, ys: seq<T>) returns (p: nat)
    requires TotalPreorder(le) && Sorted(le, ys)
    ensures p <= |ys| && Insert(le, x, ys) == ys[..p] + [x] + ys[p..]
    ensures forall i :: 0 <= i < p ==> le(ys[i], x) && !le(x, ys[i])
    ensures forall i :: p <= i < |ys| ==> le(x, ys[i])
    decreases |ys|
  {
    if ys == [] || le(x, ys[0]) {
      p := 0;
      forall i | 0 <= i < |ys|
        ensures le(x, ys[i])
      {
        assert i > 0 ==> le(ys[0], ys[i]);
      }
    } else {
      p := InsertPlace(le, x, ys[1..]);
      assert ys == [ys[0]] + ys[1..];
      assert forall i :: 1 <= i < |ys| ==> ys[i] == ys[1..][i - 1];
      p := p + 1;
    }
  }

  /** The positions of a list with one more element in front, which goes to place `p`. */
  function Shifted(order: seq<nat>, p: nat): seq<nat>
    requires p <= |order|
  {
    seq(|order| + 1, i requires 0 <= i < |order| + 1 =>
      if i < p then order[i] + 1 else if i == p then 0 else order[i - 1] + 1)
  }

  /** The first element of `xs` goes to place `p` of the order of the others. */
  ghost predicate FitsAt<T>(le: (T, T) -> bool, xs: seq<T>, order: seq<nat>, p: nat) {
    && xs != [] && Arranges(le, xs[1..], order) && p <= |order|
    && (forall i :: 0 <= i < p ==> le(xs[1..][order[i]], xs[0]) && !le(xs[0], xs[1..][order[i]]))
    && (forall i :: p <= i < |order| ==> le(xs[0], xs[1..][order[i]]))
  }

  lemma {:induction false} ShiftedPair<T>(le: (T, T) -> bool, xs: seq<T>, order: seq<nat>, p: nat, i: nat, j: nat)
    requires FitsAt(le, xs, order, p) && i < j <= |order|
    ensures var next := Shifted(order, p);
      && next[i] < |xs| && next[j] < |xs| && le(xs[next[i]], xs[next[j]])
      && (le(xs[next[j]], xs[next[i]]) ==> next[i] < next[j])
  {
    var next, rest := Shifted(order, p), xs[1..];
    if i == p {
      assert xs[next[j]] == rest[order[j - 1]];
    } else if j == p {
      assert xs[next[i]] == rest[order[i]];
    } else {
      var a, b := if i < p then i else i - 1, if j < p then j else j - 1;
      assert a < b && le(rest[order[a]], rest[order[b]]);
      assert xs[next[i]] == rest[order[a]] && xs[next[j]] == rest[order[b]];
    }
  }

  lemma {:induction false} ShiftedArranges<T>(le: (T, T) -> bool, xs: seq<T>, order: seq<nat>, p: nat)
    requires FitsAt(le, xs, order, p)
    ensures Arranges(le, xs, Shifted(order, p))
  {
    var next := Shifted(order, p);
    forall i, j | 0 <= i < j < |next|
      ensures le(xs[next[i]], xs[next[j]]) && (le(xs[next[j]], xs[next[i]]) ==> next[i] < next[j])
    {
      ShiftedPair(le, xs, order, p, i, j);
    }
  }

  lemma {:induction false} ShiftedPlaced<T>(xs: seq<T>, order: seq<nat>, p: nat, ys: seq<T>)
    requires xs != [] && Placed(xs[1..], order, ys) && p <= |order|
    ensures Placed(xs, Shifted(order, p), ys[..p] + [xs[0]] + ys[p..])
  {
    var next, zs := Shifted(order, p), ys[..p] + [xs[0]] + ys[p..];
    forall i | 0 <= i < |next|
      ensures next[i] < |xs| && zs[i] == xs[next[i]]
    {
      if i < p {
        assert zs[i] == ys[i] == xs[1..][order[i]];
      } else if i > p {
        assert zs[i] == ys[i - 1] == xs[1..][order[i - 1]];
      }
    }
  }

  /** What a stable sort does: it arranges. */
  lemma {:induction false} SortArranges<T(!new)>(le: (T, T) -> bool, xs: seq<T>) returns (order: seq<nat>)
    requires TotalPreorder(le)
    ensures Arranges(le, xs, order) && Placed(xs, order, Sort(le, xs))
    decreases |xs|
  {
    order := [];
    if xs != [] {
      var rest := Sort(le, xs[1..]);
      var tail := SortArranges(le, xs[1..]);
      SortSorted(le, xs[1..]);
      var p := InsertPlace(le, xs[0], rest);
      assert FitsAt(le, xs, tail, p);
      ShiftedArranges(le, xs, tail, p);
      ShiftedPlaced(xs, tail, p, rest);
      order := Shifted(tail, p);
    }
  }

  lemma SameMembers<T>(xs: seq<T>, ys: seq<T>)
    requires multiset(xs) == multiset(ys)
    ensures forall x :: x in xs <==> x in ys
  {
    forall x
      ensures x in xs <==> x in ys
    {
      assert x in xs <==> x in multiset(xs);
      assert x in ys <==> x in multiset(ys);
    }
  }

  lemma WithoutFirst<T>(xs: seq<T>)
    requires xs != []
    ensures multiset(xs[1..]) == multiset(xs) - multiset{xs[0]}
    ensures forall x :: x in xs[1..] ==> x in xs
  {
    assert xs == [xs[0]] + xs[1..];
  }

  lemma SameFirst<T>(le: (T, T) -> bool, xs: seq<T>, ys: seq<T>)
    requires multiset(xs) == multiset(ys) && Sorted(le, xs) && Sorted(le, ys) && xs != []
    requires forall a, b :: a in xs && b in xs && le(a, b) && le(b, a) ==> a == b
    ensures ys != [] && xs[0] == ys[0]
  {
    SameMembers(xs, ys);
    assert xs[0] in ys && ys[0] in xs;
  }

  /** There is only one way to sort elements no two of which tie. */
  lemma {:induction false} SortedIsUnique<T>(le: (T, T) -> bool, xs: seq<T>, ys: seq<T>)
    requires multiset(xs) == multiset(ys) && Sorted(le, xs) && Sorted(le, ys)
    requires forall a, b :: a in xs && b in xs && le(a, b) && le(b, a) ==> a == b
    ensures xs == ys
  {
    if xs == [] {
      SameMembers(xs, ys);
      assert ys == [];
    } else {
      SameFirst(le, xs, ys);
      WithoutFirst(xs);
      WithoutFirst(ys);
      SortedIsUnique(le, xs[1..], ys[1..]);
      assert xs == [xs[0]] + xs[1..] && ys == [ys[0]] + ys[1..];
    }
  }

  lemma {:induction false} RestOfStrict<T>(lt: (T, T) -> bool, xs: seq<T>)
    requires xs != [] && Sorted(lt, xs)
    requires forall a, b :: a in xs && b in xs && lt(a, b) ==> !lt(b, a)
    ensures forall x :: x in xs[1..] <==> x in xs && x != xs[0]
  {
    assert xs == [xs[0]] + xs[1..];
    forall x | x in xs[1..]
      ensures x != xs[0]
    {
      var i :| 0 <= i < |xs| - 1 && xs[1..][i] == x;
      assert lt(xs[0], xs[i + 1]);
    }
  }

  /** A list in strict order is determined by its members. */
  lemma {:induction false} StrictIsUnique<T>(lt: (T, T) -> bool, xs: seq<T>, ys: seq<T>)
    requires Sorted(lt, xs) && Sorted(lt, ys) && forall x :: x in xs <==> x in ys
    requires forall a, b :: a in xs && b in xs && lt(a, b) ==> !lt(b, a)
    ensures xs == ys
    decreases |xs|
  {
    if ys != [] {
      assert ys[0] in ys;
    }
    if xs != [] {
      assert xs[0] in ys && ys[0] in xs;
      RestOfStrict(lt, xs);
      RestOfStrict(lt, ys);
      StrictIsUnique(lt, xs[1..], ys[1..]);
      assert xs == [xs[0]] + xs[1..] && ys == [ys[0]] + ys[1..];
    }
  }

  // ----- strings by code point

  predicate StrLe(a: string, b: string) {
    if a == [] then true
    else if b == [] then false
    else a[0] < b[0] || (a[0] == b[0] && StrLe(a[1..], b[1..]))
  }

  lemma {:induction false} StrLeTotal(a: string, b: string)
    ensures StrLe(a, b) || StrLe(b, a)
    ensures StrLe(a, b) && StrLe(b, a) ==> a == b
  {
    if a != [] && b != [] {
      StrLeTotal(a[1..], b[1..]);
      assert a == [a[0]] + a[1..] && b == [b[0]] + b[1..];
    }
  }

  /** `a` and `b` first differ at `k`, where `a` is smaller. */
  predicate SmallerAt<T(==)>(lt: (T, T) -> bool, a: seq<T>, b: seq<T>, k: nat) {
    k < |a| && k < |b| && a[..k] == b[..k] && lt(a[k], b[k])
  }

  /** Dictionary order: `a` is a proper prefix of `b`, or smaller where they first differ. */
  ghost predicate Before<T>(lt: (T, T) -> bool, a: seq<T>, b: seq<T>) {
    a < b || exists k: nat :: SmallerAt(lt, a, b, k)
  }

  lemma PrefixStep<T>(c: T, x: seq<T>, y: seq<T>)
    ensures [c] + x < [c] + y <==> x < y
  {
    var a, b := [c] + x, [c] + y;
    if |x| < |y| {
      assert b[..|a|] == [c] + y[..|x|];
      assert a[1..] == x && b[..|a|][1..] == y[..|x|];
    }
  }

  lemma SmallerStep<T>(lt: (T, T) -> bool, c: T, x: seq<T>, y: seq<T>, k: nat)
    ensures SmallerAt(lt, [c] + x, [c] + y, k + 1) <==> SmallerAt(lt, x, y, k)
    ensures SmallerAt(lt, [c] + x, [c] + y, 0) <==> lt(c, c)
  {
    var a, b := [c] + x, [c] + y;
    if k < |x| && k < |y| {
      assert a[..k + 1] == [c] + x[..k] && b[..k + 1] == [c] + y[..k];
      assert a[..k + 1][1..] == x[..k] && b[..k + 1][1..] == y[..k];
    }
  }

  lemma {:induction false} BeforeStep<T>(lt: (T, T) -> bool, c: T, x: seq<T>, y: seq<T>)
    requires !lt(c, c)
    ensures Before(lt, [c] + x, [c] + y) <==> Before(lt, x, y)
  {
    PrefixStep(c, x, y);
    if k: nat :| SmallerAt(lt, x, y, k) {
      SmallerStep(lt, c, x, y, k);
    }
    if k: nat :| SmallerAt(lt, [c] + x, [c] + y, k) {
      SmallerStep(lt, c, x, y, if k == 0 then 0 else k - 1);
    }
  }

  lemma BeforeAtOnce<T>(lt: (T, T) -> bool, a: seq<T>, b: seq<T>)
    requires a != [] && b != [] && a[0] != b[0]
    ensures Before(lt, a, b) <==> lt(a[0], b[0])
  {
    if lt(a[0], b[0]) {
      assert SmallerAt(lt, a, b, 0);
    }
    forall k | 0 < k < |a| && k < |b|
      ensures a[..k] != b[..k]
    {
      assert a[..k][0] != b[..k][0];
    }
  }

  predicate CharLt(a: char, b: char) { a < b }

  /** Dictionary order by code points. */
  ghost predicate CodePointLt(a: string, b: string) { Before(CharLt, a, b) }

  lemma NeverBeforeItself(a: string)
    ensures !CodePointLt(a, a)
  {
  }

  /** The order on strings is by code points. */
  lemma {:induction false} StrLeIff(a: string, b: string)
    ensures StrLe(a, b) <==> a == b || CodePointLt(a, b)
    decreases |a|
  {
    if a != [] && b != [] {
      if a[0] == b[0] {
        StrLeIff(a[1..], b[1..]);
        BeforeStep(CharLt, a[0], a[1..], b[1..]);
        assert a == [a[0]] + a[1..] && b == [b[0]] + b[1..];
      } else {
        BeforeAtOnce(CharLt, a, b);
      }
    }
  }

  lemma {:induction false} StrLeReflexive(a: string)
    ensures StrLe(a, a)
  {
    if a != [] {
      StrLeReflexive(a[1..]);
    }
  }

  lemma {:induction false} StrLeTransitive(a: string, b: string, c: string)
    requires StrLe(a, b) && StrLe(b, c)
    ensures StrLe(a, c)
  {
    if a != [] && a[0] == b[0] == c[0] {
      StrLeTransitive(a[1..], b[1..], c[1..]);
    }
  }
}
