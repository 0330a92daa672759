/** The bottom-k sketch `SampledMap` (crates/imbh-attrstats/src/accum.rs).

    A name is identified by its hash. The sketch is a fast, bounded form of the exact table
    "hash -> state": it always equals that table cut down to the `cap` smallest hashes
    (`Truncate`), whatever was evicted or refused on the way. */
module Sketches {
  import opened Basics

  // ----- the k smallest members of a set

  function Below(s: set<u64>, h: u64): set<u64> {
    set g | g in s && g < h
  }

  /** The members of `s` that have fewer than `k` members below them. */
  function Smallest(s: set<u64>, k: nat): set<u64> {
    set h | h in s && |Below(s, h)| < k
  }

  /** What makes `b` the `k` smallest members of `s`, without ranking anything. */
  ghost predicate IsSmallest(b: set<u64>, s: set<u64>, k: nat) {
    && b <= s
    && |b| == Min(k, |s|)
    && forall x, y :: x in b && y in s && y !in b ==> x < y
  }

  lemma {:induction false} Maximum(s: set<u64>) returns (m: u64)
    requires s != {}
    ensures m in s && forall x :: x in s ==> x <= m
    decreases |s|
  {
    var e :| e in s;
    var rest := s - {e};
    assert s == rest + {e};
    m := e;
    if rest != {} {
      var top := Maximum(rest);
      if top > e {
        m := top;
      }
    }
  }

  lemma MaxExists(s: set<u64>)
    requires s != {}
    ensures exists m :: m in s && forall x :: x in s ==> x <= m
  {
    var m := Maximum(s);
  }

  function MaxOf(s: set<u64>): (m: u64)
    requires s != {}
    ensures m in s && forall x :: x in s ==> x <= m
  {
    MaxExists(s);
    var m :| m in s && forall x :: x in s ==> x <= m;
    m
  }

  lemma SmallestUnique(b: set<u64>, s: set<u64>, k: nat)
    requires IsSmallest(b, s, k)
    ensures b == Smallest(s, k)
  {
    forall x | x in b
      ensures x in Smallest(s, k)
    {
      SubsetSize(Below(s, x), b - {x});
    }
    forall y | y in s && y !in b
      ensures y !in Smallest(s, k)
    {
      SubsetSize(b + {y}, s);
      SubsetSize(b, Below(s, y));
    }
  }

  lemma {:induction false} SmallestIsSmallest(s: set<u64>, k: nat)
    ensures IsSmallest(Smallest(s, k), s, k)
    decreases |s|
  {
    if |s| <= k {
      SmallestUnique(s, s, k);
    } else {
      var m := MaxOf(s);
      SmallestIsSmallest(s - {m}, k);
      SmallestUnique(Smallest(s - {m}, k), s, k);
    }
  }

  /** A hash outside the sample never comes back as more hashes are seen. */
  lemma DroppedStaysDropped(s: set<u64>, t: set<u64>, k: nat, h: u64)
    requires s <= t && h in s && h !in Smallest(s, k)
    ensures h !in Smallest(t, k)
  {
    SubsetSize(Below(s, h), Below(t, h));
  }

  // ----- the sketch

  datatype Sketch<V> = Sketch(cap: nat, entries: map<u64, V>, dropped: bool, bound: u64)

  function Empty<V>(cap: nat): Sketch<V> {
    Sketch(Max(cap, 1), map[], false, U64_MAX)
  }

  function MaxHash<V>(entries: map<u64, V>): u64 {
    if entries == map[] then U64_MAX else assert entries.Keys != {}; MaxOf(entries.Keys)
  }

  function PopLast<V>(entries: map<u64, V>): map<u64, V> {
    entries - {MaxHash(entries)}
  }

  function AfterDrop<V>(s: Sketch<V>): Sketch<V> {
    s.(dropped := true, bound := Min(s.bound, MaxHash(s.entries)))
  }

  /** `SampledMap::entry`: the sketch afterwards, and whether `h` is in the sample. */
  function Admit<V>(s: Sketch<V>, h: u64, make: V): (Sketch<V>, bool) {
    if h in s.entries then (s, true)
    else if s.dropped && h > s.bound then (s, false)
    else if |s.entries| < s.cap then (s.(entries := s.entries[h := make]), true)
    else if h >= MaxHash(s.entries) then (AfterDrop(s), false)
    else (AfterDrop(s.(entries := PopLast(s.entries)[h := make])), true)
  }

  /** The reference: an exact table cut down to its `cap` smallest hashes. */
  function Truncate<V>(t: map<u64, V>, cap: nat): Sketch<V>
    requires cap >= 1
  {
    SmallestIsSmallest(t.Keys, cap);
    var kept := Smallest(t.Keys, cap);
    Sketch(cap, map h | h in kept :: t[h], |t| > cap, if |t| > cap then MaxOf(kept) else U64_MAX)
  }

  // ----- runs of observations

  /** One observation of the entry `hash`. */
  datatype Hit<O> = Hit(hash: u64, obs: O)

  /** How an entry is created by its first observation, and how any observation updates it. */
  datatype Rule<!V, !O> = Rule(init: O -> V, step: (V, O) -> V)

  /** Ask for the entry and, when it is in the sample, fold the observation into it. */
  function Touch<V, O>(r: Rule<V, O>, s: Sketch<V>, hit: Hit<O>): Sketch<V> {
    var (s', kept) := Admit(s, hit.hash, r.init(hit.obs));
    if kept && hit.hash in s'.entries
    then s'.(entries := s'.entries[hit.hash := r.step(s'.entries[hit.hash], hit.obs)])
    else s'
  }

  function Run<V, O>(r: Rule<V, O>, s: Sketch<V>, hits: seq<Hit<O>>): Sketch<V> {
    if hits == [] then s
    else Touch(r, Run(r, s, hits[..|hits| - 1]), hits[|hits| - 1])
  }

  lemma {:induction false} RunSnoc<V, O>(r: Rule<V, O>, s: Sketch<V>, hits: seq<Hit<O>>, hit: Hit<O>)
    ensures Run(r, s, hits + [hit]) == Touch(r, Run(r, s, hits), hit)
  {
    assert (hits + [hit])[..|hits|] == hits;
  }

  /** The same fold with no cap: every hash keeps its entry for ever. */
  function TallyStep<V, O>(r: Rule<V, O>, t: map<u64, V>, hit: Hit<O>): map<u64, V> {
    t[hit.hash := r.step(if hit.hash in t then t[hit.hash] else r.init(hit.obs), hit.obs)]
  }

  function Tally<V, O>(r: Rule<V, O>, hits: seq<Hit<O>>): map<u64, V> {
    if hits == [] then map[]
    else TallyStep(r, Tally(r, hits[..|hits| - 1]), hits[|hits| - 1])
  }

  function Hashes<O>(hits: seq<Hit<O>>): set<u64> {
    set i | 0 <= i < |hits| :: hits[i].hash
  }

  lemma {:induction false} TallyKeys<V, O>(r: Rule<V, O>, hits: seq<Hit<O>>)
    ensures Tally(r, hits).Keys == Hashes(hits)
  {
    if hits != [] {
      var n := |hits| - 1;
      TallyKeys(r, hits[..n]);
      assert hits == hits[..n] + [hits[n]];
      assert Hashes(hits) == Hashes(hits[..n]) + {hits[n].hash};
    }
  }

  lemma SmallestDisplaces(b: set<u64>, m: u64, s: set<u64>, h: u64, k: nat)
    requires IsSmallest(b, s, k) && |b| == k && h !in s
    requires m in b && h < m && forall x :: x in b ==> x <= m
    ensures IsSmallest(b - {m} + {h}, s + {h}, k)
  {
    var c := b - {m} + {h};
    assert |c| == k;
    forall x, y | x in c && y in s + {h} && y !in c
      ensures x < y
    {
      assert x == h || x in b;
      assert y == m || (y in s && y !in b);
    }
  }

  /** `s` is the table `t` cut down to its `cap` smallest hashes, said without computing them. */
  ghost predicate IsCut<V>(s: Sketch<V>, t: map<u64, V>, cap: nat) {
    && s.cap == cap
    && IsSmallest(s.entries.Keys, t.Keys, cap)
    && (forall h :: h in s.entries ==> s.entries[h] == t[h])
    && s.dropped == (|t| > cap)
    && (s.dropped ==> s.bound in s.entries && forall h :: h in s.entries ==> h <= s.bound)
    && (!s.dropped ==> s.bound == U64_MAX)
  }

  lemma CutIsTruncate<V>(s: Sketch<V>, t: map<u64, V>, cap: nat)
    requires cap >= 1 && IsCut(s, t, cap)
    ensures s == Truncate(t, cap)
  {
    SmallestUnique(s.entries.Keys, t.Keys, cap);
    assert s.entries == Truncate(t, cap).entries;
  }

  lemma TouchKnown<V, O>(r: Rule<V, O>, s: Sketch<V>, t: map<u64, V>, cap: nat, hit: Hit<O>)
    requires cap >= 1 && hit.hash in t && IsCut(s, t, cap)
    ensures IsCut(Touch(r, s, hit), TallyStep(r, t, hit), cap)
  {
    var t' := TallyStep(r, t, hit);
    assert t'.Keys == t.Keys;
    if hit.hash in s.entries {
      assert Touch(r, s, hit).entries.Keys == s.entries.Keys;
    } else {
      SubsetSize(s.entries.Keys + {hit.hash}, t.Keys);
      assert |t| > cap;
    }
  }

  lemma TouchNew<V, O>(r: Rule<V, O>, s: Sketch<V>, t: map<u64, V>, cap: nat, hit: Hit<O>)
    requires cap >= 1 && hit.hash !in t && IsCut(s, t, cap)
    ensures IsCut(Touch(r, s, hit), TallyStep(r, t, hit), cap)
  {
    var h := hit.hash;
    var t' := TallyStep(r, t, hit);
    assert t'.Keys == t.Keys + {h} && |t'.Keys| == |t.Keys| + 1;
    if |s.entries| < cap {
      SubsetSize(s.entries.Keys, t.Keys);
      assert Touch(r, s, hit).entries.Keys == t'.Keys;
    } else if h > MaxHash(s.entries) {
      assert Touch(r, s, hit).entries == s.entries;
    } else {
      TouchDisplaces(r, s, t, cap, hit);
    }
  }

  lemma TouchDisplaces<V, O>(r: Rule<V, O>, s: Sketch<V>, t: map<u64, V>, cap: nat, hit: Hit<O>)
    requires cap >= 1 && hit.hash !in t && IsCut(s, t, cap)
    requires |s.entries| == cap && hit.hash <= MaxHash(s.entries)
    ensures IsCut(Touch(r, s, hit), TallyStep(r, t, hit), cap)
  {
    var h := hit.hash;
    var m := MaxHash(s.entries);
    assert m in s.entries;
    SmallestDisplaces(s.entries.Keys, m, t.Keys, h, cap);
    var t' := TallyStep(r, t, hit);
    assert t'.Keys == t.Keys + {h} && |t'.Keys| == |t.Keys| + 1;
    var popped := PopLast(s.entries)[h := r.init(hit.obs)];
    assert popped.Keys == s.entries.Keys - {m} + {h};
    var s' := Touch(r, s, hit);
    assert s'.entries.Keys == popped.Keys;
    assert s'.bound == MaxHash(popped);
  }

  lemma {:induction false} RunIsCutTally<V, O>(r: Rule<V, O>, cap: nat, hits: seq<Hit<O>>)
    ensures IsCut(Run(r, Empty(cap), hits), Tally(r, hits), Max(cap, 1))
  {
    if hits == [] {
      assert Tally(r, hits).Keys == {};
    } else {
      var n := |hits| - 1;
      RunIsCutTally(r, cap, hits[..n]);
      if hits[n].hash in Tally(r, hits[..n]) {
        TouchKnown(r, Run(r, Empty(cap), hits[..n]), Tally(r, hits[..n]), Max(cap, 1), hits[n]);
      } else {
        TouchNew(r, Run(r, Empty(cap), hits[..n]), Tally(r, hits[..n]), Max(cap, 1), hits[n]);
      }
    }
  }

  /** Refinement over whole runs: the capped sketch is the exact table restricted to the `cap`
      smallest hashes. Every retained entry is complete, and `dropped` and `bound` say exactly
      whether and where the population was cut. */
  lemma RunIsTruncatedTally<V, O>(r: Rule<V, O>, cap: nat, hits: seq<Hit<O>>)
    ensures Run(r, Empty(cap), hits) == Truncate(Tally(r, hits), Max(cap, 1))
  {
    RunIsCutTally(r, cap, hits);
    CutIsTruncate(Run(r, Empty(cap), hits), Tally(r, hits), Max(cap, 1));
  }

  // ----- one entry at a time

  /** The observations of one hash, in order. */
  function Only<O>(h: u64, hits: seq<Hit<O>>): seq<O> {
    if hits == [] then []
    else
      var n := |hits| - 1;
      Only(h, hits[..n]) + if hits[n].hash == h then [hits[n].obs] else []
  }

  function Fold<V, O>(r: Rule<V, O>, obs: seq<O>): V
    requires obs != []
  {
    var n := |obs| - 1;
    r.step(if n == 0 then r.init(obs[0]) else Fold(r, obs[..n]), obs[n])
  }

  lemma {:induction false} OnlySnoc<O>(h: u64, hits: seq<Hit<O>>, hit: Hit<O>)
    ensures Only(h, hits + [hit]) == Only(h, hits) + if hit.hash == h then [hit.obs] else []
  {
    assert (hits + [hit])[..|hits|] == hits;
  }

  lemma {:induction false} OnlySeen<O>(h: u64, hits: seq<Hit<O>>)
    ensures h in Hashes(hits) <==> Only(h, hits) != []
  {
    if hits != [] {
      var n := |hits| - 1;
      OnlySeen(h, hits[..n]);
      assert hits == hits[..n] + [hits[n]];
      assert Hashes(hits) == Hashes(hits[..n]) + {hits[n].hash};
    }
  }

  ghost predicate Chained<O>(rel: (O, O) -> bool, obs: seq<O>) {
    forall i, j :: 0 <= i < j < |obs| ==> rel(obs[i], obs[j])
  }

  function ObsOf<O>(hits: seq<Hit<O>>): seq<O> {
    seq(|hits|, i requires 0 <= i < |hits| => hits[i].obs)
  }

  /** Picking out one hash keeps order: whatever relates earlier to later hits still does. */
  lemma {:induction false} OnlyKeepsOrder<O>(rel: (O, O) -> bool, h: u64, hits: seq<Hit<O>>)
    requires Chained(rel, ObsOf(hits))
    ensures Chained(rel, Only(h, hits))
    ensures forall o :: o in Only(h, hits) ==> o in ObsOf(hits)
  {
    if hits != [] {
      var n := |hits| - 1;
      var all := ObsOf(hits);
      assert all[..n] == ObsOf(hits[..n]);
      OnlyKeepsOrder(rel, h, hits[..n]);
      var before := Only(h, hits[..n]);
      forall i | 0 <= i < |before|
        ensures rel(before[i], all[n])
      {
        assert before[i] in all[..n];
      }
      assert all[n] in all;
    }
  }

  /** An entry of the exact table is the fold of the observations of its own hash. */
  lemma {:induction false} TallyAt<V, O>(r: Rule<V, O>, hits: seq<Hit<O>>, h: u64)
    requires h in Hashes(hits)
    ensures h in Tally(r, hits) && Only(h, hits) != []
    ensures Tally(r, hits)[h] == Fold(r, Only(h, hits))
  {
    TallyKeys(r, hits);
    OnlySeen(h, hits);
    var n := |hits| - 1;
    var before := Only(h, hits[..n]);
    OnlySeen(h, hits[..n]);
    TallyKeys(r, hits[..n]);
    if before != [] {
      TallyAt(r, hits[..n], h);
    }
    if hits[n].hash == h {
      assert Only(h, hits)[..|before|] == before;
    } else {
      assert Only(h, hits) == before;
    }
  }

  // ----- what the sample depends on

  /** `sample_rate`, over the reals. */
  function SampleRate<V>(s: Sketch<V>): real {
    if !s.dropped then 1.0 else (s.bound as real + 1.0) / 18446744073709551616.0
  }

  /** `estimated_total`, over the reals. */
  function EstimatedTotal<V>(s: Sketch<V>): real {
    if !s.dropped then |s.entries| as real else |s.entries| as real / SampleRate(s)
  }

  /** The bottom-k invariant: which hashes are retained, whether any was dropped, and the bound
      are functions of the set of hashes seen. */
  lemma SampleOfHashes<V, O>(r: Rule<V, O>, cap: nat, hits: seq<Hit<O>>)
    ensures var s, k := Run(r, Empty(cap), hits), Max(cap, 1);
      && s.entries.Keys == Smallest(Hashes(hits), k)
      && |s.entries| == Min(k, |Hashes(hits)|)
      && (s.dropped <==> |Hashes(hits)| > k)
      && (s.dropped ==> s.entries.Keys != {} && s.bound == MaxOf(s.entries.Keys))
  {
    RunIsCutTally(r, cap, hits);
    TallyKeys(r, hits);
    SmallestUnique(Run(r, Empty(cap), hits).entries.Keys, Hashes(hits), Max(cap, 1));
  }

  /** What a sketch estimates: its size while nothing was dropped, and then its size scaled by the part of
      the hash space at or below its bound. */
  lemma EstimateOfSketch<V>(s: Sketch<V>)
    ensures !s.dropped ==> SampleRate(s) == 1.0 && EstimatedTotal(s) == |s.entries| as real
    ensures s.dropped ==>
      && SampleRate(s) * 18446744073709551616.0 == s.bound as real + 1.0
      && EstimatedTotal(s) * SampleRate(s) == |s.entries| as real
  {
    RateScales(s.bound);
    if s.dropped {
      Rescaled(|s.entries| as real, SampleRate(s));
    }
  }

  /** The rate and the estimate of a sketch that kept `k` of the hashes seen: exact while it kept them all,
      and then the size scaled by the part of the hash space at or below the largest one kept. */
  ghost predicate Estimates<V>(s: Sketch<V>, seen: set<u64>, k: nat) {
    if |seen| <= k then SampleRate(s) == 1.0 && EstimatedTotal(s) == |seen| as real
    else
      && Smallest(seen, k) != {}
      && SampleRate(s) * 18446744073709551616.0 == MaxOf(Smallest(seen, k)) as real + 1.0
      && EstimatedTotal(s) * SampleRate(s) == k as real
  }

  lemma {:induction false} EstimatesFrom<V>(s: Sketch<V>, seen: set<u64>, k: nat)
    requires s.entries.Keys == Smallest(seen, k) && |s.entries| == Min(k, |seen|) && (s.dropped <==> |seen| > k)
    requires s.dropped ==> s.entries.Keys != {} && s.bound == MaxOf(s.entries.Keys)
    ensures Estimates(s, seen, k)
  {
    EstimateOfSketch(s);
  }

  /** Over every run the estimate is what the hashes seen say. */
  lemma {:induction false} EstimateOfRun<V, O>(r: Rule<V, O>, cap: nat, hits: seq<Hit<O>>)
    ensures Estimates(Run(r, Empty(cap), hits), Hashes(hits), Max(cap, 1))
  {
    SampleOfHashes(r, cap, hits);
    EstimatesFrom(Run(r, Empty(cap), hits), Hashes(hits), Max(cap, 1));
  }

  lemma RateScales(bound: u64)
    ensures var rate := (bound as real + 1.0) / 18446744073709551616.0;
      rate > 0.0 && rate * 18446744073709551616.0 == bound as real + 1.0
  {
  }

  lemma Rescaled(n: real, rate: real)
    requires rate > 0.0
    ensures n / rate * rate == n
  {
  }

  /** Arrival order does not matter, nor does what is being counted: two runs that saw the same
      hashes hold the same sample at the same rate and estimate the same population. */
  lemma SampleIgnoresOrder<V, O, W, P>(r: Rule<V, O>, q: Rule<W, P>, cap: nat, xs: seq<Hit<O>>, ys: seq<Hit<P>>)
    requires Hashes(xs) == Hashes(ys)
    ensures var a, b := Run(r, Empty(cap), xs), Run(q, Empty(cap), ys);
      && a.entries.Keys == b.entries.Keys && a.dropped == b.dropped && a.bound == b.bound
      && SampleRate(a) == SampleRate(b) && EstimatedTotal(a) == EstimatedTotal(b)
  {
    SampleOfHashes(r, cap, xs);
    SampleOfHashes(q, cap, ys);
    RunIsCutTally(r, cap, xs);
    RunIsCutTally(q, cap, ys);
    var a, b := Run(r, Empty(cap), xs), Run(q, Empty(cap), ys);
    assert |a.entries| == |a.entries.Keys| && |b.entries| == |b.entries.Keys|;
  }

  /** Once a hash has been refused or evicted, no continuation of the run readmits it. */
  lemma NeverReadmitted<V, O>(r: Rule<V, O>, cap: nat, xs: seq<Hit<O>>, ys: seq<Hit<O>>, h: u64)
    requires h in Hashes(xs) && h !in Run(r, Empty(cap), xs).entries
    ensures h !in Run(r, Empty(cap), xs + ys).entries
  {
    SampleOfHashes(r, cap, xs);
    SampleOfHashes(r, cap, xs + ys);
    forall g | g in Hashes(xs)
      ensures g in Hashes(xs + ys)
    {
      var i :| 0 <= i < |xs| && xs[i].hash == g;
      assert (xs + ys)[i].hash == g;
    }
    DroppedStaysDropped(Hashes(xs), Hashes(xs + ys), Max(cap, 1), h);
  }

  // ----- merging two sketches

  function Joined<V>(a: map<u64, V>, b: map<u64, V>, f: (V, V) -> V): map<u64, V> {
    map h | h in a.Keys + b.Keys ::
      if h !in b then a[h] else if h !in a then b[h] else f(a[h], b[h])
  }

  function AtMost<V>(m: map<u64, V>, dropped: bool, bound: u64): map<u64, V> {
    map h | h in m && (dropped ==> h <= bound) :: m[h]
  }

  function Bottom<V>(m: map<u64, V>, k: nat): map<u64, V> {
    map h | h in Smallest(m.Keys, k) :: m[h]
  }

  function Capped<V>(m: map<u64, V>, cap: nat, dropped: bool, bound: u64): Sketch<V> {
    var kept := Bottom(m, cap);
    var cut := dropped || |m| > cap;
    Sketch(cap, kept, cut, if cut then Min(bound, MaxHash(kept)) else bound)
  }

  function TighterBound<V>(s: Sketch<V>, o: Sketch<V>): u64 {
    if o.dropped then Min(s.bound, o.bound) else s.bound
  }

  /** `SampledMap::merge`: union the entries, trim to the tighter bound, then to the cap. */
  function Merged<V>(s: Sketch<V>, o: Sketch<V>, f: (V, V) -> V): Sketch<V> {
    var dropped, bound := s.dropped || o.dropped, TighterBound(s, o);
    Capped(AtMost(Joined(s.entries, o.entries, f), dropped, bound), s.cap, dropped, bound)
  }

  /** The sketch holds every entry of the table at or below its bound, unchanged. */
  ghost predicate Complete<V>(s: Sketch<V>, t: map<u64, V>) {
    && (forall h :: h in s.entries ==> h in t && s.entries[h] == t[h])
    && (forall h :: h in t && (s.dropped ==> h <= s.bound) ==> h in s.entries)
  }

  lemma CutIsComplete<V>(s: Sketch<V>, t: map<u64, V>, cap: nat)
    requires IsCut(s, t, cap)
    ensures Complete(s, t)
  {
    forall h | h in t && (s.dropped ==> h <= s.bound)
      ensures h in s.entries
    {
      if h !in s.entries {
        SubsetSize(s.entries.Keys + {h}, t.Keys);
      }
    }
  }

  lemma SmallestOfLowerPart(low: set<u64>, all: set<u64>, k: nat)
    requires low <= all && (low == all || |low| >= k)
    requires forall x, y :: x in low && y in all && y !in low ==> x < y
    ensures IsSmallest(Smallest(low, k), all, k)
  {
    SmallestIsSmallest(low, k);
    SubsetSize(low, all);
  }

  /** Capping the part of a table at or below a bound caps the table, if enough of it is there. */
  lemma CappedIsCut<V>(t: map<u64, V>, cap: nat, dropped: bool, bound: u64)
    requires cap >= 1
    requires dropped ==> |AtMost(t, dropped, bound)| >= cap && |t| > cap
    requires !dropped ==> bound == U64_MAX
    ensures IsCut(Capped(AtMost(t, dropped, bound), cap, dropped, bound), t, cap)
  {
    var low := AtMost(t, dropped, bound);
    SmallestOfLowerPart(low.Keys, t.Keys, cap);
    var c := Capped(low, cap, dropped, bound);
    assert c.entries.Keys == Smallest(low.Keys, cap);
    SubsetSize(low.Keys, t.Keys);
  }

  /** A side that dropped entries still holds `cap` of them at or below the tighter bound. */
  lemma MergeKeepsEnough<V>(s: Sketch<V>, o: Sketch<V>, f: (V, V) -> V, ta: map<u64, V>, tb: map<u64, V>, cap: nat,
      ocap: nat)
    requires IsCut(s, ta, cap) && IsCut(o, tb, ocap)
    requires cap <= ocap || !o.dropped
    requires s.dropped || o.dropped
    ensures |AtMost(Joined(s.entries, o.entries, f), true, TighterBound(s, o))| >= cap
    ensures |Joined(ta, tb, f)| > cap
  {
    var low := AtMost(Joined(s.entries, o.entries, f), true, TighterBound(s, o)).Keys;
    if s.dropped && TighterBound(s, o) == s.bound {
      SubsetSize(s.entries.Keys, low);
    } else {
      SubsetSize(o.entries.Keys, low);
    }
    SubsetSize(ta.Keys, Joined(ta, tb, f).Keys);
    SubsetSize(tb.Keys, Joined(ta, tb, f).Keys);
  }

  lemma LowPartIsComplete<V>(s: Sketch<V>, o: Sketch<V>, f: (V, V) -> V, ta: map<u64, V>, tb: map<u64, V>)
    requires Complete(s, ta) && Complete(o, tb)
    ensures var dropped, bound := s.dropped || o.dropped, TighterBound(s, o);
      AtMost(Joined(s.entries, o.entries, f), dropped, bound) == AtMost(Joined(ta, tb, f), dropped, bound)
  {
    var dropped, bound := s.dropped || o.dropped, TighterBound(s, o);
    var low, all := AtMost(Joined(s.entries, o.entries, f), dropped, bound), AtMost(Joined(ta, tb, f), dropped, bound);
    assert low.Keys == all.Keys;
    assert forall h :: h in low ==> low[h] == all[h];
  }

  /** Merging is exact: the merge of two cut tables is the cut of the joined tables, whichever
      sides dropped entries, as long as the other side kept at least as many as this one does. */
  lemma MergeIsExact<V>(s: Sketch<V>, o: Sketch<V>, f: (V, V) -> V, ta: map<u64, V>, tb: map<u64, V>, cap: nat,
      ocap: nat)
    requires cap >= 1 && IsCut(s, ta, cap) && IsCut(o, tb, ocap)
    requires cap <= ocap || !o.dropped
    ensures IsCut(Merged(s, o, f), Joined(ta, tb, f), cap)
  {
    CutIsComplete(s, ta, cap);
    CutIsComplete(o, tb, ocap);
    LowPartIsComplete(s, o, f, ta, tb);
    if s.dropped || o.dropped {
      MergeKeepsEnough(s, o, f, ta, tb, cap, ocap);
    }
    CappedIsCut(Joined(ta, tb, f), cap, s.dropped || o.dropped, TighterBound(s, o));
  }

  /** Combining is additive for a rule when it commutes with observing. */
  ghost predicate Additive<V(!new), O(!new)>(r: Rule<V, O>, f: (V, V) -> V) {
    && (forall v: V, o: O :: f(v, r.step(r.init(o), o)) == r.step(v, o))
    && (forall v: V, w: V, o: O :: f(v, r.step(w, o)) == r.step(f(v, w), o))
  }

  lemma {:induction false} TallyOfConcat<V(!new), O(!new)>(r: Rule<V, O>, f: (V, V) -> V, xs: seq<Hit<O>>,
      ys: seq<Hit<O>>)
    requires Additive(r, f)
    ensures Tally(r, xs + ys) == Joined(Tally(r, xs), Tally(r, ys), f)
  {
    if ys == [] {
      assert xs + ys == xs;
    } else {
      var n := |ys| - 1;
      var last := ys[n];
      TallyOfConcat(r, f, xs, ys[..n]);
      assert (xs + ys)[..|xs + ys| - 1] == xs + ys[..n];
      var a, b := Tally(r, xs), Tally(r, ys[..n]);
      var whole := TallyStep(r, Joined(a, b, f), last);
      var parts := Joined(a, TallyStep(r, b, last), f);
      assert whole.Keys == parts.Keys;
      assert whole[last.hash] == parts[last.hash];
      assert whole == parts;
    }
  }

  /** Folding is exact: merging the sketches of two observation sequences gives, entry for entry
      and with the same `dropped` and `bound`, the sketch of one pass over their concatenation. */
  lemma MergeOfRuns<V(!new), O(!new)>(r: Rule<V, O>, f: (V, V) -> V, cap: nat, xs: seq<Hit<O>>, ys: seq<Hit<O>>)
    requires Additive(r, f)
    ensures Merged(Run(r, Empty(cap), xs), Run(r, Empty(cap), ys), f) == Run(r, Empty(cap), xs + ys)
  {
    var k := Max(cap, 1);
    RunIsCutTally(r, cap, xs);
    RunIsCutTally(r, cap, ys);
    RunIsTruncatedTally(r, cap, xs + ys);
    TallyOfConcat(r, f, xs, ys);
    var a, b := Run(r, Empty(cap), xs), Run(r, Empty(cap), ys);
    MergeIsExact(a, b, f, Tally(r, xs), Tally(r, ys), k, k);
    CutIsTruncate(Merged(a, b, f), Tally(r, xs + ys), k);
  }

  lemma JoinedEnds<V>(a: map<u64, V>, b: map<u64, V>, f: (V, V) -> V)
    ensures Joined(a, b - b.Keys, f) == a && b - {} == b
  {
  }

  lemma JoinedStep<V>(a: map<u64, V>, b: map<u64, V>, todo: set<u64>, h: u64, f: (V, V) -> V)
    requires h in todo && todo <= b.Keys
    ensures var part := Joined(a, b - todo, f);
      Joined(a, b - (todo - {h}), f) == part[h := if h in part then f(part[h], b[h]) else b[h]]
  {
    var part := Joined(a, b - todo, f);
    var next := part[h := if h in part then f(part[h], b[h]) else b[h]];
    var want := Joined(a, b - (todo - {h}), f);
    assert want.Keys == next.Keys;
    assert forall g :: g in want ==> want[g] == next[g];
  }

  // ----- the mutable map

  class SampledMap<V> {
    var entries: map<u64, V>
    const cap: nat
    var dropped: bool
    var bound: u64

    ghost function State(): Sketch<V>
      reads this
    {
      Sketch(cap, entries, dropped, bound)
    }

    constructor (requested: nat)
      ensures State() == Empty(requested)
    {
      cap := Max(requested, 1);
      entries, dropped, bound := map[], false, U64_MAX;
    }

    method NoteDrop()
      modifies this`dropped, this`bound
      ensures State() == AfterDrop(old(State()))
    {
      dropped := true;
      bound := Min(bound, MaxHash(entries));
    }

    /** The slot for `h`, created with `make` when absent; `false` when `h` is not in the sample. */
    method Entry(h: u64, make: V) returns (present: bool)
      modifies this
      ensures (State(), present) == Admit(old(State()), h, make)
      ensures present ==> h in entries
    {
      if h in entries {
        return true;
      }
      if dropped && h > bound {
        return false;
      }
      var evicted := false;
      if |entries| >= cap {
        if h >= MaxHash(entries) {
          NoteDrop();
          return false;
        }
        entries := PopLast(entries);
        evicted := true;
      }
      entries := entries[h := make];
      if evicted {
        NoteDrop();
      }
      return true;
    }

    method Unite(other: map<u64, V>, combine: (V, V) -> V)
      modifies this`entries
      ensures entries == Joined(old(entries), other, combine)
    {
      var todo := other.Keys;
      ghost var was := entries;
      JoinedEnds(was, other, combine);
      while todo != {}
        invariant todo <= other.Keys
        invariant entries == Joined(was, other - todo, combine)
        decreases |todo|
      {
        var h :| h in todo;
        JoinedStep(was, other, todo, h, combine);
        entries := entries[h := if h in entries then combine(entries[h], other[h]) else other[h]];
        todo := todo - {h};
      }
    }

    method TrimToBound()
      modifies this`entries
      ensures entries == AtMost(old(entries), dropped, bound)
    {
      while dropped && entries != map[] && MaxHash(entries) > bound
        invariant entries.Keys <= old(entries).Keys
        invariant forall h :: h in entries ==> entries[h] == old(entries)[h]
        invariant forall h :: h in old(entries) && h !in entries ==> dropped && h > bound
        decreases |entries|
      {
        ghost var before := entries;
        entries := PopLast(entries);
        assert |before| == |before.Keys| && |entries| == |entries.Keys|;
      }
    }

    method TrimToCap()
      requires cap >= 1
      modifies this`entries, this`dropped
      ensures entries == Bottom(old(entries), cap)
      ensures dropped == (old(dropped) || |old(entries)| > cap)
    {
      ghost var all := entries.Keys;
      while |entries| > cap
        invariant entries.Keys <= all
        invariant forall h :: h in entries ==> entries[h] == old(entries)[h]
        invariant forall x, y :: x in entries && y in all && y !in entries ==> x < y
        invariant |entries.Keys| >= Min(cap, |all|)
        invariant dropped == (old(dropped) || |all| > |entries.Keys|)
        decreases |entries|
      {
        ghost var before := entries.Keys;
        ghost var m := MaxHash(entries);
        entries := PopLast(entries);
        assert entries.Keys == before - {m};
        SubsetSize(before, all);
        dropped := true;
      }
      SubsetSize(entries.Keys, all);
      SmallestUnique(entries.Keys, all, cap);
    }

    /** Fold `other` into this map, combining the entries present in both. */
    method Merge(other: Sketch<V>, combine: (V, V) -> V)
      requires cap >= 1
      modifies this
      ensures State() == Merged(old(State()), other, combine)
    {
      Unite(other.entries, combine);
      if other.dropped {
        dropped := true;
        bound := Min(bound, other.bound);
      }
      assert bound == TighterBound(old(State()), other);
      TrimToBound();
      ghost var trimmed := entries;
      ghost var cut := dropped;
      TrimToCap();
      assert entries == Bottom(trimmed, cap);
      if dropped {
        bound := Min(bound, MaxHash(entries));
      }
      assert State() == Capped(trimmed, cap, cut, TighterBound(old(State()), other));
    }
  }
}
