/** Series label sets (crates/imbh-lgtm/src/model/common.rs): sorted by name, one value a name. */
module Labels {
  import opened Basics
  import opened Sorting

  type LabelSet = seq<(string, string)>

  predicate StrLt(a: string, b: string) { a != b && StrLe(a, b) }

  /** Setting a name in an ordered map: a later value replaces an earlier one. */
  function Put(labels: LabelSet, name: string, value: string): LabelSet {
    if labels == [] then [(name, value)]
    else if labels[0].0 == name then [(name, value)] + labels[1..]
    else if StrLe(name, labels[0].0) then [(name, value)] + labels
    else [labels[0]] + Put(labels[1..], name, value)
  }

  /** `LabelSet::new`. */
  function New(pairs: seq<(string, string)>): LabelSet {
    if pairs == [] then []
    else
      var n := |pairs| - 1;
      Put(New(pairs[..n]), pairs[n].0, pairs[n].1)
  }

  /** `LabelSet::get`. */
  function Get(labels: LabelSet, name: string): Option<string> {
    if labels == [] then None
    else if labels[0].0 == name then Some(labels[0].1)
    else Get(labels[1..], name)
  }

  /** The value the last pair with the name gives. */
  function LastOf(pairs: seq<(string, string)>, name: string): Option<string> {
    if pairs == [] then None
    else
      var n := |pairs| - 1;
      if pairs[n].0 == name then Some(pairs[n].1) else LastOf(pairs[..n], name)
  }

  /** Every name of `labels` comes after `name`. */
  predicate Above(name: string, labels: LabelSet) {
    forall i :: 0 <= i < |labels| ==> StrLt(name, labels[i].0)
  }

  predicate Ordered(labels: LabelSet) {
    labels == [] || (Above(labels[0].0, labels[1..]) && Ordered(labels[1..]))
  }

  lemma {:induction false} AboveIsAbsent(name: string, labels: LabelSet)
    requires Above(name, labels)
    ensures Get(labels, name) == None
  {
    if labels != [] {
      AboveIsAbsent(name, labels[1..]);
    }
  }

  lemma {:induction false} AboveAll(a: string, b: string, labels: LabelSet)
    requires StrLt(a, b) && Above(b, labels)
    ensures Above(a, labels)
  {
    forall i | 0 <= i < |labels|
      ensures StrLt(a, labels[i].0)
    {
      StrLeTransitive(a, b, labels[i].0);
      StrLeTotal(a, b);
    }
  }

  lemma {:induction false} PutAbove(low: string, labels: LabelSet, name: string, value: string)
    requires Above(low, labels) && StrLt(low, name)
    ensures Above(low, Put(labels, name, value))
  {
    if labels != [] && labels[0].0 != name && !StrLe(name, labels[0].0) {
      PutAbove(low, labels[1..], name, value);
    }
  }

  lemma {:induction false} PutKeepsOrder(labels: LabelSet, name: string, value: string)
    requires Ordered(labels)
    ensures Ordered(Put(labels, name, value))
  {
    if labels != [] && labels[0].0 != name {
      StrLeTotal(name, labels[0].0);
      if StrLe(name, labels[0].0) {
        AboveAll(name, labels[0].0, labels[1..]);
        assert ([(name, value)] + labels)[1..] == labels;
      } else {
        var rest := Put(labels[1..], name, value);
        PutKeepsOrder(labels[1..], name, value);
        PutAbove(labels[0].0, labels[1..], name, value);
        assert ([labels[0]] + rest)[1..] == rest;
      }
    }
  }

  lemma {:induction false} GetOfPut(labels: LabelSet, name: string, value: string, q: string)
    requires Ordered(labels)
    ensures Get(Put(labels, name, value), q) == if q == name then Some(value) else Get(labels, q)
  {
    if labels == [] || labels[0].0 == name {
    } else if StrLe(name, labels[0].0) {
      assert ([(name, value)] + labels)[1..] == labels;
    } else {
      GetOfPut(labels[1..], name, value, q);
      var rest := Put(labels[1..], name, value);
      assert ([labels[0]] + rest)[1..] == rest;
    }
  }

  /** A label set is sorted by name and gives each name its last value. */
  lemma {:induction false} NewIsLastWins(pairs: seq<(string, string)>)
    ensures Ordered(New(pairs))
    ensures forall q :: Get(New(pairs), q) == LastOf(pairs, q)
  {
    if pairs != [] {
      var n := |pairs| - 1;
      var before := New(pairs[..n]);
      NewIsLastWins(pairs[..n]);
      PutKeepsOrder(before, pairs[n].0, pairs[n].1);
      forall q
        ensures Get(New(pairs), q) == LastOf(pairs, q)
      {
        GetOfPut(before, pairs[n].0, pairs[n].1, q);
      }
    }
  }

  lemma {:induction false} LastOfConcat(xs: seq<(string, string)>, ys: seq<(string, string)>, q: string)
    ensures LastOf(xs + ys, q) == if LastOf(ys, q).Some? then LastOf(ys, q) else LastOf(xs, q)
    decreases |ys|
  {
    if ys == [] {
      assert xs + ys == xs;
    } else {
      var n := |ys| - 1;
      LastOfConcat(xs, ys[..n], q);
      assert (xs + ys)[..|xs + ys| - 1] == xs + ys[..n];
    }
  }

  lemma {:induction false} SameFirstName(a: LabelSet, b: LabelSet)
    requires Ordered(a) && Ordered(b) && a != [] && b != []
    requires forall q :: Get(a, q) == Get(b, q)
    ensures a[0] == b[0]
  {
    if a[0].0 != b[0].0 {
      StrLeTotal(a[0].0, b[0].0);
      if StrLe(a[0].0, b[0].0) {
        AboveAll(a[0].0, b[0].0, b[1..]);
        AboveIsAbsent(a[0].0, b);
      } else {
        AboveAll(b[0].0, a[0].0, a[1..]);
        AboveIsAbsent(b[0].0, a);
      }
    }
    assert Get(a, a[0].0) == Get(b, a[0].0);
  }

  lemma {:induction false} SameLookups(a: LabelSet, b: LabelSet)
    requires Ordered(a) && Ordered(b) && forall q :: Get(a, q) == Get(b, q)
    ensures a == b
  {
    if a != [] {
      assert Get(a, a[0].0).Some?;
    }
    if b != [] {
      assert Get(b, b[0].0).Some?;
    }
    if a != [] && b != [] {
      SameFirstName(a, b);
      AboveIsAbsent(a[0].0, a[1..]);
      AboveIsAbsent(a[0].0, b[1..]);
      forall q
        ensures Get(a[1..], q) == Get(b[1..], q)
      {
        assert Get(a, q) == Get(b, q);
      }
      SameLookups(a[1..], b[1..]);
      assert a == [a[0]] + a[1..] && b == [b[0]] + b[1..];
    }
  }

  ghost predicate SameLast(a: seq<(string, string)>, b: seq<(string, string)>) {
    forall q :: LastOf(a, q) == LastOf(b, q)
  }

  /** Two rows belong to one series exactly when every label has the same last value in both; the
      order labels are met in, and values overridden by a later pair, do not matter. */
  lemma {:induction false} SameSetIff(a: seq<(string, string)>, b: seq<(string, string)>)
    ensures New(a) == New(b) <==> SameLast(a, b)
  {
    NewIsLastWins(a);
    NewIsLastWins(b);
    if New(a) == New(b) {
      forall q
        ensures LastOf(a, q) == LastOf(b, q)
      {
        assert Get(New(a), q) == LastOf(a, q);
      }
    } else if SameLast(a, b) {
      SameLookups(New(a), New(b));
    }
  }

  // ----- the derived order on label sets

  predicate PairLe(a: (string, string), b: (string, string)) {
    if a.0 == b.0 then StrLe(a.1, b.1) else StrLe(a.0, b.0)
  }

  predicate LabelsLe(a: LabelSet, b: LabelSet) {
    if a == [] then true
    else if b == [] then false
    else if a[0] == b[0] then LabelsLe(a[1..], b[1..])
    else PairLe(a[0], b[0])
  }

  /** By name, and for equal names by value, each by code points. */
  ghost predicate PairBefore(a: (string, string), b: (string, string)) {
    CodePointLt(a.0, b.0) || (a.0 == b.0 && CodePointLt(a.1, b.1))
  }

  lemma PairLeIff(a: (string, string), b: (string, string))
    ensures PairLe(a, b) <==> a == b || PairBefore(a, b)
  {
    StrLeIff(a.0, b.0);
    StrLeIff(a.1, b.1);
    NeverBeforeItself(a.0);
  }

  /** Label sets are compared in dictionary order, pair by pair. */
  lemma {:induction false} LabelsLeIff(a: LabelSet, b: LabelSet)
    ensures LabelsLe(a, b) <==> a == b || Before((x, y) => PairBefore(x, y), a, b)
    decreases |a|
  {
    var lt := (x, y) => PairBefore(x, y);
    if a != [] && b != [] {
      PairLeIff(a[0], b[0]);
      if a[0] == b[0] {
        LabelsLeIff(a[1..], b[1..]);
        NeverBeforeItself(a[0].0);
        NeverBeforeItself(a[0].1);
        BeforeStep(lt, a[0], a[1..], b[1..]);
        assert a == [a[0]] + a[1..] && b == [b[0]] + b[1..];
      } else {
        BeforeAtOnce(lt, a, b);
      }
    }
  }

  predicate LabelsLt(a: LabelSet, b: LabelSet) { a != b && LabelsLe(a, b) }

  lemma PairOrder(a: (string, string), b: (string, string))
    ensures PairLe(a, b) || PairLe(b, a)
    ensures PairLe(a, b) && PairLe(b, a) ==> a == b
  {
    StrLeTotal(a.0, b.0);
    StrLeTotal(a.1, b.1);
  }

  lemma PairLeTransitive(a: (string, string), b: (string, string), c: (string, string))
    requires PairLe(a, b) && PairLe(b, c)
    ensures PairLe(a, c)
  {
    if a.0 == b.0 == c.0 {
      StrLeTransitive(a.1, b.1, c.1);
    } else if a.0 != b.0 && b.0 != c.0 {
      StrLeTransitive(a.0, b.0, c.0);
      StrLeTotal(a.0, b.0);
    }
  }

  lemma {:induction false} LabelsLeTotal(a: LabelSet, b: LabelSet)
    ensures LabelsLe(a, b) || LabelsLe(b, a)
    ensures LabelsLe(a, b) && LabelsLe(b, a) ==> a == b
  {
    if a != [] && b != [] {
      PairOrder(a[0], b[0]);
      LabelsLeTotal(a[1..], b[1..]);
      assert a == [a[0]] + a[1..] && b == [b[0]] + b[1..];
    }
  }

  lemma {:induction false} LabelsLeTransitive(a: LabelSet, b: LabelSet, c: LabelSet)
    requires LabelsLe(a, b) && LabelsLe(b, c)
    ensures LabelsLe(a, c)
  {
    if a != [] {
      if a[0] == b[0] == c[0] {
        LabelsLeTransitive(a[1..], b[1..], c[1..]);
      } else if a[0] != b[0] && b[0] != c[0] {
        PairLeTransitive(a[0], b[0], c[0]);
        PairOrder(a[0], b[0]);
      }
    }
  }

  /** Every non-empty finite set of label sets has a least member. */
  lemma {:induction false} LeastExists(s: set<LabelSet>) returns (m: LabelSet)
    requires s != {}
    ensures m in s && forall x :: x in s ==> LabelsLe(m, x)
    decreases |s|
  {
    var x :| x in s;
    if s == {x} {
      m := x;
      LabelsLeTotal(x, x);
    } else {
      assert s == (s - {x}) + {x};
      m := LeastExists(s - {x});
      LabelsLeTotal(m, x);
      if !LabelsLe(m, x) {
        forall y | y in s
          ensures LabelsLe(x, y)
        {
          if y != x {
            LabelsLeTransitive(x, m, y);
          } else {
            LabelsLeTotal(x, x);
          }
        }
        m := x;
      }
    }
  }
}
