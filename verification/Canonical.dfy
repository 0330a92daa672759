/** Canonical JSON round trips: reading what was written gives the normal form, and equal normal
    forms are exactly equal texts. */
module Canonical {
  import opened Basics
  import opened Values
  import opened Sorting
  import opened Json

  // ----- sorting commutes with writing and with normalizing

  lemma {:induction false} EncodeOfInsert(e: Entry, es: seq<Entry>)
    ensures EncodeEntries(Insert(KeyLe, e, es)) == Insert(MemberLe, Member(e.key, Encode(e.value)), EncodeEntries(es))
  {
    var m := Member(e.key, Encode(e.value));
    if es == [] || KeyLe(e, es[0]) {
      assert ([e] + es)[1..] == es;
    } else {
      EncodeOfInsert(e, es[1..]);
      assert ([es[0]] + Insert(KeyLe, e, es[1..]))[1..] == Insert(KeyLe, e, es[1..]);
      assert EncodeEntries(es)[1..] == EncodeEntries(es[1..]);
    }
  }

  lemma {:induction false} EncodeOfSort(es: seq<Entry>)
    ensures EncodeEntries(Sort(KeyLe, es)) == Sort(MemberLe, EncodeEntries(es))
  {
    if es != [] {
      EncodeOfSort(es[1..]);
      EncodeOfInsert(es[0], Sort(KeyLe, es[1..]));
      assert EncodeEntries(es)[1..] == EncodeEntries(es[1..]);
    }
  }

  lemma {:induction false} NormOfInsert(e: Entry, es: seq<Entry>)
    ensures NormEntries(Insert(KeyLe, e, es)) == Insert(KeyLe, Entry(e.key, Norm(e.value)), NormEntries(es))
  {
    if es == [] || KeyLe(e, es[0]) {
      assert ([e] + es)[1..] == es;
    } else {
      NormOfInsert(e, es[1..]);
      assert ([es[0]] + Insert(KeyLe, e, es[1..]))[1..] == Insert(KeyLe, e, es[1..]);
      assert NormEntries(es)[1..] == NormEntries(es[1..]);
    }
  }

  lemma {:induction false} NormOfSort(es: seq<Entry>)
    ensures NormEntries(Sort(KeyLe, es)) == Sort(KeyLe, NormEntries(es))
  {
    if es != [] {
      NormOfSort(es[1..]);
      NormOfInsert(es[0], Sort(KeyLe, es[1..]));
      assert NormEntries(es)[1..] == NormEntries(es[1..]);
    }
  }

  lemma SortedMembers(es: seq<Entry>, i: nat)
    requires i < |Sort(KeyLe, es)|
    ensures Sort(KeyLe, es)[i] in es
  {
    SortKeepsElements(KeyLe, es);
    assert Sort(KeyLe, es)[i] in multiset(Sort(KeyLe, es));
  }

  // ----- reading back

  /** Whatever follows it and whatever the budget, the text of `v` reads as the normal form of `v`
      if its nesting fits, and is refused if it does not. */
  ghost predicate Reads(v: AnyValue) {
    forall depth: nat, rest: seq<Token> :: ReadsWith(v, depth, rest)
  }

  ghost predicate ReadsWith(v: AnyValue, depth: nat, rest: seq<Token>) {
    ParseValue(Encode(v) + rest, depth) == if Fits(v, depth) then Some((Norm(v), rest)) else None
  }

  lemma {:induction false} EncodeStarts(v: AnyValue)
    ensures Encode(v) != [] && !Encode(v)[0].RBracket? && !Encode(v)[0].RBrace?
  {
  }

  ghost predicate AllFit(es: seq<Entry>, depth: nat) {
    forall i :: 0 <= i < |es| ==> Fits(es[i].value, depth)
  }

  ghost predicate ItemsFit(items: seq<AnyValue>, depth: nat) {
    forall i :: 0 <= i < |items| ==> Fits(items[i], depth)
  }

  lemma CommaSkipped(us: seq<Token>, first: bool)
    ensures AfterComma(Separator(first) + us, first) == Some(us)
  {
    if first {
      assert Separator(first) + us == us;
    } else {
      assert ([Comma] + us)[1..] == us;
    }
  }

  /** One item off a list that has one. */
  lemma {:induction false} ItemsStep(us: seq<Token>, v: AnyValue, tail: seq<Token>, depth: nat, first: bool)
    requires us != [] && us[0] != RBracket
    requires ParseValue(us, depth) == Some((v, tail))
    ensures ParseItems(Separator(first) + us, depth, first)
      == match ParseItems(tail, depth, false) case None => None case Some((vs, end)) => Some(([v] + vs, end))
  {
    CommaSkipped(us, first);
    assert (Separator(first) + us)[0] != RBracket;
  }

  lemma {:induction false} ItemsStop(us: seq<Token>, depth: nat, first: bool)
    requires us != [] && us[0] != RBracket
    requires ParseValue(us, depth) == None
    ensures ParseItems(Separator(first) + us, depth, first) == None
  {
    CommaSkipped(us, first);
    assert (Separator(first) + us)[0] != RBracket;
  }

  lemma {:induction false} ReadItems(items: seq<AnyValue>, depth: nat, rest: seq<Token>, first: bool)
    requires forall i :: 0 <= i < |items| ==> Reads(items[i])
    ensures ParseItems(ItemsText(EncodeItems(items), first) + rest, depth, first)
      == if ItemsFit(items, depth) then Some((NormItems(items), rest)) else None
  {
    if items == [] {
      assert (ItemsText(EncodeItems(items), first) + rest)[1..] == rest;
    } else {
      var v, more := items[0], items[1..];
      var tail := ItemsText(EncodeItems(more), false) + rest;
      EncodeStarts(v);
      assert EncodeItems(items)[1..] == EncodeItems(more);
      ConcatFour(Separator(first), Encode(v), ItemsText(EncodeItems(more), false), rest);
      assert ReadsWith(v, depth, tail);
      assert items == [v] + more;
      if Fits(v, depth) {
        ItemsStep(Encode(v) + tail, Norm(v), tail, depth, first);
        ReadItems(more, depth, rest, false);
        assert ItemsFit(items, depth) <==> ItemsFit(more, depth);
      } else {
        ItemsStop(Encode(v) + tail, depth, first);
      }
    }
  }

  /** One member off an object that has one. */
  lemma {:induction false} MembersStep(key: string, escaped: bool, us: seq<Token>, v: AnyValue, tail: seq<Token>,
      depth: nat, first: bool)
    requires ParseValue(us, depth) == Some((v, tail))
    ensures ParseMembers(Separator(first) + ([StrT(key, escaped), Colon] + us), depth, first)
      == match ParseMembers(tail, depth, false)
         case None => None
         case Some((ps, end)) => Some(([Entry(key, v)] + ps, end))
  {
    var ws := [StrT(key, escaped), Colon] + us;
    CommaSkipped(ws, first);
    assert (Separator(first) + ws)[0] != RBrace;
    assert ws[2..] == us;
  }

  lemma {:induction false} MembersStop(key: string, escaped: bool, us: seq<Token>, depth: nat, first: bool)
    requires ParseValue(us, depth) == None
    ensures ParseMembers(Separator(first) + ([StrT(key, escaped), Colon] + us), depth, first) == None
  {
    var ws := [StrT(key, escaped), Colon] + us;
    CommaSkipped(ws, first);
    assert (Separator(first) + ws)[0] != RBrace;
    assert ws[2..] == us;
  }

  lemma MembersTextShape(e: Entry, text: seq<Token>, more: seq<Token>, rest: seq<Token>, first: bool)
    ensures Separator(first) + [Quoted(e.key), Colon] + text + more + rest
      == Separator(first) + ([Quoted(e.key), Colon] + (text + (more + rest)))
  {
    ConcatFour(Separator(first) + [Quoted(e.key), Colon], text, more, rest);
  }

  lemma {:induction false} ReadMembers(es: seq<Entry>, depth: nat, rest: seq<Token>, first: bool)
    requires forall i :: 0 <= i < |es| ==> Reads(es[i].value)
    ensures ParseMembers(MembersText(EncodeEntries(es), first) + rest, depth, first)
      == if AllFit(es, depth) then Some((NormEntries(es), rest)) else None
  {
    if es == [] {
      assert (MembersText(EncodeEntries(es), first) + rest)[1..] == rest;
    } else {
      var e, more := es[0], es[1..];
      var tail := MembersText(EncodeEntries(more), false) + rest;
      var us := Encode(e.value) + tail;
      assert EncodeEntries(es)[1..] == EncodeEntries(more);
      MembersTextShape(e, Encode(e.value), MembersText(EncodeEntries(more), false), rest, first);
      assert ReadsWith(e.value, depth, tail);
      assert es == [e] + more;
      if Fits(e.value, depth) {
        MembersStep(e.key, NeedsEscape(e.key), us, Norm(e.value), tail, depth, first);
        ReadMembers(more, depth, rest, false);
        assert AllFit(es, depth) <==> AllFit(more, depth);
      } else {
        MembersStop(e.key, NeedsEscape(e.key), us, depth, first);
      }
    }
  }

  lemma {:induction false} ReadsArray(items: seq<AnyValue>)
    requires forall i :: 0 <= i < |items| ==> Reads(items[i])
    ensures Reads(Array(items))
  {
    var v := Array(items);
    forall depth: nat, rest: seq<Token>
      ensures ReadsWith(v, depth, rest)
    {
      var text := ItemsText(EncodeItems(items), true) + rest;
      assert Encode(v) + rest == [LBracket] + text;
      assert ([LBracket] + text)[1..] == text;
      if depth > 1 {
        ReadItems(items, depth - 1, rest, true);
      }
    }
  }

  lemma SameFit(entries: seq<Entry>, depth: nat)
    ensures AllFit(Sort(KeyLe, entries), depth) <==> AllFit(entries, depth)
  {
    var es := Sort(KeyLe, entries);
    SortKeepsElements(KeyLe, entries);
    assert forall e :: e in es <==> e in multiset(es);
    assert forall e :: e in entries <==> e in multiset(entries);
    assert AllFit(es, depth) <==> forall e :: e in es ==> Fits(e.value, depth);
    assert AllFit(entries, depth) <==> forall e :: e in entries ==> Fits(e.value, depth);
  }

  lemma {:induction false} ReadsMap(entries: seq<Entry>)
    requires forall i :: 0 <= i < |entries| ==> Reads(entries[i].value)
    ensures Reads(Map(entries))
  {
    var v, es := Map(entries), Sort(KeyLe, entries);
    EncodeOfSort(entries);
    NormOfSort(entries);
    forall i | 0 <= i < |es|
      ensures Reads(es[i].value)
    {
      SortedMembers(entries, i);
    }
    forall depth: nat, rest: seq<Token>
      ensures ReadsWith(v, depth, rest)
    {
      var text := MembersText(EncodeEntries(es), true) + rest;
      assert Encode(v) + rest == [LBrace] + text;
      assert ([LBrace] + text)[1..] == text;
      if depth > 1 {
        ReadMembers(es, depth - 1, rest, true);
        SameFit(entries, depth - 1);
      }
    }
  }

  lemma {:induction false} ReadSentinel(tag: string, depth: nat, rest: seq<Token>)
    ensures ParseValue(Sentinel(tag) + rest, depth)
      == if depth > 1 then Some((SentinelOrMap([Entry("$f", Str(tag))]), rest)) else None
  {
    var tail := [RBrace] + rest;
    var value := [Quoted(tag)] + tail;
    var members := [Quoted("$f"), Colon] + value;
    assert Sentinel(tag) + rest == [LBrace] + members;
    assert ([LBrace] + members)[1..] == members;
    assert value[1..] == tail && tail[1..] == rest;
    if depth > 1 {
      assert ParseValue(value, depth - 1) == Some((Str(tag), tail));
      MembersStep("$f", NeedsEscape("$f"), value, Str(tag), tail, depth - 1, true);
      assert Separator(true) + members == members;
      var e := Entry("$f", Str(tag));
      assert ParseMembers(tail, depth - 1, false) == Some(([], rest));
      assert [e] + [] == [e];
      assert ParseMembers(members, depth - 1, true) == Some(([e], rest));
    }
  }

  lemma {:induction false} ReadsSentinel(tag: string, d: Double)
    requires EncodeDouble(d) == Sentinel(tag) && !d.Finite? && SentinelOrMap([Entry("$f", Str(tag))]) == Dbl(d)
    ensures Reads(Dbl(d))
  {
    forall depth: nat, rest: seq<Token>
      ensures ReadsWith(Dbl(d), depth, rest)
    {
      ReadSentinel(tag, depth, rest);
    }
  }

  lemma {:induction false} EveryValueReads(v: AnyValue)
    ensures Reads(v)
  {
    match v
    case Array(items) =>
      forall i | 0 <= i < |items|
        ensures Reads(items[i])
      {
        EveryValueReads(items[i]);
      }
      ReadsArray(items);
    case Map(entries) =>
      forall i | 0 <= i < |entries|
        ensures Reads(entries[i].value)
      {
        EveryValueReads(entries[i].value);
      }
      ReadsMap(entries);
    case Dbl(NaN) => ReadsSentinel("nan", NaN);
    case Dbl(PosInf) => ReadsSentinel("inf", PosInf);
    case Dbl(NegInf) => ReadsSentinel("-inf", NegInf);
    case _ =>
      forall depth: nat, rest: seq<Token>
        ensures ReadsWith(v, depth, rest)
      {
        assert (Encode(v) + rest)[1..] == rest;
      }
  }

  // ----- the theorems

  /** The round trip, for every value: what was written reads back as the normal form exactly when
      the nesting is within the reader's limit, and is refused past it. */
  lemma ParseOfEncode(v: AnyValue)
    ensures Parse(Encode(v)) == if Fits(v, DEPTH) then Some(Norm(v)) else None
  {
    EveryValueReads(v);
    assert ReadsWith(v, DEPTH, []);
    assert Encode(v) + [] == Encode(v);
  }

  lemma {:induction false} EncodeOfNormEntries(es: seq<Entry>)
    requires forall i :: 0 <= i < |es| ==> Encode(Norm(es[i].value)) == Encode(es[i].value)
    ensures EncodeEntries(NormEntries(es)) == EncodeEntries(es)
  {
    if es != [] {
      EncodeOfNormEntries(es[1..]);
      assert NormEntries(es)[1..] == NormEntries(es[1..]);
    }
  }

  lemma {:induction false} EncodeOfNormItems(items: seq<AnyValue>)
    requires forall i :: 0 <= i < |items| ==> Encode(Norm(items[i])) == Encode(items[i])
    ensures EncodeItems(NormItems(items)) == EncodeItems(items)
  {
    if items != [] {
      EncodeOfNormItems(items[1..]);
      assert NormItems(items)[1..] == NormItems(items[1..]);
    }
  }

  /** A one-entry `$f` map is written exactly as the double it stands for. */
  lemma {:induction false} EncodeOfSentinel(pairs: seq<Entry>)
    ensures Encode(SentinelOrMap(pairs)) == Encode(Map(pairs))
  {
    if SentinelOrMap(pairs) != Map(pairs) {
      var e := pairs[0];
      assert pairs == [e];
      var m := Member(e.key, Encode(e.value));
      assert EncodeEntries(pairs) == [m];
      assert Sort(MemberLe, [m]) == [m];
      assert [m][1..] == [];
      assert MembersText([m], true) == Separator(true) + [Quoted(e.key), Colon] + m.text + [RBrace];
    }
  }

  lemma {:induction false} EncodeOfMap(entries: seq<Entry>)
    requires forall i :: 0 <= i < |entries| ==> Encode(Norm(entries[i].value)) == Encode(entries[i].value)
    ensures Encode(Norm(Map(entries))) == Encode(Map(entries))
  {
    var pairs := Sort(KeyLe, NormEntries(entries));
    EncodeOfSentinel(pairs);
    EncodeOfSort(pairs);
    EncodeOfSort(NormEntries(entries));
    EncodeOfNormEntries(entries);
    SortSortedEntries(NormEntries(entries));
    SortOfSorted(KeyLe, pairs);
  }

  lemma SortSortedEntries(es: seq<Entry>)
    ensures Sorted(KeyLe, Sort(KeyLe, es))
  {
    forall a, b
      ensures KeyLe(a, b) || KeyLe(b, a)
    {
      StrLeTotal(a.key, b.key);
    }
    forall a, b, c | KeyLe(a, b) && KeyLe(b, c)
      ensures KeyLe(a, c)
    {
      StrLeTransitive(a.key, b.key, c.key);
    }
    SortSorted(KeyLe, es);
  }

  /** Normalizing does not change the text. */
  lemma {:induction false} EncodeOfNorm(v: AnyValue)
    ensures Encode(Norm(v)) == Encode(v)
  {
    match v
    case Array(items) =>
      forall i | 0 <= i < |items|
        ensures Encode(Norm(items[i])) == Encode(items[i])
      {
        EncodeOfNorm(items[i]);
      }
      EncodeOfNormItems(items);
    case Map(entries) =>
      forall i | 0 <= i < |entries|
        ensures Encode(Norm(entries[i].value)) == Encode(entries[i].value)
      {
        EncodeOfNorm(entries[i].value);
      }
      EncodeOfMap(entries);
    case _ =>
  }

  lemma {:induction false} SomeBudgetFits(v: AnyValue) returns (depth: nat)
    ensures forall d: nat :: d >= depth ==> Fits(v, d)
  {
    match v
    case Array(items) =>
      depth := 2;
      for i := 0 to |items|
        invariant depth >= 2
        invariant forall j, d: nat :: 0 <= j < i && d >= depth - 1 ==> Fits(items[j], d)
      {
        var k := SomeBudgetFits(items[i]);
        depth := Max(depth, k + 1);
      }
    case Map(entries) =>
      depth := 2;
      for i := 0 to |entries|
        invariant depth >= 2
        invariant forall j, d: nat :: 0 <= j < i && d >= depth - 1 ==> Fits(entries[j].value, d)
      {
        var k := SomeBudgetFits(entries[i].value);
        depth := Max(depth, k + 1);
      }
    case _ => depth := 2;
  }

  /** Byte-identical text means the same normal form, and conversely, at any depth of nesting. This
      is what lets dictionary encoding compare attribute maps by their text. */
  lemma SameTextIffSameNorm(a: AnyValue, b: AnyValue)
    ensures Encode(a) == Encode(b) <==> Norm(a) == Norm(b)
  {
    EncodeOfNorm(a);
    EncodeOfNorm(b);
    if Encode(a) == Encode(b) {
      var depth := SomeBudgetFits(a);
      EveryValueReads(a);
      EveryValueReads(b);
      assert ReadsWith(a, depth, []) && ReadsWith(b, depth, []);
    }
  }

  /** Normal forms are stable, and rewriting a document that was read back changes nothing. */
  lemma RewriteIsStable(v: AnyValue)
    ensures Norm(Norm(v)) == Norm(v)
    ensures Fits(v, DEPTH) ==> Parse(Encode(v)).Some? && Encode(Parse(Encode(v)).value) == Encode(v)
  {
    EncodeOfNorm(v);
    SameTextIffSameNorm(Norm(v), v);
    ParseOfEncode(v);
  }
}
