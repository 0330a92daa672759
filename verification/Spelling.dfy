/** What the canonical text of a value is, said without sorting (crates/imbh-core/src/canonical.rs). */
module Spelling {
  import opened Basics
  import opened Values
  import opened Sorting
  import opened Json
  import Base64

  /** Position `a` of a map is written before position `b`: by the code points of their keys, and for
      equal keys as they came. */
  ghost predicate Precedes(entries: seq<Entry>, a: nat, b: nat)
    requires a < |entries| && b < |entries|
  {
    CodePointLt(entries[a].key, entries[b].key) || (entries[a].key == entries[b].key && a < b)
  }

  /** Every position once, each before the next ones. */
  ghost predicate InKeyOrder(entries: seq<Entry>, order: seq<nat>) {
    && |order| == |entries|
    && (forall i :: 0 <= i < |order| ==> order[i] < |entries|)
    && (forall i, j :: 0 <= i < j < |order| ==> order[i] != order[j] && Precedes(entries, order[i], order[j]))
  }

  /** The members of a map in this order, with these texts for their values. */
  function Members(entries: seq<Entry>, order: seq<nat>, texts: seq<seq<Token>>): seq<Member>
    requires |order| == |texts| && forall i :: 0 <= i < |order| ==> order[i] < |entries|
  {
    seq(|order|, i requires 0 <= i < |order| => Member(entries[order[i]].key, texts[i]))
  }

  /** A string as it is written: it takes an escape for a quote, a backslash or a control character. */
  function Text(s: string): Token {
    StrT(s, exists i :: 0 <= i < |s| && (s[i] == '"' || s[i] == '\\' || s[i] as int < 0x20))
  }

  lemma TextIsQuoted(s: string)
    ensures Text(s) == Quoted(s)
  {
    if i :| 0 <= i < |s| && (s[i] == '"' || s[i] == '\\' || s[i] as int < 0x20) {
      assert s[i] in s;
    }
  }

  /** `ts` is how `v` is written. */
  ghost predicate WrittenAs(v: AnyValue, ts: seq<Token>)
    decreases v
  {
    match v
    case Null => ts == [NullT]
    case Bool(b) => ts == if b then [TrueT] else [FalseT]
    case Int(i) => ts == [IntT(i)]
    case Dbl(Finite(x)) => ts == [FloatT(x)]
    case Dbl(NaN) => ts == [LBrace, Text("$f"), Colon, Text("nan"), RBrace]
    case Dbl(PosInf) => ts == [LBrace, Text("$f"), Colon, Text("inf"), RBrace]
    case Dbl(NegInf) => ts == [LBrace, Text("$f"), Colon, Text("-inf"), RBrace]
    case Str(s) => ts == [Text(s)]
    case Bytes(bs) => ts == [Text(Base64.Encode(bs))]
    case Array(items) =>
      exists texts: seq<seq<Token>> ::
        && |texts| == |items| && ts == [LBracket] + ItemsText(texts, true)
        && forall i :: 0 <= i < |items| ==> WrittenAs(items[i], texts[i])
    case Map(entries) =>
      exists order: seq<nat>, texts: seq<seq<Token>> ::
        && InKeyOrder(entries, order) && |texts| == |order|
        && ts == [LBrace] + MembersText(Members(entries, order, texts), true)
        && forall i :: 0 <= i < |order| ==> WrittenAs(entries[order[i]].value, texts[i])
  }

  // ----- the encoder writes it

  lemma MembersAreOrdered()
    ensures TotalPreorder(MemberLe)
  {
    forall a: Member, b: Member
      ensures MemberLe(a, b) || MemberLe(b, a)
    {
      StrLeTotal(a.key, b.key);
    }
    forall a: Member, b: Member, c: Member | MemberLe(a, b) && MemberLe(b, c)
      ensures MemberLe(a, c)
    {
      StrLeTransitive(a.key, b.key, c.key);
    }
  }

  lemma {:induction false} ItemsAt(items: seq<AnyValue>)
    ensures |EncodeItems(items)| == |items|
    ensures forall i :: 0 <= i < |items| ==> EncodeItems(items)[i] == Encode(items[i])
    decreases |items|
  {
    if items != [] {
      ItemsAt(items[1..]);
    }
  }

  lemma {:induction false} EntriesAt(entries: seq<Entry>)
    ensures |EncodeEntries(entries)| == |entries|
    ensures forall i :: 0 <= i < |entries| ==>
      EncodeEntries(entries)[i] == Member(entries[i].key, Encode(entries[i].value))
    decreases |entries|
  {
    if entries != [] {
      EntriesAt(entries[1..]);
    }
  }

  lemma {:induction false} ArrangedInKeyOrder(entries: seq<Entry>, order: seq<nat>)
    requires Arranges(MemberLe, EncodeEntries(entries), order)
    ensures InKeyOrder(entries, order)
  {
    var ms := EncodeEntries(entries);
    EntriesAt(entries);
    forall i, j | 0 <= i < j < |order|
      ensures order[i] != order[j] && Precedes(entries, order[i], order[j])
    {
      var a, b := entries[order[i]].key, entries[order[j]].key;
      assert MemberLe(ms[order[i]], ms[order[j]]);
      StrLeIff(a, b);
      StrLeReflexive(a);
    }
  }

  /** The members of a map come out by the code points of their keys, equal keys in the order given. */
  lemma {:induction false} MapIsWritten(entries: seq<Entry>) returns (order: seq<nat>, texts: seq<seq<Token>>)
    ensures InKeyOrder(entries, order) && |texts| == |order|
    ensures Encode(Map(entries)) == [LBrace] + MembersText(Members(entries, order, texts), true)
    ensures forall i :: 0 <= i < |order| ==> texts[i] == Encode(entries[order[i]].value)
  {
    var ms := EncodeEntries(entries);
    MembersAreOrdered();
    EntriesAt(entries);
    order := SortArranges(MemberLe, ms);
    ArrangedInKeyOrder(entries, order);
    texts := seq(|order|, i requires 0 <= i < |order| => Encode(entries[order[i]].value));
    assert Members(entries, order, texts) == Sort(MemberLe, ms);
  }

  lemma SentinelsAreQuoted()
    ensures Text("$f") == Quoted("$f")
    ensures Text("nan") == Quoted("nan") && Text("inf") == Quoted("inf") && Text("-inf") == Quoted("-inf")
  {
    TextIsQuoted("$f");
    TextIsQuoted("nan");
    TextIsQuoted("inf");
    TextIsQuoted("-inf");
  }

  /** The canonical text of every value: keys by code point at every depth, equal keys in the order given,
      bytes in base64, and the three sentinels for the doubles JSON has no word for. */
  lemma {:induction false} EncodeIsWritten(v: AnyValue)
    ensures WrittenAs(v, Encode(v))
    decreases v
  {
    match v
    case Array(items) =>
      var texts := EncodeItems(items);
      ItemsAt(items);
      forall i | 0 <= i < |items|
        ensures WrittenAs(items[i], texts[i])
      {
        EncodeIsWritten(items[i]);
      }
    case Map(entries) =>
      var order, texts := MapIsWritten(entries);
      forall i | 0 <= i < |order|
        ensures WrittenAs(entries[order[i]].value, texts[i])
      {
        EncodeIsWritten(entries[order[i]].value);
      }
    case Str(s) => TextIsQuoted(s);
    case Bytes(bs) => TextIsQuoted(Base64.Encode(bs));
    case Dbl(d) => SentinelsAreQuoted();
    case _ =>
  }

  // ----- and nothing else is it

  function Positions(n: nat): (r: set<nat>)
    ensures |r| == n && forall i: nat :: i in r <==> i < n
  {
    if n == 0 then {} else Positions(n - 1) + {n - 1}
  }

  function Listed(order: seq<nat>): set<nat> { set x | x in order }

  lemma {:induction false} ListedSize(order: seq<nat>)
    requires forall i, j :: 0 <= i < j < |order| ==> order[i] != order[j]
    ensures |Listed(order)| == |order|
    decreases |order|
  {
    if order == [] {
      assert Listed(order) == {};
    } else {
      var n := |order| - 1;
      var rest, last := order[..n], order[n];
      ListedSize(rest);
      assert order == rest + [last];
      assert Listed(order) == Listed(rest) + {last};
      assert last !in rest by {
        assert forall i :: 0 <= i < n ==> rest[i] == order[i];
      }
    }
  }

  lemma {:induction false} EveryPosition(entries: seq<Entry>, order: seq<nat>)
    requires InKeyOrder(entries, order)
    ensures forall x: nat :: x in order <==> x < |entries|
  {
    ListedSize(order);
    forall x | x in Listed(order)
      ensures x in Positions(|entries|)
    {
      var i :| 0 <= i < |order| && order[i] == x;
    }
    SubsetSize(Listed(order), Positions(|entries|));
    forall x: nat
      ensures x in order <==> x < |entries|
    {
      assert x in order <==> x in Listed(order);
    }
  }

  ghost predicate Sooner(entries: seq<Entry>, a: nat, b: nat) {
    a < |entries| && b < |entries| && Precedes(entries, a, b)
  }

  lemma {:induction false} SoonerIsOneWay(entries: seq<Entry>, a: nat, b: nat)
    requires Sooner(entries, a, b)
    ensures !Sooner(entries, b, a)
  {
    StrLeIff(entries[a].key, entries[b].key);
    StrLeIff(entries[b].key, entries[a].key);
    StrLeTotal(entries[a].key, entries[b].key);
    NeverBeforeItself(entries[a].key);
  }

  lemma {:induction false} KeyOrderIsUnique(entries: seq<Entry>, a: seq<nat>, b: seq<nat>)
    requires InKeyOrder(entries, a) && InKeyOrder(entries, b)
    ensures a == b
  {
    var lt := (x: nat, y: nat) => Sooner(entries, x, y);
    EveryPosition(entries, a);
    EveryPosition(entries, b);
    forall x, y | lt(x, y)
      ensures !lt(y, x)
    {
      SoonerIsOneWay(entries, x, y);
    }
    StrictIsUnique(lt, a, b);
  }

  /** The canonical text is the only one written so. */
  lemma {:induction false} WrittenIff(v: AnyValue, ts: seq<Token>)
    ensures WrittenAs(v, ts) <==> ts == Encode(v)
    decreases v, 1
  {
    EncodeIsWritten(v);
    if WrittenAs(v, ts) {
      match v
      case Array(items) => ArrayWrittenOnce(items, ts);
      case Map(entries) => MapWrittenOnce(entries, ts);
      case Str(s) => TextIsQuoted(s);
      case Bytes(bs) => TextIsQuoted(Base64.Encode(bs));
      case Dbl(d) => SentinelsAreQuoted();
      case _ =>
    }
  }

  lemma {:induction false} ArrayWrittenOnce(items: seq<AnyValue>, ts: seq<Token>)
    requires WrittenAs(Array(items), ts)
    ensures ts == Encode(Array(items))
    decreases Array(items), 0
  {
    var texts: seq<seq<Token>> :|
      && |texts| == |items| && ts == [LBracket] + ItemsText(texts, true)
      && forall i :: 0 <= i < |items| ==> WrittenAs(items[i], texts[i]);
    ItemsAt(items);
    forall i | 0 <= i < |items|
      ensures texts[i] == Encode(items[i])
    {
      WrittenIff(items[i], texts[i]);
    }
    assert texts == EncodeItems(items);
  }

  lemma {:induction false} MapWrittenOnce(entries: seq<Entry>, ts: seq<Token>)
    requires WrittenAs(Map(entries), ts)
    ensures ts == Encode(Map(entries))
    decreases Map(entries), 0
  {
    var order: seq<nat>, texts: seq<seq<Token>> :|
      && InKeyOrder(entries, order) && |texts| == |order|
      && ts == [LBrace] + MembersText(Members(entries, order, texts), true)
      && forall i :: 0 <= i < |order| ==> WrittenAs(entries[order[i]].value, texts[i]);
    var order', texts' := MapIsWritten(entries);
    KeyOrderIsUnique(entries, order, order');
    forall i | 0 <= i < |order|
      ensures texts[i] == texts'[i]
    {
      WrittenIff(entries[order[i]].value, texts[i]);
    }
    assert texts == texts';
  }
}
