/** What the reader accepts: exactly the texts of the grammar of RFC 8259 (crates/imbh-core/src/json.rs). */
module Grammar {
  import opened Basics
  import opened Values
  import opened Json
  import opened Canonical

  // ----- documents

  /** A document as the grammar builds it. */
  datatype Tree = Scalar(token: Token) | List(items: seq<Tree>) | Object(fields: seq<Field>)

  datatype Field = Field(key: string, escaped: bool, value: Tree)

  /** Texts with a comma between any two. */
  function Joined(texts: seq<seq<Token>>): seq<Token> {
    if texts == [] then []
    else if |texts| == 1 then texts[0]
    else texts[0] + [Comma] + Joined(texts[1..])
  }

  function Text(t: Tree): seq<Token>
    decreases t, 1
  {
    match t
    case Scalar(token) => [token]
    case List(items) => [LBracket] + Joined(ItemTexts(items)) + [RBracket]
    case Object(fields) => [LBrace] + Joined(FieldTexts(fields)) + [RBrace]
  }

  function ItemTexts(items: seq<Tree>): seq<seq<Token>>
    decreases items, 0
  {
    if items == [] then [] else [Text(items[0])] + ItemTexts(items[1..])
  }

  function FieldTexts(fields: seq<Field>): seq<seq<Token>>
    decreases fields, 0
  {
    if fields == [] then []
    else [[StrT(fields[0].key, fields[0].escaped), Colon] + Text(fields[0].value)] + FieldTexts(fields[1..])
  }

  // ----- what they stand for

  function ScalarMeaning(t: Token): Option<AnyValue> {
    match t
    case NullT => Some(Null)
    case TrueT => Some(Bool(true))
    case FalseT => Some(Bool(false))
    case StrT(s, _) => Some(Str(s))
    case IntT(n) => Some(Int(n))
    case BigT(nearest) => Some(Dbl(Finite(nearest)))
    case FloatT(decimal) => Some(Dbl(Finite(decimal)))
    case _ => None
  }

  /** The value of a document whose lists and objects nest less than `depth` deep. */
  function Meaning(t: Tree, depth: nat): Option<AnyValue>
    decreases t, 1
  {
    match t
    case Scalar(token) => ScalarMeaning(token)
    case List(items) =>
      if depth <= 1 then None
      else (match ItemMeanings(items, depth - 1)
        case None => None
        case Some(vs) => Some(Array(vs)))
    case Object(fields) =>
      if depth <= 1 then None
      else (match FieldMeanings(fields, depth - 1)
        case None => None
        case Some(pairs) => Some(SentinelOrMap(pairs)))
  }

  function ItemMeanings(items: seq<Tree>, depth: nat): Option<seq<AnyValue>>
    decreases items, 0
  {
    if items == [] then Some([])
    else match (Meaning(items[0], depth), ItemMeanings(items[1..], depth))
      case (Some(v), Some(vs)) => Some([v] + vs)
      case _ => None
  }

  function FieldMeanings(fields: seq<Field>, depth: nat): Option<seq<Entry>>
    decreases fields, 0
  {
    if fields == [] then Some([])
    else match (Meaning(fields[0].value, depth), FieldMeanings(fields[1..], depth))
      case (Some(v), Some(pairs)) => Some([Entry(fields[0].key, v)] + pairs)
      case _ => None
  }

  // ----- the text of what remains of a list or an object

  function Remaining(texts: seq<seq<Token>>, first: bool, close: Token): seq<Token> {
    if texts == [] then [close]
    else Separator(first) + (texts[0] + Remaining(texts[1..], false, close))
  }

  lemma RemainingStep(text: seq<Token>, texts: seq<seq<Token>>, first: bool, close: Token, rest: seq<Token>)
    ensures Remaining([text] + texts, first, close) + rest
      == Separator(first) + (text + (Remaining(texts, false, close) + rest))
  {
    assert ([text] + texts)[1..] == texts;
    ConcatFour(Separator(first), text, Remaining(texts, false, close), rest);
    ConcatAssociates(Separator(first), text, Remaining(texts, false, close));
  }

  lemma {:induction false} RemainingIs(texts: seq<seq<Token>>, close: Token)
    ensures Remaining(texts, true, close) == Joined(texts) + [close]
    decreases |texts|
  {
    if |texts| > 1 {
      RemainingIs(texts[1..], close);
      var rest := texts[1..];
      assert Remaining(rest, false, close) == [Comma] + Remaining(rest, true, close);
      ConcatFour(texts[0], [Comma], Joined(rest), [close]);
    } else if |texts| == 1 {
      assert texts[1..] == [];
    }
  }

  // ----- everything of the grammar is read

  lemma {:induction false} TextStarts(t: Tree)
    requires t.Scalar? ==> ScalarMeaning(t.token).Some?
    ensures Text(t) != [] && Text(t)[0] != RBracket
  {
  }

  ghost predicate Read(t: Tree) {
    forall depth: nat, rest: seq<Token> :: ReadWith(t, depth, rest)
  }

  ghost predicate ReadWith(t: Tree, depth: nat, rest: seq<Token>) {
    Meaning(t, depth).Some? ==> ParseValue(Text(t) + rest, depth) == Some((Meaning(t, depth).value, rest))
  }

  lemma {:induction false} ReadItemTexts(items: seq<Tree>, depth: nat, rest: seq<Token>, first: bool)
    requires forall i :: 0 <= i < |items| ==> Read(items[i])
    requires ItemMeanings(items, depth).Some?
    ensures ParseItems(Remaining(ItemTexts(items), first, RBracket) + rest, depth, first)
      == Some((ItemMeanings(items, depth).value, rest))
    decreases |items|
  {
    if items == [] {
      assert ([RBracket] + rest)[1..] == rest;
    } else {
      var t, more := items[0], items[1..];
      var tail := Remaining(ItemTexts(more), false, RBracket) + rest;
      ReadItemTexts(more, depth, rest, false);
      TextStarts(t);
      assert ReadWith(t, depth, tail);
      RemainingStep(Text(t), ItemTexts(more), first, RBracket, rest);
      ItemsStep(Text(t) + tail, Meaning(t, depth).value, tail, depth, first);
    }
  }

  lemma {:induction false} ReadFieldTexts(fields: seq<Field>, depth: nat, rest: seq<Token>, first: bool)
    requires forall i :: 0 <= i < |fields| ==> Read(fields[i].value)
    requires FieldMeanings(fields, depth).Some?
    ensures ParseMembers(Remaining(FieldTexts(fields), first, RBrace) + rest, depth, first)
      == Some((FieldMeanings(fields, depth).value, rest))
    decreases |fields|
  {
    if fields == [] {
      assert ([RBrace] + rest)[1..] == rest;
    } else {
      var f, more := fields[0], fields[1..];
      var tail := Remaining(FieldTexts(more), false, RBrace) + rest;
      ReadFieldTexts(more, depth, rest, false);
      assert ReadWith(f.value, depth, tail);
      var head := [StrT(f.key, f.escaped), Colon];
      RemainingStep(head + Text(f.value), FieldTexts(more), first, RBrace, rest);
      ConcatAssociates(head, Text(f.value), tail);
      MembersStep(f.key, f.escaped, Text(f.value) + tail, Meaning(f.value, depth).value, tail, depth, first);
    }
  }

  lemma {:induction false} ListIsRead(items: seq<Tree>, depth: nat, rest: seq<Token>)
    requires forall i :: 0 <= i < |items| ==> Read(items[i])
    ensures ReadWith(List(items), depth, rest)
  {
    if Meaning(List(items), depth).Some? {
      var inside := Remaining(ItemTexts(items), true, RBracket);
      RemainingIs(ItemTexts(items), RBracket);
      ReadItemTexts(items, depth - 1, rest, true);
      ConcatAssociates([LBracket], Joined(ItemTexts(items)), [RBracket]);
      ConcatAssociates([LBracket], inside, rest);
      assert ([LBracket] + (inside + rest))[1..] == inside + rest;
    }
  }

  lemma {:induction false} ObjectIsRead(fields: seq<Field>, depth: nat, rest: seq<Token>)
    requires forall i :: 0 <= i < |fields| ==> Read(fields[i].value)
    ensures ReadWith(Object(fields), depth, rest)
  {
    if Meaning(Object(fields), depth).Some? {
      var inside := Remaining(FieldTexts(fields), true, RBrace);
      RemainingIs(FieldTexts(fields), RBrace);
      ReadFieldTexts(fields, depth - 1, rest, true);
      ConcatAssociates([LBrace], Joined(FieldTexts(fields)), [RBrace]);
      ConcatAssociates([LBrace], inside, rest);
      assert ([LBrace] + (inside + rest))[1..] == inside + rest;
    }
  }

  lemma {:induction false} ScalarIsRead(token: Token, depth: nat, rest: seq<Token>)
    ensures ReadWith(Scalar(token), depth, rest)
  {
    assert ([token] + rest)[1..] == rest;
  }

  lemma {:induction false} EveryTreeIsRead(t: Tree)
    ensures Read(t)
    decreases t
  {
    if t.List? {
      forall i | 0 <= i < |t.items|
        ensures Read(t.items[i])
      {
        EveryTreeIsRead(t.items[i]);
      }
    } else if t.Object? {
      forall i | 0 <= i < |t.fields|
        ensures Read(t.fields[i].value)
      {
        EveryTreeIsRead(t.fields[i].value);
      }
    }
    forall depth: nat, rest: seq<Token>
      ensures ReadWith(t, depth, rest)
    {
      match t
      case Scalar(token) => ScalarIsRead(token, depth, rest);
      case List(items) => ListIsRead(items, depth, rest);
      case Object(fields) => ObjectIsRead(fields, depth, rest);
    }
  }

  // ----- and nothing else is

  /** What was read is the text of a document, and the value is its value. */
  ghost predicate Derives(ts: seq<Token>, rest: seq<Token>, v: AnyValue, depth: nat, t: Tree) {
    ts == Text(t) + rest && Meaning(t, depth) == Some(v)
  }

  ghost predicate DerivesItems(ts: seq<Token>, rest: seq<Token>, vs: seq<AnyValue>, depth: nat, first: bool,
      items: seq<Tree>) {
    ts == Remaining(ItemTexts(items), first, RBracket) + rest && ItemMeanings(items, depth) == Some(vs)
  }

  ghost predicate DerivesFields(ts: seq<Token>, rest: seq<Token>, pairs: seq<Entry>, depth: nat, first: bool,
      fields: seq<Field>) {
    ts == Remaining(FieldTexts(fields), first, RBrace) + rest && FieldMeanings(fields, depth) == Some(pairs)
  }

  lemma {:induction false} ListDerives(ts: seq<Token>, rest: seq<Token>, vs: seq<AnyValue>, depth: nat,
      items: seq<Tree>)
    requires depth > 1 && DerivesItems(ts, rest, vs, depth - 1, true, items)
    ensures Derives([LBracket] + ts, rest, Array(vs), depth, List(items))
  {
    RemainingIs(ItemTexts(items), RBracket);
    ConcatAssociates([LBracket], Joined(ItemTexts(items)), [RBracket]);
    ConcatAssociates([LBracket], Joined(ItemTexts(items)) + [RBracket], rest);
  }

  lemma {:induction false} ObjectDerives(ts: seq<Token>, rest: seq<Token>, pairs: seq<Entry>, depth: nat,
      fields: seq<Field>)
    requires depth > 1 && DerivesFields(ts, rest, pairs, depth - 1, true, fields)
    ensures Derives([LBrace] + ts, rest, SentinelOrMap(pairs), depth, Object(fields))
  {
    RemainingIs(FieldTexts(fields), RBrace);
    ConcatAssociates([LBrace], Joined(FieldTexts(fields)), [RBrace]);
    ConcatAssociates([LBrace], Joined(FieldTexts(fields)) + [RBrace], rest);
  }

  lemma {:induction false} ItemDerives(us: seq<Token>, tail: seq<Token>, rest: seq<Token>, v: AnyValue,
      vs: seq<AnyValue>, depth: nat, first: bool, t: Tree, more: seq<Tree>)
    requires Derives(us, tail, v, depth, t) && DerivesItems(tail, rest, vs, depth, false, more)
    ensures DerivesItems(Separator(first) + us, rest, [v] + vs, depth, first, [t] + more)
  {
    assert ([t] + more)[1..] == more;
    RemainingStep(Text(t), ItemTexts(more), first, RBracket, rest);
  }

  lemma {:induction false} FieldDerives(us: seq<Token>, tail: seq<Token>, rest: seq<Token>, v: AnyValue,
      pairs: seq<Entry>, depth: nat, first: bool, f: Field, more: seq<Field>)
    requires Derives(us, tail, v, depth, f.value) && DerivesFields(tail, rest, pairs, depth, false, more)
    ensures DerivesFields(Separator(first) + ([StrT(f.key, f.escaped), Colon] + us), rest, [Entry(f.key, v)] + pairs,
      depth, first, [f] + more)
  {
    var head := [StrT(f.key, f.escaped), Colon];
    assert ([f] + more)[1..] == more;
    RemainingStep(head + Text(f.value), FieldTexts(more), first, RBrace, rest);
    ConcatAssociates(head, Text(f.value), tail);
  }

  lemma {:induction false} Derive(ts: seq<Token>, depth: nat) returns (t: Tree)
    requires ParseValue(ts, depth).Some?
    ensures var p := ParseValue(ts, depth).value; Derives(ts, p.1, p.0, depth, t)
    decreases |ts|, 1
  {
    assert ts == [ts[0]] + ts[1..];
    if ts[0] == LBracket {
      var items := DeriveItems(ts[1..], depth - 1, true);
      var p := ParseItems(ts[1..], depth - 1, true).value;
      t := List(items);
      ListDerives(ts[1..], p.1, p.0, depth, items);
    } else if ts[0] == LBrace {
      var fields := DeriveFields(ts[1..], depth - 1, true);
      var p := ParseMembers(ts[1..], depth - 1, true).value;
      t := Object(fields);
      ObjectDerives(ts[1..], p.1, p.0, depth, fields);
    } else {
      t := Scalar(ts[0]);
    }
  }

  lemma {:induction false} DeriveItems(ts: seq<Token>, depth: nat, first: bool) returns (items: seq<Tree>)
    requires ParseItems(ts, depth, first).Some?
    ensures var p := ParseItems(ts, depth, first).value; DerivesItems(ts, p.1, p.0, depth, first, items)
    decreases |ts|, 2
  {
    if ts != [] && ts[0] == RBracket {
      items := [];
      assert ts == [RBracket] + ts[1..];
    } else {
      var us := AfterComma(ts, first).value;
      assert ts == Separator(first) + us;
      var t := Derive(us, depth);
      var p := ParseValue(us, depth).value;
      var more := DeriveItems(p.1, depth, false);
      var q := ParseItems(p.1, depth, false).value;
      items := [t] + more;
      ItemDerives(us, p.1, q.1, p.0, q.0, depth, first, t, more);
    }
  }

  lemma {:induction false} DeriveFields(ts: seq<Token>, depth: nat, first: bool) returns (fields: seq<Field>)
    requires ParseMembers(ts, depth, first).Some?
    ensures var p := ParseMembers(ts, depth, first).value; DerivesFields(ts, p.1, p.0, depth, first, fields)
    decreases |ts|, 2
  {
    if ts != [] && ts[0] == RBrace {
      fields := [];
      assert ts == [RBrace] + ts[1..];
    } else {
      var us := AfterComma(ts, first).value;
      assert ts == Separator(first) + us;
      var t := Derive(us[2..], depth);
      var p := ParseValue(us[2..], depth).value;
      var more := DeriveFields(p.1, depth, false);
      var q := ParseMembers(p.1, depth, false).value;
      var f := Field(us[0].text, us[0].escaped, t);
      fields := [f] + more;
      assert us == [StrT(f.key, f.escaped), Colon] + us[2..];
      FieldDerives(us[2..], p.1, q.1, p.0, q.0, depth, first, f, more);
    }
  }

  /** The full parse accepts exactly the documents of the grammar within the nesting limit, and gives their
      value: members in order and kept when repeated, integers past `i64` as doubles, the sentinels folded. */
  lemma {:induction false} ParseIff(ts: seq<Token>, v: AnyValue)
    ensures Parse(ts) == Some(v) <==> exists t :: Text(t) == ts && Meaning(t, 128) == Some(v)
  {
    if Parse(ts) == Some(v) {
      var t := Derive(ts, DEPTH);
      assert Text(t) + [] == Text(t);
    }
    if t :| Text(t) == ts && Meaning(t, 128) == Some(v) {
      EveryTreeIsRead(t);
      assert ReadWith(t, DEPTH, []);
      assert Text(t) + [] == Text(t);
    }
  }
}
