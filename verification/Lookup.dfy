/** Single-key lookup `json_get` (crates/imbh-core/src/attributes.rs, json.rs): a walk that skips
    what it does not need, with the full parse as fallback, against the full parse. */
module Lookup {
  import opened Basics
  import opened Values
  import opened Json

  // ----- the visitors as loops

  /** What a loop holding `done` still has to add to it. */
  function Prefixed<T>(done: seq<T>, r: Option<(seq<T>, seq<Token>)>): Option<(seq<T>, seq<Token>)> {
    match r
    case None => None
    case Some((more, end)) => Some((done + more, end))
  }

  lemma PrefixedStep<T>(done: seq<T>, x: T, r: Option<(seq<T>, seq<Token>)>)
    ensures Prefixed(done + [x], r)
      == Prefixed(done, match r case None => None case Some((more, end)) => Some(([x] + more, end)))
  {
    match r
    case None =>
    case Some((more, end)) => ConcatAssociates(done, [x], more);
  }

  lemma PrefixedEnds<T>(done: seq<T>, rest: seq<Token>, r: Option<(seq<T>, seq<Token>)>)
    ensures Prefixed(done, Some(([], rest))) == Some((done, rest))
    ensures Prefixed([], r) == r
  {
    assert done + [] == done;
    assert r.Some? ==> [] + r.value.0 == r.value.0;
  }

  /** The reader: dispatch on the first token, loops for arrays and objects. */
  method ReadValue(ts: seq<Token>, depth: nat) returns (r: Option<(AnyValue, seq<Token>)>)
    ensures r == ParseValue(ts, depth)
    decreases |ts|, 1
  {
    if ts == [] {
      return None;
    }
    match ts[0]
    case LBracket =>
      if depth <= 1 {
        return None;
      }
      var items := VisitSeq(ts[1..], depth - 1);
      r := match items case None => None case Some((vs, rest)) => Some((Array(vs), rest));
    case LBrace =>
      if depth <= 1 {
        return None;
      }
      var pairs := VisitMap(ts[1..], depth - 1);
      r := match pairs case None => None case Some((ps, rest)) => Some((SentinelOrMap(ps), rest));
    case _ => r := ParseValue(ts, depth);
  }

  /** `visit_seq`. */
  method VisitSeq(ts: seq<Token>, depth: nat) returns (r: Option<(seq<AnyValue>, seq<Token>)>)
    ensures r == ParseItems(ts, depth, true)
    decreases |ts|, 2
  {
    var items: seq<AnyValue>, cur, first := [], ts, true;
    PrefixedEnds(items, ts, ParseItems(ts, depth, true));
    while cur == [] || cur[0] != RBracket
      invariant |cur| <= |ts|
      invariant ParseItems(ts, depth, true) == Prefixed(items, ParseItems(cur, depth, first))
      decreases |cur|
    {
      var next := AfterComma(cur, first);
      if next.None? {
        return None;
      }
      var element := ReadValue(next.value, depth);
      if element.None? {
        return None;
      }
      PrefixedStep(items, element.value.0, ParseItems(element.value.1, depth, false));
      items, cur, first := items + [element.value.0], element.value.1, false;
    }
    PrefixedEnds(items, cur[1..], None);
    r := Some((items, cur[1..]));
  }

  /** `visit_map`. */
  method VisitMap(ts: seq<Token>, depth: nat) returns (r: Option<(seq<Entry>, seq<Token>)>)
    ensures r == ParseMembers(ts, depth, true)
    decreases |ts|, 2
  {
    var pairs: seq<Entry>, cur, first := [], ts, true;
    PrefixedEnds(pairs, ts, ParseMembers(ts, depth, true));
    while cur == [] || cur[0] != RBrace
      invariant |cur| <= |ts|
      invariant ParseMembers(ts, depth, true) == Prefixed(pairs, ParseMembers(cur, depth, first))
      decreases |cur|
    {
      var next := AfterComma(cur, first);
      if next.None? {
        return None;
      }
      var us := next.value;
      if |us| < 2 || !us[0].StrT? || us[1] != Colon {
        return None;
      }
      var value := ReadValue(us[2..], depth);
      if value.None? {
        return None;
      }
      var e := Entry(us[0].text, value.value.0);
      PrefixedStep(pairs, e, ParseMembers(value.value.1, depth, false));
      pairs, cur, first := pairs + [e], value.value.1, false;
    }
    PrefixedEnds(pairs, cur[1..], None);
    r := Some((pairs, cur[1..]));
  }

  // ----- skipping

  /** `IgnoredAny`: walk over one value, checking its structure but not its nesting or its numbers. */
  function Skip(ts: seq<Token>): (r: Option<seq<Token>>)
    ensures r.Some? ==> |r.value| < |ts|
    decreases |ts|, 1
  {
    if ts == [] then None
    else match ts[0]
      case NullT | TrueT | FalseT | StrT(_, _) | LoneT | IntT(_) | BigT(_) | FloatT(_) | HugeT => Some(ts[1..])
      case LBracket => SkipItems(ts[1..], true)
      case LBrace => SkipMembers(ts[1..], true)
      case _ => None
  }

  function SkipItems(ts: seq<Token>, first: bool): (r: Option<seq<Token>>)
    ensures r.Some? ==> |r.value| < |ts|
    decreases |ts|, 2
  {
    if ts != [] && ts[0] == RBracket then Some(ts[1..])
    else match AfterComma(ts, first)
      case None => None
      case Some(us) =>
        match Skip(us)
        case None => None
        case Some(rest) => SkipItems(rest, false)
  }

  function SkipMembers(ts: seq<Token>, first: bool): (r: Option<seq<Token>>)
    ensures r.Some? ==> |r.value| < |ts|
    decreases |ts|, 2
  {
    if ts != [] && ts[0] == RBrace then Some(ts[1..])
    else match AfterComma(ts, first)
      case None => None
      case Some(us) =>
        if |us| < 2 || !(us[0].StrT? || us[0].LoneT?) || us[1] != Colon then None
        else match Skip(us[2..])
          case None => None
          case Some(rest) => SkipMembers(rest, false)
  }

  /** What the full reader accepts, the skipper walks over, to the same place. */
  lemma {:induction false} SkipAgrees(ts: seq<Token>, depth: nat)
    ensures ParseValue(ts, depth).Some? ==> Skip(ts) == Some(ParseValue(ts, depth).value.1)
    decreases |ts|, 1
  {
    if ts != [] && depth > 1 {
      if ts[0].LBracket? {
        SkipItemsAgrees(ts[1..], depth - 1, true);
      } else if ts[0].LBrace? {
        SkipMembersAgrees(ts[1..], depth - 1, true);
      }
    }
  }

  lemma {:induction false} SkipItemsAgrees(ts: seq<Token>, depth: nat, first: bool)
    ensures ParseItems(ts, depth, first).Some? ==> SkipItems(ts, first) == Some(ParseItems(ts, depth, first).value.1)
    decreases |ts|, 2
  {
    var next := AfterComma(ts, first);
    if next.Some? {
      SkipAgrees(next.value, depth);
      var v := ParseValue(next.value, depth);
      if v.Some? {
        SkipItemsAgrees(v.value.1, depth, false);
      }
    }
  }

  lemma {:induction false} SkipMembersAgrees(ts: seq<Token>, depth: nat, first: bool)
    ensures ParseMembers(ts, depth, first).Some? ==>
      SkipMembers(ts, first) == Some(ParseMembers(ts, depth, first).value.1)
    decreases |ts|, 2
  {
    var next := AfterComma(ts, first);
    if next.Some? && |next.value| >= 2 {
      SkipAgrees(next.value[2..], depth);
      var v := ParseValue(next.value[2..], depth);
      if v.Some? {
        SkipMembersAgrees(v.value.1, depth, false);
      }
    }
  }

  // ----- picking one key

  type Picked = Result<Option<AnyValue>, ()>

  /** `Pick::visit_map` from somewhere inside the object. */
  function PickMembers(ts: seq<Token>, key: string, first: bool, found: Option<AnyValue>): Picked
    decreases |ts|
  {
    if ts != [] && ts[0] == RBrace then Ok(found)
    else match AfterComma(ts, first)
      case None => Err(())
      case Some(us) =>
        if |us| < 2 || !us[0].StrT? || us[0].escaped || us[1] != Colon then Err(())
        else if found.None? && us[0].text == key then
          match ParseValue(us[2..], DEPTH - 1)
          case None => Err(())
          case Some((v, rest)) => PickMembers(rest, key, false, Some(v))
        else
          match Skip(us[2..])
          case None => Err(())
          case Some(rest) => PickMembers(rest, key, false, found)
  }

  /** `pick_field_public`: nothing checks what follows the object. */
  function Pick(ts: seq<Token>, key: string): Picked {
    if ts == [] || ts[0] != LBrace then Err(()) else PickMembers(ts[1..], key, true, None)
  }

  method PickField(ts: seq<Token>, key: string) returns (r: Picked)
    ensures r == Pick(ts, key)
  {
    if ts == [] || ts[0] != LBrace {
      return Err(());
    }
    var found: Option<AnyValue>, cur, first := None, ts[1..], true;
    while cur == [] || cur[0] != RBrace
      invariant Pick(ts, key) == PickMembers(cur, key, first, found)
      decreases |cur|
    {
      var next := AfterComma(cur, first);
      if next.None? {
        return Err(());
      }
      var us := next.value;
      if |us| < 2 || !us[0].StrT? || us[0].escaped || us[1] != Colon {
        return Err(());
      }
      if found.None? && us[0].text == key {
        var value := ReadValue(us[2..], DEPTH - 1);
        if value.None? {
          return Err(());
        }
        found, cur, first := Some(value.value.0), value.value.1, false;
      } else {
        var rest := Skip(us[2..]);
        if rest.None? {
          return Err(());
        }
        cur, first := rest.value, false;
      }
    }
    r := Ok(found);
  }

  /** The reference: parse everything, then search. */
  function Reference(ts: seq<Token>, key: string): Option<AnyValue> {
    match ParseObject(ts)
    case None => None
    case Some(pairs) => Find(pairs, key)
  }

  function JsonGet(ts: seq<Token>, key: string): Option<AnyValue> {
    match Pick(ts, key)
    case Ok(found) => found
    case Err(_) => Reference(ts, key)
  }

  lemma {:induction false} PickAgrees(ts: seq<Token>, key: string, first: bool, found: Option<AnyValue>)
    requires ParseMembers(ts, DEPTH - 1, first).Some?
    ensures var pairs := ParseMembers(ts, DEPTH - 1, first).value.0;
      var p := PickMembers(ts, key, first, found);
      p.Err? || p == Ok(if found.Some? then found else Find(pairs, key))
    decreases |ts|
  {
    if ts[0] != RBrace {
      var us := AfterComma(ts, first).value;
      var (v, rest) := ParseValue(us[2..], DEPTH - 1).value;
      var pairs, more := ParseMembers(ts, DEPTH - 1, first).value.0, ParseMembers(rest, DEPTH - 1, false).value.0;
      SkipAgrees(us[2..], DEPTH - 1);
      assert pairs == [Entry(us[0].text, v)] + more;
      assert pairs[1..] == more;
      if found.None? && us[0].text == key {
        PickAgrees(rest, key, false, Some(v));
      } else {
        PickAgrees(rest, key, false, found);
      }
    }
  }

  /** On every text the full parser accepts as an object, and for every key, `json_get` returns the
      first pair with that key: keys in any order, repeated, or escaped. */
  lemma LookupIsFirstPair(ts: seq<Token>, key: string)
    requires ParseObject(ts).Some?
    ensures JsonGet(ts, key) == Find(ParseObject(ts).value, key)
  {
    assert ts[0] == LBrace;
    PickAgrees(ts[1..], key, true, None);
  }

  // ----- exactly when the two disagree

  /** A member of an object as its punctuation shows it: the key, whether it is spelled without an
      escape, and the text from its value on. */
  datatype Slot = Slot(key: string, plain: bool, at: seq<Token>)

  /** The members of an object, split by structure alone; nothing is read and what follows is ignored. */
  function Outline(ts: seq<Token>, first: bool): Option<seq<Slot>>
    decreases |ts|
  {
    if ts != [] && ts[0] == RBrace then Some([])
    else match AfterComma(ts, first)
      case None => None
      case Some(us) =>
        if |us| < 2 || !(us[0].StrT? || us[0].LoneT?) || us[1] != Colon then None
        else match Skip(us[2..])
          case None => None
          case Some(rest) =>
            match Outline(rest, false)
            case None => None
            case Some(slots) => Some([SlotOf(us[0], us[2..])] + slots)
  }

  function SlotOf(t: Token, at: seq<Token>): Slot {
    if t.StrT? then Slot(t.text, !t.escaped, at) else Slot("", false, at)
  }

  function FirstSlot(slots: seq<Slot>, key: string): Option<seq<Token>> {
    if slots == [] then None
    else if slots[0].key == key then Some(slots[0].at)
    else FirstSlot(slots[1..], key)
  }

  predicate AllPlain(slots: seq<Slot>) {
    forall i :: 0 <= i < |slots| ==> slots[i].plain
  }

  /** What an outline says the walk answers. */
  function Verdict(slots: seq<Slot>, key: string, found: Option<AnyValue>): Picked {
    if !AllPlain(slots) then Err(())
    else if found.Some? then Ok(found)
    else match FirstSlot(slots, key)
      case None => Ok(None)
      case Some(at) =>
        match ParseValue(at, DEPTH - 1)
        case None => Err(())
        case Some((v, _)) => Ok(Some(v))
  }

  lemma {:induction false} VerdictStep(slot: Slot, slots: seq<Slot>, key: string, found: Option<AnyValue>)
    ensures Verdict([slot] + slots, key, found) ==
      if !slot.plain then Err(())
      else if found.None? && slot.key == key then
        match ParseValue(slot.at, DEPTH - 1)
        case None => Err(())
        case Some((v, _)) => Verdict(slots, key, Some(v))
      else Verdict(slots, key, found)
  {
    var all := [slot] + slots;
    assert all[1..] == slots;
    assert AllPlain(all) <==> slot.plain && AllPlain(slots) by {
      assert forall i :: 0 <= i < |slots| ==> all[i + 1] == slots[i];
      assert all[0] == slot;
    }
  }

  /** The walk answers by the outline: it needs the whole object to be well punctuated and every key
      unescaped, and it reads only the first value under the key. */
  lemma {:induction false} PickFollowsOutline(ts: seq<Token>, key: string, first: bool, found: Option<AnyValue>)
    ensures PickMembers(ts, key, first, found) ==
      match Outline(ts, first) case None => Err(()) case Some(slots) => Verdict(slots, key, found)
    decreases |ts|
  {
    var next := AfterComma(ts, first);
    if (ts == [] || ts[0] != RBrace) && next.Some? && |next.value| >= 2 && next.value[0].StrT?
      && next.value[1] == Colon {
      var us := next.value;
      var rest, value := Skip(us[2..]), ParseValue(us[2..], DEPTH - 1);
      SkipAgrees(us[2..], DEPTH - 1);
      if rest.Some? {
        var now := if found.None? && us[0].text == key && value.Some? then Some(value.value.0) else found;
        PickFollowsOutline(rest.value, key, false, now);
        var more := Outline(rest.value, false);
        if more.Some? {
          VerdictStep(SlotOf(us[0], us[2..]), more.value, key, found);
        }
      }
    } else if (ts == [] || ts[0] != RBrace) && next.Some? && |next.value| >= 2 && next.value[0].LoneT?
      && next.value[1] == Colon {
      var rest := Skip(next.value[2..]);
      if rest.Some? && Outline(rest.value, false).Some? {
        VerdictStep(SlotOf(next.value[0], next.value[2..]), Outline(rest.value, false).value, key, found);
      }
    }
  }

  /** The text starts with a well punctuated object, its keys all spelled without escapes, and the first
      value under the key is one the full parser would accept there. */
  predicate Strays(ts: seq<Token>, key: string) {
    && ts != [] && ts[0] == LBrace
    && var slots := Outline(ts[1..], true);
       && slots.Some? && AllPlain(slots.value)
       && var at := FirstSlot(slots.value, key);
          at.Some? && ParseValue(at.value, DEPTH - 1).Some?
  }

  /** Where the two disagree: exactly on texts that are no object to the full parser and yet start with
      an outline holding the key. */
  lemma {:induction false} LookupDiffersIff(ts: seq<Token>, key: string)
    ensures JsonGet(ts, key) != Reference(ts, key) <==> ParseObject(ts).None? && Strays(ts, key)
  {
    if ParseObject(ts).Some? {
      LookupIsFirstPair(ts, key);
    } else if ts != [] && ts[0] == LBrace {
      PickFollowsOutline(ts[1..], key, true, None);
    }
  }

  // ----- texts the walk accepts and the full parser does not

  /** The text of `{"k":1}`. */
  function Small(): seq<Token> {
    [LBrace, StrT("k", false), Colon, IntT(1), RBrace]
  }

  lemma {:induction false} PickSmall(ts: seq<Token>)
    requires |ts| >= 5 && ts[..5] == Small()
    ensures Pick(ts, "k") == Ok(Some(Int(1)))
    ensures ParseValue(ts, DEPTH) == Some((Map([Entry("k", Int(1))]), ts[5..]))
  {
    var us := ts[1..];
    assert forall i :: 0 <= i < 5 ==> ts[i] == ts[..5][i];
    assert us[2..][0] == IntT(1) && us[2..][1..] == ts[4..] && ts[4..][1..] == ts[5..];
    assert ParseValue(us[2..], DEPTH - 1) == Some((Int(1), ts[4..]));
    assert PickMembers(ts[4..], "k", false, Some(Int(1))) == Ok(Some(Int(1)));
    assert ParseMembers(ts[4..], DEPTH - 1, false) == Some(([], ts[5..]));
    assert ParseMembers(us, DEPTH - 1, true) == Some(([Entry("k", Int(1))] + [], ts[5..]));
    assert [Entry("k", Int(1))] + [] == [Entry("k", Int(1))];
  }

  /** Anything after the object: the full parser refuses the document, the walk never looks. */
  lemma TrailingTextIsNotSeen(junk: seq<Token>)
    requires junk != []
    ensures Reference(Small() + junk, "k") == None && JsonGet(Small() + junk, "k") == Some(Int(1))
  {
    var ts := Small() + junk;
    PickSmall(ts);
    assert ts[5..] == junk;
  }

  lemma {:induction false} HugeRefused(us: seq<Token>, depth: nat)
    requires |us| >= 3 && us[0].StrT? && us[1] == Colon && us[2] == HugeT
    ensures ParseMembers(us, depth, true) == None && Skip(us[2..]) == Some(us[3..])
  {
    assert us[2..][0] == HugeT && us[2..][1..] == us[3..];
  }

  lemma {:induction false} PickLast(ws: seq<Token>)
    requires ws == [StrT("k", false), Colon, IntT(1), RBrace]
    ensures PickMembers([Comma] + ws, "k", false, None) == Ok(Some(Int(1)))
  {
    assert ([Comma] + ws)[1..] == ws;
    assert ws[2..][0] == IntT(1) && ws[2..][1..] == [RBrace];
    assert ParseValue(ws[2..], DEPTH - 1) == Some((Int(1), [RBrace]));
    assert PickMembers([RBrace], "k", false, Some(Int(1))) == Ok(Some(Int(1)));
  }

  lemma {:induction false} HugeThenPick(us: seq<Token>, ts: seq<Token>, key: string, v: AnyValue)
    requires ts == [LBrace] + us && |us| >= 3 && us[0].StrT? && !us[0].escaped && us[0].text != key
    requires us[1] == Colon && us[2] == HugeT && PickMembers(us[3..], key, false, None) == Ok(Some(v))
    ensures Reference(ts, key) == None && JsonGet(ts, key) == Some(v)
  {
    assert ts[1..] == us;
    HugeRefused(us, DEPTH - 1);
  }

  /** A skipped number past every double: refused by the full parser, walked over by the fast path. */
  lemma {:induction false} SkippedNumberIsNotRead(name: string)
    requires name != "k"
    ensures var ts := [LBrace, StrT(name, false), Colon, HugeT, Comma, StrT("k", false), Colon, IntT(1), RBrace];
      Reference(ts, "k") == None && JsonGet(ts, "k") == Some(Int(1))
  {
    var ws := [StrT("k", false), Colon, IntT(1), RBrace];
    var us := [StrT(name, false), Colon, HugeT, Comma] + ws;
    var ts := [LBrace, StrT(name, false), Colon, HugeT, Comma, StrT("k", false), Colon, IntT(1), RBrace];
    assert ts == [LBrace] + us;
    assert us[3..] == [Comma] + ws;
    PickLast(ws);
    HugeThenPick(us, ts, "k", Int(1));
  }

  /** The sentinel is a double to the full parser and an object to the fast path. */
  lemma SentinelIsNotFolded(tag: string)
    requires tag in {"nan", "inf", "-inf"}
    ensures var ts := [LBrace, StrT("$f", false), Colon, StrT(tag, false), RBrace];
      Reference(ts, "$f") == None && JsonGet(ts, "$f") == Some(Str(tag))
  {
    var ts := [LBrace, StrT("$f", false), Colon, StrT(tag, false), RBrace];
    var us := ts[1..];
    assert us[2..][0] == StrT(tag, false) && us[2..][1..] == [RBrace];
    assert ParseValue(us[2..], DEPTH - 1) == Some((Str(tag), [RBrace]));
    assert PickMembers([RBrace], "$f", false, Some(Str(tag))) == Ok(Some(Str(tag)));
    assert ParseMembers([RBrace], DEPTH - 1, false) == Some(([], []));
    assert [Entry("$f", Str(tag))] + [] == [Entry("$f", Str(tag))];
    assert ParseMembers(us, DEPTH - 1, true) == Some(([Entry("$f", Str(tag))], []));
  }
}
