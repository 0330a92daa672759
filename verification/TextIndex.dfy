/** Full-text search: the tokenizer and row-wise match (crates/imbh-core/src/text.rs) and the inverted
    index over stored row ordinals (crates/imbh-index/src/lib.rs).

    Tantivy is reduced to what the index relies on: sub-segments, postings, and boolean queries of
    Must and MustNot clauses. Which character is alphanumeric and how it folds to lower case are
    parameters. */
module TextIndex {
  import opened Basics
  import opened Sorting

  datatype Alphabet = Alphabet(alphanumeric: char -> bool, lower: char -> string)

  // ----- tokens

  function Flushed(out: seq<string>, cur: string): seq<string> {
    if cur == [] then out else out + [cur]
  }

  /** What is finished and what is being spelled after some text. */
  function Spell(a: Alphabet, text: string): (seq<string>, string) {
    if text == [] then ([], [])
    else
      var n := |text| - 1;
      var (out, cur) := Spell(a, text[..n]);
      if a.alphanumeric(text[n]) then (out, cur + a.lower(text[n])) else (Flushed(out, cur), [])
  }

  function Tokenize(a: Alphabet, text: string): seq<string> {
    var (out, cur) := Spell(a, text);
    Flushed(out, cur)
  }

  /** A separator ends a word for good: the tokens of the two sides just follow each other. */
  lemma {:induction false} SpellAcross(a: Alphabet, left: string, c: char, right: string)
    requires !a.alphanumeric(c)
    ensures var (out, cur) := Spell(a, right);
      Spell(a, left + [c] + right) == (Tokenize(a, left) + out, cur)
  {
    var text := left + [c] + right;
    if right == [] {
      assert text == left + [c];
      assert text[..|left|] == left;
      assert Tokenize(a, left) + [] == Tokenize(a, left);
    } else {
      var n := |right| - 1;
      SpellAcross(a, left, c, right[..n]);
      assert text[..|text| - 1] == left + [c] + right[..n];
      var (out, cur) := Spell(a, right[..n]);
      if cur != [] {
        ConcatAssociates(Tokenize(a, left), out, [cur]);
      }
    }
  }

  lemma TokenizeAcross(a: Alphabet, left: string, c: char, right: string)
    requires !a.alphanumeric(c)
    ensures Tokenize(a, left + [c] + right) == Tokenize(a, left) + Tokenize(a, right)
  {
    SpellAcross(a, left, c, right);
    var (out, cur) := Spell(a, right);
    if cur != [] {
      ConcatAssociates(Tokenize(a, left), out, [cur]);
    }
  }

  // ----- words

  /** The lower-case forms of the characters, one after the other. */
  function Lowered(a: Alphabet, w: string): string {
    if w == [] then [] else a.lower(w[0]) + Lowered(a, w[1..])
  }

  lemma {:induction false} LoweredSnoc(a: Alphabet, w: string, c: char)
    ensures Lowered(a, w + [c]) == Lowered(a, w) + a.lower(c)
    decreases |w|
  {
    if w == [] {
      assert [] + [c] == [c] && [c][1..] == [];
      assert a.lower(c) + [] == a.lower(c);
    } else {
      assert (w + [c])[1..] == w[1..] + [c];
      LoweredSnoc(a, w[1..], c);
      ConcatAssociates(a.lower(w[0]), Lowered(a, w[1..]), a.lower(c));
    }
  }

  lemma {:induction false} SpellOfWord(a: Alphabet, w: string)
    requires forall i :: 0 <= i < |w| ==> a.alphanumeric(w[i])
    ensures Spell(a, w) == ([], Lowered(a, w))
    decreases |w|
  {
    if w != [] {
      var n := |w| - 1;
      SpellOfWord(a, w[..n]);
      LoweredSnoc(a, w[..n], w[n]);
      assert w == w[..n] + [w[n]];
    }
  }

  lemma {:induction false} LoweredAt(a: Alphabet, w: string)
    requires forall i :: 0 <= i < |w| ==> |a.lower(w[i])| == 1
    ensures |Lowered(a, w)| == |w| && forall i :: 0 <= i < |w| ==> Lowered(a, w)[i] == a.lower(w[i])[0]
    decreases |w|
  {
    if w != [] {
      LoweredAt(a, w[1..]);
    }
  }

  /** A word of alphanumeric characters that each lower-case to one is one token, lower-cased in place. */
  lemma {:induction false} WordIsOneToken(a: Alphabet, w: string)
    requires w != [] && forall i :: 0 <= i < |w| ==> a.alphanumeric(w[i]) && |a.lower(w[i])| == 1
    ensures var ts := Tokenize(a, w);
      |ts| == 1 && |ts[0]| == |w| && forall i :: 0 <= i < |w| ==> ts[0][i] == a.lower(w[i])[0]
  {
    SpellOfWord(a, w);
    LoweredAt(a, w);
  }

  lemma {:induction false} SeparatorsHaveNoToken(a: Alphabet, s: string)
    requires forall i :: 0 <= i < |s| ==> !a.alphanumeric(s[i])
    ensures Tokenize(a, s) == [] && Spell(a, s) == ([], [])
    decreases |s|
  {
    if s != [] {
      SeparatorsHaveNoToken(a, s[..|s| - 1]);
    }
  }

  /** Where the first separator stands. */
  function FirstSeparator(a: Alphabet, text: string): (i: nat)
    ensures i <= |text| && (i < |text| ==> !a.alphanumeric(text[i]))
    ensures forall k :: 0 <= k < i ==> a.alphanumeric(text[k])
  {
    if text == [] || !a.alphanumeric(text[0]) then 0 else 1 + FirstSeparator(a, text[1..])
  }

  /** The text cut at every separator. */
  function Pieces(a: Alphabet, text: string): seq<string>
    decreases |text|
  {
    var i := FirstSeparator(a, text);
    if i == |text| then [text] else [text[..i]] + Pieces(a, text[i + 1..])
  }

  /** The pieces in lower case, without the empty ones. */
  function Words(a: Alphabet, pieces: seq<string>): seq<string> {
    if pieces == [] then []
    else
      var w := Lowered(a, pieces[0]);
      (if w == [] then [] else [w]) + Words(a, pieces[1..])
  }

  lemma {:induction false} WordsCons(a: Alphabet, piece: string, pieces: seq<string>)
    ensures Words(a, [piece] + pieces) == Words(a, [piece]) + Words(a, pieces)
  {
    assert ([piece] + pieces)[1..] == pieces && [piece][1..] == [];
  }

  lemma {:induction false} TokensOfWord(a: Alphabet, w: string)
    requires forall i :: 0 <= i < |w| ==> a.alphanumeric(w[i])
    ensures Tokenize(a, w) == Words(a, [w])
  {
    SpellOfWord(a, w);
    assert [w][1..] == [];
  }

  /** The tokens of every text: cut at the separators, lower-cased, the empty ones dropped. */
  lemma {:induction false} TokensAreWords(a: Alphabet, text: string)
    ensures Tokenize(a, text) == Words(a, Pieces(a, text))
    decreases |text|
  {
    var i := FirstSeparator(a, text);
    var left := text[..i];
    TokensOfWord(a, left);
    if i == |text| {
      assert left == text;
    } else {
      var right := text[i + 1..];
      assert text == left + [text[i]] + right;
      TokenizeAcross(a, left, text[i], right);
      TokensAreWords(a, right);
      WordsCons(a, left, Pieces(a, right));
    }
  }

  method TokenizeText(a: Alphabet, text: string) returns (tokens: seq<string>)
    ensures tokens == Tokenize(a, text)
  {
    tokens := [];
    var cur := "";
    for i := 0 to |text|
      invariant (tokens, cur) == Spell(a, text[..i])
    {
      assert text[..i + 1][..i] == text[..i];
      if a.alphanumeric(text[i]) {
        cur := cur + a.lower(text[i]);
      } else if cur != [] {
        tokens := tokens + [cur];
        cur := [];
      }
    }
    assert text[..|text|] == text;
    if cur != [] {
      tokens := tokens + [cur];
    }
  }

  /** `matches_terms`: every token of the query is a token of the text. */
  predicate MatchesTerms(a: Alphabet, haystack: string, query: string) {
    var terms := Tokenize(a, query);
    terms == [] || forall t :: t in terms ==> t in Tokenize(a, haystack)
  }

  /** The row-wise meaning of a boolean body search. */
  predicate Wanted(a: Alphabet, body: string, must: seq<string>, mustNot: seq<string>) {
    && (forall t :: t in must ==> t in Tokenize(a, body))
    && (forall t :: t in mustNot ==> t !in Tokenize(a, body))
  }

  /** The plain scan: the ordinals below `n` of the rows that pass, in order. */
  function Scan(p: string -> bool, bodies: seq<string>, n: nat): seq<nat>
    requires n <= |bodies|
  {
    if n == 0 then [] else Scan(p, bodies, n - 1) + if p(bodies[n - 1]) then [n - 1] else []
  }

  // ----- the index

  datatype SubSegment = SubSegment(postings: map<string, set<nat>>, rows: seq<nat>)

  function PostedIn(postings: map<string, set<nat>>, t: string): set<nat> {
    if t in postings then postings[t] else {}
  }

  function Posted(s: SubSegment, t: string): set<nat> {
    PostedIn(s.postings, t)
  }

  /** The postings of a sub-segment are those of the bodies its rows point to. */
  ghost predicate Faithful(s: SubSegment, a: Alphabet, bodies: seq<string>) {
    && (forall d :: 0 <= d < |s.rows| ==> s.rows[d] < |bodies|)
    && (forall t: string, d :: 0 <= d < |s.rows| ==> (d in Posted(s, t) <==> t in Tokenize(a, bodies[s.rows[d]])))
    && (forall t: string, d :: d in Posted(s, t) ==> d < |s.rows|)
  }

  function RowsOf(index: seq<SubSegment>): seq<nat> {
    if index == [] then [] else RowsOf(index[..|index| - 1]) + index[|index| - 1].rows
  }

  function Count(n: nat): seq<nat> {
    seq(n, i => i)
  }

  /** The index of a segment: faithful sub-segments that hold every row once, in order. */
  ghost predicate Indexes(index: seq<SubSegment>, a: Alphabet, bodies: seq<string>) {
    && (forall i :: 0 <= i < |index| ==> Faithful(index[i], a, bodies))
    && RowsOf(index) == Count(|bodies|)
  }

  /** Add one document: it is posted under each of its tokens. */
  method AddDocument(s: SubSegment, tokens: seq<string>, row: nat, ghost a: Alphabet, ghost bodies: seq<string>)
      returns (s': SubSegment)
    requires Faithful(s, a, bodies) && row < |bodies| && tokens == Tokenize(a, bodies[row])
    ensures Faithful(s', a, bodies) && s'.rows == s.rows + [row]
  {
    var doc := |s.rows|;
    var postings: map<string, set<nat>> := s.postings;
    for k := 0 to |tokens|
      invariant forall t: string :: PostedIn(postings, t) == Posted(s, t) + if t in tokens[..k] then {doc} else {}
    {
      var t := tokens[k];
      postings := postings[t := PostedIn(postings, t) + {doc}];
      assert tokens[..k + 1] == tokens[..k] + [t];
    }
    assert tokens[..|tokens|] == tokens;
    s' := SubSegment(postings, s.rows + [row]);
    AddedIsFaithful(s, s', tokens, row, a, bodies);
  }

  lemma AddedIsFaithful(s: SubSegment, s': SubSegment, tokens: seq<string>, row: nat, a: Alphabet, bodies: seq<string>)
    requires Faithful(s, a, bodies) && row < |bodies| && tokens == Tokenize(a, bodies[row]) && s'.rows == s.rows + [row]
    requires forall t: string :: Posted(s', t) == Posted(s, t) + if t in tokens then {|s.rows|} else {}
    ensures Faithful(s', a, bodies)
  {
    forall t: string, d | 0 <= d < |s'.rows|
      ensures d in Posted(s', t) <==> t in Tokenize(a, bodies[s'.rows[d]])
    {
      if d < |s.rows| {
        assert s'.rows[d] == s.rows[d];
      }
    }
  }

  lemma {:induction false} RowsOfFlushed(index: seq<SubSegment>, open: SubSegment)
    ensures RowsOf(index + [open]) == RowsOf(index) + open.rows
    ensures RowsOf(index + [open]) + [] == RowsOf(index) + open.rows
  {
    assert (index + [open])[..|index|] == index;
  }

  /** `build_text_index`: documents in row order, flushed to a sub-segment wherever the writer likes. */
  method BuildIndex(a: Alphabet, bodies: seq<string>, flushAfter: nat -> bool) returns (index: seq<SubSegment>)
    ensures Indexes(index, a, bodies)
  {
    index := [];
    var open := SubSegment(map[], []);
    for i := 0 to |bodies|
      invariant forall k :: 0 <= k < |index| ==> Faithful(index[k], a, bodies)
      invariant Faithful(open, a, bodies)
      invariant RowsOf(index) + open.rows == Count(i)
    {
      var tokens := TokenizeText(a, bodies[i]);
      ConcatAssociates(RowsOf(index), open.rows, [i]);
      assert Count(i + 1) == Count(i) + [i];
      open := AddDocument(open, tokens, i, a, bodies);
      if flushAfter(i) {
        RowsOfFlushed(index, open);
        index := index + [open];
        open := SubSegment(map[], []);
      }
    }
    RowsOfFlushed(index, open);
    index := index + [open];
  }

  // ----- searching

  datatype Occur = Must | MustNot

  datatype Query = All | Term(text: string)

  datatype Clause = Clause(occur: Occur, query: Query)

  predicate Hit(s: SubSegment, d: nat, q: Query) {
    q.All? || d in Posted(s, q.text)
  }

  /** A boolean query: every Must, no MustNot, and nothing at all without a Must. */
  predicate Satisfies(s: SubSegment, d: nat, clauses: seq<Clause>) {
    && (exists i :: 0 <= i < |clauses| && clauses[i].occur.Must?)
    && forall i :: 0 <= i < |clauses| ==> (clauses[i].occur.Must? <==> Hit(s, d, clauses[i].query))
  }

  datatype Address = Address(segment: nat, doc: nat)

  function Hits(index: seq<SubSegment>, clauses: seq<Clause>): set<Address> {
    set i, d | 0 <= i < |index| && 0 <= d < |index[i].rows| && Satisfies(index[i], d, clauses) :: Address(i, d)
  }

  function Clauses(must: seq<string>, mustNot: seq<string>): seq<Clause> {
    (if must == [] then [Clause(Must, All)] else [])
      + seq(|must|, i requires 0 <= i < |must| => Clause(Must, Term(must[i])))
      + seq(|mustNot|, i requires 0 <= i < |mustNot| => Clause(MustNot, Term(mustNot[i])))
  }

  predicate AtMost(a: nat, b: nat) { a <= b }

  /** `dedup` on a sorted list. */
  function Dedup(xs: seq<nat>): seq<nat> {
    if |xs| < 2 then xs
    else if xs[0] == xs[1] then Dedup(xs[1..])
    else [xs[0]] + Dedup(xs[1..])
  }

  ghost predicate StrictlyAscending(xs: seq<nat>) {
    forall i, j :: 0 <= i < j < |xs| ==> xs[i] < xs[j]
  }

  lemma {:induction false} DedupAscends(xs: seq<nat>)
    requires Sorted(AtMost, xs)
    ensures StrictlyAscending(Dedup(xs)) && (forall x :: x in Dedup(xs) <==> x in xs)
    ensures xs != [] ==> Dedup(xs) != [] && Dedup(xs)[0] == xs[0]
  {
    if |xs| >= 2 {
      DedupAscends(xs[1..]);
      assert xs == [xs[0]] + xs[1..];
      assert AtMost(xs[0], xs[1]);
    }
  }

  predicate Less(a: nat, b: nat) { a < b }

  /** `collect_hit_rows`: read the row of every hit, in whatever order they come, sort and deduplicate. */
  method CollectHitRows(index: seq<SubSegment>, clauses: seq<Clause>) returns (rows: seq<nat>)
    ensures StrictlyAscending(rows)
    ensures forall r :: r in rows <==> exists h :: h in Hits(index, clauses) && index[h.segment].rows[h.doc] == r
  {
    var hits := Hits(index, clauses);
    var found: seq<nat>, todo := [], hits;
    while todo != {}
      invariant todo <= hits
      invariant forall r :: r in found <==> exists h :: h in hits - todo && index[h.segment].rows[h.doc] == r
      decreases |todo|
    {
      var h :| h in todo;
      found := found + [index[h.segment].rows[h.doc]];
      todo := todo - {h};
    }
    var sorted := Sort(AtMost, found);
    SortSorted(AtMost, found);
    SortKeepsElements(AtMost, found);
    DedupAscends(sorted);
    assert forall r :: r in sorted <==> r in multiset(sorted);
    assert forall r :: r in found <==> r in multiset(found);
    rows := Dedup(sorted);
  }

  // ----- the index against the scan

  lemma {:induction false} ScanAscends(p: string -> bool, bodies: seq<string>, n: nat)
    requires n <= |bodies|
    ensures StrictlyAscending(Scan(p, bodies, n))
    ensures forall r :: r in Scan(p, bodies, n) <==> 0 <= r < n && p(bodies[r])
  {
    if n > 0 {
      ScanAscends(p, bodies, n - 1);
      var before := Scan(p, bodies, n - 1);
      assert forall i :: 0 <= i < |before| ==> before[i] in before;
    }
  }

  lemma {:induction false} RowHasDocument(index: seq<SubSegment>, r: nat)
    requires r in RowsOf(index)
    ensures exists i, d :: 0 <= i < |index| && 0 <= d < |index[i].rows| && index[i].rows[d] == r
  {
    var n := |index| - 1;
    if r in index[n].rows {
      var d :| 0 <= d < |index[n].rows| && index[n].rows[d] == r;
    } else {
      RowHasDocument(index[..n], r);
      var i, d :| 0 <= i < n && 0 <= d < |index[..n][i].rows| && index[..n][i].rows[d] == r;
      assert index[i].rows[d] == r;
    }
  }

  lemma ClausesMean(a: Alphabet, s: SubSegment, d: nat, bodies: seq<string>, must: seq<string>, mustNot: seq<string>)
    requires Faithful(s, a, bodies) && d < |s.rows|
    ensures Satisfies(s, d, Clauses(must, mustNot)) <==> Wanted(a, bodies[s.rows[d]], must, mustNot)
  {
    var cs := Clauses(must, mustNot);
    var k := if must == [] then 1 else 0;
    var body := bodies[s.rows[d]];
    assert cs[0].occur.Must?;
    assert must == [] ==> cs[0] == Clause(Must, All);
    assert forall i :: 0 <= i < |must| ==> cs[k + i] == Clause(Must, Term(must[i]));
    assert forall i :: 0 <= i < |mustNot| ==> cs[k + |must| + i] == Clause(MustNot, Term(mustNot[i]));
    if Wanted(a, body, must, mustNot) {
      forall i | 0 <= i < |cs|
        ensures cs[i].occur.Must? <==> Hit(s, d, cs[i].query)
      {
        if k <= i < k + |must| {
          assert cs[i] == Clause(Must, Term(must[i - k])) && must[i - k] in must;
        } else if i >= k + |must| {
          assert cs[i] == Clause(MustNot, Term(mustNot[i - k - |must|])) && mustNot[i - k - |must|] in mustNot;
        }
      }
    }
    if Satisfies(s, d, cs) {
      forall t | t in must
        ensures t in Tokenize(a, body)
      {
        var i :| 0 <= i < |must| && must[i] == t;
        assert Hit(s, d, cs[k + i].query);
      }
      forall t | t in mustNot
        ensures t !in Tokenize(a, body)
      {
        var i :| 0 <= i < |mustNot| && mustNot[i] == t;
        assert !Hit(s, d, cs[k + |must| + i].query);
      }
    }
  }

  lemma HitRows(a: Alphabet, index: seq<SubSegment>, bodies: seq<string>, must: seq<string>, mustNot: seq<string>,
      r: nat)
    requires Indexes(index, a, bodies)
    ensures (exists h :: h in Hits(index, Clauses(must, mustNot)) && index[h.segment].rows[h.doc] == r)
      <==> r < |bodies| && Wanted(a, bodies[r], must, mustNot)
  {
    var cs := Clauses(must, mustNot);
    if h :| h in Hits(index, cs) && index[h.segment].rows[h.doc] == r {
      ClausesMean(a, index[h.segment], h.doc, bodies, must, mustNot);
    }
    if r < |bodies| && Wanted(a, bodies[r], must, mustNot) {
      assert Count(|bodies|)[r] == r;
      RowHasDocument(index, r);
      var i, d :| 0 <= i < |index| && 0 <= d < |index[i].rows| && index[i].rows[d] == r;
      ClausesMean(a, index[i], d, bodies, must, mustNot);
      assert Address(i, d) in Hits(index, cs);
    }
  }

  lemma {:induction false} ScanOfAll(p: string -> bool, bodies: seq<string>, n: nat)
    requires n <= |bodies| && forall b :: b in bodies ==> p(b)
    ensures Scan(p, bodies, n) == Count(n)
  {
    if n > 0 {
      ScanOfAll(p, bodies, n - 1);
      assert bodies[n - 1] in bodies;
      assert Count(n) == Count(n - 1) + [n - 1];
    }
  }

  /** `search_body_bool`: whatever the sub-segments and the hit order, the index answers exactly what
      scanning the rows answers. */
  method SearchBodyBool(a: Alphabet, index: seq<SubSegment>, must: seq<string>, mustNot: seq<string>,
      ghost bodies: seq<string>)
    returns (rows: seq<nat>)
    requires Indexes(index, a, bodies)
    ensures rows == Scan((b: string) => Wanted(a, b, must, mustNot), bodies, |bodies|)
  {
    ghost var p := (b: string) => Wanted(a, b, must, mustNot);
    if must == [] && mustNot == [] {
      rows := Count(|RowsOf(index)|);
      ScanOfAll(p, bodies, |bodies|);
    } else {
      rows := CollectHitRows(index, Clauses(must, mustNot));
      ScanAscends(p, bodies, |bodies|);
      forall r: nat
        ensures r in rows <==> r in Scan(p, bodies, |bodies|)
      {
        HitRows(a, index, bodies, must, mustNot, r);
      }
      StrictIsUnique(Less, rows, Scan(p, bodies, |bodies|));
    }
  }

  lemma {:induction false} SameScan(p: string -> bool, q: string -> bool, bodies: seq<string>, n: nat)
    requires n <= |bodies| && forall b :: b in bodies ==> p(b) == q(b)
    ensures Scan(p, bodies, n) == Scan(q, bodies, n)
  {
    if n > 0 {
      SameScan(p, q, bodies, n - 1);
      assert bodies[n - 1] in bodies;
    }
  }

  /** Searching the index for a query's tokens is filtering the rows with `matches`. */
  method SearchQuery(a: Alphabet, index: seq<SubSegment>, query: string, ghost bodies: seq<string>)
      returns (rows: seq<nat>)
    requires Indexes(index, a, bodies)
    ensures rows == Scan((b: string) => MatchesTerms(a, b, query), bodies, |bodies|)
  {
    var terms := TokenizeText(a, query);
    rows := SearchBodyBool(a, index, terms, [], bodies);
    SameScan((b: string) => Wanted(a, b, terms, []), (b: string) => MatchesTerms(a, b, query), bodies, |bodies|);
  }
}
