/** The gRPC listener's incoming stream (crates/imbh-server/src/grpc.rs): filtering peers, counting
    accept failures, backing off, and retiring. */
module Listener {
  import opened Basics

  /** `ACCEPT_FAILURES_BEFORE_RETIRING`. */
  const LIMIT: nat := 64

  /** A connection; its peer address may no longer be readable. */
  datatype Conn = Conn(id: nat, peer: Option<nat>)

  /** What the listener goes through. The first four are results of polling the inner stream;
      `Served` marks that the delay imposed by the last failure has run out. */
  datatype Event = Waiting | Closed | Failed | Arrived(conn: Conn) | Served

  /** What one inner poll returns next, and for a failure whether its delay is over at once. */
  datatype Offer = Idle | Gone | Broken(instant: bool) | Ready(conn: Conn)

  datatype Poll = Pending | Item(conn: Conn) | Done

  type Filter = Option<nat -> bool>

  predicate Allowed(allow: Filter, c: Conn) {
    match allow
    case None => true
    case Some(f) => c.peer.Some? && f(c.peer.value)
  }

  /** The stream, with everything that has happened to it and everything it has handed out. */
  datatype State = State(failures: nat, backoff: bool, ended: bool, log: seq<Event>, given: seq<Conn>)

  function Fresh(): State { State(0, false, false, [], []) }

  function Note(s: State, e: Event): State { s.(log := s.log + [e]) }

  /** The accept loop, over whatever the inner stream offers during this poll. */
  function AcceptLoop(allow: Filter, s: State, offers: seq<Offer>): (State, Poll)
    decreases |offers|
  {
    if offers == [] then (s, Pending)
    else match offers[0]
      case Idle => (Note(s, Waiting), Pending)
      case Gone => (Note(s, Closed).(ended := true), Done)
      case Broken(instant) =>
        var t := Note(s, Failed).(failures := s.failures + 1);
        if t.failures > LIMIT then (t.(ended := true), Done)
        else if !instant then (t.(backoff := true), Pending)
        else AcceptLoop(allow, Note(t, Served), offers[1..])
      case Ready(c) =>
        var t := Note(s, Arrived(c)).(failures := 0);
        if Allowed(allow, c) then (t.(given := t.given + [c]), Item(c))
        else AcceptLoop(allow, t, offers[1..])
  }

  /** `poll_next`: first serve out a pending delay. */
  function PollNext(allow: Filter, s: State, timerDone: bool, offers: seq<Offer>): (State, Poll) {
    if s.backoff && !timerDone then (s, Pending)
    else AcceptLoop(allow, if s.backoff then Note(s, Served).(backoff := false) else s, offers)
  }

  // ----- the mutable stream

  class Incoming {
    const allow: Filter
    var failures: nat
    var backoff: bool
    ghost var ended: bool
    ghost var log: seq<Event>
    ghost var given: seq<Conn>

    ghost function Now(): State
      reads this
    {
      State(failures, backoff, ended, log, given)
    }

    constructor (allow: Filter)
      ensures Now() == Fresh() && this.allow == allow
    {
      this.allow := allow;
      failures, backoff, ended, log, given := 0, false, false, [], [];
    }

    /** One poll. `timerDone` says whether a pending delay has run out. */
    method Next(timerDone: bool, offers: seq<Offer>) returns (r: Poll)
      modifies this
      ensures (Now(), r) == PollNext(allow, old(Now()), timerDone, offers)
    {
      if backoff && !timerDone {
        return Pending;
      }
      if backoff {
        log := log + [Served];
      }
      backoff := false;
      ghost var start := Now();
      for i := 0 to |offers|
        invariant !backoff
        invariant AcceptLoop(allow, start, offers) == AcceptLoop(allow, Now(), offers[i..])
      {
        assert offers[i..][0] == offers[i] && offers[i..][1..] == offers[i + 1..];
        match offers[i]
        case Broken(instant) =>
          failures := failures + 1;
          log := log + [Failed];
          if failures > LIMIT {
            ended := true;
            return Done;
          }
          if !instant {
            backoff := true;
            return Pending;
          }
          log := log + [Served];
        case Idle =>
          log := log + [Waiting];
          return Pending;
        case Gone =>
          log := log + [Closed];
          ended := true;
          return Done;
        case Ready(c) =>
          failures := 0;
          log := log + [Arrived(c)];
          if Allowed(allow, c) {
            given := given + [c];
            return Item(c);
          }
      }
      r := Pending;
    }
  }

  // ----- what holds after every run

  /** With an allow-list, a connection is welcome only if its peer can be read and is on it. */
  predicate Welcome(allow: Filter, c: Conn) {
    allow.Some? ==> c.peer.Some? && allow.value(c.peer.value)
  }

  /** The welcome connections that arrived, in arrival order. */
  function Admitted(allow: Filter, log: seq<Event>): seq<Conn> {
    if log == [] then []
    else
      var e := log[|log| - 1];
      Admitted(allow, log[..|log| - 1]) + if e.Arrived? && Welcome(allow, e.conn) then [e.conn] else []
  }

  /** The length of the unbroken run of accept errors the log ends with; only an arrival breaks it. */
  function ErrorRun(log: seq<Event>): nat {
    if log == [] then 0
    else match log[|log| - 1]
      case Failed => ErrorRun(log[..|log| - 1]) + 1
      case Arrived(_) => 0
      case _ => ErrorRun(log[..|log| - 1])
  }

  /** After a failure, nothing happens until its delay is served. */
  ghost predicate DelaysServed(log: seq<Event>) {
    forall i :: 0 <= i < |log| - 1 && log[i].Failed? ==> log[i + 1].Served?
  }

  predicate Open(s: State) { !s.backoff && !s.ended }

  /** A delay is served only right after the failure that imposed it. */
  ghost predicate ServedAfterFailure(log: seq<Event>) {
    forall i :: 0 <= i < |log| && log[i].Served? ==> i > 0 && log[i - 1].Failed?
  }

  ghost predicate Invariant(allow: Filter, s: State) {
    && s.given == Admitted(allow, s.log)
    && s.failures == ErrorRun(s.log)
    && DelaysServed(s.log) && ServedAfterFailure(s.log)
    && (!s.ended ==> s.failures <= LIMIT)
    && (s.backoff ==> !s.ended && s.log != [] && s.log[|s.log| - 1].Failed?)
    && (Open(s) ==> s.log == [] || !s.log[|s.log| - 1].Failed?)
    && (!s.ended ==> s.log == [] || !s.log[|s.log| - 1].Closed?)
    && (s.ended ==>
          && s.log != []
          && (s.log[|s.log| - 1].Closed? || (s.log[|s.log| - 1].Failed? && s.failures == LIMIT + 1)))
  }

  lemma {:induction false} LogSnoc(allow: Filter, log: seq<Event>, e: Event)
    ensures Admitted(allow, log + [e]) ==
      Admitted(allow, log) + if e.Arrived? && Welcome(allow, e.conn) then [e.conn] else []
    ensures ErrorRun(log + [e]) == if e.Failed? then ErrorRun(log) + 1 else if e.Arrived? then 0 else ErrorRun(log)
    ensures ServedAfterFailure(log) && (e.Served? ==> log != [] && log[|log| - 1].Failed?) ==>
      ServedAfterFailure(log + [e])
    ensures DelaysServed(log) && (log == [] || !log[|log| - 1].Failed? || e.Served?) ==> DelaysServed(log + [e])
  {
    assert (log + [e])[..|log|] == log;
  }

  /** A connection is taken in: any run of errors is over, and it is handed out if allowed. */
  lemma ArrivalKeeps(allow: Filter, s: State, c: Conn)
    requires Invariant(allow, s) && Open(s)
    ensures var t := Note(s, Arrived(c)).(failures := 0);
      Invariant(allow, if Allowed(allow, c) then t.(given := t.given + [c]) else t)
  {
    LogSnoc(allow, s.log, Arrived(c));
  }

  /** A failure either retires the stream or leaves a delay to serve. */
  lemma FailureKeeps(allow: Filter, s: State)
    requires Invariant(allow, s) && Open(s)
    ensures var t := Note(s, Failed).(failures := s.failures + 1);
      Invariant(allow, if t.failures > LIMIT then t.(ended := true) else t.(backoff := true))
  {
    LogSnoc(allow, s.log, Failed);
  }

  lemma DelayKeeps(allow: Filter, s: State)
    requires Invariant(allow, s) && s.backoff
    ensures Invariant(allow, Note(s, Served).(backoff := false))
  {
    LogSnoc(allow, s.log, Served);
  }

  lemma QuietKeeps(allow: Filter, s: State)
    requires Invariant(allow, s) && Open(s)
    ensures Invariant(allow, Note(s, Waiting))
    ensures Invariant(allow, Note(s, Closed).(ended := true))
  {
    LogSnoc(allow, s.log, Waiting);
    LogSnoc(allow, s.log, Closed);
  }

  lemma {:induction false} PassedOverKeeps(allow: Filter, s: State, o: Offer)
    requires Invariant(allow, s) && Open(s) && GoesOn(allow, s, o)
    ensures Invariant(allow, After(s, o)) && Open(After(s, o))
  {
    if o.Broken? {
      var t := Note(s, Failed).(failures := s.failures + 1);
      FailureKeeps(allow, s);
      DelayKeeps(allow, t.(backoff := true));
      assert Note(t.(backoff := true), Served).(backoff := false) == After(s, o);
    } else {
      ArrivalKeeps(allow, s, o.conn);
    }
  }

  lemma {:induction false} StopKeeps(allow: Filter, s: State, offers: seq<Offer>)
    requires Invariant(allow, s) && Open(s) && offers != [] && !GoesOn(allow, s, offers[0])
    ensures Invariant(allow, AcceptLoop(allow, s, offers).0)
  {
    match offers[0]
    case Broken(_) => FailureKeeps(allow, s);
    case Ready(c) => ArrivalKeeps(allow, s, c);
    case _ => QuietKeeps(allow, s);
  }

  lemma {:induction false} AcceptKeepsInvariant(allow: Filter, s: State, offers: seq<Offer>)
    requires Invariant(allow, s) && Open(s)
    ensures Invariant(allow, AcceptLoop(allow, s, offers).0)
    decreases |offers|
  {
    if offers != [] && GoesOn(allow, s, offers[0]) {
      LoopGoesOn(allow, s, offers);
      PassedOverKeeps(allow, s, offers[0]);
      AcceptKeepsInvariant(allow, After(s, offers[0]), offers[1..]);
    } else if offers != [] {
      StopKeeps(allow, s, offers);
    }
  }

  /** What a poll's answer says about the state it left. */
  ghost predicate Outcome(s: State, t: State, r: Poll) {
    match r
    case Item(c) => t.given == s.given + [c] && !t.ended && !t.backoff
    case Done => t.given == s.given && t.ended
    case Pending => t.given == s.given && !t.ended
  }

  lemma {:induction false} AcceptOutcome(allow: Filter, s: State, offers: seq<Offer>)
    requires Open(s)
    ensures var p := AcceptLoop(allow, s, offers); Outcome(s, p.0, p.1)
    decreases |offers|
  {
    if offers != [] {
      match offers[0]
      case Broken(instant) =>
        var t := Note(s, Failed).(failures := s.failures + 1);
        if t.failures <= LIMIT && instant {
          AcceptOutcome(allow, Note(t, Served), offers[1..]);
        }
      case Ready(c) =>
        if !Allowed(allow, c) {
          AcceptOutcome(allow, Note(s, Arrived(c)).(failures := 0), offers[1..]);
        }
      case _ =>
    }
  }

  /** One poll keeps the invariant. While a delay is pending it takes nothing from the inner stream. */
  lemma {:induction false} PollKeepsInvariant(allow: Filter, s: State, timerDone: bool, offers: seq<Offer>)
    requires Invariant(allow, s) && !s.ended
    ensures var (t, r) := PollNext(allow, s, timerDone, offers);
      && Invariant(allow, t) && Outcome(s, t, r)
      && (s.backoff && !timerDone ==> t == s && r == Pending)
  {
    if !s.backoff {
      AcceptKeepsInvariant(allow, s, offers);
      AcceptOutcome(allow, s, offers);
    } else if timerDone {
      DelayKeeps(allow, s);
      AcceptKeepsInvariant(allow, Note(s, Served).(backoff := false), offers);
      AcceptOutcome(allow, Note(s, Served).(backoff := false), offers);
    }
  }

  // ----- nothing offered is lost or invented

  function EventOf(o: Offer): Event {
    match o
    case Idle => Waiting
    case Gone => Closed
    case Broken(_) => Failed
    case Ready(c) => Arrived(c)
  }

  function Events(offers: seq<Offer>): seq<Event> {
    if offers == [] then [] else [EventOf(offers[0])] + Events(offers[1..])
  }

  /** The log without the delays: what the inner stream answered. */
  function Polled(log: seq<Event>): seq<Event> {
    if log == [] then []
    else
      var e := log[|log| - 1];
      Polled(log[..|log| - 1]) + if e.Served? then [] else [e]
  }

  /** An offer after which the loop goes round again. */
  predicate PassedOver(allow: Filter, o: Offer) {
    (o.Broken? && o.instant) || (o.Ready? && !Allowed(allow, o.conn))
  }

  /** A poll takes the first `k` offers, each into the log once; all but the last are passed over,
      and the last one taken decides the answer. */
  ghost predicate Takes(allow: Filter, s: State, t: State, r: Poll, offers: seq<Offer>, k: nat) {
    && k <= |offers|
    && Polled(t.log) == Polled(s.log) + Events(offers[..k])
    && (forall i :: 0 <= i < k - 1 ==> PassedOver(allow, offers[i]))
    && (if k > 0 && !PassedOver(allow, offers[k - 1]) then r == Answer(offers[k - 1], t)
        else if t.ended then r == Done && k > 0 && offers[k - 1].Broken?
        else r == Pending && k == |offers|)
  }

  function Answer(o: Offer, t: State): Poll {
    match o
    case Idle => Pending
    case Gone => Done
    case Broken(_) => if t.failures > LIMIT then Done else Pending
    case Ready(c) => Item(c)
  }

  lemma {:induction false} PolledSnoc(log: seq<Event>, e: Event)
    ensures Polled(log + [e]) == Polled(log) + if e.Served? then [] else [e]
  {
    assert (log + [e])[..|log|] == log;
  }

  /** Taking one passed-over offer and then `k` of the rest is taking `k + 1`. */
  lemma {:induction false} TakesOneMore(allow: Filter, s: State, u: State, t: State, r: Poll, offers: seq<Offer>,
      k: nat)
    requires offers != [] && PassedOver(allow, offers[0])
    requires Polled(u.log) == Polled(s.log) + [EventOf(offers[0])]
    requires Takes(allow, u, t, r, offers[1..], k)
    requires k == 0 ==> !t.ended
    ensures Takes(allow, s, t, r, offers, k + 1)
  {
    var rest := offers[1..];
    assert offers[..k + 1][0] == offers[0] && offers[..k + 1][1..] == rest[..k];
    ConcatAssociates(Polled(s.log), [EventOf(offers[0])], Events(rest[..k]));
    assert Polled(t.log) == Polled(s.log) + Events(offers[..k + 1]);
    forall i | 0 <= i < k ensures PassedOver(allow, offers[i]) {
      if i > 0 {
        assert offers[i] == rest[i - 1];
      }
    }
    if k > 0 {
      assert offers[k] == rest[k - 1];
    }
  }

  lemma {:induction false} TakesFirst(allow: Filter, s: State, t: State, r: Poll, offers: seq<Offer>)
    requires offers != [] && t.log == s.log + [EventOf(offers[0])]
    requires if PassedOver(allow, offers[0]) then t.ended && r == Done && offers[0].Broken?
      else r == Answer(offers[0], t)
    ensures Takes(allow, s, t, r, offers, 1)
  {
    PolledSnoc(s.log, EventOf(offers[0]));
    assert offers[..1] == [offers[0]];
    assert Events(offers[..1]) == [EventOf(offers[0])] + Events([]);
  }

  /** The loop goes round again after this offer, in this state. */
  predicate GoesOn(allow: Filter, s: State, o: Offer) {
    PassedOver(allow, o) && (o.Broken? ==> s.failures < LIMIT)
  }

  function After(s: State, o: Offer): State
    requires o.Broken? || o.Ready?
  {
    if o.Broken? then Note(Note(s, Failed).(failures := s.failures + 1), Served)
    else Note(s, Arrived(o.conn)).(failures := 0)
  }

  lemma {:induction false} LoopGoesOn(allow: Filter, s: State, offers: seq<Offer>)
    requires Open(s) && offers != [] && GoesOn(allow, s, offers[0])
    ensures AcceptLoop(allow, s, offers) == AcceptLoop(allow, After(s, offers[0]), offers[1..])
    ensures Polled(After(s, offers[0]).log) == Polled(s.log) + [EventOf(offers[0])]
  {
    PolledSnoc(s.log, EventOf(offers[0]));
    PolledSnoc(s.log + [Failed], Served);
  }

  lemma {:induction false} LoopStops(allow: Filter, s: State, offers: seq<Offer>)
    requires Open(s) && offers != [] && !GoesOn(allow, s, offers[0])
    ensures var p := AcceptLoop(allow, s, offers); Takes(allow, s, p.0, p.1, offers, 1)
  {
    var p := AcceptLoop(allow, s, offers);
    assert p.0.log == s.log + [EventOf(offers[0])];
    TakesFirst(allow, s, p.0, p.1, offers);
  }

  lemma {:induction false} LoopTakes(allow: Filter, s: State, offers: seq<Offer>) returns (k: nat)
    requires Open(s)
    ensures var p := AcceptLoop(allow, s, offers); Takes(allow, s, p.0, p.1, offers, k) && (k == 0 ==> !p.0.ended)
    decreases |offers|
  {
    if offers == [] {
      k := 0;
      assert Events([]) == [] && offers[..0] == [];
    } else if GoesOn(allow, s, offers[0]) {
      var p := AcceptLoop(allow, s, offers);
      LoopGoesOn(allow, s, offers);
      k := LoopTakes(allow, After(s, offers[0]), offers[1..]);
      TakesOneMore(allow, s, After(s, offers[0]), p.0, p.1, offers, k);
      k := k + 1;
    } else {
      LoopStops(allow, s, offers);
      k := 1;
    }
  }

  /** One poll, unless a delay is still pending, takes a prefix of what the inner stream offers, loses
      none of it, and answers by the first offer it does not pass over. */
  lemma {:induction false} PollTakesPrefix(allow: Filter, s: State, timerDone: bool, offers: seq<Offer>)
      returns (k: nat)
    requires !s.ended
    ensures var p := PollNext(allow, s, timerDone, offers);
      if s.backoff && !timerDone then p == (s, Pending) else Takes(allow, s, p.0, p.1, offers, k)
  {
    k := 0;
    if s.backoff && timerDone {
      var u := Note(s, Served).(backoff := false);
      PolledSnoc(s.log, Served);
      assert Polled(u.log) == Polled(s.log);
      k := LoopTakes(allow, u, offers);
      assert Takes(allow, s, AcceptLoop(allow, u, offers).0, AcceptLoop(allow, u, offers).1, offers, k);
    } else if !s.backoff {
      k := LoopTakes(allow, s, offers);
    }
  }

  // ----- whole runs

  /** One poll of a run: whether the delay is over, and what the inner stream offers. */
  datatype Turn = Turn(timerDone: bool, offers: seq<Offer>)

  /** Polling until the stream ends: the state and the connections handed out. */
  function Run(allow: Filter, turns: seq<Turn>): (State, seq<Conn>) {
    if turns == [] then (Fresh(), [])
    else
      var n := |turns| - 1;
      var (s, out) := Run(allow, turns[..n]);
      if s.ended then (s, out)
      else
        var (t, r) := PollNext(allow, s, turns[n].timerDone, turns[n].offers);
        (t, if r.Item? then out + [r.conn] else out)
  }

  /** Over every run of polls: the stream yields exactly the allowed connections in accept order;
      `failures` is the length of the current unbroken run of accept errors; every failure's delay
      is served before the next accept; and the stream ends exactly when the inner stream closes or
      the run of errors passes the limit. */
  lemma {:induction false} EveryRun(allow: Filter, turns: seq<Turn>)
    ensures var (s, out) := Run(allow, turns);
      && out == Admitted(allow, s.log) && s.failures == ErrorRun(s.log) && DelaysServed(s.log)
      && (s.ended <==> s.log != [] && (s.log[|s.log| - 1].Closed? || ErrorRun(s.log) > LIMIT))
      && Invariant(allow, s) && out == s.given
  {
    if turns != [] {
      var n := |turns| - 1;
      EveryRun(allow, turns[..n]);
      var (s, out) := Run(allow, turns[..n]);
      if !s.ended {
        PollKeepsInvariant(allow, s, turns[n].timerDone, turns[n].offers);
      }
    }
  }

  // ----- the delays

  function Pow2(n: nat): nat { if n == 0 then 1 else 2 * Pow2(n - 1) }

  /** `accept_backoff`, in milliseconds. */
  function Backoff(failures: nat): nat {
    var shift := Min(if failures == 0 then 0 else failures - 1, 31);
    Min(5 * Pow2(shift), 1000)
  }

  lemma {:induction false} Pow2Grows(m: nat, n: nat)
    requires m <= n
    ensures 1 <= Pow2(m) <= Pow2(n)
    decreases n
  {
    if m < n {
      Pow2Grows(m, n - 1);
    } else if m > 0 {
      Pow2Grows(m - 1, m - 1);
    }
  }

  /** Delays start at 5 ms, never shrink as failures go on, and never pass a second. */
  lemma BackoffBounds(m: nat, n: nat)
    requires m <= n
    ensures 5 <= Backoff(m) <= Backoff(n) <= 1000
  {
    var i, j := Min(if m == 0 then 0 else m - 1, 31), Min(if n == 0 then 0 else n - 1, 31);
    Pow2Grows(i, j);
    Pow2Grows(0, i);
  }

  /** The delays served over the first `n` failures of a run. */
  function TotalBackoff(n: nat): nat { if n == 0 then 0 else TotalBackoff(n - 1) + Backoff(n) }

  lemma SmallPowers()
    ensures Pow2(1) == 2 && Pow2(2) == 4 && Pow2(3) == 8 && Pow2(4) == 16
    ensures Pow2(5) == 32 && Pow2(6) == 64 && Pow2(7) == 128 && Pow2(8) == 256
  {
    assert Pow2(3) == 2 * Pow2(2);
    assert Pow2(5) == 2 * Pow2(4);
    assert Pow2(7) == 2 * Pow2(6);
  }

  lemma {:induction false} TotalBackoffIs(n: nat)
    requires n >= 8
    ensures TotalBackoff(n) == 1275 + 1000 * (n - 8)
  {
    SmallPowers();
    if n == 8 {
      assert TotalBackoff(2) == 15;
      assert TotalBackoff(4) == 75;
      assert TotalBackoff(6) == 315;
      assert TotalBackoff(8) == 1275;
    } else {
      TotalBackoffIs(n - 1);
      Pow2Grows(8, Min(n - 1, 31));
    }
  }

  // ----- the delay before retiring

  /** The delays served since the last arrival: each is the one imposed by the failure before it. */
  function DelayServed(log: seq<Event>): nat {
    if log == [] then 0
    else
      var before := log[..|log| - 1];
      match log[|log| - 1]
      case Arrived(_) => 0
      case Served => DelayServed(before) + Backoff(ErrorRun(before))
      case _ => DelayServed(before)
  }

  /** The failures of the current run whose delay is over. */
  function FailuresServed(log: seq<Event>): int {
    if log != [] && log[|log| - 1].Failed? then ErrorRun(log) - 1 else ErrorRun(log)
  }

  lemma {:induction false} PrefixIsServed(log: seq<Event>)
    requires log != [] && DelaysServed(log) && ServedAfterFailure(log)
    ensures DelaysServed(log[..|log| - 1]) && ServedAfterFailure(log[..|log| - 1])
  {
    var before := log[..|log| - 1];
    assert forall i :: 0 <= i < |before| ==> before[i] == log[i];
  }

  lemma {:induction false} DelayIsTotal(log: seq<Event>)
    requires DelaysServed(log) && ServedAfterFailure(log)
    ensures FailuresServed(log) >= 0 && DelayServed(log) == TotalBackoff(FailuresServed(log))
  {
    if log != [] {
      var n := |log| - 1;
      PrefixIsServed(log);
      DelayIsTotal(log[..n]);
      if n > 0 && log[n - 1].Failed? {
        assert log[n].Served?;
        assert log[..n][n - 1].Failed?;
      }
    }
  }

  /** Over every run of polls: a stream that retires itself has served exactly 57.275 seconds of delay
      since its last arrival, which is less than the "over a minute" its documentation gives. */
  lemma {:induction false} RetiresAfter(allow: Filter, turns: seq<Turn>)
    ensures var s := Run(allow, turns).0;
      s.ended && s.log != [] && s.log[|s.log| - 1].Failed? ==> DelayServed(s.log) == 57_275 < 60_000
  {
    EveryRun(allow, turns);
    var s := Run(allow, turns).0;
    DelayIsTotal(s.log);
    TotalBackoffIs(LIMIT);
  }

  /** `n` polls that each find one failure whose delay is over at once. */
  function Failing(n: nat): seq<Turn> { seq(n, _ => Turn(true, [Broken(true)])) }

  lemma {:induction false} FailingRun(allow: Filter, n: nat)
    requires n <= LIMIT
    ensures var s := Run(allow, Failing(n)).0; s.failures == n && !s.ended && !s.backoff
    decreases n
  {
    if n > 0 {
      var turns := Failing(n);
      assert turns[..n - 1] == Failing(n - 1);
      FailingRun(allow, n - 1);
      OneFailure(allow, Run(allow, Failing(n - 1)).0);
    }
  }

  lemma {:induction false} OneFailure(allow: Filter, s: State)
    requires !s.ended && !s.backoff
    ensures var t := PollNext(allow, s, true, [Broken(true)]).0;
      && t.failures == s.failures + 1 && !t.backoff && (t.ended <==> t.failures > LIMIT)
      && (t.ended ==> t.log != [] && t.log[|t.log| - 1].Failed?)
  {
    assert [Broken(true)][1..] == [];
  }

  /** A run that retires: one failure more than the limit, with nothing in between. */
  lemma {:induction false} FailingRunRetires(allow: Filter)
    ensures var s := Run(allow, Failing(LIMIT + 1)).0; s.ended && s.log != [] && s.log[|s.log| - 1].Failed?
  {
    var turns := Failing(LIMIT + 1);
    assert turns[..LIMIT] == Failing(LIMIT);
    FailingRun(allow, LIMIT);
    OneFailure(allow, Run(allow, Failing(LIMIT)).0);
  }
}
