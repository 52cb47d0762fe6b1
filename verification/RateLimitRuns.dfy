/** Whole runs of the limiter: every interleaving of requests, reservations, completions and
    idle evictions, compared with a limiter that forgets nothing. */
module RateLimitRuns {
  import opened RateLimitQueue
  import opened RateLimitState

  datatype Event =
    | Request(key: string, maxRequests: int, at: int)
    | Reserve(key: string, maxRequests: int, at: int)
    | Complete(id: nat, success: bool, at: int)
    | Evict(at: int)

  /** A reservation handed to a caller; `done` is its `sync.Once`. */
  datatype Token = Token(key: string, done: bool)

  /** Everything that was ever accepted, and every reservation ever handed out. */
  datatype History = History(accepted: map<string, seq<int>>, tokens: seq<Token>)

  function AcceptedFor(h: History, key: string): seq<int> {
    if key in h.accepted then h.accepted[key] else []
  }

  function InFlight(tokens: seq<Token>, key: string): nat {
    if tokens == [] then 0
    else (if tokens[0].key == key && !tokens[0].done then 1 else 0) + InFlight(tokens[1..], key)
  }

  predicate Live(h: History, id: nat) {
    id < |h.tokens| && !h.tokens[id].done
  }

  function Accept(h: History, key: string, stamp: int): History {
    h.(accepted := h.accepted[key := AcceptedFor(h, key) + [stamp]])
  }

  /** How an event and its answer extend the history. */
  function Record(h: History, e: Event, answer: bool): History {
    match e
    case Request(key, _, at) => if answer then Accept(h, key, Unix(at)) else h
    case Reserve(key, _, _) => if answer then h.(tokens := h.tokens + [Token(key, false)]) else h
    case Complete(id, success, at) =>
      if !Live(h, id) then h
      else
        var h' := h.(tokens := h.tokens[id := Token(h.tokens[id].key, true)]);
        if success then Accept(h', h.tokens[id].key, Unix(at)) else h'
    case Evict(_) => h
  }

  /** The reference limiter: no queue, no LRU, no eviction, only a count over the history. */
  function Expected(h: History, e: Event, durations: string -> int): bool {
    match e
    case Request(key, maxRequests, at) =>
      |Unexpired(AcceptedFor(h, key), Unix(at), durations(key))| < maxRequests
    case Reserve(key, maxRequests, at) =>
      |Unexpired(AcceptedFor(h, key), Unix(at), durations(key))| + InFlight(h.tokens, key) < maxRequests
    case Complete(id, _, _) => Live(h, id)
    case Evict(_) => true
  }

  /** The limiter itself, with the same observable answers. */
  function Run1(st: State, h: History, e: Event, durations: string -> int, expiration: int): (State, bool) {
    match e
    case Request(key, maxRequests, at) => RateLimitState.Request(st, key, maxRequests, durations(key), at)
    case Reserve(key, maxRequests, at) => RateLimitState.Reserve(st, key, maxRequests, durations(key), at)
    case Complete(id, success, at) =>
      if Live(h, id) then (RateLimitState.Complete(st, h.tokens[id].key, success, at), true) else (st, false)
    case Evict(at) => (RateLimitState.Evict(st, at, expiration), true)
  }

  datatype Sys = Sys(st: State, history: History)

  const EMPTY_HISTORY := History(map[], [])
  const START := Sys(State([], map[]), EMPTY_HISTORY)

  function Next(s: Sys, e: Event, durations: string -> int, expiration: int): Sys {
    var (st, answer) := Run1(s.st, s.history, e, durations, expiration);
    Sys(st, Record(s.history, e, answer))
  }

  function Answers(s: Sys, es: seq<Event>, durations: string -> int, expiration: int): seq<bool>
    decreases |es|
  {
    if es == [] then []
    else [Run1(s.st, s.history, es[0], durations, expiration).1]
         + Answers(Next(s, es[0], durations, expiration), es[1..], durations, expiration)
  }

  function After(s: Sys, es: seq<Event>, durations: string -> int, expiration: int): Sys
    decreases |es|
  {
    if es == [] then s else After(Next(s, es[0], durations, expiration), es[1..], durations, expiration)
  }

  function ExpectedAnswers(h: History, es: seq<Event>, durations: string -> int): seq<bool>
    decreases |es|
  {
    if es == [] then []
    else
      var answer := Expected(h, es[0], durations);
      [answer] + ExpectedAnswers(Record(h, es[0], answer), es[1..], durations)
  }

  /** The history the reference would have written. */
  function HistoryAfter(h: History, es: seq<Event>, durations: string -> int): History
    decreases |es|
  {
    if es == [] then h else HistoryAfter(Record(h, es[0], Expected(h, es[0], durations)), es[1..], durations)
  }

  /** The latest instant anything was done at. */
  function Tick(clock: int, e: Event): int {
    if e.Evict? then Later(clock, e.at) else e.at
  }

  function EndOf(es: seq<Event>, clock: int): int
    decreases |es|
  {
    if es == [] then clock else EndOf(es[1..], Tick(clock, es[0]))
  }

  /** Requests, reservations and completions read the clock under the mutex, an eviction before it
      takes the mutex: its instant may be older than what was done meanwhile. */
  predicate InTime(clock: int, e: Event) {
    e.Evict? || clock <= e.at
  }

  /** The clock never steps back. */
  ghost predicate ClockRuns(es: seq<Event>, clock: int)
    decreases |es|
  {
    es == [] || (InTime(clock, es[0]) && ClockRuns(es[1..], Tick(clock, es[0])))
  }

  /** No duration exceeds the key expiration; a non-positive expiration never evicts. */
  ghost predicate Fits(durations: string -> int, expiration: int) {
    expiration <= 0 || forall k :: durations(k) * NANOS <= expiration
  }

  /** The queue is the end of the history, and whatever is missing has expired for good. */
  ghost predicate Tail(stamps: seq<int>, accepted: seq<int>, second: int, duration: int) {
    && |stamps| <= |accepted| && stamps == accepted[|accepted| - |stamps|..]
    && Ordered(accepted) && (forall i :: 0 <= i < |accepted| ==> accepted[i] <= second)
    && forall i :: 0 <= i < |accepted| - |stamps| ==> second - accepted[i] >= duration
  }

  ghost predicate Tracks(st: State, h: History, key: string, clock: int, duration: int) {
    && Tail(StampsOf(st.buckets, key), AcceptedFor(h, key), Unix(clock), duration)
    && ReservedFor(st.reservations, key) == InFlight(h.tokens, key)
    && (key in st.reservations ==> st.reservations[key] > 0)
  }

  ghost predicate Agrees(s: Sys, clock: int, durations: string -> int) {
    WellFormed(s.st.buckets, clock) && forall k :: Tracks(s.st, s.history, k, clock, durations(k))
  }

  lemma {:induction false} UnexpiredConcat(a: seq<int>, b: seq<int>, now: int, duration: int)
    ensures Unexpired(a + b, now, duration) == Unexpired(a, now, duration) + Unexpired(b, now, duration)
    decreases |a|
  {
    if a == [] {
      assert a + b == b;
    } else {
      assert (a + b)[1..] == a[1..] + b;
      UnexpiredConcat(a[1..], b, now, duration);
    }
  }

  /** The queue counts what the whole history counts. */
  lemma TailCounts(stamps: seq<int>, accepted: seq<int>, second: int, duration: int, now: int)
    requires Tail(stamps, accepted, second, duration) && second <= now
    ensures Unexpired(stamps, now, duration) == Unexpired(accepted, now, duration)
    ensures Tail(Unexpired(stamps, now, duration), accepted, now, duration)
    ensures Tail(stamps, accepted, now, duration)
  {
    var cut := |accepted| - |stamps|;
    assert accepted[..cut] + accepted[cut..] == accepted;
    UnexpiredConcat(accepted[..cut], accepted[cut..], now, duration);
    NoneUnexpired(accepted[..cut], now, duration);
    UnexpiredSuffix(stamps, now, duration);
  }

  lemma TailAppend(stamps: seq<int>, accepted: seq<int>, second: int, duration: int)
    requires Tail(stamps, accepted, second, duration)
    ensures Tail(stamps + [second], accepted + [second], second, duration)
  {
  }

  lemma {:induction false} InFlightConcat(a: seq<Token>, b: seq<Token>, key: string)
    ensures InFlight(a + b, key) == InFlight(a, key) + InFlight(b, key)
    decreases |a|
  {
    if a == [] {
      assert a + b == b;
    } else {
      assert (a + b)[1..] == a[1..] + b;
      InFlightConcat(a[1..], b, key);
    }
  }

  lemma CompletingReleasesOne(tokens: seq<Token>, id: nat, key: string)
    requires id < |tokens| && !tokens[id].done
    ensures var after := tokens[id := Token(tokens[id].key, true)];
            InFlight(tokens, key) == InFlight(after, key) + (if key == tokens[id].key then 1 else 0)
  {
    var after := tokens[id := Token(tokens[id].key, true)];
    assert tokens == tokens[..id] + ([tokens[id]] + tokens[id + 1..]);
    assert after == tokens[..id] + ([after[id]] + tokens[id + 1..]);
    InFlightConcat(tokens[..id], [tokens[id]] + tokens[id + 1..], key);
    InFlightConcat(tokens[..id], [after[id]] + tokens[id + 1..], key);
    assert ([tokens[id]] + tokens[id + 1..])[1..] == tokens[id + 1..];
    assert ([after[id]] + tokens[id + 1..])[1..] == tokens[id + 1..];
  }

  lemma UnixMonotone(a: int, b: int)
    requires a <= b
    ensures Unix(a) <= Unix(b)
  {
  }

  /** Time alone keeps the agreement. */
  lemma AgreesLater(s: Sys, clock: int, now: int, durations: string -> int)
    requires Agrees(s, clock, durations) && clock <= now
    ensures forall k :: Tracks(s.st, s.history, k, now, durations(k))
  {
    UnixMonotone(clock, now);
    forall k ensures Tracks(s.st, s.history, k, now, durations(k)) {
      assert Tracks(s.st, s.history, k, clock, durations(k));
      TailCounts(StampsOf(s.st.buckets, k), AcceptedFor(s.history, k), Unix(clock), durations(k), Unix(now));
    }
  }

  /** The stamps queued for one key after an event that expired them and maybe accepted one. */
  lemma TracksAfterWindow(s: Sys, t: Sys, k: string, clock: int, at: int, d: int, stamped: bool)
    requires Tracks(s.st, s.history, k, clock, d) && clock <= at
    requires var kept := Unexpired(StampsOf(s.st.buckets, k), Unix(at), d);
             StampsOf(t.st.buckets, k) == if stamped then kept + [Unix(at)] else kept
    requires AcceptedFor(t.history, k) == AcceptedFor(s.history, k) + if stamped then [Unix(at)] else []
    requires ReservedFor(t.st.reservations, k) == InFlight(t.history.tokens, k)
    requires k in t.st.reservations ==> t.st.reservations[k] > 0
    ensures Tracks(t.st, t.history, k, at, d)
  {
    hide Tail; hide Unexpired; hide StampsOf; hide AcceptedFor; hide InFlight; hide ReservedFor;
    UnixMonotone(clock, at);
    TailCounts(StampsOf(s.st.buckets, k), AcceptedFor(s.history, k), Unix(clock), d, Unix(at));
    TailAppend(Unexpired(StampsOf(s.st.buckets, k), Unix(at), d), AcceptedFor(s.history, k), Unix(at), d);
    assert !stamped ==> AcceptedFor(t.history, k) == AcceptedFor(s.history, k);
  }

  /** The same for an event that left the key's queue in place and maybe appended to it. */
  lemma TracksAfterAppend(s: Sys, t: Sys, k: string, clock: int, at: int, d: int, stamped: bool)
    requires Tracks(s.st, s.history, k, clock, d) && clock <= at
    requires StampsOf(t.st.buckets, k) == StampsOf(s.st.buckets, k) + if stamped then [Unix(at)] else []
    requires AcceptedFor(t.history, k) == AcceptedFor(s.history, k) + if stamped then [Unix(at)] else []
    requires ReservedFor(t.st.reservations, k) == InFlight(t.history.tokens, k)
    requires k in t.st.reservations ==> t.st.reservations[k] > 0
    ensures Tracks(t.st, t.history, k, at, d)
  {
    hide Tail; hide Unexpired; hide StampsOf; hide AcceptedFor; hide InFlight; hide ReservedFor;
    UnixMonotone(clock, at);
    TailCounts(StampsOf(s.st.buckets, k), AcceptedFor(s.history, k), Unix(clock), d, Unix(at));
    TailAppend(StampsOf(s.st.buckets, k), AcceptedFor(s.history, k), Unix(at), d);
    assert !stamped ==> AcceptedFor(t.history, k) == AcceptedFor(s.history, k);
    assert !stamped ==> StampsOf(t.st.buckets, k) == StampsOf(s.st.buckets, k);
  }

  /** The window the queue counts is the window the history counts. */
  lemma SameWindow(s: Sys, key: string, clock: int, at: int, durations: string -> int)
    requires Agrees(s, clock, durations) && clock <= at
    ensures Unexpired(StampsOf(s.st.buckets, key), Unix(at), durations(key))
         == Unexpired(AcceptedFor(s.history, key), Unix(at), durations(key))
  {
    assert Tracks(s.st, s.history, key, clock, durations(key));
    UnixMonotone(clock, at);
    TailCounts(StampsOf(s.st.buckets, key), AcceptedFor(s.history, key), Unix(clock), durations(key), Unix(at));
  }

  lemma RequestAgrees(s: Sys, key: string, maxRequests: int, at: int, clock: int, durations: string -> int, expiration: int)
    requires Agrees(s, clock, durations) && clock <= at
    ensures var e := Request(key, maxRequests, at);
            && Run1(s.st, s.history, e, durations, expiration).1 == Expected(s.history, e, durations)
            && Agrees(Next(s, e, durations, expiration), at, durations)
  {
    hide WellFormed; hide StampsOf; hide RateLimitState.Request; hide Tail; hide Unexpired;
    RequestEffect(s.st, key, maxRequests, durations(key), at, clock);
    SameWindow(s, key, clock, at, durations);
    var e := Request(key, maxRequests, at);
    var t := Next(s, e, durations, expiration);
    forall k ensures Tracks(t.st, t.history, k, at, durations(k)) {
      assert Tracks(s.st, s.history, k, clock, durations(k));
      if k == key {
        TracksAfterWindow(s, t, k, clock, at, durations(k), Expected(s.history, e, durations));
      } else {
        TracksAfterAppend(s, t, k, clock, at, durations(k), false);
      }
    }
  }

  lemma ReserveAgrees(s: Sys, key: string, maxRequests: int, at: int, clock: int, durations: string -> int, expiration: int)
    requires Agrees(s, clock, durations) && clock <= at
    ensures var e := Reserve(key, maxRequests, at);
            && Run1(s.st, s.history, e, durations, expiration).1 == Expected(s.history, e, durations)
            && Agrees(Next(s, e, durations, expiration), at, durations)
  {
    hide WellFormed; hide StampsOf; hide RateLimitState.Reserve; hide Tail; hide Unexpired;
    ReserveEffect(s.st, key, maxRequests, durations(key), at, clock);
    SameWindow(s, key, clock, at, durations);
    assert Tracks(s.st, s.history, key, clock, durations(key));
    var t := Next(s, Reserve(key, maxRequests, at), durations, expiration);
    forall k ensures Tracks(t.st, t.history, k, at, durations(k)) {
      assert Tracks(s.st, s.history, k, clock, durations(k));
      InFlightConcat(s.history.tokens, [Token(key, false)], k);
      if k == key {
        TracksAfterWindow(s, t, k, clock, at, durations(k), false);
      } else {
        TracksAfterAppend(s, t, k, clock, at, durations(k), false);
      }
    }
  }

  lemma CompleteAgrees(s: Sys, id: nat, success: bool, at: int, clock: int, durations: string -> int, expiration: int)
    requires Agrees(s, clock, durations) && clock <= at && Live(s.history, id)
    ensures Agrees(Next(s, Complete(id, success, at), durations, expiration), at, durations)
  {
    var key := s.history.tokens[id].key;
    hide WellFormed; hide StampsOf; hide RateLimitState.Complete; hide Tail; hide InFlight;
    CompleteEffect(s.st, key, success, at, clock);
    var t := Next(s, Complete(id, success, at), durations, expiration);
    forall k ensures Tracks(t.st, t.history, k, at, durations(k)) {
      assert Tracks(s.st, s.history, k, clock, durations(k));
      CompletingReleasesOne(s.history.tokens, id, k);
      TracksAfterAppend(s, t, k, clock, at, durations(k), success && k == key);
    }
  }

  /** An idle bucket holds nothing that still counts: this is where the durations must fit. */
  lemma IdleIsExpired(b: Bucket, at: int, expiration: int, duration: int)
    requires BucketOk(b) && Idle(b, at, expiration) && duration * NANOS <= expiration
    ensures forall i :: 0 <= i < |b.stamps| ==> Unix(at) - b.stamps[i] >= duration
  {
    assert at >= b.lastActive + duration * NANOS;
    assert Unix(b.lastActive + duration * NANOS) == Unix(b.lastActive) + duration;
    UnixMonotone(b.lastActive + duration * NANOS, at);
  }

  lemma EvictAgrees(s: Sys, at: int, clock: int, durations: string -> int, expiration: int)
    requires Agrees(s, clock, durations) && Fits(durations, expiration)
    ensures Agrees(Next(s, Evict(at), durations, expiration), Later(clock, at), durations)
  {
    var end := Later(clock, at);
    UnixMonotone(at, end);
    AgreesLater(s, clock, end, durations);
    if expiration > 0 {
      EvictKeeps(s.st.buckets, at, expiration, clock);
    }
    var after := Next(s, Evict(at), durations, expiration);
    forall k ensures Tracks(after.st, after.history, k, end, durations(k)) {
      assert Tracks(s.st, s.history, k, end, durations(k));
      var i := IndexOf(s.st.buckets, k);
      if expiration > 0 && i < |s.st.buckets| && Idle(s.st.buckets[i], at, expiration) {
        IdleIsExpired(s.st.buckets[i], at, expiration, durations(k));
      }
    }
  }

  /** One event: same answer as the reference, and the agreement carries over. */
  lemma StepAgrees(s: Sys, e: Event, clock: int, durations: string -> int, expiration: int)
    requires Agrees(s, clock, durations) && InTime(clock, e) && Fits(durations, expiration)
    ensures Run1(s.st, s.history, e, durations, expiration).1 == Expected(s.history, e, durations)
    ensures Agrees(Next(s, e, durations, expiration), Tick(clock, e), durations)
  {
    match e
    case Request(key, maxRequests, at) => RequestAgrees(s, key, maxRequests, at, clock, durations, expiration);
    case Reserve(key, maxRequests, at) => ReserveAgrees(s, key, maxRequests, at, clock, durations, expiration);
    case Complete(id, success, at) =>
      if Live(s.history, id) {
        CompleteAgrees(s, id, success, at, clock, durations, expiration);
      } else {
        AgreesLater(s, clock, at, durations);
      }
    case Evict(at) => EvictAgrees(s, at, clock, durations, expiration);
  }

  lemma {:induction false} RunAgrees(s: Sys, es: seq<Event>, clock: int, durations: string -> int, expiration: int)
    requires Agrees(s, clock, durations) && ClockRuns(es, clock) && Fits(durations, expiration)
    ensures Answers(s, es, durations, expiration) == ExpectedAnswers(s.history, es, durations)
    ensures After(s, es, durations, expiration).history == HistoryAfter(s.history, es, durations)
    ensures Agrees(After(s, es, durations, expiration), EndOf(es, clock), durations)
    decreases |es|
  {
    hide Agrees; hide Fits; hide Run1; hide Record; hide Expected;
    if es != [] {
      StepAgrees(s, es[0], clock, durations, expiration);
      RunAgrees(Next(s, es[0], durations, expiration), es[1..], Tick(clock, es[0]), durations, expiration);
    }
  }

  ghost predicate AnswersLikeReference(durations: string -> int, expiration: int) {
    forall es: seq<Event>, clock: int :: ClockRuns(es, clock) ==>
      Answers(START, es, durations, expiration) == ExpectedAnswers(EMPTY_HISTORY, es, durations)
  }

  lemma FirstRequest(key: string, duration: int, at: int)
    ensures RateLimitState.Request(State([], map[]), key, 1, duration, at)
         == (State([Bucket(key, at, [Unix(at)])], map[]), true)
  {
    assert Touch([], key, at) == [Bucket(key, at, [])];
    assert Refresh([], key, at, duration) == [Bucket(key, at, [])];
    var empty: seq<int> := [];
    assert empty + [Unix(at)] == [Unix(at)];
    assert WithFront([Bucket(key, at, [])], [Unix(at)]) == [Bucket(key, at, [Unix(at)])];
  }

  /** When a duration exceeds the key expiration, evicting an idle bucket forgets a request
      that still counts: the second request of this run should be refused and is not. */
  lemma ForgetsTooEarly(key: string, durations: string -> int, expiration: int)
    requires 0 < expiration < durations(key) * NANOS
    ensures var es := [Request(key, 1, 0), Evict(expiration), Request(key, 1, expiration)];
            && Answers(START, es, durations, expiration) == [true, true, true]
            && ExpectedAnswers(EMPTY_HISTORY, es, durations) == [true, true, false]
  {
    var d := durations(key);
    var e0, e1, e2 := Request(key, 1, 0), Evict(expiration), Request(key, 1, expiration);
    var s1 := Next(START, e0, durations, expiration);
    FirstRequest(key, d, 0);
    assert s1.st == State([Bucket(key, 0, [0])], map[]);
    var s2 := Next(s1, e1, durations, expiration);
    EvictedAlone(key, expiration);
    assert s2.st == State([], map[]);
    FirstRequest(key, d, expiration);
    assert Run1(s2.st, s2.history, e2, durations, expiration).1;
    var h := Record(EMPTY_HISTORY, e0, true);
    assert AcceptedFor(h, key) == [0];
    assert Unix(expiration) < d;
    assert Unexpired([0], Unix(expiration), d) == [0];
    assert !Expected(h, e2, durations) && Expected(h, e1, durations) && Run1(s1.st, s1.history, e1, durations, expiration).1;
    assert Record(h, e1, true) == h && Expected(EMPTY_HISTORY, e0, durations) && Run1(START.st, START.history, e0, durations, expiration).1;
    var es := [e0, e1, e2];
    assert es[1..] == [e1, e2] && [e1, e2][1..] == [e2] && [e2][1..] == [];
    hide Run1; hide Expected; hide Next; hide Record;
    assert Answers(s2, [e2], durations, expiration) == [true];
    assert Answers(s1, [e1, e2], durations, expiration) == [true, true];
    assert ExpectedAnswers(h, [e2], durations) == [false];
    assert ExpectedAnswers(h, [e1, e2], durations) == [true, false];
  }

  lemma EvictedAlone(key: string, expiration: int)
    requires expiration > 0
    ensures EvictFromBack([Bucket(key, 0, [0])], expiration, expiration) == []
  {
    var one := [Bucket(key, 0, [0])];
    assert Idle(one[0], expiration, expiration);
    assert one[..0] == [] && EvictFromBack([], expiration, expiration) == [];
  }

  lemma ForgettingRunIsTimely(es: seq<Event>, expiration: int)
    requires |es| == 3 && expiration > 0
    requires es[0].Request? && es[0].at == 0 && es[1] == Evict(expiration) && es[2].Request? && es[2].at == expiration
    ensures ClockRuns(es, 0)
  {
    assert es[1..][0] == es[1] && es[1..][1..][0] == es[2] && es[1..][1..][1..] == [];
    assert ClockRuns(es[1..][1..], expiration);
    assert ClockRuns(es[1..], 0);
  }

  /** The limiter answers every run like the reference exactly when no duration exceeds the
      key expiration. */
  lemma RefinesReferenceExactly(durations: string -> int, expiration: int)
    ensures AnswersLikeReference(durations, expiration) <==> Fits(durations, expiration)
  {
    if Fits(durations, expiration) {
      forall es: seq<Event>, clock: int | ClockRuns(es, clock)
        ensures Answers(START, es, durations, expiration) == ExpectedAnswers(EMPTY_HISTORY, es, durations) {
        assert Agrees(START, clock, durations);
        RunAgrees(START, es, clock, durations, expiration);
      }
    } else {
      var key :| durations(key) * NANOS > expiration;
      ForgetsTooEarly(key, durations, expiration);
      var es := [Request(key, 1, 0), Evict(expiration), Request(key, 1, expiration)];
      ForgettingRunIsTimely(es, expiration);
      assert Answers(START, es, durations, expiration)[2] != ExpectedAnswers(EMPTY_HISTORY, es, durations)[2];
    }
  }

  /** A key that is only ever reserved, and never beyond `bound`. */
  ghost predicate OnlyReserved(es: seq<Event>, key: string, bound: int) {
    forall i :: 0 <= i < |es| ==>
      && !(es[i].Request? && es[i].key == key)
      && (es[i].Reserve? && es[i].key == key ==> es[i].maxRequests <= bound)
  }

  /** Successes still in the window plus reservations in flight. */
  function Load(h: History, key: string, second: int, duration: int): nat {
    |Unexpired(AcceptedFor(h, key), second, duration)| + InFlight(h.tokens, key)
  }

  lemma {:induction false} FewerLater(stamps: seq<int>, earlier: int, later: int, duration: int)
    requires earlier <= later
    ensures |Unexpired(stamps, later, duration)| <= |Unexpired(stamps, earlier, duration)|
  {
    if stamps != [] {
      FewerLater(stamps[1..], earlier, later, duration);
    }
  }

  lemma StepBounded(h: History, e: Event, clock: int, durations: string -> int, key: string, bound: int)
    requires InTime(clock, e) && OnlyReserved([e], key, bound)
    requires Load(h, key, Unix(clock), durations(key)) <= bound
    ensures Load(Record(h, e, Expected(h, e, durations)), key, Unix(Tick(clock, e)), durations(key)) <= bound
  {
    var d := durations(key);
    UnixMonotone(clock, Tick(clock, e));
    FewerLater(AcceptedFor(h, key), Unix(clock), Unix(Tick(clock, e)), d);
    assert !([e][0].Request? && [e][0].key == key);
    match e
    case Request(k, _, _) =>
    case Reserve(k, maxRequests, at) =>
      InFlightConcat(h.tokens, [Token(k, false)], key);
    case Complete(id, success, at) =>
      if Live(h, id) {
        CompletingReleasesOne(h.tokens, id, key);
        UnexpiredConcat(AcceptedFor(h, key), [Unix(at)], Unix(at), d);
      }
    case Evict(_) =>
  }

  lemma {:induction false} RunBounded(h: History, es: seq<Event>, clock: int, durations: string -> int, key: string, bound: int)
    requires ClockRuns(es, clock) && OnlyReserved(es, key, bound)
    requires Load(h, key, Unix(clock), durations(key)) <= bound
    ensures Load(HistoryAfter(h, es, durations), key, Unix(EndOf(es, clock)), durations(key)) <= bound
    decreases |es|
  {
    if es != [] {
      assert OnlyReserved([es[0]], key, bound) by {
        assert es[0] == [es[0]][0];
      }
      StepBounded(h, es[0], clock, durations, key, bound);
      RunBounded(Record(h, es[0], Expected(h, es[0], durations)), es[1..], Tick(clock, es[0]), durations, key, bound);
    }
  }

  /** In every reachable state, for a key driven by reservations only: what succeeded less than
      the duration ago plus what is in flight stays within the maximum, and the reservation
      counter is the number of uncompleted reservations - also after evictions mid-flight. */
  lemma ReservationsStayWithinMaximum(es: seq<Event>, clock: int, durations: string -> int, expiration: int, key: string, bound: nat)
    requires ClockRuns(es, clock) && Fits(durations, expiration) && OnlyReserved(es, key, bound)
    ensures var s := After(START, es, durations, expiration);
            var end := EndOf(es, clock);
            && |Unexpired(AcceptedFor(s.history, key), Unix(end), durations(key))| + InFlight(s.history.tokens, key) <= bound
            && ReservedFor(s.st.reservations, key) == InFlight(s.history.tokens, key)
            && (key in s.st.reservations <==> InFlight(s.history.tokens, key) > 0)
  {
    assert Agrees(START, clock, durations);
    RunBounded(EMPTY_HISTORY, es, clock, durations, key, bound);
    RunAgrees(START, es, clock, durations, expiration);
    var s := After(START, es, durations, expiration);
    var end := EndOf(es, clock);
    assert Tracks(s.st, s.history, key, end, durations(key));
  }

  /** A second completion of the same reservation changes nothing, whatever happened between. */
  lemma {:induction false} TokensStayDone(s: Sys, es: seq<Event>, id: nat, durations: string -> int, expiration: int)
    requires id < |s.history.tokens| && s.history.tokens[id].done
    ensures var t := After(s, es, durations, expiration);
            && id < |t.history.tokens| && t.history.tokens[id].done
            && forall success, at :: Next(t, Complete(id, success, at), durations, expiration) == t
    decreases |es|
  {
    if es != [] {
      TokensStayDone(Next(s, es[0], durations, expiration), es[1..], id, durations, expiration);
    }
  }
}
