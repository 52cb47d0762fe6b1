/** The channel-test worker pool as a step relation: a feeder, a fixed set of workers, a closer
    and a reducer, sharing two unbuffered channels and a context that may be cancelled at any
    moment. One step is one synchronisation or one local action between two of them. */
module WorkerPool {

  datatype Summary = Summary(tested: int, succeeded: int, failed: int, disabled: int, enabled: int)

  const ZERO := Summary(0, 0, 0, 0, 0)

  function Add(a: Summary, b: Summary): Summary {
    Summary(a.tested + b.tested, a.succeeded + b.succeeded, a.failed + b.failed, a.disabled + b.disabled, a.enabled + b.enabled)
  }

  /** The relations between the counters that one health check establishes. */
  predicate Balanced(s: Summary) {
    && s.tested == s.succeeded + s.failed
    && 0 <= s.succeeded && 0 <= s.disabled <= s.failed && 0 <= s.enabled
    && s.enabled + s.disabled <= s.tested
  }

  const ENABLED := 1
  const MANUALLY_DISABLED := 2

  /** The counters of one health check. The upstream error, the verdicts of the service package
      and the measured time are inputs; `cancelled` is the context after the request. */
  method TestChannelForHealthCheck(status: int, cancelled: bool, upstreamError: bool, bannable: bool, localError: bool,
      autoDisable: bool, slow: bool, autoBan: bool, allowDisable: bool, mayEnable: bool) returns (summary: Summary)
    ensures Balanced(summary)
    ensures summary.tested == if cancelled then 0 else 1
    ensures var failed := upstreamError || (autoDisable && slow);
            !cancelled ==> (summary.failed == 1 <==> failed)
    ensures var ban := (upstreamError && bannable) || (autoDisable && slow);
            summary.disabled == if !cancelled && allowDisable && status == ENABLED && ban && autoBan then 1 else 0
    ensures summary.enabled == if !cancelled && !localError && status != ENABLED && mayEnable then 1 else 0
  {
    summary := ZERO;
    var isChannelEnabled := status == ENABLED;
    if cancelled {
      return;
    }
    summary := summary.(tested := summary.tested + 1);
    var shouldBanChannel := false;
    var failed := upstreamError;
    if failed {
      shouldBanChannel := bannable;
    }
    if autoDisable && !shouldBanChannel {
      if slow {
        failed := true;
        shouldBanChannel := true;
      }
    }
    if !failed {
      summary := summary.(succeeded := summary.succeeded + 1);
    } else {
      summary := summary.(failed := summary.failed + 1);
    }
    if allowDisable && isChannelEnabled && shouldBanChannel && autoBan {
      summary := summary.(disabled := summary.disabled + 1);
    }
    if !localError && !isChannelEnabled && mayEnable {
      summary := summary.(enabled := summary.enabled + 1);
    }
  }

  /** A channel to test; `outcome` is what `run` returns for it while the context is live. */
  datatype Channel = Nil | Channel(status: int, outcome: Summary)

  predicate Skipped(ch: Channel) {
    ch.Nil? || ch.status == MANUALLY_DISABLED
  }

  /** The result a worker may send for a channel: a skipped channel sends zero counters; a run
      under a live context sends the outcome; a run that saw a cancellation any balanced one. */
  ghost predicate MayReturn(ch: Channel, cancelled: bool, r: Summary) {
    if Skipped(ch) then r == ZERO
    else Balanced(r) && (!cancelled ==> r == ch.outcome)
  }

  const DEFAULT_CONCURRENCY := 1
  const MAX_CONCURRENCY := 32

  function NormalizeConcurrency(concurrency: int): int {
    if concurrency < 1 then DEFAULT_CONCURRENCY
    else if concurrency > MAX_CONCURRENCY then MAX_CONCURRENCY
    else concurrency
  }

  datatype Config = Config(channels: seq<Channel>, concurrency: int, interval: bool) {
    ghost predicate Ok() {
      forall i :: 0 <= i < |channels| && !Skipped(channels[i]) ==> Balanced(channels[i].outcome)
    }

    function WorkerCount(): nat {
      var n := NormalizeConcurrency(concurrency);
      if n < |channels| then n else |channels|
    }
  }

  /** Where a worker's goroutine is. `Idle` waits in the select on the context and the jobs;
      `Holding` has received job i but not yet looked at the context; `Running` is past that
      check; `Sending` blocks on the results; `Resting` waits out the request interval. */
  datatype Worker = Idle | Holding(i: nat) | Running(i: nat) | Sending(i: nat, r: Summary) | Resting | Done

  datatype Reducer = Waiting | Reporting | Returned

  /** `next` jobs have been handed over so far, job i to worker `owner[i]`; `got` holds the
      results the reducer received. */
  datatype State = State(
    cancelled: bool,
    next: nat,
    jobsClosed: bool,
    owner: seq<nat>,
    workers: seq<Worker>,
    resultsClosed: bool,
    reducer: Reducer,
    summary: Summary,
    processed: nat,
    reports: seq<nat>,
    got: map<nat, Summary>)

  /** `report(0, total)` was called and the goroutines started; with nothing to test the call
      has already returned. */
  ghost predicate Init(c: Config, s: State) {
    var none := |c.channels| == 0;
    s == State(false, 0, none, [], seq(c.WorkerCount(), _ => Idle), none, if none then Returned else Waiting, ZERO, 0, [0], map[])
  }

  datatype Action =
    | Cancel
    | Handoff(w: nat)
    | FeederQuits
    | FeederCloses
    | WorkerSeesCancel(w: nat)
    | WorkerSeesClosed(w: nat)
    | WorkerDrops(w: nat)
    | WorkerStarts(w: nat)
    | WorkerFinishes(w: nat, r: Summary)
    | Receive(w: nat)
    | WorkerRested(w: nat)
    | CloserCloses
    | Report
    | ReducerReturns

  ghost predicate Enabled(c: Config, s: State, a: Action) {
    match a
    case Cancel => !s.cancelled
    case Handoff(w) => !s.jobsClosed && s.next < |c.channels| && w < |s.workers| && s.workers[w].Idle?
    case FeederQuits => !s.jobsClosed && s.next < |c.channels| && s.cancelled
    case FeederCloses => !s.jobsClosed && s.next == |c.channels|
    case WorkerSeesCancel(w) => w < |s.workers| && (s.workers[w].Idle? || s.workers[w].Resting?) && s.cancelled
    case WorkerSeesClosed(w) => w < |s.workers| && s.workers[w].Idle? && s.jobsClosed
    case WorkerDrops(w) => w < |s.workers| && s.workers[w].Holding? && s.cancelled
    case WorkerStarts(w) => w < |s.workers| && s.workers[w].Holding? && !s.cancelled
    case WorkerFinishes(w, r) =>
      && w < |s.workers| && s.workers[w].Running? && s.workers[w].i < |c.channels|
      && MayReturn(c.channels[s.workers[w].i], s.cancelled, r)
    case Receive(w) => w < |s.workers| && s.workers[w].Sending? && s.reducer.Waiting? && !s.resultsClosed
    case WorkerRested(w) => w < |s.workers| && s.workers[w].Resting?
    case CloserCloses => !s.resultsClosed && forall w :: 0 <= w < |s.workers| ==> s.workers[w].Done?
    case Report => s.reducer.Reporting?
    case ReducerReturns => s.reducer.Waiting? && s.resultsClosed
  }

  ghost function Do(c: Config, s: State, a: Action): State
    requires Enabled(c, s, a)
  {
    match a
    case Cancel => s.(cancelled := true)
    case Handoff(w) => s.(next := s.next + 1, owner := s.owner + [w], workers := s.workers[w := Holding(s.next)])
    case FeederQuits => s.(jobsClosed := true)
    case FeederCloses => s.(jobsClosed := true)
    case WorkerSeesCancel(w) => s.(workers := s.workers[w := Done])
    case WorkerSeesClosed(w) => s.(workers := s.workers[w := Done])
    case WorkerDrops(w) => s.(workers := s.workers[w := Done])
    case WorkerStarts(w) => s.(workers := s.workers[w := Running(s.workers[w].i)])
    case WorkerFinishes(w, r) => s.(workers := s.workers[w := Sending(s.workers[w].i, r)])
    case Receive(w) =>
      var Sending(i, r) := s.workers[w];
      s.(workers := s.workers[w := if c.interval then Resting else Idle],
         summary := Add(s.summary, r), processed := s.processed + 1, got := s.got[i := r], reducer := Reporting)
    case WorkerRested(w) => s.(workers := s.workers[w := Idle])
    case CloserCloses => s.(resultsClosed := true)
    case Report => s.(reports := if s.cancelled then s.reports else s.reports + [s.processed], reducer := Waiting)
    case ReducerReturns => s.(reducer := Returned)
  }

  /** The worker has received job `i` and not yet passed on its result. */
  predicate Busy(w: Worker) {
    w.Holding? || w.Running? || w.Sending?
  }

  /** The sum of the received results, in channel order up to n. */
  function SumGot(got: map<nat, Summary>, n: nat): Summary {
    if n == 0 then ZERO
    else if n - 1 in got then Add(SumGot(got, n - 1), got[n - 1])
    else SumGot(got, n - 1)
  }

  /** What testing the channels one after the other would add up to. */
  function SequentialFold(channels: seq<Channel>): Summary {
    if channels == [] then ZERO
    else
      var ch := channels[|channels| - 1];
      var rest := SequentialFold(channels[..|channels| - 1]);
      if Skipped(ch) then rest else Add(rest, ch.outcome)
  }

  function UpTo(n: nat): seq<nat> {
    seq(n, i requires 0 <= i < n => i)
  }

  /** Every job handed over is carried by its owner, received, or was dropped after a
      cancellation; nothing else is carried or received. */
  ghost predicate Jobs(c: Config, s: State) {
    && |s.owner| == s.next <= |c.channels| && |s.workers| == c.WorkerCount()
    && (forall w: nat :: w < |s.workers| && Busy(s.workers[w]) ==>
          s.workers[w].i < s.next && s.owner[s.workers[w].i] == w && s.workers[w].i !in s.got)
    && (forall i :: i in s.got ==> i < s.next)
    && (!s.cancelled ==> forall i: nat :: i < s.next ==> i in s.got || WithOwner(s, i))
  }

  predicate WithOwner(s: State, i: nat)
    requires i < |s.owner|
  {
    var w := s.owner[i];
    w < |s.workers| && Busy(s.workers[w]) && s.workers[w].i == i
  }

  /** What the counters and results are worth. */
  ghost predicate Results(c: Config, s: State) {
    && s.summary == SumGot(s.got, |c.channels|) && s.processed == |s.got|
    && (forall i :: i in s.got && i < |c.channels| ==> MayReturn(c.channels[i], s.cancelled, s.got[i]))
    && (forall w: nat :: w < |s.workers| && s.workers[w].Sending? && s.workers[w].i < |c.channels| ==>
          MayReturn(c.channels[s.workers[w].i], s.cancelled, s.workers[w].r))
  }

  /** Progress is a gap-free count from 0, complete while the context lives. */
  ghost predicate Progress(c: Config, s: State) {
    && 1 <= |s.reports| <= s.processed + 1 && s.reports == UpTo(|s.reports|)
    && (s.reducer.Reporting? ==> |s.reports| <= s.processed)
    && (!s.cancelled ==> |s.reports| == s.processed + if s.reducer.Reporting? then 0 else 1)
  }

  /** The shutdown order: jobs, then workers, then results, then the reducer. */
  ghost predicate Shutdown(c: Config, s: State) {
    && (!s.cancelled ==> (s.jobsClosed ==> s.next == |c.channels|))
    && (!s.cancelled ==> forall w :: 0 <= w < |s.workers| && s.workers[w].Done? ==> s.jobsClosed)
    && (s.resultsClosed ==> forall w :: 0 <= w < |s.workers| ==> s.workers[w].Done?)
    && (s.reducer.Returned? ==> s.resultsClosed)
  }

  ghost predicate Inv(c: Config, s: State) {
    Jobs(c, s) && Results(c, s) && Progress(c, s) && Shutdown(c, s)
  }

  lemma {:induction false} SumGotExtend(got: map<nat, Summary>, i: nat, r: Summary, n: nat)
    requires i !in got
    ensures SumGot(got[i := r], n) == if i < n then Add(SumGot(got, n), r) else SumGot(got, n)
  {
    if n > 0 {
      SumGotExtend(got, i, r, n - 1);
    }
  }

  lemma {:induction false} SumGotBalanced(got: map<nat, Summary>, n: nat)
    requires forall i :: i in got && i < n ==> Balanced(got[i])
    ensures Balanced(SumGot(got, n))
  {
    if n > 0 {
      SumGotBalanced(got, n - 1);
    }
  }

  lemma {:induction false} SumGotIsFold(got: map<nat, Summary>, channels: seq<Channel>)
    requires forall i :: 0 <= i < |channels| ==> i in got && got[i] == if Skipped(channels[i]) then ZERO else channels[i].outcome
    ensures SumGot(got, |channels|) == SequentialFold(channels)
  {
    if channels != [] {
      var n := |channels| - 1;
      SumGotIsFold(got, channels[..n]);
    }
  }

  lemma {:induction false} SumOfNothing(n: nat)
    ensures SumGot(map[], n) == ZERO
  {
    if n > 0 {
      SumOfNothing(n - 1);
    }
  }

  lemma InitInv(c: Config, s: State)
    requires Init(c, s)
    ensures Inv(c, s)
  {
    SumOfNothing(|c.channels|);
  }

  /** A worker that keeps its job, never had one, or drops it under a cancelled context. */
  lemma WorkerMoves(c: Config, s: State, w: nat, v: Worker)
    requires Jobs(c, s) && w < |s.workers|
    requires if Busy(v) then Busy(s.workers[w]) && v.i == s.workers[w].i else Busy(s.workers[w]) ==> s.cancelled
    ensures Jobs(c, s.(workers := s.workers[w := v]))
  {
    var t := s.(workers := s.workers[w := v]);
    forall i: nat | i < t.next && !t.cancelled ensures i in t.got || WithOwner(t, i) {
      assert i in s.got || WithOwner(s, i);
    }
  }

  lemma JobHandedOver(c: Config, s: State, w: nat)
    requires Jobs(c, s) && Enabled(c, s, Handoff(w))
    ensures Jobs(c, Do(c, s, Handoff(w)))
  {
    var t := Do(c, s, Handoff(w));
    forall i: nat | i < t.next && !t.cancelled ensures i in t.got || WithOwner(t, i) {
      assert i < s.next ==> i in s.got || WithOwner(s, i);
    }
  }

  lemma ResultReceived(c: Config, s: State, w: nat)
    requires Jobs(c, s) && Enabled(c, s, Receive(w))
    ensures Jobs(c, Do(c, s, Receive(w)))
  {
    var t := Do(c, s, Receive(w));
    forall i: nat | i < t.next && !t.cancelled ensures i in t.got || WithOwner(t, i) {
      assert i in s.got || WithOwner(s, i);
    }
  }

  lemma JobsStep(c: Config, s: State, a: Action)
    requires Jobs(c, s) && Enabled(c, s, a)
    ensures Jobs(c, Do(c, s, a))
  {
    hide Jobs; hide MayReturn;
    match a {
      case Handoff(w) => JobHandedOver(c, s, w);
      case Receive(w) => ResultReceived(c, s, w);
      case WorkerSeesCancel(w) => WorkerMoves(c, s, w, Done);
      case WorkerSeesClosed(w) => WorkerMoves(c, s, w, Done);
      case WorkerDrops(w) => WorkerMoves(c, s, w, Done);
      case WorkerStarts(w) => WorkerMoves(c, s, w, Running(s.workers[w].i));
      case WorkerFinishes(w, r) => WorkerMoves(c, s, w, Sending(s.workers[w].i, r));
      case WorkerRested(w) => WorkerMoves(c, s, w, Idle);
      case Cancel => KeepsJobs(c, s, s.(cancelled := true));
      case FeederQuits => KeepsJobs(c, s, s.(jobsClosed := true));
      case FeederCloses => KeepsJobs(c, s, s.(jobsClosed := true));
      case CloserCloses => KeepsJobs(c, s, s.(resultsClosed := true));
      case Report => KeepsJobs(c, s, Do(c, s, a));
      case ReducerReturns => KeepsJobs(c, s, s.(reducer := Returned));
    }
  }

  lemma KeepsJobs(c: Config, s: State, t: State)
    requires Jobs(c, s) && t.next == s.next && t.owner == s.owner && t.workers == s.workers && t.got == s.got
    requires !t.cancelled ==> !s.cancelled
    ensures Jobs(c, t)
  {
    forall i: nat | i < t.next && !t.cancelled ensures i in t.got || WithOwner(t, i) {
      assert i in s.got || WithOwner(s, i);
    }
  }

  lemma CancelledMayReturnMore(ch: Channel, cancelled: bool, r: Summary)
    requires MayReturn(ch, cancelled, r)
    ensures MayReturn(ch, true, r) && Balanced(r)
  {
  }

  lemma BusyNotReceived(c: Config, s: State, w: nat)
    requires Jobs(c, s) && w < |s.workers| && Busy(s.workers[w])
    ensures s.workers[w].i !in s.got && s.workers[w].i < |c.channels|
  {
  }

  lemma ResultsStep(c: Config, s: State, a: Action)
    requires Jobs(c, s) && Results(c, s) && Enabled(c, s, a)
    ensures Results(c, Do(c, s, a))
  {
    hide Results; hide Jobs; hide MayReturn;
    match a {
      case Receive(w) => ReceiveKeepsResults(c, s, w);
      case WorkerFinishes(w, r) => FinishKeepsResults(c, s, w, r);
      case Cancel => CancelKeepsResults(c, s);
      case _ => NothingNewToSend(c, s, Do(c, s, a));
    }
  }

  lemma ReceiveKeepsResults(c: Config, s: State, w: nat)
    requires Jobs(c, s) && Results(c, s) && Enabled(c, s, Receive(w))
    ensures Results(c, Do(c, s, Receive(w)))
  {
    hide MayReturn; hide SumGot; hide Add; hide Jobs;
    BusyNotReceived(c, s, w);
    SumGotExtend(s.got, s.workers[w].i, s.workers[w].r, |c.channels|);
  }

  lemma FinishKeepsResults(c: Config, s: State, w: nat, r: Summary)
    requires Results(c, s) && Enabled(c, s, WorkerFinishes(w, r))
    ensures Results(c, Do(c, s, WorkerFinishes(w, r)))
  {
    hide MayReturn; hide SumGot;
  }

  lemma NothingNewToSend(c: Config, s: State, t: State)
    requires Results(c, s) && t.cancelled == s.cancelled && |t.workers| == |s.workers|
    requires t.got == s.got && t.summary == s.summary && t.processed == s.processed
    requires forall w: nat :: w < |t.workers| && t.workers[w].Sending? ==> t.workers[w] == s.workers[w]
    ensures Results(c, t)
  {
  }

  lemma CancelKeepsResults(c: Config, s: State)
    requires Results(c, s)
    ensures Results(c, s.(cancelled := true))
  {
    hide MayReturn;
    forall i | i in s.got && i < |c.channels| ensures MayReturn(c.channels[i], true, s.got[i]) {
      CancelledMayReturnMore(c.channels[i], s.cancelled, s.got[i]);
    }
    forall w: nat | w < |s.workers| && s.workers[w].Sending? && s.workers[w].i < |c.channels|
      ensures MayReturn(c.channels[s.workers[w].i], true, s.workers[w].r) {
      CancelledMayReturnMore(c.channels[s.workers[w].i], s.cancelled, s.workers[w].r);
    }
  }

  lemma ProgressStep(c: Config, s: State, a: Action)
    requires Progress(c, s) && Enabled(c, s, a)
    ensures Progress(c, Do(c, s, a))
  {
  }

  lemma ShutdownStep(c: Config, s: State, a: Action)
    requires Shutdown(c, s) && Enabled(c, s, a)
    ensures Shutdown(c, Do(c, s, a))
  {
  }

  /** Every step of every goroutine keeps the whole invariant. */
  lemma StepKeepsInv(c: Config, s: State, a: Action)
    requires c.Ok() && Inv(c, s) && Enabled(c, s, a)
    ensures Inv(c, Do(c, s, a))
  {
    hide Jobs; hide Results; hide Progress; hide Shutdown; hide Enabled; hide Do;
    JobsStep(c, s, a);
    ResultsStep(c, s, a);
    ProgressStep(c, s, a);
    ShutdownStep(c, s, a);
  }

  /** A run: states linked by the actions between them, from a start state. */
  ghost predicate IsRun(c: Config, trace: seq<State>, actions: seq<Action>) {
    && |trace| == |actions| + 1 && Init(c, trace[0])
    && forall k :: 0 <= k < |actions| ==> Enabled(c, trace[k], actions[k]) && trace[k + 1] == Do(c, trace[k], actions[k])
  }

  lemma {:induction false} RunKeepsInv(c: Config, trace: seq<State>, actions: seq<Action>, k: nat)
    requires c.Ok() && IsRun(c, trace, actions) && k < |trace|
    ensures Inv(c, trace[k])
  {
    hide Inv; hide Init; hide Enabled; hide Do;
    if k == 0 {
      InitInv(c, trace[0]);
    } else {
      RunKeepsInv(c, trace, actions, k - 1);
      StepKeepsInv(c, trace[k - 1], actions[k - 1]);
    }
  }

  /** How many workers are inside `run`. */
  function Active(workers: seq<Worker>): nat {
    if workers == [] then 0 else (if workers[0].Running? then 1 else 0) + Active(workers[1..])
  }

  lemma {:induction false} ActiveBound(workers: seq<Worker>)
    ensures Active(workers) <= |workers|
  {
    if workers != [] {
      ActiveBound(workers[1..]);
    }
  }

  /** In every reachable state no channel is with two workers, a received result came from a
      channel no worker still has, at most the configured number of runs is active, and the
      summary is the sum over exactly the received results, with the counter relations intact. */
  lemma Safety(c: Config, trace: seq<State>, actions: seq<Action>, k: nat)
    requires c.Ok() && IsRun(c, trace, actions) && k < |trace|
    ensures var s := trace[k];
            && (forall v: nat, w: nat :: v < w < |s.workers| && Busy(s.workers[v]) && Busy(s.workers[w]) ==> s.workers[v].i != s.workers[w].i)
            && (forall w: nat :: w < |s.workers| && Busy(s.workers[w]) ==> s.workers[w].i < |c.channels| && s.workers[w].i !in s.got)
            && Active(s.workers) <= |s.workers| <= NormalizeConcurrency(c.concurrency) <= MAX_CONCURRENCY
            && s.summary == SumGot(s.got, |c.channels|) && Balanced(s.summary)
            && s.reports == UpTo(|s.reports|) && |s.reports| <= |s.got| + 1 <= |c.channels| + 1
  {
    RunKeepsInv(c, trace, actions, k);
    var s := trace[k];
    ActiveBound(s.workers);
    forall i | i in s.got && i < |c.channels| ensures Balanced(s.got[i]) {
      CancelledMayReturnMore(c.channels[i], s.cancelled, s.got[i]);
    }
    SumGotBalanced(s.got, |c.channels|);
    KeysBound(s.got, |c.channels|);
  }

  lemma KeysBound(got: map<nat, Summary>, n: nat)
    requires forall i :: i in got ==> i < n
    ensures |got| <= n
    ensures |got| == n ==> forall i :: 0 <= i < n ==> i in got
  {
    RangeSize(n);
    assert got.Keys <= Range(n);
    SubsetSize(got.Keys, Range(n));
  }

  function Range(n: nat): set<nat> {
    if n == 0 then {} else Range(n - 1) + {n - 1}
  }

  lemma {:induction false} RangeSize(n: nat)
    ensures |Range(n)| == n
    ensures forall i: nat :: i in Range(n) <==> i < n
  {
    if n > 0 {
      RangeSize(n - 1);
    }
  }

  lemma {:induction false} SubsetSize(a: set<nat>, b: set<nat>)
    requires a <= b
    ensures |a| <= |b|
    ensures |a| == |b| ==> a == b
  {
    if a != {} {
      var x :| x in a;
      SubsetSize(a - {x}, b - {x});
    }
  }

  /** A finished run that was never cancelled tested every channel: its summary is the
      sequential fold and its progress is 0, 1, ..., total. */
  lemma CompleteRun(c: Config, trace: seq<State>, actions: seq<Action>)
    requires c.Ok() && IsRun(c, trace, actions)
    requires var s := trace[|trace| - 1]; s.reducer.Returned? && !s.cancelled
    ensures var s := trace[|trace| - 1];
            && s.summary == SequentialFold(c.channels)
            && s.reports == UpTo(|c.channels| + 1)
            && s.processed == |c.channels|
  {
    hide Init; hide Enabled; hide Do; hide Results; hide SumGot;
    var s := trace[|trace| - 1];
    RunKeepsInv(c, trace, actions, |trace| - 1);
    AllReceived(c, s);
    ResultsOf(c, s);
    SumGotIsFold(s.got, c.channels);
  }

  function TestedOf(r: Summary): int { r.tested }
  function SucceededOf(r: Summary): int { r.succeeded }
  function FailedOf(r: Summary): int { r.failed }
  function DisabledOf(r: Summary): int { r.disabled }
  function EnabledOf(r: Summary): int { r.enabled }

  /** One counter of the received results, as a plain sum of integers. */
  function TotalReceived(got: map<nat, Summary>, counter: Summary -> int, n: nat): int {
    if n == 0 then 0 else TotalReceived(got, counter, n - 1) + (if n - 1 in got then counter(got[n - 1]) else 0)
  }

  /** One counter over the channels that are there and not manually disabled. */
  function TotalOutcome(channels: seq<Channel>, counter: Summary -> int): int {
    if channels == [] then 0
    else
      var last := channels[|channels| - 1];
      TotalOutcome(channels[..|channels| - 1], counter) + (if last.Channel? && last.status != 2 then counter(last.outcome) else 0)
  }

  ghost predicate Additive(counter: Summary -> int) {
    counter(ZERO) == 0 && forall a, b :: counter(Add(a, b)) == counter(a) + counter(b)
  }

  lemma {:induction false} CounterTotals(got: map<nat, Summary>, counter: Summary -> int, n: nat)
    requires Additive(counter)
    ensures counter(SumGot(got, n)) == TotalReceived(got, counter, n)
  {
    hide Add;
    if n > 0 {
      CounterTotals(got, counter, n - 1);
    }
  }

  lemma {:induction false} OutcomeTotals(channels: seq<Channel>, counter: Summary -> int)
    requires Additive(counter)
    ensures counter(SequentialFold(channels)) == TotalOutcome(channels, counter)
  {
    hide Add;
    if channels != [] {
      OutcomeTotals(channels[..|channels| - 1], counter);
    }
  }

  lemma CountersAreAdditive()
    ensures Additive(TestedOf) && Additive(SucceededOf) && Additive(FailedOf) && Additive(DisabledOf) && Additive(EnabledOf)
  {
  }

  /** What the five counters are worth in every reachable state, cancelled or not: each is the plain
      sum over exactly the received results, of which a skipped channel's is all zero and, as long as
      nothing was cancelled, any other's is what its check returned. */
  lemma SummaryCountsReceived(c: Config, trace: seq<State>, actions: seq<Action>, k: nat)
    requires c.Ok() && IsRun(c, trace, actions) && k < |trace|
    ensures var s, n := trace[k], |c.channels|;
            && s.summary.tested == TotalReceived(s.got, TestedOf, n)
            && s.summary.succeeded == TotalReceived(s.got, SucceededOf, n)
            && s.summary.failed == TotalReceived(s.got, FailedOf, n)
            && s.summary.disabled == TotalReceived(s.got, DisabledOf, n)
            && s.summary.enabled == TotalReceived(s.got, EnabledOf, n)
    ensures forall i :: i in trace[k].got ==>
              && i < |c.channels|
              && var ch, r := c.channels[i], trace[k].got[i];
                 && (ch.Nil? || ch.status == 2 ==> r == Summary(0, 0, 0, 0, 0))
                 && (ch.Channel? && ch.status != 2 && !trace[k].cancelled ==> r == ch.outcome)
  {
    Safety(c, trace, actions, k);
    RunKeepsInv(c, trace, actions, k);
    var s, n := trace[k], |c.channels|;
    CountersAreAdditive();
    CounterTotals(s.got, TestedOf, n);
    CounterTotals(s.got, SucceededOf, n);
    CounterTotals(s.got, FailedOf, n);
    CounterTotals(s.got, DisabledOf, n);
    CounterTotals(s.got, EnabledOf, n);
    hide Additive; hide Progress; hide Shutdown; hide Balanced; hide IsRun; hide SumGot; hide TotalReceived;
  }

  /** And what they are at the end of an uncancelled run: the plain sums over all channels that are
      there and not manually disabled, while progress has been 0, 1, ..., total. */
  lemma CompleteRunCounts(c: Config, trace: seq<State>, actions: seq<Action>)
    requires c.Ok() && IsRun(c, trace, actions)
    requires var s := trace[|trace| - 1]; s.reducer.Returned? && !s.cancelled
    ensures var s := trace[|trace| - 1];
            && s.summary.tested == TotalOutcome(c.channels, TestedOf)
            && s.summary.succeeded == TotalOutcome(c.channels, SucceededOf)
            && s.summary.failed == TotalOutcome(c.channels, FailedOf)
            && s.summary.disabled == TotalOutcome(c.channels, DisabledOf)
            && s.summary.enabled == TotalOutcome(c.channels, EnabledOf)
            && |s.reports| == |c.channels| + 1 && forall i :: 0 <= i < |s.reports| ==> s.reports[i] == i
  {
    CompleteRun(c, trace, actions);
    CountersAreAdditive();
    OutcomeTotals(c.channels, TestedOf);
    OutcomeTotals(c.channels, SucceededOf);
    OutcomeTotals(c.channels, FailedOf);
    OutcomeTotals(c.channels, DisabledOf);
    OutcomeTotals(c.channels, EnabledOf);
  }

  /** As many workers as configured, but at least one, at most 32 and at most one a channel. */
  lemma WorkersStarted(c: Config, trace: seq<State>, actions: seq<Action>, k: nat)
    requires c.Ok() && IsRun(c, trace, actions) && k < |trace|
    ensures var n, workers := |c.channels|, |trace[k].workers|;
            && (c.concurrency <= 1 ==> workers == if n == 0 then 0 else 1)
            && (1 <= c.concurrency <= 32 ==> workers == if c.concurrency < n then c.concurrency else n)
            && (c.concurrency > 32 ==> workers == if 32 < n then 32 else n)
  {
    RunKeepsInv(c, trace, actions, k);
  }

  lemma AllReceived(c: Config, s: State)
    requires Jobs(c, s) && Shutdown(c, s) && s.reducer.Returned? && !s.cancelled
    ensures forall i: nat :: i < |c.channels| ==> i in s.got
    ensures |s.got| == |c.channels|
  {
    if |c.channels| > 0 {
      assert s.workers[0].Done?;
    }
    assert s.next == |c.channels|;
    forall i: nat | i < |c.channels| ensures i in s.got {
      assert !WithOwner(s, i);
    }
    RangeSize(|c.channels|);
    assert s.got.Keys == Range(|c.channels|);
    assert |s.got| == |s.got.Keys|;
  }

  lemma ResultsOf(c: Config, s: State)
    requires Results(c, s) && !s.cancelled
    ensures forall i: nat :: i in s.got && i < |c.channels| ==>
              s.got[i] == if Skipped(c.channels[i]) then ZERO else c.channels[i].outcome
    ensures s.summary == SumGot(s.got, |c.channels|) && s.processed == |s.got|
  {
  }

  /** From every state the invariant allows, some goroutine can move until the reducer returns:
      the pool cannot deadlock, cancelled or not. */
  lemma NoDeadlock(c: Config, s: State) returns (a: Action)
    requires c.Ok() && Inv(c, s) && !s.reducer.Returned?
    ensures a != Cancel && Enabled(c, s, a)
  {
    if s.reducer.Reporting? {
      return Report;
    }
    if w: nat :| w < |s.workers| && !s.workers[w].Done? && !s.workers[w].Idle? {
      assert !s.resultsClosed;
      match s.workers[w]
      case Holding(i) => return if s.cancelled then WorkerDrops(w) else WorkerStarts(w);
      case Running(i) =>
        assert Busy(s.workers[w]);
        return WorkerFinishes(w, if Skipped(c.channels[i]) then ZERO else c.channels[i].outcome);
      case Sending(_, _) => return Receive(w);
      case Resting => return WorkerRested(w);
    }
    if w: nat :| w < |s.workers| && s.workers[w].Idle? {
      if s.jobsClosed {
        return WorkerSeesClosed(w);
      }
      return if s.next == |c.channels| then FeederCloses else Handoff(w);
    }
    return if s.resultsClosed then ReducerReturns else CloserCloses;
  }

  function Stage(w: Worker): nat {
    match w
    case Done => 0
    case Idle => 1
    case Resting => 2
    case Sending(_, _) => 4
    case Running(_) => 5
    case Holding(_) => 6
  }

  function Stages(workers: seq<Worker>): nat {
    if workers == [] then 0 else Stage(workers[0]) + Stages(workers[1..])
  }

  function One(b: bool): nat {
    if b then 1 else 0
  }

  /** Work left: it can only go down. */
  function Measure(c: Config, s: State): int {
    6 * (|c.channels| - s.next) + Stages(s.workers) + One(!s.jobsClosed) + One(!s.resultsClosed) + One(!s.cancelled)
    + (match s.reducer case Reporting => 2 case Waiting => 1 case Returned => 0)
  }

  lemma {:induction false} StagesUpdate(workers: seq<Worker>, w: nat, v: Worker)
    requires w < |workers|
    ensures Stages(workers[w := v]) == Stages(workers) - Stage(workers[w]) + Stage(v)
  {
    var after := workers[w := v];
    if w == 0 {
      assert after[1..] == workers[1..];
    } else {
      assert after[1..] == workers[1..][w - 1 := v];
      StagesUpdate(workers[1..], w - 1, v);
    }
  }

  lemma StepDecreases(c: Config, s: State, a: Action)
    requires s.next <= |c.channels| && Enabled(c, s, a)
    ensures 0 <= Measure(c, Do(c, s, a)) < Measure(c, s)
  {
    hide MayReturn; hide Stages; hide Add; hide Config.WorkerCount;
    if a.Handoff? || a.WorkerSeesCancel? || a.WorkerSeesClosed? || a.WorkerDrops? {
      StagesUpdate(s.workers, a.w, if a.Handoff? then Holding(s.next) else Done);
    } else if a.WorkerStarts? || a.WorkerFinishes? || a.WorkerRested? || a.Receive? {
      StagesUpdate(s.workers, a.w, Do(c, s, a).workers[a.w]);
    }
  }

  lemma {:induction false} IdleStages(n: nat)
    ensures Stages(seq(n, _ => Idle)) == n
  {
    if n > 0 {
      IdleStages(n - 1);
      assert seq(n, _ => Idle)[1..] == seq(n - 1, _ => Idle);
    }
  }

  lemma {:induction false} MeasureAfter(c: Config, trace: seq<State>, actions: seq<Action>, k: nat)
    requires c.Ok() && IsRun(c, trace, actions) && k < |trace|
    ensures 0 <= Measure(c, trace[k]) <= 6 * |c.channels| + c.WorkerCount() + 4 - k
  {
    hide Enabled; hide Do; hide Inv; hide Measure;
    if k == 0 {
      IdleStages(c.WorkerCount());
      InitMeasure(c, trace[0]);
    } else {
      MeasureAfter(c, trace, actions, k - 1);
      RunKeepsInv(c, trace, actions, k - 1);
      HandedAtMostAll(c, trace[k - 1]);
      StepDecreases(c, trace[k - 1], actions[k - 1]);
    }
  }

  lemma HandedAtMostAll(c: Config, s: State)
    requires Inv(c, s)
    ensures s.next <= |c.channels|
  {
  }

  lemma InitMeasure(c: Config, s: State)
    requires Init(c, s)
    ensures 0 <= Measure(c, s) <= 6 * |c.channels| + c.WorkerCount() + 4
  {
    IdleStages(c.WorkerCount());
  }

  /** No run takes more steps than this, and one that cannot be extended has returned: every
      pool finishes, whatever the scheduler and the canceller do. */
  lemma EveryRunEnds(c: Config, trace: seq<State>, actions: seq<Action>)
    requires c.Ok() && IsRun(c, trace, actions)
    ensures |actions| <= 6 * |c.channels| + c.WorkerCount() + 4
    ensures var s := trace[|trace| - 1];
            s.reducer.Returned? || exists a :: a != Cancel && Enabled(c, s, a)
  {
    hide Enabled; hide Do; hide Inv; hide Measure;
    MeasureAfter(c, trace, actions, |actions|);
    RunKeepsInv(c, trace, actions, |actions|);
    var s := trace[|trace| - 1];
    if !s.reducer.Returned? {
      var a := NoDeadlock(c, s);
    }
  }
}
