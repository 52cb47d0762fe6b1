/** The disk counters under concurrency: each is changed by atomic adds of its own, with no lock
    around them, so the adds of different creations and closes interleave in any order. */
module BodyCounters {

  /** Where the one creation and the one counted close of a storage have got to. */
  datatype Phase = Created | FileAdded | Open | FileTaken | Gone

  datatype Storage = Storage(size: nat, phase: Phase)

  /** `clamped` records that a counter was found below zero and set back. */
  datatype State = State(files: int, bytes: int, clamped: bool, storages: seq<Storage>)

  const NOTHING := State(0, 0, false, [])

  /** One atomic add, with the test that follows it. */
  datatype Step =
    | Begin(size: nat)
    | AddFile(i: nat)
    | AddBytes(i: nat)
    | TakeFile(i: nat)
    | TakeBytes(i: nat)

  function Before(a: Step): Phase
    requires !a.Begin?
  {
    match a
    case AddFile(_) => Created
    case AddBytes(_) => FileAdded
    case TakeFile(_) => Open
    case TakeBytes(_) => FileTaken
  }

  function Next(p: Phase): Phase {
    match p
    case Created => FileAdded
    case FileAdded => Open
    case Open => FileTaken
    case FileTaken => Gone
    case Gone => Gone
  }

  predicate Enabled(s: State, a: Step) {
    a.Begin? || (a.i < |s.storages| && s.storages[a.i].phase == Before(a))
  }

  /** A counter after an add, set back to zero when it is found below. */
  function Clamped(counter: int): int {
    if counter < 0 then 0 else counter
  }

  function Do(s: State, a: Step): State
    requires Enabled(s, a)
  {
    if a.Begin? then s.(storages := s.storages + [Storage(a.size, Created)])
    else
      var it := s.storages[a.i];
      var moved := s.(storages := s.storages[a.i := it.(phase := Next(it.phase))]);
      match a
      case AddFile(_) => moved.(files := s.files + 1)
      case AddBytes(_) => moved.(bytes := s.bytes + it.size)
      case TakeFile(_) => moved.(files := Clamped(s.files - 1), clamped := s.clamped || s.files - 1 < 0)
      case TakeBytes(_) => moved.(bytes := Clamped(s.bytes - it.size), clamped := s.clamped || s.bytes - it.size < 0)
  }

  /** What a storage has added to the counters and not taken back. */
  function FileOf(s: Storage): nat {
    if s.phase.FileAdded? || s.phase.Open? then 1 else 0
  }

  function BytesOf(s: Storage): nat {
    if s.phase.Open? || s.phase.FileTaken? then s.size else 0
  }

  function Files(storages: seq<Storage>): nat {
    if storages == [] then 0 else FileOf(storages[0]) + Files(storages[1..])
  }

  function TotalBytes(storages: seq<Storage>): nat {
    if storages == [] then 0 else BytesOf(storages[0]) + TotalBytes(storages[1..])
  }

  predicate Exact(s: State) {
    s.files == Files(s.storages) && s.bytes == TotalBytes(s.storages) && !s.clamped
  }

  lemma {:induction false} OneChanged(storages: seq<Storage>, i: nat, it: Storage)
    requires i < |storages|
    ensures Files(storages[i := it]) == Files(storages) - FileOf(storages[i]) + FileOf(it)
    ensures TotalBytes(storages[i := it]) == TotalBytes(storages) - BytesOf(storages[i]) + BytesOf(it)
  {
    var after := storages[i := it];
    if i == 0 {
      assert after[1..] == storages[1..];
    } else {
      assert after[1..] == storages[1..][i - 1 := it];
      OneChanged(storages[1..], i - 1, it);
    }
  }

  lemma {:induction false} OneMore(storages: seq<Storage>, it: Storage)
    ensures Files(storages + [it]) == Files(storages) + FileOf(it)
    ensures TotalBytes(storages + [it]) == TotalBytes(storages) + BytesOf(it)
  {
    if storages == [] {
      assert storages + [it] == [it];
    } else {
      assert (storages + [it])[1..] == storages[1..] + [it];
      OneMore(storages[1..], it);
    }
  }

  lemma {:induction false} PartOfTotal(storages: seq<Storage>, i: nat)
    requires i < |storages|
    ensures FileOf(storages[i]) <= Files(storages) && BytesOf(storages[i]) <= TotalBytes(storages)
  {
    if i > 0 {
      PartOfTotal(storages[1..], i - 1);
    }
  }

  lemma StepExact(s: State, a: Step)
    requires Exact(s) && Enabled(s, a)
    ensures Exact(Do(s, a))
  {
    hide Files; hide TotalBytes;
    if a.Begin? {
      OneMore(s.storages, Storage(a.size, Created));
    } else {
      var it := s.storages[a.i];
      OneChanged(s.storages, a.i, it.(phase := Next(it.phase)));
      PartOfTotal(s.storages, a.i);
    }
  }

  ghost predicate IsRun(trace: seq<State>, steps: seq<Step>) {
    && |trace| == |steps| + 1 && trace[0] == NOTHING
    && forall k :: 0 <= k < |steps| ==> Enabled(trace[k], steps[k]) && trace[k + 1] == Do(trace[k], steps[k])
  }

  /** In every interleaving of the single adds no counter ever falls below zero, and each is at all
      times what the storages have added to it and not yet taken back. */
  lemma {:induction false} NeverClamped(trace: seq<State>, steps: seq<Step>, k: nat)
    requires IsRun(trace, steps) && k < |trace|
    ensures Exact(trace[k])
  {
    if k > 0 {
      NeverClamped(trace, steps, k - 1);
      StepExact(trace[k - 1], steps[k - 1]);
    }
  }

  /** Whenever every creation and close has finished, the counters are the number and the size of
      the open storages, in whatever order the adds were made. */
  lemma {:induction false} ExactAtRest(storages: seq<Storage>, open: seq<Storage>)
    requires forall s <- storages :: s.phase.Open? || s.phase.Gone?
    requires open == OpenOnes(storages)
    ensures Files(storages) == |open| && TotalBytes(storages) == SizeOf(open)
  {
    if storages != [] {
      ExactAtRest(storages[1..], OpenOnes(storages[1..]));
      var rest := OpenOnes(storages[1..]);
      assert storages[0] in storages;
      if storages[0].phase.Open? {
        assert open == [storages[0]] + rest && open[1..] == rest;
      } else {
        assert open == rest;
      }
    }
  }

  function OpenOnes(storages: seq<Storage>): seq<Storage> {
    if storages == [] then []
    else (if storages[0].phase.Open? then [storages[0]] else []) + OpenOnes(storages[1..])
  }

  function SizeOf(storages: seq<Storage>): nat {
    if storages == [] then 0 else storages[0].size + SizeOf(storages[1..])
  }
}
