/** What the two kinds of body storage answer, call by call, as functions of the payload, the
    cursor and the closed flag. The memory storage sits on a `bytes.Reader`, the disk storage on an
    open file. */
module BodyCursor {
  import opened Bytes

  /** The length of a buffer that is not empty. */
  type Positive = x: int | x > 0 witness 1

  /** The most bytes one read of a file hands over, and the largest offset a file can be put at. */
  datatype FileSystem = FileSystem(limit: nat, maxOffset: Offset)

  datatype Whence = Start | Current | End

  datatype Operation = Read(length: nat) | Seek(offset: Int64, whence: Whence) | AllBytes | NewReader | Close

  datatype Answer =
    | Got(bytes: seq<Byte>)
    | EndOfFile
    | At(position: nat)
    | InvalidPosition
    | Content(bytes: seq<Byte>)
    | Opened(bytes: seq<Byte>)
    | Done
    | StorageClosed

  datatype Body = Body(data: seq<Byte>, pos: nat, closed: bool)

  predicate Fits(b: Body) {
    |b.data| <= MAX_INT64 && b.pos <= MAX_INT64
  }

  function Base(data: seq<Byte>, pos: nat, whence: Whence): nat {
    match whence
    case Start => 0
    case Current => pos
    case End => |data|
  }

  /** `bytes.Reader`: the end is reported before the buffer is looked at. */
  function ReaderRead(data: seq<Byte>, pos: nat, length: nat): Answer {
    if pos >= |data| then EndOfFile else Got(data[pos..pos + Min(length, |data| - pos)])
  }

  /** The sum is taken in 64 bits, where an overflow shows as a negative position. */
  function ReaderSeek(data: seq<Byte>, pos: nat, offset: Int64, whence: Whence): Answer {
    var target := Wrap64(Base(data, pos, whence) + offset);
    if target < 0 then InvalidPosition else At(target)
  }

  /** An open file: an empty buffer is answered without looking at the cursor. */
  function FileRead(data: seq<Byte>, pos: nat, length: nat, fs: FileSystem): Answer {
    if length == 0 then Got([])
    else if pos >= |data| then EndOfFile
    else Got(data[pos..pos + Min(Min(length, fs.limit), |data| - pos)])
  }

  function FileSeek(data: seq<Byte>, pos: nat, offset: Int64, whence: Whence, fs: FileSystem): Answer {
    var target := Base(data, pos, whence) + offset;
    if 0 <= target <= fs.maxOffset then At(target) else InvalidPosition
  }

  /** Where an answer leaves the cursor. */
  function After(pos: nat, answer: Answer): nat {
    match answer
    case Got(bytes) => pos + |bytes|
    case At(position) => position
    case _ => pos
  }

  function MemoryAnswer(b: Body, op: Operation): Answer {
    if op.Close? then Done
    else if b.closed then StorageClosed
    else match op
      case Read(length) => ReaderRead(b.data, b.pos, length)
      case Seek(offset, whence) => ReaderSeek(b.data, b.pos, offset, whence)
      case AllBytes => Content(b.data)
      case _ => Opened(b.data)
  }

  function DiskAnswer(b: Body, op: Operation, fs: FileSystem): Answer {
    if op.Close? then Done
    else if b.closed then StorageClosed
    else match op
      case Read(length) => FileRead(b.data, b.pos, length, fs)
      case Seek(offset, whence) => FileSeek(b.data, b.pos, offset, whence, fs)
      case AllBytes => Content(b.data)
      case _ => Opened(b.data)
  }

  function Next(b: Body, op: Operation, answer: Answer): Body {
    Body(b.data, After(b.pos, answer), b.closed || op.Close?)
  }

  function MemoryRun(b: Body, ops: seq<Operation>): (answers: seq<Answer>)
    ensures |answers| == |ops|
    decreases |ops|
  {
    if ops == [] then []
    else var answer := MemoryAnswer(b, ops[0]);
      [answer] + MemoryRun(Next(b, ops[0], answer), ops[1..])
  }

  function DiskRun(b: Body, ops: seq<Operation>, fs: FileSystem): (answers: seq<Answer>)
    ensures |answers| == |ops|
    decreases |ops|
  {
    if ops == [] then []
    else var answer := DiskAnswer(b, ops[0], fs);
      [answer] + DiskRun(Next(b, ops[0], answer), ops[1..], fs)
  }

  /** A position that is a word, but no file can be put there. */
  predicate OutOfReach(target: int, fs: FileSystem) {
    0 <= target <= MAX_INT64 && fs.maxOffset < target
  }

  /** The calls on which the two differ: an empty read at the end, a read that a single read of the
      file cannot serve, and a seek to where no file can be put. */
  predicate Distinguishes(b: Body, op: Operation, fs: FileSystem) {
    && !b.closed
    && match op
       case Read(length) => if b.pos >= |b.data| then length == 0 else Min(length, |b.data| - b.pos) > fs.limit
       case Seek(offset, whence) => OutOfReach(Base(b.data, b.pos, whence) + offset, fs)
       case _ => false
  }

  predicate NeverDistinguished(b: Body, ops: seq<Operation>, fs: FileSystem)
    decreases |ops|
  {
    || ops == []
    || (&& !Distinguishes(b, ops[0], fs)
        && NeverDistinguished(Next(b, ops[0], MemoryAnswer(b, ops[0])), ops[1..], fs))
  }

  /** The wrapped sum of the one and the bounded sum of the other refuse the same seeks, but for
      those between the largest offset and the largest word. */
  lemma SeeksAgreeExactly(b: Body, offset: Int64, whence: Whence, fs: FileSystem)
    requires Fits(b)
    ensures ReaderSeek(b.data, b.pos, offset, whence) == FileSeek(b.data, b.pos, offset, whence, fs)
       <==> !OutOfReach(Base(b.data, b.pos, whence) + offset, fs)
  {
    WrapKeepsWords(Base(b.data, b.pos, whence) + offset);
  }

  lemma AnswersDifferExactly(b: Body, op: Operation, fs: FileSystem)
    requires Fits(b)
    ensures MemoryAnswer(b, op) == DiskAnswer(b, op, fs) <==> !Distinguishes(b, op, fs)
  {
    if op.Seek? {
      SeeksAgreeExactly(b, op.offset, op.whence, fs);
    }
  }

  lemma NextFits(b: Body, op: Operation)
    requires Fits(b)
    ensures Fits(Next(b, op, MemoryAnswer(b, op)))
  {
  }

  /** Memory and disk storage of one payload answer a whole run alike exactly when no read of it is
      empty at the end or too long for one read of the file, and no seek out of a file's reach. */
  lemma {:induction false} SameAnswersExactly(b: Body, ops: seq<Operation>, fs: FileSystem)
    requires Fits(b)
    ensures MemoryRun(b, ops) == DiskRun(b, ops, fs) <==> NeverDistinguished(b, ops, fs)
    decreases |ops|
  {
    if ops != [] {
      AnswersDifferExactly(b, ops[0], fs);
      NextFits(b, ops[0]);
      var m, d := MemoryAnswer(b, ops[0]), DiskAnswer(b, ops[0], fs);
      var ms, ds := MemoryRun(Next(b, ops[0], m), ops[1..]), DiskRun(Next(b, ops[0], d), ops[1..], fs);
      assert ([m] + ms)[0] == m && ([d] + ds)[0] == d;
      assert ([m] + ms)[1..] == ms && ([d] + ds)[1..] == ds;
      if m == d {
        SameAnswersExactly(Next(b, ops[0], m), ops[1..], fs);
      }
    }
  }

  /** Calls that do not reach past what a file can do, whatever was called before. */
  predicate Ordinary(op: Operation, fs: FileSystem) {
    match op
    case Read(length) => 0 < length <= fs.limit
    case Seek(offset, whence) => offset <= if whence.Start? then fs.maxOffset else 0
    case _ => true
  }

  /** Ordinary calls cannot tell the storages apart, in whatever order they come. */
  lemma {:induction false} OrdinaryCallsAgree(b: Body, ops: seq<Operation>, fs: FileSystem)
    requires |b.data| <= fs.maxOffset && b.pos <= fs.maxOffset
    requires forall op <- ops :: Ordinary(op, fs)
    ensures MemoryRun(b, ops) == DiskRun(b, ops, fs)
    decreases |ops|
  {
    if ops != [] {
      assert ops[0] in ops;
      OrdinaryStepStays(b, ops[0], fs);
      hide Ordinary; hide MemoryAnswer; hide DiskAnswer; hide Next;
      OrdinaryCallsAgree(Next(b, ops[0], MemoryAnswer(b, ops[0])), ops[1..], fs);
    }
  }

  lemma OrdinaryStepStays(b: Body, op: Operation, fs: FileSystem)
    requires |b.data| <= fs.maxOffset && b.pos <= fs.maxOffset && Ordinary(op, fs)
    ensures MemoryAnswer(b, op) == DiskAnswer(b, op, fs)
    ensures var next := Next(b, op, MemoryAnswer(b, op)); next.data == b.data && next.pos <= fs.maxOffset
  {
    AnswersDifferExactly(b, op, fs);
    hide Wrap64;
  }

  lemma EmptyReadAtTheEndDiffers(fs: FileSystem)
    ensures var b := Body([7], 1, false);
            MemoryRun(b, [Read(0)]) == [EndOfFile] && DiskRun(b, [Read(0)], fs) == [Got([])]
  {
    var b := Body([7], 1, false);
    assert MemoryRun(Next(b, Read(0), EndOfFile), []) == [];
    assert DiskRun(Next(b, Read(0), Got([])), [], fs) == [];
  }

  function Gathered(answers: seq<Answer>): seq<Byte> {
    if answers == [] then []
    else Taken(answers[0]) + Gathered(answers[1..])
  }

  function Reads(lengths: seq<Positive>): seq<Operation> {
    seq(|lengths|, i requires 0 <= i < |lengths| => Read(lengths[i]))
  }

  function Taken(answer: Answer): seq<Byte> {
    if answer.Got? then answer.bytes else []
  }

  /** These bytes are what the payload holds from here on, for as long as they last. */
  predicate Follows(data: seq<Byte>, pos: nat, bytes: seq<Byte>) {
    pos + |bytes| <= |data| && bytes == data[pos..pos + |bytes|]
  }

  lemma FollowsOn(data: seq<Byte>, pos: nat, bytes: seq<Byte>, more: seq<Byte>)
    requires Follows(data, pos, bytes) && Follows(data, pos + |bytes|, more)
    ensures Follows(data, pos, bytes + more)
  {
  }

  lemma FileReadTakes(b: Body, length: nat, fs: FileSystem)
    requires b.pos <= |b.data| && !b.closed && length > 0 && fs.limit > 0
    ensures var bytes := Taken(DiskAnswer(b, Read(length), fs));
            && Follows(b.data, b.pos, bytes)
            && (bytes == [] ==> b.pos == |b.data|)
            && b.pos + |bytes| <= |b.data|
            && Next(b, Read(length), DiskAnswer(b, Read(length), fs)) == Body(b.data, b.pos + |bytes|, false)
  {
  }

  /** What a file hands over to reads with these buffers. */
  function HandedOver(b: Body, lengths: seq<Positive>, fs: FileSystem): seq<Byte> {
    Gathered(DiskRun(b, Reads(lengths), fs))
  }

  lemma GatheredStep(b: Body, lengths: seq<Positive>, fs: FileSystem)
    requires lengths != []
    ensures var answer := DiskAnswer(b, Read(lengths[0]), fs);
            HandedOver(b, lengths, fs) == Taken(answer) + HandedOver(Next(b, Read(lengths[0]), answer), lengths[1..], fs)
  {
    var ops := Reads(lengths);
    assert ops[0] == Read(lengths[0]) && ops[1..] == Reads(lengths[1..]);
    var answer := DiskAnswer(b, ops[0], fs);
    var answers := DiskRun(b, ops, fs);
    assert answers[0] == answer && answers[1..] == DiskRun(Next(b, ops[0], answer), Reads(lengths[1..]), fs);
  }

  /** A stretch of what follows, at least a byte for each length unless the payload ended. */
  predicate GoesOn(data: seq<Byte>, pos: nat, got: seq<Byte>, calls: nat) {
    Follows(data, pos, got) && (|got| >= calls || |got| == |data| - pos)
  }

  lemma GoesOnStep(data: seq<Byte>, pos: nat, bytes: seq<Byte>, more: seq<Byte>, calls: nat)
    requires Follows(data, pos, bytes) && (bytes == [] ==> pos == |data|)
    requires GoesOn(data, pos + |bytes|, more, calls)
    ensures GoesOn(data, pos, bytes + more, calls + 1)
  {
    FollowsOn(data, pos, bytes, more);
  }

  /** Reading on from anywhere with non-empty buffers, of whatever sizes, hands over the rest of the
      payload in order and without a gap, at least one byte a call. */
  lemma {:induction false} ReadsHandOverTheRest(b: Body, lengths: seq<Positive>, fs: FileSystem)
    requires b.pos <= |b.data| && !b.closed && fs.limit > 0
    ensures GoesOn(b.data, b.pos, HandedOver(b, lengths, fs), |lengths|)
    decreases |lengths|
  {
    hide HandedOver; hide GoesOn; hide Follows; hide DiskAnswer; hide Next; hide Taken;
    if lengths == [] {
      NothingHandedOver(b, lengths, fs);
    } else {
      FileReadTakes(b, lengths[0], fs);
      var rest := Next(b, Read(lengths[0]), DiskAnswer(b, Read(lengths[0]), fs));
      ReadsHandOverTheRest(rest, lengths[1..], fs);
      OneMoreRead(b, lengths, fs, rest);
    }
  }

  lemma NothingHandedOver(b: Body, lengths: seq<Positive>, fs: FileSystem)
    requires b.pos <= |b.data| && lengths == []
    ensures GoesOn(b.data, b.pos, HandedOver(b, lengths, fs), 0)
  {
  }

  lemma OneMoreRead(b: Body, lengths: seq<Positive>, fs: FileSystem, rest: Body)
    requires b.pos <= |b.data| && !b.closed && fs.limit > 0 && lengths != []
    requires rest == Next(b, Read(lengths[0]), DiskAnswer(b, Read(lengths[0]), fs))
    requires GoesOn(rest.data, rest.pos, HandedOver(rest, lengths[1..], fs), |lengths| - 1)
    ensures GoesOn(b.data, b.pos, HandedOver(b, lengths, fs), |lengths|)
  {
    hide HandedOver; hide GoesOn; hide Follows; hide DiskAnswer; hide Next; hide Taken;
    GatheredStep(b, lengths, fs);
    FileReadTakes(b, lengths[0], fs);
    var bytes := Taken(DiskAnswer(b, Read(lengths[0]), fs));
    GoesOnStep(b.data, b.pos, bytes, HandedOver(rest, lengths[1..], fs), |lengths| - 1);
  }

  /** With no more asked for than one read serves, a file reads like a `bytes.Reader`. */
  lemma {:induction false} ReadsLikeAFile(b: Body, lengths: seq<Positive>, fs: FileSystem)
    requires |b.data| <= fs.limit
    ensures MemoryRun(b, Reads(lengths)) == DiskRun(b, Reads(lengths), fs)
    decreases |lengths|
  {
    if lengths != [] {
      var ops := Reads(lengths);
      assert ops[0] == Read(lengths[0]) && ops[1..] == Reads(lengths[1..]);
      assert MemoryAnswer(b, ops[0]) == DiskAnswer(b, ops[0], fs);
      ReadsLikeAFile(Next(b, ops[0], MemoryAnswer(b, ops[0])), lengths[1..], fs);
    }
  }

  /** Enough reads from the start hand over the whole payload. */
  lemma WholePayloadHandedOver(data: seq<Byte>, lengths: seq<Positive>, fs: FileSystem)
    requires fs.limit > 0 && |lengths| >= |data|
    ensures HandedOver(Body(data, 0, false), lengths, fs) == data
  {
    ReadsHandOverTheRest(Body(data, 0, false), lengths, fs);
    hide HandedOver;
    assert data[0..|data|] == data;
  }

  /** So a reader opened by `NewReader` yields the whole payload, from either storage, whatever the
      sizes of the buffers and whatever happens to the storage meanwhile: it starts at zero with a
      cursor of its own. */
  lemma ReplayYieldsThePayload(b: Body, op: Operation, lengths: seq<Positive>, fs: FileSystem)
    requires !b.closed && op.NewReader? && fs.limit > 0 && |lengths| >= |b.data|
    ensures var reader := DiskAnswer(b, op, fs);
            && reader == MemoryAnswer(b, op)
            && reader.Opened?
            && var replay := Body(reader.bytes, 0, false);
               && HandedOver(replay, lengths, fs) == b.data
               && Gathered(MemoryRun(replay, Reads(lengths))) == b.data
  {
    var replay, wide := Body(b.data, 0, false), FileSystem(|b.data| + 1, fs.maxOffset);
    WholePayloadHandedOver(b.data, lengths, fs);
    WholePayloadHandedOver(b.data, lengths, wide);
    ReadsLikeAFile(replay, lengths, wide);
  }

  /** Neither `Bytes` nor `NewReader` moves the cursor or is affected by it, and closing is final. */
  lemma {:induction false} ClosedForGood(b: Body, ops: seq<Operation>, fs: FileSystem)
    requires b.closed
    ensures DiskRun(b, ops, fs) == MemoryRun(b, ops)
    ensures forall i :: 0 <= i < |ops| ==> MemoryRun(b, ops)[i] == if ops[i].Close? then Done else StorageClosed
    decreases |ops|
  {
    if ops != [] {
      ClosedForGood(Next(b, ops[0], MemoryAnswer(b, ops[0])), ops[1..], fs);
    }
  }

  function Without(answers: seq<Answer>, i: nat): seq<Answer>
    requires i < |answers|
  {
    answers[..i] + answers[i + 1..]
  }

  lemma WithoutLater(first: Answer, rest: seq<Answer>, i: nat)
    requires i < |rest|
    ensures Without([first] + rest, i + 1) == [first] + Without(rest, i)
  {
  }

  /** Taking the contents or opening readers in the middle of a run changes no other answer. */
  lemma {:induction false} ObserversAreTransparent(b: Body, before: seq<Operation>, op: Operation, after: seq<Operation>, fs: FileSystem)
    requires op.AllBytes? || op.NewReader?
    ensures Without(DiskRun(b, before + [op] + after, fs), |before|) == DiskRun(b, before + after, fs)
    decreases |before|
  {
    hide Without;
    var observed := before + [op] + after;
    if before == [] {
      assert observed == [op] + after && observed[1..] == after && before + after == after;
      assert Next(b, op, DiskAnswer(b, op, fs)) == b;
      FirstLeftOut(DiskAnswer(b, op, fs), DiskRun(b, after, fs));
    } else {
      hide DiskAnswer; hide Next;
      var first := DiskAnswer(b, before[0], fs);
      var next := Next(b, before[0], first);
      ObserversAreTransparent(next, before[1..], op, after, fs);
      assert observed[1..] == before[1..] + [op] + after && observed[0] == before[0];
      assert (before + after)[1..] == before[1..] + after && (before + after)[0] == before[0];
      WithoutLater(first, DiskRun(next, before[1..] + [op] + after, fs), |before| - 1);
    }
  }

  lemma FirstLeftOut(first: Answer, rest: seq<Answer>)
    ensures Without([first] + rest, 0) == rest
  {
  }

  /** The contents and a new reader are the whole payload wherever the cursor is: after any run
      without a close, and from either storage. */
  lemma {:induction false} ContentsAreWhole(b: Body, before: seq<Operation>, op: Operation, fs: FileSystem)
    requires !b.closed && (forall o <- before :: !o.Close?)
    requires op.AllBytes? || op.NewReader?
    ensures var answer := if op.AllBytes? then Content(b.data) else Opened(b.data);
            MemoryRun(b, before + [op])[|before|] == answer && DiskRun(b, before + [op], fs)[|before|] == answer
    decreases |before|
  {
    var ops := before + [op];
    if before == [] {
      assert ops == [op];
    } else {
      assert before[0] in before && ops[0] == before[0] && ops[1..] == before[1..] + [op];
      assert forall o <- before[1..] :: o in before;
      ContentsAreWhole(Next(b, before[0], MemoryAnswer(b, before[0])), before[1..], op, fs);
      ContentsAreWhole(Next(b, before[0], DiskAnswer(b, before[0], fs)), before[1..], op, fs);
    }
  }

  /** What one read of an open storage hands over, byte by byte, and where it leaves the cursor. */
  lemma ReadsExactly(b: Body, length: nat, fs: FileSystem)
    requires !b.closed
    ensures var answer := MemoryAnswer(b, Read(length));
            if b.pos >= |b.data| then answer == EndOfFile
            else
              && answer.Got? && |answer.bytes| == (if length < |b.data| - b.pos then length else |b.data| - b.pos)
              && forall i :: 0 <= i < |answer.bytes| ==> answer.bytes[i] == b.data[b.pos + i]
    ensures var answer := DiskAnswer(b, Read(length), fs);
            if length == 0 then answer == Got([])
            else if b.pos >= |b.data| then answer == EndOfFile
            else
              && answer.Got? && |answer.bytes| <= length && |answer.bytes| <= |b.data| - b.pos && |answer.bytes| <= fs.limit
              && (|answer.bytes| == length || |answer.bytes| == |b.data| - b.pos || |answer.bytes| == fs.limit)
              && forall i :: 0 <= i < |answer.bytes| ==> answer.bytes[i] == b.data[b.pos + i]
    ensures var answer := MemoryAnswer(b, Read(length));
            Next(b, Read(length), answer) == Body(b.data, b.pos + (if answer.Got? then |answer.bytes| else 0), false)
    ensures var answer := DiskAnswer(b, Read(length), fs);
            Next(b, Read(length), answer) == Body(b.data, b.pos + (if answer.Got? then |answer.bytes| else 0), false)
  {
  }

  /** Where a seek goes: counted from the start, the cursor or the end, and refused without moving the
      cursor when that is negative or no word - or, for a file, out of its reach. */
  lemma SeeksExactly(b: Body, offset: Int64, whence: Whence, fs: FileSystem)
    requires Fits(b) && !b.closed
    ensures var target := offset + (if whence.Start? then 0 else if whence.Current? then b.pos else |b.data|);
            var op := Seek(offset, whence);
            && (var answer := MemoryAnswer(b, op);
                if 0 <= target <= 0x7FFF_FFFF_FFFF_FFFF then answer == At(target) && Next(b, op, answer) == Body(b.data, target, false)
                else answer == InvalidPosition && Next(b, op, answer) == b)
            && (var answer := DiskAnswer(b, op, fs);
                if 0 <= target <= fs.maxOffset then answer == At(target) && Next(b, op, answer) == Body(b.data, target, false)
                else answer == InvalidPosition && Next(b, op, answer) == b)
  {
    WrapKeepsWords(Base(b.data, b.pos, whence) + offset);
    hide Wrap64;
  }

  /** From the first close on, both storages refuse everything but further closes. */
  lemma {:induction false} ClosesForGood(b: Body, ops: seq<Operation>, j: nat, fs: FileSystem)
    requires j < |ops| && ops[j].Close?
    ensures forall i :: j <= i < |ops| ==> MemoryRun(b, ops)[i] == if ops[i].Close? then Done else StorageClosed
    ensures forall i :: j <= i < |ops| ==> DiskRun(b, ops, fs)[i] == if ops[i].Close? then Done else StorageClosed
    decreases |ops|
  {
    var m, d := Next(b, ops[0], MemoryAnswer(b, ops[0])), Next(b, ops[0], DiskAnswer(b, ops[0], fs));
    if j == 0 {
      ClosedForGood(m, ops[1..], fs);
      ClosedForGood(d, ops[1..], fs);
    } else {
      ClosesForGood(m, ops[1..], j - 1, fs);
      ClosesForGood(d, ops[1..], j - 1, fs);
    }
  }
}
