/** Which storage a body goes to, which bodies are refused, and what the global counters say, over
    whole runs of creations and closes. */
module BodyAccounts {
  import opened Bytes

  /** Sizes in bytes. */
  datatype Config = Config(enabled: bool, threshold: int, maxSize: Int64)

  datatype Counters = Counters(diskFiles: int, diskBytes: int, memoryBuffers: int, memoryBytes: int, diskHits: int, memoryHits: int)

  const NO_COUNTS := Counters(0, 0, 0, 0, 0, 0)

  function IncrementDiskFiles(c: Counters, size: int): Counters {
    c.(diskFiles := c.diskFiles + 1, diskBytes := c.diskBytes + size)
  }

  /** Only the disk counters are kept from going below zero. */
  function DecrementDiskFiles(c: Counters, size: int): Counters {
    var files, bytes := c.diskFiles - 1, c.diskBytes - size;
    c.(diskFiles := if files < 0 then 0 else files, diskBytes := if bytes < 0 then 0 else bytes)
  }

  function IncrementMemoryBuffers(c: Counters, size: int): Counters {
    c.(memoryBuffers := c.memoryBuffers + 1, memoryBytes := c.memoryBytes + size)
  }

  function DecrementMemoryBuffers(c: Counters, size: int): Counters {
    c.(memoryBuffers := c.memoryBuffers - 1, memoryBytes := c.memoryBytes - size)
  }

  function Increment(c: Counters, onDisk: bool, size: int): Counters {
    if onDisk then IncrementDiskFiles(c, size) else IncrementMemoryBuffers(c, size)
  }

  function Decrement(c: Counters, onDisk: bool, size: int): Counters {
    if onDisk then DecrementDiskFiles(c, size) else DecrementMemoryBuffers(c, size)
  }

  function Hit(c: Counters, onDisk: bool): Counters {
    if onDisk then c.(diskHits := c.diskHits + 1) else c.(memoryHits := c.memoryHits + 1)
  }

  /** The sum is a 64-bit one. */
  predicate IsDiskCacheAvailable(c: Counters, config: Config, size: Int64) {
    config.enabled && Wrap64(c.diskBytes + size) <= config.maxSize
  }

  /** The call on the new cache file that goes wrong. */
  datatype Fault = NoFault | CreateFails | WriteFails | SeekFails

  /** How a request body ends: well, with an error, or with the reader's own complaint about its size. */
  datatype Ending = Ends | BreaksOff | OverLimit

  /** `together` means that the error comes with the last bytes and not in a call of its own. */
  datatype Source = Source(payload: seq<Byte>, ending: Ending, together: bool)

  datatype CreateError = TooLarge | ReaderTooLarge | ReaderFailed | DiskFailed

  datatype Created = Stored(onDisk: bool, data: seq<Byte>) | Refused(error: CreateError)

  function EndingError(ending: Ending): CreateError
    requires !ending.Ends?
  {
    if ending.OverLimit? then ReaderTooLarge else ReaderFailed
  }

  /** What is left of a reader behind `io.LimitReader(reader, maxBytes + 1)`: once the limit is
      reached the reader is not asked again, so that its error shows only if it came with the byte
      that reaches the limit. The limit is a 64-bit sum. */
  function Limited(source: Source, maxBytes: Int64): Source {
    var n := Wrap64(maxBytes + 1);
    if n <= 0 then Source([], Ends, false)
    else if |source.payload| > n || (|source.payload| == n && !source.together) then Source(source.payload[..n], Ends, false)
    else source
  }

  /** The error that the limit does not hide, although the body is one byte too long. */
  predicate ErrorAtTheLimit(source: Source, maxBytes: Int64) {
    source.together && !source.ending.Ends? && 0 < |source.payload| == maxBytes + 1
  }

  predicate GoesToDisk(c: Counters, config: Config, size: Int64) {
    config.enabled && size >= config.threshold && IsDiskCacheAvailable(c, config, size)
  }

  /** `CreateBodyStorage`: any trouble with the file falls back to memory. */
  function CreateFromBytes(c: Counters, config: Config, data: seq<Byte>, fault: Fault): (Counters, Created)
    requires |data| <= MAX_INT64
  {
    var onDisk := GoesToDisk(c, config, |data|) && fault.NoFault?;
    (Increment(c, onDisk, |data|), Stored(onDisk, data))
  }

  /** `newDiskStorageFromReader`. */
  function StreamToDisk(source: Source, maxBytes: Int64, fault: Fault): Created {
    var limited := Limited(source, maxBytes);
    if fault.CreateFails? || (fault.WriteFails? && limited.payload != []) then Refused(DiskFailed)
    else if !limited.ending.Ends? then Refused(EndingError(limited.ending))
    else if |limited.payload| > maxBytes then Refused(TooLarge)
    else if fault.SeekFails? then Refused(DiskFailed)
    else Stored(true, limited.payload)
  }

  /** `CreateBodyStorageFromReader`. A body streamed to disk cannot fall back: the reader is used up. */
  function CreateFromReader(c: Counters, config: Config, source: Source, contentLength: Int64, maxBytes: Int64, fault: Fault): (Counters, Created) {
    if contentLength > 0 && GoesToDisk(c, config, contentLength) then
      var created := StreamToDisk(source, maxBytes, fault);
      if created.Refused? then (c, created) else (Hit(IncrementDiskFiles(c, |created.data|), true), created)
    else
      var limited := Limited(source, maxBytes);
      if !limited.ending.Ends? then (c, Refused(EndingError(limited.ending)))
      else if |limited.payload| > maxBytes then (c, Refused(TooLarge))
      else
        var (counters, created) := CreateFromBytes(c, config, limited.payload, fault);
        (Hit(counters, created.onDisk), created)
  }

  /** The answer the limit promises. */
  function Promised(source: Source, maxBytes: Int64, onDisk: bool): Created {
    if |source.payload| > maxBytes && !ErrorAtTheLimit(source, maxBytes) then Refused(TooLarge)
    else if source.ending.Ends? then Stored(onDisk, source.payload)
    else Refused(EndingError(source.ending))
  }

  /** Memory or disk, a reader's body is refused as too large exactly when it is longer than the
      limit and is otherwise stored whole -- unless the limit is the largest word, where the limit
      plus one wraps around and whatever comes is taken for an empty body. */
  lemma LimitKeptExactly(c: Counters, config: Config, source: Source, contentLength: Int64, maxBytes: Int64)
    ensures var created := CreateFromReader(c, config, source, contentLength, maxBytes, NoFault).1;
            (created == Promised(source, maxBytes, created.Stored? && created.onDisk)
             <==> maxBytes < MAX_INT64 || (source.payload == [] && source.ending.Ends?))
    ensures maxBytes == MAX_INT64 ==>
              var created := CreateFromReader(c, config, source, contentLength, maxBytes, NoFault).1;
              created.Stored? && created.data == []
  {
    WrapKeepsWords(maxBytes + 1);
    if maxBytes < MAX_INT64 && |source.payload| >= maxBytes + 1 && maxBytes + 1 > 0 {
      assert |Limited(source, maxBytes).payload| == maxBytes + 1;
    }
  }

  /** Trouble with the cache file never stores a wrong body and never refuses one as too large that
      is not; a body longer than the limit is then refused for one reason or the other. */
  lemma FaultsStayHonest(c: Counters, config: Config, source: Source, contentLength: Int64, maxBytes: Int64, fault: Fault)
    requires maxBytes < MAX_INT64
    ensures var created := CreateFromReader(c, config, source, contentLength, maxBytes, fault).1;
            (|| created == Promised(source, maxBytes, created.Stored? && created.onDisk)
             || (created == Refused(DiskFailed) && !fault.NoFault? && contentLength > 0 && GoesToDisk(c, config, contentLength)))
  {
    WrapKeepsWords(maxBytes + 1);
    if |source.payload| >= maxBytes + 1 && maxBytes + 1 > 0 {
      assert |Limited(source, maxBytes).payload| == maxBytes + 1;
    }
  }

  datatype Storage = Storage(onDisk: bool, size: nat, closed: bool)

  datatype World = World(counters: Counters, storages: seq<Storage>)

  datatype Action =
    | FromBytes(data: seq<Byte>, fault: Fault)
    | FromReader(source: Source, contentLength: Int64, maxBytes: Int64, failing: Fault)
    | Close(index: nat)

  predicate Possible(a: Action) {
    a.FromBytes? ==> |a.data| <= MAX_INT64
  }

  function Keep(storages: seq<Storage>, created: Created): seq<Storage> {
    if created.Stored? then storages + [Storage(created.onDisk, |created.data|, false)] else storages
  }

  function Step(w: World, config: Config, a: Action): World
    requires Possible(a)
  {
    match a
    case FromBytes(data, fault) =>
      var (counters, created) := CreateFromBytes(w.counters, config, data, fault);
      World(counters, Keep(w.storages, created))
    case FromReader(source, contentLength, maxBytes, fault) =>
      var (counters, created) := CreateFromReader(w.counters, config, source, contentLength, maxBytes, fault);
      World(counters, Keep(w.storages, created))
    case Close(index) =>
      if index >= |w.storages| || w.storages[index].closed then w
      else
        var s := w.storages[index];
        World(Decrement(w.counters, s.onDisk, s.size), w.storages[index := s.(closed := true)])
  }

  predicate IsOpen(s: Storage, onDisk: bool) {
    s.onDisk == onDisk && !s.closed
  }

  function OpenCount(storages: seq<Storage>, onDisk: bool): nat {
    if storages == [] then 0
    else
      var last := |storages| - 1;
      OpenCount(storages[..last], onDisk) + (if IsOpen(storages[last], onDisk) then 1 else 0)
  }

  function OpenBytes(storages: seq<Storage>, onDisk: bool): nat {
    if storages == [] then 0
    else
      var last := |storages| - 1;
      OpenBytes(storages[..last], onDisk) + (if IsOpen(storages[last], onDisk) then storages[last].size else 0)
  }

  /** The counters are the number and the total size of the open storages of each kind. */
  predicate Accounts(w: World) {
    && w.counters.diskFiles == OpenCount(w.storages, true)
    && w.counters.diskBytes == OpenBytes(w.storages, true)
    && w.counters.memoryBuffers == OpenCount(w.storages, false)
    && w.counters.memoryBytes == OpenBytes(w.storages, false)
  }

  lemma OneMore(storages: seq<Storage>, s: Storage, onDisk: bool)
    requires !s.closed
    ensures OpenCount(storages + [s], onDisk) == OpenCount(storages, onDisk) + if s.onDisk == onDisk then 1 else 0
    ensures OpenBytes(storages + [s], onDisk) == OpenBytes(storages, onDisk) + if s.onDisk == onDisk then s.size else 0
  {
    assert (storages + [s])[..|storages|] == storages;
  }

  lemma {:induction false} OneLess(storages: seq<Storage>, index: nat, onDisk: bool)
    requires index < |storages| && !storages[index].closed
    ensures var s, rest := storages[index], storages[index := storages[index].(closed := true)];
            && OpenCount(rest, onDisk) == OpenCount(storages, onDisk) - (if s.onDisk == onDisk then 1 else 0)
            && OpenBytes(rest, onDisk) == OpenBytes(storages, onDisk) - (if s.onDisk == onDisk then s.size else 0)
  {
    var last := |storages| - 1;
    var rest := storages[index := storages[index].(closed := true)];
    if index == last {
      assert rest[..last] == storages[..last];
    } else {
      assert rest[..last] == storages[..last][index := storages[index].(closed := true)];
      OneLess(storages[..last], index, onDisk);
    }
  }

  lemma CreationAccounts(w: World, counters: Counters, created: Created)
    requires Accounts(w)
    requires created.Refused? ==> counters == w.counters
    requires created.Stored? ==>
               var added := Increment(w.counters, created.onDisk, |created.data|);
               counters == added || counters == Hit(added, created.onDisk)
    ensures Accounts(World(counters, Keep(w.storages, created)))
  {
    hide OpenCount; hide OpenBytes;
    if created.Stored? {
      var s := Storage(created.onDisk, |created.data|, false);
      OneMore(w.storages, s, true);
      OneMore(w.storages, s, false);
    }
  }

  /** No creation, failed creation or close, first or repeated, puts the counters out of step. */
  lemma StepAccounts(w: World, config: Config, a: Action)
    requires Accounts(w) && Possible(a)
    ensures Accounts(Step(w, config, a))
  {
    match a
    case FromBytes(data, fault) =>
      var (counters, created) := CreateFromBytes(w.counters, config, data, fault);
      CreationAccounts(w, counters, created);
    case FromReader(source, contentLength, maxBytes, fault) =>
      var (counters, created) := CreateFromReader(w.counters, config, source, contentLength, maxBytes, fault);
      CreationAccounts(w, counters, created);
    case Close(index) =>
      if index < |w.storages| && !w.storages[index].closed {
        OneLess(w.storages, index, true);
        OneLess(w.storages, index, false);
      }
  }

  /** The clamp at zero is never what decides: closing takes away exactly what creating added. */
  lemma ClampNeverTaken(w: World, index: nat)
    requires Accounts(w) && index < |w.storages| && !w.storages[index].closed && w.storages[index].onDisk
    ensures w.counters.diskFiles >= 1 && w.counters.diskBytes >= w.storages[index].size
    ensures IncrementDiskFiles(DecrementDiskFiles(w.counters, w.storages[index].size), w.storages[index].size) == w.counters
  {
    OneLess(w.storages, index, true);
  }

  lemma SecondCloseIsNeutral(w: World, config: Config, index: nat)
    ensures var once := Step(w, config, Close(index)); Step(once, config, Close(index)) == once
  {
  }

  /** Settings may change between the steps. */
  datatype Event = Event(config: Config, action: Action)

  function Run(w: World, events: seq<Event>): World
    requires forall e <- events :: Possible(e.action)
    decreases |events|
  {
    if events == [] then w else Run(Step(w, events[0].config, events[0].action), events[1..])
  }

  lemma {:induction false} RunAccounts(w: World, events: seq<Event>)
    requires Accounts(w)
    requires forall e <- events :: Possible(e.action)
    ensures Accounts(Run(w, events))
    decreases |events|
  {
    if events != [] {
      StepAccounts(w, events[0].config, events[0].action);
      RunAccounts(Step(w, events[0].config, events[0].action), events[1..]);
    }
  }

  lemma {:induction false} AllClosedCountsNothing(storages: seq<Storage>, onDisk: bool)
    requires forall s <- storages :: s.closed
    ensures OpenCount(storages, onDisk) == 0 && OpenBytes(storages, onDisk) == 0
  {
    if storages != [] {
      AllClosedCountsNothing(storages[..|storages| - 1], onDisk);
    }
  }

  /** Nothing leaks: from a fresh start, once every storage has been closed, however often and in
      whatever order, all four counters are back at zero. */
  lemma NothingLeaks(events: seq<Event>)
    requires forall e <- events :: Possible(e.action)
    requires forall s <- Run(World(NO_COUNTS, []), events).storages :: s.closed
    ensures var c := Run(World(NO_COUNTS, []), events).counters;
            c.diskFiles == 0 && c.diskBytes == 0 && c.memoryBuffers == 0 && c.memoryBytes == 0
  {
    RunAccounts(World(NO_COUNTS, []), events);
    var w := Run(World(NO_COUNTS, []), events);
    AllClosedCountsNothing(w.storages, true);
    AllClosedCountsNothing(w.storages, false);
  }

  /** A declared length is absent or no shorter than the body, and no sum with the maximum overflows. */
  predicate Truthful(config: Config, a: Action) {
    match a
    case FromBytes(data, _) => |data| + config.maxSize <= MAX_INT64
    case FromReader(source, contentLength, _, _) =>
      && |source.payload| + config.maxSize <= MAX_INT64
      && (contentLength > 0 ==> |source.payload| <= contentLength && contentLength + config.maxSize <= MAX_INT64)
    case Close(_) => true
  }

  predicate WithinMaximum(w: World, config: Config) {
    Accounts(w) && w.counters.diskBytes <= config.maxSize
  }

  lemma BytesStayWithinMaximum(w: World, config: Config, data: seq<Byte>, fault: Fault)
    requires WithinMaximum(w, config) && |data| <= MAX_INT64 && |data| + config.maxSize <= MAX_INT64
    ensures CreateFromBytes(w.counters, config, data, fault).0.diskBytes <= config.maxSize
  {
    hide OpenCount; hide OpenBytes; hide Wrap64;
    WrapKeepsWords(w.counters.diskBytes + |data|);
  }

  lemma ReaderStaysWithinMaximum(w: World, config: Config, source: Source, contentLength: Int64, maxBytes: Int64, fault: Fault)
    requires WithinMaximum(w, config) && Truthful(config, FromReader(source, contentLength, maxBytes, fault))
    ensures CreateFromReader(w.counters, config, source, contentLength, maxBytes, fault).0.diskBytes <= config.maxSize
  {
    hide OpenCount; hide OpenBytes; hide Wrap64; hide CreateFromBytes;
    var limited := Limited(source, maxBytes);
    assert |limited.payload| <= |source.payload|;
    if contentLength > 0 && GoesToDisk(w.counters, config, contentLength) {
      WrapKeepsWords(w.counters.diskBytes + contentLength);
    } else if limited.ending.Ends? && |limited.payload| <= maxBytes {
      BytesStayWithinMaximum(w, config, limited.payload, fault);
    }
  }

  lemma StepStaysWithinMaximum(w: World, config: Config, a: Action)
    requires WithinMaximum(w, config) && Possible(a) && Truthful(config, a)
    ensures WithinMaximum(Step(w, config, a), config)
  {
    hide OpenCount; hide OpenBytes; hide CreateFromBytes; hide CreateFromReader;
    StepAccounts(w, config, a);
    match a
    case FromBytes(data, fault) =>
      BytesStayWithinMaximum(w, config, data, fault);
    case FromReader(source, contentLength, maxBytes, fault) =>
      ReaderStaysWithinMaximum(w, config, source, contentLength, maxBytes, fault);
    case Close(index) =>
      if index < |w.storages| && !w.storages[index].closed && w.storages[index].onDisk {
        ClampNeverTaken(w, index);
      }
  }

  /** With declared lengths the bodies do not exceed and settings that stay, the cache never holds
      more than its maximum. */
  lemma {:induction false} DiskUsageStaysWithinMaximum(w: World, config: Config, events: seq<Event>)
    requires WithinMaximum(w, config)
    requires forall e <- events :: Possible(e.action) && e.config == config && Truthful(config, e.action)
    ensures WithinMaximum(Run(w, events), config)
    decreases |events|
  {
    if events != [] {
      StepStaysWithinMaximum(w, config, events[0].action);
      DiskUsageStaysWithinMaximum(Step(w, config, events[0].action), config, events[1..]);
    }
  }

  /** The requests that can overfill the cache, seen from the request and the settings: a body that
      does arrive and fits the limit, but whose declared length is short of it and would fit the
      cache on its own - or is so large that adding it to the usage overflows. */
  predicate CanOverfill(config: Config, source: Source, contentLength: Int64, maxBytes: Int64, fault: Fault) {
    && config.enabled && fault.NoFault? && source.ending.Ends?
    && contentLength > 0 && contentLength >= config.threshold
    && 0 < |source.payload| <= maxBytes < MAX_INT64
    && (contentLength > MAX_INT64 - config.maxSize || (contentLength < |source.payload| && contentLength <= config.maxSize))
  }

  /** The usage from which such a request overfills the cache. */
  function Overfillable(config: Config, contentLength: Int64): World
    requires contentLength > 0 && (contentLength <= config.maxSize || contentLength > MAX_INT64 - config.maxSize)
  {
    var used: nat := if contentLength > MAX_INT64 - config.maxSize then config.maxSize else config.maxSize - contentLength;
    World(NO_COUNTS.(diskFiles := 1, diskBytes := used), [Storage(true, used, false)])
  }

  lemma OverfillableIsWithin(config: Config, contentLength: Int64)
    requires contentLength > 0 && (contentLength <= config.maxSize || contentLength > MAX_INT64 - config.maxSize)
    ensures WithinMaximum(Overfillable(config, contentLength), config)
  {
    var w := Overfillable(config, contentLength);
    var s := w.storages[0];
    assert w.storages == [] + [s];
    OneMore([], s, true);
    OneMore([], s, false);
  }

  /** A creation from a reader keeps every cache that is within its maximum there exactly when it is
      not such a request. */
  lemma MaximumKeptExactly(config: Config, source: Source, contentLength: Int64, maxBytes: Int64, fault: Fault)
    requires |source.payload| + config.maxSize <= MAX_INT64
    ensures var a := FromReader(source, contentLength, maxBytes, fault);
            ((forall w :: WithinMaximum(w, config) ==> WithinMaximum(Step(w, config, a), config))
             <==> !CanOverfill(config, source, contentLength, maxBytes, fault))
  {
    var a := FromReader(source, contentLength, maxBytes, fault);
    if CanOverfill(config, source, contentLength, maxBytes, fault) {
      var w := Overfillable(config, contentLength);
      OverfillableIsWithin(config, contentLength);
      Overfills(w, config, source, contentLength, maxBytes);
    } else {
      forall w | WithinMaximum(w, config)
        ensures WithinMaximum(Step(w, config, a), config)
      {
        StepAccounts(w, config, a);
        KeepsMaximum(w, config, source, contentLength, maxBytes, fault);
      }
    }
  }

  lemma Overfills(w: World, config: Config, source: Source, contentLength: Int64, maxBytes: Int64)
    requires |source.payload| + config.maxSize <= MAX_INT64
    requires CanOverfill(config, source, contentLength, maxBytes, NoFault) && w == Overfillable(config, contentLength)
    ensures Step(w, config, FromReader(source, contentLength, maxBytes, NoFault)).counters.diskBytes > config.maxSize
  {
    WrapKeepsWords(w.counters.diskBytes + contentLength);
    WrapKeepsWords(maxBytes + 1);
    hide Wrap64;
    assert GoesToDisk(w.counters, config, contentLength);
    assert Limited(source, maxBytes) == source;
  }

  lemma KeepsMaximum(w: World, config: Config, source: Source, contentLength: Int64, maxBytes: Int64, fault: Fault)
    requires WithinMaximum(w, config) && |source.payload| + config.maxSize <= MAX_INT64
    requires !CanOverfill(config, source, contentLength, maxBytes, fault)
    ensures CreateFromReader(w.counters, config, source, contentLength, maxBytes, fault).0.diskBytes <= config.maxSize
  {
    var limited := Limited(source, maxBytes);
    WrapKeepsWords(w.counters.diskBytes + contentLength);
    WrapKeepsWords(maxBytes + 1);
    hide OpenCount; hide OpenBytes; hide Wrap64; hide CreateFromBytes;
    if contentLength > 0 && GoesToDisk(w.counters, config, contentLength) {
      assert StreamToDisk(source, maxBytes, fault).Stored? && limited.payload != [] ==> limited == source;
    } else if limited.ending.Ends? && |limited.payload| <= maxBytes {
      BytesStayWithinMaximum(w, config, limited.payload, fault);
    }
  }

  /** A body that declares one byte and brings three overfills a cache of two. */
  lemma UnderstatedLengthOverfills()
    ensures var config := Config(true, 0, 2);
            var w := Step(World(NO_COUNTS, []), config, FromReader(Source([1, 2, 3], Ends, false), 1, 10, NoFault));
            w.counters.diskBytes == 3 > config.maxSize
  {
    WrapKeepsWords(1);
    WrapKeepsWords(11);
    hide Wrap64;
  }

  /** Where a body given as bytes goes, and what is counted for it. */
  lemma BytesStoredExactly(c: Counters, config: Config, data: seq<Byte>, fault: Fault)
    requires |data| <= MAX_INT64 && 0 <= c.diskBytes && c.diskBytes + |data| <= MAX_INT64
    ensures var (after, created) := CreateFromBytes(c, config, data, fault);
            && created.Stored? && created.data == data
            && (created.onDisk
                <==> config.enabled && |data| >= config.threshold && c.diskBytes + |data| <= config.maxSize && fault.NoFault?)
            && after == if created.onDisk then c.(diskFiles := c.diskFiles + 1, diskBytes := c.diskBytes + |data|)
                        else c.(memoryBuffers := c.memoryBuffers + 1, memoryBytes := c.memoryBytes + |data|)
  {
    WrapKeepsWords(c.diskBytes + |data|);
  }

  /** The same for a body that comes from a reader: by its declared length if there is one that
      reaches the threshold and fits, and otherwise by its own. */
  lemma ReaderStoredExactly(c: Counters, config: Config, source: Source, contentLength: Int64, maxBytes: Int64)
    requires 0 <= c.diskBytes && c.diskBytes + |source.payload| <= MAX_INT64 && c.diskBytes + contentLength <= MAX_INT64 && maxBytes < MAX_INT64
    requires |source.payload| <= maxBytes && source.ending.Ends?
    ensures var (after, created) := CreateFromReader(c, config, source, contentLength, maxBytes, NoFault);
            var size := |source.payload|;
            && created.Stored? && created.data == source.payload
            && (created.onDisk
                <==> && config.enabled
                     && (|| (contentLength > 0 && contentLength >= config.threshold && c.diskBytes + contentLength <= config.maxSize)
                         || (size >= config.threshold && c.diskBytes + size <= config.maxSize)))
            && after == if created.onDisk then c.(diskFiles := c.diskFiles + 1, diskBytes := c.diskBytes + size, diskHits := c.diskHits + 1)
                        else c.(memoryBuffers := c.memoryBuffers + 1, memoryBytes := c.memoryBytes + size, memoryHits := c.memoryHits + 1)
  {
    WrapKeepsWords(maxBytes + 1);
    WrapKeepsWords(c.diskBytes + contentLength);
    WrapKeepsWords(c.diskBytes + |source.payload|);
    hide Wrap64;
  }
}
