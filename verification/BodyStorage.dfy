/** The two body storages over a `bytes.Reader` and over an open cache file, and their creation,
    proved against `BodyCursor` and `BodyAccounts`. */
module BodyStorage {
  import opened Bytes
  import opened BodyCursor
  import opened ByteReader
  import Accounts = BodyAccounts

  class DiskCacheStats {
    var activeDiskFiles: int
    var currentDiskUsageBytes: int
    var activeMemoryBuffers: int
    var currentMemoryUsageBytes: int
    var diskCacheHits: int
    var memoryCacheHits: int

    function Counters(): Accounts.Counters
      reads this
    {
      Accounts.Counters(activeDiskFiles, currentDiskUsageBytes, activeMemoryBuffers, currentMemoryUsageBytes, diskCacheHits, memoryCacheHits)
    }

    method IncrementDiskFiles(size: int)
      modifies this
      ensures Counters() == Accounts.IncrementDiskFiles(old(Counters()), size)
    {
      activeDiskFiles := activeDiskFiles + 1;
      currentDiskUsageBytes := currentDiskUsageBytes + size;
    }

    method DecrementDiskFiles(size: int)
      modifies this
      ensures Counters() == Accounts.DecrementDiskFiles(old(Counters()), size)
    {
      activeDiskFiles := activeDiskFiles - 1;
      if activeDiskFiles < 0 {
        activeDiskFiles := 0;
      }
      currentDiskUsageBytes := currentDiskUsageBytes - size;
      if currentDiskUsageBytes < 0 {
        currentDiskUsageBytes := 0;
      }
    }

    method IncrementMemoryBuffers(size: int)
      modifies this
      ensures Counters() == Accounts.IncrementMemoryBuffers(old(Counters()), size)
    {
      activeMemoryBuffers := activeMemoryBuffers + 1;
      currentMemoryUsageBytes := currentMemoryUsageBytes + size;
    }

    method DecrementMemoryBuffers(size: int)
      modifies this
      ensures Counters() == Accounts.DecrementMemoryBuffers(old(Counters()), size)
    {
      activeMemoryBuffers := activeMemoryBuffers - 1;
      currentMemoryUsageBytes := currentMemoryUsageBytes - size;
    }

    method IncrementHits(onDisk: bool)
      modifies this
      ensures Counters() == Accounts.Hit(old(Counters()), onDisk)
    {
      if onDisk {
        diskCacheHits := diskCacheHits + 1;
      } else {
        memoryCacheHits := memoryCacheHits + 1;
      }
    }
  }

  /** The bytes of a cache file, which stay while a descriptor is open on them. */
  class Inode {
    var contents: seq<Byte>

    constructor ()
      ensures contents == []
    {
      contents := [];
    }
  }

  /** An open file: a descriptor with a cursor of its own. */
  class File {
    const inode: Inode
    const fs: FileSystem
    var pos: nat
    var isOpen: bool

    constructor (inode: Inode, fs: FileSystem)
      ensures this.inode == inode && this.fs == fs && pos == 0 && isOpen
    {
      this.inode := inode;
      this.fs := fs;
      pos := 0;
      isOpen := true;
    }

    /** Appends to a file written from its start. */
    method Write(data: seq<Byte>)
      requires isOpen && pos == |inode.contents|
      modifies this, inode
      ensures inode.contents == old(inode.contents) + data && pos == |inode.contents| && isOpen
    {
      inode.contents := inode.contents + data;
      pos := |inode.contents|;
    }

    method Read(p: array<Byte>) returns (n: nat, eof: bool)
      requires isOpen
      modifies this, p
      ensures Delivered(old(p[..]), p[..], n, eof, FileRead(inode.contents, old(pos), p.Length, fs))
      ensures pos == After(old(pos), FileRead(inode.contents, old(pos), p.Length, fs)) && isOpen
    {
      if p.Length == 0 {
        return 0, false;
      }
      if pos >= |inode.contents| {
        return 0, true;
      }
      n, eof := Min(Min(p.Length, fs.limit), |inode.contents| - pos), false;
      forall i | 0 <= i < n {
        p[i] := inode.contents[pos + i];
      }
      assert p[..n] == inode.contents[pos..pos + n];
      pos := pos + n;
    }

    method Seek(offset: Int64, whence: Whence) returns (answer: Answer)
      requires isOpen
      modifies this
      ensures answer == FileSeek(inode.contents, old(pos), offset, whence, fs)
      ensures pos == After(old(pos), answer) && isOpen
    {
      var target := (match whence case Start => 0 case Current => pos case End => |inode.contents|) + offset;
      if target < 0 || target > fs.maxOffset {
        return InvalidPosition;
      }
      pos := target;
      answer := At(target);
    }

    /** `io.ReadFull`: reads on until the buffer is full, however little one read hands over. */
    method ReadFull(size: nat) returns (data: seq<Byte>, complete: bool)
      requires isOpen && fs.limit > 0
      modifies this
      ensures isOpen
      ensures complete <==> size <= |inode.contents| - old(pos) || size == 0
      ensures complete ==> pos == old(pos) + size
      ensures complete ==> old(pos) + size <= |inode.contents| || size == 0
      ensures complete ==> data == if size == 0 then [] else inode.contents[old(pos)..pos]
    {
      data := [];
      while |data| < size
        invariant isOpen && |data| <= size && pos == old(pos) + |data|
        invariant data == [] || (pos <= |inode.contents| && data == inode.contents[old(pos)..pos])
        decreases size - |data|
      {
        var p := new Byte[size - |data|];
        var n, eof := Read(p);
        if eof {
          return data, false;
        }
        data := data + p[..n];
      }
      complete := true;
    }
  }

  class MemoryStorage {
    const data: seq<Byte>
    const reader: BytesReader
    const size: nat
    const stats: DiskCacheStats
    var closed: bool

    ghost predicate Valid()
      reads this, reader
    {
      reader.data == data && size == |data| && Fits(Value())
    }

    ghost function Value(): Body
      reads this, reader
    {
      Body(data, reader.pos, closed)
    }

    constructor (data: seq<Byte>, stats: DiskCacheStats)
      requires |data| <= MAX_INT64
      modifies stats
      ensures Valid() && Value() == Body(data, 0, false) && this.stats == stats && fresh(reader)
      ensures stats.Counters() == Accounts.IncrementMemoryBuffers(old(stats.Counters()), |data|)
    {
      this.data := data;
      this.size := |data|;
      this.reader := new BytesReader(data);
      this.stats := stats;
      closed := false;
      new;
      stats.IncrementMemoryBuffers(|data|);
    }

    method Read(p: array<Byte>) returns (n: nat, eof: bool, storageClosed: bool)
      requires Valid()
      modifies reader, p
      ensures Valid()
      ensures var answer := MemoryAnswer(old(Value()), BodyCursor.Read(p.Length));
              && Value() == Next(old(Value()), BodyCursor.Read(p.Length), answer)
              && (storageClosed <==> answer.StorageClosed?)
              && (if storageClosed then n == 0 && p[..] == old(p[..]) else Delivered(old(p[..]), p[..], n, eof, answer))
    {
      if closed {
        return 0, false, true;
      }
      n, eof := reader.Read(p);
      storageClosed := false;
    }

    method Seek(offset: Int64, whence: Whence) returns (answer: Answer)
      requires Valid()
      modifies reader
      ensures Valid()
      ensures answer == MemoryAnswer(old(Value()), BodyCursor.Seek(offset, whence))
      ensures Value() == Next(old(Value()), BodyCursor.Seek(offset, whence), answer)
    {
      if closed {
        return StorageClosed;
      }
      answer := reader.Seek(offset, whence);
    }

    /** Closing again counts nothing. */
    method Close()
      requires Valid()
      modifies this, stats
      ensures Valid() && Value() == Next(old(Value()), BodyCursor.Close, Done)
      ensures stats.Counters() == (if old(closed) then old(stats.Counters()) else Accounts.DecrementMemoryBuffers(old(stats.Counters()), size))
    {
      if !closed {
        closed := true;
        stats.DecrementMemoryBuffers(size);
      }
    }

    method AllBytes() returns (answer: Answer)
      requires Valid()
      ensures answer == MemoryAnswer(Value(), BodyCursor.AllBytes)
    {
      if closed {
        return StorageClosed;
      }
      answer := Content(data);
    }

    method NewReader() returns (answer: Answer, replay: BytesReader?)
      requires Valid()
      ensures answer == MemoryAnswer(Value(), BodyCursor.NewReader)
      ensures replay != null <==> answer.Opened?
      ensures replay != null ==> fresh(replay) && replay.pos == 0 && replay.data == answer.bytes
    {
      if closed {
        return StorageClosed, null;
      }
      replay := new BytesReader(data);
      answer := Opened(data);
    }
  }

  class DiskStorage {
    const file: File
    const size: nat
    const stats: DiskCacheStats
    var closed: bool
    /** The path still leads to the file. */
    var linked: bool

    ghost predicate Valid()
      reads this, file, file.inode
    {
      && size == |file.inode.contents|
      && file.fs.limit > 0
      && (!closed ==> file.isOpen && linked)
      && size <= file.fs.maxOffset && file.pos <= file.fs.maxOffset
    }

    ghost function Value(): Body
      reads this, file, file.inode
    {
      Body(file.inode.contents, file.pos, closed)
    }

    constructor (file: File, stats: DiskCacheStats)
      requires file.isOpen && file.fs.limit > 0 && file.pos == 0 && |file.inode.contents| <= file.fs.maxOffset
      modifies stats
      ensures Valid() && Value() == Body(file.inode.contents, 0, false)
      ensures this.file == file && this.stats == stats
      ensures stats.Counters() == Accounts.IncrementDiskFiles(old(stats.Counters()), |file.inode.contents|)
    {
      this.file := file;
      this.size := |file.inode.contents|;
      this.stats := stats;
      closed := false;
      linked := true;
      new;
      stats.IncrementDiskFiles(size);
    }

    method Read(p: array<Byte>) returns (n: nat, eof: bool, storageClosed: bool)
      requires Valid()
      modifies file, p
      ensures Valid()
      ensures var answer := DiskAnswer(old(Value()), BodyCursor.Read(p.Length), file.fs);
              && Value() == Next(old(Value()), BodyCursor.Read(p.Length), answer)
              && (storageClosed <==> answer.StorageClosed?)
              && (if storageClosed then n == 0 && p[..] == old(p[..]) else Delivered(old(p[..]), p[..], n, eof, answer))
    {
      if closed {
        return 0, false, true;
      }
      n, eof := file.Read(p);
      storageClosed := false;
    }

    method Seek(offset: Int64, whence: Whence) returns (answer: Answer)
      requires Valid()
      modifies file
      ensures Valid()
      ensures answer == DiskAnswer(old(Value()), BodyCursor.Seek(offset, whence), file.fs)
      ensures Value() == Next(old(Value()), BodyCursor.Seek(offset, whence), answer)
    {
      if closed {
        return StorageClosed;
      }
      answer := file.Seek(offset, whence);
    }

    method Close()
      requires Valid()
      modifies this, file, stats
      ensures Valid() && Value() == Next(old(Value()), BodyCursor.Close, Done)
      ensures !old(closed) ==> !file.isOpen && !linked
      ensures stats.Counters() == (if old(closed) then old(stats.Counters()) else Accounts.DecrementDiskFiles(old(stats.Counters()), size))
    {
      if !closed {
        closed := true;
        file.isOpen := false;
        linked := false;
        stats.DecrementDiskFiles(size);
      }
    }

    /** Reads the whole file and puts the cursor back where it was. */
    method AllBytes() returns (answer: Answer)
      requires Valid()
      modifies file
      ensures Valid() && Value() == old(Value())
      ensures answer == DiskAnswer(Value(), BodyCursor.AllBytes, file.fs)
    {
      if closed {
        return StorageClosed;
      }
      var current := file.Seek(0, Current);
      var rewound := file.Seek(0, Start);
      var data, complete := file.ReadFull(size);
      assert complete && data == file.inode.contents;
      var restored := file.Seek(current.position, Start);
      answer := Content(data);
    }

    method NewReader() returns (answer: Answer, descriptor: File?)
      requires Valid()
      ensures answer == DiskAnswer(Value(), BodyCursor.NewReader, file.fs)
      ensures descriptor != null <==> answer.Opened?
      ensures descriptor != null ==>
                && fresh(descriptor) && descriptor.isOpen && descriptor.pos == 0 && descriptor.fs == file.fs
                && descriptor.inode == file.inode && descriptor.inode.contents == answer.bytes
    {
      if closed {
        return StorageClosed, null;
      }
      descriptor := new File(file.inode, file.fs);
      answer := Opened(file.inode.contents);
    }
  }

  datatype BodyStorage = Memory(memory: MemoryStorage) | Disk(disk: DiskStorage)

  datatype Creation = Made(storage: BodyStorage) | Failed(error: Accounts.CreateError)

  ghost function Footprint(s: BodyStorage): set<object> {
    match s
    case Memory(m) => {m, m.reader}
    case Disk(d) => {d, d.file, d.file.inode}
  }

  /** Open on this payload with the cursor at its start. */
  ghost predicate Ready(s: BodyStorage, data: seq<Byte>)
    reads Footprint(s)
  {
    match s
    case Memory(m) => m.Valid() && m.Value() == Body(data, 0, false)
    case Disk(d) => d.Valid() && d.Value() == Body(data, 0, false)
  }

  /** The objects that were made are those that were to be made. */
  ghost predicate Makes(created: Accounts.Created, creation: Creation)
    reads if creation.Made? then Footprint(creation.storage) else {}
  {
    match creation
    case Made(s) => created.Stored? && created.onDisk == s.Disk? && Ready(s, created.data)
    case Failed(error) => created == Accounts.Refused(error)
  }

  /** Writing more than a file can hold goes wrong. */
  predicate Possible(data: seq<Byte>, fault: Accounts.Fault, fs: FileSystem) {
    |data| <= fs.maxOffset || fault.CreateFails? || fault.WriteFails?
  }

  /** `newDiskStorage`; null when the file could not be made, written or rewound. */
  method NewDiskStorage(stats: DiskCacheStats, data: seq<Byte>, fault: Accounts.Fault, fs: FileSystem) returns (storage: DiskStorage?)
    requires fs.limit > 0 && |data| <= MAX_INT64 && Possible(data, fault, fs)
    modifies stats
    ensures storage != null <==> fault.NoFault?
    ensures storage != null ==> Ready(Disk(storage), data) && fresh(Footprint(Disk(storage)))
    ensures stats.Counters() == (if storage == null then old(stats.Counters()) else Accounts.IncrementDiskFiles(old(stats.Counters()), |data|))
  {
    if fault.CreateFails? {
      return null;
    }
    var inode := new Inode();
    var file := new File(inode, fs);
    if fault.WriteFails? {
      return null;
    }
    file.Write(data);
    if fault.SeekFails? {
      return null;
    }
    var rewound := file.Seek(0, Start);
    storage := new DiskStorage(file, stats);
  }

  /** `newDiskStorageFromReader`. */
  method NewDiskStorageFromReader(stats: DiskCacheStats, source: Accounts.Source, maxBytes: Int64, fault: Accounts.Fault, fs: FileSystem)
    returns (creation: Creation)
    requires fs.limit > 0 && Possible(source.payload, fault, fs)
    modifies stats
    ensures Makes(Accounts.StreamToDisk(source, maxBytes, fault), creation)
    ensures creation.Made? ==> fresh(Footprint(creation.storage))
    ensures var created := Accounts.StreamToDisk(source, maxBytes, fault);
            stats.Counters() == (if created.Refused? then old(stats.Counters()) else Accounts.IncrementDiskFiles(old(stats.Counters()), |created.data|))
  {
    hide Wrap64;
    if fault.CreateFails? {
      return Failed(Accounts.DiskFailed);
    }
    var inode := new Inode();
    var file := new File(inode, fs);
    var limited := Accounts.Limited(source, maxBytes);
    if fault.WriteFails? && limited.payload != [] {
      return Failed(Accounts.DiskFailed);
    }
    file.Write(limited.payload);
    if !limited.ending.Ends? {
      return Failed(Accounts.EndingError(limited.ending));
    }
    if |limited.payload| > maxBytes {
      return Failed(Accounts.TooLarge);
    }
    if fault.SeekFails? {
      return Failed(Accounts.DiskFailed);
    }
    var rewound := file.Seek(0, Start);
    assert [] + limited.payload == limited.payload;
    var disk := new DiskStorage(file, stats);
    creation := Made(Disk(disk));
  }

  /** Where a body goes depends on its size, the settings and the room left on disk. */
  method CreateBodyStorage(stats: DiskCacheStats, config: Accounts.Config, data: seq<Byte>, fault: Accounts.Fault, fs: FileSystem)
    returns (storage: BodyStorage)
    requires fs.limit > 0 && |data| <= MAX_INT64 && Possible(data, fault, fs)
    modifies stats
    ensures fresh(Footprint(storage))
    ensures var (counters, created) := Accounts.CreateFromBytes(old(stats.Counters()), config, data, fault);
            stats.Counters() == counters && Makes(created, Made(storage))
  {
    hide Wrap64;
    var size := |data|;
    if config.enabled && size >= config.threshold && Accounts.IsDiskCacheAvailable(stats.Counters(), config, size) {
      var disk := NewDiskStorage(stats, data, fault, fs);
      if disk != null {
        return Disk(disk);
      }
    }
    var memory := new MemoryStorage(data, stats);
    storage := Memory(memory);
  }

  method CreateBodyStorageFromReader(stats: DiskCacheStats, config: Accounts.Config, source: Accounts.Source, contentLength: Int64, maxBytes: Int64, fault: Accounts.Fault, fs: FileSystem)
    returns (creation: Creation)
    requires fs.limit > 0 && Possible(source.payload, fault, fs)
    modifies stats
    ensures creation.Made? ==> fresh(Footprint(creation.storage))
    ensures var (counters, created) := Accounts.CreateFromReader(old(stats.Counters()), config, source, contentLength, maxBytes, fault);
            stats.Counters() == counters && Makes(created, creation)
  {
    hide Wrap64; hide Accounts.StreamToDisk; hide Accounts.CreateFromBytes;
    if config.enabled && contentLength > 0 && contentLength >= config.threshold && Accounts.IsDiskCacheAvailable(stats.Counters(), config, contentLength) {
      creation := NewDiskStorageFromReader(stats, source, maxBytes, fault, fs);
      if creation.Made? {
        stats.IncrementHits(true);
      }
      return;
    }
    var limited := Accounts.Limited(source, maxBytes);
    if !limited.ending.Ends? {
      return Failed(Accounts.EndingError(limited.ending));
    }
    if |limited.payload| > maxBytes {
      return Failed(Accounts.TooLarge);
    }
    var storage := CreateBodyStorage(stats, config, limited.payload, fault, fs);
    stats.IncrementHits(storage.Disk?);
    creation := Made(storage);
  }
}
