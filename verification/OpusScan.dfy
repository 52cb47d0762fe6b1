/** The duration of an Opus file, read off the pages of its Ogg container (section 6 of RFC 3533). */
module OpusScan {
  import opened Bytes
  import opened BodyCursor
  import opened ByteReader

  const CAPTURE: seq<Byte> := [0x4F, 0x67, 0x67, 0x53]
  const HEADER := 27
  const SAMPLE_RATE := 48000.0

  /** A page the scan stops at. */
  datatype Visit = Visit(at: nat, granule: Int64)

  function LittleEndian(value: nat, length: nat): (bytes: seq<Byte>)
    ensures |bytes| == length
    decreases length
  {
    if length == 0 then [] else [value % 256] + LittleEndian(value / 256, length - 1)
  }

  function Unsigned(bytes: seq<Byte>): nat {
    if bytes == [] then 0 else bytes[0] + 256 * Unsigned(bytes[1..])
  }

  function Power256(length: nat): nat {
    if length == 0 then 1 else 256 * Power256(length - 1)
  }

  lemma {:induction false} UnsignedReadsBack(value: nat, length: nat)
    requires value < Power256(length)
    ensures Unsigned(LittleEndian(value, length)) == value
    decreases length
  {
    if length > 0 {
      UnsignedReadsBack(value / 256, length - 1);
      assert LittleEndian(value, length)[1..] == LittleEndian(value / 256, length - 1);
    }
  }

  function GranuleBytes(granule: Int64): seq<Byte> {
    LittleEndian(if granule < 0 then granule + TWO_64 else granule, 8)
  }

  /** `int64(binary.LittleEndian.Uint64(bytes))`. */
  function Granule(bytes: seq<Byte>): Int64 {
    Wrap64(Unsigned(bytes))
  }

  lemma GranuleReadsBack(granule: Int64)
    ensures Granule(GranuleBytes(granule)) == granule
  {
    assert Power256(8) == TWO_64;
    var unsigned := if granule < 0 then granule + TWO_64 else granule;
    UnsignedReadsBack(unsigned, 8);
    WrapKeepsWords(unsigned);
  }

  function Sum(lacing: seq<Byte>): nat {
    if lacing == [] then 0 else Sum(lacing[..|lacing| - 1]) + lacing[|lacing| - 1]
  }

  /** How far the next header is from this one. */
  function PageLength(rest: seq<Byte>): nat
    requires |rest| >= HEADER && |rest| >= HEADER + rest[26]
  {
    HEADER + rest[26] + Sum(rest[HEADER..HEADER + rest[26]])
  }

  function Rest(data: seq<Byte>, pos: nat): seq<Byte> {
    if pos <= |data| then data[pos..] else []
  }

  predicate Captured(rest: seq<Byte>) {
    CAPTURE <= rest
  }

  /** The pages found from here: one byte further where there is no page, one page further where
      there is one. */
  function Found(rest: seq<Byte>, at: nat): seq<Visit>
    decreases |rest|
  {
    if |rest| < HEADER then []
    else if !Captured(rest) then Found(rest[1..], at + 1)
    else
      var visit := Visit(at, Granule(rest[6..14]));
      if |rest| < HEADER + rest[26] then [visit]
      else [visit] + Found(Rest(rest, PageLength(rest)), at + PageLength(rest))
  }

  function Highest(total: int, visits: seq<Visit>): int
    decreases |visits|
  {
    if visits == [] then total
    else Highest(Raised(total, visits[0].granule), visits[1..])
  }

  function Raised(total: int, granule: Int64): int {
    if granule > total then granule else total
  }

  function Duration(total: int): real {
    total as real / SAMPLE_RATE
  }

  lemma ReadDelivers(before: seq<Byte>, after: seq<Byte>, n: nat, eof: bool, data: seq<Byte>, pos: nat)
    requires before != [] && Delivered(before, after, n, eof, ReaderRead(data, pos, |after|))
    ensures !eof && n == |after| <==> |after| <= |Rest(data, pos)|
    ensures !eof && n == |after| ==> after == Rest(data, pos)[..n]
    ensures n <= |Rest(data, pos)|
  {
    if pos < |data| {
      var taken := data[pos..pos + Min(|after|, |data| - pos)];
      assert Got(after[..n]) == Got(taken) && n == |taken|;
      assert taken == Rest(data, pos)[..n];
    }
  }

  /** `io.ReadFull` on a reader over bytes. */
  method ReadFull(r: BytesReader, p: array<Byte>) returns (complete: bool)
    modifies r, p
    ensures complete <==> p.Length <= |Rest(r.data, old(r.pos))|
    ensures old(r.pos) <= r.pos <= old(r.pos) + |Rest(r.data, old(r.pos))|
    ensures complete ==> r.pos == old(r.pos) + p.Length && p[..] == Rest(r.data, old(r.pos))[..p.Length]
  {
    if p.Length == 0 {
      return true;
    }
    ghost var before := p[..];
    var n, eof := r.Read(p);
    ReadDelivers(before, p[..], n, eof, r.data, old(r.pos));
    complete := !eof && n == p.Length;
  }

  method SumLacing(segmentTable: array<Byte>) returns (pageSize: nat)
    ensures pageSize == Sum(segmentTable[..])
  {
    pageSize := 0;
    for i := 0 to segmentTable.Length
      invariant pageSize == Sum(segmentTable[..i])
    {
      assert segmentTable[..i + 1][..i] == segmentTable[..i];
      pageSize := pageSize + segmentTable[i];
    }
    assert segmentTable[..] == segmentTable[..segmentTable.Length];
  }

  /** What the next call of `Found` looks at, given the bytes of the header. */
  lemma FoundNext(rest: seq<Byte>, at: nat, header: seq<Byte>)
    requires |rest| >= HEADER && header == rest[..HEADER]
    ensures Captured(rest) <==> header[0..4] == CAPTURE
    ensures header[6..14] == rest[6..14] && header[26] == rest[26]
    ensures !Captured(rest) ==> Found(rest, at) == Found(rest[1..], at + 1)
    ensures Captured(rest) ==>
              var visit := Visit(at, Granule(header[6..14]));
              Found(rest, at) == if |rest| < HEADER + rest[26] then [visit] else [visit] + Found(Rest(rest, PageLength(rest)), at + PageLength(rest))
  {
    assert header[0..4] == rest[..4];
  }

  lemma HighestNext(total: int, visit: Visit, visits: seq<Visit>)
    ensures Highest(total, [visit] + visits) == Highest(Raised(total, visit.granule), visits)
  {
    assert ([visit] + visits)[1..] == visits;
  }

  lemma RestOfRest(data: seq<Byte>, pos: nat, k: nat)
    ensures Rest(Rest(data, pos), k) == Rest(data, pos + k)
  {
  }

  /** The rest of one page behind its header: the segment table and, past the body, the next one. */
  method SkipPage(r: BytesReader, numSegments: Byte) returns (complete: bool)
    requires |r.data| <= MAX_INT64 && r.pos <= |r.data|
    modifies r
    ensures r.pos <= MAX_INT64
    ensures var table := Rest(r.data, old(r.pos));
            && (complete ==> numSegments <= |table| && r.pos == old(r.pos) + numSegments + Sum(table[..numSegments]))
            && (!complete ==> |table| < numSegments || |r.data| < old(r.pos) + numSegments + Sum(table[..numSegments]))
  {
    hide Wrap64;
    var segmentTable := new Byte[numSegments];
    complete := ReadFull(r, segmentTable);
    if complete {
      var pageSize := SumLacing(segmentTable);
      SumIsBounded(segmentTable[..]);
      WrapKeepsWords(r.pos + pageSize);
      var skipped := r.Seek(pageSize, Current);
      complete := skipped.At?;
    }
  }

  lemma {:induction false} SumIsBounded(lacing: seq<Byte>)
    ensures Sum(lacing) <= 255 * |lacing|
  {
    if lacing != [] {
      SumIsBounded(lacing[..|lacing| - 1]);
    }
  }

  /** One page, from behind its header: its position counts even if the page is cut off. */
  method VisitPage(r: BytesReader, header: seq<Byte>, total: int, ghost at: nat) returns (raised: int, complete: bool)
    requires |r.data| <= MAX_INT64 && at + HEADER <= |r.data| && r.pos == at + HEADER
    requires header == Rest(r.data, at)[..HEADER] && Captured(Rest(r.data, at))
    modifies r
    ensures r.pos <= MAX_INT64 && (complete ==> at < r.pos)
    ensures Highest(total, Found(Rest(r.data, at), at)) == if complete then Highest(raised, Found(Rest(r.data, r.pos), r.pos)) else raised
  {
    hide Found; hide Highest; hide Granule; hide Sum; hide Wrap64; hide Unsigned; hide CAPTURE; hide Captured;
    ghost var rest := Rest(r.data, at);
    var granule := Granule(header[6..14]);
    raised := if granule > total then granule else total;
    TableAt(r.data, at, header[26]);
    complete := SkipPage(r, header[26]);
    if |rest| < HEADER + header[26] {
      CutPageFound(total, rest, at, header);
    } else {
      WholePageFound(total, rest, at, header);
      RestOfRest(r.data, at, PageLength(rest));
      NothingFound(raised, [], at + PageLength(rest));
    }
  }

  /** `getOpusDuration`. Every byte sequence is scanned to an end. */
  method GetOpusDuration(r: BytesReader) returns (duration: real)
    requires |r.data| <= MAX_INT64 && r.pos <= MAX_INT64
    modifies r
    ensures duration == Duration(Highest(0, Found(r.data, 0)))
  {
    hide Found; hide Highest; hide Granule; hide Sum; hide Wrap64; hide Unsigned; hide CAPTURE;
    var data := r.data;
    WrapKeepsWords(0);
    var start := r.Seek(0, Start);
    var total := 0;
    var buf := new Byte[HEADER];
    assert Rest(data, 0) == data;
    while true
      invariant r.pos <= MAX_INT64 && r.data == data && fresh(buf)
      invariant Highest(total, Found(Rest(data, r.pos), r.pos)) == Highest(0, Found(data, 0))
      decreases if r.pos <= |data| then |data| + 1 - r.pos else 0
    {
      ghost var at := r.pos;
      ghost var rest := Rest(data, at);
      ghost var was := buf[..];
      var n, eof := r.Read(buf);
      ReadDelivers(was, buf[..], n, eof, data, at);
      if eof || n < HEADER {
        NothingFound(total, rest, at);
        break;
      }
      FoundNext(rest, at, buf[..]);
      if buf[0..4] != CAPTURE {
        WrapKeepsWords(r.pos - 26);
        var back := r.Seek(-26, Current);
        assert Rest(data, at + 1) == rest[1..];
        continue;
      }
      var complete;
      total, complete := VisitPage(r, buf[..], total, at);
      if !complete {
        break;
      }
    }
    duration := Duration(total);
  }

  lemma NothingFound(total: int, rest: seq<Byte>, at: nat)
    requires |rest| < HEADER
    ensures Found(rest, at) == []
    ensures Highest(total, Found(rest, at)) == total
  {
  }

  lemma TableAt(data: seq<Byte>, at: nat, n: nat)
    requires |Rest(data, at)| >= HEADER
    ensures var rest, table := Rest(data, at), Rest(data, at + HEADER);
            |table| == |rest| - HEADER && (n <= |table| ==> rest[HEADER..HEADER + n] == table[..n])
  {
  }

  /** A page cut off inside its segment table is counted and ends the scan. */
  lemma CutPageFound(total: int, rest: seq<Byte>, at: nat, header: seq<Byte>)
    requires HEADER <= |rest| < HEADER + rest[26] && header == rest[..HEADER] && Captured(rest)
    ensures Highest(total, Found(rest, at)) == Raised(total, Granule(header[6..14]))
  {
    hide Highest; hide Granule; hide CAPTURE;
    FoundNext(rest, at, header);
    hide Found; hide Captured;
    var visit := Visit(at, Granule(header[6..14]));
    assert [visit] + [] == [visit];
    HighestNext(total, visit, []);
    NothingFound(Raised(total, visit.granule), [], at);
  }

  lemma WholePageFound(total: int, rest: seq<Byte>, at: nat, header: seq<Byte>)
    requires |rest| >= HEADER && |rest| >= HEADER + rest[26] && header == rest[..HEADER] && Captured(rest)
    ensures var next := at + PageLength(rest);
            Highest(total, Found(rest, at)) == Highest(Raised(total, Granule(header[6..14])), Found(Rest(rest, PageLength(rest)), next))
  {
    hide Highest; hide Granule; hide CAPTURE; hide PageLength; hide Rest;
    FoundNext(rest, at, header);
    hide Found; hide Captured;
    var visit := Visit(at, Granule(header[6..14]));
    HighestNext(total, visit, Found(Rest(rest, PageLength(rest)), at + PageLength(rest)));
  }
}
