/** What the scan finds in a stream of well-formed Ogg pages (section 6 of RFC 3533) with other
    bytes before, between and after them. */
module OpusPages {
  import opened Bytes
  import opened OpusScan

  /** `front` is the version and the header type; `middle` the serial number, the sequence number
      and the checksum. */
  datatype Page = Page(front: seq<Byte>, granule: Int64, middle: seq<Byte>, lacing: seq<Byte>, body: seq<Byte>)

  predicate WellFormed(p: Page) {
    |p.front| == 2 && |p.middle| == 12 && |p.lacing| <= 255 && |p.body| == Sum(p.lacing)
  }

  function Header(p: Page): seq<Byte>
    requires WellFormed(p)
  {
    CAPTURE + p.front + GranuleBytes(p.granule) + p.middle + [|p.lacing|]
  }

  function Encode(p: Page): seq<Byte>
    requires WellFormed(p)
  {
    Header(p) + p.lacing + p.body
  }

  /** No capture pattern starts in these bytes. */
  predicate Clean(junk: seq<Byte>) {
    forall i :: 0 <= i <= |junk| ==> !Captured(junk[i..])
  }

  datatype Block = Block(junk: seq<Byte>, page: Page)

  predicate Separated(blocks: seq<Block>) {
    forall b <- blocks :: Clean(b.junk) && WellFormed(b.page)
  }

  function Stream(blocks: seq<Block>, trailing: seq<Byte>): seq<Byte>
    requires Separated(blocks)
  {
    if blocks == [] then trailing
    else blocks[0].junk + (Encode(blocks[0].page) + Stream(blocks[1..], trailing))
  }

  /** Each page once, at the place where it was put, with its granule position. */
  function Pages(blocks: seq<Block>, at: nat): seq<Visit>
    requires Separated(blocks)
  {
    if blocks == [] then []
    else
      var start := at + |blocks[0].junk|;
      [Visit(start, blocks[0].page.granule)] + Pages(blocks[1..], start + |Encode(blocks[0].page)|)
  }

  lemma HeaderFields(p: Page)
    requires WellFormed(p)
    ensures |Header(p)| == HEADER
    ensures Header(p)[..4] == CAPTURE && Header(p)[6..14] == GranuleBytes(p.granule) && Header(p)[26] == |p.lacing|
  {
    hide GranuleBytes;
    assert |GranuleBytes(p.granule)| == 8 by { GranuleBytesLength(p.granule); }
  }

  lemma GranuleBytesLength(granule: Int64)
    ensures |GranuleBytes(granule)| == 8
  {
  }

  lemma PageScanned(p: Page, after: seq<Byte>, at: nat)
    requires WellFormed(p)
    ensures Found(Encode(p) + after, at) == [Visit(at, p.granule)] + Found(after, at + |Encode(p)|)
  {
    hide Sum; hide Granule; hide GranuleBytes; hide Found; hide CAPTURE;
    HeaderFields(p);
    GranuleReadsBack(p.granule);
    hide Header;
    var rest := Encode(p) + after;
    FoundNext(rest, at, Header(p));
    assert rest[HEADER..HEADER + rest[26]] == p.lacing;
    assert Rest(rest, PageLength(rest)) == after;
  }

  /** The pattern does not overlap itself, so bytes in which none starts do not make one with the
      page that follows. */
  lemma NoCaptureAcross(junk: seq<Byte>, after: seq<Byte>)
    requires !Captured(junk) && junk != [] && Captured(after)
    ensures !Captured(junk + after)
  {
    var whole := junk + after;
    if |junk| < 4 {
      assert whole[|junk|] == after[0] == 0x4F;
    } else {
      assert whole[..4] == junk[..4];
    }
  }

  lemma CleanTail(junk: seq<Byte>)
    requires Clean(junk) && junk != []
    ensures !Captured(junk) && Clean(junk[1..])
  {
    hide Captured;
    assert junk[0..] == junk;
    forall i | 0 <= i <= |junk[1..]|
      ensures !Captured(junk[1..][i..])
    {
      assert junk[1..][i..] == junk[i + 1..];
    }
  }

  lemma {:induction false} JunkSkipped(junk: seq<Byte>, after: seq<Byte>, at: nat)
    requires Clean(junk) && Captured(after) && |after| >= HEADER
    ensures Found(junk + after, at) == Found(after, at + |junk|)
  {
    hide Captured; hide CAPTURE;
    var whole := junk + after;
    if junk == [] {
      assert whole == after;
    } else {
      CleanTail(junk);
      hide Clean;
      NoCaptureAcross(junk, after);
      JunkSkipped(junk[1..], after, at + 1);
      assert whole[1..] == junk[1..] + after;
      FoundNext(whole, at, whole[..HEADER]);
    }
  }

  lemma {:induction false} NothingInJunk(junk: seq<Byte>, at: nat)
    requires Clean(junk)
    ensures Found(junk, at) == []
  {
    hide Captured; hide CAPTURE;
    if |junk| >= HEADER {
      CleanTail(junk);
      hide Clean;
      NothingInJunk(junk[1..], at + 1);
      FoundNext(junk, at, junk[..HEADER]);
    }
  }

  lemma EncodedIsCaptured(p: Page, after: seq<Byte>)
    requires WellFormed(p)
    ensures Captured(Encode(p) + after) && |Encode(p) + after| >= HEADER
  {
    HeaderFields(p);
    hide Header;
    var whole := Encode(p) + after;
    assert whole[..4] == Header(p)[..4];
    assert whole == whole[..4] + whole[4..];
  }

  /** Each page of the stream is visited exactly once, in order, and nothing else is. */
  lemma {:induction false} EachPageOnce(blocks: seq<Block>, trailing: seq<Byte>, at: nat)
    requires Separated(blocks) && Clean(trailing)
    ensures Found(Stream(blocks, trailing), at) == Pages(blocks, at)
  {
    hide Found; hide Clean; hide Header; hide CAPTURE; hide Captured;
    if blocks == [] {
      NothingInJunk(trailing, at);
    } else {
      var b := blocks[0];
      var after := Encode(b.page) + Stream(blocks[1..], trailing);
      EncodedIsCaptured(b.page, Stream(blocks[1..], trailing));
      hide Encode;
      JunkSkipped(b.junk, after, at);
      PageScanned(b.page, Stream(blocks[1..], trailing), at + |b.junk|);
      EachPageOnce(blocks[1..], trailing, at + |b.junk| + |Encode(b.page)|);
    }
  }

  /** The scan's running maximum is the maximum of zero and all granule positions, taken as signed. */
  lemma {:induction false} HighestIsMaximum(total: int, visits: seq<Visit>)
    ensures var highest := Highest(total, visits);
            && highest >= total
            && (forall v <- visits :: highest >= v.granule)
            && (highest == total || exists v <- visits :: highest == v.granule)
    decreases |visits|
  {
    if visits != [] {
      HighestIsMaximum(Raised(total, visits[0].granule), visits[1..]);
      assert visits == [visits[0]] + visits[1..];
    }
  }

  lemma {:induction false} PagesAreTheBlocks(blocks: seq<Block>, at: nat)
    requires Separated(blocks)
    ensures |Pages(blocks, at)| == |blocks|
    ensures forall i :: 0 <= i < |blocks| ==> Pages(blocks, at)[i].granule == blocks[i].page.granule
  {
    if blocks != [] {
      PagesAreTheBlocks(blocks[1..], at + |blocks[0].junk| + |Encode(blocks[0].page)|);
    }
  }

  /** The duration of a stream of pages: the highest granule position, or zero, over the sample rate. */
  lemma StreamDuration(blocks: seq<Block>, trailing: seq<Byte>)
    requires Separated(blocks) && Clean(trailing)
    ensures var total := Highest(0, Found(Stream(blocks, trailing), 0));
            && total >= 0 && Duration(total) * 48000.0 == total as real
            && (forall b <- blocks :: total >= b.page.granule)
            && (total == 0 || exists b <- blocks :: total == b.page.granule)
  {
    EachPageOnce(blocks, trailing, 0);
    var visits := Pages(blocks, 0);
    PagesAreTheBlocks(blocks, 0);
    HighestIsMaximum(0, visits);
    var total := Highest(0, visits);
    forall b | b in blocks
      ensures total >= b.page.granule
    {
      var i :| 0 <= i < |blocks| && blocks[i] == b;
      assert visits[i] in visits;
    }
    if total != 0 {
      var v :| v in visits && total == v.granule;
      var i :| 0 <= i < |visits| && visits[i] == v;
      assert blocks[i] in blocks;
    }
  }

  /** Every visit is at the pattern with a whole header behind it, none before `at`, each further on
      than the one before. */
  predicate AtHeaders(visits: seq<Visit>, data: seq<Byte>, at: nat) {
    && (forall v <- visits :: at <= v.at && v.at + HEADER <= |data| && Captured(Rest(data, v.at)))
    && (forall i, j :: 0 <= i < j < |visits| ==> visits[i].at < visits[j].at)
  }

  lemma OneMoreVisit(visit: Visit, visits: seq<Visit>, data: seq<Byte>, next: nat)
    requires visit.at < next && AtHeaders(visits, data, next)
    requires visit.at + HEADER <= |data| && Captured(Rest(data, visit.at))
    ensures AtHeaders([visit] + visits, data, visit.at)
  {
    hide Captured; hide Rest;
    var all := [visit] + visits;
    forall i, j | 0 <= i < j < |all|
      ensures all[i].at < all[j].at
    {
      assert all[j] == visits[j - 1] && all[j] in visits;
      assert i > 0 ==> all[i] == visits[i - 1];
    }
  }

  /** Where the scan goes on from a place. */
  function NextAt(data: seq<Byte>, at: nat): nat {
    var rest := Rest(data, at);
    if |rest| < HEADER || (Captured(rest) && |rest| < HEADER + rest[26]) then |data| + 1
    else if !Captured(rest) then at + 1
    else at + PageLength(rest)
  }

  lemma FoundFurther(data: seq<Byte>, at: nat)
    requires var rest := Rest(data, at); |rest| >= HEADER && !Captured(rest)
    ensures Found(Rest(data, at), at) == Found(Rest(data, at + 1), at + 1)
  {
    hide Captured; hide Granule; hide Sum;
    var rest := Rest(data, at);
    FoundNext(rest, at, rest[..HEADER]);
    hide Found;
    assert rest[1..] == Rest(data, at + 1);
  }

  lemma FoundHere(data: seq<Byte>, at: nat)
    requires var rest := Rest(data, at); |rest| >= HEADER && Captured(rest)
    ensures var rest := Rest(data, at); var visit := Visit(at, Granule(rest[6..14]));
            Found(rest, at) == if |rest| < HEADER + rest[26] then [visit]
                               else [visit] + Found(Rest(data, at + PageLength(rest)), at + PageLength(rest))
  {
    hide Captured; hide Granule; hide Sum;
    var rest := Rest(data, at);
    FoundNext(rest, at, rest[..HEADER]);
    assert rest[..HEADER][6..14] == rest[6..14];
    hide Found;
    if |rest| >= HEADER + rest[26] {
      RestOfRest(data, at, PageLength(rest));
    }
  }

  lemma FoundFrom(data: seq<Byte>, at: nat)
    ensures NextAt(data, at) > at || (NextAt(data, at) > |data| && Rest(data, at) == [])
    ensures var rest, later := Rest(data, at), Found(Rest(data, NextAt(data, at)), NextAt(data, at));
            if |rest| >= HEADER && Captured(rest) then Found(rest, at) == [Visit(at, Granule(rest[6..14]))] + later
            else Found(rest, at) == later
    ensures |Rest(data, at)| >= HEADER ==> at + HEADER <= |data|
  {
    hide Captured; hide Granule; hide Sum; hide Found;
    var rest := Rest(data, at);
    NothingFound(0, [], |data| + 1);
    assert Rest(data, |data| + 1) == [];
    if |rest| < HEADER {
      NothingFound(0, rest, at);
    } else if !Captured(rest) {
      FoundFurther(data, at);
    } else {
      FoundHere(data, at);
      if |rest| < HEADER + rest[26] {
        var visit := Visit(at, Granule(rest[6..14]));
        assert [visit] + [] == [visit];
      }
    }
  }

  /** On any bytes at all, the scan only ever stops at headers, each time further on. */
  lemma {:induction false} VisitsAreHeaders(data: seq<Byte>, at: nat)
    ensures AtHeaders(Found(Rest(data, at), at), data, at)
    decreases |data| + 1 - at
  {
    var rest, next := Rest(data, at), NextAt(data, at);
    FoundFrom(data, at);
    if next > |data| {
      NothingFound(0, Rest(data, next), next);
    }
    hide Captured; hide Granule; hide Found; hide NextAt; hide AtHeaders; hide Rest;
    if next > |data| {
      NoVisits(data, next);
      NoVisits(data, at);
    } else {
      VisitsAreHeaders(data, next);
      LaterStart(Found(Rest(data, next), next), data, next, at);
    }
    if |rest| >= HEADER && Captured(rest) {
      if next > at {
        OneMoreVisit(Visit(at, Granule(rest[6..14])), Found(Rest(data, next), next), data, next);
      }
    }
  }

  lemma LaterStart(visits: seq<Visit>, data: seq<Byte>, next: nat, at: nat)
    requires AtHeaders(visits, data, next) && at <= next
    ensures AtHeaders(visits, data, at)
  {
  }

  lemma NoVisits(data: seq<Byte>, at: nat)
    ensures AtHeaders([], data, at)
  {
  }

  /** Four bytes with the lowest first. */
  function Word(a: int, b: int, c: int, d: int): int {
    a + 0x100 * b + 0x1_0000 * c + 0x100_0000 * d
  }

  lemma PatternIsFourLetters()
    ensures |CAPTURE| == 4 && forall i :: 0 <= i < 4 ==> CAPTURE[i] == "OggS"[i] as int
  {
  }

  /** The position is its eight bytes with the lowest first, taken as a signed word. */
  lemma PositionBytes(b: seq<Byte>)
    requires |b| == 8
    ensures var low, high := Word(b[0], b[1], b[2], b[3]), Word(b[4], b[5], b[6], b[7]);
            Granule(b) == low + 0x1_0000_0000 * (if high < 0x8000_0000 then high else high - 0x1_0000_0000)
  {
    var front, back := b[..4], b[4..];
    FourBytes(front);
    FourBytes(back);
    var low, high := Word(b[0], b[1], b[2], b[3]), Word(b[4], b[5], b[6], b[7]);
    assert Unsigned(front) == low && Unsigned(back) == high;
    UnsignedParts(front, back);
    assert front + back == b;
    PowerOfFour();
    hide Unsigned; hide Power256;
    assert Unsigned(b) == low + 0x1_0000_0000 * high;
    SignedWord(low, high);
  }

  lemma PowerOfFour()
    ensures Power256(4) == 0x1_0000_0000
  {
  }

  lemma SignedWord(low: int, high: int)
    requires 0 <= low < 0x1_0000_0000 && 0 <= high < 0x1_0000_0000
    ensures Wrap64(low + 0x1_0000_0000 * high)
         == low + 0x1_0000_0000 * (if high < 0x8000_0000 then high else high - 0x1_0000_0000)
  {
    WrapKeepsWords(low + 0x1_0000_0000 * high);
    hide Wrap64;
  }

  lemma FourBytes(b: seq<Byte>)
    requires |b| == 4
    ensures Unsigned(b) == Word(b[0], b[1], b[2], b[3])
  {
    assert b[1..][1..] == b[2..] && b[2..][1..] == b[3..] && b[3..][1..] == [];
    assert Unsigned(b[3..]) == b[3];
    assert Unsigned(b[2..]) == Word(b[2], b[3], 0, 0);
    assert Unsigned(b[1..]) == Word(b[1], b[2], b[3], 0);
  }

  lemma {:induction false} UnsignedParts(a: seq<Byte>, b: seq<Byte>)
    ensures Unsigned(a + b) == Unsigned(a) + Power256(|a|) * Unsigned(b)
    decreases |a|
  {
    if a == [] {
      assert a + b == b;
    } else {
      UnsignedParts(a[1..], b);
      assert (a + b)[1..] == a[1..] + b;
      Shifted(Power256(|a| - 1), Unsigned(b));
    }
  }

  lemma Shifted(power: nat, value: nat)
    ensures 256 * power * value == 256 * (power * value)
  {
  }

  /** The body length is the plain sum of the lacing values. */
  lemma {:induction false} SumAdds(a: seq<Byte>, b: seq<Byte>)
    ensures Sum(a + b) == Sum(a) + Sum(b)
    ensures |a| == 1 ==> Sum(a) == a[0]
    decreases |b|
  {
    if |a| == 1 {
      assert a[..0] == [];
    }
    if b == [] {
      assert a + b == a;
    } else {
      assert (a + b)[..|a + b| - 1] == a + b[..|b| - 1];
      SumAdds(a, b[..|b| - 1]);
    }
  }
}
