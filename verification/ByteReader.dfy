/** `bytes.Reader`, proved against its answers in `BodyCursor`. */
module ByteReader {
  import opened Bytes
  import opened BodyCursor

  /** What a read left in a buffer: the bytes at its front, or the end of the file. */
  ghost predicate Delivered(before: seq<Byte>, after: seq<Byte>, n: nat, eof: bool, answer: Answer) {
    && |after| == |before| && n <= |after|
    && after[n..] == before[n..]
    && answer == (if eof then EndOfFile else Got(after[..n]))
    && (eof ==> n == 0)
  }

  /** `bytes.Reader`. */
  class BytesReader {
    const data: seq<Byte>
    var pos: nat

    constructor (data: seq<Byte>)
      ensures this.data == data && pos == 0
    {
      this.data := data;
      pos := 0;
    }

    method Read(p: array<Byte>) returns (n: nat, eof: bool)
      modifies this, p
      ensures Delivered(old(p[..]), p[..], n, eof, ReaderRead(data, old(pos), p.Length))
      ensures pos == After(old(pos), ReaderRead(data, old(pos), p.Length))
    {
      if pos >= |data| {
        return 0, true;
      }
      n, eof := Min(p.Length, |data| - pos), false;
      forall i | 0 <= i < n {
        p[i] := data[pos + i];
      }
      assert p[..n] == data[pos..pos + n];
      pos := pos + n;
    }

    method Seek(offset: Int64, whence: Whence) returns (answer: Answer)
      requires pos <= MAX_INT64 && |data| <= MAX_INT64
      modifies this
      ensures answer == ReaderSeek(data, old(pos), offset, whence)
      ensures pos == After(old(pos), answer) <= MAX_INT64
    {
      var target := Wrap64((match whence case Start => 0 case Current => pos case End => |data|) + offset);
      if target < 0 {
        return InvalidPosition;
      }
      pos := target;
      answer := At(target);
    }
  }
}
