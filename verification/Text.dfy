/** The string operations of Go's `strings` package that the modelled code relies on. */
module Text {

  /** The code points `strings.TrimSpace` cuts: Unicode white space. */
  const SPACES: set<char> := {'\t', '\n', '\U{0B}', '\U{0C}', '\r', ' ', '\U{85}', '\U{A0}', '\U{1680}',
                              '\U{2000}', '\U{2001}', '\U{2002}', '\U{2003}', '\U{2004}', '\U{2005}',
                              '\U{2006}', '\U{2007}', '\U{2008}', '\U{2009}', '\U{200A}',
                              '\U{2028}', '\U{2029}', '\U{202F}', '\U{205F}', '\U{3000}'}

  function TrimLeft(s: string, cut: set<char>): string {
    if s != "" && s[0] in cut then TrimLeft(s[1..], cut) else s
  }

  function TrimRight(s: string, cut: set<char>): string {
    if s != "" && s[|s| - 1] in cut then TrimRight(s[..|s| - 1], cut) else s
  }

  /** `strings.Trim(s, cutset)`. */
  function Trim(s: string, cut: set<char>): string {
    TrimRight(TrimLeft(s, cut), cut)
  }

  function TrimSpace(s: string): string {
    Trim(s, SPACES)
  }

  /** Neither end of s is in the cut set. */
  predicate Trimmed(s: string, cut: set<char>) {
    s == "" || (s[0] !in cut && s[|s| - 1] !in cut)
  }

  lemma {:induction false} TrimLeftEnds(s: string, cut: set<char>)
    ensures var t := TrimLeft(s, cut); |t| <= |s| && t == s[|s| - |t|..] && (t == "" || t[0] !in cut)
    ensures forall c :: c in s[..|s| - |TrimLeft(s, cut)|] ==> c in cut
    decreases |s|
  {
    if s != "" && s[0] in cut {
      TrimLeftEnds(s[1..], cut);
    }
  }

  lemma {:induction false} TrimRightEnds(s: string, cut: set<char>)
    ensures var t := TrimRight(s, cut); |t| <= |s| && t == s[..|t|] && (t == "" || t[|t| - 1] !in cut)
    ensures forall c :: c in s[|TrimRight(s, cut)|..] ==> c in cut
    decreases |s|
  {
    if s != "" && s[|s| - 1] in cut {
      TrimRightEnds(s[..|s| - 1], cut);
    }
  }

  /** Trimming yields a trimmed substring, and nothing more is cut the second time. */
  lemma TrimIsTrimmed(s: string, cut: set<char>)
    ensures Trimmed(Trim(s, cut), cut)
    ensures forall c :: c in Trim(s, cut) ==> c in s
    ensures |Trim(s, cut)| <= |s|
    ensures Trimmed(s, cut) <==> Trim(s, cut) == s
    ensures Trim(Trim(s, cut), cut) == Trim(s, cut)
  {
    TrimLeftEnds(s, cut);
    TrimRightEnds(TrimLeft(s, cut), cut);
  }

  predicate HasPrefix(s: string, prefix: string) {
    prefix <= s
  }

  /** `strings.Split(s, sep)` for a one-character separator: always at least one piece. */
  function Split(s: string, sep: char): (pieces: seq<string>)
    ensures pieces != []
  {
    if s == "" then [""]
    else
      var rest := Split(s[1..], sep);
      if s[0] == sep then [""] + rest else [[s[0]] + rest[0]] + rest[1..]
  }

  /** `strings.Join(pieces, sep)`. */
  function Join(pieces: seq<string>, sep: char): string {
    if pieces == [] then ""
    else if |pieces| == 1 then pieces[0]
    else pieces[0] + [sep] + Join(pieces[1..], sep)
  }

  predicate NoneContains(pieces: seq<string>, sep: char) {
    forall i :: 0 <= i < |pieces| ==> sep !in pieces[i]
  }

  function Count(s: string, c: char): nat {
    if s == "" then 0 else (if s[0] == c then 1 else 0) + Count(s[1..], c)
  }

  lemma {:induction false} SplitPieces(s: string, sep: char)
    ensures NoneContains(Split(s, sep), sep)
    ensures |Split(s, sep)| == Count(s, sep) + 1
    ensures Join(Split(s, sep), sep) == s
    decreases |s|
  {
    if s != "" {
      SplitPieces(s[1..], sep);
      var rest := Split(s[1..], sep);
      if s[0] == sep {
        assert ([""] + rest)[1..] == rest;
      } else {
        var pieces := [[s[0]] + rest[0]] + rest[1..];
        assert pieces[1..] == rest[1..];
        assert Join(pieces, sep) == [s[0]] + Join(rest, sep);
      }
    }
  }

  lemma {:induction false} SplitPrefix(k: string, tail: string, sep: char)
    requires sep !in k
    ensures Split(k + [sep] + tail, sep) == [k] + Split(tail, sep)
    ensures Split(k, sep) == [k]
    decreases |k|
  {
    if k == "" {
      assert (k + [sep] + tail)[1..] == tail;
    } else {
      assert (k + [sep] + tail)[1..] == k[1..] + [sep] + tail;
      SplitPrefix(k[1..], tail, sep);
      assert [k[0]] + k[1..] == k;
    }
  }

  lemma {:induction false} SplitOfJoin(pieces: seq<string>, sep: char)
    requires pieces != [] && NoneContains(pieces, sep)
    ensures Split(Join(pieces, sep), sep) == pieces
  {
    if |pieces| == 1 {
      SplitPrefix(pieces[0], "", sep);
    } else {
      SplitPrefix(pieces[0], Join(pieces[1..], sep), sep);
      SplitOfJoin(pieces[1..], sep);
    }
  }

  /** How a stored list is read back: the empty text is the empty list, and separators at
      either end of the text are cut before it is split. */
  function ReadList(text: string, sep: char): seq<string> {
    if text == "" then [] else Split(Trim(text, {sep}), sep)
  }

  /** A list that survives being joined, stored and read back. */
  predicate Storable(pieces: seq<string>, sep: char) {
    && NoneContains(pieces, sep)
    && (pieces != [] ==> pieces[0] != "" && pieces[|pieces| - 1] != "")
  }

  lemma {:induction false} JoinEnds(pieces: seq<string>, sep: char)
    requires pieces != []
    ensures pieces[0] != "" ==> Join(pieces, sep) != "" && Join(pieces, sep)[0] == pieces[0][0]
    ensures pieces[0] == "" && |pieces| > 1 ==> Join(pieces, sep) != "" && Join(pieces, sep)[0] == sep
    ensures var last := pieces[|pieces| - 1]; var text := Join(pieces, sep);
            last != "" ==> text != "" && text[|text| - 1] == last[|last| - 1]
    ensures var text := Join(pieces, sep);
            pieces[|pieces| - 1] == "" && |pieces| > 1 ==> text != "" && text[|text| - 1] == sep
  {
    if |pieces| > 1 {
      JoinEnds(pieces[1..], sep);
      assert pieces[1..][|pieces| - 2] == pieces[|pieces| - 1];
    }
  }

  lemma {:induction false} CountConcat(a: string, b: string, c: char)
    ensures Count(a + b, c) == Count(a, c) + Count(b, c)
    decreases |a|
  {
    if a == "" {
      assert a + b == b;
    } else {
      assert (a + b)[1..] == a[1..] + b;
      CountConcat(a[1..], b, c);
    }
  }

  /** What trimming cuts off: at either end, something exactly when that end is to be cut, and nothing
      but what is to be cut. */
  lemma TrimParts(s: string, cut: set<char>) returns (front: string, back: string)
    ensures s == front + Trim(s, cut) + back
    ensures (forall c :: c in front ==> c in cut) && (forall c :: c in back ==> c in cut)
    ensures Trimmed(Trim(s, cut), cut)
    ensures s != "" && s[0] in cut ==> front != "" && front[0] == s[0]
    ensures s != "" && s[|s| - 1] in cut && front != s ==> back != "" && back[|back| - 1] == s[|s| - 1]
  {
    TrimIsTrimmed(s, cut);
    var l := TrimLeft(s, cut);
    front := CutLeft(s, cut);
    back := CutRight(l, cut);
    hide TrimLeft; hide TrimRight; hide Trimmed;
    LastOfBoth(front, l);
  }

  lemma CutLeft(s: string, cut: set<char>) returns (front: string)
    ensures s == front + TrimLeft(s, cut) && forall c :: c in front ==> c in cut
    ensures s != "" && s[0] in cut ==> front != "" && front[0] == s[0]
  {
    TrimLeftEnds(s, cut);
    hide TrimLeft;
    front := s[..|s| - |TrimLeft(s, cut)|];
  }

  lemma CutRight(s: string, cut: set<char>) returns (back: string)
    ensures s == TrimRight(s, cut) + back && forall c :: c in back ==> c in cut
    ensures s != "" && s[|s| - 1] in cut ==> back != "" && back[|back| - 1] == s[|s| - 1]
  {
    TrimRightEnds(s, cut);
    hide TrimRight;
    back := s[|TrimRight(s, cut)|..];
  }

  lemma LastOfBoth(a: string, b: string)
    ensures if b == "" then a + b == a else (a + b)[|a + b| - 1] == b[|b| - 1]
  {
  }

  lemma CountTrim(s: string, c: char)
    requires s != "" && (s[0] == c || s[|s| - 1] == c)
    ensures Count(Trim(s, {c}), c) < Count(s, c)
  {
    var front, back := TrimParts(s, {c});
    var t := Trim(s, {c});
    EndCounts(front, c);
    EndCounts(back, c);
    hide Count; hide Trim;
    CountConcat(front + t, back, c);
    CountConcat(front, t, c);
  }

  lemma EndCounts(s: string, c: char)
    ensures s != "" && (s[0] == c || s[|s| - 1] == c) ==> Count(s, c) > 0
  {
    if s != "" && s[|s| - 1] == c {
      CountConcat(s[..|s| - 1], s[|s| - 1..], c);
      assert s == s[..|s| - 1] + s[|s| - 1..];
    }
  }

  /** Joining, storing and reading back is the identity on exactly the storable lists. */
  lemma ReadListOfJoin(pieces: seq<string>, sep: char)
    ensures ReadList(Join(pieces, sep), sep) == pieces <==> Storable(pieces, sep)
  {
    if pieces != [] {
      var text := Join(pieces, sep);
      JoinEnds(pieces, sep);
      if NoneContains(pieces, sep) {
        SplitOfJoin(pieces, sep);
        SplitPieces(text, sep);
        if pieces[0] != "" && pieces[|pieces| - 1] != "" {
          assert pieces[0][0] in pieces[0] && pieces[|pieces| - 1][|pieces[|pieces| - 1]| - 1] in pieces[|pieces| - 1];
          TrimIsTrimmed(text, {sep});
        } else if |pieces| > 1 {
          CountTrim(text, sep);
          SplitPieces(Trim(text, {sep}), sep);
        }
      } else {
        SplitPieces(Trim(text, {sep}), sep);
      }
    }
  }
}
