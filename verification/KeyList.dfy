/** A multi-key channel's key text: how it is read, how a changed list is written back, and when
    reading gives back what was written. */
module KeyList {
  import opened Options
  import opened Text

  /** The raw elements of a text that parses as a JSON array; parsing itself is a parameter. */
  type JsonArray = string -> Option<seq<string>>

  predicate LooksLikeJson(key: string) {
    HasPrefix(TrimSpace(key), "[")
  }

  /** `Channel.GetKeys` on a freshly loaded channel. */
  function GetKeys(key: string, json: JsonArray): seq<string> {
    if key == "" then []
    else if LooksLikeJson(key) && json(TrimSpace(key)).Some? then json(TrimSpace(key)).value
    else Split(Trim(key, {'\n'}), '\n')
  }

  /** The key count `Channel.Update` recomputes: an empty JSON array falls back to splitting. */
  function CountKeys(key: string, json: JsonArray): nat {
    if key == "" then 0
    else if LooksLikeJson(key) && json(TrimSpace(key)).Some? && json(TrimSpace(key)).value != [] then |json(TrimSpace(key)).value|
    else |Split(Trim(key, {'\n'}), '\n')|
  }

  /** The stored size agrees with the keys that will be read, except for an empty JSON array. */
  lemma CountIsKeys(key: string, json: JsonArray)
    ensures CountKeys(key, json) == |GetKeys(key, json)|
       <==> !(key != "" && LooksLikeJson(key) && json(TrimSpace(key)) == Some([]))
  {
  }

  /** The text decodes as a JSON array, so its lines do not matter. */
  predicate TakenForJson(text: string, json: JsonArray) {
    LooksLikeJson(text) && json(TrimSpace(text)).Some?
  }

  /** What a text must be to read as these keys, seen from the keys it was joined from. */
  predicate ReadsAs(text: string, keys: seq<string>, json: JsonArray) {
    if TakenForJson(text, json) then json(TrimSpace(text)).value == keys else Storable(keys, '\n')
  }

  /** A rewritten key list is read back unchanged exactly when the text decodes as a JSON array of
      just these keys or, if it does not decode, when no key holds a line break and neither end of
      the list is blank. */
  lemma ReadsBackExactly(keys: seq<string>, json: JsonArray)
    ensures GetKeys(Join(keys, '\n'), json) == keys <==> ReadsAs(Join(keys, '\n'), keys, json)
  {
    ReadListOfJoin(keys, '\n');
    assert TrimSpace("") == "";
  }

  /** The update never counts fewer keys than are read. */
  lemma CountCoversKeys(key: string, json: JsonArray)
    ensures |GetKeys(key, json)| <= CountKeys(key, json)
  {
  }

  /** The first character that is not white space. */
  function FirstVisible(s: string): Option<char> {
    if s == "" then None else if s[0] in SPACES then FirstVisible(s[1..]) else Some(s[0])
  }

  /** A key that keeps its place in every list it is written into. */
  predicate Plain(k: string) {
    k != "" && '\n' !in k && FirstVisible(k) != Some('[')
  }

  predicate AllPlain(keys: seq<string>) {
    forall i :: 0 <= i < |keys| ==> Plain(keys[i])
  }

  lemma {:induction false} FirstVisibleTrims(s: string)
    ensures HasPrefix(TrimSpace(s), "[") <==> FirstVisible(s) == Some('[')
  {
    var t := TrimLeft(s, SPACES);
    FirstVisibleLeft(s);
    TrimLeftEnds(s, SPACES);
    TrimRightEnds(t, SPACES);
    var r := TrimRight(t, SPACES);
    if t != "" {
      RightKeepsHead(t);
      assert r[0] == t[0];
    }
    assert "["[0] == '[';
  }

  lemma {:induction false} FirstVisibleLeft(s: string)
    ensures FirstVisible(s) == (if TrimLeft(s, SPACES) == "" then None else Some(TrimLeft(s, SPACES)[0]))
  {
    if s != "" && s[0] in SPACES {
      FirstVisibleLeft(s[1..]);
    }
  }

  lemma {:induction false} RightKeepsHead(t: string)
    requires t != "" && t[0] !in SPACES
    ensures TrimRight(t, SPACES) != ""
    decreases |t|
  {
    if t[|t| - 1] in SPACES {
      RightKeepsHead(t[..|t| - 1]);
    }
  }

  lemma {:induction false} FirstVisibleConcat(a: string, b: string)
    ensures FirstVisible(a + b) == if FirstVisible(a).Some? then FirstVisible(a) else FirstVisible(b)
    decreases |a|
  {
    if a == "" {
      assert a + b == b;
    } else {
      assert (a + b)[1..] == a[1..] + b;
      FirstVisibleConcat(a[1..], b);
    }
  }

  lemma {:induction false} JoinedPlainIsNotJson(keys: seq<string>)
    requires AllPlain(keys)
    ensures FirstVisible(Join(keys, '\n')) != Some('[')
  {
    if |keys| > 1 {
      JoinedPlainIsNotJson(keys[1..]);
      FirstVisibleConcat(keys[0] + ['\n'], Join(keys[1..], '\n'));
      FirstVisibleConcat(keys[0], ['\n']);
      assert FirstVisible(['\n']) == FirstVisible([]);
    }
  }

  /** A list of plain keys is read back as it was written. */
  lemma PlainReadsBack(keys: seq<string>, json: JsonArray)
    requires AllPlain(keys)
    ensures GetKeys(Join(keys, '\n'), json) == keys
    ensures CountKeys(Join(keys, '\n'), json) == |keys|
    ensures keys != [] ==> Join(keys, '\n') != ""
  {
    JoinedPlainIsNotJson(keys);
    FirstVisibleTrims(Join(keys, '\n'));
    ReadsBackExactly(keys, json);
    if keys != [] {
      JoinEnds(keys, '\n');
    }
  }

  /** The new keys an append keeps: trimmed, not blank, not yet present, each once. */
  function NewKeys(seen: set<string>, added: seq<string>): seq<string>
    decreases |added|
  {
    if added == [] then []
    else
      var k := TrimSpace(added[0]);
      if k == "" || k in seen then NewKeys(seen, added[1..])
      else [k] + NewKeys(seen + {k}, added[1..])
  }

  function Present(keys: seq<string>): set<string> {
    set i | 0 <= i < |keys| && TrimSpace(keys[i]) != "" :: TrimSpace(keys[i])
  }

  lemma PresentStep(keys: seq<string>, i: nat)
    requires i < |keys|
    ensures var k := TrimSpace(keys[i]);
            Present(keys[..i + 1]) == Present(keys[..i]) + if k == "" then {} else {k}
  {
    hide TrimSpace;
    var now, before := keys[..i + 1], keys[..i];
    assert now[i] == keys[i] && forall j :: 0 <= j < i ==> now[j] == before[j];
  }

  /** How the append branch parses the stored text. Unlike `GetKeys` it does not fall back to lines
      when a text that opens like a JSON array does not decode. */
  function ExistingKeys(stored: string, json: JsonArray): seq<string> {
    if LooksLikeJson(stored) then
      if json(TrimSpace(stored)).Some? then json(TrimSpace(stored)).value else []
    else Split(Trim(stored, {'\n'}), '\n')
  }

  /** The two parses agree exactly when a text that opens like a JSON array also decodes. */
  lemma ParsesAgreeExactly(stored: string, json: JsonArray)
    requires stored != ""
    ensures ExistingKeys(stored, json) == GetKeys(stored, json) <==> (LooksLikeJson(stored) ==> TakenForJson(stored, json))
  {
  }

  /** The visible keys of a submitted text, a line each. */
  function Lines(pieces: seq<string>): seq<string> {
    if pieces == [] then []
    else
      var k := TrimSpace(pieces[|pieces| - 1]);
      Lines(pieces[..|pieces| - 1]) + (if k == "" then [] else [k])
  }

  /** The keys a request brings. A Vertex text is a JSON array, which may not decode, or one key as
      it stands, line breaks and all. */
  function SubmittedKeys(submitted: string, vertex: bool, vertexArray: JsonArray): Option<seq<string>> {
    if !vertex then Some(Lines(Split(submitted, '\n')))
    else if LooksLikeJson(submitted) then vertexArray(submitted)
    else Some([submitted])
  }

  /** The keys in the order the append branch writes them. */
  function Appended(stored: string, added: seq<string>, json: JsonArray): seq<string> {
    var existing := ExistingKeys(stored, json);
    existing + NewKeys(Present(existing), added)
  }

  method SplitLines(submitted: string) returns (keys: seq<string>)
    ensures keys == Lines(Split(submitted, '\n'))
  {
    hide TrimSpace;
    var pieces := Split(submitted, '\n');
    keys := [];
    for i := 0 to |pieces|
      invariant keys == Lines(pieces[..i])
    {
      assert pieces[..i + 1][..i] == pieces[..i];
      var key := TrimSpace(pieces[i]);
      if key != "" {
        keys := keys + [key];
      }
    }
    assert pieces[..|pieces|] == pieces;
  }

  /** The seen map of the keys already there. */
  method SeenKeys(existing: seq<string>) returns (seen: set<string>)
    ensures seen == Present(existing)
  {
    hide TrimSpace;
    seen := {};
    for i := 0 to |existing|
      invariant seen == Present(existing[..i])
    {
      var normalized := TrimSpace(existing[i]);
      PresentStep(existing, i);
      if normalized == "" {
        continue;
      }
      seen := seen + {normalized};
    }
    assert existing[..|existing|] == existing;
  }

  /** The new keys, each entered in the seen map. */
  method DedupedKeys(present: set<string>, added: seq<string>) returns (deduped: seq<string>)
    ensures deduped == NewKeys(present, added)
  {
    hide TrimSpace;
    var seen := present;
    deduped := [];
    for i := 0 to |added|
      invariant deduped + NewKeys(seen, added[i..]) == NewKeys(present, added)
    {
      var normalized := TrimSpace(added[i]);
      assert added[i..][0] == added[i] && added[i..][1..] == added[i + 1..];
      if normalized == "" {
        continue;
      }
      if normalized in seen {
        continue;
      }
      seen := seen + {normalized};
      deduped := deduped + [normalized];
    }
    assert deduped + [] == deduped;
  }

  /** The append branch of a channel edit; refused when a Vertex array does not decode, and passed
      over when nothing is stored. */
  method AppendKeys(stored: string, submitted: string, vertex: bool, json: JsonArray, vertexArray: JsonArray) returns (key: Option<string>)
    ensures stored == "" ==> key == Some(submitted)
    ensures stored != "" ==> (key.None? <==> SubmittedKeys(submitted, vertex, vertexArray).None?)
    ensures stored != "" && key.Some? ==>
              key.value == Join(Appended(stored, SubmittedKeys(submitted, vertex, vertexArray).value, json), '\n')
  {
    hide TrimSpace; hide Split;
    if stored == "" {
      return Some(submitted);
    }
    var existing := ExistingKeys(stored, json);
    var added: seq<string>;
    if vertex {
      if LooksLikeJson(submitted) {
        var decoded := vertexArray(submitted);
        if decoded.None? {
          return None;
        }
        added := decoded.value;
      } else {
        added := [submitted];
      }
    } else {
      added := SplitLines(submitted);
    }
    var seen := SeenKeys(existing);
    var deduped := DedupedKeys(seen, added);
    key := Some(Join(existing + deduped, '\n'));
  }

  /** Trimmed, not blank, pairwise different, and not among the keys already present. */
  ghost predicate NewTo(seen: set<string>, keys: seq<string>) {
    && (forall k :: k in keys ==> k != "" && k !in seen && TrimSpace(k) == k)
    && (forall i, j :: 0 <= i < j < |keys| ==> keys[i] != keys[j])
  }

  /** What the appended part is, and that no key the caller supplied is lost. */
  lemma {:induction false} AppendedKeysAreNew(seen: set<string>, added: seq<string>)
    ensures NewTo(seen, NewKeys(seen, added))
    ensures forall k :: k in added && TrimSpace(k) != "" ==> TrimSpace(k) in seen || TrimSpace(k) in NewKeys(seen, added)
    decreases |added|
  {
    hide TrimSpace;
    if added != [] {
      var k := TrimSpace(added[0]);
      TrimmedTwice(added[0]);
      assert added == [added[0]] + added[1..];
      if k == "" || k in seen {
        AppendedKeysAreNew(seen, added[1..]);
      } else {
        AppendedKeysAreNew(seen + {k}, added[1..]);
        var rest := NewKeys(seen + {k}, added[1..]);
        assert NewTo(seen, [k] + rest);
        assert NewKeys(seen, added) == [k] + rest;
      }
    }
  }

  lemma TrimmedTwice(s: string)
    ensures TrimSpace(TrimSpace(s)) == TrimSpace(s)
  {
    TrimIsTrimmed(s, SPACES);
  }

  /** The text the channel is left with; an empty one is not written. */
  function Written(stored: string, text: string): string {
    if text == "" then stored else text
  }

  /** After an append, the keys that were read before have kept their indices and the new ones
      follow, exactly when nothing was written, or the text decodes as a JSON array of just these
      keys, or it does not decode, the stored text was parsed as it is read, no key holds a line
      break and neither end is blank. */
  lemma AppendKeepsIndicesExactly(stored: string, added: seq<string>, json: JsonArray)
    requires stored != ""
    ensures var fresh' := NewKeys(Present(ExistingKeys(stored, json)), added);
            var kept := GetKeys(stored, json) + fresh';
            var text := Join(Appended(stored, added, json), '\n');
            (GetKeys(Written(stored, text), json) == kept
             <==> || text == ""
                  || (if TakenForJson(text, json) then json(TrimSpace(text)).value == kept
                      else ExistingKeys(stored, json) == GetKeys(stored, json) && Storable(kept, '\n')))
  {
    assert Join([], '\n') == "";
    hide TrimSpace; hide NewKeys; hide Present; hide Storable; hide Split; hide Trim; hide Join;
    var existing := ExistingKeys(stored, json);
    var fresh' := NewKeys(Present(existing), added);
    var text := Join(existing + fresh', '\n');
    AppendedKeysAreNew(Present(existing), added);
    if text == "" {
      BlankJoin(existing + fresh');
      BlankAppend(existing, fresh');
      assert GetKeys(stored, json) + [] == GetKeys(stored, json);
    } else if existing == GetKeys(stored, json) {
      ReadsBackExactly(existing + fresh', json);
    } else {
      ParsesAgreeExactly(stored, json);
      assert existing == [] && existing + fresh' == fresh';
      if !TakenForJson(text, json) {
        DroppedStaysDropped(stored, fresh', json);
      }
    }
  }

  lemma BlankJoin(keys: seq<string>)
    requires Join(keys, '\n') == ""
    ensures keys == [] || keys == [""]
  {
    if keys != [] {
      JoinEnds(keys, '\n');
    }
  }

  lemma BlankAppend(existing: seq<string>, fresh': seq<string>)
    requires forall k :: k in fresh' ==> k != ""
    ensures fresh' != [] ==> existing + fresh' != [] && existing + fresh' != [""]
  {
    if fresh' != [] {
      assert fresh'[|fresh'| - 1] in fresh';
      assert (existing + fresh')[|existing + fresh'| - 1] == fresh'[|fresh'| - 1];
    }
  }

  lemma DroppedStaysDropped(stored: string, fresh': seq<string>, json: JsonArray)
    requires GetKeys(stored, json) != []
    requires fresh' != [] && forall k :: k in fresh' ==> k != ""
    requires !TakenForJson(Join(fresh', '\n'), json)
    ensures GetKeys(Join(fresh', '\n'), json) != GetKeys(stored, json) + fresh'
  {
    var text, old' := Join(fresh', '\n'), GetKeys(stored, json);
    ReadListOfJoin(fresh', '\n');
    SplitPieces(Trim(text, {'\n'}), '\n');
    JoinEnds(fresh', '\n');
    assert fresh'[0] in fresh' && fresh'[|fresh'| - 1] in fresh';
    hide Split; hide Trim; hide TrimSpace; hide Join;
    if !NoneContains(fresh', '\n') {
      var i :| 0 <= i < |fresh'| && '\n' in fresh'[i];
      assert (old' + fresh')[|old'| + i] == fresh'[i];
    }
  }

  /** A stored text that opens like a JSON array and does not decode is read as lines, but dropped
      by the next append. */
  lemma UndecodableTextIsDropped(stored: string, added: string, json: JsonArray)
    requires LooksLikeJson(stored) && !TakenForJson(stored, json)
    requires Plain(added) && TrimSpace(added) == added
    ensures GetKeys(stored, json) != []
    ensures GetKeys(Written(stored, Join(Appended(stored, [added], json), '\n')), json) == [added]
  {
    assert TrimSpace("") == "";
    assert ExistingKeys(stored, json) == [] && Present([]) == {};
    assert NewKeys({}, [added]) == [added];
    assert [] + [added] == [added];
    PlainReadsBack([added], json);
  }

  /** A Vertex key printed over two lines is appended as one key and read back as two. */
  lemma PrettyPrintedKeyFallsApart(keys: seq<string>, a: string, b: string, json: JsonArray)
    requires AllPlain(keys + [a, b]) && TrimSpace(a + ['\n'] + b) == a + ['\n'] + b
    requires keys != [] && a + ['\n'] + b !in Present(keys)
    ensures var stored, added := Join(keys, '\n'), a + ['\n'] + b;
            && GetKeys(stored, json) == keys
            && Appended(stored, [added], json) == keys + [added]
            && GetKeys(Written(stored, Join(Appended(stored, [added], json), '\n')), json) == keys + [a, b]
  {
    var stored, added := Join(keys, '\n'), a + ['\n'] + b;
    assert AllPlain(keys) by {
      assert forall i :: 0 <= i < |keys| ==> keys[i] == (keys + [a, b])[i];
    }
    PlainReadsBack(keys, json);
    PlainReadsBack(keys + [a, b], json);
    JoinedPlainIsNotJson(keys);
    FirstVisibleTrims(stored);
    assert ExistingKeys(stored, json) == keys;
    hide TrimSpace; hide GetKeys; hide Present; hide ExistingKeys; hide Plain;
    assert NewKeys(Present(keys), [added]) == [added] + NewKeys(Present(keys) + {added}, []);
    assert [added] + [] == [added];
    JoinSplitLast(keys, a, b);
  }

  lemma {:induction false} JoinSplitLast(keys: seq<string>, a: string, b: string)
    ensures Join(keys + [a + ['\n'] + b], '\n') == Join(keys + [a, b], '\n')
  {
    var joined, apart := keys + [a + ['\n'] + b], keys + [a, b];
    if keys == [] {
      assert joined == [a + ['\n'] + b] && apart == [a, b] && apart[1..] == [b];
    } else {
      assert joined[1..] == keys[1..] + [a + ['\n'] + b] && apart[1..] == keys[1..] + [a, b];
      JoinSplitLast(keys[1..], a, b);
    }
  }

  /** The keys are the visible ones among the pieces, trimmed, in their order; `at` tells where each
      one stands. */
  ghost predicate VisibleOnes(pieces: seq<string>, keys: seq<string>, at: seq<nat>) {
    && |at| == |keys|
    && (forall j :: 0 <= j < |at| ==> at[j] < |pieces| && TrimSpace(pieces[at[j]]) == keys[j] != "")
    && (forall i, j :: 0 <= i < j < |at| ==> at[i] < at[j])
    && (forall i: nat :: i < |pieces| && TrimSpace(pieces[i]) != "" ==> i in at)
  }

  lemma {:induction false} LinesInOrder(pieces: seq<string>) returns (at: seq<nat>)
    ensures VisibleOnes(pieces, Lines(pieces), at)
  {
    hide TrimSpace;
    at := [];
    if pieces != [] {
      var n := |pieces| - 1;
      var before := LinesInOrder(pieces[..n]);
      OnePieceMore(pieces[..n], Lines(pieces[..n]), before, pieces[n]);
      assert pieces[..n] + [pieces[n]] == pieces;
      hide VisibleOnes;
      assert Lines(pieces[..n]) + [] == Lines(pieces[..n]);
      at := if TrimSpace(pieces[n]) == "" then before else before + [n];
    }
  }

  lemma OnePieceMore(pieces: seq<string>, keys: seq<string>, at: seq<nat>, piece: string)
    requires VisibleOnes(pieces, keys, at)
    ensures if TrimSpace(piece) == "" then VisibleOnes(pieces + [piece], keys, at)
            else VisibleOnes(pieces + [piece], keys + [TrimSpace(piece)], at + [|pieces|])
  {
    hide TrimSpace;
    var more, at' := pieces + [piece], at + [|pieces|];
    assert forall i: nat :: i < |pieces| ==> more[i] == pieces[i];
    assert at'[|at|] == |pieces|;
    assert forall i :: i in at ==> i in at';
  }

  /** The keys a request brings: for an ordinary channel its visible lines, whatever blanks and white
      space surround them; for a Vertex channel the elements of a JSON array, or the text itself. */
  lemma SubmittedExactly(submitted: string, vertexArray: JsonArray, k: string)
    ensures var keys := SubmittedKeys(submitted, false, vertexArray);
            keys.Some? && (k in keys.value <==> k != "" && exists line :: line in Split(submitted, '\n') && TrimSpace(line) == k)
    ensures var keys := SubmittedKeys(submitted, true, vertexArray);
            if HasPrefix(TrimSpace(submitted), "[") then keys == vertexArray(submitted) else keys == Some([submitted])
  {
    hide TrimSpace; hide Lines; hide Split;
    var pieces := Split(submitted, '\n');
    var at := LinesInOrder(pieces);
    var lines := Lines(pieces);
    if k in lines {
      var j :| 0 <= j < |lines| && lines[j] == k;
      assert pieces[at[j]] in pieces;
    }
    if line :| line in pieces && TrimSpace(line) == k && k != "" {
      var i :| 0 <= i < |pieces| && pieces[i] == line;
      assert i in at;
      var j :| 0 <= j < |at| && at[j] == i;
      assert lines[j] in lines;
    }
  }

  /** A key is appended exactly when some submitted key reads like it once trimmed, and no stored one. */
  lemma AppendedExactly(existing: seq<string>, added: seq<string>, k: string)
    ensures k in NewKeys(Present(existing), added)
       <==> && k != "" && (exists a :: a in added && TrimSpace(a) == k)
            && !exists e :: e in existing && TrimSpace(e) == k
  {
    hide TrimSpace; hide NewKeys; hide Present;
    AppendedKeysAreNew(Present(existing), added);
    PresentExactly(existing, k);
    NewKeysWereAdded(Present(existing), added);
  }

  lemma PresentExactly(keys: seq<string>, k: string)
    ensures k in Present(keys) <==> k != "" && exists e :: e in keys && TrimSpace(e) == k
  {
    hide TrimSpace;
    if k != "" {
      if e :| e in keys && TrimSpace(e) == k {
        var i :| 0 <= i < |keys| && keys[i] == e;
        assert TrimSpace(keys[i]) == k;
      }
    }
  }

  lemma {:induction false} NewKeysWereAdded(seen: set<string>, added: seq<string>)
    ensures forall k :: k in NewKeys(seen, added) ==> exists a :: a in added && TrimSpace(a) == k
    decreases |added|
  {
    hide TrimSpace;
    if added != [] {
      NewKeysWereAdded(seen, added[1..]);
      NewKeysWereAdded(seen + {TrimSpace(added[0])}, added[1..]);
      assert added[0] in added && forall a :: a in added[1..] ==> a in added;
    }
  }

  /** Here a key is submitted for the first time. */
  predicate FirstAdded(added: seq<string>, k: string, p: nat) {
    p < |added| && TrimSpace(added[p]) == k && forall q: nat :: q < p ==> TrimSpace(added[q]) != k
  }

  /** The appended keys come in the order in which they were first submitted. */
  lemma {:induction false} NewKeysInOrder(seen: set<string>, added: seq<string>) returns (at: seq<nat>)
    ensures |at| == |NewKeys(seen, added)|
    ensures forall j :: 0 <= j < |at| ==> FirstAdded(added, NewKeys(seen, added)[j], at[j])
    ensures forall i, j :: 0 <= i < j < |at| ==> at[i] < at[j]
    decreases |added|
  {
    hide TrimSpace; hide FirstAdded;
    at := [];
    if added != [] {
      var k := TrimSpace(added[0]);
      var skipped := k == "" || k in seen;
      var seen' := if skipped then seen else seen + {k};
      var later := NewKeysInOrder(seen', added[1..]);
      var rest := NewKeys(seen', added[1..]);
      AppendedKeysAreNew(seen', added[1..]);
      var shifted := seq(|later|, j requires 0 <= j < |later| => later[j] + 1);
      forall j | 0 <= j < |later|
        ensures FirstAdded(added, rest[j], shifted[j])
      {
        assert rest[j] in rest;
        LaterFirst(added, rest[j], later[j]);
      }
      if skipped {
        at := shifted;
      } else {
        at := [0] + shifted;
        FirstIsFirst(added);
      }
    }
  }

  lemma LaterFirst(added: seq<string>, k: string, p: nat)
    requires added != [] && FirstAdded(added[1..], k, p) && TrimSpace(added[0]) != k
    ensures FirstAdded(added, k, p + 1)
  {
    hide TrimSpace;
    assert forall q: nat :: 1 <= q < |added| ==> added[q] == added[1..][q - 1];
  }

  lemma FirstIsFirst(added: seq<string>)
    requires added != []
    ensures FirstAdded(added, TrimSpace(added[0]), 0)
  {
    hide TrimSpace;
  }
}
