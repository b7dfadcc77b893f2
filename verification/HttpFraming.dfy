/** The serializer and the raw client agree on where a response's head and body end. */
module HttpFraming {
  import opened Bytes
  import opened Text
  import opened HttpMessage
  import opened HttpResponse
  import opened HttpSpec
  import opened HttpParser
  import opened RawClient

  predicate HeadLine(line: bytes) {
    line != [] && LineSafe(line)
  }

  predicate AllHeadLines(lines: seq<bytes>) {
    forall i :: 0 <= i < |lines| ==> HeadLine(lines[i])
  }

  // ---------------------------------------------------------------- the blank line

  lemma BlankShift(line: bytes, t: bytes, i: nat)
    ensures BlankAt(line + CRLF + t, |line| + 2 + i) <==> BlankAt(t, i)
  {
    var s := line + CRLF + t;
    assert forall k :: 0 <= k < |t| ==> s[|line| + 2 + k] == t[k];
  }

  lemma NoBlankInLine(line: bytes, t: bytes, i: nat)
    requires HeadLine(line) && t != [] && t[0] != CR && i < |line| + 2
    ensures !BlankAt(line + CRLF + t, i)
  {
    var s := line + CRLF + t;
    assert i < |line| ==> s[i] == line[i];
    assert s[|line| + 1] == LF && s[|line| + 2] == t[0];
  }

  /** The first blank line of a serialized head is the one that ends it. */
  lemma {:induction false} HeadEnds(lines: seq<bytes>, x: bytes)
    requires lines != [] && AllHeadLines(lines)
    ensures HeaderEnd(Terminated(lines) + CRLF + x) == Some(|Terminated(lines)| + 2)
    ensures (Terminated(lines) + CRLF + x)[0] != CR
  {
    hide HeaderEnd;
    var line, rest := lines[0], lines[1..];
    assert HeadLine(line);
    var t := Terminated(rest) + CRLF + x;
    var s := line + CRLF + t;
    assert Terminated(lines) + CRLF + x == s;
    assert s[0] == line[0];
    if rest == [] {
      assert t == CRLF + x;
      assert BlankAt(s, |line|);
      assert forall i :: 0 <= i < |line| ==> s[i] == line[i];
      HeaderEndAt(s, |line|);
    } else {
      HeadEnds(rest, x);
      var p := |Terminated(rest)| + 2;
      assert HeaderEnd(t) == Some(p);
      HeaderEndShift(line, t, p);
    }
  }

  lemma HeaderEndShift(line: bytes, t: bytes, p: nat)
    requires HeadLine(line) && t != [] && t[0] != CR && HeaderEnd(t) == Some(p)
    ensures HeaderEnd(line + CRLF + t) == Some(|line| + 2 + p)
  {
    var s, n := line + CRLF + t, |line| + 2;
    BlankShift(line, t, p - 4);
    forall i | 0 <= i < n + p - 4 ensures !BlankAt(s, i) {
      if i < n {
        NoBlankInLine(line, t, i);
      } else {
        BlankShift(line, t, i - n);
      }
    }
    HeaderEndAt(s, n + p - 4);
  }

  // ---------------------------------------------------------------- the lines

  lemma FirstLine(line: bytes, t: bytes)
    requires LineSafe(line)
    ensures Lines(line + CRLF + t) == [line] + Lines(t)
  {
    hide Lines;
    var s, n := line + CRLF + t, |line| + 1;
    assert forall i :: 0 <= i < |line| ==> s[i] == line[i];
    IndexOfAt(s, LF, n);
    assert s[..n] == line + [CR] && s[n + 1..] == t;
    assert StripCr(line + [CR]) == line by { assert (line + [CR])[..|line|] == line; }
    LinesStep(s, n);
  }

  lemma LinesStep(s: bytes, n: nat)
    requires n < |s| && IndexOf(s, LF) == Some(n)
    ensures Lines(s) == [StripCr(s[..n])] + Lines(s[n + 1..])
  {
  }

  lemma {:induction false} HeadAsLines(lines: seq<bytes>)
    requires AllHeadLines(lines)
    ensures Lines(Terminated(lines) + CRLF) == lines + [[]]
    decreases |lines|
  {
    hide Lines, StripCr;
    if lines == [] {
      FirstLine([], []);
      assert [] + CRLF + [] == CRLF && Terminated(lines) + CRLF == CRLF;
      assert Lines([]) == [] by { NoLines(); }
    } else {
      var t := Terminated(lines[1..]) + CRLF;
      assert HeadLine(lines[0]);
      assert Terminated(lines) + CRLF == lines[0] + CRLF + t;
      FirstLine(lines[0], t);
      HeadAsLines(lines[1..]);
      assert [lines[0]] + (lines[1..] + [[]]) == lines + [[]];
    }
  }

  lemma NoLines()
    ensures Lines([]) == []
  {
  }

  lemma {:induction false} HeadIsAscii(lines: seq<bytes>)
    requires AllHeadLines(lines)
    ensures Ascii(Terminated(lines))
  {
    if lines != [] {
      assert HeadLine(lines[0]);
      HeadIsAscii(lines[1..]);
    }
  }

  // ---------------------------------------------------------------- which line declares the length

  /** The conditions on a response under which the client can frame it. */
  predicate Framable(r: Response, reason: bytes) {
    && LineSafe(reason)
    && |r.body| < USIZE_LIMIT
    && (forall i :: 0 <= i < |r.fields| ==> FieldOk(r.fields[i], |r.body|))
  }

  /** A lower-case token name, a one-line ASCII value, and Content-Length only if it is right. */
  predicate FieldOk(f: Field, length: nat) {
    && LineSafe(f.name) && LineSafe(f.value)
    && LowerAll(f.name) == f.name && Absent(COLON, f.name)
    && (f.name == CONTENT_LENGTH ==> f.value == Print(length, 10))
  }

  lemma {:induction false} FieldLinesAt(fields: seq<Field>)
    ensures |FieldLines(fields)| == |fields|
    ensures forall i :: 0 <= i < |fields| ==> FieldLines(fields)[i] == FieldLine(fields[i])
  {
    if fields != [] {
      FieldLinesAt(fields[..|fields| - 1]);
    }
  }

  lemma LowerPrefix(a: bytes, b: bytes)
    ensures LowerAll(a + b) == LowerAll(a) + LowerAll(b)
  {
  }

  /** Before the first colon stands the name, so only a Content-Length field makes a length line. */
  lemma LengthLineIsLengthField(f: Field, length: nat)
    requires FieldOk(f, length)
    ensures IsLengthLine(FieldLine(f)) <==> f.name == CONTENT_LENGTH
    ensures f.name == CONTENT_LENGTH ==> LowerAll(FieldLine(f))[15..] == LowerAll([SPACE] + f.value)
  {
    var tail := [SPACE] + f.value;
    assert FieldLine(f) == f.name + [COLON] + tail;
    var low := LowerAll(FieldLine(f));
    LowerPrefix(f.name + [COLON], tail);
    LowerPrefix(f.name, [COLON]);
    assert low == f.name + [COLON] + LowerAll(tail);
    assert |LENGTH_KEY| == 15 && LENGTH_KEY[14] == COLON;
    assert Absent(COLON, CONTENT_LENGTH);
    if f.name == CONTENT_LENGTH {
      assert low[..15] == LENGTH_KEY;
    } else if StartsWith(low, LENGTH_KEY) {
      SameBeforeColon(f.name, LowerAll(tail), low);
      assert false;
    }
  }

  lemma SameBeforeColon(name: bytes, tail: bytes, low: bytes)
    requires low == name + [COLON] + tail && Absent(COLON, name) && StartsWith(low, LENGTH_KEY)
    ensures name == CONTENT_LENGTH
  {
    assert |LENGTH_KEY| == 15 && LENGTH_KEY[14] == COLON && Absent(COLON, CONTENT_LENGTH);
    assert forall i :: 0 <= i < 15 ==> low[i] == low[..15][i];
    assert forall i :: 0 <= i < 14 ==> LENGTH_KEY[i] == CONTENT_LENGTH[i];
    assert low[14] == COLON;
    assert low[|name|] == COLON;
    assert |name| == 14;
    assert low[..14] == name && LENGTH_KEY[..14] == CONTENT_LENGTH;
    assert low[..15][..14] == low[..14];
  }

  lemma TrimAfterSpace(digits: bytes)
    requires Numeral(digits)
    ensures Trim(LowerAll([SPACE] + digits)) == digits
  {
    hide TrimEnd;
    var s := [SPACE] + digits;
    assert LowerAll(s) == s;
    assert LeadingSpace(s) == 1 && s[1..] == digits;
    assert LeadingSpace(digits) == 0;
    assert TrimStart(s) == TrimStart(digits) == digits;
    NumeralUntrimmed(digits);
  }

  lemma NumberAfterSpace(n: nat)
    requires n < USIZE_LIMIT
    ensures ParseUsize(Trim(LowerAll([SPACE] + Print(n, 10))), 10) == Some(n)
  {
    hide ParseUsize, Trim, Print;
    PrintValue(n, 10);
    TrimAfterSpace(Print(n, 10));
    PrintParses(n, 10);
  }

  lemma StatusLineOk(r: Response, reason: bytes)
    requires LineSafe(reason)
    ensures HeadLine(StatusLine(r, reason)) && !IsLengthLine(StatusLine(r, reason))
  {
    var line := StatusLine(r, reason);
    PrintValue(r.status, 10);
    assert line[0] == 72;
    assert LowerAll(line)[0] == 104 && LENGTH_KEY[0] == 99;
  }

  /** The text of a version tells it from every other one, but HTTP/0.9 is written as HTTP/1.1. */
  lemma VersionTextTells(a: Version, b: Version)
    ensures VersionText(a) == VersionText(b) <==> a == b || (a in {Http09, Http11} && b in {Http09, Http11})
  {
    assert HTTP_1_0[7] != HTTP_1_1[7];
    assert HTTP_1_0[5] != HTTP_2_0[5] && HTTP_1_0[5] != HTTP_3_0[5] && HTTP_2_0[5] != HTTP_3_0[5];
    assert HTTP_1_1[5] != HTTP_2_0[5] && HTTP_1_1[5] != HTTP_3_0[5];
  }

  /** The status line reads back as version, status and reason, split at its first two spaces. */
  lemma StatusLineReads(r: Response, reason: bytes)
    requires r.status < USIZE_LIMIT
    ensures var line := StatusLine(r, reason);
            var version, status := VersionText(r.version), Print(r.status, 10);
            && IndexOf(line, SPACE) == Some(|version|) && line[..|version|] == version
            && IndexOf(line[|version| + 1..], SPACE) == Some(|status|)
            && ParseUsize(line[|version| + 1..][..|status|], 10) == Some(r.status)
            && line[|version| + 1..][|status| + 1..] == reason
  {
    hide ParseUsize, Print;
    var version, status := VersionText(r.version), Print(r.status, 10);
    var line, rest := StatusLine(r, reason), status + [SPACE] + reason;
    PrintValue(r.status, 10);
    PrintParses(r.status, 10);
    assert line == version + [SPACE] + rest;
    assert forall i :: 0 <= i < |version| ==> version[i] != SPACE;
    IndexOfAt(line, SPACE, |version|);
    assert line[..|version|] == version && line[|version| + 1..] == rest;
    IndexOfAt(rest, SPACE, |status|);
    assert rest[..|status|] == status && rest[|status| + 1..] == reason;
  }

  lemma LabelLowers(digits: bytes)
    ensures var low := LowerAll(LENGTH_LABEL + digits);
            StartsWith(low, LENGTH_KEY) && low[|LENGTH_KEY|..] == LowerAll([SPACE] + digits)
  {
    assert LENGTH_LABEL + digits == LENGTH_NAME + ([SPACE] + digits);
    LowerPrefix(LENGTH_NAME, [SPACE] + digits);
    assert LowerAll(LENGTH_NAME) == LENGTH_KEY;
  }

  lemma LengthLabelOk(n: nat)
    requires n < USIZE_LIMIT
    ensures var line := LENGTH_LABEL + Print(n, 10);
            HeadLine(line) && IsLengthLine(line) && LengthOf(line) == Some(n)
  {
    hide ParseUsize, Trim, Print;
    var digits := Print(n, 10);
    PrintValue(n, 10);
    NumeralUntrimmed(digits);
    LabelLowers(digits);
    NumberAfterSpace(n);
  }

  lemma FieldLineOk(f: Field, n: nat)
    requires FieldOk(f, n) && n < USIZE_LIMIT
    ensures HeadLine(FieldLine(f))
    ensures IsLengthLine(FieldLine(f)) <==> f.name == CONTENT_LENGTH
    ensures f.name == CONTENT_LENGTH ==> LengthOf(FieldLine(f)) == Some(n)
  {
    LengthLineIsLengthField(f, n);
    if f.name == CONTENT_LENGTH {
      NumberAfterSpace(n);
    }
  }

  lemma AllLinesOk(r: Response, reason: bytes)
    requires Framable(r, reason)
    ensures AllHeadLines(HeadLines(r, reason))
  {
    hide HeadLine, IsLengthLine, LengthOf, FieldOk;
    StatusLineOk(r, reason);
    LengthLabelOk(|r.body|);
    FieldLinesAt(r.fields);
    forall i | 0 <= i < |r.fields| ensures HeadLine(FieldLine(r.fields[i])) {
      FieldLineOk(r.fields[i], |r.body|);
    }
  }

  lemma FirstFieldAt(fields: seq<Field>, name: bytes) returns (k: nat)
    requires HasField(fields, name)
    ensures k < |fields| && fields[k].name == name && forall i :: 0 <= i < k ==> fields[i].name != name
  {
    k := 0;
    while fields[k].name != name
      invariant k < |fields| && forall i :: 0 <= i < k ==> fields[i].name != name
      decreases |fields| - k
    {
      k := k + 1;
    }
  }

  lemma LinesDeclare(r: Response, reason: bytes)
    requires Framable(r, reason)
    ensures FirstLength(HeadLines(r, reason) + [[]]) == Some(|r.body|)
  {
    hide HeadLine, IsLengthLine, LengthOf, FieldOk, FirstLength, Print, StatusLine, FieldLine;
    var lines := HeadLines(r, reason) + [[]];
    StatusLineOk(r, reason);
    FieldLinesAt(r.fields);
    forall i | 0 <= i < |r.fields|
      ensures IsLengthLine(FieldLine(r.fields[i])) <==> r.fields[i].name == CONTENT_LENGTH
      ensures r.fields[i].name == CONTENT_LENGTH ==> LengthOf(FieldLine(r.fields[i])) == Some(|r.body|)
    {
      FieldLineOk(r.fields[i], |r.body|);
    }
    assert forall i :: 1 <= i <= |r.fields| ==> lines[i] == FieldLine(r.fields[i - 1]);
    if HasField(r.fields, CONTENT_LENGTH) {
      var k := FirstFieldAt(r.fields, CONTENT_LENGTH);
      FirstLengthAt(lines, k + 1);
    } else {
      LengthLabelOk(|r.body|);
      assert lines[|r.fields| + 1] == LENGTH_LABEL + Print(|r.body|, 10);
      FirstLengthAt(lines, |r.fields| + 1);
    }
  }

  /**
   The client recovers from the serialized bytes the exact split between head and body, the head lines,
   the body and its length.
   */
  lemma SerializedFrames(r: Response, reason: bytes)
    requires Framable(r, reason)
    ensures var head := Terminated(HeadLines(r, reason)) + CRLF;
            && HeaderEnd(Serialize(r, reason)) == Some(|head|)
            && Serialize(r, reason)[..|head|] == head
            && Serialize(r, reason)[|head|..] == r.body
            && Lines(head) == HeadLines(r, reason) + [[]]
            && DeclaredLength(head) == Some(|r.body|)
            && FrameEnd(Serialize(r, reason)) == Some(|Serialize(r, reason)|)
  {
    hide HeaderEnd, FirstLength, Lines, HeadLines, Utf8;
    var lines := HeadLines(r, reason);
    var head := Terminated(lines) + CRLF;
    AllLinesOk(r, reason);
    assert lines != [] by { HeadLinesNotEmpty(r, reason); }
    HeadEnds(lines, r.body);
    HeadIsAscii(lines);
    AsciiIsUtf8(head);
    HeadAsLines(lines);
    LinesDeclare(r, reason);
    assert Serialize(r, reason) == head + r.body;
    assert Serialize(r, reason)[..|head|] == head && Serialize(r, reason)[|head|..] == r.body;
  }

  lemma HeadLinesNotEmpty(r: Response, reason: bytes)
    ensures HeadLines(r, reason) != []
  {
  }

  /**
   Serving one response to the raw client, however it is cut: the client counts every byte of it, and
   what it holds after the end of the head is the body.
   */
  method Deliver(r: Response, reason: bytes, reader: Reader, buf: array<byte>)
      returns (total: Result<nat>, got: array<byte>)
    requires Framable(r, reason) && buf.Length > 0
    requires reader.rest == Serialize(r, reason)
    modifies reader, buf
    ensures total == Ok(|Serialize(r, reason)|) && reader.rest == []
    ensures total.value <= got.Length && got[..total.value] == Serialize(r, reason)
    ensures HeaderEnd(got[..total.value]).Some?
            && got[..total.value][HeaderEnd(got[..total.value]).value..] == r.body
  {
    hide Framable, Serialize, FrameEnd, HeaderEnd, DeclaredLength, HeadLines;
    SerializedFrames(r, reason);
    total, got := ReadResponse(reader, buf);
    ghost var s := Serialize(r, reason);
    assert s[..|s|] == s;
  }
}
