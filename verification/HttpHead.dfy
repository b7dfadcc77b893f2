/**
 A small head parser that satisfies `HttpSpec.Stable`, standing in for `httparse` where an actual
 library is wanted: it decides a head when the blank line is there, and only then.
 */
module HttpHead {
  import opened Bytes
  import opened Text
  import opened HttpMessage
  import opened HttpSpec
  import opened HttpResponse
  import opened RawClient
  import opened HttpConnection
  import opened HttpFraming

  function FieldOf(line: bytes): Field {
    match IndexOf(line, COLON)
    case None => Field(line, [])
    case Some(i) => Field(line[..i], Trim(line[i + 1..]))
  }

  function FieldsOf(lines: seq<bytes>): seq<Field> {
    if lines == [] || lines[0] == [] then [] else [FieldOf(lines[0])] + FieldsOf(lines[1..])
  }

  function VersionDigit(text: bytes): Option<nat> {
    if text == HTTP_1_0 then Some(0) else if text == HTTP_1_1 then Some(1) else None
  }

  function RawHeadOf(lines: seq<bytes>): RawHead {
    if lines == [] then RawHead(None, None, None, [])
    else
      var fields := FieldsOf(lines[1..]);
      match IndexOf(lines[0], SPACE)
      case None => RawHead(Some(lines[0]), None, None, fields)
      case Some(i) =>
        var target := lines[0][i + 1..];
        match IndexOf(target, SPACE)
        case None => RawHead(Some(lines[0][..i]), Some(target), None, fields)
        case Some(j) => RawHead(Some(lines[0][..i]), Some(target[..j]), VersionDigit(target[j + 1..]), fields)
  }

  function ParseAtBlankLine(p: bytes): HeadStatus {
    match HeaderEnd(p)
    case None => Partial
    case Some(n) => Complete(RawHeadOf(Lines(p[..n])), n)
  }

  function BlankLineLibrary(): Library {
    Library(ParseAtBlankLine, m => m != [], name => Some(LowerAll(name)), v => Visible(v), uri => uri != [])
  }

  /** The assumption on the head parser can be met. */
  lemma BlankLineStable()
    ensures Stable(BlankLineLibrary()) && BlankLineLibrary().parse([]).Partial?
  {
    var lib := BlankLineLibrary();
    forall p: bytes, x: bytes ensures StableAt(lib, p, x) {
      assert (p + x)[..|p|] == p;
      HeaderEndStable(p + x, |p|);
      if HeaderEnd(p).Some? {
        var n := HeaderEnd(p).value;
        assert (p + x)[..n] == p[..n];
      }
    }
  }

  /** And so can the assumption that a head is recognised at its last byte. */
  lemma BlankLinePrompt()
    ensures Prompt(BlankLineLibrary())
  {
    var lib := BlankLineLibrary();
    forall p: bytes ensures PromptAt(lib, p) {
      if HeaderEnd(p).Some? {
        HeaderEndStable(p, HeaderEnd(p).value);
      }
    }
  }

  // ---------------------------------------------------------------- requests on the wire and back

  /** A request line and fields as clients write them. */
  datatype Written = Written(method_: bytes, uri: bytes, version: Version, fields: seq<Field>, body: Body)

  predicate Word(s: bytes) {
    s != [] && LineSafe(s) && Absent(SPACE, s)
  }

  predicate PlainField(f: Field) {
    && f.name != [] && LineSafe(f.name) && Absent(COLON, f.name)
    && LineSafe(f.value) && Visible(f.value) && Trim([SPACE] + f.value) == f.value
  }

  predicate Plain(w: Written) {
    && Word(w.method_) && Word(w.uri)
    && (w.version == Http10 || w.version == Http11)
    && (forall i :: 0 <= i < |w.fields| ==> PlainField(w.fields[i]))
  }

  function RequestLine(w: Written): bytes {
    w.method_ + [SPACE] + (w.uri + [SPACE] + VersionText(w.version))
  }

  function WrittenLines(w: Written): seq<bytes> {
    [RequestLine(w)] + FieldLines(w.fields)
  }

  function WrittenHead(w: Written): bytes {
    Terminated(WrittenLines(w)) + CRLF
  }

  lemma FieldReads(f: Field)
    requires PlainField(f)
    ensures HeadLine(FieldLine(f)) && FieldOf(FieldLine(f)) == f
  {
    hide Trim, Visible;
    var line := FieldLine(f);
    assert line == f.name + [COLON] + ([SPACE] + f.value);
    IndexOfAt(line, COLON, |f.name|);
    assert line[..|f.name|] == f.name && line[|f.name| + 1..] == [SPACE] + f.value;
  }

  lemma {:induction false} FieldsRead(lines: seq<bytes>, fields: seq<Field>)
    requires |lines| == |fields|
    requires forall i :: 0 <= i < |fields| ==> PlainField(fields[i]) && lines[i] == FieldLine(fields[i])
    ensures FieldsOf(lines + [[]]) == fields
  {
    hide FieldOf, FieldLine, PlainField;
    if lines == [] {
      assert lines + [[]] == [[]];
    } else {
      FieldReads(fields[0]);
      FieldsRead(lines[1..], fields[1..]);
      assert (lines + [[]])[0] == lines[0] && (lines + [[]])[1..] == lines[1..] + [[]];
      assert lines[0] != [] by { LineNotEmpty(lines[0]); }
      assert [fields[0]] + fields[1..] == fields;
    }
  }

  lemma LineNotEmpty(line: bytes)
    requires HeadLine(line)
    ensures line != []
  {
  }

  function DigitOf(v: Version): nat {
    if v == Http10 then 0 else 1
  }

  lemma FirstWord(word: bytes, rest: bytes)
    requires Absent(SPACE, word)
    ensures var s := word + [SPACE] + rest;
            IndexOf(s, SPACE) == Some(|word|) && s[..|word|] == word && s[|word| + 1..] == rest
  {
    IndexOfAt(word + [SPACE] + rest, SPACE, |word|);
  }

  lemma VersionReads(v: Version)
    requires v == Http10 || v == Http11
    ensures VersionDigit(VersionText(v)) == Some(DigitOf(v))
    ensures LineSafe(VersionText(v))
  {
    assert HTTP_1_0[7] != HTTP_1_1[7];
  }

  lemma RequestLineIsLine(w: Written)
    requires Plain(w)
    ensures HeadLine(RequestLine(w))
  {
    hide VersionText, PlainField;
    VersionReads(w.version);
  }

  lemma RequestLineReads(w: Written, rest: seq<bytes>)
    requires Plain(w)
    ensures RawHeadOf([RequestLine(w)] + rest)
         == RawHead(Some(w.method_), Some(w.uri), Some(DigitOf(w.version)), FieldsOf(rest))
  {
    hide FieldsOf, VersionText, VersionDigit, DigitOf, PlainField, LineSafe;
    var line := RequestLine(w);
    VersionReads(w.version);
    FirstWord(w.method_, w.uri + [SPACE] + VersionText(w.version));
    FirstWord(w.uri, VersionText(w.version));
    assert ([line] + rest)[0] == line && ([line] + rest)[1..] == rest;
  }

  lemma WrittenLinesOk(w: Written)
    requires Plain(w)
    ensures AllHeadLines(WrittenLines(w)) && RawHeadOf(WrittenLines(w) + [[]])
         == RawHead(Some(w.method_), Some(w.uri), Some(DigitOf(w.version)), w.fields)
  {
    hide HeadLine, FieldLine, RequestLine, FieldsOf, RawHeadOf, PlainField;
    var lines := FieldLines(w.fields);
    FieldLinesAt(w.fields);
    RequestLineIsLine(w);
    RequestLineReads(w, lines + [[]]);
    FieldsRead(lines, w.fields);
    assert WrittenLines(w) + [[]] == [RequestLine(w)] + (lines + [[]]);
    forall i | 0 <= i < |lines| ensures HeadLine(lines[i]) {
      FieldReads(w.fields[i]);
    }
  }

  /** A written head is decided at its blank line and read field by field. */
  lemma HeadReads(w: Written)
    requires Plain(w)
    ensures ParseAtBlankLine(WrittenHead(w))
         == Complete(RawHead(Some(w.method_), Some(w.uri), Some(DigitOf(w.version)), w.fields), |WrittenHead(w)|)
  {
    hide HeaderEnd, Lines, RawHeadOf, WrittenLines, Plain;
    var head := WrittenHead(w);
    WrittenLinesOk(w);
    assert WrittenLines(w) != [] by { SomeLines(w); }
    HeadEnds(WrittenLines(w), []);
    assert head + [] == head && head[..|head|] == head;
    HeadAsLines(WrittenLines(w));
  }

  lemma SomeLines(w: Written)
    ensures WrittenLines(w) != []
  {
  }

  lemma PlainFieldsGood(fields: seq<Field>)
    requires forall i :: 0 <= i < |fields| ==> PlainField(fields[i])
    ensures AllGood(BlankLineLibrary(), fields)
  {
  }

  /**
   With this head parser a plainly written request, followed by anything, is parsed back to what was
   written: method, target and version, exactly the written fields under their lower-case names, and the
   body they announce; what follows is left.
   */
  lemma WrittenRequestReads(w: Written, x: bytes, e: Ending) returns (request: Request)
    requires Plain(w) && |WrittenHead(w)| <= MAX_BUF_SIZE
    requires forall headers: Headers :: Carries(BlankLineLibrary(), headers, w.fields) ==> Announces(headers, w.body)
    ensures Stable(BlankLineLibrary())
    ensures ParseRequest(BlankLineLibrary(), WrittenHead(w) + BodyBytes(w.body) + x, e) == Got(request, x)
    ensures request == Request(w.method_, w.uri, w.version, request.headers, BodyData(w.body))
    ensures Carries(BlankLineLibrary(), request.headers, w.fields)
  {
    hide ParseRequest, ParseAtBlankLine, HeaderMapOf, WrittenHead, Announces, PlainField, Delimits, Carries, AllGood;
    var lib := BlankLineLibrary();
    BlankLineStable();
    HeadReads(w);
    PlainFieldsGood(w.fields);
    HeadersExact(lib, w.fields);
    var headers := HeaderMapOf(lib, w.fields).value;
    var raw := RawHead(Some(w.method_), Some(w.uri), Some(DigitOf(w.version)), w.fields);
    var h := Head(w.method_, w.uri, w.version, headers);
    assert Convert(lib, raw) == Ok(h);
    WellFormedDelimits(lib, WrittenHead(w), raw, h, w.body);
    request := Request(w.method_, w.uri, w.version, headers, BodyData(w.body));
    DelimitedFirst(lib, WrittenHead(w) + BodyBytes(w.body), request, x, e);
  }

  // ---------------------------------------------------------------- responses on the wire and back

  /** The length field that the serializer adds, and none if the handler has set one. */
  function AddedField(r: Response): seq<Field> {
    if HasField(r.fields, CONTENT_LENGTH) then [] else [Field(LENGTH_NAME[..14], Print(|r.body|, 10))]
  }

  lemma NumeralPlain(digits: bytes)
    requires Numeral(digits)
    ensures PlainField(Field(LENGTH_NAME[..14], digits))
    ensures FieldLine(Field(LENGTH_NAME[..14], digits)) == LENGTH_LABEL + digits
  {
    LabelLine(digits);
    hide Trim, FieldLine;
    var s := [SPACE] + digits;
    NumeralUntrimmed(digits);
    assert LowerAll(s) == s;
    TrimAfterSpace(digits);
  }

  lemma LabelLine(digits: bytes)
    ensures FieldLine(Field(LENGTH_NAME[..14], digits)) == LENGTH_LABEL + digits
  {
    var name := LENGTH_NAME[..14];
    assert LENGTH_LABEL == name + FIELD_SEPARATOR;
    assert FieldLine(Field(name, digits)) == name + FIELD_SEPARATOR + digits;
  }

  /** All head lines of a response but the first are the lines of its fields and of the added one. */
  lemma FieldLinesOf(r: Response, reason: bytes)
    ensures var fields := r.fields + AddedField(r);
            |HeadLines(r, reason)| == 1 + |fields|
            && forall i :: 0 <= i < |fields| ==> HeadLines(r, reason)[1 + i] == FieldLine(fields[i])
  {
    hide FieldLine, Print, StatusLine;
    FieldLinesAt(r.fields);
    PrintValue(|r.body|, 10);
    NumeralPlain(Print(|r.body|, 10));
  }

  /**
   A serialized response reads back line by line: the status line splits into version, status and reason,
   the other lines are exactly the handler's fields in order, with the length added if it was not set, and
   what follows the blank line is the body.
   */
  lemma WrittenResponseReads(r: Response, reason: bytes)
    requires Framable(r, reason) && r.status < USIZE_LIMIT
    requires forall i :: 0 <= i < |r.fields| ==> PlainField(r.fields[i])
    ensures HeaderEnd(Serialize(r, reason)).Some?
    ensures var s := Serialize(r, reason);
            var n := HeaderEnd(s).value;
            var lines, version, status := Lines(s[..n]), VersionText(r.version), Print(r.status, 10);
            && s[n..] == r.body && lines != []
            && lines[0] == version + [SPACE] + status + [SPACE] + reason
            && ParseUsize(status, 10) == Some(r.status)
            && FieldsOf(lines[1..]) == r.fields + AddedField(r)
  {
    hide HeaderEnd, HeadLines, Lines, FieldsOf, FieldLine, PlainField, Framable, Print, ParseUsize, Serialize;
    SerializedFrames(r, reason);
    PrintParses(r.status, 10);
    FieldLinesOf(r, reason);
    PrintValue(|r.body|, 10);
    NumeralPlain(Print(|r.body|, 10));
    FirstHeadLine(r, reason);
    var fields, lines := r.fields + AddedField(r), HeadLines(r, reason);
    assert (lines + [[]])[1..] == lines[1..] + [[]];
    FieldsRead(lines[1..], fields);
  }

  lemma FirstHeadLine(r: Response, reason: bytes)
    ensures HeadLines(r, reason)[0] == StatusLine(r, reason)
  {
  }
}
