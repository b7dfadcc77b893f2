/** Response serialization, `serialize_response` of dpdk-net-test/src/app/custom_http.rs. */
module HttpResponse {
  import opened Bytes
  import opened Text
  import opened HttpMessage

  const HTTP_1_0: bytes := [72, 84, 84, 80, 47, 49, 46, 48]
  const HTTP_1_1: bytes := [72, 84, 84, 80, 47, 49, 46, 49]
  const HTTP_2_0: bytes := [72, 84, 84, 80, 47, 50, 46, 48]
  const HTTP_3_0: bytes := [72, 84, 84, 80, 47, 51, 46, 48]

  /** `Content-Length: ` as the serializer spells it. */
  const LENGTH_NAME: bytes := [67, 111, 110, 116, 101, 110, 116, 45, 76, 101, 110, 103, 116, 104, 58]
  const LENGTH_LABEL: bytes := LENGTH_NAME + [SPACE]

  const FIELD_SEPARATOR: bytes := [COLON, SPACE]

  function VersionText(v: Version): bytes {
    match v
    case Http10 => HTTP_1_0
    case Http2 => HTTP_2_0
    case Http3 => HTTP_3_0
    case _ => HTTP_1_1
  }

  /** `reason` is the canonical phrase of the status, or `Unknown`. */
  function StatusLine(r: Response, reason: bytes): bytes {
    VersionText(r.version) + [SPACE] + Print(r.status, 10) + [SPACE] + reason
  }

  function FieldLine(f: Field): bytes {
    f.name + FIELD_SEPARATOR + f.value
  }

  function FieldLines(fields: seq<Field>): seq<bytes> {
    if fields == [] then [] else FieldLines(fields[..|fields| - 1]) + [FieldLine(fields[|fields| - 1])]
  }

  function LengthLines(r: Response): seq<bytes> {
    if HasField(r.fields, CONTENT_LENGTH) then [] else [LENGTH_LABEL + Print(|r.body|, 10)]
  }

  function HeadLines(r: Response, reason: bytes): seq<bytes> {
    [StatusLine(r, reason)] + FieldLines(r.fields) + LengthLines(r)
  }

  /** Every line with its line break. */
  function Terminated(lines: seq<bytes>): bytes {
    if lines == [] then [] else lines[0] + CRLF + Terminated(lines[1..])
  }

  /** Head lines, a blank line, the body. */
  function Serialize(r: Response, reason: bytes): bytes {
    Terminated(HeadLines(r, reason)) + CRLF + r.body
  }

  lemma {:induction false} TerminatedAppend(a: seq<bytes>, b: seq<bytes>)
    ensures Terminated(a + b) == Terminated(a) + Terminated(b)
  {
    if a == [] {
      assert a + b == b;
    } else {
      TerminatedAppend(a[1..], b);
      assert (a + b)[0] == a[0] && (a + b)[1..] == a[1..] + b;
      var line := a[0] + CRLF;
      assert line + (Terminated(a[1..]) + Terminated(b)) == line + Terminated(a[1..]) + Terminated(b);
    }
  }

  lemma TerminatedOne(line: bytes)
    ensures Terminated([line]) == line + CRLF
  {
    assert [line][1..] == [];
  }

  method SerializeFields(fields: seq<Field>) returns (buf: bytes)
    ensures buf == Terminated(FieldLines(fields))
  {
    buf := [];
    for i := 0 to |fields|
      invariant buf == Terminated(FieldLines(fields[..i]))
    {
      assert fields[..i + 1][..i] == fields[..i];
      TerminatedAppend(FieldLines(fields[..i]), [FieldLine(fields[i])]);
      TerminatedOne(FieldLine(fields[i]));
      ghost var line := FieldLine(fields[i]);
      ghost var was := buf;
      buf := buf + fields[i].name;
      buf := buf + FIELD_SEPARATOR;
      buf := buf + fields[i].value;
      buf := buf + CRLF;
      assert buf == was + (line + CRLF);
    }
    assert fields[..|fields|] == fields;
  }

  method SerializeResponse(r: Response, reason: bytes) returns (buf: bytes)
    ensures buf == Serialize(r, reason)
  {
    buf := VersionText(r.version);
    buf := buf + [SPACE];
    buf := buf + Print(r.status, 10);
    buf := buf + [SPACE];
    buf := buf + reason;
    buf := buf + CRLF;
    ghost var status, fieldLines, lengthLines := [StatusLine(r, reason)], FieldLines(r.fields), LengthLines(r);
    TerminatedOne(StatusLine(r, reason));
    assert buf == Terminated(status);

    var fields := SerializeFields(r.fields);
    buf := buf + fields;
    TerminatedAppend(status, fieldLines);

    if !HasField(r.fields, CONTENT_LENGTH) {
      ghost var was := buf;
      buf := buf + LENGTH_LABEL;
      buf := buf + Print(|r.body|, 10);
      buf := buf + CRLF;
      TerminatedOne(LENGTH_LABEL + Print(|r.body|, 10));
      assert buf == was + (LENGTH_LABEL + Print(|r.body|, 10) + CRLF);
    } else {
      assert buf + Terminated(lengthLines) == buf;
    }
    TerminatedAppend(status + fieldLines, lengthLines);
    assert buf == Terminated(HeadLines(r, reason));
    buf := buf + CRLF;
    buf := buf + r.body;
  }
}
