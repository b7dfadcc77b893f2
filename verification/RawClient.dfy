/**
 The raw benchmark client, tests/dpdk-bench-client/src/raw_client.rs: how it finds the end of a
 response in the bytes it has read so far, and that it agrees with what the servers serialize.
 */
module RawClient {
  import opened Bytes
  import opened Text
  import opened HttpMessage
  import opened HttpSpec
  import opened HttpParser

  // ---------------------------------------------------------------- finding the head

  /** A blank line ends the head: `\r\n\r\n` at position `i`. */
  predicate BlankAt(data: bytes, i: nat) {
    i + 4 <= |data| && data[i] == CR && data[i + 1] == LF && data[i + 2] == CR && data[i + 3] == LF
  }

  /** The position after the first blank line. */
  function HeaderEnd(data: bytes): (r: Option<nat>)
    ensures r.Some? ==> 4 <= r.value <= |data| && BlankAt(data, r.value - 4)
    ensures r.Some? ==> forall i :: 0 <= i < r.value - 4 ==> !BlankAt(data, i)
    ensures r.None? ==> forall i :: 0 <= i ==> !BlankAt(data, i)
  {
    HeaderEndFrom(data, 0)
  }

  function HeaderEndFrom(data: bytes, i: nat): (r: Option<nat>)
    ensures r.Some? ==> i + 4 <= r.value <= |data| && BlankAt(data, r.value - 4)
    ensures r.Some? ==> forall j :: i <= j < r.value - 4 ==> !BlankAt(data, j)
    ensures r.None? ==> forall j :: i <= j ==> !BlankAt(data, j)
    decreases |data| - i
  {
    if i + 4 > |data| then None
    else if BlankAt(data, i) then Some(i + 4)
    else HeaderEndFrom(data, i + 1)
  }

  lemma HeaderEndAt(data: bytes, i: nat)
    requires BlankAt(data, i) && forall j :: 0 <= j < i ==> !BlankAt(data, j)
    ensures HeaderEnd(data) == Some(i + 4)
  {
    var p := HeaderEnd(data).value;
    assert !(i < p - 4);
  }

  /** Once seen, the end of the head stays where it is. */
  lemma HeaderEndStable(s: bytes, n: nat)
    requires n <= |s|
    ensures HeaderEnd(s[..n]).Some? ==> HeaderEnd(s) == HeaderEnd(s[..n])
    ensures HeaderEnd(s).Some? && HeaderEnd(s).value <= n ==> HeaderEnd(s[..n]) == HeaderEnd(s)
  {
    assert forall i: nat :: i + 4 <= n ==> (BlankAt(s[..n], i) <==> BlankAt(s, i));
    if HeaderEnd(s[..n]).Some? {
      HeaderEndAt(s, HeaderEnd(s[..n]).value - 4);
    }
  }

  lemma BlankSlice(data: bytes, i: nat)
    requires i + 4 <= |data|
    ensures BlankAt(data, i) <==> data[i..i + 4] == [CR, LF, CR, LF]
  {
    var four := data[i..i + 4];
    assert four[0] == data[i] && four[1] == data[i + 1] && four[2] == data[i + 2] && four[3] == data[i + 3];
  }

  method FindHeaderEnd(data: bytes) returns (r: Option<nat>)
    ensures r == HeaderEnd(data)
  {
    var last := if |data| >= 3 then |data| - 3 else 0;
    for i := 0 to last
      invariant forall j :: 0 <= j < i ==> !BlankAt(data, j)
    {
      BlankSlice(data, i);
      if data[i..i + 4] == [CR, LF, CR, LF] {
        HeaderEndAt(data, i);
        return Some(i + 4);
      }
    }
    r := None;
  }

  // ---------------------------------------------------------------- the declared length

  const LENGTH_KEY: bytes := CONTENT_LENGTH + [COLON]

  predicate IsLengthLine(line: bytes) {
    StartsWith(LowerAll(line), LENGTH_KEY)
  }

  function LengthOf(line: bytes): Option<nat>
    requires IsLengthLine(line)
  {
    ParseUsize(Trim(LowerAll(line)[|LENGTH_KEY|..]), 10)
  }

  /** The first Content-Length line decides, well-formed or not. */
  function FirstLength(lines: seq<bytes>): Option<nat> {
    if lines == [] then None
    else if IsLengthLine(lines[0]) then LengthOf(lines[0])
    else FirstLength(lines[1..])
  }

  function DeclaredLength(head: bytes): Option<nat> {
    if Utf8(head) then FirstLength(Lines(head)) else None
  }

  lemma {:induction false} FirstLengthAt(lines: seq<bytes>, k: nat)
    requires k < |lines| && IsLengthLine(lines[k])
    requires forall i :: 0 <= i < k ==> !IsLengthLine(lines[i])
    ensures FirstLength(lines) == LengthOf(lines[k])
  {
    hide IsLengthLine, LengthOf;
    if k > 0 {
      assert lines[1..][k - 1] == lines[k];
      FirstLengthAt(lines[1..], k - 1);
    }
  }

  lemma {:induction false} FirstLengthNone(lines: seq<bytes>)
    requires forall i :: 0 <= i < |lines| ==> !IsLengthLine(lines[i])
    ensures FirstLength(lines) == None
  {
    hide IsLengthLine, LengthOf;
    if lines != [] {
      FirstLengthNone(lines[1..]);
    }
  }

  method ParseContentLength(head: bytes) returns (r: Option<nat>)
    ensures r == DeclaredLength(head)
  {
    if !Utf8(head) {
      return None;
    }
    var lines := Lines(head);
    for i := 0 to |lines|
      invariant forall j :: 0 <= j < i ==> !IsLengthLine(lines[j])
    {
      if IsLengthLine(lines[i]) {
        FirstLengthAt(lines, i);
        return LengthOf(lines[i]);
      }
    }
    FirstLengthNone(lines);
    r := None;
  }

  // ---------------------------------------------------------------- the read loop

  /** Where the response ends, as far as the head tells. */
  function FrameEnd(s: bytes): Option<nat> {
    match HeaderEnd(s)
    case None => None
    case Some(p) =>
      match DeclaredLength(s[..p])
      case None => Some(p)
      case Some(n) => Some(p + n)
  }

  /**
   A response has an end as soon as there is a blank line: there, unless a Content-Length line before it
   that is well formed asks for more, and then the first such line decides.
   */
  lemma FrameEndExact(s: bytes)
    ensures FrameEnd(s).None? <==> forall i :: 0 <= i ==> !BlankAt(s, i)
    ensures FrameEnd(s).Some? ==>
              && HeaderEnd(s).Some? && FrameEnd(s).value >= HeaderEnd(s).value
              && Declares(s[..HeaderEnd(s).value], FrameEnd(s).value - HeaderEnd(s).value)
  {
    hide HeaderEndFrom, DeclaredLength, Declares;
    if HeaderEnd(s).Some? {
      DeclaresExact(s[..HeaderEnd(s).value]);
    }
  }

  /** A head asks for `n` bytes after it: what its first Content-Length line says, and 0 if it says nothing. */
  ghost predicate Declares(head: bytes, n: nat) {
    var lines := Lines(head);
    if Utf8(head) && exists k :: FirstLengthLine(lines, k)
    then exists k :: FirstLengthLine(lines, k) && n == if LengthOf(lines[k]).Some? then LengthOf(lines[k]).value else 0
    else n == 0
  }

  lemma DeclaresExact(head: bytes)
    ensures Declares(head, if DeclaredLength(head).Some? then DeclaredLength(head).value else 0)
  {
    hide IsLengthLine, LengthOf, FirstLength, Lines, Utf8;
    var lines := Lines(head);
    if k :| FirstLengthLine(lines, k) {
      FirstLengthAt(lines, k);
    } else {
      NoFirstLine(lines, |lines|);
      FirstLengthNone(lines);
    }
  }

  lemma {:induction false} NoFirstLine(lines: seq<bytes>, n: nat)
    requires n <= |lines| && !exists k :: FirstLengthLine(lines, k)
    ensures forall i :: 0 <= i < n ==> !IsLengthLine(lines[i])
  {
    hide IsLengthLine;
    if n > 0 {
      NoFirstLine(lines, n - 1);
      assert !FirstLengthLine(lines, n - 1);
    }
  }

  predicate FirstLengthLine(lines: seq<bytes>, k: int) {
    0 <= k < |lines| && IsLengthLine(lines[k]) && forall i :: 0 <= i < k ==> !IsLengthLine(lines[i])
  }

  /** Looks for the end of the head and, if it is there, for the declared length. */
  method Inspect(data: bytes) returns (headersEnd: Option<nat>, contentLength: Option<nat>)
    ensures headersEnd == HeaderEnd(data)
    ensures headersEnd.Some? ==> contentLength == DeclaredLength(data[..headersEnd.value])
    ensures headersEnd.None? ==> contentLength.None?
  {
    hide DeclaredLength;
    contentLength := None;
    headersEnd := FindHeaderEnd(data);
    if headersEnd.Some? {
      contentLength := ParseContentLength(data[..headersEnd.value]);
    }
  }

  /** A head seen in a prefix of the stream is the head of the stream. */
  lemma SeenSoFar(s: bytes, n: nat)
    requires n <= |s|
    ensures HeaderEnd(s[..n]).Some? ==>
              var p := HeaderEnd(s[..n]).value;
              HeaderEnd(s) == Some(p) && p <= n && s[..n][..p] == s[..p]
  {
    HeaderEndStable(s, n);
  }

  /**
   Reads until the declared response is complete. On every schedule the loop succeeds exactly when
   the stream holds a whole response; a stream that holds nothing more is read to its last byte.
   The slice handed to each read is not empty.
   */
  method ReadResponse(reader: Reader, start: array<byte>) returns (r: Result<nat>, buf: array<byte>)
    requires start.Length > 0
    modifies reader, start
    ensures buf == start || fresh(buf)
    ensures buf.Length >= start.Length
    ensures var s := old(reader.rest);
            match FrameEnd(s)
            case None => r == Err(EndError(reader.ending))
            case Some(end) =>
              if |s| < end then r == Err(EndError(reader.ending))
              else r.Ok? && end <= r.value <= |s| && reader.rest == s[r.value..]
    ensures var s := old(reader.rest);
            r.Ok? ==> r.value <= buf.Length && r.value <= |s| && buf[..r.value] == s[..r.value]
  {
    hide DeclaredLength, HeaderEnd;
    ghost var s := reader.rest;
    buf := start;
    var total: nat := 0;
    var headersEnd: Option<nat> := None;
    var contentLength: Option<nat> := None;
    while true
      invariant buf == start || fresh(buf)
      invariant total < buf.Length && start.Length <= buf.Length
      invariant total <= |s| && reader.rest == s[total..] && buf[..total] == s[..total]
      invariant headersEnd.None? ==> HeaderEnd(s[..total]).None?
      invariant headersEnd.Some? ==> HeaderEnd(s) == headersEnd && headersEnd.value <= total
      invariant headersEnd.Some? ==> contentLength == DeclaredLength(s[..headersEnd.value]) && contentLength.Some?
      invariant headersEnd.Some? ==> total < headersEnd.value + contentLength.value
      decreases |reader.rest|
    {
      var got := ReadOn(reader, buf, total, s);
      if got.Err? {
        assert s[..total] == s;
        return Err(got.error), buf;
      }
      total := total + got.value;
      if headersEnd.None? {
        headersEnd, contentLength := Inspect(buf[..total]);
        SeenSoFar(s, total);
      }
      if headersEnd.Some? && (contentLength.None? || total - headersEnd.value >= contentLength.value) {
        return Ok(total), buf;
      }
      if total >= buf.Length {
        buf := Double(buf, total);
      }
    }
  }

  /** One read behind the first `total` bytes of the stream; a read of nothing is its end. */
  method ReadOn(reader: Reader, buf: array<byte>, total: nat, ghost s: bytes) returns (got: Result<nat>)
    requires total < buf.Length && total <= |s| && reader.rest == s[total..] && buf[..total] == s[..total]
    modifies reader, buf
    ensures got.Ok? ==>
              && 0 < got.value && total + got.value <= |s| && total + got.value <= buf.Length
              && reader.rest == s[total + got.value..] && buf[..total + got.value] == s[..total + got.value]
    ensures got.Err? ==> total == |s| && got.error == EndError(reader.ending)
  {
    hide Reader.Total;
    var read := reader.Read(buf, total, buf.Length);
    if read.ReadError? || read.n == 0 {
      return Err(if read.ReadError? then read.error else ConnectionClosed);
    }
    assert s[..total] + s[total..][..read.n] == s[..total + read.n];
    got := Ok(read.n);
  }

  method Double(buf: array<byte>, n: nat) returns (bigger: array<byte>)
    requires n == buf.Length > 0
    ensures fresh(bigger) && bigger.Length > n && bigger[..n] == buf[..n]
  {
    bigger := new byte[buf.Length * 2];
    forall i | 0 <= i < n {
      bigger[i] := buf[i];
    }
  }
}
