/**
 What the request parser computes, as functions of the whole byte stream: the bytes already
 buffered followed by the bytes the reader has still to deliver, and how that stream ends.
 Nothing here knows about buffers or about how reads are cut.
 */
module HttpSpec {
  import opened Bytes
  import opened Text
  import opened HttpMessage

  /**
   `CapacityOverflow` is not a value of the program's error type: it is the panic that
   `Vec::with_capacity` raises for a length above `isize::MAX`.
   */
  datatype ParseError =
    | Io(code: int)
    | Parse(code: int)
    | InvalidMethod
    | InvalidVersion
    | InvalidHeader
    | InvalidUri
    | HeadersTooLarge
    | InvalidContentLength
    | ConnectionClosed
    | CapacityOverflow

  /** A stream ends cleanly, or every read after its last byte fails with what `?` makes of the error. */
  datatype Ending = Eof | Failed(error: ParseError)

  datatype Result<+T> = Ok(value: T) | Err(error: ParseError)

  /** A reading step: the value and the bytes left over, or an error. */
  datatype Step<+T> = Done(value: T, rest: bytes) | Fail(error: ParseError)

  const INITIAL_BUF_SIZE: nat := 1024
  const MAX_BUF_SIZE: nat := 65536

  // ---------------------------------------------------------------- foreign code

  datatype RawHead = RawHead(method_: Option<bytes>, path: Option<bytes>, version: Option<nat>, headers: seq<Field>)

  datatype HeadStatus = Partial | Complete(raw: RawHead, used: nat) | Bad(code: int)

  /** `httparse` and the constructors of the `http` crate. */
  datatype Library = Library(
    parse: bytes -> HeadStatus,
    validMethod: bytes -> bool,
    headerName: bytes -> Option<bytes>,
    validValue: bytes -> bool,
    validUri: bytes -> bool)

  /** An incremental head parser never revises a verdict, and a complete head is a non-empty prefix. */
  ghost predicate Stable(lib: Library) {
    forall p: bytes, x: bytes :: StableAt(lib, p, x)
  }

  predicate StableAt(lib: Library, p: bytes, x: bytes) {
    && (!lib.parse(p).Partial? ==> lib.parse(p + x) == lib.parse(p))
    && (lib.parse(p).Complete? ==> 0 < lib.parse(p).used <= |p|)
  }

  /** A complete head is recognised as soon as its own bytes are there. */
  ghost predicate Prompt(lib: Library) {
    forall p: bytes :: PromptAt(lib, p)
  }

  predicate PromptAt(lib: Library, p: bytes) {
    lib.parse(p).Complete? && lib.parse(p).used <= |p| ==> lib.parse(p[..lib.parse(p).used]).Complete?
  }

  lemma StableWindow(lib: Library, s: bytes, a: nat, b: nat)
    requires Stable(lib) && a <= b <= |s|
    ensures !lib.parse(s[..a]).Partial? ==> lib.parse(s[..b]) == lib.parse(s[..a])
    ensures lib.parse(s[..a]).Complete? ==> 0 < lib.parse(s[..a]).used <= a
  {
    assert StableAt(lib, s[..a], s[a..b]);
    assert s[..a] + s[a..b] == s[..b];
  }

  // ---------------------------------------------------------------- heads

  datatype Head = Head(method_: bytes, uri: bytes, version: Version, headers: Headers)

  function HeaderMapOf(lib: Library, fields: seq<Field>): Result<Headers> {
    if fields == [] then Ok(map[])
    else
      var last := fields[|fields| - 1];
      match HeaderMapOf(lib, fields[..|fields| - 1])
      case Err(e) => Err(e)
      case Ok(m) =>
        match lib.headerName(last.name)
        case None => Err(InvalidHeader)
        case Some(name) => if lib.validValue(last.value) then Ok(m[name := last.value]) else Err(InvalidHeader)
  }

  /** When all fields are good, a name maps to the value of the last field that spells it, in any case. */
  lemma {:induction false} LastFieldWins(lib: Library, fields: seq<Field>, k: nat)
    requires k < |fields| && HeaderMapOf(lib, fields).Ok?
    requires lib.headerName(fields[k].name).Some?
    requires forall i :: k < i < |fields| ==> lib.headerName(fields[i].name) != lib.headerName(fields[k].name)
    ensures var headers, name := HeaderMapOf(lib, fields).value, lib.headerName(fields[k].name).value;
            name in headers && headers[name] == fields[k].value
  {
    var n := |fields| - 1;
    if k < n {
      LastFieldWins(lib, fields[..n], k);
    }
  }

  predicate GoodField(lib: Library, f: Field) {
    lib.headerName(f.name).Some? && lib.validValue(f.value)
  }

  /** The k-th field is the last one with the given name. */
  predicate LastWith(lib: Library, fields: seq<Field>, name: bytes, k: nat) {
    && k < |fields| && lib.headerName(fields[k].name) == Some(name)
    && forall i :: k < i < |fields| ==> lib.headerName(fields[i].name) != Some(name)
  }

  /** A name is in the headers if and only if some field has it, and then with the value of the last such field. */
  ghost predicate Carries(lib: Library, headers: Headers, fields: seq<Field>) {
    && (forall name :: name in headers <==> exists k: nat :: LastWith(lib, fields, name, k))
    && (forall name, k: nat :: LastWith(lib, fields, name, k) ==> name in headers && headers[name] == fields[k].value)
  }

  predicate AllGood(lib: Library, fields: seq<Field>) {
    forall i :: 0 <= i < |fields| ==> GoodField(lib, fields[i])
  }

  /**
   The header map holds exactly what the fields say and nothing else; there is one if and only if every
   name and every value is good.
   */
  lemma {:induction false} HeadersExact(lib: Library, fields: seq<Field>)
    ensures HeaderMapOf(lib, fields).Ok? <==> AllGood(lib, fields)
    ensures HeaderMapOf(lib, fields).Ok? ==> Carries(lib, HeaderMapOf(lib, fields).value, fields)
    ensures HeaderMapOf(lib, fields).Err? ==> HeaderMapOf(lib, fields).error == InvalidHeader
  {
    if fields != [] {
      var n := |fields| - 1;
      HeadersExact(lib, fields[..n]);
      assert AllGood(lib, fields) <==> AllGood(lib, fields[..n]) && GoodField(lib, fields[n]);
      if AllGood(lib, fields) {
        CarriesSnoc(lib, HeaderMapOf(lib, fields[..n]).value, fields, lib.headerName(fields[n].name).value);
      }
    }
  }

  lemma CarriesSnoc(lib: Library, headers: Headers, fields: seq<Field>, last: bytes)
    requires fields != [] && lib.headerName(fields[|fields| - 1].name) == Some(last)
    requires Carries(lib, headers, fields[..|fields| - 1])
    ensures Carries(lib, headers[last := fields[|fields| - 1].value], fields)
  {
    var n := |fields| - 1;
    var front := fields[..n];
    assert forall i :: 0 <= i < n ==> front[i] == fields[i];
    assert LastWith(lib, fields, last, n);
    forall name, k: nat | name != last
      ensures LastWith(lib, fields, name, k) <==> LastWith(lib, front, name, k)
    {
    }
    forall k: nat | LastWith(lib, fields, last, k) ensures k == n {
    }
  }

  function VersionOf(v: Option<nat>): Result<Version> {
    if v == Some(0) then Ok(Http10)
    else if v == Some(1) then Ok(Http11)
    else Err(InvalidVersion)
  }

  function Convert(lib: Library, raw: RawHead): Result<Head> {
    var m := if raw.method_.Some? then raw.method_.value else [];
    var uri := if raw.path.Some? then raw.path.value else [47];
    if !lib.validMethod(m) then Err(InvalidMethod)
    else
      match VersionOf(raw.version)
      case Err(e) => Err(e)
      case Ok(v) =>
        match HeaderMapOf(lib, raw.headers)
        case Err(e) => Err(e)
        case Ok(h) => Ok(Head(m, uri, v, h))
  }

  /** Which error a complete head is rejected with: method, version and fields are looked at in this order. */
  lemma ConvertExact(lib: Library, raw: RawHead)
    ensures var m := if raw.method_.Some? then raw.method_.value else [];
            var known := raw.version == Some(0) || raw.version == Some(1);
            && (Convert(lib, raw) == Err(InvalidMethod) <==> !lib.validMethod(m))
            && (Convert(lib, raw) == Err(InvalidVersion) <==> lib.validMethod(m) && !known)
            && (Convert(lib, raw) == Err(InvalidHeader) <==> lib.validMethod(m) && known && !AllGood(lib, raw.headers))
            && (Convert(lib, raw).Ok? <==> lib.validMethod(m) && known && AllGood(lib, raw.headers))
  {
    HeadersExact(lib, raw.headers);
    hide HeaderMapOf, Carries, AllGood;
  }

  datatype HeadOutcome = Closed | GotHead(head: Head, used: nat) | HeadFail(error: ParseError)

  function Decided(lib: Library, status: HeadStatus): HeadOutcome
    requires !status.Partial?
  {
    match status
    case Bad(code) => HeadFail(Parse(code))
    case Complete(raw, used) =>
      match Convert(lib, raw)
      case Err(e) => HeadFail(e)
      case Ok(h) => GotHead(h, used)
  }

  function EndError(e: Ending): ParseError {
    match e
    case Eof => ConnectionClosed
    case Failed(error) => error
  }

  /** One look at the first 64 KB decides the head. */
  function ParseHead(lib: Library, s: bytes, e: Ending): HeadOutcome {
    var status := lib.parse(s[..Min(|s|, MAX_BUF_SIZE)]);
    if !status.Partial? then Decided(lib, status)
    else if |s| >= MAX_BUF_SIZE then HeadFail(HeadersTooLarge)
    else if e.Eof? && s == [] then Closed
    else HeadFail(EndError(e))
  }

  lemma HeadWithin(lib: Library, s: bytes, e: Ending)
    requires Stable(lib) && ParseHead(lib, s, e).GotHead?
    ensures 0 < ParseHead(lib, s, e).used <= |s|
  {
    var a := Min(|s|, MAX_BUF_SIZE);
    StableWindow(lib, s, a, a);
  }

  // ---------------------------------------------------------------- bodies

  function ReadLine(s: bytes, e: Ending): (r: Step<bytes>)
    ensures r.Done? ==> |r.rest| < |s|
  {
    match IndexOf(s, LF)
    case None => Fail(EndError(e))
    case Some(i) => Done(StripCr(s[..i]), s[i + 1..])
  }

  function ReadExact(n: nat, s: bytes, e: Ending): (r: Step<bytes>)
    ensures r.Done? ==> |r.rest| <= |s|
  {
    if n > ISIZE_MAX then Fail(CapacityOverflow)
    else if n <= |s| then Done(s[..n], s[n..])
    else Fail(EndError(e))
  }

  function ChunkSize(line: bytes): Option<nat> {
    ParseUsize(Trim(BeforeSemicolon(line)), 16)
  }

  /** One chunk with its size line and the line after its data; the zero chunk ends the body. */
  datatype ChunkPart = Chunk(data: bytes) | LastChunk

  function ReadChunk(s: bytes, e: Ending): (r: Step<ChunkPart>)
    ensures r.Done? ==> |r.rest| < |s|
  {
    match ReadLine(s, e)
    case Fail(error) => Fail(error)
    case Done(line, afterSize) =>
      match ChunkSize(line)
      case None => Fail(InvalidContentLength)
      case Some(n) =>
        if n == 0 then AfterLine(LastChunk, ReadLine(afterSize, e))
        else
          match ReadExact(n, afterSize, e)
          case Fail(error) => Fail(error)
          case Done(data, afterData) => AfterLine(Chunk(data), ReadLine(afterData, e))
  }

  /** The line after a chunk is read and thrown away. */
  function AfterLine(part: ChunkPart, line: Step<bytes>): Step<ChunkPart> {
    match line
    case Fail(error) => Fail(error)
    case Done(_, rest) => Done(part, rest)
  }

  function ReadChunked(s: bytes, e: Ending): (r: Step<bytes>)
    decreases |s|
  {
    match ReadChunk(s, e)
    case Fail(error) => Fail(error)
    case Done(LastChunk, rest) => Done([], rest)
    case Done(Chunk(data), rest) => Prepend(data, ReadChunked(rest, e))
  }

  function Prepend(data: bytes, r: Step<bytes>): Step<bytes> {
    match r
    case Fail(error) => Fail(error)
    case Done(more, rest) => Done(data + more, rest)
  }

  function ReadBody(headers: Headers, s: bytes, e: Ending): Step<bytes> {
    if IsChunked(headers) then ReadChunked(s, e)
    else
      match ContentLength(headers)
      case Some(n) => ReadExact(n, s, e)
      case None => Done([], s)
  }

  // ---------------------------------------------------------------- errors that more bytes do not heal

  lemma ReadChunkFails(s: bytes, x: bytes, e: Ending, e': Ending)
    requires ReadChunk(s, e).Fail?
    ensures ReadChunk(s, e) == Fail(EndError(e)) || ReadChunk(s + x, e') == ReadChunk(s, e)
  {
    hide ChunkSize, ReadLine, ReadExact;
    LineFails(s, e);
    if ReadLine(s, e).Done? && ChunkSize(ReadLine(s, e).value).Some? {
      ReadLineExtends(s, x, e, e');
      var Done(line, afterSize) := ReadLine(s, e);
      var n := ChunkSize(line).value;
      LineFails(afterSize, e);
      if n > 0 {
        ExactFails(n, afterSize, x, e, e');
        if ReadExact(n, afterSize, e).Done? {
          ReadExactExtends(n, afterSize, x, e, e');
          LineFails(ReadExact(n, afterSize, e).rest, e);
        }
      }
    } else if ReadLine(s, e).Done? {
      ReadLineExtends(s, x, e, e');
    }
  }

  lemma LineFails(s: bytes, e: Ending)
    ensures ReadLine(s, e).Fail? ==> ReadLine(s, e) == Fail(EndError(e))
  {
  }

  lemma ExactFails(n: nat, s: bytes, x: bytes, e: Ending, e': Ending)
    ensures ReadExact(n, s, e).Fail? ==>
              ReadExact(n, s, e) == Fail(EndError(e)) || ReadExact(n, s + x, e') == ReadExact(n, s, e)
  {
  }

  lemma {:induction false} ReadChunkedFails(s: bytes, x: bytes, e: Ending, e': Ending)
    requires ReadChunked(s, e).Fail?
    ensures ReadChunked(s, e) == Fail(EndError(e)) || ReadChunked(s + x, e') == ReadChunked(s, e)
    decreases |s|
  {
    hide ReadChunk;
    var part := ReadChunk(s, e);
    if part.Fail? {
      ReadChunkFails(s, x, e, e');
    } else {
      ReadChunkExtends(s, x, e, e');
      ReadChunkedFails(part.rest, x, e, e');
    }
  }

  /** A body fails because the stream ends, or for a reason that no more bytes can remove. */
  lemma ReadBodyFails(headers: Headers, s: bytes, x: bytes, e: Ending, e': Ending)
    requires ReadBody(headers, s, e).Fail?
    ensures ReadBody(headers, s, e) == Fail(EndError(e)) || ReadBody(headers, s + x, e') == ReadBody(headers, s, e)
  {
    if IsChunked(headers) {
      ReadChunkedFails(s, x, e, e');
    }
  }

  /** A body that is cut anywhere fails with the end of the stream. */
  lemma BodyCut(headers: Headers, s: bytes, k: nat, e: Ending)
    requires k < |s| && ReadBody(headers, s, Eof).Done? && ReadBody(headers, s, Eof).rest == []
    ensures ReadBody(headers, s[..k], e) == Fail(EndError(e))
  {
    hide ReadBody;
    var front, back := s[..k], s[k..];
    assert s == front + back;
    if ReadBody(headers, front, e).Done? {
      ReadBodyExtends(headers, front, back, e, Eof);
      assert false;
    } else {
      ReadBodyFails(headers, front, back, e, Eof);
    }
  }

  // ---------------------------------------------------------------- requests

  datatype Parsed = NoRequest | Got(request: Request, rest: bytes) | Rejected(error: ParseError)

  function Finish(lib: Library, head: Head, body: Step<bytes>): Parsed {
    match body
    case Fail(error) => Rejected(error)
    case Done(data, rest) =>
      if lib.validUri(head.uri)
      then Got(Request(head.method_, head.uri, head.version, head.headers, data), rest)
      else Rejected(InvalidUri)
  }

  /** The whole request parser: the request and the bytes that follow it, or why there is none. */
  function ParseRequest(lib: Library, s: bytes, e: Ending): Parsed
    requires Stable(lib)
  {
    match ParseHead(lib, s, e)
    case Closed => NoRequest
    case HeadFail(error) => Rejected(error)
    case GotHead(head, used) =>
      HeadWithin(lib, s, e);
      Finish(lib, head, ReadBody(head.headers, s[used..], e))
  }

  /**
   A request is what its head says: method and target, the two versions there are, and exactly the
   fields of the head as headers.
   */
  lemma RequestFromHead(lib: Library, s: bytes, e: Ending)
    requires Stable(lib) && ParseRequest(lib, s, e).Got?
    ensures var status, r := lib.parse(s[..Min(|s|, MAX_BUF_SIZE)]), ParseRequest(lib, s, e).request;
            && status.Complete?
            && lib.validMethod(r.method_) && lib.validUri(r.uri)
            && status.raw.method_ == (if status.raw.method_.None? && r.method_ == [] then None else Some(r.method_))
            && status.raw.path == (if status.raw.path.None? && r.uri == [47] then None else Some(r.uri))
            && (r.version.Http10? <==> status.raw.version == Some(0))
            && (r.version.Http11? <==> status.raw.version == Some(1))
            && (r.version.Http10? || r.version.Http11?)
            && AllGood(lib, status.raw.headers) && Carries(lib, r.headers, status.raw.headers)
  {
    var raw := lib.parse(s[..Min(|s|, MAX_BUF_SIZE)]).raw;
    HeadersExact(lib, raw.headers);
    hide HeaderMapOf, ReadBody, Carries, AllGood;
  }

  /** The target is looked at last, when the body has been read. */
  lemma TargetCheckedLast(lib: Library, s: bytes, e: Ending)
    requires Stable(lib) && ParseHead(lib, s, e).GotHead?
    ensures var GotHead(head, used) := ParseHead(lib, s, e);
            && 0 < used <= |s|
            && var body := ReadBody(head.headers, s[used..], e);
               && (body.Fail? ==> ParseRequest(lib, s, e) == Rejected(body.error))
               && (body.Done? && !lib.validUri(head.uri) ==> ParseRequest(lib, s, e) == Rejected(InvalidUri))
               && (body.Done? && lib.validUri(head.uri) ==> ParseRequest(lib, s, e).Got?)
  {
    HeadWithin(lib, s, e);
    hide ReadBody, ParseHead;
  }

  /** A head that is refused is refused for its own reason, whatever follows it and however the stream ends. */
  lemma BadHead(lib: Library, p: bytes, x: bytes, e: Ending)
    requires Stable(lib) && |p| <= MAX_BUF_SIZE
    ensures lib.parse(p).Bad? ==> ParseRequest(lib, p + x, e) == Rejected(Parse(lib.parse(p).code))
    ensures lib.parse(p).Complete? && Convert(lib, lib.parse(p).raw).Err? ==>
              ParseRequest(lib, p + x, e) == Rejected(Convert(lib, lib.parse(p).raw).error)
  {
    var s := p + x;
    assert s[..|p|] == p;
    StableWindow(lib, s, |p|, Min(|s|, MAX_BUF_SIZE));
    hide Convert;
  }

  /** If the first 64 KB are not a head, nothing that follows makes one of them. */
  lemma TooLarge(lib: Library, s: bytes, e: Ending)
    requires Stable(lib) && |s| >= MAX_BUF_SIZE
    ensures lib.parse(s[..MAX_BUF_SIZE]).Partial? ==> ParseRequest(lib, s, e) == Rejected(HeadersTooLarge)
  {
  }

  /** The head of a stream and of a part of it: undecided, or the same. */
  lemma CutHead(lib: Library, s: bytes, k: nat, e: Ending)
    requires Stable(lib) && k < |s| && ParseHead(lib, s, Eof).GotHead?
    ensures var cut := ParseHead(lib, s[..k], e);
            || cut == ParseHead(lib, s, Eof)
            || cut == if k == 0 && e.Eof? then Closed else HeadFail(EndError(e))
    ensures ParseHead(lib, s[..k], e).GotHead? ==> ParseHead(lib, s, Eof).used <= k
  {
    var a, b := Min(k, MAX_BUF_SIZE), Min(|s|, MAX_BUF_SIZE);
    StableWindow(lib, s, a, b);
    assert s[..k][..a] == s[..a];
    hide Convert;
  }

  /** A request that is cut anywhere is the end of the stream: a clean one only before its first byte. */
  lemma Truncated(lib: Library, s: bytes, k: nat, e: Ending)
    requires Stable(lib) && k < |s| && ParseRequest(lib, s, Eof).Got? && ParseRequest(lib, s, Eof).rest == []
    ensures ParseRequest(lib, s[..k], e) ==
            if e.Failed? then Rejected(e.error) else if k == 0 then NoRequest else Rejected(ConnectionClosed)
  {
    hide ReadBody, ParseHead, Stable;
    CutHead(lib, s, k, e);
    HeadWithin(lib, s, Eof);
    if ParseHead(lib, s[..k], e) == ParseHead(lib, s, Eof) {
      var GotHead(head, used) := ParseHead(lib, s, Eof);
      assert s[..k][used..] == s[used..][..k - used];
      BodyCut(head.headers, s[used..], k - used, e);
    }
  }

  // ---------------------------------------------------------------- what follows a request cannot change it

  lemma ReadLineExtends(s: bytes, x: bytes, e: Ending, e': Ending)
    requires ReadLine(s, e).Done?
    ensures ReadLine(s + x, e') == Done(ReadLine(s, e).value, ReadLine(s, e).rest + x)
  {
    var i := IndexOf(s, LF).value;
    IndexOfAt(s + x, LF, i);
    DropOfConcat(s, x, i);
    DropOfConcat(s, x, i + 1);
  }

  lemma ReadExactExtends(n: nat, s: bytes, x: bytes, e: Ending, e': Ending)
    requires ReadExact(n, s, e).Done?
    ensures ReadExact(n, s + x, e') == Done(ReadExact(n, s, e).value, ReadExact(n, s, e).rest + x)
  {
    DropOfConcat(s, x, n);
  }

  lemma ReadChunkExtends(s: bytes, x: bytes, e: Ending, e': Ending)
    requires ReadChunk(s, e).Done?
    ensures ReadChunk(s + x, e') == Done(ReadChunk(s, e).value, ReadChunk(s, e).rest + x)
  {
    ReadLineExtends(s, x, e, e');
    var Done(line, afterSize) := ReadLine(s, e);
    var n := ChunkSize(line).value;
    if n == 0 {
      ReadLineExtends(afterSize, x, e, e');
    } else {
      ReadExactExtends(n, afterSize, x, e, e');
      ReadLineExtends(ReadExact(n, afterSize, e).rest, x, e, e');
    }
  }

  lemma {:induction false} ReadChunkedExtends(s: bytes, x: bytes, e: Ending, e': Ending)
    requires ReadChunked(s, e).Done?
    ensures ReadChunked(s + x, e') == Done(ReadChunked(s, e).value, ReadChunked(s, e).rest + x)
    decreases |s|
  {
    ReadChunkExtends(s, x, e, e');
    var Done(part, rest) := ReadChunk(s, e);
    if part.Chunk? {
      ReadChunkedExtends(rest, x, e, e');
    }
  }

  lemma ReadBodyExtends(headers: Headers, s: bytes, x: bytes, e: Ending, e': Ending)
    requires ReadBody(headers, s, e).Done?
    ensures ReadBody(headers, s + x, e') == Done(ReadBody(headers, s, e).value, ReadBody(headers, s, e).rest + x)
  {
    if IsChunked(headers) {
      ReadChunkedExtends(s, x, e, e');
    } else if ContentLength(headers).Some? {
      ReadExactExtends(ContentLength(headers).value, s, x, e, e');
    }
  }

  lemma ParseHeadExtends(lib: Library, s: bytes, x: bytes, e: Ending, e': Ending)
    requires Stable(lib) && ParseHead(lib, s, e).GotHead?
    ensures ParseHead(lib, s + x, e') == ParseHead(lib, s, e)
  {
    var a, b := Min(|s|, MAX_BUF_SIZE), Min(|s + x|, MAX_BUF_SIZE);
    DropOfConcat(s, x, a);
    StableWindow(lib, s + x, a, b);
  }

  /**
   A request that parses from `s` parses identically from any longer stream, however that one
   ends, and the extra bytes are left for the next request.
   */
  lemma ParseRequestExtends(lib: Library, s: bytes, x: bytes, e: Ending, e': Ending)
    requires Stable(lib) && ParseRequest(lib, s, e).Got?
    ensures ParseRequest(lib, s + x, e') == Got(ParseRequest(lib, s, e).request, ParseRequest(lib, s, e).rest + x)
  {
    ParseHeadExtends(lib, s, x, e, e');
    HeadWithin(lib, s, e);
    var GotHead(head, used) := ParseHead(lib, s, e);
    DropOfConcat(s, x, used);
    ReadBodyExtends(head.headers, s[used..], x, e, e');
  }

  lemma {:induction false} ReadChunkedShrinks(s: bytes, e: Ending)
    requires ReadChunked(s, e).Done?
    ensures |ReadChunked(s, e).rest| <= |s|
    decreases |s|
  {
    var Done(part, rest) := ReadChunk(s, e);
    if part.Chunk? {
      ReadChunkedShrinks(rest, e);
    }
  }

  /** Every request consumes at least one byte. */
  lemma ParseRequestShrinks(lib: Library, s: bytes, e: Ending)
    requires Stable(lib) && ParseRequest(lib, s, e).Got?
    ensures |ParseRequest(lib, s, e).rest| < |s|
  {
    var GotHead(head, used) := ParseHead(lib, s, e);
    HeadWithin(lib, s, e);
    if IsChunked(head.headers) {
      ReadChunkedShrinks(s[used..], e);
    }
  }
}
