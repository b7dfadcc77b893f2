/**
 Chunked bodies (section 7.1 of RFC 9112): exactly which streams `read_chunked_body` accepts,
 the round trip with a chunk encoder, and where the decoder departs from the grammar.
 */
module HttpChunked {
  import opened Bytes
  import opened Text
  import opened HttpSpec
  import opened HttpResponse

  /** A chunk as the decoder sees it: size line, data and the discarded rest of the data's last line. */
  datatype Piece = Piece(line: bytes, data: bytes, after: bytes)

  /** A whole coded body: chunks, the zero-size line and the one line read after it. */
  datatype Coded = Coded(pieces: seq<Piece>, last: bytes, trailer: bytes)

  predicate PieceOk(p: Piece) {
    && Absent(LF, p.line)
    && Absent(LF, p.after)
    && ChunkSize(StripCr(p.line)) == Some(|p.data|)
    && 0 < |p.data| <= ISIZE_MAX
  }

  predicate CodedOk(c: Coded) {
    && (forall i :: 0 <= i < |c.pieces| ==> PieceOk(c.pieces[i]))
    && Absent(LF, c.last)
    && Absent(LF, c.trailer)
    && ChunkSize(StripCr(c.last)) == Some(0)
  }

  function PieceBytes(p: Piece): bytes {
    p.line + [LF] + (p.data + (p.after + [LF]))
  }

  function CodedBytes(c: Coded): bytes
    decreases |c.pieces|
  {
    if c.pieces == [] then c.last + [LF] + (c.trailer + [LF])
    else PieceBytes(c.pieces[0]) + CodedBytes(c.(pieces := c.pieces[1..]))
  }

  function Payload(c: Coded): bytes
    decreases |c.pieces|
  {
    if c.pieces == [] then [] else c.pieces[0].data + Payload(c.(pieces := c.pieces[1..]))
  }

  lemma LineRead(line: bytes, x: bytes, e: Ending)
    requires Absent(LF, line)
    ensures ReadLine(line + [LF] + x, e) == Done(StripCr(line), x)
  {
    var s := line + [LF] + x;
    IndexOfAt(s, LF, |line|);
    assert s[..|line|] == line && s[|line| + 1..] == x;
  }

  lemma PieceThen(p: Piece, x: bytes)
    ensures PieceBytes(p) + x == p.line + [LF] + (p.data + (p.after + [LF] + x))
  {
  }

  lemma LastThen(c: Coded, x: bytes)
    requires c.pieces == []
    ensures CodedBytes(c) + x == c.last + [LF] + (c.trailer + [LF] + x)
  {
  }

  lemma PieceRead(p: Piece, x: bytes, e: Ending)
    requires PieceOk(p)
    ensures ReadChunk(PieceBytes(p) + x, e) == Done(Chunk(p.data), x)
  {
    var afterSize := p.data + (p.after + [LF] + x);
    PieceThen(p, x);
    LineRead(p.line, afterSize, e);
    assert afterSize[..|p.data|] == p.data && afterSize[|p.data|..] == p.after + [LF] + x;
    LineRead(p.after, x, e);
  }

  lemma LastRead(c: Coded, x: bytes, e: Ending)
    requires CodedOk(c) && c.pieces == []
    ensures ReadChunk(CodedBytes(c) + x, e) == Done(LastChunk, x)
  {
    LastThen(c, x);
    LineRead(c.last, c.trailer + [LF] + x, e);
    LineRead(c.trailer, x, e);
  }

  /** Every coded body is decoded to its payload and leaves exactly what follows it. */
  lemma {:induction false} Accepts(c: Coded, x: bytes, e: Ending)
    requires CodedOk(c)
    ensures ReadChunked(CodedBytes(c) + x, e) == Done(Payload(c), x)
    decreases |c.pieces|
  {
    if c.pieces == [] {
      LastRead(c, x, e);
    } else {
      var tail := c.(pieces := c.pieces[1..]);
      assert CodedBytes(c) + x == PieceBytes(c.pieces[0]) + (CodedBytes(tail) + x);
      PieceRead(c.pieces[0], CodedBytes(tail) + x, e);
      Accepts(tail, x, e);
    }
  }

  lemma LineSplit(s: bytes, e: Ending) returns (line: bytes)
    requires ReadLine(s, e).Done?
    ensures Absent(LF, line) && ReadLine(s, e).value == StripCr(line)
    ensures s == line + [LF] + ReadLine(s, e).rest
  {
    var i := IndexOf(s, LF).value;
    line := s[..i];
  }

  lemma CodedConsBytes(p: Piece, tail: Coded, c: Coded, x: bytes)
    requires c == tail.(pieces := [p] + tail.pieces)
    ensures Payload(c) == p.data + Payload(tail)
    ensures CodedBytes(c) + x == PieceBytes(p) + (CodedBytes(tail) + x)
  {
    assert c.(pieces := c.pieces[1..]) == tail;
    var head, rest := PieceBytes(p), CodedBytes(tail);
    assert CodedBytes(c) == head + rest;
    assert head + rest + x == head + (rest + x);
  }

  lemma CodedCons(p: Piece, tail: Coded, x: bytes) returns (c: Coded)
    requires PieceOk(p) && CodedOk(tail)
    ensures CodedOk(c) && Payload(c) == p.data + Payload(tail)
    ensures CodedBytes(c) + x == PieceBytes(p) + (CodedBytes(tail) + x)
  {
    c := tail.(pieces := [p] + tail.pieces);
    CodedConsBytes(p, tail, c, x);
  }

  /** The reads that a successful chunk went through. */
  lemma ChunkSteps(s: bytes, e: Ending) returns (n: nat, r1: bytes, r2: bytes)
    requires ReadChunk(s, e).Done? && ReadChunk(s, e).value.Chunk?
    ensures ReadLine(s, e).Done? && r1 == ReadLine(s, e).rest
    ensures ChunkSize(ReadLine(s, e).value) == Some(n) && 0 < n <= ISIZE_MAX && n <= |r1|
    ensures ReadChunk(s, e).value.data == r1[..n] && r1 == r1[..n] + r2
    ensures ReadLine(r2, e).Done? && ReadLine(r2, e).rest == ReadChunk(s, e).rest
  {
    hide ChunkSize, ReadLine;
    r1 := ReadLine(s, e).rest;
    n := ChunkSize(ReadLine(s, e).value).value;
    r2 := r1[n..];
  }

  lemma PieceSplit(s: bytes, e: Ending) returns (p: Piece)
    requires ReadChunk(s, e).Done? && ReadChunk(s, e).value.Chunk?
    ensures PieceOk(p) && p.data == ReadChunk(s, e).value.data
    ensures s == PieceBytes(p) + ReadChunk(s, e).rest
  {
    var n, r1, r2 := ChunkSteps(s, e);
    var line := LineSplit(s, e);
    var after := LineSplit(r2, e);
    p := Piece(line, r1[..n], after);
    PieceThen(p, ReadChunk(s, e).rest);
  }

  lemma LastSteps(s: bytes, e: Ending) returns (r1: bytes)
    requires ReadChunk(s, e).Done? && ReadChunk(s, e).value.LastChunk?
    ensures ReadLine(s, e).Done? && r1 == ReadLine(s, e).rest
    ensures ChunkSize(ReadLine(s, e).value) == Some(0)
    ensures ReadLine(r1, e).Done? && ReadLine(r1, e).rest == ReadChunk(s, e).rest
  {
    r1 := ReadLine(s, e).rest;
  }

  lemma LastSplit(s: bytes, e: Ending) returns (c: Coded)
    requires ReadChunk(s, e).Done? && ReadChunk(s, e).value.LastChunk?
    ensures CodedOk(c) && c.pieces == [] && s == CodedBytes(c) + ReadChunk(s, e).rest
  {
    var r1 := LastSteps(s, e);
    var last := LineSplit(s, e);
    var trailer := LineSplit(r1, e);
    c := Coded([], last, trailer);
    LastThen(c, ReadChunk(s, e).rest);
  }

  /** Nothing else is accepted: whatever decodes is a coded body followed by what is left. */
  lemma {:induction false} AcceptsOnly(s: bytes, e: Ending) returns (c: Coded)
    requires ReadChunked(s, e).Done?
    ensures CodedOk(c) && s == CodedBytes(c) + ReadChunked(s, e).rest
    ensures Payload(c) == ReadChunked(s, e).value
    decreases |s|
  {
    var Done(part, rest) := ReadChunk(s, e);
    if part.LastChunk? {
      c := LastSplit(s, e);
    } else {
      var p := PieceSplit(s, e);
      var tail := AcceptsOnly(rest, e);
      c := CodedCons(p, tail, ReadChunked(rest, e).rest);
    }
  }

  /**
   Which size lines there are (section 7.1.1 of RFC 9112 for extensions): what stands before the first
   semicolon, without the white space around it, spells the size in hexadecimal.
   */
  lemma SizeExact(size: bytes, extension: bytes, n: nat)
    requires Absent(SEMICOLON, size)
    ensures ChunkSize(size) == Some(n) <==> n < USIZE_LIMIT && Spells(Trim(size), n, 16)
    ensures ChunkSize(size + [SEMICOLON] + extension) == ChunkSize(size)
  {
    var line := size + [SEMICOLON] + extension;
    IndexOfAt(line, SEMICOLON, |size|);
    assert line[..|size|] == size;
    ParseExact(Trim(size), 16, n);
  }

  /** A chunk with an extension on its size line decodes as the one without it. */
  lemma ExtendedChunkRead(data: bytes, extension: bytes, x: bytes, e: Ending)
    requires 0 < |data| <= ISIZE_MAX && LineSafe(extension)
    ensures ReadChunk(Print(|data|, 16) + [SEMICOLON] + extension + CRLF + data + CRLF + x, e) == Done(Chunk(data), x)
  {
    hide ReadChunk, PieceOk, Print;
    var line := Print(|data|, 16) + [SEMICOLON] + extension;
    ExtendedPiece(data, extension);
    ChunkAsPiece(line, data);
    PieceRead(Piece(line + [CR], data, [CR]), x, e);
  }

  lemma ExtendedPiece(data: bytes, extension: bytes)
    requires 0 < |data| <= ISIZE_MAX && LineSafe(extension)
    ensures PieceOk(Piece(Print(|data|, 16) + [SEMICOLON] + extension + [CR], data, [CR]))
  {
    var size := Print(|data|, 16);
    PrintValue(|data|, 16);
    ExtendedLineClean(size, extension);
    hide *;
    SizeLine(|data|);
    SizeExact(size, extension, |data|);
    StripCrOne(size + [SEMICOLON] + extension);
    NumeralUntrimmed(size);
    SizeAsPiece(size + [SEMICOLON] + extension, data);
  }

  lemma ExtendedLineClean(size: bytes, extension: bytes)
    requires Numeral(size) && LineSafe(extension)
    ensures Absent(LF, size + [SEMICOLON] + extension + [CR]) && Absent(SEMICOLON, size)
  {
  }

  lemma SizeAsPiece(line: bytes, data: bytes)
    requires Absent(LF, line + [CR]) && StripCr(line + [CR]) == line
    requires ChunkSize(line) == Some(|data|) && 0 < |data| <= ISIZE_MAX
    ensures PieceOk(Piece(line + [CR], data, [CR]))
  {
    hide ChunkSize, StripCr;
  }

  // ---------------------------------------------------------------- round trip with an encoder

  /** Hexadecimal size, line break, data, line break. */
  function EncodeChunk(data: bytes): bytes {
    Print(|data|, 16) + CRLF + data + CRLF
  }

  function EncodeChunks(chunks: seq<bytes>): bytes {
    if chunks == [] then [48] + CRLF + CRLF else EncodeChunk(chunks[0]) + EncodeChunks(chunks[1..])
  }

  lemma SizeLine(n: nat)
    ensures ChunkSize(Print(n, 16)) == (if n < USIZE_LIMIT then Some(n) else None)
    ensures Absent(LF, Print(n, 16) + [CR]) && StripCr(Print(n, 16) + [CR]) == Print(n, 16)
  {
    var size := Print(n, 16);
    PrintValue(n, 16);
    NumeralUntrimmed(size);
    assert (size + [CR])[..|size|] == size;
  }

  /** What the decoder makes of one encoded chunk, by size. */
  lemma EncodedChunkRead(data: bytes, x: bytes, e: Ending)
    requires data != []
    ensures |data| <= ISIZE_MAX ==> ReadChunk(EncodeChunk(data) + x, e) == Done(Chunk(data), x)
    ensures ISIZE_MAX < |data| < USIZE_LIMIT ==> ReadChunk(EncodeChunk(data) + x, e) == Fail(CapacityOverflow)
    ensures USIZE_LIMIT <= |data| ==> ReadChunk(EncodeChunk(data) + x, e) == Fail(InvalidContentLength)
  {
    var line := Print(|data|, 16) + [CR];
    SizeLine(|data|);
    var p := Piece(line, data, [CR]);
    ChunkAsPiece(Print(|data|, 16), data);
    if |data| <= ISIZE_MAX {
      PieceRead(p, x, e);
    } else {
      PieceThen(p, x);
      LineRead(line, data + ([CR] + [LF] + x), e);
    }
  }

  lemma ChunkAsPiece(size: bytes, data: bytes)
    ensures size + CRLF + data + CRLF == PieceBytes(Piece(size + [CR], data, [CR]))
  {
  }

  lemma LastAsCoded(field: bytes)
    ensures [48] + CRLF + field + CRLF == CodedBytes(Coded([], [48] + [CR], field + [CR]))
    ensures Absent(LF, field) ==> CodedOk(Coded([], [48] + [CR], field + [CR]))
  {
    SizeLine(0);
    assert Print(0, 16) == [48];
  }

  lemma LastChunkRead(x: bytes, e: Ending)
    ensures ReadChunk([48] + CRLF + CRLF + x, e) == Done(LastChunk, x)
  {
    LastAsCoded([]);
    assert [48] + CRLF + [] + CRLF == [48] + CRLF + CRLF;
    LastRead(Coded([], [48] + [CR], [] + [CR]), x, e);
  }

  predicate Sendable(chunks: seq<bytes>) {
    forall i :: 0 <= i < |chunks| ==> |chunks[i]| <= ISIZE_MAX
  }

  /**
   Decoding an encoded list of non-empty chunks gives their concatenation and leaves exactly the
   suffix, if and only if no chunk is longer than a vector may be.
   */
  lemma {:induction false} RoundTrip(chunks: seq<bytes>, x: bytes, e: Ending)
    requires forall i :: 0 <= i < |chunks| ==> chunks[i] != []
    ensures Sendable(chunks) <==> ReadChunked(EncodeChunks(chunks) + x, e) == Done(Concat(chunks), x)
    ensures !Sendable(chunks) ==> ReadChunked(EncodeChunks(chunks) + x, e).Fail?
  {
    if chunks == [] {
      LastChunkRead(x, e);
    } else {
      var tail := EncodeChunks(chunks[1..]) + x;
      assert EncodeChunks(chunks) + x == EncodeChunk(chunks[0]) + tail;
      EncodedChunkRead(chunks[0], tail, e);
      RoundTrip(chunks[1..], x, e);
      assert Sendable(chunks) <==> |chunks[0]| <= ISIZE_MAX && Sendable(chunks[1..]);
    }
  }

  /** A coded body with trailer fields (section 7.1.2 of RFC 9112) between the zero chunk and the blank line. */
  function EncodeWithTrailers(chunks: seq<bytes>, fields: seq<bytes>): bytes {
    if chunks == [] then [48] + CRLF + Terminated(fields) + CRLF
    else EncodeChunk(chunks[0]) + EncodeWithTrailers(chunks[1..], fields)
  }

  /** What is left in front of `x`: everything but the first trailer line, if there is one. */
  function Leftover(fields: seq<bytes>, x: bytes): bytes {
    if fields == [] then x else Terminated(fields[1..]) + CRLF + x
  }

  lemma TrailersAfterZero(fields: seq<bytes>, x: bytes, e: Ending)
    requires fields != [] ==> Absent(LF, fields[0])
    ensures ReadChunked([48] + CRLF + Terminated(fields) + CRLF + x, e) == Done([], Leftover(fields, x))
  {
    hide ReadChunked, CodedOk;
    var zero := [48] + CRLF;
    if fields == [] {
      LastAsCoded([]);
      Accepts(Coded([], [48] + [CR], [] + [CR]), x, e);
    } else {
      var line, rest := fields[0], Leftover(fields, x);
      LastAsCoded(line);
      Accepts(Coded([], [48] + [CR], line + [CR]), rest, e);
      Regroup(zero, line + CRLF, Terminated(fields[1..]), CRLF, x);
      assert zero + (line + CRLF) == zero + line + CRLF;
    }
  }

  lemma Regroup(a: bytes, b: bytes, c: bytes, d: bytes, x: bytes)
    ensures a + (b + c) + d + x == a + b + (c + d + x)
  {
  }

  /**
   Only one line is read after the zero chunk. So a body with trailer fields decodes to its payload,
   but the first field is taken for the blank line and everything after it stays in front of the
   next request: what follows the body is left exactly if and only if there are no trailer fields.
   */
  lemma {:induction false} TrailersLeak(chunks: seq<bytes>, fields: seq<bytes>, x: bytes, e: Ending)
    requires forall i :: 0 <= i < |chunks| ==> 0 < |chunks[i]| <= ISIZE_MAX
    requires fields != [] ==> Absent(LF, fields[0])
    ensures ReadChunked(EncodeWithTrailers(chunks, fields) + x, e) == Done(Concat(chunks), Leftover(fields, x))
    ensures ReadChunked(EncodeWithTrailers(chunks, fields) + x, e).rest == x <==> fields == []
  {
    hide ReadChunk;
    assert fields != [] ==> |Leftover(fields, x)| > |x|;
    if chunks == [] {
      TrailersAfterZero(fields, x, e);
    } else {
      var tail := EncodeWithTrailers(chunks[1..], fields) + x;
      assert EncodeWithTrailers(chunks, fields) + x == EncodeChunk(chunks[0]) + tail;
      EncodedChunkRead(chunks[0], tail, e);
      TrailersLeak(chunks[1..], fields, x, e);
    }
  }
}
