/**
 The buffered request parser. The program has it twice: `HttpParser` over tokio readers and
 `KimojioHttpParser` over completion-based reads. The two are the same code except for how the
 tail of a body is fetched, which `Flavour` selects. Every method is proved to compute a
 function of `Pending()`, whatever number of bytes each read delivers.
 */
module HttpParser {
  import opened Bytes
  import opened Text
  import opened HttpMessage
  import opened HttpSpec

  datatype ReadResult = Read(n: nat) | ReadError(error: ParseError)

  function Sum(log: seq<nat>): nat {
    if log == [] then 0 else Sum(log[..|log| - 1]) + log[|log| - 1]
  }

  lemma SumSnoc(log: seq<nat>, n: nat)
    ensures Sum(log + [n]) == Sum(log) + n
  {
    assert (log + [n])[..|log|] == log;
  }

  /**
   Nothing was read beyond need: without a read the buffer can only have shrunk, and otherwise not even
   the bytes of the last read have all stayed in it.
   */
  predicate Lean(log0: seq<nat>, len0: nat, log: seq<nat>, len: nat) {
    log0 <= log && if log == log0 then len <= len0 else len < log[|log| - 1]
  }

  /** A byte stream that hands out any positive number of bytes per read, and none only at its end. */
  class Reader {
    var rest: bytes
    /** The sizes of the reads that delivered something. */
    var log: seq<nat>
    const ending: Ending

    constructor (stream: bytes, ending: Ending)
      ensures rest == stream && this.ending == ending && log == []
    {
      rest, this.ending, log := stream, ending, [];
    }

    /** The length of the whole stream. */
    function Total(): nat
      reads this
    {
      |rest| + Sum(log)
    }

    /** What a read that delivers `n` bytes into `dst[from..]` does. */
    method Read(dst: array<byte>, from: nat, upto: nat) returns (r: ReadResult)
      requires from < upto <= dst.Length
      modifies this, dst
      ensures old(rest) != [] ==> r.Read? && 1 <= r.n <= upto - from && r.n <= |old(rest)|
      ensures old(rest) == [] ==> r == (if ending.Eof? then ReadResult.Read(0) else ReadError(ending.error))
      ensures r.ReadError? ==> rest == [] && dst[..] == old(dst[..])
      ensures r.Read? ==> r.n <= |old(rest)| && r.n <= upto - from && rest == old(rest)[r.n..]
      ensures r.Read? ==> dst[..from + r.n] == old(dst[..from]) + old(rest)[..r.n]
      ensures log == old(log) + if r.Read? && r.n > 0 then [r.n] else []
      ensures Total() == old(Total())
    {
      hide Sum;
      if rest == [] {
        return if ending.Eof? then ReadResult.Read(0) else ReadError(ending.error);
      }
      var most: nat := Min(upto - from, |rest|);
      assert 1 <= most;
      var n: nat :| 1 <= n && n <= most;
      forall i | 0 <= i < n {
        dst[from + i] := rest[i];
      }
      rest := rest[n..];
      SumSnoc(log, n);
      log := log + [n];
      r := ReadResult.Read(n);
    }

    /** `AsyncReadExt::read_exact` into `dst[from..]`. */
    method ReadExact(dst: array<byte>, from: nat) returns (r: Result<()>)
      requires from <= dst.Length
      modifies this, dst
      ensures |old(rest)| >= dst.Length - from ==>
                && r.Ok?
                && dst[..] == old(dst[..from]) + old(rest)[..dst.Length - from]
                && rest == old(rest)[dst.Length - from..]
      ensures |old(rest)| < dst.Length - from ==> r == Err(EndError(ending))
      ensures Total() == old(Total()) && Grown(old(log), log, from < dst.Length && r.Ok?)
    {
      hide Total;
      var filled := from;
      while filled < dst.Length
        invariant Total() == old(Total()) && Grown(old(log), log, from < filled)
        invariant from <= filled <= dst.Length && filled - from <= |old(rest)|
        invariant rest == old(rest)[filled - from..]
        invariant dst[..filled] == old(dst[..from]) + old(rest)[..filled - from]
      {
        ghost var before := rest;
        var got := Read(dst, filled, dst.Length);
        if got.ReadError? {
          return Err(got.error);
        }
        if got.n == 0 {
          return Err(ConnectionClosed);
        }
        assert old(rest)[..filled - from] + before[..got.n] == old(rest)[..filled - from + got.n];
        filled := filled + got.n;
      }
      r := Ok(());
    }
  }

  /** The log has only been appended to; `more` says that it has been, and that the last read delivered something. */
  predicate Grown(log0: seq<nat>, log: seq<nat>, more: bool) {
    log0 <= log && (more ==> log != log0 && log[|log| - 1] > 0)
  }

  datatype Flavour = Tokio | Kimojio

  /** Doubling `n` some number of times gives the largest buffer size exactly. */
  ghost predicate DoublesToMax(n: nat)
    decreases MAX_BUF_SIZE - n
  {
    n == MAX_BUF_SIZE || (0 < n < MAX_BUF_SIZE && DoublesToMax(2 * n))
  }

  const PIECE: nat := 8192

  class HttpParser {
    const reader: Reader
    const flavour: Flavour
    var buf: array<byte>
    var len: nat

    ghost predicate Valid()
      reads this
    {
      len <= buf.Length && DoublesToMax(buf.Length)
    }

    /** Buffered bytes followed by the bytes still to be delivered. */
    ghost function Pending(): bytes
      requires Valid()
      reads this, buf, reader
    {
      buf[..len] + reader.rest
    }

    constructor (reader: Reader, flavour: Flavour)
      ensures Valid() && fresh(buf) && len == 0
      ensures this.reader == reader && this.flavour == flavour
      ensures Pending() == reader.rest
    {
      assert DoublesToMax(INITIAL_BUF_SIZE);
      this.reader, this.flavour := reader, flavour;
      buf, len := new byte[INITIAL_BUF_SIZE], 0;
    }

    /** `buf.copy_within(n..len, 0); len -= n`. */
    method Consume(n: nat)
      requires Valid() && n <= len
      modifies this, buf
      ensures Valid() && buf == old(buf) && len == old(len) - n
      ensures buf[..len] == old(buf[..len])[n..]
    {
      forall i | 0 <= i < len - n {
        buf[i] := buf[n + i];
      }
      len := len - n;
    }

    /** `buf.resize(buf.len() * 2, 0)`. */
    method Grow()
      requires Valid() && buf.Length < MAX_BUF_SIZE
      modifies `buf
      ensures Valid() && fresh(buf) && len < buf.Length
      ensures buf[..len] == old(buf[..len])
    {
      var bigger := new byte[buf.Length * 2];
      forall i | 0 <= i < len {
        bigger[i] := buf[i];
      }
      buf := bigger;
    }

    static lemma Regroup(front: bytes, tail: bytes, n: nat)
      requires n <= |tail|
      ensures front + tail[..n] + tail[n..] == front + tail
    {
    }

    /** Grows a full buffer up to 64 KB, then reads once. */
    method ReadMore() returns (r: ReadResult)
      requires Valid()
      modifies this, buf, reader
      ensures Valid() && (buf == old(buf) || fresh(buf))
      ensures old(len) == MAX_BUF_SIZE ==> r == ReadError(HeadersTooLarge)
      ensures old(len) < MAX_BUF_SIZE && r.ReadError? ==> old(reader.rest) == [] && reader.ending == Failed(r.error)
      ensures r.Read? ==> Pending() == old(Pending()) && len == old(len) + r.n
      ensures r.Read? ==> |old(reader.rest)| == |reader.rest| + r.n
      ensures r == ReadResult.Read(0) ==> old(reader.rest) == [] && reader.ending.Eof?
      ensures reader.log == old(reader.log) + if r.Read? && r.n > 0 then [r.n] else []
      ensures reader.Total() == old(reader.Total()) && old(reader.log) <= reader.log
    {
      hide Reader.Total;
      if len == buf.Length {
        if buf.Length >= MAX_BUF_SIZE {
          return ReadError(HeadersTooLarge);
        }
        Grow();
      }
      r := FillOnce();
    }

    /** One read into the free part of the buffer. */
    method FillOnce() returns (r: ReadResult)
      requires Valid() && len < buf.Length
      modifies `len, buf, reader
      ensures Valid()
      ensures r.ReadError? ==> old(reader.rest) == [] && reader.ending == Failed(r.error)
      ensures r.Read? ==> Pending() == old(Pending()) && len == old(len) + r.n
      ensures r.Read? ==> |old(reader.rest)| == |reader.rest| + r.n
      ensures r == ReadResult.Read(0) ==> old(reader.rest) == [] && reader.ending.Eof?
      ensures reader.log == old(reader.log) + if r.Read? && r.n > 0 then [r.n] else []
      ensures reader.Total() == old(reader.Total())
    {
      hide Reader.Total, DoublesToMax;
      ghost var front, before := buf[..len], reader.rest;
      r := reader.Read(buf, len, buf.Length);
      if r.Read? {
        len := len + r.n;
        assert buf[..len] == front + before[..r.n];
        Regroup(front, before, r.n);
      }
    }

    /** Builds the header map; the first bad name or value rejects the head. */
    method CollectHeaders(lib: Library, fields: seq<Field>) returns (r: Result<Headers>)
      ensures r == HeaderMapOf(lib, fields)
      ensures r.Ok? <==> AllGood(lib, fields)
      ensures r.Ok? ==> Carries(lib, r.value, fields)
    {
      HeadersExact(lib, fields);
      hide Carries, AllGood;
      var headers: Headers := map[];
      for i := 0 to |fields|
        invariant HeaderMapOf(lib, fields[..i]) == Ok(headers)
      {
        assert fields[..i + 1][..i] == fields[..i];
        var name := lib.headerName(fields[i].name);
        if name.None? || !lib.validValue(fields[i].value) {
          HeaderErrorStays(lib, fields, i + 1);
          return Err(InvalidHeader);
        }
        headers := headers[name.value := fields[i].value];
      }
      assert fields[..|fields|] == fields;
      r := Ok(headers);
    }

    static lemma {:induction false} HeaderErrorStays(lib: Library, fields: seq<Field>, k: nat)
      requires k <= |fields| && HeaderMapOf(lib, fields[..k]).Err?
      ensures HeaderMapOf(lib, fields) == HeaderMapOf(lib, fields[..k])
      decreases |fields| - k
    {
      if k < |fields| {
        assert fields[..k + 1][..k] == fields[..k];
        HeaderErrorStays(lib, fields, k + 1);
      } else {
        assert fields[..k] == fields;
      }
    }

    method ConvertHead(lib: Library, raw: RawHead) returns (r: Result<Head>)
      ensures r == Convert(lib, raw)
    {
      var m := if raw.method_.Some? then raw.method_.value else [];
      if !lib.validMethod(m) {
        return Err(InvalidMethod);
      }
      var uri := if raw.path.Some? then raw.path.value else [47];
      var version := VersionOf(raw.version);
      if version.Err? {
        return Err(version.error);
      }
      var headers := CollectHeaders(lib, raw.headers);
      if headers.Err? {
        return Err(headers.error);
      }
      r := Ok(Head(m, uri, version.value, headers.value));
    }

    /** Re-parses the buffered bytes after every read until the head is decided. */
    method ParseHeaders(lib: Library) returns (r: HeadOutcome)
      requires Valid() && Stable(lib)
      modifies this, buf, reader
      ensures Valid() && (buf == old(buf) || fresh(buf))
      ensures r == ParseHead(lib, old(Pending()), reader.ending)
      ensures r.GotHead? ==> Pending() == old(Pending()) && r.used <= len
      ensures reader.Total() == old(reader.Total()) && old(reader.log) <= reader.log
      ensures Prompt(lib) && r.GotHead? ==> Lean(old(reader.log), old(len), reader.log, len - r.used)
    {
      hide Reader.Total;
      ghost var s := Pending();
      while true
        invariant Valid() && (buf == old(buf) || fresh(buf))
        invariant Pending() == s && reader.Total() == old(reader.Total())
        invariant old(reader.log) <= reader.log && (reader.log == old(reader.log) ==> len == old(len))
        invariant reader.log != old(reader.log) ==> UndecidedBefore(lib, s, reader.log, len)
        decreases |reader.rest|
      {
        assert s[..len] == buf[..len];
        StableWindow(lib, s, len, Min(|s|, MAX_BUF_SIZE));
        var status := lib.parse(buf[..len]);
        match status {
          case Bad(code) =>
            return HeadFail(Parse(code));
          case Complete(raw, used) =>
            if reader.log != old(reader.log) {
              PromptLean(lib, s, reader.log, len, used);
            }
            var head := ConvertHead(lib, raw);
            return if head.Ok? then GotHead(head.value, used) else HeadFail(head.error);
          case Partial =>
            var first := len == 0;
            assert len == MAX_BUF_SIZE ==> s[..Min(|s|, MAX_BUF_SIZE)] == s[..len];
            assert reader.rest == [] ==> s == s[..len];
            var got := ReadMore();
            if got.ReadError? {
              return HeadFail(got.error);
            }
            if got.n == 0 {
              return if first then Closed else HeadFail(ConnectionClosed);
            }
        }
      }
    }

    /** The bytes that were there before the last read did not make a head. */
    static predicate UndecidedBefore(lib: Library, s: bytes, log: seq<nat>, len: nat) {
      && log != [] && 0 < log[|log| - 1] <= len <= |s|
      && lib.parse(s[..len - log[|log| - 1]]).Partial?
    }

    static lemma PromptLean(lib: Library, s: bytes, log: seq<nat>, len: nat, used: nat)
      requires Stable(lib) && UndecidedBefore(lib, s, log, len)
      requires lib.parse(s[..len]).Complete? && lib.parse(s[..len]).used == used <= len
      ensures Prompt(lib) ==> len - used < log[|log| - 1]
    {
      var before := len - log[|log| - 1];
      if Prompt(lib) && used <= before {
        assert PromptAt(lib, s[..len]);
        assert s[..len][..used] == s[..used];
        StableWindow(lib, s, used, before);
        assert false;
      }
    }

    static lemma LineFound(line: bytes, piece: bytes, tail: bytes, e: Ending)
      requires Absent(LF, line) && Absent(LF, piece)
      ensures HttpSpec.ReadLine(line + (piece + [LF] + tail), e) == Done(StripCr(line + piece), tail)
    {
      var s := line + (piece + [LF] + tail);
      var n := |line| + |piece|;
      assert s[..n] == line + piece;
      IndexOfAt(s, LF, n);
      assert s[n + 1..] == tail;
    }

    static lemma LineGrows(line: bytes, piece: bytes, tail: bytes)
      requires Absent(LF, line) && Absent(LF, piece)
      ensures line + (piece + tail) == line + piece + tail && Absent(LF, line + piece)
    {
    }

    static lemma LineMissing(line: bytes, piece: bytes, e: Ending)
      requires Absent(LF, line) && Absent(LF, piece)
      ensures HttpSpec.ReadLine(line + (piece + []), e) == Fail(EndError(e))
    {
    }

    static lemma SplitAt(piece: bytes, i: nat, tail: bytes)
      requires i < |piece| && piece[i] == LF
      ensures piece + tail == piece[..i] + [LF] + (piece[i + 1..] + tail)
    {
      assert piece == piece[..i] + [LF] + piece[i + 1..];
    }

    /** Takes a buffered line and the line feed after it, if there is one. */
    method TakeLine() returns (found: Option<bytes>)
      requires Valid()
      modifies this, buf
      ensures Valid() && buf == old(buf)
      ensures found.Some? ==> Absent(LF, found.value) && old(Pending()) == found.value + [LF] + Pending()
      ensures found.Some? ==> len < old(len)
      ensures found.None? ==> Absent(LF, buf[..len]) && buf[..len] == old(buf[..len]) && len == old(len)
    {
      var piece := buf[..len];
      var pos := IndexOf(piece, LF);
      if pos.None? {
        return None;
      }
      ghost var tail := reader.rest;
      SplitAt(piece, pos.value, tail);
      hide IndexOf, DoublesToMax;
      Consume(pos.value + 1);
      found := Some(piece[..pos.value]);
    }

    /** Takes everything out of the buffer and reads once more. */
    method Refill() returns (taken: bytes, r: Result<()>)
      requires Valid()
      modifies this, buf, reader
      ensures Valid() && (buf == old(buf) || fresh(buf))
      ensures taken == old(buf[..len])
      ensures r.Ok? ==> old(Pending()) == taken + Pending() && |reader.rest| < |old(reader.rest)|
      ensures r.Err? ==> old(reader.rest) == [] && r.error == EndError(reader.ending)
      ensures reader.Total() == old(reader.Total()) && old(reader.log) <= reader.log
      ensures r.Ok? ==> len > 0 && reader.log == old(reader.log) + [len]
    {
      hide Reader.Total;
      taken := buf[..len];
      len := 0;
      assert old(Pending()) == taken + Pending();
      var got := ReadMore();
      if got.ReadError? {
        r := Err(got.error);
      } else if got.n == 0 {
        r := Err(ConnectionClosed);
      } else {
        r := Ok(());
      }
    }

    /** Reads up to and including the next line feed; a line may span any number of reads. */
    method ReadLine() returns (r: Result<bytes>)
      requires Valid()
      modifies this, buf, reader
      ensures Valid() && (buf == old(buf) || fresh(buf))
      ensures var want := HttpSpec.ReadLine(old(Pending()), reader.ending);
              if r.Ok? then want == Done(r.value, Pending()) else want == Fail(r.error)
      ensures reader.Total() == old(reader.Total()) && old(reader.log) <= reader.log
      ensures r.Ok? ==> Lean(old(reader.log), old(len), reader.log, len)
    {
      hide Reader.Total;
      ghost var s, want := Pending(), HttpSpec.ReadLine(Pending(), reader.ending);
      var line: bytes := [];
      while true
        invariant Valid() && (buf == old(buf) || fresh(buf))
        invariant reader.Total() == old(reader.Total()) && old(reader.log) <= reader.log
        invariant if reader.log == old(reader.log) then len == old(len) else len <= reader.log[|reader.log| - 1]
        invariant s == line + Pending() && Absent(LF, line)
        decreases |reader.rest|
      {
        var found := TakeLine();
        if found.Some? {
          LineFound(line, found.value, Pending(), reader.ending);
          return Ok(StripCr(line + found.value));
        }
        var taken, more := Refill();
        if more.Err? {
          assert want == Fail(EndError(reader.ending)) by {
            LineMissing(line, taken, reader.ending);
          }
          return Err(more.error);
        }
        LineGrows(line, taken, Pending());
        line := line + taken;
      }
    }

    /** The tail of a body, fetched piece by piece: at most 8192 bytes are asked for at a time. */
    method ReadPieces(prefix: bytes, n: nat) returns (r: Result<bytes>)
      requires |prefix| <= n
      modifies reader
      ensures |old(reader.rest)| >= n - |prefix| ==>
                r == Ok(prefix + old(reader.rest)[..n - |prefix|]) && reader.rest == old(reader.rest)[n - |prefix|..]
      ensures |old(reader.rest)| < n - |prefix| ==> r == Err(EndError(reader.ending))
      ensures reader.Total() == old(reader.Total()) && Grown(old(reader.log), reader.log, |prefix| < n && r.Ok?)
      ensures |prefix| == n ==> reader.log == old(reader.log)
    {
      hide Reader.Total;
      var data := prefix;
      while |data| < n
        invariant reader.Total() == old(reader.Total())
        invariant Grown(old(reader.log), reader.log, |prefix| < |data|)
        invariant |data| == |prefix| ==> reader.log == old(reader.log)
        invariant |prefix| <= |data| <= n && |data| - |prefix| <= |old(reader.rest)|
        invariant reader.rest == old(reader.rest)[|data| - |prefix|..]
        invariant data == prefix + old(reader.rest)[..|data| - |prefix|]
      {
        ghost var before := reader.rest;
        var piece := new byte[Min(n - |data|, PIECE)];
        var got := reader.Read(piece, 0, piece.Length);
        if got.ReadError? {
          return Err(got.error);
        }
        if got.n == 0 {
          return Err(ConnectionClosed);
        }
        assert old(reader.rest)[..|data| - |prefix|] + before[..got.n]
            == old(reader.rest)[..|data| - |prefix| + got.n];
        data := data + piece[..got.n];
      }
      r := Ok(data);
    }

    /** The tail of a body, fetched by one `read_exact` into the resized vector. */
    method ReadDirect(prefix: bytes, n: nat) returns (r: Result<bytes>)
      requires |prefix| <= n
      modifies reader
      ensures |old(reader.rest)| >= n - |prefix| ==>
                r == Ok(prefix + old(reader.rest)[..n - |prefix|]) && reader.rest == old(reader.rest)[n - |prefix|..]
      ensures |old(reader.rest)| < n - |prefix| ==> r == Err(EndError(reader.ending))
      ensures reader.Total() == old(reader.Total()) && Grown(old(reader.log), reader.log, |prefix| < n && r.Ok?)
      ensures |prefix| == n ==> reader.log == old(reader.log)
    {
      if |prefix| == n {
        assert prefix + reader.rest[..0] == prefix;
        return Ok(prefix);
      }
      var data := new byte[n];
      forall i | 0 <= i < |prefix| {
        data[i] := prefix[i];
      }
      assert data[..|prefix|] == prefix;
      var got := reader.ReadExact(data, |prefix|);
      r := if got.Ok? then Ok(data[..]) else Err(got.error);
    }

    /** The first `n` bytes of the stream come from the buffer as far as they go. */
    static lemma Taken(b: bytes, tail: bytes, n: nat)
      ensures var s, k := b + tail, Min(|b|, n);
              && (n <= |s| ==> s[..n] == b[..k] + tail[..n - k] && s[n..] == b[k..] + tail[n - k..])
              && (n <= |s| <==> n - k <= |tail|)
              && (n <= |b| ==> b[..k] + tail[..0] == b[..n] && tail[0..] == tail)
              && (n > |b| ==> b[k..] == [])
    {
      if n > |b| {
        assert b[|b|..] == [];
      }
    }

    /** Both `read_fixed_body` and `read_exact`: the buffer first, then the reader. */
    method ReadExact(n: nat) returns (r: Result<bytes>)
      requires Valid()
      modifies this, buf, reader
      ensures Valid() && buf == old(buf)
      ensures var want := HttpSpec.ReadExact(n, old(Pending()), reader.ending);
              if r.Ok? then want == Done(r.value, Pending()) else want == Fail(r.error)
      ensures reader.Total() == old(reader.Total()) && old(reader.log) <= reader.log
      ensures r.Ok? ==> Lean(old(reader.log), old(len), reader.log, len)
    {
      hide Reader.Total;
      if n > ISIZE_MAX {
        return Err(CapacityOverflow);
      }
      ghost var s, b, tail := Pending(), buf[..len], reader.rest;
      var fromBuf := Min(len, n);
      var data := buf[..fromBuf];
      Consume(fromBuf);
      Taken(b, tail, n);
      assert data == b[..fromBuf] && buf[..len] == b[fromBuf..];
      hide DoublesToMax;
      if flavour.Kimojio? {
        r := ReadPieces(data, n);
      } else {
        r := ReadDirect(data, n);
      }
    }

    /** One round of the chunk loop. */
    method ReadChunk() returns (r: Result<ChunkPart>)
      requires Valid()
      modifies this, buf, reader
      ensures Valid() && (buf == old(buf) || fresh(buf))
      ensures var want := HttpSpec.ReadChunk(old(Pending()), reader.ending);
              if r.Ok? then want == Done(r.value, Pending()) else want == Fail(r.error)
      ensures reader.Total() == old(reader.Total()) && old(reader.log) <= reader.log
      ensures r.Ok? ==> Lean(old(reader.log), old(len), reader.log, len)
    {
      hide Reader.Total, Lean;
      ghost var log0, len0 := reader.log, len;
      var line := ReadLine();
      if line.Err? {
        return Err(line.error);
      }
      ghost var log1, len1 := reader.log, len;
      var size := ChunkSize(line.value);
      if size.None? {
        return Err(InvalidContentLength);
      }
      if size.value == 0 {
        var blank := ReadLine();
        if blank.Err? {
          return Err(blank.error);
        }
        LeanTwice(log0, len0, log1, len1, reader.log, len);
        return Ok(LastChunk);
      }
      var data := ReadExact(size.value);
      if data.Err? {
        return Err(data.error);
      }
      LeanTwice(log0, len0, log1, len1, reader.log, len);
      ghost var log2, len2 := reader.log, len;
      var end := ReadLine();
      if end.Err? {
        return Err(end.error);
      }
      LeanTwice(log0, len0, log2, len2, reader.log, len);
      r := Ok(Chunk(data.value));
    }

    static lemma LeanTwice(log0: seq<nat>, len0: nat, log1: seq<nat>, len1: nat, log2: seq<nat>, len2: nat)
      requires Lean(log0, len0, log1, len1) && Lean(log1, len1, log2, len2)
      ensures Lean(log0, len0, log2, len2)
    {
    }

    method ReadChunkedBody() returns (r: Result<bytes>)
      requires Valid()
      modifies this, buf, reader
      ensures Valid() && (buf == old(buf) || fresh(buf))
      ensures var want := ReadChunked(old(Pending()), reader.ending);
              if r.Ok? then want == Done(r.value, Pending()) else want == Fail(r.error)
      ensures reader.Total() == old(reader.Total()) && old(reader.log) <= reader.log
      ensures r.Ok? ==> Lean(old(reader.log), old(len), reader.log, len)
    {
      hide Reader.Total, Lean;
      ghost var e, want := reader.ending, ReadChunked(Pending(), reader.ending);
      PrependTwice([], [], want);
      LeanStart(reader.log, len);
      var body: bytes := [];
      while true
        invariant Valid() && (buf == old(buf) || fresh(buf))
        invariant reader.Total() == old(reader.Total()) && old(reader.log) <= reader.log
        invariant Lean(old(reader.log), old(len), reader.log, len)
        invariant want == Prepend(body, ReadChunked(Pending(), e))
        decreases |Pending()|
      {
        ghost var s, log1, len1 := Pending(), reader.log, len;
        var part := ReadChunk();
        if part.Err? {
          return Err(part.error);
        }
        LeanTwice(old(reader.log), old(len), log1, len1, reader.log, len);
        if part.value.LastChunk? {
          assert body + [] == body;
          return Ok(body);
        }
        assert ReadChunked(s, e) == Prepend(part.value.data, ReadChunked(Pending(), e));
        PrependTwice(body, part.value.data, ReadChunked(Pending(), e));
        body := body + part.value.data;
      }
    }

    static lemma LeanStart(log: seq<nat>, len: nat)
      ensures Lean(log, len, log, len)
    {
    }

    static lemma PrependTwice(a: bytes, b: bytes, r: Step<bytes>)
      ensures Prepend(a, Prepend(b, r)) == Prepend(a + b, r)
      ensures Prepend([], r) == r
    {
      if r.Done? {
        assert a + (b + r.value) == a + b + r.value;
        assert [] + r.value == r.value;
      }
    }

    method ReadBody(headers: Headers) returns (r: Result<bytes>)
      requires Valid()
      modifies this, buf, reader
      ensures Valid() && (buf == old(buf) || fresh(buf))
      ensures var want := HttpSpec.ReadBody(headers, old(Pending()), reader.ending);
              if r.Ok? then want == Done(r.value, Pending()) else want == Fail(r.error)
      ensures reader.Total() == old(reader.Total()) && old(reader.log) <= reader.log
      ensures r.Ok? ==> Lean(old(reader.log), old(len), reader.log, len)
    {
      hide Reader.Total;
      if IsChunked(headers) {
        r := ReadChunkedBody();
      } else {
        var length := ContentLength(headers);
        if length.Some? {
          r := ReadExact(length.value);
        } else {
          r := Ok([]);
        }
      }
    }

    /**
     Any request parser of either flavour, on any read schedule, returns what `ParseRequest`
     says of the whole stream, and a request leaves exactly the bytes that follow it pending. With a
     head parser that recognises a head at its last byte, no read was made that could be spared.
     */
    method ParseRequest(lib: Library) returns (r: Result<Option<Request>>)
      requires Valid() && Stable(lib)
      modifies this, buf, reader
      ensures Valid() && (buf == old(buf) || fresh(buf))
      ensures match HttpSpec.ParseRequest(lib, old(Pending()), reader.ending)
              case NoRequest => r == Ok(None)
              case Got(request, rest) => r == Ok(Some(request)) && Pending() == rest
              case Rejected(error) => r == Err(error)
      ensures reader.Total() == old(reader.Total()) && old(reader.log) <= reader.log
      ensures Prompt(lib) && r.Ok? && r.value.Some? ==> Lean(old(reader.log), old(len), reader.log, len)
    {
      hide Reader.Total, Lean;
      ghost var s, log0, len0 := Pending(), reader.log, len;
      var outcome := ParseHeaders(lib);
      match outcome {
        case Closed =>
          return Ok(None);
        case HeadFail(error) =>
          return Err(error);
        case GotHead(head, used) =>
          assert s[used..] == buf[..len][used..] + reader.rest;
          Consume(used);
          ghost var log1, len1 := reader.log, len;
          var body := ReadBody(head.headers);
          if body.Err? {
            return Err(body.error);
          }
          if Prompt(lib) {
            LeanTwice(log0, len0, log1, len1, reader.log, len);
          }
          if !lib.validUri(head.uri) {
            return Err(InvalidUri);
          }
          return Ok(Some(Request(head.method_, head.uri, head.version, head.headers, body.value)));
      }
    }

    /** Forgets whatever is buffered; only the kimojio connection loop calls it. */
    method Reset()
      requires Valid()
      modifies `len
      ensures Valid() && len == 0
      ensures Pending() == old(Pending())[old(len)..]
    {
      len := 0;
    }
  }
}
