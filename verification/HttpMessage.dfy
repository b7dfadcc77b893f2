/**
 HTTP messages and the header predicates of dpdk-net-test/src/app/custom_http.rs. Header names
 are lower case, as `HeaderName` keeps them.
 */
module HttpMessage {
  import opened Bytes
  import opened Text

  datatype Version = Http09 | Http10 | Http11 | Http2 | Http3

  /** Request headers: `HeaderMap::insert` keeps the last value of a name. */
  type Headers = map<bytes, bytes>

  datatype Request = Request(method_: bytes, uri: bytes, version: Version, headers: Headers, body: bytes)

  /** Response headers are kept in the order in which the header map lists them. */
  datatype Field = Field(name: bytes, value: bytes)

  datatype Response = Response(version: Version, status: nat, fields: seq<Field>, body: bytes)

  const CONTENT_LENGTH: bytes := [99, 111, 110, 116, 101, 110, 116, 45, 108, 101, 110, 103, 116, 104]
  const TRANSFER_ENCODING: bytes :=
    [116, 114, 97, 110, 115, 102, 101, 114, 45, 101, 110, 99, 111, 100, 105, 110, 103]
  const CONNECTION: bytes := [99, 111, 110, 110, 101, 99, 116, 105, 111, 110]
  const CHUNKED: bytes := [99, 104, 117, 110, 107, 101, 100]
  const KEEP_ALIVE: bytes := [107, 101, 101, 112, 45, 97, 108, 105, 118, 101]
  const CLOSE: bytes := [99, 108, 111, 115, 101]

  /** A missing, unprintable, malformed or overflowing Content-Length all read as absent. */
  function ContentLength(headers: Headers): Option<nat> {
    if CONTENT_LENGTH in headers && Visible(headers[CONTENT_LENGTH])
    then ParseUsize(headers[CONTENT_LENGTH], 10)
    else None
  }

  predicate IsChunked(headers: Headers) {
    && TRANSFER_ENCODING in headers
    && Visible(headers[TRANSFER_ENCODING])
    && Contains(LowerAll(headers[TRANSFER_ENCODING]), CHUNKED)
  }

  predicate KeepAlive(request: Request) {
    if CONNECTION in request.headers
    then Visible(request.headers[CONNECTION]) && EqualIgnoreCase(request.headers[CONNECTION], KEEP_ALIVE)
    else request.version == Http11
  }

  /** A printed length is read back, and one that overflows reads as absent. */
  lemma ContentLengthReads(headers: Headers, n: nat)
    requires CONTENT_LENGTH in headers && headers[CONTENT_LENGTH] == Print(n, 10)
    ensures ContentLength(headers) == if n < USIZE_LIMIT then Some(n) else None
  {
    PrintValue(n, 10);
  }

  /** `chunked` counts in any case and among other codings. */
  lemma ChunkedInAnyCase(headers: Headers, before: bytes, word: bytes, after: bytes)
    requires TRANSFER_ENCODING in headers && headers[TRANSFER_ENCODING] == before + word + after
    requires Visible(before + word + after) && EqualIgnoreCase(word, CHUNKED)
    ensures IsChunked(headers)
  {
    var value := before + word + after;
    var low := LowerAll(value);
    assert LowerAll(CHUNKED) == CHUNKED;
    assert low[|before|..|before| + |word|] == LowerAll(word);
    assert OccursAt(low, CHUNKED, |before|);
  }

  /**
   The Connection header decides if there is one: exactly `keep-alive`, in any case, keeps the
   connection, and such a value always counts as text. Otherwise the version decides. Method, target
   and body have no say.
   */
  lemma ConnectionDecides(request: Request, other: Request)
    ensures CONNECTION in request.headers ==>
              (KeepAlive(request) <==> EqualIgnoreCase(request.headers[CONNECTION], KEEP_ALIVE))
    ensures CONNECTION in request.headers && EqualIgnoreCase(request.headers[CONNECTION], CLOSE) ==>
              !KeepAlive(request)
    ensures request.headers == other.headers && (CONNECTION in request.headers || request.version == other.version) ==>
              (KeepAlive(request) <==> KeepAlive(other))
    ensures CONNECTION !in request.headers && other == request.(version := Http10) ==> !KeepAlive(other)
    ensures CONNECTION !in request.headers && other == request.(version := Http11) ==> KeepAlive(other)
  {
    assert |LowerAll(CLOSE)| != |LowerAll(KEEP_ALIVE)|;
    if CONNECTION in request.headers && EqualIgnoreCase(request.headers[CONNECTION], KEEP_ALIVE) {
      var value := request.headers[CONNECTION];
      forall i | 0 <= i < |value| ensures 32 <= value[i] < 127 {
        assert LowerAll(value)[i] == LowerAll(KEEP_ALIVE)[i] == Lower(KEEP_ALIVE[i]);
        assert Lower(value[i]) == Lower(KEEP_ALIVE[i]);
      }
    }
  }

  /** A transfer coding counts if and only if `chunked` occurs in it, in any case, and it can be shown as text. */
  lemma ChunkedIff(headers: Headers)
    ensures IsChunked(headers) <==>
              && TRANSFER_ENCODING in headers && Visible(headers[TRANSFER_ENCODING])
              && exists before: bytes, word: bytes, after: bytes ::
                   SplitsAt(headers[TRANSFER_ENCODING], before, word, after)
  {
    if TRANSFER_ENCODING in headers {
      var value := headers[TRANSFER_ENCODING];
      if IsChunked(headers) {
        var i :| 0 <= i <= |value| && OccursAt(LowerAll(value), CHUNKED, i);
        var word := value[i..i + |CHUNKED|];
        assert LowerAll(word) == LowerAll(value)[i..i + |CHUNKED|] == CHUNKED == LowerAll(CHUNKED);
        assert value == value[..i] + word + value[i + |CHUNKED|..];
        assert SplitsAt(value, value[..i], word, value[i + |CHUNKED|..]);
      }
      forall before: bytes, word: bytes, after: bytes | SplitsAt(value, before, word, after) && Visible(value)
        ensures IsChunked(headers)
      {
        ChunkedInAnyCase(headers, before, word, after);
      }
    }
  }

  predicate SplitsAt(value: bytes, before: bytes, word: bytes, after: bytes) {
    value == before + word + after && EqualIgnoreCase(word, CHUNKED)
  }

  predicate HasField(fields: seq<Field>, name: bytes) {
    exists i :: 0 <= i < |fields| && fields[i].name == name
  }

  function Without(fields: seq<Field>, name: bytes): seq<Field> {
    if fields == [] then []
    else (if fields[0].name == name then [] else [fields[0]]) + Without(fields[1..], name)
  }

  /** `HeaderMap::insert`: replaces every value of the name in place of the first, or appends. */
  function SetField(fields: seq<Field>, name: bytes, value: bytes): seq<Field> {
    if fields == [] then [Field(name, value)]
    else if fields[0].name == name then [Field(name, value)] + Without(fields[1..], name)
    else [fields[0]] + SetField(fields[1..], name, value)
  }

  /** The values listed under a name, in order. */
  function ValuesOf(fields: seq<Field>, name: bytes): seq<bytes> {
    if fields == [] then []
    else (if fields[0].name == name then [fields[0].value] else []) + ValuesOf(fields[1..], name)
  }

  lemma {:induction false} WithoutHasNone(fields: seq<Field>, name: bytes)
    ensures ValuesOf(Without(fields, name), name) == []
    ensures Without(Without(fields, name), name) == Without(fields, name)
  {
    if fields != [] {
      var rest := Without(fields[1..], name);
      WithoutHasNone(fields[1..], name);
      assert ([fields[0]] + rest)[1..] == rest && [] + rest == rest;
    }
  }

  /** After an insert the name has exactly the new value, and all other fields are as before, in order. */
  lemma {:induction false} SetFieldSets(fields: seq<Field>, name: bytes, value: bytes)
    ensures ValuesOf(SetField(fields, name, value), name) == [value]
    ensures Without(SetField(fields, name, value), name) == Without(fields, name)
  {
    if fields == [] {
      assert [Field(name, value)][1..] == [];
    } else if fields[0].name == name {
      var rest := Without(fields[1..], name);
      WithoutHasNone(fields[1..], name);
      assert ([Field(name, value)] + rest)[1..] == rest;
    } else {
      var rest := SetField(fields[1..], name, value);
      SetFieldSets(fields[1..], name, value);
      assert ([fields[0]] + rest)[1..] == rest;
    }
  }

  /** An insert puts the new value where the first old one was, or at the end if there was none. */
  lemma {:induction false} SetFieldPlace(fields: seq<Field>, name: bytes, value: bytes, k: nat)
    requires k <= |fields| && forall i :: 0 <= i < k ==> fields[i].name != name
    requires k == |fields| || fields[k].name == name
    ensures SetField(fields, name, value)
         == fields[..k] + [Field(name, value)] + if k == |fields| then [] else Without(fields[k + 1..], name)
  {
    hide Without;
    if k > 0 {
      SetFieldPlace(fields[1..], name, value, k - 1);
      assert [fields[0]] + fields[1..][..k - 1] == fields[..k];
    }
  }

  function CloseMarked(response: Response): Response {
    response.(fields := SetField(response.fields, CONNECTION, CLOSE))
  }
}
