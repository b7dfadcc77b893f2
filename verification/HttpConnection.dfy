/**
 The keep-alive connection loops `handle_connection` and `handle_http_connection`. The second one
 forgets whatever its parser has buffered after each request; the amounts it forgets are the
 `drops` of a run, a function of the stream and of the sizes of the reads, and the first loop is the
 run without drops.
 */
module HttpConnection {
  import opened Bytes
  import opened HttpMessage
  import opened HttpSpec
  import opened HttpParser
  import opened HttpResponse
  import opened HttpChunked

  /** The request handler may depend on the requests it has seen on this connection. */
  datatype App = App(
    handler: seq<Request> -> Response,
    describe: ParseError -> bytes,
    reason: nat -> bytes)

  /** Handler calls, responses written and the result of the connection. */
  datatype Transcript = Transcript(calls: seq<Request>, replies: seq<Response>, end: Result<()>)

  const PARSE_ERROR_LABEL: bytes := [80, 97, 114, 115, 101, 32, 101, 114, 114, 111, 114, 58, 32]

  function BadRequest(app: App, error: ParseError): Response {
    Response(Http11, 400, [Field(CONNECTION, CLOSE)], PARSE_ERROR_LABEL + app.describe(error))
  }

  /** The answer to the last request of `history`. */
  function Reply(app: App, history: seq<Request>): Response
    requires history != []
  {
    var response := app.handler(history);
    if KeepAlive(history[|history| - 1]) then response else CloseMarked(response)
  }

  function Continue(request: Request, reply: Response, t: Transcript): Transcript {
    Transcript([request] + t.calls, [reply] + t.replies, t.end)
  }

  /** What is done with a request that could not be parsed. */
  function Refuse(app: App, error: ParseError): Transcript {
    if error == ConnectionClosed then Transcript([], [], Ok(()))
    else if error == CapacityOverflow then Transcript([], [], Err(error))
    else Transcript([], [BadRequest(app, error)], Err(error))
  }

  /** The stream the next request is parsed from, after the first `drops[0]` bytes are forgotten. */
  function AfterDrop(drops: seq<nat>, rest: bytes): bytes {
    if drops == [] then rest else rest[Min(drops[0], |rest|)..]
  }

  function Later(drops: seq<nat>): seq<nat> {
    if drops == [] then [] else drops[1..]
  }

  /** The whole connection as a function of its byte stream. */
  function Serve(lib: Library, app: App, past: seq<Request>, drops: seq<nat>, s: bytes, e: Ending): Transcript
    requires Stable(lib)
    decreases |s|
  {
    match ParseRequest(lib, s, e)
    case NoRequest => Transcript([], [], Ok(()))
    case Rejected(error) => Refuse(app, error)
    case Got(request, rest) =>
      ParseRequestShrinks(lib, s, e);
      var history := past + [request];
      if KeepAlive(request)
      then Continue(request, Reply(app, history), Serve(lib, app, history, Later(drops), AfterDrop(drops, rest), e))
      else Transcript([request], [Reply(app, history)], Ok(()))
  }

  function Wire(app: App, replies: seq<Response>): bytes {
    if replies == [] then []
    else Wire(app, replies[..|replies| - 1]) + OneReply(app, replies[|replies| - 1])
  }

  function OneReply(app: App, r: Response): bytes {
    Serialize(r, app.reason(r.status))
  }

  // ---------------------------------------------------------------- the loop

  class Writer {
    var sent: bytes
    /** The error codes of the writes that failed. */
    var errors: seq<int>

    constructor ()
      ensures sent == [] && errors == []
    {
      sent, errors := [], [];
    }

    /** `write_all`: everything is written, or the write fails after some prefix. */
    method WriteAll(data: bytes) returns (failure: Option<int>)
      modifies this
      ensures failure.None? ==> sent == old(sent) + data && errors == old(errors)
      ensures failure.Some? ==> old(sent) <= sent <= old(sent) + data && errors == old(errors) + [failure.value]
    {
      var fails: bool := *;
      if fails {
        var n: nat :| n <= |data|;
        var code: int := *;
        sent := sent + data[..n];
        errors := errors + [code];
        failure := Some(code);
      } else {
        sent := sent + data;
        failure := None;
      }
    }
  }

  /** A run so far, followed by a transcript. */
  function Extend(calls: seq<Request>, replies: seq<Response>, t: Transcript): Transcript {
    Transcript(calls + t.calls, replies + t.replies, t.end)
  }

  /** Whatever is still to be dropped, the whole connection is the run so far and the rest of it. */
  ghost predicate Follows(lib: Library, app: App, drops: seq<nat>, s0: bytes, e: Ending,
                          calls: seq<Request>, replies: seq<Response>, s: bytes)
    requires Stable(lib)
  {
    forall more: seq<nat> :: FollowsWith(lib, app, drops, more, s0, e, calls, replies, s)
  }

  ghost predicate FollowsWith(lib: Library, app: App, drops: seq<nat>, more: seq<nat>, s0: bytes, e: Ending,
                              calls: seq<Request>, replies: seq<Response>, s: bytes)
    requires Stable(lib)
  {
    Serve(lib, app, [], drops + more, s0, e) == Extend(calls, replies, Serve(lib, app, calls, more, s, e))
  }

  lemma FollowsStart(lib: Library, app: App, s: bytes, e: Ending)
    requires Stable(lib)
    ensures Follows(lib, app, [], s, e, [], [], s)
  {
    forall more: seq<nat> ensures FollowsWith(lib, app, [], more, s, e, [], [], s) {
      assert [] + more == more;
      var t := Serve(lib, app, [], more, s, e);
      assert Extend([], [], t) == t;
    }
  }

  lemma FollowsNext(lib: Library, app: App, drops: seq<nat>, s0: bytes, e: Ending,
                    calls: seq<Request>, replies: seq<Response>, s: bytes, d: nat)
    requires Stable(lib) && Follows(lib, app, drops, s0, e, calls, replies, s)
    requires ParseRequest(lib, s, e).Got? && KeepAlive(ParseRequest(lib, s, e).request)
    requires d <= |ParseRequest(lib, s, e).rest|
    ensures var Got(request, rest) := ParseRequest(lib, s, e);
            Follows(lib, app, drops + [d], s0, e,
                    calls + [request], replies + [Reply(app, calls + [request])], rest[d..])
  {
    hide ParseRequest, Reply, KeepAlive, Serve;
    var Got(request, rest) := ParseRequest(lib, s, e);
    var reply := Reply(app, calls + [request]);
    forall more: seq<nat>
      ensures FollowsWith(lib, app, drops + [d], more, s0, e, calls + [request], replies + [reply], rest[d..])
    {
      assert FollowsWith(lib, app, drops, [d] + more, s0, e, calls, replies, s);
      assert drops + ([d] + more) == drops + [d] + more;
      ServeGoesOn(lib, app, calls, d, more, s, e);
      ExtendContinue(calls, replies, request, reply, Serve(lib, app, calls + [request], more, rest[d..], e));
    }
  }

  lemma ServeGoesOn(lib: Library, app: App, calls: seq<Request>, d: nat, more: seq<nat>, s: bytes, e: Ending)
    requires Stable(lib) && ParseRequest(lib, s, e).Got? && KeepAlive(ParseRequest(lib, s, e).request)
    requires d <= |ParseRequest(lib, s, e).rest|
    ensures var Got(request, rest) := ParseRequest(lib, s, e);
            Serve(lib, app, calls, [d] + more, s, e) ==
            Continue(request, Reply(app, calls + [request]), Serve(lib, app, calls + [request], more, rest[d..], e))
  {
    hide ParseRequest, Reply, KeepAlive;
    assert ([d] + more)[1..] == more;
  }

  lemma FollowsEnd(lib: Library, app: App, drops: seq<nat>, s0: bytes, e: Ending,
                   calls: seq<Request>, replies: seq<Response>, s: bytes)
    requires Stable(lib) && Follows(lib, app, drops, s0, e, calls, replies, s)
    ensures Serve(lib, app, [], drops, s0, e) == Extend(calls, replies, Serve(lib, app, calls, [], s, e))
  {
    hide Serve;
    assert FollowsWith(lib, app, drops, [], s0, e, calls, replies, s);
    assert drops + [] == drops;
  }

  lemma ExtendContinue(calls: seq<Request>, replies: seq<Response>, request: Request, reply: Response, t: Transcript)
    ensures Extend(calls, replies, Continue(request, reply, t)) == Extend(calls + [request], replies + [reply], t)
  {
    assert calls + ([request] + t.calls) == calls + [request] + t.calls;
    assert replies + ([reply] + t.replies) == replies + [reply] + t.replies;
  }

  lemma WireStep(app: App, replies: seq<Response>, reply: Response)
    ensures Wire(app, replies + [reply]) == Wire(app, replies) + OneReply(app, reply)
  {
    assert (replies + [reply])[..|replies|] == replies;
  }

  lemma {:induction false} WireAppend(app: App, a: seq<Response>, b: seq<Response>)
    ensures Wire(app, a + b) == Wire(app, a) + Wire(app, b)
    decreases |b|
  {
    hide OneReply;
    if b == [] {
      assert a + b == a;
    } else {
      var n := |b| - 1;
      WireAppend(app, a, b[..n]);
      assert a + b == a + b[..n] + [b[n]];
      WireStep(app, a + b[..n], b[n]);
    }
  }

  lemma WireOne(app: App, reply: Response)
    ensures Wire(app, [reply]) == OneReply(app, reply)
  {
    WireStep(app, [], reply);
    assert [] + [reply] == [reply];
  }

  /** What one round of the loop did: the connection ended, or a request was answered and kept it open. */
  datatype Round = Ended(calls: seq<Request>, end: Result<()>) | Again(request: Request)

  /**
   The calls, the result and the bytes of a finished run are those of `t`, unless a write failed. Then
   it was the only one, and the bytes end inside that reply: the reply to the last call made, which
   ends the connection with the writer's error, or the 400, whose failure is ignored.
   */
  ghost predicate Matches(app: App, t: Transcript, calls: seq<Request>, end: Result<()>,
                          sent: bytes, errors: seq<int>)
  {
    if errors == [] then calls == t.calls && end == t.end && sent == Wire(app, t.replies)
    else |errors| == 1 && (CutAtCall(app, t, calls, end, sent, errors[0]) || CutAtRefusal(app, t, calls, end, sent))
  }

  ghost predicate CutAtCall(app: App, t: Transcript, calls: seq<Request>, end: Result<()>, sent: bytes, code: int) {
    && calls != [] && calls <= t.calls && |calls| <= |t.replies|
    && end == Err(Io(code))
    && Wire(app, t.replies[..|calls| - 1]) <= sent <= Wire(app, t.replies[..|calls|])
  }

  ghost predicate CutAtRefusal(app: App, t: Transcript, calls: seq<Request>, end: Result<()>, sent: bytes) {
    && calls == t.calls && end == t.end && |t.replies| == |calls| + 1
    && Wire(app, t.replies[..|calls|]) <= sent <= Wire(app, t.replies)
  }

  /** `write_response`. */
  method SendReply(app: App, writer: Writer, response: Response) returns (failure: Option<int>)
    modifies writer
    ensures failure.None? ==>
              writer.sent == old(writer.sent) + Wire(app, [response]) && writer.errors == old(writer.errors)
    ensures failure.Some? ==>
              && old(writer.sent) <= writer.sent <= old(writer.sent) + Wire(app, [response])
              && writer.errors == old(writer.errors) + [failure.value]
  {
    var data := SerializeResponse(response, app.reason(response.status));
    WireOne(app, response);
    failure := writer.WriteAll(data);
  }

  method OneRound(lib: Library, app: App, parser: HttpParser, writer: Writer, past: seq<Request>) returns (round: Round)
    requires Stable(lib) && parser.Valid() && writer.errors == []
    modifies parser, parser.buf, parser.reader, writer
    ensures parser.Valid() && (parser.buf == old(parser.buf) || fresh(parser.buf))
    ensures parser.reader.Total() == old(parser.reader.Total()) && old(parser.reader.log) <= parser.reader.log
    ensures old(writer.sent) <= writer.sent
    ensures round.Again? ==>
              && ParseRequest(lib, old(parser.Pending()), parser.reader.ending) == Got(round.request, parser.Pending())
              && KeepAlive(round.request)
              && writer.sent == old(writer.sent) + Wire(app, [Reply(app, past + [round.request])])
              && writer.errors == []
              && (Prompt(lib) ==> Lean(old(parser.reader.log), old(parser.len), parser.reader.log, parser.len))
    ensures round.Ended? ==>
              Matches(app, Serve(lib, app, past, [], old(parser.Pending()), parser.reader.ending),
                      round.calls, round.end, writer.sent[|old(writer.sent)|..], writer.errors)
    ensures round.Ended? && writer.errors == [] ==> !GoesOn(lib, old(parser.Pending()), parser.reader.ending)
  {
    ghost var s, e := parser.Pending(), parser.reader.ending;
    ServeCases(lib, app, past, s, e);
    NotAgain(lib, s, e);
    hide Serve, ParseRequest, KeepAlive, Wire, Reply, Matches, Stable, Lean, Reader.Total, GoesOn;
    var parsed := parser.ParseRequest(lib);
    if parsed.Err? {
      round := AnswerError(app, writer, parsed.error);
      return;
    }
    if parsed.value.None? {
      QuietEnd(app);
      assert writer.sent[|old(writer.sent)|..] == [];
      return Ended([], Ok(()));
    }
    var request := parsed.value.value;
    var failure, wire := AnswerRequest(app, writer, past, request);
    assert writer.sent[|old(writer.sent)|..] == wire;
    if failure.Some? {
      CutShort(app, Serve(lib, app, past, [], s, e), request, Reply(app, past + [request]), wire, failure.value);
      assert writer.errors == [failure.value];
      return Ended([request], Err(Io(failure.value)));
    }
    LastReply(app, request, Reply(app, past + [request]));
    round := if KeepAlive(request) then Again(request) else Ended([request], Ok(()));
  }

  /** The stream starts with a request after which the connection is kept. */
  predicate GoesOn(lib: Library, s: bytes, e: Ending)
    requires Stable(lib)
  {
    ParseRequest(lib, s, e).Got? && KeepAlive(ParseRequest(lib, s, e).request)
  }

  lemma NotAgain(lib: Library, s: bytes, e: Ending)
    requires Stable(lib)
    ensures var p := ParseRequest(lib, s, e); !p.Got? || !KeepAlive(p.request) ==> !GoesOn(lib, s, e)
  {
    hide ParseRequest, KeepAlive;
  }

  /** Calls the handler and writes its response, marked `close` if the connection is to end. */
  method AnswerRequest(app: App, writer: Writer, past: seq<Request>, request: Request)
      returns (failure: Option<int>, ghost wire: bytes)
    modifies writer
    ensures writer.sent == old(writer.sent) + wire
    ensures wire <= Wire(app, [Reply(app, past + [request])])
    ensures failure.None? ==> wire == Wire(app, [Reply(app, past + [request])]) && writer.errors == old(writer.errors)
    ensures failure.Some? ==> writer.errors == old(writer.errors) + [failure.value]
  {
    hide KeepAlive, Wire, CloseMarked;
    var response := app.handler(past + [request]);
    if !KeepAlive(request) {
      response := CloseMarked(response);
    }
    failure := SendReply(app, writer, response);
    wire := writer.sent[|old(writer.sent)|..];
  }

  /** A stream that ended says nothing; a panic says nothing; any other error is answered with a 400. */
  method AnswerError(app: App, writer: Writer, error: ParseError) returns (round: Round)
    requires writer.errors == []
    modifies writer
    ensures old(writer.sent) <= writer.sent && round.Ended?
    ensures Matches(app, Refuse(app, error), round.calls, round.end, writer.sent[|old(writer.sent)|..], writer.errors)
  {
    EmptyWire(app);
    if error == ConnectionClosed {
      return Ended([], Ok(()));
    }
    if error == CapacityOverflow {
      return Ended([], Err(CapacityOverflow));
    }
    hide Wire;
    var refusal := BadRequest(app, error);
    var failure := SendReply(app, writer, refusal);
    ghost var wire := writer.sent[|old(writer.sent)|..];
    assert [refusal][..0] == [];
    return Ended([], Err(error));
  }

  lemma EmptyWire(app: App)
    ensures Wire(app, []) == []
  {
  }

  lemma QuietEnd(app: App)
    ensures Matches(app, Transcript([], [], Ok(())), [], Ok(()), [], [])
  {
  }

  lemma LastReply(app: App, request: Request, reply: Response)
    ensures Matches(app, Transcript([request], [reply], Ok(())), [request], Ok(()), Wire(app, [reply]), [])
  {
  }

  /** A failing write of the first reply. */
  lemma CutShort(app: App, t: Transcript, request: Request, reply: Response, wire: bytes, code: int)
    requires [request] <= t.calls && [reply] <= t.replies && wire <= Wire(app, [reply])
    ensures Matches(app, t, [request], Err(Io(code)), wire, [code])
  {
    EmptyWire(app);
    hide Wire;
    assert t.replies[..0] == [] && t.replies[..1] == [reply];
    assert CutAtCall(app, t, [request], Err(Io(code)), wire, code);
  }

  /** One unfolding of `Serve`. */
  lemma ServeCases(lib: Library, app: App, past: seq<Request>, s: bytes, e: Ending)
    requires Stable(lib)
    ensures var t, p := Serve(lib, app, past, [], s, e), ParseRequest(lib, s, e);
            && (p.NoRequest? ==> t == Transcript([], [], Ok(())))
            && (p.Rejected? ==> t == Refuse(app, p.error))
            && (p.Got? ==> [p.request] <= t.calls && [Reply(app, past + [p.request])] <= t.replies)
            && (p.Got? && !KeepAlive(p.request) ==>
                  t == Transcript([p.request], [Reply(app, past + [p.request])], Ok(())))
  {
    hide ParseRequest, KeepAlive, Reply;
  }

  /** The run so far in front of a run that matches. */
  lemma MatchesAfter(app: App, calls: seq<Request>, replies: seq<Response>, t: Transcript,
                     more: seq<Request>, end: Result<()>, sent: bytes, errors: seq<int>)
    requires |calls| == |replies| && Matches(app, t, more, end, sent, errors)
    ensures Matches(app, Extend(calls, replies, t), calls + more, end, Wire(app, replies) + sent, errors)
  {
    hide Wire;
    var all := replies + t.replies;
    WireAppend(app, replies, t.replies);
    if errors != [] {
      var k := |more|;
      WireAppend(app, replies, t.replies[..k]);
      assert all[..|calls| + k] == replies + t.replies[..k];
      if k > 0 {
        WireAppend(app, replies, t.replies[..k - 1]);
        assert all[..|calls| + k - 1] == replies + t.replies[..k - 1];
      }
    }
  }

  lemma Conclude(lib: Library, app: App, drops: seq<nat>, s0: bytes, e: Ending, calls: seq<Request>,
                 replies: seq<Response>, s: bytes, round: Round, before: bytes, sent: bytes, errors: seq<int>)
    requires Stable(lib) && Follows(lib, app, drops, s0, e, calls, replies, s) && round.Ended?
    requires before == Wire(app, replies) && before <= sent && |calls| == |replies|
    requires Matches(app, Serve(lib, app, calls, [], s, e), round.calls, round.end, sent[|before|..], errors)
    ensures Matches(app, Serve(lib, app, [], drops, s0, e), calls + round.calls, round.end, sent, errors)
  {
    hide *;
    FollowsEnd(lib, app, drops, s0, e, calls, replies, s);
    MatchesAfter(app, calls, replies, Serve(lib, app, calls, [], s, e),
                 round.calls, round.end, sent[|before|..], errors);
    assert sent == before + sent[|before|..];
  }

  // ---------------------------------------------------------------- what the kimojio loop forgets

  /** How many bytes the shortest prefix of the reads delivers that covers position `q`. */
  function Reach(log: seq<nat>, q: nat): nat {
    if log == [] || Sum(log[..|log| - 1]) < q then Sum(log) else Reach(log[..|log| - 1], q)
  }

  /** It is the total of some of the first reads, covers `q`, and no shorter prefix of the reads does. */
  lemma {:induction false} ReachLeast(log: seq<nat>, q: nat) returns (k: nat)
    requires q <= Sum(log)
    ensures k <= |log| && Reach(log, q) == Sum(log[..k]) >= q
    ensures k > 0 ==> Sum(log[..k - 1]) < q
  {
    assert log[..|log|] == log;
    if log == [] || Sum(log[..|log| - 1]) < q {
      k := |log|;
    } else {
      k := ReachLeast(log[..|log| - 1], q);
      assert log[..|log| - 1][..k] == log[..k];
      assert k > 0 ==> log[..|log| - 1][..k - 1] == log[..k - 1];
    }
  }

  lemma {:induction false} ReachStays(log: seq<nat>, more: seq<nat>, q: nat)
    requires q <= Sum(log)
    ensures Reach(log + more, q) == Reach(log, q) && Sum(log) <= Sum(log + more)
    decreases |more|
  {
    hide Sum, Reach;
    if more == [] {
      assert log + more == log;
    } else {
      var n := |more| - 1;
      ReachStays(log, more[..n], q);
      assert log + more == log + more[..n] + [more[n]];
      SumSnoc(log + more[..n], more[n]);
      ReachBefore(log + more[..n], more[n], q);
    }
  }

  lemma ReachBefore(log: seq<nat>, n: nat, q: nat)
    requires q <= Sum(log)
    ensures Reach(log + [n], q) == Reach(log, q)
  {
    assert (log + [n])[..|log|] == log;
  }

  /** The bytes that have been delivered behind the end of a request when it is answered. */
  function Excess(log: seq<nat>, total: nat, rest: bytes): nat {
    var q := total - |rest|;
    if 0 <= q < Reach(log, q) then Reach(log, q) - q else 0
  }

  /**
   What a loop forgets that reads no more than it has to and drops whatever it holds after each request:
   a function of the stream, of which `s` is still pending, and of the sizes of the reads.
   */
  function Forgotten(lib: Library, log: seq<nat>, total: nat, s: bytes, e: Ending): seq<nat>
    requires Stable(lib)
    decreases |s|
  {
    match ParseRequest(lib, s, e)
    case Got(request, rest) =>
      ParseRequestShrinks(lib, s, e);
      if KeepAlive(request)
      then
        var d := Excess(log, total, rest);
        [d] + Forgotten(lib, log, total, rest[Min(d, |rest|)..], e)
      else []
    case _ => []
  }

  /** Whatever is still to be read, the drops so far begin what is forgotten in all. */
  ghost predicate Drops(lib: Library, log: seq<nat>, total: nat, s0: bytes, e: Ending, drops: seq<nat>, s: bytes)
    requires Stable(lib)
  {
    forall more: seq<nat> :: DropsWith(lib, log, more, total, s0, e, drops, s)
  }

  ghost predicate DropsWith(lib: Library, log: seq<nat>, more: seq<nat>, total: nat, s0: bytes, e: Ending,
                            drops: seq<nat>, s: bytes)
    requires Stable(lib)
  {
    Forgotten(lib, log + more, total, s0, e) == drops + Forgotten(lib, log + more, total, s, e)
  }

  lemma DropsStart(lib: Library, total: nat, s: bytes, e: Ending)
    requires Stable(lib)
    ensures Drops(lib, [], total, s, e, [], s)
  {
    hide Forgotten;
    forall more: seq<nat> ensures DropsWith(lib, [], more, total, s, e, [], s) {
      assert [] + Forgotten(lib, [] + more, total, s, e) == Forgotten(lib, [] + more, total, s, e);
    }
  }

  /** The amount in the buffer when a request has been answered is what the reads delivered behind it. */
  lemma BufferedIsExcess(log0: seq<nat>, log: seq<nat>, more: seq<nat>, total: nat,
                         s: bytes, rest: bytes, len: nat, unread: nat)
    requires Lean(log0, 0, log, len) && |rest| == len + unread && |rest| < |s|
    requires total == |s| + Sum(log0) == unread + Sum(log)
    ensures Excess(log + more, total, rest) == len
  {
    hide Sum, Reach;
    assert log != log0;
    var n, q := |log| - 1, total - |rest|;
    assert log == log[..n] + [log[n]];
    SumSnoc(log[..n], log[n]);
    ReachNow(log[..n], log[n], q);
    ReachStays(log, more, q);
  }

  lemma ReachNow(log: seq<nat>, n: nat, q: nat)
    requires Sum(log) < q
    ensures Reach(log + [n], q) == Sum(log + [n])
  {
    assert (log + [n])[..|log|] == log;
  }

  lemma DropsNext(lib: Library, log0: seq<nat>, log: seq<nat>, total: nat, s0: bytes, e: Ending,
                  drops: seq<nat>, s: bytes, len: nat, unread: nat)
    requires Stable(lib) && Drops(lib, log0, total, s0, e, drops, s) && GoesOn(lib, s, e)
    requires var rest := ParseRequest(lib, s, e).rest; |rest| == len + unread
    requires Lean(log0, 0, log, len) && total == |s| + Sum(log0) == unread + Sum(log)
    ensures Drops(lib, log, total, s0, e, drops + [len], ParseRequest(lib, s, e).rest[len..])
  {
    hide ParseRequest, KeepAlive, Forgotten, Excess, Sum, Stable;
    ParseRequestShrinks(lib, s, e);
    var rest := ParseRequest(lib, s, e).rest;
    forall more: seq<nat> ensures DropsWith(lib, log, more, total, s0, e, drops + [len], rest[len..]) {
      var new_ := log[|log0|..];
      assert log0 + (new_ + more) == log + more;
      assert DropsWith(lib, log0, new_ + more, total, s0, e, drops, s);
      BufferedIsExcess(log0, log, more, total, s, rest, len, unread);
      ForgetStep(lib, log + more, total, s, e);
      var f := Forgotten(lib, log + more, total, rest[len..], e);
      assert drops + ([len] + f) == drops + [len] + f;
    }
  }

  lemma ForgetStep(lib: Library, log: seq<nat>, total: nat, s: bytes, e: Ending)
    requires Stable(lib) && GoesOn(lib, s, e)
    ensures var rest := ParseRequest(lib, s, e).rest;
            var d := Excess(log, total, rest);
            Forgotten(lib, log, total, s, e) == [d] + Forgotten(lib, log, total, rest[Min(d, |rest|)..], e)
  {
    hide ParseRequest, KeepAlive, Excess;
  }

  lemma DropsEnd(lib: Library, log0: seq<nat>, log: seq<nat>, total: nat, s0: bytes, e: Ending,
                 drops: seq<nat>, s: bytes)
    requires Stable(lib) && Drops(lib, log0, total, s0, e, drops, s) && log0 <= log
    ensures drops <= Forgotten(lib, log, total, s0, e)
    ensures !GoesOn(lib, s, e) ==> drops == Forgotten(lib, log, total, s0, e)
  {
    hide ParseRequest, KeepAlive, Excess;
    var more := log[|log0|..];
    assert log0 + more == log;
    assert DropsWith(lib, log0, more, total, s0, e, drops, s);
    assert drops + [] == drops;
  }

  /** `parser.reset()` in the kimojio loop; the tokio loop has nothing here. */
  method Forget(parser: HttpParser) returns (dropped: nat)
    requires parser.Valid()
    modifies parser
    ensures parser.Valid() && parser.buf == old(parser.buf)
    ensures dropped == if parser.flavour.Kimojio? then old(parser.len) else 0
    ensures dropped <= |old(parser.Pending())| && parser.Pending() == old(parser.Pending())[dropped..]
    ensures parser.len == if parser.flavour.Kimojio? then 0 else old(parser.len)
  {
    dropped := 0;
    if parser.flavour.Kimojio? {
      dropped := parser.len;
      parser.Reset();
    }
  }

  predicate AllZero(drops: seq<nat>) {
    forall i :: 0 <= i < |drops| ==> drops[i] == 0
  }

  /** What both loops know between two requests. */
  ghost predicate Between(lib: Library, app: App, parser: HttpParser, writer: Writer, s0: bytes,
                          calls: seq<Request>, replies: seq<Response>, drops: seq<nat>)
    requires Stable(lib)
    reads parser, parser.buf, parser.reader, writer
  {
    && parser.Valid() && parser.reader.Total() == |s0|
    && Follows(lib, app, drops, s0, parser.reader.ending, calls, replies, parser.Pending())
    && |calls| == |replies| && writer.sent == Wire(app, replies) && writer.errors == []
    && (parser.flavour.Tokio? ==> AllZero(drops))
    && (parser.flavour.Kimojio? && Prompt(lib) ==>
          parser.len == 0 && Drops(lib, parser.reader.log, |s0|, s0, parser.reader.ending, drops, parser.Pending()))
  }

  /**
   Either loop: the handler calls, the bytes written and the result are those of `Serve` for the
   amounts dropped. The tokio loop drops nothing. With a head parser that recognises a head at its
   last byte, the kimojio loop drops exactly what `Forgotten` says of the stream and the sizes of its
   reads, up to the request whose reply could not be written.
   */
  method HandleConnection(lib: Library, app: App, reader: Reader, writer: Writer, flavour: Flavour)
      returns (calls: seq<Request>, end: Result<()>, drops: seq<nat>)
    requires Stable(lib) && writer.sent == [] && writer.errors == [] && reader.log == []
    modifies reader, writer
    ensures Matches(app, Serve(lib, app, [], drops, old(reader.rest), reader.ending),
                    calls, end, writer.sent, writer.errors)
    ensures WellAnswered(app, [], Serve(lib, app, [], drops, old(reader.rest), reader.ending))
    ensures flavour.Tokio? ==> AllZero(drops)
    ensures flavour.Kimojio? && Prompt(lib) ==>
              var all := Forgotten(lib, reader.log, |old(reader.rest)|, old(reader.rest), reader.ending);
              drops <= all && (writer.errors == [] ==> drops == all)
  {
    assert Wire(app, []) == [] && Sum([]) == 0;
    hide Serve, Follows, Wire, Reply, ParseRequest, KeepAlive, Matches, Stable, Drops, Forgotten, Between, WellAnswered;
    ghost var s0, e := reader.rest, reader.ending;
    var parser := new HttpParser(reader, flavour);
    ghost var replies: seq<Response> := [];
    calls, drops := [], [];
    Opening(lib, app, parser, writer);
    while true
      invariant parser.reader == reader && parser.flavour == flavour && fresh(parser) && fresh(parser.buf)
      invariant Between(lib, app, parser, writer, s0, calls, replies, drops)
      decreases |parser.Pending()|
    {
      var round, dropped := NextRound(lib, app, parser, writer, s0, calls, replies, drops);
      if round.Ended? {
        ServeWell(lib, app, [], drops, s0, e);
        return calls + round.calls, round.end, drops;
      }
      calls := calls + [round.request];
      replies := replies + [Reply(app, calls)];
      drops := drops + [dropped];
    }
  }

  lemma Opening(lib: Library, app: App, parser: HttpParser, writer: Writer)
    requires Stable(lib) && parser.Valid() && parser.len == 0 && parser.reader.log == []
    requires parser.Pending() == parser.reader.rest && writer.sent == [] && writer.errors == []
    ensures Between(lib, app, parser, writer, parser.reader.rest, [], [], [])
  {
    hide Follows, Drops;
    var s := parser.reader.rest;
    FollowsStart(lib, app, s, parser.reader.ending);
    DropsStart(lib, |s|, s, parser.reader.ending);
  }

  /** One pass through the loop, with the reset at its end. */
  method NextRound(lib: Library, app: App, parser: HttpParser, writer: Writer, ghost s0: bytes,
                   calls: seq<Request>, ghost replies: seq<Response>, drops: seq<nat>)
      returns (round: Round, dropped: nat)
    requires Stable(lib) && Between(lib, app, parser, writer, s0, calls, replies, drops)
    modifies parser, parser.buf, parser.reader, writer
    ensures parser.Valid() && (parser.buf == old(parser.buf) || fresh(parser.buf))
    ensures var e := parser.reader.ending;
            && (round.Ended? ==>
                  && Matches(app, Serve(lib, app, [], drops, s0, e),
                             calls + round.calls, round.end, writer.sent, writer.errors)
                  && (parser.flavour.Tokio? ==> AllZero(drops))
                  && (parser.flavour.Kimojio? && Prompt(lib) ==>
                        var all := Forgotten(lib, parser.reader.log, |s0|, s0, e);
                        drops <= all && (writer.errors == [] ==> drops == all)))
            && (round.Again? ==>
                  && |parser.Pending()| < |old(parser.Pending())|
                  && Between(lib, app, parser, writer, s0, calls + [round.request],
                             replies + [Reply(app, calls + [round.request])], drops + [dropped]))
  {
    hide Serve, Follows, Wire, Reply, ParseRequest, KeepAlive, Matches, Stable, Drops, Forgotten, Lean;
    ghost var s, e, sent, log := parser.Pending(), parser.reader.ending, writer.sent, parser.reader.log;
    dropped := 0;
    round := OneRound(lib, app, parser, writer, calls);
    if round.Ended? {
      Conclude(lib, app, drops, s0, e, calls, replies, s, round, sent, writer.sent, writer.errors);
      if parser.flavour.Kimojio? && Prompt(lib) {
        DropsEnd(lib, log, parser.reader.log, |s0|, s0, e, drops, s);
      }
      return;
    }
    ParseRequestShrinks(lib, s, e);
    ghost var len, unread := parser.len, |parser.reader.rest|;
    dropped := Forget(parser);
    FollowsNext(lib, app, drops, s0, e, calls, replies, s, dropped);
    WireAppend(app, replies, [Reply(app, calls + [round.request])]);
    if parser.flavour.Kimojio? && Prompt(lib) {
      DropsNext(lib, log, parser.reader.log, |s0|, s0, e, drops, s, len, unread);
    }
  }

  // ---------------------------------------------------------------- what is answered

  /**
   A reply on a connection that is kept is the handler's response. One that ends the connection says so
   in its only Connection field, and is the handler's in everything else.
   */
  predicate AnsweredWell(app: App, past: seq<Request>, request: Request, reply: Response) {
    var response := app.handler(past + [request]);
    if KeepAlive(request) then reply == response
    else
      && ValuesOf(reply.fields, CONNECTION) == [CLOSE]
      && Without(reply.fields, CONNECTION) == Without(response.fields, CONNECTION)
      && reply.version == response.version && reply.status == response.status && reply.body == response.body
  }

  /** A 400 that says so and closes. */
  predicate Refused(app: App, error: ParseError, reply: Response) {
    && reply.status == 400 && reply.version == Http11
    && ValuesOf(reply.fields, CONNECTION) == [CLOSE] && Without(reply.fields, CONNECTION) == []
    && reply.body == PARSE_ERROR_LABEL + app.describe(error)
  }

  /**
   Every call is answered well, in order, and only the last one may have closed the connection. Besides,
   there is a last reply, a 400, if and only if the stream was malformed or broke; a stream that just ends
   is neither, and a panic answers nothing.
   */
  predicate WellAnswered(app: App, past: seq<Request>, t: Transcript) {
    && |t.calls| <= |t.replies| <= |t.calls| + 1
    && (forall i :: 0 <= i < |t.calls| ==> AnsweredWell(app, past + t.calls[..i], t.calls[i], t.replies[i]))
    && (forall i :: 0 <= i < |t.calls| - 1 ==> KeepAlive(t.calls[i]))
    && (t.calls != [] && !KeepAlive(t.calls[|t.calls| - 1]) ==> t.end == Ok(()))
    && (|t.replies| > |t.calls| <==> t.end.Err? && t.end.error != CapacityOverflow)
    && (|t.replies| > |t.calls| ==> Refused(app, t.end.error, t.replies[|t.calls|]))
    && t.end != Err(ConnectionClosed)
  }

  lemma ReplyAnswers(app: App, past: seq<Request>, request: Request)
    ensures AnsweredWell(app, past, request, Reply(app, past + [request]))
  {
    var response := app.handler(past + [request]);
    assert (past + [request])[|past|] == request;
    SetFieldSets(response.fields, CONNECTION, CLOSE);
  }

  lemma RefusalRefuses(app: App, error: ParseError)
    ensures Refused(app, error, BadRequest(app, error))
  {
    var f := Field(CONNECTION, CLOSE);
    assert [f][1..] == [];
  }

  lemma RefuseWell(app: App, past: seq<Request>, error: ParseError)
    ensures WellAnswered(app, past, Refuse(app, error))
  {
    RefusalRefuses(app, error);
    hide Refused, BadRequest;
  }

  lemma OneWell(app: App, past: seq<Request>, request: Request)
    ensures !KeepAlive(request) ==>
              WellAnswered(app, past, Transcript([request], [Reply(app, past + [request])], Ok(())))
  {
    ReplyAnswers(app, past, request);
    assert past + [request][..0] == past;
    hide AnsweredWell, KeepAlive;
  }

  lemma ContinueWell(app: App, past: seq<Request>, request: Request, t: Transcript)
    requires KeepAlive(request) && WellAnswered(app, past + [request], t)
    ensures WellAnswered(app, past, Continue(request, Reply(app, past + [request]), t))
  {
    hide AnsweredWell, KeepAlive, Refused, Reply;
    var u := Continue(request, Reply(app, past + [request]), t);
    ReplyAnswers(app, past, request);
    assert past + u.calls[..0] == past;
    forall i | 1 <= i < |u.calls| ensures AnsweredWell(app, past + u.calls[..i], u.calls[i], u.replies[i]) {
      assert u.calls[..i] == [request] + t.calls[..i - 1];
      assert past + u.calls[..i] == past + [request] + t.calls[..i - 1];
      assert AnsweredWell(app, past + [request] + t.calls[..i - 1], t.calls[i - 1], t.replies[i - 1]);
    }
  }

  /** Every connection is answered well, whatever arrives on it and whatever is dropped. */
  lemma {:induction false} ServeWell(lib: Library, app: App, past: seq<Request>, drops: seq<nat>, s: bytes, e: Ending)
    requires Stable(lib)
    ensures WellAnswered(app, past, Serve(lib, app, past, drops, s, e))
    decreases |s|
  {
    hide ParseRequest, KeepAlive, Reply, Refuse, WellAnswered;
    match ParseRequest(lib, s, e) {
      case NoRequest =>
        QuietWell(app, past);
      case Rejected(error) =>
        RefuseWell(app, past, error);
      case Got(request, rest) =>
        ParseRequestShrinks(lib, s, e);
        OneWell(app, past, request);
        if KeepAlive(request) {
          ServeWell(lib, app, past + [request], Later(drops), AfterDrop(drops, rest), e);
          ContinueWell(app, past, request,
                       Serve(lib, app, past + [request], Later(drops), AfterDrop(drops, rest), e));
        }
    }
  }

  lemma QuietWell(app: App, past: seq<Request>)
    ensures WellAnswered(app, past, Transcript([], [], Ok(())))
  {
  }

  // ---------------------------------------------------------------- what the runs say

  /** Forgetting nothing at each request is the same as never forgetting. */
  lemma {:induction false} NoDrops(lib: Library, app: App, past: seq<Request>, drops: seq<nat>, s: bytes, e: Ending)
    requires Stable(lib) && AllZero(drops)
    ensures Serve(lib, app, past, drops, s, e) == Serve(lib, app, past, [], s, e)
    decreases |s|
  {
    hide Reply, KeepAlive, ParseRequest, Refuse;
    var parsed := ParseRequest(lib, s, e);
    if parsed.Got? {
      ParseRequestShrinks(lib, s, e);
      assert AfterDrop(drops, parsed.rest) == parsed.rest;
      NoDrops(lib, app, past + [parsed.request], Later(drops), parsed.rest, e);
    }
  }

  /** `enc` holds exactly the one request. */
  ghost predicate Delimits(lib: Library, enc: bytes, request: Request)
    requires Stable(lib)
  {
    ParseRequest(lib, enc, Eof) == Got(request, [])
  }

  ghost predicate AllDelimit(lib: Library, encs: seq<bytes>, requests: seq<Request>)
    requires Stable(lib)
  {
    |encs| == |requests| && forall i :: 0 <= i < |encs| ==> Delimits(lib, encs[i], requests[i])
  }

  /** How many of the requests are answered: up to the first that does not keep the connection alive. */
  function Answered(requests: seq<Request>): (n: nat)
    ensures n <= |requests|
    ensures forall i :: 0 <= i < n - 1 ==> KeepAlive(requests[i])
    ensures n < |requests| ==> n > 0 && !KeepAlive(requests[n - 1])
  {
    if requests == [] then 0
    else if !KeepAlive(requests[0]) then 1
    else 1 + Answered(requests[1..])
  }

  function Replies(app: App, past: seq<Request>, requests: seq<Request>): (r: seq<Response>)
    ensures |r| == |requests|
    decreases |requests|
  {
    if requests == [] then []
    else [Reply(app, past + [requests[0]])] + Replies(app, past + [requests[0]], requests[1..])
  }

  /** Whether every answered request keeps the connection alive. */
  predicate StaysOpen(requests: seq<Request>) {
    forall i :: 0 <= i < |requests| ==> KeepAlive(requests[i])
  }

  lemma DelimitedFirst(lib: Library, enc: bytes, request: Request, x: bytes, e: Ending)
    requires Stable(lib) && Delimits(lib, enc, request)
    ensures ParseRequest(lib, enc + x, e) == Got(request, x)
  {
    ParseRequestExtends(lib, enc, x, Eof, e);
    assert [] + x == x;
  }

  /**
   Pipelining (section 9.3.2 of RFC 9112): on any concatenation of requests the handler is called
   once per request, in order, and the replies are written in that order; the connection ends
   right after the first request that is not keep-alive, and otherwise goes on with the tail.
   */
  lemma {:induction false} Pipelined(lib: Library, app: App, past: seq<Request>, encs: seq<bytes>,
                                     requests: seq<Request>, tail: bytes, e: Ending)
    requires Stable(lib) && AllDelimit(lib, encs, requests)
    ensures var n := Answered(requests);
            Serve(lib, app, past, [], Concat(encs) + tail, e) ==
            if StaysOpen(requests)
            then Extend(requests, Replies(app, past, requests), Serve(lib, app, past + requests, [], tail, e))
            else Transcript(requests[..n], Replies(app, past, requests[..n]), Ok(()))
    decreases |encs|
  {
    hide Reply, KeepAlive, ParseRequest;
    var s := Concat(encs) + tail;
    if encs == [] {
      assert s == tail && past + requests == past;
      ExtendNothing(Serve(lib, app, past, [], tail, e));
    } else {
      var request, rest := requests[0], Concat(encs[1..]) + tail;
      assert Delimits(lib, encs[0], request);
      assert s == encs[0] + rest;
      DelimitedFirst(lib, encs[0], request, rest, e);
      assert StaysOpen(requests) ==> KeepAlive(request);
      PipelinedStep(lib, app, past, encs[0], request, rest, e);
      if KeepAlive(request) {
        Pipelined(lib, app, past + [request], encs[1..], requests[1..], tail, e);
        PipelinedJoin(lib, app, past, requests, tail, e);
      } else {
        assert requests[..1] == [request];
        assert Replies(app, past, [request]) == [Reply(app, past + [request])] + Replies(app, past + [request], []);
      }
    }
  }

  lemma ExtendNothing(t: Transcript)
    ensures Extend([], [], t) == t
  {
  }

  lemma PipelinedStep(lib: Library, app: App, past: seq<Request>, enc: bytes, request: Request, rest: bytes, e: Ending)
    requires Stable(lib) && ParseRequest(lib, enc + rest, e) == Got(request, rest)
    ensures Serve(lib, app, past, [], enc + rest, e) ==
            if KeepAlive(request)
            then Continue(request, Reply(app, past + [request]), Serve(lib, app, past + [request], [], rest, e))
            else Transcript([request], [Reply(app, past + [request])], Ok(()))
  {
  }

  lemma PipelinedJoin(lib: Library, app: App, past: seq<Request>, requests: seq<Request>, tail: bytes, e: Ending)
    requires Stable(lib) && requests != [] && KeepAlive(requests[0])
    ensures var request, n := requests[0], Answered(requests);
            var reply := Reply(app, past + [request]);
            && StaysOpen(requests) == StaysOpen(requests[1..])
            && Continue(request, reply, Extend(requests[1..], Replies(app, past + [request], requests[1..]),
                                               Serve(lib, app, past + [request] + requests[1..], [], tail, e)))
               == Extend(requests, Replies(app, past, requests), Serve(lib, app, past + requests, [], tail, e))
            && n == 1 + Answered(requests[1..])
            && Continue(request, reply, Transcript(requests[1..][..n - 1],
                                                   Replies(app, past + [request], requests[1..][..n - 1]), Ok(())))
               == Transcript(requests[..n], Replies(app, past, requests[..n]), Ok(()))
  {
    hide Reply, KeepAlive, Serve;
    var request, n := requests[0], Answered(requests);
    assert past + [request] + requests[1..] == past + requests;
    assert [request] + requests[1..] == requests;
    assert [request] + requests[1..][..n - 1] == requests[..n];
    assert requests[..n][1..] == requests[1..][..n - 1];
    assert StaysOpen(requests[1..]) ==> StaysOpen(requests) by {
      assert forall i :: 1 <= i < |requests| ==> requests[i] == requests[1..][i - 1];
    }
    ExtendContinue([], [], request, Reply(app, past + [request]),
                   Extend(requests[1..], Replies(app, past + [request], requests[1..]),
                          Serve(lib, app, past + requests, [], tail, e)));
  }

  /**
   What the kimojio loop forgets might as well never have been sent: a run in which it drops what is
   buffered behind a request is the run on the stream without those bytes.
   */
  lemma ForgottenIsNeverSent(lib: Library, app: App, past: seq<Request>, first: bytes, one: Request,
                             buffered: bytes, tail: bytes, later: seq<nat>, e: Ending)
    requires Stable(lib) && Delimits(lib, first, one)
    ensures Serve(lib, app, past, [|buffered|] + later, first + (buffered + tail), e)
         == Serve(lib, app, past, [0] + later, first + tail, e)
  {
    hide ParseRequest, Reply, KeepAlive, Delimits;
    DelimitedFirst(lib, first, one, buffered + tail, e);
    DelimitedFirst(lib, first, one, tail, e);
    assert (buffered + tail)[|buffered|..] == tail && tail[0..] == tail;
    assert ([|buffered|] + later)[1..] == later && ([0] + later)[1..] == later;
  }

  /** A stream of keep-alive requests and nothing else: every one is handed over, and the end is clean. */
  lemma ServeAllOpen(lib: Library, app: App, encs: seq<bytes>, requests: seq<Request>)
    requires Stable(lib) && lib.parse([]).Partial?
    requires AllDelimit(lib, encs, requests) && StaysOpen(requests)
    ensures Serve(lib, app, [], [], Concat(encs), Eof) == Transcript(requests, Replies(app, [], requests), Ok(()))
  {
    hide Reply, KeepAlive, Delimits;
    Pipelined(lib, app, [], encs, requests, [], Eof);
    assert Concat(encs) + [] == Concat(encs) && [] + requests == requests;
    var none: bytes := [];
    assert none[..0] == none;
    assert ParseRequest(lib, none, Eof) == NoRequest;
    assert Serve(lib, app, requests, [], [], Eof) == Transcript([], [], Ok(()));
  }

  /**
   A stream of keep-alive requests whose last one is cut short: that one is never handed over and nothing
   is said of it, and the connection ends cleanly after the replies to the others.
   */
  lemma CutRequestIgnored(lib: Library, app: App, encs: seq<bytes>, requests: seq<Request>,
                          enc: bytes, request: Request, k: nat)
    requires Stable(lib) && AllDelimit(lib, encs, requests) && StaysOpen(requests)
    requires Delimits(lib, enc, request) && k < |enc|
    ensures Serve(lib, app, [], [], Concat(encs) + enc[..k], Eof)
         == Transcript(requests, Replies(app, [], requests), Ok(()))
  {
    hide Reply, KeepAlive, ParseRequest;
    Pipelined(lib, app, [], encs, requests, enc[..k], Eof);
    Truncated(lib, enc, k, Eof);
    assert Serve(lib, app, requests, [], enc[..k], Eof) == Transcript([], [], Ok(()));
    assert [] + requests == requests;
  }

  // ---------------------------------------------------------------- well-formed requests

  datatype Body = NoBody | Fixed(data: bytes) | Chunks(chunks: seq<bytes>)

  function BodyBytes(body: Body): bytes {
    match body
    case NoBody => []
    case Fixed(data) => data
    case Chunks(chunks) => EncodeChunks(chunks)
  }

  function BodyData(body: Body): bytes {
    match body
    case NoBody => []
    case Fixed(data) => data
    case Chunks(chunks) => Concat(chunks)
  }

  /** The headers announce the body in the way section 6.3 of RFC 9112 asks for. */
  predicate Announces(headers: Headers, body: Body) {
    match body
    case NoBody => !IsChunked(headers) && ContentLength(headers).None?
    case Fixed(data) => !IsChunked(headers) && ContentLength(headers) == Some(|data|) && |data| <= ISIZE_MAX
    case Chunks(chunks) =>
      IsChunked(headers) && forall i :: 0 <= i < |chunks| ==> 0 < |chunks[i]| <= ISIZE_MAX
  }

  /** A complete head of at most 64 KB followed by the body it announces is one request. */
  lemma WellFormedDelimits(lib: Library, head: bytes, raw: RawHead, h: Head, body: Body)
    requires Stable(lib) && |head| <= MAX_BUF_SIZE
    requires lib.parse(head) == Complete(raw, |head|) && Convert(lib, raw) == Ok(h)
    requires lib.validUri(h.uri) && Announces(h.headers, body)
    ensures Delimits(lib, head + BodyBytes(body), Request(h.method_, h.uri, h.version, h.headers, BodyData(body)))
  {
    var s := head + BodyBytes(body);
    var n := Min(|s|, MAX_BUF_SIZE);
    StableWindow(lib, s, |head|, n);
    assert s[..|head|] == head && s[|head|..] == BodyBytes(body);
    if body.Chunks? {
      RoundTrip(body.chunks, [], Eof);
      assert EncodeChunks(body.chunks) + [] == EncodeChunks(body.chunks);
    }
  }

  /**
   A fixed body whose announced length no vector can have: the task panics without an answer, and apart
   from a stream that ends with that very error, it does so for no other length.
   */
  lemma HugeLengthPanics(lib: Library, app: App, past: seq<Request>, drops: seq<nat>, s: bytes, e: Ending, n: nat)
    requires Stable(lib) && ParseHead(lib, s, e).GotHead?
    requires var headers := ParseHead(lib, s, e).head.headers; !IsChunked(headers) && ContentLength(headers) == Some(n)
    ensures n > ISIZE_MAX ==>
              && ParseRequest(lib, s, e) == Rejected(CapacityOverflow)
              && Serve(lib, app, past, drops, s, e) == Transcript([], [], Err(CapacityOverflow))
    ensures e != Failed(CapacityOverflow) ==> (ParseRequest(lib, s, e) == Rejected(CapacityOverflow) <==> n > ISIZE_MAX)
  {
    hide IsChunked, ContentLength;
    HeadWithin(lib, s, e);
  }

  // ---------------------------------------------------------------- the tokio loop on a pipelined stream

  /**
   The tokio loop itself on any concatenation of requests: unless a write fails, it calls the handler for
   the requests up to and including the first that closes, in order, writes their replies in that order
   and ends cleanly; a failing write cuts this short.
   */
  method Converse(lib: Library, app: App, reader: Reader, writer: Writer, ghost encs: seq<bytes>,
                  ghost requests: seq<Request>) returns (calls: seq<Request>, end: Result<()>)
    requires Stable(lib) && lib.parse([]).Partial? && AllDelimit(lib, encs, requests)
    requires reader.rest == Concat(encs) && reader.ending.Eof? && reader.log == []
    requires writer.sent == [] && writer.errors == []
    modifies reader, writer
    ensures var answered := requests[..Answered(requests)];
            if writer.errors == []
            then calls == answered && end == Ok(()) && writer.sent == Wire(app, Replies(app, [], answered))
            else |writer.errors| == 1 && calls != [] && calls <= answered && end == Err(Io(writer.errors[0]))
  {
    ghost var s := reader.rest;
    ConverseAs(lib, app, encs, requests);
    hide Serve, AllDelimit, Stable, Wire, Answered;
    var made, ended, drops := HandleConnection(lib, app, reader, writer, Tokio);
    NoDrops(lib, app, [], drops, s, Eof);
    calls, end := made, ended;
  }

  lemma ConverseAs(lib: Library, app: App, encs: seq<bytes>, requests: seq<Request>)
    requires Stable(lib) && lib.parse([]).Partial? && AllDelimit(lib, encs, requests)
    ensures var answered := requests[..Answered(requests)];
            Serve(lib, app, [], [], Concat(encs), Eof) == Transcript(answered, Replies(app, [], answered), Ok(()))
  {
    hide Reply, KeepAlive, Delimits, Serve;
    if StaysOpen(requests) {
      ServeAllOpen(lib, app, encs, requests);
      assert Answered(requests) == |requests|;
      assert requests[..|requests|] == requests;
    } else {
      Pipelined(lib, app, [], encs, requests, [], Eof);
      assert Concat(encs) + [] == Concat(encs);
    }
  }

  // ---------------------------------------------------------------- two parsers side by side

  /** Two parsers of any flavour and any two read schedules over one stream agree. */
  method TwoSchedules(lib: Library, p: HttpParser, q: HttpParser)
      returns (a: Result<Option<Request>>, b: Result<Option<Request>>)
    requires Stable(lib) && p.Valid() && q.Valid()
    requires p != q && p.buf != q.buf && p.reader != q.reader
    requires p.Pending() == q.Pending() && p.reader.ending == q.reader.ending
    modifies p, p.buf, p.reader, q, q.buf, q.reader
    ensures p.Valid() && q.Valid() && a == b
    ensures match ParseRequest(lib, old(p.Pending()), p.reader.ending)
            case NoRequest => a == Ok(None)
            case Rejected(error) => a == Err(error)
            case Got(request, rest) => a == Ok(Some(request)) && p.Pending() == q.Pending() == rest
  {
    hide ParseRequest;
    a := p.ParseRequest(lib);
    b := q.ParseRequest(lib);
  }
}
