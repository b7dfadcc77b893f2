/**
 Which pipelined requests the kimojio loop loses by resetting its parser after every request: a
 function of where the reads end in the stream, with the exact condition for losing none.
 */
module HttpReset {
  import opened Bytes
  import opened HttpMessage
  import opened HttpSpec
  import opened HttpParser
  import opened HttpConnection

  lemma NothingLeft(lib: Library, app: App, past: seq<Request>, drops: seq<nat>, log: seq<nat>, total: nat)
    requires Stable(lib) && lib.parse([]).Partial?
    ensures Serve(lib, app, past, drops, [], Eof) == Transcript([], [], Ok(()))
    ensures Forgotten(lib, log, total, [], Eof) == []
  {
    var none: bytes := [];
    assert none[..0] == none;
    assert ParseRequest(lib, none, Eof) == NoRequest;
  }

  /**
   If one read delivers several requests, only the first one is handed over and all the others are
   forgotten, while the tokio loop makes every call.
   */
  lemma BufferedRequestsAreLost(lib: Library, app: App, first: bytes, one: Request,
                                encs: seq<bytes>, requests: seq<Request>)
    requires Stable(lib) && lib.parse([]).Partial?
    requires Delimits(lib, first, one) && AllDelimit(lib, encs, requests) && StaysOpen([one] + requests)
    ensures var s := first + Concat(encs);
            var drops := Forgotten(lib, [|s|], |s|, s, Eof);
            && drops == [|Concat(encs)|]
            && Serve(lib, app, [], drops, s, Eof).calls == [one]
            && Serve(lib, app, [], [], s, Eof).calls == [one] + requests
  {
    hide ParseRequest, Reply, KeepAlive, Delimits;
    var rest := Concat(encs);
    var s := first + rest;
    assert KeepAlive(one) by { assert ([one] + requests)[0] == one; }
    DelimitedFirst(lib, first, one, rest, Eof);
    ParseRequestShrinks(lib, s, Eof);
    OneReadReaches(|first|, |s|);
    NothingLeft(lib, app, [one], [], [|s|], |s|);
    assert rest[|rest|..] == [] && [|rest|][1..] == [];
    assert AllDelimit(lib, [first] + encs, [one] + requests);
    ServeAllOpen(lib, app, [first] + encs, [one] + requests);
    assert ([first] + encs)[1..] == encs;
  }

  lemma OneReadReaches(q: nat, n: nat)
    requires 0 < q <= n
    ensures Reach([n], q) == n
  {
    hide Sum;
    var none: seq<nat> := [];
    NoReads();
    SumSnoc(none, n);
    ReachNow(none, n, q);
    assert none + [n] == [n];
  }

  lemma NoReads()
    ensures Sum([]) == 0
  {
  }

  /**
   The kimojio loop itself on such a stream. Unless a write fails, its calls are those of the run that
   forgets what stream and reads determine; if one read delivered everything, there is one call.
   */
  method BufferedRun(lib: Library, app: App, reader: Reader, writer: Writer, ghost first: bytes, ghost one: Request,
                     ghost encs: seq<bytes>, ghost requests: seq<Request>) returns (calls: seq<Request>)
    requires Stable(lib) && Prompt(lib) && lib.parse([]).Partial?
    requires Delimits(lib, first, one) && AllDelimit(lib, encs, requests) && StaysOpen([one] + requests)
    requires reader.rest == first + Concat(encs) && reader.ending.Eof? && reader.log == []
    requires writer.sent == [] && writer.errors == []
    modifies reader, writer
    ensures var s := old(reader.rest);
            writer.errors == [] ==>
              && calls == Serve(lib, app, [], Forgotten(lib, reader.log, |s|, s, Eof), s, Eof).calls
              && (reader.log == [|s|] ==> calls == [one])
  {
    hide Delimits, AllDelimit, StaysOpen, Serve, Forgotten, Wire, Stable, Prompt;
    BufferedRequestsAreLost(lib, app, first, one, encs, requests);
    var made, end, drops := HandleConnection(lib, app, reader, writer, Kimojio);
    calls := made;
  }

  /** Whether some of the first reads together end exactly at `q`; see `ReachLeast`. */
  predicate AtRead(log: seq<nat>, q: nat) {
    Reach(log, q) == q
  }

  /** Whether each of the requests, the first of them starting at `before`, ends where a read ends. */
  predicate EndAtReads(log: seq<nat>, before: nat, encs: seq<bytes>)
    decreases |encs|
  {
    encs == [] || (AtRead(log, before + |encs[0]|) && EndAtReads(log, before + |encs[0]|, encs[1..]))
  }

  lemma NothingToForget(lib: Library, log: seq<nat>, total: nat, e: Ending)
    requires Stable(lib)
    ensures Forgotten(lib, log, total, [], e) == []
  {
    hide ParseRequest;
    if ParseRequest(lib, [], e).Got? {
      ParseRequestShrinks(lib, [], e);
    }
  }

  lemma NoExcess(log: seq<nat>, total: nat, rest: bytes)
    requires |rest| <= total && total - |rest| <= Reach(log, total - |rest|)
    ensures Excess(log, total, rest) == 0 <==> AtRead(log, total - |rest|)
  {
    hide Reach;
  }

  lemma AllZeroCons(d: nat, later: seq<nat>)
    ensures AllZero([d] + later) <==> d == 0 && AllZero(later)
  {
    var all := [d] + later;
    assert all[0] == d;
    assert forall i :: 0 <= i < |later| ==> later[i] == all[i + 1];
  }

  /** Nothing is forgotten if and only if every request ends where a read ends. */
  lemma {:induction false} NothingForgotten(lib: Library, log: seq<nat>, before: nat, encs: seq<bytes>,
                                            requests: seq<Request>, e: Ending)
    requires Stable(lib) && AllDelimit(lib, encs, requests) && StaysOpen(requests)
    requires before + |Concat(encs)| <= Sum(log)
    ensures AllZero(Forgotten(lib, log, before + |Concat(encs)|, Concat(encs), e)) <==> EndAtReads(log, before, encs)
    decreases |encs|
  {
    hide ParseRequest, KeepAlive, Delimits, Reach, Sum, Excess;
    var s, total := Concat(encs), before + |Concat(encs)|;
    if encs == [] {
      NothingToForget(lib, log, total, e);
    } else {
      var rest := Concat(encs[1..]);
      assert Delimits(lib, encs[0], requests[0]);
      DelimitedFirst(lib, encs[0], requests[0], rest, e);
      var k := ReachLeast(log, before + |encs[0]|);
      var d := Excess(log, total, rest);
      assert d == 0 <==> AtRead(log, before + |encs[0]|) by { NoExcess(log, total, rest); }
      var later := Forgotten(lib, log, total, rest[Min(d, |rest|)..], e);
      assert Forgotten(lib, log, total, s, e) == [d] + later;
      AllZeroCons(d, later);
      if d == 0 {
        NothingForgotten(lib, log, before + |encs[0]|, encs[1..], requests[1..], e);
      }
    }
  }

  /** How many requests a drop skips; the last one is never skipped, since there is nothing behind it. */
  function Skip(skips: seq<nat>, n: nat): (k: nat)
    requires n > 0
    ensures k < n
  {
    if skips == [] then 0 else Min(skips[0], n - 1)
  }

  /** The requests that are handed over when `skips[i]` requests are forgotten after the i-th of them. */
  function Kept(skips: seq<nat>, requests: seq<Request>): (r: seq<Request>)
    ensures |r| <= |requests|
    decreases |requests|
  {
    if requests == [] then []
    else [requests[0]] + Kept(Later(skips), requests[1 + Skip(skips, |requests|)..])
  }

  /** The same in bytes. */
  function SkippedBytes(skips: seq<nat>, encs: seq<bytes>): seq<nat>
    decreases |encs|
  {
    if encs == [] then []
    else
      var k := Skip(skips, |encs|);
      [|Concat(encs[1..1 + k])|] + SkippedBytes(Later(skips), encs[1 + k..])
  }

  lemma {:induction false} ConcatSplit(parts: seq<bytes>, k: nat)
    requires k <= |parts|
    ensures Concat(parts) == Concat(parts[..k]) + Concat(parts[k..])
  {
    if k == 0 {
      assert parts[..0] == [] && parts[0..] == parts;
    } else {
      ConcatSplit(parts[1..], k - 1);
      assert parts[..k][1..] == parts[1..][..k - 1] && parts[1..][k - 1..] == parts[k..];
      var p := parts[0];
      var front, back := Concat(parts[1..][..k - 1]), Concat(parts[k..]);
      assert p + (front + back) == p + front + back;
    }
  }

  /** A drop is 0 exactly when it skips no request. */
  lemma SkipsNothing(lib: Library, skips: seq<nat>, encs: seq<bytes>, requests: seq<Request>)
    requires Stable(lib) && AllDelimit(lib, encs, requests) && encs != []
    ensures |Concat(encs[1..1 + Skip(skips, |encs|)])| == 0 <==> Skip(skips, |encs|) == 0
  {
    hide ParseRequest;
    var k := Skip(skips, |encs|);
    if k > 0 {
      assert Delimits(lib, encs[1], requests[1]);
      ParseRequestShrinks(lib, encs[1], Eof);
      assert encs[1..1 + k][0] == encs[1];
    } else {
      assert encs[1..1] == [];
    }
  }

  /**
   When every drop ends where a request ends, the loop hands over exactly the requests that were not
   skipped; it hands over all of them if and only if every drop is 0.
   */
  lemma {:induction false} BoundaryDrops(lib: Library, app: App, past: seq<Request>, skips: seq<nat>,
                                         encs: seq<bytes>, requests: seq<Request>)
    requires Stable(lib) && lib.parse([]).Partial? && AllDelimit(lib, encs, requests) && StaysOpen(requests)
    ensures Serve(lib, app, past, SkippedBytes(skips, encs), Concat(encs), Eof).calls == Kept(skips, requests)
    ensures Kept(skips, requests) == requests <==> AllZero(SkippedBytes(skips, encs))
    decreases |encs|
  {
    hide ParseRequest, Reply, KeepAlive, Delimits, Serve, Skip;
    if encs == [] {
      NothingLeft(lib, app, past, [], [], 0);
    } else {
      var k, request := Skip(skips, |encs|), requests[0];
      var skipped, kept := Concat(encs[1..][..k]), encs[1 + k..];
      assert encs[1..][..k] == encs[1..1 + k] && encs[1..][k..] == kept;
      var rest := skipped + Concat(kept);
      ConcatSplit(encs[1..], k);
      assert Concat(encs) == encs[0] + rest;
      assert Delimits(lib, encs[0], request);
      DelimitedFirst(lib, encs[0], request, rest, Eof);
      assert StaysOpen(requests[1 + k..]) && KeepAlive(request);
      assert rest[|skipped|..] == Concat(kept);
      var later := SkippedBytes(Later(skips), kept);
      ServeGoesOn(lib, app, past, |skipped|, later, Concat(encs), Eof);
      assert AllDelimit(lib, kept, requests[1 + k..]) by { TailDelimits(lib, encs, requests, 1 + k); }
      BoundaryDrops(lib, app, past + [request], Later(skips), kept, requests[1 + k..]);
      SkipsNothing(lib, skips, encs, requests);
      AllZeroCons(|skipped|, later);
      KeptAll(skips, requests);
    }
  }

  lemma TailDelimits(lib: Library, encs: seq<bytes>, requests: seq<Request>, k: nat)
    requires Stable(lib) && AllDelimit(lib, encs, requests) && k <= |encs|
    ensures AllDelimit(lib, encs[k..], requests[k..])
  {
    hide Delimits;
  }

  lemma KeptAll(skips: seq<nat>, requests: seq<Request>)
    requires requests != []
    ensures var k := Skip(skips, |requests|);
            Kept(skips, requests) == requests <==> k == 0 && Kept(Later(skips), requests[1..]) == requests[1..]
  {
    var k, kept := Skip(skips, |requests|), Kept(skips, requests);
    assert requests == [requests[0]] + requests[1..];
    if k == 0 {
      assert kept[1..] == Kept(Later(skips), requests[1..]);
    }
  }

  /**
   The kimojio loop on a pipelined stream of keep-alive requests, when no read cuts a request that it
   goes on to drop: it makes all the calls, as the tokio loop does, if and only if every request ends
   where a read ends.
   */
  lemma LosesNothingIff(lib: Library, app: App, log: seq<nat>, skips: seq<nat>,
                        encs: seq<bytes>, requests: seq<Request>)
    requires Stable(lib) && lib.parse([]).Partial? && AllDelimit(lib, encs, requests) && StaysOpen(requests)
    requires |Concat(encs)| <= Sum(log)
    requires Forgotten(lib, log, |Concat(encs)|, Concat(encs), Eof) == SkippedBytes(skips, encs)
    ensures var s := Concat(encs);
            && Serve(lib, app, [], [], s, Eof).calls == requests
            && (Serve(lib, app, [], Forgotten(lib, log, |s|, s, Eof), s, Eof).calls == requests
                <==> EndAtReads(log, 0, encs))
  {
    hide ParseRequest, Serve, Forgotten, Delimits, SkippedBytes, Kept, EndAtReads, Reach, Sum;
    ServeAllOpen(lib, app, encs, requests);
    BoundaryDrops(lib, app, [], skips, encs, requests);
    NothingForgotten(lib, log, 0, encs, requests, Eof);
  }
}
