/**
 TCP connection states (section 3.3.2 of RFC 9293) as smoltcp moves between them, the user calls on
 them, and the shutdown logic of dpdk-net/src/runtime/tokio_compat.rs and socket/tcp.rs.
 */
module TcpState {
  datatype State =
    | Closed | Listen | SynSent | SynReceived | Established
    | FinWait1 | FinWait2 | CloseWait | Closing | LastAck | TimeWait

  /** State changes that segments, resets and timers can cause (sections 3.6 and 3.10 of RFC 9293). */
  predicate Moves(a: State, b: State) {
    match a
    case Closed => false
    case Listen => b.SynReceived?
    case SynSent => b.Established? || b.SynReceived? || b.Closed?
    case SynReceived => b.Established? || b.CloseWait? || b.Listen? || b.Closed?
    case Established => b.CloseWait? || b.Closed?
    case FinWait1 => b.FinWait2? || b.Closing? || b.TimeWait? || b.Closed?
    case FinWait2 => b.TimeWait? || b.Closed?
    case CloseWait => b.Closed?
    case Closing => b.TimeWait? || b.Closed?
    case LastAck => b.Closed?
    case TimeWait => b.Closed?
  }

  /** `Socket::close`. */
  function AfterClose(s: State): State {
    match s
    case Listen => Closed
    case SynSent => Closed
    case SynReceived => FinWait1
    case Established => FinWait1
    case CloseWait => LastAck
    case _ => s
  }

  /** `Closed | TimeWait`: nothing more to wait for. */
  predicate Finished(s: State) {
    s.Closed? || s.TimeWait?
  }

  /** A graceful close is under way. */
  predicate MidClose(s: State) {
    s.FinWait1? || s.FinWait2? || s.Closing? || s.LastAck?
  }

  predicate ShutDown(s: State) {
    Finished(s) || MidClose(s)
  }

  /** How many more changes a shut-down connection can go through. */
  function Rank(s: State): nat {
    match s
    case FinWait1 => 3
    case FinWait2 => 2
    case Closing => 2
    case TimeWait => 1
    case LastAck => 1
    case _ => 0
  }

  /** What dropping a stream does to its socket. */
  datatype DropAction = RemoveNow | Orphan | AbortAndOrphan

  function OnDrop(s: State): DropAction {
    if Finished(s) then RemoveNow else if MidClose(s) then Orphan else AbortAndOrphan
  }

  /** An active connection is aborted, one that is closing becomes an orphan, a finished one is removed. */
  lemma DropExact(s: State)
    ensures OnDrop(s).AbortAndOrphan? <==> !ShutDown(s)
    ensures OnDrop(s).Orphan? <==> s in {FinWait1, FinWait2, Closing, LastAck}
    ensures OnDrop(s).RemoveNow? <==> s in {Closed, TimeWait}
  {
  }

  // ---------------------------------------------------------------- after a close

  /**
   The CLOSE call by state (section 3.10.4 of RFC 9293): a FIN is sent from SYN-RECEIVED, ESTABLISHED and
   CLOSE-WAIT, what has not begun is gone, and a second close changes nothing.
   */
  lemma CloseExact(s: State)
    ensures s in {Listen, SynSent} ==> AfterClose(s) == Closed
    ensures s in {SynReceived, Established} ==> AfterClose(s) == FinWait1
    ensures s == CloseWait ==> AfterClose(s) == LastAck
    ensures ShutDown(s) ==> AfterClose(s) == s
    ensures AfterClose(AfterClose(s)) == AfterClose(s)
  {
  }

  lemma CloseShutsDown(s: State)
    ensures ShutDown(AfterClose(s))
    ensures !OnDrop(AfterClose(s)).AbortAndOrphan?
  {
  }

  lemma MovesStayShutDown(a: State, b: State)
    requires ShutDown(a) && Moves(a, b)
    ensures ShutDown(b) && Rank(b) < Rank(a)
  {
  }

  /** One poll of `poll_shutdown`: the new state, whether `close` was called, whether it is done. */
  datatype Poll = Poll(state: State, closed: bool, ready: bool)

  function PollShutdown(s: State): Poll {
    if Finished(s) then Poll(s, false, true)
    else
      var t := if MidClose(s) then s else AfterClose(s);
      Poll(t, !MidClose(s), Finished(t))
  }

  /**
   One poll closes a stream that has not been shut down, and only such a one; it leaves it as a close
   does, and is ready exactly when there is nothing more to wait for.
   */
  lemma PollExact(s: State)
    ensures var p := PollShutdown(s);
            && (p.closed <==> !ShutDown(s))
            && p.state == AfterClose(s) && ShutDown(p.state)
            && (p.ready <==> Finished(p.state))
  {
  }

  /** What can happen to a stream that nobody aborts. */
  datatype Event = Segment(to: State) | PollIt | CloseIt

  /** State, number of `close` calls made by polls and of changes made by segments and timers since the first call. */
  datatype Life = Life(state: State, closes: nat, changes: nat, done: bool)

  function Happens(l: Life, event: Event): Life {
    match event
    case Segment(to) =>
      if Moves(l.state, to)
      then l.(state := to, changes := l.changes + if l.closes > 0 then 1 else 0)
      else l
    case PollIt =>
      var p := PollShutdown(l.state);
      Life(p.state, l.closes + (if p.closed then 1 else 0), l.changes, l.done || p.ready)
    case CloseIt => l.(state := AfterClose(l.state))
  }

  function Live(s: State, events: seq<Event>): Life {
    if events == [] then Life(s, 0, 0, false)
    else Happens(Live(s, events[..|events| - 1]), events[|events| - 1])
  }

  /**
   Whatever the peer and the timers do: `poll_shutdown` calls `close` at most once; from that call
   on the state is a shut-down one and changes at most three times; once a poll is ready the state
   is final; and dropping the stream then never aborts it.
   */
  lemma {:induction false} ShutdownOnce(s: State, events: seq<Event>)
    ensures var l := Live(s, events);
            && l.closes <= 1
            && (l.closes == 1 ==> ShutDown(l.state) && l.changes + Rank(l.state) <= 3)
            && (l.closes == 0 ==> l.changes == 0)
            && (l.done ==> Finished(l.state))
            && (l.closes == 1 || l.done ==> !OnDrop(l.state).AbortAndOrphan?)
  {
    if events != [] {
      var l, event := Live(s, events[..|events| - 1]), events[|events| - 1];
      ShutdownOnce(s, events[..|events| - 1]);
      match event
      case Segment(to) =>
        if Moves(l.state, to) && ShutDown(l.state) {
          MovesStayShutDown(l.state, to);
        }
      case PollIt => CloseShutsDown(l.state);
      case CloseIt =>
    }
  }

  /** Once it has been polled a stream is shut down for good, whatever happens before and after. */
  lemma {:induction false} PolledStaysShutDown(s: State, events: seq<Event>)
    ensures (exists i :: 0 <= i < |events| && events[i].PollIt?) ==> ShutDown(Live(s, events).state)
  {
    if events != [] {
      var n := |events| - 1;
      var l, event := Live(s, events[..n]), events[n];
      PolledStaysShutDown(s, events[..n]);
      assert forall i :: 0 <= i < n ==> events[..n][i] == events[i];
      match event
      case Segment(to) =>
        if Moves(l.state, to) && ShutDown(l.state) {
          MovesStayShutDown(l.state, to);
        }
      case PollIt => PollExact(l.state);
      case CloseIt => CloseExact(l.state);
    }
  }

  /** An explicit `close()` has the same effect from that point on. */
  lemma {:induction false} CloseIsForGood(s: State, events: seq<Event>)
    requires ShutDown(s)
    ensures ShutDown(Live(s, events).state) && Live(s, events).closes == 0
    ensures Rank(Live(s, events).state) <= Rank(s)
    ensures !OnDrop(Live(s, events).state).AbortAndOrphan?
  {
    if events != [] {
      var l, event := Live(s, events[..|events| - 1]), events[|events| - 1];
      CloseIsForGood(s, events[..|events| - 1]);
      if event.Segment? && Moves(l.state, event.to) {
        MovesStayShutDown(l.state, event.to);
      }
    }
  }
}
