/**
 What becomes of listeners and dropped streams over whole runs of the reactor: when a listener has a
 socket in LISTEN, when it can never accept again, and when the reset of a dropped stream is lost.
 */
module SocketRuns {
  import opened Bytes
  import opened TcpState
  import opened Sockets

  // ---------------------------------------------------------------- resets of dropped streams

  lemma {:induction false} FinishedMoves(slots: seq<Slot>, moves: seq<Move>, h: nat)
    requires FinishedIn(slots, h)
    ensures FinishedIn(MovedAll(slots, moves), h)
  {
    if moves != [] {
      FinishedMoves(slots, moves[..|moves| - 1], h);
    }
  }

  /** Neither segments nor timers bring a finished socket back. */
  lemma {:induction false} FinishedStays(slots: seq<Slot>, packets: seq<seq<Move>>, h: nat)
    requires FinishedIn(slots, h)
    ensures FinishedIn(MovedByAll(slots, packets), h)
  {
    if packets != [] {
      var n := |packets| - 1;
      FinishedStays(slots, packets[..n], h);
      FinishedMoves(MovedByAll(slots, packets[..n]), packets[n], h);
    }
  }

  /**
   Dropping a stream that is still active, and the next iteration of the reactor. The slot is free
   afterwards in any case, so the reset that the drop asked for has been transmitted by the one egress
   in between or is lost: it is lost if and only if there was a peer and that egress did not send it.
   */
  method DropThenIterate(r: Reactor, i: nat, batch: nat, packets: seq<seq<Move>>, out: set<nat>)
      returns (resetLost: bool)
    requires r.Valid() && i < |r.owners| && r.owners[i].Stream?
    requires r.owners[i].handle < |r.slots| && r.slots[r.owners[i].handle].Tcp?
    requires !ShutDown(r.slots[r.owners[i].handle].state)
    modifies r
    ensures var h := old(r.owners[i].handle);
            && r.Valid() && h < |r.slots| && r.slots[h].Free? && h !in r.orphaned
            && (resetLost <==> !old(r.slots[r.owners[i].handle].state).Listen? && h !in out)
  {
    assert DueClosed(r.slots);
    hide Reactor.Valid, IterateStep, ResetsDue;
    var h := r.owners[i].handle;
    var early := r.DropStream(i);
    ghost var v := r.View();
    InDue(v.slots, v.orphaned, h);
    FinishedOrphanGoes(v, h, batch, packets, out);
    var calls, processed, lost := r.Iterate(batch, packets, out);
    resetLost := h in lost;
  }

  lemma InDue(slots: seq<Slot>, orphans: seq<nat>, h: nat)
    requires h < |slots| && slots[h].Tcp? && h in orphans
    ensures h in ResetsDue(slots, orphans) <==> slots[h].rstDue
  {
  }

  /** A finished orphan is gone after the next iteration. */
  lemma FinishedOrphanGoes(v: ReactorView, h: nat, batch: nat, packets: seq<seq<Move>>, out: set<nat>)
    requires FinishedIn(v.slots, h) && h in v.orphaned
    ensures var t := IterateStep(v, batch, packets, out);
            h < |t.slots| && t.slots[h].Free? && h !in t.orphaned
  {
    hide Unfinished, MovedByAll;
    var taken := packets[..Min(|packets|, Max(1, batch))];
    FinishedStays(v.slots, taken, h);
    FinishedLeaves(Transmitted(MovedByAll(v.slots, taken), out), v.orphaned, h);
  }

  // ---------------------------------------------------------------- a listener that is not listening

  /** One SYN for each of the first `syns` sockets of a pool. */
  function Syns(syns: nat): (packets: seq<seq<Move>>)
    ensures |packets| == syns && forall k :: 0 <= k < syns ==> packets[k] == [Move(k, SynReceived)]
  {
    seq(syns, k requires 0 <= k < syns => [Move(k, SynReceived)])
  }

  /** A listener is bound, and the reactor takes in that many SYNs in one iteration. */
  function SynBurst(port: nat, backlog: nat, syns: nat): seq<Action> {
    [DoBind(port, backlog), DoIterate(syns, Syns(syns), {})]
  }

  /** A pool of `n` sockets, the first `syns` of which have received a SYN. */
  function PoolAfter(n: nat, syns: nat): (slots: seq<Slot>)
    ensures |slots| == n
    ensures forall k :: 0 <= k < n ==> slots[k] == Tcp(if k < syns then SynReceived else Listen, false)
  {
    seq(n, k => Tcp(if k < syns then SynReceived else Listen, false))
  }

  function Upto(n: nat): (handles: seq<nat>)
    ensures |handles| == n && forall k :: 0 <= k < n ==> handles[k] == k
  {
    seq(n, k => k)
  }

  lemma {:induction false} NoneFree(slots: seq<Slot>)
    requires forall h :: 0 <= h < |slots| ==> !slots[h].Free?
    ensures FirstFree(slots) == |slots|
  {
    if slots != [] {
      NoneFree(slots[1..]);
    }
  }

  lemma {:induction false} FirstPool(n: nat)
    ensures WithPool([], n) == PoolAfter(n, 0) && PoolHandles([], n) == Upto(n)
  {
    if n > 0 {
      FirstPool(n - 1);
      NoneFree(PoolAfter(n - 1, 0));
      assert PoolAfter(n, 0) == PoolAfter(n - 1, 0) + [Tcp(Listen, false)];
      assert Upto(n) == Upto(n - 1) + [n - 1];
    }
  }

  lemma {:induction false} SynsMove(n: nat, syns: nat)
    requires syns <= n
    ensures MovedByAll(PoolAfter(n, 0), Syns(syns)) == PoolAfter(n, syns)
  {
    if syns > 0 {
      var k := syns - 1;
      SynsMove(n, k);
      assert Syns(syns)[..k] == Syns(k);
      var move := Move(k, SynReceived);
      OneMove(PoolAfter(n, k), move);
      assert PoolAfter(n, k)[k := Tcp(SynReceived, false)] == PoolAfter(n, syns);
    }
  }

  lemma OneMove(slots: seq<Slot>, move: Move)
    ensures MovedAll(slots, [move]) == Moved(slots, move)
  {
    assert [move][..0] == [];
  }

  /** One burst on a fresh listener: it leaves a socket in LISTEN if and only if it is shorter than the pool. */
  lemma BurstExhausts(port: nat, backlog: nat, syns: nat)
    requires port != 0 && syns <= Max(1, backlog)
    ensures var v, n := RunReactor(EMPTY, SynBurst(port, backlog, syns)), Max(1, backlog);
            && v.owners == [Listener(Upto(n), port, backlog)] && v.slots == PoolAfter(n, syns)
            && ((exists h: nat :: ListeningIn(v.slots, h)) <==> syns < n)
  {
    var script, n, packets := SynBurst(port, backlog, syns), Max(1, backlog), Syns(syns);
    FirstPool(n);
    var bound := ReactorView(PoolAfter(n, 0), [], [Listener(Upto(n), port, backlog)], 0);
    assert StepReactor(EMPTY, DoBind(port, backlog)) == bound;
    hide StepReactor;
    RunOneMore(EMPTY, script, 0);
    RunOneMore(EMPTY, script, 1);
    assert script[..0] == [] && script[..2] == script;
    assert packets[..Min(syns, Max(1, syns))] == packets;
    SynsMove(n, syns);
    ReactorIterates(bound, syns, packets);
    if syns < n {
      assert ListeningIn(PoolAfter(n, syns), syns);
    }
  }

  /** Without orphans an iteration only moves sockets and transmits. */
  lemma ReactorIterates(v: ReactorView, batch: nat, packets: seq<seq<Move>>)
    requires v.orphaned == []
    ensures StepReactor(v, DoIterate(batch, packets, {})) ==
            v.(slots := MovedByAll(v.slots, packets[..Min(|packets|, Max(1, batch))]), egresses := v.egresses + 1)
  {
    var moved := MovedByAll(v.slots, packets[..Min(|packets|, Max(1, batch))]);
    assert Transmitted(moved, {}) == moved;
    NothingUnfinished(moved, []);
  }

  // ---------------------------------------------------------------- when a listener is ready

  predicate InListen(slots: seq<Slot>, h: nat) {
    h < |slots| && slots[h].Tcp? && slots[h].state.Listen?
  }

  /** How many sockets of a pool are out of LISTEN. */
  function Out(slots: seq<Slot>, handles: seq<nat>): (n: nat)
    ensures n <= |handles|
  {
    if handles == [] then 0
    else
      var last := |handles| - 1;
      Out(slots, handles[..last]) + if InListen(slots, handles[last]) then 0 else 1
  }

  /** Some socket of the pool can take a SYN. */
  predicate Ready(slots: seq<Slot>, handles: seq<nat>) {
    exists k :: 0 <= k < |handles| && InListen(slots, handles[k])
  }

  lemma {:induction false} ReadyIffNotAllOut(slots: seq<Slot>, handles: seq<nat>)
    ensures Ready(slots, handles) <==> Out(slots, handles) < |handles|
  {
    hide InListen;
    if handles != [] {
      var last := |handles| - 1;
      ReadyIffNotAllOut(slots, handles[..last]);
      assert handles == handles[..last] + [handles[last]];
      if Ready(slots, handles[..last]) {
        var k :| 0 <= k < last && InListen(slots, handles[..last][k]);
        assert InListen(slots, handles[k]);
      }
      if Ready(slots, handles) && !InListen(slots, handles[last]) {
        var k :| 0 <= k < |handles| && InListen(slots, handles[k]);
        assert handles[..last][k] == handles[k];
      }
    }
  }

  lemma {:induction false} OutSame(a: seq<Slot>, b: seq<Slot>, handles: seq<nat>)
    requires forall h :: h in handles ==> (InListen(a, h) <==> InListen(b, h))
    ensures Out(a, handles) == Out(b, handles)
  {
    hide InListen;
    if handles != [] {
      var last := |handles| - 1;
      assert handles[last] in handles && forall h :: h in handles[..last] ==> h in handles;
      OutSame(a, b, handles[..last]);
    }
  }

  /** A change of one socket changes the count by that socket only. */
  lemma {:induction false} OutChange(a: seq<Slot>, b: seq<Slot>, handles: seq<nat>, x: nat)
    requires Distinct(handles) && forall h :: h in handles && h != x ==> (InListen(a, h) <==> InListen(b, h))
    ensures Out(b, handles) == Out(a, handles) +
            if x !in handles || InListen(a, x) == InListen(b, x) then 0 else if InListen(a, x) then 1 else -1
  {
    hide InListen;
    if handles != [] {
      var last := |handles| - 1;
      var h := handles[last];
      assert h in handles && forall y :: y in handles[..last] ==> y in handles;
      assert handles == handles[..last] + [h];
      assert h !in handles[..last] by {
        assert forall j :: 0 <= j < last ==> handles[..last][j] == handles[j];
      }
      OutChange(a, b, handles[..last], x);
    }
  }

  /** What moves sockets of a pool out of LISTEN and back: SYNs, connections that fall back, and accepts. */
  datatype Flow = Flow(syns: nat, backs: nat, accepts: nat)

  const NO_FLOW: Flow := Flow(0, 0, 0)

  function Plus(a: Flow, b: Flow): Flow {
    Flow(a.syns + b.syns, a.backs + b.backs, a.accepts + b.accepts)
  }

  function MoveFlow(slots: seq<Slot>, move: Move, handles: seq<nat>): Flow {
    var h := move.handle;
    if h !in handles || h >= |slots| || !slots[h].Tcp? || !Moves(slots[h].state, move.to) then NO_FLOW
    else if slots[h].state.Listen? then Flow(1, 0, 0)
    else if move.to.Listen? then Flow(0, 1, 0)
    else NO_FLOW
  }

  function MovesFlow(slots: seq<Slot>, moves: seq<Move>, handles: seq<nat>): Flow {
    if moves == [] then NO_FLOW
    else
      var n := |moves| - 1;
      Plus(MovesFlow(slots, moves[..n], handles), MoveFlow(MovedAll(slots, moves[..n]), moves[n], handles))
  }

  function PacketsFlow(slots: seq<Slot>, packets: seq<seq<Move>>, handles: seq<nat>): Flow {
    if packets == [] then NO_FLOW
    else
      var n := |packets| - 1;
      Plus(PacketsFlow(slots, packets[..n], handles), MovesFlow(MovedByAll(slots, packets[..n]), packets[n], handles))
  }

  /** What one action does to the pool of listener `i`. */
  function StepFlow(v: ReactorView, i: nat, action: Action): Flow
    requires i < |v.owners| && v.owners[i].Listener?
  {
    match action
    case DoIterate(batch, packets, _) =>
      PacketsFlow(v.slots, packets[..Min(|packets|, Max(1, batch))], v.owners[i].handles)
    case DoAccept(j) => if j == i && AcceptOutcome(v, i).Accepted? then Flow(0, 0, 1) else NO_FLOW
    case _ => NO_FLOW
  }

  function RunFlow(v: ReactorView, i: nat, script: seq<Action>): Flow {
    if script == [] then NO_FLOW
    else
      var n := |script| - 1;
      var before := RunReactor(v, script[..n]);
      Plus(RunFlow(v, i, script[..n]),
           if i < |before.owners| && before.owners[i].Listener? then StepFlow(before, i, script[n]) else NO_FLOW)
  }

  /** SYNs take sockets out of LISTEN; accepts and connections that fall back bring sockets into it. */
  predicate Balanced(before: nat, after: nat, f: Flow) {
    after + f.backs + f.accepts == before + f.syns
  }

  lemma MoveBalanced(slots: seq<Slot>, move: Move, handles: seq<nat>)
    requires Distinct(handles)
    ensures Balanced(Out(slots, handles), Out(Moved(slots, move), handles), MoveFlow(slots, move, handles))
  {
    OutChange(slots, Moved(slots, move), handles, move.handle);
  }

  lemma {:induction false} MovesBalanced(slots: seq<Slot>, moves: seq<Move>, handles: seq<nat>)
    requires Distinct(handles)
    ensures Balanced(Out(slots, handles), Out(MovedAll(slots, moves), handles), MovesFlow(slots, moves, handles))
  {
    hide Moved, MoveFlow, Out;
    if moves != [] {
      var n := |moves| - 1;
      MovesBalanced(slots, moves[..n], handles);
      MoveBalanced(MovedAll(slots, moves[..n]), moves[n], handles);
    }
  }

  lemma {:induction false} PacketsBalanced(slots: seq<Slot>, packets: seq<seq<Move>>, handles: seq<nat>)
    requires Distinct(handles)
    ensures Balanced(Out(slots, handles), Out(MovedByAll(slots, packets), handles),
                     PacketsFlow(slots, packets, handles))
  {
    hide MovedAll, MovesFlow, Out;
    if packets != [] {
      var n := |packets| - 1;
      PacketsBalanced(slots, packets[..n], handles);
      MovesBalanced(MovedByAll(slots, packets[..n]), packets[n], handles);
    }
  }

  /** A TCP socket that belongs to object `i` and to nothing else. */
  ghost predicate Mine(v: ReactorView, i: nat, h: nat) {
    && h < |v.slots| && v.slots[h].Tcp?
    && h !in v.orphaned
    && forall j :: 0 <= j < |v.owners| && j != i ==> !Holds(v.owners[j], h)
  }

  ghost predicate OwnsPool(v: ReactorView, i: nat) {
    && i < |v.owners| && v.owners[i].Listener? && Distinct(v.owners[i].handles)
    && forall h :: h in v.owners[i].handles ==> Mine(v, i, h)
  }

  /** In a valid reactor the pool of a listener belongs to it alone. */
  lemma ValidOwnsPool(r: Reactor, i: nat)
    requires r.Valid() && i < |r.owners| && r.owners[i].Listener?
    ensures OwnsPool(r.View(), i)
  {
    r.PoolDistinct(i);
    hide Held, LiveBag, Reactor.Valid;
    var pool := r.owners[i].handles;
    forall h | h in pool ensures Mine(r.View(), i, h) {
      r.HandleLive(i, TcpKind, h);
      forall j | 0 <= j < |r.owners| && j != i ensures !Holds(r.owners[j], h) {
        if h in HandlesOf(r.owners[j], TcpKind) {
          r.Exclusive(i, j, TcpKind, h);
        } else if h in HandlesOf(r.owners[j], UdpKind) {
          r.HandleLive(j, UdpKind, h);
        }
      }
    }
  }

  /** Outside the reactor's iterations nothing but its owner touches a socket. */
  lemma SlotStays(v: ReactorView, i: nat, h: nat, action: Action)
    requires i < |v.owners| && v.owners[i].Listener? && Mine(v, i, h)
    requires action != DoDrop(i) && !action.DoIterate?
    ensures h < |v.slots| && h < |StepReactor(v, action).slots| && StepReactor(v, action).slots[h] == v.slots[h]
  {
    match action {
      case DoConnect(ok) => Reactor.AddedKeeps(v.slots, Tcp(SynSent, false));
      case DoBind(port, backlog) => Reactor.PoolListens(v.slots, Max(1, backlog));
      case DoAccept(j) => Reactor.AddedKeeps(v.slots, Tcp(Listen, false));
      case DoBindUdp(ok) => Reactor.AddedKeeps(v.slots, Udp);
      case DoDrop(j) =>
        if j < |v.owners| {
          assert !Holds(v.owners[j], h);
        }
      case DoIterate(_, _, _) =>
      case _ =>
        if action.i < |v.owners| && v.owners[action.i].Stream? {
          assert !Holds(v.owners[action.i], h);
        }
    }
  }

  /** An iteration changes the socket as packets and timers do; egress and cleanup leave its state alone. */
  lemma SlotIterates(v: ReactorView, i: nat, h: nat, batch: nat, packets: seq<seq<Move>>, out: set<nat>)
    requires Mine(v, i, h)
    ensures var moved := MovedByAll(v.slots, packets[..Min(|packets|, Max(1, batch))]);
            InListen(IterateStep(v, batch, packets, out).slots, h) <==> InListen(moved, h)
  {
    hide MovedByAll;
  }

  /** Accepting from the pool trades a socket that is out of LISTEN for one that is in it. */
  lemma AcceptBalanced(v: ReactorView, i: nat)
    requires OwnsPool(v, i)
    ensures var w := AcceptStep(v, i);
            && i < |w.owners| && w.owners[i].Listener? && w.owners[i].backlog == v.owners[i].backlog
            && |w.owners[i].handles| == |v.owners[i].handles|
            && Balanced(Out(v.slots, v.owners[i].handles), Out(w.slots, w.owners[i].handles),
                        if AcceptOutcome(v, i).Accepted? then Flow(0, 0, 1) else NO_FLOW)
  {
    var pool, found := v.owners[i].handles, FirstEstablished(v.slots, v.owners[i].handles);
    if found.Some? {
      var k, fresh_ := found.value, FirstFree(v.slots);
      var slots := Added(v.slots, Tcp(Listen, false));
      Reactor.AddedKeeps(v.slots, Tcp(Listen, false));
      forall h | h in pool ensures InListen(v.slots, h) <==> InListen(slots, h) {
        assert Mine(v, i, h);
      }
      OutSame(v.slots, slots, pool);
      hide FirstEstablished, FirstFree, Added, Mine;
      OutReplace(slots, pool, k, fresh_);
    }
  }

  lemma {:induction false} OutReplace(slots: seq<Slot>, handles: seq<nat>, k: nat, h: nat)
    requires k < |handles|
    ensures Out(slots, handles[k := h]) + (if InListen(slots, handles[k]) then 0 else 1)
         == Out(slots, handles) + if InListen(slots, h) then 0 else 1
  {
    hide InListen;
    var last := |handles| - 1;
    if k < last {
      OutReplace(slots, handles[..last], k, h);
      assert handles[k := h][..last] == handles[..last][k := h];
    } else {
      assert handles[k := h][..last] == handles[..last];
    }
  }

  /** One action other than dropping the listener, and the sockets of its pool that are out of LISTEN. */
  lemma StepBalanced(v: ReactorView, i: nat, action: Action)
    requires OwnsPool(v, i) && action != DoDrop(i)
    ensures var w := StepReactor(v, action);
            && i < |w.owners| && w.owners[i].Listener? && w.owners[i].backlog == v.owners[i].backlog
            && |w.owners[i].handles| == |v.owners[i].handles|
            && Balanced(Out(v.slots, v.owners[i].handles), Out(w.slots, w.owners[i].handles), StepFlow(v, i, action))
  {
    hide Mine, FirstEstablished, Added, WithPool, PoolHandles, FirstFree, Out, MovedByAll, PacketsFlow, AcceptOutcome;
    var pool, w := v.owners[i].handles, StepReactor(v, action);
    if action == DoAccept(i) {
      AcceptBalanced(v, i);
      hide AcceptStep;
    } else if action.DoIterate? {
      var taken := action.packets[..Min(|action.packets|, Max(1, action.batch))];
      forall h | h in pool ensures InListen(w.slots, h) <==> InListen(MovedByAll(v.slots, taken), h) {
        assert Mine(v, i, h);
        SlotIterates(v, i, h, action.batch, action.packets, action.out);
      }
      OutSame(w.slots, MovedByAll(v.slots, taken), pool);
      PacketsBalanced(v.slots, taken, pool);
    } else {
      forall h | h in pool ensures InListen(w.slots, h) <==> InListen(v.slots, h) {
        assert Mine(v, i, h);
        SlotStays(v, i, h, action);
      }
      OutSame(w.slots, v.slots, pool);
    }
  }

  lemma PlusBalanced(a: nat, b: nat, c: nat, f: Flow, g: Flow)
    requires Balanced(a, b, f) && Balanced(b, c, g)
    ensures Balanced(a, c, Plus(f, g))
  {
  }

  lemma RunFlowStep(v: ReactorView, i: nat, script: seq<Action>, k: nat)
    requires k < |script|
    ensures var before := RunReactor(v, script[..k]);
            i < |before.owners| && before.owners[i].Listener? ==>
              RunFlow(v, i, script[..k + 1]) == Plus(RunFlow(v, i, script[..k]), StepFlow(before, i, script[k]))
  {
    hide StepFlow, RunReactor;
    assert script[..k + 1][..k] == script[..k];
  }

  /**
   Any run in which the listener is not dropped. Its pool keeps its size, and the number of its sockets
   that are out of LISTEN changes by SYNs, accepts and connections that fall back, and by nothing else;
   the listener is ready for a SYN if and only if that number is below max(1, backlog).
   */
  method ListenerRun(r: Reactor, i: nat, script: seq<Action>)
    requires r.Valid() && i < |r.owners| && r.owners[i].Listener?
    requires forall k :: 0 <= k < |script| ==> script[k] != DoDrop(i)
    modifies r
    ensures r.Valid() && r.View() == RunReactor(old(r.View()), script)
    ensures i < |r.owners| && r.owners[i].Listener? && r.owners[i].backlog == old(r.owners[i].backlog)
    ensures Balanced(Out(old(r.slots), old(r.owners[i].handles)), Out(r.slots, r.owners[i].handles),
                     RunFlow(old(r.View()), i, script))
    ensures Ready(r.slots, r.owners[i].handles) <==> Out(r.slots, r.owners[i].handles) < Max(1, r.owners[i].backlog)
    ensures Ready(r.slots, r.owners[i].handles) ==> !AcceptOutcome(r.View(), i).AllDead?
  {
    hide StepReactor, RunReactor, Out, RunFlow, StepFlow, OwnsPool, Plus, Balanced, Reactor.Partition;
    ghost var v, start := r.View(), Out(r.slots, r.owners[i].handles);
    NothingRun(v, i, script[..0], start);
    for k := 0 to |script|
      invariant r.Valid() && r.View() == RunReactor(v, script[..k])
      invariant i < |r.owners| && r.owners[i].Listener? && r.owners[i].backlog == old(r.owners[i].backlog)
      invariant Balanced(start, Out(r.slots, r.owners[i].handles), RunFlow(v, i, script[..k]))
    {
      ValidOwnsPool(r, i);
      StepBalanced(r.View(), i, script[k]);
      PlusBalanced(start, Out(r.slots, r.owners[i].handles),
                   Out(StepReactor(r.View(), script[k]).slots, StepReactor(r.View(), script[k]).owners[i].handles),
                   RunFlow(v, i, script[..k]), StepFlow(r.View(), i, script[k]));
      RunFlowStep(v, i, script, k);
      RunOneMore(v, script, k);
      Perform(r, script[k]);
    }
    assert script[..|script|] == script;
    ReadyIffNotAllOut(r.slots, r.owners[i].handles);
    ReadyNeverFails(r.View(), i);
  }

  /** An accept never fails while some socket of the pool can take a SYN. */
  lemma ReadyNeverFails(v: ReactorView, i: nat)
    requires i < |v.owners| && v.owners[i].Listener?
    ensures Ready(v.slots, v.owners[i].handles) ==> !AcceptOutcome(v, i).AllDead?
    ensures AcceptOutcome(v, i).AllDead? ==> AllFinished(v.slots, v.owners[i].handles)
  {
    hide FirstEstablished;
    var pool := v.owners[i].handles;
    if Ready(v.slots, pool) {
      var k :| 0 <= k < |pool| && InListen(v.slots, pool[k]);
      assert !FinishedIn(v.slots, pool[k]);
    }
  }

  lemma NothingRun(v: ReactorView, i: nat, none: seq<Action>, n: nat)
    requires none == []
    ensures RunReactor(v, none) == v && Balanced(n, n, RunFlow(v, i, none))
  {
  }

  /**
   So from the moment it is bound, whatever happens, a listener has a socket in LISTEN if and only if it
   has received fewer SYNs than max(1, backlog) and the accepts and fallen-back connections together;
   fewer SYNs than the backlog are always few enough.
   */
  method ReadyIffBacklogLeft(r: Reactor, port: nat, backlog: nat, script: seq<Action>)
    requires r.Valid() && port != 0 && forall k :: 0 <= k < |script| ==> script[k] != DoDrop(|r.owners|)
    modifies r
    ensures var i, bound := |old(r.owners)|, StepReactor(old(r.View()), DoBind(port, backlog));
            var f := RunFlow(bound, i, script);
            && r.Valid() && r.View() == RunReactor(bound, script)
            && i < |r.owners| && r.owners[i].Listener?
            && (Ready(r.slots, r.owners[i].handles) <==> f.syns < Max(1, backlog) + f.backs + f.accepts)
            && (f.syns < backlog ==> Ready(r.slots, r.owners[i].handles))
            && (f.syns < backlog ==> !AcceptOutcome(r.View(), i).AllDead?)
  {
    hide RunReactor, Out, RunFlow, WithPool, PoolHandles, Reactor.Valid, ListeningIn;
    var i := |r.owners|;
    var listener, handles := r.BindWithBacklog(port, backlog);
    AllListening(r.slots, handles);
    ListenerRun(r, i, script);
  }

  lemma {:induction false} AllListening(slots: seq<Slot>, handles: seq<nat>)
    requires forall k :: 0 <= k < |handles| ==> ListeningIn(slots, handles[k])
    ensures Out(slots, handles) == 0
  {
    if handles != [] {
      AllListening(slots, handles[..|handles| - 1]);
    }
  }

  // ---------------------------------------------------------------- a listener that is dead for good

  predicate Holds(o: Owner, h: nat) {
    match o
    case Gone => false
    case Stream(x) => x == h
    case Listener(handles, _, _) => h in handles
    case Datagram(x) => x == h
  }

  /** A finished socket that belongs to object `i` and to nothing else. */
  ghost predicate DeadAt(v: ReactorView, i: nat, h: nat) {
    && FinishedIn(v.slots, h)
    && h !in v.orphaned
    && forall j :: 0 <= j < |v.owners| && j != i ==> !Holds(v.owners[j], h)
  }

  ghost predicate DeadPool(v: ReactorView, i: nat) {
    && i < |v.owners| && v.owners[i].Listener?
    && forall h :: h in v.owners[i].handles ==> DeadAt(v, i, h)
  }

  lemma AddedElsewhere(slots: seq<Slot>, slot: Slot, h: nat)
    requires FinishedIn(slots, h)
    ensures FinishedIn(Added(slots, slot), h) && FirstFree(slots) != h
  {
  }

  lemma PoolElsewhere(slots: seq<Slot>, n: nat, h: nat)
    requires FinishedIn(slots, h)
    ensures FinishedIn(WithPool(slots, n), h) && h !in PoolHandles(slots, n)
  {
    Reactor.PoolListens(slots, n);
  }

  lemma AddKeepsDead(v: ReactorView, i: nat, h: nat, slots: seq<Slot>, o: Owner)
    requires DeadAt(v, i, h) && i < |v.owners| && FinishedIn(slots, h) && !Holds(o, h)
    ensures DeadAt(v.(slots := slots, owners := v.owners + [o]), i, h)
  {
  }

  lemma AcceptKeepsDead(v: ReactorView, i: nat, h: nat, j: nat)
    requires DeadAt(v, i, h) && i < |v.owners| && j < |v.owners| && j != i && v.owners[j].Listener?
    ensures DeadAt(AcceptStep(v, j), i, h)
  {
    hide FirstEstablished;
    var pool := v.owners[j].handles;
    var found := FirstEstablished(v.slots, pool);
    if found.Some? {
      var k, renewed := found.value, v.owners[j].(handles := pool[found.value := FirstFree(v.slots)]);
      AddedElsewhere(v.slots, Tcp(Listen, false), h);
      assert !Holds(v.owners[j], h);
      assert pool[k] in pool;
      assert !Holds(renewed, h) by {
        assert forall x :: x in renewed.handles ==> x in pool || x == FirstFree(v.slots);
      }
      hide Added, FirstFree;
      var w := v.(owners := v.owners[j := renewed]);
      assert DeadAt(w, i, h);
      AddKeepsDead(w, i, h, Added(v.slots, Tcp(Listen, false)), Stream(pool[k]));
    }
  }

  lemma DropKeepsDead(v: ReactorView, i: nat, h: nat, j: nat)
    requires DeadAt(v, i, h) && i < |v.owners| && j < |v.owners| && j != i
    ensures DeadAt(DropStep(v, j), i, h)
  {
    assert !Holds(v.owners[j], h);
  }

  lemma IterateKeepsDead(v: ReactorView, i: nat, h: nat, batch: nat, packets: seq<seq<Move>>, out: set<nat>)
    requires DeadAt(v, i, h)
    ensures DeadAt(IterateStep(v, batch, packets, out), i, h)
  {
    var taken := packets[..Min(|packets|, Max(1, batch))];
    FinishedStays(v.slots, taken, h);
    var sent := Transmitted(MovedByAll(v.slots, taken), out);
    UnfinishedSubset(sent, v.orphaned);
  }

  lemma CallKeepsDead(v: ReactorView, i: nat, h: nat, j: nat, action: Action)
    requires DeadAt(v, i, h)
    ensures DeadAt(CallStep(v, j, action), i, h)
  {
  }

  /** Nothing but dropping the listener touches its dead pool. */
  lemma StepKeepsDead(v: ReactorView, i: nat, action: Action)
    requires DeadPool(v, i) && action != DoDrop(i)
    ensures DeadPool(StepReactor(v, action), i) && StepReactor(v, action).owners[i] == v.owners[i]
  {
    var t := StepReactor(v, action);
    SameOwner(v, i, action);
    forall h | h in v.owners[i].handles ensures DeadAt(t, i, h) {
      assert DeadAt(v, i, h);
      StepKeepsDeadAt(v, i, h, action);
    }
  }

  lemma SameOwner(v: ReactorView, i: nat, action: Action)
    requires DeadPool(v, i) && action != DoDrop(i)
    ensures i < |StepReactor(v, action).owners| && StepReactor(v, action).owners[i] == v.owners[i]
  {
    NothingEstablished(v, i);
    hide FirstEstablished, Added, WithPool, PoolHandles, MovedByAll, DeadAt;
  }

  lemma NothingEstablished(v: ReactorView, i: nat)
    requires DeadPool(v, i)
    ensures AcceptStep(v, i) == v && AcceptOutcome(v, i) == AllDead
  {
    var pool := v.owners[i].handles;
    forall k | 0 <= k < |pool| ensures FinishedIn(v.slots, pool[k]) && !EstablishedIn(v.slots, pool[k]) {
      assert DeadAt(v, i, pool[k]);
    }
  }

  lemma StepKeepsDeadAt(v: ReactorView, i: nat, h: nat, action: Action)
    requires DeadPool(v, i) && h in v.owners[i].handles && DeadAt(v, i, h) && action != DoDrop(i)
    ensures DeadAt(StepReactor(v, action), i, h)
  {
    NothingEstablished(v, i);
    AddedElsewhere(v.slots, Udp, h);
    AddedElsewhere(v.slots, Tcp(SynSent, false), h);
    hide AcceptStep, DropStep, IterateStep, CallStep, Added, WithPool, PoolHandles, FirstFree, DeadPool, DeadAt;
    match action {
      case DoConnect(ok) =>
        AddKeepsDead(v, i, h, Added(v.slots, Tcp(SynSent, false)), Stream(FirstFree(v.slots)));
      case DoBind(port, backlog) =>
        var n := Max(1, backlog);
        PoolElsewhere(v.slots, n, h);
        AddKeepsDead(v, i, h, WithPool(v.slots, n), Listener(PoolHandles(v.slots, n), port, backlog));
      case DoAccept(j) =>
        if j < |v.owners| && v.owners[j].Listener? && j != i {
          AcceptKeepsDead(v, i, h, j);
        }
      case DoDrop(j) =>
        if j < |v.owners| {
          DropKeepsDead(v, i, h, j);
        }
      case DoBindUdp(ok) =>
        AddKeepsDead(v, i, h, Added(v.slots, Udp), Datagram(FirstFree(v.slots)));
      case DoIterate(batch, packets, out) => IterateKeepsDead(v, i, h, batch, packets, out);
      case _ =>
        if action.i < |v.owners| && v.owners[action.i].Stream? {
          CallKeepsDead(v, i, h, v.owners[action.i].handle, action);
        }
    }
  }

  lemma {:induction false} RunKeepsDead(v: ReactorView, i: nat, script: seq<Action>)
    requires DeadPool(v, i) && forall k :: 0 <= k < |script| ==> script[k] != DoDrop(i)
    ensures DeadPool(RunReactor(v, script), i)
  {
    hide DeadPool, StepReactor;
    if script != [] {
      var n := |script| - 1;
      RunKeepsDead(v, i, script[..n]);
      StepKeepsDead(RunReactor(v, script[..n]), i, script[n]);
    }
  }

  lemma OwnDeadPool(r: Reactor, i: nat)
    requires r.Valid() && i < |r.owners| && r.owners[i].Listener? && AllFinished(r.slots, r.owners[i].handles)
    ensures DeadPool(r.View(), i)
  {
    hide Reactor.Valid;
    ValidOwnsPool(r, i);
    var pool := r.owners[i].handles;
    forall h | h in pool ensures DeadAt(r.View(), i, h) {
      assert Mine(r.View(), i, h);
      var k :| 0 <= k < |pool| && pool[k] == h;
      assert FinishedIn(r.slots, pool[k]);
    }
  }

  /**
   Once every socket of a listener's pool is closed or in TIME-WAIT, nothing that can happen revives
   it: whatever the run, the next accept fails, until the listener itself is dropped.
   */
  lemma DeadForGood(r: Reactor, i: nat, script: seq<Action>)
    requires r.Valid() && i < |r.owners| && r.owners[i].Listener? && AllFinished(r.slots, r.owners[i].handles)
    requires forall k :: 0 <= k < |script| ==> script[k] != DoDrop(i)
    ensures var v := RunReactor(r.View(), script);
            i < |v.owners| && v.owners[i].Listener? && AcceptOutcome(v, i) == AllDead
  {
    hide Reactor.Valid, RunReactor, AcceptStep, AcceptOutcome;
    OwnDeadPool(r, i);
    RunKeepsDead(r.View(), i, script);
    NothingEstablished(RunReactor(r.View(), script), i);
  }
}
