/**
 The reactor's socket set and everything that owns a slot of it: TCP streams, listener pools,
 orphans left by dropped streams and UDP sockets. From dpdk-net/src/socket/tcp.rs, socket/udp.rs
 and runtime/reactor.rs. The peer, the timers and the executor may act between any two calls.
 */
module Sockets {
  import opened Bytes
  import opened TcpState

  /** `rstDue`: aborted, and the reset has not been transmitted yet. */
  datatype Slot = Free | Tcp(state: State, rstDue: bool) | Udp

  /** A live Rust object, or the place of one that has been dropped. */
  datatype Owner =
    | Gone
    | Stream(handle: nat)
    | Listener(handles: seq<nat>, port: nat, backlog: nat)
    | Datagram(handle: nat)

  datatype Kind = TcpKind | UdpKind

  function HandlesOf(o: Owner, kind: Kind): seq<nat> {
    match o
    case Gone => []
    case Stream(h) => if kind.TcpKind? then [h] else []
    case Listener(hs, _, _) => if kind.TcpKind? then hs else []
    case Datagram(h) => if kind.UdpKind? then [h] else []
  }

  /** All handles of one kind inside live objects, with multiplicity. */
  function Held(owners: seq<Owner>, kind: Kind): multiset<nat> {
    if owners == [] then multiset{}
    else Held(owners[..|owners| - 1], kind) + Has(owners[|owners| - 1], kind)
  }

  function Has(o: Owner, kind: Kind): multiset<nat> {
    multiset(HandlesOf(o, kind))
  }

  function LiveSlots(slots: seq<Slot>, kind: Kind): set<nat> {
    set h: nat | h < |slots| && IsKind(slots[h], kind)
  }

  /** The live slots of one kind, each once. */
  function LiveBag(slots: seq<Slot>, kind: Kind): multiset<nat> {
    multiset(LiveSlots(slots, kind))
  }

  predicate IsKind(s: Slot, kind: Kind) {
    if kind.TcpKind? then s.Tcp? else s.Udp?
  }

  lemma InBag(slots: seq<Slot>, kind: Kind, h: nat)
    ensures h in LiveBag(slots, kind) <==> h < |slots| && IsKind(slots[h], kind)
    ensures LiveBag(slots, kind)[h] <= 1
  {
  }

  /** The bag that a single slot contributes. */
  function One(s: Slot, kind: Kind, h: nat): multiset<nat> {
    if IsKind(s, kind) then multiset{h} else multiset{}
  }

  /** Replacing one slot changes the bags by that slot only. */
  lemma BagUpdate(slots: seq<Slot>, h: nat, s: Slot, kind: Kind)
    requires h < |slots|
    ensures LiveBag(slots[h := s], kind) + One(slots[h], kind, h) == LiveBag(slots, kind) + One(s, kind, h)
  {
    var a, b := LiveSlots(slots, kind), LiveSlots(slots[h := s], kind);
    forall x ensures x in a - {h} <==> x in b - {h} {
    }
    assert a - {h} == b - {h};
    SameButOne(a, b, h);
  }

  lemma SameButOne(a: set<nat>, b: set<nat>, h: nat)
    requires a - {h} == b - {h}
    ensures multiset(b) + (if h in a then multiset{h} else multiset{})
         == multiset(a) + (if h in b then multiset{h} else multiset{})
  {
    assert multiset(a) == multiset(a - {h}) + (if h in a then multiset{h} else multiset{});
    assert multiset(b) == multiset(b - {h}) + (if h in b then multiset{h} else multiset{});
  }

  lemma BagAppend(slots: seq<Slot>, s: Slot, kind: Kind)
    ensures LiveBag(slots + [s], kind) == LiveBag(slots, kind) + One(s, kind, |slots|)
  {
    var a, b := LiveSlots(slots, kind), LiveSlots(slots + [s], kind);
    assert b == a + if IsKind(s, kind) then {|slots|} else {};
    assert |slots| !in a;
  }

  lemma HeldSnoc(owners: seq<Owner>, o: Owner, kind: Kind)
    ensures Held(owners + [o], kind) == Held(owners, kind) + Has(o, kind)
  {
    assert (owners + [o])[..|owners|] == owners;
  }

  lemma {:induction false} HeldUpdate(owners: seq<Owner>, i: nat, o: Owner, kind: Kind)
    requires i < |owners|
    ensures Held(owners[i := o], kind) + Has(owners[i], kind) == Held(owners, kind) + Has(o, kind)
    decreases |owners|
  {
    hide Has;
    var n := |owners| - 1;
    if i < n {
      HeldUpdate(owners[..n], i, o, kind);
      assert owners[i := o][..n] == owners[..n][i := o];
      Exchange(Held(owners[..n][i := o], kind), Held(owners[..n], kind),
               Has(owners[i], kind), Has(o, kind), Has(owners[n], kind));
    } else {
      assert owners[i := o][..n] == owners[..n];
      Exchange(Held(owners[..n], kind), Held(owners[..n], kind), multiset{}, multiset{}, multiset{});
    }
  }

  lemma Cancel(x: multiset<nat>, y: multiset<nat>, c: multiset<nat>)
    requires x + c == y + c
    ensures x == y
  {
    assert x == x + c - c && y == y + c - c;
  }

  /** Taking `c` out of both sides of a partition. */
  lemma TakeOut(x: multiset<nat>, y: multiset<nat>, o: multiset<nat>, c: multiset<nat>,
                before: multiset<nat>, after: multiset<nat>)
    requires x + c == y && y + o == before && after + c == before
    ensures x + o == after
  {
    assert x + o + c == x + c + o;
    Cancel(x + o, after, c);
  }

  lemma SwapBags(x: multiset<nat>, y: multiset<nat>, a: multiset<nat>, b: multiset<nat>,
                 c: multiset<nat>, d: multiset<nat>)
    requires x + a == y + b && b + c == a + d
    ensures x + c == y + d
  {
    assert x + c + a == x + a + c;
    assert y + b + c == y + (b + c);
    assert y + (a + d) == y + d + a;
    Cancel(x + c, y + d, a);
  }

  lemma Exchange(x: multiset<nat>, y: multiset<nat>, a: multiset<nat>, b: multiset<nat>, c: multiset<nat>)
    requires x + a == y + b
    ensures (x + c) + a == (y + c) + b
  {
    assert x + c + a == x + a + c && y + c + b == y + b + c;
  }

  /** Handles inside one object are part of what all objects hold. */
  lemma HeldMember(owners: seq<Owner>, i: nat, kind: Kind, h: nat)
    requires i < |owners| && h in HandlesOf(owners[i], kind)
    ensures h in Held(owners, kind)
  {
    HeldUpdate(owners, i, Gone, kind);
    assert h in Has(owners[i], kind);
  }

  /** The first free slot, or the one after the last. */
  function FirstFree(slots: seq<Slot>): (h: nat)
    ensures h <= |slots| && (h < |slots| ==> slots[h].Free?)
    ensures forall j :: 0 <= j < h ==> !slots[j].Free?
  {
    if slots == [] || slots[0].Free? then 0 else 1 + FirstFree(slots[1..])
  }

  function Unfinished(slots: seq<Slot>, orphans: seq<nat>): seq<nat> {
    if orphans == [] then []
    else
      var h := orphans[|orphans| - 1];
      Unfinished(slots, orphans[..|orphans| - 1]) +
      if h < |slots| && slots[h].Tcp? && Finished(slots[h].state) then [] else [h]
  }

  lemma UnfinishedStep(slots: seq<Slot>, orphans: seq<nat>, i: nat)
    requires i < |orphans|
    ensures Unfinished(slots, orphans[..i + 1]) == Unfinished(slots, orphans[..i]) +
            if orphans[i] < |slots| && slots[orphans[i]].Tcp? && Finished(slots[orphans[i]].state)
            then [] else [orphans[i]]
  {
    assert orphans[..i + 1][..i] == orphans[..i];
  }

  /** What a cleanup keeps: a filter, which looks at each orphan by itself and keeps their order. */
  lemma {:induction false} KeptInOrder(slots: seq<Slot>, a: seq<nat>, b: seq<nat>, h: nat)
    ensures Unfinished(slots, a + b) == Unfinished(slots, a) + Unfinished(slots, b)
    ensures Unfinished(slots, [h]) == if FinishedIn(slots, h) then [] else [h]
    decreases |b|
  {
    assert [h][..0] == [];
    if b == [] {
      assert a + b == a;
    } else {
      var n := |b| - 1;
      KeptInOrder(slots, a, b[..n], h);
      assert (a + b)[..|a + b| - 1] == a + b[..n] && (a + b)[|a + b| - 1] == b[n];
    }
  }

  predicate EstablishedIn(slots: seq<Slot>, h: nat) {
    h < |slots| && slots[h].Tcp? && slots[h].state.Established?
  }

  predicate ListeningIn(slots: seq<Slot>, h: nat) {
    h < |slots| && slots[h] == Tcp(Listen, false)
  }

  predicate FinishedIn(slots: seq<Slot>, h: nat) {
    h < |slots| && slots[h].Tcp? && Finished(slots[h].state)
  }

  lemma {:induction false} UnfinishedSubset(slots: seq<Slot>, orphans: seq<nat>)
    ensures forall h :: h in Unfinished(slots, orphans) ==> h in orphans
  {
    if orphans != [] {
      UnfinishedSubset(slots, orphans[..|orphans| - 1]);
    }
  }

  datatype AcceptResult = Accepted(stream: nat) | AllDead | NotYet

  /** `SocketSet::add`: the first free slot is taken, or the set grows by one. */
  function Added(slots: seq<Slot>, slot: Slot): seq<Slot> {
    if FirstFree(slots) < |slots| then slots[FirstFree(slots) := slot] else slots + [slot]
  }

  /** The slots after `n` listening sockets have been added, and the handles they got. */
  function WithPool(slots: seq<Slot>, n: nat): seq<Slot> {
    if n == 0 then slots else Added(WithPool(slots, n - 1), Tcp(Listen, false))
  }

  function PoolHandles(slots: seq<Slot>, n: nat): (handles: seq<nat>)
    ensures |handles| == n
  {
    if n == 0 then [] else PoolHandles(slots, n - 1) + [FirstFree(WithPool(slots, n - 1))]
  }

  /** The position of the first established socket of a pool. */
  function FirstEstablished(slots: seq<Slot>, handles: seq<nat>): (k: Option<nat>)
    ensures k.Some? ==> k.value < |handles| && EstablishedIn(slots, handles[k.value])
    ensures k.Some? ==> forall j :: 0 <= j < k.value ==> !EstablishedIn(slots, handles[j])
    ensures k.None? ==> forall j :: 0 <= j < |handles| ==> !EstablishedIn(slots, handles[j])
  {
    if handles == [] then None
    else if EstablishedIn(slots, handles[0]) then Some(0)
    else
      match FirstEstablished(slots, handles[1..])
      case None => assert forall j :: 1 <= j < |handles| ==> handles[j] == handles[1..][j - 1]; None
      case Some(k) => assert forall j :: 1 <= j < |handles| ==> handles[j] == handles[1..][j - 1]; Some(k + 1)
  }

  lemma FirstEstablishedAt(slots: seq<Slot>, handles: seq<nat>, k: nat)
    requires k < |handles| && EstablishedIn(slots, handles[k])
    requires forall j :: 0 <= j < k ==> !EstablishedIn(slots, handles[j])
    ensures FirstEstablished(slots, handles) == Some(k)
  {
  }

  predicate AllFinished(slots: seq<Slot>, handles: seq<nat>) {
    forall k :: 0 <= k < |handles| ==> FinishedIn(slots, handles[k])
  }

  /** The slots after a pool has been thrown away. */
  function Emptied(slots: seq<Slot>, handles: seq<nat>): (r: seq<Slot>)
    ensures |r| == |slots|
    ensures forall h :: 0 <= h < |slots| ==> r[h] == if h in handles then Free else slots[h]
  {
    seq(|slots|, h requires 0 <= h < |slots| => if h in handles then Free else slots[h])
  }

  /** The resets that a cleanup throws away: they are still due on an orphan that has finished. */
  function LostResets(slots: seq<Slot>, orphans: seq<nat>): set<nat> {
    set h: nat | h < |slots| && h in orphans && slots[h].Tcp? && Finished(slots[h].state) && slots[h].rstDue
  }

  // ---------------------------------------------------------------- runs as values

  datatype ReactorView = ReactorView(slots: seq<Slot>, orphaned: seq<nat>, owners: seq<Owner>, egresses: nat)

  const EMPTY: ReactorView := ReactorView([], [], [], 0)

  /** What the tasks and the reactor may do next; a task can only use an object it has. */
  datatype Action =
    | DoConnect(ok: bool)
    | DoBind(port: nat, backlog: nat)
    | DoAccept(i: nat)
    | DoClose(i: nat)
    | DoAbort(i: nat)
    | DoPollShutdown(i: nat)
    | DoDrop(i: nat)
    | DoBindUdp(ok: bool)
    | DoIterate(batch: nat, packets: seq<seq<Move>>, out: set<nat>)

  /** The socket in one slot after a call on it. */
  function OnSocket(s: Slot, action: Action): Slot {
    if !s.Tcp? then s
    else
      match action
      case DoClose(_) => s.(state := AfterClose(s.state))
      case DoAbort(_) => Aborted(s)
      case DoPollShutdown(_) => s.(state := PollShutdown(s.state).state)
      case _ => s
  }

  function CallStep(v: ReactorView, h: nat, action: Action): ReactorView {
    if h < |v.slots| then v.(slots := v.slots[h := OnSocket(v.slots[h], action)]) else v
  }

  function AcceptStep(v: ReactorView, i: nat): ReactorView
    requires i < |v.owners| && v.owners[i].Listener?
  {
    var pool := v.owners[i].handles;
    match FirstEstablished(v.slots, pool)
    case None => v
    case Some(k) =>
      v.(slots := Added(v.slots, Tcp(Listen, false)),
         owners := v.owners[i := v.owners[i].(handles := pool[k := FirstFree(v.slots)])] + [Stream(pool[k])])
  }

  /** What one poll of an accept returns. */
  function AcceptOutcome(v: ReactorView, i: nat): AcceptResult
    requires i < |v.owners| && v.owners[i].Listener?
  {
    var pool := v.owners[i].handles;
    if FirstEstablished(v.slots, pool).Some? then Accepted(|v.owners|)
    else if AllFinished(v.slots, pool) then AllDead
    else NotYet
  }

  predicate NoneEstablished(slots: seq<Slot>, handles: seq<nat>) {
    forall k :: 0 <= k < |handles| ==> !EstablishedIn(slots, handles[k])
  }

  /** When an accept succeeds, when it fails and when it waits. */
  lemma OutcomeExact(v: ReactorView, i: nat)
    requires i < |v.owners| && v.owners[i].Listener?
    ensures var pool := v.owners[i].handles;
            && (AcceptOutcome(v, i).AllDead? ==> NoneEstablished(v.slots, pool))
            && (AcceptOutcome(v, i).Accepted? <==> !NoneEstablished(v.slots, pool))
            && (AcceptOutcome(v, i).AllDead? <==> AllFinished(v.slots, pool))
            && (AcceptOutcome(v, i).NotYet? <==> !AllFinished(v.slots, pool) && NoneEstablished(v.slots, pool))
  {
    hide FirstEstablished;
    var pool := v.owners[i].handles;
    if FirstEstablished(v.slots, pool).Some? {
      var k := FirstEstablished(v.slots, pool).value;
      assert !FinishedIn(v.slots, pool[k]);
    }
  }

  function DropStreamStep(v: ReactorView, i: nat, h: nat): ReactorView
    requires i < |v.owners|
  {
    var w := v.(owners := v.owners[i := Gone]);
    if h >= |v.slots| || !v.slots[h].Tcp? then w
    else
      match OnDrop(v.slots[h].state)
      case RemoveNow => w.(slots := v.slots[h := Free])
      case Orphan => w.(orphaned := v.orphaned + [h])
      case AbortAndOrphan => w.(orphaned := v.orphaned + [h], slots := v.slots[h := Aborted(v.slots[h])])
  }

  function DropStep(v: ReactorView, i: nat): ReactorView
    requires i < |v.owners|
  {
    match v.owners[i]
    case Stream(h) => DropStreamStep(v, i, h)
    case Listener(handles, _, _) => v.(owners := v.owners[i := Gone], slots := Emptied(v.slots, handles))
    case Datagram(h) =>
      v.(owners := v.owners[i := Gone], slots := if h < |v.slots| then v.slots[h := Free] else v.slots)
    case Gone => v
  }

  /** One iteration of the reactor; `out` are the sockets whose resets get onto the wire. */
  function IterateStep(v: ReactorView, batch: nat, packets: seq<seq<Move>>, out: set<nat>): ReactorView {
    var moved := MovedByAll(v.slots, packets[..Min(|packets|, Max(1, batch))]);
    var sent := Transmitted(moved, out);
    v.(slots := SweptSlots(sent, v.orphaned), orphaned := Unfinished(sent, v.orphaned), egresses := v.egresses + 1)
  }

  function StepReactor(v: ReactorView, action: Action): ReactorView {
    match action
    case DoConnect(ok) =>
      if ok
      then v.(slots := Added(v.slots, Tcp(SynSent, false)), owners := v.owners + [Stream(FirstFree(v.slots))])
      else v
    case DoBind(port, backlog) =>
      if port == 0 then v
      else
        v.(slots := WithPool(v.slots, Max(1, backlog)),
           owners := v.owners + [Listener(PoolHandles(v.slots, Max(1, backlog)), port, backlog)])
    case DoAccept(i) => if i < |v.owners| && v.owners[i].Listener? then AcceptStep(v, i) else v
    case DoDrop(i) => if i < |v.owners| then DropStep(v, i) else v
    case DoBindUdp(ok) =>
      if ok then v.(slots := Added(v.slots, Udp), owners := v.owners + [Datagram(FirstFree(v.slots))]) else v
    case DoIterate(batch, packets, out) => IterateStep(v, batch, packets, out)
    case _ =>
      if action.i < |v.owners| && v.owners[action.i].Stream?
      then CallStep(v, v.owners[action.i].handle, action)
      else v
  }

  function RunReactor(v: ReactorView, script: seq<Action>): ReactorView {
    if script == [] then v else StepReactor(RunReactor(v, script[..|script| - 1]), script[|script| - 1])
  }

  class Reactor {
    var slots: seq<Slot>
    var orphaned: seq<nat>
    var owners: seq<Owner>
    /** How often `poll_egress` has run, and the count at which each orphan was orphaned. */
    var egresses: nat
    ghost var orphanedAt: map<nat, nat>

    /** Every live slot has exactly one owner and every owned handle is live. */
    ghost predicate Partition()
      reads this
    {
      && Held(owners, TcpKind) + multiset(orphaned) == LiveBag(slots, TcpKind)
      && Held(owners, UdpKind) == LiveBag(slots, UdpKind)
    }

    ghost predicate Valid()
      reads this
    {
      Partition() && Bookkeeping()
    }

    ghost predicate Bookkeeping()
      reads this
    {
      && (forall h :: h in orphaned ==> h in orphanedAt && orphanedAt[h] <= egresses)
      && DueClosed(slots)
      && (forall i :: 0 <= i < |owners| && owners[i].Listener? ==>
            owners[i].port != 0 && |owners[i].handles| == Max(1, owners[i].backlog))
    }

    function View(): ReactorView
      reads this
    {
      ReactorView(slots, orphaned, owners, egresses)
    }

    constructor ()
      ensures Valid() && View() == EMPTY
    {
      slots, orphaned, owners, egresses, orphanedAt := [], [], [], 0, map[];
    }

    /** Which slots an object may look at: they are there and of its kind, and nobody else has them. */
    lemma HandleLive(i: nat, kind: Kind, h: nat)
      requires Valid() && i < |owners| && h in HandlesOf(owners[i], kind)
      ensures h < |slots| && IsKind(slots[h], kind)
      ensures kind.TcpKind? ==> h !in orphaned
    {
      hide Held, LiveBag;
      HeldMember(owners, i, kind, h);
      InBag(slots, kind, h);
      assert kind.TcpKind? && h in orphaned ==> h in multiset(orphaned);
    }

    /** No handle is inside two objects, however often slots are reused. */
    lemma Exclusive(i: nat, j: nat, kind: Kind, h: nat)
      requires Valid() && i < |owners| && j < |owners|
      requires h in HandlesOf(owners[i], kind) && h in HandlesOf(owners[j], kind)
      ensures i == j
    {
      hide Held, LiveBag;
      if i != j {
        OwnerGone(i, kind);
        var rest := owners[i := Gone];
        assert rest[j] == owners[j];
        HeldMember(rest, j, kind, h);
        assert h in Has(owners[i], kind);
        InBag(slots, kind, h);
        assert false;
      }
    }

    // -------------------------------------------------------------- slots

    /** `SocketSet::add`. */
    method Add(slot: Slot) returns (h: nat)
      requires !slot.Free?
      modifies `slots
      ensures h == FirstFree(old(slots))
      ensures slots == Added(old(slots), slot)
      ensures LiveBag(slots, TcpKind) == LiveBag(old(slots), TcpKind) + One(slot, TcpKind, h)
      ensures LiveBag(slots, UdpKind) == LiveBag(old(slots), UdpKind) + One(slot, UdpKind, h)
    {
      hide LiveBag;
      h := FirstFree(slots);
      if h < |slots| {
        BagUpdate(slots, h, slot, TcpKind);
        BagUpdate(slots, h, slot, UdpKind);
        slots := slots[h := slot];
      } else {
        BagAppend(slots, slot, TcpKind);
        BagAppend(slots, slot, UdpKind);
        slots := slots + [slot];
      }
    }

    /** `SocketSet::remove`, which must find the handle. */
    method Remove(h: nat)
      requires h < |slots| && !slots[h].Free?
      modifies `slots
      ensures slots == old(slots)[h := Free]
      ensures LiveBag(slots, TcpKind) + One(old(slots)[h], TcpKind, h) == LiveBag(old(slots), TcpKind)
      ensures LiveBag(slots, UdpKind) + One(old(slots)[h], UdpKind, h) == LiveBag(old(slots), UdpKind)
    {
      hide LiveBag;
      BagUpdate(slots, h, Free, TcpKind);
      BagUpdate(slots, h, Free, UdpKind);
      slots := slots[h := Free];
    }

    /** Changes a TCP socket in place. */
    method Set(h: nat, socket: Slot)
      requires h < |slots| && slots[h].Tcp? && socket.Tcp?
      modifies `slots
      ensures slots == old(slots)[h := socket]
      ensures LiveBag(slots, TcpKind) == LiveBag(old(slots), TcpKind)
      ensures LiveBag(slots, UdpKind) == LiveBag(old(slots), UdpKind)
    {
      hide LiveBag;
      BagUpdate(slots, h, socket, TcpKind);
      BagUpdate(slots, h, socket, UdpKind);
      Cancel(LiveBag(slots[h := socket], TcpKind), LiveBag(slots, TcpKind), One(socket, TcpKind, h));
      Cancel(LiveBag(slots[h := socket], UdpKind), LiveBag(slots, UdpKind), One(socket, UdpKind, h));
      slots := slots[h := socket];
    }

    /** A segment or a timer moves some socket. */
    method EnvironmentMoves(move: Move)
      requires Valid()
      modifies `slots
      ensures Valid() && |slots| == |old(slots)|
      ensures slots == Moved(old(slots), move)
    {
      hide Held, LiveBag;
      var Move(h, to) := move;
      if h < |slots| && slots[h].Tcp? && Moves(slots[h].state, to) {
        Set(h, Tcp(to, false));
      }
    }

    // -------------------------------------------------------------- streams

    /** `TcpStream::connect`; the socket joins the set only after `connect` on it succeeded. */
    method Connect(ok: bool) returns (stream: Option<nat>)
      requires Valid()
      modifies this
      ensures Valid() && orphaned == old(orphaned) && egresses == old(egresses)
      ensures !ok ==> stream.None? && slots == old(slots) && owners == old(owners)
      ensures ok ==>
                && stream == Some(|old(owners)|) && owners == old(owners) + [Stream(FirstFree(old(slots)))]
                && slots == Added(old(slots), Tcp(SynSent, false))
    {
      hide Held, LiveBag, FirstFree;
      if !ok {
        return None;
      }
      var h := Add(Tcp(SynSent, false));
      var id := NewOwner(Stream(h));
      stream := Some(id);
    }

    method CloseStream(i: nat)
      requires Valid() && i < |owners| && owners[i].Stream?
      modifies `slots
      ensures Valid()
      ensures var h := owners[i].handle;
              h < |old(slots)| && old(slots)[h].Tcp?
              && slots == old(slots)[h := old(slots)[h].(state := AfterClose(old(slots)[h].state))]
    {
      hide Held, LiveBag;
      var h := owners[i].handle;
      HandleLive(i, TcpKind, h);
      Set(h, slots[h].(state := AfterClose(slots[h].state)));
    }

    method AbortStream(i: nat)
      requires Valid() && i < |owners| && owners[i].Stream?
      modifies `slots
      ensures Valid()
      ensures var h := owners[i].handle;
              h < |old(slots)| && old(slots)[h].Tcp? && slots == old(slots)[h := Aborted(old(slots)[h])]
    {
      hide Held, LiveBag;
      var h := owners[i].handle;
      HandleLive(i, TcpKind, h);
      Set(h, Aborted(slots[h]));
    }

    /** `poll_shutdown` of the tokio wrapper. */
    method PollShutdownStream(i: nat) returns (ready: bool)
      requires Valid() && i < |owners| && owners[i].Stream?
      modifies `slots
      ensures Valid()
      ensures var h := owners[i].handle;
              && h < |old(slots)| && old(slots)[h].Tcp?
              && ready == PollShutdown(old(slots)[h].state).ready
              && slots == old(slots)[h := old(slots)[h].(state := PollShutdown(old(slots)[h].state).state)]
    {
      hide Held, LiveBag;
      var h := owners[i].handle;
      HandleLive(i, TcpKind, h);
      if Finished(slots[h].state) {
        assert slots == slots[h := slots[h].(state := slots[h].state)];
        return true;
      }
      if !MidClose(slots[h].state) {
        Set(h, slots[h].(state := AfterClose(slots[h].state)));
      }
      ready := Finished(slots[h].state);
    }

    /** Dropping an object takes its handles out of what objects hold. */
    lemma OwnerGone(i: nat, kind: Kind)
      requires i < |owners|
      ensures Held(owners[i := Gone], kind) + Has(owners[i], kind) == Held(owners, kind)
    {
      hide Held;
      HeldUpdate(owners, i, Gone, kind);
      assert Has(Gone, kind) == multiset{};
    }

    /** The slot of a stream that is going away passes to the orphan list. */
    method MakeOrphan(i: nat)
      requires Valid() && i < |owners| && owners[i].Stream?
      modifies `owners, `orphaned, `orphanedAt
      ensures Valid() && owners == old(owners)[i := Gone]
      ensures orphaned == old(orphaned) + [old(owners)[i].handle]
      ensures orphanedAt == old(orphanedAt)[old(owners)[i].handle := egresses]
    {
      hide Held, LiveBag;
      var h := owners[i].handle;
      OwnerGone(i, TcpKind);
      OwnerGone(i, UdpKind);
      assert Has(owners[i], TcpKind) == multiset{h} && Has(owners[i], UdpKind) == multiset{};
      orphaned := orphaned + [h];
      orphanedAt := orphanedAt[h := egresses];
      owners := owners[i := Gone];
    }

    /**
     `Drop for TcpStream`. A reset that is still due is lost exactly when the stream had been
     aborted and nothing was transmitted since: such a socket is removed on the spot.
     */
    method DropStream(i: nat) returns (resetLost: bool)
      requires Valid() && i < |owners| && owners[i].Stream?
      modifies this
      ensures Valid() && owners == old(owners)[i := Gone] && egresses == old(egresses)
      ensures var h := old(owners)[i].handle;
              && h < |old(slots)| && old(slots)[h].Tcp?
              && resetLost == old(slots)[h].rstDue
              && |slots| == |old(slots)| && (slots[h].Free? <==> Finished(old(slots)[h].state))
              && (h in orphaned <==> !Finished(old(slots)[h].state))
              && (MidClose(old(slots)[h].state) ==> slots == old(slots))
              && (!ShutDown(old(slots)[h].state) ==>
                    slots[h].Tcp? && slots[h].state.Closed? && (slots[h].rstDue || old(slots)[h].state.Listen?))
              && match OnDrop(old(slots)[h].state)
                 case RemoveNow => orphaned == old(orphaned) && slots == old(slots)[h := Free]
                 case Orphan => orphaned == old(orphaned) + [h] && slots == old(slots)
                 case AbortAndOrphan =>
                   orphaned == old(orphaned) + [h] && slots == old(slots)[h := Aborted(old(slots)[h])]
    {
      hide Held, LiveBag;
      var h := owners[i].handle;
      HandleLive(i, TcpKind, h);
      resetLost := slots[h].rstDue;
      match OnDrop(slots[h].state) {
        case RemoveNow =>
          RemoveOwned(i, TcpKind, h);
        case Orphan =>
          MakeOrphan(i);
        case AbortAndOrphan =>
          Set(h, Aborted(slots[h]));
          MakeOrphan(i);
      }
    }

    /** Removes the only slot of an object together with the object. */
    method RemoveOwned(i: nat, kind: Kind, h: nat)
      requires Valid() && i < |owners| && owners[i] == (if kind.TcpKind? then Stream(h) else Datagram(h))
      requires h < |slots| && IsKind(slots[h], kind)
      modifies `slots, `owners
      ensures Valid() && owners == old(owners)[i := Gone] && slots == old(slots)[h := Free]
    {
      hide Held, LiveBag;
      OwnerGone(i, TcpKind);
      OwnerGone(i, UdpKind);
      assert Has(owners[i], kind) == multiset{h};
      ghost var tcp, udp := Has(owners[i], TcpKind), Has(owners[i], UdpKind);
      assert tcp == One(slots[h], TcpKind, h) && udp == One(slots[h], UdpKind, h);
      Remove(h);
      TakeOut(Held(owners[i := Gone], TcpKind), Held(owners, TcpKind), multiset(orphaned), tcp,
              LiveBag(old(slots), TcpKind), LiveBag(slots, TcpKind));
      Cancel(Held(owners[i := Gone], UdpKind), LiveBag(slots, UdpKind), udp);
      owners := owners[i := Gone];
    }

    // -------------------------------------------------------------- listeners

    /** A new object takes over slots that nobody owns yet. */
    method NewOwner(o: Owner) returns (id: nat)
      requires Held(owners, TcpKind) + multiset(orphaned) + Has(o, TcpKind) == LiveBag(slots, TcpKind)
      requires Held(owners, UdpKind) + Has(o, UdpKind) == LiveBag(slots, UdpKind)
      requires Bookkeeping() && (o.Listener? ==> o.port != 0 && |o.handles| == Max(1, o.backlog))
      modifies `owners
      ensures Valid() && owners == old(owners) + [o] && id == |old(owners)|
    {
      hide Held, LiveBag, Has;
      HeldSnoc(owners, o, TcpKind);
      HeldSnoc(owners, o, UdpKind);
      id := |owners|;
      owners := owners + [o];
    }

    /** `bind_with_backlog`. `listen` on a fresh socket fails for port 0 only, so a failing bind fails at once. */
    method BindWithBacklog(port: nat, backlog: nat) returns (listener: Option<nat>, handles: seq<nat>)
      requires Valid()
      modifies this
      ensures Valid() && orphaned == old(orphaned) && egresses == old(egresses)
      ensures port == 0 ==> listener.None? && slots == old(slots) && owners == old(owners)
      ensures port != 0 ==>
                && listener == Some(|old(owners)|) && owners == old(owners) + [Listener(handles, port, backlog)]
                && slots == WithPool(old(slots), Max(1, backlog)) && handles == PoolHandles(old(slots), Max(1, backlog))
                && |handles| == Max(1, backlog) && Distinct(handles)
                && forall k :: 0 <= k < |handles| ==> ListeningIn(slots, handles[k])
    {
      hide Held, LiveBag;
      ghost var held := Held(owners, TcpKind) + multiset(orphaned);
      var pool := OpenPool(port, Max(1, backlog), held);
      if pool.None? {
        return None, [];
      }
      handles := pool.value;
      AtMostOnceEach(handles, held, slots);
      var id := NewOwner(Listener(handles, port, backlog));
      listener := Some(id);
    }

    /** Creates listening sockets until there are `n` or one cannot listen. */
    method OpenPool(port: nat, n: nat, ghost held: multiset<nat>) returns (pool: Option<seq<nat>>)
      requires n > 0 && held == LiveBag(slots, TcpKind)
      requires DueClosed(slots)
      modifies `slots
      ensures port == 0 ==> pool.None? && slots == old(slots)
      ensures port != 0 ==>
                && pool.Some? && |pool.value| == n && held + multiset(pool.value) == LiveBag(slots, TcpKind)
                && slots == WithPool(old(slots), n) && pool.value == PoolHandles(old(slots), n)
      ensures LiveBag(slots, UdpKind) == LiveBag(old(slots), UdpKind)
      ensures DueClosed(slots)
      ensures pool.Some? ==> forall k :: 0 <= k < n ==> ListeningIn(slots, pool.value[k])
    {
      hide LiveBag, FirstFree, Added, DueClosed, ListeningIn;
      var handles: seq<nat> := [];
      assert held + multiset(handles) == held;
      for k := 0 to n
        invariant port == 0 ==> k == 0 && slots == old(slots)
        invariant slots == WithPool(old(slots), k) && handles == PoolHandles(old(slots), k)
        invariant held + multiset(handles) == LiveBag(slots, TcpKind)
        invariant LiveBag(slots, UdpKind) == LiveBag(old(slots), UdpKind)
      {
        if port == 0 {
          return None;
        }
        handles := AddListening(handles, held);
      }
      PoolListens(old(slots), n);
      pool := Some(handles);
    }

    /** `create_listening_socket`, and its handle at the end of the pool. */
    method AddListening(handles: seq<nat>, ghost held: multiset<nat>) returns (pool: seq<nat>)
      requires held + multiset(handles) == LiveBag(slots, TcpKind)
      modifies `slots
      ensures pool == handles + [FirstFree(old(slots))] && slots == Added(old(slots), Tcp(Listen, false))
      ensures held + multiset(pool) == LiveBag(slots, TcpKind)
      ensures LiveBag(slots, UdpKind) == LiveBag(old(slots), UdpKind)
    {
      hide LiveBag, FirstFree, Added;
      var h := Add(Tcp(Listen, false));
      assert multiset(handles + [h]) == multiset(handles) + multiset{h};
      pool := handles + [h];
    }

    /** A fresh pool is listening, takes no slot that is in use, and no reset is due on it. */
    static lemma {:induction false} PoolListens(slots: seq<Slot>, n: nat)
      ensures forall k :: 0 <= k < n ==> ListeningIn(WithPool(slots, n), PoolHandles(slots, n)[k])
      ensures |slots| <= |WithPool(slots, n)|
      ensures forall h :: 0 <= h < |slots| && !slots[h].Free? ==> WithPool(slots, n)[h] == slots[h]
      ensures forall k :: 0 <= k < n && PoolHandles(slots, n)[k] < |slots| ==> slots[PoolHandles(slots, n)[k]].Free?
      ensures DueClosed(slots) ==> DueClosed(WithPool(slots, n))
    {
      hide FirstFree, Added, DueClosed;
      if n > 0 {
        PoolListens(slots, n - 1);
        var before := WithPool(slots, n - 1);
        AddedKeeps(before, Tcp(Listen, false));
        assert forall k :: 0 <= k < n - 1 ==> PoolHandles(slots, n)[k] == PoolHandles(slots, n - 1)[k];
      }
    }

    /** The first handle of the pool whose socket is established. */
    method FindEstablished(i: nat) returns (idx: Option<nat>)
      requires Valid() && i < |owners| && owners[i].Listener?
      ensures idx == FirstEstablished(slots, owners[i].handles)
    {
      var handles := owners[i].handles;
      for k := 0 to |handles|
        invariant forall j :: 0 <= j < k ==> !EstablishedIn(slots, owners[i].handles[j])
      {
        HandleLive(i, TcpKind, handles[k]);
        if slots[handles[k]].state.Established? {
          FirstEstablishedAt(slots, handles, k);
          return Some(k);
        }
      }
      idx := None;
    }

    method AllPoolDead(i: nat) returns (dead: bool)
      requires Valid() && i < |owners| && owners[i].Listener?
      ensures dead <==> AllFinished(slots, owners[i].handles)
    {
      var handles := owners[i].handles;
      for k := 0 to |handles|
        invariant forall j :: 0 <= j < k ==> FinishedIn(slots, owners[i].handles[j])
      {
        HandleLive(i, TcpKind, handles[k]);
        if !Finished(slots[handles[k]].state) {
          return false;
        }
      }
      dead := true;
    }

    /**
     One poll of `AcceptFuture`: the first established socket of the pool moves into a new stream and
     a fresh listening socket takes its place, so the pool keeps its size and its handles stay distinct.
     */
    method Accept(i: nat) returns (r: AcceptResult)
      requires Valid() && i < |owners| && owners[i].Listener?
      modifies this
      ensures Valid() && View() == AcceptStep(old(View()), i) && r == AcceptOutcome(old(View()), i)
      ensures var pool := old(owners)[i].handles;
              && (r.Accepted? <==> !NoneEstablished(old(slots), pool))
              && (r.AllDead? <==> AllFinished(old(slots), pool))
              && (r.NotYet? <==> !AllFinished(old(slots), pool) && NoneEstablished(old(slots), pool))
      ensures r.Accepted? ==>
                && i < |owners| && owners[i].Listener?
                && Distinct(owners[i].handles) && |owners[i].handles| == |old(owners)[i].handles|
      ensures r.Accepted? ==>
                r.stream < |owners| && owners[r.stream].Stream? && EstablishedIn(slots, owners[r.stream].handle)
      ensures r.Accepted? ==>
                forall h :: 0 <= h < |old(slots)| && !old(slots)[h].Free? ==>
                  h < |slots| && slots[h] == old(slots)[h]
    {
      OutcomeExact(View(), i);
      hide Valid, FirstFree, FirstEstablished, Added, NoneEstablished, AllFinished, EstablishedIn, Distinct;
      var found := FindEstablished(i);
      if found.None? {
        var dead := AllPoolDead(i);
        return if dead then AllDead else NotYet;
      }
      r := Accepted(|owners|);
      TakeConnection(i, found.value);
    }

    /** Moves one socket of a pool into a new stream and puts a fresh listening one in its place. */
    method TakeConnection(i: nat, k: nat)
      requires Valid() && i < |owners| && owners[i].Listener? && k < |owners[i].handles|
      requires EstablishedIn(slots, owners[i].handles[k])
      modifies this
      ensures Valid() && slots == Added(old(slots), Tcp(Listen, false))
      ensures var pool := old(owners)[i].handles;
              var renewed := old(owners)[i].(handles := pool[k := FirstFree(old(slots))]);
              owners == old(owners)[i := renewed] + [Stream(pool[k])]
      ensures orphaned == old(orphaned) && egresses == old(egresses)
      ensures Distinct(owners[i].handles) && EstablishedIn(slots, old(owners)[i].handles[k])
      ensures forall h :: 0 <= h < |old(slots)| && !old(slots)[h].Free? ==> h < |slots| && slots[h] == old(slots)[h]
    {
      hide Held, LiveBag;
      AddedKeeps(slots, Tcp(Listen, false));
      hide FirstFree, Added, DueClosed;
      var listener := owners[i];
      var connected := listener.handles[k];
      var h := Add(Tcp(Listen, false));
      var renewed := listener.(handles := listener.handles[k := h]);
      Swapped(owners, i, renewed, k, connected, h);
      owners := owners[i := renewed] + [Stream(connected)];
      assert Partition();
      PoolDistinct(i);
    }

    /** Adding a socket changes no slot that is in use. */
    static lemma AddedKeeps(slots: seq<Slot>, slot: Slot)
      ensures |slots| <= |Added(slots, slot)|
      ensures forall h :: 0 <= h < |slots| && !slots[h].Free? ==> Added(slots, slot)[h] == slots[h]
      ensures FirstFree(slots) < |Added(slots, slot)| && Added(slots, slot)[FirstFree(slots)] == slot
      ensures DueClosed(slots) && (slot.Tcp? ==> !slot.rstDue) ==> DueClosed(Added(slots, slot))
    {
    }

    /** Giving one pool member to a new stream and taking in a fresh one. */
    lemma Swapped(owners0: seq<Owner>, i: nat, renewed: Owner, k: nat, connected: nat, h: nat)
      requires i < |owners0| && owners0[i].Listener? && k < |owners0[i].handles|
      requires connected == owners0[i].handles[k] && renewed == owners0[i].(handles := owners0[i].handles[k := h])
      ensures var owners1 := owners0[i := renewed] + [Stream(connected)];
              && Held(owners1, TcpKind) == Held(owners0, TcpKind) + multiset{h}
              && Held(owners1, UdpKind) == Held(owners0, UdpKind)
    {
      hide Held;
      HeldUpdate(owners0, i, renewed, TcpKind);
      HeldUpdate(owners0, i, renewed, UdpKind);
      HeldSnoc(owners0[i := renewed], Stream(connected), TcpKind);
      HeldSnoc(owners0[i := renewed], Stream(connected), UdpKind);
      var pool := owners0[i].handles;
      assert pool == pool[..k] + [connected] + pool[k + 1..];
      assert renewed.handles == pool[..k] + [h] + pool[k + 1..];
      assert Has(renewed, TcpKind) + multiset{connected} == Has(owners0[i], TcpKind) + multiset{h};
      assert Has(Stream(connected), TcpKind) == multiset{connected} && Has(Stream(connected), UdpKind) == multiset{};
      assert Has(renewed, UdpKind) == multiset{} == Has(owners0[i], UdpKind);
      SwapBags(Held(owners0[i := renewed], TcpKind), Held(owners0, TcpKind), Has(owners0[i], TcpKind),
               Has(renewed, TcpKind), multiset{connected}, multiset{h});
    }

    /** The handles of a live pool are pairwise distinct. */
    lemma PoolDistinct(i: nat)
      requires Partition() && i < |owners| && owners[i].Listener?
      ensures Distinct(owners[i].handles)
    {
      hide Held, LiveBag;
      OwnerGone(i, TcpKind);
      var rest := Held(owners[i := Gone], TcpKind) + multiset(orphaned);
      assert rest + multiset(owners[i].handles) == LiveBag(slots, TcpKind);
      AtMostOnceEach(owners[i].handles, rest, slots);
    }

    /** `Drop for TcpListener`: every socket of the pool is aborted and removed. */
    method DropListener(i: nat)
      requires Valid() && i < |owners| && owners[i].Listener?
      modifies this
      ensures Valid() && owners == old(owners)[i := Gone] && orphaned == old(orphaned) && egresses == old(egresses)
      ensures slots == Emptied(old(slots), old(owners)[i].handles)
    {
      hide Held, LiveBag;
      var handles := owners[i].handles;
      OwnerGone(i, TcpKind);
      OwnerGone(i, UdpKind);
      assert Has(owners[i], TcpKind) == multiset(handles) && Has(owners[i], UdpKind) == multiset{};
      owners := owners[i := Gone];
      ghost var held := Held(owners, TcpKind) + multiset(orphaned);
      assert held + multiset(handles) == LiveBag(slots, TcpKind);
      DropPool(handles, held);
    }

    method DropPool(handles: seq<nat>, ghost held: multiset<nat>)
      requires held + multiset(handles) == LiveBag(slots, TcpKind)
      modifies `slots
      ensures held == LiveBag(slots, TcpKind) && LiveBag(slots, UdpKind) == LiveBag(old(slots), UdpKind)
      ensures |slots| == |old(slots)|
      ensures forall h :: 0 <= h < |slots| ==> slots[h] == if h in handles then Free else old(slots)[h]
    {
      hide LiveBag;
      assert handles[0..] == handles;
      for k := 0 to |handles|
        invariant held + multiset(handles[k..]) == LiveBag(slots, TcpKind)
        invariant LiveBag(slots, UdpKind) == LiveBag(old(slots), UdpKind)
        invariant |slots| == |old(slots)|
        invariant forall h :: 0 <= h < |slots| ==> slots[h] == if h in handles[..k] then Free else old(slots)[h]
      {
        var h := handles[k];
        assert handles[k..] == [h] + handles[k + 1..];
        assert handles[..k + 1] == handles[..k] + [h];
        DropPoolSocket(h, held + multiset(handles[k + 1..]));
      }
      assert handles[..|handles|] == handles;
      assert held + multiset(handles[|handles|..]) == held;
    }

    /** Aborts and removes one socket of a pool. */
    method DropPoolSocket(h: nat, ghost others: multiset<nat>)
      requires others + multiset{h} == LiveBag(slots, TcpKind)
      modifies `slots
      ensures h < |old(slots)| && slots == old(slots)[h := Free]
      ensures others == LiveBag(slots, TcpKind) && LiveBag(slots, UdpKind) == LiveBag(old(slots), UdpKind)
    {
      hide LiveBag;
      InBag(slots, TcpKind, h);
      if !slots[h].state.Closed? {
        Set(h, Aborted(slots[h]));
      }
      Remove(h);
      Cancel(others, LiveBag(slots, TcpKind), multiset{h});
    }

    // -------------------------------------------------------------- UDP

    method BindUdp(ok: bool) returns (socket: Option<nat>)
      requires Valid()
      modifies this
      ensures Valid() && orphaned == old(orphaned) && egresses == old(egresses)
      ensures !ok ==> socket.None? && slots == old(slots) && owners == old(owners)
      ensures ok ==>
                && socket == Some(|old(owners)|) && owners == old(owners) + [Datagram(FirstFree(old(slots)))]
                && slots == Added(old(slots), Udp)
    {
      hide Held, LiveBag, FirstFree;
      if !ok {
        return None;
      }
      var h := Add(Udp);
      var id := NewOwner(Datagram(h));
      socket := Some(id);
    }

    method DropUdp(i: nat)
      requires Valid() && i < |owners| && owners[i].Datagram?
      modifies this
      ensures Valid() && owners == old(owners)[i := Gone] && orphaned == old(orphaned) && egresses == old(egresses)
      ensures old(owners)[i].handle < |old(slots)| && slots == old(slots)[old(owners)[i].handle := Free]
    {
      var h := owners[i].handle;
      HandleLive(i, UdpKind, h);
      RemoveOwned(i, UdpKind, h);
    }

    // -------------------------------------------------------------- the reactor loop

    /** `poll_egress`: of the resets that are due those in `out` get onto the wire; the device may be full. */
    method PollEgress(out: set<nat>)
      requires Valid()
      modifies `slots, `egresses
      ensures Valid() && egresses == old(egresses) + 1
      ensures slots == Transmitted(old(slots), out)
    {
      hide Held, LiveBag;
      TransmittedLive(slots, out, TcpKind);
      TransmittedLive(slots, out, UdpKind);
      slots := Transmitted(slots, out);
      egresses := egresses + 1;
    }

    /** `poll_ingress_single` on one packet. */
    method PollIngress(moves: seq<Move>)
      requires Valid()
      modifies `slots
      ensures Valid() && |slots| == |old(slots)|
      ensures slots == MovedAll(old(slots), moves)
    {
      hide Held, LiveBag;
      for k := 0 to |moves|
        modifies `slots
        invariant Valid() && |slots| == |old(slots)|
        invariant slots == MovedAll(old(slots), moves[..k])
      {
        assert moves[..k + 1][..k] == moves[..k];
        EnvironmentMoves(moves[k]);
      }
      assert moves[..|moves|] == moves;
    }

    /** Looks at one orphan and removes its socket if it has finished. */
    method SweepOne(h: nat, ghost held: multiset<nat>, ghost kept: seq<nat>, ghost rest: seq<nat>) returns (stays: bool)
      requires held + multiset(kept) + multiset([h] + rest) == LiveBag(slots, TcpKind)
      modifies `slots
      ensures h < |old(slots)| && old(slots)[h].Tcp? && (stays <==> !Finished(old(slots)[h].state))
      ensures slots == if stays then old(slots) else old(slots)[h := Free]
      ensures held + multiset(kept + if stays then [h] else []) + multiset(rest) == LiveBag(slots, TcpKind)
      ensures LiveBag(slots, UdpKind) == LiveBag(old(slots), UdpKind)
    {
      hide LiveBag;
      ghost var others := held + multiset(kept) + multiset(rest);
      assert others + multiset{h} == LiveBag(slots, TcpKind);
      InBag(slots, TcpKind, h);
      stays := !Finished(slots[h].state);
      if !stays {
        assert kept + [] == kept;
        Remove(h);
        Cancel(others, LiveBag(slots, TcpKind), multiset{h});
      }
    }

    /**
     `cleanup_orphaned`: what stays is the order-preserving filter of the unfinished orphans; what
     goes was Closed or TimeWait, its slot is freed, and no other slot changes. The state alone decides:
     a reset that is still due on an orphan that goes is lost.
     */
    method CleanupOrphaned() returns (lost: set<nat>)
      requires Valid()
      modifies `slots, `orphaned
      ensures Valid() && orphaned == Unfinished(old(slots), old(orphaned))
      ensures slots == SweptSlots(old(slots), old(orphaned))
      ensures lost == LostResets(old(slots), old(orphaned))
    {
      hide Held, LiveBag, Unfinished;
      lost := LostResets(slots, orphaned);
      var kept := Sweep(orphaned, Held(owners, TcpKind));
      UnfinishedSubset(old(slots), orphaned);
      orphaned := kept;
    }

    /** The body of `retain`, over the whole list. */
    method Sweep(orphans: seq<nat>, ghost held: multiset<nat>) returns (kept: seq<nat>)
      requires held + multiset(orphans) == LiveBag(slots, TcpKind)
      modifies `slots
      ensures kept == Unfinished(old(slots), orphans) && |slots| == |old(slots)|
      ensures held + multiset(kept) == LiveBag(slots, TcpKind)
      ensures LiveBag(slots, UdpKind) == LiveBag(old(slots), UdpKind)
      ensures slots == SweptSlots(old(slots), orphans)
    {
      hide LiveBag, Unfinished, SweptSlots;
      kept := [];
      NothingUnfinished(slots, orphans[..0]);
      assert orphans[0..] == orphans && held + multiset(kept) == held;
      for k := 0 to |orphans|
        invariant kept == Unfinished(old(slots), orphans[..k])
        invariant held + multiset(kept) + multiset(orphans[k..]) == LiveBag(slots, TcpKind)
        invariant LiveBag(slots, UdpKind) == LiveBag(old(slots), UdpKind)
        invariant slots == SweptSlots(old(slots), orphans[..k])
      {
        var h := orphans[k];
        assert orphans[k..] == [h] + orphans[k + 1..];
        SweptStep(old(slots), orphans, k);
        UnfinishedStep(old(slots), orphans, k);
        var stays := SweepOne(h, held, kept, orphans[k + 1..]);
        kept := kept + if stays then [h] else [];
      }
      assert orphans[..|orphans|] == orphans;
      assert held + multiset(kept) + multiset(orphans[|orphans|..]) == held + multiset(kept);
    }

    /**
     One iteration of `run_with` up to its yield: at most max(1, batch) ingress calls, one egress,
     one cleanup. Every orphan was orphaned before this egress. A reset that is due on an orphan goes
     onto the wire in this egress or never: it is lost if and only if this egress does not transmit it.
     */
    method Iterate(batch: nat, packets: seq<seq<Move>>, out: set<nat>)
        returns (calls: nat, processed: nat, lost: set<nat>)
      requires Valid()
      modifies this
      ensures Valid() && owners == old(owners)
      ensures View() == IterateStep(old(View()), batch, packets, out)
      ensures calls == Min(|packets| + 1, Max(1, batch)) && processed == Min(|packets|, Max(1, batch))
      ensures lost == ResetsDue(old(slots), old(orphaned)) - out
      ensures forall h :: h in ResetsDue(old(slots), old(orphaned)) ==> h < |slots| && slots[h].Free? && h !in orphaned
      ensures forall h :: h in old(orphaned) ==> h in orphanedAt && orphanedAt[h] < egresses
    {
      hide Held, LiveBag, Unfinished, MovedAll, SweptSlots, Transmitted, LostResets, ResetsDue;
      processed, calls := 0, 0;
      assert packets[..0] == [];
      while true
        modifies `slots
        invariant calls == processed <= |packets|
        invariant Valid() && slots == MovedByAll(old(slots), packets[..processed])
        invariant processed > 0 ==> processed < batch
        decreases |packets| - processed
      {
        calls := calls + 1;
        if processed == |packets| {
          break;
        }
        assert packets[..processed + 1][..processed] == packets[..processed];
        PollIngress(packets[processed]);
        processed := processed + 1;
        if processed >= batch {
          break;
        }
      }
      ghost var moved := slots;
      DueAfterMoves(old(slots), packets[..processed], orphaned);
      LostAre(moved, orphaned, out);
      PollEgress(out);
      lost := CleanupOrphaned();
      SweptDue(moved, old(orphaned), out);
    }
  }

  // ---------------------------------------------------------------- whole runs

  /** One action does what its step function says, and keeps the invariant. */
  method Perform(r: Reactor, action: Action)
    requires r.Valid()
    modifies r
    ensures r.Valid() && r.View() == StepReactor(old(r.View()), action)
  {
    hide Held, LiveBag, Unfinished, HandlesOf, AcceptStep, IterateStep, Added, WithPool, PoolHandles, FirstFree;
    hide Emptied, Reactor.Partition;
    match action {
      case DoConnect(ok) =>
        var s := r.Connect(ok);
      case DoBind(port, backlog) =>
        var l, handles := r.BindWithBacklog(port, backlog);
      case DoAccept(i) =>
        if i < |r.owners| && r.owners[i].Listener? {
          var a := r.Accept(i);
        }
      case DoClose(i) =>
        if i < |r.owners| && r.owners[i].Stream? {
          r.CloseStream(i);
        }
      case DoAbort(i) =>
        if i < |r.owners| && r.owners[i].Stream? {
          r.AbortStream(i);
        }
      case DoPollShutdown(i) =>
        if i < |r.owners| && r.owners[i].Stream? {
          var ready := r.PollShutdownStream(i);
        }
      case DoDrop(i) =>
        if i < |r.owners| {
          match r.owners[i] {
            case Stream(_) => var lost := r.DropStream(i);
            case Listener(_, _, _) => r.DropListener(i);
            case Datagram(_) => r.DropUdp(i);
            case Gone =>
          }
        }
      case DoBindUdp(ok) =>
        var u := r.BindUdp(ok);
      case DoIterate(batch, packets, out) =>
        var calls, processed, lost := r.Iterate(batch, packets, out);
    }
  }

  lemma RunOneMore(v: ReactorView, script: seq<Action>, k: nat)
    requires k < |script|
    ensures RunReactor(v, script[..k + 1]) == StepReactor(RunReactor(v, script[..k]), script[k])
    ensures RunReactor(v, []) == v
  {
    hide StepReactor;
    assert script[..k + 1][..k] == script[..k];
  }

  /**
   Every run from an empty reactor does what the step functions say and keeps the live slots
   partitioned among their owners, with every listener's pool at its full size.
   */
  method Drive(script: seq<Action>) returns (r: Reactor)
    ensures fresh(r) && r.Valid() && r.View() == RunReactor(EMPTY, script)
  {
    hide StepReactor;
    r := new Reactor();
    assert script[..0] == [];
    for k := 0 to |script|
      invariant r.Valid() && r.View() == RunReactor(EMPTY, script[..k])
    {
      RunOneMore(EMPTY, script, k);
      Perform(r, script[k]);
    }
    assert script[..|script|] == script;
  }

  /** `abort()` followed at once by dropping the stream: the reset that `abort` promises is never transmitted. */
  method AbortThenDrop(r: Reactor, i: nat) returns (resetLost: bool)
    requires r.Valid() && i < |r.owners| && r.owners[i].Stream?
    requires r.owners[i].handle < |r.slots| && r.slots[r.owners[i].handle].Tcp?
    modifies r
    ensures r.Valid() && r.orphaned == old(r.orphaned)
    ensures r.slots == old(r.slots)[old(r.owners[i].handle) := Free]
    ensures var s := old(r.slots[r.owners[i].handle]);
            resetLost <==> s.rstDue || s.state !in {Closed, Listen}
  {
    hide Held, LiveBag;
    r.AbortStream(i);
    resetLost := r.DropStream(i);
  }

  // ---------------------------------------------------------------- helpers

  /** One effect of the environment: socket `handle` changes to `to`. */
  datatype Move = Move(handle: nat, to: State)

  function Moved(slots: seq<Slot>, move: Move): (r: seq<Slot>)
    ensures |r| == |slots|
  {
    if move.handle < |slots| && slots[move.handle].Tcp? && Moves(slots[move.handle].state, move.to)
    then slots[move.handle := Tcp(move.to, false)]
    else slots
  }

  function MovedAll(slots: seq<Slot>, moves: seq<Move>): seq<Slot> {
    if moves == [] then slots else Moved(MovedAll(slots, moves[..|moves| - 1]), moves[|moves| - 1])
  }

  /** Moves happen one after the other, each to what the ones before it left. */
  lemma {:induction false} MovedInOrder(slots: seq<Slot>, a: seq<Move>, b: seq<Move>)
    ensures MovedAll(slots, a + b) == MovedAll(MovedAll(slots, a), b)
    decreases |b|
  {
    hide Moved;
    if b == [] {
      assert a + b == a;
    } else {
      var n := |b| - 1;
      MovedInOrder(slots, a, b[..n]);
      assert (a + b)[..|a + b| - 1] == a + b[..n] && (a + b)[|a + b| - 1] == b[n];
    }
  }

  /** The effect of several packets, one after the other. */
  function MovedByAll(slots: seq<Slot>, packets: seq<seq<Move>>): seq<Slot> {
    if packets == [] then slots
    else MovedAll(MovedByAll(slots, packets[..|packets| - 1]), packets[|packets| - 1])
  }

  /** The resets that are due on orphans. */
  function ResetsDue(slots: seq<Slot>, orphans: seq<nat>): set<nat> {
    set h: nat | h < |slots| && h in orphans && slots[h].Tcp? && slots[h].rstDue
  }

  /** The slots after an egress that transmitted the resets in `out` and no other ones. */
  function Transmitted(slots: seq<Slot>, out: set<nat>): (r: seq<Slot>)
    ensures |r| == |slots|
    ensures forall h :: 0 <= h < |slots| ==>
              r[h] == if slots[h].Tcp? && h in out then slots[h].(rstDue := false) else slots[h]
  {
    seq(|slots|, h requires 0 <= h < |slots| =>
      if slots[h].Tcp? && h in out then slots[h].(rstDue := false) else slots[h])
  }

  lemma TransmittedLive(slots: seq<Slot>, out: set<nat>, kind: Kind)
    ensures LiveBag(Transmitted(slots, out), kind) == LiveBag(slots, kind)
  {
    assert LiveSlots(Transmitted(slots, out), kind) == LiveSlots(slots, kind);
  }

  /** A reset is due on a closed socket only, and neither segments nor timers move one. */
  predicate DueClosed(slots: seq<Slot>) {
    forall h :: 0 <= h < |slots| && slots[h].Tcp? && slots[h].rstDue ==> slots[h].state.Closed?
  }

  /** Two lists of slots with the same resets due. */
  predicate SameDue(a: seq<Slot>, b: seq<Slot>) {
    |a| == |b| && forall h :: 0 <= h < |a| ==> (a[h].Tcp? && a[h].rstDue <==> b[h].Tcp? && b[h].rstDue)
  }

  lemma {:induction false} MovedKeepsDue(slots: seq<Slot>, moves: seq<Move>)
    requires DueClosed(slots)
    ensures DueClosed(MovedAll(slots, moves)) && SameDue(slots, MovedAll(slots, moves))
  {
    if moves != [] {
      MovedKeepsDue(slots, moves[..|moves| - 1]);
    }
  }

  lemma {:induction false} PacketsKeepDue(slots: seq<Slot>, packets: seq<seq<Move>>)
    requires DueClosed(slots)
    ensures DueClosed(MovedByAll(slots, packets)) && SameDue(slots, MovedByAll(slots, packets))
  {
    hide MovedAll;
    if packets != [] {
      var n := |packets| - 1;
      PacketsKeepDue(slots, packets[..n]);
      MovedKeepsDue(MovedByAll(slots, packets[..n]), packets[n]);
    }
  }

  lemma DueAfterMoves(slots: seq<Slot>, packets: seq<seq<Move>>, orphans: seq<nat>)
    requires DueClosed(slots)
    ensures ResetsDue(MovedByAll(slots, packets), orphans) == ResetsDue(slots, orphans)
  {
    hide MovedByAll;
    PacketsKeepDue(slots, packets);
  }

  /** What a cleanup right after an egress loses: the resets that were due and not transmitted. */
  lemma LostAre(slots: seq<Slot>, orphans: seq<nat>, out: set<nat>)
    requires DueClosed(slots)
    ensures LostResets(Transmitted(slots, out), orphans) == ResetsDue(slots, orphans) - out
  {
  }

  lemma SweptDue(slots: seq<Slot>, orphans: seq<nat>, out: set<nat>)
    requires DueClosed(slots)
    ensures var sent := Transmitted(slots, out);
            forall h :: h in ResetsDue(slots, orphans) ==>
              h < |slots| && SweptSlots(sent, orphans)[h].Free? && h !in Unfinished(sent, orphans)
  {
    var sent := Transmitted(slots, out);
    forall h | h in ResetsDue(slots, orphans)
      ensures SweptSlots(sent, orphans)[h].Free? && h !in Unfinished(sent, orphans)
    {
      FinishedLeaves(sent, orphans, h);
    }
  }

  lemma {:induction false} FinishedLeaves(slots: seq<Slot>, orphans: seq<nat>, h: nat)
    requires FinishedIn(slots, h)
    ensures h !in Unfinished(slots, orphans)
  {
    if orphans != [] {
      FinishedLeaves(slots, orphans[..|orphans| - 1], h);
    }
  }

  /** `Socket::abort`: closed at once, with a reset to be sent if there is a peer. */
  function Aborted(s: Slot): (r: Slot)
    requires s.Tcp?
    ensures r.Tcp? && r.state.Closed?
  {
    Tcp(Closed, s.rstDue || (!s.state.Closed? && !s.state.Listen?))
  }

  predicate Distinct(s: seq<nat>) {
    forall i, j :: 0 <= i < j < |s| ==> s[i] != s[j]
  }

  /** A slot after cleanup: an orphan that has finished is gone. */
  function Swept(s: Slot, orphan: bool): Slot {
    if orphan && s.Tcp? && Finished(s.state) then Free else s
  }

  lemma AtMostOnceEach(s: seq<nat>, others: multiset<nat>, slots: seq<Slot>)
    requires others + multiset(s) == LiveBag(slots, TcpKind)
    ensures Distinct(s)
  {
    hide LiveBag;
    forall i, j | 0 <= i < j < |s| ensures s[i] != s[j] {
      TwiceInSeq(s, i, j);
      InBag(slots, TcpKind, s[j]);
    }
  }

  lemma TwiceInSeq(s: seq<nat>, i: nat, j: nat)
    requires i < j < |s|
    ensures s[i] == s[j] ==> multiset(s)[s[j]] >= 2
  {
    var front, back := s[..j], s[j..];
    assert s == front + back;
    assert front[i] == s[i] && back[0] == s[j];
    assert s[i] in multiset(front) && s[j] in multiset(back);
  }

  /** All slots after a cleanup of the given orphans. */
  function SweptSlots(slots: seq<Slot>, orphans: seq<nat>): (r: seq<Slot>)
    ensures |r| == |slots|
    ensures forall h :: 0 <= h < |slots| ==> r[h] == Swept(slots[h], h in orphans)
  {
    seq(|slots|, h requires 0 <= h < |slots| => Swept(slots[h], h in orphans))
  }

  lemma SweptStep(slots: seq<Slot>, orphans: seq<nat>, k: nat)
    requires k < |orphans|
    ensures var now, h := SweptSlots(slots, orphans[..k]), orphans[k];
            h < |slots| && now[h].Tcp? ==>
              && now[h] == slots[h]
              && SweptSlots(slots, orphans[..k + 1]) == if Finished(slots[h].state) then now[h := Free] else now
  {
    assert orphans[..k + 1] == orphans[..k] + [orphans[k]];
  }

  lemma NothingUnfinished(slots: seq<Slot>, none: seq<nat>)
    requires none == []
    ensures Unfinished(slots, none) == [] && SweptSlots(slots, none) == slots
  {
  }
}
