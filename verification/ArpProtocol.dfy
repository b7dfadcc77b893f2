/**
 The shared ARP cache as a concurrent protocol: queue 0 scans packets and publishes a map and a
 version counter; every other queue refills its batch, reads the version, loads the map, pushes one
 frame per entry, commits the version and pops the newest packet. Each atomic access is one step,
 steps of different threads interleave freely, and every read sees the latest write.
 */
module ArpProtocol {
  import opened Bytes
  import opened ArpFrame
  import Injection

  type Table = map<Ip, Mac>

  /** Last writer wins. */
  function Fold(entries: seq<Entry>): Table {
    if entries == [] then map[]
    else
      var last := entries[|entries| - 1];
      Fold(entries[..|entries| - 1])[last.ip := last.mac]
  }

  /** The ARP replies among the packets, in order. */
  function Replies(packets: seq<bytes>): seq<Entry> {
    if packets == [] then []
    else
      Replies(packets[..|packets| - 1]) +
      match ParseArpReply(packets[|packets| - 1])
      case None => []
      case Some(entry) => [entry]
  }

  /** Program points of `insert` in the producer. */
  datatype Producer =
    | Idle
    | Inserting(entry: Entry)
    | Loaded(entry: Entry, current: Table)
    | Stored(entry: Entry)

  /** Program points of `receive` in a consumer: polled, injecting, and ready to pop. */
  datatype Consumer =
    | Resting
    | Polled
    | SawVersion(version: nat)
    | Injecting(version: nat, snapshot: Table, todo: seq<Ip>)
    | Ready

  /** A packet in a receive batch: an ARP frame with its entry, or other traffic. */
  type Frame = Option<Entry>

  /**
   What a proof needs to remember about a consumer: how many inserts were complete when its last
   committed and its current version were read, how many stores its last full and its current
   snapshot and any snapshot so far contain, and what lay in the batch under the frames of the
   current and of the last full snapshot.
   */
  datatype History = History(
    lastSeen: nat, seen: nat, fullCovers: nat, covers: nat, top: nat, start: seq<Frame>, below: seq<Frame>)

  /**
   `last` is `last_cache_version`, `full` the snapshot last injected in full, `batch` the waiting
   packets, and `popped` the ARP entries handed to the stack so far, in order.
   */
  datatype Queue = Queue(
    pc: Consumer, last: nat, full: Table, batch: seq<Frame>, popped: seq<Entry>, history: History)

  /** `scanned` are the packets queue 0 has looked at; `log` are the inserts whose version bump is done. */
  datatype State = State(
    inner: Table,
    version: nat,
    producer: Producer,
    queues: seq<Queue>,
    scanned: seq<bytes>,
    log: seq<Entry>)

  datatype Step =
    | Scan(packet: bytes)
    | Load
    | Store
    | Bump
    | Poll(q: nat, others: nat)
    | ReadVersion(q: nat)
    | LoadSnapshot(q: nat, order: seq<Ip>)
    | Push(q: nat)
    | GiveUp(q: nat)
    | Commit(q: nat)
    | Pop(q: nat)

  function Init(n: nat): State {
    State(map[], 0, Idle, seq(n, _ => Queue(Resting, 0, map[], [], [], History(0, 0, 0, 0, 0, [], []))), [], [])
  }

  /** A hash map is iterated in some order that lists every key once. */
  predicate Lists(order: seq<Ip>, table: Table) {
    && (forall i, j :: 0 <= i < j < |order| ==> order[i] != order[j])
    && (set ip | ip in order) == table.Keys
  }

  function WithQueue(s: State, q: nat, queue: Queue): State
    requires q < |s.queues|
  {
    s.(queues := s.queues[q := queue])
  }

  /** How many stores into the shared map have happened. */
  function Stores(s: State): nat {
    |s.log| + if s.producer.Stored? then 1 else 0
  }

  /** What the stack knows after it has processed one more packet. */
  function Learn(table: Table, frame: Frame): Table {
    match frame
    case None => table
    case Some(entry) => table[entry.ip := entry.mac]
  }

  function PopTop(queue: Queue): Queue {
    if queue.batch == [] then queue
    else
      var n := |queue.batch| - 1;
      queue.(batch := queue.batch[..n],
             popped := queue.popped + if queue.batch[n].Some? then [queue.batch[n].value] else [])
  }

  /** One step of a consumer; a queue that is not at the right point does nothing. */
  function Moved(s: State, queue: Queue, step: Step): Queue {
    match (step, queue.pc)
    case (Poll(_, others), Resting) =>
      queue.(pc := Polled,
             batch := if queue.batch == [] then seq(Min(others, Injection.RX_CAPACITY), _ => None) else queue.batch)
    case (ReadVersion(_), Polled) =>
      if s.version == queue.last then queue.(pc := Ready)
      else queue.(pc := SawVersion(s.version), history := queue.history.(seen := |s.log|))
    case (LoadSnapshot(_, order), SawVersion(version)) =>
      if Lists(order, s.inner)
      then queue.(pc := Injecting(version, s.inner, order),
                  history := queue.history.(covers := Stores(s), top := Stores(s), start := queue.batch))
      else queue
    case (Push(_), Injecting(version, snapshot, todo)) =>
      if todo != [] && todo[0] in snapshot && |queue.batch| < Injection.RX_CAPACITY
      then queue.(pc := queue.pc.(todo := todo[1..]), batch := queue.batch + [Some(Entry(todo[0], snapshot[todo[0]]))])
      else queue
    case (GiveUp(_), Injecting(_, _, todo)) =>
      if todo != [] then queue.(pc := Ready) else queue
    case (Commit(_), Injecting(version, snapshot, todo)) =>
      if todo == []
      then
        var h := queue.history;
        queue.(pc := Ready, last := version, full := snapshot,
               history := h.(lastSeen := h.seen, fullCovers := h.covers, below := h.start))
      else queue
    case (Pop(_), Ready) => PopTop(queue).(pc := Resting)
    case _ => queue
  }

  function QueueStep(s: State, step: Step): State
    requires !ByProducer(step)
  {
    if step.q < |s.queues| then WithQueue(s, step.q, Moved(s, s.queues[step.q], step)) else s
  }

  predicate ByProducer(step: Step) {
    step.Scan? || step.Load? || step.Store? || step.Bump?
  }

  function ProducerStep(s: State, step: Step): State {
    match (step, s.producer)
    case (Scan(packet), Idle) =>
      var t := s.(scanned := s.scanned + [packet]);
      (match ParseArpReply(packet)
       case None => t
       case Some(entry) => t.(producer := Inserting(entry)))
    case (Load, Inserting(entry)) => s.(producer := Loaded(entry, s.inner))
    case (Store, Loaded(entry, current)) =>
      if entry.ip in current && current[entry.ip] == entry.mac
      then s.(producer := Stored(entry))
      else s.(producer := Stored(entry), inner := current[entry.ip := entry.mac])
    case (Bump, Stored(entry)) =>
      s.(producer := Idle, version := (s.version + 1) % USIZE_LIMIT, log := s.log + [entry])
    case _ => s
  }

  /** A step that is not enabled changes nothing. */
  function Apply(s: State, step: Step): (r: State)
    ensures |r.queues| == |s.queues|
  {
    if ByProducer(step) then ProducerStep(s, step) else QueueStep(s, step)
  }

  function From(s: State, steps: seq<Step>): (r: State)
    ensures |r.queues| == |s.queues|
  {
    if steps == [] then s else Apply(From(s, steps[..|steps| - 1]), steps[|steps| - 1])
  }

  function Run(n: nat, steps: seq<Step>): (r: State)
    ensures |r.queues| == n
  {
    From(Init(n), steps)
  }

  // ---------------------------------------------------------------- what the stack will know

  /** The table after the whole batch has been popped as well: the lowest frame comes last and wins. */
  function Under(table: Table, batch: seq<Frame>): Table {
    if batch == [] then table else Learn(Under(table, batch[1..]), batch[0])
  }

  function Drained(queue: Queue): Table {
    Under(Fold(queue.popped), queue.batch)
  }

  /** The MAC in the lowest frame of the batch for an address. */
  function Lowest(batch: seq<Frame>, ip: Ip): Option<Mac> {
    if batch == [] then None
    else if batch[0].Some? && batch[0].value.ip == ip then Some(batch[0].value.mac)
    else Lowest(batch[1..], ip)
  }

  /** No frame that would be the last one for its address contradicts the table. */
  ghost predicate Agrees(table: Table, batch: seq<Frame>) {
    forall ip :: AgreesAt(table, batch, ip)
  }

  predicate AgreesAt(table: Table, batch: seq<Frame>, ip: Ip) {
    Lowest(batch, ip).Some? ==> ip in table && table[ip] == Lowest(batch, ip).value
  }

  function Addresses(batch: seq<Frame>): set<Ip> {
    if batch == [] then {}
    else (if batch[0].Some? then {batch[0].value.ip} else {}) + Addresses(batch[1..])
  }

  lemma {:induction false} UnderConcat(table: Table, a: seq<Frame>, b: seq<Frame>)
    ensures Under(table, a + b) == Under(Under(table, b), a)
    ensures Addresses(a + b) == Addresses(a) + Addresses(b)
  {
    hide Learn;
    if a == [] {
      assert a + b == b;
    } else {
      UnderConcat(table, a[1..], b);
      assert (a + b)[0] == a[0] && (a + b)[1..] == a[1..] + b;
    }
  }

  lemma UnderOne(table: Table, frame: Frame)
    ensures Under(table, [frame]) == Learn(table, frame)
    ensures Addresses([frame]) == if frame.Some? then {frame.value.ip} else {}
  {
    assert [frame][1..] == [];
  }

  lemma {:induction false} UnderLookup(table: Table, batch: seq<Frame>, ip: Ip)
    ensures ip in Under(table, batch) <==> Lowest(batch, ip).Some? || ip in table
    ensures ip in Under(table, batch) ==>
              Under(table, batch)[ip] == if Lowest(batch, ip).Some? then Lowest(batch, ip).value else table[ip]
    ensures Lowest(batch, ip).Some? <==> ip in Addresses(batch)
  {
    if batch != [] {
      UnderLookup(table, batch[1..], ip);
    }
  }

  /** Draining a batch leaves a table as it is exactly when the lowest frame of every address agrees with it. */
  lemma UnderSame(table: Table, batch: seq<Frame>)
    ensures Under(table, batch) == table <==> Agrees(table, batch)
  {
    hide Under, Lowest;
    var u := Under(table, batch);
    forall ip ensures AgreesAt(table, batch, ip) <==> (ip in u <==> ip in table) && (ip in u ==> u[ip] == table[ip]) {
      UnderLookup(table, batch, ip);
    }
    if Agrees(table, batch) {
      assert forall ip :: AgreesAt(table, batch, ip);
      assert u == table;
    }
  }

  /** Frames that all come from one snapshot put its values in force and nothing else. */
  lemma {:induction false} UnderSnapshot(table: Table, snapshot: Table, batch: seq<Frame>)
    requires forall i :: 0 <= i < |batch| ==> FromSnapshot(snapshot, batch[i])
    requires snapshot.Keys <= Addresses(batch) && table.Keys <= snapshot.Keys
    ensures Under(table, batch) == snapshot
  {
    hide Under, Addresses;
    var u := Under(table, batch);
    forall ip ensures (ip in u <==> ip in snapshot) && (ip in u ==> u[ip] == snapshot[ip]) {
      UnderLookup(table, batch, ip);
      LowestFrom(snapshot, batch, ip);
    }
    assert u == snapshot;
  }

  predicate FromSnapshot(snapshot: Table, frame: Frame) {
    frame.Some? && frame.value.ip in snapshot && snapshot[frame.value.ip] == frame.value.mac
  }

  lemma {:induction false} LowestFrom(snapshot: Table, batch: seq<Frame>, ip: Ip)
    requires forall i :: 0 <= i < |batch| ==> FromSnapshot(snapshot, batch[i])
    ensures Lowest(batch, ip).Some? ==> ip in snapshot && snapshot[ip] == Lowest(batch, ip).value
  {
    if batch != [] {
      LowestFrom(snapshot, batch[1..], ip);
    }
  }

  /** Other traffic teaches the stack no address. */
  lemma {:induction false} OthersTeachNothing(table: Table, others: seq<Frame>)
    requires forall i :: 0 <= i < |others| ==> others[i].None?
    ensures Under(table, others) == table && Addresses(others) == {}
  {
    if others != [] {
      OthersTeachNothing(table, others[1..]);
    }
  }

  lemma PopDrains(queue: Queue)
    ensures Drained(PopTop(queue)) == Drained(queue)
    ensures Fold(PopTop(queue).popped).Keys + Addresses(PopTop(queue).batch)
         == Fold(queue.popped).Keys + Addresses(queue.batch)
  {
    hide Under, Addresses, Fold;
    if queue.batch != [] {
      var n := |queue.batch| - 1;
      var table, frame := Fold(queue.popped), queue.batch[n];
      assert queue.batch == queue.batch[..n] + [frame];
      UnderConcat(table, queue.batch[..n], [frame]);
      UnderOne(table, frame);
      if frame.Some? {
        FoldSnoc(queue.popped, frame.value);
      } else {
        assert queue.popped + [] == queue.popped;
      }
    }
  }

  // ---------------------------------------------------------------- folds

  lemma FoldSnoc(entries: seq<Entry>, e: Entry)
    ensures Fold(entries + [e]) == Fold(entries)[e.ip := e.mac]
  {
    assert (entries + [e])[..|entries|] == entries;
  }

  lemma RepliesSnoc(packets: seq<bytes>, p: bytes)
    ensures Replies(packets + [p]) ==
            Replies(packets) + match ParseArpReply(p) case None => [] case Some(entry) => [entry]
  {
    assert (packets + [p])[..|packets|] == packets;
  }

  /** The table knows exactly the addresses of the entries, each with the MAC of its last entry. */
  lemma {:induction false} FoldExact(entries: seq<Entry>, ip: Ip)
    ensures ip in Fold(entries) <==> exists k: nat :: LastFor(entries, ip, k)
    ensures forall k: nat :: LastFor(entries, ip, k) ==> ip in Fold(entries) && Fold(entries)[ip] == entries[k].mac
  {
    if entries != [] {
      var n := |entries| - 1;
      FoldExact(entries[..n], ip);
      assert entries[n].ip == ip ==> LastFor(entries, ip, n);
      assert forall k: nat :: entries[n].ip != ip ==> (LastFor(entries, ip, k) <==> LastFor(entries[..n], ip, k));
    }
  }

  predicate LastFor(entries: seq<Entry>, ip: Ip, k: nat) {
    k < |entries| && entries[k].ip == ip && forall i :: k < i < |entries| ==> entries[i].ip != ip
  }

  /** Nothing is published of a batch without ARP replies. */
  lemma {:induction false} OthersPublishNothing(packets: seq<bytes>)
    requires forall i :: 0 <= i < |packets| ==> !IsReply(packets[i])
    ensures Replies(packets) == []
  {
    hide IsReply, ParseArpReply;
    if packets != [] {
      var n := |packets| - 1;
      assert !IsReply(packets[n]);
      ReplyIff(packets[n], Entry(Ip(0, 0, 0, 0), Mac(0, 0, 0, 0, 0, 0)));
      OthersPublishNothing(packets[..n]);
    }
  }

  /** Each reply is published once, with its sender, in the order of the batch, and nothing else is. */
  lemma RepliesExact(packets: seq<bytes>, i: nat, e: Entry)
    requires i < |packets|
    ensures IsReplyFrom(packets[i], e) ==> Replies(packets[..i + 1]) == Replies(packets[..i]) + [e]
    ensures !IsReply(packets[i]) ==> Replies(packets[..i + 1]) == Replies(packets[..i])
    ensures Replies([]) == []
  {
    hide IsReplyFrom, IsReply, ParseArpReply;
    ReplyIff(packets[i], e);
    assert packets[..i + 1] == packets[..i] + [packets[i]];
    RepliesSnoc(packets[..i], packets[i]);
  }

  /** A longer history knows every address a shorter one knows. */
  lemma {:induction false} FoldKeysGrow(entries: seq<Entry>, a: nat, b: nat)
    requires a <= b <= |entries|
    ensures Fold(entries[..a]).Keys <= Fold(entries[..b]).Keys
    decreases b - a
  {
    if a < b {
      FoldKeysGrow(entries, a, b - 1);
      assert entries[..b] == entries[..b - 1] + [entries[b - 1]];
      FoldSnoc(entries[..b - 1], entries[b - 1]);
    }
  }

  // ---------------------------------------------------------------- the invariant

  /** Every insert begun so far. */
  function Begun(s: State): seq<Entry> {
    s.log + if s.producer.Idle? then [] else [s.producer.entry]
  }

  ghost predicate ProducerInv(s: State) {
    && s.version == |s.log| % USIZE_LIMIT
    && Begun(s) == Replies(s.scanned)
    && s.inner == Fold(Begun(s)[..Stores(s)])
    && (s.producer.Loaded? ==> s.producer.current == s.inner)
  }

  ghost predicate QueueInv(s: State, queue: Queue) {
    var h, begun := queue.history, Begun(s);
    && h.lastSeen <= h.fullCovers <= Stores(s) && h.lastSeen <= |s.log|
    && h.top <= Stores(s)
    && queue.last == h.lastSeen % USIZE_LIMIT
    && queue.full == Fold(begun[..h.fullCovers])
    && |queue.batch| <= Injection.RX_CAPACITY
    && (h.lastSeen < |s.log| || Drained(queue) == Under(queue.full, h.below))
    && Fold(queue.popped).Keys + Addresses(queue.batch) <= Fold(begun[..h.top]).Keys
    && (queue.pc.SawVersion? || queue.pc.Injecting? ==>
          queue.pc.version == h.seen % USIZE_LIMIT && h.lastSeen < h.seen <= |s.log|)
    && (queue.pc.Injecting? ==>
          && h.seen <= h.covers <= Stores(s) && h.top == h.covers
          && queue.pc.snapshot == Fold(begun[..h.covers])
          && Injected(queue))
  }

  /** On top of the batch of the load there are only frames of the snapshot; what is missing is still to be pushed. */
  ghost predicate Injected(queue: Queue)
    requires queue.pc.Injecting?
  {
    var n := |queue.history.start|;
    && n <= |queue.batch| && queue.batch[..n] == queue.history.start
    && (forall i :: n <= i < |queue.batch| ==> FromSnapshot(queue.pc.snapshot, queue.batch[i]))
    && (forall ip :: ip in queue.pc.snapshot ==> ip in queue.pc.todo || ip in Addresses(queue.batch[n..]))
  }

  ghost predicate Inv(s: State) {
    ProducerInv(s) && forall q :: 0 <= q < |s.queues| ==> QueueInv(s, s.queues[q])
  }

  lemma InitInv(n: nat)
    ensures Inv(Init(n))
  {
  }

  // ---------------------------------------------------------------- producer steps

  /** What a producer step may do to the shared state, as the consumers see it. */
  ghost predicate Advances(s: State, t: State) {
    && t.queues == s.queues && Stores(s) <= Stores(t) && |s.log| <= |t.log|
    && Begun(t)[..Stores(s)] == Begun(s)[..Stores(s)]
  }

  lemma ScanKeeps(s: State, packet: bytes)
    requires ProducerInv(s) && s.producer.Idle?
    ensures ProducerInv(ProducerStep(s, Scan(packet))) && Advances(s, ProducerStep(s, Scan(packet)))
  {
    hide ParseArpReply;
    RepliesSnoc(s.scanned, packet);
    var t := ProducerStep(s, Scan(packet));
    assert Begun(t)[..Stores(s)] == s.log == Begun(s)[..Stores(s)];
  }

  lemma StoreKeeps(s: State)
    requires ProducerInv(s) && s.producer.Loaded?
    ensures ProducerInv(ProducerStep(s, Store)) && Advances(s, ProducerStep(s, Store))
  {
    var entry, t := s.producer.entry, ProducerStep(s, Store);
    assert Begun(s)[..Stores(s)] == s.log;
    FoldSnoc(s.log, entry);
    assert Begun(t)[..Stores(t)] == s.log + [entry];
    assert s.producer.current[entry.ip := entry.mac] == t.inner;
    assert Begun(t) == Begun(s);
  }

  lemma BumpKeeps(s: State)
    requires ProducerInv(s) && s.producer.Stored?
    ensures ProducerInv(ProducerStep(s, Bump)) && Advances(s, ProducerStep(s, Bump))
  {
    hide Fold, Replies;
    var t := ProducerStep(s, Bump);
    assert Begun(t) == Begun(s);
    assert Begun(s)[..Stores(s)] == Begun(s);
    assert Stores(t) == Stores(s);
  }

  lemma ProducerKeeps(s: State, step: Step)
    requires ProducerInv(s)
    ensures ProducerInv(ProducerStep(s, step)) && Advances(s, ProducerStep(s, step))
  {
    hide Fold, Replies, ParseArpReply;
    match (step, s.producer)
    case (Scan(packet), Idle) => ScanKeeps(s, packet);
    case (Load, Inserting(entry)) =>
    case (Store, Loaded(entry, current)) => StoreKeeps(s);
    case (Bump, Stored(entry)) => BumpKeeps(s);
    case _ =>
  }

  lemma SlicesAgree(a: seq<Entry>, b: seq<Entry>, n: nat, k: nat)
    requires k <= n <= |a| && n <= |b| && a[..n] == b[..n]
    ensures a[..k] == b[..k]
  {
    assert a[..k] == a[..n][..k] && b[..k] == b[..n][..k];
  }

  lemma QueueSurvivesProducer(s: State, t: State, queue: Queue)
    requires QueueInv(s, queue) && Advances(s, t)
    ensures QueueInv(t, queue)
  {
    hide Fold, Injected;
    SlicesAgree(Begun(t), Begun(s), Stores(s), queue.history.fullCovers);
    SlicesAgree(Begun(t), Begun(s), Stores(s), queue.history.top);
    if queue.pc.Injecting? {
      SlicesAgree(Begun(t), Begun(s), Stores(s), queue.history.covers);
    }
  }

  // ---------------------------------------------------------------- consumer steps

  lemma PollKeeps(s: State, queue: Queue, others: nat)
    requires QueueInv(s, queue) && queue.pc.Resting?
    ensures QueueInv(s, Moved(s, queue, Poll(0, others)))
  {
    hide Fold;
    if queue.batch == [] {
      OthersTeachNothing(Fold(queue.popped), seq(Min(others, Injection.RX_CAPACITY), _ => None));
    }
  }

  lemma ReadVersionKeeps(s: State, queue: Queue)
    requires ProducerInv(s) && QueueInv(s, queue) && queue.pc.Polled?
    ensures QueueInv(s, Moved(s, queue, ReadVersion(0)))
  {
    hide Fold, Under, Addresses;
  }

  lemma LoadSnapshotKeeps(s: State, queue: Queue, order: seq<Ip>)
    requires ProducerInv(s) && QueueInv(s, queue) && queue.pc.SawVersion?
    ensures QueueInv(s, Moved(s, queue, LoadSnapshot(0, order)))
  {
    hide Fold, Under, Addresses;
    FoldKeysGrow(Begun(s), queue.history.top, Stores(s));
    assert queue.batch[..|queue.batch|] == queue.batch;
    assert Lists(order, s.inner) ==> forall ip :: ip in s.inner ==> ip in (set x | x in order);
  }

  lemma PushKeeps(s: State, queue: Queue)
    requires QueueInv(s, queue) && queue.pc.Injecting?
    ensures QueueInv(s, Moved(s, queue, Push(0)))
  {
    hide Fold, Under, Addresses;
    var queue' := Moved(s, queue, Push(0));
    var n := |queue.history.start|;
    if queue' != queue {
      var ip := queue.pc.todo[0];
      var frame: Frame := Some(Entry(ip, queue.pc.snapshot[ip]));
      UnderConcat(map[], queue.batch, [frame]);
      UnderConcat(map[], queue.batch[n..], [frame]);
      UnderOne(map[], frame);
      assert queue'.batch[n..] == queue.batch[n..] + [frame];
      assert queue'.batch[..n] == queue.batch[..n];
      assert queue.pc.todo == [ip] + queue'.pc.todo;
    }
  }

  lemma CommitKeeps(s: State, queue: Queue)
    requires QueueInv(s, queue) && queue.pc.Injecting?
    ensures QueueInv(s, Moved(s, queue, Commit(0)))
  {
    hide Fold, Under, Addresses;
    if queue.pc.todo == [] {
      var table, snapshot, n := Fold(queue.popped), queue.pc.snapshot, |queue.history.start|;
      var mine := queue.batch[n..];
      assert queue.batch == queue.history.start + mine;
      assert forall i :: 0 <= i < |mine| ==> mine[i] == queue.batch[n + i];
      assert forall ip :: ip in snapshot ==> ip in Addresses(mine);
      UnderSnapshot(table, snapshot, mine);
      UnderConcat(table, queue.history.start, mine);
    }
  }

  lemma PopKeeps(s: State, queue: Queue)
    requires QueueInv(s, queue) && queue.pc.Ready?
    ensures QueueInv(s, Moved(s, queue, Pop(0)))
  {
    hide Fold, Under, Addresses;
    PopDrains(queue);
  }

  lemma MovedKeeps(s: State, queue: Queue, step: Step)
    requires ProducerInv(s) && QueueInv(s, queue)
    ensures QueueInv(s, Moved(s, queue, step))
  {
    hide QueueInv, ProducerInv, Lists, PopTop;
    match (step, queue.pc) {
      case (Poll(_, others), Resting) => PollKeeps(s, queue, others);
      case (ReadVersion(_), Polled) => ReadVersionKeeps(s, queue);
      case (LoadSnapshot(_, order), SawVersion(_)) => LoadSnapshotKeeps(s, queue, order);
      case (Push(_), Injecting(_, _, _)) => PushKeeps(s, queue);
      case (GiveUp(_), Injecting(_, _, _)) => GiveUpKeeps(s, queue);
      case (Commit(_), Injecting(_, _, _)) => CommitKeeps(s, queue);
      case (Pop(_), Ready) => PopKeeps(s, queue);
      case _ =>
    }
  }

  lemma QueueStepKeeps(s: State, step: Step)
    requires Inv(s) && !ByProducer(step)
    ensures Inv(QueueStep(s, step))
  {
    hide QueueInv, ProducerInv, Moved;
    var t := QueueStep(s, step);
    SameProducer(s, t);
    if step.q < |s.queues| {
      MovedKeeps(s, s.queues[step.q], step);
    }
    forall i | 0 <= i < |t.queues| ensures QueueInv(t, t.queues[i]) {
      assert QueueInv(s, t.queues[i]);
      SameShared(s, t, t.queues[i]);
    }
  }

  lemma GiveUpKeeps(s: State, queue: Queue)
    requires QueueInv(s, queue) && queue.pc.Injecting?
    ensures QueueInv(s, Moved(s, queue, GiveUp(0)))
  {
    hide Fold, Under, Addresses;
  }

  lemma SameProducer(s: State, t: State)
    requires t == s.(queues := t.queues)
    ensures ProducerInv(s) ==> ProducerInv(t)
  {
  }

  lemma SameShared(s: State, t: State, queue: Queue)
    requires t == s.(queues := t.queues)
    ensures QueueInv(s, queue) ==> QueueInv(t, queue)
  {
  }

  lemma ApplyKeeps(s: State, step: Step)
    requires Inv(s)
    ensures Inv(Apply(s, step))
  {
    hide QueueInv, ProducerInv, QueueStep, ProducerStep;
    if ByProducer(step) {
      ProducerKeeps(s, step);
      var t := ProducerStep(s, step);
      forall q | 0 <= q < |t.queues| ensures QueueInv(t, t.queues[q]) {
        QueueSurvivesProducer(s, t, t.queues[q]);
      }
    } else {
      QueueStepKeeps(s, step);
    }
  }

  lemma {:induction false} FromKeeps(s: State, steps: seq<Step>)
    requires Inv(s)
    ensures Inv(From(s, steps))
  {
    hide Inv, Apply;
    if steps != [] {
      FromKeeps(s, steps[..|steps| - 1]);
      ApplyKeeps(From(s, steps[..|steps| - 1]), steps[|steps| - 1]);
    }
  }

  /** Every interleaving keeps the invariant. */
  lemma RunKeeps(n: nat, steps: seq<Step>)
    ensures Inv(Run(n, steps))
  {
    InitInv(n);
    FromKeeps(Init(n), steps);
  }

  // ---------------------------------------------------------------- theorems

  /**
   In every interleaving, the snapshot a consumer last injected in full contains at least the
   first `lastSeen` inserts, where `last_cache_version` is `lastSeen` modulo the counter's width.
   */
  lemma FullSnapshotCovers(n: nat, steps: seq<Step>, q: nat)
    requires q < |Run(n, steps).queues|
    ensures var s := Run(n, steps);
            var queue := s.queues[q];
            var inserts := Replies(s.scanned);
            && queue.last == queue.history.lastSeen % USIZE_LIMIT
            && queue.history.lastSeen <= queue.history.fullCovers <= |inserts|
            && queue.full == Fold(inserts[..queue.history.fullCovers])
  {
    RunKeeps(n, steps);
    assert QueueInv(Run(n, steps), Run(n, steps).queues[q]);
  }

  /** The shared map is the last-writer-wins fold of the ARP replies queue 0 has scanned. */
  lemma MapIsFold(n: nat, steps: seq<Step>)
    requires Run(n, steps).producer.Idle?
    ensures Run(n, steps).inner == Fold(Replies(Run(n, steps).scanned))
  {
    RunKeeps(n, steps);
    var s := Run(n, steps);
    assert Begun(s)[..Stores(s)] == Begun(s);
  }

  /**
   A consumer whose version equals the cache's while the producer is idle has injected exactly the
   current map, unless a whole multiple of 2^64 inserts went by since its last commit; its version
   equals the cache's in those cases only. But the batch is popped from the top, so the frame that
   counts for an address is the lowest one: what the stack knows once the batch has been drained is
   the current map if and only if the batch that lay below the pushed frames agrees with the map,
   that is, its lowest frame for each address carries the current MAC.
   */
  lemma QuietConsumerIsCurrent(n: nat, steps: seq<Step>, q: nat)
    requires q < |Run(n, steps).queues| && Run(n, steps).producer.Idle?
    ensures var s := Run(n, steps);
            var queue := s.queues[q];
            && queue.history.lastSeen <= |Replies(s.scanned)|
            && (queue.last == s.version <==> (|Replies(s.scanned)| - queue.history.lastSeen) % USIZE_LIMIT == 0)
            && (queue.last == s.version && |Replies(s.scanned)| - queue.history.lastSeen < USIZE_LIMIT ==>
                  && queue.full == s.inner == Fold(Replies(s.scanned))
                  && (Drained(queue) == s.inner <==> Agrees(s.inner, queue.history.below)))
  {
    hide Fold, Run, Replies, QueueInv, ProducerInv, Drained, Agrees;
    RunKeeps(n, steps);
    var s := Run(n, steps);
    assert QueueInv(s, s.queues[q]);
    QuietState(s, s.queues[q]);
  }

  lemma QuietState(s: State, queue: Queue)
    requires ProducerInv(s) && QueueInv(s, queue) && s.producer.Idle?
    ensures |s.log| == |Replies(s.scanned)| && queue.history.lastSeen <= |s.log|
    ensures queue.last == s.version <==> (|s.log| - queue.history.lastSeen) % USIZE_LIMIT == 0
    ensures queue.last == s.version && |s.log| - queue.history.lastSeen < USIZE_LIMIT ==>
              && queue.full == s.inner == Fold(Replies(s.scanned))
              && (Drained(queue) == s.inner <==> Agrees(s.inner, queue.history.below))
  {
    hide Fold, Replies, Drained, Under, Agrees, Addresses;
    var h := queue.history;
    assert Begun(s) == s.log && Begun(s)[..Stores(s)] == s.log;
    SameResidue(|s.log|, h.lastSeen);
    if queue.last == s.version && |s.log| - h.lastSeen < USIZE_LIMIT {
      SmallMultiple(|s.log| - h.lastSeen);
      assert h.fullCovers == |s.log|;
      UnderSame(queue.full, h.below);
    }
  }

  /** Bumping a wrapped counter is wrapping the bumped count. */
  lemma NextVersion(n: nat)
    ensures (n % USIZE_LIMIT + 1) % USIZE_LIMIT == (n + 1) % USIZE_LIMIT
  {
  }

  lemma SmallMultiple(d: nat)
    requires d < USIZE_LIMIT && d % USIZE_LIMIT == 0
    ensures d == 0
  {
  }

  lemma SameResidue(a: nat, b: nat)
    requires b <= a
    ensures a % USIZE_LIMIT == b % USIZE_LIMIT <==> (a - b) % USIZE_LIMIT == 0
  {
  }
}
