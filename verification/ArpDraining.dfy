/**
 Runs of the ARP protocol in which a consumer drains its batch: what the stack then knows, and a run
 after which it holds an outdated address although the current version is committed.
 */
module ArpDraining {
  import opened Bytes
  import opened ArpFrame
  import opened ArpProtocol
  import Injection

  lemma {:induction false} FromConcat(s: State, a: seq<Step>, b: seq<Step>)
    ensures From(s, a + b) == From(From(s, a), b)
    decreases |b|
  {
    hide Apply;
    if b == [] {
      assert a + b == a;
    } else {
      var n := |b| - 1;
      FromConcat(s, a, b[..n]);
      assert (a + b)[..|a + b| - 1] == a + b[..n];
    }
  }

  lemma FromFirst(s: State, first: Step, rest: seq<Step>)
    ensures From(s, [first] + rest) == From(Apply(s, first), rest)
  {
    hide Apply;
    FromConcat(s, [first], rest);
    assert [first][..0] == [];
    assert From(s, [first]) == Apply(From(s, []), first);
  }

  /** One `receive` that finds no new version. */
  function Receive(q: nat): seq<Step> {
    [Poll(q, 0)] + ([ReadVersion(q)] + ([Pop(q)] + []))
  }

  function Receives(q: nat, k: nat): seq<Step> {
    if k == 0 then [] else Receive(q) + Receives(q, k - 1)
  }

  /** Other threads aside, a step of consumer `q` changes its own queue only. */
  lemma QueueFirst(s: State, q: nat, queue: Queue, step: Step, rest: seq<Step>)
    requires q < |s.queues| && !ByProducer(step) && step.q == q
    ensures From(WithQueue(s, q, queue), [step] + rest) == From(WithQueue(s, q, Moved(s, queue, step)), rest)
  {
    hide From;
    var t := WithQueue(s, q, queue);
    FromFirst(t, step, rest);
    assert Moved(t, queue, step) == Moved(s, queue, step);
    assert Apply(t, step) == WithQueue(s, q, Moved(s, queue, step));
  }

  /** A poll to which the hardware has nothing to give. */
  lemma IdlePoll(s: State, q: nat, queue: Queue)
    requires queue.pc.Resting?
    ensures Moved(s, queue, Poll(q, 0)) == queue.(pc := Polled)
  {
    assert Moved(s, queue, Poll(q, 0)).batch == queue.batch;
  }

  lemma NothingNew(s: State, q: nat, queue: Queue)
    requires s.version == queue.last
    ensures Moved(s, queue.(pc := Polled), ReadVersion(q)) == queue.(pc := Ready)
  {
  }

  lemma PopMoves(s: State, q: nat, queue: Queue)
    requires queue.pc.Ready?
    ensures Moved(s, queue, Pop(q)) == PopTop(queue).(pc := Resting)
  {
  }

  lemma ReceiveDoes(s: State, q: nat)
    requires q < |s.queues| && s.queues[q].pc.Resting? && s.queues[q].last == s.version
    ensures From(s, Receive(q)) == WithQueue(s, q, PopTop(s.queues[q]))
  {
    hide PopTop, From, Apply, Moved;
    var queue := s.queues[q];
    assert WithQueue(s, q, queue) == s;
    QueueFirst(s, q, queue, Poll(q, 0), [ReadVersion(q)] + ([Pop(q)] + []));
    IdlePoll(s, q, queue);
    QueueFirst(s, q, queue.(pc := Polled), ReadVersion(q), [Pop(q)] + []);
    NothingNew(s, q, queue);
    QueueFirst(s, q, queue.(pc := Ready), Pop(q), []);
    PopMoves(s, q, queue.(pc := Ready));
    PopTopKeepsPoint(queue);
    NoSteps(WithQueue(s, q, PopTop(queue)));
  }

  lemma PopTopKeepsPoint(queue: Queue)
    ensures PopTop(queue.(pc := Ready)).(pc := Resting) == PopTop(queue.(pc := Resting))
    ensures PopTop(queue) == queue.(batch := PopTop(queue).batch, popped := PopTop(queue).popped)
    ensures |PopTop(queue).batch| == if queue.batch == [] then 0 else |queue.batch| - 1
  {
  }

  /** Receiving until the batch is empty leaves the stack with exactly the drained table. */
  lemma {:induction false} ReceivesDrain(s: State, q: nat)
    requires q < |s.queues| && s.queues[q].pc.Resting? && s.queues[q].last == s.version
    ensures var t := From(s, Receives(q, |s.queues[q].batch|));
            && t == WithQueue(s, q, t.queues[q])
            && t.queues[q] == s.queues[q].(batch := [], popped := t.queues[q].popped)
            && Fold(t.queues[q].popped) == Drained(s.queues[q])
    decreases |s.queues[q].batch|
  {
    hide Fold, From, Receive, PopTop;
    var queue := s.queues[q];
    if queue.batch == [] {
      NoSteps(s);
    } else {
      var t := WithQueue(s, q, PopTop(queue));
      ReceiveDoes(s, q);
      PopTopKeepsPoint(queue);
      PopDrains(queue);
      ReceivesDrain(t, q);
      FromConcat(s, Receive(q), Receives(q, |queue.batch| - 1));
    }
  }

  lemma NoSteps(s: State)
    ensures From(s, []) == s
  {
  }

  /** Queue 0 scans one ARP reply and publishes it. */
  function Publish(packet: bytes): seq<Step> {
    [Scan(packet)] + ([Load] + ([Store] + ([Bump] + [])))
  }

  lemma PublishDoes(s: State, packet: bytes, entry: Entry)
    requires s.producer.Idle? && ParseArpReply(packet) == Some(entry)
    ensures From(s, Publish(packet)) ==
            s.(scanned := s.scanned + [packet], inner := s.inner[entry.ip := entry.mac],
               version := (s.version + 1) % USIZE_LIMIT, log := s.log + [entry])
  {
    hide From, ParseArpReply;
    var scanned := s.scanned + [packet];
    FromFirst(s, Scan(packet), [Load] + ([Store] + ([Bump] + [])));
    var s1 := s.(scanned := scanned, producer := Inserting(entry));
    assert Apply(s, Scan(packet)) == s1;
    FromFirst(s1, Load, [Store] + ([Bump] + []));
    var s2 := s1.(producer := Loaded(entry, s.inner));
    assert Apply(s1, Load) == s2;
    FromFirst(s2, Store, [Bump] + []);
    var s3 := s1.(producer := Stored(entry), inner := s.inner[entry.ip := entry.mac]);
    assert Apply(s2, Store) == s3 by {
      assert entry.ip in s.inner && s.inner[entry.ip] == entry.mac ==> s.inner == s3.inner;
    }
    FromFirst(s3, Bump, []);
    NoSteps(Apply(s3, Bump));
  }

  /** The first steps of a `receive` that finds a new version. */
  function Detect(q: nat, x: Ip, y: Ip): seq<Step> {
    [Poll(q, 0)] + ([ReadVersion(q)] + ([LoadSnapshot(q, [x, y])] + []))
  }

  /** Its other steps, when the snapshot has two entries: both are pushed and the second one is popped. */
  function PushTwo(q: nat): seq<Step> {
    [Push(q)] + ([Push(q)] + ([Commit(q)] + ([Pop(q)] + [])))
  }

  lemma DetectDoes(s: State, q: nat, x: Ip, y: Ip)
    requires q < |s.queues| && s.queues[q].pc.Resting? && s.queues[q].last != s.version
    requires x != y && s.inner.Keys == {x, y}
    ensures var t := From(s, Detect(q, x, y));
            && t == WithQueue(s, q, t.queues[q])
            && t.queues[q] == s.queues[q].(pc := Injecting(s.version, s.inner, [x, y]), history := t.queues[q].history)
  {
    hide From, Apply, Moved;
    var queue := s.queues[q];
    assert WithQueue(s, q, queue) == s;
    QueueFirst(s, q, queue, Poll(q, 0), [ReadVersion(q)] + ([LoadSnapshot(q, [x, y])] + []));
    IdlePoll(s, q, queue);
    QueueFirst(s, q, queue.(pc := Polled), ReadVersion(q), [LoadSnapshot(q, [x, y])] + []);
    var saw := Moved(s, queue.(pc := Polled), ReadVersion(q));
    QueueFirst(s, q, saw, LoadSnapshot(q, [x, y]), []);
    DetectMoves(s, q, queue.(pc := Polled), x, y);
    NoSteps(WithQueue(s, q, Moved(s, saw, LoadSnapshot(q, [x, y]))));
  }

  lemma DetectMoves(s: State, q: nat, queue: Queue, x: Ip, y: Ip)
    requires queue.pc.Polled? && queue.last != s.version && x != y && s.inner.Keys == {x, y}
    ensures var t := Moved(s, Moved(s, queue, ReadVersion(q)), LoadSnapshot(q, [x, y]));
            t == queue.(pc := Injecting(s.version, s.inner, [x, y]), history := t.history)
  {
    assert Lists([x, y], s.inner) by {
      assert (set ip | ip in [x, y]) == {x, y};
    }
  }

  /** The consumer's queue after both pushes and the commit. */
  function PushedTwo(queue: Queue, version: nat, snapshot: Table, x: Entry, y: Entry): Queue {
    var h := queue.history;
    queue.(pc := Ready, last := version, full := snapshot, batch := queue.batch + [Some(x)] + [Some(y)],
           history := h.(lastSeen := h.seen, fullCovers := h.covers, below := h.start))
  }

  lemma PushTwoMoves(s: State, q: nat, queue: Queue, x: Entry, y: Entry)
    requires queue.pc.Injecting? && queue.pc.todo == [x.ip, y.ip]
    requires FromSnapshot(queue.pc.snapshot, Some(x)) && FromSnapshot(queue.pc.snapshot, Some(y))
    requires |queue.batch| + 2 <= Injection.RX_CAPACITY
    ensures Moved(s, Moved(s, Moved(s, queue, Push(q)), Push(q)), Commit(q))
         == PushedTwo(queue, queue.pc.version, queue.pc.snapshot, x, y)
  {
    var one := Moved(s, queue, Push(q));
    assert one == queue.(pc := queue.pc.(todo := [y.ip]), batch := queue.batch + [Some(x)]);
    assert [y.ip][1..] == [];
    var two := Moved(s, one, Push(q));
    assert two == queue.(pc := queue.pc.(todo := []), batch := queue.batch + [Some(x)] + [Some(y)]);
  }

  lemma PushTwoDoes(s: State, q: nat, version: nat, snapshot: Table, x: Ip, y: Ip)
    requires q < |s.queues| && s.queues[q].pc == Injecting(version, snapshot, [x, y])
    requires x in snapshot && y in snapshot && |s.queues[q].batch| + 2 <= Injection.RX_CAPACITY
    ensures var t, queue := From(s, PushTwo(q)), s.queues[q];
            && t == WithQueue(s, q, t.queues[q])
            && t.queues[q].pc.Resting? && t.queues[q].last == version && t.queues[q].full == snapshot
            && t.queues[q].batch == queue.batch + [Some(Entry(x, snapshot[x]))]
            && t.queues[q].popped == queue.popped + [Entry(y, snapshot[y])]
  {
    hide From, Apply, Moved;
    var queue, ex, ey := s.queues[q], Entry(x, snapshot[x]), Entry(y, snapshot[y]);
    assert WithQueue(s, q, queue) == s;
    QueueFirst(s, q, queue, Push(q), [Push(q)] + ([Commit(q)] + ([Pop(q)] + [])));
    var one := Moved(s, queue, Push(q));
    QueueFirst(s, q, one, Push(q), [Commit(q)] + ([Pop(q)] + []));
    var two := Moved(s, one, Push(q));
    QueueFirst(s, q, two, Commit(q), [Pop(q)] + []);
    PushTwoMoves(s, q, queue, ex, ey);
    var done := PushedTwo(queue, version, snapshot, ex, ey);
    QueueFirst(s, q, done, Pop(q), []);
    PopMoves(s, q, done);
    assert done.batch[..|queue.batch| + 1] == queue.batch + [Some(ex)];
    NoSteps(WithQueue(s, q, Moved(s, done, Pop(q))));
  }

  /** One `receive` that injects a snapshot of two entries in full. */
  function InjectTwo(q: nat, x: Ip, y: Ip): seq<Step> {
    Detect(q, x, y) + PushTwo(q)
  }

  lemma InjectTwoDoes(s: State, q: nat, x: Ip, y: Ip)
    requires q < |s.queues| && s.queues[q].pc.Resting? && s.queues[q].last != s.version
    requires x != y && s.inner.Keys == {x, y} && |s.queues[q].batch| + 2 <= Injection.RX_CAPACITY
    ensures var t, queue := From(s, InjectTwo(q, x, y)), s.queues[q];
            && t == WithQueue(s, q, t.queues[q])
            && t.queues[q].pc.Resting? && t.queues[q].last == s.version && t.queues[q].full == s.inner
            && t.queues[q].batch == queue.batch + [Some(Entry(x, s.inner[x]))]
            && t.queues[q].popped == queue.popped + [Entry(y, s.inner[y])]
  {
    hide From, Detect, PushTwo;
    FromConcat(s, Detect(q, x, y), PushTwo(q));
    DetectDoes(s, q, x, y);
    PushTwoDoes(From(s, Detect(q, x, y)), q, s.version, s.inner, x, y);
  }

  /** A reply for `x` that changes its MAC while the frame with the old one still lies in the batch. */
  function StaleSteps(ours: Entry, x: Entry, y: Entry, changed: Mac): seq<Step> {
    Publish(ArpReply(ours.mac, ours.ip, x)) + (Publish(ArpReply(ours.mac, ours.ip, y)) + (InjectTwo(0, x.ip, y.ip)
    + (Publish(ArpReply(ours.mac, ours.ip, Entry(x.ip, changed))) + (InjectTwo(0, x.ip, y.ip) + Receives(0, 2)))))
  }

  /**
   The stale case happens: the consumer has committed the current version, its batch is drained and
   nothing is going on, yet the stack holds the old MAC of `x`, because the older frame was popped last.
   */
  lemma StackEndsStale(ours: Entry, x: Entry, y: Entry, changed: Mac)
    requires x.ip != y.ip && x.mac != changed
    ensures var s := Run(1, StaleSteps(ours, x, y, changed));
            var queue := s.queues[0];
            && s.producer.Idle? && queue.pc.Resting? && queue.batch == [] && queue.last == s.version
            && queue.full == s.inner == map[x.ip := changed, y.ip := y.mac]
            && Fold(queue.popped) == map[x.ip := x.mac, y.ip := y.mac]
  {
    hide Publish, InjectTwo, From, Receives, ArpReply, Fold, Drained;
    var x2 := Entry(x.ip, changed);
    var p1, p2, p3 := ArpReply(ours.mac, ours.ip, x), ArpReply(ours.mac, ours.ip, y), ArpReply(ours.mac, ours.ip, x2);
    FrameParses(ours, x);
    FrameParses(ours, y);
    FrameParses(ours, x2);
    var inject, end := InjectTwo(0, x.ip, y.ip), Receives(0, 2);
    var s0 := Init(1);
    FromConcat(s0, Publish(p1), Publish(p2) + (inject + (Publish(p3) + (inject + end))));
    PublishDoes(s0, p1, x);
    var s1 := From(s0, Publish(p1));
    FromConcat(s1, Publish(p2), inject + (Publish(p3) + (inject + end)));
    PublishDoes(s1, p2, y);
    var s2 := From(s1, Publish(p2));
    FromConcat(s2, inject, Publish(p3) + (inject + end));
    InjectTwoDoes(s2, 0, x.ip, y.ip);
    var s3 := From(s2, inject);
    FromConcat(s3, Publish(p3), inject + end);
    PublishDoes(s3, p3, x2);
    var s4 := From(s3, Publish(p3));
    FromConcat(s4, inject, end);
    InjectTwoDoes(s4, 0, x.ip, y.ip);
    var s5 := From(s4, inject);
    assert s4.inner == map[x.ip := changed, y.ip := y.mac];
    assert s5.queues[0].popped == [y, y] && s5.queues[0].batch == [Some(x), Some(x2)];
    ReceivesDrain(s5, 0);
    StaleFold(s5.queues[0], x, y, x2);
  }

  /** Two looks at `y` and then the new and the old frame of `x`. */
  lemma StaleFold(queue: Queue, x: Entry, y: Entry, x2: Entry)
    requires x.ip == x2.ip != y.ip
    requires queue.popped == [y, y] && queue.batch == [Some(x), Some(x2)]
    ensures Drained(queue) == map[x.ip := x.mac, y.ip := y.mac]
  {
    hide Fold;
    var none: seq<Entry> := [];
    assert Fold(none) == map[] by { NoEntries(); }
    FoldSnoc(none, y);
    FoldSnoc([y], y);
    assert none + [y] == [y] && [y] + [y] == [y, y];
    assert queue.batch[1..] == [Some(x2)];
    UnderOne(Fold([y, y]), Some(x2));
  }

  lemma NoEntries()
    ensures Fold([]) == map[]
  {
  }

  lemma FrameParses(ours: Entry, peer: Entry)
    ensures ParseArpReply(ArpReply(ours.mac, ours.ip, peer)) == Some(peer)
  {
    hide ArpReply, ParseArpReply;
    InjectedFrameParses(ours.mac, ours.ip, peer, []);
    assert ArpReply(ours.mac, ours.ip, peer) + [] == ArpReply(ours.mac, ours.ip, peer);
  }

  /** With only other traffic under the pushed frames, nothing can be outdated. */
  lemma CleanBatchAgrees(table: Table, others: seq<Frame>)
    requires forall i :: 0 <= i < |others| ==> others[i].None?
    ensures Agrees(table, others)
  {
    OthersTeachNothing(table, others);
    UnderSame(table, others);
  }
}
