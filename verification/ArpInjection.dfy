/**
 The two views of injection agree: the uninterrupted steps of a consumer in the protocol do to its batch
 of frames what the pure injection function does to the packets those frames are parsed from.
 */
module ArpInjection {
  import opened Bytes
  import opened ArpFrame
  import opened ArpProtocol
  import opened ArpDraining
  import I = Injection

  /** The frames in a batch of packets. */
  function Parsed(packets: seq<bytes>): (frames: seq<Frame>)
    ensures |frames| == |packets|
    ensures forall i :: 0 <= i < |packets| ==> frames[i] == ParseArpReply(packets[i])
  {
    seq(|packets|, i requires 0 <= i < |packets| => ParseArpReply(packets[i]))
  }

  predicate Same(queue: Queue, rx: I.RxState) {
    Parsed(rx.batch) == queue.batch && rx.last == queue.last
  }

  /** What is still to be pushed, as entries. */
  predicate ToPush(queue: Queue, view: I.View) {
    && queue.pc.Injecting? && queue.pc.version == view.version
    && |queue.pc.todo| == |view.entries|
    && forall k :: 0 <= k < |view.entries| ==> FromSnapshot(queue.pc.snapshot, Some(view.entries[k]))
                                               && view.entries[k].ip == queue.pc.todo[k]
  }

  /** The consumer's steps up to the pop, when `n` pushes succeed. */
  function Steps(q: nat, n: nat, all: bool): (steps: seq<Step>)
    ensures |steps| == n + 2
  {
    if n == 0 then [if all then Commit(q) else GiveUp(q)] + ([Pop(q)] + [])
    else [Push(q)] + Steps(q, n - 1, all)
  }

  /** What the stack learns from the packet it is handed. */
  function Learned(packet: Option<bytes>): seq<Entry> {
    match packet
    case None => []
    case Some(p) => match ParseArpReply(p) case None => [] case Some(entry) => [entry]
  }

  lemma ParsedPush(ours: I.Ours, batch: seq<bytes>, entry: Entry)
    ensures Parsed(batch + [ArpReply(ours.mac, ours.ip, entry)]) == Parsed(batch) + [Some(entry)]
  {
    var frame := ArpReply(ours.mac, ours.ip, entry);
    InjectedFrameParses(ours.mac, ours.ip, entry, []);
    assert frame + [] == frame;
    hide ArpReply, ParseArpReply;
    var packets := batch + [frame];
    assert packets[|batch|] == frame && forall i :: 0 <= i < |batch| ==> packets[i] == batch[i];
  }

  lemma ParsedPop(packets: seq<bytes>)
    requires packets != []
    ensures Parsed(packets[..|packets| - 1]) == Parsed(packets)[..|packets| - 1]
  {
    hide ParseArpReply;
  }

  /** Injecting several entries is pushing the first one and injecting the others. */
  lemma InjectFirst(ours: I.Ours, rx: I.RxState, view: I.View, tries: nat)
    requires |rx.batch| <= I.RX_CAPACITY && view.version != rx.last && I.Fitting(rx, view, tries) > 0
    ensures var rest := view.(entries := view.entries[1..]);
            var rx' := rx.(batch := rx.batch + [ArpReply(ours.mac, ours.ip, view.entries[0])]);
            && |rx'.batch| <= I.RX_CAPACITY
            && I.Inject(ours, rx, view, tries) == I.Inject(ours, rx', rest, tries - 1)
            && I.Fitting(rx, view, tries) == I.Fitting(rx', rest, tries - 1) + 1
  {
    hide ArpReply;
    var n, entries, frame := I.Fitting(rx, view, tries), view.entries, ArpReply(ours.mac, ours.ip, view.entries[0]);
    var frames := I.Frames(ours, entries[..n]);
    assert frames == [frame] + I.Frames(ours, entries[1..][..n - 1]) by {
      assert forall k :: 1 <= k < n ==> entries[..n][k] == entries[1..][..n - 1][k - 1];
    }
    assert rx.batch + [frame] + I.Frames(ours, entries[1..][..n - 1]) == rx.batch + frames;
  }

  /** What `PopTop` hands over, on the packets. */
  lemma PopsSame(queue: Queue, rx: I.RxState)
    requires Same(queue, rx)
    ensures Same(PopTop(queue), I.AfterPop(rx)) && PopTop(queue).popped == queue.popped + Learned(I.Popped(rx))
  {
    hide ParseArpReply;
    if rx.batch == [] {
      assert queue.popped + [] == queue.popped;
    } else {
      ParsedPop(rx.batch);
    }
  }

  lemma EndSame(ours: I.Ours, rx: I.RxState, view: I.View, tries: nat)
    requires |rx.batch| <= I.RX_CAPACITY && view.version != rx.last && I.Fitting(rx, view, tries) == 0
    ensures I.Inject(ours, rx, view, tries) == rx.(last := if view.entries == [] then view.version else rx.last)
  {
    I.FramesNone(ours, view.entries);
    assert rx.batch + [] == rx.batch;
  }

  /** What the last step before the pop does to the queue. */
  lemma EndMoves(s: State, q: nat, queue: Queue)
    requires queue.pc.Injecting?
    ensures queue.pc.todo == [] ==>
              && Moved(s, queue, Commit(q)).pc.Ready? && Moved(s, queue, Commit(q)).last == queue.pc.version
              && Moved(s, queue, Commit(q)).batch == queue.batch && Moved(s, queue, Commit(q)).popped == queue.popped
    ensures queue.pc.todo != [] ==> Moved(s, queue, GiveUp(q)) == queue.(pc := Ready)
  {
  }

  lemma PushMoves(s: State, q: nat, queue: Queue, view: I.View)
    requires ToPush(queue, view) && view.entries != [] && |queue.batch| < I.RX_CAPACITY
    ensures var w := Moved(s, queue, Push(q));
            && w == queue.(pc := queue.pc.(todo := queue.pc.todo[1..]), batch := queue.batch + [Some(view.entries[0])])
            && ToPush(w, view.(entries := view.entries[1..]))
  {
  }

  /**
   A consumer that has loaded a snapshot and is not interrupted, with `tries` allocations succeeding,
   ends in the batch and version of the pure injection followed by the pop, and teaches the stack the
   entry of the packet that is popped.
   */
  lemma {:induction false} ConsumerInjects(ours: I.Ours, s: State, q: nat, queue: Queue,
                                           rx: I.RxState, view: I.View, tries: nat)
    requires q < |s.queues| && ToPush(queue, view) && Same(queue, rx)
    requires |rx.batch| <= I.RX_CAPACITY && view.version != rx.last
    ensures var n, t := I.Fitting(rx, view, tries), I.Inject(ours, rx, view, tries);
            var u := From(WithQueue(s, q, queue), Steps(q, n, n == |view.entries|));
            && u == WithQueue(s, q, u.queues[q]) && u.queues[q].pc.Resting?
            && Same(u.queues[q], I.AfterPop(t))
            && u.queues[q].popped == queue.popped + Learned(I.Popped(t))
    decreases |view.entries|
  {
    hide ParseArpReply, ArpReply, From, Moved, I.Inject, I.AfterPop, I.Popped, PopTop, Same;
    var n := I.Fitting(rx, view, tries);
    if n == 0 {
      EndsAs(ours, s, q, queue, rx, view, tries);
    } else {
      var rest := view.(entries := view.entries[1..]);
      var rx' := rx.(batch := rx.batch + [ArpReply(ours.mac, ours.ip, view.entries[0])]);
      var queue' := Moved(s, queue, Push(q));
      SameLength(queue, rx);
      PushMoves(s, q, queue, view);
      PushSame(ours, queue, rx, view.entries[0], queue');
      InjectFirst(ours, rx, view, tries);
      QueueFirst(s, q, queue, Push(q), Steps(q, n - 1, n == |view.entries|));
      ConsumerInjects(ours, s, q, queue', rx', rest, tries - 1);
    }
  }

  lemma SameLength(queue: Queue, rx: I.RxState)
    requires Same(queue, rx)
    ensures |queue.batch| == |rx.batch| && queue.last == rx.last
  {
  }

  lemma PushSame(ours: I.Ours, queue: Queue, rx: I.RxState, entry: Entry, queue': Queue)
    requires Same(queue, rx) && queue'.batch == queue.batch + [Some(entry)] && queue'.last == queue.last
    ensures Same(queue', rx.(batch := rx.batch + [ArpReply(ours.mac, ours.ip, entry)]))
  {
    hide ArpReply, ParseArpReply;
    ParsedPush(ours, rx.batch, entry);
  }

  lemma EndsAs(ours: I.Ours, s: State, q: nat, queue: Queue, rx: I.RxState, view: I.View, tries: nat)
    requires q < |s.queues| && ToPush(queue, view) && Same(queue, rx)
    requires |rx.batch| <= I.RX_CAPACITY && view.version != rx.last && I.Fitting(rx, view, tries) == 0
    ensures var t := I.Inject(ours, rx, view, tries);
            var u := From(WithQueue(s, q, queue), Steps(q, 0, 0 == |view.entries|));
            && u == WithQueue(s, q, u.queues[q]) && u.queues[q].pc.Resting?
            && Same(u.queues[q], I.AfterPop(t))
            && u.queues[q].popped == queue.popped + Learned(I.Popped(t))
  {
    hide ParseArpReply, From, Moved, I.Inject, I.AfterPop, I.Popped, PopTop;
    var last := if view.entries == [] then Commit(q) else GiveUp(q);
    var done := Moved(s, queue, last);
    EndMoves(s, q, queue);
    EndSame(ours, rx, view, tries);
    QueueFirst(s, q, queue, last, [Pop(q)] + []);
    QueueFirst(s, q, done, Pop(q), []);
    PopMoves(s, q, done);
    NoSteps(WithQueue(s, q, Moved(s, done, Pop(q))));
    PopsSame(done, I.Inject(ours, rx, view, tries));
    PopTopKeepsPoint(done);
  }
}
