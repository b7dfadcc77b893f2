/**
 The receive batch of a consumer queue as a pure function of what it is given: injection of the
 shared ARP entries on top of the batch, and the last-in-first-out hand-over to the stack.
 From dpdk-net/src/device/dpdk_device.rs.
 */
module Injection {
  import opened Bytes
  import opened ArpFrame

  const RX_CAPACITY: nat := 64

  datatype Ours = Ours(mac: Mac, ip: Ip)

  /** What the version load and the snapshot load returned, the entries in iteration order. */
  datatype View = View(version: nat, entries: seq<Entry>)

  /** The packets waiting in `rx_batch` and `last_cache_version`. */
  datatype RxState = RxState(batch: seq<bytes>, last: nat)

  function Frames(ours: Ours, entries: seq<Entry>): (r: seq<bytes>)
    ensures |r| == |entries|
    ensures forall i :: 0 <= i < |entries| ==> r[i] == ArpReply(ours.mac, ours.ip, entries[i])
  {
    seq(|entries|, i requires 0 <= i < |entries| => ArpReply(ours.mac, ours.ip, entries[i]))
  }

  lemma FramesNone(ours: Ours, entries: seq<Entry>)
    ensures Frames(ours, entries[..0]) == []
  {
  }

  lemma FramesStep(ours: Ours, entries: seq<Entry>, i: nat)
    requires i < |entries|
    ensures Frames(ours, entries[..i + 1]) == Frames(ours, entries[..i]) + [ArpReply(ours.mac, ours.ip, entries[i])]
    ensures |ArpReply(ours.mac, ours.ip, entries[i])| == FRAME_LENGTH
  {
    InjectedFrameParses(ours.mac, ours.ip, entries[i], []);
  }

  /** How many entries go in, when the first `tries` allocations and copies succeed. */
  function Fitting(s: RxState, view: View, tries: nat): nat
    requires |s.batch| <= RX_CAPACITY
  {
    Min(Min(|view.entries|, RX_CAPACITY - |s.batch|), tries)
  }

  function Inject(ours: Ours, s: RxState, view: View, tries: nat): (r: RxState)
    requires |s.batch| <= RX_CAPACITY
    ensures s.batch <= r.batch && |r.batch| <= RX_CAPACITY
  {
    if view.version == s.last then s
    else
      var n := Fitting(s, view, tries);
      RxState(s.batch + Frames(ours, view.entries[..n]), if n == |view.entries| then view.version else s.last)
  }

  function Popped(s: RxState): Option<bytes> {
    if s.batch == [] then None else Some(s.batch[|s.batch| - 1])
  }

  function AfterPop(s: RxState): RxState {
    if s.batch == [] then s else s.(batch := s.batch[..|s.batch| - 1])
  }

  /**
   Injection is exact: the version is committed if and only if the batch can take the whole
   snapshot and nothing fails. On top of the old batch sits one frame per entry that went in, each
   parsing back to its entry, in order. If they are not all of them the version is as before, and
   the batch is full or the next allocation or copy has failed.
   */
  lemma InjectExact(ours: Ours, s: RxState, view: View, tries: nat)
    requires |s.batch| <= RX_CAPACITY && view.version != s.last
    ensures var t := Inject(ours, s, view, tries);
            var all := |s.batch| + |view.entries| <= RX_CAPACITY && |view.entries| <= tries;
            && s.batch <= t.batch
            && (all <==> t.last == view.version)
            && |s.batch| <= |t.batch| <= |s.batch| + |view.entries|
            && (forall i :: 0 <= i < |t.batch| - |s.batch| ==>
                  ParseArpReply(t.batch[|s.batch| + i]) == Some(view.entries[i]))
            && (all ==> |t.batch| == |s.batch| + |view.entries|)
            && (!all ==> t.last == s.last && |t.batch| < |s.batch| + |view.entries|)
            && (!all ==> |t.batch| == RX_CAPACITY || |t.batch| == |s.batch| + tries)
  {
    hide ParseArpReply, ArpReply;
    var n := Fitting(s, view, tries);
    var t := Inject(ours, s, view, tries);
    forall i | 0 <= i < |t.batch| - |s.batch|
      ensures ParseArpReply(t.batch[|s.batch| + i]) == Some(view.entries[i])
    {
      InjectedFrameParses(ours.mac, ours.ip, view.entries[i], []);
      var frame := ArpReply(ours.mac, ours.ip, view.entries[i]);
      assert frame + [] == frame;
      assert t.batch[|s.batch| + i] == Frames(ours, view.entries[..n])[i];
    }
  }

  // ---------------------------------------------------------------- repeated receives

  /** One `receive` on a batch that needs no refill, nothing failing. */
  function ReceiveOnce(ours: Ours, s: RxState, view: View): RxState
    requires |s.batch| <= RX_CAPACITY
  {
    AfterPop(Inject(ours, s, view, |view.entries|))
  }

  function Delivered(ours: Ours, s: RxState, view: View): Option<bytes>
    requires |s.batch| <= RX_CAPACITY
  {
    Popped(Inject(ours, s, view, |view.entries|))
  }

  /** Successive receives, each with its own look at the cache. */
  function ReceiveAll(ours: Ours, s: RxState, views: seq<View>): (r: RxState)
    requires |s.batch| <= RX_CAPACITY
    ensures |r.batch| <= RX_CAPACITY
    decreases |views|
  {
    if views == [] then s
    else ReceiveOnce(ours, ReceiveAll(ours, s, views[..|views| - 1]), views[|views| - 1])
  }

  predicate Pending(s: RxState, view: View) {
    view.version != s.last && 2 <= |view.entries|
  }

  lemma StuckStep(ours: Ours, s: RxState, view: View)
    requires |s.batch| == RX_CAPACITY - 1 && Pending(s, view)
    ensures ReceiveOnce(ours, s, view) == s
    ensures Delivered(ours, s, view) == Some(ArpReply(ours.mac, ours.ip, view.entries[0]))
  {
    hide ArpReply;
    var t := Inject(ours, s, view, |view.entries|);
    assert Fitting(s, view, |view.entries|) == 1;
    var frames := Frames(ours, view.entries[..1]);
    assert t.batch == s.batch + frames && |frames| == 1;
    assert t.batch[..|t.batch| - 1] == s.batch;
    assert t.batch[|t.batch| - 1] == frames[0];
  }

  /**
   A batch left one short of full while two or more entries are due never moves again: each
   receive pushes one frame, fails on the second and hands the first one out, so the version is
   never committed and none of the 63 packets underneath is ever delivered.
   */
  lemma {:induction false} StuckForever(ours: Ours, s: RxState, views: seq<View>)
    requires |s.batch| == RX_CAPACITY - 1
    requires forall i :: 0 <= i < |views| ==> Pending(s, views[i])
    ensures ReceiveAll(ours, s, views) == s
    ensures views != [] ==>
              Delivered(ours, ReceiveAll(ours, s, views[..|views| - 1]), views[|views| - 1])
              == Some(ArpReply(ours.mac, ours.ip, views[|views| - 1].entries[0]))
    decreases |views|
  {
    hide ReceiveOnce, Delivered, Pending, ArpReply;
    if views != [] {
      var n := |views| - 1;
      StuckForever(ours, s, views[..n]);
      assert Pending(s, views[n]);
      StuckStep(ours, s, views[n]);
      PendingTwo(s, views[n]);
    }
  }

  lemma PendingTwo(s: RxState, view: View)
    requires Pending(s, view)
    ensures 2 <= |view.entries|
  {
  }

  function Repeated(view: View, k: nat): (r: seq<View>)
    ensures |r| == k && forall i :: 0 <= i < k ==> r[i] == view
  {
    seq(k, _ => view)
  }

  /** Whether a snapshot that stays the same is ever committed, starting from a refilled batch. */
  predicate WillCommit(s: RxState, view: View) {
    |s.batch| + |view.entries| <= RX_CAPACITY || |view.entries| <= 1
  }

  lemma FirstReceive(ours: Ours, s: RxState, view: View)
    requires |s.batch| <= RX_CAPACITY && view.version != s.last
    ensures var t := ReceiveOnce(ours, s, view);
            if |s.batch| + |view.entries| <= RX_CAPACITY then t.last == view.version
            else t.last == s.last && |t.batch| == RX_CAPACITY - 1
  {
  }

  /**
   While the snapshot stays the same and nothing fails, it is committed within two receives if it
   fits on top of the batch or has at most one entry; otherwise no number of receives commits it.
   */
  lemma CommitsOrStarves(ours: Ours, s: RxState, view: View, k: nat)
    requires |s.batch| <= RX_CAPACITY && view.version != s.last && k >= 2
    ensures WillCommit(s, view) ==>
              || ReceiveAll(ours, s, Repeated(view, 1)).last == view.version
              || ReceiveAll(ours, s, Repeated(view, 2)).last == view.version
    ensures !WillCommit(s, view) ==>
              var t := ReceiveAll(ours, s, Repeated(view, k));
              t.last == s.last && |t.batch| == RX_CAPACITY - 1
  {
    var t := ReceiveOnce(ours, s, view);
    FirstReceive(ours, s, view);
    ReceiveFirst(ours, s, view, 0);
    ReceiveFirst(ours, s, view, 1);
    ReceiveFirst(ours, t, view, 0);
    if !WillCommit(s, view) {
      ReceiveFirst(ours, s, view, k - 1);
      StuckForever(ours, t, Repeated(view, k - 1));
    } else if |s.batch| + |view.entries| > RX_CAPACITY {
      FirstReceive(ours, t, view);
    }
  }

  /** The first of several identical receives can be taken off the front. */
  lemma {:induction false} ReceiveFirst(ours: Ours, s: RxState, view: View, k: nat)
    requires |s.batch| <= RX_CAPACITY
    ensures ReceiveAll(ours, s, Repeated(view, k + 1))
         == ReceiveAll(ours, ReceiveOnce(ours, s, view), Repeated(view, k))
  {
    hide ReceiveOnce;
    var views := Repeated(view, k + 1);
    assert views[..k] == Repeated(view, k);
    if k == 0 {
      assert views[..0] == [];
    } else {
      ReceiveFirst(ours, s, view, k - 1);
      assert Repeated(view, k)[..k - 1] == Repeated(view, k - 1);
    }
  }

  // ---------------------------------------------------------------- the order of delivery

  /** The packets that successive receives hand to the stack. */
  function Deliveries(ours: Ours, s: RxState, views: seq<View>): seq<bytes>
    requires |s.batch| <= RX_CAPACITY
    decreases |views|
  {
    if views == [] then []
    else
      (match Delivered(ours, s, views[0]) case None => [] case Some(packet) => [packet])
      + Deliveries(ours, ReceiveOnce(ours, s, views[0]), views[1..])
  }

  function Reversed(batch: seq<bytes>): (r: seq<bytes>)
    ensures |r| == |batch|
    ensures forall i :: 0 <= i < |batch| ==> r[i] == batch[|batch| - 1 - i]
  {
    seq(|batch|, i requires 0 <= i < |batch| => batch[|batch| - 1 - i])
  }

  /** As many looks at the cache as there are packets, none of them showing a new version. */
  predicate NothingDue(s: RxState, views: seq<View>) {
    |views| == |s.batch| && forall i :: 0 <= i < |views| ==> views[i].version == s.last
  }

  /** A batch that is drained without injections is handed over newest packet first. */
  lemma {:induction false} DrainsNewestFirst(ours: Ours, s: RxState, views: seq<View>)
    requires |s.batch| <= RX_CAPACITY && NothingDue(s, views)
    ensures Deliveries(ours, s, views) == Reversed(s.batch)
    decreases |views|
  {
    if views != [] {
      var n := |s.batch| - 1;
      var t := ReceiveOnce(ours, s, views[0]);
      assert t == s.(batch := s.batch[..n]);
      DrainsNewestFirst(ours, t, views[1..]);
      assert Reversed(s.batch) == [s.batch[n]] + Reversed(t.batch);
    }
  }

  /**
   So packets reach the stack in the order in which they arrived if and only if the batch reads the
   same in both directions; for packets that all differ, only if there is at most one of them.
   */
  lemma OrderKeptIff(ours: Ours, s: RxState, views: seq<View>)
    requires |s.batch| <= RX_CAPACITY && NothingDue(s, views)
    ensures Deliveries(ours, s, views) == s.batch <==>
              forall i :: 0 <= i < |s.batch| ==> s.batch[|s.batch| - 1 - i] == s.batch[i]
    ensures (forall i, j :: 0 <= i < j < |s.batch| ==> s.batch[i] != s.batch[j]) ==>
              (Deliveries(ours, s, views) == s.batch <==> |s.batch| <= 1)
  {
    hide Deliveries, NothingDue;
    DrainsNewestFirst(ours, s, views);
    var r := Reversed(s.batch);
    if r == s.batch {
      assert forall i :: 0 <= i < |s.batch| ==> r[i] == s.batch[i];
      if |s.batch| > 1 {
        assert s.batch[|s.batch| - 1] == s.batch[0];
      }
    }
  }
}
