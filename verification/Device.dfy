/**
 The smoltcp device over a DPDK queue pair, dpdk-net/src/device/dpdk_device.rs: who owns which
 packet buffer, what is handed to the hardware in which order, and what queue 0 publishes.
 */
module Device {
  import opened Bytes
  import opened ArpFrame
  import opened ArpProtocol
  import opened Injection
  import opened Mbufs

  const TX_CAPACITY: nat := 256

  /** `SharedArpCache` as its single producer sees it; the interleaved view is `ArpProtocol`. */
  class SharedArpCache {
    var inner: Table
    var version: nat
    ghost var inserts: seq<Entry>

    ghost predicate Valid()
      reads this
    {
      inner == Fold(inserts) && version == |inserts| % USIZE_LIMIT
    }

    constructor ()
      ensures Valid() && inserts == []
    {
      inner, version, inserts := map[], 0, [];
    }

    /** Publishes the entry and bumps the version, also when the address is already known. */
    method Insert(entry: Entry)
      requires Valid()
      modifies this
      ensures Valid() && inserts == old(inserts) + [entry]
    {
      hide Fold;
      FoldSnoc(inserts, entry);
      NextVersion(|inserts|);
      if entry.ip in inner && inner[entry.ip] == entry.mac {
        assert inner[entry.ip := entry.mac] == inner;
      } else {
        inner := inner[entry.ip := entry.mac];
      }
      version := (version + 1) % USIZE_LIMIT;
      inserts := inserts + [entry];
    }
  }

  datatype ArpConfig = ArpConfig(cache: SharedArpCache, ours: Ours)

  datatype TxOutcome = Queued | Lost | Panicked

  class DpdkDevice {
    const nic: Nic
    const queueId: nat
    const arp: Option<ArpConfig>
    var rxBatch: seq<Mbuf>
    var txBatch: seq<Mbuf>
    var last: nat
    /** Buffers inside RX tokens that have been given out and not yet consumed. */
    var held: seq<Mbuf>
    /** Every packet whose TX token obtained a buffer and queued it. */
    ghost var queued: seq<bytes>
    /** Every packet put on top of the receive batch by an injection, and every one handed to the stack. */
    ghost var injected: seq<bytes>
    ghost var delivered: seq<bytes>
    /** How many flushes of a full transmit batch sent nothing. */
    ghost var blocked: nat

    /** Where every buffer is. */
    ghost function Owned(): multiset<nat>
      reads `rxBatch, `txBatch, `held, nic`pool, nic`rxRing, nic`txRing
    {
      nic.Owned() + Ids(rxBatch) + Ids(txBatch) + Ids(held)
    }

    /**
     Every buffer is in exactly one place, the batches are within capacity, and the packets handed
     to the hardware followed by those still in the batch are the queued ones, in order.
     */
    ghost predicate Valid()
      reads `rxBatch, `txBatch, `held, `queued, `injected, `delivered
      reads nic`pool, nic`rxRing, nic`txRing, nic`handed, nic`arrived, nic`received
    {
      && Owned() == multiset(nic.all)
      && |rxBatch| <= RX_CAPACITY
      && |txBatch| <= TX_CAPACITY
      && nic.handed + Data(txBatch) == queued
      && Accounted()
    }

    /**
     On the receive side the ring is first-in-first-out, and every packet taken from it or injected is
     waiting in the batch or has been handed to the stack, each exactly once.
     */
    ghost predicate Accounted()
      reads `rxBatch, `injected, `delivered, nic`rxRing, nic`arrived, nic`received
    {
      && nic.arrived == nic.received + Data(nic.rxRing)
      && multiset(nic.received) + multiset(injected) == multiset(Data(rxBatch)) + multiset(delivered)
    }

    /** Everything is in order but for one buffer in hand, which is nowhere else. */
    ghost predicate Holding(id: nat)
      reads `rxBatch, `txBatch, `held, `queued, `injected, `delivered
      reads nic`pool, nic`rxRing, nic`txRing, nic`handed, nic`arrived, nic`received
    {
      && Owned() + multiset{id} == multiset(nic.all)
      && |rxBatch| <= RX_CAPACITY
      && |txBatch| <= TX_CAPACITY
      && nic.handed + Data(txBatch) == queued
      && Accounted()
    }

    ghost function Rx(): RxState
      reads `rxBatch, `last
    {
      RxState(Data(rxBatch), last)
    }

    constructor (nic: Nic, queueId: nat, arp: Option<ArpConfig>)
      requires nic.Owned() == multiset(nic.all) && nic.handed == [] && nic.arrived == [] && nic.received == []
      requires nic.rxRing == []
      ensures Valid() && queued == [] && delivered == []
      ensures rxBatch == [] && txBatch == [] && held == [] && last == 0
      ensures this.nic == nic && this.queueId == queueId && this.arp == arp
    {
      this.nic, this.queueId, this.arp := nic, queueId, arp;
      rxBatch, txBatch, last, held := [], [], 0, [];
      queued, injected, delivered, blocked := [], [], [], 0;
    }

    /** A buffer in hand is not in the pool. */
    lemma InHand(id: nat)
      requires Owned() + multiset{id} == multiset(nic.all)
      ensures id !in nic.pool
    {
      assert multiset(nic.all)[id] <= 1;
      assert (Owned() + multiset{id})[id] >= multiset(nic.pool)[id] + 1;
    }

    /** Frees a buffer in hand. */
    method Drop(m: Mbuf)
      requires Holding(m.id)
      modifies nic`pool
      ensures Valid()
    {
      hide Data, Accounted;
      InHand(m.id);
      nic.Free(m);
    }

    /** Takes a buffer out of the pool, if there is one. */
    method Alloc() returns (r: Option<Mbuf>)
      requires Valid()
      modifies nic`pool, nic`refusals
      ensures nic.refusals == old(nic.refusals) + if r.None? then 1 else 0
      ensures if r.None? then Valid() else Holding(r.value.id)
    {
      hide Ids, Data, Accounted;
      r := nic.TryAlloc();
    }

    /** Sends from the front of the batch; whatever the hardware refuses stays. */
    method FlushTx() returns (sent: nat)
      requires Valid()
      modifies `txBatch, `blocked, nic`txRing, nic`handed, nic`offered, nic`stalls
      ensures Valid() && sent <= |old(txBatch)| && txBatch == old(txBatch)[sent..]
      ensures nic.offered == old(nic.offered) + Min(|old(txBatch)|, MAX_BURST_SIZE)
      ensures nic.stalls == old(nic.stalls) + if old(txBatch) != [] && sent == 0 then 1 else 0
      ensures blocked == old(blocked) + if |old(txBatch)| == TX_CAPACITY && sent == 0 then 1 else 0
    {
      hide Ids, IdSeq, Data, Nic.Owned, Accounted;
      sent := 0;
      if txBatch != [] {
        ghost var others := Ids(rxBatch) + Ids(held);
        assert Owned() == nic.Owned() + Ids(txBatch) + others;
        ghost var full := |txBatch| == TX_CAPACITY;
        txBatch, sent := Tx(nic, txBatch);
        blocked := blocked + if full && sent == 0 then 1 else 0;
        assert Owned() == nic.Owned() + Ids(txBatch) + others;
      }
      assert Owned() == multiset(nic.all);
      hide Owned;
    }

    /** Queue 0 publishes every ARP reply of the batch it just received. */
    method ScanBatch(cache: SharedArpCache)
      requires cache.Valid()
      modifies cache
      ensures cache.Valid() && cache.inserts == old(cache.inserts) + Replies(Data(rxBatch))
    {
      hide Fold, ParseArpReply;
      var packets := Data(rxBatch);
      for i := 0 to |rxBatch|
        invariant cache.Valid() && cache.inserts == old(cache.inserts) + Replies(packets[..i])
      {
        assert packets[..i + 1] == packets[..i] + [packets[i]];
        RepliesSnoc(packets[..i], packets[i]);
        var entry := ParseArpReply(rxBatch[i].data);
        if entry.Some? {
          cache.Insert(entry.value);
        }
      }
      assert packets[..|rxBatch|] == packets;
    }

    predicate NoArpReply(packets: seq<bytes>) {
      forall i :: 0 <= i < |packets| ==> !IsReply(packets[i])
    }

    /** Takes what the hardware has into an empty batch. */
    method Refill()
      requires Valid() && rxBatch == []
      modifies `rxBatch, nic`rxRing, nic`asked, nic`idle, nic`received
      ensures Valid() && nic.asked == old(nic.asked) + RX_CAPACITY
      ensures nic.idle == old(nic.idle) + if rxBatch == [] then 1 else 0
      ensures old(nic.rxRing) == rxBatch + nic.rxRing
    {
      hide Ids, Data, IdSeq;
      ghost var taken := nic.received;
      DataNone(rxBatch);
      var received;
      rxBatch, received := Mbufs.Rx(nic, rxBatch, RX_CAPACITY);
      assert rxBatch[0..] == rxBatch;
      TakenIsBatch(taken, Data(rxBatch), Data(nic.rxRing));
      Joins(multiset(taken), multiset(injected), multiset{}, multiset(delivered), multiset(Data(rxBatch)));
    }

    /** Flushes, and refills the receive batch only when it has run empty. */
    method PollRx() returns (sent: nat)
      requires Valid() && (arp.Some? ==> arp.value.cache.Valid())
      modifies `txBatch, `rxBatch, `blocked, nic`txRing, nic`handed, nic`offered, nic`stalls
      modifies nic`rxRing, nic`asked, nic`idle, nic`received
      modifies if arp.Some? then {arp.value.cache} else {}
      ensures Valid() && sent <= |old(txBatch)| && txBatch == old(txBatch)[sent..]
      ensures nic.offered == old(nic.offered) + Min(|old(txBatch)|, MAX_BURST_SIZE)
      ensures nic.stalls == old(nic.stalls) + if old(txBatch) != [] && sent == 0 then 1 else 0
      ensures blocked == old(blocked) + if |old(txBatch)| == TX_CAPACITY && sent == 0 then 1 else 0
      ensures nic.idle == old(nic.idle) + if rxBatch == [] then 1 else 0
      ensures old(rxBatch) != [] ==> rxBatch == old(rxBatch) && nic.rxRing == old(nic.rxRing)
      ensures old(rxBatch) == [] ==>
                nic.asked == old(nic.asked) + RX_CAPACITY && old(nic.rxRing) == rxBatch + nic.rxRing
      ensures arp.Some? ==> arp.value.cache.Valid()
      ensures arp.Some? ==>
                arp.value.cache.inserts == old(arp.value.cache.inserts) +
                  if queueId == 0 && old(rxBatch) == [] then Replies(Data(rxBatch)) else []
      ensures arp.Some? && (queueId != 0 || old(rxBatch) != [] || NoArpReply(Data(rxBatch))) ==>
                arp.value.cache.inner == old(arp.value.cache.inner)
                && arp.value.cache.version == old(arp.value.cache.version)
    {
      hide Fold, Replies, Data, Valid, IsReply;
      sent := FlushTx();
      if rxBatch == [] {
        Refill();
        if arp.Some? && queueId == 0 {
          ScanBatch(arp.value.cache);
          if NoArpReply(Data(rxBatch)) {
            OthersPublishNothing(Data(rxBatch));
            assert old(arp.value.cache.inserts) + [] == old(arp.value.cache.inserts);
          }
        }
      }
    }

    /** What a burst adds to the packets taken is what the batch now holds. */
    lemma TakenIsBatch(taken: seq<bytes>, got: seq<bytes>, ring: seq<bytes>)
      ensures taken + (got + ring) == taken + got + ring
      ensures multiset(taken + got) == multiset(taken) + multiset(got)
    {
    }

    /** A packet that is taken or injected joins the batch; one that is popped leaves it for the stack. */
    static lemma Joins(taken: multiset<bytes>, injected: multiset<bytes>, batch: multiset<bytes>,
                       delivered: multiset<bytes>, x: multiset<bytes>)
      requires taken + injected == batch + delivered
      ensures (taken + x) + injected == (batch + x) + delivered
      ensures taken + (injected + x) == (batch + x) + delivered
    {
      assert (batch + delivered) + x == (batch + x) + delivered;
    }

    static lemma Leaves(batch: multiset<bytes>, delivered: multiset<bytes>, x: multiset<bytes>)
      ensures (batch + x) + delivered == batch + (delivered + x)
    {
    }

    predicate Fits(data: bytes) {
      |data| <= 65535 && |data| <= nic.Room()
    }

    /** What a fresh buffer holds after `copy_from_slice`, if that succeeds. */
    method Filled(data: bytes) returns (contents: Option<bytes>)
      ensures contents == if Fits(data) then Some(data) else None
    {
      var memory := new PacketBuffer(nic.length, nic.headroom);
      var copied := memory.CopyFromSlice(data);
      contents := if copied then Some(memory.mem[memory.head..memory.head + memory.len]) else None;
    }

    /** Allocates a buffer and fills it; a buffer that cannot take the data is freed at once. */
    method TryFill(data: bytes) returns (r: Option<Mbuf>)
      requires Valid()
      modifies nic`pool, nic`refusals
      ensures r.None? ==> Valid()
      ensures r.None? ==> nic.refusals > old(nic.refusals) || (nic.refusals == old(nic.refusals) && !Fits(data))
      ensures r.Some? ==> nic.refusals == old(nic.refusals)
      ensures r.Some? ==> r.value.data == data && Holding(r.value.id)
    {
      hide Valid, Holding;
      var m := Alloc();
      if m.None? {
        return None;
      }
      var filled := Filled(data);
      if filled.Some? {
        r := Some(m.value.(data := filled.value));
      } else {
        Drop(m.value);
        r := None;
      }
    }

    /** Puts a buffer in hand on top of the receive batch. */
    method PushRx(m: Mbuf)
      requires Holding(m.id) && |rxBatch| < RX_CAPACITY
      modifies `rxBatch, `injected
      ensures Valid() && Data(rxBatch) == Data(old(rxBatch)) + [m.data] && injected == old(injected) + [m.data]
    {
      hide Ids, IdSeq, Data;
      IdsConcat(rxBatch, [m]);
      IdsOne(m);
      assert multiset(injected + [m.data]) == multiset(injected) + multiset{m.data};
      assert multiset(Data(rxBatch) + [m.data]) == multiset(Data(rxBatch)) + multiset{m.data};
      Joins(multiset(nic.received), multiset(injected), multiset(Data(rxBatch)), multiset(delivered), multiset{m.data});
      rxBatch := rxBatch + [m];
      injected := injected + [m.data];
    }

    /** `inject_rx_packet`. */
    method InjectRxPacket(data: bytes) returns (ok: bool)
      requires Valid()
      modifies `rxBatch, `injected, nic`pool, nic`refusals
      ensures Valid()
      ensures nic.refusals >= old(nic.refusals)
      ensures !ok ==> |rxBatch| == RX_CAPACITY || nic.refusals > old(nic.refusals) || !Fits(data)
      ensures ok ==> nic.refusals == old(nic.refusals)
      ensures Data(rxBatch) == Data(old(rxBatch)) + if ok then [data] else []
      ensures injected == old(injected) + if ok then [data] else []
    {
      assert |rxBatch| <= RX_CAPACITY;
      hide Data, Valid, Holding;
      if |rxBatch| >= RX_CAPACITY {
        return false;
      }
      var m := TryFill(data);
      if m.Some? {
        PushRx(m.value);
        return true;
      }
      ok := false;
    }

    /** Queue 0 and a device without a shared cache inject nothing. */
    function AfterInjection(s: RxState, view: View, tries: nat): RxState
      requires |s.batch| <= RX_CAPACITY
    {
      if queueId == 0 || arp.None? then s else Inject(arp.value.ours, s, view, tries)
    }

    /**
     Injects the snapshot entry by entry and commits the version after the last one. Without a
     refused allocation, and with room for a frame, as many entries go in as the batch can take.
     */
    method InjectFromSharedCache(view: View) returns (tries: nat)
      requires Valid()
      modifies `rxBatch, `injected, `last, nic`pool, nic`refusals
      ensures Valid() && nic.refusals >= old(nic.refusals)
      ensures queueId == 0 || arp.None? || view.version == old(last) ==>
                Rx() == old(Rx()) && injected == old(injected) && nic.refusals == old(nic.refusals)
      ensures Rx() == AfterInjection(old(Rx()), view, tries)
      ensures nic.refusals == old(nic.refusals) && FRAME_LENGTH <= nic.Room() ==>
                Rx() == AfterInjection(old(Rx()), view, |view.entries|)
    {
      hide ArpReply, Ids, IdSeq, Frames, Data;
      tries := 0;
      if queueId == 0 || arp.None? || view.version == last {
        return;
      }
      tries := InjectEntries(arp.value.ours, view.entries);
      assert view.entries[..|view.entries|] == view.entries;
      if tries == |view.entries| {
        last := view.version;
      }
    }

    /** Pushes one frame per entry until one does not go in. */
    method InjectEntries(ours: Ours, entries: seq<Entry>) returns (done: nat)
      requires Valid()
      modifies `rxBatch, `injected, nic`pool, nic`refusals
      ensures Valid() && nic.refusals >= old(nic.refusals) && done <= |entries|
      ensures Data(rxBatch) == Data(old(rxBatch)) + Frames(ours, entries[..done])
      ensures done < |entries| && nic.refusals == old(nic.refusals) && FRAME_LENGTH <= nic.Room() ==>
                |rxBatch| == RX_CAPACITY
    {
      hide ArpReply, Ids, IdSeq, Frames, Owned, Accounted, Data;
      ghost var batch := Data(rxBatch);
      FramesNone(ours, entries);
      for i := 0 to |entries|
        invariant Valid() && nic.refusals >= old(nic.refusals)
        invariant Data(rxBatch) == batch + Frames(ours, entries[..i])
      {
        var packet := BuildArpReply(ours.mac, ours.ip, entries[i]);
        FramesStep(ours, entries, i);
        var ok := InjectRxPacket(packet[..]);
        if !ok {
          return i;
        }
      }
      done := |entries|;
    }

    /** Hands the top of the batch out in an RX token. */
    method PopRx() returns (packet: Option<Mbuf>)
      requires Valid()
      modifies `rxBatch, `held, `delivered
      ensures Valid()
      ensures Rx() == AfterPop(old(Rx()))
      ensures delivered == old(delivered) + if packet.Some? then [packet.value.data] else []
      ensures Popped(old(Rx())) == if packet.Some? then Some(packet.value.data) else None
      ensures held == old(held) + if packet.Some? then [packet.value] else []
    {
      hide Ids, IdSeq, Data;
      if rxBatch == [] {
        return None;
      }
      var n := |rxBatch| - 1;
      var m := rxBatch[n];
      TopOff(rxBatch);
      IdsConcat(held, [m]);
      Leaves(multiset(Data(rxBatch[..n])), multiset(delivered), multiset{m.data});
      rxBatch := rxBatch[..n];
      held := held + [m];
      delivered := delivered + [m.data];
      packet := Some(m);
    }

    lemma TopOff(s: seq<Mbuf>)
      requires s != []
      ensures var n := |s| - 1;
              && Ids(s) == Ids(s[..n]) + Ids([s[n]])
              && Data(s) == Data(s[..n]) + [s[n].data] && Data(s)[..n] == Data(s[..n])
              && multiset(Data(s)) == multiset(Data(s[..n])) + multiset{s[n].data}
    {
      var n := |s| - 1;
      hide Ids, IdSeq, Data;
      assert s == s[..n] + [s[n]];
      IdsConcat(s[..n], [s[n]]);
      IdsOne(s[n]);
    }

    /**
     `receive`: `view` is what the loads from the shared cache return, `polled` what the hardware
     had for an empty batch. The TX token that comes with the packet is issued whether or not there
     is space for it.
     */
    method Receive(view: View)
        returns (packet: Option<Mbuf>, sent: nat, tries: nat, ghost polled: seq<Mbuf>, ghost start: RxState)
      requires Valid() && (arp.Some? ==> arp.value.cache.Valid())
      modifies `txBatch, `rxBatch, `last, `held, `injected, `delivered, `blocked, nic
      modifies if arp.Some? then {arp.value.cache} else {}
      ensures Valid() && (arp.Some? ==> arp.value.cache.Valid())
      ensures sent <= |old(txBatch)| && txBatch == old(txBatch)[sent..]
      ensures nic.offered == old(nic.offered) + Min(|old(txBatch)|, MAX_BURST_SIZE)
      ensures old(nic.rxRing) == polled + nic.rxRing && (old(rxBatch) != [] ==> polled == [])
      ensures old(rxBatch) == [] ==> nic.asked == old(nic.asked) + RX_CAPACITY
      ensures nic.stalls == old(nic.stalls) + if old(txBatch) != [] && sent == 0 then 1 else 0
      ensures blocked == old(blocked) + if |old(txBatch)| == TX_CAPACITY && sent == 0 then 1 else 0
      ensures nic.idle == old(nic.idle) + if old(rxBatch) + polled == [] then 1 else 0
      ensures nic.refusals >= old(nic.refusals) && nic.arrived == old(nic.arrived)
      ensures packet.None? ==> start.batch == []
      ensures delivered == old(delivered) + if packet.Some? then [packet.value.data] else []
      ensures arp.Some? ==>
                arp.value.cache.inserts ==
                  old(arp.value.cache.inserts) + if queueId == 0 then Replies(Data(polled)) else []
      ensures start == RxState(Data(old(rxBatch) + polled), old(last)) && |start.batch| <= RX_CAPACITY
      ensures Rx() == AfterPop(AfterInjection(start, view, tries))
      ensures Popped(AfterInjection(start, view, tries)) == if packet.Some? then Some(packet.value.data) else None
      ensures queueId == 0 || arp.None? ==>
                && injected == old(injected) && Rx() == AfterPop(start)
                && packet.Some? == (start.batch != [])
                && (packet.Some? ==> packet.value.data == start.batch[|start.batch| - 1])
      ensures nic.refusals == old(nic.refusals) && FRAME_LENGTH <= nic.Room() ==>
                AfterInjection(start, view, tries) == AfterInjection(start, view, |view.entries|)
      ensures held == old(held) + if packet.Some? then [packet.value] else []
    {
      hide AfterInjection, AfterPop, Popped, Owned, Accounted, Fold, Replies, Data;
      sent := PollRx();
      polled := if old(rxBatch) == [] then rxBatch else [];
      assert old(rxBatch) + polled == rxBatch;
      start := Rx();
      NoReplies();
      EmptyPop(start, view);
      NotInjected(start, view);
      tries := InjectFromSharedCache(view);
      packet := PopRx();
    }

    /** Queue 0 and a device without a cache hand out the newest packet of the batch as it is. */
    lemma NotInjected(s: RxState, view: View)
      requires |s.batch| <= RX_CAPACITY
      ensures queueId == 0 || arp.None? ==> forall tries: nat :: AfterInjection(s, view, tries) == s
      ensures Popped(s) == if s.batch == [] then None else Some(s.batch[|s.batch| - 1])
    {
    }

    /** Nothing to pop means that the batch was empty before the injection. */
    lemma EmptyPop(s: RxState, view: View)
      requires |s.batch| <= RX_CAPACITY
      ensures forall tries: nat :: Popped(AfterInjection(s, view, tries)).None? ==> s.batch == []
    {
    }

    lemma NoReplies()
      ensures Replies(Data([])) == []
    {
    }

    /** Consuming an RX token: the stack has read the packet and the buffer is freed. */
    method ConsumeRx(i: nat)
      requires Valid() && i < |held|
      modifies `held, nic`pool
      ensures Valid() && held == old(held)[..i] + old(held)[i + 1..]
    {
      hide Data, Ids, IdSeq;
      var m := held[i];
      IdsRemove(held, i);
      held := held[..i] + held[i + 1..];
      Drop(m);
    }

    /** `transmit`: a token only when the batch has space, after trying to make some. */
    method Transmit() returns (token: bool)
      requires Valid()
      modifies `txBatch, `blocked, nic`txRing, nic`handed, nic`offered, nic`stalls
      ensures Valid() && (token <==> |txBatch| < TX_CAPACITY)
      ensures nic.offered == old(nic.offered) + if |old(txBatch)| < TX_CAPACITY then 0 else MAX_BURST_SIZE
      ensures nic.stalls == old(nic.stalls) + if token then 0 else 1
      ensures blocked == old(blocked) + if token then 0 else 1
      ensures |old(txBatch)| < TX_CAPACITY ==> token && txBatch == old(txBatch)
    {
      if |txBatch| < TX_CAPACITY {
        return true;
      }
      var sent := FlushTx();
      token := |txBatch| < TX_CAPACITY;
    }

    /** Puts a buffer in hand at the end of the transmit batch. */
    method PushTx(m: Mbuf)
      requires Holding(m.id) && |txBatch| < TX_CAPACITY
      modifies `txBatch, `queued
      ensures Valid() && queued == old(queued) + [m.data] && txBatch == old(txBatch) + [m]
      ensures Data(txBatch) == Data(old(txBatch)) + [m.data]
    {
      hide Ids, IdSeq, Data, Accounted;
      IdsConcat(txBatch, [m]);
      IdsOne(m);
      ghost var handed, waiting := nic.handed, Data(txBatch);
      txBatch := txBatch + [m];
      queued := queued + [m.data];
      assert handed + (waiting + [m.data]) == handed + waiting + [m.data];
    }

    /**
     Consuming a TX token. The packet is lost exactly when no buffer can be had; with a buffer, it is
     queued if and only if the batch has space, and otherwise the `expect` panics.
     */
    method ConsumeTx(packet: bytes) returns (outcome: TxOutcome)
      requires Valid() && |packet| <= nic.Room()
      modifies `txBatch, `queued, nic`pool, nic`refusals
      ensures Valid()
      ensures nic.refusals == old(nic.refusals) + if outcome.Lost? then 1 else 0
      ensures outcome.Queued? ==> |old(txBatch)| < TX_CAPACITY
      ensures outcome.Panicked? ==> |old(txBatch)| == TX_CAPACITY
      ensures queued == old(queued) + if outcome.Queued? then [packet] else []
      ensures !outcome.Queued? ==> txBatch == old(txBatch)
      ensures outcome.Queued? ==> |txBatch| == |old(txBatch)| + 1 && Data(txBatch) == Data(old(txBatch)) + [packet]
    {
      assert |txBatch| <= TX_CAPACITY;
      hide Data, Valid, Holding;
      var m := Alloc();
      if m.None? {
        return Lost;
      }
      var filled := m.value.(data := packet);
      if |txBatch| == TX_CAPACITY {
        Drop(filled);
        return Panicked;
      }
      PushTx(filled);
      outcome := Queued;
    }
  }

  /**
   The device in the stuck state of `Injection.StuckForever`: as long as no allocation is refused, a
   receive hands the stack one more ARP frame and leaves the 63 packets and the version as they are.
   */
  method ReceiveWhileStuck(dev: DpdkDevice, view: View) returns (packet: Option<Mbuf>)
    requires dev.Valid() && dev.arp.Some? && dev.arp.value.cache.Valid() && dev.queueId != 0
    requires |dev.rxBatch| == RX_CAPACITY - 1 && Pending(dev.Rx(), view) && FRAME_LENGTH <= dev.nic.Room()
    modifies dev, dev.nic, dev.arp.value.cache
    ensures dev.Valid() && dev.arp.value.cache.Valid()
    ensures dev.nic.refusals == old(dev.nic.refusals) ==>
              && dev.Rx() == old(dev.Rx())
              && packet.Some? && ParseArpReply(packet.value.data) == Some(view.entries[0])
  {
    hide Ids, IdSeq, Fold, ArpReply, ParseArpReply, Inject;
    ghost var s := dev.Rx();
    var ours := dev.arp.value.ours;
    StuckStep(ours, s, view);
    InjectedFrameParses(ours.mac, ours.ip, view.entries[0], []);
    assert ArpReply(ours.mac, ours.ip, view.entries[0]) + [] == ArpReply(ours.mac, ours.ip, view.entries[0]);
    var got, sent, tries, polled, start := dev.Receive(view);
    packet := got;
    assert old(dev.rxBatch) + [] == old(dev.rxBatch);
  }

  // ---------------------------------------------------------------- whole runs

  /** What the hardware and the stack may do next; a TX token borrows the device until it is used. */
  datatype Action =
    | PacketArrives(packet: bytes)
    | PacketSent
    | ReceiveAndReply(view: View, reply: Option<bytes>)
    | TransmitPacket(packet: bytes)
    | RxConsumed(i: nat)
    | InjectPacket(packet: bytes)

  /** How an action ended. `Skipped`: there was nothing to act on. */
  datatype Outcome = Done | Skipped | NoPacket | NoToken | NoBuffer | NoSpace | Panic

  predicate WithinRoom(script: seq<Action>, room: nat) {
    forall i :: 0 <= i < |script| ==>
      match script[i]
      case ReceiveAndReply(_, Some(reply)) => |reply| <= room
      case TransmitPacket(packet) => |packet| <= room
      case _ => true
  }

  predicate Possible(action: Action, o: Outcome) {
    match action
    case PacketArrives(_) => o.Done? || o.NoBuffer?
    case PacketSent => o.Done? || o.Skipped?
    case ReceiveAndReply(_, reply) => o.Done? || o.NoPacket? || (reply.Some? && (o.NoBuffer? || o.Panic?))
    case TransmitPacket(_) => o.Done? || o.NoToken? || o.NoBuffer?
    case RxConsumed(_) => o.Done? || o.Skipped?
    case InjectPacket(_) => o.Done? || o.NoSpace? || o.NoBuffer?
  }

  /** The outcomes that the pool or the hardware is to blame for. */
  predicate Missed(o: Outcome) {
    o.NoPacket? || o.NoToken? || o.NoBuffer? || o.Panic?
  }

  /** What an action that ended in `o` adds to the packets queued for transmission. */
  function QueuedOne(action: Action, o: Outcome): seq<bytes> {
    match action
    case ReceiveAndReply(_, Some(reply)) => if o.Done? then [reply] else []
    case TransmitPacket(packet) => if o.Done? then [packet] else []
    case _ => []
  }

  function ArrivedOne(action: Action, o: Outcome): seq<bytes> {
    if action.PacketArrives? && o.Done? then [action.packet] else []
  }

  /** Whether the action handed a packet to the stack. */
  function DeliveredOne(action: Action, o: Outcome): nat {
    if action.ReceiveAndReply? && !o.NoPacket? then 1 else 0
  }

  lemma AtMostOnce(dev: DpdkDevice)
    requires dev.Valid()
    ensures forall id :: dev.nic.Owned()[id] <= 1
  {
    forall id ensures dev.nic.Owned()[id] <= 1 {
      assert dev.Owned()[id] >= dev.nic.Owned()[id];
      assert multiset(dev.nic.all)[id] <= 1;
    }
  }

  method Arrives(dev: DpdkDevice, packet: bytes) returns (ok: bool)
    requires dev.Valid()
    modifies dev.nic
    ensures dev.Valid()
    ensures dev.nic.arrived == old(dev.nic.arrived) + if ok then [packet] else []
    ensures dev.nic.Shortages() == old(dev.nic.Shortages()) + if ok then 0 else 1
    ensures dev.nic.refusals == old(dev.nic.refusals) + if ok then 0 else 1
    ensures dev.nic.idle == old(dev.nic.idle) && dev.nic.offered == old(dev.nic.offered)
    ensures dev.nic.stalls == old(dev.nic.stalls)
  {
    hide Data, Ids;
    ghost var received, ring := dev.nic.received, Data(dev.nic.rxRing);
    assert received + ring + [packet] == received + (ring + [packet]);
    ok := dev.nic.Arrive(packet);
  }

  method Completes(dev: DpdkDevice)
    requires dev.Valid()
    modifies dev.nic
    ensures dev.Valid()
    ensures dev.nic.txRing == if old(dev.nic.txRing) == [] then [] else old(dev.nic.txRing)[1..]
    ensures dev.nic.arrived == old(dev.nic.arrived)
    ensures dev.nic.Shortages() == old(dev.nic.Shortages())
  {
    hide Data, Ids;
    AtMostOnce(dev);
    dev.nic.Complete();
  }

  /** The reply to a packet, if the stack has one, goes into the token that came with the packet. */
  method Answer(dev: DpdkDevice, reply: Option<bytes>) returns (outcome: Outcome)
    requires dev.Valid() && (reply.Some? ==> |reply.value| <= dev.nic.Room())
    modifies dev`txBatch, dev`queued, dev.nic`pool, dev.nic`refusals
    ensures dev.Valid() && (outcome.Done? || (reply.Some? && (outcome.NoBuffer? || outcome.Panic?)))
    ensures dev.queued == old(dev.queued) + if outcome.Done? && reply.Some? then [reply.value] else []
    ensures dev.nic.refusals == old(dev.nic.refusals) + if outcome.NoBuffer? then 1 else 0
    ensures outcome.Panic? <==> reply.Some? && !outcome.NoBuffer? && |old(dev.txBatch)| == TX_CAPACITY
  {
    hide DpdkDevice.Valid, Data;
    outcome := Done;
    if reply.Some? {
      var consumed := dev.ConsumeTx(reply.value);
      outcome := if consumed.Queued? then Done else if consumed.Lost? then NoBuffer else Panic;
    }
  }

  /** A `receive`, as far as its packet and its flush go. */
  method ReceivePacket(dev: DpdkDevice, view: View) returns (packet: Option<Mbuf>)
    requires dev.Valid() && (dev.arp.Some? ==> dev.arp.value.cache.Valid())
    modifies dev, dev.nic
    modifies if dev.arp.Some? then {dev.arp.value.cache} else {}
    ensures dev.Valid() && (dev.arp.Some? ==> dev.arp.value.cache.Valid())
    ensures dev.queued == old(dev.queued) && dev.nic.arrived == old(dev.nic.arrived)
    ensures |dev.delivered| == |old(dev.delivered)| + if packet.Some? then 1 else 0
    ensures packet.None? ==> dev.nic.idle > old(dev.nic.idle)
    ensures dev.nic.idle >= old(dev.nic.idle) && dev.nic.refusals >= old(dev.nic.refusals)
    ensures dev.nic.offered == old(dev.nic.offered) + Min(|old(dev.txBatch)|, MAX_BURST_SIZE)
    ensures old(dev.nic.stalls) <= dev.nic.stalls && old(dev.blocked) <= dev.blocked <= old(dev.blocked) + 1
    ensures |dev.txBatch| <= |old(dev.txBatch)| <= TX_CAPACITY
    ensures dev.blocked > old(dev.blocked) <==> |old(dev.txBatch)| == TX_CAPACITY == |dev.txBatch|
    ensures |old(dev.txBatch)| == TX_CAPACITY ==>
              dev.nic.stalls - old(dev.nic.stalls) == dev.blocked - old(dev.blocked)
  {
    assert |dev.txBatch| <= TX_CAPACITY;
    hide Fold, Replies, Data, DpdkDevice.Valid, DpdkDevice.AfterInjection, AfterPop, Popped;
    var got, sent, tries, polled, start := dev.Receive(view);
    packet := got;
  }

  /** A `receive`, and the reply if the stack has one for the packet. */
  method ReceiveThenReply(dev: DpdkDevice, view: View, reply: Option<bytes>) returns (outcome: Outcome)
    requires dev.Valid() && (dev.arp.Some? ==> dev.arp.value.cache.Valid())
    requires reply.Some? ==> |reply.value| <= dev.nic.Room()
    modifies dev, dev.nic
    modifies if dev.arp.Some? then {dev.arp.value.cache} else {}
    ensures dev.Valid() && (dev.arp.Some? ==> dev.arp.value.cache.Valid())
    ensures Possible(ReceiveAndReply(view, reply), outcome)
    ensures dev.queued == old(dev.queued) + if outcome.Done? && reply.Some? then [reply.value] else []
    ensures dev.nic.arrived == old(dev.nic.arrived)
    ensures |dev.delivered| == |old(dev.delivered)| + if outcome.NoPacket? then 0 else 1
    ensures dev.nic.Shortages() >= old(dev.nic.Shortages()) + if Missed(outcome) then 1 else 0
    ensures old(dev.blocked) <= dev.blocked <= old(dev.blocked) + 1
    ensures dev.blocked > old(dev.blocked) ==> |old(dev.txBatch)| == TX_CAPACITY
    ensures outcome.Panic? <==>
              dev.blocked > old(dev.blocked) && reply.Some? && !outcome.NoPacket? && !outcome.NoBuffer?
    ensures outcome.NoPacket? ==> dev.nic.idle > old(dev.nic.idle)
    ensures outcome.NoBuffer? ==> dev.nic.refusals > old(dev.nic.refusals)
    ensures dev.nic.refusals >= old(dev.nic.refusals)
    ensures dev.nic.offered == old(dev.nic.offered) + Min(|old(dev.txBatch)|, MAX_BURST_SIZE)
    ensures |old(dev.txBatch)| == TX_CAPACITY ==>
              dev.nic.stalls - old(dev.nic.stalls) == dev.blocked - old(dev.blocked)
  {
    hide DpdkDevice.Valid, SharedArpCache.Valid;
    var packet := ReceivePacket(dev, view);
    if packet.None? {
      return NoPacket;
    }
    outcome := Answer(dev, reply);
  }

  /** A `transmit`, and the packet if there is a token for it. */
  method TransmitOne(dev: DpdkDevice, packet: bytes) returns (outcome: Outcome)
    requires dev.Valid() && |packet| <= dev.nic.Room()
    modifies dev, dev.nic
    ensures dev.Valid() && Possible(TransmitPacket(packet), outcome)
    ensures dev.queued == old(dev.queued) + if outcome.Done? then [packet] else []
    ensures dev.nic.arrived == old(dev.nic.arrived) && dev.delivered == old(dev.delivered)
    ensures dev.nic.Shortages() >= old(dev.nic.Shortages()) + if Missed(outcome) then 1 else 0
    ensures dev.blocked == old(dev.blocked) + if outcome.NoToken? then 1 else 0
    ensures dev.blocked > old(dev.blocked) ==> |old(dev.txBatch)| == TX_CAPACITY
    ensures outcome.NoBuffer? ==> dev.nic.refusals > old(dev.nic.refusals)
    ensures dev.nic.refusals >= old(dev.nic.refusals) && dev.nic.idle == old(dev.nic.idle)
    ensures |old(dev.txBatch)| < TX_CAPACITY ==>
              && !outcome.NoToken? && dev.nic.offered == old(dev.nic.offered) && dev.nic.stalls == old(dev.nic.stalls)
              && |dev.txBatch| == |old(dev.txBatch)| + if outcome.Done? then 1 else 0
  {
    hide DpdkDevice.Owned, DpdkDevice.Accounted;
    var token := dev.Transmit();
    if !token {
      return NoToken;
    }
    var consumed := dev.ConsumeTx(packet);
    outcome := if consumed.Lost? then NoBuffer else Done;
  }

  /**
   One action. Its outcome says what it added to which history; whatever did not work was asked for,
   because each such outcome comes with a refused allocation, an empty burst or a blocked one. It
   panics exactly when a flush of the full batch sent nothing, the receive had a packet and a reply to
   it, and a buffer was to be had; the token of a transmit never does.
   */
  method Perform(dev: DpdkDevice, action: Action) returns (outcome: Outcome)
    requires dev.Valid() && (dev.arp.Some? ==> dev.arp.value.cache.Valid())
    requires WithinRoom([action], dev.nic.Room())
    modifies dev, dev.nic
    modifies if dev.arp.Some? then {dev.arp.value.cache} else {}
    ensures dev.Valid() && (dev.arp.Some? ==> dev.arp.value.cache.Valid())
    ensures Possible(action, outcome)
    ensures dev.queued == old(dev.queued) + QueuedOne(action, outcome)
    ensures dev.nic.arrived == old(dev.nic.arrived) + ArrivedOne(action, outcome)
    ensures |dev.delivered| == |old(dev.delivered)| + DeliveredOne(action, outcome)
    ensures dev.nic.Shortages() >= old(dev.nic.Shortages()) + if Missed(outcome) then 1 else 0
    ensures dev.blocked > old(dev.blocked) ==> dev.blocked == old(dev.blocked) + 1 && |old(dev.txBatch)| == TX_CAPACITY
    ensures dev.blocked >= old(dev.blocked)
    ensures action.TransmitPacket? ==> (outcome.NoToken? <==> dev.blocked > old(dev.blocked))
    ensures outcome.Panic? <==>
              && action.ReceiveAndReply? && action.reply.Some? && !outcome.NoPacket? && !outcome.NoBuffer?
              && dev.blocked > old(dev.blocked)
    ensures action.RxConsumed? ==>
              if outcome.Done?
              then action.i < |old(dev.held)| && dev.held == old(dev.held)[..action.i] + old(dev.held)[action.i + 1..]
              else action.i >= |old(dev.held)|
    ensures action.PacketSent? ==>
              if outcome.Done?
              then old(dev.nic.txRing) != [] && dev.nic.txRing == old(dev.nic.txRing)[1..]
              else old(dev.nic.txRing) == []
    ensures action.InjectPacket? && outcome.NoSpace? ==> |old(dev.rxBatch)| == RX_CAPACITY || !dev.Fits(action.packet)
  {
    hide Fold, Replies, Data, DpdkDevice.Valid;
    assert action == [action][0];
    outcome := Done;
    match action {
      case PacketArrives(packet) =>
        var ok := Arrives(dev, packet);
        outcome := if ok then Done else NoBuffer;
      case PacketSent =>
        outcome := if dev.nic.txRing == [] then Skipped else Done;
        Completes(dev);
      case ReceiveAndReply(view, reply) =>
        outcome := ReceiveThenReply(dev, view, reply);
      case TransmitPacket(packet) =>
        outcome := TransmitOne(dev, packet);
      case RxConsumed(i) =>
        if i < |dev.held| {
          dev.ConsumeRx(i);
        } else {
          outcome := Skipped;
        }
      case InjectPacket(packet) =>
        var before := dev.nic.refusals;
        var ok := dev.InjectRxPacket(packet);
        outcome := if ok then Done else if dev.nic.refusals > before then NoBuffer else NoSpace;
    }
  }

  function QueuedBy(script: seq<Action>, outcomes: seq<Outcome>): seq<bytes>
    requires |outcomes| <= |script|
    decreases |outcomes|
  {
    if outcomes == [] then []
    else
      var n := |outcomes| - 1;
      QueuedBy(script, outcomes[..n]) + QueuedOne(script[n], outcomes[n])
  }

  function ArrivedBy(script: seq<Action>, outcomes: seq<Outcome>): seq<bytes>
    requires |outcomes| <= |script|
    decreases |outcomes|
  {
    if outcomes == [] then []
    else
      var n := |outcomes| - 1;
      ArrivedBy(script, outcomes[..n]) + ArrivedOne(script[n], outcomes[n])
  }

  function DeliveredBy(script: seq<Action>, outcomes: seq<Outcome>): nat
    requires |outcomes| <= |script|
    decreases |outcomes|
  {
    if outcomes == [] then 0
    else
      var n := |outcomes| - 1;
      DeliveredBy(script, outcomes[..n]) + DeliveredOne(script[n], outcomes[n])
  }

  function Misses(outcomes: seq<Outcome>): nat {
    if outcomes == [] then 0
    else Misses(outcomes[..|outcomes| - 1]) + if Missed(outcomes[|outcomes| - 1]) then 1 else 0
  }

  lemma OneMore(script: seq<Action>, outcomes: seq<Outcome>, o: Outcome)
    requires |outcomes| < |script|
    ensures var action := script[|outcomes|];
            && QueuedBy(script, outcomes + [o]) == QueuedBy(script, outcomes) + QueuedOne(action, o)
            && ArrivedBy(script, outcomes + [o]) == ArrivedBy(script, outcomes) + ArrivedOne(action, o)
            && DeliveredBy(script, outcomes + [o]) == DeliveredBy(script, outcomes) + DeliveredOne(action, o)
            && Misses(outcomes + [o]) == Misses(outcomes) + if Missed(o) then 1 else 0
  {
    assert (outcomes + [o])[..|outcomes|] == outcomes;
  }

  /** The packets the stack wants to send, replies included. */
  function Offered(script: seq<Action>): seq<bytes> {
    if script == [] then []
    else Offered(script[..|script| - 1]) + QueuedOne(script[|script| - 1], Done)
  }

  predicate AllPossible(script: seq<Action>, outcomes: seq<Outcome>)
    requires |outcomes| <= |script|
  {
    forall i :: 0 <= i < |outcomes| ==> Possible(script[i], outcomes[i])
  }

  /** Without a shortage every packet is queued, in the order of the script. */
  lemma {:induction false} NothingMissed(script: seq<Action>, outcomes: seq<Outcome>)
    requires |outcomes| <= |script| && AllPossible(script, outcomes) && Misses(outcomes) == 0
    ensures QueuedBy(script, outcomes) == Offered(script[..|outcomes|])
    decreases |outcomes|
  {
    if outcomes == [] {
      assert script[..0] == [];
    } else {
      var n := |outcomes| - 1;
      NothingMissed(script, outcomes[..n]);
      assert script[..n + 1][..n] == script[..n];
      assert Possible(script[n], outcomes[n]) && !Missed(outcomes[n]);
    }
  }

  /**
   Any run: no buffer leaks, is freed twice or is used after it was handed over; exactly the packets
   that the outcomes call queued are queued, in order, and reach the hardware in that order; every
   packet that arrived or was injected is in one place or was delivered. A run stops early only by the
   panic, which a run cannot have in which every flush of a full batch sends something. Each miss is a
   shortage, so without one every packet is queued.
   */
  method Drive(dev: DpdkDevice, script: seq<Action>) returns (outcomes: seq<Outcome>)
    requires dev.Valid() && (dev.arp.Some? ==> dev.arp.value.cache.Valid())
    requires WithinRoom(script, dev.nic.Room())
    modifies dev, dev.nic
    modifies if dev.arp.Some? then {dev.arp.value.cache} else {}
    ensures dev.Owned() == multiset(dev.nic.all)
    ensures |dev.rxBatch| <= RX_CAPACITY && |dev.txBatch| <= TX_CAPACITY
    ensures dev.nic.handed + Data(dev.txBatch) == dev.queued
    ensures dev.Accounted()
    ensures |outcomes| <= |script| && AllPossible(script, outcomes)
    ensures dev.queued == old(dev.queued) + QueuedBy(script, outcomes)
    ensures dev.nic.arrived == old(dev.nic.arrived) + ArrivedBy(script, outcomes)
    ensures |dev.delivered| == |old(dev.delivered)| + DeliveredBy(script, outcomes)
    ensures Misses(outcomes) <= dev.nic.Shortages() - old(dev.nic.Shortages())
    ensures |outcomes| < |script| ==> outcomes != [] && outcomes[|outcomes| - 1].Panic?
    ensures (exists i :: 0 <= i < |outcomes| && outcomes[i].Panic?) ==> dev.blocked > old(dev.blocked)
    ensures dev.nic.Shortages() == old(dev.nic.Shortages()) ==> dev.queued == old(dev.queued) + Offered(script)
  {
    hide QueuedBy, ArrivedBy, DeliveredBy, Misses, Possible, QueuedOne, ArrivedOne, DeliveredOne, Missed, Offered;
    hide Data, Ids;
    NoOutcomes(script, []);
    outcomes := [];
    while |outcomes| < |script|
      invariant dev.Valid() && (dev.arp.Some? ==> dev.arp.value.cache.Valid())
      invariant |outcomes| <= |script| && AllPossible(script, outcomes)
      invariant dev.queued == old(dev.queued) + QueuedBy(script, outcomes)
      invariant dev.nic.arrived == old(dev.nic.arrived) + ArrivedBy(script, outcomes)
      invariant |dev.delivered| == |old(dev.delivered)| + DeliveredBy(script, outcomes)
      invariant Misses(outcomes) <= dev.nic.Shortages() - old(dev.nic.Shortages())
      invariant forall i :: 0 <= i < |outcomes| ==> !outcomes[i].Panic?
      invariant dev.blocked >= old(dev.blocked)
    {
      var action := script[|outcomes|];
      assert [action][0] == action;
      var o := Perform(dev, action);
      OneMore(script, outcomes, o);
      outcomes := outcomes + [o];
      if o.Panic? {
        PanicMissed(outcomes);
        return;
      }
    }
    assert script[..|outcomes|] == script;
    if Misses(outcomes) == 0 {
      NothingMissed(script, outcomes);
    }
  }

  lemma NoOutcomes(script: seq<Action>, none: seq<Outcome>)
    requires none == []
    ensures QueuedBy(script, none) == [] && ArrivedBy(script, none) == [] && DeliveredBy(script, none) == 0
    ensures Misses(none) == 0
  {
  }

  lemma PanicMissed(outcomes: seq<Outcome>)
    requires outcomes != [] && outcomes[|outcomes| - 1].Panic?
    ensures Misses(outcomes) > 0
  {
  }

  /**
   A run that panics: the batch is filled, a packet arrives and is answered. With enough buffers, the
   one flush that the run makes decides, and it panics exactly if that flush sends nothing.
   */
  method FillThenReply(dev: DpdkDevice, packet: bytes, arrival: bytes, view: View) returns (outcomes: seq<Outcome>)
    requires dev.Valid() && dev.arp.None? && dev.rxBatch == [] && dev.txBatch == [] && |packet| <= dev.nic.Room()
    modifies dev, dev.nic
    ensures dev.Valid()
    ensures dev.nic.refusals == old(dev.nic.refusals) && dev.nic.idle == old(dev.nic.idle) ==>
              && |outcomes| == TX_CAPACITY + 2
              && (forall i :: 0 <= i <= TX_CAPACITY ==> outcomes[i].Done?)
              && dev.nic.offered == old(dev.nic.offered) + MAX_BURST_SIZE
              && (outcomes[TX_CAPACITY + 1].Panic? <==> dev.nic.stalls > old(dev.nic.stalls))
  {
    hide DpdkDevice.Valid, Possible;
    outcomes := [];
    for i := 0 to TX_CAPACITY
      invariant dev.Valid() && |outcomes| == i && |dev.txBatch| <= i
      invariant dev.nic.refusals >= old(dev.nic.refusals) && dev.nic.idle == old(dev.nic.idle)
      invariant dev.nic.offered == old(dev.nic.offered) && dev.nic.stalls == old(dev.nic.stalls)
      invariant dev.nic.refusals == old(dev.nic.refusals) ==>
                  |dev.txBatch| == i && forall k :: 0 <= k < i ==> outcomes[k].Done?
    {
      var o := TransmitOne(dev, packet);
      assert o.Done? || o.NoBuffer? by { TransmitOutcomes(packet, o); }
      outcomes := outcomes + [o];
    }
    var arrived := Arrives(dev, arrival);
    outcomes := outcomes + [if arrived then Done else NoBuffer];
    var reply := ReceiveThenReply(dev, view, Some(packet));
    outcomes := outcomes + [reply];
  }

  lemma TransmitOutcomes(packet: bytes, o: Outcome)
    ensures Possible(TransmitPacket(packet), o) ==> o.Done? || o.NoToken? || o.NoBuffer?
  {
  }
}
