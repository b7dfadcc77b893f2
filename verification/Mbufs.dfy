/**
 Packet buffers and the NIC that lends them out: dpdk-net/src/api/rte/mbuf.rs and queue.rs. A
 buffer is an identity with its current contents. The NIC and the pool stand for DPDK: a burst
 takes or gives any number of packets up to what was asked, and an allocation may fail.
 */
module Mbufs {
  import opened Bytes

  datatype Mbuf = Mbuf(id: nat, data: bytes)

  function IdSeq(s: seq<Mbuf>): seq<nat> {
    seq(|s|, i requires 0 <= i < |s| => s[i].id)
  }

  /** The buffers held by a container, with multiplicity. */
  function Ids(s: seq<Mbuf>): multiset<nat> {
    multiset(IdSeq(s))
  }

  function Data(s: seq<Mbuf>): (r: seq<bytes>)
    ensures |r| == |s|
    ensures forall i :: 0 <= i < |s| ==> r[i] == s[i].data
  {
    seq(|s|, i requires 0 <= i < |s| => s[i].data)
  }

  lemma IdsConcat(a: seq<Mbuf>, b: seq<Mbuf>)
    ensures Ids(a + b) == Ids(a) + Ids(b)
    ensures Data(a + b) == Data(a) + Data(b)
  {
    assert IdSeq(a + b) == IdSeq(a) + IdSeq(b);
  }

  lemma IdsSplit(s: seq<Mbuf>, k: nat)
    requires k <= |s|
    ensures Ids(s) == Ids(s[..k]) + Ids(s[k..])
    ensures Data(s) == Data(s[..k]) + Data(s[k..])
  {
    assert s == s[..k] + s[k..];
    IdsConcat(s[..k], s[k..]);
  }

  lemma IdsOne(m: Mbuf)
    ensures Ids([m]) == multiset{m.id} && Data([m]) == [m.data]
  {
    assert IdSeq([m]) == [m.id];
  }

  lemma IdsRemove(s: seq<Mbuf>, i: nat)
    requires i < |s|
    ensures Ids(s[..i] + s[i + 1..]) + multiset{s[i].id} == Ids(s)
  {
    hide Ids, Data;
    assert s == s[..i] + ([s[i]] + s[i + 1..]);
    IdsConcat(s[..i], [s[i]] + s[i + 1..]);
    IdsConcat([s[i]], s[i + 1..]);
    IdsConcat(s[..i], s[i + 1..]);
    IdsOne(s[i]);
  }

  const MAX_BURST_SIZE: nat := 64

  class Nic {
    /** Free buffers. */
    var pool: set<nat>
    /** Filled by the hardware, not yet received. */
    var rxRing: seq<Mbuf>
    /** Handed to the hardware, not yet freed by it. */
    var txRing: seq<Mbuf>
    /** Every packet handed to the hardware so far. */
    var handed: seq<bytes>
    /** Every packet that has arrived, and every one taken out of the receive ring so far. */
    var arrived: seq<bytes>
    var received: seq<bytes>
    /** How often an allocation was refused, and how many packets were asked for and offered. */
    var refusals: nat
    var asked: nat
    var offered: nat
    /** How many receive bursts found nothing, and how many transmit bursts took nothing. */
    var idle: nat
    var stalls: nat
    /** All buffers there are, the length of each and the part of it that a reset leaves in front. */
    const all: set<nat>
    const length: nat
    const headroom: nat

    constructor (all: set<nat>, length: nat, headroom: nat)
      ensures pool == all && rxRing == [] && txRing == [] && handed == [] && arrived == [] && received == []
      ensures this.all == all && this.length == length && this.headroom == headroom
    {
      this.all, this.length, this.headroom := all, length, headroom;
      pool, rxRing, txRing, handed, arrived, received := all, [], [], [], [], [];
      refusals, asked, offered, idle, stalls := 0, 0, 0, 0, 0;
    }

    /** The room in a buffer after a reset. */
    function Room(): nat {
      length - Min(headroom, length)
    }

    /** How often the hardware or the pool had less than was asked for. */
    function Shortages(): nat
      reads this
    {
      refusals + idle + stalls
    }

    ghost function Owned(): multiset<nat>
      reads `pool, `rxRing, `txRing
    {
      multiset(pool) + Ids(rxRing) + Ids(txRing)
    }

    /** `rust_pktmbuf_alloc`: an empty buffer, or none. */
    method TryAlloc() returns (r: Option<Mbuf>)
      modifies `pool, `refusals
      ensures refusals == old(refusals) + if r.None? then 1 else 0
      ensures r.None? ==> pool == old(pool)
      ensures r.Some? ==> r.value.id in old(pool) && pool == old(pool) - {r.value.id}
      ensures r.Some? ==> Owned() + multiset{r.value.id} == old(Owned())
    {
      var available: bool := *;
      if pool == {} || !available {
        refusals := refusals + 1;
        return None;
      }
      var id :| id in pool;
      pool := pool - {id};
      r := Some(Mbuf(id, []));
    }

    /** Dropping an mbuf: it goes back to the pool. A buffer that is already there must not be freed. */
    method Free(m: Mbuf)
      requires m.id !in pool
      modifies `pool
      ensures pool == old(pool) + {m.id}
      ensures Owned() == old(Owned()) + multiset{m.id}
    {
      pool := pool + {m.id};
    }

    /** `rust_eth_rx_burst` of at most `n` packets. */
    method RxBurst(n: nat) returns (got: seq<Mbuf>)
      modifies `rxRing, `asked, `idle, `received
      ensures asked == old(asked) + n
      ensures idle == old(idle) + if n > 0 && got == [] then 1 else 0
      ensures |got| <= n && old(rxRing) == got + rxRing
      ensures received == old(received) + Data(got) && Data(old(rxRing)) == Data(got) + Data(rxRing)
      ensures Owned() + Ids(got) == old(Owned())
    {
      hide Ids, IdSeq, Data;
      var most := Min(n, |rxRing|);
      var k: nat :| k <= most;
      got := rxRing[..k];
      IdsSplit(rxRing, k);
      rxRing := rxRing[k..];
      received := received + Data(got);
      asked := asked + n;
      idle := idle + if n > 0 && got == [] then 1 else 0;
    }

    /** `rust_eth_tx_burst`: takes some number of packets from the front. */
    method TxBurst(packets: seq<Mbuf>) returns (sent: nat)
      modifies `txRing, `handed, `offered, `stalls
      ensures offered == old(offered) + |packets|
      ensures stalls == old(stalls) + if packets != [] && sent == 0 then 1 else 0
      ensures sent <= |packets|
      ensures txRing == old(txRing) + packets[..sent] && handed == old(handed) + Data(packets[..sent])
      ensures Owned() == old(Owned()) + Ids(packets[..sent])
    {
      sent :| 0 <= sent <= |packets|;
      IdsConcat(txRing, packets[..sent]);
      txRing := txRing + packets[..sent];
      handed := handed + Data(packets[..sent]);
      offered := offered + |packets|;
      stalls := stalls + if packets != [] && sent == 0 then 1 else 0;
    }

    /** A packet arrives: the hardware fills one of the buffers it was given, or drops the packet. */
    method Arrive(packet: bytes) returns (ok: bool)
      modifies `pool, `rxRing, `refusals, `arrived
      ensures Owned() == old(Owned())
      ensures refusals == old(refusals) + if ok then 0 else 1
      ensures arrived == old(arrived) + if ok then [packet] else []
      ensures Data(rxRing) == Data(old(rxRing)) + if ok then [packet] else []
    {
      hide Ids, IdSeq, Data;
      var m := TryAlloc();
      ok := m.Some?;
      if ok {
        Filled(m.value.(data := packet));
      } else {
        DataAppendNone(rxRing);
      }
    }

    /** A buffer in hand that has been filled joins the receive ring. */
    method Filled(m: Mbuf)
      modifies `rxRing, `arrived
      ensures Owned() == old(Owned()) + multiset{m.id}
      ensures arrived == old(arrived) + [m.data] && Data(rxRing) == Data(old(rxRing)) + [m.data]
    {
      hide Ids, IdSeq, Data;
      IdsConcat(rxRing, [m]);
      IdsOne(m);
      rxRing := rxRing + [m];
      arrived := arrived + [m.data];
    }

    /** The hardware has sent the oldest packet and frees its buffer. */
    method Complete()
      requires forall id :: Owned()[id] <= 1
      modifies `pool, `txRing
      ensures Owned() == old(Owned())
      ensures txRing == if old(txRing) == [] then [] else old(txRing)[1..]
    {
      if txRing != [] {
        var m := txRing[0];
        IdsSplit(txRing, 1);
        IdsOne(m);
        assert txRing[..1] == [m];
        assert Owned()[m.id] >= multiset(pool)[m.id] + Ids(txRing)[m.id];
        txRing := txRing[1..];
        Free(m);
      }
    }
  }

  /** `RxQueue::rx` into a batch of capacity `cap`. */
  method Rx(nic: Nic, batch: seq<Mbuf>, cap: nat) returns (r: seq<Mbuf>, received: nat)
    requires |batch| <= cap
    modifies nic`rxRing, nic`asked, nic`idle, nic`received
    ensures nic.asked == old(nic.asked) + Min(cap - |batch|, MAX_BURST_SIZE)
    ensures nic.idle == old(nic.idle) + if received == 0 && |batch| < cap then 1 else 0
    ensures |r| == |batch| + received <= cap && received <= MAX_BURST_SIZE
    ensures nic.received == old(nic.received) + Data(r[|batch|..])
    ensures Data(old(nic.rxRing)) == Data(r[|batch|..]) + Data(nic.rxRing)
    ensures batch <= r && old(nic.rxRing) == r[|batch|..] + nic.rxRing
    ensures nic.Owned() + Ids(r) == old(nic.Owned()) + Ids(batch)
  {
    hide Ids, IdSeq, Data;
    var capacity := cap - |batch|;
    if capacity == 0 {
      DataNone(batch[|batch|..]);
      return batch, 0;
    }
    var raw := nic.RxBurst(Min(Min(capacity, 65535), MAX_BURST_SIZE));
    r := batch;
    for i := 0 to |raw|
      invariant r == batch + raw[..i]
    {
      r := r + [raw[i]];
    }
    assert r == batch + raw && r[|batch|..] == raw;
    IdsConcat(batch, raw);
    received := |raw|;
  }

  lemma DataAppendNone(s: seq<Mbuf>)
    ensures Data(s) + [] == Data(s)
  {
  }

  lemma DataNone(none: seq<Mbuf>)
    requires none == []
    ensures Data(none) == []
  {
  }

  /** `mem::forget(mbufs.remove(0))`, `n` times. */
  method ForgetFront(batch: seq<Mbuf>, n: nat) returns (r: seq<Mbuf>)
    requires n <= |batch|
    ensures r == batch[n..]
  {
    r := batch;
    for i := 0 to n
      invariant r == batch[i..]
    {
      r := r[1..];
    }
  }

  lemma Regroup(a: seq<bytes>, b: seq<bytes>, c: seq<bytes>)
    ensures a + b + c == a + (b + c)
  {
  }

  /** `TxQueue::tx`: what was sent is removed from the front and forgotten, the rest stays. */
  method Tx(nic: Nic, batch: seq<Mbuf>) returns (r: seq<Mbuf>, sent: nat)
    modifies nic`txRing, nic`handed, nic`offered, nic`stalls
    ensures nic.offered == old(nic.offered) + Min(|batch|, MAX_BURST_SIZE)
    ensures nic.stalls == old(nic.stalls) + if batch != [] && sent == 0 then 1 else 0
    ensures sent <= MAX_BURST_SIZE && sent <= |batch| && r == batch[sent..]
    ensures nic.handed + Data(r) == old(nic.handed) + Data(batch)
    ensures nic.Owned() + Ids(r) == old(nic.Owned()) + Ids(batch)
  {
    hide Ids, IdSeq, Data, Nic.Owned;
    if batch == [] {
      return batch, 0;
    }
    var n := Min(Min(|batch|, MAX_BURST_SIZE), 65535);
    ghost var handed0 := nic.handed;
    sent := nic.TxBurst(batch[..n]);
    assert batch[..n][..sent] == batch[..sent];
    r := ForgetFront(batch, sent);
    IdsSplit(batch, sent);
    Regroup(handed0, Data(batch[..sent]), Data(r));
  }

  /** `TxQueue::tx_one`: the packet is gone exactly when the hardware took it. */
  method TxOne(nic: Nic, m: Mbuf) returns (back: Option<Mbuf>)
    modifies nic`txRing, nic`handed, nic`offered, nic`stalls
    ensures nic.offered == old(nic.offered) + 1
    ensures nic.stalls == old(nic.stalls) + if back.Some? then 1 else 0
    ensures back.None? ==> nic.Owned() == old(nic.Owned()) + multiset{m.id} && nic.handed == old(nic.handed) + [m.data]
    ensures back.Some? ==> back.value == m && nic.Owned() == old(nic.Owned()) && nic.handed == old(nic.handed)
  {
    IdsOne(m);
    var sent := nic.TxBurst([m]);
    if sent == 1 {
      assert [m][..1] == [m];
      back := None;
    } else {
      back := Some(m);
    }
  }

  // ---------------------------------------------------------------- the memory of one buffer

  /** One buffer: `mem[head..head + len]` is the packet, what is before it is headroom, what is after it tailroom. */
  class PacketBuffer {
    const mem: array<byte>
    const headroom: nat
    var head: nat
    var len: nat

    ghost predicate Valid()
      reads this
    {
      head + len <= mem.Length
    }

    ghost function Contents(): (r: bytes)
      requires Valid()
      reads this, mem
      ensures |r| == len
    {
      mem[head..head + len]
    }

    constructor (length: nat, headroom: nat)
      ensures Valid() && fresh(mem) && mem.Length == length && this.headroom == headroom && Contents() == []
    {
      mem, this.headroom := new byte[length], headroom;
      head, len := Min(headroom, length), 0;
    }

    /** `rte_pktmbuf_reset`: empty, with the default headroom as far as the buffer has it. */
    method Reset()
      modifies this
      ensures Valid() && len == 0 && head == Min(headroom, mem.Length)
    {
      head, len := Min(headroom, mem.Length), 0;
    }

    /** `append`: room for `n` more bytes after the packet, or no change. */
    method Append(n: nat) returns (at: Option<nat>)
      requires Valid()
      modifies `len
      ensures Valid()
      ensures at.Some? <==> n <= 65535 && head + old(len) + n <= mem.Length
      ensures at.Some? ==> at.value == head + old(len) && len == old(len) + n
      ensures at.None? ==> len == old(len)
    {
      if n > 65535 || n > mem.Length - head - len {
        return None;
      }
      at := Some(head + len);
      len := len + n;
    }

    /**
     `copy_from_slice`. Whatever the buffer held is gone, also on failure. It then holds exactly the
     data if that fits 16 bits and the room after a reset, and otherwise it is empty.
     */
    method CopyFromSlice(data: bytes) returns (ok: bool)
      requires Valid()
      modifies this, mem
      ensures Valid() && Contents() == (if ok then data else [])
      ensures ok <==> |data| <= 65535 && |data| <= mem.Length - Min(headroom, mem.Length)
    {
      Reset();
      var at := Append(|data|);
      ok := at.Some?;
      if ok {
        forall i | 0 <= i < |data| {
          mem[at.value + i] := data[i];
        }
      }
    }
  }
}
