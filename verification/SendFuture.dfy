/** `TcpSendFuture` of dpdk-net/src/socket/tcp.rs over a send buffer that fills and drains as it likes. */
module SendFuture {
  import opened Bytes

  datatype Poll = Pending | Ready(n: nat) | Failed

  class SendSocket {
    var maySend: bool
    var space: nat
    /** Every byte the send buffer has accepted so far. */
    var enqueued: bytes

    constructor (maySend: bool, space: nat)
      ensures this.maySend == maySend && this.space == space && enqueued == []
    {
      this.maySend, this.space, enqueued := maySend, space, [];
    }

    /** `Socket::send_slice`: as much as fits, or an error in a state that cannot send. */
    method SendSlice(data: bytes) returns (sent: Option<nat>)
      modifies this
      ensures !maySend ==> sent.None? && enqueued == old(enqueued) && space == old(space)
      ensures maySend ==> sent == Some(Min(old(space), |data|))
      ensures maySend ==> enqueued == old(enqueued) + data[..sent.value] && space == old(space) - sent.value
      ensures maySend == old(maySend)
    {
      if !maySend {
        return None;
      }
      var n := Min(space, |data|);
      enqueued := enqueued + data[..n];
      space := space - n;
      sent := Some(n);
    }
  }

  class TcpSendFuture {
    const socket: SendSocket
    const data: bytes
    var offset: nat
    /** What had been enqueued when the future was made. */
    ghost const before: bytes

    ghost predicate Valid()
      reads this, socket
    {
      offset <= |data| && socket.enqueued == before + data[..offset]
    }

    constructor (socket: SendSocket, data: bytes)
      ensures Valid() && offset == 0 && this.socket == socket && this.data == data && before == socket.enqueued
    {
      this.socket, this.data, this.before := socket, data, socket.enqueued;
      offset := 0;
    }

    /**
     One poll. The bytes enqueued are always the first `offset` of the data. As much as there is space
     for goes in; the future completes exactly when this poll enqueues the last byte, fails exactly in a
     state that cannot send, and otherwise waits, for space if there is data left.
     */
    method PollOnce() returns (r: Poll)
      requires Valid()
      modifies `offset, socket
      ensures Valid() && socket.maySend == old(socket.maySend)
      ensures !old(socket.maySend) <==> r.Failed?
      ensures offset == old(offset) + if r.Failed? then 0 else Min(old(socket.space), |data| - old(offset))
      ensures offset - old(offset) == old(socket.space) - socket.space
      ensures !r.Failed? ==> r == if old(offset) < offset == |data| then Ready(|data|) else Pending
      ensures r.Pending? ==> old(offset) == |data| || (offset < |data| && socket.space == 0)
    {
      var remaining := data[offset..];
      var sent := socket.SendSlice(remaining);
      if sent.None? {
        return Failed;
      }
      var n := sent.value;
      assert data[..offset] + remaining[..n] == data[..offset + n];
      if n == 0 {
        return Pending;
      }
      offset := offset + n;
      r := if offset >= |data| then Ready(|data|) else Pending;
    }
  }

  /** What happens to the socket before a poll: acknowledged data frees space, or the connection ends. */
  datatype Between = Between(freed: nat, closes: bool)

  /** How many polls come before the connection ends. */
  function FirstClose(script: seq<Between>): (n: nat)
    ensures n <= |script| && forall i :: 0 <= i < n ==> !script[i].closes
    ensures n < |script| ==> script[n].closes
  {
    if script == [] || script[0].closes then 0 else 1 + FirstClose(script[1..])
  }

  function Freed(script: seq<Between>): nat {
    if script == [] then 0 else Freed(script[..|script| - 1]) + script[|script| - 1].freed
  }

  lemma FreedStart(script: seq<Between>)
    ensures Freed(script[..0]) == 0
  {
  }

  lemma FreedStep(script: seq<Between>, i: nat)
    requires i < |script|
    ensures Freed(script[..i + 1]) == Freed(script[..i]) + script[i].freed
  {
    assert script[..i + 1][..i] == script[..i];
  }

  lemma {:induction false} FreedGrows(script: seq<Between>, a: nat, b: nat)
    requires a <= b <= |script|
    ensures Freed(script[..a]) <= Freed(script[..b])
    decreases b - a
  {
    if a < b {
      FreedGrows(script, a, b - 1);
      assert script[..b][..b - 1] == script[..b - 1];
    }
  }

  /**
   Any sequence of polls with any send-buffer space in between. Only the polls before the connection
   ends count, and the space that was there or was freed up to then: the future succeeds exactly when
   that is enough for data that is not empty, fails exactly when it is not and the connection ends,
   and has in any case enqueued as much of the data as there was space for, in order and once.
   */
  method PollMany(f: TcpSendFuture, script: seq<Between>) returns (r: Poll)
    requires f.Valid() && f.offset == 0
    modifies f, f.socket
    ensures f.Valid() && f.socket.enqueued == f.before + f.data[..f.offset]
    ensures var open := if old(f.socket.maySend) then FirstClose(script) else 0;
            var space := old(f.socket.space) + Freed(script[..open]);
            && (r.Ready? <==> f.data != [] && open > 0 && |f.data| <= space)
            && (r.Failed? <==> !r.Ready? && open < |script|)
            && (r.Ready? ==> r.n == |f.data|)
            && f.offset == if open == 0 then 0 else Min(|f.data|, space)
  {
    ghost var open := if f.socket.maySend then FirstClose(script) else 0;
    ghost var space := f.socket.space;
    r := Pending;
    FreedStart(script);
    hide Freed, FirstClose;
    for i := 0 to |script|
      invariant f.Valid() && r.Pending? && i <= open
      invariant (f.socket.maySend <==> old(f.socket.maySend)) && (!f.socket.maySend ==> i == 0)
      invariant f.socket.space == space + Freed(script[..i]) - f.offset
      invariant f.offset == if i == 0 then 0 else Min(|f.data|, space + Freed(script[..i]))
      invariant i > 0 && f.data != [] ==> space + Freed(script[..i]) < |f.data|
    {
      FreedStep(script, i);
      f.socket.space := f.socket.space + script[i].freed;
      if script[i].closes {
        f.socket.maySend := false;
      }
      r := f.PollOnce();
      if !r.Pending? {
        if r.Ready? {
          FreedGrows(script, i + 1, open);
        }
        return;
      }
    }
  }
}
