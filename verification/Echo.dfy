/**
 The echo server and client of dpdk-net-test/src/manual/tcp_echo.rs, on their own and joined by a
 TCP connection: each direction is a reliable byte stream, cut into deliveries of any size.
 */
module Echo {
  import opened Bytes
  import opened TcpState

  predicate IsActive(s: State) {
    !s.Closed? && !s.TimeWait? && !s.Listen?
  }

  predicate IsOpen(s: State) {
    !s.Closed? && !s.TimeWait?
  }

  predicate MaySend(s: State) {
    s.Established? || s.CloseWait?
  }

  /** States in which data that arrives is accepted. */
  predicate TakesData(s: State) {
    s.Established? || s.FinWait1? || s.FinWait2?
  }

  /** The states by what they allow: what is open can still change, and a close of what may send sends a FIN. */
  lemma StatesAgree(s: State)
    ensures IsOpen(s) <==> !Finished(s)
    ensures IsActive(s) <==> IsOpen(s) && !s.Listen?
    ensures MaySend(s) <==> !ShutDown(s) && MidClose(AfterClose(s)) && !s.SynReceived?
    ensures TakesData(s) ==> IsActive(s) && (MaySend(s) || MidClose(s))
  {
  }

  /** A socket as a value. */
  datatype SocketView = SocketView(state: State, rx: bytes, tx: bytes, room: nat, taken: bytes, given: bytes)

  /** The length of the contiguous slice that `recv` shows; the receive buffer is a ring, so any part may be. */
  function Slice(available: nat, asked: nat): (n: nat)
    ensures n <= available && (available > 0 ==> n > 0)
  {
    if 1 <= asked <= available then asked else available
  }

  /** What `recv` takes out of a socket. */
  function Shown(s: SocketView, asked: nat): bytes {
    s.rx[..Slice(|s.rx|, asked)]
  }

  function AfterRecv(s: SocketView, asked: nat): SocketView {
    s.(rx := s.rx[|Shown(s, asked)|..], taken := s.taken + Shown(s, asked))
  }

  /** How much of some data a socket accepts. */
  function Accepted(s: SocketView, data: bytes): (n: nat)
    ensures n <= |data| && n <= s.room
  {
    if MaySend(s.state) then Min(s.room, |data|) else 0
  }

  function AfterSend(s: SocketView, data: bytes): SocketView {
    var n := Accepted(s, data);
    s.(tx := s.tx + data[..n], given := s.given + data[..n], room := s.room - n)
  }

  /** A smoltcp socket as the applications see it, with what they have read and written on this connection. */
  class Socket {
    var state: State
    var rx: bytes
    var tx: bytes
    var room: nat
    ghost var taken: bytes
    ghost var given: bytes

    constructor (state: State, room: nat)
      ensures this.state == state && this.room == room && rx == [] && tx == [] && taken == [] && given == []
    {
      this.state, this.room := state, room;
      rx, tx, taken, given := [], [], [], [];
    }

    ghost function View(): SocketView
      reads this
    {
      SocketView(state, rx, tx, room, taken, given)
    }

    /** What is in the buffer can be received in any state. */
    predicate CanRecv()
      reads this
    {
      rx != []
    }

    predicate CanSend()
      reads this
    {
      MaySend(state) && room > 0
    }

    /** `recv` with a closure that takes the whole contiguous slice it is shown. */
    method Recv(asked: nat) returns (data: bytes)
      requires CanRecv()
      modifies `rx, `taken
      ensures data == Shown(old(View()), asked) && View() == AfterRecv(old(View()), asked)
    {
      var n := Slice(|rx|, asked);
      data := rx[..n];
      taken := taken + data;
      rx := rx[n..];
    }

    /** `send_slice` in a state that may send. */
    method SendSlice(data: bytes) returns (n: nat)
      requires MaySend(state)
      modifies `tx, `given, `room
      ensures n == Accepted(old(View()), data) && View() == AfterSend(old(View()), data)
    {
      n := Min(room, |data|);
      tx := tx + data[..n];
      given := given + data[..n];
      room := room - n;
    }

    /** A new connection, or none: the buffers start over. */
    method Restart(state: State)
      modifies this
      ensures View() == SocketView(state, [], [], old(room), [], [])
    {
      this.state := state;
      rx, tx, taken, given := [], [], [], [];
    }
  }

  // ---------------------------------------------------------------- server

  datatype ServerView = ServerView(pendingTx: bytes, wasConnected: bool, connections: nat)

  /** One call of `process`: the server and its socket afterwards. */
  function ServerStep(v: ServerView, s: SocketView, asked: nat): (ServerView, SocketView) {
    if IsActive(s.state) then
      var pending := v.pendingTx + Shown(s, asked);
      var received := AfterRecv(s, asked);
      var t := AfterSend(received, pending);
      (ServerView(pending[Accepted(received, pending)..], true, v.connections + if v.wasConnected then 0 else 1),
       t.(state := if s.state.CloseWait? then LastAck else s.state))
    else
      (ServerView(if v.wasConnected then [] else v.pendingTx, false, v.connections),
       if s.state.Closed? then SocketView(Listen, [], [], s.room, [], []) else s)
  }

  /**
   What a call does while a connection lives: all that `recv` shows is taken in, nothing is lost between
   the socket and the pending buffer, and while the socket may send, the oldest bytes that have not gone
   back yet do so, as many as there is space for.
   */
  lemma StepEchoes(v: ServerView, s: SocketView, asked: nat)
    requires IsActive(s.state) && s.taken == s.given + v.pendingTx
    ensures var (w, t) := ServerStep(v, s, asked);
            && t.taken + t.rx == s.taken + s.rx && (s.rx != [] ==> |t.taken| > |s.taken|)
            && t.taken == t.given + w.pendingTx
            && s.given <= t.given && t.tx == s.tx + t.given[|s.given|..]
            && |t.given| == if MaySend(s.state) then Min(|t.taken|, |s.given| + s.room) else |s.given|
  {
    var shown, pending := Shown(s, asked), v.pendingTx + Shown(s, asked);
    var n := Accepted(AfterRecv(s, asked), pending);
    TakeIn(s.taken, s.rx, |shown|);
    PassOn(s.given, v.pendingTx, shown, n);
  }

  /** On a socket that is not being reused, a call moves the two streams and loses nothing of them. */
  lemma StepStreams(v: ServerView, s: SocketView, asked: nat)
    requires !s.state.Closed?
    ensures var t := ServerStep(v, s, asked).1;
            && t.taken + t.rx == s.taken + s.rx
            && s.given <= t.given && t.tx == s.tx + t.given[|s.given|..]
  {
    var shown, pending := Shown(s, asked), v.pendingTx + Shown(s, asked);
    var n := Accepted(AfterRecv(s, asked), pending);
    TakeIn(s.taken, s.rx, |shown|);
    PassOn(s.given, v.pendingTx, shown, n);
    assert s.tx + s.given[|s.given|..] == s.tx;
  }

  /** A server without a connection forgets what was pending, and listens again once its socket is closed. */
  lemma StepIdles(v: ServerView, s: SocketView, asked: nat)
    requires !IsActive(s.state)
    ensures var (w, t) := ServerStep(v, s, asked);
            && !w.wasConnected && w.connections == v.connections && (v.wasConnected ==> w.pendingTx == [])
            && (s.state.Closed? ==> t.state.Listen? && t.rx == [] && t.tx == [] && t.taken == [] && t.given == [])
            && (!s.state.Closed? ==> t == s)
  {
  }

  lemma TakeIn(taken: bytes, rx: bytes, n: nat)
    requires n <= |rx|
    ensures taken + rx[..n] + rx[n..] == taken + rx
  {
  }

  lemma PassOn(given: bytes, pending: bytes, shown: bytes, n: nat)
    requires n <= |pending + shown|
    ensures given + pending + shown == given + (pending + shown)[..n] + (pending + shown)[n..]
    ensures (given + (pending + shown)[..n])[|given|..] == (pending + shown)[..n]
  {
  }

  /** The states of a server, which never closes first. */
  predicate OfServer(s: State) {
    s.Listen? || s.SynReceived? || s.Established? || s.CloseWait? || s.LastAck? || s.Closed?
  }

  /**
   What was received on this connection is what was sent back followed by what is pending, also when
   the server can no longer send it; and nothing is pending before a connection has data.
   */
  predicate ServerOk(v: ServerView, s: SocketView) {
    && OfServer(s.state)
    && s.taken == s.given + v.pendingTx
    && (s.state.Listen? || s.state.SynReceived? ==> s.taken == [] && s.rx == [])
    && (v.pendingTx != [] ==> v.wasConnected)
  }

  lemma ServerStepOk(v: ServerView, s: SocketView, asked: nat)
    requires ServerOk(v, s)
    ensures ServerOk(ServerStep(v, s, asked).0, ServerStep(v, s, asked).1)
  {
    if IsActive(s.state) {
      StepEchoes(v, s, asked);
      StepStates(v, s, asked);
      hide ServerStep;
      var t := ServerStep(v, s, asked).1;
      assert s.state.SynReceived? ==> |t.taken| + |t.rx| == |t.taken + t.rx| == 0;
    } else {
      assert s.given + [] == s.given;
    }
  }

  lemma StepStates(v: ServerView, s: SocketView, asked: nat)
    requires IsActive(s.state)
    ensures var (w, t) := ServerStep(v, s, asked);
            && w.wasConnected && t.state == (if s.state.CloseWait? then LastAck else s.state)
            && w.connections == v.connections + if v.wasConnected then 0 else 1
  {
    hide Shown, AfterRecv, AfterSend, Accepted;
  }

  class EchoServer {
    var pendingTx: bytes
    var wasConnected: bool
    var connections: nat

    constructor ()
      ensures View() == ServerView([], false, 0)
    {
      pendingTx, wasConnected, connections := [], false, 0;
    }

    ghost function View(): ServerView
      reads this
    {
      ServerView(pendingTx, wasConnected, connections)
    }

    ghost predicate Valid(sock: Socket)
      reads this, sock
    {
      ServerOk(View(), sock.View())
    }

    /** What a call does is the step function, which keeps the invariant. */
    method Process(sock: Socket, asked: nat) returns (echoed: nat)
      requires Valid(sock)
      modifies this, sock
      ensures Valid(sock)
      ensures (View(), sock.View()) == ServerStep(old(View()), old(sock.View()), asked)
      ensures |sock.given| == (if old(sock.state).Closed? then 0 else |old(sock.given)|) + echoed
    {
      ServerStepOk(View(), sock.View(), asked);
      hide ServerOk;
      echoed := 0;
      if IsActive(sock.state) {
        echoed := Serve(sock, asked);
      } else {
        if wasConnected {
          wasConnected := false;
          pendingTx := [];
        }
        if sock.state.Closed? {
          sock.Restart(Listen);
        }
      }
    }

    /** The part for a socket with a connection. */
    method Serve(sock: Socket, asked: nat) returns (echoed: nat)
      requires IsActive(sock.state)
      modifies this, sock
      ensures (View(), sock.View()) == ServerStep(old(View()), old(sock.View()), asked)
      ensures |sock.given| == |old(sock.given)| + echoed
    {
      if !wasConnected {
        connections := connections + 1;
        wasConnected := true;
      }
      ReceiveInto(sock, asked);
      echoed := SendPending(sock);
      if sock.state.CloseWait? {
        sock.state := AfterClose(sock.state);
      }
    }

    /** Moves what has arrived into the pending buffer. */
    method ReceiveInto(sock: Socket, asked: nat)
      modifies `pendingTx, sock`rx, sock`taken
      ensures pendingTx == old(pendingTx) + Shown(old(sock.View()), asked)
      ensures sock.View() == AfterRecv(old(sock.View()), asked)
    {
      if sock.CanRecv() {
        var data := sock.Recv(asked);
        pendingTx := pendingTx + data;
      }
    }

    /** Sends as much of the pending buffer as fits. */
    method SendPending(sock: Socket) returns (echoed: nat)
      modifies `pendingTx, sock`tx, sock`given, sock`room
      ensures echoed == Accepted(old(sock.View()), old(pendingTx)) && pendingTx == old(pendingTx)[echoed..]
      ensures sock.View() == AfterSend(old(sock.View()), old(pendingTx))
    {
      echoed := 0;
      if pendingTx != [] && sock.CanSend() {
        echoed := sock.SendSlice(pendingTx);
        pendingTx := pendingTx[echoed..];
      }
    }
  }

  // ---------------------------------------------------------------- client

  datatype ClientState = Connecting | Connected | WaitingForEcho | Complete | ClientClosed

  datatype ClientView =
    ClientView(state: ClientState, data: bytes, offset: nat, received: bytes, expected: nat)

  /** One call of `process`, up to its last check: what the client does with an open socket. */
  function ClientWorks(c: ClientView, s: SocketView, asked: nat): (ClientView, SocketView)
    requires c.offset <= |c.data|
  {
    match c.state
    case Connecting => (if IsActive(s.state) then c.(state := Connected) else c, s)
    case Connected =>
      var sent := c.(offset := c.offset + Accepted(s, c.data[c.offset..]));
      (if sent.offset >= |c.data| && c.data != [] then sent.(state := WaitingForEcho) else sent,
       AfterSend(s, c.data[c.offset..]))
    case WaitingForEcho =>
      var got := c.(received := c.received + Shown(s, asked));
      (if |got.received| >= c.expected then got.(state := Complete) else got, AfterRecv(s, asked))
    case Complete => (c, s)
    case ClientClosed => (c, s)
  }

  /** One call of `process`: the client and its socket afterwards. */
  function ClientStep(c: ClientView, s: SocketView, asked: nat): (ClientView, SocketView)
    requires c.offset <= |c.data|
  {
    var (d, t) := ClientWorks(c, s, asked);
    (if !IsOpen(s.state) && !d.state.Complete? then d.(state := ClientClosed) else d, t)
  }

  /** Where a call may take the client, by the state of its socket and what it has sent and received. */
  lemma ClientStepsTo(c: ClientView, s: SocketView, asked: nat)
    requires c.offset <= |c.data|
    ensures var d := ClientStep(c, s, asked).0;
            && (!IsOpen(s.state) ==> d.state.Complete? || d.state.ClientClosed?)
            && (IsOpen(s.state) && !c.state.ClientClosed? ==> !d.state.ClientClosed?)
            && (c.state.ClientClosed? ==> d.state.ClientClosed?)
            && (IsOpen(s.state) && c.state.Connecting? ==>
                  (d.state.Connected? <==> IsActive(s.state)) && (d.state.Connecting? <==> !IsActive(s.state)))
            && (IsOpen(s.state) && c.state.Connected? ==>
                  && (d.state.WaitingForEcho? <==> d.offset == |d.data| > 0)
                  && (d.state.Connected? <==> d.offset < |d.data| || d.data == []))
            && (IsOpen(s.state) && c.state.WaitingForEcho? ==> d.state.WaitingForEcho? || d.state.Complete?)
  {
  }

  /** What a call sends and takes: all that is accepted while connected, all that is shown while waiting. */
  lemma ClientMovesData(c: ClientView, s: SocketView, asked: nat)
    requires c.offset <= |c.data|
    ensures var (d, t) := ClientStep(c, s, asked);
            && d.offset - c.offset ==
                (if c.state.Connected? && MaySend(s.state) then Min(s.room, |c.data| - c.offset) else 0)
            && t.tx == s.tx + c.data[c.offset..d.offset]
            && d.received == c.received + (if c.state.WaitingForEcho? then s.rx[..Slice(|s.rx|, asked)] else [])
            && |t.rx| == |s.rx| - (|d.received| - |c.received|)
  {
    ClientStreams(c, s, asked);
  }

  /** The client hands its data to the socket in order and takes in what the socket shows. */
  lemma ClientStreams(c: ClientView, s: SocketView, asked: nat)
    requires c.offset <= |c.data|
    ensures var (d, t) := ClientWorks(c, s, asked);
            && d.data == c.data && d.expected == c.expected && t.state == s.state
            && c.offset <= d.offset <= |d.data|
            && t.tx == s.tx + c.data[c.offset..d.offset]
            && d.received + t.rx == c.received + s.rx
            && (d.state.Complete? <==> c.state.Complete? || (c.state.WaitingForEcho? && |d.received| >= d.expected))
            && (c.state.Complete? ==> d.received == c.received)
  {
    var rest := c.data[c.offset..];
    assert rest[..Accepted(s, rest)] == c.data[c.offset..c.offset + Accepted(s, rest)];
    TakeIn(c.received, s.rx, |Shown(s, asked)|);
  }

  /** What went into the socket is the data up to the offset; what came out is what was received. */
  predicate ClientOk(c: ClientView, s: SocketView) {
    c.offset <= |c.data| == c.expected && s.given == c.data[..c.offset] && s.taken == c.received
  }

  lemma ClientStepOk(c: ClientView, s: SocketView, asked: nat)
    requires ClientOk(c, s)
    ensures ClientOk(ClientStep(c, s, asked).0, ClientStep(c, s, asked).1)
  {
    var rest := c.data[c.offset..];
    var n := Accepted(s, rest);
    assert c.data[..c.offset] + rest[..n] == c.data[..c.offset + n];
  }

  /** `verify_echo`. */
  predicate Verified(c: ClientView)
    requires c.expected <= |c.data|
  {
    c.expected <= |c.received| && c.received[..c.expected] == c.data[..c.expected]
  }

  class EchoClient {
    var state: ClientState
    var data: bytes
    var offset: nat
    var received: bytes
    var expected: nat

    constructor ()
      ensures View() == ClientView(Connecting, [], 0, [], 0)
    {
      state, data, offset, received, expected := Connecting, [], 0, [], 0;
    }

    function View(): ClientView
      reads this
    {
      ClientView(state, data, offset, received, expected)
    }

    ghost predicate Valid(sock: Socket)
      reads this, sock
    {
      ClientOk(View(), sock.View())
    }

    method Send(more: bytes)
      modifies `data, `expected
      ensures data == old(data) + more && expected == old(expected) + |more|
    {
      data := data + more;
      expected := expected + |more|;
    }

    predicate VerifyEcho()
      requires expected <= |data|
      reads this
    {
      Verified(View())
    }

    /**
     What a call does is the step function, which keeps the invariant. Complete is entered exactly when
     a client that waits has everything it expects.
     */
    method Process(sock: Socket, asked: nat) returns (changed: bool)
      requires Valid(sock)
      modifies this, sock
      ensures Valid(sock) && data == old(data) && sock.state == old(sock.state)
      ensures (View(), sock.View()) == ClientStep(old(View()), old(sock.View()), asked)
      ensures old(offset) <= offset <= |data| && sock.tx == old(sock.tx) + data[old(offset)..offset]
      ensures received + sock.rx == old(received) + old(sock.rx)
      ensures changed <==> state != old(state)
      ensures state.Complete? <==> old(state).Complete? || (old(state).WaitingForEcho? && |received| >= expected)
      ensures old(state).Complete? ==> received == old(received)
    {
      var before := state;
      ghost var c, s := View(), sock.View();
      ClientStreams(c, s, asked);
      ClientStepOk(c, s, asked);
      hide ClientWorks, ClientOk;
      Work(sock, asked);
      if !IsOpen(sock.state) && !state.Complete? {
        state := ClientClosed;
      }
      changed := state != before;
    }

    method Work(sock: Socket, asked: nat)
      requires offset <= |data|
      modifies this, sock
      ensures (View(), sock.View()) == ClientWorks(old(View()), old(sock.View()), asked)
    {
      hide Accepted, AfterSend, AfterRecv, Shown, IsActive;
      match state {
        case Connecting =>
          if IsActive(sock.state) {
            state := Connected;
          }
        case Connected =>
          SendSome(sock);
          if offset >= |data| && data != [] {
            state := WaitingForEcho;
          }
        case WaitingForEcho =>
          ReceiveSome(sock, asked);
          if |received| >= expected {
            state := Complete;
          }
        case Complete =>
        case ClientClosed =>
      }
    }

    method SendSome(sock: Socket)
      requires offset <= |data|
      modifies `offset, sock`tx, sock`given, sock`room
      ensures offset == old(offset) + Accepted(old(sock.View()), data[old(offset)..])
      ensures sock.View() == AfterSend(old(sock.View()), data[old(offset)..])
    {
      var remaining := data[offset..];
      if offset < |data| && sock.CanSend() {
        var sent := sock.SendSlice(remaining);
        offset := offset + sent;
      }
    }

    method ReceiveSome(sock: Socket, asked: nat)
      modifies `received, sock`rx, sock`taken
      ensures received == old(received) + Shown(old(sock.View()), asked)
      ensures sock.View() == AfterRecv(old(sock.View()), asked)
    {
      if sock.CanRecv() {
        var got := sock.Recv(asked);
        received := received + got;
      }
    }
  }

  // ---------------------------------------------------------------- joined

  /** What may happen next: one end runs, bytes move, a socket changes state, or another peer talks to the server. */
  datatype Action =
    | ServerRuns(asked: nat)
    | ClientRuns(asked: nat)
    | ClientSends(more: bytes)
    | ClientCloses
    | ToServer(n: nat)
    | ToClient(n: nat)
    | ServerMoves(to: State)
    | ClientMoves(to: State)
    | Foreign(data: bytes)

  /** Both ends; `up`: the two sockets still belong to one connection. */
  datatype PairView =
    PairView(client: ClientView, clientSock: SocketView, server: ServerView, serverSock: SocketView, up: bool)

  /** `n` bytes on their way from one socket to the other. */
  function Carried(from: SocketView, to: SocketView, n: nat): (SocketView, SocketView)
    requires n <= |from.tx|
  {
    (from.(tx := from.tx[n..], room := from.room + n), to.(rx := to.rx + from.tx[..n]))
  }

  function ServerMoved(p: PairView, to: State): PairView {
    if !Moves(p.serverSock.state, to) then p
    else if p.serverSock.state.Listen? || to.Listen?
    then p.(up := false, serverSock := SocketView(to, [], [], p.serverSock.room, [], []))
    else p.(serverSock := p.serverSock.(state := to))
  }

  /** One action of any party; one that is not enabled changes nothing. */
  function PairStep(p: PairView, action: Action): PairView
    requires p.client.offset <= |p.client.data|
  {
    match action
    case ServerRuns(asked) =>
      var (v, s) := ServerStep(p.server, p.serverSock, asked);
      p.(server := v, serverSock := s, up := p.up && !p.serverSock.state.Closed?)
    case ClientRuns(asked) =>
      var (c, s) := ClientStep(p.client, p.clientSock, asked);
      p.(client := c, clientSock := s)
    case ClientSends(more) =>
      p.(client := p.client.(data := p.client.data + more, expected := p.client.expected + |more|))
    case ClientCloses => p.(clientSock := p.clientSock.(state := AfterClose(p.clientSock.state)))
    case ToServer(n) =>
      if p.up && n <= |p.clientSock.tx| && p.serverSock.state.Established?
      then
        var (a, b) := Carried(p.clientSock, p.serverSock, n);
        p.(clientSock := a, serverSock := b)
      else p
    case ToClient(n) =>
      if p.up && n <= |p.serverSock.tx| && TakesData(p.clientSock.state)
      then
        var (a, b) := Carried(p.serverSock, p.clientSock, n);
        p.(serverSock := a, clientSock := b)
      else p
    case ServerMoves(to) => ServerMoved(p, to)
    case ClientMoves(to) =>
      if Moves(p.clientSock.state, to) then p.(clientSock := p.clientSock.(state := to)) else p
    case Foreign(data) =>
      if !p.up && p.serverSock.state.Established?
      then p.(serverSock := p.serverSock.(rx := p.serverSock.rx + data))
      else p
  }

  /** On a live connection nothing is lost or reordered in either direction. */
  predicate Joined(p: PairView) {
    && p.serverSock.taken + p.serverSock.rx + p.clientSock.tx == p.clientSock.given
    && p.client.received + p.clientSock.rx + p.serverSock.tx == p.serverSock.given
  }

  predicate PairOk(p: PairView) {
    && ClientOk(p.client, p.clientSock)
    && ServerOk(p.server, p.serverSock)
    && p.client.received + p.clientSock.rx <= p.client.data
    && (p.up ==> Joined(p))
  }

  /** Whatever the server has sent on a live connection is a prefix of the client's data. */
  lemma EchoIsPrefix(p: PairView)
    requires PairOk(p) && p.up
    ensures p.serverSock.given <= p.client.data
  {
    assert p.serverSock.given <= p.serverSock.taken <= p.clientSock.given <= p.client.data;
  }

  lemma ServerRunsOk(p: PairView, asked: nat)
    requires PairOk(p)
    ensures PairOk(PairStep(p, ServerRuns(asked)))
  {
    var s, q := p.serverSock, PairStep(p, ServerRuns(asked));
    ServerStepOk(p.server, s, asked);
    if q.up {
      StepStreams(p.server, s, asked);
      hide ServerStep, ServerOk;
      var t := q.serverSock;
      assert t.given == s.given + t.given[|s.given|..];
      Regroup(p.client.received + p.clientSock.rx, s.tx, t.given[|s.given|..]);
    }
  }

  lemma ClientRunsOk(p: PairView, asked: nat)
    requires PairOk(p)
    ensures PairOk(PairStep(p, ClientRuns(asked)))
  {
    var c, q := p.client, PairStep(p, ClientRuns(asked));
    ClientStepOk(c, p.clientSock, asked);
    ClientStreams(c, p.clientSock, asked);
    hide ClientWorks, ServerOk;
    var sent := c.data[c.offset..q.client.offset];
    assert c.data[..c.offset] + sent == c.data[..q.client.offset];
    Regroup(p.serverSock.taken + p.serverSock.rx, p.clientSock.tx, sent);
  }

  lemma Regroup(front: bytes, mid: bytes, more: bytes)
    ensures front + (mid + more) == front + mid + more
  {
  }

  /** Bytes that move from one place to the next keep their place in the stream. */
  lemma PassedOn(front: bytes, rx: bytes, tx: bytes, n: nat)
    requires n <= |tx|
    ensures front + (rx + tx[..n]) + tx[n..] == front + rx + tx
    ensures front + (rx + tx[..n]) <= front + rx + tx
  {
    assert tx == tx[..n] + tx[n..];
    assert front + (rx + tx[..n]) + tx[n..] == front + rx + tx;
  }

  lemma ToServerOk(p: PairView, n: nat)
    requires PairOk(p)
    ensures PairOk(PairStep(p, ToServer(n)))
  {
    if n <= |p.clientSock.tx| {
      PassedOn(p.serverSock.taken, p.serverSock.rx, p.clientSock.tx, n);
    }
  }

  lemma ToClientOk(p: PairView, n: nat)
    requires PairOk(p)
    ensures PairOk(PairStep(p, ToClient(n)))
  {
    if p.up && n <= |p.serverSock.tx| {
      EchoIsPrefix(p);
      PassedOn(p.client.received, p.clientSock.rx, p.serverSock.tx, n);
    }
  }

  /** Every action of any party keeps the invariant. */
  lemma StepOk(p: PairView, action: Action)
    requires PairOk(p)
    ensures PairOk(PairStep(p, action))
  {
    match action {
      case ServerRuns(asked) => ServerRunsOk(p, asked);
      case ClientRuns(asked) => ClientRunsOk(p, asked);
      case ToServer(n) => ToServerOk(p, n);
      case ToClient(n) => ToClientOk(p, n);
      case ClientSends(more) =>
        assert p.client.data[..p.client.offset] == (p.client.data + more)[..p.client.offset];
      case _ =>
    }
  }

  /** What one action does to the client's verdict on its echo. */
  predicate Completes(c: ClientView, d: ClientView, more: bool) {
    && (d.state.Complete? && !c.state.Complete? ==> d.expected <= |d.data| && Verified(d))
    && (c.state.Complete? && !more ==>
          d.state.Complete? && d.data == c.data && d.received == c.received && d.expected == c.expected)
  }

  lemma ClientCompletes(c: ClientView, s: SocketView, asked: nat)
    requires c.offset <= |c.data| == c.expected && c.received + s.rx <= c.data
    ensures Completes(c, ClientStep(c, s, asked).0, false)
  {
    ClientStreams(c, s, asked);
    var (d, t) := ClientStep(c, s, asked);
    hide ClientWorks, Verified;
    if |d.received| >= |d.data| {
      WholePrefix(d.received, t.rx, d.data);
      VerifiesWhole(d);
    }
  }

  lemma WholePrefix(received: bytes, rx: bytes, data: bytes)
    requires received + rx <= data && |received| >= |data|
    ensures received == data
  {
    assert |received + rx| <= |data|;
    assert received + rx == received;
  }

  lemma VerifiesWhole(c: ClientView)
    requires c.received == c.data && c.expected == |c.data|
    ensures Verified(c)
  {
  }

  lemma OthersLeaveClient(p: PairView, action: Action)
    requires p.client.offset <= |p.client.data| && !action.ClientRuns? && !action.ClientSends?
    ensures PairStep(p, action).client == p.client
  {
    hide ServerStep;
  }

  /** A client that completes has verified its echo, and only more data to send changes that. */
  lemma StepCompletes(p: PairView, action: Action)
    requires PairOk(p)
    ensures Completes(p.client, PairStep(p, action).client, action.ClientSends?)
  {
    hide ServerOk, Joined;
    if action.ClientRuns? {
      ClientCompletes(p.client, p.clientSock, action.asked);
      hide ClientStep, Completes;
    } else if !action.ClientSends? {
      OthersLeaveClient(p, action);
    }
  }

  class Pair {
    const client: EchoClient
    const clientSock: Socket
    const server: EchoServer
    const serverSock: Socket
    /** The two sockets still belong to one connection. */
    var up: bool

    constructor (room: nat)
      ensures Valid() && fresh(client) && fresh(clientSock) && fresh(server) && fresh(serverSock)
    {
      client := new EchoClient();
      clientSock := new Socket(SynSent, room);
      server := new EchoServer();
      serverSock := new Socket(SynReceived, room);
      up := true;
    }

    ghost function View(): PairView
      reads this, client, clientSock, server, serverSock
    {
      PairView(client.View(), clientSock.View(), server.View(), serverSock.View(), up)
    }

    ghost predicate Valid()
      reads this, client, clientSock, server, serverSock
    {
      clientSock != serverSock && PairOk(View())
    }

    /** One action of any party does what the step function says. */
    method Step(action: Action)
      requires Valid()
      modifies this, client, clientSock, server, serverSock
      ensures Valid() && View() == PairStep(old(View()), action)
    {
      StepOk(View(), action);
      hide ServerStep, ClientStep, Carried, ServerMoved, ServerOk, Joined;
      match action {
        case ServerRuns(asked) => RunServer(asked);
        case ClientRuns(asked) => RunClient(asked);
        case ClientSends(more) => client.Send(more);
        case ClientCloses => clientSock.state := AfterClose(clientSock.state);
        case ToServer(n) => DeliverToServer(n);
        case ToClient(n) => DeliverToClient(n);
        case ServerMoves(to) => MoveServer(to);
        case ClientMoves(to) => MoveClient(to);
        case Foreign(data) =>
          if !up && serverSock.state.Established? {
            serverSock.rx := serverSock.rx + data;
          }
      }
    }

    method RunServer(asked: nat)
      requires Valid()
      modifies `up, server, serverSock
      ensures View() == PairStep(old(View()), ServerRuns(asked))
    {
      hide ServerStep;
      if serverSock.state.Closed? {
        up := false;
      }
      var echoed := server.Process(serverSock, asked);
    }

    method RunClient(asked: nat)
      requires Valid()
      modifies client, clientSock
      ensures View() == PairStep(old(View()), ClientRuns(asked))
    {
      hide ClientStep;
      var changed := client.Process(clientSock, asked);
    }

    method DeliverToServer(n: nat)
      requires Valid()
      modifies clientSock`tx, clientSock`room, serverSock`rx
      ensures View() == PairStep(old(View()), ToServer(n))
    {
      hide ServerOk, Joined;
      if up && n <= |clientSock.tx| && serverSock.state.Established? {
        serverSock.rx := serverSock.rx + clientSock.tx[..n];
        clientSock.tx := clientSock.tx[n..];
        clientSock.room := clientSock.room + n;
      }
    }

    method DeliverToClient(n: nat)
      requires Valid()
      modifies serverSock`tx, serverSock`room, clientSock`rx
      ensures View() == PairStep(old(View()), ToClient(n))
    {
      hide ServerOk, Joined;
      if up && n <= |serverSock.tx| && TakesData(clientSock.state) {
        clientSock.rx := clientSock.rx + serverSock.tx[..n];
        serverSock.tx := serverSock.tx[n..];
        serverSock.room := serverSock.room + n;
      }
    }

    method MoveServer(to: State)
      requires Valid()
      modifies `up, serverSock
      ensures View() == PairStep(old(View()), ServerMoves(to))
    {
      hide ServerOk, Joined;
      if Moves(serverSock.state, to) {
        if serverSock.state.Listen? || to.Listen? {
          up := false;
          serverSock.Restart(to);
        } else {
          serverSock.state := to;
        }
      }
    }

    method MoveClient(to: State)
      requires Valid()
      modifies clientSock`state
      ensures View() == PairStep(old(View()), ClientMoves(to))
    {
      hide ServerOk, Joined;
      if Moves(clientSock.state, to) {
        clientSock.state := to;
      }
    }
  }

  /** A step keeps the offset within the data, so steps can be strung together. */
  lemma OffsetStays(p: PairView, action: Action)
    requires p.client.offset <= |p.client.data|
    ensures PairStep(p, action).client.offset <= |PairStep(p, action).client.data|
  {
  }

  /** A run as a value. */
  function RunPair(p: PairView, script: seq<Action>): (r: PairView)
    requires p.client.offset <= |p.client.data|
    ensures r.client.offset <= |r.client.data|
    decreases |script|
  {
    if script == [] then p
    else
      var before := RunPair(p, script[..|script| - 1]);
      OffsetStays(before, script[|script| - 1]);
      PairStep(before, script[|script| - 1])
  }

  /** Whether data was queued on a client that had already completed. */
  predicate SentLate(p: PairView, script: seq<Action>)
    requires p.client.offset <= |p.client.data|
  {
    exists i :: 0 <= i < |script| && script[i].ClientSends? && RunPair(p, script[..i]).client.state.Complete?
  }

  lemma OneMore(p: PairView, script: seq<Action>, i: nat)
    requires p.client.offset <= |p.client.data| && i < |script|
    ensures RunPair(p, script[..i + 1]) == PairStep(RunPair(p, script[..i]), script[i])
  {
    hide PairStep;
    assert script[..i + 1][..i] == script[..i];
  }

  /**
   Any run: the end state is that of the steps of the script. A client that reached Complete, with
   nothing queued for sending since, verifies its echo; and on every connection the server only ever
   sends back what it received on that one.
   */
  method Drive(pair: Pair, script: seq<Action>)
    requires pair.Valid() && !pair.client.state.Complete?
    modifies pair, pair.client, pair.clientSock, pair.server, pair.serverSock
    ensures pair.Valid() && pair.View() == RunPair(old(pair.View()), script)
    ensures pair.serverSock.taken == pair.serverSock.given + pair.server.pendingTx
    ensures pair.client.state.Complete? && !SentLate(old(pair.View()), script) ==> pair.client.VerifyEcho()
  {
    hide PairStep, RunPair;
    ghost var start, late := pair.View(), false;
    NoSteps(start, script[..0]);
    for i := 0 to |script|
      invariant pair.Valid() && pair.View() == RunPair(start, script[..i])
      invariant late ==> SentLate(start, script)
      invariant pair.client.state.Complete? && !late ==> pair.client.VerifyEcho()
    {
      if pair.client.state.Complete? && script[i].ClientSends? {
        late := true;
      }
      OneMore(start, script, i);
      StepCompletes(pair.View(), script[i]);
      pair.Step(script[i]);
    }
    assert script[..|script|] == script;
  }

  // ---------------------------------------------------------------- what comes back

  /** What has not been sent back: pending in the server, on its way out and unsent. */
  function Stranded(p: PairView): bytes
    requires p.client.offset <= |p.client.data|
  {
    p.server.pendingTx + p.serverSock.rx + p.clientSock.tx + p.client.data[p.client.offset..]
  }

  /**
   As long as the connection lives, in whatever state its ends are, the bytes received, on their way
   back, pending in the server, on their way out and unsent are the client's data.
   */
  lemma Conservation(p: PairView)
    requires PairOk(p) && p.up
    ensures p.client.received + p.clientSock.rx + p.serverSock.tx + Stranded(p) == p.client.data
    ensures p.serverSock.given + Stranded(p) == p.client.data
  {
    var c, s := p.client, p.serverSock;
    assert c.data == c.data[..c.offset] + c.data[c.offset..];
    hide OfServer;
    var out := s.rx + p.clientSock.tx + c.data[c.offset..];
    assert Stranded(p) == p.server.pendingTx + out;
    assert s.given + (p.server.pendingTx + out) == s.taken + out;
    assert s.taken + out == s.taken + s.rx + p.clientSock.tx + c.data[c.offset..];
  }

  /** The client's own check succeeds exactly when everything has come back. */
  lemma VerifyIffAllBack(p: PairView)
    requires PairOk(p)
    ensures Verified(p.client) <==> p.client.received == p.client.data
  {
    var c := p.client;
    assert c.received <= c.received + p.clientSock.rx <= c.data;
  }

  /** Nobody queues more data on the client. */
  predicate NothingQueued(script: seq<Action>) {
    forall i :: 0 <= i < |script| ==> !script[i].ClientSends?
  }

  /** What is on its way back arrives and the client takes it. */
  function Return(n: nat): seq<Action> {
    [ToClient(n), ClientRuns(0)]
  }

  /** The server has closed: what has come or is still coming back is `given` at most. */
  ghost predicate Stopped(p: PairView, given: bytes) {
    && p.client.received + p.clientSock.rx <= given
    && (p.up ==>
          && (p.serverSock.state.LastAck? || p.serverSock.state.Closed?)
          && p.client.received + p.clientSock.rx + p.serverSock.tx == given)
  }

  lemma StoppedStep(p: PairView, action: Action, given: bytes)
    requires p.client.offset <= |p.client.data| && Stopped(p, given) && !action.ClientSends?
    ensures Stopped(PairStep(p, action), given) && PairStep(p, action).client.data == p.client.data
  {
    match action {
      case ClientRuns(asked) =>
        ClientStreams(p.client, p.clientSock, asked);
        hide ClientWorks;
      case ToClient(n) =>
        if p.up && n <= |p.serverSock.tx| {
          PassedOn(p.client.received, p.clientSock.rx, p.serverSock.tx, n);
        }
      case ServerRuns(asked) =>
        if p.up && p.serverSock.state.LastAck? {
          assert p.serverSock.tx + [] == p.serverSock.tx;
        }
      case _ =>
    }
  }

  lemma {:induction false} RunStopped(p: PairView, script: seq<Action>, given: bytes)
    requires p.client.offset <= |p.client.data| && Stopped(p, given) && NothingQueued(script)
    ensures Stopped(RunPair(p, script), given) && RunPair(p, script).client.data == p.client.data
    decreases |script|
  {
    hide PairStep, Stopped;
    if script != [] {
      var n := |script| - 1;
      RunStopped(p, script[..n], given);
      OneMore(p, script, n);
      assert script[..n + 1] == script;
      StoppedStep(RunPair(p, script[..n]), script[n], given);
    }
  }

  /**
   Once the server has closed its end, which it does in CLOSE-WAIT whatever is pending, what it has not
   sent back by then never comes back: in every later run the client receives a prefix of what was sent
   back, and so all of its data only if nothing is stranded.
   */
  lemma StrandedStays(p: PairView, script: seq<Action>)
    requires PairOk(p) && p.up && (p.serverSock.state.LastAck? || p.serverSock.state.Closed?)
    requires NothingQueued(script)
    ensures var c := RunPair(p, script).client;
            && c.data == p.client.data && c.received <= p.serverSock.given
            && (c.received == c.data ==> Stranded(p) == [])
  {
    hide ServerOk, RunPair, Stranded;
    Conservation(p);
    RunStopped(p, script, p.serverSock.given);
  }

  /** And if nothing is, a waiting client gets all of it once what is on its way arrives. */
  lemma NothingStrandedReturns(p: PairView)
    requires PairOk(p) && p.up && Stranded(p) == []
    requires p.client.state.WaitingForEcho? && TakesData(p.clientSock.state)
    ensures NothingQueued(Return(|p.serverSock.tx|))
    ensures RunPair(p, Return(|p.serverSock.tx|)).client.received == p.client.data
  {
    hide RunPair, Stranded, ServerOk;
    Conservation(p);
    var n := |p.serverSock.tx|;
    var script, rx := Return(n), p.clientSock.rx + p.serverSock.tx;
    NoSteps(p, script[..0]);
    OneMore(p, script, 0);
    OneMore(p, script, 1);
    assert script[..2] == script && p.serverSock.tx[..n] == p.serverSock.tx;
    assert RunPair(p, script[..1]).clientSock.rx == rx && rx[..|rx|] == rx;
    Regroup(p.client.received, p.clientSock.rx, p.serverSock.tx);
  }

  /** Whether the client can still get everything it has queued so far. */
  ghost predicate CanGetAll(p: PairView)
    requires p.client.offset <= |p.client.data|
  {
    exists script :: NothingQueued(script) && RunPair(p, script).client.received == p.client.data
  }

  lemma AllBackIff(p: PairView)
    requires PairOk(p) && p.up && (p.serverSock.state.LastAck? || p.serverSock.state.Closed?)
    requires p.client.state.WaitingForEcho? && TakesData(p.clientSock.state)
    ensures CanGetAll(p) <==> Stranded(p) == []
  {
    hide RunPair, Stranded, ServerOk, Joined;
    if Stranded(p) == [] {
      NothingStrandedReturns(p);
    }
    forall script | NothingQueued(script) && RunPair(p, script).client.received == p.client.data
      ensures Stranded(p) == []
    {
      StrandedStays(p, script);
    }
  }

  /**
   The call in which the server closes decides: afterwards a client that waits can get all of its data
   if and only if everything had reached the server, that call was shown all of it, and the send buffer
   had room for it together with what was pending.
   */
  lemma CloseCallDecides(p: PairView, asked: nat)
    requires PairOk(p) && p.up && p.serverSock.state.CloseWait?
    requires p.client.state.WaitingForEcho? && TakesData(p.clientSock.state)
    ensures var s, q := p.serverSock, PairStep(p, ServerRuns(asked));
            CanGetAll(q) <==>
              && p.client.offset == |p.client.data| && p.clientSock.tx == []
              && Slice(|s.rx|, asked) == |s.rx| && |p.server.pendingTx| + |s.rx| <= s.room
  {
    ServerRunsOk(p, asked);
    var q := PairStep(p, ServerRuns(asked));
    assert q.serverSock.state.LastAck? && q.up && q.client == p.client && q.clientSock == p.clientSock;
    hide CanGetAll, PairOk;
    AllBackIff(q);
    assert |q.serverSock.rx| == |p.serverSock.rx| - Slice(|p.serverSock.rx|, asked);
    assert |Stranded(q)| ==
           |q.server.pendingTx| + |q.serverSock.rx| + |p.clientSock.tx| + (|p.client.data| - p.client.offset);
  }

  // ---------------------------------------------------------------- a complete exchange

  /** Queue, connect, send, carry, echo, carry back, receive. */
  function Exchange(data: bytes): seq<Action> {
    [ClientSends(data), ClientRuns(0), ClientRuns(0), ToServer(|data|), ServerRuns(0), ToClient(|data|), ClientRuns(0)]
  }

  /**
   On a fresh established connection, data that fits both send buffers comes back complete within one
   round of that kind.
   */
  lemma ExchangeCompletes(p: PairView, data: bytes)
    requires p.client == ClientView(Connecting, [], 0, [], 0) && p.server.pendingTx == [] && p.up
    requires p.clientSock == SocketView(Established, [], [], p.clientSock.room, [], [])
    requires p.serverSock == SocketView(Established, [], [], p.serverSock.room, [], [])
    requires 0 < |data| <= p.clientSock.room && |data| <= p.serverSock.room
    ensures RunPair(p, Exchange(data)).client == ClientView(Complete, data, |data|, data, |data|)
  {
    hide RunPair;
    var script := Exchange(data);
    NoSteps(p, script[..0]);
    var room := p.clientSock.room;
    OneMore(p, script, 0);
    OneMore(p, script, 1);
    var p2 := RunPair(p, script[..2]);
    assert p2 == p.(client := ClientView(Connected, data, 0, [], |data|)) by {
      assert [] + data == data;
    }
    OneMore(p, script, 2);
    var p3 := RunPair(p, script[..3]);
    assert p3 == p.(client := ClientView(WaitingForEcho, data, |data|, [], |data|),
                    clientSock := SocketView(Established, [], data, room - |data|, [], data)) by {
      assert data[0..] == data && data[..|data|] == data && [] + data == data;
    }
    OneMore(p, script, 3);
    var p4 := RunPair(p, script[..4]);
    assert p4.client == p3.client && p4.up && p4.server == p.server;
    assert p4.clientSock.rx == [] && p4.clientSock.state.Established?;
    assert p4.serverSock == p.serverSock.(rx := data) by {
      assert data[..|data|] == data && [] + data == data;
    }
    OneMore(p, script, 4);
    var p5 := RunPair(p, script[..5]);
    assert p5.client == p3.client && p5.up && p5.clientSock == p4.clientSock;
    assert p5.serverSock.tx == data by {
      assert data[..|data|] == data && [] + data == data;
    }
    OneMore(p, script, 5);
    var p6 := RunPair(p, script[..6]);
    assert p6.client == p3.client;
    assert p6.clientSock.rx == data && p6.clientSock.state.Established? by {
      assert data[..|data|] == data && [] + data == data;
    }
    OneMore(p, script, 6);
    assert data[..|data|] == data && [] + data == data;
    assert script[..7] == script;
  }

  lemma NoSteps(p: PairView, none: seq<Action>)
    requires p.client.offset <= |p.client.data| && none == []
    ensures RunPair(p, none) == p
  {
  }
}
