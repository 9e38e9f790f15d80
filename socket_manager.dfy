/**
 * SocketManager: the coordinator that turns a discovery datagram carrying an ip and a port
 * into one TCP connection, silences the UDP heartbeat while that connection is up, and
 * restores it when the TCP heartbeat times out. Its behaviour on two facts (is a TCPSocket
 * held, is the UDP heartbeat running) is the transition function Next; the class below
 * is proved to follow it, event by event.
 */
module Manager {
  import opened Wrappers
  import opened Config
  import opened HeartbeatTimers
  import opened HeartbeatPolicy
  import opened Udp
  import opened Tcp

  /**
   * A discovery text as handleUdpMessage sees it once decoded: not a JSON object (the
   * JSONException is caught), or an object with org.json's optString of "ip" and of "port",
   * which are "" when the key is absent.
   */
  datatype UdpMessage = NotJson | JsonObject(ip: string, port: string)

  /** The message listener startUdpConnection registers: it forwards to handleUdpMessage. */
  datatype MessageListener = Coordinator

  /** Both fields are present and non-empty; the "msg" kind is not consulted. */
  predicate Qualifying(m: UdpMessage) {
    m.JsonObject? && |m.ip| > 0 && |m.port| > 0
  }

  /** The coordinator's two facts. */
  datatype Facts = Facts(tcpHeld: bool, udpHeartbeat: bool)

  /** A discovery message reaching handleUdpMessage, or a call on the TCP listener. */
  datatype Event = Discovery(m: UdpMessage) | Success | Failed(code: int)

  /** The event opens a TCP connection: a qualifying message while no TCPSocket is held. */
  predicate Connects(f: Facts, e: Event) {
    e.Discovery? && Qualifying(e.m) && !f.tcpHeld
  }

  /**
   * One event. A connecting discovery makes a TCPSocket; onSuccess stops the UDP heartbeat;
   * onFailed(PING_TCP_TIMEOUT) restarts it and drops the TCPSocket; onFailed with any other
   * code, CREATE_TCP_ERROR included, changes nothing.
   */
  function Next(f: Facts, e: Event): (g: Facts)
    ensures g.tcpHeld && !f.tcpHeld ==> Connects(f, e)
    ensures f.tcpHeld && !g.tcpHeld <==> f.tcpHeld && e == Failed(PingTcpTimeout)
    ensures e.Success? ==> !g.udpHeartbeat
    ensures g.udpHeartbeat && !f.udpHeartbeat ==> e == Failed(PingTcpTimeout)
  {
    match e
    case Discovery(m) => if Connects(f, e) then f.(tcpHeld := true) else f
    case Success => f.(udpHeartbeat := false)
    case Failed(code) => if code == PingTcpTimeout then Facts(false, true) else f
  }

  function Run(f: Facts, es: seq<Event>): Facts
    decreases |es|
  {
    if es == [] then f else Run(Next(f, es[0]), es[1..])
  }

  /** How many TCPSockets a run of events creates. */
  function ConnectCount(f: Facts, es: seq<Event>): nat
    decreases |es|
  {
    if es == [] then 0 else (if Connects(f, es[0]) then 1 else 0) + ConnectCount(Next(f, es[0]), es[1..])
  }

  function TimeoutCount(es: seq<Event>): nat {
    if es == [] then 0 else (if es[0] == Failed(PingTcpTimeout) then 1 else 0) + TimeoutCount(es[1..])
  }

  /**
   * At most one TCPSocket at a time: every TCPSocket after the first needs a heartbeat
   * timeout to have dropped the previous one.
   */
  lemma {:induction false} OneConnectionPerTimeout(f: Facts, es: seq<Event>)
    ensures ConnectCount(f, es) <= TimeoutCount(es) + (if f.tcpHeld then 0 else 1)
    decreases |es|
  {
    if es != [] {
      OneConnectionPerTimeout(Next(f, es[0]), es[1..]);
    }
  }

  /**
   * Once a TCPSocket is held, only a heartbeat timeout releases it: without one, no discovery
   * message connects again. In particular a refused connect (CREATE_TCP_ERROR) leaves the
   * coordinator holding a dead TCPSocket for good.
   */
  lemma {:induction false} HeldUntilTimeout(f: Facts, es: seq<Event>)
    requires f.tcpHeld && TimeoutCount(es) == 0
    ensures ConnectCount(f, es) == 0 && Run(f, es).tcpHeld
    decreases |es|
  {
    if es != [] {
      assert es[0] != Failed(PingTcpTimeout);
      HeldUntilTimeout(Next(f, es[0]), es[1..]);
    }
  }

  /** A message that does not qualify changes nothing, whatever the state. */
  lemma IgnoredMessage(f: Facts, m: UdpMessage)
    requires !Qualifying(m)
    ensures Next(f, Discovery(m)) == f && !Connects(f, Discovery(m))
  {
  }

  /** Delivering the same message again, as a second registered listener does, changes nothing more. */
  lemma RepeatedDiscovery(f: Facts, m: UdpMessage)
    ensures Next(Next(f, Discovery(m)), Discovery(m)) == Next(f, Discovery(m))
    ensures !Connects(Next(f, Discovery(m)), Discovery(m))
  {
  }

  /** After a timeout the UDP heartbeat runs again and the next qualifying message connects. */
  lemma ReconnectAfterTimeout(f: Facts, m: UdpMessage)
    requires Qualifying(m)
    ensures Run(f, [Failed(PingTcpTimeout), Discovery(m)]) == Facts(true, true)
    ensures ConnectCount(f, [Failed(PingTcpTimeout), Discovery(m)]) == 1
  {
    var es := [Failed(PingTcpTimeout), Discovery(m)];
    var g := Facts(false, true);
    assert Next(f, es[0]) == g;
    assert es[1..] == [Discovery(m)];
    assert Connects(g, Discovery(m)) && Next(g, Discovery(m)) == Facts(true, true);
    assert Run(g, [Discovery(m)]) == Run(Facts(true, true), []);
    assert ConnectCount(g, [Discovery(m)]) == 1 + ConnectCount(Facts(true, true), []);
  }

  /**
   * Discovery, connect, timeout, discovery: two TCPSockets in all; after a failed connect
   * the same discovery opens none.
   */
  lemma DiscoveryCycles(m: UdpMessage)
    requires Qualifying(m)
    ensures ConnectCount(Facts(false, true), [Discovery(m), Success, Failed(PingTcpTimeout), Discovery(m)]) == 2
    ensures ConnectCount(Facts(false, true), [Discovery(m), Failed(CreateTcpError), Discovery(m)]) == 1
  {
    var es := [Discovery(m), Success, Failed(PingTcpTimeout), Discovery(m)];
    assert es[1..][1..] == [Failed(PingTcpTimeout), Discovery(m)];
    ReconnectAfterTimeout(Facts(true, false), m);
    var fs := [Discovery(m), Failed(CreateTcpError), Discovery(m)];
    var held := Facts(true, true);
    assert fs[1..] == [Failed(CreateTcpError), Discovery(m)];
    assert fs[1..][1..] == [Discovery(m)];
    assert TimeoutCount([Discovery(m)]) == TimeoutCount([Discovery(m)][1..]) == 0;
    HeldUntilTimeout(held, fs[1..]);
  }

  class SocketManager {
    var udpSocket: UDPSocket?<MessageListener>
    var tcpSocket: TCPSocket?
    ghost var Repr: set<object>

    ghost function Footprint(): set<object>
      reads this, udpSocket, tcpSocket
    {
      {this} + (if udpSocket != null then udpSocket.Repr else {}) + (if tcpSocket != null then tcpSocket.Repr else {})
    }

    /**
     * A TCPSocket exists only once the UDPSocket does, has its listener, and runs at most the one
     * connect request it was made with; a running TCP heartbeat means that request has run.
     */
    ghost predicate Valid()
      reads this, Repr
    {
      this in Repr &&
      (udpSocket != null ==>
        udpSocket in Repr && udpSocket.Repr <= Repr && this !in udpSocket.Repr && udpSocket.Valid()) &&
      (tcpSocket != null ==>
        tcpSocket in Repr && tcpSocket.Repr <= Repr && this !in tcpSocket.Repr && tcpSocket.Valid()
        && udpSocket != null && udpSocket.Repr !! tcpSocket.Repr
        && tcpSocket.hasListener && |tcpSocket.pending| <= 1 && (tcpSocket.timer != null ==> tcpSocket.pending == [])) &&
      Repr == Footprint()
    }

    ghost function State(): Facts
      reads this, udpSocket
    {
      Facts(tcpSocket != null, udpSocket != null && udpSocket.timer != null)
    }

    constructor ()
      ensures Valid() && fresh(Repr)
      ensures udpSocket == null && tcpSocket == null
    {
      udpSocket := null;
      tcpSocket := null;
      Repr := {this};
    }

    /**
     * startUdpConnection: makes the UDPSocket the first time only, registers one more message
     * listener on every call, and starts the UDP socket (a no-op when it is already open).
     */
    method StartUdpConnection(bound: bool, now: int)
      requires Valid()
      modifies Repr
      ensures Valid() && fresh(Repr - old(Repr))
      ensures old(udpSocket) != null ==> udpSocket == old(udpSocket)
      ensures old(udpSocket) == null ==> fresh(udpSocket) && udpSocket.lastReceiveTime == now
      ensures udpSocket != null
      ensures udpSocket.messageReceiveList ==
        (if old(udpSocket) != null then old(udpSocket.messageReceiveList) else []) + [Some(Coordinator)]
      ensures udpSocket.client == ((old(udpSocket) != null && old(udpSocket.client)) || bound)
      ensures !(old(udpSocket) != null && old(udpSocket.client)) && bound ==>
        udpSocket.isThreadRunning && State().udpHeartbeat
      ensures old(udpSocket) != null && old(udpSocket.client) ==> State() == old(State())
      ensures !bound ==> State() == old(State())
      ensures tcpSocket == old(tcpSocket)
    {
      if udpSocket == null {
        udpSocket := new UDPSocket<MessageListener>(now);
        Repr := Repr + udpSocket.Repr;
      }
      udpSocket.AddOnMessageReceiveListener(Some(Coordinator));
      udpSocket.StartUDPSocket(bound);
      Repr := Footprint();
    }

    /** handleUdpMessage: a qualifying message asks for a TCP connection; anything else is dropped. */
    method HandleUdpMessage(m: UdpMessage, now: int) returns (connecting: bool)
      requires Valid() && udpSocket != null
      modifies Repr
      ensures Valid() && fresh(Repr - old(Repr))
      ensures connecting == Connects(old(State()), Discovery(m))
      ensures State() == Next(old(State()), Discovery(m))
      ensures connecting ==>
        fresh(tcpSocket) && tcpSocket.pending == [Request(m.ip, m.port)] && tcpSocket.timer == null
        && tcpSocket.lastReceiveTime == now && tcpSocket.poolPresent
      ensures !connecting ==> tcpSocket == old(tcpSocket) && Repr == old(Repr) && unchanged(this)
      ensures !connecting && old(tcpSocket) != null ==> unchanged(old(tcpSocket))
      ensures udpSocket == old(udpSocket) && unchanged(udpSocket)
    {
      connecting := false;
      if m.JsonObject? && |m.ip| > 0 && |m.port| > 0 {
        connecting := StartTcpConnection(m.ip, m.port, now);
      }
    }

    /**
     * startTcpConnection: only while no TCPSocket is held, makes one, queues its connect and
     * then registers the listener whose onSuccess and onFailed are the two methods below.
     */
    method StartTcpConnection(ip: string, port: string, now: int) returns (created: bool)
      requires Valid() && udpSocket != null
      modifies Repr
      ensures Valid() && fresh(Repr - old(Repr))
      ensures created == (old(tcpSocket) == null)
      ensures created ==>
        fresh(tcpSocket) && tcpSocket.pending == [Request(ip, port)] && tcpSocket.timer == null
        && tcpSocket.lastReceiveTime == now && tcpSocket.poolPresent
      ensures !created ==> tcpSocket == old(tcpSocket) && Repr == old(Repr) && unchanged(this)
      ensures !created ==> unchanged(old(tcpSocket))
      ensures udpSocket == old(udpSocket) && unchanged(udpSocket)
    {
      created := tcpSocket == null;
      if created {
        var tcp := new TCPSocket(now);
        var submitted := tcp.StartTcpSocket(ip, port);
        tcp.SetOnConnectionStateListener();
        tcpSocket := tcp;
        Repr := Repr + tcp.Repr;
      }
    }

    /** The TCP listener's onSuccess: stops and drops the UDP heartbeat timer, nothing else. */
    method OnSuccess()
      requires Valid() && udpSocket != null
      modifies Repr
      ensures Valid() && Repr <= old(Repr)
      ensures State() == Next(old(State()), Success)
      ensures udpSocket == old(udpSocket) && tcpSocket == old(tcpSocket)
      ensures udpSocket.timer == null && udpSocket.lastReceiveTime == old(udpSocket.lastReceiveTime)
      ensures udpSocket.client == old(udpSocket.client) && udpSocket.isThreadRunning == old(udpSocket.isThreadRunning)
      ensures udpSocket.receivePacket == old(udpSocket.receivePacket)
      ensures udpSocket.messageReceiveList == old(udpSocket.messageReceiveList) && udpSocket.sent == old(udpSocket.sent)
      ensures old(udpSocket.timer) != null ==> forall k :: old(udpSocket.timer).Dispatch(k) == None
      ensures tcpSocket != null ==> unchanged(tcpSocket)
    {
      udpSocket.StopHeartbeatTimer();
      Repr := Footprint();
    }

    /**
     * The TCP listener's onFailed: PING_TCP_TIMEOUT restarts the UDP heartbeat and drops the
     * TCPSocket; CREATE_TCP_ERROR and every other code do nothing.
     */
    method OnFailed(errorCode: int)
      requires Valid() && udpSocket != null
      modifies Repr
      ensures Valid() && fresh(Repr - old(Repr))
      ensures State() == Next(old(State()), Failed(errorCode))
      ensures udpSocket == old(udpSocket)
      ensures errorCode == PingTcpTimeout ==>
        tcpSocket == null && udpSocket.timer != null
        && udpSocket.HeartbeatStarted(old(udpSocket.timer), if old(udpSocket.timer) != null then old(udpSocket.timer.tasks) else [])
      ensures udpSocket.client == old(udpSocket.client) && udpSocket.isThreadRunning == old(udpSocket.isThreadRunning)
      ensures udpSocket.receivePacket == old(udpSocket.receivePacket) && udpSocket.lastReceiveTime == old(udpSocket.lastReceiveTime)
      ensures udpSocket.messageReceiveList == old(udpSocket.messageReceiveList) && udpSocket.sent == old(udpSocket.sent)
      ensures errorCode != PingTcpTimeout ==> Repr == old(Repr) && unchanged(this) && unchanged(udpSocket)
      ensures old(tcpSocket) != null ==> unchanged(old(tcpSocket))
    {
      if errorCode == PingTcpTimeout {
        udpSocket.StartHeartbeatTimer();
        tcpSocket := null;
        Repr := Footprint();
      }
    }

    /**
     * A datagram reception on the UDP receive loop, with `decoded` what the JSON parser makes
     * of its text. Each registered listener forwards it to handleUdpMessage; only the first
     * of them can open a connection. A failed receive stops the UDP socket.
     */
    method UdpReceived(r: Reception, decoded: UdpMessage, now: int) returns (connections: nat)
      requires Valid() && udpSocket != null && udpSocket.isThreadRunning
      modifies Repr
      ensures Valid() && fresh(Repr - old(Repr))
      ensures udpSocket == old(udpSocket)
      ensures connections <= 1
      ensures r.ReadFailed? ==> connections == 0 && State() == old(State()).(udpHeartbeat := false) && !udpSocket.client
      ensures r.Received? ==> udpSocket.lastReceiveTime == now
      ensures r.Received? && |r.text| > 0 && Some(Coordinator) in old(udpSocket.messageReceiveList) ==>
        State() == Next(old(State()), Discovery(decoded)) && connections == (if Connects(old(State()), Discovery(decoded)) then 1 else 0)
      ensures r.Received? && (|r.text| == 0 || Some(Coordinator) !in old(udpSocket.messageReceiveList)) ==>
        State() == old(State()) && connections == 0
    {
      var calls := UdpRead(r, now);
      if r.Received? {
        DeliveriesMembers(udpSocket.messageReceiveList, r.text, Call(Coordinator, r.text));
      }
      if |calls| > 0 {
        DeliveriesMembers(udpSocket.messageReceiveList, r.text, calls[0]);
        assert calls[0].listener == Coordinator;
      }
      connections := Forward(calls, decoded, now);
    }

    /** One pass of the UDP receive loop as the manager sees it: its own facts change only on a failed read. */
    method UdpRead(r: Reception, now: int) returns (calls: seq<Call<MessageListener>>)
      requires Valid() && udpSocket != null && udpSocket.isThreadRunning
      modifies Repr
      ensures Valid() && Repr <= old(Repr)
      ensures udpSocket == old(udpSocket) && tcpSocket == old(tcpSocket)
      ensures udpSocket.messageReceiveList == old(udpSocket.messageReceiveList)
      ensures r.ReadFailed? ==> calls == [] && udpSocket.timer == null && !udpSocket.client
      ensures r.Received? ==> udpSocket.lastReceiveTime == now && State() == old(State())
      ensures r.Received? ==> calls == (if |r.text| == 0 then [] else Deliveries(udpSocket.messageReceiveList, r.text))
    {
      calls := udpSocket.ReceiveOnce(r, now);
      Repr := Footprint();
    }

    /**
     * The registered listener's onMessageReceived, once per call notifyMessageReceive makes:
     * each forwards the decoded text to handleUdpMessage, and only the first can connect.
     */
    method Forward(calls: seq<Call<MessageListener>>, decoded: UdpMessage, now: int) returns (connections: nat)
      requires Valid() && udpSocket != null
      modifies Repr
      ensures Valid() && fresh(Repr - old(Repr))
      ensures udpSocket == old(udpSocket) && unchanged(udpSocket)
      ensures State() == if calls == [] then old(State()) else Next(old(State()), Discovery(decoded))
      ensures connections == if calls != [] && Connects(old(State()), Discovery(decoded)) then 1 else 0
    {
      connections := 0;
      var i := 0;
      while i < |calls|
        invariant 0 <= i <= |calls|
        invariant Valid() && fresh(Repr - old(Repr))
        invariant udpSocket == old(udpSocket) && unchanged(udpSocket)
        invariant State() == if i == 0 then old(State()) else Next(old(State()), Discovery(decoded))
        invariant connections == if i > 0 && Connects(old(State()), Discovery(decoded)) then 1 else 0
      {
        var started := HandleUdpMessage(decoded, now);
        if started {
          connections := connections + 1;
        }
        i := i + 1;
      }
    }

    /**
     * A tick of the UDP heartbeat timer: the coordinator's facts do not change. While the UDP
     * heartbeat is suppressed (after onSuccess, until a timeout restarts it) nothing is sent.
     */
    method UdpTick(k: nat, now: int) returns (verdict: Option<Verdict>)
      requires Valid() && udpSocket != null
      modifies udpSocket
      ensures Valid() && Repr == old(Repr)
      ensures State() == old(State())
      ensures verdict.Some? ==> verdict.value == Judge(UdpPolicy, now - old(udpSocket.lastReceiveTime))
      ensures !old(State()).udpHeartbeat ==> verdict == None && udpSocket.sent == old(udpSocket.sent)
      ensures udpSocket.sent == old(udpSocket.sent) + (if verdict == Some(Keepalive) then [HeartbreakMessage] else [])
    {
      verdict := udpSocket.HeartbeatTick(k, now);
    }

    /**
     * The pool runs the held TCPSocket's connect request, and the event it reports goes to
     * OnSuccess or OnFailed. A refused connect leaves the TCPSocket held.
     */
    method TcpConnectRuns(accepts: bool) returns (event: Option<ConnectionEvent>)
      requires Valid() && tcpSocket != null && tcpSocket.pending != []
      modifies Repr
      ensures Valid() && fresh(Repr - old(Repr))
      ensures tcpSocket == old(tcpSocket) && tcpSocket.pending == []
      ensures event == match Attempt(old(tcpSocket.socket), old(tcpSocket.pending)[0], accepts)
        case BadPort => None
        case Refused => Some(ConnectionEvent.OnFailed(CreateTcpError))
        case Connected(_) => Some(ConnectionEvent.OnSuccess)
      ensures event == None ==> State() == old(State())
      ensures event == Some(ConnectionEvent.OnSuccess) ==> State() == Next(old(State()), Success)
      ensures event == Some(ConnectionEvent.OnFailed(CreateTcpError)) ==> State() == Next(old(State()), Failed(CreateTcpError)) == old(State())
      ensures event.Some? ==> event == Some(ConnectionEvent.OnSuccess) || event == Some(ConnectionEvent.OnFailed(CreateTcpError))
    {
      event := tcpSocket.RunConnect(accepts);
      Repr := Footprint();
      if event == Some(ConnectionEvent.OnSuccess) {
        OnSuccess();
      } else if event.Some? {
        OnFailed(event.value.errorCode);
      }
    }

    /**
     * A tick of the TCP heartbeat timer. On a timeout the TCPSocket tears itself down and its
     * report makes the coordinator drop it and restart the UDP heartbeat.
     */
    method TcpTick(k: nat, now: int) returns (verdict: Option<Verdict>)
      requires Valid() && tcpSocket != null
      modifies Repr
      ensures Valid() && fresh(Repr - old(Repr))
      ensures verdict.Some? ==> verdict.value == Judge(TcpPolicy, now - old(tcpSocket.lastReceiveTime))
      ensures verdict == Some(PeerTimedOut) ==>
        State() == Next(old(State()), Failed(PingTcpTimeout)) && tcpSocket == null && old(tcpSocket).Inert()
      ensures verdict != Some(PeerTimedOut) ==> State() == old(State()) && tcpSocket == old(tcpSocket)
    {
      var event;
      verdict, event := tcpSocket.HeartbeatTick(k, now);
      ghost var stopped := tcpSocket;
      Repr := Footprint();
      if event.Some? {
        OnFailed(event.value.errorCode);
      }
    }

    /** The TCP reader delivers lines: the held TCPSocket's clock moves, nothing else. */
    method TcpLines(lines: seq<TimedLine>)
      requires Valid() && tcpSocket != null
      modifies tcpSocket
      ensures Valid() && Repr == old(Repr)
      ensures State() == old(State())
      ensures tcpSocket.lastReceiveTime ==
        if old(tcpSocket.streams) == Open then LastLineTime(lines, old(tcpSocket.lastReceiveTime)) else old(tcpSocket.lastReceiveTime)
    {
      tcpSocket.ReceiveTcpLines(lines);
    }
  }
}
