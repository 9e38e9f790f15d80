/**
 * TCPSocket: the stream channel. A connect request is queued on the thread pool; when it runs
 * the port text is parsed, the socket is opened (or the held one reused), the listener is told,
 * a line reader is started and a 2 s heartbeat pings the peer until it has been silent for
 * more than 15 s, when the channel is torn down and the listener told again. Every pool run,
 * received line and tick is one atomic event; the clock is the parameter `now`.
 */
module Tcp {
  import opened Wrappers
  import opened Config
  import opened JavaStrings
  import opened HeartbeatTimers
  import opened HeartbeatPolicy

  const MaxPort := 65535

  /** The remote end of an open socket. */
  datatype Endpoint = Endpoint(ip: string, port: int)

  /** A connect runnable handed to the pool: the ip and port strings as received. */
  datatype Request = Request(ip: string, port: string)

  /** The calls made on OnConnectionStateListener. */
  datatype ConnectionEvent = OnSuccess | OnFailed(errorCode: int)

  /** The reader and writer fields: never created, open, or closed by stopTcpConnection. */
  datatype Streams = NoStreams | Open | Closed

  /** A line read from the socket and the clock reading when it arrived. */
  datatype TimedLine = TimedLine(line: string, now: int)

  /** How a connect runnable ends. */
  datatype Attempted = BadPort | Refused | Connected(endpoint: Endpoint)

  /**
   * One run of the connect runnable, as a value. Integer.valueOf(port) comes first and throws
   * on a non-numeric port, ending the runnable (BadPort). A socket already held is reused,
   * whatever ip and port say. Otherwise new Socket(ip, port) is tried: a port outside 0..65535
   * throws IllegalArgumentException and a peer that does not accept throws IOException; both
   * are caught and make the attempt fail.
   */
  function Attempt(held: Option<Endpoint>, req: Request, accepts: bool): (r: Attempted)
    ensures r.BadPort? <==> ParseJavaInt(req.port).None?
    ensures r.Connected? && held.Some? ==> r.endpoint == held.value
    ensures r.Connected? && held.None? ==>
      accepts && r.endpoint.ip == req.ip && 0 <= r.endpoint.port <= MaxPort && ParseJavaInt(req.port) == Some(r.endpoint.port)
  {
    var port := ParseJavaInt(req.port);
    if port.None? then BadPort
    else if held.Some? then Connected(held.value)
    else if !(0 <= port.value <= MaxPort) || !accepts then Refused
    else Connected(Endpoint(req.ip, port.value))
  }

  /** A held socket is reused for any numeric port, and nothing is refused then. */
  lemma AttemptReusesSocket(held: Endpoint, req: Request, accepts: bool)
    requires ParseJavaInt(req.port).Some?
    ensures Attempt(Some(held), req, accepts) == Connected(held)
  {
  }

  /** A decimal port in range, to a peer that accepts, connects to exactly that endpoint. */
  lemma AttemptDecimalPort(ip: string, port: nat, accepts: bool)
    requires port <= MaxPort
    ensures Attempt(None, Request(ip, NatToDecimal(port)), accepts) ==
      if accepts then Connected(Endpoint(ip, port)) else Refused
  {
    ParseJavaIntOfDecimal(port);
  }

  /** The arrival time of the last line, or `otherwise` when there is none. */
  function LastLineTime(lines: seq<TimedLine>, otherwise: int): int {
    if lines == [] then otherwise else lines[|lines| - 1].now
  }

  class TCPSocket {
    /** mThreadPool is non-null. */
    var poolPresent: bool
    /** Connect runnables handed to the pool that have not run yet. */
    var pending: seq<Request>
    var socket: Option<Endpoint>
    var streams: Streams
    /** Receive runnables handed to the pool. */
    var readers: nat
    var timer: HeartbeatTimer?<Policy>
    var lastReceiveTime: int
    /** mListener is non-null. */
    var hasListener: bool
    /** The lines written through pw, in order. */
    var written: seq<string>
    ghost var Repr: set<object>

    ghost predicate Valid()
      reads this, Repr
    {
      this in Repr &&
      (timer == null ==> Repr == {this}) &&
      (timer != null ==>
        Repr == {this, timer} && timer.Valid() && !timer.timerCancelled && timer.listener == Some(TcpPolicy)
        && streams == Open && socket.Some?)
    }

    /** Fully torn down, with nothing left to run: no queued connect and no heartbeat. */
    ghost predicate Inert()
      reads this
    {
      timer == null && pending == [] && !poolPresent && socket.None? && streams != Open
    }

    /** The constructor makes the pool and records the creation time as the last receive. */
    constructor (now: int)
      ensures Valid() && fresh(Repr)
      ensures poolPresent && pending == [] && socket.None? && streams == NoStreams && readers == 0
      ensures timer == null && lastReceiveTime == now && !hasListener && written == []
    {
      poolPresent := true;
      pending := [];
      socket := None;
      streams := NoStreams;
      readers := 0;
      timer := null;
      lastReceiveTime := now;
      hasListener := false;
      written := [];
      Repr := {this};
    }

    /**
     * startTcpSocket: queues one connect runnable. With the pool already nulled by
     * stopTcpConnection, calling execute on the null pool throws at the caller and nothing is queued.
     */
    method StartTcpSocket(ip: string, port: string) returns (submitted: bool)
      requires Valid()
      modifies this
      ensures Valid() && Repr == old(Repr)
      ensures submitted == old(poolPresent)
      ensures pending == old(pending) + (if submitted then [Request(ip, port)] else [])
      ensures poolPresent == old(poolPresent) && socket == old(socket) && streams == old(streams) && readers == old(readers)
      ensures timer == old(timer) && lastReceiveTime == old(lastReceiveTime) && hasListener == old(hasListener) && written == old(written)
    {
      submitted := poolPresent;
      if submitted {
        pending := pending + [Request(ip, port)];
      }
    }

    method SetOnConnectionStateListener()
      requires Valid()
      modifies this
      ensures Valid() && Repr == old(Repr)
      ensures hasListener
      ensures poolPresent == old(poolPresent) && pending == old(pending) && socket == old(socket) && streams == old(streams)
      ensures readers == old(readers) && timer == old(timer) && lastReceiveTime == old(lastReceiveTime) && written == old(written)
    {
      hasListener := true;
    }

    /** What the listener hears, if there is one. */
    function Report(e: ConnectionEvent): Option<ConnectionEvent>
      reads this
    {
      if hasListener then Some(e) else None
    }

    /**
     * After startHeartbeatTimer: the timer is the one held before, or a fresh one, and it has
     * gained one live task with delay 0 and period 2000 that calls the TCP heartbeat.
     */
    ghost predicate HeartbeatStarted(before: HeartbeatTimer?<Policy>, tasksBefore: seq<TimerTask>)
      reads this, timer
    {
      timer != null && (before != null ==> timer == before) &&
      timer.tasks == tasksBefore + [TimerTask(0, TcpPolicy.period, false)] &&
      timer.Live(|tasksBefore|) && timer.Dispatch(|tasksBefore|) == Some(TcpPolicy)
    }

    /**
     * The pool runs the oldest queued connect runnable. `accepts` is whether the network lets
     * new Socket(ip, port) connect. On success the listener hears onSuccess, then a receive
     * runnable is queued and the heartbeat started; if the pool was nulled meanwhile, queuing
     * the reader throws and the heartbeat is never started. On a refused attempt the listener
     * hears onFailed(CREATE_TCP_ERROR) and no heartbeat starts. A non-numeric port ends the
     * runnable before either callback.
     */
    method RunConnect(accepts: bool) returns (event: Option<ConnectionEvent>)
      requires Valid() && pending != []
      modifies Repr
      ensures Valid() && fresh(Repr - old(Repr))
      ensures pending == old(pending)[1..]
      ensures var r := Attempt(old(socket), old(pending)[0], accepts);
        match r
        case BadPort =>
          event == None && socket == old(socket) && streams == old(streams) && readers == old(readers)
          && timer == old(timer) && (timer != null ==> timer.tasks == old(timer.tasks))
        case Refused =>
          event == Report(OnFailed(CreateTcpError)) && socket == old(socket) && streams == old(streams)
          && readers == old(readers) && timer == old(timer) && (timer != null ==> timer.tasks == old(timer.tasks))
        case Connected(e) =>
          event == Report(OnSuccess) && socket == Some(e) && streams == Open
          && (old(poolPresent) ==>
                readers == old(readers) + 1 && HeartbeatStarted(old(timer), if old(timer) != null then old(timer.tasks) else []))
          && (!old(poolPresent) ==>
                readers == old(readers) && timer == old(timer) && (timer != null ==> timer.tasks == old(timer.tasks)))
      ensures poolPresent == old(poolPresent) && lastReceiveTime == old(lastReceiveTime)
      ensures hasListener == old(hasListener) && written == old(written)
    {
      var req := pending[0];
      pending := pending[1..];
      var port := ParseJavaInt(req.port);
      if port.None? {
        // NumberFormatException: the runnable ends, no callback
        return None;
      }
      var connected := StartTcpConnection(req.ip, port.value, accepts);
      if connected {
        event := Report(OnSuccess);
        var receiving := StartReceiveTcpThread();
        if receiving {
          StartHeartbeatTimer();
        }
      } else {
        event := Report(OnFailed(CreateTcpError));
      }
    }

    /**
     * startTcpConnection: reuses the held socket, or opens one to (ip, port); then opens the
     * reader and writer. Any exception makes it answer false and leaves the fields as they were.
     */
    method StartTcpConnection(ip: string, port: int, accepts: bool) returns (connected: bool)
      requires Valid()
      modifies this
      ensures Valid() && Repr == old(Repr)
      ensures connected == (old(socket).Some? || (0 <= port <= MaxPort && accepts))
      ensures connected ==> socket == Some(if old(socket).Some? then old(socket).value else Endpoint(ip, port)) && streams == Open
      ensures !connected ==> socket == old(socket) && streams == old(streams)
      ensures poolPresent == old(poolPresent) && pending == old(pending) && readers == old(readers) && timer == old(timer)
      ensures lastReceiveTime == old(lastReceiveTime) && hasListener == old(hasListener) && written == old(written)
    {
      if socket.None? {
        if !(0 <= port <= MaxPort) || !accepts {
          return false;
        }
        socket := Some(Endpoint(ip, port));
      }
      streams := Open;
      return true;
    }

    /** startReceiveTcpThread: queues the line reader; a nulled pool throws instead. */
    method StartReceiveTcpThread() returns (queued: bool)
      requires Valid()
      modifies this
      ensures Valid() && Repr == old(Repr)
      ensures queued == old(poolPresent)
      ensures readers == old(readers) + (if queued then 1 else 0)
      ensures poolPresent == old(poolPresent) && pending == old(pending) && socket == old(socket) && streams == old(streams)
      ensures timer == old(timer) && lastReceiveTime == old(lastReceiveTime) && hasListener == old(hasListener) && written == old(written)
    {
      queued := poolPresent;
      if queued {
        readers := readers + 1;
      }
    }

    /** startHeartbeatTimer: reuses the held timer or makes one, sets the listener and schedules (0, 2000). */
    method StartHeartbeatTimer()
      requires Valid() && streams == Open && socket.Some?
      modifies Repr
      ensures Valid() && fresh(Repr - old(Repr))
      ensures HeartbeatStarted(old(timer), if old(timer) != null then old(timer.tasks) else [])
      ensures old(timer) == null ==> fresh(timer)
      ensures poolPresent == old(poolPresent) && pending == old(pending) && socket == old(socket) && streams == old(streams)
      ensures readers == old(readers) && lastReceiveTime == old(lastReceiveTime) && hasListener == old(hasListener) && written == old(written)
    {
      if timer == null {
        timer := new HeartbeatTimer<Policy>();
        Repr := {this, timer};
      }
      timer.SetOnScheduleListener(Some(TcpPolicy));
      var scheduled := timer.StartTimer(0, TcpPolicy.period);
    }

    /** handleReceiveTcpMessage: a received line refreshes the clock; its content is not looked at. */
    method HandleReceiveTcpMessage(line: string, now: int)
      requires Valid()
      modifies this
      ensures Valid() && Repr == old(Repr)
      ensures lastReceiveTime == now
      ensures poolPresent == old(poolPresent) && pending == old(pending) && socket == old(socket) && streams == old(streams)
      ensures readers == old(readers) && timer == old(timer) && hasListener == old(hasListener) && written == old(written)
    {
      lastReceiveTime := now;
    }

    /**
     * The receive runnable: reads lines until the stream ends, handling each one. A reader that
     * stopTcpConnection has closed throws on the first read, and one never opened does nothing.
     */
    method ReceiveTcpLines(lines: seq<TimedLine>)
      requires Valid()
      modifies this
      ensures Valid() && Repr == old(Repr)
      ensures lastReceiveTime == if old(streams) == Open then LastLineTime(lines, old(lastReceiveTime)) else old(lastReceiveTime)
      ensures poolPresent == old(poolPresent) && pending == old(pending) && socket == old(socket) && streams == old(streams)
      ensures readers == old(readers) && timer == old(timer) && hasListener == old(hasListener) && written == old(written)
    {
      if streams != Open {
        return;
      }
      var i := 0;
      while i < |lines|
        invariant 0 <= i <= |lines|
        invariant Valid() && Repr == old(Repr)
        invariant lastReceiveTime == LastLineTime(lines[..i], old(lastReceiveTime))
        invariant poolPresent == old(poolPresent) && pending == old(pending) && socket == old(socket) && streams == old(streams)
        invariant readers == old(readers) && timer == old(timer) && hasListener == old(hasListener) && written == old(written)
      {
        HandleReceiveTcpMessage(lines[i].line, lines[i].now);
        i := i + 1;
      }
      assert lines[..i] == lines;
    }

    /** stopHeartbeatTimer: exits and drops the timer; with no timer it does nothing. */
    method StopHeartbeatTimer()
      requires Valid()
      modifies Repr
      ensures Valid() && Repr <= old(Repr)
      ensures timer == null
      ensures old(timer) == null ==> Repr == old(Repr)
      ensures old(timer) != null ==> old(timer).timerCancelled && forall k :: old(timer).Dispatch(k) == None
      ensures poolPresent == old(poolPresent) && pending == old(pending) && socket == old(socket) && streams == old(streams)
      ensures readers == old(readers) && lastReceiveTime == old(lastReceiveTime) && hasListener == old(hasListener) && written == old(written)
    {
      if timer != null {
        timer.Exit();
        timer := null;
        Repr := {this};
      }
    }

    /**
     * stopTcpConnection: stops the heartbeat, closes the reader and writer, shuts down and
     * nulls the pool, closes and nulls the socket. Queued runnables are not discarded. Every
     * field it touches ends null or closed whatever it was, so a second run changes nothing.
     */
    method StopTcpConnection()
      requires Valid()
      modifies Repr
      ensures Valid() && Repr <= old(Repr)
      ensures timer == null && !poolPresent && socket.None?
      ensures streams == if old(streams) == Open then Closed else old(streams)
      ensures old(timer) != null ==> forall k :: old(timer).Dispatch(k) == None
      ensures pending == old(pending) && readers == old(readers)
      ensures lastReceiveTime == old(lastReceiveTime) && hasListener == old(hasListener) && written == old(written)
      ensures old(timer) == null ==> Repr == old(Repr)
    {
      StopHeartbeatTimer();
      if streams == Open {
        streams := Closed;
      }
      if poolPresent {
        poolPresent := false;
      }
      if socket.Some? {
        socket := None;
      }
    }

    /**
     * The heartbeat listener's onSchedule, run when task k of the held timer fires. With
     * d = now - lastReceiveTime: past 15 s the channel is stopped and then the listener hears
     * onFailed(PING_TCP_TIMEOUT); past 2 s one ping line is written; otherwise nothing.
     * Stopping drops the timer, so the timeout is reported at most once per heartbeat.
     */
    method HeartbeatTick(k: nat, now: int) returns (verdict: Option<Verdict>, event: Option<ConnectionEvent>)
      requires Valid()
      modifies Repr
      ensures Valid() && Repr <= old(Repr)
      ensures verdict == (if old(timer) != null && old(timer.Live(k)) then Some(Judge(TcpPolicy, now - old(lastReceiveTime))) else None)
      ensures verdict == Some(PeerTimedOut) ==>
        event == Report(OnFailed(PingTcpTimeout)) && timer == null && !poolPresent && socket.None? && streams == Closed
        && forall j :: old(timer).Dispatch(j) == None
      ensures verdict != Some(PeerTimedOut) ==>
        event == None && timer == old(timer) && (timer != null ==> timer.tasks == old(timer.tasks))
        && poolPresent == old(poolPresent) && socket == old(socket) && streams == old(streams)
      ensures written == old(written) + (if verdict == Some(Keepalive) then [PingMessage] else [])
      ensures pending == old(pending) && readers == old(readers) && lastReceiveTime == old(lastReceiveTime)
      ensures hasListener == old(hasListener)
    {
      var fired := if timer != null then timer.Dispatch(k) else None;
      if fired.None? {
        return None, None;
      }
      var duration := now - lastReceiveTime;
      var v := Judge(fired.value, duration);
      event := None;
      if v == PeerTimedOut {
        StopTcpConnection();
        event := Report(OnFailed(PingTcpTimeout));
      } else if v == Keepalive {
        // sendTcpMessage: pw.println
        written := written + [PingMessage];
      }
      verdict := Some(v);
    }
  }
}
