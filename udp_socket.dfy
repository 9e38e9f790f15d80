/**
 * UDPSocket: the discovery channel. It binds port 2425, runs a receive loop that hands every
 * non-empty datagram's text to the registered listeners, and runs a heartbeat that sends a
 * heartbreak broadcast while the peer is quiet. Each receive and each tick is one atomic
 * event; the wall clock is the parameter `now`, and sending is recorded, not performed.
 */
module Udp {
  import opened Wrappers
  import opened Config
  import opened HeartbeatTimers
  import opened HeartbeatPolicy

  const BufferLength := 1024
  const ClientPort := 2425

  /** The outcome of one client.receive: an IOException, or a datagram and its text. */
  datatype Reception = ReadFailed | Received(text: string)

  /** One receive of the loop and the clock reading taken right after it. */
  datatype TimedReception = TimedReception(reception: Reception, now: int)

  /** One listener call onMessageReceived(message). */
  datatype Call<L> = Call(listener: L, message: string)

  /** notifyMessageReceive's calls: every non-null listener in registration order, with the text. */
  function Deliveries<L>(listeners: seq<Option<L>>, text: string): seq<Call<L>> {
    if listeners == [] then []
    else
      var last := listeners[|listeners| - 1];
      Deliveries(listeners[..|listeners| - 1], text) + (if last.Some? then [Call(last.value, text)] else [])
  }

  /** A call is made exactly when its listener is a registered non-null entry, always with the received text. */
  lemma {:induction false} DeliveriesMembers<L>(listeners: seq<Option<L>>, text: string, c: Call<L>)
    ensures c in Deliveries(listeners, text) <==> c.message == text && Some(c.listener) in listeners
  {
    if listeners != [] {
      var init := listeners[..|listeners| - 1];
      DeliveriesMembers(init, text, c);
      assert listeners == init + [listeners[|listeners| - 1]];
    }
  }

  /** The calls go to the non-null listeners, one each, in registration order. */
  lemma {:induction false} DeliveriesInOrder<L>(listeners: seq<Option<L>>, text: string)
    ensures |Deliveries(listeners, text)| == |Present(listeners)|
    ensures forall j :: 0 <= j < |Present(listeners)| ==> Deliveries(listeners, text)[j] == Call(Present(listeners)[j], text)
  {
    if listeners != [] {
      DeliveriesInOrder(listeners[..|listeners| - 1], text);
    }
  }

  /** The non-null entries, in order. */
  function Present<L>(listeners: seq<Option<L>>): seq<L> {
    if listeners == [] then []
    else
      var last := listeners[|listeners| - 1];
      Present(listeners[..|listeners| - 1]) + (if last.Some? then [last.value] else [])
  }

  /** How many receptions the loop takes: up to and including the first failure, or all of them. */
  function Consumed(rs: seq<TimedReception>): (n: nat)
    ensures n <= |rs|
  {
    if rs == [] then 0
    else if rs[0].reception.ReadFailed? then 1
    else 1 + Consumed(rs[1..])
  }

  /** The text a reception hands to the listeners: none for a failure or an empty datagram. */
  function Handed(r: Reception): seq<string> {
    if r.Received? && |r.text| > 0 then [r.text] else []
  }

  /** The texts of the non-empty datagrams, in arrival order. */
  function DeliveredTexts(rs: seq<TimedReception>): seq<string> {
    if rs == [] then []
    else DeliveredTexts(rs[..|rs| - 1]) + Handed(rs[|rs| - 1].reception)
  }

  /** Every listener call for a run of texts: each text to every registered listener, text by text. */
  function AllDeliveries<L>(listeners: seq<Option<L>>, texts: seq<string>): seq<Call<L>> {
    if texts == [] then []
    else AllDeliveries(listeners, texts[..|texts| - 1]) + Deliveries(listeners, texts[|texts| - 1])
  }

  /** A call is made for a run of texts exactly when its text is one of them and its listener is registered. */
  lemma {:induction false} AllDeliveriesMembers<L>(listeners: seq<Option<L>>, texts: seq<string>, c: Call<L>)
    ensures c in AllDeliveries(listeners, texts) <==> c.message in texts && Some(c.listener) in listeners
  {
    if texts != [] {
      var init, last := texts[..|texts| - 1], texts[|texts| - 1];
      AllDeliveriesMembers(listeners, init, c);
      DeliveriesMembers(listeners, last, c);
      assert texts == init + [last];
      assert c.message in texts <==> c.message in init || c.message == last;
    }
  }

  /** One more reception adds the deliveries of the text it hands over, if any, at the end. */
  lemma AllDeliveriesStep<L>(listeners: seq<Option<L>>, texts: seq<string>, r: Reception)
    ensures AllDeliveries(listeners, texts + Handed(r)) ==
      AllDeliveries(listeners, texts) + (if Handed(r) == [] then [] else Deliveries(listeners, r.text))
  {
    if Handed(r) != [] {
      assert (texts + Handed(r))[..|texts|] == texts;
    } else {
      assert texts + Handed(r) == texts;
    }
  }

  /** Taking one more reception extends the delivered texts and the clock by that reception alone. */
  lemma ReceptionStep(rs: seq<TimedReception>, k: nat, otherwise: int)
    requires k < |rs|
    ensures DeliveredTexts(rs[..k + 1]) == DeliveredTexts(rs[..k]) + Handed(rs[k].reception)
    ensures LastReceived(rs[..k + 1], otherwise) == if rs[k].reception.Received? then rs[k].now else LastReceived(rs[..k], otherwise)
    ensures rs[k..][1..] == rs[k + 1..]
  {
    assert rs[..k + 1][..k] == rs[..k];
  }

  /** The clock reading of the last successful receive among rs, if any. */
  function LastReceived(rs: seq<TimedReception>, otherwise: int): int {
    if rs == [] then otherwise
    else if rs[|rs| - 1].reception.Received? then rs[|rs| - 1].now
    else LastReceived(rs[..|rs| - 1], otherwise)
  }

  class UDPSocket<L> {
    /** client: a DatagramSocket bound to ClientPort is held. */
    var client: bool
    /** receivePacket: None when null, otherwise its length field. */
    var receivePacket: Option<nat>
    var isThreadRunning: bool
    var lastReceiveTime: int
    var timer: HeartbeatTimer?<Policy>
    var messageReceiveList: seq<Option<L>>
    /** The messages handed to sendMessage, in order. */
    var sent: seq<string>
    ghost var Repr: set<object>

    ghost predicate Valid()
      reads this, Repr
    {
      this in Repr &&
      (timer == null ==> Repr == {this}) &&
      (timer != null ==>
        Repr == {this, timer} && timer.Valid() && !timer.timerCancelled && timer.listener == Some(UdpPolicy)) &&
      (isThreadRunning ==> client && receivePacket.Some?)
    }

    /** The constructor records the creation time as the last receive. */
    constructor (now: int)
      ensures Valid() && fresh(Repr)
      ensures !client && receivePacket == None && !isThreadRunning && timer == null
      ensures lastReceiveTime == now && messageReceiveList == [] && sent == []
    {
      client := false;
      receivePacket := None;
      isThreadRunning := false;
      lastReceiveTime := now;
      timer := null;
      messageReceiveList := [];
      sent := [];
      Repr := {this};
    }

    method AddOnMessageReceiveListener(listener: Option<L>)
      requires Valid()
      modifies this
      ensures Valid() && Repr == old(Repr)
      ensures messageReceiveList == old(messageReceiveList) + [listener]
      ensures client == old(client) && receivePacket == old(receivePacket) && isThreadRunning == old(isThreadRunning)
      ensures lastReceiveTime == old(lastReceiveTime) && timer == old(timer) && sent == old(sent)
    {
      messageReceiveList := messageReceiveList + [listener];
    }

    /**
     * startUDPSocket: nothing when a socket is already held. `bound` says whether
     * new DatagramSocket(2425) succeeds; a SocketException is swallowed and leaves everything
     * as it was. On success the packet is created if missing, the receive loop is marked
     * running and the heartbeat is started.
     */
    method StartUDPSocket(bound: bool)
      requires Valid()
      modifies Repr
      ensures Valid() && fresh(Repr - old(Repr))
      ensures old(client) || !bound ==>
        client == old(client) && receivePacket == old(receivePacket) && isThreadRunning == old(isThreadRunning)
        && timer == old(timer) && (timer != null ==> timer.tasks == old(timer.tasks))
      ensures !old(client) && bound ==>
        client && isThreadRunning
        && receivePacket == (if old(receivePacket).None? then Some(BufferLength) else old(receivePacket))
        && HeartbeatStarted(old(timer), if old(timer) != null then old(timer.tasks) else [])
      ensures lastReceiveTime == old(lastReceiveTime) && messageReceiveList == old(messageReceiveList) && sent == old(sent)
    {
      if client {
        return;
      }
      if !bound {
        return;
      }
      client := true;
      if receivePacket.None? {
        receivePacket := Some(BufferLength);
      }
      StartSocketThread();
    }

    /** The receive thread is started, then the heartbeat. */
    method StartSocketThread()
      requires Valid() && client && receivePacket.Some?
      modifies Repr
      ensures Valid() && fresh(Repr - old(Repr))
      ensures isThreadRunning && client == old(client) && receivePacket == old(receivePacket)
      ensures HeartbeatStarted(old(timer), if old(timer) != null then old(timer.tasks) else [])
      ensures lastReceiveTime == old(lastReceiveTime) && messageReceiveList == old(messageReceiveList) && sent == old(sent)
    {
      isThreadRunning := true;
      StartHeartbeatTimer();
    }

    /**
     * After startHeartbeatTimer: the timer is the one held before, or a fresh one, and it has
     * gained one live task with delay 0 and period 5000 that calls the UDP heartbeat.
     */
    ghost predicate HeartbeatStarted(before: HeartbeatTimer?<Policy>, tasksBefore: seq<TimerTask>)
      reads this, timer
    {
      timer != null && (before != null ==> timer == before) &&
      timer.tasks == tasksBefore + [TimerTask(0, UdpPolicy.period, false)] &&
      timer.Live(|tasksBefore|) && timer.Dispatch(|tasksBefore|) == Some(UdpPolicy)
    }

    /** startHeartbeatTimer: reuses the held timer or makes one, sets the listener and schedules (0, 5000). */
    method StartHeartbeatTimer()
      requires Valid()
      modifies Repr
      ensures Valid() && fresh(Repr - old(Repr))
      ensures HeartbeatStarted(old(timer), if old(timer) != null then old(timer.tasks) else [])
      ensures old(timer) == null ==> fresh(timer)
      ensures client == old(client) && receivePacket == old(receivePacket) && isThreadRunning == old(isThreadRunning)
      ensures lastReceiveTime == old(lastReceiveTime) && messageReceiveList == old(messageReceiveList) && sent == old(sent)
    {
      if timer == null {
        timer := new HeartbeatTimer<Policy>();
        Repr := {this, timer};
      }
      timer.SetOnScheduleListener(Some(UdpPolicy));
      var scheduled := timer.StartTimer(0, UdpPolicy.period);
    }

    /** stopHeartbeatTimer: exits and drops the timer; with no timer it does nothing, so repeating it is harmless. */
    method StopHeartbeatTimer()
      requires Valid()
      modifies Repr
      ensures Valid() && Repr <= old(Repr)
      ensures timer == null
      ensures old(timer) == null ==> Repr == old(Repr)
      ensures old(timer) != null ==> old(timer).timerCancelled && forall k :: old(timer).Dispatch(k) == None
      ensures client == old(client) && receivePacket == old(receivePacket) && isThreadRunning == old(isThreadRunning)
      ensures lastReceiveTime == old(lastReceiveTime) && messageReceiveList == old(messageReceiveList) && sent == old(sent)
    {
      if timer != null {
        timer.Exit();
        timer := null;
        Repr := {this};
      }
    }

    /**
     * stopUDPSocket: ends the loop, drops the packet and the heartbeat, closes and drops the
     * socket. Its second exit of the timer is never reached, the timer being null by then.
     */
    method StopUDPSocket()
      requires Valid()
      modifies Repr
      ensures Valid() && Repr <= old(Repr)
      ensures !isThreadRunning && receivePacket.None? && !client && timer == null
      ensures old(timer) != null ==> forall k :: old(timer).Dispatch(k) == None
      ensures lastReceiveTime == old(lastReceiveTime) && messageReceiveList == old(messageReceiveList) && sent == old(sent)
    {
      isThreadRunning := false;
      receivePacket := None;
      StopHeartbeatTimer();
      client := false;
    }

    /** notifyMessageReceive: calls every non-null listener in registration order with the text. */
    method NotifyMessageReceive(strReceive: string) returns (calls: seq<Call<L>>)
      ensures calls == Deliveries(messageReceiveList, strReceive)
    {
      calls := [];
      var i := 0;
      while i < |messageReceiveList|
        invariant 0 <= i <= |messageReceiveList|
        invariant calls == Deliveries(messageReceiveList[..i], strReceive)
      {
        assert messageReceiveList[..i + 1][..i] == messageReceiveList[..i];
        var listener := messageReceiveList[i];
        if listener.Some? {
          calls := calls + [Call(listener.value, strReceive)];
        }
        i := i + 1;
      }
      assert messageReceiveList[..i] == messageReceiveList;
    }

    /**
     * One pass of receiveMessage's loop. A failed receive stops the socket and ends the loop.
     * Any datagram, even an empty one, refreshes lastReceiveTime; only a non-empty one reaches
     * the listeners, after which the packet length is reset to 1024.
     */
    method ReceiveOnce(r: Reception, now: int) returns (calls: seq<Call<L>>)
      requires Valid() && isThreadRunning
      modifies Repr
      ensures Valid() && Repr <= old(Repr)
      ensures r.ReadFailed? ==>
        calls == [] && !isThreadRunning && !client && receivePacket.None? && timer == null
        && lastReceiveTime == old(lastReceiveTime)
      ensures r.ReadFailed? && old(timer) != null ==> forall k :: old(timer).Dispatch(k) == None
      ensures r.Received? ==>
        lastReceiveTime == now && isThreadRunning && client && timer == old(timer)
        && (timer != null ==> timer.tasks == old(timer.tasks))
        && calls == (if |r.text| == 0 then [] else Deliveries(messageReceiveList, r.text))
        && receivePacket == Some(if |r.text| == 0 then 0 else BufferLength)
      ensures messageReceiveList == old(messageReceiveList) && sent == old(sent)
    {
      if r.ReadFailed? {
        StopUDPSocket();
        return [];
      }
      lastReceiveTime := now;
      receivePacket := Some(|r.text|);
      if |r.text| == 0 {
        return [];
      }
      calls := NotifyMessageReceive(r.text);
      receivePacket := Some(BufferLength);
    }

    /**
     * receiveMessage: loops while the thread is running, over the receptions the socket
     * delivers. It stops after the first failure; returns the texts handed to the listeners
     * (each of them to every non-null listener) and how many receptions it took.
     */
    method ReceiveMessage(rs: seq<TimedReception>) returns (texts: seq<string>, taken: nat, delivered: seq<Call<L>>)
      requires Valid()
      modifies Repr
      ensures Valid() && Repr <= old(Repr)
      ensures taken == (if old(isThreadRunning) then Consumed(rs) else 0)
      ensures texts == DeliveredTexts(rs[..taken])
      ensures delivered == AllDeliveries(old(messageReceiveList), texts)
      ensures lastReceiveTime == LastReceived(rs[..taken], old(lastReceiveTime))
      ensures isThreadRunning == (old(isThreadRunning) && forall j :: 0 <= j < taken ==> rs[j].reception.Received?)
      ensures messageReceiveList == old(messageReceiveList) && sent == old(sent)
    {
      texts, taken, delivered := [], 0, [];
      if !isThreadRunning {
        return;
      }
      while isThreadRunning && taken < |rs|
        invariant Valid() && Repr <= old(Repr)
        invariant taken <= |rs|
        invariant Consumed(rs) == taken + (if isThreadRunning then Consumed(rs[taken..]) else 0)
        invariant texts == DeliveredTexts(rs[..taken])
        invariant delivered == AllDeliveries(old(messageReceiveList), texts)
        invariant lastReceiveTime == LastReceived(rs[..taken], old(lastReceiveTime))
        invariant isThreadRunning == forall j :: 0 <= j < taken ==> rs[j].reception.Received?
        invariant messageReceiveList == old(messageReceiveList) && sent == old(sent)
        decreases |rs| - taken
      {
        var next := rs[taken];
        ReceptionStep(rs, taken, old(lastReceiveTime));
        AllDeliveriesStep(old(messageReceiveList), texts, next.reception);
        var calls := ReceiveOnce(next.reception, next.now);
        taken := taken + 1;
        texts := texts + Handed(next.reception);
        delivered := delivered + calls;
      }
      if isThreadRunning {
        assert taken == |rs|;
        assert rs[taken..] == [];
      }
    }

    /**
     * The heartbeat listener's onSchedule, run when task k of the held timer fires. With
     * d = now - lastReceiveTime: past 120 s the clock is reset and nothing is sent; past 5 s one
     * heartbreak message is sent; otherwise nothing. A timer that was exited never fires.
     */
    method HeartbeatTick(k: nat, now: int) returns (verdict: Option<Verdict>)
      requires Valid()
      modifies this
      ensures Valid() && Repr == old(Repr)
      ensures verdict == (if timer != null && timer.Live(k) then Some(Judge(UdpPolicy, now - old(lastReceiveTime))) else None)
      ensures lastReceiveTime == (if verdict == Some(PeerTimedOut) then now else old(lastReceiveTime))
      ensures sent == old(sent) + (if verdict == Some(Keepalive) then [HeartbreakMessage] else [])
      ensures client == old(client) && receivePacket == old(receivePacket) && isThreadRunning == old(isThreadRunning)
      ensures timer == old(timer) && messageReceiveList == old(messageReceiveList)
    {
      var fired := if timer != null then timer.Dispatch(k) else None;
      if fired.None? {
        return None;
      }
      var duration := now - lastReceiveTime;
      var v := Judge(fired.value, duration);
      if v == PeerTimedOut {
        // the peer is taken as offline; refresh the clock and start a new period
        lastReceiveTime := now;
      } else if v == Keepalive {
        sent := sent + [HeartbreakMessage];
      }
      verdict := Some(v);
    }
  }

  /**
   * After a timeout tick has reset the clock, no later tick before another 120 s have passed
   * can time out again, so the timeout cannot fire on two consecutive ticks.
   */
  lemma NoBackToBackTimeouts(reset: int, now: int)
    requires reset <= now <= reset + UdpPolicy.timeoutAfter
    ensures Judge(UdpPolicy, now - reset) != PeerTimedOut
  {
  }
}
