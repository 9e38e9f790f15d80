/**
 * The decision both heartbeat listeners take on every tick: with d the time since the
 * channel last received anything, a peer silent for longer than the timeout is taken as
 * gone, one silent for longer than the keepalive threshold is sent a keepalive, and
 * otherwise nothing happens. UDPSocket and TCPSocket differ in their thresholds and in
 * what they do about a timeout.
 */
module HeartbeatPolicy {
  /** The two thresholds and the timer period, in milliseconds. */
  datatype Policy = Policy(keepaliveAfter: int, timeoutAfter: int, period: int)

  /** UDPSocket: HEARTBEAT_MESSAGE_DURATION 5 s, TIME_OUT 120 s, ticks every 5 s. */
  const UdpPolicy := Policy(5 * 1000, 120 * 1000, 1000 * 5)

  /** TCPSocket: HEARTBEAT_MESSAGE_DURATION 2 s, TIME_OUT 15 s, ticks every 2 s. */
  const TcpPolicy := Policy(2 * 1000, 15 * 1000, 1000 * 2)

  datatype Verdict = Quiet | Keepalive | PeerTimedOut

  function Judge(p: Policy, d: int): (v: Verdict)
    ensures v == PeerTimedOut <==> d > p.timeoutAfter
    ensures WellFormed(p) ==> (v == Quiet <==> d <= p.keepaliveAfter)
  {
    if d > p.timeoutAfter then PeerTimedOut
    else if d > p.keepaliveAfter then Keepalive
    else Quiet
  }

  /** A policy whose keepalive threshold lies strictly between one period and the timeout. */
  predicate WellFormed(p: Policy) {
    0 < p.period <= p.keepaliveAfter < p.timeoutAfter
  }

  /** Both channels' thresholds are strictly ordered. */
  lemma PoliciesWellFormed()
    ensures WellFormed(UdpPolicy) && WellFormed(TcpPolicy)
  {
  }

  /**
   * Ticking every period from the last receive of a silent peer, tick n sees d = n * period.
   * For the stream channel: nothing on ticks 0 and 1, a ping on ticks 2 to 7, and the timeout
   * on tick 8, 16 s after the last receive.
   */
  lemma TcpSilentPeer(n: nat)
    ensures Judge(TcpPolicy, n * TcpPolicy.period) ==
      if n <= 1 then Quiet else if n <= 7 then Keepalive else PeerTimedOut
  {
  }

  /**
   * For the datagram channel: nothing on ticks 0 and 1, a heartbreak on ticks 2 to 24, and the
   * timeout on tick 25, 125 s after the last receive.
   */
  lemma UdpSilentPeer(n: nat)
    ensures Judge(UdpPolicy, n * UdpPolicy.period) ==
      if n <= 1 then Quiet else if n <= 24 then Keepalive else PeerTimedOut
  {
  }
}
