# AndroidSocket in Dafny

A model of the connection core of AndroidSocket, an Android demo in which peers find each
other by UDP broadcast on port 2425, connect over TCP, and watch both channels with heartbeats.

- `SocketManager` is the coordinator. A discovery datagram whose JSON carries a non-empty
  `ip` and `port` makes one `TCPSocket`. The TCP listener's `onSuccess` silences the UDP
  heartbeat. `onFailed(PING_TCP_TIMEOUT)` restarts the UDP heartbeat and drops the `TCPSocket`.
- `UDPSocket` binds the discovery port and runs the receive loop. It hands datagram texts to its
  listeners. Its heartbeat sends `{"msg":"heartbreak"}` after 5 s of silence and resets its
  clock after 120 s.
- `TCPSocket` queues a connect on its thread pool. It reuses a held socket, reads lines, and
  pings with `{"msg":"ping"}` after 2 s of silence. After 15 s it tears itself down and reports
  the timeout.
- `HeartbeatTimer` wraps a `java.util.Timer`, its latest task and a listener.
- `WifiUtil.intToIp` and the broadcast-address search, and the MAC, ROM-version, CPU-count and
  device-id fragments of `DeviceUtil`.

Threads are replaced by events. A datagram reception, a pool runnable, a received TCP line and
a timer tick are each one method call, and the wall clock is the parameter `now`. A listener
call is the value the socket method returns, and the coordinator passes it to its own
`OnSuccess`/`OnFailed`. A timer tick names the task that fires, and `HeartbeatTimer.Dispatch`
says whether that task still runs and which listener it calls. The coordinator's two facts are
"a TCPSocket is held" and "the UDP heartbeat is running". `Manager.Next` is the transition
function on those facts, for the three events a discovery message, `onSuccess` and `onFailed`.
`HandleUdpMessage`, `OnSuccess`, `OnFailed`, `TcpConnectRuns` and `TcpTick` are proved to move
the facts as `Next` does, and the lemmas about runs of `Next` give the at-most-one-connection
property. Two methods change the facts outside `Next`: `StartUdpConnection` starts the UDP
heartbeat on the first successful bind, and a failed UDP read (`UdpRead`, `UdpReceived`) stops it.

Files:
- `wrappers.dfy`: `Option`.
- `config.dfy`: the constants of Config.java.
- `java_strings.dfy`: the `String`/`Integer` operations used.
- `net.dfy`: interface values.
- `wifi_util.dfy`, `device_util.dfy`.
- `heartbeat_timer.dfy`.
- `heartbeat_policy.dfy`: the shared threshold rule and both channels' constants.
- `udp_socket.dfy`, `tcp_socket.dfy`, `socket_manager.dfy`.

Behaviour of the code worth knowing:
- A failed TCP connect does not clear the coordinator's `tcpSocket`, so every later discovery
  message is ignored (`Manager.HeldUntilTimeout`, `Manager.DiscoveryCycles`). This holds for a
  refused connect, reported as `CREATE_TCP_ERROR`, and for a port that is not a number
  (`Tcp.Attempt` gives `BadPort`), which reports nothing at all.
- On a successful connect the connect runnable calls `onSuccess` before it starts the reader
  and the heartbeat. `Manager.SocketManager.TcpConnectRuns` runs `OnSuccess` after
  `Tcp.TCPSocket.RunConnect` has started both; the listener touches only the UDPSocket and the
  coordinator, and the reader and heartbeat only the TCPSocket, so the end state is the same.
- The UDP keepalive value is `heartbreak`.
- A bind failure in `startUDPSocket` is swallowed and not reported.
- Starting the heartbeat timer again does not replace the scheduled task. It adds a second
  task and the first keeps running.
- The listener of a timer may be replaced at any time and takes effect on the next tick.
- The UDP loop hands every non-empty datagram's raw text to the listeners. JSON decoding
  happens only in `SocketManager`.

## Model

| member | source | states |
|---|---|---|
| JavaStrings.NatToDecimal | AppSocket/src/main/java/melo/com/androidsocket/utils/WifiUtil.java:73-74 | the decimal text of a non-negative int is a non-empty run of digits with no leading zero |
| JavaStrings.DecimalRoundTrip | AppSocket/src/main/java/melo/com/androidsocket/utils/WifiUtil.java:73-74 | reading back the decimal text of n gives n |
| JavaStrings.NatToDecimalInjective | AppSocket/src/main/java/melo/com/androidsocket/utils/WifiUtil.java:73-74 | different numbers have different decimal texts |
| JavaStrings.ParseJavaInt | AppSocket/src/main/java/melo/com/androidsocket/socket/tcp/TCPSocket.java:61 | Integer.valueOf accepts exactly an optional sign and then one or more digits whose signed value lies in the 32-bit int range |
| JavaStrings.ParseJavaIntSigned | AppSocket/src/main/java/melo/com/androidsocket/socket/tcp/TCPSocket.java:61 | Integer.valueOf takes one leading '+' or '-'; a doubled sign is rejected |
| JavaStrings.ParseJavaIntOutOfRange | AppSocket/src/main/java/melo/com/androidsocket/socket/tcp/TCPSocket.java:61 | text beyond the int range is rejected rather than wrapped |
| JavaStrings.ParseJavaIntRejectsNonDigit | AppSocket/src/main/java/melo/com/androidsocket/socket/tcp/TCPSocket.java:61 | any character other than a digit or a leading sign makes Integer.valueOf throw |
| JavaStrings.ZerosAddNothing | AppSocket/src/main/java/melo/com/androidsocket/socket/tcp/TCPSocket.java:61 | leading zeros do not change the value of a run of digits |
| JavaStrings.ParseJavaIntZeroPadded | AppSocket/src/main/java/melo/com/androidsocket/socket/tcp/TCPSocket.java:61 | zero-padded text such as "0080" reads as the plain number |
| JavaStrings.ParseJavaIntOfDecimal | AppSocket/src/main/java/melo/com/androidsocket/socket/tcp/TCPSocket.java:61 | Integer.valueOf of the decimal text of any n up to 2^31-1 gives n |
| JavaStrings.IndexOf | AppSocket/src/main/java/melo/com/androidsocket/utils/WifiUtil.java:107 | indexOf is -1 exactly when the char is absent, otherwise the position of its first occurrence |
| JavaStrings.SplitOn | AppSocket/src/main/java/melo/com/androidsocket/utils/DeviceUtil.java:417 | splitting gives at least one field and no field contains the separator |
| JavaStrings.JoinSplitOn | AppSocket/src/main/java/melo/com/androidsocket/utils/DeviceUtil.java:417 | joining the fields of a split with the separator gives the original string |
| JavaStrings.SplitOnJoin | AppSocket/src/main/java/melo/com/androidsocket/utils/DeviceUtil.java:417 | splitting a join of separator-free fields gives the fields back |
| JavaStrings.DropTrailingEmpty | AppSocket/src/main/java/melo/com/androidsocket/utils/DeviceUtil.java:417 | split keeps a prefix of the fields that ends in a non-empty field and drops only empty fields |
| JavaStrings.JavaSplit | AppSocket/src/main/java/melo/com/androidsocket/utils/DeviceUtil.java:417 | String.split on a one-character separator: no field holds the separator, text without it is one field, and the last field kept is never empty |
| WifiUtil.Octet | AppSocket/src/main/java/melo/com/androidsocket/utils/WifiUtil.java:73-74 | (i >> 8k) & 0xFF is below 256 |
| WifiUtil.IntToIp | AppSocket/src/main/java/melo/com/androidsocket/utils/WifiUtil.java:72-75 | intToIp writes 7 to 15 characters |
| WifiUtil.ByteDecimalLength | AppSocket/src/main/java/melo/com/androidsocket/utils/WifiUtil.java:73-74 | a byte value is written with one to three digits |
| WifiUtil.DottedQuadRoundTrip | AppSocket/src/main/java/melo/com/androidsocket/utils/WifiUtil.java:72-75 | four numbers written in decimal and joined by dots parse back to those numbers |
| WifiUtil.DecimalHasNoDot | AppSocket/src/main/java/melo/com/androidsocket/utils/WifiUtil.java:72-75 | a run of digits contains no dot, so the four octet texts cannot run together |
| WifiUtil.IntToIpParses | AppSocket/src/main/java/melo/com/androidsocket/utils/WifiUtil.java:72-75 | intToIp gives a dotted quad whose four fields are the octets, least significant first, each below 256 |
| WifiUtil.OctetsReassemble | AppSocket/src/main/java/melo/com/androidsocket/utils/WifiUtil.java:73-74 | the four octets weighted by their byte position add up to i modulo 2^32 |
| WifiUtil.IntToIpInjective | AppSocket/src/main/java/melo/com/androidsocket/utils/WifiUtil.java:72-75 | two ints with the same dotted quad are equal |
| WifiUtil.IntToIpAllOnes | AppSocket/src/main/java/melo/com/androidsocket/utils/WifiUtil.java:73-74 | -1 gives 255.255.255.255 |
| WifiUtil.IntToIpLittleEndian | AppSocket/src/main/java/melo/com/androidsocket/utils/WifiUtil.java:72-75 | 0x0100A8C0 gives 192.168.0.1: the low byte comes first |
| WifiUtil.QualifyingAddressesMembers | AppSocket/src/main/java/melo/com/androidsocket/utils/WifiUtil.java:102-115 | an address is a candidate exactly when it is on the interface, not loopback, and has no colon after index 0 |
| WifiUtil.CandidatesMembers | AppSocket/src/main/java/melo/com/androidsocket/utils/WifiUtil.java:96-117 | the candidates are exactly the qualifying addresses of interfaces whose display name starts with the name |
| WifiUtil.GetBroadcastAddress | AppSocket/src/main/java/melo/com/androidsocket/utils/WifiUtil.java:92-124 | the nested search answers the broadcast of the first candidate, or null when there is none, when its broadcast is null, or when the enumeration fails |
| WifiUtil.PreferredBroadcastAddress | AppSocket/src/main/java/melo/com/androidsocket/utils/WifiUtil.java:80-86 | a non-null p2p answer wins, and when p2p finds nothing the answer is wlan0's; any answer is the broadcast of a p2p or wlan0 candidate |
| WifiUtil.GetPreferredBroadcastAddress | AppSocket/src/main/java/melo/com/androidsocket/utils/WifiUtil.java:80-86 | the method asks p2p first and falls back to wlan0 only on null |
| DeviceUtil.Hex2 | AppSocket/src/main/java/melo/com/androidsocket/utils/DeviceUtil.java:219 | %02X gives two upper-case hex digits, no colon, whose value is the unsigned value of the signed byte |
| DeviceUtil.Hex2Injective | AppSocket/src/main/java/melo/com/androidsocket/utils/DeviceUtil.java:219 | different bytes give different hex pairs |
| DeviceUtil.MacTextShape | AppSocket/src/main/java/melo/com/androidsocket/utils/DeviceUtil.java:217-224 | for n >= 1 bytes the text has length 3n-1, byte k at 3k..3k+1, a colon after every byte except the last |
| DeviceUtil.MacTextInjective | AppSocket/src/main/java/melo/com/androidsocket/utils/DeviceUtil.java:217-224 | different MAC byte strings give different texts |
| DeviceUtil.ColonTerminatedIsMacText | AppSocket/src/main/java/melo/com/androidsocket/utils/DeviceUtil.java:217-223 | the builder after the append loop is the MAC text plus one trailing colon |
| DeviceUtil.MacTextAppend | AppSocket/src/main/java/melo/com/androidsocket/utils/DeviceUtil.java:218-220 | appending a byte adds a colon and its hex pair |
| DeviceUtil.FormatMac | AppSocket/src/main/java/melo/com/androidsocket/utils/DeviceUtil.java:217-224 | the append loop followed by deleting the last char yields the MAC text, and "" for no bytes |
| DeviceUtil.FirstNamedIsFirst | AppSocket/src/main/java/melo/com/androidsocket/utils/DeviceUtil.java:207-210 | the interface chosen is named wlan0 ignoring case and no earlier one is; none is chosen only when none is named so |
| DeviceUtil.GetWifiMacAddress | AppSocket/src/main/java/melo/com/androidsocket/utils/DeviceUtil.java:203-229 | the MAC text of the first wlan0 interface, "" for a null hardware address, no such interface or a failed enumeration |
| DeviceUtil.ShowhqRomVersion | AppSocket/src/main/java/melo/com/androidsocket/utils/DeviceUtil.java:413-423 | the shown version never contains '_', and is "hq" when the property is empty |
| DeviceUtil.ShowhqRomVersionField | AppSocket/src/main/java/melo/com/androidsocket/utils/DeviceUtil.java:413-423 | the third field is shown exactly when some field from the third on is non-empty, otherwise "hq" |
| DeviceUtil.ThirdOfSplit | AppSocket/src/main/java/melo/com/androidsocket/utils/DeviceUtil.java:417-418 | after split drops trailing empty fields, a third field remains exactly when some field from the third on is non-empty, and it is the third field |
| DeviceUtil.ShowhqRomVersionThirdPart | AppSocket/src/main/java/melo/com/androidsocket/utils/DeviceUtil.java:417-419 | "a_b_c" shows "c" |
| DeviceUtil.ShowhqRomVersionTrailingSeparator | AppSocket/src/main/java/melo/com/androidsocket/utils/DeviceUtil.java:416-422 | "a_b_" shows "hq", because split drops the trailing empty field |
| DeviceUtil.CpuNamesExactly | AppSocket/src/main/java/melo/com/androidsocket/utils/DeviceUtil.java:354 | cpu[0-9] accepts exactly the ten names cpu0 to cpu9 |
| DeviceUtil.CountCpuNamesIsSetSize | AppSocket/src/main/java/melo/com/androidsocket/utils/DeviceUtil.java:350-361 | the count of accepted entries of a listing without duplicates is the number of distinct accepted names |
| DeviceUtil.CpuCoresAtMostTen | AppSocket/src/main/java/melo/com/androidsocket/utils/DeviceUtil.java:345-365 | the core count is 1 when listing fails and never more than 10 |
| DeviceUtil.GetCPUNumCores | AppSocket/src/main/java/melo/com/androidsocket/utils/DeviceUtil.java:345-365 | the core count never exceeds the number of directory entries listed |
| DeviceUtil.GetDeviceId | AppSocket/src/main/java/melo/com/androidsocket/utils/DeviceUtil.java:46-48 | a null context gives "" |
| HeartbeatTimers.HeartbeatTimer.constructor | AppSocket/src/main/java/melo/com/androidsocket/utils/HeartbeatTimer.java:16-18 | a new Timer holds no tasks, is not cancelled and has no listener |
| HeartbeatTimers.HeartbeatTimer.StartTimer | AppSocket/src/main/java/melo/com/androidsocket/utils/HeartbeatTimer.java:20-30 | a new task is appended and becomes the current one; the previous tasks are not cancelled and stay live; a cancelled timer, negative delay or non-positive period schedules nothing |
| HeartbeatTimers.HeartbeatTimer.Exit | AppSocket/src/main/java/melo/com/androidsocket/utils/HeartbeatTimer.java:32-39 | only the current task is marked cancelled, the timer is cancelled, and no task dispatches afterwards; exiting again changes nothing more |
| HeartbeatTimers.HeartbeatTimer.SetOnScheduleListener | AppSocket/src/main/java/melo/com/androidsocket/utils/HeartbeatTimer.java:45-47 | every live task, including ones scheduled before, now dispatches to the new listener |
| HeartbeatTimers.HeartbeatTimer.Dispatch | AppSocket/src/main/java/melo/com/androidsocket/utils/HeartbeatTimer.java:21-29 | a cancelled timer and a task it never accepted call nothing; a call goes to the current listener from a task not cancelled |
| HeartbeatPolicy.Judge | AppSocket/src/main/java/melo/com/androidsocket/socket/udp/UDPSocket.java:216-234 | a peer is timed out exactly when silent beyond the timeout; with ordered thresholds nothing is sent exactly when silent no longer than the keepalive threshold |
| HeartbeatPolicy.PoliciesWellFormed | AppSocket/src/main/java/melo/com/androidsocket/socket/udp/UDPSocket.java:51-52 | for both channels period <= keepalive threshold < timeout threshold |
| HeartbeatPolicy.TcpSilentPeer | AppSocket/src/main/java/melo/com/androidsocket/socket/tcp/TCPSocket.java:125-145 | with a silent peer, TCP tick n is quiet for n <= 1, pings for 2 <= n <= 7 and times out from tick 8 |
| HeartbeatPolicy.UdpSilentPeer | AppSocket/src/main/java/melo/com/androidsocket/socket/udp/UDPSocket.java:216-234 | with a silent peer, UDP tick n is quiet for n <= 1, sends heartbreak for 2 <= n <= 24 and times out from tick 25 |
| Udp.DeliveriesMembers | AppSocket/src/main/java/melo/com/androidsocket/socket/udp/UDPSocket.java:178-184 | a listener is called with the text exactly when it is a registered non-null entry |
| Udp.DeliveriesInOrder | AppSocket/src/main/java/melo/com/androidsocket/socket/udp/UDPSocket.java:178-184 | the calls go to the non-null listeners, one each, in registration order |
| Udp.AllDeliveriesMembers | AppSocket/src/main/java/melo/com/androidsocket/socket/udp/UDPSocket.java:141-171 | over a run of datagrams, a listener call is made exactly when its text is one of the received texts and its listener is registered |
| Udp.NoBackToBackTimeouts | AppSocket/src/main/java/melo/com/androidsocket/socket/udp/UDPSocket.java:216-221 | after a timeout has reset the clock, no tick within the next 120 s times out again |
| Udp.UDPSocket.constructor | AppSocket/src/main/java/melo/com/androidsocket/socket/udp/UDPSocket.java:61-75 | no socket, packet, thread or timer; lastReceiveTime is the creation time; no listeners |
| Udp.UDPSocket.AddOnMessageReceiveListener | AppSocket/src/main/java/melo/com/androidsocket/socket/udp/UDPSocket.java:77-79 | the listener is appended, nothing else changes |
| Udp.UDPSocket.StartUDPSocket | AppSocket/src/main/java/melo/com/androidsocket/socket/udp/UDPSocket.java:104-119 | a no-op with a socket held; a bind failure leaves everything as it was; otherwise the socket is held, the packet made if missing, the loop running and the heartbeat started |
| Udp.UDPSocket.StartSocketThread | AppSocket/src/main/java/melo/com/androidsocket/socket/udp/UDPSocket.java:124-136 | the loop is marked running and the heartbeat started |
| Udp.UDPSocket.StartHeartbeatTimer | AppSocket/src/main/java/melo/com/androidsocket/socket/udp/UDPSocket.java:208-235 | the held timer is reused or a fresh one made; it gains one live task (0, 5000) dispatching to the UDP policy |
| Udp.UDPSocket.StopHeartbeatTimer | AppSocket/src/main/java/melo/com/androidsocket/socket/udp/UDPSocket.java:237-242 | the timer is exited and dropped so none of its tasks dispatch; with no timer nothing changes |
| Udp.UDPSocket.StopUDPSocket | AppSocket/src/main/java/melo/com/androidsocket/socket/udp/UDPSocket.java:186-203 | loop stopped, packet and socket dropped, timer exited and dropped; listeners and clock kept |
| Udp.UDPSocket.NotifyMessageReceive | AppSocket/src/main/java/melo/com/androidsocket/socket/udp/UDPSocket.java:178-184 | the calls are exactly the deliveries to the non-null listeners in order |
| Udp.UDPSocket.ReceiveOnce | AppSocket/src/main/java/melo/com/androidsocket/socket/udp/UDPSocket.java:143-169 | a failed receive stops the socket; any datagram sets lastReceiveTime; only a non-empty one reaches the listeners, after which the length is reset to 1024 |
| Udp.UDPSocket.ReceiveMessage | AppSocket/src/main/java/melo/com/androidsocket/socket/udp/UDPSocket.java:141-171 | the loop consumes receptions up to and including the first failure, leaves the clock at the last successful receive, and the listener calls it makes are, text by text, each non-empty text to every registered listener |
| Udp.UDPSocket.HeartbeatTick | AppSocket/src/main/java/melo/com/androidsocket/socket/udp/UDPSocket.java:212-233 | a live task judges now - lastReceiveTime: timeout resets the clock and sends nothing, keepalive sends one heartbreak, otherwise nothing |
| Tcp.Attempt | AppSocket/src/main/java/melo/com/androidsocket/socket/tcp/TCPSocket.java:161-179 | a non-numeric port fails before connecting; a held socket is reused; a fresh socket needs a port in 0..65535 and an accepting peer |
| Tcp.AttemptReusesSocket | AppSocket/src/main/java/melo/com/androidsocket/socket/tcp/TCPSocket.java:163-168 | with a socket held any numeric port connects to the held endpoint |
| Tcp.AttemptDecimalPort | AppSocket/src/main/java/melo/com/androidsocket/socket/tcp/TCPSocket.java:61 | a decimal port in range connects to exactly the announced endpoint when the peer accepts, and is refused otherwise |
| Tcp.TCPSocket.constructor | AppSocket/src/main/java/melo/com/androidsocket/socket/tcp/TCPSocket.java:47-55 | a pool, no socket, streams or timer; lastReceiveTime is the creation time, not the connect time |
| Tcp.TCPSocket.StartTcpSocket | AppSocket/src/main/java/melo/com/androidsocket/socket/tcp/TCPSocket.java:57-74 | one connect request is queued when the pool exists; a nulled pool queues nothing |
| Tcp.TCPSocket.SetOnConnectionStateListener | AppSocket/src/main/java/melo/com/androidsocket/socket/tcp/TCPSocket.java:76-78 | the listener is set, nothing else changes |
| Tcp.TCPSocket.RunConnect | AppSocket/src/main/java/melo/com/androidsocket/socket/tcp/TCPSocket.java:58-73 | the oldest request runs: bad port gives no callback; refusal gives onFailed(CREATE_TCP_ERROR) and no heartbeat; success gives onSuccess, a reader and a heartbeat (0, 2000) |
| Tcp.TCPSocket.StartTcpConnection | AppSocket/src/main/java/melo/com/androidsocket/socket/tcp/TCPSocket.java:161-179 | succeeds exactly when a socket is held or the port is in range and the peer accepts; on failure socket and streams are unchanged |
| Tcp.TCPSocket.StartReceiveTcpThread | AppSocket/src/main/java/melo/com/androidsocket/socket/tcp/TCPSocket.java:83-97 | one more reader is queued when the pool exists |
| Tcp.TCPSocket.StartHeartbeatTimer | AppSocket/src/main/java/melo/com/androidsocket/socket/tcp/TCPSocket.java:117-146 | the held timer is reused or a fresh one made; it gains one live task (0, 2000) dispatching to the TCP policy |
| Tcp.TCPSocket.HandleReceiveTcpMessage | AppSocket/src/main/java/melo/com/androidsocket/socket/tcp/TCPSocket.java:104-107 | a line sets lastReceiveTime to now, nothing else changes |
| Tcp.TCPSocket.ReceiveTcpLines | AppSocket/src/main/java/melo/com/androidsocket/socket/tcp/TCPSocket.java:84-96 | with open streams the clock ends at the last line's time; a closed reader changes nothing |
| Tcp.TCPSocket.StopHeartbeatTimer | AppSocket/src/main/java/melo/com/androidsocket/socket/tcp/TCPSocket.java:148-153 | the timer is exited and dropped so none of its tasks dispatch; with no timer nothing changes |
| Tcp.TCPSocket.StopTcpConnection | AppSocket/src/main/java/melo/com/androidsocket/socket/tcp/TCPSocket.java:181-201 | timer, pool and socket end null and the streams closed, whatever they were, so a second stop changes nothing |
| Tcp.TCPSocket.HeartbeatTick | AppSocket/src/main/java/melo/com/androidsocket/socket/tcp/TCPSocket.java:121-142 | a live task judges now - lastReceiveTime: timeout stops the channel then reports PING_TCP_TIMEOUT; keepalive writes one ping line; the dropped timer never fires again |
| Manager.Next | AppSocket/src/main/java/melo/com/androidsocket/socket/SocketManager.java:65-109 | only a connecting discovery makes a TCPSocket held, only PING_TCP_TIMEOUT releases one, onSuccess silences the UDP heartbeat and only PING_TCP_TIMEOUT restarts it |
| Manager.OneConnectionPerTimeout | AppSocket/src/main/java/melo/com/androidsocket/socket/SocketManager.java:84-109 | over any run of events, TCPSockets created <= heartbeat timeouts + 1 |
| Manager.HeldUntilTimeout | AppSocket/src/main/java/melo/com/androidsocket/socket/SocketManager.java:96-104 | once a TCPSocket is held, no discovery connects and it stays held until a PING_TCP_TIMEOUT, so CREATE_TCP_ERROR never releases it |
| Manager.IgnoredMessage | AppSocket/src/main/java/melo/com/androidsocket/socket/SocketManager.java:65-76 | text that is not JSON, or lacks a non-empty ip or port, changes nothing |
| Manager.RepeatedDiscovery | AppSocket/src/main/java/melo/com/androidsocket/socket/SocketManager.java:85 | delivering the same message again changes nothing more and connects nothing |
| Manager.ReconnectAfterTimeout | AppSocket/src/main/java/melo/com/androidsocket/socket/SocketManager.java:100-103 | after PING_TCP_TIMEOUT the UDP heartbeat runs and the next qualifying message connects once |
| Manager.DiscoveryCycles | AppSocket/src/main/java/melo/com/androidsocket/socket/SocketManager.java:84-106 | discovery, success, timeout, discovery creates two TCPSockets; discovery, CREATE_TCP_ERROR, discovery creates one |
| Manager.SocketManager.constructor | AppSocket/src/main/java/melo/com/androidsocket/socket/SocketManager.java:26-28 | no UDPSocket and no TCPSocket |
| Manager.SocketManager.StartUdpConnection | AppSocket/src/main/java/melo/com/androidsocket/socket/SocketManager.java:43-58 | the UDPSocket is made the first time only; one more forwarding listener is added on every call; the first successful bind leaves the receive loop running and the UDP heartbeat on, and otherwise the facts are unchanged |
| Manager.SocketManager.HandleUdpMessage | AppSocket/src/main/java/melo/com/androidsocket/socket/SocketManager.java:65-76 | connects exactly when ip and port are non-empty and no TCPSocket is held; the new TCPSocket has that one request queued; otherwise nothing changes, the held TCPSocket included |
| Manager.SocketManager.StartTcpConnection | AppSocket/src/main/java/melo/com/androidsocket/socket/SocketManager.java:84-109 | a TCPSocket is made, its request queued and its listener set only when none is held; a held TCPSocket is left untouched |
| Manager.SocketManager.OnSuccess | AppSocket/src/main/java/melo/com/androidsocket/socket/SocketManager.java:91-93 | the UDP heartbeat timer is exited and dropped; the UDPSocket's clock, client, loop, packet, listeners and sent log and the TCPSocket are untouched |
| Manager.SocketManager.OnFailed | AppSocket/src/main/java/melo/com/androidsocket/socket/SocketManager.java:96-105 | PING_TCP_TIMEOUT restarts the UDP heartbeat and drops the TCPSocket, leaving the UDPSocket's clock, client, loop, packet, listeners and sent log as they were; any other code changes nothing |
| Manager.SocketManager.UdpReceived | AppSocket/src/main/java/melo/com/androidsocket/socket/SocketManager.java:49-54 | one datagram reaches handleUdpMessage through every registered listener yet opens at most one connection |
| Manager.SocketManager.UdpRead | AppSocket/src/main/java/melo/com/androidsocket/socket/udp/UDPSocket.java:143-169 | a read leaves the coordinator's facts alone unless it fails; a received text yields one call per registered listener |
| Manager.SocketManager.Forward | AppSocket/src/main/java/melo/com/androidsocket/socket/SocketManager.java:49-54 | each delivered call forwards to handleUdpMessage; the facts move as for one discovery and at most the first call connects |
| Manager.SocketManager.UdpTick | AppSocket/src/main/java/melo/com/androidsocket/socket/SocketManager.java:91-93 | while the UDP heartbeat is suppressed no tick sends anything |
| Manager.SocketManager.TcpConnectRuns | AppSocket/src/main/java/melo/com/androidsocket/socket/SocketManager.java:89-105 | the event is the one Attempt gives (none for a bad port, CREATE_TCP_ERROR for a refusal, onSuccess for a connect) and it drives the coordinator: success suppresses the UDP heartbeat, CREATE_TCP_ERROR changes nothing |
| Manager.SocketManager.TcpTick | AppSocket/src/main/java/melo/com/androidsocket/socket/SocketManager.java:100-103 | a TCP timeout leaves the coordinator without a TCPSocket and the UDP heartbeat running, and the dropped TCPSocket inert |
| Manager.SocketManager.TcpLines | AppSocket/src/main/java/melo/com/androidsocket/socket/tcp/TCPSocket.java:89-90 | lines move only the held TCPSocket's clock |

## Left out

- Threads, thread pools, `java.util.Timer` threads and their interleavings. Each receive, pool runnable, tick and callback is one atomic event, and the timer period is not tied to the clock.
- The race in which the TCP listener is set after the connect runnable was queued. The model assumes the listener is set before the runnable runs.
- JSON encoding and decoding by org.json. A discovery text reaches the coordinator already decoded: not JSON, or the `optString` results for `ip` and `port`. Keepalives are fixed strings.
- The singletons (`SocketManager.getInstance`, `WifiUtil.getInstance`).
- `UDPSocket.createUser`, which is never called.
- `sendMessage`'s broadcast address lookup and packet construction. Sending is recorded in `sent`.
- Logging and `printStackTrace`.
- Executor `shutdown()` is recorded only as a TCP pool being nulled. Interrupting the UDP receive thread is left out.
- The Android and OS lookups in `DeviceUtil` and `WifiUtil` are inputs: telephony, `getprop`, the `/sys/devices/system/cpu/` listing, `WifiManager`, and the enumeration of network interfaces.
- The other `DeviceUtil` and `WifiUtil` members, which are Android glue.
- `WifiUtil.GetPreferredBroadcastAddress`: both searches see one snapshot of the interfaces, while the code enumerates them twice.
- `JavaStrings.ParseJavaInt`: the non-ASCII Unicode digits that `Integer.valueOf` also accepts are not modelled.
- `JavaStrings.EqualsIgnoreCase`: folds ASCII letters only, which is exact for the constant `wlan0` it is used with.
- `Udp.UDPSocket.HeartbeatTick`: the keepalive is recorded in `sent` even after `stopUDPSocket` has shut the UDP pool down, where `execute` would throw `RejectedExecutionException` on the timer thread.
- `Udp.UDPSocket.ReceiveOnce`: the datagram text is given. Truncation of a datagram to the packet's length field, the `client != null` check and an exception thrown by a listener are not modelled.
- `Tcp.TCPSocket.StartTcpConnection`: an exception from `setKeepAlive`, `setTcpNoDelay` or `setReuseAddress` after the socket was created is not modelled. It would leave the socket held and report failure.
- `Tcp.TCPSocket.StopTcpConnection`: an `IOException` from closing the reader or the writer is not modelled. It would skip the rest of the teardown.
- `Tcp.TCPSocket.HeartbeatTick`, `Manager.SocketManager.TcpTick`: a timeout tick is taken to complete. In the code, `stopTcpConnection` closes the `BufferedReader` (TCPSocket.java:184-186) while the reader thread may be blocked in `readLine()` (TCPSocket.java:89) holding the reader's lock, which is likely exactly when the peer is silent; the timer thread can then block in `close()` and never report `PING_TCP_TIMEOUT`, so the UDP heartbeat is not restarted and no reconnect follows. `Manager.ReconnectAfterTimeout` holds only for ticks that complete.
- `Tcp.TCPSocket.HeartbeatTick`: records the ping line in `written` and does not model `PrintWriter` errors.
- `now - lastReceiveTime` uses unbounded integers. Java `long` overflow is not modelled.
- Ticks of a `HeartbeatTimer` that the coordinator has already dropped are not coordinator events. Each dropped timer is proved cancelled, so none of its tasks dispatches again.
