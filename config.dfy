/** Constants shared by the sockets (common/Config.java). */
module Config {
  /** JSON keys and keepalive values. "heartbreak" is the spelling the program uses. */
  const Msg := "msg"
  const Heartbreak := "heartbreak"
  const Ping := "ping"

  /** Error codes passed to OnConnectionStateListener.onFailed. */
  const CreateTcpError := 1
  const PingTcpTimeout := 2

  /** The keepalive texts as org.json renders {msg: heartbreak} and {msg: ping}. */
  const HeartbreakMessage := "{\"" + Msg + "\":\"" + Heartbreak + "\"}"
  const PingMessage := "{\"" + Msg + "\":\"" + Ping + "\"}"
}
