/**
 * What java.net.NetworkInterface.getNetworkInterfaces() enumerates, as values: the
 * utilities read each interface's name, display name, hardware address and
 * interface addresses, in enumeration order.
 */
module Net {
  import opened Wrappers

  /** A Java byte: a signed 8-bit value. */
  type JByte = b: int | -128 <= b < 128

  /** InetAddress: its textual form (getHostAddress) and whether it is a loopback address. */
  datatype InetAddress = InetAddress(hostAddress: string, isLoopback: bool)

  /** InterfaceAddress: the address and its broadcast address (null for IPv6 and point-to-point links). */
  datatype InterfaceAddress = InterfaceAddress(address: InetAddress, broadcast: Option<InetAddress>)

  datatype NetworkInterface = NetworkInterface(
    name: string,
    displayName: string,
    hardwareAddress: Option<seq<JByte>>,
    addresses: seq<InterfaceAddress>)
}
