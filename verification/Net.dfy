/** Addresses, bytes and routes: the value types the engine passes around. */
module Net {

  /** An unsigned 8-bit number; the bit operations of the source are written as arithmetic. */
  type byte = x: int | 0 <= x < 0x100

  type u16 = x: int | 0 <= x < 0x1_0000

  datatype Ipv4Addr = Ipv4Addr(o0: byte, o1: byte, o2: byte, o3: byte)

  function Octets(ip: Ipv4Addr): (r: seq<byte>)
    ensures |r| == 4 && r[0] == ip.o0 && r[1] == ip.o1 && r[2] == ip.o2 && r[3] == ip.o3
  {
    [ip.o0, ip.o1, ip.o2, ip.o3]
  }

  datatype SocketAddr =
    | V4(ip: Ipv4Addr, port: u16)
    | V6(host: seq<byte>, port: u16)

  datatype ConnectProtocol = UDP | TCP | WS | WSS

  datatype UseChannelType = Relay | P2p | All

  datatype RouteKey = RouteKey(protocol: ConnectProtocol, index: nat, addr: SocketAddr)

  /** A way to reach a peer: `metric` counts hops, `rt` is the measured round-trip time. */
  datatype Route = Route(protocol: ConnectProtocol, index: nat, addr: SocketAddr, metric: byte, rt: int) {
    function Key(): RouteKey {
      RouteKey(protocol, index, addr)
    }

    predicate IsP2p() {
      metric == 1
    }
  }

  /** The round-trip time of a route that has not been measured yet. */
  const DEFAULT_RT := 9999
}
