/** Network addresses. */
module Net {
  import opened Prelude

  type u16 = n: int | 0 <= n < 0x1_0000
  type Octets4 = s: seq<byte> | |s| == 4 witness [0, 0, 0, 0]
  type Octets16 = s: seq<byte> | |s| == 16 witness seq(16, _ => 0)

  datatype Ip = V4(v4: Octets4) | V6(v6: Octets16)
  datatype SocketAddr = SocketAddr(ip: Ip, port: u16)
  datatype Addr = IpAddr(ip: Ip) | Domain(name: string)

  /** 127.0.0.0/8 and ::1. */
  predicate IsLoopback(ip: Ip) {
    match ip
    case V4(o) => o[0] == 127
    case V6(o) => o == seq(15, _ => 0) + [1]
  }
}
