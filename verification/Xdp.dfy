/** Names shared by the XDP programs: verdicts, EtherTypes and protocol numbers. */
module Xdp {
  import opened Bytes

  type Mac = s: seq<byte> | |s| == 6 witness [0, 0, 0, 0, 0, 0]

  datatype Action = Aborted | Drop | Pass | Tx | Redirect

  const ETH_P_IP: u16 := 0x0800
  const ETH_P_8021Q: u16 := 0x8100
  const ETH_P_IPV6: u16 := 0x86DD
  const ETH_P_8021AD: u16 := 0x88A8

  const IPPROTO_ICMP: byte := 1
  const IPPROTO_ICMPV6: byte := 58

  const ICMP_ECHOREPLY: byte := 0
  const ICMP_ECHO: byte := 8
  const ICMPV6_ECHO_REQUEST: byte := 128
  const ICMPV6_ECHO_REPLY: byte := 129
}
