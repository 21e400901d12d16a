/** DHCP messages and leases, as far as the protocol logic looks at them. */
module DhcpMessages {
  import opened Wrappers

  /** IPv4 addresses are 32-bit numbers; 0.0.0.0 is the unspecified one. */
  newtype Addr = x: int | 0 <= x < 0x1_0000_0000

  const UNSPECIFIED: Addr := 0

  type Mac = nat

  datatype Op = BootRequest | BootReply | OtherOp

  datatype Kind = Discover | Offer | Request | Ack | OtherKind

  datatype Message = Message(
    op: Op,
    kind: Kind,
    xid: int,
    chaddr: Mac,
    ciaddr: Addr,
    yiaddr: Addr,
    serverId: Option<Addr>,
    requestedIp: Option<Addr>)
}
