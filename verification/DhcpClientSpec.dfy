/** The DHCP client as a function from its state and an event to its next state and what it sends. */
module DhcpClientSpec {
  import opened Wrappers
  import opened DhcpMessages

  datatype Phase = Idle | Init | Selecting | Requesting | Bound | Renewing | Rebinding

  datatype Wait = WaitOffer | WaitAck

  datatype Timer = Timeout(wait: Wait) | T1 | T2

  datatype Lease = Lease(ip: Addr, serverId: Addr)

  /** t1, t2 and timeout tell which timers are pending; address is what the interface was configured with. */
  datatype Client = Client(
    mac: Mac,
    phase: Phase,
    xid: int,
    retries: int,
    lease: Option<Lease>,
    address: Option<Addr>,
    t1: bool,
    t2: bool,
    timeout: Option<Wait>)

  const RETRY_MAX := 10

  /** A handler either finishes, having sent at most one message, or dereferences the null lease. */
  datatype Outcome = Done(client: Client, sent: Option<Message>) | NullLease

  function DiscoverMessage(mac: Mac, xid: int): Message {
    Message(BootRequest, Discover, xid, mac, UNSPECIFIED, UNSPECIFIED, None, Some(UNSPECIFIED))
  }

  /** The request sent in phase p: it answers an offer, or extends the lease held. */
  function RequestMessage(mac: Mac, xid: int, p: Phase, lease: Lease): Message {
    if p == Requesting then
      Message(BootRequest, Request, xid, mac, UNSPECIFIED, UNSPECIFIED, Some(lease.serverId), Some(lease.ip))
    else
      Message(BootRequest, Request, xid, mac, lease.ip, UNSPECIFIED, None, None)
  }

  /** Entering a phase; xid is the transaction id drawn if a message is sent. */
  function Enter(c: Client, p: Phase, xid: int): Outcome {
    if p == Init then Discovering(c.(t1 := false, t2 := false), xid)
    else if p == Selecting then Discovering(c, xid)
    else if p == Idle then Done(c.(phase := Idle), None)
    else if c.lease.None? then NullLease
    else if p == Bound then
      Done(c.(phase := Bound, timeout := None, t1 := true, t2 := true, address := Some(c.lease.value.ip)), None)
    else
      var d := if p == Rebinding then c.(t1 := false, t2 := false) else c;
      Done(d.(phase := p, xid := xid, timeout := Some(WaitAck)), Some(RequestMessage(c.mac, xid, p, c.lease.value)))
  }

  function Discovering(c: Client, xid: int): Outcome {
    Done(c.(phase := Selecting, xid := xid, timeout := Some(WaitOffer)), Some(DiscoverMessage(c.mac, xid)))
  }

  predicate Pending(c: Client, t: Timer) {
    match t
    case Timeout(w) => c.timeout == Some(w)
    case T1 => c.t1
    case T2 => c.t2
  }

  /** The state in which the handler of a timer starts: that timer is no longer pending. */
  function Fired(c: Client, t: Timer): Client {
    match t
    case Timeout(_) => c.(timeout := None)
    case T1 => c.(t1 := false)
    case T2 => c.(t2 := false)
  }

  function SetRetries(o: Outcome, n: int): Outcome {
    match o
    case Done(c, sent) => Done(c.(retries := n), sent)
    case NullLease => NullLease
  }

  function OnTimer(c: Client, t: Timer, xid: int): Outcome {
    match t
    case Timeout(WaitOffer) =>
      if c.retries < RETRY_MAX then SetRetries(Enter(c, Selecting, xid), c.retries + 1)
      else Enter(c.(retries := 0), Init, xid)
    case Timeout(WaitAck) =>
      var d := c.(retries := if c.retries < RETRY_MAX then c.retries + 1 else 0);
      if c.phase == Requesting || c.phase == Renewing || c.phase == Rebinding then Enter(d, c.phase, xid)
      else Done(d, None)
    case T1 => Enter(c, Renewing, xid)
    case T2 => if c.phase == Renewing then Enter(c, Rebinding, xid) else Done(c, None)
  }

  function ServerIdOf(m: Message): Addr {
    if m.serverId.Some? then m.serverId.value else UNSPECIFIED
  }

  /** The client looks at nothing but the transaction id to tell whether a reply is meant for it. */
  predicate ForMe(c: Client, m: Message) {
    m.op == BootReply && m.xid == c.xid
  }

  function OnMessage(c: Client, m: Message, xid: int): Outcome {
    if !ForMe(c, m) || m.yiaddr == UNSPECIFIED then Done(c, None)
    else if m.kind == Offer && c.phase == Selecting then
      Enter(c.(lease := Some(Lease(m.yiaddr, ServerIdOf(m)))), Requesting, xid)
    else if m.kind == Ack then
      if c.lease.None? then NullLease else Enter(c, Bound, xid)
    else Done(c, None)
  }

  /** What initialisation leaves: an idle client, which is then sent to Init. */
  function Blank(mac: Mac): Client {
    Client(mac, Idle, 0, 0, None, None, false, false, None)
  }
}
