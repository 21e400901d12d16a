/**
 One DHCP server and any number of clients on a broadcast network.

 A message once sent stays in `net` and may be received by anybody, at any time, any number of
 times or never: that is delay, loss, duplication and reordering.  Clients are told apart by
 their MAC; no client draws a transaction id that another one has drawn.
 */
module DhcpSystem {
  import opened Wrappers
  import opened DhcpMessages
  import opened DhcpClientSpec
  import opened DhcpServerSpec

  /** Who has drawn which transaction id. */
  datatype Draw = Draw(xid: int, mac: Mac)

  datatype System = System(server: Server, clients: map<Mac, Client>, net: set<Message>, drawn: set<Draw>)

  datatype Action =
    | PowerOn(mac: Mac, xid: int)
    | Associate(mac: Mac, xid: int)
    | Fire(mac: Mac, timer: Timer, xid: int)
    | ToClient(mac: Mac, m: Message, xid: int)
    | ToServer(m: Message)

  /** The client exists (or not yet), the timer is pending, the message has been sent. */
  ghost predicate Applicable(s: System, a: Action) {
    match a
    case PowerOn(mac, _) => mac !in s.clients
    case Associate(mac, _) => mac in s.clients
    case Fire(mac, timer, _) => mac in s.clients && Pending(s.clients[mac], timer)
    case ToClient(mac, m, _) => mac in s.clients && m in s.net
    case ToServer(m) => m in s.net
  }

  function Sent(o: Option<Message>): set<Message> {
    match o
    case None => {}
    case Some(m) => {m}
  }

  /** What the handler of a client does in its turn. */
  ghost function Handler(s: System, a: Action): Outcome
    requires Applicable(s, a) && !a.ToServer?
  {
    match a
    case PowerOn(mac, xid) => Enter(Blank(mac), Init, xid)
    case Associate(mac, xid) => Enter(s.clients[mac], Init, xid)
    case Fire(mac, timer, xid) => OnTimer(Fired(s.clients[mac], timer), timer, xid)
    case ToClient(mac, m, xid) => OnMessage(s.clients[mac], m, xid)
  }

  /** A client draws a transaction id exactly when it sends a message. */
  ghost function Drawn(s: System, a: Action): set<Draw>
    requires Applicable(s, a)
  {
    if !a.ToServer? && Handler(s, a).Done? && Handler(s, a).sent.Some? then {Draw(a.xid, a.mac)} else {}
  }

  /** The id drawn has not been drawn by another client; the same client may draw it again. */
  ghost predicate Fresh(s: System, a: Action)
    requires Applicable(s, a)
  {
    forall d, e :: d in Drawn(s, a) && e in s.drawn && d.xid == e.xid ==> d.mac == e.mac
  }

  /** The next state of the system; none if a client dereferences its null lease. */
  ghost function Step(s: System, a: Action): Option<System>
    requires Applicable(s, a)
  {
    if a.ToServer? then
      var (server, reply) := Process(s.server, a.m);
      Some(s.(server := server, net := s.net + Sent(reply)))
    else
      match Handler(s, a)
      case NullLease => None
      case Done(c, sent) =>
        Some(s.(clients := s.clients[a.mac := c], net := s.net + Sent(sent), drawn := s.drawn + Drawn(s, a)))
  }

  ghost function Initial(config: Config): System {
    System(Server(config, map[]), map[], {}, {})
  }

  // ----- A client by itself -----

  /** Which timers are pending in which phase, and where a lease is at hand. */
  ghost predicate ClientOk(c: Client) {
    && 0 <= c.retries <= RETRY_MAX
    && (c.phase != Selecting ==> c.lease.Some?)
    && match c.phase
       case Idle => false
       case Init => false
       case Selecting => c.timeout == Some(WaitOffer) && !c.t1 && !c.t2
       case Requesting => c.timeout == Some(WaitAck) && !c.t1 && !c.t2
       case Bound => c.timeout == None && c.t1
       case Renewing => c.timeout == Some(WaitAck) && !c.t1
       case Rebinding => c.timeout == Some(WaitAck) && !c.t1 && !c.t2
  }

  lemma InitKeepsClientOk(c: Client, xid: int)
    requires 0 <= c.retries <= RETRY_MAX
    ensures Enter(c, Init, xid).Done? && ClientOk(Enter(c, Init, xid).client)
  {
  }

  lemma TimerKeepsClientOk(c: Client, t: Timer, xid: int)
    requires ClientOk(c) && Pending(c, t)
    ensures var o := OnTimer(Fired(c, t), t, xid); o.Done? && ClientOk(o.client)
  {
  }

  /** A message can harm a client only if it is an ACK for one that has no lease. */
  lemma MessageKeepsClientOk(c: Client, m: Message, xid: int)
    requires ClientOk(c)
    requires ForMe(c, m) && m.kind == Ack ==> c.lease.Some?
    ensures var o := OnMessage(c, m, xid); o.Done? && ClientOk(o.client)
  {
  }

  /** After a handler, the client's transaction is that of the message it sent, or still the old one. */
  ghost predicate Continues(before: Client, after: Client, sent: Option<Message>, xid: int) {
    && after.mac == before.mac
    && (before.lease.Some? ==> after.lease.Some?)
    && match sent
       case Some(m) =>
         && m.op == BootRequest && m.xid == after.xid == xid && m.chaddr == after.mac
         && (m.kind == Request ==> after.lease.Some?)
       case None => after.xid == before.xid
  }

  lemma TimerContinues(c: Client, t: Timer, xid: int)
    requires ClientOk(c) && Pending(c, t)
    ensures var o := OnTimer(Fired(c, t), t, xid);
      o.Done? && Continues(c, o.client, o.sent, xid) && o.client.lease == c.lease && o.client.address == c.address
  {
  }

  lemma MessageContinues(c: Client, m: Message, xid: int)
    requires ClientOk(c)
    requires ForMe(c, m) && m.kind == Ack ==> c.lease.Some?
    ensures var o := OnMessage(c, m, xid);
      && o.Done? && Continues(c, o.client, o.sent, xid)
      && (o.client.lease == c.lease || (ForMe(c, m) && m.kind == Offer && c.phase == Selecting
            && o.client.lease == Some(Lease(m.yiaddr, ServerIdOf(m)))))
      && (o.client.address == c.address || (c.lease.Some? && o.client.address == Some(c.lease.value.ip)))
  {
  }

  // ----- The restart that is only logged -----

  /** However often it has tried, a client goes back to discovering exactly when an offer is missing. */
  lemma OnlyMissingOffersRestart(c: Client, t: Timer, xid: int)
    requires ClientOk(c) && Pending(c, t)
    ensures var o := OnTimer(Fired(c, t), t, xid);
      o.Done? && (o.sent == Some(DiscoverMessage(c.mac, xid)) <==> t == Timeout(WaitOffer))
  {
  }

  /**
   When the retries are used up, a missing offer starts the client over, but a missing
   acknowledgement only sets the count back: phase and lease stay, and the request goes out again.
   */
  lemma RetriesExhausted(c: Client, w: Wait, xid: int)
    requires ClientOk(c) && Pending(c, Timeout(w)) && c.retries == RETRY_MAX
    ensures OnTimer(Fired(c, Timeout(w)), Timeout(w), xid) ==
      match w
      case WaitOffer =>
        Done(c.(xid := xid, retries := 0, timeout := Some(WaitOffer)), Some(DiscoverMessage(c.mac, xid)))
      case WaitAck =>
        Done(c.(xid := xid, retries := 0, t2 := c.t2 && c.phase == Renewing, timeout := Some(WaitAck)),
             Some(RequestMessage(c.mac, xid, c.phase, c.lease.value)))
  {
  }

  // ----- The invariant of the system -----

  /** What a reply in the network says: the table holds that address for that MAC, which asked for it. */
  ghost predicate ReplyOk(s: System, m: Message) {
    && IsLeaseOf(s.server.leased, m.chaddr, m.yiaddr)
    && (m.kind == Offer || m.kind == Ack)
    && exists r :: r in s.net && r.op == BootRequest && r.xid == m.xid && r.chaddr == m.chaddr
         && r.kind == if m.kind == Offer then Discover else Request
  }

  /** Requests carry ids that their senders have drawn, and are sent only with a lease at hand. */
  ghost predicate NetOk(s: System) {
    && (forall m :: m in s.net ==> m.op != OtherOp)
    && (forall m :: m in s.net && m.op == BootReply ==> ReplyOk(s, m))
    && (forall m :: m in s.net && m.op == BootRequest ==>
          && Draw(m.xid, m.chaddr) in s.drawn
          && (m.kind == Request ==> m.chaddr in s.clients && s.clients[m.chaddr].lease.Some?))
    && (forall d, e :: d in s.drawn && e in s.drawn && d.xid == e.xid ==> d.mac == e.mac)
  }

  /** The client has drawn its current id, and its lease and address are those of the table. */
  ghost predicate Knows(s: System, c: Client) {
    && Draw(c.xid, c.mac) in s.drawn
    && (c.lease.Some? ==> IsLeaseOf(s.server.leased, c.mac, c.lease.value.ip))
    && (c.address.Some? ==> IsLeaseOf(s.server.leased, c.mac, c.address.value))
  }

  ghost predicate Invariant(s: System) {
    && TableOk(s.server) && NetOk(s)
    && forall mac :: mac in s.clients ==>
         s.clients[mac].mac == mac && ClientOk(s.clients[mac]) && Knows(s, s.clients[mac])
  }

  lemma InitialInvariant(config: Config)
    requires ConfigOk(config)
    ensures Invariant(Initial(config))
  {
    assert Initial(config).server.leased.Keys == PoolPrefix(config, 0);
  }

  // ----- What a client may conclude from a reply -----

  /** A reply with the client's transaction id answers a message of its own; an ACK finds it with a lease. */
  lemma ReplyIsMine(s: System, mac: Mac, m: Message)
    requires Invariant(s) && mac in s.clients && m in s.net && ForMe(s.clients[mac], m)
    ensures m.chaddr == mac && IsLeaseOf(s.server.leased, mac, m.yiaddr)
    ensures m.kind == Ack ==> s.clients[mac].lease.Some?
  {
    assert ReplyOk(s, m);
    assert Draw(m.xid, m.chaddr) in s.drawn && Draw(s.clients[mac].xid, mac) in s.drawn;
  }

  /** An acknowledgement that a client accepts confirms exactly the address in the client's own lease. */
  lemma AcceptedAckConfirmsOwnLease(s: System, mac: Mac, m: Message)
    requires Invariant(s) && mac in s.clients && m in s.net && ForMe(s.clients[mac], m) && m.kind == Ack
    ensures m.chaddr == mac && s.clients[mac].lease.Some? && s.clients[mac].lease.value.ip == m.yiaddr
  {
    ReplyIsMine(s, mac, m);
  }

  /** The clients hold different addresses, on their interfaces and in their leases. */
  ghost predicate Apart(c: Client, d: Client) {
    && (c.address.Some? ==> c.address != d.address)
    && (c.lease.Some? && d.lease.Some? ==> c.lease.value.ip != d.lease.value.ip)
  }

  lemma NoSharedAddress(s: System, x: Mac, y: Mac)
    requires Invariant(s) && x in s.clients && y in s.clients && x != y
    ensures Apart(s.clients[x], s.clients[y])
  {
  }

  // ----- Every step keeps it -----

  /** A server that keeps its promises, and a reply to m that tells the truth, fit into the system. */
  lemma ReplyKeepsInvariant(s: System, server: Server, reply: Option<Message>, m: Message)
    requires Invariant(s) && m in s.net && m.op == BootRequest && TableOk(server)
    requires forall mac, a :: IsLeaseOf(s.server.leased, mac, a) ==> IsLeaseOf(server.leased, mac, a)
    requires reply.Some? ==>
      && reply.value.op == BootReply && reply.value.xid == m.xid && reply.value.chaddr == m.chaddr
      && ((m.kind == Discover && reply.value.kind == Offer) || (m.kind == Request && reply.value.kind == Ack))
      && IsLeaseOf(server.leased, m.chaddr, reply.value.yiaddr)
    ensures Invariant(s.(server := server, net := s.net + Sent(reply)))
  {
  }

  lemma ServerStepKeepsInvariant(s: System, m: Message)
    requires Invariant(s) && m in s.net
    ensures Invariant(Step(s, ToServer(m)).value)
  {
    if m.op == BootRequest {
      var (server, reply) := Process(s.server, m);
      ProcessKeepsTable(s.server, m);
      forall mac, a | IsLeaseOf(s.server.leased, mac, a)
        ensures IsLeaseOf(server.leased, mac, a)
      {
        ProcessKeepsAddresses(s.server, m, mac, a);
      }
      if reply.Some? {
        ReplyCarriesOwnLease(s.server, m);
      }
      ReplyKeepsInvariant(s, server, reply, m);
    } else {
      assert s.net + Sent(None) == s.net;
    }
  }

  /** A client that continues its transaction, with an address known to the table, fits into the system. */
  lemma ClientStepKeepsInvariant(s: System, mac: Mac, c: Client, sent: Option<Message>, drawn: set<Draw>)
    requires Invariant(s) && c.mac == mac && ClientOk(c)
    requires drawn == if sent.Some? then {Draw(c.xid, mac)} else {}
    requires forall d, e :: d in drawn && e in s.drawn && d.xid == e.xid ==> d.mac == e.mac
    requires sent.None? ==> mac in s.clients && c.xid == s.clients[mac].xid
    requires mac in s.clients && s.clients[mac].lease.Some? ==> c.lease.Some?
    requires sent.Some? ==>
      && sent.value.op == BootRequest && sent.value.xid == c.xid && sent.value.chaddr == mac
      && (sent.value.kind == Request ==> c.lease.Some?)
    requires c.lease.Some? ==> IsLeaseOf(s.server.leased, mac, c.lease.value.ip)
    requires c.address.Some? ==> IsLeaseOf(s.server.leased, mac, c.address.value)
    ensures Invariant(s.(clients := s.clients[mac := c], net := s.net + Sent(sent), drawn := s.drawn + drawn))
  {
  }

  lemma StepKeepsInvariant(s: System, a: Action)
    requires Invariant(s) && Applicable(s, a) && Fresh(s, a)
    ensures Step(s, a).Some? && Invariant(Step(s, a).value)
  {
    match a
    case ToServer(m) =>
      ServerStepKeepsInvariant(s, m);
    case PowerOn(mac, xid) =>
      InitKeepsClientOk(Blank(mac), xid);
      var o := Handler(s, a);
      ClientStepKeepsInvariant(s, mac, o.client, o.sent, Drawn(s, a));
    case Associate(mac, xid) =>
      InitKeepsClientOk(s.clients[mac], xid);
      var o := Handler(s, a);
      ClientStepKeepsInvariant(s, mac, o.client, o.sent, Drawn(s, a));
    case Fire(mac, timer, xid) =>
      TimerKeepsClientOk(s.clients[mac], timer, xid);
      TimerContinues(s.clients[mac], timer, xid);
      var o := Handler(s, a);
      ClientStepKeepsInvariant(s, mac, o.client, o.sent, Drawn(s, a));
    case ToClient(mac, m, xid) =>
      if ForMe(s.clients[mac], m) {
        ReplyIsMine(s, mac, m);
      }
      MessageKeepsClientOk(s.clients[mac], m, xid);
      MessageContinues(s.clients[mac], m, xid);
      var o := Handler(s, a);
      ClientStepKeepsInvariant(s, mac, o.client, o.sent, Drawn(s, a));
  }

  // ----- Runs -----

  /** The actions can be taken one after the other, and no client draws an id of another. */
  ghost predicate Legal(s: System, actions: seq<Action>)
    decreases |actions|
  {
    actions != [] ==>
      && Applicable(s, actions[0]) && Fresh(s, actions[0])
      && (Step(s, actions[0]).Some? ==> Legal(Step(s, actions[0]).value, actions[1..]))
  }

  /** The state they lead to; none if a client hits its null lease on the way. */
  ghost function Run(s: System, actions: seq<Action>): Option<System>
    requires Legal(s, actions)
    decreases |actions|
  {
    if actions == [] then Some(s)
    else if Step(s, actions[0]).None? then None
    else Run(Step(s, actions[0]).value, actions[1..])
  }

  lemma {:induction false} RunKeepsInvariant(s: System, actions: seq<Action>)
    requires Invariant(s) && Legal(s, actions)
    ensures Run(s, actions).Some? && Invariant(Run(s, actions).value)
    decreases |actions|
  {
    if actions == [] {
    } else {
      StepKeepsInvariant(s, actions[0]);
      RunKeepsInvariant(Step(s, actions[0]).value, actions[1..]);
    }
  }

  /**
   In every run no client dereferences a null lease, the lease table stays sound, every client
   has the timers of its phase pending, no two clients hold or lease the same address, and every
   acknowledgement that a client would accept confirms the address in the client's own lease.
   */
  lemma EveryRunIsSafe(config: Config, actions: seq<Action>)
    requires ConfigOk(config) && Legal(Initial(config), actions)
    ensures Run(Initial(config), actions).Some?
    ensures var s := Run(Initial(config), actions).value;
      && TableOk(s.server)
      && (forall x :: x in s.clients ==> ClientOk(s.clients[x]))
      && (forall x, y :: x in s.clients && y in s.clients && x != y ==> Apart(s.clients[x], s.clients[y]))
      && (forall x, m :: x in s.clients && m in s.net && ForMe(s.clients[x], m) && m.kind == Ack ==>
            s.clients[x].lease.Some? && s.clients[x].lease.value.ip == m.yiaddr)
  {
    InitialInvariant(config);
    RunKeepsInvariant(Initial(config), actions);
    var s := Run(Initial(config), actions).value;
    forall x, y | x in s.clients && y in s.clients && x != y
      ensures Apart(s.clients[x], s.clients[y])
    {
      NoSharedAddress(s, x, y);
    }
    forall x, m | x in s.clients && m in s.net && ForMe(s.clients[x], m) && m.kind == Ack
      ensures s.clients[x].lease.Some? && s.clients[x].lease.value.ip == m.yiaddr
    {
      AcceptedAckConfirmsOwnLease(s, x, m);
    }
  }

  /** Over whole runs, too, a MAC once given an address keeps it. */
  lemma {:induction false} RunKeepsAddresses(s: System, actions: seq<Action>, mac: Mac, a: Addr)
    requires Invariant(s) && Legal(s, actions) && IsLeaseOf(s.server.leased, mac, a)
    ensures Run(s, actions).Some? && IsLeaseOf(Run(s, actions).value.server.leased, mac, a)
    decreases |actions|
  {
    if actions == [] {
    } else {
      StepKeepsInvariant(s, actions[0]);
      if actions[0].ToServer? {
        ProcessKeepsAddresses(s.server, actions[0].m, mac, a);
      }
      RunKeepsAddresses(Step(s, actions[0]).value, actions[1..], mac, a);
    }
  }

  // ----- Why no client may draw the id of another -----

  /** s after an action that can be taken, whoever else has drawn its transaction id. */
  ghost predicate Leads(s: System, a: Action, t: System) {
    Applicable(s, a) && Step(s, a) == Some(t)
  }

  function Offered(config: Config): LeaseEntry {
    LeaseEntry(config.ipBegin, 1, 7, true)
  }

  /** A client that has sent its discover in transaction 7. */
  function Searching(mac: Mac): Client {
    Client(mac, Selecting, 7, 0, None, None, false, false, Some(WaitOffer))
  }

  /** A client that has accepted the offer of transaction 7 and sent its request in transaction 8. */
  function Tricked(config: Config, mac: Mac): Client {
    Client(mac, Requesting, 8, 0, Some(Lease(config.ipBegin, config.serverIp)), None, false, false, Some(WaitAck))
  }

  ghost predicate IsTrace(actions: seq<Action>, trace: seq<System>) {
    && |trace| == |actions| + 1
    && forall i :: 0 <= i < |actions| ==> Leads(trace[i], actions[i], trace[i + 1])
  }

  lemma TracesConcat(a: seq<Action>, ta: seq<System>, b: seq<Action>, tb: seq<System>)
    requires IsTrace(a, ta) && IsTrace(b, tb) && ta[|a|] == tb[0]
    ensures IsTrace(a + b, ta + tb[1..])
  {
    var c, t := a + b, ta + tb[1..];
    forall i | 0 <= i < |c|
      ensures Leads(t[i], c[i], t[i + 1])
    {
      if i < |a| {
        assert Leads(ta[i], a[i], ta[i + 1]);
      } else {
        assert Leads(tb[i - |a|], b[i - |a|], tb[i - |a| + 1]);
      }
    }
  }

  /** Two clients discover in transaction 7. */
  lemma ReusedIdsDiscover(config: Config) returns (actions: seq<Action>, trace: seq<System>)
    requires ConfigOk(config)
    ensures IsTrace(actions, trace) && |actions| == 2 && trace[0] == Initial(config)
    ensures Applicable(trace[1], actions[1]) && !Fresh(trace[1], actions[1])
    ensures trace[2].server == Server(config, map[]) && DiscoverMessage(1, 7) in trace[2].net
    ensures trace[2].clients == map[1 := Searching(1), 2 := Searching(2)]
  {
    var s0 := Initial(config);
    var s1 := Step(s0, PowerOn(1, 7)).value;
    var s2 := Step(s1, PowerOn(2, 7)).value;
    assert Draw(7, 1) in s1.drawn && Draw(7, 2) in Drawn(s1, PowerOn(2, 7));
    actions, trace := [PowerOn(1, 7), PowerOn(2, 7)], [s0, s1, s2];
  }

  /** One offer, to the first of them, is accepted by both. */
  lemma ReusedIdsShareAnOffer(config: Config, s2: System) returns (actions: seq<Action>, trace: seq<System>)
    requires config.clientNum > 0 && config.ipBegin != UNSPECIFIED
    requires s2.server == Server(config, map[]) && DiscoverMessage(1, 7) in s2.net
    requires s2.clients == map[1 := Searching(1), 2 := Searching(2)]
    ensures IsTrace(actions, trace) && |actions| == 3 && trace[0] == s2
    ensures trace[3].server == Server(config, map[config.ipBegin := Offered(config)])
    ensures trace[3].clients == map[1 := Tricked(config, 1), 2 := Tricked(config, 2)]
    ensures RequestMessage(1, 8, Requesting, Tricked(config, 1).lease.value) in trace[3].net
  {
    var discover, offer := DiscoverMessage(1, 7), OfferMessage(config, Offered(config));
    assert PoolAddress(config, 0) == config.ipBegin;
    assert LeaseByMac(s2.server.leased, 1) == None;
    var s3 := Step(s2, ToServer(discover)).value;
    assert offer in s3.net;
    var s4 := Step(s3, ToClient(1, offer, 8)).value;
    var s5 := Step(s4, ToClient(2, offer, 8)).value;
    actions := [ToServer(discover), ToClient(1, offer, 8), ToClient(2, offer, 8)];
    trace := [s2, s3, s4, s5];
  }

  /** One ACK, to the first of them, is accepted by both. */
  lemma ReusedIdsShareAnAck(config: Config, s5: System) returns (actions: seq<Action>, trace: seq<System>)
    requires config.ipBegin != UNSPECIFIED
    requires s5.server == Server(config, map[config.ipBegin := Offered(config)])
    requires s5.clients == map[1 := Tricked(config, 1), 2 := Tricked(config, 2)]
    requires RequestMessage(1, 8, Requesting, Tricked(config, 1).lease.value) in s5.net
    ensures IsTrace(actions, trace) && |actions| == 3 && trace[0] == s5
    ensures 1 in trace[3].clients && 2 in trace[3].clients
    ensures trace[3].clients[1].address == trace[3].clients[2].address == Some(config.ipBegin)
  {
    var request := RequestMessage(1, 8, Requesting, Tricked(config, 1).lease.value);
    var ack := AckMessage(config, Offered(config).(xid := 8));
    assert IsLeaseOf(s5.server.leased, 1, config.ipBegin);
    assert LeaseByMac(s5.server.leased, 1) == Some(config.ipBegin);
    var s6 := Step(s5, ToServer(request)).value;
    assert ack in s6.net;
    var s7 := Step(s6, ToClient(1, ack, 9)).value;
    var s8 := Step(s7, ToClient(2, ack, 9)).value;
    actions := [ToServer(request), ToClient(1, ack, 9), ToClient(2, ack, 9)];
    trace := [s5, s6, s7, s8];
  }

  /**
   When a client draws the id of another, it accepts the replies to the other, and both hold the
   same address: this run breaks the rule about ids in its second action, and breaks safety.
   */
  lemma ReusedIdsShareAnAddress(config: Config) returns (actions: seq<Action>, trace: seq<System>)
    requires ConfigOk(config) && config.clientNum > 0 && config.ipBegin != UNSPECIFIED
    ensures IsTrace(actions, trace) && |actions| == 8 && trace[0] == Initial(config)
    ensures Applicable(trace[1], actions[1]) && !Fresh(trace[1], actions[1])
    ensures 1 in trace[8].clients && 2 in trace[8].clients
    ensures trace[8].clients[1].address == trace[8].clients[2].address == Some(config.ipBegin)
  {
    var a, ta := ReusedIdsDiscover(config);
    var b, tb := ReusedIdsShareAnOffer(config, ta[2]);
    var c, tc := ReusedIdsShareAnAck(config, tb[3]);
    TracesConcat(a, ta, b, tb);
    TracesConcat(a + b, ta + tb[1..], c, tc);
    actions, trace := a + b + c, ta + tb[1..] + tc[1..];
  }
}
