/** The DHCP server as a function from its lease table and a packet to the next table and its reply. */
module DhcpServerSpec {
  import opened Wrappers
  import opened DhcpMessages

  datatype LeaseEntry = LeaseEntry(ip: Addr, mac: Mac, xid: int, leased: bool)

  datatype Config = Config(serverIp: Addr, ipBegin: Addr, clientNum: nat)

  /** leased: the table, keyed by address. */
  datatype Server = Server(config: Config, leased: map<Addr, LeaseEntry>)

  /** The i-th address of the configured pool.  Address arithmetic is 32-bit. */
  function PoolAddress(config: Config, i: nat): Addr {
    ((config.ipBegin as int + i) % 0x1_0000_0000) as Addr
  }

  /** The number of clients is a 32-bit int, so the pool never wraps onto itself. */
  ghost predicate ConfigOk(config: Config) {
    config.clientNum < 0x8000_0000
  }

  /** getLeaseByMac: an address leased to mac. */
  ghost predicate IsLeaseOf(leased: map<Addr, LeaseEntry>, mac: Mac, a: Addr) {
    a in leased && leased[a].mac == mac
  }

  /** std::map keeps its keys in order. */
  ghost predicate IsLowest(addresses: set<Addr>, a: Addr) {
    a in addresses && forall b :: b in addresses ==> a <= b
  }

  lemma {:induction false} LowestExists(addresses: set<Addr>)
    requires addresses != {}
    ensures exists a :: IsLowest(addresses, a)
    decreases addresses
  {
    var x :| x in addresses;
    var rest := addresses - {x};
    if rest == {} {
      assert addresses == {x};
      assert IsLowest(addresses, x);
    } else {
      LowestExists(rest);
      var y :| IsLowest(rest, y);
      assert forall b :: b in addresses ==> b == x || b in rest;
      assert IsLowest(addresses, if x <= y then x else y);
    }
  }

  /** The table is walked in the order of its keys, so that the lowest address of mac is found. */
  ghost function LeaseByMac(leased: map<Addr, LeaseEntry>, mac: Mac): (r: Option<Addr>)
    ensures r.Some? ==> IsLeaseOf(leased, mac, r.value) && forall a :: IsLeaseOf(leased, mac, a) ==> r.value <= a
    ensures r.None? ==> forall a :: a in leased ==> leased[a].mac != mac
  {
    var held := set a | a in leased && leased[a].mac == mac;
    assert forall a :: a in leased && leased[a].mac == mac ==> a in held;
    if held == {} then None
    else
      LowestExists(held);
      var a :| IsLowest(held, a);
      Some(a)
  }

  /** getAvailableLease, from the i-th address of the pool on: the first one that is not leased. */
  function Available(config: Config, leased: map<Addr, LeaseEntry>, i: nat): Option<Addr>
    decreases config.clientNum - i
  {
    if i >= config.clientNum then None
    else
      var a := PoolAddress(config, i);
      if a in leased && leased[a].leased then Available(config, leased, i + 1) else Some(a)
  }

  function OfferMessage(config: Config, e: LeaseEntry): Message {
    Message(BootReply, Offer, e.xid, e.mac, UNSPECIFIED, e.ip, Some(config.serverIp), None)
  }

  function AckMessage(config: Config, e: LeaseEntry): Message {
    Message(BootReply, Ack, e.xid, e.mac, e.ip, e.ip, Some(config.serverIp), None)
  }

  /** The table entry after a discover from mac has been given address a. */
  function Granted(leased: map<Addr, LeaseEntry>, a: Addr, m: Message): LeaseEntry {
    LeaseEntry(if a in leased then leased[a].ip else a, m.chaddr, m.xid, true)
  }

  /** processPacket: the new server and its reply. */
  ghost function Process(s: Server, m: Message): (Server, Option<Message>) {
    if m.op != BootRequest then (s, None)
    else
      var known := LeaseByMac(s.leased, m.chaddr);
      if m.kind == Discover then
        if known.None? then
          match Available(s.config, s.leased, 0)
          case None => (s, None)
          case Some(a) =>
            var e := Granted(s.leased, a, m);
            (s.(leased := s.leased[a := e]), Some(OfferMessage(s.config, e)))
        else
          var e := s.leased[known.value].(xid := m.xid);
          (s.(leased := s.leased[known.value := e]), Some(OfferMessage(s.config, e)))
      else if m.kind == Request && known.Some? then
        var held := s.leased[known.value];
        // a request that answers our offer is treated like a renewal, save that `leased` is not set again
        var e := held.(xid := m.xid, leased := held.leased || m.serverId != Some(s.config.serverIp));
        (s.(leased := s.leased[known.value := e]), Some(AckMessage(s.config, e)))
      else (s, None)
  }

  // ----- What every packet keeps -----

  ghost function PoolPrefix(config: Config, k: nat): set<Addr> {
    set i: nat | i < k :: PoolAddress(config, i)
  }

  /**
   Every entry records its own key and is leased, no MAC has two addresses, and the leased
   addresses are the first ones of the pool.
   */
  ghost predicate TableOk(s: Server) {
    && ConfigOk(s.config)
    && (forall a :: a in s.leased ==> s.leased[a].ip == a && s.leased[a].leased)
    && (forall a, b :: a in s.leased && b in s.leased && s.leased[a].mac == s.leased[b].mac ==> a == b)
    && (exists k: nat :: k <= s.config.clientNum && s.leased.Keys == PoolPrefix(s.config, k))
  }

  /** The pool starts at the address configured and goes on one by one. */
  lemma PoolIsConsecutive(config: Config, i: nat)
    ensures PoolAddress(config, 0) == config.ipBegin
    ensures PoolAddress(config, i + 1) as int == (PoolAddress(config, i) as int + 1) % 0x1_0000_0000
  {
  }

  lemma PoolIsInjective(config: Config, i: nat, j: nat)
    requires ConfigOk(config) && i < j <= config.clientNum
    ensures PoolAddress(config, i) != PoolAddress(config, j)
  {
    var b := config.ipBegin as int;
    assert (b + i) / 0x1_0000_0000 * 0x1_0000_0000 + (b + i) % 0x1_0000_0000 == b + i;
    assert (b + j) / 0x1_0000_0000 * 0x1_0000_0000 + (b + j) % 0x1_0000_0000 == b + j;
  }

  /** Of a table that holds a full prefix of the pool, the next address is available. */
  lemma {:induction false} AvailableIsNext(s: Server, k: nat, i: nat)
    requires ConfigOk(s.config) && i <= k <= s.config.clientNum
    requires forall a :: a in s.leased ==> s.leased[a].leased
    requires s.leased.Keys == PoolPrefix(s.config, k)
    ensures Available(s.config, s.leased, i) ==
      if k == s.config.clientNum then None else Some(PoolAddress(s.config, k))
    ensures k < s.config.clientNum ==> PoolAddress(s.config, k) !in s.leased
    decreases k - i
  {
    if i < k {
      assert PoolAddress(s.config, i) in s.leased.Keys;
      AvailableIsNext(s, k, i + 1);
    } else if k < s.config.clientNum {
      forall j: nat | j < k
        ensures PoolAddress(s.config, j) != PoolAddress(s.config, k)
      {
        PoolIsInjective(s.config, j, k);
      }
    }
  }

  lemma NextPrefix(config: Config, k: nat)
    ensures PoolPrefix(config, k + 1) == PoolPrefix(config, k) + {PoolAddress(config, k)}
  {
  }

  lemma UpdateKeepsTable(s: Server, a: Addr, xid: int)
    requires TableOk(s) && a in s.leased
    ensures TableOk(s.(leased := s.leased[a := s.leased[a].(xid := xid)]))
  {
    var t := s.(leased := s.leased[a := s.leased[a].(xid := xid)]);
    assert t.leased.Keys == s.leased.Keys && t.config == s.config;
    assert forall b :: b in t.leased ==> t.leased[b] == s.leased[b].(xid := t.leased[b].xid);
  }

  lemma GrantKeepsTable(s: Server, k: nat, mac: Mac, xid: int)
    requires TableOk(s) && k < s.config.clientNum && s.leased.Keys == PoolPrefix(s.config, k)
    requires forall a :: a in s.leased ==> s.leased[a].mac != mac
    ensures var a := PoolAddress(s.config, k);
      TableOk(s.(leased := s.leased[a := LeaseEntry(a, mac, xid, true)]))
  {
    var a := PoolAddress(s.config, k);
    var t := s.(leased := s.leased[a := LeaseEntry(a, mac, xid, true)]);
    NextPrefix(s.config, k);
    assert t.leased.Keys == PoolPrefix(t.config, k + 1);
  }

  lemma ProcessKeepsTable(s: Server, m: Message)
    requires TableOk(s)
    ensures TableOk(Process(s, m).0)
  {
    var known := LeaseByMac(s.leased, m.chaddr);
    if known.Some? {
      UpdateKeepsTable(s, known.value, m.xid);
    } else {
      var k: nat :| k <= s.config.clientNum && s.leased.Keys == PoolPrefix(s.config, k);
      AvailableIsNext(s, k, 0);
      if k < s.config.clientNum {
        GrantKeepsTable(s, k, m.chaddr, m.xid);
      }
    }
  }

  /** A MAC once given an address keeps it forever. */
  lemma ProcessKeepsAddresses(s: Server, m: Message, mac: Mac, a: Addr)
    requires TableOk(s) && IsLeaseOf(s.leased, mac, a)
    ensures IsLeaseOf(Process(s, m).0.leased, mac, a)
  {
    var k: nat :| k <= s.config.clientNum && s.leased.Keys == PoolPrefix(s.config, k);
    AvailableIsNext(s, k, 0);
  }

  /** A reply carries the sender's transaction id, and the address that the table holds for the sender. */
  lemma ReplyCarriesOwnLease(s: Server, m: Message)
    requires TableOk(s) && Process(s, m).1.Some?
    ensures var (t, r) := Process(s, m);
      && m.op == BootRequest && r.value.op == BootReply
      && r.value.xid == m.xid && r.value.chaddr == m.chaddr
      && ((m.kind == Discover && r.value.kind == Offer) || (m.kind == Request && r.value.kind == Ack))
      && r.value.serverId == Some(s.config.serverIp)
      && IsLeaseOf(t.leased, m.chaddr, r.value.yiaddr)
  {
    var k: nat :| k <= s.config.clientNum && s.leased.Keys == PoolPrefix(s.config, k);
    AvailableIsNext(s, k, 0);
  }

  /** A discover goes unanswered exactly when its sender has no address and the whole pool is leased to others. */
  lemma DiscoverIsRefusedIffPoolIsFull(s: Server, m: Message)
    requires TableOk(s) && m.op == BootRequest && m.kind == Discover
    ensures Process(s, m).1.None? <==>
      && s.leased.Keys == PoolPrefix(s.config, s.config.clientNum)
      && forall a :: a in s.leased ==> s.leased[a].mac != m.chaddr
  {
    var k: nat :| k <= s.config.clientNum && s.leased.Keys == PoolPrefix(s.config, k);
    AvailableIsNext(s, k, 0);
    if k < s.config.clientNum {
      assert PoolAddress(s.config, k) in PoolPrefix(s.config, s.config.clientNum);
    }
  }

  /** A request is acknowledged exactly when its sender has an address. */
  lemma RequestIsAcknowledgedIffKnown(s: Server, m: Message)
    requires m.op == BootRequest && m.kind == Request
    ensures Process(s, m).1.Some? <==> exists a :: IsLeaseOf(s.leased, m.chaddr, a)
  {
  }
}
