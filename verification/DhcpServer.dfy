/** The server module: it updates its lease table in place, and is proved against DhcpServerSpec. */
module DhcpServer {
  import opened Wrappers
  import opened DhcpMessages
  import opened DhcpServerSpec

  class DHCPServer {
    const config: Config
    var leased: map<Addr, LeaseEntry>
    var replies: seq<Message>  // everything handed to the socket

    ghost function View(): Server
      reads this
    {
      Server(config, leased)
    }

    constructor (config: Config)
      requires ConfigOk(config)
      ensures View() == Server(config, map[]) && replies == [] && TableOk(View())
    {
      this.config := config;
      leased, replies := map[], [];
      new;
      assert leased.Keys == PoolPrefix(config, 0);
    }

    /** a is the lowest address that the table has for mac. */
    static ghost predicate Holds(table: map<Addr, LeaseEntry>, mac: Mac, a: Addr) {
      && a in table && table[a].mac == mac
      && forall b :: b in table && table[b].mac == mac ==> a <= b
    }

    static ghost predicate IsKnown(table: map<Addr, LeaseEntry>, mac: Mac) {
      exists a :: a in table && table[a].mac == mac
    }

    static ghost predicate IsFree(table: map<Addr, LeaseEntry>, a: Addr) {
      a in table ==> !table[a].leased
    }

    /** a is the first address of the pool that is not leased. */
    ghost predicate IsFirstFree(table: map<Addr, LeaseEntry>, a: Addr) {
      exists i: nat ::
        && i < config.clientNum && a == PoolAddress(config, i) && IsFree(table, a)
        && forall j: nat :: j < i ==> !IsFree(table, PoolAddress(config, j))
    }

    ghost predicate IsExhausted(table: map<Addr, LeaseEntry>) {
      forall i: nat :: i < config.clientNum ==> !IsFree(table, PoolAddress(config, i))
    }

    /** Walks over the table in the order of its keys, to the first entry of mac. */
    method GetLeaseByMac(mac: Mac) returns (r: Option<Addr>)
      ensures r == LeaseByMac(leased, mac)
      ensures r.Some? ==> Holds(leased, mac, r.value)
      ensures r.None? ==> forall a :: a in leased ==> leased[a].mac != mac
    {
      var rest := leased.Keys;
      while rest != {}
        invariant rest <= leased.Keys
        invariant forall a :: a in leased && a !in rest ==> leased[a].mac != mac
        invariant forall a, b :: a in leased && a !in rest && b in rest ==> a <= b
        decreases |rest|
      {
        LowestExists(rest);
        var a :| a in rest && forall b :: b in rest ==> a <= b;
        if leased[a].mac == mac {
          assert IsLeaseOf(leased, mac, a);
          return Some(a);
        }
        rest := rest - {a};
      }
      return None;
    }

    /** The first address of the pool that is not leased, entered into the table if it is not there. */
    method GetAvailableLease() returns (r: Option<Addr>)
      modifies this`leased
      ensures r == Available(config, old(leased), 0)
      ensures leased == if r.Some? && r.value !in old(leased)
                        then old(leased)[r.value := LeaseEntry(r.value, 0, 0, false)] else old(leased)
      ensures match r
              case None => IsExhausted(old(leased))
              case Some(a) => IsFirstFree(old(leased), a)
    {
      for i := 0 to config.clientNum
        invariant forall j: nat :: j < i ==> !IsFree(old(leased), PoolAddress(config, j))
        invariant Available(config, leased, 0) == Available(config, leased, i)
        invariant leased == old(leased)
      {
        var ip := PoolAddress(config, i);
        if ip in leased {
          if !leased[ip].leased {
            return Some(ip);
          }
        } else {
          leased := leased[ip := LeaseEntry(ip, 0, 0, false)];
          return Some(ip);
        }
      }
      return None;
    }

    /** A reply of this server, in the transaction and to the client of e, that carries its address. */
    ghost predicate IsReply(m: Message, kind: Kind, ciaddr: Addr, e: LeaseEntry) {
      && m.op == BootReply && m.kind == kind && m.xid == e.xid && m.chaddr == e.mac
      && m.ciaddr == ciaddr && m.yiaddr == e.ip
      && m.serverId == Some(config.serverIp) && m.requestedIp == None
    }

    /** e is now the entry at a, nothing else has changed, and this was the only reply. */
    ghost predicate HasAnswered(kind: Kind, a: Addr, e: LeaseEntry, table: map<Addr, LeaseEntry>, was: seq<Message>)
      reads this
    {
      && leased == table[a := e]
      && |replies| == |was| + 1 && was <= replies
      && IsReply(replies[|was|], kind, if kind == Ack then e.ip else UNSPECIFIED, e)
    }

    method SendOffer(a: Addr)
      requires a in leased
      modifies this`replies
      ensures replies == old(replies) + [OfferMessage(config, leased[a])]
      ensures |replies| == |old(replies)| + 1 && IsReply(replies[|old(replies)|], Offer, UNSPECIFIED, leased[a])
    {
      var e := leased[a];
      replies := replies + [Message(BootReply, Offer, e.xid, e.mac, UNSPECIFIED, e.ip, Some(config.serverIp), None)];
    }

    method SendACK(a: Addr)
      requires a in leased
      modifies this`replies
      ensures replies == old(replies) + [AckMessage(config, leased[a])]
      ensures |replies| == |old(replies)| + 1 && IsReply(replies[|old(replies)|], Ack, leased[a].ip, leased[a])
    {
      var e := leased[a];
      replies := replies + [Message(BootReply, Ack, e.xid, e.mac, e.ip, e.ip, Some(config.serverIp), None)];
    }

    method ProcessPacket(m: Message)
      modifies this`leased, this`replies
      ensures var (s, reply) := Process(old(View()), m);
        View() == s && replies == old(replies) + (if reply.Some? then [reply.value] else [])
      ensures TableOk(old(View())) ==> TableOk(View())
      ensures if m.op == BootRequest && m.kind == Discover then HandlesDiscover(m, old(leased), old(replies))
              else if m.op == BootRequest && m.kind == Request then HandlesRequest(m, old(leased), old(replies))
              else leased == old(leased) && replies == old(replies)
    {
      if TableOk(View()) {
        ProcessKeepsTable(View(), m);
      }
      if m.op == BootRequest {
        if m.kind == Discover {
          ProcessDiscover(m);
        } else if m.kind == Request {
          ProcessRequest(m);
        }
      }
    }

    /**
     A client that is known is offered the address it has. Another one is offered the first free
     address of the pool, which is leased to it at once; if there is none, nothing happens.
     */
    ghost predicate HandlesDiscover(m: Message, table: map<Addr, LeaseEntry>, was: seq<Message>)
      reads this
    {
      if IsKnown(table, m.chaddr) then
        forall a :: Holds(table, m.chaddr, a) ==> HasAnswered(Offer, a, table[a].(xid := m.xid), table, was)
      else if IsExhausted(table) then
        leased == table && replies == was
      else
        exists a :: IsFirstFree(table, a) &&
          var ip := if a in table then table[a].ip else a;
          HasAnswered(Offer, a, LeaseEntry(ip, m.chaddr, m.xid, true), table, was)
    }

    method ProcessDiscover(m: Message)
      requires m.op == BootRequest && m.kind == Discover
      modifies this`leased, this`replies
      ensures var (s, reply) := Process(old(View()), m);
        View() == s && replies == old(replies) + (if reply.Some? then [reply.value] else [])
      ensures HandlesDiscover(m, old(leased), old(replies))
    {
      var known := GetLeaseByMac(m.chaddr);
      if known.None? {
        var free := GetAvailableLease();
        if free.Some? {
          var a := free.value;
          leased := leased[a := leased[a].(mac := m.chaddr, xid := m.xid, leased := true)];
          SendOffer(a);
        }
      } else {
        var a := known.value;
        leased := leased[a := leased[a].(xid := m.xid)];
        SendOffer(a);
      }
    }

    /**
     A client that is known has its address confirmed; its entry is marked as leased unless the
     request answers an offer of this server. A request of any other client has no effect.
     */
    ghost predicate HandlesRequest(m: Message, table: map<Addr, LeaseEntry>, was: seq<Message>)
      reads this
    {
      if IsKnown(table, m.chaddr) then
        forall a :: Holds(table, m.chaddr, a) ==>
          var marked := if m.serverId == Some(config.serverIp) then table[a].leased else true;
          HasAnswered(Ack, a, table[a].(xid := m.xid, leased := marked), table, was)
      else
        leased == table && replies == was
    }

    method ProcessRequest(m: Message)
      requires m.op == BootRequest && m.kind == Request
      modifies this`leased, this`replies
      ensures var (s, reply) := Process(old(View()), m);
        View() == s && replies == old(replies) + (if reply.Some? then [reply.value] else [])
      ensures HandlesRequest(m, old(leased), old(replies))
    {
      var known := GetLeaseByMac(m.chaddr);
      if m.serverId == Some(config.serverIp) {
        if known.Some? {
          var a := known.value;
          leased := leased[a := leased[a].(xid := m.xid)];
          SendACK(a);
        }
      } else {
        if known.Some? {
          var a := known.value;
          leased := leased[a := leased[a].(xid := m.xid, leased := true)];
          SendACK(a);
        }
      }
    }
  }
}
