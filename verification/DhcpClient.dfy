/** The client module: its handlers update the client's fields, and are proved against DhcpClientSpec. */
module DhcpClient {
  import opened Wrappers
  import opened DhcpMessages
  import opened DhcpClientSpec

  class DHCPClient {
    const mac: Mac
    var phase: Phase
    var xid: int
    var retryCount: int
    var lease: Option<Lease>
    var address: Option<Addr>  // of the interface being configured
    var timerT1: bool          // whether the timer is pending
    var timerT2: bool
    var timerTO: Option<Wait>
    var sent: seq<Message>     // everything handed to the socket

    ghost function View(): Client
      reads this
    {
      Client(mac, phase, xid, retryCount, lease, address, timerT1, timerT2, timerTO)
    }

    /** The outcome of a handler that started in state c, having sent old already. */
    ghost predicate Matches(o: Outcome, was: seq<Message>, ok: bool)
      reads this
    {
      match o
      case NullLease => !ok
      case Done(c, None) => ok && View() == c && sent == was
      case Done(c, Some(m)) => ok && View() == c && sent == was + [m]
    }

    /** Initialisation ends by sending the client to Init, which broadcasts a discover. */
    constructor (mac: Mac, freshXid: int)
      ensures Enter(Blank(mac), Init, freshXid) == Done(View(), Some(DiscoverMessage(mac, freshXid)))
      ensures sent == [DiscoverMessage(mac, freshXid)]
      ensures HasDiscovered([]) && xid == freshXid && lease == None && address == None && retryCount == 0
      ensures !timerT1 && !timerT2
    {
      this.mac := mac;
      phase, xid, retryCount := Idle, 0, 0;
      lease, address := None, None;
      timerT1, timerT2, timerTO := false, false, None;
      sent := [];
      new;
      var ok := ChangeFSMState(Init, freshXid);
    }

    /** A broadcast of this client, in its current transaction, that asks for any address. */
    ghost predicate IsDiscover(m: Message)
      reads this`xid
    {
      && m.op == BootRequest && m.kind == Discover && m.xid == xid && m.chaddr == mac
      && m.ciaddr == UNSPECIFIED && m.yiaddr == UNSPECIFIED
      && m.serverId == None && m.requestedIp == Some(UNSPECIFIED)
    }

    /**
     A request of this client, in its current transaction, for the address of the lease. While it
     answers an offer it names the server and the address wanted and claims none; while it extends
     a lease it claims the address and names neither (section 4.3.2 of RFC 2131).
     */
    ghost predicate IsRequestFor(m: Message, wanted: Lease)
      reads this`xid, this`phase
    {
      && m.op == BootRequest && m.kind == Request && m.xid == xid && m.chaddr == mac && m.yiaddr == UNSPECIFIED
      && (phase == Requesting ==>
            m.ciaddr == UNSPECIFIED && m.serverId == Some(wanted.serverId) && m.requestedIp == Some(wanted.ip))
      && (phase == Renewing || phase == Rebinding ==>
            m.ciaddr == wanted.ip && m.serverId == None && m.requestedIp == None)
    }

    /** The client waits for an offer, having sent a discover after the messages in was. */
    ghost predicate HasDiscovered(was: seq<Message>)
      reads this
    {
      && phase == Selecting && timerTO == Some(WaitOffer)
      && |sent| == |was| + 1 && was <= sent && IsDiscover(sent[|was|])
    }

    /** The client waits for an acknowledgement, having sent a request after the messages in was. */
    ghost predicate HasRequested(p: Phase, wanted: Lease, was: seq<Message>)
      reads this
    {
      && phase == p && lease == Some(wanted) && timerTO == Some(WaitAck)
      && |sent| == |was| + 1 && was <= sent && IsRequestFor(sent[|was|], wanted)
    }

    method SendDiscover(freshXid: int)
      modifies this`xid, this`sent
      ensures xid == freshXid && sent == old(sent) + [DiscoverMessage(mac, freshXid)]
      ensures |sent| == |old(sent)| + 1 && IsDiscover(sent[|old(sent)|])
    {
      xid := freshXid;
      sent := sent + [Message(BootRequest, Discover, xid, mac, UNSPECIFIED, UNSPECIFIED, None, Some(UNSPECIFIED))];
    }

    /** Fails where the source dereferences a null lease. */
    method SendRequest(freshXid: int) returns (ok: bool)
      requires phase == Requesting || phase == Renewing || phase == Rebinding
      modifies this`xid, this`sent
      ensures ok <==> lease.Some?
      ensures ok ==> xid == freshXid && sent == old(sent) + [RequestMessage(mac, freshXid, phase, lease.value)]
      ensures ok ==> |sent| == |old(sent)| + 1 && IsRequestFor(sent[|old(sent)|], lease.value)
    {
      xid := freshXid;
      if lease.None? {
        return false;
      }
      var request := Message(BootRequest, Request, xid, mac, UNSPECIFIED, UNSPECIFIED, None, None);
      if phase == Requesting {
        request := request.(serverId := Some(lease.value.serverId), requestedIp := Some(lease.value.ip));
      } else if phase == Renewing {
        request := request.(ciaddr := lease.value.ip);
      } else if phase == Rebinding {
        request := request.(ciaddr := lease.value.ip);
      }
      sent := sent + [request];
      return true;
    }

    method ChangeFSMState(newPhase: Phase, freshXid: int) returns (ok: bool)
      modifies this`phase, this`xid, this`address, this`timerT1, this`timerT2, this`timerTO, this`sent
      ensures Matches(Enter(old(View()), newPhase, freshXid), old(sent), ok)
      decreases newPhase == Init
    {
      ok := true;
      phase := newPhase;
      if newPhase == Init {
        timerT1, timerT2, timerTO := false, false, None;
        ok := ChangeFSMState(Selecting, freshXid);
      }
      if newPhase == Selecting {
        SendDiscover(freshXid);
        timerTO := Some(WaitOffer);
      }
      if newPhase == Requesting {
        ok := SendRequest(freshXid);
        timerTO := Some(WaitAck);
      }
      if newPhase == Bound {
        timerTO := None;
        if lease.None? {
          return false;
        }
        timerT1, timerT2 := true, true;
        address := Some(lease.value.ip);
      }
      if newPhase == Renewing {
        ok := SendRequest(freshXid);
        timerTO := Some(WaitAck);
      }
      if newPhase == Rebinding {
        timerT1, timerT2, timerTO := false, false, None;
        ok := SendRequest(freshXid);
        timerTO := Some(WaitAck);
      }
    }

    /** An acknowledgement is missing: the request goes out again in the same phase, however often that was tried. */
    method RequestAgain(freshXid: int) returns (ok: bool)
      requires timerTO == None
      modifies this
      ensures Matches(OnTimer(old(View()), Timeout(WaitAck), freshXid), old(sent), ok)
      ensures old(phase) in {Requesting, Renewing, Rebinding} && old(lease).Some? ==>
        && ok && HasRequested(old(phase), old(lease).value, old(sent)) && xid == freshXid
        && retryCount == (if old(retryCount) < RETRY_MAX then old(retryCount) + 1 else 0)
        && timerT1 == (old(timerT1) && old(phase) != Rebinding) && timerT2 == (old(timerT2) && old(phase) != Rebinding)
      ensures ok ==> address == old(address) && lease == old(lease)
    {
      ok := true;
      if retryCount < RETRY_MAX {
        retryCount := retryCount + 1;
      } else {
        retryCount := 0;
      }
      if phase == Requesting {
        ok := ChangeFSMState(Requesting, freshXid);
      } else if phase == Renewing {
        ok := ChangeFSMState(Renewing, freshXid);
      } else if phase == Rebinding {
        ok := ChangeFSMState(Rebinding, freshXid);
      }
    }

    /** A timer goes off: the kernel takes it off its schedule, then the client handles it. */
    method HandleTimer(t: Timer, freshXid: int) returns (ok: bool)
      requires Pending(View(), t)
      modifies this
      ensures Matches(OnTimer(Fired(old(View()), t), t, freshXid), old(sent), ok)
      // a missing offer: discover again, from scratch if the retries are used up
      ensures t == Timeout(WaitOffer) ==> ok && HasDiscovered(old(sent)) && xid == freshXid && lease == old(lease)
      ensures t == Timeout(WaitOffer) ==>
        if old(retryCount) < RETRY_MAX
        then retryCount == old(retryCount) + 1 && timerT1 == old(timerT1) && timerT2 == old(timerT2)
        else retryCount == 0 && !timerT1 && !timerT2
      // a missing acknowledgement: request again in the same phase
      ensures t == Timeout(WaitAck) && old(phase) in {Requesting, Renewing, Rebinding} && old(lease).Some? ==>
        && ok && HasRequested(old(phase), old(lease).value, old(sent)) && xid == freshXid
        && retryCount == (if old(retryCount) < RETRY_MAX then old(retryCount) + 1 else 0)
        && timerT1 == (old(timerT1) && old(phase) != Rebinding) && timerT2 == (old(timerT2) && old(phase) != Rebinding)
      // T1: renew; T2: rebind if the renewal is still unanswered
      ensures t == T1 && old(lease).Some? ==>
        && ok && HasRequested(Renewing, old(lease).value, old(sent)) && xid == freshXid
        && !timerT1 && timerT2 == old(timerT2) && retryCount == old(retryCount)
      ensures t == T2 && old(phase) == Renewing && old(lease).Some? ==>
        && ok && HasRequested(Rebinding, old(lease).value, old(sent)) && xid == freshXid
        && !timerT1 && !timerT2 && retryCount == old(retryCount)
      ensures t == T2 && old(phase) != Renewing ==>
        ok && View() == old(View()).(t2 := false) && sent == old(sent)
      ensures ok ==> address == old(address) && lease == old(lease)
    {
      ok := true;
      match t {
        case Timeout(wait) =>
          timerTO := None;
          if wait == WaitOffer {
            if retryCount < RETRY_MAX {
              ok := ChangeFSMState(Selecting, freshXid);
              retryCount := retryCount + 1;
            } else {
              retryCount := 0;
              ok := ChangeFSMState(Init, freshXid);
            }
          } else {
            ok := RequestAgain(freshXid);
          }
        case T1 =>
          timerT1 := false;
          ok := ChangeFSMState(Renewing, freshXid);
        case T2 =>
          timerT2 := false;
          if phase == Renewing {
            ok := ChangeFSMState(Rebinding, freshXid);
          }
      }
    }

    /** A reply in the given transaction that carries an address. */
    static ghost predicate IsForMe(m: Message, transaction: int) {
      m.op == BootReply && m.xid == transaction && m.yiaddr != UNSPECIFIED
    }

    method HandleDHCPMessage(m: Message, freshXid: int) returns (ok: bool)
      modifies this
      ensures Matches(OnMessage(old(View()), m, freshXid), old(sent), ok)
      // an offer for a selecting client becomes its lease, and is requested
      ensures IsForMe(m, old(xid)) && m.kind == Offer && old(phase) == Selecting ==>
        && ok && xid == freshXid && address == old(address) && retryCount == old(retryCount)
        && timerT1 == old(timerT1) && timerT2 == old(timerT2)
        && var server := if m.serverId.Some? then m.serverId.value else UNSPECIFIED;
           HasRequested(Requesting, Lease(m.yiaddr, server), old(sent))
      // an acknowledgement binds the client to its lease, in whatever phase it is
      ensures IsForMe(m, old(xid)) && m.kind == Ack && old(lease).Some? ==>
        && ok && phase == Bound && address == Some(old(lease).value.ip)
        && timerT1 && timerT2 && timerTO == None
        && lease == old(lease) && xid == old(xid) && retryCount == old(retryCount) && sent == old(sent)
      ensures !ok <==> IsForMe(m, old(xid)) && m.kind == Ack && old(lease).None?
      // everything else is ignored
      ensures !IsForMe(m, old(xid)) || (m.kind != Ack && (m.kind != Offer || old(phase) != Selecting)) ==>
        View() == old(View()) && sent == old(sent)
    {
      ok := true;
      if m.op == BootReply && m.xid == xid {
        if m.kind == Offer && phase == Selecting {
          if m.yiaddr != UNSPECIFIED {
            var serverId := UNSPECIFIED;
            if m.serverId.Some? {
              serverId := m.serverId.value;
            }
            lease := Some(Lease(m.yiaddr, serverId));
            ok := ChangeFSMState(Requesting, freshXid);
          }
        }
        if m.kind == Ack {
          if m.yiaddr != UNSPECIFIED {
            if lease.None? {
              return false;
            }
            ok := ChangeFSMState(Bound, freshXid);
          }
        }
      }
    }

    /** The wireless interface got associated: DHCP starts over. */
    method ReceiveAssociation(freshXid: int) returns (ok: bool)
      modifies this
      ensures Matches(Enter(old(View()), Init, freshXid), old(sent), ok)
      ensures ok && HasDiscovered(old(sent)) && xid == freshXid && !timerT1 && !timerT2
      ensures lease == old(lease) && address == old(address) && retryCount == old(retryCount)
    {
      ok := ChangeFSMState(Init, freshXid);
    }
  }
}
