/** The functions of the ARP cache as they work on its table, proved to take the steps of the
    state machine. */
module Arp {
  import opened Machine
  import opened Options
  import opened ArpSpec
  import ArpProofs

  const SYSERR := -1

  class ArpCache {
    const arpcache: array<Entry>
    /** The kernel's message flags and the locals of the blocked calls. */
    var waiting: map<Pid, Waiter>
    ghost var seen: seq<Sighting>

    ghost predicate Valid()
      reads this, arpcache
    {
      Inv(Abs())
    }

    ghost function Abs(): State
      reads this, arpcache
    {
      State(arpcache[..], waiting, seen)
    }

    /** The table starts out as zeros; the loop of arp_init frees its slots from the second on. */
    constructor ()
      ensures Valid() && fresh(arpcache) && Abs() == INIT
    {
      arpcache := new Entry[ARP_SIZ](_ => ZERO_ENTRY);
      waiting, seen := map[], [];
      new;
      var i := 1;
      while i < ARP_SIZ
        invariant arpcache.Length == ARP_SIZ && waiting == map[] && seen == []
        invariant forall k :: 0 <= k < ARP_SIZ ==> arpcache[k] == ZERO_ENTRY
      {
        arpcache[i] := arpcache[i].(state := Free);
        i := i + 1;
      }
      assert arpcache[..] == INIT.cache;
    }

    /** The search loop of arp_resolve and of arp_in; it ends at ARP_SIZ if the address is in no
        slot in use. */
    method Search(ip: uint32) returns (i: nat)
      requires arpcache.Length == ARP_SIZ
      ensures i <= ARP_SIZ && Find(arpcache[..], ip) == if i < ARP_SIZ then Some(i) else None
    {
      i := 0;
      while i < ARP_SIZ
        invariant i <= ARP_SIZ && Find(arpcache[..], ip) == FindFrom(arpcache[..], ip, i)
      {
        if arpcache[i].state == Free {
          i := i + 1;
          continue;
        }
        if arpcache[i].addr == ip {
          return;
        }
        i := i + 1;
      }
    }

    method ArpAlloc() returns (slot: int)
      requires arpcache.Length == ARP_SIZ
      modifies arpcache
      ensures match AllocSlot(old(arpcache[..]))
              case None => slot == SYSERR && arpcache[..] == old(arpcache[..])
              case Some(k) => slot == k && arpcache[..] == old(arpcache[..])[k := Entry(Free, 0, 0, [0, 0, 0, 0, 0, 0])]
    {
      ghost var was := arpcache[..];
      slot := 0;
      while slot < ARP_SIZ
        invariant 0 <= slot <= ARP_SIZ && arpcache[..] == was && FirstIn(was, Free, 0) == FirstIn(was, Free, slot)
      {
        if arpcache[slot].state == Free {
          arpcache[slot] := ZERO_ENTRY;
          return;
        }
        slot := slot + 1;
      }
      slot := 0;
      while slot < ARP_SIZ
        invariant 0 <= slot <= ARP_SIZ && arpcache[..] == was && FirstIn(was, Resolved, 0) == FirstIn(was, Resolved, slot)
      {
        if arpcache[slot].state == Resolved {
          arpcache[slot] := ZERO_ENTRY;
          return;
        }
        slot := slot + 1;
      }
      return SYSERR;
    }

    /** arp_resolve up to its return or to the point where it waits for an answer. */
    method ArpResolve(net: Net, pid: Pid, nxthop: uint32) returns (out: Outcome, request: Option<Packet>)
      requires Valid() && pid !in waiting
      modifies this, arpcache
      ensures Valid() && (Abs(), out) == Resolve(old(Abs()), net, pid, nxthop)
      ensures request == if out == Blocks then Some(MakeRequest(net, nxthop)) else None
      ensures out == Blocks ==> AsksFor(request.value, net, nxthop)
    {
      ghost var s := Abs();
      ArpProofs.ResolveKeepsInv(s, net, pid, nxthop);
      if nxthop == IP_BCAST {
        return Found(net.ethbcast), None;
      }
      if nxthop == net.ipbcast {
        return Found(net.ethbcast), None;
      }
      var i := Search(nxthop);
      if i < ARP_SIZ {
        if arpcache[i].state == Resolved {
          return Found(arpcache[i].haddr), None;
        }
        if arpcache[i].state == Pending {
          return SysErr, None;
        }
      }
      var slot := ArpAlloc();
      if slot == SYSERR {
        return SysErr, None;
      }
      arpcache[slot] := arpcache[slot].(state := Pending);
      arpcache[slot] := arpcache[slot].(addr := nxthop);
      arpcache[slot] := arpcache[slot].(pid := pid);
      waiting := waiting[pid := Waiter(nxthop, slot, 0, false, MakeRequest(net, nxthop))];
      assert arpcache[..] == s.cache[slot := Entry(Pending, nxthop, pid, ZERO_MAC)];
      return Blocks, Some(MakeRequest(net, nxthop));
    }

    method ArpIn(net: Net, pkt: Packet) returns (reply: Option<Packet>)
      requires Valid()
      modifies this, arpcache
      ensures Valid() && (Abs(), reply) == Receive(old(Abs()), net, pkt)
      ensures reply.Some? ==> RepliesTo(reply.value, net, pkt.sndha, pkt.sndpa)
    {
      ghost var s := Abs();
      ArpProofs.ReceiveKeepsInv(s, net, pkt);
      if pkt.htype != ARP_HTYPE || pkt.ptype != ARP_PTYPE {
        return None;
      }
      seen := seen + [Sighting(pkt.sndpa, pkt.sndha)];
      var slot: int := Search(pkt.sndpa);
      var found := slot < ARP_SIZ;
      if found {
        arpcache[slot] := arpcache[slot].(haddr := pkt.sndha);
        if arpcache[slot].state == Pending {
          arpcache[slot] := arpcache[slot].(state := Resolved);
          Send(arpcache[slot].pid);
        }
        assert arpcache[..] == s.cache[slot := s.cache[slot].(haddr := pkt.sndha, state := Resolved)];
      }
      if pkt.op == ARP_OP_RPLY {
        return None;
      }
      if !net.ipvalid || pkt.tarpa != net.ipucast {
        return None;
      }
      if !found {
        slot := ArpAlloc();
        if slot == SYSERR {
          return None;
        }
        arpcache[slot] := arpcache[slot].(addr := pkt.sndpa);
        arpcache[slot] := arpcache[slot].(haddr := pkt.sndha);
        arpcache[slot] := arpcache[slot].(state := Resolved);
        assert arpcache[..] == s.cache[slot := Entry(Resolved, pkt.sndpa, 0, pkt.sndha)];
      }
      return Some(MakeReply(net, pkt));
    }

    /** The kernel keeps the message for a process that waits for one. */
    method Send(pid: Pid)
      modifies this`waiting
      ensures waiting == if pid in old(waiting) then old(waiting)[pid := old(waiting)[pid].(msg := true)] else old(waiting)
    {
      if pid in waiting {
        waiting := waiting[pid := waiting[pid].(msg := true)];
      }
    }

    /** A blocked arp_resolve goes on after recvtime has returned TIMEOUT: it sends its request
        again, or gives up. */
    method ArpTimeout(pid: Pid) returns (out: Outcome, request: Option<Packet>)
      requires Valid() && pid in waiting && !waiting[pid].msg
      modifies this, arpcache
      ensures Valid() && (Abs(), out) == Expire(old(Abs()), pid)
      ensures request == if out == Blocks then Some(old(waiting)[pid].apkt) else None
    {
      ghost var s := Abs();
      ArpProofs.ExpireKeepsInv(s, pid);
      var w := waiting[pid];
      if w.tries + 1 < ARP_RETRY {
        waiting := waiting[pid := w.(tries := w.tries + 1)];
        return Blocks, Some(w.apkt);
      }
      arpcache[w.slot] := arpcache[w.slot].(state := Free);
      waiting := waiting - {pid};
      assert arpcache[..] == s.cache[w.slot := s.cache[w.slot].(state := Free)];
      return TimedOut, None;
    }

    /** A blocked arp_resolve goes on after recvtime has returned the message. */
    method ArpResume(pid: Pid) returns (out: Outcome)
      requires Valid() && pid in waiting && waiting[pid].msg
      modifies this, arpcache
      ensures Valid() && (Abs(), out) == Resume(old(Abs()), pid)
    {
      ArpProofs.ResumeKeepsInv(Abs(), pid);
      out := Found(arpcache[waiting[pid].slot].haddr);
      waiting := waiting - {pid};
    }
  }
}
