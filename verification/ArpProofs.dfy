/** What holds of the ARP cache over every run. */
module ArpProofs {
  import opened Machine
  import opened Options
  import opened ArpSpec

  // ---------- every step keeps the invariant ----------

  lemma ResolveKeepsInv(s: State, net: Net, pid: Pid, nxthop: uint32)
    requires Inv(s) && pid !in s.waiting
    ensures Inv(Resolve(s, net, pid, nxthop).0)
  {
    var t := Resolve(s, net, pid, nxthop).0;
    if t != s {
      var k := AllocSlot(s.cache).value;
      assert forall q :: q in s.waiting && !s.waiting[q].msg ==> Awaits(s, s.waiting[q].slot, q);
      assert Awaits(t, k, pid);
      assert forall i :: 0 <= i < |s.cache| && i != k && s.cache[i].state == Pending ==>
          Awaits(s, i, s.cache[i].pid) && Awaits(t, i, s.cache[i].pid);
      assert forall q :: q in s.waiting && !s.waiting[q].msg ==> Awaits(t, s.waiting[q].slot, q);
    }
  }

  lemma HeardKeepsInv(s: State, x: Sighting)
    requires Inv(s) && Find(s.cache, x.ip).None?
    ensures Inv(s.(seen := s.seen + [x]))
  {
    var t := s.(seen := s.seen + [x]);
    forall ip
      ensures Latest(t.seen, ip) == if x.ip == ip then Some(x.mac) else Latest(s.seen, ip)
    {
      LatestAppend(s.seen, x, ip);
    }
    assert forall i, q :: Awaits(s, i, q) ==> Awaits(t, i, q);
  }

  lemma MergeKeepsInv(s: State, i: nat, x: Sighting)
    requires Inv(s) && i < ARP_SIZ && s.cache[i].state != Free && s.cache[i].addr == x.ip
    ensures Inv(Merge(s.(seen := s.seen + [x]), i, x.mac))
  {
    var t := Merge(s.(seen := s.seen + [x]), i, x.mac);
    forall ip
      ensures Latest(t.seen, ip) == if x.ip == ip then Some(x.mac) else Latest(s.seen, ip)
    {
      LatestAppend(s.seen, x, ip);
    }
    if s.cache[i].state == Pending {
      assert Awaits(s, i, s.cache[i].pid);
    }
    assert forall q :: q in s.waiting && !s.waiting[q].msg ==> Awaits(s, s.waiting[q].slot, q);
    assert forall j, q :: Awaits(s, j, q) && j != i ==> Awaits(t, j, q);
  }

  lemma InsertKeepsInv(s: State, k: nat, x: Sighting)
    requires Inv(s) && Find(s.cache, x.ip).None? && AllocSlot(s.cache) == Some(k)
    ensures Inv(s.(seen := s.seen + [x], cache := s.cache[k := Entry(Resolved, x.ip, 0, x.mac)]))
  {
    var u := s.(seen := s.seen + [x]);
    HeardKeepsInv(s, x);
    var t := u.(cache := s.cache[k := Entry(Resolved, x.ip, 0, x.mac)]);
    LatestAppend(s.seen, x, x.ip);
    assert forall q :: q in u.waiting && !u.waiting[q].msg ==> Awaits(u, u.waiting[q].slot, q);
    assert forall j, q :: Awaits(u, j, q) ==> j != k && Awaits(t, j, q);
  }

  lemma ReceiveKeepsInv(s: State, net: Net, pkt: Packet)
    requires Inv(s)
    ensures Inv(Receive(s, net, pkt).0)
  {
    var x := Sighting(pkt.sndpa, pkt.sndha);
    match Find(s.cache, pkt.sndpa)
    case Some(i) => MergeKeepsInv(s, i, x);
    case None =>
      HeardKeepsInv(s, x);
      match AllocSlot(s.cache)
      case Some(k) => InsertKeepsInv(s, k, x);
      case None =>
  }

  lemma ExpireKeepsInv(s: State, pid: Pid)
    requires Inv(s) && Enabled(s, AExpire(pid))
    ensures Inv(Expire(s, pid).0)
  {
    var w, t := s.waiting[pid], Expire(s, pid).0;
    assert Awaits(s, w.slot, pid);
    assert forall q :: q in s.waiting && !s.waiting[q].msg ==> Awaits(s, s.waiting[q].slot, q);
    assert forall j, q :: Awaits(s, j, q) && q != pid ==> j != w.slot && Awaits(t, j, q);
    if w.tries + 1 < ARP_RETRY {
      assert Awaits(t, w.slot, pid);
    }
  }

  lemma ResumeKeepsInv(s: State, pid: Pid)
    requires Inv(s) && Enabled(s, AResume(pid))
    ensures Inv(Resume(s, pid).0)
  {
    var t := Resume(s, pid).0;
    assert forall q :: q in s.waiting && !s.waiting[q].msg ==> Awaits(s, s.waiting[q].slot, q);
    assert forall j, q :: Awaits(s, j, q) ==> q != pid && Awaits(t, j, q);
  }

  lemma NextKeepsInv(s: State, a: Action)
    requires Inv(s) && Enabled(s, a)
    ensures Inv(Next(s, a))
  {
    match a
    case AResolve(net, pid, nxthop) => ResolveKeepsInv(s, net, pid, nxthop);
    case AReceive(net, pkt) => ReceiveKeepsInv(s, net, pkt);
    case AExpire(pid) => ExpireKeepsInv(s, pid);
    case AResume(pid) => ResumeKeepsInv(s, pid);
  }

  // ---------- runs ----------

  /** The state a run reaches, or None if one of its steps is not enabled. */
  ghost function Run(s: State, acts: seq<Action>): Option<State>
    decreases |acts|
  {
    if acts == [] then Some(s)
    else if !Enabled(s, acts[0]) then None
    else Run(Next(s, acts[0]), acts[1..])
  }

  lemma {:induction false} RunKeepsInv(s: State, acts: seq<Action>)
    requires Inv(s) && Run(s, acts).Some?
    ensures Inv(Run(s, acts).value)
    decreases |acts|
  {
    if acts != [] {
      NextKeepsInv(s, acts[0]);
      RunKeepsInv(Next(s, acts[0]), acts[1..]);
    }
  }

  /** In every state that the steps reach from an empty cache: no two slots in use hold the same
      address, resolved slots hold the latest hardware address heard, and pending slots and
      waiting processes correspond one to one. */
  lemma EveryRun(acts: seq<Action>, s: State)
    requires Run(INIT, acts) == Some(s)
    ensures Inv(s) && |s.cache| == ARP_SIZ
    ensures forall i, j :: 0 <= i < j < ARP_SIZ && s.cache[i].state != Free && s.cache[j].state != Free ==>
              s.cache[i].addr != s.cache[j].addr
    ensures forall i :: 0 <= i < ARP_SIZ && s.cache[i].state == Resolved ==>
              Latest(s.seen, s.cache[i].addr) == Some(s.cache[i].haddr)
    ensures forall i :: 0 <= i < ARP_SIZ && s.cache[i].state == Pending ==>
              && s.cache[i].pid in s.waiting && !s.waiting[s.cache[i].pid].msg
              && s.waiting[s.cache[i].pid].slot == i && s.waiting[s.cache[i].pid].nxthop == s.cache[i].addr
    ensures forall pid :: pid in s.waiting && !s.waiting[pid].msg ==>
              var k := s.waiting[pid].slot;
              && k < ARP_SIZ && s.cache[k].state == Pending && s.cache[k].pid == pid && s.cache[k].addr == s.waiting[pid].nxthop
  {
    RunKeepsInv(INIT, acts);
    assert forall i :: 0 <= i < ARP_SIZ && s.cache[i].state == Pending ==> Awaits(s, i, s.cache[i].pid);
    assert forall pid :: pid in s.waiting && !s.waiting[pid].msg ==> Awaits(s, s.waiting[pid].slot, pid);
  }

  // ---------- the steps in full ----------

  /** Packets that are not about Ethernet and IP are dropped, and change nothing. */
  lemma PacketDropped(s: State, net: Net, pkt: Packet)
    requires pkt.htype != 1 || pkt.ptype != 0x0800
    ensures Receive(s, net, pkt) == (s, None)
  {
  }

  /** Every other packet is recorded.  If its sender is in a slot, that slot is resolved with the
      sender's hardware address, and a process that waits for it gets its message. */
  lemma KnownSender(s: State, net: Net, pkt: Packet, i: nat)
    requires Inv(s) && pkt.htype == 1 && pkt.ptype == 0x0800
    requires i < 16 && s.cache[i].state != Free && s.cache[i].addr == pkt.sndpa
    ensures var (t, reply), e := Receive(s, net, pkt), s.cache[i];
            && t.seen == s.seen + [Sighting(pkt.sndpa, pkt.sndha)]
            && t.cache == s.cache[i := Entry(Resolved, pkt.sndpa, e.pid, pkt.sndha)]
            && (e.state == Resolved ==> t.waiting == s.waiting)
            && (e.state == Pending ==> e.pid in s.waiting && t.waiting == s.waiting[e.pid := s.waiting[e.pid].(msg := true)])
            && (reply.Some? <==> pkt.op != 2 && net.ipvalid && pkt.tarpa == net.ipucast)
            && (reply.Some? ==> RepliesTo(reply.value, net, pkt.sndha, pkt.sndpa))
  {
    assert Find(s.cache, pkt.sndpa) == Some(i);
    if s.cache[i].state == Pending {
      assert Awaits(s, i, s.cache[i].pid);
    }
  }

  /** An unknown sender is put into the slot that is to be taken, and replied to, if the packet is a
      request for this host and there is such a slot; otherwise nothing but the record changes. */
  lemma UnknownSender(s: State, net: Net, pkt: Packet)
    requires Inv(s) && pkt.htype == 1 && pkt.ptype == 0x0800
    requires forall i :: 0 <= i < 16 && s.cache[i].state != Free ==> s.cache[i].addr != pkt.sndpa
    ensures var (t, reply) := Receive(s, net, pkt);
            && t.seen == s.seen + [Sighting(pkt.sndpa, pkt.sndha)] && t.waiting == s.waiting
            && (reply.Some? <==> pkt.op != 2 && net.ipvalid && pkt.tarpa == net.ipucast && !AllPending(s))
            && (reply.None? ==> t.cache == s.cache)
            && (reply.Some? ==> RepliesTo(reply.value, net, pkt.sndha, pkt.sndpa))
    ensures var (t, reply) := Receive(s, net, pkt);
            reply.Some? ==> exists k: nat :: Taken(s.cache, k) && t.cache == s.cache[k := Entry(Resolved, pkt.sndpa, 0, pkt.sndha)]
  {
    assert Find(s.cache, pkt.sndpa) == None;
    var (t, reply) := Receive(s, net, pkt);
    if reply.Some? {
      assert Taken(s.cache, AllocSlot(s.cache).value);
    }
  }

  /** arp_resolve for an address in a slot, or a broadcast address, changes nothing. */
  lemma ResolveKnown(s: State, net: Net, pid: Pid, nxthop: uint32)
    requires Inv(s)
    ensures var (t, out) := Resolve(s, net, pid, nxthop);
            && (out != Blocks ==> t == s)
            && (nxthop == 0xffff_ffff || nxthop == net.ipbcast ==> out == Found(net.ethbcast))
            && (nxthop != 0xffff_ffff && nxthop != net.ipbcast ==>
                  forall i :: 0 <= i < 16 && s.cache[i].state != Free && s.cache[i].addr == nxthop ==>
                    out == if s.cache[i].state == Resolved then Found(s.cache[i].haddr) else SysErr)
  {
  }

  /** For any other address it takes a slot, asks, and blocks, or fails if all slots are pending. */
  lemma ResolveUnknown(s: State, net: Net, pid: Pid, nxthop: uint32)
    requires Inv(s) && nxthop != 0xffff_ffff && nxthop != net.ipbcast
    requires forall i :: 0 <= i < 16 && s.cache[i].state != Free ==> s.cache[i].addr != nxthop
    ensures var (t, out) := Resolve(s, net, pid, nxthop); out == if AllPending(s) then SysErr else Blocks
    ensures var (t, out) := Resolve(s, net, pid, nxthop);
            out == Blocks ==>
              && t.seen == s.seen && pid in t.waiting && t.waiting == s.waiting[pid := t.waiting[pid]]
              && var w := t.waiting[pid];
                 && w.nxthop == nxthop && w.tries == 0 && !w.msg && AsksFor(w.apkt, net, nxthop)
                 && Taken(s.cache, w.slot)
                 && t.cache == s.cache[w.slot := Entry(Pending, nxthop, pid, [0, 0, 0, 0, 0, 0])]
  {
    assert Find(s.cache, nxthop) == None;
  }

  /** A blocked process times out or resumes: only its own slot and its own wait change. */
  lemma WaitEnds(s: State, pid: Pid)
    requires Inv(s) && pid in s.waiting
    ensures Resume(s, pid) == (s.(waiting := s.waiting - {pid}), Found(s.cache[s.waiting[pid].slot].haddr))
    ensures var w := s.waiting[pid];
            Expire(s, pid) == if w.tries < 2 then (s.(waiting := s.waiting[pid := w.(tries := w.tries + 1)]), Blocks)
                              else (s.(cache := s.cache[w.slot := s.cache[w.slot].(state := Free)], waiting := s.waiting - {pid}),
                                    TimedOut)
  {
  }

  /** What one step does to one slot.  A pending slot is never taken by another allocation: it
      becomes resolved when its address is heard from, free when its own process has timed out for
      the last time, and otherwise stays as it is. */
  lemma SlotAfter(s: State, a: Action, i: nat)
    requires Inv(s) && Enabled(s, a) && i < ARP_SIZ
    ensures var e, e' := s.cache[i], Next(s, a).cache[i];
            if Allocates(s, a) == Some(i) then
              && e.state != Pending
              && e' == if a.AResolve? then Entry(Pending, a.nxthop, a.pid, ZERO_MAC)
                       else Entry(Resolved, a.pkt.sndpa, 0, a.pkt.sndha)
            else if a.AReceive? && Accepted(a.pkt) && e.state != Free && e.addr == a.pkt.sndpa then
              e' == e.(state := Resolved, haddr := a.pkt.sndha)
            else if e.state == Pending && a == AExpire(e.pid) && s.waiting[e.pid].tries == ARP_RETRY - 1 then
              e' == e.(state := Free)
            else
              e' == e
  {
    if s.cache[i].state == Pending {
      assert Awaits(s, i, s.cache[i].pid);
    }
    match a
    case AExpire(pid) => assert Awaits(s, s.waiting[pid].slot, pid);
    case AResolve(_, _, _) =>
    case AReceive(_, pkt) =>
    case AResume(_) =>
  }

  // ---------- what a resolver is told ----------

  ghost predicate BeingAsked(s: State, ip: uint32) {
    exists i :: 0 <= i < |s.cache| && s.cache[i].state == Pending && s.cache[i].addr == ip
  }

  ghost predicate AllPending(s: State) {
    forall i :: 0 <= i < |s.cache| ==> s.cache[i].state == Pending
  }

  /** When arp_resolve returns at once: the broadcast address, the latest address heard from the
      next hop, or an error exactly when someone else is already asking for that next hop or every
      slot is pending. */
  lemma ResolveAnswers(s: State, net: Net, pid: Pid, nxthop: uint32)
    requires Inv(s)
    ensures var out, bcast := Resolve(s, net, pid, nxthop).1, nxthop == IP_BCAST || nxthop == net.ipbcast;
            && (bcast ==> out == Found(net.ethbcast))
            && (!bcast && out.Found? ==> Latest(s.seen, nxthop) == Some(out.mac))
            && (out == SysErr <==> (!bcast && (BeingAsked(s, nxthop) || AllPending(s))))
            && out != TimedOut
  {
  }

  /** The step in which a process gets its message leaves its slot resolved for its next hop. */
  lemma Notified(s: State, a: Action, pid: Pid)
    requires Inv(s) && Enabled(s, a) && pid in s.waiting && !s.waiting[pid].msg
    requires pid in Next(s, a).waiting && Next(s, a).waiting[pid].msg
    ensures Answered(Next(s, a), pid) && Next(s, a).waiting[pid] == s.waiting[pid].(msg := true)
  {
    assert Awaits(s, s.waiting[pid].slot, pid);
    NextKeepsInv(s, a);
  }

  /** The slot of a process with a message still is resolved for the address it asked for. */
  ghost predicate Answered(s: State, pid: Pid) {
    && pid in s.waiting && s.waiting[pid].msg && s.waiting[pid].slot < |s.cache|
    && s.cache[s.waiting[pid].slot].state == Resolved
    && s.cache[s.waiting[pid].slot].addr == s.waiting[pid].nxthop
  }

  /** No step of the run allocates a slot. */
  ghost predicate NotReused(s: State, acts: seq<Action>, slot: nat)
    decreases |acts|
  {
    acts == [] || (Enabled(s, acts[0]) ==> Allocates(s, acts[0]) != Some(slot) && NotReused(Next(s, acts[0]), acts[1..], slot))
  }

  lemma StaysAnswered(s: State, a: Action, pid: Pid)
    requires Inv(s) && Enabled(s, a) && Answered(s, pid)
    requires a != AResume(pid) && Allocates(s, a) != Some(s.waiting[pid].slot)
    ensures Answered(Next(s, a), pid) && Next(s, a).waiting[pid] == s.waiting[pid]
  {
    SlotAfter(s, a, s.waiting[pid].slot);
    forall i | 0 <= i < ARP_SIZ && s.cache[i].state == Pending
      ensures s.cache[i].pid != pid
    {
      assert Awaits(s, i, s.cache[i].pid);
    }
  }

  /** A process that had to wait also gets the latest address heard from its next hop, in every run
      in which nothing takes its slot between its message and its return. */
  lemma {:induction false} BlockedGetsLatest(s: State, acts: seq<Action>, t: State, pid: Pid)
    requires Inv(s) && Answered(s, pid) && Run(s, acts) == Some(t)
    requires AResume(pid) !in acts && NotReused(s, acts, s.waiting[pid].slot)
    ensures Enabled(t, AResume(pid)) && t.waiting[pid] == s.waiting[pid]
    ensures Resume(t, pid).1.Found? && Latest(t.seen, s.waiting[pid].nxthop) == Some(Resume(t, pid).1.mac)
    decreases |acts|
  {
    if acts != [] {
      NextKeepsInv(s, acts[0]);
      StaysAnswered(s, acts[0], pid);
      BlockedGetsLatest(Next(s, acts[0]), acts[1..], t, pid);
    }
  }

  /** The latest hardware address heard from an IP address, if any, is not zero and has not been the
      latest from another one. */
  ghost predicate ToldApart(seen: seq<Sighting>, ip: uint32) {
    && Latest(seen, ip) != Some(ZERO_MAC)
    && forall ip' :: ip' != ip && Latest(seen, ip').Some? ==> Latest(seen, ip') != Latest(seen, ip)
  }

  /** Without that restriction: the resuming process is told the latest address of its next hop
      exactly when its slot still is resolved for it. */
  lemma ResumeExact(s: State, pid: Pid)
    requires Inv(s) && Enabled(s, AResume(pid)) && ToldApart(s.seen, s.waiting[pid].nxthop)
    ensures Latest(s.seen, s.waiting[pid].nxthop) == Some(Resume(s, pid).1.mac) <==> Answered(s, pid)
  {
    var w := s.waiting[pid];
    var e := s.cache[w.slot];
    assert if e.state == Resolved then Latest(s.seen, e.addr) == Some(e.haddr) else e.haddr == ZERO_MAC;
  }

  // ---------- how often a resolver asks ----------

  /** The process takes no step of the run but to time out. */
  ghost predicate OnlyExpires(acts: seq<Action>, pid: Pid) {
    forall a :: a in acts ==> a != AResume(pid) && !(a.AResolve? && a.pid == pid)
  }

  /** While a process stays blocked its tries are its timeouts, and its request stays the same. */
  lemma {:induction false} TriesCounted(s: State, acts: seq<Action>, t: State, pid: Pid)
    requires Inv(s) && pid in s.waiting && Run(s, acts) == Some(t)
    requires OnlyExpires(acts, pid) && pid in t.waiting
    ensures t.waiting[pid].tries == s.waiting[pid].tries + multiset(acts)[AExpire(pid)]
    ensures t.waiting[pid] == s.waiting[pid].(tries := t.waiting[pid].tries, msg := t.waiting[pid].msg)
    decreases |acts|
  {
    hide Inv, Next, Enabled;
    if acts != [] {
      var a, u := acts[0], Next(s, acts[0]);
      NextKeepsInv(s, a);
      assert acts == [a] + acts[1..];
      if pid !in u.waiting {
        StaysAway(u, acts[1..], t, pid);
      }
      TryStep(s, a, pid);
      TriesCounted(u, acts[1..], t, pid);
    }
  }

  lemma TryStep(s: State, a: Action, pid: Pid)
    requires Inv(s) && Enabled(s, a) && pid in s.waiting && pid in Next(s, a).waiting
    requires a != AResume(pid) && !(a.AResolve? && a.pid == pid)
    ensures var w, w' := s.waiting[pid], Next(s, a).waiting[pid];
            && w'.tries == w.tries + (if a == AExpire(pid) then 1 else 0)
            && w' == w.(tries := w'.tries, msg := w'.msg)
  {
    hide Inv;
  }

  /** A process that does not wait does not come to wait unless it resolves. */
  lemma {:induction false} StaysAway(s: State, acts: seq<Action>, t: State, pid: Pid)
    requires pid !in s.waiting && Run(s, acts) == Some(t) && OnlyExpires(acts, pid)
    ensures pid !in t.waiting
    decreases |acts|
  {
    if acts != [] {
      StaysAway(Next(s, acts[0]), acts[1..], t, pid);
    }
  }

  /** A resolver that has blocked sends the same request each time it times out, and gives up, and
      frees its slot, exactly at its third timeout, whatever else happens in between. */
  lemma GivesUp(s: State, net: Net, pid: Pid, nxthop: uint32, b: State, acts: seq<Action>, t: State)
    requires Inv(s) && pid !in s.waiting && Resolve(s, net, pid, nxthop) == (b, Blocks)
    requires Run(b, acts) == Some(t) && OnlyExpires(acts, pid) && Enabled(t, AExpire(pid))
    ensures AsksFor(t.waiting[pid].apkt, net, nxthop)
    ensures Expire(t, pid).1 == (if multiset(acts)[AExpire(pid)] == 2 then TimedOut else Blocks)
    ensures var k := b.waiting[pid].slot;
            k < |t.cache| && (Expire(t, pid).1 == TimedOut ==>
                                Expire(t, pid).0.cache == t.cache[k := Entry(Free, nxthop, pid, ZERO_MAC)])
  {
    ResolveKeepsInv(s, net, pid, nxthop);
    TriesCounted(b, acts, t, pid);
    RunKeepsInv(b, acts);
    assert Awaits(t, t.waiting[pid].slot, pid);
  }

  // ---------- a run in which a resolver is told a wrong address ----------

  const QUIET := Net(false, 0, 0, ZERO_MAC, ZERO_MAC)

  /** The cache after processes 0 to k - 1 have asked for the addresses 1 to k. */
  ghost function AskedCache(k: nat): (c: seq<Entry>)
    requires k <= ARP_SIZ
    ensures |c| == ARP_SIZ
    ensures forall i :: 0 <= i < ARP_SIZ ==> c[i] == if i < k then Entry(Pending, i + 1, i, ZERO_MAC) else ZERO_ENTRY
  {
    seq(ARP_SIZ, i requires 0 <= i < ARP_SIZ => if i < k then Entry(Pending, i + 1, i, ZERO_MAC) else ZERO_ENTRY)
  }

  ghost function AskedWaiting(k: nat): (w: map<Pid, Waiter>)
    requires k <= ARP_SIZ
    ensures forall pid :: pid in w <==> 0 <= pid < k
    ensures forall pid :: pid in w ==> w[pid] == Waiter(pid + 1, pid, 0, false, MakeRequest(QUIET, pid + 1))
  {
    if k == 0 then map[] else AskedWaiting(k - 1)[k - 1 := Waiter(k, k - 1, 0, false, MakeRequest(QUIET, k))]
  }

  ghost function Asked(k: nat): State
    requires k <= ARP_SIZ
  {
    State(AskedCache(k), AskedWaiting(k), [])
  }

  ghost function Asking(k: nat): seq<Action>
    requires k <= ARP_SIZ
  {
    if k == 0 then [] else Asking(k - 1) + [AResolve(QUIET, k - 1, k)]
  }

  lemma {:induction false} RunAppend(s: State, acts: seq<Action>, more: seq<Action>)
    requires Run(s, acts).Some?
    ensures Run(s, acts + more) == Run(Run(s, acts).value, more)
    decreases |acts|
  {
    if acts == [] {
      assert acts + more == more;
    } else {
      assert (acts + more)[1..] == acts[1..] + more;
      RunAppend(Next(s, acts[0]), acts[1..], more);
    }
  }

  lemma FindAsked(k: nat)
    requires k < ARP_SIZ
    ensures Find(Asked(k).cache, k + 1) == None && AllocSlot(Asked(k).cache) == Some(k)
  {
    var c := Asked(k).cache;
    assert c[k].state == Free;
  }

  lemma NoneAsked()
    ensures Asked(0) == INIT
  {
    assert Asked(0).cache == INIT.cache;
  }

  lemma {:induction false} RunAsking(k: nat)
    requires k <= ARP_SIZ
    ensures Run(INIT, Asking(k)) == Some(Asked(k))
  {
    hide Next, Enabled, AskedCache, AskedWaiting;
    if k == 0 {
      NoneAsked();
    } else {
      RunAsking(k - 1);
      var a := AResolve(QUIET, k - 1, k);
      AskStep(k);
      RunAppend(INIT, Asking(k - 1), [a]);
      OneStep(Asked(k - 1), a);
    }
  }

  lemma AskStep(k: nat)
    requires 1 <= k <= ARP_SIZ
    ensures var a := AResolve(QUIET, k - 1, k); Enabled(Asked(k - 1), a) && Next(Asked(k - 1), a) == Asked(k)
  {
    hide Find, FindFrom, AllocSlot, FirstIn;
    FindAsked(k - 1);
    var t := Next(Asked(k - 1), AResolve(QUIET, k - 1, k));
    assert t.cache == Asked(k).cache;
    assert t.waiting == Asked(k).waiting;
  }

  lemma OneStep(s: State, a: Action)
    requires Enabled(s, a)
    ensures Run(s, [a]) == Some(Next(s, a))
  {
    assert [a][1..] == [];
  }

  const HEARD: Mac := [2, 0, 0, 0, 0, 1]

  const ANSWER := AReceive(QUIET, Packet(ZERO_MAC, HEARD, ETH_ARP, ARP_HTYPE, ARP_PTYPE, ARP_HALEN, ARP_PALEN,
                                         ARP_OP_RPLY, HEARD, 1, ZERO_MAC, 0))

  /** The first of the sixteen is answered. */
  lemma FirstAnswered()
    ensures var full := Asked(ARP_SIZ);
            Next(full, ANSWER) == State(full.cache[0 := Entry(Resolved, 1, 0, HEARD)],
                                        full.waiting[0 := Waiter(1, 0, 0, true, MakeRequest(QUIET, 1))], [Sighting(1, HEARD)])
  {
    assert Find(Asked(ARP_SIZ).cache, 1) == Some(0);
  }

  /** A process that asks then is given the slot of the first. */
  lemma SlotTaken(s: State)
    requires s.cache == AskedCache(ARP_SIZ)[0 := Entry(Resolved, 1, 0, HEARD)]
    ensures Find(s.cache, 100) == None && AllocSlot(s.cache) == Some(0)
  {
  }

  /** Sixteen processes ask, the first is answered, and before it runs again another process asks
      and is given the only resolved slot, which is its. */
  lemma WrongAnswer() returns (acts: seq<Action>, s: State)
    ensures Run(INIT, acts) == Some(s) && Enabled(s, AResume(0))
    ensures s.waiting[0].nxthop == 1 && Latest(s.seen, 1) == Some(HEARD)
    ensures Resume(s, 0).1 == Found(ZERO_MAC)
  {
    RunAsking(ARP_SIZ);
    FirstAnswered();
    var heard, ask := Next(Asked(ARP_SIZ), ANSWER), AResolve(QUIET, ARP_SIZ, 100);
    SlotTaken(heard);
    s := Next(heard, ask);
    acts := Asking(ARP_SIZ) + [ANSWER] + [ask];
    OneStep(Asked(ARP_SIZ), ANSWER);
    OneStep(heard, ask);
    RunAppend(INIT, Asking(ARP_SIZ), [ANSWER]);
    RunAppend(INIT, Asking(ARP_SIZ) + [ANSWER], [ask]);
  }

  // ---------- a request and its reply ----------

  ghost predicate Knows(s: State, ip: uint32, mac: Mac) {
    exists i :: 0 <= i < |s.cache| && s.cache[i].state == Resolved && s.cache[i].addr == ip && s.cache[i].haddr == mac
  }

  /** Host b, asked by host a, replies exactly when it has a's address in its cache or a slot for
      it, and then knows where a is.  The request goes to everyone, the reply to a. */
  lemma RequestAnswered(u: State, a: Net, b: Net)
    requires Inv(u) && b.ipvalid
    ensures var req := MakeRequest(a, b.ipucast);
            var (u', reply) := Receive(u, b, req);
            && AsksFor(req, a, b.ipucast)
            && (reply.Some? <==> (Find(u.cache, a.ipucast).Some? || !AllPending(u)))
            && (reply.Some? ==> (RepliesTo(reply.value, b, a.ethucast, a.ipucast) && Knows(u', a.ipucast, a.ethucast)))
  {
    var req := MakeRequest(a, b.ipucast);
    var u' := Receive(u, b, req).0;
    match Find(u.cache, a.ipucast)
    case Some(i) =>
      SlotAfter(u, AReceive(b, req), i);
      assert u'.cache[i].state == Resolved;
    case None =>
      match AllocSlot(u.cache)
      case Some(k) => assert u'.cache[k].state == Resolved;
      case None =>
  }

  /** Nothing but mac is heard from ip during the run. */
  ghost predicate HeardOnly(acts: seq<Action>, ip: uint32, mac: Mac) {
    forall a :: a in acts && a.AReceive? && Accepted(a.pkt) && a.pkt.sndpa == ip ==> a.pkt.sndha == mac
  }

  lemma {:induction false} LatestStays(s: State, acts: seq<Action>, t: State, ip: uint32, mac: Mac)
    requires Run(s, acts) == Some(t) && Latest(s.seen, ip) == Some(mac) && HeardOnly(acts, ip, mac)
    ensures Latest(t.seen, ip) == Some(mac)
    decreases |acts|
  {
    if acts != [] {
      var a := acts[0];
      if a.AReceive? && Accepted(a.pkt) {
        LatestAppend(s.seen, Sighting(a.pkt.sndpa, a.pkt.sndha), ip);
      }
      LatestStays(Next(s, a), acts[1..], t, ip, mac);
    }
  }

  /** Host b's reply, when the process is blocked without a message, answers it. */
  lemma ReplyAnswers(u: State, a: Net, b: Net, pid: Pid, r: Packet)
    requires Inv(u) && pid in u.waiting && !u.waiting[pid].msg && u.waiting[pid].nxthop == b.ipucast
    requires RepliesTo(r, b, a.ethucast, a.ipucast)
    ensures var u' := Receive(u, a, r).0;
            Inv(u') && Answered(u', pid) && u'.waiting[pid] == u.waiting[pid].(msg := true)
            && Latest(u'.seen, b.ipucast) == Some(b.ethucast)
  {
    var k := u.waiting[pid].slot;
    assert Awaits(u, k, pid);
    ReceiveKeepsInv(u, a, r);
    SlotAfter(u, AReceive(a, r), k);
    LatestAppend(u.seen, Sighting(r.sndpa, r.sndha), b.ipucast);
    assert Find(u.cache, b.ipucast) == Some(k);
  }

  /** A process of host a blocks on host b's address.  Whatever happens in between, b's reply answers
      it if it still is blocked, and whatever happens then, it is told b's hardware address when it
      resumes, unless another address is heard from b or its slot is taken. */
  lemma ReplyResolves(s: State, a: Net, b: Net, pid: Pid, t: State, acts: seq<Action>, u: State, r: Packet,
                      more: seq<Action>, v: State)
    requires Inv(s) && pid !in s.waiting && Resolve(s, a, pid, b.ipucast) == (t, Blocks)
    requires Run(t, acts) == Some(u) && OnlyExpires(acts, pid) && pid in u.waiting && !u.waiting[pid].msg
    requires RepliesTo(r, b, a.ethucast, a.ipucast) && Run(Receive(u, a, r).0, more) == Some(v) && AResume(pid) !in more
    requires NotReused(Receive(u, a, r).0, more, t.waiting[pid].slot) && HeardOnly(more, b.ipucast, b.ethucast)
    ensures Enabled(v, AResume(pid)) && Resume(v, pid).1 == Found(b.ethucast)
  {
    hide Inv, Receive, Run, NotReused, OnlyExpires, HeardOnly, RepliesTo;
    ResolveKeepsInv(s, a, pid, b.ipucast);
    TriesCounted(t, acts, u, pid);
    RunKeepsInv(t, acts);
    ReplyAnswers(u, a, b, pid, r);
    var u' := Receive(u, a, r).0;
    BlockedGetsLatest(u', more, v, pid);
    LatestStays(u', more, v, b.ipucast, b.ethucast);
  }
}
