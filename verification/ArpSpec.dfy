/** The ARP cache as a state machine.

    A process that asks for an address not in the cache blocks inside arp_resolve, with its cache
    slot PENDING, while packets arrive and other processes resolve.  Between two points where the
    code can block, interrupts are off, so each stretch between such points is one step here. */
module ArpSpec {
  import opened Machine
  import opened Options

  const ARP_SIZ := 16
  const ARP_RETRY := 3
  const ARP_HTYPE := 1
  const ARP_PTYPE := 0x0800
  const ARP_OP_REQ := 1
  const ARP_OP_RPLY := 2
  const ARP_HALEN := 6
  const ARP_PALEN := 4
  const ETH_ARP := 0x0806
  const IP_BCAST: uint32 := 0xffff_ffff

  type Mac = m: seq<byte> | |m| == 6 witness [0, 0, 0, 0, 0, 0]

  const ZERO_MAC: Mac := [0, 0, 0, 0, 0, 0]

  type Pid = int

  datatype SlotState = Free | Pending | Resolved

  datatype Entry = Entry(state: SlotState, addr: uint32, pid: Pid, haddr: Mac)

  const ZERO_ENTRY := Entry(Free, 0, 0, ZERO_MAC)

  datatype Packet = Packet(ethdst: Mac, ethsrc: Mac, ethtype: int, htype: int, ptype: int, hlen: int, plen: int,
                           op: int, sndha: Mac, sndpa: uint32, tarha: Mac, tarpa: uint32)

  /** The part of the network data that ARP uses. */
  datatype Net = Net(ipvalid: bool, ipucast: uint32, ipbcast: uint32, ethucast: Mac, ethbcast: Mac)

  /** A process blocked in arp_resolve: its locals nxthop, slot, i and apkt, and whether the kernel
      holds a message for it. */
  datatype Waiter = Waiter(nxthop: uint32, slot: nat, tries: nat, msg: bool, apkt: Packet)

  /** The sender of an accepted packet. */
  datatype Sighting = Sighting(ip: uint32, mac: Mac)

  /** seen records every packet accepted so far; the code does not keep it. */
  datatype State = State(cache: seq<Entry>, waiting: map<Pid, Waiter>, seen: seq<Sighting>)

  const INIT := State(seq(ARP_SIZ, _ => ZERO_ENTRY), map[], [])

  // ---------- the cache searches ----------

  /** The first slot in use that holds an address. */
  function Find(cache: seq<Entry>, ip: uint32): (r: Option<nat>)
    ensures r.Some? ==> r.value < |cache| && cache[r.value].state != Free && cache[r.value].addr == ip
    ensures r.None? ==> forall i :: 0 <= i < |cache| && cache[i].state != Free ==> cache[i].addr != ip
  {
    FindFrom(cache, ip, 0)
  }

  function FindFrom(cache: seq<Entry>, ip: uint32, from: nat): (r: Option<nat>)
    requires from <= |cache|
    ensures r.Some? ==> from <= r.value < |cache| && cache[r.value].state != Free && cache[r.value].addr == ip
    ensures r.Some? ==> forall i :: from <= i < r.value && cache[i].state != Free ==> cache[i].addr != ip
    ensures r.None? ==> forall i :: from <= i < |cache| && cache[i].state != Free ==> cache[i].addr != ip
    decreases |cache| - from
  {
    if from == |cache| then None
    else if cache[from].state != Free && cache[from].addr == ip then Some(from)
    else FindFrom(cache, ip, from + 1)
  }

  /** The first slot in a state. */
  function FirstIn(cache: seq<Entry>, st: SlotState, from: nat): (r: Option<nat>)
    requires from <= |cache|
    ensures r.Some? ==> from <= r.value < |cache| && cache[r.value].state == st
    ensures r.Some? ==> forall i :: from <= i < r.value ==> cache[i].state != st
    ensures r.None? ==> forall i :: from <= i < |cache| ==> cache[i].state != st
    decreases |cache| - from
  {
    if from == |cache| then None
    else if cache[from].state == st then Some(from)
    else FirstIn(cache, st, from + 1)
  }

  /** The first free slot or, if there is none, the first resolved one. */
  ghost predicate Taken(cache: seq<Entry>, k: nat) {
    k < |cache| && ((cache[k].state == Free && forall i :: 0 <= i < k ==> cache[i].state != Free)
                    || (cache[k].state == Resolved && (forall i :: 0 <= i < |cache| ==> cache[i].state != Free)
                        && forall i :: 0 <= i < k ==> cache[i].state != Resolved))
  }

  /** The slot arp_alloc takes: a free one, or else a resolved one.  Pending slots are never
      taken, so it fails exactly when every slot is pending. */
  function AllocSlot(cache: seq<Entry>): (r: Option<nat>)
    ensures r.Some? ==> r.value < |cache| && cache[r.value].state != Pending
    ensures r.Some? ==> Taken(cache, r.value)
    ensures r.None? <==> forall i :: 0 <= i < |cache| ==> cache[i].state == Pending
  {
    var free := FirstIn(cache, Free, 0);
    if free.Some? then free else FirstIn(cache, Resolved, 0)
  }

  // ---------- the packets ----------

  function MakeRequest(net: Net, nxthop: uint32): Packet {
    Packet(net.ethbcast, net.ethucast, ETH_ARP, ARP_HTYPE, ARP_PTYPE, ARP_HALEN, ARP_PALEN,
           ARP_OP_REQ, net.ethucast, net.ipucast, ZERO_MAC, nxthop)
  }

  function MakeReply(net: Net, pkt: Packet): Packet {
    Packet(pkt.sndha, net.ethucast, ETH_ARP, ARP_HTYPE, ARP_PTYPE, ARP_HALEN, ARP_PALEN,
           ARP_OP_RPLY, net.ethucast, net.ipucast, pkt.sndha, pkt.sndpa)
  }

  /** The fields of a request from a host for the hardware address of ip. */
  ghost predicate AsksFor(r: Packet, a: Net, ip: uint32) {
    && r.ethdst == a.ethbcast && r.ethsrc == a.ethucast && r.ethtype == 0x0806
    && r.htype == 1 && r.ptype == 0x0800 && r.hlen == 6 && r.plen == 4 && r.op == 1
    && r.sndha == a.ethucast && r.sndpa == a.ipucast && r.tarha == [0, 0, 0, 0, 0, 0] && r.tarpa == ip
  }

  /** The fields of a reply from a host to the host with the given addresses. */
  ghost predicate RepliesTo(r: Packet, b: Net, mac: Mac, ip: uint32) {
    && r.ethdst == mac && r.ethsrc == b.ethucast && r.ethtype == 0x0806
    && r.htype == 1 && r.ptype == 0x0800 && r.hlen == 6 && r.plen == 4 && r.op == 2
    && r.sndha == b.ethucast && r.sndpa == b.ipucast && r.tarha == mac && r.tarpa == ip
  }

  /** Packets of another kind are dropped before the cache is looked at. */
  predicate Accepted(pkt: Packet) {
    pkt.htype == ARP_HTYPE && pkt.ptype == ARP_PTYPE
  }

  predicate RequestForUs(net: Net, pkt: Packet) {
    pkt.op != ARP_OP_RPLY && net.ipvalid && pkt.tarpa == net.ipucast
  }

  // ---------- the steps ----------

  /** What a step of arp_resolve gives its caller; Blocks means it has not returned yet. */
  datatype Outcome = Found(mac: Mac) | SysErr | TimedOut | Blocks

  function Resolve(s: State, net: Net, pid: Pid, nxthop: uint32): (r: (State, Outcome)) {
    if nxthop == IP_BCAST || nxthop == net.ipbcast then (s, Found(net.ethbcast))
    else match Find(s.cache, nxthop)
      case Some(i) => (s, if s.cache[i].state == Resolved then Found(s.cache[i].haddr) else SysErr)
      case None =>
        match AllocSlot(s.cache)
        case None => (s, SysErr)
        case Some(k) =>
          (s.(cache := s.cache[k := Entry(Pending, nxthop, pid, ZERO_MAC)],
              waiting := s.waiting[pid := Waiter(nxthop, k, 0, false, MakeRequest(net, nxthop))]), Blocks)
  }

  /** The merge of an accepted packet's sender into slot i, which holds its address. */
  function Merge(s: State, i: nat, mac: Mac): State
    requires i < |s.cache|
  {
    var e := s.cache[i];
    if e.state == Pending then
      s.(cache := s.cache[i := e.(haddr := mac, state := Resolved)],
         waiting := if e.pid in s.waiting then s.waiting[e.pid := s.waiting[e.pid].(msg := true)] else s.waiting)
    else
      s.(cache := s.cache[i := e.(haddr := mac)])
  }

  function Receive(s: State, net: Net, pkt: Packet): (r: (State, Option<Packet>)) {
    if !Accepted(pkt) then (s, None)
    else
      var t := s.(seen := s.seen + [Sighting(pkt.sndpa, pkt.sndha)]);
      match Find(s.cache, pkt.sndpa)
      case Some(i) =>
        (Merge(t, i, pkt.sndha), if RequestForUs(net, pkt) then Some(MakeReply(net, pkt)) else None)
      case None =>
        if !RequestForUs(net, pkt) then (t, None)
        else
          match AllocSlot(s.cache)
          case None => (t, None)
          case Some(k) =>
            (t.(cache := t.cache[k := Entry(Resolved, pkt.sndpa, 0, pkt.sndha)]), Some(MakeReply(net, pkt)))
  }

  /** recvtime has returned TIMEOUT to a blocked process: it asks again, or gives up its slot. */
  function Expire(s: State, pid: Pid): (r: (State, Outcome))
    requires pid in s.waiting && s.waiting[pid].slot < |s.cache|
  {
    var w := s.waiting[pid];
    if w.tries + 1 < ARP_RETRY then
      (s.(waiting := s.waiting[pid := w.(tries := w.tries + 1)]), Blocks)
    else
      (s.(cache := s.cache[w.slot := s.cache[w.slot].(state := Free)], waiting := s.waiting - {pid}), TimedOut)
  }

  /** recvtime has returned the message OK: the process copies whatever its slot holds by now. */
  function Resume(s: State, pid: Pid): (r: (State, Outcome))
    requires pid in s.waiting && s.waiting[pid].slot < |s.cache|
  {
    (s.(waiting := s.waiting - {pid}), Found(s.cache[s.waiting[pid].slot].haddr))
  }

  datatype Action =
    | AResolve(net: Net, pid: Pid, nxthop: uint32)
    | AReceive(net: Net, pkt: Packet)
    | AExpire(pid: Pid)
    | AResume(pid: Pid)

  /** A blocked process takes no other step of arp_resolve; it times out only while it has no
      message and resumes only when it has one. */
  ghost predicate Enabled(s: State, a: Action) {
    match a
    case AResolve(_, pid, _) => pid !in s.waiting
    case AReceive(_, _) => true
    case AExpire(pid) => pid in s.waiting && s.waiting[pid].slot < |s.cache| && !s.waiting[pid].msg
    case AResume(pid) => pid in s.waiting && s.waiting[pid].slot < |s.cache| && s.waiting[pid].msg
  }

  ghost function Next(s: State, a: Action): State
    requires Enabled(s, a)
  {
    match a
    case AResolve(net, pid, nxthop) => Resolve(s, net, pid, nxthop).0
    case AReceive(net, pkt) => Receive(s, net, pkt).0
    case AExpire(pid) => Expire(s, pid).0
    case AResume(pid) => Resume(s, pid).0
  }

  /** The slot that a step allocates, if it does. */
  ghost function Allocates(s: State, a: Action): Option<nat> {
    match a
    case AResolve(net, _, nxthop) =>
      if nxthop == IP_BCAST || nxthop == net.ipbcast || Find(s.cache, nxthop).Some? then None else AllocSlot(s.cache)
    case AReceive(net, pkt) =>
      if !Accepted(pkt) || Find(s.cache, pkt.sndpa).Some? || !RequestForUs(net, pkt) then None else AllocSlot(s.cache)
    case AExpire(_) => None
    case AResume(_) => None
  }

  // ---------- what every step keeps ----------

  /** The hardware address in the latest accepted packet from an IP address. */
  ghost function Latest(seen: seq<Sighting>, ip: uint32): Option<Mac> {
    if seen == [] then None
    else if seen[|seen| - 1].ip == ip then Some(seen[|seen| - 1].mac)
    else Latest(seen[..|seen| - 1], ip)
  }

  /** No address is in two slots. */
  ghost predicate Unique(s: State) {
    forall i, j :: 0 <= i < j < |s.cache| && s.cache[i].state != Free && s.cache[j].state != Free ==>
      s.cache[i].addr != s.cache[j].addr
  }

  /** A resolved slot holds the latest hardware address heard for its IP address, and the others
      hold none. */
  ghost predicate Current(s: State) {
    forall i :: 0 <= i < |s.cache| ==>
      if s.cache[i].state == Resolved then Latest(s.seen, s.cache[i].addr) == Some(s.cache[i].haddr)
      else s.cache[i].haddr == ZERO_MAC
  }

  /** Process pid waits, without a message yet, for the answer that slot i asks for. */
  ghost predicate Awaits(s: State, i: nat, pid: Pid) {
    && pid in s.waiting && !s.waiting[pid].msg
    && s.waiting[pid].slot == i < |s.cache|
    && s.waiting[pid].nxthop == s.cache[i].addr
    && s.cache[i].state == Pending && s.cache[i].pid == pid
  }

  /** Pending slots and processes that wait without a message correspond one to one. */
  ghost predicate Matched(s: State) {
    && (forall i :: 0 <= i < |s.cache| && s.cache[i].state == Pending ==> Awaits(s, i, s.cache[i].pid))
    && (forall pid :: pid in s.waiting && !s.waiting[pid].msg ==> Awaits(s, s.waiting[pid].slot, pid))
  }

  /** A waiting process stands for a slot and still has a try left; one with a message has been
      heard from. */
  ghost predicate Waiting(s: State) {
    forall pid :: pid in s.waiting ==>
      && s.waiting[pid].slot < |s.cache| && s.waiting[pid].tries < ARP_RETRY
      && (s.waiting[pid].msg ==> Latest(s.seen, s.waiting[pid].nxthop).Some?)
  }

  ghost predicate Inv(s: State) {
    |s.cache| == ARP_SIZ && Unique(s) && Current(s) && Matched(s) && Waiting(s)
  }

  lemma LatestAppend(seen: seq<Sighting>, x: Sighting, ip: uint32)
    ensures Latest(seen + [x], ip) == if x.ip == ip then Some(x.mac) else Latest(seen, ip)
  {
    assert (seen + [x])[..|seen|] == seen;
  }
}
