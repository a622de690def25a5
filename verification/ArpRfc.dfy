/** arp_in beside the packet reception of RFC 826. */
module ArpRfc {
  import opened Machine
  import opened Options
  import opened ArpSpec
  import opened ArpProofs

  /** The translation table: what the cache gives for an address. */
  ghost function Known(s: State, ip: uint32): Option<Mac> {
    match Find(s.cache, ip)
    case Some(i) => if s.cache[i].state == Resolved then Some(s.cache[i].haddr) else None
    case None => None
  }

  ghost predicate ForUs(net: Net, pkt: Packet) {
    net.ipvalid && pkt.tarpa == net.ipucast
  }

  /** RFC 826, Packet Reception: the sender is updated if it is in the table, and is added to it if
      the packet is for this host; only then is the opcode looked at. */
  ghost function RfcKnown(s: State, net: Net, pkt: Packet, ip: uint32): Option<Mac> {
    if pkt.htype == 1 && pkt.ptype == 0x0800 && ip == pkt.sndpa && (Known(s, ip).Some? || ForUs(net, pkt)) then Some(pkt.sndha) else Known(s, ip)
  }

  ghost predicate RfcReplies(net: Net, pkt: Packet) {
    pkt.htype == 1 && pkt.ptype == 0x0800 && ForUs(net, pkt) && pkt.op == 1
  }

  ghost predicate FreeSlot(s: State) {
    exists i :: 0 <= i < |s.cache| && s.cache[i].state == Free
  }

  ghost predicate SameTable(s: State, net: Net, pkt: Packet) {
    forall ip: uint32 :: Known(Receive(s, net, pkt).0, ip) == RfcKnown(s, net, pkt, ip)
  }

  lemma FoundAt(cache: seq<Entry>, i: nat)
    requires i < |cache| && cache[i].state != Free
    requires forall j, k :: 0 <= j < k < |cache| && cache[j].state != Free && cache[k].state != Free ==> cache[j].addr != cache[k].addr
    ensures Find(cache, cache[i].addr) == Some(i)
  {
  }

  /** A slot other than i gives the same answer before and after slot i has changed. */
  lemma OthersKnown(s: State, t: State, i: nat, ip: uint32)
    requires Unique(s) && Unique(t) && i < |s.cache| == |t.cache|
    requires forall j :: 0 <= j < |s.cache| && j != i ==> t.cache[j] == s.cache[j]
    requires s.cache[i].state != Free ==> s.cache[i].addr != ip
    requires t.cache[i].state != Free ==> t.cache[i].addr != ip
    ensures Known(t, ip) == Known(s, ip)
  {
    match Find(s.cache, ip)
    case Some(j) => FoundAt(t.cache, j);
    case None =>
  }

  /** The sender is in the cache. */
  lemma MergedTable(s: State, net: Net, pkt: Packet, i: nat)
    requires Inv(s) && Accepted(pkt) && Find(s.cache, pkt.sndpa) == Some(i)
    ensures SameTable(s, net, pkt) <==> (s.cache[i].state == Resolved || ForUs(net, pkt))
  {
    var t := Receive(s, net, pkt).0;
    ReceiveKeepsInv(s, net, pkt);
    FoundAt(t.cache, i);
    assert Known(t, pkt.sndpa) == Some(pkt.sndha);
    forall ip: uint32 | ip != pkt.sndpa
      ensures Known(t, ip) == RfcKnown(s, net, pkt, ip)
    {
      OthersKnown(s, t, i, ip);
    }
  }

  /** The sender is put into slot k. */
  lemma InsertedTable(s: State, net: Net, pkt: Packet, k: nat)
    requires Inv(s) && Accepted(pkt) && Find(s.cache, pkt.sndpa).None? && RequestForUs(net, pkt)
    requires AllocSlot(s.cache) == Some(k)
    ensures SameTable(s, net, pkt) <==> s.cache[k].state == Free
  {
    var t := Receive(s, net, pkt).0;
    ReceiveKeepsInv(s, net, pkt);
    FoundAt(t.cache, k);
    forall ip: uint32 | ip != pkt.sndpa && (s.cache[k].state != Free ==> ip != s.cache[k].addr)
      ensures Known(t, ip) == RfcKnown(s, net, pkt, ip)
    {
      OthersKnown(s, t, k, ip);
    }
    if s.cache[k].state != Free {
      var lost := s.cache[k].addr;
      FoundAt(s.cache, k);
      assert Known(t, lost).None? && RfcKnown(s, net, pkt, lost).Some?;
    }
  }

  /** The table after a packet is that of the RFC exactly when the packet is not for ARP over
      Ethernet and IP, or its sender is in the table already, or it is for this host and its sender
      is either being asked for or, in anything but a reply, finds a free slot, or it is for
      another host and its sender is not being asked for.  It is replied to as the RFC says exactly
      when it is not for this host, or is a reply, or is a request and its sender has or gets a
      slot, or has another opcode and its sender gets none. */
  lemma PacketReception(s: State, net: Net, pkt: Packet)
    requires Inv(s)
    ensures SameTable(s, net, pkt) <==>
              || pkt.htype != 1 || pkt.ptype != 0x0800 || Known(s, pkt.sndpa).Some?
              || if ForUs(net, pkt) then BeingAsked(s, pkt.sndpa) || (pkt.op != 2 && FreeSlot(s))
                 else !BeingAsked(s, pkt.sndpa)
    ensures (Receive(s, net, pkt).1.Some? <==> RfcReplies(net, pkt)) <==>
              || pkt.htype != 1 || pkt.ptype != 0x0800 || !ForUs(net, pkt) || pkt.op == 2
              || (pkt.op == 1 <==> (Find(s.cache, pkt.sndpa).Some? || !AllPending(s)))
  {
    if Accepted(pkt) {
      match Find(s.cache, pkt.sndpa)
      case Some(i) => MergedTable(s, net, pkt, i);
      case None =>
        var t := Receive(s, net, pkt).0;
        if RequestForUs(net, pkt) && AllocSlot(s.cache).Some? {
          InsertedTable(s, net, pkt, AllocSlot(s.cache).value);
        } else {
          assert forall ip: uint32 :: Known(t, ip) == Known(s, ip);
          assert Known(t, pkt.sndpa).None?;
        }
    }
  }

  /** A reply that nobody has asked for: the RFC adds its sender to the empty table, arp_in does
      not. */
  lemma Unsolicited(net: Net, pkt: Packet)
    requires Accepted(pkt) && ForUs(net, pkt) && pkt.op == ARP_OP_RPLY
    ensures Inv(INIT) && Receive(INIT, net, pkt).1.None?
    ensures RfcKnown(INIT, net, pkt, pkt.sndpa) == Some(pkt.sndha) && Known(Receive(INIT, net, pkt).0, pkt.sndpa) == None
  {
    assert forall i :: 0 <= i < ARP_SIZ ==> INIT.cache[i].state == Free;
  }

  /** An answer for another host while its sender is being asked for: arp_in resolves the sender, the
      RFC does not look at it. */
  lemma Overheard() returns (s: State, pkt: Packet)
    ensures Run(INIT, Asking(1)) == Some(s) && Accepted(pkt) && !ForUs(QUIET, pkt)
    ensures Known(Receive(s, QUIET, pkt).0, pkt.sndpa) == Some(pkt.sndha) && RfcKnown(s, QUIET, pkt, pkt.sndpa) == None
  {
    s, pkt := Asked(1), ANSWER.pkt;
    RunAsking(1);
    assert Find(s.cache, 1) == Some(0);
    var t := Receive(s, QUIET, pkt).0;
    assert t.cache == s.cache[0 := Entry(Resolved, 1, 0, HEARD)];
    assert Find(t.cache, 1) == Some(0);
  }

  const HOST := Net(true, 7, 0, [2, 0, 0, 0, 0, 7], ZERO_MAC)

  /** A packet for host 7. */
  function ToHost(op: int, sender: uint32): Packet {
    Packet(HOST.ethucast, HEARD, ETH_ARP, ARP_HTYPE, ARP_PTYPE, ARP_HALEN, ARP_PALEN, op, HEARD, sender, ZERO_MAC, 7)
  }

  /** An opcode that is neither request nor reply: arp_in replies, the RFC does not. */
  lemma OtherOpcode(op: int)
    requires op != ARP_OP_REQ && op != ARP_OP_RPLY
    ensures Receive(INIT, HOST, ToHost(op, 1)).1.Some? && !RfcReplies(HOST, ToHost(op, 1))
  {
    assert forall i :: 0 <= i < ARP_SIZ ==> INIT.cache[i].state == Free;
    assert AllocSlot(INIT.cache).Some?;
  }

  lemma Evicted(s: State)
    requires s.cache == AskedCache(ARP_SIZ)[0 := Entry(Resolved, 1, 0, HEARD)]
    ensures Known(s, 1) == Some(HEARD) && Known(Receive(s, HOST, ToHost(ARP_OP_REQ, 100)).0, 1) == None
  {
    SlotTaken(s);
    assert Find(s.cache, 1) == Some(0);
    var t := Receive(s, HOST, ToHost(ARP_OP_REQ, 100)).0;
    assert t.cache == s.cache[0 := Entry(Resolved, 100, 0, HEARD)];
    assert Find(t.cache, 1) == None;
  }

  /** A request from a new host when all slots are in use and one is resolved: arp_in forgets the host
      of that one. */
  lemma LostEntry() returns (s: State)
    ensures Run(INIT, Asking(ARP_SIZ) + [ANSWER]) == Some(s) && Known(s, 1) == Some(HEARD)
    ensures var pkt := ToHost(ARP_OP_REQ, 100);
            RfcKnown(s, HOST, pkt, 1) == Some(HEARD) && Known(Receive(s, HOST, pkt).0, 1) == None
  {
    hide Receive, Known;
    RunAsking(ARP_SIZ);
    FirstAnswered();
    OneStep(Asked(ARP_SIZ), ANSWER);
    RunAppend(INIT, Asking(ARP_SIZ), [ANSWER]);
    s := Next(Asked(ARP_SIZ), ANSWER);
    Evicted(s);
  }
}
