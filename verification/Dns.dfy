/** The functions that write, read and skip domain names in packets. */
module Dns {
  import opened Machine
  import opened Options
  import opened Labels
  import opened DnsSpec

  const SYSERR: uint32 := 0xffff_ffff

  // ---------- dns_bldq ----------

  /** A byte counts modulo 256. */
  function Inc(b: byte): byte {
    (b as int + 1) % 256
  }

  /** The labels of the name so far, with their length bytes; the last begins at last. */
  ghost predicate Built(w: seq<byte>, parts: seq<seq<byte>>, last: nat) {
    && |parts| >= 1
    && w == EncodeLabels(parts)
    && last == |EncodeLabels(parts[..|parts| - 1])| < |w|
  }

  lemma BuiltStart()
    ensures Built([0], Split<byte>([], DOT), 0)
  {
    assert EncodeLabels([[]]) == [0] + [] + EncodeLabels([[]][1..]);
  }

  lemma BuiltDot(w: seq<byte>, parts: seq<seq<byte>>, last: nat)
    requires Built(w, parts, last)
    ensures Built(w + [0], Extended(parts, DOT), |w|)
  {
    EncodeAppend(parts, []);
    assert (parts + [[]])[..|parts|] == parts;
    assert w + [0] + [] == w + [0];
  }

  lemma BuiltChar(w: seq<byte>, parts: seq<seq<byte>>, last: nat, c: byte)
    requires Built(w, parts, last) && c != DOT
    ensures Built(w[last := Inc(w[last])] + [c], Extended(parts, c), last)
  {
    var init, l := parts[..|parts| - 1], parts[|parts| - 1];
    var e := EncodeLabels(init);
    assert parts == init + [l];
    EncodeAppend(init, l);
    EncodeAppend(init, l + [c]);
    assert Extended(parts, c)[..|parts| - 1] == init;
    assert w == e + [|l| % 256] + l;
    assert w[last := Inc(w[last])] + [c] == e + [(|l| + 1) % 256] + (l + [c]);
  }

  /** Between off and data the buffer holds the labels so far; elsewhere it is as it was. */
  ghost predicate Building(was: seq<byte>, now: seq<byte>, off: nat, data: nat, llptr: nat, parts: seq<seq<byte>>) {
    && off <= llptr < data <= |now| == |was|
    && Built(now[off..data], parts, llptr - off)
    && now[..off] == was[..off] && now[data..] == was[data..]
  }

  lemma BuildingStart(was: seq<byte>, now: seq<byte>, off: nat)
    requires off < |was| && now == was[off := 0]
    ensures Building(was, now, off, off + 1, off, Split<byte>([], DOT))
  {
    BuiltStart();
    assert now[off..off + 1] == [0];
  }

  lemma BuildingDot(was: seq<byte>, before: seq<byte>, now: seq<byte>, off: nat, data: nat, llptr: nat, parts: seq<seq<byte>>)
    requires Building(was, before, off, data, llptr, parts) && data < |was| && now == before[data := 0]
    ensures Building(was, now, off, data + 1, data, Extended(parts, DOT))
  {
    hide Built, Extended;
    BuiltDot(before[off..data], parts, llptr - off);
    assert now[off..data + 1] == before[off..data] + [0];
    assert now[data + 1..] == before[data..][1..] && was[data + 1..] == was[data..][1..];
  }

  lemma BuildingChar(was: seq<byte>, before: seq<byte>, now: seq<byte>, off: nat, data: nat, llptr: nat,
                     parts: seq<seq<byte>>, c: byte)
    requires Building(was, before, off, data, llptr, parts) && data < |was| && c != DOT
    requires now == before[data := c][llptr := Inc(before[llptr])]
    ensures Building(was, now, off, data + 1, llptr, Extended(parts, c))
  {
    hide Built, Extended, Inc;
    var w := before[off..data];
    BuiltChar(w, parts, llptr - off, c);
    assert w[llptr - off] == before[llptr];
    assert now[off..data + 1] == w[llptr - off := Inc(w[llptr - off])] + [c];
    assert now[data + 1..] == before[data..][1..] && was[data + 1..] == was[data..][1..];
  }

  /** The labels have all been written, and the rest of the question follows. */
  lemma QuestionComplete(was: seq<byte>, before: seq<byte>, now: seq<byte>, off: nat, data: nat, llptr: nat, dname: seq<byte>)
    requires Building(was, before, off, data, llptr, Split(dname, DOT)) && data + 5 <= |was|
    requires now == before[data := 0][data + 1 := 0][data + 2 := DNS_QT_A][data + 3 := 0][data + 4 := DNS_QC_IN]
    ensures |Question(dname)| == |dname| + 6 && data == off + |dname| + 1
    ensures now == was[..off] + Question(dname) + was[off + |dname| + 6..]
  {
    hide EncodeLabels, Split;
    EncodedLength(dname);
    var tail: seq<byte> := [0, 0, DNS_QT_A, 0, DNS_QC_IN];
    assert Question(dname) == EncodeLabels(Split(dname, DOT)) + tail;
    assert now[off..data + 5] == before[off..data] + tail;
    assert now[..off] == was[..off];
    assert now[data + 5..] == before[data..][5..] && was[data + 5..] == was[data..][5..];
    assert now == now[..off] + now[off..data + 5] + now[data + 5..];
  }

  lemma Untouched(was: seq<byte>, now: seq<byte>, off: nat, data: nat, llptr: nat, parts: seq<seq<byte>>)
    requires Building(was, now, off, data, llptr, parts)
    ensures off <= llptr < data <= |was| == |now|
    ensures forall k :: 0 <= k < off || data <= k < |was| ==> now[k] == was[k]
  {
    assert forall k :: 0 <= k < off ==> now[k] == now[..off][k] && was[k] == was[..off][k];
    assert forall k {:trigger now[k]} :: data <= k < |was| ==> now[k] == now[data..][k - data] && was[k] == was[data..][k - data];
  }

  lemma SplitMore(dname: seq<byte>, i: nat)
    requires i < |dname|
    ensures Split(dname[..i + 1], DOT) == Extended(Split(dname[..i], DOT), dname[i])
  {
    assert dname[..i + 1] == dname[..i] + [dname[i]];
    SplitAppend(dname[..i], dname[i]);
  }

  /** All that dns_bldq writes for a name: the question or, when it gives up, the labels of the first
      511 characters. */
  function Written(dname: seq<byte>): seq<byte> {
    if |dname| < 512 then Question(dname) else EncodeLabels(Split(dname[..511], DOT))
  }

  /** The room for data in a packet. */
  const DATA_SIZE := 500

  lemma WrittenSize(dname: seq<byte>)
    ensures |Written(dname)| == if |dname| < 512 then |dname| + 6 else 512
  {
    hide EncodeLabels, Split;
    EncodedLength(if |dname| < 512 then dname else dname[..511]);
  }

  /** It stays within the packet exactly for names of at most 494 characters, though the code checks
      for 512. */
  lemma WrittenFits(dname: seq<byte>)
    ensures |Written(dname)| <= DATA_SIZE <==> |dname| <= 494
  {
    WrittenSize(dname);
  }

  lemma QuestionSize(dname: seq<byte>)
    ensures |Question(dname)| == |dname| + 6
  {
    hide EncodeLabels, Split;
    EncodedLength(dname);
  }

  lemma WrittenShort(dname: seq<byte>)
    requires |dname| < 512
    ensures Written(dname) == Question(dname)
  {
  }

  lemma GaveUp(was: seq<byte>, now: seq<byte>, off: nat, data: nat, llptr: nat, dname: seq<byte>)
    requires |dname| >= 512 && data == off + 512 && Building(was, now, off, data, llptr, Split(dname[..511], DOT))
    ensures now == was[..off] + Written(dname) + was[off + 512..]
  {
    hide EncodeLabels, Split;
    assert now == now[..off] + now[off..data] + now[data..];
  }

  /** dns_bldq.  The length bytes are kept modulo 256 as the code keeps them, so this holds of every
      name, with empty and with long labels too. */
  method BldQ(dname: seq<byte>, buf: array<byte>, off: nat) returns (r: uint32)
    requires off + |Written(dname)| <= buf.Length
    modifies buf
    ensures r == if |dname| < 512 then |Question(dname)| else 0xffff_ffff
    ensures |Question(dname)| == |dname| + 6
    ensures off + |Written(dname)| <= buf.Length
    ensures buf[..] == old(buf[..])[..off] + Written(dname) + old(buf[..])[off + |Written(dname)|..]
  {
    hide Building, Built, Question, Written, Split, EncodeLabels, EncodeName, Extended, Inc;
    ghost var was, before := buf[..], buf[..];
    WrittenSize(dname);
    QuestionSize(dname);
    var dlen := |dname|;
    var data, llptr := off, off;
    data := data + 1;
    buf[llptr] := 0;
    var qlen, i := 1, 0;
    BuildingStart(was, buf[..], off);
    assert dname[..0] == [];
    while i < dlen
      invariant 0 <= i <= dlen && i <= 511 && qlen == 1 + i && data == off + qlen
      invariant Building(was, buf[..], off, data, llptr, Split(dname[..i], DOT))
    {
      Untouched(was, buf[..], off, data, llptr, Split(dname[..i], DOT));
      if qlen >= 512 {
        GaveUp(was, buf[..], off, data, llptr, dname);
        return SYSERR;
      }
      before := buf[..];
      SplitMore(dname, i);
      if dname[i] != DOT {
        buf[data] := dname[i];
        buf[llptr] := Inc(buf[llptr]);
        BuildingChar(was, before, buf[..], off, data, llptr, Split(dname[..i], DOT), dname[i]);
        data := data + 1;
      } else {
        buf[data] := 0;
        BuildingDot(was, before, buf[..], off, data, llptr, Split(dname[..i], DOT));
        llptr := data;
        data := data + 1;
      }
      qlen := qlen + 1;
      i := i + 1;
    }
    assert dname[..dlen] == dname;
    before := buf[..];
    BldTail(buf, data);
    QuestionComplete(was, before, buf[..], off, data, llptr, dname);
    WrittenShort(dname);
    return qlen + 1 + 2 + 2;
  }

  /** The end of the name, the type and the class. */
  method BldTail(buf: array<byte>, data: nat)
    requires data + 5 <= buf.Length
    modifies buf
    ensures buf[..] == old(buf[..])[data := 0][data + 1 := 0][data + 2 := DNS_QT_A][data + 3 := 0][data + 4 := DNS_QC_IN]
  {
    buf[data] := 0;
    buf[data + 1], buf[data + 2] := 0, DNS_QT_A;
    buf[data + 3], buf[data + 4] := 0, DNS_QC_IN;
  }

  // ---------- dns_getrname ----------

  /** The name has been read up to off: done is what has gone to the destination so far. */
  ghost predicate Reading(p: seq<byte>, son: nat, off: nat, limit: nat, done: seq<byte>) {
    && son <= off && limit <= |p|
    && NameAt(p, son, son, limit).Some? && NameAt(p, son, off, limit).Some?
    && NameAt(p, son, son, limit).value == done + NameAt(p, son, off, limit).value
    && EndOf(p, son) == EndOf(p, off)
    && Cleared(p, son, son, limit) == Cleared(p, son, off, limit)
  }

  lemma ReadingStart(p: seq<byte>, son: nat, limit: nat)
    requires limit <= |p| && NameAt(p, son, son, limit).Some?
    ensures Reading(p, son, son, limit, []) && son < limit
  {
    assert [] + NameAt(p, son, son, limit).value == NameAt(p, son, son, limit).value;
  }

  lemma ReadingLabel(p: seq<byte>, son: nat, off: nat, limit: nat, done: seq<byte>)
    requires Reading(p, son, off, limit, done) && off < |p| && 0 < p[off] <= 63
    ensures off + 1 + p[off] < limit
    ensures Reading(p, son, off + 1 + p[off], limit, done + p[off + 1..off + 1 + p[off]] + [DOT])
    ensures |done| + p[off] + 1 <= |NameAt(p, son, son, limit).value|
  {
    var text, rest := p[off + 1..off + 1 + p[off]], NameAt(p, son, off + 1 + p[off], limit).value;
    assert done + (text + [DOT] + rest) == done + text + [DOT] + rest;
  }

  lemma ReadingEnd(p: seq<byte>, son: nat, off: nat, limit: nat, done: seq<byte>)
    requires Reading(p, son, off, limit, done)
    ensures off < limit <= |p|
    ensures p[off] == 0 ==>
              && NameAt(p, son, son, limit) == Some(done)
              && EndOf(p, son) == Some(off + 1) && Cleared(p, son, son, limit) == p
  {
    assert done + [] == done;
  }

  lemma ReadingPointer(p: seq<byte>, son: nat, off: nat, limit: nat, done: seq<byte>)
    requires Reading(p, son, off, limit, done) && off < |p| && p[off] > 63
    ensures off + 2 <= limit && PointerAt(p, off) < son
    ensures var p', t := p[off := p[off] % 64], PointerAt(p, off);
            && NameAt(p', t, t, son).Some?
            && NameAt(p, son, son, limit).value == done + NameAt(p', t, t, son).value
            && Cleared(p, son, son, limit) == Cleared(p', t, t, son)
            && t == p'[off] as int * 256 + p'[off + 1]
    ensures EndOf(p, son) == Some(off + 2)
  {
    var p', t := p[off := p[off] % 64], PointerAt(p, off);
    assert p'[..son] == p[..son];
    NameLocal(p, p', t, t, son);
  }

  /** dns_getrname.  It reads the name at son, which uses no byte from limit on, to dst from d0 on,
      with a NUL behind it. */
  method Getrname(pkt: array<byte>, son0: nat, dst: array<byte>, d0: nat, ghost limit: nat) returns (r: nat)
    requires pkt != dst && limit <= pkt.Length && NameAt(pkt[..], son0, son0, limit).Some?
    requires d0 + |NameAt(pkt[..], son0, son0, limit).value| + 1 <= dst.Length
    modifies pkt, dst
    ensures var name := old(NameAt(pkt[..], son0, son0, limit).value);
            d0 + |name| + 1 <= dst.Length && dst[..] == old(dst[..])[..d0] + (name + [0]) + old(dst[..])[d0 + |name| + 1..]
    ensures EndOf(old(pkt[..]), son0) == Some(son0 + r)
    ensures pkt[..] == old(Cleared(pkt[..], son0, son0, limit))
    decreases limit
  {
    hide *;
    ghost var p, was, name := pkt[..], dst[..], NameAt(pkt[..], son0, son0, limit).value;
    ReadingStart(p, son0, limit);
    PutNothing(was, d0);
    var sson: nat, son: nat, d: nat := son0, son0, d0;
    var llen := pkt[son];
    son := son + 1;
    ghost var done: seq<byte> := [];
    while llen != 0
      invariant son0 < son <= pkt.Length && pkt[..] == p && llen == p[son - 1]
      invariant Reading(p, son0, son - 1, limit, done)
      invariant d == d0 + |done| <= |was| == dst.Length && dst[..] == Put(was, d0, done)
      decreases limit - son
    {
      ReadingEnd(p, son0, son - 1, limit, done);
      if llen <= 63 {
        ReadingLabel(p, son0, son - 1, limit, done);
        CopyBytes(pkt, son, dst, d, llen);
        ghost var text := p[son..son + llen];
        PastedLabel(was, d0, done, d, text);
        son, d := son + llen, d + llen;
        dst[d] := DOT;
        d := d + 1;
        done := done + text + [DOT];
        llen := pkt[son];
        son := son + 1;
      } else {
        ReadingPointer(p, son0, son - 1, limit, done);
        son := son - 1;
        pkt[son] := pkt[son] % 64;  // & 0x3f
        var offset: int := pkt[son] as int * 256;
        son := son + 1;
        offset := offset + pkt[son];
        son := son + 1;
        assert pkt[..] == p[son - 2 := p[son - 2] % 64];
        ghost var rest := NameAt(pkt[..], offset, offset, sson).value;
        var more := Getrname(pkt, offset, dst, d, sson);
        PutIs(Put(was, d0, done), d, rest);
        Pasted(was, d0, done, d, rest);
        PutIs(was, d0, name);
        return son - sson;
      }
    }
    ReadingEnd(p, son0, son - 1, limit, done);
    PastedEnd(was, d0, done, d);
    dst[d] := 0;
    PutIs(was, d0, name);
    return son - sson;
  }

  /** The destination with done from d0 on, and behind that as it was. */
  ghost function Put(was: seq<byte>, d0: nat, done: seq<byte>): seq<byte>
    requires d0 + |done| <= |was|
  {
    was[..d0] + done + was[d0 + |done|..]
  }

  lemma PutIs(was: seq<byte>, d0: nat, name: seq<byte>)
    requires d0 + |name| + 1 <= |was|
    ensures Put(was, d0, name + [0]) == was[..d0] + (name + [0]) + was[d0 + |name| + 1..]
  {
  }

  /** A text has been put, and a dot behind it. */
  lemma PastedLabel(was: seq<byte>, d0: nat, done: seq<byte>, d: nat, text: seq<byte>)
    requires d == d0 + |done| && d + |text| + 1 <= |was|
    ensures Put(Put(was, d0, done), d, text)[d + |text| := DOT] == Put(was, d0, done + text + [DOT])
  {
    assert Put(Put(was, d0, done), d, text) == Put(was, d0, done + text);
    assert Put(was, d0, done + text)[d + |text| := DOT] == Put(was, d0, (done + text) + [DOT]);
  }

  lemma PastedEnd(was: seq<byte>, d0: nat, done: seq<byte>, d: nat)
    requires d == d0 + |done| && d + 1 <= |was|
    ensures Put(was, d0, done)[d := 0] == Put(was, d0, done + [0])
  {
  }

  /** What the recursive call has put behind what was there. */
  lemma Pasted(was: seq<byte>, d0: nat, done: seq<byte>, d: nat, rest: seq<byte>)
    requires d == d0 + |done| && d + |rest| + 1 <= |was|
    ensures Put(Put(was, d0, done), d, rest + [0]) == Put(was, d0, (done + rest) + [0])
  {
  }

  lemma PutNothing(was: seq<byte>, d0: nat)
    requires d0 <= |was|
    ensures Put(was, d0, []) == was
  {
  }

  method CopyBytes(pkt: array<byte>, son: nat, dst: array<byte>, d: nat, llen: nat)
    requires pkt != dst && son + llen <= pkt.Length && d + llen <= dst.Length
    modifies dst
    ensures dst[..] == Put(old(dst[..]), d, pkt[son..son + llen])
  {
    ghost var was := dst[..];
    var i := 0;
    while i < llen
      invariant i <= llen
      invariant forall k {:trigger dst[k]} :: d <= k < d + i ==> dst[k] == pkt[son + (k - d)]
      invariant forall k {:trigger dst[k]} :: 0 <= k < dst.Length && !(d <= k < d + i) ==> dst[k] == was[k]
    {
      dst[d + i] := pkt[son + i];
      i := i + 1;
    }
  }
}
