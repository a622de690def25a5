/** How an address is found in a response: questions are skipped, answers are walked through. */
module DnsAnswer {
  import opened Machine
  import opened Options
  import opened Labels
  import opened DnsSpec
  import Dns

  const HEADER := 12
  const RNAME_SIZE := 256

  /** Two bytes in network order. */
  function U16(p: seq<byte>, off: nat): nat
    requires off + 2 <= |p|
  {
    p[off] as int * 256 + p[off + 1]
  }

  /** Where n questions end that begin at off. */
  ghost function AfterQuestions(p: seq<byte>, off: nat, n: nat): Option<nat>
    decreases n
  {
    if n == 0 then Some(off)
    else
      match EndOf(p, off)
      case None => None
      case Some(e) => AfterQuestions(p, e + 4, n - 1)
  }

  /** What the walk through the answers comes to: an address, none, or bytes that are not answers. */
  datatype Answer = Malformed | Missing | Hit(addr: seq<byte>)

  /** The walk through n answers that begin at off.  A name takes part in the packet as the names
      before it have left it. */
  ghost function Answers(p: seq<byte>, off: nat, n: nat, dname: seq<byte>): Answer
    decreases n
  {
    if n == 0 then Missing
    else
      match NameAt(p, off, off, |p|)
      case None => Malformed
      case Some(name) =>
        NameEnds(p, off, off, |p|);
        var e, p' := EndOf(p, off).value, Cleared(p, off, off, |p|);
        if |name| >= RNAME_SIZE || e + 10 > |p| then Malformed
        else if dname <= name && U16(p', e) == DNS_QT_A then
          if e + 14 > |p| then Malformed else Hit(p'[e + 10..e + 14])
        else Answers(p', e + 10 + U16(p', e + 8), n - 1, dname)
  }

  /** The whole of dns_geta on a response p. */
  ghost function Lookup(p: seq<byte>, dname: seq<byte>): Answer {
    if |p| < HEADER then Malformed
    else
      match AfterQuestions(p, HEADER, U16(p, 4))
      case None => Malformed
      case Some(off) => Answers(p, off, U16(p, 6), dname)
  }

  /** The loop over the questions.  It walks over labels on its own and stops behind a pointer. */
  method SkipQuestions(pkt: array<byte>, off: nat, qdcount: nat) returns (dptr: nat)
    requires AfterQuestions(pkt[..], off, qdcount).Some?
    ensures AfterQuestions(pkt[..], off, qdcount) == Some(dptr)
  {
    ghost var p := pkt[..];
    dptr := off;
    var i := 0;
    while i < qdcount
      invariant i <= qdcount && AfterQuestions(p, off, qdcount) == AfterQuestions(p, dptr, qdcount - i)
    {
      ghost var start := dptr;
      var llen := pkt[dptr];
      while llen != 0
        invariant dptr < |p| && llen == p[dptr] && EndOf(p, start) == EndOf(p, dptr)
        decreases |p| - dptr
      {
        if llen > 63 {
          dptr := dptr + 2;
          break;
        }
        dptr := dptr + 1 + llen as nat;
        llen := pkt[dptr];
      }
      if llen == 0 {
        dptr := dptr + 1;
      }
      dptr := dptr + 2 + 2;
      i := i + 1;
    }
  }

  /** strncmp on the name read and the whole of dname: whether it is 0. */
  method Matches(rname: array<byte>, dname: seq<byte>, ghost name: seq<byte>) returns (same: bool)
    requires 0 !in dname && |name| < rname.Length && rname[..|name| + 1] == name + [0]
    ensures same <==> dname <= name
  {
    assert forall k :: 0 <= k <= |name| ==> rname[k] == (name + [0])[k];
    var k := 0;
    while k < |dname| && rname[k] == dname[k]
      invariant k <= |dname| && k <= |name| && dname[..k] == name[..k]
    {
      if rname[k] == 0 {
        return true;
      }
      k := k + 1;
    }
    return k == |dname|;
  }

  method Geta(dname: seq<byte>, pkt: array<byte>) returns (addr: Option<seq<byte>>)
    requires 0 !in dname && Lookup(pkt[..], dname) != Malformed
    modifies pkt
    ensures match old(Lookup(pkt[..], dname))
            case Hit(a) => addr == Some(a)
            case _ => addr == None
  {
    hide NameAt, EndOf, Cleared;
    var qdcount := pkt[4] as int * 256 + pkt[5];
    var dptr: nat := SkipQuestions(pkt, HEADER, qdcount);
    var ancount := pkt[6] as int * 256 + pkt[7];
    ghost var p0, off := pkt[..], dptr;
    var i := 0;
    while i < ancount
      invariant i <= ancount && Answers(p0, off, ancount, dname) == Answers(pkt[..], dptr, ancount - i, dname)
    {
      ghost var p := pkt[..];
      ghost var name := NameAt(p, dptr, dptr, |p|).value;
      NameEnds(p, dptr, dptr, |p|);
      var rname := new byte[RNAME_SIZE];
      var dlen := Dns.Getrname(pkt, dptr, rname, 0, |p|);
      assert rname[..|name| + 1] == name + [0];
      dptr := dptr + dlen;
      var same := Matches(rname, dname, name);
      if same {
        if pkt[dptr] as int * 256 + pkt[dptr + 1] == DNS_QT_A {
          dptr := dptr + 10;
          return Some(pkt[dptr..dptr + 4]);
        }
      }
      dptr := dptr + 8;
      dptr := dptr + (2 + (pkt[dptr] as int * 256 + pkt[dptr + 1]));
      i := i + 1;
    }
    return None;
  }

  // ---------- responses to the questions of dns_bldq ----------

  /** The skip over a question of dns_bldq is as long as the question. */
  lemma QuestionSkipped(p: seq<byte>, off: nat, name: seq<byte>)
    requires Proper(name) && off + |Question(name)| <= |p|
    requires p[off..off + |Question(name)|] == Question(name)
    ensures |Question(name)| == |name| + 6
    ensures AfterQuestions(p, off, 1) == Some(off + |Question(name)|)
  {
    EncodedLength(name);
    var n := |Question(name)|;
    SliceOfSlice(p, off, n, 0, n - 4);
    assert Question(name)[0..n - 4] == EncodeName(name);
    EncodedNameRead(p, off, |p|, name);
    assert AfterQuestions(p, off + n, 0) == Some(off + n);
  }

  /** Wherever in a packet dns_bldq has put its question, dns_getrname reads the name back, with a dot
      behind it, and the skip ends where the question does. */
  lemma QuestionReadBack(before: seq<byte>, name: seq<byte>, after: seq<byte>)
    requires Proper(name)
    ensures var p, off := before + Question(name) + after, |before|;
            && NameAt(p, off, off, |p|) == Some(name + [DOT])
            && EndOf(p, off) == Some(off + |name| + 2)
            && AfterQuestions(p, off, 1) == Some(off + |Question(name)|)
            && p[off + |Question(name)|..] == after
  {
    hide NameAt, EndOf, Cleared, EncodeName, Proper;
    var p, off := before + Question(name) + after, |before|;
    NameSize(name);
    assert p[off..off + |Question(name)|] == Question(name);
    QuestionSkipped(p, off, name);
    assert p[off..off + |name| + 2] == Question(name)[..|name| + 2] == EncodeName(name);
    EncodedNameRead(p, off, |p|, name);
  }

  /** Questions in a row. */
  function Questions(names: seq<seq<byte>>): seq<byte> {
    if names == [] then [] else Question(names[0]) + Questions(names[1..])
  }

  /** The skip passes any number of questions of dns_bldq. */
  lemma {:induction false} QuestionsSkipped(p: seq<byte>, off: nat, names: seq<seq<byte>>)
    requires (forall k :: 0 <= k < |names| ==> Proper(names[k])) && off + |Questions(names)| <= |p|
    requires p[off..off + |Questions(names)|] == Questions(names)
    ensures AfterQuestions(p, off, |names|) == Some(off + |Questions(names)|)
    decreases |names|
  {
    hide Question, Proper, EndOf;
    if names != [] {
      var q, rest := Question(names[0]), Questions(names[1..]);
      assert p[off..off + |q|] == p[off..off + |Questions(names)|][..|q|] == q;
      var next := off + |q|;
      assert p[next..next + |rest|] == p[off..off + |Questions(names)|][|q|..] == rest;
      QuestionSkipped(p, off, names[0]);
      QuestionsSkipped(p, next, names[1..]);
      assert AfterQuestions(p, next, 0) == Some(next);
      SkipsTogether(p, off, |names|);
    }
  }

  /** One question and then the others. */
  lemma SkipsTogether(p: seq<byte>, off: nat, n: nat)
    requires n >= 1 && AfterQuestions(p, off, 1).Some?
    ensures AfterQuestions(p, off, n) == AfterQuestions(p, AfterQuestions(p, off, 1).value, n - 1)
  {
    hide EndOf;
    if EndOf(p, off).Some? {
      assert AfterQuestions(p, EndOf(p, off).value + 4, 0) == Some(EndOf(p, off).value + 4);
    }
  }

  lemma NameSize(name: seq<byte>)
    ensures |EncodeName(name)| == |name| + 2
  {
    EncodedLength(name);
  }

  /** In general the skip over a name is as long as what dns_getrname reads of it. */
  lemma SkipIsConsumed(p: seq<byte>, off: nat, limit: nat)
    requires limit <= |p| && NameAt(p, off, off, limit).Some?
    ensures EndOf(p, off).Some? && AfterQuestions(p, off, 1) == Some(EndOf(p, off).value + 4)
  {
    NameEnds(p, off, off, limit);
    assert AfterQuestions(p, EndOf(p, off).value + 4, 0) == Some(EndOf(p, off).value + 4);
  }

  /** A resource record: its owner as dns_getrname reads it, with a dot behind every label, and the bytes
      that stand for the owner in the record, with or without pointers. */
  datatype Record = Record(owner: seq<byte>, bytes: seq<byte>, rtype: nat, middle: seq<byte>, rdata: seq<byte>)

  /** The class and the time to live, which are not looked at, take six bytes. */
  predicate ProperRecord(rr: Record) {
    && |rr.owner| < RNAME_SIZE && rr.rtype < 0x1_0000 && |rr.middle| == 6 && |rr.rdata| < 0x1_0000
    && (rr.rtype == DNS_QT_A ==> |rr.rdata| == 4)
  }

  function Pair(n: nat): (b: seq<byte>)
    requires n < 0x1_0000
    ensures |b| == 2 && U16(b, 0) == n
  {
    [n / 256, n % 256]
  }

  function EncodeFixed(rr: Record): (b: seq<byte>)
    requires ProperRecord(rr)
    ensures |b| == 10 + |rr.rdata|
    ensures U16(b, 0) == rr.rtype && U16(b, 8) == |rr.rdata| && b[10..] == rr.rdata
  {
    Pair(rr.rtype) + rr.middle + Pair(|rr.rdata|) + rr.rdata
  }

  predicate ProperRecords(rrs: seq<Record>) {
    forall k :: 0 <= k < |rrs| ==> ProperRecord(rrs[k])
  }

  function EncodeRecords(rrs: seq<Record>): seq<byte>
    requires ProperRecords(rrs)
  {
    if rrs == [] then [] else rrs[0].bytes + EncodeFixed(rrs[0]) + EncodeRecords(rrs[1..])
  }

  /** Where the record behind one that begins at off begins. */
  function After(off: nat, rr: Record): nat {
    off + |rr.bytes| + 10 + |rr.rdata|
  }

  /** None of the names of the records that begin at off, with all that they point to, uses a byte at
      an offset in o. */
  ghost predicate Spared(o: set<nat>, p: seq<byte>, off: nat, rrs: seq<Record>)
    decreases |rrs|
  {
    rrs == [] || (Used(p, off, off, |p|) !! o && Spared(o, p, After(off, rrs[0]), rrs[1..]))
  }

  /** The bytes of the owners of the records that begin at off stand for these owners, and none of the
      owners needs a pointer that an earlier one has followed. */
  ghost predicate Sound(p: seq<byte>, off: nat, rrs: seq<Record>)
    decreases |rrs|
  {
    rrs == []
    || (var next := After(off, rrs[0]);
        && NameAt(p, off, off, |p|) == Some(rrs[0].owner) && EndOf(p, off) == Some(off + |rrs[0].bytes|)
        && Spared(Followed(p, off, off, |p|), p, next, rrs[1..])
        && Sound(p, next, rrs[1..]))
  }

  /** The record is taken for the answer to the name. */
  predicate Taken(rr: Record, name: seq<byte>) {
    rr.rtype == DNS_QT_A && name <= rr.owner
  }

  /** The data of the first record that is taken for the answer. */
  function FirstTaken(rrs: seq<Record>, name: seq<byte>): Answer {
    if rrs == [] then Missing
    else if Taken(rrs[0], name) then Hit(rrs[0].rdata)
    else FirstTaken(rrs[1..], name)
  }

  lemma {:induction false} StaysSpared(o: set<nat>, o': set<nat>, p: seq<byte>, p': seq<byte>, off: nat, rrs: seq<Record>)
    requires SameBut(p, p', o) && Sound(p, off, rrs) && Spared(o, p, off, rrs) && Spared(o', p, off, rrs)
    ensures Spared(o', p', off, rrs)
    decreases |rrs|
  {
    hide NameAt, EndOf, Used, Followed;
    if rrs != [] {
      NameSpared(p, p', o, off, off, |p|);
      StaysSpared(o, o', p, p', After(off, rrs[0]), rrs[1..]);
    }
  }

  /** Clearing bytes that no name uses leaves the names as they are. */
  lemma {:induction false} StaysSound(o: set<nat>, p: seq<byte>, p': seq<byte>, off: nat, rrs: seq<Record>)
    requires SameBut(p, p', o) && Sound(p, off, rrs) && Spared(o, p, off, rrs)
    ensures Sound(p', off, rrs)
    decreases |rrs|
  {
    hide NameAt, EndOf, Used, Followed;
    if rrs != [] {
      var next := After(off, rrs[0]);
      NameSpared(p, p', o, off, off, |p|);
      StaysSpared(o, Followed(p, off, off, |p|), p, p', next, rrs[1..]);
      StaysSound(o, p, p', next, rrs[1..]);
    }
  }

  /** One record is passed. */
  lemma RecordPassed(p: seq<byte>, off: nat, rrs: seq<Record>) returns (p': seq<byte>, e: nat, next: nat)
    requires ProperRecords(rrs) && rrs != [] && off <= |p| && p[off..] == EncodeRecords(rrs) && Sound(p, off, rrs)
    ensures NameAt(p, off, off, |p|) == Some(rrs[0].owner)
    ensures EndOf(p, off) == Some(e) && p' == Cleared(p, off, off, |p|)
    ensures next == e + 10 + |rrs[0].rdata| <= |p'| && p'[next..] == EncodeRecords(rrs[1..]) && Sound(p', next, rrs[1..])
    ensures U16(p', e) == rrs[0].rtype && U16(p', e + 8) == |rrs[0].rdata| && p'[e + 10..next] == rrs[0].rdata
  {
    hide NameAt, EndOf, Cleared, EncodeFixed, U16, Spared, Used, Followed;
    var rr, rest := rrs[0], EncodeRecords(rrs[1..]);
    var f := EncodeFixed(rr);
    e, next := off + |rr.bytes|, After(off, rr);
    assert p[off..] == rr.bytes + f + rest;
    p' := Cleared(p, off, off, |p|);
    var o := Followed(p, off, off, |p|);
    ClearedBut(p, off, off, |p|);
    StaysSound(o, p, p', next, rrs[1..]);
    FollowedWithin(p, off, off, |p|);
    assert p[e..] == p[off..][|rr.bytes|..] == f + rest;
    SameBehind(p, p', o, e);
    FixedRead(p', e, f, rest, rr);
    assert p'[next..] == p'[e..][|f|..] == rest;
  }

  lemma SameBehind(p: seq<byte>, p': seq<byte>, o: set<nat>, e: nat)
    requires SameBut(p, p', o) && e <= |p| && forall i :: i in o ==> i < e
    ensures p'[e..] == p[e..]
  {
  }

  lemma {:induction false} AnswersFound(p: seq<byte>, off: nat, name: seq<byte>, rrs: seq<Record>)
    requires ProperRecords(rrs) && off <= |p| && p[off..] == EncodeRecords(rrs) && Sound(p, off, rrs)
    ensures Answers(p, off, |rrs|, name) == FirstTaken(rrs, name)
    decreases |rrs|
  {
    hide NameAt, EndOf, Cleared, EncodeFixed, U16, EncodeRecords, Sound;
    if rrs != [] {
      var p', e, next := RecordPassed(p, off, rrs);
      AnswersFound(p', next, name, rrs[1..]);
    }
  }

  lemma FixedRead(p: seq<byte>, e: nat, f: seq<byte>, rest: seq<byte>, rr: Record)
    requires e <= |p| && p[e..] == f + rest && |f| >= 10 && |f| == 10 + |rr.rdata|
    requires U16(f, 0) == rr.rtype && U16(f, 8) == |rr.rdata| && f[10..] == rr.rdata
    ensures e + |f| <= |p| && U16(p, e) == rr.rtype && U16(p, e + 8) == |rr.rdata|
    ensures p[e + 10..e + |f|] == rr.rdata
  {
    assert forall k :: 0 <= k < |f| ==> p[e + k] == p[e..][k] == f[k];
    assert p[e + 10..e + |f|] == p[e..][10..|f|] == f[10..];
  }

  /** The response that repeats the question of dns_bldq and answers it. */
  function Response(header: seq<byte>, name: seq<byte>, rrs: seq<Record>): seq<byte>
    requires ProperRecords(rrs)
  {
    header + Question(name) + EncodeRecords(rrs)
  }

  /** It has one question, as many answers as there are records, and its pointers are sound. */
  ghost predicate ProperResponse(header: seq<byte>, name: seq<byte>, rrs: seq<Record>) {
    && Proper(name) && ProperRecords(rrs)
    && |header| == HEADER && U16(header, 4) == 1 && U16(header, 6) == |rrs|
    && Sound(Response(header, name, rrs), HEADER + |Question(name)|, rrs)
  }

  /** In such a response dns_geta finds the data of the first address record whose owner, with a dot
      behind it, begins with the name asked for. */
  lemma ResponseRead(header: seq<byte>, name: seq<byte>, rrs: seq<Record>)
    requires ProperResponse(header, name, rrs)
    ensures Lookup(Response(header, name, rrs), name) == FirstTaken(rrs, name)
  {
    hide NameAt, EndOf, Cleared, EncodeName, Proper, ProperRecords, EncodeRecords, Answers, Sound, Question;
    var q, a := Question(name), EncodeRecords(rrs);
    var p := Response(header, name, rrs);
    HeaderRead(header, q + a);
    assert p == header + (q + a);
    assert p[HEADER..HEADER + |q|] == q;
    QuestionSkipped(p, HEADER, name);
    assert p[HEADER + |q|..] == a;
    AnswersFound(p, HEADER + |q|, name, rrs);
  }

  lemma HeaderRead(header: seq<byte>, rest: seq<byte>)
    requires |header| == HEADER
    ensures U16(header + rest, 4) == U16(header, 4) && U16(header + rest, 6) == U16(header, 6)
  {
  }

  /** The owner is written out, or is the name of the question and a pointer to it. */
  predicate Plain(rr: Record, name: seq<byte>) {
    || (|rr.owner| > 0
        && var n := rr.owner[..|rr.owner| - 1]; Proper(n) && rr.owner == n + [DOT] && rr.bytes == EncodeName(n))
    || (rr.owner == name + [DOT] && rr.bytes == [192, HEADER])
  }

  lemma PlainStands(p: seq<byte>, off: nat, name: seq<byte>, rr: Record)
    requires Proper(name) && Plain(rr, name) && HEADER + |name| + 2 <= off && off + |rr.bytes| <= |p|
    requires p[HEADER..HEADER + |name| + 2] == EncodeName(name) && p[off..off + |rr.bytes|] == rr.bytes
    ensures NameAt(p, off, off, |p|) == Some(rr.owner) && EndOf(p, off) == Some(off + |rr.bytes|)
    ensures forall i :: i in Used(p, off, off, |p|) ==> off <= i || i < HEADER + |name| + 2
    ensures Followed(p, off, off, |p|) <= {off}
  {
    hide EncodeName, Proper, NameAt, EndOf, Cleared, Used, Followed, Stretch;
    if rr.bytes == [192, HEADER] && rr.owner == name + [DOT] {
      assert p[off] == p[off..off + 2][0] && p[off + 1] == p[off..off + 2][1];
      PointerRead(p, off, |p|, HEADER, name);
      PointerUsed(p, off, |p|, HEADER, name);
    } else {
      var n := rr.owner[..|rr.owner| - 1];
      NameSize(n);
      EncodedNameRead(p, off, |p|, n);
      EncodedNameUsed(p, off, |p|, n);
    }
  }

  lemma FirstRecord(p: seq<byte>, off: nat, rrs: seq<Record>)
    requires ProperRecords(rrs) && rrs != [] && off <= |p| && p[off..] == EncodeRecords(rrs)
    ensures off + |rrs[0].bytes| <= After(off, rrs[0]) <= |p| && p[off..off + |rrs[0].bytes|] == rrs[0].bytes
    ensures p[After(off, rrs[0])..] == EncodeRecords(rrs[1..])
  {
    hide EncodeFixed;
    var rr := rrs[0];
    assert p[off..] == rr.bytes + EncodeFixed(rr) + EncodeRecords(rrs[1..]);
    assert p[off..off + |rr.bytes|] == p[off..][..|rr.bytes|];
    assert p[After(off, rr)..] == p[off..][|rr.bytes| + 10 + |rr.rdata|..];
  }

  /** Plain owners use no bytes between the name in the question and the first of them. */
  lemma {:induction false} PlainSpared(o: set<nat>, p: seq<byte>, off: nat, name: seq<byte>, rrs: seq<Record>)
    requires Proper(name) && ProperRecords(rrs) && (forall k :: 0 <= k < |rrs| ==> Plain(rrs[k], name))
    requires HEADER + |name| + 2 <= off <= |p| && p[HEADER..HEADER + |name| + 2] == EncodeName(name)
    requires p[off..] == EncodeRecords(rrs) && forall i :: i in o ==> HEADER + |name| + 2 <= i < off
    ensures Spared(o, p, off, rrs)
    decreases |rrs|
  {
    hide Plain, EncodeName, EncodeRecords, Proper, Used;
    if rrs != [] {
      FirstRecord(p, off, rrs);
      PlainStands(p, off, name, rrs[0]);
      PlainSpared(o, p, After(off, rrs[0]), name, rrs[1..]);
    }
  }

  lemma {:induction false} PlainSound(p: seq<byte>, off: nat, name: seq<byte>, rrs: seq<Record>)
    requires Proper(name) && ProperRecords(rrs) && (forall k :: 0 <= k < |rrs| ==> Plain(rrs[k], name))
    requires HEADER + |name| + 2 <= off <= |p| && p[HEADER..HEADER + |name| + 2] == EncodeName(name)
    requires p[off..] == EncodeRecords(rrs)
    ensures Sound(p, off, rrs)
    decreases |rrs|
  {
    hide Plain, EncodeName, EncodeRecords, Proper, Used, Spared, NameAt, EndOf, Followed;
    if rrs != [] {
      var next := After(off, rrs[0]);
      FirstRecord(p, off, rrs);
      PlainStands(p, off, name, rrs[0]);
      OwnerBytes(p, off, name, rrs[0]);
      PlainSpared(Followed(p, off, off, |p|), p, next, name, rrs[1..]);
      PlainSound(p, next, name, rrs[1..]);
    }
  }

  lemma OwnerBytes(p: seq<byte>, off: nat, name: seq<byte>, rr: Record)
    requires Plain(rr, name)
    ensures |rr.bytes| > 0
  {
  }

  /** Owners that are written out, or point to the name in the question, are sound in every
      response. */
  lemma QuestionPointers(header: seq<byte>, name: seq<byte>, rrs: seq<Record>)
    requires Proper(name) && ProperRecords(rrs) && |header| == HEADER && forall k :: 0 <= k < |rrs| ==> Plain(rrs[k], name)
    ensures Sound(Response(header, name, rrs), HEADER + |Question(name)|, rrs)
  {
    hide EncodeName, EncodeRecords, Proper, ProperRecords, Sound, Plain;
    NameSize(name);
    var p, q := Response(header, name, rrs), Question(name);
    assert p[HEADER..HEADER + |name| + 2] == q[..|name| + 2] == EncodeName(name);
    assert p[HEADER + |q|..] == EncodeRecords(rrs);
    PlainSound(p, HEADER + |q|, name, rrs);
  }

  // ---------- the room for a name ----------

  /** The buffer of dns_geta holds a name that is written out, with its dot and the NUL, exactly when it
      has at most 254 characters; dns_getrname does not check. */
  lemma OwnerFits(p: seq<byte>, off: nat, name: seq<byte>)
    requires Proper(name) && off + |name| + 2 <= |p| && p[off..off + |name| + 2] == EncodeName(name)
    ensures NameAt(p, off, off, |p|) == Some(name + [DOT])
    ensures |name + [DOT]| + 1 <= RNAME_SIZE <==> |name| <= 254
  {
    EncodedNameRead(p, off, |p|, name);
  }

  /** Labels of 63 letters. */
  function LongLabels(n: nat): (parts: seq<seq<byte>>)
    ensures |parts| == n && forall k :: 0 <= k < n ==> |parts[k]| == 63 && DOT !in parts[k]
  {
    seq(n, _ => seq(63, _ => 97))
  }

  /** A name of five of them. */
  function LongOwner(): seq<byte> {
    Join(LongLabels(5), DOT)
  }

  lemma {:induction false} JoinSize(parts: seq<seq<byte>>)
    requires |parts| >= 1 && forall k :: 0 <= k < |parts| ==> |parts[k]| == 63
    ensures |Join(parts, DOT)| == 64 * |parts| - 1
    decreases |parts|
  {
    if |parts| > 1 {
      JoinSize(parts[1..]);
    }
  }

  lemma LongOwnerIs()
    ensures |LongOwner()| == 319 && Proper(LongOwner())
  {
    hide Join, Split;
    JoinSize(LongLabels(5));
    SplitJoin(LongLabels(5), DOT);
  }

  const ONE_ANSWER: seq<byte> := [0, 1, 0, 0, 0, 0, 0, 1, 0, 0, 0, 0]

  /** A packet of 343 bytes with such an owner: it is read, and does not fit. */
  lemma OwnerTooLong()
    ensures var p := ONE_ANSWER + EncodeName(LongOwner()) + seq(10, _ => 0);
            && AfterQuestions(p, HEADER, U16(p, 4)) == Some(HEADER)
            && NameAt(p, HEADER, HEADER, |p|) == Some(LongOwner() + [DOT]) && |LongOwner() + [DOT]| + 1 > RNAME_SIZE
  {
    hide EncodeName, LongOwner, Proper;
    LongOwnerIs();
    var name := LongOwner();
    NameSize(name);
    var p := ONE_ANSWER + EncodeName(name) + seq(10, _ => 0);
    assert p[HEADER..HEADER + |name| + 2] == EncodeName(name);
    assert p[4] == 0 && p[5] == 0;
    assert U16(p, 4) == 0;
    assert AfterQuestions(p, HEADER, 0) == Some(HEADER);
    OwnerFits(p, HEADER, name);
  }

  /** The number of the first record that is taken, and that of the first that should be. */
  ghost function IndexTaken(rrs: seq<Record>, name: seq<byte>): (k: nat)
    ensures k <= |rrs| && (k < |rrs| ==> Taken(rrs[k], name)) && forall j :: 0 <= j < k ==> !Taken(rrs[j], name)
  {
    if rrs == [] || Taken(rrs[0], name) then 0
    else
      var k := IndexTaken(rrs[1..], name);
      assert forall j :: 1 <= j <= k ==> rrs[j] == rrs[1..][j - 1] || j == |rrs|;
      1 + k
  }

  predicate Asked(rr: Record, name: seq<byte>) {
    rr.rtype == DNS_QT_A && rr.owner == name + [DOT]
  }

  ghost function IndexAsked(rrs: seq<Record>, name: seq<byte>): (k: nat)
    ensures k <= |rrs| && (k < |rrs| ==> Asked(rrs[k], name)) && forall j :: 0 <= j < k ==> !Asked(rrs[j], name)
  {
    if rrs == [] || Asked(rrs[0], name) then 0
    else
      var k := IndexAsked(rrs[1..], name);
      assert forall j :: 1 <= j <= k ==> rrs[j] == rrs[1..][j - 1] || j == |rrs|;
      1 + k
  }

  lemma {:induction false} FirstTakenAt(rrs: seq<Record>, name: seq<byte>)
    ensures var k := IndexTaken(rrs, name);
            FirstTaken(rrs, name) == if k < |rrs| then Hit(rrs[k].rdata) else Missing
    decreases |rrs|
  {
    if rrs != [] {
      FirstTakenAt(rrs[1..], name);
    }
  }

  /** dns_geta gives the data of a record k.  If there is an address record of the host asked for,
      k is one exactly when no address record before the first such one has an owner that merely
      begins with the name; if there is none, dns_geta finds nothing exactly when no address record
      at all has such an owner. */
  lemma ExactAnswer(header: seq<byte>, name: seq<byte>, rrs: seq<Record>)
    requires ProperResponse(header, name, rrs)
    ensures var found, k, e := Lookup(Response(header, name, rrs), name), IndexTaken(rrs, name), IndexAsked(rrs, name);
            && found == (if k < |rrs| then Hit(rrs[k].rdata) else Missing)
            && (e < |rrs| ==> k < |rrs| && (Asked(rrs[k], name) <==> forall j :: 0 <= j < e ==> !Taken(rrs[j], name)))
            && (e == |rrs| ==> (found == Missing <==> forall j :: 0 <= j < |rrs| ==> !Taken(rrs[j], name)))
  {
    hide Lookup, Response, ProperResponse, Sound, ProperRecords;
    ResponseRead(header, name, rrs);
    FirstTakenAt(rrs, name);
    var e := IndexAsked(rrs, name);
    if e < |rrs| {
      assert name <= name + [DOT];
      assert Taken(rrs[e], name);
    }
  }

  const OTHER := Record([97, 98, 99, DOT], [3, 97, 98, 99, 0], DNS_QT_A, [0, 1, 0, 0, 0, 0], [10, 0, 0, 1])

  const OTHER_HEADER: seq<byte> := [0, 1, 0, 0, 0, 1, 0, 1, 0, 0, 0, 0]

  lemma OtherEncoded()
    ensures Proper([97, 98, 99]) && EncodeName([97, 98, 99]) == [3, 97, 98, 99, 0]
  {
    var owner: seq<byte> := [97, 98, 99];
    SplitFirst(owner, DOT, 3);
    assert EncodeLabels([owner]) == [3] + owner + EncodeLabels([owner][1..]);
  }

  /** A query for ab that is answered with the address of abc. */
  lemma OtherHost()
    ensures ProperResponse(OTHER_HEADER, [97, 98], [OTHER]) && !Asked(OTHER, [97, 98])
    ensures Lookup(Response(OTHER_HEADER, [97, 98], [OTHER]), [97, 98]) == Hit([10, 0, 0, 1])
  {
    hide Lookup, Response, Sound;
    var name: seq<byte> := [97, 98];
    OtherEncoded();
    assert OTHER.owner[..3] == [97, 98, 99];
    SplitFirst(name, DOT, 2);
    QuestionPointers(OTHER_HEADER, name, [OTHER]);
    ResponseRead(OTHER_HEADER, name, [OTHER]);
  }

  const ALIAS := Record([97, DOT], [192, 12], 5, [0, 1, 0, 0, 0, 0], [1, 98, 192, 12])

  const ALIASED := Record([98, DOT, 97, DOT], [192, 31], DNS_QT_A, [0, 1, 0, 0, 0, 0], [10, 0, 0, 1])

  const ALIAS_HEADER: seq<byte> := [0, 1, 0, 0, 0, 1, 0, 2, 0, 0, 0, 0]

  lemma AliasQuestion()
    ensures Proper([97]) && Question([97]) == [1, 97, 0, 0, 1, 0, 1]
  {
    var name: seq<byte> := [97];
    SplitFirst(name, DOT, 1);
    assert EncodeLabels([name]) == [1] + name + EncodeLabels([name][1..]);
  }

  lemma TwoRecords(a: Record, b: Record)
    requires ProperRecord(a) && ProperRecord(b)
    ensures EncodeRecords([a, b]) == a.bytes + EncodeFixed(a) + (b.bytes + EncodeFixed(b))
  {
    hide EncodeFixed;
    assert [a, b][1..] == [b] && [b][1..] == [];
    assert EncodeRecords([]) == [];
    assert EncodeRecords([b]) == b.bytes + EncodeFixed(b) + EncodeRecords([b][1..]);
  }

  /** The bytes of the names in the response to a query for a, which says that a is an alias of b.a and
      gives the address of b.a. */
  lemma AliasBytes(p: seq<byte>)
    requires p == Response(ALIAS_HEADER, [97], [ALIAS, ALIASED])
    ensures |p| == 51 && p[12..15] == [1, 97, 0] && p[19..21] == [192, 12]
    ensures p[31..35] == [1, 98, 192, 12] && p[35..37] == [192, 31]
  {
    hide EncodeRecords, EncodeFixed, Question;
    AliasQuestion();
    TwoRecords(ALIAS, ALIASED);
    var h, q := ALIAS_HEADER, Question([97]);
    var a, b := ALIAS.bytes + EncodeFixed(ALIAS), ALIASED.bytes + EncodeFixed(ALIASED);
    assert a[..2] == ALIAS.bytes && b[..2] == ALIASED.bytes;
    assert a[12..16] == a[2..][10..] == EncodeFixed(ALIAS)[10..];
    FourParts(h, q, a, b);
    assert p == h + q + (a + b);
  }

  lemma FourParts(h: seq<byte>, q: seq<byte>, a: seq<byte>, b: seq<byte>)
    requires |h| == 12 && |q| == 7 && |a| == |b| == 16
    ensures var p := h + q + (a + b);
            |p| == 51 && p[12..15] == q[..3] && p[19..21] == a[..2] && p[31..35] == a[12..16] && p[35..37] == b[..2]
  {
  }

  lemma AliasNames(p: seq<byte>)
    requires |p| == 51 && p[12..15] == [1, 97, 0] && p[19..21] == [192, 12]
    requires p[31..35] == [1, 98, 192, 12] && p[35..37] == [192, 31]
    ensures NameAt(p, 19, 19, 51) == Some([97, DOT]) && EndOf(p, 19) == Some(21) && Followed(p, 19, 19, 51) == {19}
    ensures NameAt(p, 35, 35, 51) == Some([98, DOT, 97, DOT]) && EndOf(p, 35) == Some(37) && 19 !in Used(p, 35, 35, 51)
  {
    hide NameAt, EndOf, Used, Followed;
    NameA(p, 19);
    NameA(p, 31);
    assert p[19] == p[19..21][0] && p[20] == p[19..21][1];
    assert p[31] == p[31..35][0] && p[32] == p[31..35][1] && p[33] == p[31..35][2] && p[34] == p[31..35][3];
    assert p[35] == p[35..37][0] && p[36] == p[35..37][1];
    NamePointer(p, 19, 19, 51);
    NamePointer(p, 31, 33, 35);
    NameLabel(p, 31, 31, 35);
    NamePointer(p, 35, 35, 51);
    assert p[32..33] + [DOT] + [97, DOT] == [98, DOT, 97, DOT];
  }

  lemma NameA(p: seq<byte>, limit: nat)
    requires 15 <= limit <= |p| && p[12..15] == [1, 97, 0]
    ensures NameAt(p, 12, 12, limit) == Some([97, DOT]) && Followed(p, 12, 12, limit) == {} && 19 !in Used(p, 12, 12, limit)
  {
    assert p[12] == p[12..15][0] && p[13] == p[12..15][1] && p[14] == p[12..15][2];
    assert NameAt(p, 12, 14, limit) == Some([]);
    assert p[13..14] + [DOT] + [] == [97, DOT];
  }

  /** One pointer of a name, and one label. */
  lemma NamePointer(p: seq<byte>, start: nat, off: nat, limit: nat)
    requires start <= off && off + 2 <= limit <= |p| && p[off] > 63 && PointerAt(p, off) < start
    ensures var t := PointerAt(p, off);
            && NameAt(p, start, off, limit) == NameAt(p, t, t, start) && EndOf(p, off) == Some(off + 2)
            && Used(p, start, off, limit) == {off, off + 1} + Used(p, t, t, start)
            && Followed(p, start, off, limit) == {off} + Followed(p, t, t, start)
  {
  }

  lemma NameLabel(p: seq<byte>, start: nat, off: nat, limit: nat)
    requires start <= off && limit <= |p| && off < limit && 0 < p[off] <= 63 && off + 1 + p[off] <= limit
    requires NameAt(p, start, off + 1 + p[off], limit).Some?
    ensures var next := off + 1 + p[off];
            && NameAt(p, start, off, limit) == Some(p[off + 1..next] + [DOT] + NameAt(p, start, next, limit).value)
            && Used(p, start, off, limit) == Stretch(off, next) + Used(p, start, next, limit)
  {
  }

  /** The address is in the response, behind a name with a label and a pointer; dns_geta does not follow
      the alias and finds nothing. */
  lemma AliasMissed()
    ensures ProperResponse(ALIAS_HEADER, [97], [ALIAS, ALIASED])
    ensures Lookup(Response(ALIAS_HEADER, [97], [ALIAS, ALIASED]), [97]) == Missing
  {
    hide Lookup, Response, NameAt, EndOf, Used, Followed, Question, Proper;
    var rrs := [ALIAS, ALIASED];
    var p := Response(ALIAS_HEADER, [97], rrs);
    AliasQuestion();
    AliasBytes(p);
    AliasNames(p);
    assert rrs[1..] == [ALIASED] && rrs[1..][1..] == [];
    assert Spared({19}, p, 35, [ALIASED]);
    assert Sound(p, 35, [ALIASED]);
    assert Sound(p, 19, rrs);
    ResponseRead(ALIAS_HEADER, [97], rrs);
    AliasNotTaken();
  }

  lemma AliasNotTaken()
    ensures FirstTaken([ALIAS, ALIASED], [97]) == Missing
  {
    var rrs := [ALIAS, ALIASED];
    assert rrs[1..] == [ALIASED] && rrs[1..][1..] == [];
    assert ALIASED.owner[0] == 98;
    assert FirstTaken([ALIASED], [97]) == Missing;
  }
}
