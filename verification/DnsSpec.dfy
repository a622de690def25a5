/** Domain names in packets: labels with their lengths, and pointers to earlier names. */
module DnsSpec {
  import opened Machine
  import opened Options
  import opened Labels

  const DOT: byte := 46
  const DNS_QT_A := 1
  const DNS_QC_IN := 1

  // ---------- encoding ----------

  /** Labels, each behind a byte with its length, as far as that goes into a byte. */
  function EncodeLabels(parts: seq<seq<byte>>): seq<byte> {
    if parts == [] then [] else [|parts[0]| % 256] + parts[0] + EncodeLabels(parts[1..])
  }

  /** A name as it goes into a packet.  With labels of at most 63 bytes this is RFC 1035, section 3.1,
      which does not know longer ones. */
  function EncodeName(name: seq<byte>): seq<byte> {
    EncodeLabels(Split(name, DOT)) + [0]
  }

  /** A question for the address of a name: with such labels, RFC 1035, section 4.1.2. */
  function Question(name: seq<byte>): seq<byte> {
    EncodeName(name) + [0, DNS_QT_A, 0, DNS_QC_IN]
  }

  /** The question for a.b. */
  lemma QuestionOfTwo()
    ensures Question([97, 46, 98]) == [1, 97, 1, 98, 0, 0, 1, 0, 1]
  {
    var name: seq<byte> := [97, 46, 98];
    assert name[..1] == [97] && name[2..] == [98];
    SplitFirst(name, DOT, 1);
    SplitFirst(name[2..], DOT, 1);
    assert Split(name, DOT) == [[97], [98]];
    assert [[97], [98]][1..] == [[98]] && [[98]][1..] == [];
    assert EncodeLabels([]) == [];
    assert EncodeLabels([[98]]) == [1] + [98] + [];
    assert EncodeLabels([[97], [98]]) == [1] + [97] + [1, 98];
  }

  lemma {:induction false} EncodeAppend(parts: seq<seq<byte>>, last: seq<byte>)
    ensures EncodeLabels(parts + [last]) == EncodeLabels(parts) + [|last| % 256] + last
  {
    if parts == [] {
      assert (parts + [last])[1..] == [];
      assert EncodeLabels(parts + [last]) == [|last| % 256] + last + [];
    } else {
      assert (parts + [last])[1..] == parts[1..] + [last];
      EncodeAppend(parts[1..], last);
    }
  }

  lemma {:induction false} EncodedLength(name: seq<byte>)
    ensures |EncodeLabels(Split(name, DOT))| == |name| + 1
  {
    if name == [] {
      assert EncodeLabels([[]]) == [0] + [] + EncodeLabels([[]][1..]);
    } else {
      EncodedLength(name[1..]);
      var parts := Split(name[1..], DOT);
      if name[0] == DOT {
        assert ([[]] + parts)[1..] == parts;
      } else {
        assert Split(name, DOT)[1..] == parts[1..];
      }
    }
  }

  /** The labels with one more character: it goes to the last label, or a dot starts a new one. */
  ghost function Extended(parts: seq<seq<byte>>, c: byte): seq<seq<byte>>
    requires |parts| >= 1
  {
    if c == DOT then parts + [[]] else parts[..|parts| - 1] + [parts[|parts| - 1] + [c]]
  }

  lemma ExtendLater(parts: seq<seq<byte>>, first: seq<byte>, c: byte)
    requires |parts| >= 1
    ensures Extended([first] + parts, c) == [first] + Extended(parts, c)
  {
    assert ([first] + parts)[..|parts|] == [first] + parts[..|parts| - 1];
  }

  lemma ExtendFirst(parts: seq<seq<byte>>, x: byte, c: byte)
    requires |parts| >= 1
    ensures Extended([[x] + parts[0]] + parts[1..], c) == [[x] + Extended(parts, c)[0]] + Extended(parts, c)[1..]
  {
    if |parts| == 1 {
      assert ([x] + parts[0]) + [c] == [x] + (parts[0] + [c]);
    }
  }

  lemma {:induction false} SplitAppend(name: seq<byte>, c: byte)
    ensures Split(name + [c], DOT) == Extended(Split(name, DOT), c)
  {
    if name == [] {
      assert (name + [c])[1..] == [];
      assert Split<byte>([], DOT) == [[]];
      assert [c] + [] == [] + [c];
    } else {
      assert (name + [c])[1..] == name[1..] + [c];
      SplitAppend(name[1..], c);
      var parts, more := Split(name[1..], DOT), Split(name[1..] + [c], DOT);
      if name[0] == DOT {
        ExtendLater(parts, [], c);
      } else {
        ExtendFirst(parts, name[0], c);
      }
    }
  }

  // ---------- decoding ----------

  /** The name whose first byte is at start, read on from off; it may use no byte from limit on.
      Its labels get a dot each.  A byte above 63 begins a pointer, and what that points to must lie
      wholly before start.  None if the bytes are not a name of this form. */
  ghost function NameAt(p: seq<byte>, start: nat, off: nat, limit: nat): Option<seq<byte>>
    requires start <= off && limit <= |p|
    decreases limit, limit - off
  {
    if off >= limit then None
    else if p[off] == 0 then Some([])
    else if p[off] <= 63 then
      if off + 1 + p[off] > limit then None
      else
        match NameAt(p, start, off + 1 + p[off], limit)
        case None => None
        case Some(rest) => Some(p[off + 1..off + 1 + p[off]] + [DOT] + rest)
    else if off + 2 > limit then None
    else if PointerAt(p, off) >= start then None
    else NameAt(p, PointerAt(p, off), PointerAt(p, off), start)
  }

  /** The offset in a pointer: its two bytes without the two highest bits. */
  ghost function PointerAt(p: seq<byte>, off: nat): nat
    requires off + 2 <= |p|
  {
    (p[off] % 64) as int * 256 + p[off + 1]
  }

  /** The packet after the name has been read: the highest bits of its pointers have been cleared. */
  ghost function Cleared(p: seq<byte>, start: nat, off: nat, limit: nat): (r: seq<byte>)
    requires start <= off && limit <= |p|
    ensures |r| == |p|
    decreases limit, limit - off
  {
    if off >= limit || p[off] == 0 then p
    else if p[off] <= 63 then
      if off + 1 + p[off] > limit then p else Cleared(p, start, off + 1 + p[off], limit)
    else if off + 2 > limit || PointerAt(p, off) >= start then p
    else Cleared(p[off := p[off] % 64], PointerAt(p, off), PointerAt(p, off), start)
  }

  /** Where the bytes of a name end in place, whatever it points to. */
  ghost function EndOf(p: seq<byte>, off: nat): Option<nat>
    decreases |p| - off
  {
    if off >= |p| then None
    else if p[off] == 0 then Some(off + 1)
    else if p[off] <= 63 then EndOf(p, off + 1 + p[off])
    else Some(off + 2)
  }

  /** A name can be read only if it ends, and it ends within the limit. */
  lemma {:induction false} NameEnds(p: seq<byte>, start: nat, off: nat, limit: nat)
    requires start <= off && limit <= |p| && NameAt(p, start, off, limit).Some?
    ensures EndOf(p, off).Some? && off < EndOf(p, off).value <= limit
    decreases limit, limit - off
  {
    if 0 < p[off] <= 63 {
      NameEnds(p, start, off + 1 + p[off], limit);
    }
  }

  lemma SameSlice(p: seq<byte>, p': seq<byte>, limit: nat, i: nat, e: nat)
    requires i <= e <= limit <= |p| && limit <= |p'| && p[..limit] == p'[..limit]
    ensures p[i..e] == p'[i..e]
  {
    assert p[i..e] == p[..limit][i..e];
    assert p'[i..e] == p'[..limit][i..e];
  }

  /** Only the bytes before the limit matter. */
  lemma {:induction false} NameLocal(p: seq<byte>, p': seq<byte>, start: nat, off: nat, limit: nat)
    requires start <= off && limit <= |p| && limit <= |p'| && p[..limit] == p'[..limit]
    ensures NameAt(p, start, off, limit) == NameAt(p', start, off, limit)
    decreases limit, limit - off
  {
    if off < limit {
      assert p[off] == p[..limit][off] == p'[off];
      if 0 < p[off] <= 63 {
        if off + 1 + p[off] <= limit {
          NameLocal(p, p', start, off + 1 + p[off], limit);
          SameSlice(p, p', limit, off + 1, off + 1 + p[off]);
        }
      } else if p[off] > 63 && off + 2 <= limit {
        assert p[off + 1] == p[..limit][off + 1] == p'[off + 1];
        if PointerAt(p, off) < start {
          SameSlice(p, p', limit, 0, start);
          NameLocal(p, p', PointerAt(p, off), PointerAt(p, off), start);
        }
      }
    }
  }

  // ---------- the bytes that a name takes up ----------

  /** The offsets from i up to e. */
  ghost function Stretch(i: nat, e: nat): (s: set<nat>)
    ensures forall k: nat :: k in s <==> i <= k < e
    decreases e - i
  {
    if i >= e then {} else {i} + Stretch(i + 1, e)
  }

  /** The offsets of all bytes that reading the name looks at, those it points to among them. */
  ghost function Used(p: seq<byte>, start: nat, off: nat, limit: nat): (u: set<nat>)
    requires start <= off && limit <= |p|
    ensures forall i :: i in u ==> i < limit
    decreases limit, limit - off
  {
    if off >= limit then {}
    else if p[off] == 0 then {off}
    else if p[off] <= 63 then
      if off + 1 + p[off] > limit then {}
      else Stretch(off, off + 1 + p[off]) + Used(p, start, off + 1 + p[off], limit)
    else if off + 2 > limit || PointerAt(p, off) >= start then {}
    else {off, off + 1} + Used(p, PointerAt(p, off), PointerAt(p, off), start)
  }

  /** The offsets of the pointers that it follows. */
  ghost function Followed(p: seq<byte>, start: nat, off: nat, limit: nat): (f: set<nat>)
    requires start <= off && limit <= |p|
    ensures forall i :: i in f ==> i < limit
    decreases limit, limit - off
  {
    if off >= limit || p[off] == 0 then {}
    else if p[off] <= 63 then
      if off + 1 + p[off] > limit then {} else Followed(p, start, off + 1 + p[off], limit)
    else if off + 2 > limit || PointerAt(p, off) >= start then {}
    else {off} + Followed(p, PointerAt(p, off), PointerAt(p, off), start)
  }

  /** p' is p outside the offsets in a set. */
  ghost predicate SameBut(p: seq<byte>, p': seq<byte>, o: set<nat>) {
    |p'| == |p| && forall i {:trigger p'[i]} :: 0 <= i < |p| && i !in o ==> p'[i] == p[i]
  }

  lemma SliceSpared(p: seq<byte>, p': seq<byte>, o: set<nat>, i: nat, e: nat)
    requires i <= e <= |p| && SameBut(p, p', o) && Stretch(i, e) !! o
    ensures p'[i..e] == p[i..e]
    ensures i < e ==> p'[i] == p[i]
  {
    forall k | i <= k < e
      ensures p'[k] == p[k]
    {
      assert k in Stretch(i, e);
    }
  }

  /** A name is the same in a packet that differs only at bytes that it does not use. */
  lemma {:induction false} NameSpared(p: seq<byte>, p': seq<byte>, o: set<nat>, start: nat, off: nat, limit: nat)
    requires start <= off && limit <= |p| && NameAt(p, start, off, limit).Some?
    requires SameBut(p, p', o) && Used(p, start, off, limit) !! o
    ensures NameAt(p', start, off, limit) == NameAt(p, start, off, limit) && EndOf(p', off) == EndOf(p, off)
    ensures Used(p', start, off, limit) == Used(p, start, off, limit)
    ensures Followed(p', start, off, limit) == Followed(p, start, off, limit)
    decreases limit, limit - off
  {
    hide Stretch;
    assert off in Used(p, start, off, limit);
    if 0 < p[off] <= 63 {
      var next := off + 1 + p[off];
      SliceSpared(p, p', o, off, next);
      SliceSpared(p, p', o, off + 1, next) by {
        assert Stretch(off + 1, next) <= Stretch(off, next);
      }
      NameSpared(p, p', o, start, next, limit);
    } else if p[off] > 63 {
      assert off + 1 in Used(p, start, off, limit);
      NameSpared(p, p', o, PointerAt(p, off), PointerAt(p, off), start);
    }
  }

  /** The pointers that a name follows stand in it, or before it. */
  lemma {:induction false} FollowedWithin(p: seq<byte>, start: nat, off: nat, limit: nat)
    requires start <= off && limit <= |p| && NameAt(p, start, off, limit).Some?
    ensures EndOf(p, off).Some? && forall i :: i in Followed(p, start, off, limit) ==> i < EndOf(p, off).value
    decreases limit, limit - off
  {
    if 0 < p[off] <= 63 {
      FollowedWithin(p, start, off + 1 + p[off], limit);
    }
  }

  /** Reading the name changes the packet at the pointers that it follows and nowhere else. */
  lemma {:induction false} ClearedBut(p: seq<byte>, start: nat, off: nat, limit: nat)
    requires start <= off && limit <= |p| && NameAt(p, start, off, limit).Some?
    ensures SameBut(p, Cleared(p, start, off, limit), Followed(p, start, off, limit))
    ensures forall i :: i in Followed(p, start, off, limit) ==> Cleared(p, start, off, limit)[i] == p[i] % 64
    decreases limit, limit - off
  {
    if 0 < p[off] <= 63 {
      ClearedBut(p, start, off + 1 + p[off], limit);
    } else if p[off] > 63 {
      var t, p' := PointerAt(p, off), p[off := p[off] % 64];
      assert p'[..start] == p[..start];
      NameLocal(p, p', t, t, start);
      NameSpared(p, p', {off}, t, t, start);
      ClearedBut(p', t, t, start);
    }
  }

  // ---------- names that can be told from their encoding ----------

  /** Non-empty labels of at most 63 bytes. */
  predicate Proper(name: seq<byte>) {
    forall k :: 0 <= k < |Split(name, DOT)| ==> 1 <= |Split(name, DOT)[k]| <= 63
  }

  /** Labels read back: each with a dot behind it. */
  ghost function Dotted(parts: seq<seq<byte>>): seq<byte> {
    if parts == [] then [] else parts[0] + [DOT] + Dotted(parts[1..])
  }

  lemma DottedFirst(parts: seq<seq<byte>>, x: byte)
    requires |parts| >= 1
    ensures Dotted([[x] + parts[0]] + parts[1..]) == [x] + Dotted(parts)
  {
    var more := [[x] + parts[0]] + parts[1..];
    assert more[1..] == parts[1..];
    assert ([x] + parts[0]) + [DOT] + Dotted(parts[1..]) == [x] + (parts[0] + [DOT] + Dotted(parts[1..]));
  }

  lemma DottedEmpty(parts: seq<seq<byte>>)
    ensures Dotted([[]] + parts) == [DOT] + Dotted(parts)
  {
    assert ([[]] + parts)[1..] == parts;
    assert [] + [DOT] + Dotted(parts) == [DOT] + Dotted(parts);
  }

  lemma {:induction false} DottedSplit(name: seq<byte>)
    ensures Dotted(Split(name, DOT)) == name + [DOT]
  {
    hide Dotted;
    if name == [] {
      DottedEmpty([]);
      DottedNone();
      assert Split(name, DOT) == [[]] + [];
    } else {
      DottedSplit(name[1..]);
      var parts := Split(name[1..], DOT);
      if name[0] == DOT {
        DottedEmpty(parts);
      } else {
        DottedFirst(parts, name[0]);
      }
      assert [name[0]] + (name[1..] + [DOT]) == name + [DOT];
    }
  }

  lemma DottedNone()
    ensures Dotted([]) == []
  {
  }

  /** The labels before the first empty one, which to a reader is the end of the name. */
  ghost function Upto(parts: seq<seq<byte>>): seq<seq<byte>> {
    if parts == [] || parts[0] == [] then [] else [parts[0]] + Upto(parts[1..])
  }

  lemma UptoNone(parts: seq<seq<byte>>)
    requires parts == [] || parts[0] == []
    ensures Upto(parts) == [] && Dotted(Upto(parts)) == [] && EncodeLabels(Upto(parts)) == []
    ensures (EncodeLabels(parts) + [0])[0] == 0
  {
  }

  lemma UptoFirst(parts: seq<seq<byte>>)
    requires parts != [] && 1 <= |parts[0]| <= 63
    ensures Dotted(Upto(parts)) == parts[0] + [DOT] + Dotted(Upto(parts[1..]))
    ensures |EncodeLabels(Upto(parts))| == 1 + |parts[0]| + |EncodeLabels(Upto(parts[1..]))|
  {
    assert Upto(parts)[1..] == Upto(parts[1..]);
  }

  lemma {:induction false} LabelsRead(p: seq<byte>, start: nat, off: nat, limit: nat, parts: seq<seq<byte>>)
    requires start <= off && limit <= |p|
    requires forall k :: 0 <= k < |parts| ==> |parts[k]| <= 63
    requires var n := |EncodeLabels(parts)| + 1;
             off + n <= limit && p[off..off + n] == EncodeLabels(parts) + [0]
    ensures NameAt(p, start, off, limit) == Some(Dotted(Upto(parts)))
    ensures EndOf(p, off) == Some(off + |EncodeLabels(Upto(parts))| + 1)
    ensures Cleared(p, start, off, limit) == p
    decreases |parts|
  {
    hide EncodeLabels, Dotted, Upto;
    if parts == [] || parts[0] == [] {
      UptoNone(parts);
      assert p[off] == p[off..off + |EncodeLabels(parts)| + 1][0] == 0;
    } else {
      FirstLabel(p, off, parts);
      LabelsRead(p, start, off + 1 + |parts[0]|, limit, parts[1..]);
      UptoFirst(parts);
    }
  }

  /** All labels come before the first empty one exactly when there is none; otherwise some text is
      lost. */
  lemma {:induction false} UptoAll(parts: seq<seq<byte>>)
    ensures (forall k :: 0 <= k < |parts| ==> parts[k] != []) ==> Upto(parts) == parts
    ensures (exists k :: 0 <= k < |parts| && parts[k] == []) ==>
              && |Dotted(Upto(parts))| < |Dotted(parts)|
              && |EncodeLabels(Upto(parts))| < |EncodeLabels(parts)|
  {
    if parts != [] && parts[0] != [] {
      UptoAll(parts[1..]);
      assert Upto(parts)[1..] == Upto(parts[1..]);
      assert forall k :: 1 <= k < |parts| ==> parts[k] == parts[1..][k - 1];
    }
  }

  lemma FirstLabel(p: seq<byte>, off: nat, parts: seq<seq<byte>>)
    requires parts != [] && 1 <= |parts[0]| <= 63
    requires var n := |EncodeLabels(parts)| + 1;
             off + n <= |p| && p[off..off + n] == EncodeLabels(parts) + [0]
    ensures var l := |parts[0]|;
            && p[off] == l && p[off + 1..off + 1 + l] == parts[0]
            && |EncodeLabels(parts)| == 1 + l + |EncodeLabels(parts[1..])|
            && p[off + 1 + l..off + |EncodeLabels(parts)| + 1] == EncodeLabels(parts[1..]) + [0]
  {
    hide EncodeLabels;
    var e, l := EncodeLabels(parts), |parts[0]|;
    var n, rest := |e| + 1, EncodeLabels(parts[1..]) + [0];
    EncodeFirst(parts);
    ThreeParts(l, parts[0], rest);
    assert p[off] == p[off..off + n][0];
    SliceOfSlice(p, off, n, 1, 1 + l);
    SliceOfSlice(p, off, n, 1 + l, n);
  }

  lemma EncodeFirst(parts: seq<seq<byte>>)
    requires parts != [] && |parts[0]| <= 63
    ensures |EncodeLabels(parts)| == 1 + |parts[0]| + |EncodeLabels(parts[1..])|
    ensures EncodeLabels(parts) + [0] == [|parts[0]| as byte] + parts[0] + (EncodeLabels(parts[1..]) + [0])
  {
    var first, rest := [|parts[0]| as byte] + parts[0], EncodeLabels(parts[1..]);
    assert |parts[0]| % 256 == |parts[0]|;
    assert first + rest + [0] == first + (rest + [0]);
  }

  lemma ThreeParts(x: byte, a: seq<byte>, rest: seq<byte>)
    ensures var s := [x] + a + rest;
            s[0] == x && s[1..1 + |a|] == a && s[1 + |a|..] == rest && s[1 + |a|..|s|] == rest
  {
  }

  lemma SliceOfSlice(p: seq<byte>, off: nat, n: nat, i: nat, e: nat)
    requires off + n <= |p| && i <= e <= n
    ensures p[off + i..off + e] == p[off..off + n][i..e]
  {
    var s := p[off..off + n];
    assert forall k :: 0 <= k < e - i ==> p[off + i..off + e][k] == s[i..e][k];
  }

  /** What dns_bldq writes, dns_getrname reads: the name with a dot behind it, over |name| + 2
      bytes, and the packet stays as it is. */
  lemma EncodedNameRead(p: seq<byte>, off: nat, limit: nat, name: seq<byte>)
    requires Proper(name) && off + |name| + 2 <= limit <= |p|
    requires p[off..off + |name| + 2] == EncodeName(name)
    ensures NameAt(p, off, off, limit) == Some(name + [DOT])
    ensures EndOf(p, off) == Some(off + |name| + 2)
    ensures Cleared(p, off, off, limit) == p
  {
    EncodedLength(name);
    LabelsRead(p, off, off, limit, Split(name, DOT));
    UptoAll(Split(name, DOT));
    DottedSplit(name);
  }

  /** All labels have at most n bytes. */
  ghost predicate LabelsUpTo(name: seq<byte>, n: nat) {
    forall k :: 0 <= k < |Split(name, DOT)| ==> |Split(name, DOT)[k]| <= n
  }

  /** Whatever can be read has no label of more than 63 bytes. */
  lemma {:induction false} ReadLabelsShort(p: seq<byte>, start: nat, off: nat, limit: nat)
    requires start <= off && limit <= |p| && NameAt(p, start, off, limit).Some?
    ensures LabelsUpTo(NameAt(p, start, off, limit).value, 63)
    decreases limit, limit - off
  {
    hide EncodeLabels, Split;
    if p[off] == 0 {
      PartsWithin<byte>([], DOT);
    } else if p[off] <= 63 {
      var text, rest := p[off + 1..off + 1 + p[off]], NameAt(p, start, off + 1 + p[off], limit).value;
      ReadLabelsShort(p, start, off + 1 + p[off], limit);
      SplitBetween(text, rest, DOT);
      PartsWithin(text, DOT);
    } else {
      ReadLabelsShort(p, PointerAt(p, off), PointerAt(p, off), start);
    }
  }

  lemma WithDot(name: seq<byte>)
    requires LabelsUpTo(name + [DOT], 63)
    ensures LabelsUpTo(name, 63)
  {
    SplitAppend(name, DOT);
    assert forall k :: 0 <= k < |Split(name, DOT)| ==> Split(name + [DOT], DOT)[k] == Split(name, DOT)[k];
  }

  /** Of all names, it is exactly those with non-empty labels of at most 63 bytes that are read back.
      A final dot makes an empty label. */
  lemma ReadBackExact(p: seq<byte>, off: nat, limit: nat, name: seq<byte>)
    requires off + |name| + 2 <= limit <= |p| && p[off..off + |name| + 2] == EncodeName(name)
    ensures NameAt(p, off, off, limit) == Some(name + [DOT]) <==> Proper(name)
  {
    hide NameAt, EndOf, Cleared, Dotted, EncodeLabels, Split;
    if NameAt(p, off, off, limit) == Some(name + [DOT]) {
      ReadLabelsShort(p, off, off, limit);
      WithDot(name);
    }
    if LabelsUpTo(name, 63) {
      EncodedLength(name);
      LabelsRead(p, off, off, limit, Split(name, DOT));
      UptoAll(Split(name, DOT));
      DottedSplit(name);
    }
  }

  /** Of the names whose labels have at most 255 bytes, exactly those are skipped as a whole. */
  lemma SkipExact(p: seq<byte>, off: nat, name: seq<byte>)
    requires LabelsUpTo(name, 255) && off + |name| + 2 <= |p| && p[off..off + |name| + 2] == EncodeName(name)
    ensures EndOf(p, off) == Some(off + |name| + 2) <==> Proper(name)
  {
    hide EndOf, EncodeLabels, Split;
    EncodedLength(name);
    LabelsSkipped(p, off, Split(name, DOT));
  }

  lemma {:induction false} LabelsSkipped(p: seq<byte>, off: nat, parts: seq<seq<byte>>)
    requires forall k :: 0 <= k < |parts| ==> |parts[k]| <= 255
    requires var n := |EncodeLabels(parts)| + 1;
             off + n <= |p| && p[off..off + n] == EncodeLabels(parts) + [0]
    ensures EndOf(p, off) == Some(off + |EncodeLabels(parts)| + 1) <==> forall k :: 0 <= k < |parts| ==> 1 <= |parts[k]| <= 63
    decreases |parts|
  {
    var e := EncodeLabels(parts);
    assert p[off] == p[off..off + |e| + 1][0] == (e + [0])[0];
    if parts != [] {
      if 1 <= |parts[0]| <= 63 {
        FirstLabel(p, off, parts);
        LabelsSkipped(p, off + 1 + |parts[0]|, parts[1..]);
        assert forall k :: 1 <= k < |parts| ==> parts[k] == parts[1..][k - 1];
      }
    }
  }

  /** A label of 64 letters: its length is taken for a pointer, so nothing is read, and the skip stops
      behind two bytes. */
  lemma LongLabel()
    ensures var name: seq<byte> := seq(64, _ => 97);
            var p := EncodeName(name);
            |p| == 66 && !Proper(name) && NameAt(p, 0, 0, 66) == None && EndOf(p, 0) == Some(2)
  {
    var name: seq<byte> := seq(64, _ => 97);
    SplitFirst(name, DOT, 64);
    assert EncodeLabels([name]) == [64] + name + EncodeLabels([name][1..]);
    assert EncodeName(name) == [64] + name + [0];
  }

  /** With labels of more than 255 bytes the skip can be right by chance: 257 question marks have a
      length byte of 1, and are taken for labels themselves. */
  lemma ChanceSkip()
    ensures var name: seq<byte> := seq(257, _ => 63);
            var p := EncodeName(name);
            !Proper(name) && EndOf(p, 0) == Some(|name| + 2)
  {
    var name: seq<byte> := seq(257, _ => 63);
    SplitFirst(name, DOT, 257);
    assert EncodeLabels([name]) == [1] + name + EncodeLabels([name][1..]);
    var p := EncodeName(name);
    assert p == [1] + name + [0];
    assert EndOf(p, 258) == Some(259);
    assert EndOf(p, 194) == Some(259);
    assert EndOf(p, 130) == Some(259);
    assert EndOf(p, 66) == Some(259);
    assert EndOf(p, 2) == Some(259);
  }

  /** The name a. is read as it is, without a dot behind it, and one byte of it is left over. */
  lemma FinalDot()
    ensures var name: seq<byte> := [97, DOT];
            var p := EncodeName(name);
            && p == [1, 97, 0, 0] && !Proper(name)
            && NameAt(p, 0, 0, 4) == Some(name) && EndOf(p, 0) == Some(3)
  {
    var name: seq<byte> := [97, DOT];
    assert name[..1] == [97] && name[2..] == [];
    SplitFirst(name, DOT, 1);
    assert Split(name, DOT) == [[97], []];
    assert EncodeLabels([[97], []][1..][1..]) == [];
    var p: seq<byte> := [1, 97, 0, 0];
    assert EncodeName(name) == p;
    assert NameAt(p, 0, 2, 4) == Some([]) && p[1..2] + [DOT] + [] == name;
  }

  lemma EncodeNone()
    ensures EncodeLabels([]) == []
  {
  }

  lemma {:induction false} LabelsUsed(p: seq<byte>, start: nat, off: nat, limit: nat, parts: seq<seq<byte>>)
    requires start <= off && limit <= |p|
    requires forall k :: 0 <= k < |parts| ==> 1 <= |parts[k]| <= 63
    requires var n := |EncodeLabels(parts)| + 1;
             off + n <= limit && p[off..off + n] == EncodeLabels(parts) + [0]
    ensures Used(p, start, off, limit) == Stretch(off, off + |EncodeLabels(parts)| + 1)
    ensures Followed(p, start, off, limit) == {}
    decreases |parts|
  {
    hide Stretch, EncodeLabels;
    if parts == [] {
      EncodeNone();
      assert p[off] == p[off..off + 1][0];
    } else {
      FirstLabel(p, off, parts);
      LabelsUsed(p, start, off + 1 + |parts[0]|, limit, parts[1..]);
    }
  }

  /** A name written out uses its own bytes and follows no pointer. */
  lemma EncodedNameUsed(p: seq<byte>, off: nat, limit: nat, name: seq<byte>)
    requires Proper(name) && off + |name| + 2 <= limit <= |p|
    requires p[off..off + |name| + 2] == EncodeName(name)
    ensures Used(p, off, off, limit) == Stretch(off, off + |name| + 2) && Followed(p, off, off, limit) == {}
  {
    EncodedLength(name);
    LabelsUsed(p, off, off, limit, Split(name, DOT));
  }

  /** Two bytes that point to offset t: RFC 1035, section 4.1.4. */
  ghost predicate PointsTo(p: seq<byte>, off: nat, t: nat) {
    off + 2 <= |p| && p[off] >= 192 && PointerAt(p, off) == t
  }

  /** The offset of a pointer, as RFC 1035 has it: 14 bits in network order; the two highest are not
      looked at. */
  lemma PointerIs(p: seq<byte>, off: nat)
    requires off + 2 <= |p|
    ensures PointerAt(p, off) < 0x4000
    ensures p[off] >= 192 ==> PointerAt(p, off) == 256 * (p[off] as int - 192) + p[off + 1]
    ensures 128 <= p[off] < 192 ==> PointerAt(p, off) == 256 * (p[off] as int - 128) + p[off + 1]
    ensures 64 <= p[off] < 128 ==> PointerAt(p, off) == 256 * (p[off] as int - 64) + p[off + 1]
  {
  }

  /** Through a pointer back to it the same name is read, over two bytes; the pointer loses its
      highest bits. */
  lemma PointerRead(p: seq<byte>, off: nat, limit: nat, t: nat, name: seq<byte>)
    requires Proper(name) && t + |name| + 2 <= off && off + 2 <= limit <= |p|
    requires p[t..t + |name| + 2] == EncodeName(name) && PointsTo(p, off, t)
    ensures NameAt(p, off, off, limit) == Some(name + [DOT])
    ensures EndOf(p, off) == Some(off + 2)
    ensures Cleared(p, off, off, limit) == p[off := t / 256]
  {
    EncodedNameRead(p, t, off, name);
    var p' := p[off := p[off] % 64];
    assert p'[t..t + |name| + 2] == p[t..t + |name| + 2];
    EncodedNameRead(p', t, off, name);
  }

  /** It uses its own two bytes and those of the name it leads to. */
  lemma PointerUsed(p: seq<byte>, off: nat, limit: nat, t: nat, name: seq<byte>)
    requires Proper(name) && t + |name| + 2 <= off && off + 2 <= limit <= |p|
    requires p[t..t + |name| + 2] == EncodeName(name) && PointsTo(p, off, t)
    ensures Used(p, off, off, limit) == {off, off + 1} + Stretch(t, t + |name| + 2) && Followed(p, off, off, limit) == {off}
  {
    hide Stretch, EncodeName, Proper;
    EncodedNameUsed(p, t, off, name);
  }
}
