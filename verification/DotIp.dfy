/** Dotted decimal addresses: dot2ip and ip2dot. */
module DotIp {
  import opened Machine
  import opened Options
  import opened Text
  import opened Labels
  import opened Prtl
  import Fdoprnt

  /** One to three digits. */
  ghost predicate GoodDigits(s: string) {
    1 <= |s| <= 3 && forall k :: 0 <= k < |s| ==> IsDigit(s[k])
  }

  ghost function SegmentValue(s: string): nat {
    Value(s, 0, |s|, 10)
  }

  ghost predicate GoodSegment(s: string) {
    GoodDigits(s) && SegmentValue(s) <= 255
  }

  /** What dot2ip accepts: one to four segments. */
  ghost predicate Acceptable(t: string) {
    |Split(t, '.')| <= 4 && forall k :: 0 <= k < |Split(t, '.')| ==> GoodSegment(Split(t, '.')[k])
  }

  /** The segments as the digits of a number in base 256. */
  ghost function Fold(parts: seq<string>): nat {
    if parts == [] then 0 else 256 * Fold(parts[..|parts| - 1]) + SegmentValue(parts[|parts| - 1])
  }

  lemma {:induction false} ValueSlice(t: string, i: nat, e: nat)
    requires i <= e <= |t|
    ensures Value(t, i, e, 10) == Value(t[i..e], 0, e - i, 10)
    decreases e
  {
    if i < e {
      ValueSlice(t, i, e - 1);
      ValuePrefix(t[i..e], e - i - 1);
      assert t[i..e][..e - i - 1] == t[i..e - 1];
    }
  }

  lemma {:induction false} ValuePrefix(s: string, e: nat)
    requires e <= |s|
    ensures Value(s, 0, e, 10) == Value(s[..e], 0, e, 10)
  {
    ValueAgree(s, s[..e], e);
  }

  lemma {:induction false} ValueAgree(s: string, s': string, e: nat)
    requires e <= |s| && e <= |s'| && s[..e] == s'[..e]
    ensures Value(s, 0, e, 10) == Value(s', 0, e, 10)
  {
    if e > 0 {
      assert s[..e][e - 1] == s'[..e][e - 1];
      assert s[..e - 1] == s[..e][..e - 1] == s'[..e][..e - 1] == s'[..e - 1];
      ValueAgree(s, s', e - 1);
    }
  }

  /** The inner loop: the characters of one segment, up to the dot or the NUL that ends it. */
  method ReadSegment(dotted: CString, p: nat) returns (ok: bool, val: nat, ch: char, next: nat)
    requires p <= |dotted|
    ensures ok ==> p < next <= |dotted| + 1 && ch == CharAt(dotted, next - 1) && (ch == '\0' || ch == '.')
    ensures ok ==> '.' !in dotted[p..next - 1] && GoodDigits(dotted[p..next - 1])
    ensures ok ==> val == SegmentValue(dotted[p..next - 1]) && val <= 999
    ensures !ok ==> !GoodDigits(Split(dotted[p..], '.')[0])
  {
    ok, val, ch, next := true, 0, '\0', p;
    var nch := 0;
    while nch < 4
      invariant ok && 0 <= nch <= 3 && next == p + nch <= |dotted|
      invariant forall k :: p <= k < next ==> IsDigit(dotted[k])
      invariant val == Value(dotted, p, next, 10) && val <= if nch == 0 then 0 else if nch == 1 then 9 else if nch == 2 then 99 else 999
      decreases 4 - nch
    {
      ghost var u := dotted[p..];
      assert u[..nch] == dotted[p..next];
      ch := CharAt(dotted, next);
      next := next + 1;
      if ch == '\0' || ch == '.' {
        SplitFirst(u, '.', nch);
        if nch == 0 {
          ok := false;
          return;
        } else {
          ValueSlice(dotted, p, next - 1);
          break;
        }
      }
      if nch >= 3 || ch < '0' || ch > '9' {
        ok := false;
        BadSegment(u, nch);
        return;
      }
      val := 10 * val + (ch as int - '0' as int);
      nch := nch + 1;
    }
  }

  lemma NoDots(u: string, k: nat)
    requires k < |u| && (forall i :: 0 <= i < k ==> IsDigit(u[i])) && u[k] != '.'
    ensures '.' !in u[..k + 1]
  {
  }

  /** A character that is neither digit nor dot spoils the segment, and so does a fourth digit. */
  lemma BadSegment(u: string, k: nat)
    requires k < |u| && (forall i :: 0 <= i < k ==> IsDigit(u[i])) && u[k] != '.'
    requires k >= 3 || !IsDigit(u[k])
    ensures !GoodDigits(Split(u, '.')[0])
  {
    hide Split, IsDigit;
    NoDots(u, k);
    SplitAt(u, '.', k + 1);
    var s, rest := Split(u, '.')[0], Split(u[k + 1..], '.')[0];
    assert s == u[..k + 1] + rest;
    assert s[k] == u[k];
  }

  /** The segments read so far, and the rest of the text. */
  ghost predicate ReadSoFar(t: string, done: seq<string>, p: nat, ip: nat) {
    && p <= |t| && Split(t, '.') == done + Split(t[p..], '.')
    && (forall k :: 0 <= k < |done| ==> GoodSegment(done[k]))
    && ip == Fold(done)
  }

  lemma {:induction false} FoldBound(parts: seq<string>)
    requires |parts| <= 4 && forall k :: 0 <= k < |parts| ==> GoodSegment(parts[k])
    ensures |parts| == 0 ==> Fold(parts) == 0
    ensures |parts| <= 1 ==> Fold(parts) < 0x100
    ensures |parts| <= 2 ==> Fold(parts) < 0x1_0000
    ensures |parts| <= 3 ==> Fold(parts) < 0x100_0000
    ensures Fold(parts) < TWO_32
  {
    if parts != [] {
      FoldBound(parts[..|parts| - 1]);
    }
  }

  lemma FoldAppend(parts: seq<string>, s: string)
    ensures Fold(parts + [s]) == 256 * Fold(parts) + SegmentValue(s)
  {
    assert (parts + [s])[..|parts|] == parts;
  }

  /** A good segment has been read: it is the last, or a dot follows it. */
  lemma SegmentRead(t: string, done: seq<string>, p: nat, e: nat, ip: nat)
    requires ReadSoFar(t, done, p, ip) && p <= e <= |t| && '.' !in t[p..e] && GoodSegment(t[p..e])
    ensures e == |t| ==> Split(t, '.') == done + [t[p..e]]
    ensures e < |t| && t[e] == '.' ==> ReadSoFar(t, done + [t[p..e]], e + 1, 256 * ip + SegmentValue(t[p..e]))
  {
    hide Split, Fold, GoodSegment, SegmentValue;
    SplitRest(t, p, e);
    FoldAppend(done, t[p..e]);
    if e < |t| && t[e] == '.' {
      assert done + ([t[p..e]] + Split(t[e + 1..], '.')) == done + [t[p..e]] + Split(t[e + 1..], '.');
    }
  }

  lemma SplitRest(t: string, p: nat, e: nat)
    requires p <= e <= |t| && '.' !in t[p..e]
    ensures e == |t| ==> Split(t[p..], '.') == [t[p..e]]
    ensures e < |t| && t[e] == '.' ==> Split(t[p..], '.') == [t[p..e]] + Split(t[e + 1..], '.')
  {
    hide Split;
    var u := t[p..];
    assert u[..e - p] == t[p..e];
    SplitFirst(u, '.', e - p);
    if e < |t| {
      assert u[e - p + 1..] == t[e + 1..];
    } else {
      assert u == t[p..e];
    }
  }

  /** What spoils one segment spoils the text. */
  lemma SegmentSpoils(t: string, done: seq<string>, p: nat, ip: nat)
    requires ReadSoFar(t, done, p, ip) && !GoodSegment(Split(t[p..], '.')[0])
    ensures !Acceptable(t)
  {
    assert Split(t, '.')[|done|] == Split(t[p..], '.')[0];
  }

  lemma ReadNothing(t: string)
    ensures ReadSoFar(t, [], 0, 0)
  {
    assert t[0..] == t;
  }

  /** All of the text has been read, or four segments of it and there is more. */
  lemma ReadAll(t: string, done: seq<string>, p: nat, ip: nat)
    requires ReadSoFar(t, done, p, ip) && |done| >= 4
    ensures !Acceptable(t)
  {
    hide Fold, GoodSegment;
  }

  lemma ReadLast(t: string, done: seq<string>, p: nat, ip: nat, s: string)
    requires ReadSoFar(t, done, p, ip) && |done| <= 3 && GoodSegment(s) && Split(t, '.') == done + [s]
    ensures Acceptable(t) && Fold(Split(t, '.')) == 256 * ip + SegmentValue(s)
  {
    hide Split, Fold, GoodSegment, SegmentValue;
    FoldAppend(done, s);
  }

  lemma ReadRoom(t: string, done: seq<string>, p: nat, ip: nat)
    requires ReadSoFar(t, done, p, ip) && |done| <= 3
    ensures p <= |t| && 0 <= 256 * ip <= TWO_32 - 256
  {
    hide Split, Fold, GoodSegment;
    FoldBound(done);
  }

  method Dot2Ip(dotted: CString) returns (ok: bool, result: uint32)
    ensures ok <==> Acceptable(dotted)
    ensures ok ==> result == Fold(Split(dotted, '.'))
  {
    hide *;
    var ipaddr: uint32, seg, p: nat, ch := 0, 0, 0, '.';
    ghost var done: seq<string> := [];
    ReadNothing(dotted);
    while seg < 4
      invariant 0 <= seg <= 4 && |done| == seg && p <= |dotted| && ReadSoFar(dotted, done, p, ipaddr) && ch == '.'
      decreases 4 - seg
    {
      ReadRoom(dotted, done, p, ipaddr);
      var good, val, next;
      good, val, ch, next := ReadSegment(dotted, p);
      if !good {
        Spoilt(Split(dotted[p..], '.')[0]);
        SegmentSpoils(dotted, done, p, ipaddr);
        return false, 0;
      }
      ghost var s := dotted[p..next - 1];
      EndsSegment(dotted, next - 1);
      if val > 255 {
        SplitSegment(dotted, p, next - 1);
        Spoilt(s);
        SegmentSpoils(dotted, done, p, ipaddr);
        return false, 0;
      }
      Good(s);
      SegmentRead(dotted, done, p, next - 1, ipaddr);
      var shifted := Shift8(ipaddr);
      if ch == '\0' {
        ReadLast(dotted, done, p, ipaddr, s);
        ipaddr := shifted + val;  // no bits of the two coincide
        break;
      }
      ipaddr := shifted + val;
      done := done + [s];
      p := next;
      seg := seg + 1;
    }
    if seg >= 4 || ch != '\0' {
      ReadAll(dotted, done, p, ipaddr);
      return false, 0;
    }
    return true, ipaddr;
  }

  method Shift8(ipaddr: uint32) returns (r: uint32)
    requires 256 * ipaddr <= TWO_32 - 256
    ensures r == 256 * ipaddr
  {
    r := Unsigned(ipaddr * 256);
  }

  lemma EndsSegment(t: CString, k: nat)
    requires k <= |t| && (CharAt(t, k) == '\0' || CharAt(t, k) == '.')
    ensures CharAt(t, k) == '\0' ==> k == |t|
    ensures CharAt(t, k) == '.' ==> k < |t| && t[k] == '.'
  {
  }

  lemma Good(s: string)
    requires GoodDigits(s) && SegmentValue(s) <= 255
    ensures GoodSegment(s)
  {
  }

  lemma Spoilt(s: string)
    requires !GoodDigits(s) || SegmentValue(s) > 255
    ensures !GoodSegment(s)
  {
  }

  lemma SplitSegment(t: string, p: nat, e: nat)
    requires p <= e <= |t| && '.' !in t[p..e] && (e < |t| ==> t[e] == '.')
    ensures Split(t[p..], '.')[0] == t[p..e]
  {
    SplitRest(t, p, e);
  }

  /** A good segment and its value, digit by digit. */
  lemma SegmentIs(s: string)
    ensures GoodSegment(s) <==> 1 <= |s| <= 3 && (forall k :: 0 <= k < |s| ==> '0' <= s[k] <= '9') && SegmentValue(s) <= 255
    ensures |s| == 1 && '0' <= s[0] <= '9' ==> SegmentValue(s) == s[0] as int - 48
    ensures |s| == 2 && '0' <= s[0] <= '9' && '0' <= s[1] <= '9' ==>
              SegmentValue(s) == 10 * (s[0] as int - 48) + (s[1] as int - 48)
    ensures |s| == 3 && '0' <= s[0] <= '9' && '0' <= s[1] <= '9' && '0' <= s[2] <= '9' ==>
              SegmentValue(s) == 100 * (s[0] as int - 48) + 10 * (s[1] as int - 48) + (s[2] as int - 48)
  {
    if 1 <= |s| <= 3 {
      assert Value(s, 0, 0, 10) == 0;
      assert Value(s, 0, 1, 10) == DigitValue(s[0]);
      if |s| >= 2 {
        assert Value(s, 0, 2, 10) == 10 * DigitValue(s[0]) + DigitValue(s[1]);
      }
    }
  }

  lemma AcceptableIs(t: string)
    ensures Acceptable(t) <==>
              |Split(t, '.')| <= 4 && forall k :: 0 <= k < |Split(t, '.')| ==>
                var s := Split(t, '.')[k];
                1 <= |s| <= 3 && (forall i :: 0 <= i < |s| ==> '0' <= s[i] <= '9') && SegmentValue(s) <= 255
  {
    hide Split, SegmentValue;
  }

  /** The result for one to four segments. */
  lemma FoldIs(t: seq<string>)
    requires 1 <= |t| <= 4
    ensures |t| == 1 ==> Fold(t) == SegmentValue(t[0])
    ensures |t| == 2 ==> Fold(t) == 0x100 * SegmentValue(t[0]) + SegmentValue(t[1])
    ensures |t| == 3 ==> Fold(t) == 0x1_0000 * SegmentValue(t[0]) + 0x100 * SegmentValue(t[1]) + SegmentValue(t[2])
    ensures |t| == 4 ==>
              Fold(t) == 0x100_0000 * SegmentValue(t[0]) + 0x1_0000 * SegmentValue(t[1]) + 0x100 * SegmentValue(t[2]) + SegmentValue(t[3])
  {
    hide SegmentValue;
    var n := |t|;
    assert Fold(t[..0]) == 0;
    assert t[..1][..0] == t[..0] && Fold(t[..1]) == SegmentValue(t[0]);
    assert t[..n] == t;
    if n >= 2 {
      assert t[..2][..1] == t[..1];
      assert Fold(t[..2]) == 256 * Fold(t[..1]) + SegmentValue(t[1]);
    }
    if n >= 3 {
      assert t[..3][..2] == t[..2];
      assert Fold(t[..3]) == 256 * Fold(t[..2]) + SegmentValue(t[2]);
    }
    if n == 4 {
      assert t[..4][..3] == t[..3];
      assert Fold(t[..4]) == 256 * Fold(t[..3]) + SegmentValue(t[3]);
    }
  }

  /** An empty segment, no text at all, a letter, a number too great, and a fifth segment. */
  lemma Rejected()
    ensures !Acceptable("1..2") && !Acceptable("") && !Acceptable("1.a") && !Acceptable("256") && !Acceptable("1.2.3.4.5")
  {
    hide Split, SegmentValue;
    SplitFive();
    SplitJoin(["1", "", "2"], '.');
    assert Join(["1", "", "2"], '.') == "1..2" by { assert ["1", "", "2"][1..][1..] == ["2"] && ["1", "", "2"][1..] == ["", "2"]; }
    assert Split("1..2", '.')[1] == "";
    SplitFirst("", '.', 0);
    assert Split("", '.')[0] == "";
    SplitJoin(["1", "a"], '.');
    assert Join(["1", "a"], '.') == "1.a" by { assert ["1", "a"][1..] == ["a"]; }
    assert Split("1.a", '.')[1] == "a" && !IsDigit("a"[0]);
    SplitFirst("256", '.', 3);
    SegmentIs("256");
    assert SegmentValue("256") == 256 && Split("256", '.')[0] == "256";
  }

  lemma SplitFive()
    ensures |Split("1.2.3.4.5", '.')| == 5
  {
    hide Split;
    var t := "1.2.3.4.5";
    SplitFirst(t, '.', 1);
    SplitFirst(t[2..], '.', 1);
    assert t[2..][2..] == t[4..];
    SplitFirst(t[4..], '.', 1);
    assert t[4..][2..] == t[6..];
    SplitFirst(t[6..], '.', 1);
    assert t[6..][2..] == t[8..];
    SplitFirst(t[8..], '.', 1);
  }

  lemma TenIs()
    ensures SegmentValue("10") == 10
  {
    assert Value("10", 0, 0, 10) == 0;
    assert Value("10", 0, 1, 10) == 1;
  }

  /** One segment is enough: 10 is accepted, for the address 0.0.0.10. */
  lemma OneSegment()
    ensures Acceptable("10") && Fold(Split("10", '.')) == 10
  {
    hide SegmentValue, Split;
    SplitFirst("10", '.', 2);
    TenIs();
    FoldAppend([], "10");
    assert [] + ["10"] == ["10"];
  }

  // ---------- printing ----------

  const FORMAT: CString := "%d.%d.%d.%d"

  /** Byte k of an address, counted from the highest. */
  function Part(ip: uint32, k: nat): (b: byte)
    requires k < 4
  {
    if k == 0 then ip / 0x100_0000
    else if k == 1 then ip / 0x1_0000 % 0x100
    else if k == 2 then ip / 0x100 % 0x100
    else ip % 0x100
  }

  ghost function PartTexts(ip: uint32): (t: seq<string>) {
    [Numeral(Part(ip, 0), 10, false), Numeral(Part(ip, 1), 10, false),
     Numeral(Part(ip, 2), 10, false), Numeral(Part(ip, 3), 10, false)]
  }

  ghost function Dotted(ip: uint32): string {
    Join(PartTexts(ip), '.')
  }

  ghost function IpArgs(ip: uint32): seq<Fdoprnt.Arg> {
    [Fdoprnt.Int(Part(ip, 0)), Fdoprnt.Int(Part(ip, 1)), Fdoprnt.Int(Part(ip, 2)), Fdoprnt.Int(Part(ip, 3))]
  }

  /** A plain %d prints the number and nothing else. */
  lemma PlainD(fmt: CString, i: nat, args: seq<Fdoprnt.Arg>, v: nat)
    requires i + 1 < |fmt| && fmt[i] == '%' && fmt[i + 1] == 'd' && args != [] && v < 0x8000_0000
    requires args[0] == Fdoprnt.Int(v)
    ensures Fdoprnt.Format(fmt, i, args)
         == Fdoprnt.Prepend(Numeral(v, 10, false), Fdoprnt.Format(fmt, i + 2, args[1..]))
  {
    hide Numeral, DecText;
    DecTextNumeral(v);
    assert Fdoprnt.ReadSpec(fmt, i + 1, args) == Some(Fdoprnt.Spec(false, ' ', 0, 0, i + 1, args));
    var text := Numeral(v, 10, false);
    assert Fdoprnt.Field(false, ' ', 0, 0, false, text) == text;
  }

  /** A %d and a dot behind it. */
  lemma DotD(fmt: CString, i: nat, args: seq<Fdoprnt.Arg>, v: nat, rest: string)
    requires i + 2 < |fmt| && fmt[i] == '%' && fmt[i + 1] == 'd' && fmt[i + 2] == '.' && args != [] && v < 0x8000_0000
    requires args[0] == Fdoprnt.Int(v) && Fdoprnt.Format(fmt, i + 3, args[1..]) == Some(rest)
    ensures Fdoprnt.Format(fmt, i, args) == Some(Numeral(v, 10, false) + "." + rest)
  {
    hide Numeral, Fdoprnt.Format;
    PlainD(fmt, i, args, v);
    PlainChar(fmt, i + 2, args[1..]);
    assert Numeral(v, 10, false) + ("." + rest) == Numeral(v, 10, false) + "." + rest;
  }

  lemma PlainChar(fmt: CString, i: nat, args: seq<Fdoprnt.Arg>)
    requires i < |fmt| && fmt[i] != '%'
    ensures Fdoprnt.Format(fmt, i, args) == Fdoprnt.Prepend([fmt[i]], Fdoprnt.Format(fmt, i + 1, args))
  {
  }

  lemma FormatEnd(fmt: CString, args: seq<Fdoprnt.Arg>)
    ensures Fdoprnt.Format(fmt, |fmt|, args) == Some("")
  {
  }

  lemma FormatIsDotted(ip: uint32)
    ensures Fdoprnt.Format(FORMAT, 0, IpArgs(ip)) == Some(Dotted(ip))
  {
    hide Fdoprnt.Format, Numeral, Part;
    var a := IpArgs(ip);
    var t := PartTexts(ip);
    assert a[3..][1..] == a[4..] && a[2..][1..] == a[3..] && a[1..][1..] == a[2..];
    FormatEnd(FORMAT, a[4..]);
    PlainD(FORMAT, 9, a[3..], Part(ip, 3));
    assert t[3] + "" == t[3];
    DotD(FORMAT, 6, a[2..], Part(ip, 2), t[3]);
    DotD(FORMAT, 3, a[1..], Part(ip, 1), t[2] + "." + t[3]);
    DotD(FORMAT, 0, a, Part(ip, 0), t[1] + "." + (t[2] + "." + t[3]));
    JoinFour(t);
  }

  lemma JoinFour(t: seq<string>)
    requires |t| == 4
    ensures Join(t, '.') == t[0] + "." + (t[1] + "." + (t[2] + "." + t[3]))
  {
    assert t[1..][1..] == t[2..] && t[2..][1..] == t[3..];
    assert Join(t[3..], '.') == t[3] && Join(t[2..], '.') == t[2] + "." + t[3];
  }

  /** The address 1.2.3.4. */
  lemma OneToFour()
    ensures Dotted(0x0102_0304) == "1.2.3.4"
  {
    hide Join, Numeral;
    SmallNumerals();
    JoinFour(PartTexts(0x0102_0304));
  }

  lemma SmallNumerals()
    ensures Numeral(1, 10, false) == "1" && Numeral(2, 10, false) == "2" && Numeral(3, 10, false) == "3" && Numeral(4, 10, false) == "4"
  {
  }

  /** The address is written as its four bytes in decimal, from the highest down. */
  method Ip2Dot(buf: array<char>, dotted: nat, ipaddress: uint32)
    requires dotted + |Dotted(ipaddress)| + 1 <= buf.Length
    modifies buf
    ensures var t := Dotted(ipaddress) + "\0";
            buf[..] == old(buf[..])[..dotted] + t + old(buf[..])[dotted + |t|..]
  {
    hide Fdoprnt.Format, Dotted;
    var args := [Fdoprnt.Int(ipaddress / 0x100_0000 % 0x100), Fdoprnt.Int(ipaddress / 0x1_0000 % 0x100),
                 Fdoprnt.Int(ipaddress / 0x100 % 0x100), Fdoprnt.Int(ipaddress % 0x100)];
    assert args == IpArgs(ipaddress);
    FormatIsDotted(ipaddress);
    Fdoprnt.Sprintf(buf, dotted, FORMAT, args);
  }

  // ---------- and back ----------

  lemma PartSegment(b: byte)
    ensures GoodSegment(Numeral(b, 10, false)) && SegmentValue(Numeral(b, 10, false)) == b
    ensures '.' !in Numeral(b, 10, false)
  {
    var s := Numeral(b, 10, false);
    ByteDigits(b);
    assert s[0..0 + |Digits(b, 10)|] == s;
    NumeralValue(b, 10, false, s, 0);
  }

  lemma ByteDigits(b: byte)
    ensures 1 <= |Digits(b, 10)| <= 3
  {
    hide Digits, Quo, Rem;
    Hundreds(b);
    if b < 10 {
      SingleDigit(b, 10);
    } else {
      DigitsStep(b);
      if Quo(b, 10) < 10 {
        SingleDigit(Quo(b, 10), 10);
      } else {
        DigitsStep(Quo(b, 10));
        SingleDigit(Quo(Quo(b, 10), 10), 10);
      }
    }
  }

  lemma Hundreds(n: nat)
    requires n < 1000
    ensures Quo(n, 10) >= 0 && 0 <= Quo(Quo(n, 10), 10) < 10
  {
    assert Quo(n, 10) < 100;
  }

  lemma FoldFour(t: seq<string>)
    requires |t| == 4
    ensures Fold(t) == ((SegmentValue(t[0]) * 256 + SegmentValue(t[1])) * 256 + SegmentValue(t[2])) * 256 + SegmentValue(t[3])
  {
    hide SegmentValue;
    assert t[..3][..2] == t[..2] && t[..2][..1] == t[..1] && t[..1][..0] == [];
    assert Fold(t[..1]) == SegmentValue(t[0]);
    assert Fold(t[..2]) == 256 * Fold(t[..1]) + SegmentValue(t[1]);
    assert Fold(t[..3]) == 256 * Fold(t[..2]) + SegmentValue(t[2]);
  }

  lemma BytesFold(ip: uint32)
    ensures ((Part(ip, 0) * 256 + Part(ip, 1)) * 256 + Part(ip, 2)) * 256 + Part(ip, 3) == ip
  {
    TwoBytes(ip);
    TwoBytes(ip / 0x100);
    ThreeBytes(ip);
  }

  lemma TwoBytes(n: nat)
    ensures n / 0x100 / 0x100 == n / 0x1_0000 && n == n / 0x100 * 0x100 + n % 0x100
  {
  }

  lemma ThreeBytes(n: nat)
    ensures n / 0x1_0000 / 0x100 == n / 0x100_0000
    ensures n / 0x1_0000 == n / 0x100_0000 * 0x100 + n / 0x1_0000 % 0x100
  {
  }

  /** dot2ip accepts what ip2dot writes, and reads the same address, for every address. */
  lemma DottedRoundTrip(ip: uint32)
    ensures Acceptable(Dotted(ip)) && Fold(Split(Dotted(ip), '.')) == ip
    ensures 7 <= |Dotted(ip)| <= 15
  {
    hide Numeral, GoodSegment, SegmentValue, Fold, Split, Join, Part;
    BytesFold(ip);
    var t := PartTexts(ip);
    forall k | 0 <= k < 4
      ensures GoodSegment(t[k]) && SegmentValue(t[k]) == Part(ip, k) && '.' !in t[k] && 1 <= |t[k]| <= 3
    {
      PartSegment(Part(ip, k));
      ByteDigits(Part(ip, k));
      NumeralLength(Part(ip, k), 10, false);
    }
    SplitJoin(t, '.');
    JoinFour(t);
    FoldFour(t);
  }
}
