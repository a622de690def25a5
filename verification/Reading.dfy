/** What strtol and strtoul read from a text that is put together from its parts. */
module Reading {
  import opened Machine
  import opened Text
  import opened Strtol

  /** White space, a sign, a prefix, a numeral, and something that does not belong to it. */
  datatype Parts = Parts(space: string, sign: string, prefix: string, n: nat, base: nat, upper: bool, rest: string)
  {
    ghost predicate Valid() {
      && 2 <= base <= 36 && sign in ["", "+", "-"]
      && (forall k :: 0 <= k < |space| ==> space[k] as int in {9, 10, 11, 12, 13, 32})
      && (rest == "" || DigitValue(rest[0]) >= base)
    }

    ghost function Text(): string
      requires Valid()
    {
      space + sign + prefix + Numeral(n, base, upper) + rest
    }

    /** Where the numeral begins. */
    function Start(): nat {
      |space| + |sign| + |prefix|
    }
  }

  /** The base argument and the prefix make the numeral be read in its base: the base itself without a
      prefix, or 0 with the prefix that stands for it, which base 16 and base 2 allow too.  Without a
      prefix, a zero must not look like one. */
  ghost predicate Fits(p: Parts, base: int) {
    || (p.prefix == "" && base == p.base && (p.n == 0 && p.rest != "" ==>
          !(base == 16 && p.rest[0] in "xX") && !(base == 2 && p.rest[0] in "bB")))
    || (p.prefix == "" && base == 0 && p.base == 10 && p.n > 0)
    || (p.prefix == "0" && base == 0 && p.base == 8)
    || (p.prefix in ["0x", "0X"] && base in {0, 16} && p.base == 16)
    || (p.prefix in ["0b", "0B"] && base in {0, 2} && p.base == 2)
  }

  lemma FiveParts(a: string, b: string, c: string, d: string, e: string)
    ensures var t := a + b + c + d + e; var i, j := |a|, |a| + |b|; var k := j + |c|; var l := k + |d|;
            |t| == l + |e| && t[..i] == a && t[i..j] == b && t[j..k] == c && t[k..l] == d && t[l..] == e
  {
  }

  lemma SpaceStops(t: CString, i: nat)
    requires i <= |t| && (forall k :: 0 <= k < i ==> IsSpace(t[k])) && !IsSpace(CharAt(t, i))
    ensures SpaceEnd(t, 0) == i
  {
    hide IsSpace;
    var e := SpaceEnd(t, 0);
  }

  lemma RunStops(t: CString, i: nat, e: nat, base: nat)
    requires i <= e <= |t| && base <= 36 && (forall k :: i <= k < e ==> DigitValue(t[k]) < base) && DigitValue(CharAt(t, e)) >= base
    ensures RunEnd(t, i, base) == e
  {
    hide DigitValue;
    var r := RunEnd(t, i, base);
  }

  /** What the characters of the parts are. */
  lemma Looks(p: Parts, t: CString)
    requires p.Valid() && t == p.Text()
    ensures var i, j := |p.space|, |p.space| + |p.sign|;
            var m, e := p.Start(), p.Start() + |Numeral(p.n, p.base, p.upper)|;
            && e <= |t| && m < e && (forall k :: 0 <= k < i ==> IsSpace(t[k]))
            && (p.sign != "" ==> i < |t| && t[i] == p.sign[0]) && t[j..m] == p.prefix && t[m..e] == Numeral(p.n, p.base, p.upper)
            && (forall k :: m <= k < e ==> DigitValue(t[k]) < p.base) && DigitValue(CharAt(t, e)) >= p.base
            && (e < |t| ==> t[e] == p.rest[0]) && (e == |t| <==> p.rest == "")
  {
    hide Digits, DigitValue, IsSpace;
    var num := Numeral(p.n, p.base, p.upper);
    var m, e := p.Start(), p.Start() + |num|;
    FiveParts(p.space, p.sign, p.prefix, num, p.rest);
    forall k | 0 <= k < |p.space|
      ensures IsSpace(t[k])
    {
      assert t[k] == t[..|p.space|][k];
      ClassesByCode(t[k]);
    }
    forall k | m <= k < e
      ensures DigitValue(t[k]) < p.base
    {
      assert t[k] == t[m..e][k - m];
    }
    if p.sign != "" {
      assert t[|p.space|] == t[|p.space|..|p.space| + |p.sign|][0];
    }
    NulIsNoDigit();
    if e < |t| {
      assert t[e] == t[e..][0];
    }
  }

  lemma NulIsNoDigit()
    ensures DigitValue('\0') == 36
  {
  }

  /** Behind the sign a digit follows. */
  lemma NumberBegins(p: Parts, t: CString, base: int)
    requires p.Valid() && t == p.Text() && Fits(p, base)
    ensures var j := |p.space| + |p.sign|; j < |t| && ('0' <= t[j] <= '9' || 'A' <= t[j] <= 'Z' || 'a' <= t[j] <= 'z')
  {
    hide Digits, IsSpace;
    Looks(p, t);
    var j := |p.space| + |p.sign|;
    if p.prefix == "" {
      assert DigitValue(t[j]) < 36;
    } else {
      assert t[j] == t[j..p.Start()][0];
    }
  }

  /** The first digit of the numeral, and that only zero begins with 0. */
  lemma FirstDigitOf(p: Parts, t: CString)
    requires p.Valid() && t == p.Text()
    ensures var m := p.Start();
            && m < |t| && DigitValue(t[m]) < p.base && (t[m] == '0' <==> p.n == 0)
            && (p.n == 0 ==> CharAt(t, m + 1) == if p.rest == "" then '\0' else p.rest[0])
  {
    hide Digits, IsSpace, DigitValue;
    Looks(p, t);
    var m, num := p.Start(), Numeral(p.n, p.base, p.upper);
    assert t[m] == t[m..m + |num|][0] == num[0];
    NoLeadingZero(p.n, p.base);
    if p.n == 0 {
      SingleDigit(0, p.base);
    }
    ZeroChar(Digits(p.n, p.base)[0], p.upper);
  }

  lemma ZeroChar(d: nat, upper: bool)
    requires d < 36
    ensures DigitChar(d, upper) == '0' <==> d == 0
  {
  }

  lemma PrefixAt(p: Parts, t: CString)
    requires p.Valid() && t == p.Text()
    ensures var j := |p.space| + |p.sign|; forall k :: 0 <= k < |p.prefix| ==> j + k < |t| && t[j + k] == p.prefix[k]
  {
    hide Digits, IsSpace, DigitValue;
    Looks(p, t);
    var j := |p.space| + |p.sign|;
    assert forall k :: 0 <= k < |p.prefix| ==> t[j..p.Start()][k] == p.prefix[k];
  }

  /** The prefix is taken, and nothing else for one. */
  lemma PrefixTaken(p: Parts, t: CString, base: int)
    requires p.Valid() && t == p.Text() && Fits(p, base)
    ensures LegalBase(base) && |p.space| + |p.sign| <= |t|
    ensures Prefix(t, |p.space| + |p.sign|, base) == (p.base, if p.prefix == "0" then p.Start() - 1 else p.Start())
  {
    hide IsSpace, p.Text, DigitValue;
    FirstDigitOf(p, t);
    PrefixAt(p, t);
    var j, m := |p.space| + |p.sign|, p.Start();
    if p.prefix == "0" {
      assert t[j + 0] == p.prefix[0] == '0';
      LettersAreNoOctals(t[m]);
    } else if p.prefix != "" {
      assert t[j + 0] == p.prefix[0] && t[j + 1] == p.prefix[1];
    }
  }

  lemma LettersAreNoOctals(c: char)
    requires DigitValue(c) < 8
    ensures c !in "xXbB"
  {
  }

  /** What stands where the white space ends. */
  lemma SignAt(p: Parts, t: CString, base: int)
    requires p.Valid() && t == p.Text() && Fits(p, base)
    ensures var i := |p.space|;
            i <= |t| && !IsSpace(CharAt(t, i)) && (CharAt(t, i) in "+-" <==> p.sign != "") && (CharAt(t, i) == '-' <==> p.sign == "-")
    ensures SpaceEnd(t, 0) == |p.space|
  {
    hide Fits, Numeral, p.Text;
    Looks(p, t);
    NumberBegins(p, t, base);
    DigitNoSign(t[|p.space| + |p.sign|]);
    DigitNoSign(CharAt(t, |p.space|));
    SpaceStops(t, |p.space|);
  }

  lemma ScanOf(t: CString, base: int, i: nat, j: nat, eff: nat, start: nat, end: nat)
    requires LegalBase(base) && SpaceEnd(t, 0) == i && j == (if CharAt(t, i) in "+-" then i + 1 else i) && j <= |t|
    requires Prefix(t, j, base) == (eff, start) && RunEnd(t, start, eff) == end
    ensures Scan(t, base) == Subject(CharAt(t, i) == '-', eff, start, end)
  {
    hide SpaceEnd, Prefix, RunEnd;
  }

  /** Strtol and strtoul read exactly the numeral, with its sign, in its base. */
  lemma ScansParts(p: Parts, t: CString, base: int)
    requires p.Valid() && t == p.Text() && Fits(p, base)
    ensures LegalBase(base) && Spelled(t, base) == p.n
    ensures Scan(t, base).neg == (p.sign == "-") && Scan(t, base).end == |t| - |p.rest| && Scan(t, base).start < Scan(t, base).end
  {
    hide Digits, IsSpace, DigitValue, SpaceEnd, RunEnd, Value, Prefix, Numeral, Fits, Scan, p.Text;
    var j, m := |p.space| + |p.sign|, p.Start();
    var e := m + |Numeral(p.n, p.base, p.upper)|;
    Looks(p, t);
    SignAt(p, t, base);
    PrefixTaken(p, t, base);
    TextSize(p);
    var start := if p.prefix == "0" then m - 1 else m;
    if p.prefix == "0" {
      assert t[start] == t[j..m][0] == '0';
      ZeroFirst(t, start, e, p.base);
    }
    RunStops(t, start, e, p.base);
    ScanOf(t, base, |p.space|, j, p.base, start, e);
    NumeralLength(p.n, p.base, p.upper);
    NumeralValue(p.n, p.base, p.upper, t, m);
  }

  lemma TextSize(p: Parts)
    requires p.Valid()
    ensures |p.Text()| == p.Start() + |Numeral(p.n, p.base, p.upper)| + |p.rest|
  {
    hide Numeral;
  }

  lemma DigitNoSign(c: char)
    ensures ('0' <= c <= '9' || 'A' <= c <= 'Z' || 'a' <= c <= 'z') ==> !IsSpace(c) && c !in "+-"
    ensures c in "+-" ==> !IsSpace(c)
  {
  }

  lemma {:induction false} ZeroFirst(t: string, i: nat, e: nat, base: nat)
    requires i < e <= |t| && t[i] == '0'
    ensures Value(t, i, e, base) == Value(t, i + 1, e, base) && DigitValue(t[i]) == 0
    decreases e
  {
    if i + 1 < e {
      ZeroFirst(t, i, e - 1, base);
    } else {
      assert Value(t, i, i, base) == 0 && Value(t, i + 1, i + 1, base) == 0;
    }
  }

  /** The results, and where the end pointer is left. */
  lemma ReadsParts(p: Parts, t: CString, base: int)
    requires p.Valid() && t == p.Text() && Fits(p, base)
    ensures LegalBase(base) && EndPointer(Scan(t, base)) == |t| - |p.rest|
    ensures ParsedLong(t, base) == if p.sign == "-" then (if p.n > 0x8000_0000 then -0x8000_0000 else -(p.n as int))
                                   else (if p.n > 0x7fff_ffff then 0x7fff_ffff else p.n)
    ensures ParsedUnsigned(t, base) == if p.n > 0xffff_ffff then 0xffff_ffff
                                       else if p.sign == "-" && p.n > 0 then 0x1_0000_0000 - p.n else p.n
  {
    hide Scan, Spelled, ParsedLong, ParsedUnsigned, Fits, p.Text;
    ScansParts(p, t, base);
    LongResult(t, base);
    UnsignedResult(t, base);
  }
}
