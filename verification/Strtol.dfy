/** strtol and strtoul. */
module Strtol {
  import opened Machine
  import opened Text

  const LONG_MAX := 0x7fff_ffff
  const LONG_MIN := -0x8000_0000
  const ULONG_MAX := 0xffff_ffff

  predicate LegalBase(base: int) {
    base == 0 || 2 <= base <= 36
  }

  /** The first position from i on that is not white space. */
  function SpaceEnd(t: CString, i: nat): (e: nat)
    requires i <= |t|
    ensures i <= e <= |t| && !IsSpace(CharAt(t, e))
    ensures forall k :: i <= k < e ==> IsSpace(t[k])
    decreases |t| - i
  {
    if IsSpace(CharAt(t, i)) then SpaceEnd(t, i + 1) else i
  }

  /** The first position from i on that is not a digit of the base. */
  function RunEnd(t: CString, i: nat, base: nat): (e: nat)
    requires i <= |t| && base <= NO_DIGIT
    ensures i <= e <= |t| && DigitValue(CharAt(t, e)) >= base
    ensures forall k :: i <= k < e ==> DigitValue(t[k]) < base
    decreases |t| - i
  {
    if DigitValue(CharAt(t, i)) < base then RunEnd(t, i + 1, base) else i
  }

  /** The effective base, and where its digits begin, when the sign has been read up to i. */
  function Prefix(t: CString, i: nat, base: int): (r: (nat, nat))
    requires i <= |t| && LegalBase(base)
    ensures 2 <= r.0 <= 36 && i <= r.1 <= |t|
  {
    if (base == 0 || base == 16) && CharAt(t, i) == '0' && CharAt(t, i + 1) in "xX" then (16, i + 2)
    else if (base == 0 || base == 2) && CharAt(t, i) == '0' && CharAt(t, i + 1) in "bB" then (2, i + 2)
    else if base == 0 then (if CharAt(t, i) == '0' then 8 else 10, i)
    else (base, i)
  }

  /** The sign, the effective base and the maximal run of digits of a text. */
  datatype Subject = Subject(neg: bool, base: nat, start: nat, end: nat)

  function Scan(t: CString, base: int): (s: Subject)
    requires LegalBase(base)
    ensures 2 <= s.base <= 36 && s.start <= s.end <= |t| && s.end == RunEnd(t, s.start, s.base)
  {
    var i := SpaceEnd(t, 0);
    var p := Prefix(t, if CharAt(t, i) in "+-" then i + 1 else i, base);
    Subject(CharAt(t, i) == '-', p.0, p.1, RunEnd(t, p.1, p.0))
  }

  /** The number that the text spells, whatever its size. */
  ghost function Spelled(t: CString, base: int): (v: int)
    requires LegalBase(base)
    ensures v >= 0
  {
    var s := Scan(t, base);
    Value(t, s.start, s.end, s.base)
  }

  /** Where the end pointer is left: at the start if there was no digit. */
  function EndPointer(s: Subject): nat {
    if s.end == s.start then 0 else s.end
  }

  ghost function Clamp(n: int): int32 {
    if n < LONG_MIN then LONG_MIN else if n > LONG_MAX then LONG_MAX else n
  }

  /** What strtol and strtoul return. */
  ghost function ParsedLong(t: CString, base: int): int32
    requires LegalBase(base)
  {
    Clamp(if Scan(t, base).neg then -Spelled(t, base) else Spelled(t, base))
  }

  ghost function ParsedUnsigned(t: CString, base: int): uint32
    requires LegalBase(base)
  {
    var v := Spelled(t, base);
    if v > ULONG_MAX then ULONG_MAX else Unsigned(if Scan(t, base).neg then -v else v)
  }

  /** The result is the number itself if it is in range, and otherwise the end of the range on its side. */
  lemma LongResult(t: CString, base: int)
    requires LegalBase(base)
    ensures var v := if Scan(t, base).neg then -Spelled(t, base) else Spelled(t, base);
            && (-0x8000_0000 <= v <= 0x7fff_ffff ==> ParsedLong(t, base) == v)
            && (v < -0x8000_0000 ==> ParsedLong(t, base) == -0x8000_0000)
            && (v > 0x7fff_ffff ==> ParsedLong(t, base) == 0x7fff_ffff)
  {
    hide Scan, Spelled;
  }

  lemma UnsignedResult(t: CString, base: int)
    requires LegalBase(base)
    ensures var v := Spelled(t, base);
            && (v > 0xffff_ffff ==> ParsedUnsigned(t, base) == 0xffff_ffff)
            && (v <= 0xffff_ffff && (v == 0 || !Scan(t, base).neg) ==> ParsedUnsigned(t, base) == v)
            && (0 < v <= 0xffff_ffff && Scan(t, base).neg ==> ParsedUnsigned(t, base) == 0x1_0000_0000 - v)
  {
    hide Scan, Spelled;
    if 0 < Spelled(t, base) <= 0xffff_ffff {
      UnsignedOfNegative(Spelled(t, base));
    }
  }

  /** The test made before each digit, with limit split into quotient and remainder: whether the
      digit would take the accumulated value over the limit. */
  lemma Cutoff(limit: nat, base: nat, acc: nat, d: nat)
    requires base >= 2 && d < base
    ensures (acc > limit / base || (acc == limit / base && d > limit % base)) <==> Shifted(acc, base, d) > limit
  {
    var q, r := limit / base, limit % base;
    assert limit == q * base + r;
    if acc > q {
      assert acc * base >= (q + 1) * base;
    } else if acc < q {
      assert (acc + 1) * base <= q * base;
    }
  }

  /** Another digit does not bring a value back under the limit. */
  lemma Grows(v: nat, base: nat, d: nat)
    requires base >= 1
    ensures Shifted(v, base, d) >= v
  {
  }

  lemma SpaceStep(t: CString, i: nat)
    requires i <= |t|
    ensures IsSpace(CharAt(t, i)) ==> i < |t| && SpaceEnd(t, i) == SpaceEnd(t, i + 1)
    ensures !IsSpace(CharAt(t, i)) ==> SpaceEnd(t, i) == i
  {
  }

  lemma RunStep(t: CString, start: nat, pos: nat, base: nat)
    requires start <= pos <= |t| && base <= NO_DIGIT
    requires RunEnd(t, start, base) == RunEnd(t, pos, base)
    ensures DigitValue(CharAt(t, pos)) >= base ==> RunEnd(t, start, base) == pos
    ensures DigitValue(CharAt(t, pos)) < base ==>
              && pos < |t| && RunEnd(t, start, base) == RunEnd(t, pos + 1, base)
              && Value(t, start, pos + 1, base) == Shifted(Value(t, start, pos, base), base, DigitValue(CharAt(t, pos)))
  {
  }

  method SkipSpace(nptr: CString) returns (s: nat, c: char)
    ensures s == SpaceEnd(nptr, 0) + 1 && c == CharAt(nptr, s - 1)
  {
    hide *;
    s := 0;
    c := CharAt(nptr, s);
    s := s + 1;
    SpaceStep(nptr, s - 1);
    while IsSpace(c)
      invariant 1 <= s <= |nptr| + 1 && c == CharAt(nptr, s - 1) && SpaceEnd(nptr, 0) == SpaceEnd(nptr, s - 1)
      decreases |nptr| + 1 - s
    {
      SpaceStep(nptr, s - 1);
      c := CharAt(nptr, s);
      s := s + 1;
    }
    SpaceStep(nptr, s - 1);
  }

  /** The choice of the base, and the prefix that goes with it. */
  method ReadPrefix(nptr: CString, s0: nat, c0: char, base0: int) returns (s: nat, c: char, base: int)
    requires LegalBase(base0) && 1 <= s0 <= |nptr| + 1 && c0 == CharAt(nptr, s0 - 1)
    ensures (base, s - 1) == Prefix(nptr, s0 - 1, base0)
    ensures 1 <= s <= |nptr| + 1 && c == CharAt(nptr, s - 1)
  {
    s, c, base := s0, c0, base0;
    if (base == 0 || base == 16) && c == '0' && (CharAt(nptr, s) == 'x' || CharAt(nptr, s) == 'X') {
      c := CharAt(nptr, s + 1);
      s := s + 2;
      base := 16;
    } else if (base == 0 || base == 2) && c == '0' && (CharAt(nptr, s) == 'b' || CharAt(nptr, s) == 'B') {
      c := CharAt(nptr, s + 1);
      s := s + 2;
      base := 2;
    }
    if base == 0 {
      base := if c == '0' then 8 else 10;
    }
  }

  /** White space, sign and prefix, as strtol and strtoul both begin.  On return c is the first
      character that may be a digit, and s stands behind it. */
  method Begin(nptr: CString, base0: int) returns (s: nat, c: char, base: int, neg: int)
    requires LegalBase(base0)
    ensures var subject := Scan(nptr, base0);
            s == subject.start + 1 && base == subject.base && neg == (if subject.neg then 1 else 0)
    ensures 1 <= s <= |nptr| + 1 && c == CharAt(nptr, s - 1)
  {
    hide SpaceEnd, RunEnd, Prefix;
    neg := 0;
    s, c := SkipSpace(nptr);
    if c == '-' {
      neg := 1;
      c := CharAt(nptr, s);
      s := s + 1;
    } else if c == '+' {
      c := CharAt(nptr, s);
      s := s + 1;
    }
    s, c, base := ReadPrefix(nptr, s, c, base0);
  }

  /** The value of a character as a digit, if it is a digit or a letter. */
  method ReadDigit(c: char) returns (ok: bool, d: int)
    ensures if ok then d == DigitValue(c) else DigitValue(c) == NO_DIGIT
  {
    ok, d := true, 0;
    if IsDigit(c) {
      d := c as int - '0' as int;
    } else if IsAlpha(c) {
      d := c as int - if IsUpper(c) then 'A' as int - 10 else 'a' as int - 10;
    } else {
      ok := false;
    }
  }

  /** acc * base + d in unsigned arithmetic, which does not wrap around when the sum is in range. */
  method ShiftIn(acc: uint32, base: nat, d: nat) returns (r: uint32)
    requires base >= 1 && Shifted(acc, base, d) < TWO_32
    ensures r == Shifted(acc, base, d)
  {
    r := Unsigned(acc * base);
    r := Unsigned(r + d);
  }

  /** The digit loop, the same in strtol and strtoul.  any is 0 without digits, 1 with digits that
      stay within the limit, and -1 once they have gone over it. */
  method Accumulate(nptr: CString, s0: nat, c0: char, base: nat, limit: uint32) returns (s: nat, acc: uint32, any: int)
    requires 2 <= base <= 36 && 1 <= s0 <= |nptr| + 1 && c0 == CharAt(nptr, s0 - 1)
    ensures s == RunEnd(nptr, s0 - 1, base) + 1
    ensures var v := Value(nptr, s0 - 1, s - 1, base);
            && (any == 0 <==> s == s0) && any in {-1, 0, 1}
            && (any >= 0 ==> acc == v && v <= limit)
            && (any < 0 ==> v > limit)
  {
    hide RunEnd, DigitValue, Shifted, CharAt;
    var cutlim, cutoff := limit % base, limit / base;
    var c;
    s, c, acc, any := s0, c0, 0, 0;
    ghost var v: nat := 0;
    while true
      invariant s0 <= s <= |nptr| + 1 && c == CharAt(nptr, s - 1)
      invariant RunEnd(nptr, s0 - 1, base) == RunEnd(nptr, s - 1, base)
      invariant v == Value(nptr, s0 - 1, s - 1, base)
      invariant (any == 0 <==> s == s0) && any in {-1, 0, 1}
      invariant any >= 0 ==> acc == v && v <= limit
      invariant any < 0 ==> v > limit
      decreases |nptr| + 1 - s
    {
      RunStep(nptr, s0 - 1, s - 1, base);
      var ok, d := ReadDigit(c);
      if !ok {
        break;
      }
      if d >= base {
        break;
      }
      Grows(v, base, d);
      Cutoff(limit, base, acc, d);
      v := Shifted(v, base, d);
      if any < 0 || acc > cutoff || (acc == cutoff && d > cutlim) {
        any := -1;
      } else {
        any := 1;
        acc := ShiftIn(acc, base, d);
      }
      c := CharAt(nptr, s);
      s := s + 1;
    }
  }

  // What conversions between long and unsigned long do to the values that come up.

  lemma ConvertPositive(v: nat)
    ensures v <= LONG_MAX ==> Signed(v) == v
  {
  }

  lemma UnsignedOfNegative(v: nat)
    ensures 0 < v < TWO_32 ==> Unsigned(0 - v) == TWO_32 - v
  {
    if 0 < v < TWO_32 {
      assert (0 - v) + TWO_32 == TWO_32 - v;
    }
  }

  lemma ConvertNegative(v: nat)
    ensures v <= -LONG_MIN ==> Signed(Unsigned(0 - v)) == 0 - v
  {
    hide Unsigned;
    UnsignedOfNegative(v);
    UnsignedOfZero();
  }

  lemma UnsignedOfZero()
    ensures Unsigned(0) == 0
  {
  }

  lemma ConvertLimits()
    ensures Signed(Unsigned(LONG_MIN)) == LONG_MIN && Signed(Unsigned(LONG_MAX)) == LONG_MAX
    ensures Unsigned(-(Unsigned(LONG_MIN) as int)) == -LONG_MIN
  {
  }

  method Strtol(nptr: CString, base0: int) returns (result: int32, endptr: nat)
    requires LegalBase(base0)
    ensures result == ParsedLong(nptr, base0)
    ensures endptr == if Scan(nptr, base0).start == Scan(nptr, base0).end then 0 else Scan(nptr, base0).end
  {
    hide Scan, RunEnd, Value, CharAt, Signed, Unsigned;
    var s, c, base, neg := Begin(nptr, base0);
    ConvertLimits();
    var cutoff: uint32 := if neg == 1 then Unsigned(-(Unsigned(LONG_MIN) as int)) else LONG_MAX;
    var acc, any;
    s, acc, any := Accumulate(nptr, s, c, base, cutoff);
    ConvertPositive(acc);
    ConvertNegative(acc);
    if any < 0 {
      acc := Unsigned(if neg == 1 then LONG_MIN else LONG_MAX);
    } else if neg == 1 {
      acc := Unsigned(-(acc as int));
    }
    return Signed(acc), if any != 0 then s - 1 else 0;
  }

  method Strtoul(nptr: CString, base0: int) returns (result: uint32, endptr: nat)
    requires LegalBase(base0)
    ensures result == ParsedUnsigned(nptr, base0)
    ensures endptr == if Scan(nptr, base0).start == Scan(nptr, base0).end then 0 else Scan(nptr, base0).end
  {
    hide Scan, RunEnd, Value, CharAt;
    var s, c, base, neg := Begin(nptr, base0);
    var acc, any;
    s, acc, any := Accumulate(nptr, s, c, base, ULONG_MAX);
    if any < 0 {
      acc := ULONG_MAX;
    } else if neg == 1 {
      acc := Unsigned(-(acc as int));
    }
    return acc, if any != 0 then s - 1 else 0;
  }

  // ---------- the subject sequence of the C standard ----------

  /** ISO/IEC 9899:1999, section 7.20.1.4: a prefix 0x belongs to the subject sequence only when a
      hexadecimal digit follows it, and there is no prefix for binary numbers. */
  function StandardPrefix(t: CString, i: nat, base: int): (r: (nat, nat))
    requires i <= |t| && LegalBase(base)
    ensures 2 <= r.0 <= 36 && i <= r.1 <= |t|
  {
    if (base == 0 || base == 16) && CharAt(t, i) == '0' && CharAt(t, i + 1) in "xX" && DigitValue(CharAt(t, i + 2)) < 16 then
      (16, i + 2)
    else if base == 0 then (if CharAt(t, i) == '0' then 8 else 10, i)
    else (base, i)
  }

  function StandardScan(t: CString, base: int): (s: Subject)
    requires LegalBase(base)
    ensures 2 <= s.base <= 36 && s.start <= s.end <= |t|
  {
    var i := SpaceEnd(t, 0);
    var p := StandardPrefix(t, if CharAt(t, i) in "+-" then i + 1 else i, base);
    Subject(CharAt(t, i) == '-', p.0, p.1, RunEnd(t, p.1, p.0))
  }

  /** Where the number begins, after white space and sign. */
  function NumberStart(t: CString): (i: nat)
    ensures i <= |t|
  {
    var i := SpaceEnd(t, 0);
    if CharAt(t, i) in "+-" then i + 1 else i
  }

  /** The text begins with a prefix that these functions take and the standard does not. */
  predicate OwnPrefix(t: CString, base: int) {
    var i := NumberStart(t);
    CharAt(t, i) == '0'
    && (|| ((base == 0 || base == 16) && CharAt(t, i + 1) in "xX" && DigitValue(CharAt(t, i + 2)) >= 16)
        || ((base == 0 || base == 2) && CharAt(t, i + 1) in "bB"))
  }

  lemma SameSubject(t: CString, base: int)
    requires LegalBase(base) && !OwnPrefix(t, base)
    ensures Scan(t, base) == StandardScan(t, base)
  {
    hide SpaceEnd, RunEnd, IsSpace;
  }

  /** After an own prefix the two do not even stop at the same place: the standard has read the 0. */
  lemma OtherSubject(t: CString, base: int)
    requires LegalBase(base) && OwnPrefix(t, base)
    ensures EndPointer(Scan(t, base)) != EndPointer(StandardScan(t, base))
  {
    hide Scan, StandardScan, OwnPrefix, NumberStart;
    OwnScans(t, base);
  }

  lemma OneZero(t: CString, i: nat, base: nat)
    requires i + 1 < |t| && t[i] == '0' && 2 <= base <= 16 && DigitValue(t[i + 1]) >= base
    ensures RunEnd(t, i, base) == i + 1
  {
    assert RunEnd(t, i + 1, base) == i + 1;
  }

  /** Number and end pointer are those of the standard exactly when there is no such prefix. */
  lemma StandardAgreement(t: CString, base: int)
    requires LegalBase(base)
    ensures var s, std := Scan(t, base), StandardScan(t, base);
            (Spelled(t, base) == Value(t, std.start, std.end, std.base) && EndPointer(s) == EndPointer(std))
              <==> !OwnPrefix(t, base)
  {
    hide Scan, StandardScan, Value, OwnPrefix, EndPointer;
    if OwnPrefix(t, base) {
      OtherSubject(t, base);
    } else {
      SameSubject(t, base);
    }
  }

  lemma {:induction false} ZeroValue(t: string, i: nat, e: nat, base: nat)
    requires i <= e <= |t| && base >= 1
    ensures Value(t, i, e, base) == 0 <==> forall k :: i <= k < e ==> DigitValue(t[k]) == 0
    decreases e
  {
    hide DigitValue;
    if i < e {
      ZeroValue(t, i, e - 1, base);
      PositiveStays(Value(t, i, e - 1, base), base, DigitValue(t[e - 1]));
    }
  }

  lemma PositiveStays(v: nat, base: nat, d: nat)
    requires base >= 1
    ensures Shifted(v, base, d) == 0 <==> v == 0 && d == 0
  {
  }

  /** The two scans of a text with an own prefix: behind the prefix the digits run to the end, and the
      standard reads the 0 alone. */
  lemma OwnScans(t: CString, base: int)
    requires LegalBase(base) && OwnPrefix(t, base)
    ensures var i, s, std := NumberStart(t), Scan(t, base), StandardScan(t, base);
            && s.start == i + 2 <= s.end && std.start == i && std.end == i + 1 && t[i] == '0'
            && (if t[i + 1] in "bB" then s.base == 2 else s.base == 16 && s.end == s.start)
  {
    hide SpaceEnd, IsSpace, RunEnd;
    var i, s, std := NumberStart(t), Scan(t, base), StandardScan(t, base);
    OneZero(t, i, std.base);
    if t[i + 1] !in "bB" {
      NoDigit(t, i + 2, 16);
    }
  }

  lemma NoDigit(t: CString, i: nat, base: nat)
    requires i <= |t| && base <= NO_DIGIT && DigitValue(CharAt(t, i)) >= base
    ensures RunEnd(t, i, base) == i
  {
  }

  /** The value alone also agrees behind 0x without a digit, and behind 0b exactly when no digit but
      zeros follows. */
  lemma ValueAgreement(t: CString, base: int)
    requires LegalBase(base)
    ensures var i, s, std := NumberStart(t), Scan(t, base), StandardScan(t, base);
            Spelled(t, base) == Value(t, std.start, std.end, std.base) <==>
              OwnPrefix(t, base) && CharAt(t, i + 1) in "bB" ==> forall k :: s.start <= k < s.end ==> t[k] == '0'
  {
    hide Scan, StandardScan, Value, OwnPrefix, NumberStart;
    if OwnPrefix(t, base) {
      var s, std := Scan(t, base), StandardScan(t, base);
      OwnScans(t, base);
      ZeroValue(t, s.start, s.end, s.base);
      ZeroValue(t, std.start, std.end, std.base);
    } else {
      SameSubject(t, base);
    }
  }

  /** From 0x without a digit the standard reads 0 and stops at the x; here nothing is read. */
  lemma HexPrefix()
    ensures EndPointer(StandardScan("0x", 16)) == 1 && EndPointer(Scan("0x", 16)) == 0
  {
    var t: CString := "0x";
    assert SpaceEnd(t, 0) == 0 && RunEnd(t, 2, 16) == 2 && RunEnd(t, 1, 16) == 1;
  }

  /** From 0b1 in base 2 the standard reads 0; here it is 1. */
  lemma BinaryPrefix()
    ensures var std := StandardScan("0b1", 2);
            Value("0b1", std.start, std.end, std.base) == 0 && Spelled("0b1", 2) == 1
  {
    hide Prefix, StandardPrefix;
    var t: CString := "0b1";
    BinaryScans();
    assert Value(t, 2, 2, 2) == 0 && Value(t, 0, 0, 2) == 0;
  }

  lemma BinaryScans()
    ensures Scan("0b1", 2) == Subject(false, 2, 2, 3) && StandardScan("0b1", 2) == Subject(false, 2, 0, 1)
  {
    var t: CString := "0b1";
    assert SpaceEnd(t, 0) == 0 && RunEnd(t, 3, 2) == 3 && RunEnd(t, 1, 2) == 1;
  }
}
