/** Reading back with strtol and strtoul what the formatter has printed. */
module RoundTrip {
  import opened Machine
  import opened Options
  import opened Text
  import opened Prtl
  import opened Fdoprnt
  import opened Strtol

  ghost predicate AllOf(t: string, i: nat, e: nat, c: char)
    requires i <= e <= |t|
  {
    forall k :: i <= k < e ==> t[k] == c
  }

  /** White space up to i, a minus sign or none, and digits from start to end. */
  lemma ScanShape(t: CString, base: int, i: nat, start: nat, end: nat)
    requires base in {8, 10, 16} && i <= start <= end <= |t|
    requires forall k :: 0 <= k < i ==> IsSpace(t[k])
    requires (start == i && CharAt(t, i) !in "+-" && !IsSpace(CharAt(t, i))) || (start == i + 1 && CharAt(t, i) == '-')
    requires forall k :: start <= k < end ==> DigitValue(t[k]) < base
    requires DigitValue(CharAt(t, end)) >= base
    requires base == 16 && CharAt(t, start) == '0' ==> CharAt(t, start + 1) !in "xX"
    ensures Scan(t, base) == Subject(start == i + 1, base, start, end)
  {
    hide Spelled, Value, SpaceEnd, RunEnd;
    var e := SpaceEnd(t, 0);
    assert e == i;
    assert RunEnd(t, start, base) == end;
  }

  lemma {:induction false} LeadingZeros(t: string, i: nat, m: nat, e: nat, base: nat)
    requires i <= m <= e <= |t| && AllOf(t, i, m, '0')
    ensures Value(t, i, e, base) == Value(t, m, e, base)
    decreases e
  {
    if m < e {
      LeadingZeros(t, i, m, e - 1, base);
    } else if i < m {
      LeadingZeros(t, i, m - 1, m - 1, base);
      assert Value(t, i, m - 1, base) == 0;
      assert Value(t, m, m, base) == 0;
    }
  }

  lemma {:induction false} TrailingZeros(t: string, i: nat, m: nat, e: nat, base: nat)
    requires base in {8, 10, 16} && i <= m <= e <= |t| && AllOf(t, m, e, '0')
    ensures Value(t, i, m, base) == 0 ==> Value(t, i, e, base) == 0
    ensures m < e ==> Value(t, i, e, base) >= 2 * Value(t, i, m, base)
    decreases e - m
  {
    if m < e {
      TrailingZeros(t, i, m, e - 1, base);
      assert DigitValue(t[e - 1]) == 0;
    }
  }

  /** Where the parts of a field are: blanks up to i, a minus sign or none up to start, zeros up to
      from, and the text; anything behind it is fill. */
  datatype Parts = Parts(i: nat, start: nat, from: nat)

  ghost function PartsOf(left: bool, fill: char, fmin: nat, minus: bool, text: string): Parts {
    var pad := |Fill(fill, fmin - |text| - if minus then 1 else 0)|;
    var i := if !left && fill == ' ' then pad else 0;
    var start := if minus then i + 1 else i;
    Parts(i, start, if !left && fill == '0' then start + pad else start)
  }

  lemma FieldIs(left: bool, fill: char, fmin: nat, minus: bool, text: string)
    requires fill == ' ' || fill == '0'
    ensures var t, s := Field(left, fill, fmin, 0, minus, text), if minus then "-" else "";
            var pad := Fill(fill, fmin - |text| - |s|);
            t == if left then s + text + pad else if fill == ' ' then pad + s + text else s + pad + text
  {
    var s := if minus then "-" else "";
    if fmin == 0 {
      assert Fill(fill, 0 - |text| - |s|) == Fill(fill, 0);
    }
  }

  /** Three texts in a row, the first or last of which may be fill. */
  lemma Thirds(a: string, b: string, c: string)
    ensures var t := a + b + c;
            && |t| == |a| + |b| + |c| && t[|a|..|a| + |b|] == b && t[|a| + |b|..|t|] == c
            && forall k :: 0 <= k < |a| ==> t[k] == a[k]
  {
  }

  lemma FillAll(t: string, i: nat, e: nat, c: char)
    requires i <= e <= |t| && t[i..e] == Fill(c, e - i)
    ensures AllOf(t, i, e, c)
  {
    assert forall k :: i <= k < e ==> t[k] == t[i..e][k - i];
  }

  /** The parts stand where they are said to, and any text behind them is fill. */
  ghost predicate Shaped(t: string, p: Parts, minus: bool, text: string, fill: char) {
    && p.i <= p.start <= p.from && p.from + |text| <= |t|
    && AllOf(t, 0, p.i, ' ') && (minus ==> p.i < |t| && t[p.i] == '-') && AllOf(t, p.start, p.from, '0')
    && t[p.from..p.from + |text|] == text && AllOf(t, p.from + |text|, |t|, fill)
  }

  function SignText(minus: bool): string {
    if minus then "-" else ""
  }

  lemma ShapeLeft(fill: char, n: nat, minus: bool, text: string)
    ensures var l := |SignText(minus)|;
            Shaped(SignText(minus) + text + Fill(fill, n), Parts(0, l, l), minus, text, fill)
  {
    hide AllOf, Fill;
    var s, pad := SignText(minus), Fill(fill, n);
    var t := s + text + pad;
    Thirds(s, text, pad);
    NoneOf(t, 0, ' ');
    NoneOf(t, |s|, '0');
    FillAll(t, |s| + |text|, |t|, fill);
  }

  lemma ShapeBlank(n: nat, minus: bool, text: string)
    ensures var l := n + |SignText(minus)|;
            Shaped(Fill(' ', n) + SignText(minus) + text, Parts(n, l, l), minus, text, ' ')
  {
    hide AllOf, Fill;
    var s, pad := SignText(minus), Fill(' ', n);
    var t := pad + s + text;
    Thirds(pad, s, text);
    assert t[0..n] == pad;
    assert minus ==> t[n] == t[n..n + |s|][0] == '-';
    FillAll(t, 0, n, ' ');
    NoneOf(t, n + |s|, '0');
    NoneOf(t, |t|, ' ');
  }

  lemma ShapeZero(n: nat, minus: bool, text: string)
    ensures var l := |SignText(minus)|;
            Shaped(SignText(minus) + Fill('0', n) + text, Parts(0, l, l + n), minus, text, '0')
  {
    hide AllOf, Fill;
    var s, pad := SignText(minus), Fill('0', n);
    var t := s + pad + text;
    Thirds(s, pad, text);
    NoneOf(t, 0, ' ');
    FillAll(t, |s|, |s| + n, '0');
    NoneOf(t, |t|, '0');
  }

  lemma FieldShape(left: bool, fill: char, fmin: nat, minus: bool, text: string)
    requires fill == ' ' || fill == '0'
    ensures var t, p := Field(left, fill, fmin, 0, minus, text), PartsOf(left, fill, fmin, minus, text);
            && p.i <= p.start <= p.from && p.from + |text| <= |t|
            && AllOf(t, 0, p.i, ' ') && (minus ==> t[p.i] == '-') && AllOf(t, p.start, p.from, '0')
            && t[p.from..p.from + |text|] == text && AllOf(t, p.from + |text|, |t|, fill)
            && |t| == (if fmin > |text| + (if minus then 1 else 0) then fmin else |text| + if minus then 1 else 0)
            && (p.from + |text| < |t| <==> (left && fmin > |text| + if minus then 1 else 0))
  {
    hide Field, AllOf, Fill;
    FieldIs(left, fill, fmin, minus, text);
    FieldLength(left, fill, fmin, 0, minus, text);
    var gap := fmin - |text| - |SignText(minus)|;
    var n := if gap > 0 then gap else 0;
    FillClipped(fill, gap);
    if left {
      ShapeLeft(fill, n, minus, text);
    } else if fill == ' ' {
      ShapeBlank(n, minus, text);
    } else {
      ShapeZero(n, minus, text);
    }
  }

  lemma FillClipped(c: char, n: int)
    ensures Fill(c, n) == Fill(c, if n > 0 then n else 0)
  {
  }

  lemma NoneOf(t: string, i: nat, c: char)
    requires i <= |t|
    ensures AllOf(t, i, i, c)
  {
  }

  /** The digits of the decimal printer, and what it makes of INT_MIN, whose negation is negative. */
  lemma DecTextChars(n: int)
    ensures |DecText(n)| >= 1 && forall k :: 0 <= k < |DecText(n)| ==> 0 < DecText(n)[k] as int < 128
    ensures n >= 0 ==> forall k :: 0 <= k < |DecText(n)| ==> IsDigit(DecText(n)[k])
    ensures n < 0 ==> DigitValue(DecText(n)[0]) >= 10
  {
    hide Digits, DecChar;
    DecChars(n < 0);
    NoLeadingZero(Magnitude(n), 10);
    assert DecText(n)[0] == DecChar(n < 0)(Digits(Magnitude(n), 10)[0]);
  }

  ghost function DText(n: int32): string {
    DecText(if n < 0 then Signed(-(n as int)) else n)
  }

  lemma DTextIs(n: int32)
    ensures n != LONG_MIN ==> DText(n) == Numeral(Magnitude(n), 10, false)
    ensures n == LONG_MIN ==> DText(n) == DecText(LONG_MIN)
  {
    hide DecText;
    DecTextNumeral(Magnitude(n));
  }

  lemma FieldChars(left: bool, fill: char, fmin: nat, minus: bool, text: string)
    requires fill == ' ' || fill == '0'
    requires forall k :: 0 <= k < |text| ==> 0 < text[k] as int < 128
    ensures var t := Field(left, fill, fmin, 0, minus, text); forall k :: 0 <= k < |t| ==> 0 < t[k] as int < 128
  {
    hide Field;
    FieldIs(left, fill, fmin, minus, text);
  }

  /** What %d prints, with the flags and the width of its specification. */
  ghost function DField(left: bool, fill: char, width: int32, n: int32): CString
    requires fill == ' ' || fill == '0'
  {
    hide DecText, Field, Fill;
    DecTextChars(if n < 0 then Signed(-(n as int)) else n);
    FieldChars(left, fill, Limit(width), n < 0, DText(n));
    FieldOf(Spec(left, fill, width, 0, 0, []), Convert('d', Int(n)).value)
  }

  /** The number with its sign is shorter than the field. */
  ghost predicate Padded(width: int32, n: int32) {
    Limit(width) > |DText(n)| + if n < 0 then 1 else 0
  }

  /** The field is as wide as asked for, or as the number is long. */
  lemma DFieldLength(left: bool, fill: char, width: int32, n: int32)
    requires fill == ' ' || fill == '0'
    ensures |DField(left, fill, width, n)| == if Padded(width, n) then Limit(width) else |DText(n)| + if n < 0 then 1 else 0
  {
    hide DecText, Field;
    FieldShape(left, fill, Limit(width), n < 0, DText(n));
  }

  /** For INT_MIN no digit is read after the zeros, if any, that fill the field. */
  lemma ParseIntMin(left: bool, fill: char, width: int32)
    requires fill == ' ' || fill == '0'
    ensures ParsedLong(DField(left, fill, width, LONG_MIN), 10) == 0
  {
    hide Field, DecText, Scan, PartsOf;
    var t, p := DField(left, fill, width, LONG_MIN), PartsOf(left, fill, Limit(width), true, DText(LONG_MIN));
    FieldShape(left, fill, Limit(width), true, DText(LONG_MIN));
    DecTextChars(LONG_MIN);
    assert t[p.from] == t[p.from..p.from + |DText(LONG_MIN)|][0] == DText(LONG_MIN)[0];
    PartsStart(left, fill, Limit(width), true, DText(LONG_MIN));
    ScanShape(t, 10, p.i, p.start, p.from);
    LeadingZeros(t, p.start, p.from, p.from, 10);
  }

  lemma PartsStart(left: bool, fill: char, fmin: nat, minus: bool, text: string)
    ensures var p := PartsOf(left, fill, fmin, minus, text); p.start == if minus then p.i + 1 else p.i
    ensures left ==> PartsOf(left, fill, fmin, minus, text).from == PartsOf(left, fill, fmin, minus, text).start
  {
  }

  lemma NumeralDigits(n: nat, base: nat, upper: bool)
    requires 2 <= base <= 36
    ensures |Numeral(n, base, upper)| >= 1
    ensures forall k :: 0 <= k < |Numeral(n, base, upper)| ==>
              DigitValue(Numeral(n, base, upper)[k]) < base && 0 < Numeral(n, base, upper)[k] as int < 128
  {
    hide Digits;
  }

  /** The digits read of a field that nothing but a blank or the end follows are the zeros that fill
      it and its numeral. */
  lemma ScanNumeral(left: bool, fill: char, fmin: nat, minus: bool, m: nat, base: nat, upper: bool, t: CString)
    requires fill == ' ' || fill == '0'
    requires base in {8, 10, 16} && t == Field(left, fill, fmin, 0, minus, Numeral(m, base, upper))
    requires !(left && fill == '0' && fmin > |Numeral(m, base, upper)| + if minus then 1 else 0)
    ensures var text, p := Numeral(m, base, upper), PartsOf(left, fill, fmin, minus, Numeral(m, base, upper));
            && p.start <= p.from && p.from + |text| <= |t| && AllOf(t, p.start, p.from, '0')
            && t[p.from..p.from + |text|] == text
            && Scan(t, base) == Subject(minus, base, p.start, p.from + |text|)
  {
    hide Field, Scan, PartsOf, Numeral, Value, Digits, DigitValue, Fill;
    var text := Numeral(m, base, upper);
    var p := PartsOf(left, fill, fmin, minus, text);
    var e := p.from + |text|;
    FieldShape(left, fill, fmin, minus, text);
    PartsStart(left, fill, fmin, minus, text);
    NumeralDigits(m, base, upper);
    TextDigits(t, p.from, text, base);
    ZeroDigits(t, p.start, p.from, base);
    ZeroDigits(t, e, e, base);
    DigitLooks(CharAt(t, p.start + 1));
    ScanShape(t, base, p.i, p.start, e);
  }

  /** Such a field spells its number. */
  lemma ParseNumeral(left: bool, fill: char, fmin: nat, minus: bool, m: nat, base: nat, upper: bool, t: CString)
    requires fill == ' ' || fill == '0'
    requires base in {8, 10, 16} && t == Field(left, fill, fmin, 0, minus, Numeral(m, base, upper))
    requires !(left && fill == '0' && fmin > |Numeral(m, base, upper)| + if minus then 1 else 0)
    ensures Scan(t, base).neg == minus && Spelled(t, base) == m
  {
    hide Field, Scan, PartsOf, Numeral, Value, Digits, DigitValue, Fill, AllOf;
    ScanNumeral(left, fill, fmin, minus, m, base, upper, t);
    var p := PartsOf(left, fill, fmin, minus, Numeral(m, base, upper));
    LeadingZeros(t, p.start, p.from, p.from + |Numeral(m, base, upper)|, base);
    NumeralLength(m, base, upper);
    NumeralValue(m, base, upper, t, p.from);
  }

  /** With zeros behind the number, a multiple of it is read. */
  lemma ParseTrailing(fmin: nat, minus: bool, m: nat, base: nat, upper: bool, t: CString)
    requires base in {8, 10, 16} && t == Field(true, '0', fmin, 0, minus, Numeral(m, base, upper))
    requires fmin > |Numeral(m, base, upper)| + if minus then 1 else 0
    ensures Scan(t, base).neg == minus && (m == 0 ==> Spelled(t, base) == 0) && Spelled(t, base) >= 2 * m
  {
    hide Field, Scan, PartsOf, Numeral, Value, Digits, DigitValue, Fill;
    var text := Numeral(m, base, upper);
    var p := PartsOf(true, '0', fmin, minus, text);
    var e := p.from + |text|;
    FieldShape(true, '0', fmin, minus, text);
    PartsStart(true, '0', fmin, minus, text);
    NumeralDigits(m, base, upper);
    NumeralLength(m, base, upper);
    TextDigits(t, p.from, text, base);
    ZeroDigits(t, e, |t|, base);
    DigitLooks(CharAt(t, p.start + 1));
    ScanShape(t, base, p.i, p.start, |t|);
    NumeralValue(m, base, upper, t, p.from);
    TrailingZeros(t, p.start, e, |t|, base);
  }

  lemma ZeroDigits(t: CString, i: nat, e: nat, base: nat)
    requires i <= e <= |t| && AllOf(t, i, e, '0') && base >= 2
    ensures forall k :: i <= k < e ==> DigitValue(t[k]) < base
    ensures DigitValue(CharAt(t, |t|)) == NO_DIGIT && (e < |t| && t[e] == ' ' ==> DigitValue(t[e]) == NO_DIGIT)
    ensures i < e ==> !IsSpace(t[i]) && t[i] !in "+-"
  {
  }

  lemma TextDigits(t: CString, i: nat, text: string, base: nat)
    requires i + |text| <= |t| && t[i..i + |text|] == text && base <= 36
    requires forall k :: 0 <= k < |text| ==> DigitValue(text[k]) < base
    ensures forall k :: i <= k < i + |text| ==> DigitValue(t[k]) < base
    ensures |text| > 0 ==> !IsSpace(t[i]) && t[i] !in "+-"
    ensures |text| > 1 && base <= 16 ==> t[i + 1] !in "xX"
  {
    hide DigitValue;
    forall k | i <= k < i + |text|
      ensures DigitValue(t[k]) < base
    {
      assert t[k] == t[i..i + |text|][k - i];
    }
    if |text| > 0 {
      DigitLooks(t[i]);
    }
    if |text| > 1 {
      DigitLooks(t[i + 1]);
    }
  }

  lemma DigitLooks(c: char)
    ensures DigitValue(c) < 36 ==> !IsSpace(c) && c !in "+-"
    ensures DigitValue(c) < 16 ==> c !in "xX"
  {
  }

  function BaseOf(f: char): (base: nat)
    requires f in "uoxX"
    ensures base in {8, 10, 16}
  {
    if f == 'u' then 10 else if f == 'o' then 8 else 16
  }

  lemma UnsignedFieldIs(left: bool, fill: char, width: int32, f: char, v: int32)
    requires (fill == ' ' || fill == '0') && f in "uoxX"
    ensures Convert(f, Int(v)).Some? && Convert(f, Int(v)).value.text == Numeral(Unsigned(v), BaseOf(f), f == 'X')
    ensures var t := FieldOf(Spec(left, fill, width, 0, 0, []), Convert(f, Int(v)).value);
            && t == Field(left, fill, Limit(width), 0, false, Numeral(Unsigned(v), BaseOf(f), f == 'X'))
            && forall k :: 0 <= k < |t| ==> 0 < t[k] as int < 128
  {
    hide Field, Numeral, DigitValue;
    NumeralDigits(Unsigned(v), BaseOf(f), f == 'X');
    FieldChars(left, fill, Limit(width), false, Numeral(Unsigned(v), BaseOf(f), f == 'X'));
  }

  /** What %u, %o, %x and %X print, with the flags and the width of their specification. */
  ghost function UField(left: bool, fill: char, width: int32, f: char, v: int32): CString
    requires (fill == ' ' || fill == '0') && f in "uoxX"
  {
    hide Field, Numeral, Convert;
    UnsignedFieldIs(left, fill, width, f, v);
    FieldOf(Spec(left, fill, width, 0, 0, []), Convert(f, Int(v)).value)
  }

  lemma InRange(u: uint32)
    ensures Unsigned(u) == u
  {
  }

  lemma UFieldIs(left: bool, fill: char, width: int32, f: char, v: int32)
    requires (fill == ' ' || fill == '0') && f in "uoxX"
    ensures Convert(f, Int(v)).value.text == Numeral(Unsigned(v), BaseOf(f), f == 'X')
    ensures UField(left, fill, width, f, v)
         == Field(left, fill, Limit(width), 0, false, Numeral(Unsigned(v), BaseOf(f), f == 'X'))
  {
    hide Field, Numeral, Convert;
    UnsignedFieldIs(left, fill, width, f, v);
  }

  /** strtoul reads back what %u, %o, %x and %X have printed, in the base of the conversion, except
      for numbers with fill zeros behind them, where only 0 and, by way of the clamping, UINT_MAX
      come out right. */
  lemma UnsignedRoundTrip(left: bool, fill: char, width: int32, f: char, v: int32)
    requires (fill == ' ' || fill == '0') && f in "uoxX"
    ensures ParsedUnsigned(UField(left, fill, width, f, v), BaseOf(f)) == Unsigned(v) <==>
              (left && fill == '0' && Limit(width) > |Convert(f, Int(v)).value.text| ==>
                 Unsigned(v) == 0 || Unsigned(v) == ULONG_MAX)
  {
    hide Field, Scan, Spelled, Numeral, Convert, UField, Limit, Unsigned;
    UFieldIs(left, fill, width, f, v);
    InRange(Unsigned(v));
    var t, base, u := UField(left, fill, width, f, v), BaseOf(f), Unsigned(v);
    if left && fill == '0' && Limit(width) > |Numeral(u, base, f == 'X')| {
      ParseTrailing(Limit(width), false, u, base, f == 'X', t);
      if Spelled(t, base) <= ULONG_MAX {
        InRange(Spelled(t, base));
      }
    } else {
      ParseNumeral(left, fill, Limit(width), false, u, base, f == 'X', t);
    }
  }

  /** The canonical form: no leading zero but for the number zero itself. */
  lemma Canonical(f: char, v: int32)
    requires f in "uoxX"
    ensures var text := Convert(f, Int(v)).value.text;
            |text| >= 1 && (text[0] == '0' <==> v == 0) && (v == 0 ==> text == "0")
  {
    hide Digits;
    var base := if f == 'u' then 10 else if f == 'o' then 8 else 16;
    NoLeadingZero(Unsigned(v), base);
    if v == 0 {
      SingleDigit(0, base);
    }
  }

  /** strtol reads back what %d has printed, whatever the width and the flags, except for INT_MIN
      and for numbers with fill zeros behind them, where only 0 and, by way of the clamping,
      INT_MAX come out right. */
  lemma DecimalRoundTrip(left: bool, fill: char, width: int32, n: int32)
    requires fill == ' ' || fill == '0'
    ensures ParsedLong(DField(left, fill, width, n), 10) == n <==>
              n != LONG_MIN && (left && fill == '0' && Padded(width, n) ==> n == 0 || n == LONG_MAX)
  {
    hide Field, Scan, Spelled, DecText, Numeral;
    if n == LONG_MIN {
      ParseIntMin(left, fill, width);
    } else {
      DTextIs(n);
      if left && fill == '0' && Padded(width, n) {
        ParseTrailing(Limit(width), n < 0, Magnitude(n), 10, false, DField(left, fill, width, n));
      } else {
        ParseNumeral(left, fill, Limit(width), n < 0, Magnitude(n), 10, false, DField(left, fill, width, n));
      }
    }
  }

  // ---------- numbers with a precision ----------

  lemma FieldCut(left: bool, fill: char, fmin: nat, fmax: nat, minus: bool, text: string)
    ensures Field(left, fill, fmin, fmax, minus, text)
         == Field(left, fill, fmin, 0, minus, if fmax != 0 && |text| > fmax then text[..fmax] else text)
  {
  }

  /** Fill behind a shorter text makes up for what is missing only if that was fill. */
  lemma LeftShorter(fill: char, gap: nat, s: string, text: string, p: nat)
    requires p < |text|
    ensures s + text[..p] + Fill(fill, gap + |text| - p) == s + text + Fill(fill, gap) <==> AllOf(text, p, |text|, fill)
  {
    var t, t' := s + text + Fill(fill, gap), s + text[..p] + Fill(fill, gap + |text| - p);
    assert forall k {:trigger text[k]} :: p <= k < |text| ==> t[|s| + k] == text[k] && t'[|s| + k] == fill;
    if AllOf(text, p, |text|, fill) {
      assert text == text[..p] + Fill(fill, |text| - p);
      assert Fill(fill, gap + |text| - p) == Fill(fill, |text| - p) + Fill(fill, gap);
    }
  }

  /** Fill before it never does, unless the missing text was fill. */
  lemma RightShorter(fill: char, gap: nat, s: string, text: string, p: nat)
    requires 1 <= p < |text| && text[0] != fill && (s == [] || s[0] != fill)
    ensures Fill(fill, gap + |text| - p) + s + text[..p] != Fill(fill, gap) + s + text
  {
    assert (Fill(fill, gap) + s + text)[gap] == (s + text)[0] != fill;
    assert (Fill(fill, gap + |text| - p) + s + text[..p])[gap] == fill;
  }

  lemma ShorterLeft(fill: char, fmin: nat, minus: bool, text: string, p: nat)
    requires (fill == ' ' || fill == '0') && 1 <= p < |text| && fmin >= |text| + if minus then 1 else 0
    ensures Field(true, fill, fmin, 0, minus, text[..p]) == Field(true, fill, fmin, 0, minus, text) <==>
              AllOf(text, p, |text|, fill)
  {
    hide Field, Fill, AllOf;
    FieldIs(true, fill, fmin, minus, text);
    FieldIs(true, fill, fmin, minus, text[..p]);
    var s, head := if minus then "-" else "", text[..p];
    var gap := fmin - |text| - |s|;
    assert fmin - |head| - |s| == gap + |text| - p;
    LeftShorter(fill, gap, s, text, p);
  }

  lemma ShorterBlank(fmin: nat, minus: bool, text: string, p: nat)
    requires 1 <= p < |text| && text[0] != ' ' && fmin >= |text| + if minus then 1 else 0
    ensures Field(false, ' ', fmin, 0, minus, text[..p]) != Field(false, ' ', fmin, 0, minus, text)
  {
    hide Field, Fill;
    FieldIs(false, ' ', fmin, minus, text);
    FieldIs(false, ' ', fmin, minus, text[..p]);
    var s := if minus then "-" else "";
    var gap := fmin - |text| - |s|;
    assert fmin - |text[..p]| - |s| == gap + |text| - p;
    RightShorter(' ', gap, s, text, p);
  }

  lemma ShorterZero(fmin: nat, minus: bool, text: string, p: nat)
    requires 1 <= p < |text| && text[0] != '0' && fmin >= |text| + if minus then 1 else 0
    ensures Field(false, '0', fmin, 0, minus, text[..p]) != Field(false, '0', fmin, 0, minus, text)
  {
    hide Field, Fill;
    FieldIs(false, '0', fmin, minus, text);
    FieldIs(false, '0', fmin, minus, text[..p]);
    var s := if minus then "-" else "";
    var gap := fmin - |text| - |s|;
    assert fmin - |text[..p]| - |s| == gap + |text| - p;
    RightShorter('0', gap, "", text, p);
    BehindSign(s, Fill('0', gap), text, Fill('0', gap + |text| - p), text[..p]);
  }

  lemma BehindSign(s: string, a: string, b: string, c: string, d: string)
    requires |a| + |b| == |c| + |d|
    ensures s + a + b == s + c + d <==> a + "" + b == c + "" + d
  {
    assert a + "" == a && c + "" == c;
    assert s + a + b == s + (a + b) && s + c + d == s + (c + d);
    SamePrefix(s, a + b, c + d);
  }

  /** A shorter text, in the same field, comes out the same only if fill makes up for it. */
  lemma ShorterField(left: bool, fill: char, fmin: nat, minus: bool, text: string, p: nat)
    requires (fill == ' ' || fill == '0') && 1 <= p < |text| && ' ' !in text && text[0] != '0'
    ensures Field(left, fill, fmin, 0, minus, text[..p]) == Field(left, fill, fmin, 0, minus, text) <==>
              left && fill == '0' && fmin >= |text| + (if minus then 1 else 0) && AllOf(text, p, |text|, '0')
  {
    hide Field;
    if fmin < |text| + if minus then 1 else 0 {
      FieldLength(left, fill, fmin, 0, minus, text);
      FieldLength(left, fill, fmin, 0, minus, text[..p]);
    } else if left {
      ShorterLeft(fill, fmin, minus, text, p);
      assert text[p] != ' ';
    } else if fill == ' ' {
      ShorterBlank(fmin, minus, text, p);
    } else {
      ShorterZero(fmin, minus, text, p);
    }
  }

  lemma SamePrefix(s: string, a: string, b: string)
    requires |a| == |b|
    ensures s + a == s + b <==> a == b
  {
    assert (s + a)[|s|..] == a && (s + b)[|s|..] == b;
  }

  /** With a precision %d prints the same as without one exactly when the precision is out of range
      or no less than the number of digits, or when the digits it cuts off are zeros and come back as
      fill. */
  lemma DecimalPrecision(left: bool, fill: char, width: int32, precision: int32, n: int32)
    requires fill == ' ' || fill == '0'
    ensures var c, p := Convert('d', Int(n)).value, Limit(precision);
            FieldOf(Spec(left, fill, width, precision, 0, []), c) == DField(left, fill, width, n) <==>
              || p == 0 || |DText(n)| <= p
              || (left && fill == '0' && Limit(width) >= |DText(n)| + (if n < 0 then 1 else 0) && AllOf(DText(n), p, |DText(n)|, '0'))
  {
    hide Field, DecText;
    FieldCut(left, fill, Limit(width), Limit(precision), n < 0, DText(n));
    if 0 < Limit(precision) < |DText(n)| {
      DTextSolid(n);
      ShorterField(left, fill, Limit(width), n < 0, DText(n), Limit(precision));
    }
  }

  lemma DTextSolid(n: int32)
    ensures ' ' !in DText(n) && (n != 0 ==> DText(n)[0] != '0') && (n == 0 ==> |DText(n)| == 1)
  {
    hide Digits, DecChar;
    var m: int32 := if n < 0 then Signed(-(n as int)) else n;
    DecChars(m < 0);
    NoLeadingZero(Magnitude(m), 10);
    if n == 0 {
      SingleDigit(0, 10);
    }
  }

  lemma TextOfTwelve()
    ensures DText(12) == "12"
  {
    DecTextNumeral(12);
    assert Digits(1, 10) == [1] && Digits(12, 10) == [1, 2];
  }

  lemma OneDigitSpec(args: seq<Arg>)
    ensures ReadSpec("%.1d", 1, args) == Some(Spec(false, ' ', 0, 1, 3, args))
  {
    var fmt: CString := "%.1d";
    assert Number(fmt, 1, 0) == (0, 1) && Number(fmt, 2, 0) == Number(fmt, 3, 1) == (1, 3);
  }

  /** One digit of twelve: %.1d prints 1. */
  lemma CutNumber()
    ensures Format("%.1d", 0, [Int(12)]) == Some("1")
  {
    hide DecText, ReadSpec, Fill;
    var fmt: CString, args := "%.1d", [Int(12)];
    OneDigitSpec(args);
    TextOfTwelve();
    FieldIs(false, ' ', 0, false, "1");
    FieldCut(false, ' ', 0, 1, false, "12");
    assert "12"[..1] == "1";
    assert FieldOf(Spec(false, ' ', 0, 1, 3, args), Convert('d', Int(12)).value) == "1" by {
      assert Fill(' ', 0 - 1) == "";
    }
    assert args[1..] == [] && Format(fmt, 4, []) == Some("");
    assert "1" + "" == "1";
  }
}
