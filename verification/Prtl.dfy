/** The number printers of the formatter: they fill a buffer with digits from the low end and copy
    it out in reverse. */
module Prtl {
  import opened Machine
  import opened Text

  /** The lowest w digits of n, the least significant first.  A negative n has the digits of its
      two's complement. */
  ghost function Low(n: int, base: nat, w: nat): (d: seq<nat>)
    requires base >= 2
    ensures |d| == w && forall k :: 0 <= k < w ==> d[k] < base
    decreases w
  {
    if w == 0 then [] else [Rem(n, base)] + Low(Quo(n, base), base, w - 1)
  }

  ghost function Pow(base: nat, w: nat): (p: nat)
    requires base >= 1
    ensures p >= 1
  {
    if w == 0 then 1 else base * Pow(base, w - 1)
  }

  lemma {:induction false} DivideBelow(n: nat, base: nat, w: nat)
    requires base >= 2 && w >= 1 && n < Pow(base, w)
    ensures 0 <= Quo(n, base) < Pow(base, w - 1)
  {
    var p, q := Pow(base, w - 1), n / base;
    if q >= p {
      MulMonotone(base, p, q);
    }
  }

  lemma MulMonotone(a: nat, x: nat, y: nat)
    requires x <= y
    ensures a * x <= a * y
  {
  }

  lemma LowTail(n: int, base: nat, w: nat)
    requires base >= 2 && w >= 1
    ensures Low(n, base, w)[0] == Rem(n, base)
    ensures forall k {:trigger Low(Quo(n, base), base, w - 1)[k]} :: 0 <= k < w - 1 ==>
              Low(Quo(n, base), base, w - 1)[k] == Low(n, base, w)[k + 1]
    ensures forall k {:trigger Low(n, base, w)[k]} :: 0 < k < w ==>
              Low(n, base, w)[k] == Low(Quo(n, base), base, w - 1)[k - 1]
  {
  }

  lemma {:induction false} LowZero(n: nat, base: nat, w: nat)
    requires base >= 2 && n < Pow(base, w)
    requires forall k :: 0 <= k < w ==> Low(n, base, w)[k] == 0
    ensures n == 0
    decreases w
  {
    hide Quo, Rem, Low, Shifted;
    if w > 0 {
      hide Pow;
      DivideBelow(n, base, w);
      LowTail(n, base, w);
      LowZero(Quo(n, base), base, w - 1);
      QuoRem(n, base);
    }
  }

  lemma {:induction false} AllZero(base: nat, w: nat)
    requires base >= 2
    ensures forall k :: 0 <= k < w ==> Low(0, base, w)[k] == 0
  {
    hide Quo, Rem;
    QuoRem(0, base);
    if w > 0 {
      AllZero(base, w - 1);
    }
  }

  /** Without its leading zeros, but for the last one, the buffer holds the digits of n. */
  lemma {:induction false} Stripped(n: nat, base: nat, w: nat, top: nat)
    requires base >= 2 && n < Pow(base, w) && 1 <= top <= w
    requires forall k :: top <= k < w ==> Low(n, base, w)[k] == 0
    requires top > 1 ==> Low(n, base, w)[top - 1] != 0
    ensures |Digits(n, base)| == top
    ensures forall k :: 0 <= k < top ==> Digits(n, base)[k] == Low(n, base, w)[top - 1 - k]
  {
    hide Quo, Rem, Low, Shifted, Pow;
    DivideBelow(n, base, w);
    LowTail(n, base, w);
    QuoRem(n, base);
    if top == 1 {
      LowZero(Quo(n, base), base, w - 1);
    } else {
      AllZero(base, w - 1);
      assert Low(Quo(n, base), base, w - 1)[top - 2] != 0;
      Stripped(Quo(n, base), base, w - 1, top - 1);
    }
  }

  /** Adding a multiple of base^w leaves the lowest w digits alone. */
  lemma {:induction false} LowModulo(n: int, c: int, base: nat, w: nat)
    requires base >= 2
    ensures Low(n + c * Pow(base, w), base, w) == Low(n, base, w)
    decreases w
  {
    if w > 0 {
      var p := Pow(base, w - 1);
      QuoRemShift(n, c * p, base);
      assert n + c * Pow(base, w) == n + c * p * base;
      LowModulo(Quo(n, base), c, base, w - 1);
    }
  }

  lemma Unique(base: nat, q: int, r: nat, q': int, r': nat)
    requires r < base && r' < base && q * base + r == q' * base + r'
    ensures q == q' && r == r'
  {
    var d := q - q';
    assert d * base == r' - r;
    Multiple(d, base);
  }

  lemma QuoRemShift(n: int, m: int, base: nat)
    requires base >= 2
    ensures Quo(n + m * base, base) == Quo(n, base) + m && Rem(n + m * base, base) == Rem(n, base)
  {
    var q, r, n' := n / base, n % base, n + m * base;
    assert n' == (q + m) * base + r;
    Unique(base, n' / base, n' % base, q + m, r);
  }

  /** The tail that the printers share: drop leading zeros, but for the last, and copy the rest out
      in reverse, with the NUL that stands in temp[0] at the end.  It returns how many were kept. */
  method CopyOut(temp: array<char>, str: array<char>) returns (ghost top: nat)
    requires 2 <= temp.Length <= str.Length && temp != str && temp[0] == '\0'
    modifies str
    ensures 1 <= top < temp.Length
    ensures forall k :: top < k < temp.Length ==> temp[k] == '0'
    ensures top > 1 ==> temp[top] != '0'
    ensures forall k :: 0 <= k <= top ==> str[k] == temp[top - k]
  {
    var i := temp.Length - 1;
    while temp[i] == '0'
      invariant 0 <= i < temp.Length && forall k :: i < k < temp.Length ==> temp[k] == '0'
      decreases i
    {
      i := i - 1;
    }
    if i == 0 {
      i := i + 1;
    }
    top := i;
    var s := 0;
    while i >= 0
      invariant -1 <= i <= top && s == top - i
      invariant forall k :: 0 <= k < s ==> str[k] == temp[top - k]
    {
      str[s] := temp[i];
      s, i := s + 1, i - 1;
    }
  }

  /** A C string stands at the beginning of a buffer. */
  ghost predicate Holds(str: seq<char>, t: string) {
    |t| < |str| && str[..|t|] == t && str[|t|] == '\0'
  }

  /** The digits of n as characters. */
  ghost function Spell(n: nat, base: nat, ch: nat -> char): (t: string)
    requires base >= 2
    ensures |t| == |Digits(n, base)|
  {
    var d := Digits(n, base);
    seq(|d|, k requires 0 <= k < |d| => ch(d[k]))
  }

  /** A buffer filled with the low digits of n and copied out holds the digits of n. */
  lemma {:induction false} CopiedOut(n: nat, base: nat, ch: nat -> char, temp: seq<char>, str: seq<char>, top: nat)
    requires base >= 2 && |temp| >= 2 && n < Pow(base, |temp| - 1)
    requires forall d :: 0 <= d < base ==> (ch(d) == '0' <==> d == 0)
    requires temp[0] == '\0' && forall k :: 0 < k < |temp| ==> temp[k] == ch(Low(n, base, |temp| - 1)[k - 1])
    requires 1 <= top < |temp| && top < |str|
    requires forall k :: top < k < |temp| ==> temp[k] == '0'
    requires top > 1 ==> temp[top] != '0'
    requires forall k :: 0 <= k <= top ==> str[k] == temp[top - k]
    ensures Holds(str, Spell(n, base, ch)) && |Spell(n, base, ch)| == top
  {
    hide Low, Digits, Pow, Quo, Rem;
    var w := |temp| - 1;
    var l := Low(n, base, w);
    forall k | top <= k < w
      ensures l[k] == 0
    {
      assert temp[k + 1] == ch(l[k]);
    }
    Stripped(n, base, w, top);
    forall k | 0 <= k < top
      ensures str[k] == Spell(n, base, ch)[k]
    {
      assert str[k] == temp[top - k] == ch(l[top - 1 - k]);
    }
  }

  /** The characters of a numeral; of no interest beyond 35. */
  ghost function NumeralChar(upper: bool): nat -> char {
    (d: nat) => if d < 36 then DigitChar(d, upper) else ' '
  }

  lemma NumeralChars(upper: bool)
    ensures forall d: nat {:trigger NumeralChar(upper)(d)} :: d < 36 ==>
              NumeralChar(upper)(d) == DigitChar(d, upper) && (NumeralChar(upper)(d) == '0' <==> d == 0)
  {
  }

  lemma SpellNumeral(n: nat, base: nat, upper: bool)
    requires 2 <= base <= 36
    ensures Spell(n, base, NumeralChar(upper)) == Numeral(n, base, upper)
  {
    hide Digits;
  }

  /** The next digit to be written, and those that remain. */
  lemma LowStep(low: seq<nat>, i: nat, num: int, base: nat)
    requires base >= 2 && i < |low| && low[i..] == Low(num, base, |low| - i)
    ensures low[i] == Rem(num, base) && low[i + 1..] == Low(Quo(num, base), base, |low| - (i + 1))
  {
    assert low[i] == low[i..][0];
    assert low[i + 1..] == low[i..][1..];
  }

  lemma Powers()
    ensures Pow(10, 10) == 10_000_000_000
    ensures Pow(16, 8) == TWO_32
    ensures Pow(8, 10) == 0x4000_0000 && Pow(8, 11) == 0x2_0000_0000
  {
    assert Pow(10, 5) == 100_000;
    assert Pow(10, 8) == 100_000_000;
    assert Pow(16, 4) == 0x1_0000;
    assert Pow(8, 5) == 0x8000;
    assert Pow(8, 8) == 0x100_0000;
  }

  // ---------- hexadecimal ----------

  method HexDigit(d: nat, upper: bool) returns (c: char)
    requires d < 16
    ensures c == DigitChar(d, upper)
  {
    c := (if upper then "0123456789ABCDEF" else "0123456789abcdef")[d];
  }

  /** The loop that fills the buffer.  num & 0x0F and num >> 4 of a two's complement number are its
      remainder and quotient by 16. */
  method FillHex(num0: int32, upper: bool, temp: array<char>)
    requires temp.Length == 9
    modifies temp
    ensures temp[0] == '\0'
    ensures forall k :: 0 < k < 9 ==> temp[k] == DigitChar(Low(num0, 16, 8)[k - 1], upper)
  {
    hide *;
    temp[0] := '\0';
    var i, num: int := 1, num0;
    ghost var low := Low(num0, 16, 8);
    while i <= 8
      invariant 1 <= i <= 9 && temp[0] == '\0' && low[i - 1..] == Low(num, 16, |low| - (i - 1))
      invariant forall k :: 0 < k < i ==> temp[k] == DigitChar(low[k - 1], upper)
    {
      LowStep(low, i - 1, num, 16);
      temp[i] := HexDigit(Rem(num, 16), upper);
      num := Quo(num, 16);
      i := i + 1;
    }
  }

  /** The source has this twice, for the two sets of letters. */
  method Prtl16(num: int32, upper: bool, str: array<char>)
    requires str.Length >= 9
    modifies str
    ensures Holds(str[..], Numeral(Unsigned(num), 16, upper))
  {
    hide *;
    var temp := new char[9];
    FillHex(num, upper, temp);
    ghost var top := CopyOut(temp, str);
    NumeralChars(upper);
    Hexadecimal(num);
    CopiedOut(Unsigned(num), 16, NumeralChar(upper), temp[..], str[..], top);
    SpellNumeral(Unsigned(num), 16, upper);
  }

  /** Eight hexadecimal digits do not tell a number from its unsigned form. */
  lemma Hexadecimal(num: int32)
    ensures Low(num, 16, 8) == Low(Unsigned(num), 16, 8) && Unsigned(num) < Pow(16, 8)
  {
    hide Low;
    LowModulo(num, 1, 16, 8);
    Powers();
  }

  // ---------- decimal ----------

  /** C's division truncates toward zero. */
  function TruncQuo(n: int, base: nat): int
    requires base >= 2
  {
    if n >= 0 then Quo(n, base) else -Quo(-n, base)
  }

  function TruncRem(n: int, base: nat): int
    requires base >= 2
  {
    if n >= 0 then Rem(n, base) else -(Rem(-n, base) as int)
  }

  /** What stands for a decimal digit: the digits of a negative number come out below '0'. */
  ghost function DecChar(neg: bool): nat -> char {
    (d: nat) => if d >= 10 then ' ' else if neg then ('0' as int - d) as char else ('0' as int + d) as char
  }

  lemma DecChars(neg: bool)
    ensures forall d: nat {:trigger DecChar(neg)(d)} :: d < 10 ==>
              DecChar(neg)(d) as int == '0' as int + (if neg then -(d as int) else d)
              && (DecChar(neg)(d) == '0' <==> d == 0) && DecChar(neg)(d) != '\0'
  {
  }

  ghost function Magnitude(n: int): nat {
    if n < 0 then -n else n
  }

  /** The text that the decimal printer makes of a number. */
  ghost function DecText(num: int): string {
    Spell(Magnitude(num), 10, DecChar(num < 0))
  }

  lemma DecTextNumeral(num: nat)
    ensures DecText(num) == Numeral(num, 10, false)
  {
    hide Digits;
  }

  method DecDigit(num: int, ghost neg: bool, ghost m: nat) returns (c: char, next: int)
    requires num == if neg then -(m as int) else m
    ensures c == DecChar(neg)(Rem(m, 10))
    ensures Quo(m, 10) >= 0 && next == if neg then -Quo(m, 10) else Quo(m, 10)
  {
    QuoRem(m, 10);
    c := (TruncRem(num, 10) + '0' as int) as char;
    next := TruncQuo(num, 10);
  }

  method FillDec(num0: int32, temp: array<char>)
    requires temp.Length == 11
    modifies temp
    ensures temp[0] == '\0'
    ensures forall k :: 0 < k < 11 ==> temp[k] == DecChar(num0 < 0)(Low(Magnitude(num0), 10, 10)[k - 1])
  {
    hide *;
    MagnitudeIs(num0);
    ghost var neg: bool, m: nat := num0 < 0, Magnitude(num0);
    temp[0] := '\0';
    var i, num: int := 1, num0;
    ghost var low := Low(m, 10, 10);
    while i <= 10
      invariant 1 <= i <= 11 && temp[0] == '\0' && low[i - 1..] == Low(m, 10, |low| - (i - 1))
      invariant num == if neg then -(m as int) else m
      invariant forall k :: 0 < k < i ==> temp[k] == DecChar(neg)(low[k - 1])
    {
      LowStep(low, i - 1, m, 10);
      temp[i], num := DecDigit(num, neg, m);
      m := Quo(m, 10);
      i := i + 1;
    }
  }

  lemma MagnitudeIs(num: int)
    ensures num == if num < 0 then -(Magnitude(num) as int) else Magnitude(num)
  {
  }

  method Prtl10(num: int32, str: array<char>)
    requires str.Length >= 11
    modifies str
    ensures Holds(str[..], DecText(num))
  {
    hide Low, Pow, DecChar, Spell;
    var temp := new char[11];
    FillDec(num, temp);
    ghost var top := CopyOut(temp, str);
    DecChars(num < 0);
    Powers();
    CopiedOut(Magnitude(num), 10, DecChar(num < 0), temp[..], str[..], top);
  }

  // ---------- octal ----------

  /** n shifted down by w digits. */
  ghost function Down(n: int, base: nat, w: nat): int
    requires base >= 2
    decreases w
  {
    if w == 0 then n else Down(Quo(n, base), base, w - 1)
  }

  lemma {:induction false} LowTop(n: int, base: nat, w: nat)
    requires base >= 2
    ensures Low(n, base, w + 1) == Low(n, base, w) + [Rem(Down(n, base, w), base)]
    decreases w
  {
    hide Quo, Rem;
    if w > 0 {
      LowTop(Quo(n, base), base, w - 1);
    }
  }

  lemma {:induction false} DownModulo(n: int, c: int, base: nat, w: nat)
    requires base >= 2
    ensures Down(n + c * Pow(base, w), base, w) == Down(n, base, w) + c
    decreases w
  {
    if w > 0 {
      var p := Pow(base, w - 1);
      QuoRemShift(n, c * p, base);
      assert n + c * Pow(base, w) == n + c * p * base;
      DownModulo(Quo(n, base), c, base, w - 1);
    }
  }

  lemma {:induction false} DownRange(n: nat, c: nat, base: nat, w: nat)
    requires base >= 2 && n < c * Pow(base, w)
    ensures 0 <= Down(n, base, w) < c
    decreases w
  {
    if w > 0 {
      var p, q := Pow(base, w - 1), n / base;
      assert c * Pow(base, w) == base * (c * p);
      if q >= c * p {
        MulMonotone(base, c * p, q);
      }
      DownRange(Quo(n, base), c, base, w - 1);
    }
  }

  /** Eleven octal digits reach two bits beyond the word, and the shifts have copied the sign there;
      apart from that the digits are those of the unsigned number. */
  lemma Octal(num: int32)
    ensures Unsigned(num) < Pow(8, 11)
    ensures forall k :: 0 <= k < 10 ==> Low(Unsigned(num), 8, 11)[k] == Low(num, 8, 11)[k]
    ensures Low(Unsigned(num), 8, 11)[10] == Low(num, 8, 11)[10] % 4
  {
    hide Low, Down, Pow;
    var u, p := Unsigned(num), Pow(8, 10);
    Powers();
    LowTop(num, 8, 10);
    LowTop(u, 8, 10);
    LowModulo(num, 4, 8, 10);
    DownModulo(num, 4, 8, 10);
    DownRange(u, 4, 8, 10);
  }

  /** c &= '3' on a digit character. */
  method MaskDigit(c: char, ghost d: nat) returns (r: char)
    requires d < 8 && c == DigitChar(d, false)
    ensures r == DigitChar(d % 4, false)
  {
    var b := (c as int) as bv8;
    var m := b & 0x33;
    r := (m as int) as char;
  }

  method FillOct(num0: int32, temp: array<char>)
    requires temp.Length == 12
    modifies temp
    ensures temp[0] == '\0'
    ensures forall k :: 0 < k < 12 ==> temp[k] == DigitChar(Low(num0, 8, 11)[k - 1], false)
  {
    hide *;
    temp[0] := '\0';
    var i, num: int := 1, num0;
    ghost var low := Low(num0, 8, 11);
    while i <= 11
      invariant 1 <= i <= 12 && temp[0] == '\0' && low[i - 1..] == Low(num, 8, |low| - (i - 1))
      invariant forall k :: 0 < k < i ==> temp[k] == DigitChar(low[k - 1], false)
    {
      LowStep(low, i - 1, num, 8);
      temp[i] := OctDigit(Rem(num, 8));
      num := Quo(num, 8);
      i := i + 1;
    }
  }

  method OctDigit(d: nat) returns (c: char)
    requires d < 8
    ensures c == DigitChar(d, false)
  {
    c := (d + '0' as int) as char;
  }

  /** num & 07 and num >> 3 are remainder and quotient by 8. */
  method Prtl8(num: int32, str: array<char>)
    requires str.Length >= 12
    modifies str
    ensures Holds(str[..], Numeral(Unsigned(num), 8, false))
  {
    hide *;
    var temp := new char[12];
    FillOct(num, temp);
    temp[11] := MaskDigit(temp[11], Low(num, 8, 11)[10]);
    Octal(num);
    ghost var top := CopyOut(temp, str);
    NumeralChars(false);
    CopiedOut(Unsigned(num), 8, NumeralChar(false), temp[..], str[..], top);
    SpellNumeral(Unsigned(num), 8, false);
  }

  // ---------- unsigned decimal ----------

  const BILLION := 1_000_000_000

  lemma TenTimes(c: nat, p: nat)
    ensures c * (10 * p) == 10 * (c * p)
  {
  }

  lemma PowStep(w: nat)
    requires w > 0
    ensures Pow(10, w) == 10 * Pow(10, w - 1) && Pow(10, w + 1) == 100 * Pow(10, w - 1)
  {
    assert Pow(10, w + 1) == 10 * Pow(10, w);
  }

  lemma QuoBounds(n: nat, m: nat, lo: nat, hi: nat)
    requires 10 * lo <= n && n + 10 * m < 10 * hi
    ensures lo <= Quo(n, 10) && Quo(n, 10) + m < hi
    ensures Quo(n + 10 * m, 10) == Quo(n, 10) + m && Rem(n + 10 * m, 10) == Rem(n, 10)
  {
  }

  lemma TopBase(n: nat, c: nat)
    requires Pow(10, 0) <= n && n + c * Pow(10, 0) < Pow(10, 1)
    ensures Digits(n, 10) == [n] && c * Pow(10, 0) == c && Digits(n + c, 10) == [n + c] && n + c < 10
  {
  }

  lemma DigitsStep(n: nat)
    requires n >= 10
    ensures Quo(n, 10) >= 0 && Digits(n, 10) == Digits(Quo(n, 10), 10) + [Rem(n, 10)]
  {
    hide Quo, Rem;
    QuoRem(n, 10);
  }

  /** Adding c to the first of w + 1 digits adds c * 10^w to the number. */
  lemma {:induction false} TopDigit(n: nat, c: nat, w: nat)
    requires Pow(10, w) <= n && n + c * Pow(10, w) < Pow(10, w + 1)
    ensures |Digits(n, 10)| == w + 1 == |Digits(n + c * Pow(10, w), 10)|
    ensures Digits(n, 10)[0] + c < 10
    ensures Digits(n + c * Pow(10, w), 10) == Digits(n, 10)[0 := Digits(n, 10)[0] + c]
    decreases w
  {
    hide Quo, Rem, Pow, Digits;
    if w == 0 {
      TopBase(n, c);
    } else {
      var p: nat := Pow(10, w - 1);
      var m: nat := c * p;
      PowStep(w);
      TenTimes(c, p);
      QuoBounds(n, m, p, 10 * p);
      DigitsStep(n);
      DigitsStep(n + 10 * m);
      TopDigit(Quo(n, 10), c, w - 1);
    }
  }

  /** The %u conversion.  A number with the top bit set is first brought below 2^31 by subtracting
      10^9 and counting how often; the count is added to the first digit afterwards. */
  method PrintUnsigned(larg0: int32, str: array<char>)
    requires str.Length >= 11
    modifies str
    ensures Holds(str[..], Numeral(Unsigned(larg0), 10, false))
  {
    hide *;
    var digit1, larg := ReduceUnsigned(larg0);
    Prtl10(larg, str);
    FirstDigit(larg0, larg, digit1, str[..]);
    str[0] := (str[0] as int + digit1) as char;
  }

  /** One subtraction from a number that counts as negative. */
  lemma ReduceStep(larg: int32)
    requires larg < 0
    ensures Unsigned(larg) >= 0x8000_0000 && Unsigned(Signed(larg - BILLION)) == Unsigned(larg) - BILLION
  {
    var u := larg + TWO_32;
    assert Unsigned(larg) == u;
    assert larg - BILLION == (u - BILLION) - TWO_32;
    assert (larg - BILLION) % TWO_32 == u - BILLION;
  }

  lemma PositiveUnsigned(larg: int32)
    ensures larg >= 0 ==> Unsigned(larg) == larg
  {
  }

  method ReduceUnsigned(larg0: int32) returns (digit1: nat, larg: int32)
    ensures larg >= 0 && digit1 <= 3 && Unsigned(larg0) == larg + digit1 * BILLION
    ensures digit1 > 0 ==> larg >= BILLION
  {
    hide Unsigned, Signed;
    digit1, larg := 0, larg0;
    while larg < 0
      invariant digit1 <= 3 && Unsigned(larg0) == Unsigned(larg) + digit1 * BILLION
      invariant digit1 > 0 ==> Unsigned(larg) >= BILLION
      decreases Unsigned(larg)
    {
      ReduceStep(larg);
      larg := Signed(larg - BILLION);
      digit1 := digit1 + 1;
    }
    PositiveUnsigned(larg);
  }

  /** Raising the first digit raises the first character. */
  lemma NumeralRaised(n: nat, n': nat, c: nat)
    requires Digits(n, 10)[0] + c < 10 && Digits(n', 10) == Digits(n, 10)[0 := Digits(n, 10)[0] + c]
    ensures |Numeral(n, 10, false)| >= 1 && '0' as int <= Numeral(n, 10, false)[0] as int + c <= '9' as int
    ensures Numeral(n', 10, false) == Numeral(n, 10, false)[0 := (Numeral(n, 10, false)[0] as int + c) as char]
  {
    hide Digits;
  }

  /** Adding the count to the first character gives the numeral, and stays within '0' to '9'. */
  lemma FirstDigit(larg0: int32, larg: int32, digit1: nat, str: seq<char>)
    requires larg >= 0 && digit1 <= 3 && Unsigned(larg0) == larg + digit1 * BILLION
    requires digit1 > 0 ==> larg >= BILLION
    requires Holds(str, DecText(larg))
    ensures '0' as int <= str[0] as int + digit1 <= '9' as int
    ensures Holds(str[0 := (str[0] as int + digit1) as char], Numeral(Unsigned(larg0), 10, false))
  {
    hide Pow, Digits, Numeral, DecText, Unsigned;
    DecTextNumeral(larg);
    if digit1 > 0 {
      BillionIsPower();
      TopDigit(larg, digit1, 9);
    } else {
      OneDigitAtLeast(larg);
    }
    NumeralRaised(larg, Unsigned(larg0), digit1);
    var t := Numeral(larg, 10, false);
    assert str[0] == str[..|t|][0] == t[0];
    assert str[0 := (str[0] as int + digit1) as char][..|t|] == t[0 := (t[0] as int + digit1) as char];
  }

  lemma OneDigitAtLeast(n: nat)
    ensures Digits(n, 10)[0] < 10 && Digits(n, 10) == Digits(n, 10)[0 := Digits(n, 10)[0]]
  {
  }

  lemma BillionIsPower()
    ensures Pow(10, 9) == BILLION && Pow(10, 10) == 10 * BILLION
  {
    Powers();
  }
}
