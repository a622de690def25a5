/** C strings, character classes and the digits of numbers. */
module Text {
  import opened Machine

  /** The characters of a C string before its terminating NUL; ASCII only. */
  type CString = t: string | forall k :: 0 <= k < |t| ==> 0 < t[k] as int < 128

  /** What a C program reads at position k, the terminating NUL included. */
  function CharAt(t: CString, k: nat): char
    requires k <= |t|
  {
    if k < |t| then t[k] else '\0'
  }

  // The character classes of the table in lib/ctype_.c.

  predicate IsSpace(c: char) { '\t' <= c <= '\r' || c == ' ' }

  predicate IsDigit(c: char) { '0' <= c <= '9' }

  predicate IsUpper(c: char) { 'A' <= c <= 'Z' }

  predicate IsLower(c: char) { 'a' <= c <= 'z' }

  predicate IsAlpha(c: char) { IsUpper(c) || IsLower(c) }

  /** The same by the codes of the characters. */
  lemma ClassesByCode(c: char)
    ensures IsSpace(c) <==> c as int in {9, 10, 11, 12, 13, 32}
    ensures IsDigit(c) <==> 48 <= c as int <= 57
    ensures IsUpper(c) <==> 65 <= c as int <= 90
    ensures IsLower(c) <==> 97 <= c as int <= 122
  {
  }

  /** More than any digit of any base. */
  const NO_DIGIT := 36

  /** The value of a digit or letter as a digit. */
  function DigitValue(c: char): (d: nat)
    ensures d <= NO_DIGIT
  {
    if IsDigit(c) then c as int - '0' as int
    else if IsUpper(c) then c as int - 'A' as int + 10
    else if IsLower(c) then c as int - 'a' as int + 10
    else NO_DIGIT
  }

  lemma DigitValues(c: char)
    ensures '0' <= c <= '9' ==> DigitValue(c) == c as int - 48
    ensures 'A' <= c <= 'Z' ==> DigitValue(c) == c as int - 65 + 10
    ensures 'a' <= c <= 'z' ==> DigitValue(c) == c as int - 97 + 10
    ensures !('0' <= c <= '9') && !('A' <= c <= 'Z') && !('a' <= c <= 'z') ==> DigitValue(c) == 36
  {
  }

  /** A number with one more digit at its end. */
  function Shifted(v: nat, base: nat, d: nat): nat {
    v * base + d
  }

  /** The number that the characters from i to e spell in a base. */
  ghost function Value(t: string, i: nat, e: nat, base: nat): nat
    requires i <= e <= |t|
  {
    if e == i then 0 else Shifted(Value(t, i, e - 1, base), base, DigitValue(t[e - 1]))
  }

  /** Quotient and remainder by a base, rounded down; for a negative n this is what an arithmetic
      shift and a mask compute. */
  function Quo(n: int, base: nat): (q: int)
    requires base >= 2
  {
    n / base
  }

  function Rem(n: int, base: nat): (r: nat)
    requires base >= 2
    ensures r < base
  {
    n % base
  }

  /** Times a base, a number is far from where it was. */
  lemma Multiple(q: int, base: nat)
    requires base >= 1
    ensures q <= -1 ==> q * base + base <= 0
    ensures q >= 1 ==> q * base >= base && (base >= 2 ==> q * base > q)
  {
    if q >= 1 {
      assert q * base == (q - 1) * base + base;
      assert q * base == q + q * (base - 1);
    } else if q <= -1 {
      assert q * base == (q + 1) * base - base;
    }
  }

  lemma QuoRem(n: nat, base: nat)
    requires base >= 2
    ensures Quo(n, base) >= 0 && Shifted(Quo(n, base), base, Rem(n, base)) == n
    ensures n < base ==> Quo(n, base) == 0 && Rem(n, base) == n && Shifted(0, base, n) == n
    ensures n >= base ==> 0 < Quo(n, base) < n
  {
    Division(n, base);
    hide Quo, Rem;
    Multiple(Quo(n, base), base);
  }

  lemma Division(n: nat, base: nat)
    requires base >= 2
    ensures Quo(n, base) * base + Rem(n, base) == n
  {
  }

  /** The digits of n, the most significant first, without leading zeros. */
  ghost function Digits(n: nat, base: nat): (d: seq<nat>)
    requires base >= 2
    ensures |d| >= 1 && forall k :: 0 <= k < |d| ==> d[k] < base
  {
    QuoRem(n, base);
    if n < base then [n] else Digits(Quo(n, base), base) + [Rem(n, base)]
  }

  lemma {:induction false} NoLeadingZero(n: nat, base: nat)
    requires base >= 2
    ensures Digits(n, base)[0] == 0 <==> n == 0
  {
    hide Quo, Rem;
    QuoRem(n, base);
    if n >= base {
      NoLeadingZero(Quo(n, base), base);
    }
  }

  /** The text of a number: its digits in lower or upper case. */
  function DigitChar(d: nat, upper: bool): (c: char)
    requires d < 36
    ensures DigitValue(c) == d && c != '\0' && c as int < 128
  {
    if d < 10 then ('0' as int + d) as char
    else if upper then ('A' as int + d - 10) as char
    else ('a' as int + d - 10) as char
  }

  lemma DigitChars(d: nat)
    requires d < 16
    ensures DigitChar(d, false) == "0123456789abcdef"[d] && DigitChar(d, true) == "0123456789ABCDEF"[d]
  {
  }

  ghost function Numeral(n: nat, base: nat, upper: bool): (t: string)
    requires 2 <= base <= 36
    ensures |t| == |Digits(n, base)|
    ensures forall k :: 0 <= k < |t| ==> t[k] == DigitChar(Digits(n, base)[k], upper)
  {
    var d := Digits(n, base);
    seq(|d|, k requires 0 <= k < |d| => DigitChar(d[k], upper))
  }

  lemma NumeralLength(m: nat, base: nat, upper: bool)
    requires 2 <= base <= 36
    ensures |Numeral(m, base, upper)| == |Digits(m, base)|
  {
  }

  /** A numeral spells its number, wherever it stands. */
  lemma {:induction false} NumeralValue(n: nat, base: nat, upper: bool, t: string, i: nat)
    requires 2 <= base <= 36
    requires i + |Digits(n, base)| <= |t| && t[i..i + |Digits(n, base)|] == Numeral(n, base, upper)
    ensures Value(t, i, i + |Digits(n, base)|, base) == n
  {
    hide Numeral, DigitValue, Shifted, Digits, Quo, Rem;
    var e := i + |Digits(n, base)|;
    QuoRem(n, base);
    LastDigit(n, base, upper, t, i);
    if n < base {
      SingleDigit(n, base);
      assert Value(t, i, i, base) == 0;
    } else {
      NumeralPrefix(n, base, upper);
      assert t[i..e - 1] == t[i..e][..e - 1 - i];
      NumeralValue(Quo(n, base), base, upper, t, i);
    }
  }

  lemma SingleDigit(n: nat, base: nat)
    requires base >= 2 && n < base
    ensures |Digits(n, base)| == 1
  {
  }

  lemma {:induction false} LastDigit(n: nat, base: nat, upper: bool, t: string, i: nat)
    requires 2 <= base <= 36
    requires i + |Digits(n, base)| <= |t| && t[i..i + |Digits(n, base)|] == Numeral(n, base, upper)
    ensures DigitValue(t[i + |Digits(n, base)| - 1]) == if n < base then n else Rem(n, base)
  {
    hide Quo, Rem;
    var d := Digits(n, base);
    assert t[i + |d| - 1] == t[i..i + |d|][|d| - 1] == DigitChar(d[|d| - 1], upper);
  }

  lemma {:induction false} NumeralPrefix(n: nat, base: nat, upper: bool)
    requires 2 <= base <= 36 && n >= base
    ensures Quo(n, base) >= 0 && |Digits(n, base)| == |Digits(Quo(n, base), base)| + 1
    ensures Numeral(n, base, upper)[..|Digits(Quo(n, base), base)|] == Numeral(Quo(n, base), base, upper)
  {
    hide Quo, Rem;
    QuoRem(n, base);
    var d, d' := Digits(n, base), Digits(Quo(n, base), base);
    assert forall k :: 0 <= k < |d'| ==> d[k] == d'[k];
  }
}
