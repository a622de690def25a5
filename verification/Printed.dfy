/** What a conversion prints, with any flags, width and precision, said without the formatter. */
module Printed {
  import opened Machine
  import opened Options
  import opened Text
  import opened Prtl
  import opened Fdoprnt
  import opened Strtol
  import opened RoundTrip

  /** A width or precision in a format: not given, written out, or a star for an argument. */
  datatype Size = Absent | Written(n: nat) | Star(arg: int32)
  {
    predicate Valid() {
      Written? ==> n <= 0x7fff_ffff
    }

    ghost function Text(): string {
      if Absent? then "" else if Written? then Numeral(n, 10, false) else "*"
    }

    function Args(): seq<Arg> {
      if Star? then [Int(arg)] else []
    }

    function Amount(): int32
      requires Valid()
    {
      if Absent? then 0 else if Written? then n else arg
    }
  }

  datatype Directive = Directive(left: bool, zero: bool, width: Size, dot: bool, precision: Size, f: char)
  {
    /** A written width of 0 would be read as the flag. */
    predicate Valid() {
      && width.Valid() && (width.Written? ==> width.n > 0)
      && precision.Valid() && (!dot ==> precision.Absent?)
      && f in "csduoxX"
    }

    ghost function Text(): string {
      ['%'] + (if left then "-" else "") + (if zero then "0" else "") + width.Text()
      + (if dot then "." + precision.Text() else "") + [f]
    }
  }

  // ---------- the field, in literal terms ----------

  function Row(c: char, n: int): string {
    seq(if n > 0 then n else 0, _ => c)
  }

  function Cut(t: string, n: nat): string {
    if n != 0 && |t| > n then t[..n] else t
  }

  /** A text in a field of blanks. */
  function Aligned(left: bool, w: nat, t: string): string {
    if left then t + Row(' ', w - |t|) else Row(' ', w - |t|) + t
  }

  /** A number in a field of blanks or zeros. */
  function Ranged(left: bool, zero: bool, w: nat, sign: string, digits: string): string {
    var n := w - |sign| - |digits|;
    if left then sign + digits + Row(if zero then '0' else ' ', n)
    else if zero then sign + Row('0', n) + digits
    else Row(' ', n) + sign + digits
  }

  /** A width or precision counts from 0 to 80. */
  function Counts(n: int32): nat {
    if 0 <= n <= 80 then n else 0
  }

  ghost function Output(d: Directive, arg: Arg): string
    requires d.Valid()
  {
    var w, p := Counts(d.width.Amount()), Counts(d.precision.Amount());
    match arg
    case Str(s) => Aligned(d.left, w, Cut(s, p))
    case Null => Aligned(d.left, w, Cut("(null)", p))
    case Int(v) =>
      var u: nat := if v < 0 then v + 0x1_0000_0000 else v;
      if d.f == 'd' then
        var digits := if v == -0x8000_0000 then "./,),(-*,(" else Numeral(if v < 0 then -v else v, 10, false);
        Ranged(d.left, d.zero, w, if v < 0 then "-" else "", Cut(digits, p))
      else if d.f == 'u' then Ranged(d.left, d.zero, w, "", Numeral(u, 10, false))
      else if d.f == 'o' then Ranged(d.left, d.zero, w, "", Numeral(u, 8, false))
      else if d.f == 'x' then Ranged(d.left, d.zero, w, "", Numeral(u, 16, false))
      else if d.f == 'X' then Ranged(d.left, d.zero, w, "", Numeral(u, 16, true))
      else Aligned(d.left, w, if v % 256 == 0 then "" else [(v % 256) as char])
  }

  lemma RowIsFill(c: char, n: int)
    ensures Row(c, n) == Fill(c, n)
  {
  }

  lemma LimitCounts(n: int32)
    ensures Limit(n) == Counts(n)
  {
  }

  lemma FieldRanged(left: bool, zero: bool, fmin: nat, fmax: nat, minus: bool, text: string)
    ensures Field(left, if zero then '0' else ' ', fmin, fmax, minus, text)
         == Ranged(left, zero, fmin, if minus then "-" else "", Cut(text, fmax))
  {
    hide Field, Fill, Row;
    var fill, s := if zero then '0' else ' ', if minus then "-" else "";
    FieldCut(left, fill, fmin, fmax, minus, text);
    FieldIs(left, fill, fmin, minus, Cut(text, fmax));
    RowIsFill(fill, fmin - |s| - |Cut(text, fmax)|);
  }

  lemma FieldAligned(left: bool, fmin: nat, fmax: nat, text: string)
    ensures Field(left, ' ', fmin, fmax, false, text) == Aligned(left, fmin, Cut(text, fmax))
  {
    hide Field;
    FieldRanged(left, false, fmin, fmax, false, text);
    var t := Cut(text, fmax);
    assert "" + t == t;
    assert Row(' ', fmin - |t|) + "" == Row(' ', fmin - |t|);
  }

  /** The text of the printer for the magnitude of INT_MIN, which it takes for a negative number. */
  lemma IntMinText()
    ensures DText(-0x8000_0000) == "./,),(-*,("
  {
    hide DecChar;
    IntMinDigits();
    DecChars(true);
    var d := [2, 1, 4, 7, 4, 8, 3, 6, 4, 8];
    assert Signed(0x8000_0000) == -0x8000_0000;
    var t := DText(-0x8000_0000);
    assert |t| == 10 && forall k :: 0 <= k < 10 ==> t[k] == DecChar(true)(d[k]);
    assert forall k :: 0 <= k < 10 ==> t[k] as int == 48 - d[k];
  }

  lemma IntMinDigits()
    ensures Digits(0x8000_0000, 10) == [2, 1, 4, 7, 4, 8, 3, 6, 4, 8]
  {
    assert Digits(21474, 10) == [2, 1, 4, 7, 4];
    assert Digits(21474836, 10) == Digits(21474, 10) + [8, 3, 6];
  }

  /** The formatter's field is that output. */
  lemma FieldIsOutput(d: Directive, arg: Arg)
    requires d.Valid() && Convert(d.f, arg).Some?
    ensures FieldOf(Spec(d.left, if d.zero then '0' else ' ', d.width.Amount(), d.precision.Amount(), 0, []),
                    Convert(d.f, arg).value) == Output(d, arg)
  {
    hide Field, Numeral, DecText, Limit, Counts, Ranged, Aligned, Cut;
    var w, p := d.width.Amount(), d.precision.Amount();
    LimitCounts(w);
    LimitCounts(p);
    match arg
    case Str(s) => FieldAligned(d.left, Limit(w), Limit(p), s);
    case Null => FieldAligned(d.left, Limit(w), Limit(p), "(null)");
    case Int(v) =>
      if d.f == 'c' {
        var t := if v % 256 == 0 then "" else [(v % 256) as char];
        FieldAligned(d.left, Limit(w), 0, t);
        Uncut(t);
      } else {
        NumberIsOutput(d, v);
      }
  }

  lemma Uncut(t: string)
    ensures Cut(t, 0) == t
  {
  }

  lemma NumberIsOutput(d: Directive, v: int32)
    requires d.Valid() && d.f in "duoxX"
    ensures Convert(d.f, Int(v)).Some?
    ensures FieldOf(Spec(d.left, if d.zero then '0' else ' ', d.width.Amount(), d.precision.Amount(), 0, []),
                    Convert(d.f, Int(v)).value) == Output(d, Int(v))
  {
    hide Field, Numeral, Convert, Limit, Counts, Ranged, Cut;
    var w, p := d.width.Amount(), d.precision.Amount();
    LimitCounts(w);
    LimitCounts(p);
    Heeds(d.f, v);
    var c := Convert(d.f, Int(v)).value;
    FieldRanged(d.left, d.zero, Limit(w), if c.heedMax then Limit(p) else 0, c.minus, c.text);
    NumberText(d.f, v);
    Uncut(c.text);
  }

  /** Only %d has a sign and heeds the precision. */
  lemma Heeds(f: char, v: int32)
    requires f in "duoxX"
    ensures Convert(f, Int(v)).Some?
    ensures var c := Convert(f, Int(v)).value; c.heedFill && (c.heedMax <==> f == 'd') && (c.minus <==> f == 'd' && v < 0)
  {
    hide Numeral, DecText;
  }

  lemma NumberText(f: char, v: int32)
    requires f in "duoxX" && Convert(f, Int(v)).Some?
    ensures var u: nat := if v < 0 then v + 0x1_0000_0000 else v;
            var text := Convert(f, Int(v)).value.text;
            && (f == 'd' ==> text == if v == -0x8000_0000 then "./,),(-*,(" else Numeral(if v < 0 then -v else v, 10, false))
            && (f == 'u' ==> text == Numeral(u, 10, false))
            && (f == 'o' ==> text == Numeral(u, 8, false))
            && (f == 'x' ==> text == Numeral(u, 16, false))
            && (f == 'X' ==> text == Numeral(u, 16, true))
  {
    hide Numeral, DText, Unsigned;
    WordOf(v);
    if f == 'd' {
      DTextIs(v);
      IntMinText();
      MagnitudeIs(v);
      TextOfD(v);
    } else {
      TextOfU(f, v);
    }
  }

  lemma WordOf(v: int32)
    ensures Unsigned(v) == if v < 0 then v + 0x1_0000_0000 else v
  {
    if v < 0 {
      UnsignedOfNegative(-(v as int));
    }
  }

  lemma TextOfD(v: int32)
    ensures Convert('d', Int(v)).value.text == DText(v)
  {
    hide DecText;
  }

  lemma TextOfU(f: char, v: int32)
    requires f in "uoxX" && Convert(f, Int(v)).Some?
    ensures Convert(f, Int(v)).value.text == Numeral(Unsigned(v), if f == 'u' then 10 else if f == 'o' then 8 else 16, f == 'X')
  {
    hide Numeral;
  }

  // ---------- how such a directive is read ----------

  lemma ValueStep(t: string, i: nat, k: nat)
    requires i <= k <= |t|
    ensures i == k ==> Value(t, i, k, 10) == 0
    ensures i < k ==> Value(t, i, k, 10) == Shifted(Value(t, i, k - 1, 10), 10, DigitValue(t[k - 1]))
  {
  }

  lemma {:induction false} ValueGrows(t: string, i: nat, k: nat, e: nat)
    requires i <= k <= e <= |t|
    ensures Value(t, i, k, 10) <= Value(t, i, e, 10)
    decreases e
  {
    hide DigitValue, Value, Shifted;
    if k < e {
      ValueGrows(t, i, k, e - 1);
      ValueStep(t, i, e);
      Grows(Value(t, i, e - 1, 10), 10, DigitValue(t[e - 1]));
    }
  }

  lemma NumberStep(fmt: CString, k: nat, v: nat)
    requires k < |fmt| && IsDigit(fmt[k]) && v <= LONG_MAX && Shifted(v, 10, DigitValue(fmt[k])) <= LONG_MAX
    ensures Number(fmt, k, v) == Number(fmt, k + 1, Shifted(v, 10, DigitValue(fmt[k])))
  {
    hide Signed;
    ConvertPositive(Shifted(v, 10, DigitValue(fmt[k])));
  }

  /** A width written out is read as the number it spells, as long as that is an int. */
  lemma {:induction false} NumberReads(fmt: CString, i: nat, k: nat)
    requires i <= k <= |fmt| && forall j :: i <= j < k ==> IsDigit(fmt[j])
    ensures Value(fmt, i, k, 10) <= LONG_MAX ==> Number(fmt, i, 0) == Number(fmt, k, Value(fmt, i, k, 10))
    decreases k
  {
    hide Number, Value, IsDigit;
    ValueStep(fmt, i, k);
    if i < k && Value(fmt, i, k, 10) <= LONG_MAX {
      ValueGrows(fmt, i, k - 1, k);
      NumberReads(fmt, i, k - 1);
      NumberStep(fmt, k - 1, Value(fmt, i, k - 1, 10));
    }
  }

  /** A width or precision is read as its amount, up to a character that does not belong to it. */
  lemma SizeRead(fmt: CString, j: nat, z: Size, args: seq<Arg>, more: seq<Arg>)
    requires z.Valid() && j + |z.Text()| < |fmt| && fmt[j..j + |z.Text()|] == z.Text() && args == z.Args() + more
    requires !IsDigit(fmt[j + |z.Text()|]) && fmt[j + |z.Text()|] != '*'
    ensures Width(fmt, j, args) == Some((z.Amount(), j + |z.Text()|, more))
    ensures z.Written? && z.n > 0 ==> '1' <= fmt[j] <= '9'
    ensures z.Star? ==> fmt[j] == '*'
  {
    hide Digits, Number;
    var e := j + |z.Text()|;
    match z
    case Absent =>
      NumberEnds(fmt, j, 0);
      assert args == more;
    case Star(n) =>
      assert fmt[j] == fmt[j..e][0];
      assert args[1..] == more;
    case Written(n) =>
      WrittenRead(fmt, j, n);
      assert args == more;
  }

  lemma NumberEnds(fmt: CString, i: nat, acc: int32)
    requires i <= |fmt| && !IsDigit(CharAt(fmt, i))
    ensures Number(fmt, i, acc) == (acc, i)
  {
  }

  lemma WrittenRead(fmt: CString, j: nat, n: nat)
    requires n <= LONG_MAX && j + |Numeral(n, 10, false)| < |fmt| && !IsDigit(fmt[j + |Numeral(n, 10, false)|])
    requires fmt[j..j + |Numeral(n, 10, false)|] == Numeral(n, 10, false)
    ensures Number(fmt, j, 0) == (n, j + |Numeral(n, 10, false)|)
    ensures '0' <= fmt[j] <= '9' && (n > 0 ==> fmt[j] != '0')
  {
    hide Digits, Number;
    var text := Numeral(n, 10, false);
    var e := j + |text|;
    NumeralValue(n, 10, false, fmt, j);
    NoLeadingZero(n, 10);
    assert forall k :: j <= k < e ==> fmt[k] == text[k - j];
    NumberReads(fmt, j, e);
    NumberEnds(fmt, e, n);
  }

  lemma SliceAt(fmt: string, i: nat, t: string, x: nat, y: nat)
    requires i + |t| <= |fmt| && fmt[i..i + |t|] == t && x <= y <= |t|
    ensures fmt[i + x..i + y] == t[x..y] && (x < |t| ==> fmt[i + x] == t[x])
  {
    assert forall k :: 0 <= k < |t| ==> t[k] == fmt[i + k];
  }

  /** What stands before the width. */
  ghost function Flags(d: Directive): string {
    ['%'] + (if d.left then "-" else "") + (if d.zero then "0" else "")
  }

  /** Where the parts of a directive at i begin. */
  lemma DirectiveLayout(fmt: CString, i: nat, d: Directive)
    requires d.Valid() && i + |d.Text()| <= |fmt| && fmt[i..i + |d.Text()|] == d.Text()
    ensures var j := i + |Flags(d)|;
            var e := j + |d.width.Text()|;
            && fmt[i..j] == Flags(d) && fmt[j..e] == d.width.Text()
            && (d.dot ==> fmt[e] == '.' && fmt[e + 1..e + 1 + |d.precision.Text()|] == d.precision.Text())
            && i + |d.Text()| - 1 == (if d.dot then e + 1 + |d.precision.Text()| else e) && fmt[i + |d.Text()| - 1] == d.f
  {
    hide d.Text, d.width.Text, d.precision.Text, Flags;
    var p := if d.dot then "." + d.precision.Text() else "";
    TextParts(d, p);
    FourSlices(fmt, i, Flags(d), d.width.Text(), p, d.f);
    if d.dot {
      DotSlice(fmt, i + |Flags(d)| + |d.width.Text()|, d.precision.Text());
    }
  }

  lemma FourSlices(fmt: string, i: nat, a: string, b: string, c: string, f: char)
    requires i + |a| + |b| + |c| + 1 <= |fmt| && fmt[i..i + |a| + |b| + |c| + 1] == a + b + c + [f]
    ensures var j := i + |a|; var k := j + |b|; var l := k + |c|;
            fmt[i..j] == a && fmt[j..k] == b && fmt[k..l] == c && fmt[l] == f
  {
    var t := a + b + c + [f];
    Quarters(a, b, c, [f]);
    SliceAt(fmt, i, t, 0, |a|);
    SliceAt(fmt, i, t, |a|, |a| + |b|);
    SliceAt(fmt, i, t, |a| + |b|, |a| + |b| + |c|);
    SliceAt(fmt, i, t, |a| + |b| + |c|, |t|);
  }

  lemma DotSlice(fmt: string, x: nat, q: string)
    requires x + 1 + |q| <= |fmt| && fmt[x..x + 1 + |q|] == "." + q
    ensures fmt[x] == '.' && fmt[x + 1..x + 1 + |q|] == q
  {
    assert fmt[x] == fmt[x..x + 1 + |q|][0];
    assert fmt[x + 1..x + 1 + |q|] == fmt[x..x + 1 + |q|][1..];
  }

  lemma TextParts(d: Directive, p: string)
    requires p == if d.dot then "." + d.precision.Text() else ""
    ensures d.Text() == Flags(d) + d.width.Text() + p + [d.f]
  {
    hide d.width.Text, d.precision.Text;
  }

  lemma Quarters(a: string, b: string, c: string, d: string)
    ensures var t := a + b + c + d; var i, j := |a|, |a| + |b|; var k := j + |c|;
            |t| == k + |d| && t[..i] == a && t[i..j] == b && t[j..k] == c && t[k..] == d
    ensures |d| == 1 ==> (a + b + c + d)[|a| + |b| + |c|] == d[0]
  {
  }

  /** The characters of the flags, and that what follows is neither. */
  lemma FlagsRead(fmt: CString, i: nat, d: Directive)
    requires i + |Flags(d)| < |fmt| && fmt[i..i + |Flags(d)|] == Flags(d) && fmt[i + |Flags(d)|] !in "-0%"
    ensures var j := i + |Flags(d)|;
            && fmt[i] == '%' && fmt[i + 1] != '%' && (fmt[i + 1] == '-' <==> d.left)
            && var k := if d.left then i + 2 else i + 1;
               k <= j && (fmt[k] == '0' <==> d.zero) && j == if d.zero then k + 1 else k
  {
    var a := Flags(d);
    SliceAt(fmt, i, a, 0, |a|);
    SliceAt(fmt, i, a, 1, |a|);
    if |a| > 2 {
      SliceAt(fmt, i, a, 2, |a|);
    }
  }

  /** ReadSpec, step by step. */
  lemma SpecRead(fmt: CString, i: nat, d: Directive, k: nat, j: nat, args: seq<Arg>, w: int32, e: nat, rest: seq<Arg>,
                 p: int32, n: nat, more: seq<Arg>)
    requires i + 1 < |fmt| && k < |fmt| && j < |fmt| && e < |fmt| && n < |fmt|
    requires (fmt[i + 1] == '-' <==> d.left) && k == (if d.left then i + 2 else i + 1)
    requires (fmt[k] == '0' <==> d.zero) && j == if d.zero then k + 1 else k
    requires Width(fmt, j, args) == Some((w, e, rest)) && (fmt[e] == '.' <==> d.dot)
    requires if d.dot then Width(fmt, e + 1, rest) == Some((p, n, more)) else p == 0 && n == e && more == rest
    ensures ReadSpec(fmt, i + 1, args) == Some(Spec(d.left, if d.zero then '0' else ' ', w, p, n, more))
  {
    hide Width;
  }

  /** The character behind a width or precision belongs to neither. */
  lemma WidthStart(fmt: CString, j: nat, d: Directive)
    requires d.Valid() && j + |d.width.Text()| < |fmt| && fmt[j..j + |d.width.Text()|] == d.width.Text()
    requires var c := fmt[j + |d.width.Text()|]; c in "csduoxX."
    ensures fmt[j] !in "-0%"
  {
    hide Digits;
    match d.width
    case Absent =>
    case Star(_) => assert fmt[j] == fmt[j..j + 1][0];
    case Written(n) => WrittenRead(fmt, j, n);
  }

  /** A directive, wherever it stands in a format, is read as what it says. */
  lemma DirectiveRead(fmt: CString, i: nat, d: Directive, args: seq<Arg>, more: seq<Arg>)
    requires d.Valid() && i + |d.Text()| <= |fmt| && fmt[i..i + |d.Text()|] == d.Text()
    requires args == d.width.Args() + d.precision.Args() + more
    ensures fmt[i] == '%' && i + 1 < |fmt| && fmt[i + 1] != '%' && fmt[i + |d.Text()| - 1] == d.f
    ensures ReadSpec(fmt, i + 1, args)
         == Some(Spec(d.left, if d.zero then '0' else ' ', d.width.Amount(), d.precision.Amount(), i + |d.Text()| - 1, more))
  {
    hide d.Text, d.width.Text, d.precision.Text, Width, ReadSpec, Flags, d.width.Args, d.precision.Args;
    DirectiveLayout(fmt, i, d);
    var j := i + |Flags(d)|;
    var e, n := j + |d.width.Text()|, i + |d.Text()| - 1;
    assert args == d.width.Args() + (d.precision.Args() + more);
    WidthStart(fmt, j, d);
    FlagsRead(fmt, i, d);
    SizeRead(fmt, j, d.width, args, d.precision.Args() + more);
    if d.dot {
      SizeRead(fmt, e + 1, d.precision, d.precision.Args() + more, more);
    } else {
      NoArgs(d.precision, more);
    }
    var k := if d.left then i + 2 else i + 1;
    SpecRead(fmt, i, d, k, j, args, d.width.Amount(), e, d.precision.Args() + more, d.precision.Amount(), n, more);
  }

  lemma NoArgs(z: Size, more: seq<Arg>)
    ensures z.Absent? ==> z.Args() + more == more && z.Amount() == 0
  {
  }

  /** What any directive prints, wherever it stands, and that the format goes on behind it. */
  lemma DirectivePrinted(fmt: CString, i: nat, d: Directive, arg: Arg, more: seq<Arg>)
    requires d.Valid() && i + |d.Text()| <= |fmt| && fmt[i..i + |d.Text()|] == d.Text()
    requires if d.f == 's' then !arg.Int? else arg.Int?
    ensures Format(fmt, i, d.width.Args() + d.precision.Args() + [arg] + more)
         == Prepend(Output(d, arg), Format(fmt, i + |d.Text()|, more))
  {
    hide Output, d.Text, Convert, FieldOf, ReadSpec;
    var args := d.width.Args() + d.precision.Args() + [arg] + more;
    assert args == d.width.Args() + d.precision.Args() + ([arg] + more);
    DirectiveRead(fmt, i, d, args, [arg] + more);
    Converts(d.f, arg);
    FieldIsOutput(d, arg);
    assert ([arg] + more)[1..] == more;
    SameField(d.left, if d.zero then '0' else ' ', d.width.Amount(), d.precision.Amount(), i + |d.Text()| - 1, [arg] + more,
              Convert(d.f, arg).value);
  }

  lemma Converts(f: char, arg: Arg)
    requires f in "csduoxX" && if f == 's' then !arg.Int? else arg.Int?
    ensures Convert(f, arg).Some?
  {
  }

  /** The field does not depend on where the specification ends. */
  lemma SameField(left: bool, fill: char, w: int32, p: int32, next: nat, args: seq<Arg>, c: Converted)
    ensures FieldOf(Spec(left, fill, w, p, next, args), c) == FieldOf(Spec(left, fill, w, p, 0, []), c)
  {
  }

  /** Everything else is put as it is; two percent signs are one, and a last one is itself. */
  lemma PlainPrinted(fmt: CString, i: nat, args: seq<Arg>)
    requires i <= |fmt|
    ensures i == |fmt| ==> Format(fmt, i, args) == Some("")
    ensures i < |fmt| && fmt[i] != '%' ==> Format(fmt, i, args) == Prepend([fmt[i]], Format(fmt, i + 1, args))
    ensures i + 1 < |fmt| && fmt[i] == '%' && fmt[i + 1] == '%' ==>
              Format(fmt, i, args) == Prepend("%", Format(fmt, i + 2, args))
    ensures i + 1 == |fmt| && fmt[i] == '%' ==> Format(fmt, i, args) == Some("%")
  {
    hide Convert, FieldOf;
    if i + 1 == |fmt| && fmt[i] == '%' {
      NumberEnds(fmt, i + 1, 0);
    }
  }

  lemma Alone(d: Directive, arg: Arg, fmt: CString)
    requires d.Valid() && fmt == d.Text() && if d.f == 's' then !arg.Int? else arg.Int?
    ensures Format(fmt, 0, d.width.Args() + d.precision.Args() + [arg]) == Some(Output(d, arg))
  {
    hide d.Text, Output, Format;
    var args := d.width.Args() + d.precision.Args() + [arg];
    assert args + [] == args;
    assert fmt[0..|fmt|] == fmt;
    DirectivePrinted(fmt, 0, d, arg, []);
    PlainPrinted(fmt, |fmt|, []);
    assert Output(d, arg) + "" == Output(d, arg);
  }

  /** %.2s of abc. */
  lemma TwoOfThree()
    ensures Format("%.2s", 0, [Str("abc")]) == Some("ab")
  {
    hide Format;
    var d := Directive(false, false, Absent, true, Written(2), 's');
    assert Digits(2, 10) == [2];
    assert Numeral(2, 10, false) == "2";
    assert d.Text() == "%.2s";
    assert [] + [] + [Str("abc")] == [Str("abc")];
    Alone(d, Str("abc"), "%.2s");
    assert Output(d, Str("abc")) == "ab";
  }

  lemma NoField(t: string)
    ensures Ranged(false, false, 0, "", t) == t
  {
  }

  /** A directive without flags, width and precision. */
  lemma Bare(f: char, v: int32, fmt: CString)
    requires f in "uoxX" && fmt == ['%', f]
    ensures Format(fmt, 0, [Int(v)]) == Some(Output(Directive(false, false, Absent, false, Absent, f), Int(v)))
  {
    hide Format, Output;
    var d := Directive(false, false, Absent, false, Absent, f);
    assert [] + [] + [Int(v)] == [Int(v)];
    assert d.Text() == fmt;
    Alone(d, Int(v), fmt);
  }

  /** Upper and lower case, and base 8. */
  lemma Samples()
    ensures Format("%X", 0, [Int(255)]) == Some("FF") && Format("%x", 0, [Int(255)]) == Some("ff")
    ensures Format("%o", 0, [Int(8)]) == Some("10")
  {
    hide Format, Numeral, Ranged;
    SampleNumerals();
    Bare('X', 255, "%X");
    Bare('x', 255, "%x");
    Bare('o', 8, "%o");
    NoField("FF");
    NoField("ff");
    NoField("10");
  }

  /** The sign goes before the zeros. */
  lemma SignBeforeZeros()
    ensures Format("%0*d", 0, [Int(5), Int(-42)]) == Some("-0042")
  {
    hide Format, Numeral;
    SampleNumerals();
    var d := Directive(false, true, Star(5), false, Absent, 'd');
    assert d.width.Args() + d.precision.Args() + [Int(-42)] == [Int(5), Int(-42)];
    assert d.Text() == "%0*d";
    Alone(d, Int(-42), "%0*d");
    assert Row('0', 2) == "00";
    assert "-" + "00" + "42" == "-0042";
    assert Output(d, Int(-42)) == "-" + "00" + "42";
  }

  lemma SampleNumerals()
    ensures Numeral(255, 16, true) == "FF" && Numeral(255, 16, false) == "ff" && Numeral(8, 8, false) == "10"
    ensures Numeral(42, 10, false) == "42"
  {
    assert Digits(255, 16) == [15, 15] && Digits(8, 8) == [1, 0] && Digits(42, 10) == [4, 2];
  }
}
