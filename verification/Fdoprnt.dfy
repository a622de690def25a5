/** The formatter behind printf and sprintf. */
module Fdoprnt {
  import opened Machine
  import opened Options
  import opened Text
  import opened Prtl

  const MAXSTR := 80

  /** The arguments after the format: integers, and strings or a null pointer. */
  datatype Arg = Int(v: int32) | Str(s: CString) | Null

  /** What stands between a % and the character after it. */
  datatype Spec = Spec(left: bool, fill: char, fmin: int32, fmax: int32, next: nat, args: seq<Arg>)

  /** A run of digits from i on, continuing the value acc, and where it ends. */
  function Number(fmt: CString, i: nat, acc: int32): (r: (int32, nat))
    requires i <= |fmt|
    ensures i <= r.1 <= |fmt|
    decreases |fmt| - i
  {
    if IsDigit(CharAt(fmt, i)) then Number(fmt, i + 1, Signed(acc * 10 + fmt[i] as int - '0' as int)) else (acc, i)
  }

  /** A width or precision: digits, or a star that takes an argument. */
  function Width(fmt: CString, i: nat, args: seq<Arg>): (r: Option<(int32, nat, seq<Arg>)>)
    requires i <= |fmt|
    ensures r.Some? ==> i <= r.value.1 <= |fmt| && |r.value.2| <= |args|
  {
    if CharAt(fmt, i) == '*' then
      if args != [] && args[0].Int? then Some((args[0].v, i + 1, args[1..])) else None
    else
      var (n, j) := Number(fmt, i, 0);
      Some((n, j, args))
  }

  /** The specification whose % ends before i. */
  function ReadSpec(fmt: CString, i: nat, args: seq<Arg>): (r: Option<Spec>)
    requires i <= |fmt|
    ensures r.Some? ==> i <= r.value.next <= |fmt|
  {
    var left := CharAt(fmt, i) == '-';
    var j := if left then i + 1 else i;
    var zero := CharAt(fmt, j) == '0';
    var fill := if zero then '0' else ' ';
    match Width(fmt, if zero then j + 1 else j, args)
    case None => None
    case Some((fmin, k, rest)) =>
      if CharAt(fmt, k) == '.' then
        match Width(fmt, k + 1, rest)
        case None => None
        case Some((fmax, m, rest')) => Some(Spec(left, fill, fmin, fmax, m, rest'))
      else Some(Spec(left, fill, fmin, 0, k, rest))
  }

  /** What a conversion makes of its argument: whether a minus sign goes before it, its text, and
      whether the precision and the fill character of the specification are heeded. */
  datatype Converted = Converted(minus: bool, text: string, heedMax: bool, heedFill: bool)

  ghost function Convert(f: char, arg: Arg): Option<Converted> {
    match arg
    case Int(v) =>
      if f == 'd' then Some(Converted(v < 0, DecText(if v < 0 then Signed(-(v as int)) else v), true, true))
      else if f == 'u' then Some(Converted(false, Numeral(Unsigned(v), 10, false), false, true))
      else if f == 'o' then Some(Converted(false, Numeral(Unsigned(v), 8, false), false, true))
      else if f == 'x' then Some(Converted(false, Numeral(Unsigned(v), 16, false), false, true))
      else if f == 'X' then Some(Converted(false, Numeral(Unsigned(v), 16, true), false, true))
      else if f == 'c' then Some(Converted(false, if v % 256 == 0 then "" else [(v % 256) as char], false, false))
      else None
    case Str(s) => if f == 's' then Some(Converted(false, s, true, false)) else None
    case Null => if f == 's' then Some(Converted(false, "(null)", true, false)) else None
  }

  /** Widths out of range count as not given. */
  function Limit(n: int32): (m: nat)
    ensures m <= MAXSTR
  {
    if n > MAXSTR || n < 0 then 0 else n
  }

  function Fill(c: char, n: int): (t: string)
    ensures |t| == if n > 0 then n else 0
  {
    seq(if n > 0 then n else 0, _ => c)
  }

  /** A converted argument in its field. */
  function Field(left: bool, fill: char, fmin: nat, fmax: nat, minus: bool, text: string): string {
    var body := if fmax != 0 && |text| > fmax then text[..fmax] else text;
    var leading := if fmin == 0 then 0 else fmin - |body| - if minus then 1 else 0;
    var pad := Fill(fill, leading);
    (if minus && fill == '0' then "-" else "")
    + (if left then "" else pad)
    + (if minus && fill == ' ' then "-" else "")
    + body
    + (if left then pad else "")
  }

  /** A field is as wide as asked for, or as what is left of the text with its sign is long. */
  lemma FieldLength(left: bool, fill: char, fmin: nat, fmax: nat, minus: bool, text: string)
    requires fill == ' ' || fill == '0'
    ensures var shown := (if fmax != 0 && |text| > fmax then fmax else |text|) + if minus then 1 else 0;
            |Field(left, fill, fmin, fmax, minus, text)| == if shown > fmin then shown else fmin
  {
  }

  ghost function FieldOf(s: Spec, c: Converted): string {
    Field(s.left, if c.heedFill then s.fill else ' ', Limit(s.fmin), if c.heedMax then Limit(s.fmax) else 0, c.minus, c.text)
  }

  /** What a format prints from position i on.  It is None if an argument is missing or of the
      wrong kind, or for a conversion other than c, s, d, u, o, x and X. */
  ghost function Format(fmt: CString, i: nat, args: seq<Arg>): Option<string>
    requires i <= |fmt|
    decreases |fmt| - i
  {
    if i == |fmt| then Some("")
    else if fmt[i] != '%' then Prepend([fmt[i]], Format(fmt, i + 1, args))
    else if CharAt(fmt, i + 1) == '%' then Prepend("%", Format(fmt, i + 2, args))
    else
      match ReadSpec(fmt, i + 1, args)
      case None => None
      case Some(s) =>
        if s.next == |fmt| then Some("%")
        else if s.args == [] then None
        else
          match Convert(fmt[s.next], s.args[0])
          case None => None
          case Some(c) => Prepend(FieldOf(s, c), Format(fmt, s.next + 1, s.args[1..]))
  }

  ghost function Prepend(t: string, o: Option<string>): Option<string> {
    match o
    case None => None
    case Some(u) => Some(t + u)
  }

  /** The output cursor that sprintf shares with the routine that puts characters there. */
  class Cursor {
    const buf: array<char>
    var pos: nat

    constructor (buf: array<char>, pos: nat)
      ensures this.buf == buf && this.pos == pos
    {
      this.buf, this.pos := buf, pos;
    }

    /** The text t has been put at start, where the buffer held was before. */
    ghost predicate Wrote(was: seq<char>, start: nat, t: string)
      reads this, buf
    {
      start + |t| <= |was| && pos == start + |t| && buf[..] == was[..start] + t + was[start + |t|..]
    }

    /** sprntf: put a character and move on. */
    method Put(c: char, ghost was: seq<char>, ghost start: nat, ghost t: string)
      requires Wrote(was, start, t) && pos < buf.Length
      modifies this`pos, buf
      ensures Wrote(was, start, t + [c])
    {
      buf[pos] := c;
      pos := pos + 1;
    }
  }

  method ReadNumber(fmt: CString, i0: nat) returns (n: int32, i: nat)
    requires i0 <= |fmt|
    ensures i <= |fmt| && (n, i) == Number(fmt, i0, 0)
  {
    n, i := 0, i0;
    while '0' <= CharAt(fmt, i) <= '9'
      invariant i <= |fmt| && Number(fmt, i0, 0) == Number(fmt, i, n)
      decreases |fmt| - i
    {
      n := Signed(n * 10 + fmt[i] as int - '0' as int);
      i := i + 1;
    }
  }

  method ReadWidth(fmt: CString, i0: nat, ap0: seq<Arg>) returns (n: int32, i: nat, ap: seq<Arg>)
    requires i0 <= |fmt| && Width(fmt, i0, ap0).Some?
    ensures i <= |fmt| && Width(fmt, i0, ap0) == Some((n, i, ap))
  {
    if CharAt(fmt, i0) == '*' {
      return ap0[0].v, i0 + 1, ap0[1..];
    }
    n, i := ReadNumber(fmt, i0);
    ap := ap0;
  }

  /** Flags, width and precision, from the character after the %. */
  method ReadFlags(fmt: CString, i0: nat, ap0: seq<Arg>)
    returns (leftjust: bool, fill: char, fmin: int32, fmax: int32, i: nat, ap: seq<Arg>)
    requires i0 <= |fmt| && ReadSpec(fmt, i0, ap0).Some?
    ensures i <= |fmt| && ReadSpec(fmt, i0, ap0) == Some(Spec(leftjust, fill, fmin, fmax, i, ap))
  {
    hide Width;
    i := i0;
    leftjust := CharAt(fmt, i) == '-';
    if leftjust {
      i := i + 1;
    }
    fill := ' ';
    if CharAt(fmt, i) == '0' {
      fill := CharAt(fmt, i);
      i := i + 1;
    }
    fmin, i, ap := ReadWidth(fmt, i, ap0);
    fmax := 0;
    if CharAt(fmt, i) == '.' {
      i := i + 1;
      fmax, i, ap := ReadWidth(fmt, i, ap);
    }
  }

  lemma DigitsNotNul(n: nat, base: nat, upper: bool)
    requires 2 <= base <= 36
    ensures '\0' !in Numeral(n, base, upper)
  {
  }

  lemma DecNotNul(n: int)
    ensures '\0' !in DecText(n)
  {
    hide Digits, DecChar;
    DecChars(n < 0);
  }

  /** The switch on the conversion character.  str is the memory that the pointer of that name
      points to: the buffer filled by a number printer, or the string argument itself. */
  method ConvertArg(f: char, arg: Arg, fill0: char, fmax0: int32) returns (sign: char, str: seq<char>, fill: char, fmax: int32)
    requires Convert(f, arg).Some?
    ensures var c := Convert(f, arg).value;
            && Holds(str, c.text) && '\0' !in c.text
            && sign == (if c.minus then '-' else '\0')
            && fill == (if c.heedFill then fill0 else ' ')
            && fmax == (if c.heedMax then fmax0 else 0)
  {
    hide Numeral, DecText;
    sign, fill, fmax := '\0', fill0, fmax0;
    var buffer := new char[20];
    match f
    case 'c' =>
      buffer[0] := (arg.v % 256) as char;
      buffer[1] := '\0';
      fmax, fill := 0, ' ';
      str := buffer[..];
    case 's' =>
      str := if arg.Null? then "(null)" + ['\0'] else arg.s + ['\0'];
      fill := ' ';
    case 'd' =>
      var larg: int32 := arg.v;
      if larg < 0 {
        sign := '-';
        larg := Signed(-(larg as int));
      }
      Prtl10(larg, buffer);
      DecNotNul(larg);
      str := buffer[..];
    case 'u' =>
      PrintUnsigned(arg.v, buffer);
      DigitsNotNul(Unsigned(arg.v), 10, false);
      fmax := 0;
      str := buffer[..];
    case 'o' =>
      Prtl8(arg.v, buffer);
      DigitsNotNul(Unsigned(arg.v), 8, false);
      fmax := 0;
      str := buffer[..];
    case 'x' =>
      Prtl16(arg.v, false, buffer);
      DigitsNotNul(Unsigned(arg.v), 16, false);
      fmax := 0;
      str := buffer[..];
    case _ =>  // 'X', the last of the conversions
      Prtl16(arg.v, true, buffer);
      DigitsNotNul(Unsigned(arg.v), 16, true);
      fmax := 0;
      str := buffer[..];
  }

  /** The loop that finds the length of a C string. */
  method Length(str: seq<char>, ghost t: string) returns (length: nat)
    requires Holds(str, t) && '\0' !in t
    ensures length == |t|
  {
    length := 0;
    while str[length] != '\0'
      invariant length <= |t| && str[..|t|] == t
      decreases |t| - length
    {
      assert length < |t|;
      length := length + 1;
    }
  }

  /** The loops that put the fill character. */
  method PutFill(out: Cursor, fill: char, leading: int, ghost was: seq<char>, ghost start: nat, ghost t: string)
    requires out.Wrote(was, start, t) && out.pos + |Fill(fill, leading)| <= out.buf.Length
    modifies out`pos, out.buf
    ensures out.Wrote(was, start, t + Fill(fill, leading))
  {
    var i := 0;
    assert t + Fill(fill, 0) == t;
    while i < leading
      invariant 0 <= i && (i > 0 ==> i <= leading)
      invariant out.Wrote(was, start, t + Fill(fill, i))
    {
      assert t + Fill(fill, i) + [fill] == t + Fill(fill, i + 1);
      out.Put(fill, was, start, t + Fill(fill, i));
      i := i + 1;
    }
    assert Fill(fill, i) == Fill(fill, leading);
  }

  /** The loop that puts the first characters of a string. */
  method PutText(out: Cursor, str: seq<char>, length: nat, ghost was: seq<char>, ghost start: nat, ghost t: string)
    requires length <= |str| && out.Wrote(was, start, t) && out.pos + length <= out.buf.Length
    modifies out`pos, out.buf
    ensures out.Wrote(was, start, t + str[..length])
  {
    var i := 0;
    assert t + str[..0] == t;
    while i < length
      invariant 0 <= i <= length
      invariant out.Wrote(was, start, t + str[..i])
    {
      assert t + str[..i] + [str[i]] == t + str[..i + 1];
      out.Put(str[i], was, start, t + str[..i]);
      i := i + 1;
    }
  }

  /** How many characters of the text go out, and how many of the fill. */
  method Measure(fmin0: int32, fmax0: int32, sign: char, str: seq<char>, ghost text: string) returns (length: nat, leading: int)
    requires Holds(str, text) && '\0' !in text
    ensures var fmin, fmax := Limit(fmin0), Limit(fmax0);
            && length == (if fmax != 0 && |text| > fmax then fmax else |text|)
            && (fmin != 0 ==> leading == fmin - length - if sign == '-' then 1 else 0)
            && (fmin == 0 ==> leading <= 0)
  {
    var fmin, fmax := fmin0, fmax0;
    length := Length(str, text);
    if fmin > MAXSTR || fmin < 0 {
      fmin := 0;
    }
    if fmax > MAXSTR || fmax < 0 {
      fmax := 0;
    }
    leading := 0;
    if fmax != 0 || fmin != 0 {
      if fmax != 0 {
        if length > fmax {
          length := fmax;
        }
      }
      if fmin != 0 {
        leading := fmin - length;
      }
      if sign == '-' {
        leading := leading - 1;
      }
    }
  }

  /** A field with length characters of text and leading characters of fill. */
  ghost function Pieces(left: bool, fill: char, sign: char, body: string, leading: int): string {
    (if sign == '-' && fill == '0' then "-" else "")
    + (if left then "" else Fill(fill, leading))
    + (if sign == '-' && fill == ' ' then "-" else "")
    + body
    + (if left then Fill(fill, leading) else "")
  }

  method PutSign(out: Cursor, put: bool, ghost was: seq<char>, ghost start: nat, ghost t: string)
    requires out.Wrote(was, start, t) && (put ==> out.pos < out.buf.Length)
    modifies out`pos, out.buf
    ensures out.Wrote(was, start, t + if put then "-" else "")
  {
    assert t + "" == t;
    if put {
      out.Put('-', was, start, t);
    }
  }

  lemma Regroup(t: string, a: string, b: string, c: string, d: string, e: string)
    ensures t + (a + b + c + d + e) == t + a + b + c + d + e
  {
  }

  lemma Room(out: Cursor, was: seq<char>, start: nat, t: string)
    requires out.Wrote(was, start, t)
    ensures out.pos == start + |t| && |was| == out.buf.Length
  {
  }

  /** The lines that put the field. */
  method PutPieces(out: Cursor, leftjust: bool, fill: char, sign: char, str: seq<char>, length: nat, leading: int,
                   ghost was: seq<char>, ghost start: nat, ghost t: string)
    requires length <= |str| && out.Wrote(was, start, t)
    requires out.pos + |Pieces(leftjust, fill, sign, str[..length], leading)| <= out.buf.Length
    modifies out`pos, out.buf
    ensures out.Wrote(was, start, t + Pieces(leftjust, fill, sign, str[..length], leading))
  {
    hide out.Wrote, Fill;
    ghost var pad, body := Fill(fill, leading), str[..length];
    ghost var s1, s2 := if sign == '-' && fill == '0' then "-" else "", if sign == '-' && fill == ' ' then "-" else "";
    ghost var p1, p2 := if leftjust then "" else pad, if leftjust then pad else "";
    Regroup(t, s1, p1, s2, body, p2);
    Room(out, was, start, t);
    PutSign(out, sign == '-' && fill == '0', was, start, t);
    ghost var u := t + s1;
    Room(out, was, start, u);
    if !leftjust {
      PutFill(out, fill, leading, was, start, u);
    }
    assert u + "" == u;
    u := u + p1;
    Room(out, was, start, u);
    PutSign(out, sign == '-' && fill == ' ', was, start, u);
    u := u + s2;
    Room(out, was, start, u);
    PutText(out, str, length, was, start, u);
    u := u + body;
    Room(out, was, start, u);
    if leftjust {
      PutFill(out, fill, leading, was, start, u);
    }
    assert u + "" == u;
  }

  /** Everything from the length loop on. */
  method PutField(out: Cursor, leftjust: bool, fill: char, fmin: int32, fmax: int32, sign: char, str: seq<char>,
                  ghost text: string, ghost was: seq<char>, ghost start: nat, ghost t: string)
    requires Holds(str, text) && '\0' !in text
    requires out.Wrote(was, start, t)
    requires out.pos + |Field(leftjust, fill, Limit(fmin), Limit(fmax), sign == '-', text)| <= out.buf.Length
    modifies out`pos, out.buf
    ensures out.Wrote(was, start, t + Field(leftjust, fill, Limit(fmin), Limit(fmax), sign == '-', text))
  {
    hide out.Wrote;
    var length, leading := Measure(fmin, fmax, sign, str, text);
    FieldPieces(leftjust, fill, Limit(fmin), Limit(fmax), sign, str, text, leading, length);
    PutPieces(out, leftjust, fill, sign, str, length, leading, was, start, t);
  }

  lemma FieldPieces(left: bool, fill: char, fmin: nat, fmax: nat, sign: char, str: seq<char>, text: string,
                    leading: int, length: nat)
    requires Holds(str, text)
    requires length == if fmax != 0 && |text| > fmax then fmax else |text|
    requires fmin != 0 ==> leading == fmin - length - if sign == '-' then 1 else 0
    requires fmin == 0 ==> leading <= 0
    ensures Field(left, fill, fmin, fmax, sign == '-', text) == Pieces(left, fill, sign, str[..length], leading)
  {
    assert str[..length] == str[..|text|][..length];
    if fmin == 0 {
      assert Fill(fill, leading) == Fill(fill, 0);
    }
    if length == |text| {
      assert text[..length] == text;
    }
  }

  /** A step of the format loop: what is still to come is preceded by what has been put. */
  ghost predicate Remains(fmt: CString, args0: seq<Arg>, t: string, i: nat, ap: seq<Arg>) {
    i <= |fmt| && Format(fmt, i, ap).Some? && Format(fmt, 0, args0) == Some(t + Format(fmt, i, ap).value)
  }

  lemma RemainsStart(fmt: CString, args: seq<Arg>)
    requires Format(fmt, 0, args).Some?
    ensures Remains(fmt, args, "", 0, args)
  {
    assert "" + Format(fmt, 0, args).value == Format(fmt, 0, args).value;
  }

  /** A character other than %, or a second %, is put as it is. */
  lemma RemainsPlain(fmt: CString, args0: seq<Arg>, t: string, i: nat, ap: seq<Arg>)
    requires Remains(fmt, args0, t, i, ap)
    ensures i == |fmt| ==> Format(fmt, 0, args0) == Some(t)
    ensures i < |fmt| && fmt[i] != '%' ==> Remains(fmt, args0, t + [fmt[i]], i + 1, ap)
    ensures i < |fmt| && fmt[i] == '%' && CharAt(fmt, i + 1) == '%' ==> Remains(fmt, args0, t + "%", i + 2, ap)
    ensures |t| <= |Format(fmt, 0, args0).value|
    ensures i < |fmt| && fmt[i] != '%' ==> |t| < |Format(fmt, 0, args0).value|
    ensures i < |fmt| && fmt[i] == '%' && CharAt(fmt, i + 1) == '%' ==> |t| < |Format(fmt, 0, args0).value|
  {
    hide ReadSpec, Convert, FieldOf;
    if i == |fmt| {
      assert t + "" == t;
    } else if fmt[i] != '%' {
      var f := Format(fmt, i + 1, ap);
      assert t + ([fmt[i]] + f.value) == t + [fmt[i]] + f.value;
    } else if CharAt(fmt, i + 1) == '%' {
      var f := Format(fmt, i + 2, ap);
      assert t + ("%" + f.value) == t + "%" + f.value;
    }
  }

  lemma RemainsSpec(fmt: CString, args0: seq<Arg>, t: string, i: nat, ap: seq<Arg>)
    requires Remains(fmt, args0, t, i, ap) && i < |fmt| && fmt[i] == '%' && CharAt(fmt, i + 1) != '%'
    ensures ReadSpec(fmt, i + 1, ap).Some?
    ensures var s := ReadSpec(fmt, i + 1, ap).value;
            && (s.next == |fmt| ==> Format(fmt, 0, args0) == Some(t + "%"))
            && (s.next < |fmt| ==>
                  && s.args != [] && Convert(fmt[s.next], s.args[0]).Some?
                  && var field := FieldOf(s, Convert(fmt[s.next], s.args[0]).value);
                     && Remains(fmt, args0, t + field, s.next + 1, s.args[1..])
                     && |t + field| <= |Format(fmt, 0, args0).value|)
  {
    hide ReadSpec, Convert, FieldOf;
    var s := ReadSpec(fmt, i + 1, ap).value;
    if s.next < |fmt| {
      var field := FieldOf(s, Convert(fmt[s.next], s.args[0]).value);
      var f := Format(fmt, s.next + 1, s.args[1..]);
      assert t + (field + f.value) == t + field + f.value;
    }
  }

  /** One conversion: the characters behind a % up to the conversion character, and the field. */
  method PutConversion(fmt: CString, s: Spec, out: Cursor, ghost was: seq<char>, ghost start: nat, ghost t: string)
    requires s.next < |fmt| && s.args != [] && Convert(fmt[s.next], s.args[0]).Some?
    requires out.Wrote(was, start, t)
    requires out.pos + |FieldOf(s, Convert(fmt[s.next], s.args[0]).value)| <= out.buf.Length
    modifies out`pos, out.buf
    ensures out.Wrote(was, start, t + FieldOf(s, Convert(fmt[s.next], s.args[0]).value))
  {
    hide out.Wrote, Convert, Field, Holds;
    LimitZero();
    ghost var c := Convert(fmt[s.next], s.args[0]).value;
    var sign, str, fill, fmax := ConvertArg(fmt[s.next], s.args[0], s.fill, s.fmax);
    PutField(out, s.left, fill, s.fmin, fmax, sign, str, c.text, was, start, t);
  }

  lemma LimitZero()
    ensures Limit(0) == 0
  {
  }

  /** The format loop. */
  method Fdoprnt(fmt: CString, args: seq<Arg>, out: Cursor)
    requires Format(fmt, 0, args).Some? && out.pos + |Format(fmt, 0, args).value| <= out.buf.Length
    modifies out`pos, out.buf
    ensures out.Wrote(old(out.buf[..]), old(out.pos), Format(fmt, 0, args).value)
  {
    hide Format, ReadSpec, Remains, out.Wrote, Convert, FieldOf;
    ghost var was, start, t := out.buf[..], out.pos, "";
    WroteNothing(out);
    RemainsStart(fmt, args);
    var i, ap := 0, args;
    while true
      invariant out.Wrote(was, start, t) && i <= |fmt| && Remains(fmt, args, t, i, ap)
      decreases |fmt| - i
    {
      RemainsPlain(fmt, args, t, i, ap);
      Room(out, was, start, t);
      var c := CharAt(fmt, i);
      if c == '\0' {
        return;
      }
      if c != '%' {
        out.Put(c, was, start, t);
        i, t := i + 1, t + [c];
        continue;
      }
      if CharAt(fmt, i + 1) == '%' {
        out.Put(CharAt(fmt, i + 1), was, start, t);
        i, t := i + 2, t + "%";
        continue;
      }
      RemainsSpec(fmt, args, t, i, ap);
      ghost var spec := ReadSpec(fmt, i + 1, ap).value;
      var leftjust, fill, fmin, fmax;
      leftjust, fill, fmin, fmax, i, ap := ReadFlags(fmt, i + 1, ap);
      var f := CharAt(fmt, i);
      if f == '\0' {
        out.Put('%', was, start, t);
        return;
      }
      var s := Spec(leftjust, fill, fmin, fmax, i, ap);
      PutConversion(fmt, s, out, was, start, t);
      t := t + FieldOf(s, Convert(fmt[i], ap[0]).value);
      i, ap := i + 1, ap[1..];
    }
  }

  lemma WroteNothing(out: Cursor)
    requires out.pos <= out.buf.Length
    ensures out.Wrote(out.buf[..], out.pos, "")
  {
    var b := out.buf[..];
    assert b[..out.pos] + "" + b[out.pos..] == b;
  }

  /** sprintf: the text and a NUL, from str on. */
  method Sprintf(buf: array<char>, str: nat, fmt: CString, args: seq<Arg>)
    requires Format(fmt, 0, args).Some? && str + |Format(fmt, 0, args).value| + 1 <= buf.Length
    modifies buf
    ensures var t := Format(fmt, 0, args).value + "\0";
            buf[..] == old(buf[..])[..str] + t + old(buf[..])[str + |t|..]
  {
    var s := new Cursor(buf, str);
    Fdoprnt(fmt, args, s);
    ghost var t := Format(fmt, 0, args).value;
    s.Put('\0', old(buf[..]), str, t);
    assert t + ['\0'] == t + "\0";
  }
}
