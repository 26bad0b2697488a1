/**
 The two formatters, as functions: what alt_log_private_printf and alt_printf send to the console.  The code
 is in Printf.dfy.
 */
module Formats {
  import opened Platform
  import opened Positional

  datatype Arg = Num(v: nat) | Str(s: string)

  /** The flags of the conversion being read; `before` is the width, -1 if none was given. */
  datatype Flags = Flags(zero: bool, long: bool, base: nat, signed: bool, upper: bool, before: int, after: int)

  const NO_FLAGS := Flags(false, false, 10, true, false, -1, -1)

  // ---- integers --------------------------------------------------------------------------------

  function DigitChar(d: nat, upper: bool): char
    requires d < 16
  {
    if d <= 9 then '0' + d as char else (if upper then 'A' else 'a') + (d - 10) as char
  }

  function Text(ds: seq<nat>, upper: bool): (s: string)
    requires forall i :: 0 <= i < |ds| ==> ds[i] < 16
    ensures |s| == |ds| && forall i :: 0 <= i < |ds| ==> s[i] == DigitChar(ds[i], upper)
  {
    seq(|ds|, i requires 0 <= i < |ds| => DigitChar(ds[i], upper))
  }

  predicate Negative(v: nat, signed: bool) {
    signed && v >= WRAP / 2
  }

  /** The 32-bit word without its sign. */
  function Magnitude(v: nat, signed: bool): nat
    requires v < WRAP
  {
    if Negative(v, signed) then WRAP - v else v
  }

  /** What alt_log_repchar prints. */
  function Repeat(c: char, r: int): (s: string)
    ensures |s| == if r > 0 then r else 0
  {
    if r > 0 then seq(r, _ => c) else []
  }

  function Sign(negative: bool): string {
    if negative then "-" else ""
  }

  /** A sign, some zeros and digits. */
  function Number(negative: bool, zeros: int, ds: seq<nat>, upper: bool): string
    requires forall i :: 0 <= i < |ds| ==> ds[i] < 16
  {
    Sign(negative) + (Repeat('0', zeros) + Text(ds, upper))
  }

  function IntDigits(v: nat, f: Flags): (ds: seq<nat>)
    requires v < WRAP && 2 <= f.base <= 16
    ensures ds != [] && forall i :: 0 <= i < |ds| ==> ds[i] < 16
  {
    Digits(Magnitude(v, f.signed), f.base)
  }

  /** How many characters the width asks for beyond sign and digits; not positive if none. */
  function Padding(v: nat, f: Flags): int
    requires v < WRAP && 2 <= f.base <= 16
  {
    f.before - |IntDigits(v, f)| - if Negative(v, f.signed) then 1 else 0
  }

  /** What an integer conversion prints: padded with zeros after the sign, or with blanks before it. */
  function FormatInt(v: nat, f: Flags): string
    requires v < WRAP && 2 <= f.base <= 16
  {
    var negative := Negative(v, f.signed);
    if f.zero then Number(negative, Padding(v, f), IntDigits(v, f), f.upper)
    else Repeat(' ', Padding(v, f)) + Number(negative, 0, IntDigits(v, f), f.upper)
  }

  /** The length is the width asked for, or what sign and digits need if that is more. */
  lemma FormatLength(v: nat, f: Flags)
    requires v < WRAP && 2 <= f.base <= 16
    ensures var needed := (if Negative(v, f.signed) then 1 else 0) + |IntDigits(v, f)|;
            |FormatInt(v, f)| == if f.before > needed then f.before else needed
  {
  }

  function DigitOf(c: char): nat {
    if '0' <= c <= '9' then (c - '0') as nat
    else if 'a' <= c <= 'f' then (c - 'a') as nat + 10
    else if 'A' <= c <= 'F' then (c - 'A') as nat + 10
    else 0
  }

  /** Reading a number back: blanks, a sign, digits. */
  function ParseNat(s: string, base: nat): nat {
    Value(seq(|s|, i requires 0 <= i < |s| => DigitOf(s[i])), base)
  }

  function ParseInt(s: string, base: nat): int {
    if s != [] && s[0] == ' ' then ParseInt(s[1..], base)
    else if s != [] && s[0] == '-' then 0 - ParseNat(s[1..], base)
    else ParseNat(s, base)
  }

  /** The number a 32-bit argument means. */
  function Meaning(v: nat, signed: bool): int
    requires v < WRAP
  {
    if Negative(v, signed) then v - WRAP else v
  }

  lemma DigitOfChar(d: nat, upper: bool)
    requires d < 16
    ensures DigitOf(DigitChar(d, upper)) == d && DigitChar(d, upper) != ' ' && DigitChar(d, upper) != '-'
  {
  }

  lemma ParseDigits(zeros: int, ds: seq<nat>, base: nat, upper: bool)
    requires forall i :: 0 <= i < |ds| ==> ds[i] < 16
    ensures ParseNat(Repeat('0', zeros) + Text(ds, upper), base) == Value(ds, base)
  {
    var s := Repeat('0', zeros) + Text(ds, upper);
    var n: nat := if zeros > 0 then zeros else 0;
    var read := seq(|s|, i requires 0 <= i < |s| => DigitOf(s[i]));
    forall i | 0 <= i < |ds| ensures DigitOf(DigitChar(ds[i], upper)) == ds[i] {
      DigitOfChar(ds[i], upper);
    }
    assert read == seq(n, _ => 0) + ds;
    ValueOfPadded(n, ds, base);
  }

  lemma {:induction false} SkipBlanks(n: int, s: string, base: nat)
    ensures ParseInt(Repeat(' ', n) + s, base) == ParseInt(s, base)
    decreases if n > 0 then n else 0
  {
    var t := Repeat(' ', n) + s;
    if n <= 0 {
      assert t == s;
    } else {
      assert t[1..] == Repeat(' ', n - 1) + s;
      SkipBlanks(n - 1, s, base);
    }
  }

  lemma ParseNumber(negative: bool, zeros: int, ds: seq<nat>, base: nat, upper: bool)
    requires ds != [] && forall i :: 0 <= i < |ds| ==> ds[i] < 16
    ensures var n: int := Value(ds, base);
            ParseInt(Number(negative, zeros, ds, upper), base) == if negative then -n else n
  {
    var digits := Repeat('0', zeros) + Text(ds, upper);
    ParseDigits(zeros, ds, base, upper);
    DigitOfChar(ds[0], upper);
    assert digits[0] != ' ' && digits[0] != '-';
    if negative {
      assert ("-" + digits)[1..] == digits;
    } else {
      assert "" + digits == digits;
    }
  }

  /** Integer printing is invertible, for every 32-bit word and every combination of flags. */
  lemma Invertible(v: nat, f: Flags)
    requires v < WRAP && 2 <= f.base <= 16
    ensures ParseInt(FormatInt(v, f), f.base) == Meaning(v, f.signed)
  {
    var (negative, ds) := (Negative(v, f.signed), IntDigits(v, f));
    ValueOfDigits(Magnitude(v, f.signed), f.base);
    ParseNumber(negative, if f.zero then Padding(v, f) else 0, ds, f.base, f.upper);
    if !f.zero { SkipBlanks(Padding(v, f), Number(negative, 0, ds, f.upper), f.base); }
  }

  // ---- the format string, character by character -------------------------------------------------

  datatype Mode = Chars | FirstFmtChar | OtherFmtChar

  /** The formatter: its state variable, the flags, the arguments not yet used, what it has printed. */
  datatype Machine = Machine(mode: Mode, f: Flags, args: seq<Arg>, out: string)

  /** va_arg; an argument that is missing or of the other kind is undefined in C and taken as nothing here. */
  function NextNum(args: seq<Arg>): (v: nat)
    ensures v < WRAP
  {
    if args != [] && args[0].Num? then args[0].v % WRAP else 0
  }

  function NextStr(args: seq<Arg>): string {
    if args != [] && args[0].Str? then args[0].s else ""
  }

  function Rest(args: seq<Arg>): seq<Arg> {
    if args == [] then [] else args[1..]
  }

  /** The low byte of an argument, as a character. */
  function Low(v: nat): char {
    (v % 256) as char
  }

  /** The flags an integer conversion letter sets. */
  function IntFlags(f: Flags, c: char): Flags {
    match c
    case 'u' => f.(signed := false)
    case 'o' => f.(signed := false, base := 8)
    case 'x' => f.(signed := false, base := 16)
    case 'X' => f.(signed := false, base := 16, upper := true)
    case _ => f
  }

  predicate IsInt(c: char) {
    c == 'd' || c == 'i' || c == 'u' || c == 'o' || c == 'x' || c == 'X'
  }

  /** The conversion named by letter `c`; an unknown letter prints nothing and uses no argument. */
  function Convert(m: Machine, c: char): (m': Machine)
    requires 2 <= m.f.base <= 16
    ensures m'.mode == Chars && 2 <= m'.f.base <= 16
  {
    if IsInt(c) then
      Machine(Chars, IntFlags(m.f, c), Rest(m.args), m.out + FormatInt(NextNum(m.args), IntFlags(m.f, c)))
    else if c == 'c' then
      Machine(Chars, m.f, Rest(m.args), m.out + Repeat(' ', m.f.before - 1) + [Low(NextNum(m.args))])
    else if c == 's' then
      var s := NextStr(m.args);
      Machine(Chars, m.f, Rest(m.args), m.out + Repeat(' ', m.f.before - |s|) + s)
    else
      m.(mode := Chars)
  }

  /** A character of a conversion after the first: precision, width, length or the letter. */
  function FeedOther(m: Machine, c: char): (m': Machine)
    requires 2 <= m.f.base <= 16
    ensures 2 <= m'.f.base <= 16
  {
    var f := m.f;
    if c == '.' then m.(f := f.(after := 0))
    else if '0' <= c <= '9' then
      var d := (c - '0') as nat;
      if f.after < 0 then m.(f := f.(before := (if f.before < 0 then 0 else f.before * 10) + d))
      else m.(f := f.(after := f.after * 10 + d))
    else if c == 'l' then m.(f := f.(long := true))
    else Convert(m, c)
  }

  function Feed(m: Machine, c: char): (m': Machine)
    requires 2 <= m.f.base <= 16
    ensures 2 <= m'.f.base <= 16
  {
    match m.mode
    case Chars =>
      if c == '%' then m.(mode := FirstFmtChar, f := NO_FLAGS) else m.(out := m.out + [c])
    case FirstFmtChar =>
      if c == '0' then m.(mode := OtherFmtChar, f := m.f.(zero := true))
      else if c == '%' then m.(mode := Chars, out := m.out + [c])
      else FeedOther(m.(mode := OtherFmtChar), c)
    case OtherFmtChar => FeedOther(m, c)
  }

  /** The machine after a format string. */
  function FeedAll(m: Machine, fmt: string): (m': Machine)
    requires 2 <= m.f.base <= 16
    ensures 2 <= m'.f.base <= 16
    decreases |fmt|
  {
    if fmt == [] then m else FeedAll(Feed(m, fmt[0]), fmt[1..])
  }

  lemma {:induction false} FeedConcat(m: Machine, s: string, t: string)
    requires 2 <= m.f.base <= 16
    ensures FeedAll(m, s + t) == FeedAll(FeedAll(m, s), t)
    decreases |s|
  {
    if s == [] {
      assert s + t == t;
    } else {
      assert (s + t)[1..] == s[1..] + t;
      FeedConcat(Feed(m, s[0]), s[1..], t);
    }
  }

  // ---- the format language -----------------------------------------------------------------------

  /** A precision is a point with any number of digits after it. */
  datatype Precision = NoPrecision | Point(digits: seq<nat>)

  /** What a format string is written for: text, a percent sign, or a conversion. */
  datatype Piece =
    | Plain(c: char)
    | PercentSign
    | Conversion(zero: bool, width: seq<nat>, precision: Precision, long: bool, letter: char)

  predicate Decimal(ds: seq<nat>) {
    forall i :: 0 <= i < |ds| ==> ds[i] < 10
  }

  predicate WellFormed(p: Piece) {
    match p
    case Plain(c) => c != '%'
    case PercentSign => true
    case Conversion(zero, width, precision, _, letter) =>
      && (IsInt(letter) || letter == 'c' || letter == 's')
      && Decimal(width) && (precision.Point? ==> Decimal(precision.digits))
      && (!zero && width != [] ==> width[0] != 0)
  }

  function Source(p: Piece): string
    requires WellFormed(p)
  {
    match p
    case Plain(c) => [c]
    case PercentSign => "%%"
    case Conversion(zero, _, _, _, _) => "%" + ((if zero then "0" else "") + Tail(p))
  }

  /** The width, the precision, the length and the letter of a conversion. */
  function Tail(p: Piece): string
    requires p.Conversion? && WellFormed(p)
  {
    Text(p.width, false) + (PrecisionText(p.precision) + ((if p.long then "l" else "") + [p.letter]))
  }

  function PrecisionText(precision: Precision): string
    requires precision.Point? ==> Decimal(precision.digits)
  {
    if precision.Point? then "." + Text(precision.digits, false) else ""
  }

  /** What it prints, given the arguments: a precision changes nothing. */
  function Rendered(p: Piece, args: seq<Arg>): string {
    match p
    case Plain(c) => [c]
    case PercentSign => "%"
    case Conversion(zero, width, _, long, letter) =>
      var f := NO_FLAGS.(zero := zero, long := long, before := if width == [] then -1 else Value(width, 10));
      if IsInt(letter) then FormatInt(NextNum(args), IntFlags(f, letter))
      else if letter == 'c' then Repeat(' ', f.before - 1) + [Low(NextNum(args))]
      else Repeat(' ', f.before - |NextStr(args)|) + NextStr(args)
  }

  /** The flags the machine has read when it comes to the letter. */
  function FlagsRead(p: Piece): Flags
    requires p.Conversion?
  {
    NO_FLAGS.(zero := p.zero, long := p.long,
              before := if p.width == [] then -1 else Value(p.width, 10),
              after := if p.precision.Point? then Value(p.precision.digits, 10) else -1)
  }

  function ArgsAfter(p: Piece, args: seq<Arg>): seq<Arg> {
    if p.Conversion? then Rest(args) else args
  }

  predicate AllWellFormed(ps: seq<Piece>) {
    forall i :: 0 <= i < |ps| ==> WellFormed(ps[i])
  }

  function SourceAll(ps: seq<Piece>): string
    requires AllWellFormed(ps)
  {
    if ps == [] then "" else Source(ps[0]) + SourceAll(ps[1..])
  }

  function RenderedAll(ps: seq<Piece>, args: seq<Arg>): string {
    if ps == [] then "" else Rendered(ps[0], args) + RenderedAll(ps[1..], ArgsAfter(ps[0], args))
  }

  /** The state machine reads a width digit by digit. */
  lemma {:induction false} FeedWidth(m: Machine, width: seq<nat>)
    requires m.mode == OtherFmtChar && m.f.before == -1 && m.f.after == -1 && 2 <= m.f.base <= 16
    requires forall i :: 0 <= i < |width| ==> width[i] < 10
    ensures FeedAll(m, Text(width, false)) ==
              m.(f := m.f.(before := if width == [] then -1 else Value(width, 10)))
  {
    if width != [] {
      var n := |width| - 1;
      var (first, d) := (width[..n], width[n]);
      FeedWidth(m, first);
      assert Text(width, false) == Text(first, false) + [DigitChar(d, false)];
      FeedConcat(m, Text(first, false), [DigitChar(d, false)]);
      var m' := FeedAll(m, Text(first, false));
      FeedOne(m', DigitChar(d, false));
      if first == [] { assert Value(width, 10) == d; }
    }
  }

  lemma FeedOne(m: Machine, c: char)
    requires 2 <= m.f.base <= 16
    ensures FeedAll(m, [c]) == Feed(m, c)
  {
    assert [c][1..] == [];
  }

  /** And the digits of a precision, after its point. */
  lemma {:induction false} FeedDigits(m: Machine, ds: seq<nat>)
    requires m.mode == OtherFmtChar && m.f.after == 0 && 2 <= m.f.base <= 16 && Decimal(ds)
    ensures FeedAll(m, Text(ds, false)) == m.(f := m.f.(after := Value(ds, 10)))
  {
    if ds != [] {
      var n := |ds| - 1;
      var (first, d) := (ds[..n], ds[n]);
      FeedDigits(m, first);
      assert Text(ds, false) == Text(first, false) + [DigitChar(d, false)];
      FeedConcat(m, Text(first, false), [DigitChar(d, false)]);
      FeedOne(FeedAll(m, Text(first, false)), DigitChar(d, false));
    }
  }

  lemma FeedPrecision(m: Machine, precision: Precision)
    requires m.mode == OtherFmtChar && m.f.after == -1 && 2 <= m.f.base <= 16
    requires precision.Point? ==> Decimal(precision.digits)
    ensures FeedAll(m, PrecisionText(precision)) ==
              m.(f := m.f.(after := if precision.Point? then Value(precision.digits, 10) else -1))
  {
    if precision.Point? {
      FeedConcat(m, ".", Text(precision.digits, false));
      FeedOne(m, '.');
      FeedDigits(m.(f := m.f.(after := 0)), precision.digits);
    }
  }

  /** A conversion, after its percent sign and zero flag. */
  lemma FeedTail(m: Machine, p: Piece)
    requires p.Conversion? && WellFormed(p) && m.mode == OtherFmtChar && m.f == NO_FLAGS.(zero := p.zero)
    ensures FeedAll(m, Tail(p)) == Convert(m.(f := FlagsRead(p)), p.letter)
  {
    var last := (if p.long then "l" else "") + [p.letter];
    FeedConcat(m, Text(p.width, false), PrecisionText(p.precision) + last);
    FeedWidth(m, p.width);
    var m1 := FeedAll(m, Text(p.width, false));
    FeedConcat(m1, PrecisionText(p.precision), last);
    FeedPrecision(m1, p.precision);
    FeedLast(FeedAll(m1, PrecisionText(p.precision)), p.long, p.letter);
  }

  /** The length and the letter. */
  lemma FeedLast(m: Machine, long: bool, letter: char)
    requires m.mode == OtherFmtChar && !m.f.long && 2 <= m.f.base <= 16
    requires IsInt(letter) || letter == 'c' || letter == 's'
    ensures FeedAll(m, (if long then "l" else "") + [letter]) == Convert(m.(f := m.f.(long := long)), letter)
  {
    if long {
      FeedConcat(m, "l", [letter]);
      FeedOne(m, 'l');
      FeedLetter(m.(f := m.f.(long := true)), letter);
    } else {
      assert "" + [letter] == [letter];
      FeedLetter(m, letter);
    }
  }

  lemma FeedLetter(m: Machine, letter: char)
    requires m.mode == OtherFmtChar && 2 <= m.f.base <= 16
    requires IsInt(letter) || letter == 'c' || letter == 's'
    ensures FeedAll(m, [letter]) == Convert(m, letter)
  {
    FeedOne(m, letter);
  }

  /** The first character after the percent sign, unless it is a zero or another percent sign. */
  lemma FirstIsOther(m: Machine, s: string)
    requires m.mode == FirstFmtChar && 2 <= m.f.base <= 16 && s != [] && s[0] != '0' && s[0] != '%'
    ensures FeedAll(m, s) == FeedAll(m.(mode := OtherFmtChar), s)
  {
  }

  lemma FeedConversion(m: Machine, p: Piece)
    requires m.mode == Chars && 2 <= m.f.base <= 16 && p.Conversion? && WellFormed(p)
    ensures FeedAll(m, Source(p)) == Convert(Machine(OtherFmtChar, FlagsRead(p), m.args, m.out), p.letter)
  {
    TailStarts(p);
    FeedConcat(m, "%", (if p.zero then "0" else "") + Tail(p));
    FeedOne(m, '%');
    FeedZero(m.(mode := FirstFmtChar, f := NO_FLAGS), p.zero, Tail(p));
    FeedTail(Machine(OtherFmtChar, NO_FLAGS.(zero := p.zero), m.args, m.out), p);
  }

  /** Without a zero flag, the tail cannot be mistaken for one, nor for a second percent sign. */
  lemma TailStarts(p: Piece)
    requires p.Conversion? && WellFormed(p)
    ensures Tail(p) != [] && (p.zero || (Tail(p)[0] != '0' && Tail(p)[0] != '%'))
  {
    var tail := Tail(p);
    if p.width != [] { assert tail[0] == DigitChar(p.width[0], false); }
    else if p.precision.Point? { assert tail[0] == '.'; }
    else if p.long { assert tail[0] == 'l'; }
    else { assert tail[0] == p.letter; }
  }

  /** The zero flag, if there is one. */
  lemma FeedZero(m: Machine, zero: bool, tail: string)
    requires m.mode == FirstFmtChar && 2 <= m.f.base <= 16 && !m.f.zero
    requires tail != [] && (zero || (tail[0] != '0' && tail[0] != '%'))
    ensures FeedAll(m, (if zero then "0" else "") + tail) ==
              FeedAll(m.(mode := OtherFmtChar, f := m.f.(zero := zero)), tail)
  {
    if zero {
      FeedConcat(m, "0", tail);
      FeedOne(m, '0');
    } else {
      assert "" + tail == tail;
      FirstIsOther(m, tail);
    }
  }

  /** A precision changes nothing. */
  lemma PrecisionIsIgnored(v: nat, f: Flags, after: int)
    requires v < WRAP && 2 <= f.base <= 16
    ensures FormatInt(v, f.(after := after)) == FormatInt(v, f)
  {
  }

  lemma ConvertRenders(m: Machine, p: Piece)
    requires WellFormed(p) && p.Conversion? && m.f == FlagsRead(p)
    ensures var m' := Convert(m, p.letter);
            m'.mode == Chars && m'.args == Rest(m.args) && m'.out == m.out + Rendered(p, m.args)
  {
    if IsInt(p.letter) {
      var f := IntFlags(m.f.(after := -1), p.letter);
      assert IntFlags(m.f, p.letter) == f.(after := m.f.after);
      PrecisionIsIgnored(NextNum(m.args), f, m.f.after);
    } else if p.letter == 'c' {
      Regroup(m.out, Repeat(' ', m.f.before - 1), [Low(NextNum(m.args))]);
    } else {
      Regroup(m.out, Repeat(' ', m.f.before - |NextStr(m.args)|), NextStr(m.args));
    }
  }

  lemma FeedPiece(m: Machine, p: Piece)
    requires m.mode == Chars && 2 <= m.f.base <= 16 && WellFormed(p)
    ensures var m' := FeedAll(m, Source(p));
            m'.mode == Chars && m'.args == ArgsAfter(p, m.args) && m'.out == m.out + Rendered(p, m.args)
  {
    match p
    case Plain(c) => FeedOne(m, c);
    case PercentSign =>
      FeedConcat(m, "%", "%");
      FeedOne(m, '%');
      FeedOne(Feed(m, '%'), '%');
      assert "%" + "%" == "%%";
    case Conversion(_, _, _, _, _) =>
      FeedConversion(m, p);
      ConvertRenders(Machine(OtherFmtChar, FlagsRead(p), m.args, m.out), p);
  }

  /**
   Every well-formed format string is understood as it was written: the output is what its pieces say, one
   after the other, each with its own arguments.
   */
  lemma {:induction false} FormatIsUnderstood(m: Machine, ps: seq<Piece>)
    requires m.mode == Chars && 2 <= m.f.base <= 16 && AllWellFormed(ps)
    ensures var m' := FeedAll(m, SourceAll(ps));
            m'.mode == Chars && m'.out == m.out + RenderedAll(ps, m.args)
    decreases |ps|
  {
    if ps == [] {
      assert m.out + "" == m.out;
    } else {
      var (p, rest) := (ps[0], ps[1..]);
      FeedPiece(m, p);
      FeedConcat(m, Source(p), SourceAll(rest));
      FormatIsUnderstood(FeedAll(m, Source(p)), rest);
      Regroup(m.out, Rendered(p, m.args), RenderedAll(rest, ArgsAfter(p, m.args)));
    }
  }

  lemma Regroup(a: string, b: string, c: string)
    ensures (a + b) + c == a + (b + c)
  {
  }

  // ---- the small formatter -----------------------------------------------------------------------

  /** The hexadecimal text of a word, as %x prints it without a width. */
  function HexText(v: nat): string {
    Text(Digits(v, 16), false)
  }

  /** What alt_printf prints. */
  function AltPrinted(fmt: string, args: seq<Arg>): string {
    if fmt == [] then ""
    else if fmt[0] != '%' then [fmt[0]] + AltPrinted(fmt[1..], args)
    else if |fmt| == 1 then ""
    else
      var (c, rest) := (fmt[1], fmt[2..]);
      if c == '%' then "%" + AltPrinted(rest, args)
      else if c == 'c' then [Low(NextNum(args))] + AltPrinted(rest, Rest(args))
      else if c == 'x' then HexText(NextNum(args)) + AltPrinted(rest, Rest(args))
      else if c == 's' then NextStr(args) + AltPrinted(rest, Rest(args))
      else AltPrinted(rest, args)
  }

  /** The pieces alt_printf documents: text, %%, and %x, %c, %s without flags. */
  predicate Simple(p: Piece) {
    p.Conversion? ==>
      && !p.zero && p.width == [] && p.precision.NoPrecision? && !p.long
      && (p.letter == 'x' || p.letter == 'c' || p.letter == 's')
  }

  /** A word without width or flags prints as its digits. */
  lemma BareHex(v: nat)
    requires v < WRAP
    ensures FormatInt(v, IntFlags(NO_FLAGS.(before := -1), 'x')) == HexText(v)
  {
    var ds := Digits(v, 16);
    assert "" + ("" + Text(ds, false)) == Text(ds, false);
    assert Repeat(' ', -1 - |ds|) + Text(ds, false) == Text(ds, false);
  }

  lemma SimplePiece(p: Piece, args: seq<Arg>, rest: string)
    requires WellFormed(p) && Simple(p)
    ensures AltPrinted(Source(p) + rest, args) == Rendered(p, args) + AltPrinted(rest, ArgsAfter(p, args))
  {
    var s := Source(p) + rest;
    match p
    case Plain(c) => assert s[0] == c && s[1..] == rest;
    case PercentSign => assert s[0] == '%' && s[1] == '%' && s[2..] == rest;
    case Conversion(_, _, _, _, letter) =>
      assert Tail(p) == [letter];
      assert Source(p) == ['%', letter];
      assert s[0] == '%' && s[1] == letter && s[2..] == rest;
      if letter == 'x' {
        BareHex(NextNum(args));
      } else if letter == 'c' {
        assert Repeat(' ', -2) + [Low(NextNum(args))] == [Low(NextNum(args))];
      } else {
        assert Repeat(' ', -1 - |NextStr(args)|) + NextStr(args) == NextStr(args);
      }
  }

  /** On the formats both support, the two formatters print the same. */
  lemma {:induction false} FormattersAgree(ps: seq<Piece>, args: seq<Arg>)
    requires AllWellFormed(ps) && forall i :: 0 <= i < |ps| ==> Simple(ps[i])
    ensures AltPrinted(SourceAll(ps), args) == FeedAll(Machine(Chars, NO_FLAGS, args, ""), SourceAll(ps)).out
  {
    AltIsUnderstood(ps, args);
    FormatIsUnderstood(Machine(Chars, NO_FLAGS, args, ""), ps);
    assert "" + RenderedAll(ps, args) == RenderedAll(ps, args);
  }

  lemma {:induction false} AltIsUnderstood(ps: seq<Piece>, args: seq<Arg>)
    requires AllWellFormed(ps) && forall i :: 0 <= i < |ps| ==> Simple(ps[i])
    ensures AltPrinted(SourceAll(ps), args) == RenderedAll(ps, args)
  {
    if ps != [] {
      SimplePiece(ps[0], args, SourceAll(ps[1..]));
      AltIsUnderstood(ps[1..], ArgsAfter(ps[0], args));
    }
  }
}
