/** What each conversion letter of the log formatter prints, in so many characters. */
module FormatLetters {
  import opened Platform
  import opened Positional
  import opened Formats

  function Blanks(n: int): string {
    seq(if n > 0 then n else 0, _ => ' ')
  }

  function Zeros(n: int): string {
    seq(if n > 0 then n else 0, _ => '0')
  }

  /** Sign and digits in a field: zeros go between them, blanks before them. */
  function Field(sign: string, digits: string, zero: bool, width: int): string {
    var pad := width - |sign| - |digits|;
    if zero then sign + Zeros(pad) + digits else Blanks(pad) + sign + digits
  }

  /** The base that a letter prints in. */
  function BaseOf(letter: char): nat {
    if letter == 'o' then 8 else if letter == 'x' || letter == 'X' then 16 else 10
  }

  /** %d and %i take the word as signed. */
  predicate IsMinus(letter: char, v: nat) {
    (letter == 'd' || letter == 'i') && v >= 0x8000_0000
  }

  function Meant(letter: char, v: nat): int
    requires v < 0x1_0000_0000
  {
    if IsMinus(letter, v) then v - 0x1_0000_0000 else v
  }

  function Unsigned(letter: char, v: nat): nat
    requires v < 0x1_0000_0000
  {
    if IsMinus(letter, v) then 0x1_0000_0000 - v else v
  }

  /** Digits as characters: %X prints capitals. */
  function Characters(ds: seq<nat>, letter: char): string
    requires forall i :: 0 <= i < |ds| ==> ds[i] < 16
  {
    var alphabet := if letter == 'X' then "0123456789ABCDEF" else "0123456789abcdef";
    seq(|ds|, i requires 0 <= i < |ds| => alphabet[ds[i]])
  }

  function WidthOf(p: Piece): int
    requires p.Conversion?
  {
    if p.width == [] then -1 else Value(p.width, 10)
  }

  /** What an integer conversion prints for the word `v`. */
  function IntText(p: Piece, v: nat): string
    requires p.Conversion? && v < 0x1_0000_0000
  {
    var digits := Characters(Digits(Unsigned(p.letter, v), BaseOf(p.letter)), p.letter);
    Field(if IsMinus(p.letter, v) then "-" else "", digits, p.zero, WidthOf(p))
  }

  predicate IsIntPiece(p: Piece) {
    && p.Conversion? && WellFormed(p)
    && (p.letter == 'd' || p.letter == 'i' || p.letter == 'u' || p.letter == 'o' || p.letter == 'x' || p.letter == 'X')
  }

  lemma CharactersAreText(ds: seq<nat>, letter: char)
    requires forall i :: 0 <= i < |ds| ==> ds[i] < 16
    ensures Characters(ds, letter) == Text(ds, letter == 'X')
  {
    forall i | 0 <= i < |ds| ensures Characters(ds, letter)[i] == DigitChar(ds[i], letter == 'X') {
      CharacterIs(ds[i]);
    }
  }

  lemma CharacterIs(d: nat)
    requires d < 16
    ensures "0123456789ABCDEF"[d] == DigitChar(d, true) && "0123456789abcdef"[d] == DigitChar(d, false)
  {
  }

  lemma PadIsRepeat(n: int)
    ensures Repeat(' ', n) == Blanks(n) && Repeat('0', n) == Zeros(n)
  {
  }

  /** The flags that the letter leaves the machine with. */
  lemma LetterFlags(p: Piece)
    requires IsIntPiece(p)
    ensures var f := IntFlags(FlagsRead(p), p.letter);
            && f.base == BaseOf(p.letter) && f.signed == (p.letter == 'd' || p.letter == 'i')
            && f.upper == (p.letter == 'X') && f.zero == p.zero && f.before == WidthOf(p)
  {
  }

  lemma FormatIsField(v: nat, f: Flags, letter: char)
    requires v < WRAP && f.base == BaseOf(letter) && f.upper == (letter == 'X')
    requires f.signed == (letter == 'd' || letter == 'i')
    ensures FormatInt(v, f) ==
              Field(if IsMinus(letter, v) then "-" else "",
                    Characters(Digits(Unsigned(letter, v), BaseOf(letter)), letter), f.zero, f.before)
  {
    var (sign, ds) := (Sign(Negative(v, f.signed)), Digits(Unsigned(letter, v), BaseOf(letter)));
    CharactersAreText(ds, letter);
    PadIsRepeat(Padding(v, f));
    assert IntDigits(v, f) == ds;
    if f.zero {
      Regroup(sign, Zeros(Padding(v, f)), Text(ds, f.upper));
    } else {
      assert Repeat('0', 0) + Text(ds, f.upper) == Text(ds, f.upper);
      Regroup(Blanks(Padding(v, f)), sign, Text(ds, f.upper));
    }
  }

  /** It is the integer conversion with the flags of the letter. */
  lemma IntTextIs(p: Piece, v: nat)
    requires IsIntPiece(p) && v < 0x1_0000_0000
    ensures IntText(p, v) == FormatInt(v, IntFlags(FlagsRead(p), p.letter))
  {
    LetterFlags(p);
    FormatIsField(v, IntFlags(FlagsRead(p), p.letter), p.letter);
  }

  /** What %d, %i, %u, %o, %x and %X print reads back, in the letter's base, as what the word means to the letter. */
  lemma LettersReadBack(p: Piece, v: nat)
    requires IsIntPiece(p) && v < 0x1_0000_0000
    ensures ParseInt(IntText(p, v), BaseOf(p.letter)) == Meant(p.letter, v)
  {
    IntTextIs(p, v);
    LetterFlags(p);
    Invertible(v, IntFlags(FlagsRead(p), p.letter));
  }

  /** The next argument is printed so, and used up. */
  lemma IntegerLetters(p: Piece, v: nat, args: seq<Arg>, f: Flags, out: string)
    requires IsIntPiece(p) && v < 0x1_0000_0000 && 2 <= f.base <= 16
    ensures var m := FeedAll(Machine(Chars, f, [Num(v)] + args, out), Source(p));
            m.mode == Chars && m.args == args && m.out == out + IntText(p, v) && 2 <= m.f.base <= 16
  {
    FeedConversion(Machine(Chars, f, [Num(v)] + args, out), p);
    IntTextIs(p, v);
    NextIs(v, args);
  }

  /** So a whole format, as `Formats.FormatIsUnderstood` has it, is made of these texts. */
  lemma RenderedIs(p: Piece, v: nat, args: seq<Arg>)
    requires IsIntPiece(p) && v < 0x1_0000_0000
    ensures Rendered(p, [Num(v)] + args) == IntText(p, v) && ArgsAfter(p, [Num(v)] + args) == args
  {
    NextIs(v, args);
    var f := NO_FLAGS.(zero := p.zero, long := p.long, before := WidthOf(p));
    FormatIsField(v, IntFlags(f, p.letter), p.letter);
  }

  lemma NextIs(v: nat, args: seq<Arg>)
    requires v < 0x1_0000_0000
    ensures NextNum([Num(v)] + args) == v && Rest([Num(v)] + args) == args
  {
    assert ([Num(v)] + args)[1..] == args;
  }

  /** The second conversion of a format prints the second argument. */
  lemma TwoConversions(p: Piece, q: Piece, v: nat, u: nat, args: seq<Arg>, f: Flags, out: string)
    requires IsIntPiece(p) && IsIntPiece(q) && v < 0x1_0000_0000 && u < 0x1_0000_0000 && 2 <= f.base <= 16
    ensures FeedAll(Machine(Chars, f, [Num(v), Num(u)] + args, out), Source(p) + Source(q)).out
              == (out + IntText(p, v)) + IntText(q, u)
  {
    var m := Machine(Chars, f, [Num(v), Num(u)] + args, out);
    assert [Num(v), Num(u)] + args == [Num(v)] + ([Num(u)] + args);
    FeedConcat(m, Source(p), Source(q));
    IntegerLetters(p, v, [Num(u)] + args, f, out);
    var m' := FeedAll(m, Source(p));
    IntegerLetters(q, u, args, m'.f, m'.out);
  }

  /** %c prints the low byte of its argument, %s its string, each after blanks up to the width. */
  lemma OtherLetters(p: Piece, v: nat, s: string, args: seq<Arg>, f: Flags, out: string)
    requires p.Conversion? && WellFormed(p) && v < 0x1_0000_0000 && 2 <= f.base <= 16
    ensures p.letter == 'c' ==>
              var m := FeedAll(Machine(Chars, f, [Num(v)] + args, out), Source(p));
              m.mode == Chars && m.args == args && m.out == out + Blanks(WidthOf(p) - 1) + [(v % 256) as char]
    ensures p.letter == 's' ==>
              var m := FeedAll(Machine(Chars, f, [Str(s)] + args, out), Source(p));
              m.mode == Chars && m.args == args && m.out == out + Blanks(WidthOf(p) - |s|) + s
  {
    PadIsRepeat(WidthOf(p) - 1);
    PadIsRepeat(WidthOf(p) - |s|);
    FeedConversion(Machine(Chars, f, [Num(v)] + args, out), p);
    FeedConversion(Machine(Chars, f, [Str(s)] + args, out), p);
    assert ([Num(v)] + args)[1..] == args && ([Str(s)] + args)[1..] == args;
  }

  /** An unknown letter prints nothing and uses no argument, in either formatter; nor does a percent sign at the end. */
  lemma NoLetter(c: char, args: seq<Arg>, f: Flags, out: string, rest: string)
    requires 2 <= f.base <= 16
    ensures c !in "diuoxXcs%.l0123456789" ==>
              var m := FeedAll(Machine(Chars, f, args, out), ['%', c]);
              m.mode == Chars && m.args == args && m.out == out
    ensures c !in "xcs%" ==> AltPrinted(['%', c] + rest, args) == AltPrinted(rest, args)
    ensures FeedAll(Machine(Chars, f, args, out), "%").out == out && AltPrinted("%", args) == ""
  {
    var m := Machine(Chars, f, args, out);
    FeedOne(m, '%');
    assert ['%'] + [c] == ['%', c];
    FeedConcat(m, ['%'], [c]);
    FeedOne(Feed(m, '%'), c);
    assert (['%', c] + rest)[2..] == rest;
  }
}
