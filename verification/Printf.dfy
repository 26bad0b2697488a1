/** The code of the two formatters, printing one character at a time. */
module Printf {
  import opened Platform
  import opened Arithmetic
  import opened Positional
  import opened Formats

  class Console {
    var out: string                       // what has been printed

    constructor ()
      ensures out == ""
    {
      out := "";
    }

    /** alt_log_txchar, alt_putchar. */
    method TxChar(c: char)
      modifies this
      ensures out == old(out) + [c]
    {
      out := out + [c];
    }

    /** alt_log_repchar. */
    method RepChar(c: char, r: int)
      modifies this
      ensures out == old(out) + Repeat(c, r)
    {
      var left := r;
      while left > 0
        invariant r > 0 ==> 0 <= left <= r
        invariant out == old(out) + Repeat(c, r - if left > 0 then left else if r > 0 then 0 else r)
      {
        left := left - 1;
        TxChar(c);
      }
    }

    method Puts(s: string)
      modifies this
      ensures out == old(out) + s
    {
      var i := 0;
      while i < |s|
        invariant i <= |s| && out == old(out) + s[..i]
      {
        TxChar(s[i]);
        i := i + 1;
      }
    }

    /** `digitCount - 1` digits have been counted off `v`, leaving `vShrink`. */
    ghost predicate Counted(v: nat, base: nat, vShrink: nat, p: nat, digitCount: nat)
      requires 2 <= base
    {
      && digitCount >= 1
      && |Digits(v, base)| == digitCount - 1 + |Digits(vShrink, base)|
      && p == Power(base, digitCount - 1) && p > 0
      && vShrink * p <= v
    }

    lemma CountOne(v: nat, base: nat, vShrink: nat, p: nat, digitCount: nat)
      requires 2 <= base && v < WRAP && vShrink / base > 0 && Counted(v, base, vShrink, p, digitCount)
      ensures 0 <= vShrink / base < vShrink
      ensures 0 <= (p * base) % WRAP
      ensures Counted(v, base, vShrink / base, (p * base) % WRAP, digitCount + 1)
    {
      DivSmallerOrZero(vShrink, base);
      DivSmaller(vShrink, base);
      PlaceFits(vShrink, base, p, v);
      MulLow(base, p);
      assert Power(base, digitCount) == base * Power(base, digitCount - 1);
    }

    /**
     Count digits, and get the largest place value.  The place value stays a 32-bit number: it never
     exceeds the number itself.
     */
    method LargestPlace(v: nat, base: nat) returns (p: nat, digitCount: nat)
      requires v < WRAP && 2 <= base <= 16
      ensures digitCount == |Digits(v, base)| && p == Power(base, digitCount - 1)
      ensures 0 < p < WRAP && (v > 0 ==> p <= v)
    {
      var vShrink: nat := v;
      p, digitCount := 1, 1;
      while vShrink / base > 0
        invariant Counted(v, base, vShrink, p, digitCount)
        decreases vShrink
      {
        CountOne(v, base, vShrink, p, digitCount);
        vShrink := vShrink / base;
        digitCount := digitCount + 1;
        p := (p * base) % WRAP;
      }
      BelowBase(vShrink, base);
      if v > 0 { LeadingPlace(v, base); }
    }

    /** `v` and the place value `p` are those before the k-th digit of `m` is printed. */
    ghost predicate AtDigit(m: nat, base: nat, k: nat, v: nat, p: nat)
      requires 2 <= base
    {
      var ds := Digits(m, base);
      if k < |ds| then p == Power(base, |ds| - 1 - k) && p > 0 && v / p == ds[k] && v % p == m % p
      else k == |ds| && p == 0
    }

    lemma FirstDigit(m: nat, base: nat)
      requires 2 <= base
      ensures AtDigit(m, base, 0, m, Power(base, |Digits(m, base)| - 1))
    {
      PowerPositive(base, |Digits(m, base)| - 1);
      LeadingDigit(m, base);
    }

    lemma NextDigit(m: nat, base: nat, k: nat, v: nat, p: nat)
      requires 2 <= base && p > 0 && AtDigit(m, base, k, v, p)
      ensures k < |Digits(m, base)| && v / p == Digits(m, base)[k]
      ensures 0 <= v % p && 0 <= p / base && AtDigit(m, base, k + 1, v % p, p / base)
    {
      NextPlace(m, base, k, v, p);
    }

    lemma OneMoreChar(ds: seq<nat>, k: nat, upper: bool)
      requires k < |ds| && forall i :: 0 <= i < |ds| ==> ds[i] < 16
      ensures Text(ds[..k + 1], upper) == Text(ds[..k], upper) + [DigitChar(ds[k], upper)]
    {
    }

    /** Print numbery parts. */
    method PutDigits(m: nat, base: nat, place: nat, upper: bool)
      requires m < WRAP && 2 <= base <= 16 && place == Power(base, |Digits(m, base)| - 1)
      modifies this
      ensures out == old(out) + Text(Digits(m, base), upper)
    {
      ghost var ds := Digits(m, base);
      ghost var k := 0;
      var v: nat, p: nat := m, place;
      FirstDigit(m, base);
      while p != 0
        invariant k <= |ds| && AtDigit(m, base, k, v, p)
        invariant out == old(out) + Text(ds[..k], upper)
        decreases |ds| - k
      {
        var d := v / p;
        NextDigit(m, base, k, v, p);
        OneMoreChar(ds, k, upper);
        TxChar(DigitChar(d, upper));
        v := v % p;
        p := p / base;
        k := k + 1;
      }
      assert ds[..k] == ds;
    }

    /** Print leading characters & sign. */
    method PutPrefix(zero: bool, sign: bool, width: int)
      modifies this
      ensures var pad := width - if sign then 1 else 0;
              out == old(out) + if zero then Sign(sign) + Repeat('0', pad) else Repeat(' ', pad) + Sign(sign)
    {
      var before := width;
      if zero {
        if sign {
          TxChar('-');
          before := before - 1;
        }
        RepChar('0', before);
      } else {
        if sign {
          before := before - 1;
        }
        RepChar(' ', before);
        if sign {
          TxChar('-');
        }
      }
    }

    /** doIntegerPrint. */
    method PrintInteger(arg: nat, f: Flags)
      requires arg < WRAP && 2 <= f.base <= 16
      modifies this
      ensures out == old(out) + FormatInt(arg, f)
    {
      var v, sign := StripSign(arg, f.signed);
      var p, digitCount := LargestPlace(v, f.base);
      PutPrefix(f.zero, sign, f.before - digitCount);
      PutDigits(v, f.base, p, f.upper);
      FormatParts(old(out), arg, f);
    }

    /** Strip sign. */
    method StripSign(arg: nat, signed: bool) returns (v: nat, sign: bool)
      requires arg < WRAP
      ensures v == Magnitude(arg, signed) && sign == Negative(arg, signed)
    {
      v, sign := arg, false;
      if signed && v >= WRAP / 2 {
        v := (WRAP - 1 - v) + 1;                        // ~v + 1
        sign := true;
      }
    }

    lemma FormatParts(o: string, v: nat, f: Flags)
      requires v < WRAP && 2 <= f.base <= 16
      ensures var (sign, text) := (Sign(Negative(v, f.signed)), Text(IntDigits(v, f), f.upper));
              var prefix := if f.zero then sign + Repeat('0', Padding(v, f)) else Repeat(' ', Padding(v, f)) + sign;
              (o + prefix) + text == o + FormatInt(v, f)
    {
      var (sign, text) := (Sign(Negative(v, f.signed)), Text(IntDigits(v, f), f.upper));
      if f.zero {
        Four(o, sign, Repeat('0', Padding(v, f)), text);
      } else {
        Four(o, Repeat(' ', Padding(v, f)), sign, text);
        assert Repeat('0', 0) + text == text;
      }
    }

    lemma Four(a: string, b: string, c: string, d: string)
      ensures (a + (b + c)) + d == a + (b + (c + d))
    {
      Regroup(a, b + c, d);
      Regroup(b, c, d);
    }

    // ---- the format strings --------------------------------------------------------------------

    /** The conversion letter of alt_log_private_printf; the argument used up, if any. */
    method Conversion(f: Flags, c: char, args: seq<Arg>) returns (rest: seq<Arg>)
      requires 2 <= f.base <= 16
      modifies this
      ensures var m := Formats.Convert(Machine(OtherFmtChar, f, args, old(out)), c);
              out == m.out && rest == m.args
    {
      rest := args;
      if IsInt(c) {
        PrintInteger(NextNum(args), IntFlags(f, c));
        rest := Rest(args);
      } else if c == 'c' {
        RepChar(' ', f.before - 1);
        TxChar(Low(NextNum(args)));
        rest := Rest(args);
      } else if c == 's' {
        var s := NextStr(args);
        RepChar(' ', f.before - |s|);
        Puts(s);
        rest := Rest(args);
      }
    }

    /** alt_log_private_printf: one pass over the format with a state variable. */
    method LogPrintf(fmt: string, arguments: seq<Arg>)
      modifies this
      ensures out == FeedAll(Machine(Chars, NO_FLAGS, arguments, old(out)), fmt).out
    {
      ghost var start := Machine(Chars, NO_FLAGS, arguments, out);
      var state, f, args := Chars, NO_FLAGS, arguments;
      var w := 0;
      while w < |fmt|
        invariant w <= |fmt| && 2 <= f.base <= 16
        invariant FeedAll(start, fmt) == FeedAll(Machine(state, f, args, out), fmt[w..])
      {
        ghost var before := Machine(state, f, args, out);
        var c := fmt[w];
        w := w + 1;
        state, f, args := Next(state, f, args, c);
        assert fmt[w - 1..][1..] == fmt[w..];
      }
    }

    /** The body of the loop. */
    method Next(state: Mode, f: Flags, args: seq<Arg>, c: char)
      returns (state': Mode, f': Flags, args': seq<Arg>)
      requires 2 <= f.base <= 16
      modifies this
      ensures Machine(state', f', args', out) == Feed(Machine(state, f, args, old(out)), c)
    {
      state', f', args' := state, f, args;
      if state == Chars {
        if c == '%' {
          f' := NO_FLAGS;
          state' := FirstFmtChar;
        } else {
          TxChar(c);
        }
      } else if state == FirstFmtChar && c == '0' {
        f' := f.(zero := true);
        state' := OtherFmtChar;
      } else if state == FirstFmtChar && c == '%' {
        TxChar(c);
        state' := Chars;
      } else {
        state' := OtherFmtChar;
        if c == '.' {
          f' := f.(after := 0);
        } else if '0' <= c <= '9' {
          var d := (c - '0') as nat;
          if f.after < 0 {
            f' := f.(before := (if f.before < 0 then 0 else f.before * 10) + d);
          } else {
            f' := f.(after := f.after * 10 + d);
          }
        } else if c == 'l' {
          f' := f.(long := true);
        } else {
          args' := Conversion(f, c, args);
          f' := if IsInt(c) then IntFlags(f, c) else f;
          state' := Chars;
        }
      }
    }

    // ---- alt_printf ----------------------------------------------------------------------------

    /** The nibble of `v` at a shift that is a multiple of four. */
    function Nibble(v: nat, shift: nat): (d: nat)
      requires shift % 4 == 0
      ensures d < 16
    {
      PowerPositive(16, shift / 4);
      v / Power(16, shift / 4) % 16
    }

    /** Find first non-zero digit. */
    method FirstShift(v: nat) returns (digitShift: nat)
      requires 0 < v < WRAP
      ensures digitShift == 4 * (|Digits(v, 16)| - 1)
    {
      ghost var n := |Digits(v, 16)|;
      EightNibbles(v);
      DigitAt(v, 16, n - 1);
      digitShift := 28;
      while Nibble(v, digitShift) == 0
        invariant 4 * (n - 1) <= digitShift <= 28 && digitShift % 4 == 0
        decreases digitShift
      {
        NotTheFirst(v, digitShift);
        digitShift := digitShift - 4;
      }
      if digitShift > 4 * (n - 1) { HighNibble(v, digitShift); }
    }

    lemma NotTheFirst(v: nat, shift: nat)
      requires v > 0 && shift % 4 == 0 && shift >= 4 * (|Digits(v, 16)| - 1) && Nibble(v, shift) == 0
      ensures shift >= 4 * |Digits(v, 16)|
    {
      if shift / 4 == |Digits(v, 16)| - 1 { DigitAt(v, 16, shift / 4); }
    }

    /** The hexadecimal conversion: the nibbles from the first non-zero one on. */
    method PrintHex(v: nat)
      requires v < WRAP
      modifies this
      ensures out == old(out) + HexText(v)
    {
      if v == 0 {
        TxChar('0');
        return;
      }
      ghost var ds := Digits(v, 16);
      ghost var k := 0;
      var digitShift: int := FirstShift(v);
      while digitShift >= 0
        invariant 0 <= k <= |ds| && digitShift == 4 * (|ds| - 1 - k)
        invariant out == old(out) + Text(ds[..k], false)
        decreases |ds| - k
      {
        var digit := NibbleAt(v, digitShift, k);
        TxChar(if digit <= 9 then '0' + digit as char else 'a' + (digit - 10) as char);
        OneMoreChar(ds, k, false);
        digitShift, k := digitShift - 4, k + 1;
      }
      assert ds[..k] == ds;
    }

    method NibbleAt(v: nat, shift: nat, ghost k: nat) returns (digit: nat)
      requires k < |Digits(v, 16)| && shift == 4 * (|Digits(v, 16)| - 1 - k)
      ensures digit == Digits(v, 16)[k]
    {
      DigitAt(v, 16, |Digits(v, 16)| - 1 - k);
      digit := Nibble(v, shift);
    }

    /** A 32-bit word has at most eight hexadecimal digits. */
    lemma EightNibbles(v: nat)
      requires 0 < v < WRAP
      ensures |Digits(v, 16)| <= 8
    {
      var n := |Digits(v, 16)|;
      LeadingPlace(v, 16);
      if n > 8 { PowerMonotone(16, 8, n - 1); PowerOf8(); }
    }

    lemma PowerOf8()
      ensures Power(16, 8) == WRAP
    {
      assert Power(16, 2) == 256;
      assert Power(16, 4) == 16 * (16 * Power(16, 2));
      assert Power(16, 6) == 16 * (16 * Power(16, 4));
      assert Power(16, 8) == 16 * (16 * Power(16, 6));
    }

    lemma {:induction false} PowerMonotone(base: nat, m: nat, n: nat)
      requires base >= 1 && m <= n
      ensures Power(base, m) <= Power(base, n)
      decreases n
    {
      if m < n {
        PowerMonotone(base, m, n - 1);
        PowerPositive(base, n - 1);
        MulLow(base, Power(base, n - 1));
      }
    }

    /** Above its digits a number's nibbles are zero. */
    lemma HighNibble(v: nat, shift: nat)
      requires v > 0 && shift % 4 == 0 && shift / 4 >= |Digits(v, 16)|
      ensures Nibble(v, shift) == 0
    {
      LeadingPlace(v, 16);
      PowerMonotone(16, |Digits(v, 16)|, shift / 4);
      PowerPositive(16, shift / 4);
      ModOf(v, 0, v, Power(16, shift / 4));
    }

    /** alt_printf. */
    method AltPrintf(fmt: string, arguments: seq<Arg>)
      modifies this
      ensures out == old(out) + AltPrinted(fmt, arguments)
    {
      var w, args := 0, arguments;
      while w < |fmt|
        invariant w <= |fmt|
        invariant old(out) + AltPrinted(fmt, arguments) == out + AltPrinted(fmt[w..], args)
      {
        ghost var (o, rest) := (out, fmt[w..]);
        var c := fmt[w];
        w := w + 1;
        if c != '%' {
          TxChar(c);
          assert rest[1..] == fmt[w..];
          Regroup(o, [c], AltPrinted(fmt[w..], args));
        } else {
          if w == |fmt| {
            assert AltPrinted(rest, args) == "";
            break;
          }
          c := fmt[w];
          w := w + 1;
          assert rest[1] == c && rest[2..] == fmt[w..];
          ghost var args0 := args;
          args := AltConversion(c, args);
          AltStep(o, out, c, rest, args0, args);
        }
      }
      assert fmt[|fmt|..] == "" && out + "" == out;
    }

    /** The character after a percent sign. */
    method AltConversion(c: char, args: seq<Arg>) returns (rest: seq<Arg>)
      modifies this
      ensures rest == if c == 'c' || c == 'x' || c == 's' then Rest(args) else args
      ensures out == old(out) + if c == '%' then "%" else if c == 'c' then [Low(NextNum(args))]
                                else if c == 'x' then HexText(NextNum(args))
                                else if c == 's' then NextStr(args) else ""
    {
      rest := args;
      if c == '%' {
        TxChar(c);
      } else if c == 'c' {
        TxChar(Low(NextNum(args)));
        rest := Rest(args);
      } else if c == 'x' {
        PrintHex(NextNum(args));
        rest := Rest(args);
      } else if c == 's' {
        Puts(NextStr(args));
        rest := Rest(args);
      } else {
        assert out + "" == out;
      }
    }

    lemma AltStep(o: string, o': string, c: char, fmt: string, args: seq<Arg>, rest: seq<Arg>)
      requires |fmt| >= 2 && fmt[0] == '%' && fmt[1] == c
      requires rest == if c == 'c' || c == 'x' || c == 's' then Rest(args) else args
      requires o' == o + if c == '%' then "%" else if c == 'c' then [Low(NextNum(args))]
                         else if c == 'x' then HexText(NextNum(args))
                         else if c == 's' then NextStr(args) else ""
      ensures o + AltPrinted(fmt, args) == o' + AltPrinted(fmt[2..], rest)
    {
      var text := if c == '%' then "%" else if c == 'c' then [Low(NextNum(args))]
                  else if c == 'x' then HexText(NextNum(args)) else if c == 's' then NextStr(args) else "";
      assert AltPrinted(fmt, args) == text + AltPrinted(fmt[2..], rest);
      Regroup(o, text, AltPrinted(fmt[2..], rest));
    }
  }
}
