/** alt_log_private_printf with its loops, writing to the log device. Strings are the characters before their zero. */
module LogPort {
  import opened Machine
  import opened IntegerText
  import opened LogFormat

  lemma PlaceFits(v: Word, base: Base, shrunk: nat, count: nat)
    requires count > 0 && Digits(v, base) == Digits(shrunk, base) + LastDigits(v, base, count - 1)
    ensures |Digits(v, base)| == |Digits(shrunk, base)| + count - 1
    ensures shrunk / base > 0 ==> base * Pow(base, count - 1) <= v
    ensures shrunk / base == 0 ==> |Digits(v, base)| == count
  {
    hide Pow, Digits;
    PlaceValue(v, base);
    OneDigit(shrunk, base);
    var n := |Digits(v, base)|;
    if shrunk / base > 0 {
      PowGrows(base, count, n - 1);
      assert Pow(base, count) == base * Pow(base, count - 1) by { PowStep(base, count); }
      NotZero(v, base);
    }
  }

  lemma PowStep(base: Base, n: nat)
    requires n > 0
    ensures Pow(base, n) == base * Pow(base, n - 1)
  {
  }

  lemma NotZero(v: nat, base: Base)
    ensures |Digits(v, base)| > 1 ==> v > 0
  {
  }

  lemma OneDigit(v: nat, base: Base)
    ensures |Digits(v, base)| == 1 <==> v / base == 0
  {
  }

  lemma {:induction false} PowGrows(base: Base, a: nat, b: nat)
    requires a <= b
    ensures Pow(base, a) <= Pow(base, b)
    decreases b
  {
    if a < b {
      PowGrows(base, a, b - 1);
      PowPositive(base, b - 1);
    }
  }

  /** One digit more counted. */
  lemma CountOne(v: nat, base: Base, shrunk: nat, count: nat)
    requires count > 0 && shrunk / base > 0
    requires Digits(v, base) == Digits(shrunk, base) + LastDigits(v, base, count - 1)
    ensures Digits(v, base) == Digits(shrunk / base, base) + LastDigits(v, base, count)
  {
    AllDigits(v, base);
    var n := |Digits(v, base)|;
    LastOfLast(v, base, n, count);
    LastOfLast(v, base, n, count - 1);
    assert Digits(shrunk, base) == Digits(shrunk / base, base) + [shrunk % base];
    OneDigit(shrunk, base);
    var a := Digits(shrunk / base, base);
    assert |a| == n - count;
    assert Digits(v, base)[..n - count] == a;
    assert Digits(v, base)[n - count..] == LastDigits(v, base, count);
  }

  lemma {:induction false} LastOfLast(v: nat, base: Base, n: nat, k: nat)
    requires k <= n
    ensures LastDigits(v, base, n)[n - k..] == LastDigits(v, base, k)
    decreases n
  {
    if k > 0 {
      LastOfLast(v / base, base, n - 1, k - 1);
    }
  }

  lemma {:induction false} LastAreDigits(v: nat, base: Base, n: nat)
    ensures DigitsBelow(LastDigits(v, base, n), base) && DigitsBelow(LastDigits(v, base, n), 16)
    decreases n
  {
    if n > 0 {
      LastAreDigits(v / base, base, n - 1);
    }
  }

  /** The last n digits as text. */
  function LastText(v: nat, base: Base, n: nat, upper: bool): string {
    LastAreDigits(v, base, n);
    Chars(LastDigits(v, base, n), upper)
  }

  class Port {
    /** Characters written to the device. */
    var sent: string

    constructor ()
      ensures sent == ""
    {
      sent := "";
    }

    /** alt_log_txchar; the wait for the device is left out. */
    method TxChar(c: char)
      modifies this
      ensures sent == old(sent) + [c]
    {
      sent := sent + [c];
    }

    /** alt_log_repchar */
    method RepChar(c: char, r: int)
      modifies this
      ensures sent == old(sent) + Repeat(c, r)
    {
      var left := r;
      ghost var done := 0;
      assert Repeat(c, 0) == "";
      while left > 0
        invariant 0 <= done && (if r > 0 then left == r - done && done <= r else done == 0 && left == r)
        invariant sent == old(sent) + Repeat(c, done)
      {
        TxChar(c);
        left := left - 1;
        done := done + 1;
        assert Repeat(c, done) == Repeat(c, done - 1) + [c];
        assert old(sent) + Repeat(c, done - 1) + [c] == old(sent) + (Repeat(c, done - 1) + [c]);
      }
    }

    /** Counting digits; the place value stays within 32 bits. */
    method CountDigits(v: Word, base: Base) returns (p: Word, count: nat)
      ensures count == |Digits(v, base)| && p == Pow(base, count - 1)
    {
      hide Digits, Pow;
      var shrunk: Word := v;
      p := 1;
      count := 1;
      PowOfZero(base);
      while shrunk / base > 0
        invariant count > 0 && p == Pow(base, count - 1)
        invariant Digits(v, base) == Digits(shrunk, base) + LastDigits(v, base, count - 1)
        decreases shrunk
      {
        PlaceFits(v, base, shrunk, count);
        CountOne(v, base, shrunk, count);
        PowStep(base, count);
        shrunk := shrunk / base;
        count := count + 1;
        p := p * base;
      }
      PlaceFits(v, base, shrunk, count);
    }

    /** Digits from the front, dividing by a place value that goes down to zero. */
    method SendDigits(v: Word, place: Word, base: Base, upper: bool, ghost n: nat)
      requires place == Pow(base, n) && v < Pow(base, n + 1)
      modifies this
      ensures sent == old(sent) + LastText(v, base, n + 1, upper)
    {
      hide Pow, DigitChar, LastText;
      var rest: Word, p: Word := v, place;
      ghost var k: nat := n + 1;
      ghost var goal := sent + LastText(v, base, n + 1, upper);
      while p != 0
        invariant if k > 0 then p == Pow(base, k - 1) && rest < Pow(base, k) else p == 0
        invariant sent + LastText(rest, base, k, upper) == goal
        decreases k
      {
        TakeDigit(rest, base, k - 1, upper, sent);
        var d := rest / p;
        TxChar(DigitChar(d, upper));
        rest := rest % p;
        p := p / base;
        k := k - 1;
      }
      PowNotZero(base, k);
      NoDigits(rest, base, upper, sent);
    }

    /** Padding and sign; the number of digits has been taken off the width already. */
    method SendLead(leadingZero: bool, sign: bool, beforeDecimal: int)
      modifies this
      ensures var signText := if sign then "-" else "";
              sent == old(sent) + Lead(leadingZero, signText, beforeDecimal - |signText|)
    {
      hide Repeat;
      var left, before := beforeDecimal, sent;
      ghost var signText := if sign then "-" else "";
      ghost var pad := beforeDecimal - |signText|;
      if leadingZero {
        if sign {
          TxChar('-');
          left := left - 1;
        }
        assert sent == before + signText;
        RepChar('0', left);
        assert before + signText + Repeat('0', pad) == before + (signText + Repeat('0', pad));
      } else {
        if sign {
          left := left - 1;
        }
        RepChar(' ', left);
        if sign {
          TxChar('-');
        }
        assert sent == before + Repeat(' ', pad) + signText;
        assert before + Repeat(' ', pad) + signText == before + (Repeat(' ', pad) + signText);
      }
    }

    /** doIntegerPrint */
    method PrintIntegerValue(value: Word, leadingZero: bool, beforeDecimal: int, base: Base, signed_: bool, upper: bool)
      modifies this
      ensures sent == old(sent) + IntegerTextOf(value, Style(base, signed_, leadingZero, upper, beforeDecimal))
    {
      hide Digits, Pow, Chars, Lead, LastDigits;
      ghost var style := Style(base, signed_, leadingZero, upper, beforeDecimal);
      var v, sign := value, false;
      if signed_ && v >= 0x8000_0000 {
        v := (WORD - v) % WORD;
        sign := true;
      }
      assert v == Magnitude(value, signed_) && SignText(value, signed_) == if sign then "-" else "";
      var p, digitCount := CountDigits(v, base);
      ghost var digits := DigitText(value, style);
      PlaceValue(v, base);
      AllDigits(v, base);
      CharsLength(v, base, upper);
      var before := sent;
      SendLead(leadingZero, sign, beforeDecimal - digitCount);
      ghost var head := Lead(leadingZero, SignText(value, signed_), beforeDecimal - |digits| - |SignText(value, signed_)|);
      assert sent == before + head;
      SendDigits(v, p, base, upper, digitCount - 1);
      assert before + head + digits == before + (head + digits);
    }

    /** The letter that ends a conversion */
    method TypeLetter(f: Fmt, c: char, args: seq<Arg>) returns (ok: bool, f': Fmt, rest: seq<Arg>)
      modifies this
      ensures var s := Letter(LogFormat.State(f, args, old(sent), false), c);
              ok == !s.undefined_ && (ok ==> f' == s.f && rest == s.args && sent == s.out)
    {
      hide IntegerTextOf, Repeat;
      f', rest, ok := f.(mode := PlainChars), args, true;
      if c in {'d', 'i', 'u', 'o', 'x', 'X'} {
        if c == 'u' {
          f' := f'.(signed_ := false);
        } else if c == 'o' {
          f' := f'.(signed_ := false, base := 8);
        } else if c == 'x' {
          f' := f'.(signed_ := false, base := 16);
        } else if c == 'X' {
          f' := f'.(signed_ := false, base := 16, upper := true);
        }
        if args == [] || !args[0].Num? {
          return false, f', rest;
        }
        PrintIntegerValue(args[0].w, f'.leadingZero, f'.before, f'.base, f'.signed_, f'.upper);
        rest := args[1..];
      } else if c == 'c' {
        if args == [] || !args[0].Num? {
          return false, f', rest;
        }
        RepChar(' ', f.before - 1);
        TxChar(CharOf(args[0].w));
        rest := args[1..];
      } else if c == 's' {
        if args == [] || !args[0].Str? {
          return false, f', rest;
        }
        var s := args[0].s;
        RepChar(' ', f.before - |s|);
        SendString(s);
        rest := args[1..];
      }
    }

    method SendString(s: string)
      modifies this
      ensures sent == old(sent) + s
    {
      var i := 0;
      assert s[..0] == "";
      while i < |s|
        invariant i <= |s| && sent == old(sent) + s[..i]
      {
        TxChar(s[i]);
        assert s[..i + 1] == s[..i] + [s[i]];
        i := i + 1;
      }
      assert s[..|s|] == s;
    }

    /** The otherFmtChar state */
    method ConversionChar(f: Fmt, c: char, args: seq<Arg>) returns (ok: bool, f': Fmt, rest: seq<Arg>)
      modifies this
      ensures var s := OtherChar(LogFormat.State(f, args, old(sent), false), c);
              ok == !s.undefined_ && (ok ==> f' == s.f && rest == s.args && sent == s.out)
    {
      hide Letter;
      ok, f', rest := true, f, args;
      if c == '.' {
        f' := f.(after := 0);
      } else if '0' <= c <= '9' {
        var d := c as int - 48;
        if f.after < 0 {
          var before := if f.before < 0 then 0 else f.before * 10;
          f' := f.(before := before + d);
          ok := f'.before < INT_LIMIT;
        } else {
          f' := f.(after := f.after * 10 + d);
          ok := f'.after < INT_LIMIT;
        }
      } else if c == 'l' {
        f' := f.(long := true);
      } else {
        ok, f', rest := TypeLetter(f, c, args);
      }
    }

    /** One turn of the loop over the format */
    method FormatChar(f: Fmt, c: char, args: seq<Arg>) returns (ok: bool, f': Fmt, rest: seq<Arg>)
      modifies this
      ensures var s := Step(LogFormat.State(f, args, old(sent), false), c);
              ok == !s.undefined_ && (ok ==> f' == s.f && rest == s.args && sent == s.out)
    {
      hide OtherChar;
      ok, f', rest := true, f, args;
      match f.mode
      case PlainChars =>
        if c == '%' {
          f' := Opened();
        } else {
          TxChar(c);
        }
      case FirstFmtChar =>
        if c == '0' {
          f' := f.(leadingZero := true, mode := OtherFmtChar);
        } else if c == '%' {
          TxChar(c);
          f' := f.(mode := PlainChars);
        } else {
          ok, f', rest := ConversionChar(f.(mode := OtherFmtChar), c, args);
        }
      case OtherFmtChar =>
        ok, f', rest := ConversionChar(f, c, args);
    }

    /** alt_log_private_printf; false if a conversion lacks its argument or a number in the format overflows. */
    method Printf(fmt: string, args: seq<Arg>) returns (defined: bool)
      modifies this
      ensures var s := Run(LogFormat.State(Opened().(mode := PlainChars), args, old(sent), false), fmt);
              defined == !s.undefined_ && (defined ==> sent == s.out)
    {
      hide Step;
      var f, rest := Opened().(mode := PlainChars), args;
      ghost var s0 := LogFormat.State(f, args, old(sent), false);
      defined := true;
      var w := 0;
      RunNone(s0);
      assert fmt[..0] == "" && fmt[..|fmt|] == fmt;
      while w < |fmt|
        invariant w <= |fmt| && defined
        invariant LogFormat.State(f, rest, sent, false) == Run(s0, fmt[..w])
      {
        RunMore(s0, fmt, w);
        defined, f, rest := FormatChar(f, fmt[w], rest);
        w := w + 1;
        if !defined {
          StaysUndefined(s0, fmt, w);
          return;
        }
      }
    }
  }

  lemma RunMore(s: State, fmt: string, w: nat)
    requires w < |fmt|
    ensures Run(s, fmt[..w + 1]) == Step(Run(s, fmt[..w]), fmt[w])
  {
    assert fmt[..w + 1][..w] == fmt[..w];
  }

  lemma {:induction false} StaysUndefined(s: State, fmt: string, w: nat)
    requires w <= |fmt| && Run(s, fmt[..w]).undefined_
    ensures Run(s, fmt).undefined_
    decreases |fmt|
  {
    if w < |fmt| {
      assert fmt[..|fmt| - 1][..w] == fmt[..w];
      StaysUndefined(s, fmt[..|fmt| - 1], w);
    } else {
      assert fmt[..w] == fmt;
    }
  }

  lemma PowOfZero(base: Base)
    ensures Pow(base, 0) == 1 && (forall v: nat :: Digits(v, base) == Digits(v, base) + LastDigits(v, base, 0))
  {
  }

  /** Sending the first digit of n + 1 leaves the others, one place value down. */
  lemma TakeDigit(v: nat, base: Base, n: nat, upper: bool, sent: string)
    requires v < Pow(base, n + 1)
    ensures Pow(base, n) > 0
    ensures var p := Pow(base, n);
            && 0 <= v / p < base && 0 <= v % p < p && 0 <= p / base <= p
            && p / base == (if n > 0 then Pow(base, n - 1) else 0)
            && sent + LastText(v, base, n + 1, upper) == sent + [DigitChar(v / p, upper)] + LastText(v % p, base, n, upper)
  {
    hide Pow, LastDigits, Chars, DigitChar;
    FirstOfLast(v, base, n);
    FromTheFront(v, base, n);
    PlaceGoesDown(base, n);
    LastAreDigits(v, base, n + 1);
    LastAreDigits(v % Pow(base, n), base, n);
    CharsSplit(v / Pow(base, n), LastDigits(v % Pow(base, n), base, n), upper, sent);
  }

  lemma CharsSplit(d: nat, rest: seq<nat>, upper: bool, sent: string)
    requires d < 16 && DigitsBelow(rest, 16)
    ensures DigitsBelow([d] + rest, 16)
    ensures sent + Chars([d] + rest, upper) == sent + [DigitChar(d, upper)] + Chars(rest, upper)
  {
    hide DigitChar;
    assert Chars([d] + rest, upper) == [DigitChar(d, upper)] + Chars(rest, upper);
  }

  lemma NoDigits(v: nat, base: Base, upper: bool, sent: string)
    ensures sent + LastText(v, base, 0, upper) == sent
  {
  }

  lemma PowNotZero(base: Base, k: nat)
    ensures k > 0 ==> Pow(base, k - 1) > 0
  {
    if k > 0 {
      PowPositive(base, k - 1);
    }
  }

  lemma PlaceGoesDown(base: Base, n: nat)
    ensures Pow(base, n) / base == if n > 0 then Pow(base, n - 1) else 0
  {
    if n > 0 {
      ShiftDigit(Pow(base, n - 1), 0, base);
    }
  }

  lemma CharsLength(v: Word, base: Base, upper: bool)
    ensures DigitsBelow(Digits(v, base), 16) && |Chars(Digits(v, base), upper)| == |Digits(v, base)|
  {
    DigitsAreDigits(v, base);
  }
}
