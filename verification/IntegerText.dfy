/** Integers as the log printf writes them, and a reader that undoes it. */
module IntegerText {
  import opened Machine

  type Base = b: nat | b == 8 || b == 10 || b == 16 witness 10

  /** How an integer is to be printed. */
  datatype Style = Style(base: Base, signed_: bool, leadingZero: bool, upper: bool, width: int)

  /** Digits of a number, most significant first. */
  function Digits(v: nat, base: Base): (s: seq<nat>)
    ensures |s| > 0
    decreases v
  {
    if v < base then [v] else Digits(v / base, base) + [v % base]
  }

  function DigitChar(d: nat, upper: bool): char
    requires d < 16
  {
    if d <= 9 then (48 + d) as char else if upper then (55 + d) as char else (87 + d) as char
  }

  predicate DigitsBelow(s: seq<nat>, base: Base) { forall i :: 0 <= i < |s| ==> s[i] < base }

  lemma {:induction false} DigitsAreDigits(v: nat, base: Base)
    ensures DigitsBelow(Digits(v, base), base)
    decreases v
  {
    if v >= base {
      DigitsAreDigits(v / base, base);
    }
  }

  function Chars(s: seq<nat>, upper: bool): (t: string)
    requires DigitsBelow(s, 16)
    ensures |t| == |s|
  {
    seq(|s|, i requires 0 <= i < |s| => DigitChar(s[i], upper))
  }

  function Repeat(c: char, n: int): string { if n <= 0 then "" else seq(n, _ => c) }

  /** The magnitude printed: a set sign bit is stripped by negating in 32 bits. */
  function Magnitude(v: Word, signed_: bool): Word { if signed_ && v >= 0x8000_0000 then (WORD - v) % WORD else v }
  predicate Negative(v: Word, signed_: bool) { signed_ && v >= 0x8000_0000 }

  function DigitText(v: Word, st: Style): string {
    DigitsAreDigits(Magnitude(v, st.signed_), st.base);
    Chars(Digits(Magnitude(v, st.signed_), st.base), st.upper)
  }

  function SignText(v: Word, signed_: bool): string { if Negative(v, signed_) then "-" else "" }

  /** What stands before the digits: zeros behind the sign, or blanks before it. */
  function Lead(leadingZero: bool, sign: string, pad: int): string {
    if leadingZero then sign + Repeat('0', pad) else Repeat(' ', pad) + sign
  }

  /** What doIntegerPrint sends. */
  function IntegerTextOf(v: Word, st: Style): string {
    var digits, sign := DigitText(v, st), SignText(v, st.signed_);
    Lead(st.leadingZero, sign, st.width - |digits| - |sign|) + digits
  }

  // ---------------------------------------------------------------- reading it back

  function CharValue(c: char): Option<nat> {
    if '0' <= c <= '9' then Some(c as int - 48)
    else if 'a' <= c <= 'f' then Some(c as int - 87)
    else if 'A' <= c <= 'F' then Some(c as int - 55)
    else None
  }

  /** The value of a run of digits. */
  function ReadDigits(t: string, base: Base): Option<nat>
    decreases |t|
  {
    if t == "" then Some(0)
    else
      var before, d := ReadDigits(t[..|t| - 1], base), CharValue(t[|t| - 1]);
      if before.None? || d.None? || d.value >= base then None else Some(before.value * base + d.value)
  }

  function Negated(negative: bool, v: nat): int { if negative then -(v as int) else v }

  /** Blanks, then a sign, then digits. */
  function ReadInteger(t: string, base: Base): Option<int>
    decreases |t|
  {
    if t == "" then None
    else if t[0] == ' ' then ReadInteger(t[1..], base)
    else if t[0] == '-' then
      var m := ReadDigits(t[1..], base);
      if m.None? then None else Some(Negated(true, m.value))
    else
      var m := ReadDigits(t, base);
      if m.None? then None else Some(m.value)
  }

  /** The integer the caller passed. */
  function Meaning(v: Word, signed_: bool): int { if signed_ && v >= 0x8000_0000 then v - WORD else v }

  lemma DigitReadsBack(d: nat, upper: bool)
    requires d < 16
    ensures CharValue(DigitChar(d, upper)) == Some(d)
    ensures DigitChar(d, upper) != ' ' && DigitChar(d, upper) != '-'
    ensures DigitChar(d, upper) == '0' <==> d == 0
  {
  }

  lemma ReadOneMore(t: string, c: char, base: Base, v: nat, d: nat)
    requires ReadDigits(t, base) == Some(v) && CharValue(c) == Some(d) && d < base
    ensures ReadDigits(t + [c], base) == Some(v * base + d)
  {
    assert (t + [c])[..|t|] == t;
  }

  lemma {:induction false} ReadZeros(n: nat, base: Base)
    ensures ReadDigits(Repeat('0', n), base) == Some(0)
    decreases n
  {
    if n > 0 {
      ReadZeros(n - 1, base);
      assert Repeat('0', n) == Repeat('0', n - 1) + ['0'];
      ReadOneMore(Repeat('0', n - 1), '0', base, 0, 0);
    }
  }

  /** Digits read back as their number, behind any number of zeros. */
  lemma {:induction false} ReadDigitsBack(n: nat, v: nat, base: Base, upper: bool)
    ensures DigitsBelow(Digits(v, base), 16)
    ensures ReadDigits(Repeat('0', n) + Chars(Digits(v, base), upper), base) == Some(v)
    decreases v
  {
    hide DigitChar, CharValue, ReadDigits, Repeat;
    DigitsAreDigits(v, base);
    if v < base {
      ReadZeros(n, base);
      DigitReadsBack(v, upper);
      assert Chars([v], upper) == [DigitChar(v, upper)];
      ReadOneMore(Repeat('0', n), DigitChar(v, upper), base, 0, v);
    } else {
      var before, d := Digits(v / base, base), v % base;
      ReadDigitsBack(n, v / base, base, upper);
      DigitReadsBack(d, upper);
      assert Chars(before + [d], upper) == Chars(before, upper) + [DigitChar(d, upper)];
      var t := Repeat('0', n) + Chars(before, upper);
      ReadOneMore(t, DigitChar(d, upper), base, v / base, d);
      assert t + [DigitChar(d, upper)] == Repeat('0', n) + Chars(Digits(v, base), upper);
    }
  }

  lemma {:induction false} ReadBlanks(n: nat, t: string, base: Base)
    ensures ReadInteger(Repeat(' ', n) + t, base) == ReadInteger(t, base)
    decreases n
  {
    var s := Repeat(' ', n) + t;
    if n > 0 {
      ReadBlanks(n - 1, t, base);
      assert s[1..] == Repeat(' ', n - 1) + t;
    } else {
      assert s == t;
    }
  }

  lemma ReadSigned(sign: string, t: string, base: Base, v: nat)
    requires sign == "" || sign == "-"
    requires ReadDigits(t, base) == Some(v) && t != "" && t[0] != ' ' && t[0] != '-'
    ensures ReadInteger(sign + t, base) == Some(Negated(sign != "", v))
  {
    assert (sign + t)[|sign|..] == t;
  }

  lemma FirstDigit(n: int, v: nat, base: Base, upper: bool)
    requires DigitsBelow(Digits(v, base), 16)
    ensures var t := Repeat('0', n) + Chars(Digits(v, base), upper); t != "" && t[0] != ' ' && t[0] != '-'
  {
    hide DigitChar;
    DigitReadsBack(Digits(v, base)[0], upper);
  }

  /** Printing loses nothing: for every 32-bit value and every style, the text reads back as the value. */
  lemma PrintReadsBack(v: Word, st: Style)
    ensures ReadInteger(IntegerTextOf(v, st), st.base) == Some(Meaning(v, st.signed_))
  {
    hide Digits, Chars, Repeat, ReadInteger, ReadDigits;
    var m, sign := Magnitude(v, st.signed_), SignText(v, st.signed_);
    DigitsAreDigits(m, st.base);
    var digits := DigitText(v, st);
    var pad := st.width - |digits| - |sign|;
    if st.leadingZero {
      RepeatNat('0', pad);
      var zeros := Repeat('0', pad);
      ReadDigitsBack(if pad > 0 then pad else 0, m, st.base, st.upper);
      FirstDigit(pad, m, st.base, st.upper);
      ReadSigned(sign, zeros + digits, st.base, m);
      assert sign + zeros + digits == sign + (zeros + digits);
    } else {
      RepeatNat(' ', pad);
      NoZeros(digits);
      ReadDigitsBack(0, m, st.base, st.upper);
      FirstDigit(0, m, st.base, st.upper);
      ReadSigned(sign, digits, st.base, m);
      ReadBlanks(if pad > 0 then pad else 0, sign + digits, st.base);
      assert Repeat(' ', pad) + sign + digits == Repeat(' ', pad) + (sign + digits);
    }
  }

  lemma NoZeros(t: string)
    ensures Repeat('0', 0) + t == t
  {
  }

  lemma RepeatNat(c: char, n: int)
    ensures Repeat(c, n) == Repeat(c, if n > 0 then n else 0)
    ensures |Repeat(c, n)| == if n > 0 then n else 0
  {
  }

  lemma {:induction false} NoLeadingZero(v: nat, base: Base)
    ensures |Digits(v, base)| > 1 ==> Digits(v, base)[0] != 0
    ensures |Digits(v, base)| == 1 ==> v < base
    decreases v
  {
    if v >= base {
      NoLeadingZero(v / base, base);
    }
  }

  /** The text is as long as the width or, if that is more, as sign and digits; and it has no digits to spare. */
  lemma TextIsTight(v: Word, st: Style)
    ensures var body := |SignText(v, st.signed_)| + |DigitText(v, st)|;
            |IntegerTextOf(v, st)| == if st.width > body then st.width else body
    ensures |DigitText(v, st)| > 1 ==> DigitText(v, st)[0] != '0'
  {
    hide Digits, DigitChar, Repeat;
    var m := Magnitude(v, st.signed_);
    DigitsAreDigits(m, st.base);
    NoLeadingZero(m, st.base);
    DigitReadsBack(Digits(m, st.base)[0], st.upper);
    var pad := st.width - |DigitText(v, st)| - |SignText(v, st.signed_)|;
    RepeatNat('0', pad);
    RepeatNat(' ', pad);
  }

  /** The digits that letters stand for are in one case: capitals under an upper style, small letters otherwise. */
  predicate InCase(t: string, upper: bool) {
    forall i :: 0 <= i < |t| ==> if upper then !('a' <= t[i] <= 'f') else !('A' <= t[i] <= 'F')
  }

  lemma DigitCase(d: nat, upper: bool)
    requires d < 16
    ensures InCase([DigitChar(d, upper)], upper)
  {
  }

  lemma CharsInCase(s: seq<nat>, upper: bool)
    requires DigitsBelow(s, 16)
    ensures InCase(Chars(s, upper), upper)
    ensures forall i :: 0 <= i < |s| ==> Chars(s, upper)[i] != ' ' && Chars(s, upper)[i] != '-'
  {
    hide DigitChar;
    forall i | 0 <= i < |s|
      ensures InCase([DigitChar(s[i], upper)], upper) && DigitChar(s[i], upper) != ' ' && DigitChar(s[i], upper) != '-'
    {
      DigitCase(s[i], upper);
      DigitReadsBack(s[i], upper);
    }
    assert forall i :: 0 <= i < |s| ==> Chars(s, upper)[i] == [DigitChar(s[i], upper)][0];
  }

  /** The whole layout of the text: with the zero flag the sign, zeros up to the width and the digits, without it blanks up
      to the width, the sign and the digits. The digits are those of the value without its sign, in the case asked for,
      and begin with a zero only for zero itself. */
  lemma TextLaidOut(v: Word, st: Style) returns (pad: nat, digits: string)
    ensures var negative := st.signed_ && v >= 0x8000_0000;
            var sign := if negative then "-" else "";
            && IntegerTextOf(v, st) == (if st.leadingZero then sign + seq(pad, _ => '0') else seq(pad, _ => ' ') + sign) + digits
            && pad == (if st.width > |sign| + |digits| then st.width - |sign| - |digits| else 0)
            && ReadDigits(digits, st.base) == Some(if negative then 0x1_0000_0000 - v else v)
    ensures digits != "" && (digits[0] == '0' ==> digits == "0")
    ensures InCase(digits, st.upper) && forall i :: 0 <= i < |digits| ==> digits[i] != ' ' && digits[i] != '-'
  {
    hide Digits, Chars, DigitChar, ReadDigits, InCase;
    var m, sign := Magnitude(v, st.signed_), SignText(v, st.signed_);
    digits := DigitText(v, st);
    var room := st.width - |digits| - |sign|;
    pad := if room > 0 then room else 0;
    RepeatIs('0', room);
    RepeatIs(' ', room);
    DigitsAreDigits(m, st.base);
    CharsInCase(Digits(m, st.base), st.upper);
    NoZeros(digits);
    ReadDigitsBack(0, m, st.base, st.upper);
    FirstIsZero(m, st.base, st.upper);
  }

  lemma RepeatIs(c: char, n: int)
    ensures Repeat(c, n) == seq(if n > 0 then n else 0, _ => c)
  {
  }

  lemma FirstIsZero(v: nat, base: Base, upper: bool)
    requires DigitsBelow(Digits(v, base), 16)
    ensures var t := Chars(Digits(v, base), upper); t[0] == '0' ==> t == "0"
  {
    hide DigitChar;
    NoLeadingZero(v, base);
    DigitReadsBack(Digits(v, base)[0], upper);
  }

  /** With the zero flag no blank is printed, and the text begins with a minus exactly when the value is negative; without
      it no zero is printed in front of another digit. */
  lemma ZeroFlagMeans(v: Word, st: Style)
    ensures var t, negative := IntegerTextOf(v, st), st.signed_ && v >= 0x8000_0000;
            if st.leadingZero then
              && t != "" && (forall i :: 0 <= i < |t| ==> t[i] != ' ') && (t[0] == '-' <==> negative)
            else
              forall i :: 0 <= i < |t| - 1 && (i == 0 || t[i - 1] == ' ' || t[i - 1] == '-') ==> t[i] != '0'
  {
    hide IntegerTextOf, ReadDigits, InCase;
    var pad, digits := TextLaidOut(v, st);
  }

  // ---------------------------------------------------------------- the place value

  function Pow(base: Base, n: nat): nat { if n == 0 then 1 else base * Pow(base, n - 1) }

  /** A number of n digits lies between the place value of its first digit and that of the next. */
  lemma {:induction false} PlaceValue(v: nat, base: Base)
    ensures v > 0 ==> Pow(base, |Digits(v, base)| - 1) <= v
    ensures v < Pow(base, |Digits(v, base)|)
    decreases v
  {
    if v < base {
      assert Pow(base, 1) == base;
    } else {
      PlaceValue(v / base, base);
      var n := |Digits(v / base, base)|;
      var p, q := Pow(base, n - 1), v / base;
      assert Pow(base, n) == base * p && Pow(base, n + 1) == base * Pow(base, n);
      Scaled(base, p, q);
      Scaled(base, q + 1, Pow(base, n));
    }
  }

  lemma Scaled(base: Base, a: nat, b: nat)
    requires a <= b
    ensures base * a <= base * b
  {
  }

  /** Taking digits from the front by dividing by the place value. */
  lemma {:induction false} FromTheFront(v: nat, base: Base, n: nat)
    requires v < Pow(base, n + 1)
    ensures v / Pow(base, n) < base
    ensures v % Pow(base, n) < Pow(base, n)
    ensures Pow(base, n) > 0
  {
    PowPositive(base, n);
    var p := Pow(base, n);
    assert v == v / p * p + v % p;
    QuotientBelow(v, p, base);
  }

  lemma {:induction false} PowPositive(base: Base, n: nat)
    ensures Pow(base, n) > 0
  {
    if n > 0 {
      PowPositive(base, n - 1);
    }
  }

  lemma QuotientBelow(v: nat, p: nat, base: nat)
    requires p > 0 && v < base * p
    ensures v / p < base
  {
    var q := v / p;
    assert q * p <= v;
    Bigger(base, q, p);
  }

  lemma Bigger(a: nat, b: nat, p: nat)
    ensures a <= b ==> a * p <= b * p
  {
  }

  // ---------------------------------------------------------------- most significant digit first

  /** Exactly n digits of a number, with zeros in front if need be. */
  function LastDigits(v: nat, base: Base, n: nat): (s: seq<nat>)
    ensures |s| == n
    decreases n
  {
    if n == 0 then [] else LastDigits(v / base, base, n - 1) + [v % base]
  }

  lemma {:induction false} AllDigits(v: nat, base: Base)
    ensures Digits(v, base) == LastDigits(v, base, |Digits(v, base)|)
    decreases v
  {
    if v < base {
      assert LastDigits(v, base, 1) == LastDigits(v / base, base, 0) + [v % base];
    } else {
      AllDigits(v / base, base);
    }
  }

  lemma SplitAtPlace(v: nat, base: Base, n: nat)
    requires n > 0
    ensures var p, p' := Pow(base, n), Pow(base, n - 1);
            && p > 0 && p' > 0 && p == base * p'
            && v / base / p' == v / p && v / base % p' == v % p / base && v % base == v % p % base
  {
    PowPositive(base, n);
    PowPositive(base, n - 1);
    Split(v, base, Pow(base, n - 1), Pow(base, n));
  }

  lemma Split(v: nat, base: Base, p: nat, pp: nat)
    requires p > 0 && pp > 0 && pp == base * p
    ensures v / base / p == v / pp && v / base % p == v % pp / base && v % base == v % pp % base
  {
    var q, r := Quotient(v, pp);
    Regroup(q, base, p);
    SplitParts(v, base, p, q * p, q, r);
  }

  lemma Quotient(v: nat, p: nat) returns (q: nat, r: nat)
    requires p > 0
    ensures q == v / p && r == v % p && r < p && v == q * p + r
  {
    q, r := v / p, v % p;
  }

  lemma SplitParts(v: nat, base: Base, p: nat, x: nat, q: nat, r: nat)
    requires r < base * p && x == q * p && v == base * x + r
    ensures p > 0 && v / base / p == q && v / base % p == r / base && v % base == r % base
  {
    ShiftDigit(x, r, base);
    BelowPlace(r, base, p);
    Unique(q, r / base, p);
  }

  lemma ShiftDigit(x: nat, r: nat, base: Base)
    ensures (base * x + r) / base == x + r / base && (base * x + r) % base == r % base
  {
    if base == 8 {
    } else if base == 10 {
    } else {
    }
  }

  lemma BelowPlace(r: nat, base: Base, p: nat)
    requires r < base * p
    ensures r / base < p
  {
    if base == 8 {
    } else if base == 10 {
    } else {
    }
  }

  lemma Regroup(q: nat, base: nat, p: nat)
    ensures q * (base * p) == base * (q * p)
  {
  }

  lemma Unique(q: nat, r: nat, p: nat)
    requires r < p
    ensures (q * p + r) / p == q && (q * p + r) % p == r
  {
    var a := q * p + r;
    assert a == a / p * p + a % p;
    Bigger(a / p + 1, q, p);
    Bigger(q + 1, a / p, p);
    assert (a / p + 1) * p == a / p * p + p && (q + 1) * p == q * p + p;
  }

  /** Dividing by the place value takes the first digit and leaves the others. */
  lemma {:induction false} FirstOfLast(v: nat, base: Base, n: nat)
    requires v < Pow(base, n + 1)
    ensures Pow(base, n) > 0
    ensures LastDigits(v, base, n + 1) == [v / Pow(base, n)] + LastDigits(v % Pow(base, n), base, n)
    decreases n
  {
    PowPositive(base, n);
    if n == 0 {
      assert Pow(base, 0) == 1 && Pow(base, 1) == base;
      assert LastDigits(v / base, base, 0) == [];
      assert LastDigits(v, base, 1) == [v % base];
    } else {
      SplitAtPlace(v, base, n);
      QuotientBelow(v, base, Pow(base, n));
      FirstOfLast(v / base, base, n - 1);
    }
  }
}
