/** The format state machine of the log printf, and what it makes of a format put together from pieces. */
module LogFormat {
  import opened Machine
  import opened IntegerText

  datatype Mode = PlainChars | FirstFmtChar | OtherFmtChar

  datatype Fmt = Fmt(mode: Mode, leadingZero: bool, long: bool, before: int, after: int, base: Base, signed_: bool,
                     upper: bool)

  datatype Arg = Num(w: Word) | Str(s: string)

  /** Field widths and precisions live in a signed 32-bit int. */
  const INT_LIMIT := 0x8000_0000
  type FieldWidth = n: nat | n < INT_LIMIT

  /** undefined_: a conversion found no argument, or one of another kind, or a number in the format overflowed. */
  datatype State = State(f: Fmt, args: seq<Arg>, out: string, undefined_: bool)

  function Opened(): Fmt { Fmt(FirstFmtChar, false, false, -1, -1, 10, true, false) }

  function StyleOf(f: Fmt): Style { Style(f.base, f.signed_, f.leadingZero, f.upper, f.before) }

  /** A character argument is cut to eight bits by the transmit register. */
  function CharOf(w: Word): char { (w % 0x100) as char }

  function PrintInteger(s: State, f: Fmt): State {
    if s.args == [] || !s.args[0].Num? then s.(undefined_ := true)
    else
      State(f.(mode := PlainChars), s.args[1..], s.out + IntegerTextOf(s.args[0].w, StyleOf(f)), false)
  }

  /** The letter that determines the type; one that means nothing is skipped. */
  function Letter(s: State, c: char): State {
    if c == 'd' || c == 'i' then PrintInteger(s, s.f)
    else if c == 'u' then PrintInteger(s, s.f.(signed_ := false))
    else if c == 'o' then PrintInteger(s, s.f.(signed_ := false, base := 8))
    else if c == 'x' then PrintInteger(s, s.f.(signed_ := false, base := 16))
    else if c == 'X' then PrintInteger(s, s.f.(signed_ := false, base := 16, upper := true))
    else
      var f := s.f.(mode := PlainChars);
      if c == 'c' then
        if s.args == [] || !s.args[0].Num? then s.(undefined_ := true)
        else State(f, s.args[1..], s.out + Repeat(' ', s.f.before - 1) + [CharOf(s.args[0].w)], false)
      else if c == 's' then
        if s.args == [] || !s.args[0].Str? then s.(undefined_ := true)
        else State(f, s.args[1..], s.out + Repeat(' ', s.f.before - |s.args[0].s|) + s.args[0].s, false)
      else s.(f := f)
  }

  function OtherChar(s: State, c: char): State {
    var f := s.f;
    if c == '.' then s.(f := f.(after := 0))
    else if '0' <= c <= '9' then
      var d := c as int - 48;
      if f.after < 0 then
        var before := (if f.before < 0 then 0 else f.before * 10) + d;
        if before < INT_LIMIT then s.(f := f.(before := before)) else s.(undefined_ := true)
      else if f.after * 10 + d < INT_LIMIT then s.(f := f.(after := f.after * 10 + d))
      else s.(undefined_ := true)
    else if c == 'l' then s.(f := f.(long := true))
    else Letter(s, c)
  }

  function Step(s: State, c: char): State {
    if s.undefined_ then s
    else
      match s.f.mode
      case PlainChars => if c == '%' then s.(f := Opened()) else s.(out := s.out + [c])
      case FirstFmtChar =>
        if c == '0' then s.(f := s.f.(leadingZero := true, mode := OtherFmtChar))
        else if c == '%' then s.(out := s.out + [c], f := s.f.(mode := PlainChars))
        else OtherChar(s.(f := s.f.(mode := OtherFmtChar)), c)
      case OtherFmtChar => OtherChar(s, c)
  }

  function Run(s: State, fmt: string): State
    decreases |fmt|
  {
    if fmt == "" then s else Step(Run(s, fmt[..|fmt| - 1]), fmt[|fmt| - 1])
  }

  lemma {:induction false} RunJoins(s: State, a: string, b: string)
    ensures Run(s, a + b) == Run(Run(s, a), b)
    decreases |b|
  {
    hide Step;
    var ab := a + b;
    if b == "" {
      assert ab == a;
    } else {
      RunJoins(s, a, b[..|b| - 1]);
      assert ab[..|ab| - 1] == a + b[..|b| - 1];
    }
  }

  lemma RunOne(s: State, c: char)
    ensures Run(s, [c]) == Step(s, c)
  {
    assert [c][..0] == "";
    assert Run(s, "") == s;
  }

  lemma RunNone(s: State)
    ensures Run(s, "") == s
  {
  }

  // ---------------------------------------------------------------- formats made of pieces

  datatype Kind = D | I | U | O | X | UpperX

  /** What a caller means to print; a width of zero stands for none. */
  datatype Piece =
    | Literal(c: char)
    | Integer(zero: bool, width: FieldWidth, long: bool, kind: Kind, w: Word)
    | Character(width: FieldWidth, w: Word)
    | Text(width: FieldWidth, s: string)

  function KindLetter(k: Kind): char {
    match k case D => 'd' case I => 'i' case U => 'u' case O => 'o' case X => 'x' case UpperX => 'X'
  }

  function WidthText(n: FieldWidth): string {
    DigitsAreDigits(n, 10);
    if n == 0 then "" else Chars(Digits(n, 10), false)
  }

  /** The format string for a piece: a percent sign is doubled. */
  function Encode(p: Piece): string {
    match p
    case Literal(c) => if c == '%' then "%%" else [c]
    case Integer(zero, width, long, kind, _) =>
      "%" + (if zero then "0" else "") + (WidthText(width) + ((if long then "l" else "") + [KindLetter(kind)]))
    case Character(width, _) => "%" + "" + (WidthText(width) + ("" + ['c']))
    case Text(width, _) => "%" + "" + (WidthText(width) + ("" + ['s']))
  }

  function Width(n: FieldWidth): int { if n == 0 then -1 else n }

  function KindStyle(k: Kind, zero: bool, width: FieldWidth): Style {
    Style(if k == O then 8 else if k == X || k == UpperX then 16 else 10, k == D || k == I, zero, k == UpperX, Width(width))
  }

  function Render(p: Piece): string {
    match p
    case Literal(c) => [c]
    case Integer(zero, width, _, kind, w) => IntegerTextOf(w, KindStyle(kind, zero, width))
    case Character(width, w) => Repeat(' ', Width(width) - 1) + [CharOf(w)]
    case Text(width, s) => Repeat(' ', Width(width) - |s|) + s
  }

  function ArgsOf(p: Piece): seq<Arg> {
    match p
    case Literal(_) => []
    case Integer(_, _, _, _, w) => [Num(w)]
    case Character(_, w) => [Num(w)]
    case Text(_, s) => [Str(s)]
  }

  function EncodeAll(ps: seq<Piece>): string { if ps == [] then "" else Encode(ps[0]) + EncodeAll(ps[1..]) }
  function RenderAll(ps: seq<Piece>): string { if ps == [] then "" else Render(ps[0]) + RenderAll(ps[1..]) }
  function ArgsOfAll(ps: seq<Piece>): seq<Arg> { if ps == [] then [] else ArgsOf(ps[0]) + ArgsOfAll(ps[1..]) }

  // ---------------------------------------------------------------- the machine reads what Encode writes

  predicate InNumber(s: State) { !s.undefined_ && s.f.mode == OtherFmtChar && s.f.before == -1 && s.f.after == -1 }

  /** Reading the digits of a number as a width: it arrives exactly when it fits an int, and overflows otherwise. */
  lemma {:induction false} ReadWidth(s: State, n: nat)
    requires InNumber(s)
    ensures DigitsBelow(Digits(n, 10), 16)
    ensures var s' := Run(s, Chars(Digits(n, 10), false));
            if n < INT_LIMIT then s' == s.(f := s.f.(before := n)) else s'.undefined_
    decreases n
  {
    hide Letter, Run;
    DigitsAreDigits(n, 10);
    if n < 10 {
      assert Chars([n], false) == [DigitChar(n, false)];
      RunOne(s, DigitChar(n, false));
    } else {
      var before, d := Digits(n / 10, 10), n % 10;
      ReadWidth(s, n / 10);
      assert Chars(before + [d], false) == Chars(before, false) + [DigitChar(d, false)];
      RunJoins(s, Chars(before, false), [DigitChar(d, false)]);
      RunOne(Run(s, Chars(before, false)), DigitChar(d, false));
    }
  }

  lemma ReadWidthText(s: State, n: FieldWidth)
    requires InNumber(s)
    ensures Run(s, WidthText(n)) == s.(f := s.f.(before := Width(n)))
  {
    hide Step, Chars;
    if n == 0 {
      RunNone(s);
    } else {
      ReadWidth(s, n);
    }
  }

  /** The first character of a conversion is read like the later ones, unless it is a zero or a percent sign. */
  lemma FirstLikeOther(s: State, t: string)
    requires !s.undefined_ && s.f.mode == FirstFmtChar && t != "" && t[0] != '0' && t[0] != '%'
    ensures Run(s, t) == Run(s.(f := s.f.(mode := OtherFmtChar)), t)
  {
    hide OtherChar, Run;
    var o := s.(f := s.f.(mode := OtherFmtChar));
    assert t == [t[0]] + t[1..];
    RunJoins(s, [t[0]], t[1..]);
    RunJoins(o, [t[0]], t[1..]);
    RunOne(s, t[0]);
    RunOne(o, t[0]);
  }

  lemma WidthStarts(n: FieldWidth, rest: string)
    requires rest != "" && rest[0] != '0' && rest[0] != '%'
    ensures var t := WidthText(n) + rest; t != "" && t[0] != '0' && t[0] != '%'
  {
    hide DigitChar;
    if n > 0 {
      DigitsAreDigits(n, 10);
      NoLeadingZero(n, 10);
      var d := Digits(n, 10)[0];
      assert |Digits(n, 10)| == 1 ==> Digits(n, 10) == [n];
      DigitReadsBack(d, false);
      DigitIsNoPercent(d);
    }
  }

  lemma DigitIsNoPercent(d: nat)
    requires d < 16
    ensures DigitChar(d, false) != '%'
  {
  }

  /** State after a conversion's flag, width and length, before its letter. */
  function Ready(s: State, zero: bool, width: FieldWidth, long: bool): State {
    s.(f := Opened().(mode := OtherFmtChar, leadingZero := zero, before := Width(width), long := long))
  }

  lemma ReadConversion(s: State, zero: bool, width: FieldWidth, long: bool, letter: char)
    requires !s.undefined_ && s.f.mode == PlainChars
    requires letter != '0' && letter != '%'
    ensures Run(s, "%" + (if zero then "0" else "") + (WidthText(width) + ((if long then "l" else "") + [letter])))
         == Step(Ready(s, zero, width, long), letter)
  {
    hide Run, OtherChar, WidthText, Letter;
    var tail := (if long then "l" else "") + [letter];
    var body := WidthText(width) + tail;
    var begun := s.(f := Opened());
    var inside := begun.(f := Opened().(mode := OtherFmtChar, leadingZero := zero));
    RunOne(s, '%');
    if zero {
      assert "%" + "0" == ['%'] + ['0'];
      RunJoins(s, "%" + "0", body);
      RunJoins(s, ['%'], ['0']);
      RunOne(begun, '0');
    } else {
      assert "%" + "" == ['%'];
      RunJoins(s, ['%'], body);
      WidthStarts(width, tail);
      FirstLikeOther(begun, body);
    }
    assert Run(s, "%" + (if zero then "0" else "") + body) == Run(inside, body);
    RunJoins(inside, WidthText(width), tail);
    ReadWidthText(inside, width);
    ReadTail(inside.(f := inside.f.(before := Width(width))), long, letter);
  }

  lemma ReadTail(s: State, long: bool, letter: char)
    requires !s.undefined_ && s.f.mode == OtherFmtChar && !s.f.long
    ensures Run(s, (if long then "l" else "") + [letter]) == Step(s.(f := s.f.(long := long)), letter)
  {
    hide Run, Letter;
    if long {
      RunJoins(s, "l", [letter]);
      RunOne(s, 'l');
      RunOne(s.(f := s.f.(long := true)), letter);
    } else {
      assert "" + [letter] == [letter];
      RunOne(s, letter);
    }
  }

  /** One piece: its text is added and its argument used up. */
  lemma ReadPiece(s: State, p: Piece, rest: seq<Arg>)
    requires !s.undefined_ && s.f.mode == PlainChars && s.args == ArgsOf(p) + rest
    ensures var s' := Run(s, Encode(p));
            !s'.undefined_ && s'.f.mode == PlainChars && s'.args == rest && s'.out == s.out + Render(p)
  {
    hide Run, IntegerTextOf, WidthText, Repeat;
    match p
    case Literal(c) =>
      RunOne(s, c);
      if c == '%' {
        assert "%%" == ['%'] + ['%'];
        RunJoins(s, ['%'], ['%']);
        RunOne(s.(f := Opened()), '%');
      }
    case Integer(zero, width, long, kind, w) =>
      ReadConversion(s, zero, width, long, KindLetter(kind));
      StepInteger(Ready(s, zero, width, long), zero, width, kind, w, rest);
    case Character(width, w) =>
      ReadConversion(s, false, width, false, 'c');
      assert s.out + (Repeat(' ', Width(width) - 1) + [CharOf(w)]) == s.out + Repeat(' ', Width(width) - 1) + [CharOf(w)];
    case Text(width, t) =>
      ReadConversion(s, false, width, false, 's');
      assert s.out + (Repeat(' ', Width(width) - |t|) + t) == s.out + Repeat(' ', Width(width) - |t|) + t;
  }

  lemma StepInteger(s: State, zero: bool, width: FieldWidth, kind: Kind, w: Word, rest: seq<Arg>)
    requires !s.undefined_ && s.f.mode == OtherFmtChar && s.args == [Num(w)] + rest
    requires s.f.leadingZero == zero && s.f.before == Width(width) && s.f.base == 10 && s.f.signed_ && !s.f.upper
    ensures var s' := Step(s, KindLetter(kind));
            && !s'.undefined_ && s'.f.mode == PlainChars && s'.args == rest
            && s'.out == s.out + IntegerTextOf(w, KindStyle(kind, zero, width))
  {
    hide IntegerTextOf;
    match kind {
      case D =>
      case I =>
      case U =>
      case O =>
      case X =>
      case UpperX =>
    }
  }

  /** A format put together from pieces prints exactly the pieces, percent signs and all. */
  lemma {:induction false} PiecesPrint(s: State, ps: seq<Piece>, rest: seq<Arg>)
    requires !s.undefined_ && s.f.mode == PlainChars && s.args == ArgsOfAll(ps) + rest
    ensures var s' := Run(s, EncodeAll(ps));
            !s'.undefined_ && s'.f.mode == PlainChars && s'.args == rest && s'.out == s.out + RenderAll(ps)
    decreases |ps|
  {
    hide Run, Encode, Render, ArgsOf;
    if ps == [] {
      RunNone(s);
    } else {
      var after := ArgsOfAll(ps[1..]) + rest;
      assert s.args == ArgsOf(ps[0]) + after;
      ReadPiece(s, ps[0], after);
      var s1 := Run(s, Encode(ps[0]));
      PiecesPrint(s1, ps[1..], rest);
      RunJoins(s, Encode(ps[0]), EncodeAll(ps[1..]));
      assert s.out + Render(ps[0]) + RenderAll(ps[1..]) == s.out + (Render(ps[0]) + RenderAll(ps[1..]));
    }
  }

  // ---------------------------------------------------------------- what the conversions mean

  /** %d and %i print a signed decimal number, %u an unsigned one, %o octal digits, %x and %X hexadecimal ones in small
      letters and in capitals; the width is a minimum, filled with zeros under the zero flag and with blanks otherwise. */
  lemma ConversionMeans(zero: bool, width: FieldWidth, long: bool, kind: Kind, w: Word)
    ensures var t := Render(Integer(zero, width, long, kind, w));
            var base := match kind case O => 8 case X => 16 case UpperX => 16 case _ => 10;
            var signed_ := kind == D || kind == I;
            && ReadInteger(t, base) == Some(if signed_ && w >= 0x8000_0000 then w - 0x1_0000_0000 else w)
            && |t| >= width && InCase(t, kind == UpperX)
            && (zero ==> forall i :: 0 <= i < |t| ==> t[i] != ' ')
            && (!zero ==> forall i :: 0 <= i < |t| - 1 && (i == 0 || t[i - 1] == ' ' || t[i - 1] == '-') ==> t[i] != '0')
  {
    hide IntegerTextOf, ReadInteger, ReadDigits;
    var st := KindStyle(kind, zero, width);
    PrintReadsBack(w, st);
    ZeroFlagMeans(w, st);
    var pad, digits := TextLaidOut(w, st);
  }

  /** %s prints the string and %c the character, behind blanks up to the width and never cut. */
  lemma TextsMean(width: FieldWidth, s: string, w: Word)
    ensures var t := Render(Text(width, s));
            && |t| == (if width > |s| then width else |s|) && t[|t| - |s|..] == s
            && forall i :: 0 <= i < |t| - |s| ==> t[i] == ' '
    ensures var t := Render(Character(width, w));
            && |t| == (if width > 1 then width else 1) && t[|t| - 1] == (w % 0x100) as char
            && forall i :: 0 <= i < |t| - 1 ==> t[i] == ' '
  {
    hide Repeat;
    BlanksBefore(Width(width) - |s|, s);
    BlanksBefore(Width(width) - 1, [CharOf(w)]);
  }

  lemma BlanksBefore(n: int, s: string)
    ensures var t, pad := Repeat(' ', n) + s, if n > 0 then n else 0;
            |t| == pad + |s| && t[pad..] == s && forall i :: 0 <= i < pad ==> t[i] == ' '
  {
    RepeatIs(' ', n);
  }

  /** A precision is read and plays no part: the conversion that follows prints what it prints without one. */
  lemma PrecisionIgnored(s: State, n: FieldWidth, letter: char)
    requires !s.undefined_ && s.f.mode == OtherFmtChar && s.f.after == -1
    requires letter != '.' && letter != 'l' && !('0' <= letter <= '9')
    ensures DigitsBelow(Digits(n, 10), 16)
    ensures var s1, s2 := Run(s, "." + Chars(Digits(n, 10), false) + [letter]), Step(s, letter);
            s1.out == s2.out && s1.args == s2.args && s1.undefined_ == s2.undefined_ && s1.f.mode == s2.f.mode
  {
    hide Run, Chars, IntegerTextOf, Repeat;
    DigitsAreDigits(n, 10);
    var dotted := s.(f := s.f.(after := 0));
    var digits := Chars(Digits(n, 10), false);
    RunJoins(s, "." + digits, [letter]);
    RunJoins(s, ".", digits);
    RunOne(s, '.');
    ReadPrecision(dotted, n);
    var read := dotted.(f := dotted.f.(after := n));
    RunOne(read, letter);
    SameLetter(s, read, letter);
  }

  lemma {:induction false} ReadPrecision(s: State, n: nat)
    requires !s.undefined_ && s.f.mode == OtherFmtChar && s.f.after == 0
    ensures DigitsBelow(Digits(n, 10), 16)
    ensures var s' := Run(s, Chars(Digits(n, 10), false));
            if n < INT_LIMIT then s' == s.(f := s.f.(after := n)) else s'.undefined_
    decreases n
  {
    hide Letter, Run;
    DigitsAreDigits(n, 10);
    if n < 10 {
      assert Chars([n], false) == [DigitChar(n, false)];
      RunOne(s, DigitChar(n, false));
    } else {
      var before, d := Digits(n / 10, 10), n % 10;
      ReadPrecision(s, n / 10);
      assert Chars(before + [d], false) == Chars(before, false) + [DigitChar(d, false)];
      RunJoins(s, Chars(before, false), [DigitChar(d, false)]);
      RunOne(Run(s, Chars(before, false)), DigitChar(d, false));
    }
  }

  predicate SameButAfter(a: State, b: State) {
    a.out == b.out && a.args == b.args && a.undefined_ == b.undefined_ && a.f == b.f.(after := a.f.after)
  }

  lemma SamePrint(s: State, t: State, f: Fmt)
    requires SameButAfter(t, s)
    ensures SameButAfter(PrintInteger(t, f.(after := t.f.after)), PrintInteger(s, f.(after := s.f.after)))
  {
    hide IntegerTextOf;
    assert StyleOf(f.(after := t.f.after)) == StyleOf(f.(after := s.f.after));
  }

  predicate PrintsNumber(letter: char) {
    letter == 'd' || letter == 'i' || letter == 'u' || letter == 'o' || letter == 'x' || letter == 'X'
  }

  lemma SameNumberLetter(s: State, t: State, letter: char)
    requires SameButAfter(t, s) && PrintsNumber(letter)
    ensures SameButAfter(Letter(t, letter), Letter(s, letter))
  {
    hide PrintInteger, SameButAfter;
    assert t.f == s.f.(after := t.f.after) by { ButAfter(s, t); }
    if letter == 'd' || letter == 'i' {
      SamePrint(s, t, s.f);
    } else if letter == 'u' {
      SamePrint(s, t, s.f.(signed_ := false));
    } else if letter == 'o' {
      SamePrint(s, t, s.f.(signed_ := false, base := 8));
    } else if letter == 'x' {
      SamePrint(s, t, s.f.(signed_ := false, base := 16));
    } else {
      SamePrint(s, t, s.f.(signed_ := false, base := 16, upper := true));
    }
  }

  lemma ButAfter(s: State, t: State)
    requires SameButAfter(t, s)
    ensures t.f == s.f.(after := t.f.after)
  {
  }

  lemma SameOtherLetter(s: State, t: State, letter: char)
    requires SameButAfter(t, s) && !PrintsNumber(letter)
    ensures SameButAfter(Letter(t, letter), Letter(s, letter))
  {
    hide PrintInteger, Repeat;
  }

  lemma SameLetter(s: State, t: State, letter: char)
    requires !s.undefined_ && s.f.mode == OtherFmtChar && SameButAfter(t, s)
    requires letter != '.' && letter != 'l' && !('0' <= letter <= '9')
    ensures SameButAfter(Step(t, letter), Step(s, letter))
  {
    hide Letter, PrintsNumber;
    if PrintsNumber(letter) {
      SameNumberLetter(s, t, letter);
    } else {
      SameOtherLetter(s, t, letter);
    }
  }

  /** Any other letter ends the conversion; nothing is printed and no argument is used. */
  lemma OtherLettersSkip(s: State, letter: char)
    requires !s.undefined_ && s.f.mode == OtherFmtChar
    requires letter !in {'d', 'i', 'u', 'o', 'x', 'X', 'c', 's', 'l', '.'} && !('0' <= letter <= '9')
    ensures var s' := Step(s, letter); s'.out == s.out && s'.args == s.args && !s'.undefined_ && s'.f.mode == PlainChars
  {
  }

  /** A conversion that finds no argument, or one of the other kind, has no defined result. */
  lemma MissingArgument(s: State, letter: char)
    requires !s.undefined_ && s.f.mode == OtherFmtChar && (PrintsNumber(letter) || letter == 'c' || letter == 's')
    requires s.args == [] || (if letter == 's' then s.args[0].Num? else s.args[0].Str?)
    ensures Step(s, letter).undefined_
  {
  }
}
