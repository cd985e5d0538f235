/**
  The formatted printing of lib/stdio/printf.c: fields, and the state machine that reads a format.
 */
module PrintfSpec {
  import opened Wrappers

  // ----- digits

  const LOWER: string := "0123456789abcdef"
  const UPPER: string := "0123456789ABCDEF"

  function DigitChar(d: nat, upper: bool): (c: char)
    requires d < 16
  {
    if upper then UPPER[d] else LOWER[d]
  }

  /** The digits of `n`, most significant first. */
  function Digits(n: nat, radix: nat, upper: bool): (r: string)
    requires radix == 10 || radix == 16
    ensures |r| >= 1
    decreases n
  {
    if n < radix then [DigitChar(n, upper)] else Digits(n / radix, radix, upper) + [DigitChar(n % radix, upper)]
  }

  function DigitValue(c: char): Option<nat> {
    if '0' <= c <= '9' then Some(c as int - '0' as int)
    else if 'a' <= c <= 'f' then Some(c as int - 'a' as int + 10)
    else if 'A' <= c <= 'F' then Some(c as int - 'A' as int + 10)
    else None
  }

  /** The number a digit string denotes; None if some character is not a digit of the radix. */
  function Value(s: string, radix: nat): Option<nat> {
    if s == "" then Some(0)
    else match (Value(s[..|s| - 1], radix), DigitValue(s[|s| - 1]))
      case (Some(v), Some(d)) => if d < radix then Some(v * radix + d) else None
      case _ => None
  }

  lemma DigitCharValue(d: nat, upper: bool)
    requires d < 16
    ensures DigitValue(DigitChar(d, upper)) == Some(d) && DigitChar(d, upper) != ' '
  {
  }

  lemma DivRadix(n: nat, radix: nat)
    requires radix == 10 || radix == 16
    ensures n / radix * radix + n % radix == n && 0 <= n % radix < radix
  {
  }

  /** Printing and reading digits are inverse. */
  lemma {:induction false} DigitsValue(n: nat, radix: nat, upper: bool)
    requires radix == 10 || radix == 16
    ensures Value(Digits(n, radix, upper), radix) == Some(n)
    ensures forall i :: 0 <= i < |Digits(n, radix, upper)| ==> DigitValue(Digits(n, radix, upper)[i]).Some?
    decreases n
  {
    hide DigitChar, DigitValue;
    var s := Digits(n, radix, upper);
    DivRadix(n, radix);
    if n < radix {
      DigitCharValue(n, upper);
      assert s[..|s| - 1] == "";
    } else {
      DigitsValue(n / radix, radix, upper);
      DigitCharValue(n % radix, upper);
      assert s[..|s| - 1] == Digits(n / radix, radix, upper);
    }
  }

  // ----- fields

  function Repeat(c: char, n: int): (r: string)
    ensures |r| == (if n < 0 then 0 else n) && forall i :: 0 <= i < |r| ==> r[i] == c
  {
    seq(if n < 0 then 0 else n, _ => c)
  }

  /** A prefix (sign or "0x") and digits, padded to a width: spaces after, zeros between, or spaces before. */
  function Field(prefix: string, digits: string, left: bool, zero: bool, width: nat): (r: string)
    ensures |r| == (if width > |prefix| + |digits| then width else |prefix| + |digits|)
  {
    var pad := width - |prefix| - |digits|;
    if left then prefix + digits + Repeat(' ', pad)
    else if zero then prefix + Repeat('0', pad) + digits
    else Repeat(' ', pad) + prefix + digits
  }

  /** The magnitude vsprintf_d prints: two's complement negation in 32 bits, also for the least integer. */
  function Magnitude(arg: int): nat
    requires -0x8000_0000 <= arg < 0x8000_0000
  {
    if arg < 0 then (-arg) % 0x1_0000_0000 else arg
  }

  function FieldD(arg: int, left: bool, zero: bool, width: nat): string
    requires -0x8000_0000 <= arg < 0x8000_0000
  {
    Field(if arg < 0 then "-" else "", Digits(Magnitude(arg), 10, false), left, zero, width)
  }

  function FieldU(arg: nat, left: bool, zero: bool, width: nat): string {
    Field("", Digits(arg, 10, false), left, zero, width)
  }

  function FieldX(arg: nat, upper: bool, left: bool, zero: bool, width: nat): string {
    Field("", Digits(arg, 16, upper), left, zero, width)
  }

  function FieldP(arg: nat, left: bool, zero: bool, width: nat): string {
    Field("0x", Digits(arg, 16, false), left, zero, width)
  }

  function FieldS(arg: string, left: bool, width: nat): string {
    Field("", arg, left, false, width)
  }

  // ----- reading a field back

  function TrimLeft(s: string): string {
    if s != "" && s[0] == ' ' then TrimLeft(s[1..]) else s
  }

  function TrimRight(s: string): string {
    if s != "" && s[|s| - 1] == ' ' then TrimRight(s[..|s| - 1]) else s
  }

  /** The number in a field: spaces off, prefix off, digits read. */
  function Read(s: string, prefix: string, radix: nat): Option<nat> {
    var t := TrimRight(TrimLeft(s));
    if prefix <= t then Value(t[|prefix|..], radix) else None
  }

  /** The signed number in a field. */
  function ReadInt(s: string): Option<int> {
    var t := TrimRight(TrimLeft(s));
    if t != "" && t[0] == '-' then
      (match Value(t[1..], 10) case Some(v) => Some(0 - v) case None => None)
    else
      match Value(t, 10) case Some(v) => Some(v) case None => None
  }

  predicate NoSpace(s: string) {
    forall i :: 0 <= i < |s| ==> s[i] != ' '
  }

  lemma {:induction false} TrimLeftPadded(n: int, s: string)
    requires s != "" && NoSpace(s)
    ensures TrimLeft(Repeat(' ', n) + s) == s
    decreases n
  {
    if n > 0 {
      assert (Repeat(' ', n) + s)[1..] == Repeat(' ', n - 1) + s;
      TrimLeftPadded(n - 1, s);
    } else {
      assert Repeat(' ', n) + s == s;
    }
  }

  lemma {:induction false} TrimRightPadded(n: int, s: string)
    requires s != "" && NoSpace(s)
    ensures TrimRight(s + Repeat(' ', n)) == s
    decreases n
  {
    var t := s + Repeat(' ', n);
    if n > 0 {
      assert t[..|t| - 1] == s + Repeat(' ', n - 1);
      TrimRightPadded(n - 1, s);
    } else {
      assert t == s;
    }
  }

  /** Trimming a padded field leaves the prefix, perhaps zeros, and the digits. */
  lemma FieldTrimmed(prefix: string, digits: string, left: bool, zero: bool, width: nat)
    requires digits != "" && NoSpace(prefix) && NoSpace(digits)
    ensures var pad := width - |prefix| - |digits|;
            TrimRight(TrimLeft(Field(prefix, digits, left, zero, width))) ==
            prefix + (if zero && !left then Repeat('0', pad) else "") + digits
  {
    var pad := width - |prefix| - |digits|;
    if left {
      var core := prefix + digits;
      assert TrimLeft(core + Repeat(' ', pad)) == core + Repeat(' ', pad);
      TrimRightPadded(pad, core);
      assert prefix + "" + digits == core;
    } else if zero {
      var core := prefix + Repeat('0', pad) + digits;
      TrimRightPadded(0, core);
      assert core + Repeat(' ', 0) == core;
      assert TrimLeft(core) == core;
    } else {
      var core := prefix + digits;
      assert Repeat(' ', pad) + prefix + digits == Repeat(' ', pad) + core;
      TrimLeftPadded(pad, core);
      TrimRightPadded(0, core);
      assert core + Repeat(' ', 0) == core && prefix + "" + digits == core;
    }
  }

  lemma {:induction false} ZerosValue(n: int, digits: string, radix: nat)
    requires radix >= 2
    ensures Value(Repeat('0', n) + digits, radix) == Value(digits, radix)
    decreases |digits|, n
  {
    var s := Repeat('0', n) + digits;
    if digits == "" {
      if n > 0 {
        assert s[..|s| - 1] == Repeat('0', n - 1) + digits;
        ZerosValue(n - 1, digits, radix);
      } else {
        assert s == "";
      }
    } else {
      assert s[..|s| - 1] == Repeat('0', n) + digits[..|digits| - 1];
      ZerosValue(n, digits[..|digits| - 1], radix);
    }
  }

  lemma DigitsPlain(n: nat, radix: nat, upper: bool)
    requires radix == 10 || radix == 16
    ensures var s := Digits(n, radix, upper); NoSpace(s) && s[0] != '-'
  {
    DigitsValue(n, radix, upper);
  }

  /** A trimmed field is its prefix and a digit string that denotes the number. */
  lemma FieldCore(prefix: string, n: nat, radix: nat, upper: bool, left: bool, zero: bool, width: nat)
    returns (z: string)
    requires (radix == 10 || radix == 16) && NoSpace(prefix)
    ensures TrimRight(TrimLeft(Field(prefix, Digits(n, radix, upper), left, zero, width))) == prefix + z
    ensures Value(z, radix) == Some(n) && z != "" && z[0] != '-'
  {
    hide TrimLeft, TrimRight, Field, Digits, Value;
    var digits := Digits(n, radix, upper);
    DigitsPlain(n, radix, upper);
    DigitsValue(n, radix, upper);
    FieldTrimmed(prefix, digits, left, zero, width);
    var pad := width - |prefix| - |digits|;
    z := (if zero && !left then Repeat('0', pad) else "") + digits;
    if zero && !left { ZerosValue(pad, digits, radix); } else { assert z == digits; }
    assert prefix + z == prefix + (if zero && !left then Repeat('0', pad) else "") + digits;
  }

  /** Whatever the flags and width, a %u, %x, %X or %p field reads back as its argument, and its length is the larger
      of the width and what it has to hold. */
  lemma FieldReads(prefix: string, n: nat, radix: nat, upper: bool, left: bool, zero: bool, width: nat)
    requires (radix == 10 || radix == 16) && NoSpace(prefix)
    ensures var digits := Digits(n, radix, upper); var field := Field(prefix, digits, left, zero, width);
            && Read(field, prefix, radix) == Some(n)
            && |field| == (if width > |prefix| + |digits| then width else |prefix| + |digits|)
  {
    hide TrimLeft, TrimRight, Field, Digits, Value;
    var z := FieldCore(prefix, n, radix, upper, left, zero, width);
    assert (prefix + z)[|prefix|..] == z;
  }

  /** Whatever the flags and width, a %d field reads back as its argument, the least integer included, and its length
      is the larger of the width and what its sign and digits take. */
  lemma FieldDReads(arg: int, left: bool, zero: bool, width: nat)
    requires -0x8000_0000 <= arg < 0x8000_0000
    ensures var field := FieldD(arg, left, zero, width);
            var natural := (if arg < 0 then 1 else 0) + |Digits(Magnitude(arg), 10, false)|;
            ReadInt(field) == Some(arg) && |field| == if width > natural then width else natural
  {
    hide TrimLeft, TrimRight, Field, Digits, Value;
    var prefix := if arg < 0 then "-" else "";
    var z := FieldCore(prefix, Magnitude(arg), 10, false, left, zero, width);
    assert (prefix + z)[|prefix|..] == z;
    assert "" + z == z;
  }

  // ----- the format

  /** An argument as va_arg would fetch it. */
  datatype Arg = Int(i: int) | UInt(u: nat) | Str(s: string) | Chr(c: char)

  datatype Kind = D | U | X | BigX | P | S | C

  /** The conversion a character stands for. */
  function KindOf(c: char): Option<Kind> {
    if c == 'd' then Some(D) else if c == 'u' then Some(U) else if c == 'x' then Some(X)
    else if c == 'X' then Some(BigX) else if c == 'p' then Some(P) else if c == 's' then Some(S)
    else if c == 'c' then Some(C) else None
  }

  /** One converted argument; None when it is not of the kind the conversion fetches. */
  function Convert(k: Kind, left: bool, zero: bool, width: nat, arg: Arg): Option<string> {
    match (k, arg)
    case (D, Int(i)) => if -0x8000_0000 <= i < 0x8000_0000 then Some(FieldD(i, left, zero, width)) else None
    case (U, UInt(u)) => Some(FieldU(u, left, zero, width))
    case (X, UInt(u)) => Some(FieldX(u, false, left, zero, width))
    case (BigX, UInt(u)) => Some(FieldX(u, true, left, zero, width))
    case (P, UInt(u)) => Some(FieldP(u, left, zero, width))
    case (S, Str(s)) => Some(FieldS(s, left, width))
    case (C, Chr(c)) => Some([c])
    case _ => None
  }

  function Prepend(s: string, rest: Option<string>): Option<string> {
    match rest case None => None case Some(r) => Some(s + r)
  }

  /** Where the machine stands: outside a directive, or inside one with its flags and width so far. */
  datatype Mode = Outside | Inside(left: bool, zero: bool, width: nat)

  const START: Mode := Inside(false, false, 0)

  predicate FlagOrDigit(c: char) {
    c == '-' || '0' <= c <= '9'
  }

  /** What a flag or a digit makes of a directive; other characters and text outside leave the mode alone. */
  function After(mode: Mode, c: char): Mode {
    if mode.Outside? then mode
    else if c == '-' then mode.(left := true)
    else if c == '0' && mode.width == 0 && !mode.left && !mode.zero then mode.(zero := true)
    else if '0' <= c <= '9' then mode.(width := (mode.width * 10 + (c as int - '0' as int)) % 0x1_0000)
    else mode
  }

  /** vsprintf from the rest of the format on; None when the arguments do not match. A character that is no flag, digit
      or conversion is copied and leaves the machine inside the directive. */
  function Run(f: string, mode: Mode, args: seq<Arg>): (r: Option<string>)
    decreases |f|
  {
    if f == "" then Some("")
    else if mode.Outside? then
      if f[0] == '%' then Run(f[1..], START, args) else Prepend([f[0]], Run(f[1..], mode, args))
    else if FlagOrDigit(f[0]) then Run(f[1..], After(mode, f[0]), args)
    else match KindOf(f[0])
      case None => Prepend([f[0]], Run(f[1..], mode, args))
      case Some(k) =>
        if args == [] then None
        else match Convert(k, mode.left, mode.zero, mode.width, args[0])
          case None => None
          case Some(field) => Prepend(field, Run(f[1..], Outside, args[1..]))
  }

  // ----- formats by their meaning

  /** A literal character or a directive. */
  datatype Piece = Lit(c: char) | Dir(left: bool, zero: bool, width: nat, letter: char)

  /** The text of a directive before the rest of a format; the width is left out when it is zero. */
  function Spelled(left: bool, zero: bool, width: nat, letter: char, rest: string): string {
    "%" + ((if zero then "0" else "") + ((if left then "-" else "") +
    ((if width == 0 then "" else Digits(width, 10, false)) + ([letter] + rest))))
  }

  function Write(p: Piece, rest: string): string {
    match p
    case Lit(c) => [c] + rest
    case Dir(left, zero, width, letter) => Spelled(left, zero, width, letter, rest)
  }

  function WriteAll(ps: seq<Piece>): string {
    if ps == [] then "" else Write(ps[0], WriteAll(ps[1..]))
  }

  /** Literals other than a percent sign, and directives with one of the seven letters. */
  ghost predicate WellFormed(ps: seq<Piece>) {
    forall i :: 0 <= i < |ps| ==>
      match ps[i]
      case Lit(c) => c != '%'
      case Dir(left, zero, width, letter) => WidthOk(left, zero, width) && letter in "duxXpsc"
  }

  lemma RunPercent(f: string, args: seq<Arg>)
    ensures Run("%" + f, Outside, args) == Run(f, START, args)
  {
    assert ("%" + f)[1..] == f;
  }

  lemma RunMinus(f: string, mode: Mode, args: seq<Arg>)
    requires mode.Inside?
    ensures Run("-" + f, mode, args) == Run(f, mode.(left := true), args)
  {
    assert ("-" + f)[1..] == f;
  }

  lemma RunZero(f: string, args: seq<Arg>)
    ensures Run("0" + f, START, args) == Run(f, Inside(false, true, 0), args)
  {
    assert ("0" + f)[1..] == f;
  }

  lemma RunDigit(d: nat, f: string, mode: Mode, args: seq<Arg>)
    requires mode.Inside? && d < 10 && (d > 0 || mode.width > 0 || mode.left || mode.zero)
    ensures Run([DigitChar(d, false)] + f, mode, args) == Run(f, mode.(width := (mode.width * 10 + d) % 0x1_0000), args)
  {
    DigitIs(d);
    hide DigitChar;
    assert ([DigitChar(d, false)] + f)[1..] == f;
  }

  lemma WidthDigit(w: nat)
    ensures (w / 10 % 0x1_0000 * 10 + w % 10) % 0x1_0000 == w % 0x1_0000
  {
    var q := w / 10 / 0x1_0000;
    assert w / 10 % 0x1_0000 * 10 + w % 10 == w - 0x1_0000 * (10 * q);
  }

  /** The width of a directive: 16 bits, and below 65536 unless a flag tells its zeros from the flag. */
  predicate WidthOk(left: bool, zero: bool, width: nat) {
    width < 0x1_0000 || left || zero
  }

  /** Reading the digits of a width inside a directive gives it that width, in 16 bits. */
  lemma {:induction false} ReadWidth(w: nat, f: string, mode: Mode, args: seq<Arg>)
    requires 0 < w && mode.Inside? && mode.width == 0 && WidthOk(mode.left, mode.zero, w)
    ensures Run(Digits(w, 10, false) + f, mode, args) == Run(f, mode.(width := w % 0x1_0000), args)
    decreases w
  {
    hide Run, DigitChar;
    if w < 10 {
      RunDigit(w, f, mode, args);
    } else {
      var f' := [DigitChar(w % 10, false)] + f;
      assert Digits(w, 10, false) + f == Digits(w / 10, 10, false) + f';
      ReadWidth(w / 10, f', mode, args);
      RunDigit(w % 10, f, mode.(width := w / 10 % 0x1_0000), args);
      WidthDigit(w);
    }
  }

  lemma DigitIs(d: nat)
    requires d < 10
    ensures DigitChar(d, false) as int == '0' as int + d
  {
  }

  /** One directive is read whole, with its flags and width. */
  lemma ReadDirective(left: bool, zero: bool, width: nat, letter: char, f: string, args: seq<Arg>)
    requires WidthOk(left, zero, width)
    ensures Run(Spelled(left, zero, width, letter, f), Outside, args) ==
            Run([letter] + f, Inside(left, zero, width % 0x1_0000), args)
  {
    hide Run;
    var w := if width == 0 then "" else Digits(width, 10, false);
    var s3 := [letter] + f;
    var s2 := w + s3;
    var s1 := (if left then "-" else "") + s2;
    var s0 := (if zero then "0" else "") + s1;
    RunPercent(s0, args);
    if zero { RunZero(s1, args); } else { assert s0 == s1; }
    if left { RunMinus(s2, Inside(false, zero, 0), args); } else { assert s1 == s2; }
    if width == 0 { assert s2 == s3; } else { ReadWidth(width, s3, Inside(left, zero, 0), args); }
  }

  // ----- what each letter prints

  /** The usual way to write `n` with these digits: no more of them than it takes. */
  ghost predicate Numeral(s: string, digits: string, n: nat) {
    && s != "" && (|s| > 1 ==> s[0] != '0')
    && (forall i :: 0 <= i < |s| ==> s[i] in digits)
    && Value(s, |digits|) == Some(n)
  }

  /** What the conversion with this letter prints of an argument: a prefix and the rest. */
  ghost predicate Prints(letter: char, arg: Arg, prefix: string, body: string) {
    match arg
    case Int(i) =>
      letter == 'd' && prefix == (if i < 0 then "-" else "") && Numeral(body, "0123456789", if i < 0 then -i else i)
    case UInt(u) =>
      || (letter == 'u' && prefix == "" && Numeral(body, "0123456789", u))
      || (letter == 'x' && prefix == "" && Numeral(body, "0123456789abcdef", u))
      || (letter == 'X' && prefix == "" && Numeral(body, "0123456789ABCDEF", u))
      || (letter == 'p' && prefix == "0x" && Numeral(body, "0123456789abcdef", u))
    case Str(s) => letter == 's' && prefix == "" && body == s
    case Chr(c) => letter == 'c' && prefix == "" && body == [c]
  }

  /** The argument is of the kind the letter fetches. */
  ghost predicate Takes(letter: char, arg: Arg) {
    match arg
    case Int(i) => letter == 'd' && -0x8000_0000 <= i < 0x8000_0000
    case UInt(_) => letter in "uxXp"
    case Str(_) => letter == 's'
    case Chr(_) => letter == 'c'
  }

  ghost predicate All(s: string, c: char) {
    forall i :: 0 <= i < |s| ==> s[i] == c
  }

  /** `r` is prefix and body in a field of at least this width: with '-' spaces follow them, else with '0' zeros come
      between them, else spaces come before them. */
  ghost predicate Padded(r: string, prefix: string, body: string, left: bool, zero: bool, width: nat) {
    var n := |prefix| + |body|;
    && |r| == (if width > n then width else n)
    && if left then r[..n] == prefix + body && All(r[n..], ' ')
       else if zero then r[..|prefix|] == prefix && All(r[|prefix|..|r| - |body|], '0') && r[|r| - |body|..] == body
       else All(r[..|r| - n], ' ') && r[|r| - n..] == prefix + body
  }

  /** A field as one directive should print it. */
  ghost predicate Shows(left: bool, zero: bool, width: nat, letter: char, arg: Arg, field: string) {
    Takes(letter, arg) &&
    exists prefix, body :: Prints(letter, arg, prefix, body) &&
      if letter == 'c' then field == body else Padded(field, prefix, body, left, zero && letter != 's', width)
  }

  lemma PaddedLeft(r: string, text: string, pad: int)
    ensures |r| == |text + Repeat(' ', pad)| && r[..|text|] == text && All(r[|text|..], ' ') <==>
            r == text + Repeat(' ', pad)
  {
    var s := text + Repeat(' ', pad);
    assert s[..|text|] == text && s[|text|..] == Repeat(' ', pad);
    assert |r| == |s| ==> r == r[..|text|] + r[|text|..];
  }

  lemma PaddedRight(r: string, text: string, pad: int, c: char)
    ensures |r| == |Repeat(c, pad) + text| && All(r[..|r| - |text|], c) && r[|r| - |text|..] == text <==>
            r == Repeat(c, pad) + text
  {
    var s := Repeat(c, pad) + text;
    assert s[..|s| - |text|] == Repeat(c, pad) && s[|s| - |text|..] == text;
    assert |r| == |s| ==> r == r[..|r| - |text|] + r[|r| - |text|..];
  }

  lemma PaddedBetween(r: string, prefix: string, body: string, pad: int)
    requires |r| == |prefix| + |Repeat('0', pad)| + |body|
    ensures r[..|prefix|] == prefix && All(r[|prefix|..|r| - |body|], '0') && r[|r| - |body|..] == body <==>
            r == prefix + Repeat('0', pad) + body
  {
    hide All;
    var front, back := r[..|prefix|], r[|prefix|..];
    assert r == front + back && prefix + Repeat('0', pad) + body == prefix + (Repeat('0', pad) + body);
    assert back[..|back| - |body|] == r[|prefix|..|r| - |body|] && back[|back| - |body|..] == r[|r| - |body|..];
    PaddedRight(back, body, pad, '0');
    if front + back == prefix + (Repeat('0', pad) + body) {
      assert front == (front + back)[..|prefix|] && back == (front + back)[|prefix|..];
    }
  }

  lemma FieldPadded(r: string, prefix: string, body: string, left: bool, zero: bool, width: nat)
    ensures Padded(r, prefix, body, left, zero, width) <==> r == Field(prefix, body, left, zero, width)
  {
    hide All;
    var pad := width - |prefix| - |body|;
    if left {
      PaddedLeft(r, prefix + body, pad);
    } else if zero {
      if |r| == |prefix| + |Repeat('0', pad)| + |body| { PaddedBetween(r, prefix, body, pad); }
    } else {
      assert Repeat(' ', pad) + prefix + body == Repeat(' ', pad) + (prefix + body);
      PaddedRight(r, prefix + body, pad, ' ');
    }
  }

  function DigitsOf(radix: nat, upper: bool): string {
    if radix == 10 then "0123456789" else if upper then "0123456789ABCDEF" else "0123456789abcdef"
  }

  lemma DigitCharIn(d: nat, radix: nat, upper: bool)
    requires (radix == 10 || radix == 16) && d < radix
    ensures |DigitsOf(radix, upper)| == radix && DigitsOf(radix, upper)[d] == DigitChar(d, upper)
    ensures d > 0 ==> DigitChar(d, upper) != '0'
  {
  }

  lemma {:induction false} DigitsNumeral(n: nat, radix: nat, upper: bool)
    requires radix == 10 || radix == 16
    ensures Numeral(Digits(n, radix, upper), DigitsOf(radix, upper), n)
    ensures n > 0 ==> Digits(n, radix, upper)[0] != '0'
    decreases n
  {
    hide DigitChar, Value, DigitsOf;
    DigitsValue(n, radix, upper);
    DivRadix(n, radix);
    DigitCharIn(n % radix, radix, upper);
    if n >= radix {
      DigitsNumeral(n / radix, radix, upper);
    }
  }

  lemma DigitFrom(c: char, radix: nat, upper: bool, d: nat)
    requires (radix == 10 || radix == 16) && c in DigitsOf(radix, upper) && DigitValue(c) == Some(d)
    ensures d < radix && c == DigitChar(d, upper)
  {
    hide DigitChar, DigitValue, DigitsOf;
    DigitCharIn(0, radix, upper);
    var k :| 0 <= k < |DigitsOf(radix, upper)| && DigitsOf(radix, upper)[k] == c;
    DigitCharIn(k, radix, upper);
    DigitCharValue(k, upper);
  }

  lemma ValueParts(s: string, radix: nat, n: nat) returns (v: nat, d: nat)
    requires s != "" && (radix == 10 || radix == 16) && Value(s, radix) == Some(n)
    ensures Value(s[..|s| - 1], radix) == Some(v) && DigitValue(s[|s| - 1]) == Some(d) && d < radix
    ensures n == v * radix + d && n / radix == v && n % radix == d
  {
    v, d := Value(s[..|s| - 1], radix).value, DigitValue(s[|s| - 1]).value;
    DivRadix(n, radix);
  }

  /** There is one way to write a number. */
  lemma {:induction false} NumeralUnique(s: string, radix: nat, upper: bool, n: nat)
    requires (radix == 10 || radix == 16) && Numeral(s, DigitsOf(radix, upper), n)
    ensures s == Digits(n, radix, upper)
    decreases |s|
  {
    hide DigitChar, DigitValue, DigitsOf, Value;
    DigitCharIn(0, radix, upper);
    var front := s[..|s| - 1];
    var v, d := ValueParts(s, radix, n);
    DigitFrom(s[|s| - 1], radix, upper, d);
    if |s| == 1 {
      assert front == "" && s == [s[0]];
      assert v == 0 by { EmptyValue(radix); }
    } else {
      NumeralUnique(front, radix, upper, v);
      assert s == front + [s[|s| - 1]];
      if v == 0 {
        assert front[0] == '0' by { ZeroDigit(upper); }
      }
    }
  }

  lemma EmptyValue(radix: nat)
    ensures Value("", radix) == Some(0)
  {
  }

  lemma ZeroDigit(upper: bool)
    ensures DigitChar(0, upper) == '0'
  {
  }

  lemma NumberShown(prefix: string, n: nat, radix: nat, upper: bool, left: bool, zero: bool, width: nat)
    requires radix == 10 || radix == 16
    ensures Numeral(Digits(n, radix, upper), DigitsOf(radix, upper), n)
    ensures var body := Digits(n, radix, upper);
            Padded(Field(prefix, body, left, zero, width), prefix, body, left, zero, width)
  {
    hide Digits, Numeral, Padded, Field;
    DigitsNumeral(n, radix, upper);
    FieldPadded(Field(prefix, Digits(n, radix, upper), left, zero, width), prefix, Digits(n, radix, upper), left, zero,
            width);
  }

  /** What a conversion yields is what its letter should print. */
  lemma ConvertShows(letter: char, k: Kind, left: bool, zero: bool, width: nat, arg: Arg)
    requires KindOf(letter) == Some(k) && Convert(k, left, zero, width, arg).Some?
    ensures Shows(left, zero, width, letter, arg, Convert(k, left, zero, width, arg).value)
  {
    hide Digits, Numeral, Padded, Field;
    match (k, arg)
    case (D, Int(i)) =>
      var prefix := if i < 0 then "-" else "";
      NumberShown(prefix, Magnitude(i), 10, false, left, zero, width);
      assert Prints(letter, arg, prefix, Digits(Magnitude(i), 10, false));
    case (U, UInt(u)) =>
      NumberShown("", u, 10, false, left, zero, width);
      assert Prints(letter, arg, "", Digits(u, 10, false));
    case (X, UInt(u)) =>
      NumberShown("", u, 16, false, left, zero, width);
      assert Prints(letter, arg, "", Digits(u, 16, false));
    case (BigX, UInt(u)) =>
      NumberShown("", u, 16, true, left, zero, width);
      assert Prints(letter, arg, "", Digits(u, 16, true));
    case (P, UInt(u)) =>
      NumberShown("0x", u, 16, false, left, zero, width);
      assert Prints(letter, arg, "0x", Digits(u, 16, false));
    case (S, Str(s)) =>
      FieldPadded(FieldS(s, left, width), "", s, left, false, width);
      assert Prints(letter, arg, "", s);
    case (C, Chr(c)) => assert Prints(letter, arg, "", [c]);
  }

  /** And nothing else is. */
  lemma ShowsConvert(letter: char, left: bool, zero: bool, width: nat, arg: Arg, field: string)
    requires Shows(left, zero, width, letter, arg, field)
    ensures KindOf(letter).Some? && Convert(KindOf(letter).value, left, zero, width, arg) == Some(field)
  {
    hide Digits, Numeral, Padded, Field;
    var prefix, body :| Prints(letter, arg, prefix, body) &&
      if letter == 'c' then field == body else Padded(field, prefix, body, left, zero && letter != 's', width);
    if letter != 'c' { FieldPadded(field, prefix, body, left, zero && letter != 's', width); }
    match arg
    case Int(i) => NumeralUnique(body, 10, false, Magnitude(i));
    case UInt(u) => NumeralUnique(body, if letter == 'u' then 10 else 16, letter == 'X', u);
    case Str(_) =>
    case Chr(_) =>
  }

  /** Every numeric field, whatever its flags and width, reads back as its argument by the rules of its letter. */
  lemma ShownReads(left: bool, zero: bool, width: nat, letter: char, arg: Arg, field: string)
    requires Shows(left, zero, width, letter, arg, field)
    ensures match arg
            case Int(i) => ReadInt(field) == Some(i)
            case UInt(u) => Read(field, if letter == 'p' then "0x" else "", if letter == 'u' then 10 else 16) == Some(u)
            case _ => true
  {
    hide Digits, Shows, Field, Read, ReadInt;
    ShowsConvert(letter, left, zero, width, arg, field);
    match arg
    case Int(i) => FieldDReads(i, left, zero, width);
    case UInt(u) =>
      FieldReads(if letter == 'p' then "0x" else "", u, if letter == 'u' then 10
              else 16, letter == 'X', left, zero, width);
    case _ =>
  }

  /** The pieces of a format mean this text for these arguments: literals as they are, and for each directive, in order,
      a field as its letter should print the next argument, of a width in 16 bits. */
  ghost predicate Means(ps: seq<Piece>, args: seq<Arg>, out: string)
    decreases |ps|
  {
    if ps == [] then out == ""
    else match ps[0]
      case Lit(c) => out != "" && out[0] == c && Means(ps[1..], args, out[1..])
      case Dir(left, zero, width, letter) =>
        args != [] && exists n: nat :: n <= |out| && Shows(left, zero, width % 0x1_0000, letter, args[0], out[..n]) &&
                        Means(ps[1..], args[1..], out[n..])
  }

  /** For every well-formed format, vsprintf yields exactly the text the format means for the arguments, and fails
      exactly when it means none. */
  lemma {:induction false} RunMeans(ps: seq<Piece>, args: seq<Arg>, out: string)
    requires WellFormed(ps)
    ensures Run(WriteAll(ps), Outside, args) == Some(out) <==> Means(ps, args, out)
    decreases |ps|
  {
    hide Shows, Convert, Spelled, KindOf;
    if ps != [] {
      var rest := WriteAll(ps[1..]);
      match ps[0]
      case Lit(c) =>
        assert WriteAll(ps)[1..] == rest;
        if out != "" { RunMeans(ps[1..], args, out[1..]); }
        PrependIs([c], Run(rest, Outside, args), out);
      case Dir(left, zero, width, letter) =>
        ReadDirective(left, zero, width, letter, rest, args);
        RunLetter(letter, rest, Inside(left, zero, width % 0x1_0000), args);
        if args != [] {
          forall n: nat | n <= |out| {
            RunMeans(ps[1..], args[1..], out[n..]);
          }
          FieldMeans(ps, args, out, Run(rest, Outside, args[1..]));
        }
    }
  }

  lemma RunLetter(letter: char, f: string, mode: Mode, args: seq<Arg>)
    requires mode.Inside? && letter in "duxXpsc"
    ensures KindOf(letter).Some?
    ensures Run([letter] + f, mode, args) ==
            if args == [] then None
            else match Convert(KindOf(letter).value, mode.left, mode.zero, mode.width, args[0])
              case None => None
              case Some(field) => Prepend(field, Run(f, Outside, args[1..]))
  {
    hide Convert;
    assert ([letter] + f)[1..] == f;
  }

  /** A directive at the head of the format, given what the rest of the format means. */
  lemma FieldMeans(ps: seq<Piece>, args: seq<Arg>, out: string, r: Option<string>)
    requires ps != [] && ps[0].Dir? && args != [] && KindOf(ps[0].letter).Some?
    requires forall n: nat :: n <= |out| ==> (r == Some(out[n..]) <==> Means(ps[1..], args[1..], out[n..]))
    ensures var p := ps[0];
            Means(ps, args, out) <==>
            match Convert(KindOf(p.letter).value, p.left, p.zero, p.width % 0x1_0000, args[0])
            case None => false
            case Some(field) => Prepend(field, r) == Some(out)
  {
    hide Shows, Convert, KindOf;
    var p, w := ps[0], ps[0].width % 0x1_0000;
    var converted := Convert(KindOf(p.letter).value, p.left, p.zero, w, args[0]);
    if Means(ps, args, out) {
      var n: nat :| n <= |out| && Shows(p.left, p.zero, w, p.letter, args[0], out[..n]) &&
                    Means(ps[1..], args[1..], out[n..]);
      ShowsConvert(p.letter, p.left, p.zero, w, args[0], out[..n]);
      PrependIs(out[..n], r, out);
    }
    if converted.Some? {
      ConvertShows(p.letter, KindOf(p.letter).value, p.left, p.zero, w, args[0]);
      PrependIs(converted.value, r, out);
    }
  }

  lemma PrependIs(s: string, r: Option<string>, out: string)
    ensures Prepend(s, r) == Some(out) <==> |s| <= |out| && out[..|s|] == s && r == Some(out[|s|..])
  {
    if |s| <= |out| && out[..|s|] == s { assert out == s + out[|s|..]; }
    if r.Some? && out == s + r.value { assert out[..|s|] == s && out[|s|..] == r.value; }
  }

  // ----- doubled percent signs

  /** A character that means nothing in a directive. */
  predicate Plain(c: char) {
    c !in "%-0123456789duxXpsc"
  }

  /** "%%" prints one percent sign and leaves the machine inside the directive. */
  lemma DoubledPercent(f: string, args: seq<Arg>)
    ensures Run("%%" + f, Outside, args) == Prepend("%", Run(f, START, args))
  {
    assert ("%%" + f)[1..] == "%" + f;
    assert ("%" + f)[1..] == f;
  }

  /** What follows is then read as part of the directive: here a letter meant as text takes an argument. */
  lemma DoubledPercentTakesArgument()
    ensures Run("%%d", Outside, [Int(5)]) == Some("%5")
  {
    DoubledPercent("d", [Int(5)]);
    assert "%%" + "d" == "%%d";
    assert Run("d", START, [Int(5)]) == Prepend(FieldD(5, false, false, 0), Some("")) by {
      assert "d"[1..] == "" && Run("", Outside, []) == Some("") && [Int(5)][1..] == [];
    }
    assert FieldD(5, false, false, 0) == "5" by {
      assert Digits(5, 10, false) == "5";
      assert Repeat(' ', -1) + "" + "5" == "5";
    }
    assert "%" + ("5" + "") == "%5";
  }

  /** An argument the conversion accepts. */
  function AnArg(k: Kind): Arg {
    match k
    case D => Int(0)
    case U | X | BigX | P => UInt(0)
    case S => Str("")
    case C => Chr(' ')
  }

  /** As many arguments as the format takes, all of them fitting. */
  function Fit(f: string, mode: Mode): seq<Arg>
    decreases |f|
  {
    if f == "" then []
    else if mode.Outside? && f[0] == '%' then Fit(f[1..], START)
    else if mode.Inside? && KindOf(f[0]).Some? then [AnArg(KindOf(f[0]).value)] + Fit(f[1..], Outside)
    else Fit(f[1..], After(mode, f[0]))
  }

  lemma {:induction false} FitRuns(f: string, mode: Mode)
    ensures Run(f, mode, Fit(f, mode)).Some?
    decreases |f|
  {
    hide Convert;
    if f != "" {
      if mode.Outside? && f[0] == '%' {
        FitRuns(f[1..], START);
      } else if mode.Inside? && KindOf(f[0]).Some? {
        FitRuns(f[1..], Outside);
        AnArgConverts(KindOf(f[0]).value, mode.left, mode.zero, mode.width);
        assert Fit(f, mode)[1..] == Fit(f[1..], Outside);
      } else {
        FitRuns(f[1..], After(mode, f[0]));
      }
    }
  }

  lemma AnArgConverts(k: Kind, left: bool, zero: bool, width: nat)
    ensures Convert(k, left, zero, width, AnArg(k)).Some?
  {
  }

  /** With fewer arguments a run fails. */
  lemma {:induction false} FitNeeded(f: string, mode: Mode, args: seq<Arg>)
    ensures Run(f, mode, args).Some? ==> |args| >= |Fit(f, mode)|
    decreases |f|
  {
    hide Convert;
    if f != "" {
      if mode.Outside? && f[0] == '%' {
        FitNeeded(f[1..], START, args);
      } else if mode.Inside? && KindOf(f[0]).Some? {
        if args != [] { FitNeeded(f[1..], Outside, args[1..]); }
      } else {
        FitNeeded(f[1..], After(mode, f[0]), args);
      }
    }
  }

  /** Inside a directive, with arguments enough for the same text outside one, no run starts with a flag or a digit. */
  lemma {:induction false} InsideStart(f: string, mode: Mode, args: seq<Arg>)
    requires mode.Inside? && |args| == |Fit(f, Outside)|
    ensures match Run(f, mode, args) case None => true case Some(r) => r == "" || !FlagOrDigit(r[0])
    decreases |f|
  {
    hide Convert;
    if f != "" {
      if FlagOrDigit(f[0]) {
        InsideStart(f[1..], After(mode, f[0]), args);
      } else if KindOf(f[0]).Some? {
        FitNeeded(f, mode, args);
      }
    }
  }

  /** Text with a percent sign, a flag, a digit or a conversion letter means something else inside a directive. */
  lemma {:induction false} InsideDiffers(f: string) returns (args: seq<Arg>)
    requires exists i :: 0 <= i < |f| && !Plain(f[i])
    ensures Run(f, START, args) != Run(f, Outside, args)
    decreases |f|
  {
    hide Convert;
    var g := f[1..];
    if Plain(f[0]) {
      assert forall i :: 0 < i < |f| ==> f[i] == g[i - 1];
      args := InsideDiffers(g);
      PrependSame([f[0]], Run(g, START, args), Run(g, Outside, args));
    } else if f[0] == '%' {
      args := Fit(g, START);
      FitRuns(g, START);
      assert |Run(f, START, args).value| == 1 + |Run(f, Outside, args).value|;
    } else {
      args := Fit(f, Outside);
      FitRuns(f, Outside);
      if FlagOrDigit(f[0]) {
        InsideStart(f, START, args);
        assert Run(f, Outside, args).value[0] == f[0];
      } else {
        FitNeeded(f, START, args);
      }
    }
  }

  lemma PrependSame(s: string, a: Option<string>, b: Option<string>)
    ensures Prepend(s, a) == Prepend(s, b) <==> a == b
  {
    if a.Some? && b.Some? && s + a.value == s + b.value {
      assert (s + a.value)[|s|..] == a.value && (s + b.value)[|s|..] == b.value;
    }
  }

  lemma {:induction false} PlainRuns(f: string, mode: Mode, args: seq<Arg>)
    requires forall i :: 0 <= i < |f| ==> Plain(f[i])
    ensures Run(f, mode, args) == Some(f)
    decreases |f|
  {
    if f != "" {
      PlainRuns(f[1..], mode, args);
      assert [f[0]] + f[1..] == f;
    }
  }

  /** "%%" stands for a percent sign, as in section 7.21.6.1 of ISO C11, exactly before text without percent signs,
      flags, digits and conversion letters. */
  lemma DoubledPercentExact(f: string)
    ensures (forall args :: Run("%%" + f, Outside, args) == Prepend("%", Run(f, Outside, args)))
            <==> forall i :: 0 <= i < |f| ==> Plain(f[i])
  {
    hide Run;
    if forall i :: 0 <= i < |f| ==> Plain(f[i]) {
      forall args ensures Run("%%" + f, Outside, args) == Prepend("%", Run(f, Outside, args)) {
        DoubledPercent(f, args);
        PlainRuns(f, START, args);
        PlainRuns(f, Outside, args);
      }
    } else {
      var args := InsideDiffers(f);
      DoubledPercent(f, args);
      PrependSame("%", Run(f, START, args), Run(f, Outside, args));
    }
  }
}
