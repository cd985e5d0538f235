/**
  lib/stdio/printf.c in its own form: loops that write fields into a character buffer, digits from the
  last one back.
 */
module Printf {
  import opened Buffers
  import opened Wrappers
  import opened PrintfSpec

  /** intlen. */
  method IntLen(n: nat, radix: nat, ghost upper: bool) returns (len: nat)
    requires radix == 10 || radix == 16
    ensures len == |Digits(n, radix, upper)|
  {
    hide Digits;
    len := 1;
    DigitsInit(n, radix, upper);
    var k: nat := n / radix;
    while k != 0
      invariant len + (if k == 0 then 0 else |Digits(k, radix, upper)|) == |Digits(n, radix, upper)|
      decreases k
    {
      DigitsInit(k, radix, upper);
      k := k / radix;
      len := len + 1;
    }
  }

  lemma DigitsInit(n: nat, radix: nat, upper: bool)
    requires radix == 10 || radix == 16
    ensures var s := Digits(n, radix, upper);
            && s[|s| - 1] == DigitChar(n % radix, upper)
            && (|s| > 1 <==> n / radix != 0)
            && (n / radix != 0 ==> n / radix < n && s[..|s| - 1] == Digits(n / radix, radix, upper))
  {
    hide DigitChar;
    DivRadix(n, radix);
    if n >= radix {
      var front := Digits(n / radix, radix, upper);
      assert Digits(n, radix, upper) == front + [DigitChar(n % radix, upper)];
    }
  }

  /** The digits of `n`, written from the last back to the first. */
  method PutDigits(buf: array<char>, p: nat, len: nat, n: nat, radix: nat, upper: bool)
    requires (radix == 10 || radix == 16) && len == |Digits(n, radix, upper)| && p + len <= buf.Length
    modifies buf
    ensures buf[..] == Splice(old(buf[..]), p, Digits(n, radix, upper))
  {
    hide Digits, DigitChar;
    ghost var s, b := Digits(n, radix, upper), buf[..];
    var i: nat, k: nat := len, n;
    while i > 0
      invariant 0 <= i <= len && (i > 0 ==> Digits(k, radix, upper) == s[..i])
      invariant forall x :: 0 <= x < buf.Length ==> buf[x] == if p + i <= x < p + len then s[x - p] else b[x]
    {
      DigitsInit(k, radix, upper);
      assert s[i - 1] == DigitChar(k % radix, upper);
      assert i > 1 ==> s[..i][..i - 1] == s[..i - 1];
      buf[p + i - 1] := DigitChar(k % radix, upper);
      k := k / radix;
      i := i - 1;
    }
    assert buf[..] == Splice(b, p, s);
  }

  /** `n` copies of a character; nothing when `n` is negative. */
  method Fill(buf: array<char>, p: nat, n: int, c: char) returns (q: nat)
    requires p + |Repeat(c, n)| <= buf.Length
    modifies buf
    ensures q == p + |Repeat(c, n)| && buf[..] == Splice(old(buf[..]), p, Repeat(c, n))
  {
    q := p;
    var i := 0;
    while i < n
      invariant 0 <= i && (i <= n || i == 0) && q == p + i
      invariant forall x :: 0 <= x < buf.Length ==> buf[x] == if p <= x < p + i then c else old(buf[x])
    {
      buf[q] := c;
      q := q + 1;
      i := i + 1;
    }
    assert buf[..] == Splice(old(buf[..]), p, Repeat(c, n));
  }

  /** A string, character by character. */
  method PutText(buf: array<char>, p: nat, s: string) returns (q: nat)
    requires p + |s| <= buf.Length
    modifies buf
    ensures q == p + |s| && buf[..] == Splice(old(buf[..]), p, s)
  {
    q := p;
    var i := 0;
    while i < |s|
      invariant 0 <= i <= |s| && q == p + i
      invariant forall x :: 0 <= x < buf.Length ==> buf[x] == if p <= x < p + i then s[x - p] else old(buf[x])
    {
      buf[q] := s[i];
      q := q + 1;
      i := i + 1;
    }
    assert buf[..] == Splice(old(buf[..]), p, s);
  }

  /** The common shape of vsprintf_d, vsprintf_u, vsprintf_x and vsprintf_p: where the prefix, the padding and the
      digits go for each pair of flags. */
  method PutNumber(buf: array<char>, p: nat, prefix: string, n: nat, radix: nat, upper: bool,
          left: bool, zero: bool, width: nat)
    returns (q: nat)
    requires radix == 10 || radix == 16
    requires p + |Field(prefix, Digits(n, radix, upper), left, zero, width)| <= buf.Length
    modifies buf
    ensures var field := Field(prefix, Digits(n, radix, upper), left, zero, width);
            q == p + |field| && buf[..] == Splice(old(buf[..]), p, field)
  {
    hide Digits, Splice;
    ghost var b, digits := buf[..], Digits(n, radix, upper);
    var len := IntLen(n, radix, upper);
    var pad := width - |prefix| - len;
    q := p;
    if left {
      q := PutText(buf, q, prefix);
      PutDigits(buf, q, len, n, radix, upper);
      SpliceTwice(b, p, prefix, digits);
      q := q + len;
      q := Fill(buf, q, pad, ' ');
      SpliceTwice(b, p, prefix + digits, Repeat(' ', pad));
    } else if zero {
      q := PutText(buf, q, prefix);
      q := Fill(buf, q, pad, '0');
      SpliceTwice(b, p, prefix, Repeat('0', pad));
      PutDigits(buf, q, len, n, radix, upper);
      SpliceTwice(b, p, prefix + Repeat('0', pad), digits);
      q := q + len;
    } else {
      q := Fill(buf, q, pad, ' ');
      q := PutText(buf, q, prefix);
      SpliceTwice(b, p, Repeat(' ', pad), prefix);
      PutDigits(buf, q, len, n, radix, upper);
      SpliceTwice(b, p, Repeat(' ', pad) + prefix, digits);
      q := q + len;
    }
  }

  /** vsprintf_s. */
  method PutString(buf: array<char>, p: nat, s: string, left: bool, width: nat) returns (q: nat)
    requires p + |FieldS(s, left, width)| <= buf.Length
    modifies buf
    ensures q == p + |FieldS(s, left, width)| && buf[..] == Splice(old(buf[..]), p, FieldS(s, left, width))
  {
    hide Splice;
    ghost var b := buf[..];
    var pad := width - |s|;
    if left {
      q := PutText(buf, p, s);
      q := Fill(buf, q, pad, ' ');
      SpliceTwice(b, p, s, Repeat(' ', pad));
      assert s + Repeat(' ', pad) == FieldS(s, left, width);
    } else {
      q := Fill(buf, p, pad, ' ');
      q := PutText(buf, q, s);
      SpliceTwice(b, p, Repeat(' ', pad), s);
      assert Repeat(' ', pad) + s == FieldS(s, left, width);
    }
  }

  /** The field for one conversion. */
  method Emit(buf: array<char>, p: nat, kind: Kind, left: bool, zero: bool, width: nat, arg: Arg) returns (q: nat)
    requires Convert(kind, left, zero, width, arg).Some?
    requires p + |Convert(kind, left, zero, width, arg).value| <= buf.Length
    modifies buf
    ensures var field := Convert(kind, left, zero, width, arg).value;
            q == p + |field| && buf[..] == Splice(old(buf[..]), p, field)
  {
    hide Splice, Field, Digits;
    match (kind, arg)
    case (D, Int(i)) =>
      q := PutNumber(buf, p, if i < 0 then "-" else "", Magnitude(i), 10, false, left, zero, width);
    case (U, UInt(u)) => q := PutNumber(buf, p, "", u, 10, false, left, zero, width);
    case (X, UInt(u)) => q := PutNumber(buf, p, "", u, 16, false, left, zero, width);
    case (BigX, UInt(u)) => q := PutNumber(buf, p, "", u, 16, true, left, zero, width);
    case (P, UInt(u)) => q := PutNumber(buf, p, "0x", u, 16, false, left, zero, width);
    case (S, Str(s)) => q := PutString(buf, p, s, left, width);
    case (C, Chr(c)) => q := PutText(buf, p, [c]);
  }

  /** `out` has been written and the rest of the format from `i` on still has to give the rest of `total`. */
  ghost predicate Progress(total: string, out: string, f: string, i: int, mode: Mode, args: seq<Arg>, a: int) {
    0 <= i <= |f| && 0 <= a <= |args| && Some(total) == Prepend(out, Run(f[i..], mode, args[a..]))
  }

  lemma ProgressStart(f: string, args: seq<Arg>)
    requires Run(f, Outside, args).Some?
    ensures Progress(Run(f, Outside, args).value, "", f, 0, Outside, args, 0)
  {
    var total := Run(f, Outside, args).value;
    assert f[0..] == f && args[0..] == args && "" + total == total;
  }

  /** Copying a character, inside or outside a directive, is progress. */
  lemma ProgressCopy(total: string, out: string, f: string, i: int, mode: Mode, args: seq<Arg>, a: int)
    requires Progress(total, out, f, i, mode, args, a) && i < |f|
    requires if mode.Outside? then f[i] != '%' else !FlagOrDigit(f[i]) && KindOf(f[i]).None?
    ensures Progress(total, out + [f[i]], f, i + 1, mode, args, a) && |out| < |total|
  {
    assert f[i..][1..] == f[i + 1..];
    assert out + [f[i]] + Run(f[i + 1..], mode, args[a..]).value == total;
  }

  lemma ProgressPercent(total: string, out: string, f: string, i: int, args: seq<Arg>, a: int)
    requires Progress(total, out, f, i, Outside, args, a) && i < |f| && f[i] == '%'
    ensures Progress(total, out, f, i + 1, START, args, a)
  {
    assert f[i..][1..] == f[i + 1..];
  }

  /** A flag or a digit changes the directive and writes nothing. */
  lemma ProgressFlag(total: string, out: string, f: string, i: int, mode: Mode, args: seq<Arg>, a: int)
    requires Progress(total, out, f, i, mode, args, a) && i < |f| && mode.Inside? && FlagOrDigit(f[i])
    ensures Progress(total, out, f, i + 1, After(mode, f[i]), args, a)
  {
    assert f[i..][1..] == f[i + 1..];
  }

  lemma ProgressField(total: string, out: string, f: string, i: int, mode: Mode, args: seq<Arg>, a: int, kind: Kind)
    requires Progress(total, out, f, i, mode, args, a) && i < |f| && mode.Inside? && KindOf(f[i]) == Some(kind)
    ensures a < |args| && Convert(kind, mode.left, mode.zero, mode.width, args[a]).Some?
    ensures var field := Convert(kind, mode.left, mode.zero, mode.width, args[a]).value;
            Progress(total, out + field, f, i + 1, Outside, args, a + 1) && |out| + |field| <= |total|
  {
    hide Convert;
    assert f[i..][1..] == f[i + 1..];
    assert a < |args| ==> args[a..][0] == args[a] && args[a..][1..] == args[a + 1..];
    var field := Convert(kind, mode.left, mode.zero, mode.width, args[a]).value;
    assert out + field + Run(f[i + 1..], Outside, args[a + 1..]).value == total;
  }

  lemma ProgressEnd(total: string, out: string, f: string, mode: Mode, args: seq<Arg>, a: int)
    requires Progress(total, out, f, |f|, mode, args, a)
    ensures out == total && Progress(total, out, f, |f|, Outside, args, a)
  {
    assert f[|f|..] == "";
  }

  lemma SpliceOut(b: string, p: nat, s: string)
    requires p + |s| <= |b|
    ensures Splice(b, p, s)[..p + |s|] == b[..p] + s
  {
  }

  /** vsprintf: the format is read once from start to end, never past it, and the buffer receives the text and its
      terminating null. */
  method Vsprintf(buf: array<char>, fmt: string, args: seq<Arg>) returns (len: nat)
    requires Run(fmt, Outside, args).Some? && |Run(fmt, Outside, args).value| < buf.Length
    modifies buf
    ensures len == |Run(fmt, Outside, args).value|
    ensures buf[..len] == Run(fmt, Outside, args).value && buf[len] == '\0'
  {
    hide Run, Convert, Splice, KindOf, Progress;
    ghost var total, out := Run(fmt, Outside, args).value, "";
    var p, ch, a := 0, 0, 0;
    ProgressStart(fmt, args);
    while ch < |fmt|
      invariant 0 <= ch <= |fmt| && 0 <= a <= |args| && 0 <= p == |out| <= |total| && buf[..p] == out
      invariant Progress(total, out, fmt, ch, Outside, args, a)
    {
      if fmt[ch] != '%' {
        ProgressCopy(total, out, fmt, ch, Outside, args, a);
        out := out + [fmt[ch]];
        buf[p] := fmt[ch];
        p, ch := p + 1, ch + 1;
        continue;
      }
      ProgressPercent(total, out, fmt, ch, args, a);
      var mode, abort := START, false;
      while !abort
        invariant 0 <= ch < |fmt| && mode.Inside? && 0 <= a <= |args| && 0 <= p == |out| <= |total| && buf[..p] == out
        invariant Progress(total, out, fmt, ch + 1, if abort then Outside else mode, args, a)
        decreases |fmt| - ch, !abort
      {
        ch := ch + 1;
        if ch == |fmt| {
          ProgressEnd(total, out, fmt, mode, args, a);
          ch := ch - 1;
          abort := true;
        } else if FlagOrDigit(fmt[ch]) {
          ProgressFlag(total, out, fmt, ch, mode, args, a);
          mode := After(mode, fmt[ch]);
        } else if KindOf(fmt[ch]).None? {
          ProgressCopy(total, out, fmt, ch, mode, args, a);
          out := out + [fmt[ch]];
          buf[p] := fmt[ch];
          p := p + 1;
        } else {
          var kind := KindOf(fmt[ch]).value;
          ProgressField(total, out, fmt, ch, mode, args, a, kind);
          ghost var b, field := buf[..], Convert(kind, mode.left, mode.zero, mode.width, args[a]).value;
          SpliceOut(b, p, field);
          p := Emit(buf, p, kind, mode.left, mode.zero, mode.width, args[a]);
          out, a, abort := out + field, a + 1, true;
          assert buf[..p] == out;
        }
      }
      ch := ch + 1;
    }
    ProgressEnd(total, out, fmt, Outside, args, a);
    buf[p] := '\0';
    len := p;
  }
}
