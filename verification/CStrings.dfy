/**
  Null-terminated strings in character buffers, and strsep (lib/string/strsep.c), which cuts a
  string in place.
 */
module CStrings {
  import opened Wrappers

  const NUL: char := '\0'

  /** A null character ends the string at `p`. */
  predicate Terminated(b: seq<char>, p: nat) {
    exists k :: p <= k < |b| && b[k] == NUL
  }

  function Strlen(b: seq<char>, p: nat): (n: nat)
    requires Terminated(b, p)
    ensures p + n < |b| && b[p + n] == NUL && forall i :: p <= i < p + n ==> b[i] != NUL
    decreases |b| - p
  {
    if b[p] == NUL then 0 else 1 + Strlen(b, p + 1)
  }

  /** The string at `p`. */
  function CStr(b: seq<char>, p: nat): string
    requires Terminated(b, p)
  {
    b[p..p + Strlen(b, p)]
  }

  /** A string is the text up to its first null. */
  lemma CStrIs(b: seq<char>, p: nat, n: nat)
    requires p + n < |b| && b[p + n] == NUL && forall i :: p <= i < p + n ==> b[i] != NUL
    ensures Terminated(b, p) && Strlen(b, p) == n && CStr(b, p) == b[p..p + n]
  {
  }

  /** Index of the first character of `s` that is in `accept`; |s| if there is none. */
  function FirstOf(s: string, accept: string): (i: nat)
    ensures i <= |s| && (i < |s| ==> s[i] in accept) && forall j :: 0 <= j < i ==> s[j] !in accept
  {
    if s == [] || s[0] in accept then 0 else 1 + FirstOf(s[1..], accept)
  }

  lemma FirstOfIs(s: string, accept: string, i: nat)
    requires i <= |s| && (i < |s| ==> s[i] in accept) && forall j :: 0 <= j < i ==> s[j] !in accept
    ensures FirstOf(s, accept) == i
  {
  }

  /** The text before the first delimiter, and the text after it if there is one. */
  function Cut(s: string, delim: string): (string, Option<string>) {
    var i := FirstOf(s, delim);
    (s[..i], if i == |s| then None else Some(s[i + 1..]))
  }

  /** strpbrk: the first position from `s` on that holds a character of `accept`; None at the end. */
  method Strpbrk(buf: array<char>, s: nat, accept: string) returns (r: Option<nat>)
    requires Terminated(buf[..], s) && NUL !in accept
    ensures var str := CStr(buf[..], s); var i := FirstOf(str, accept);
            r == if i == |str| then None else Some(s + i)
  {
    ghost var str := CStr(buf[..], s);
    var i := s;
    while buf[i] != NUL
      invariant s <= i <= s + |str| && forall j :: 0 <= j < i - s ==> str[j] !in accept
      decreases s + |str| - i
    {
      var j := 0;
      while j < |accept|
        invariant 0 <= j <= |accept| && buf[i] !in accept[..j]
      {
        if buf[i] == accept[j] {
          FirstOfIs(str, accept, i - s);
          return Some(i);
        }
        j := j + 1;
      }
      i := i + 1;
    }
    FirstOfIs(str, accept, |str|);
    return None;
  }

  /** What strsep leaves: the string at `s` is the token, and the string at `rest`, if any, is what follows the
      delimiter; the buffer before `s` is as it was. */
  ghost predicate Separated(b0: seq<char>, b: seq<char>, s: nat, rest: Option<nat>, delim: string)
    requires Terminated(b0, s)
  {
    var (token, tail) := Cut(CStr(b0, s), delim);
    && |b| == |b0| && b[..s] == b0[..s] && Terminated(b, s) && CStr(b, s) == token
    && (rest.None? <==> tail.None?)
    && (rest.Some? ==> s < rest.value && Terminated(b, rest.value) && CStr(b, rest.value) == tail.value)
  }

  lemma CutInPlace(b0: seq<char>, s: nat, i: nat, delim: string)
    requires Terminated(b0, s) && i == FirstOf(CStr(b0, s), delim) && i < |CStr(b0, s)|
    ensures Separated(b0, b0[s + i := NUL], s, Some(s + i + 1), delim)
  {
    hide FirstOf, Strlen;
    var b, n := b0[s + i := NUL], Strlen(b0, s);
    CStrIs(b, s, i);
    CStrIs(b, s + i + 1, n - i - 1);
    assert CStr(b, s) == CStr(b0, s)[..i];
    assert CStr(b, s + i + 1) == CStr(b0, s)[i + 1..];
    assert b[..s] == b0[..s];
  }

  lemma NothingToCut(b: seq<char>, s: nat, delim: string)
    requires Terminated(b, s) && FirstOf(CStr(b, s), delim) == |CStr(b, s)|
    ensures Separated(b, b, s, None, delim)
  {
  }

  method Strsep(buf: array<char>, sp: Option<nat>, delim: string) returns (token: Option<nat>, rest: Option<nat>)
    requires sp.Some? ==> Terminated(buf[..], sp.value)
    requires NUL !in delim
    modifies buf
    ensures token == sp
    ensures sp.None? ==> rest.None? && buf[..] == old(buf[..])
    ensures sp.Some? ==> Separated(old(buf[..]), buf[..], sp.value, rest, delim)
  {
    hide Separated, FirstOf;
    token, rest := sp, None;
    if sp.None? { return; }
    var s := sp.value;
    ghost var b0 := buf[..];
    if buf[s] != NUL {
      var p := Strpbrk(buf, s, delim);
      if p.Some? {
        CutInPlace(b0, s, p.value - s, delim);
        buf[p.value] := NUL;
        rest := Some(p.value + 1);
        assert buf[..] == b0[p.value := NUL];
        return;
      }
    }
    NothingToCut(b0, s, delim);
  }
}
