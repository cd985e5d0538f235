/**
  realpath (lib/c/realpath.c): normalising a path as text, with stat as the test of existence.
 */
module RealPath {
  import opened Wrappers
  import opened CStrings
  import opened PathSpec

  /** How the token loop of realpath ends: NULL, a path, or a search for a separator that runs off the front of the
      buffer. */
  datatype Outcome = Fail | Done(text: string) | OffFront

  /** Index of the last separator. */
  function LastSep(s: string): (r: Option<nat>)
    ensures r.Some? ==> r.value < |s| && s[r.value] == '/' && forall i :: r.value < i < |s| ==> s[i] != '/'
    ensures r.None? ==> '/' !in s
  {
    if s == "" then None
    else if s[|s| - 1] == '/' then Some(|s| - 1)
    else
      assert forall c :: c in s[..|s| - 1] || c == s[|s| - 1] <==> c in s by {
        assert s == s[..|s| - 1] + [s[|s| - 1]];
      }
      LastSep(s[..|s| - 1])
  }

  /** The token loop on the text resolved so far. */
  function Loop(stat: string -> bool, text: string, ts: seq<string>): (r: Outcome)
    decreases |ts|
  {
    if ts == [] then Done(text)
    else if Skipped(ts[0]) then Loop(stat, text, ts[1..])
    else if ts[0] == ".." then
      match LastSep(text)
      case None => OffFront
      case Some(i) => Loop(stat, text[..i], ts[1..])
    else
      var text' := text + SEP + ts[0];
      if !stat(text') then Fail else Loop(stat, text', ts[1..])
  }

  predicate Absolute(path: string) {
    |path| > 0 && path[0] == '/'
  }

  /** realpath where getcwd answers `cwd`, or NULL. */
  function Real(stat: string -> bool, cwd: Option<string>, path: string): Outcome {
    if !Absolute(path) && cwd.None? then Fail else
    var start := if Absolute(path) then "" else cwd.value;
    match Loop(stat, if start == SEP then "" else start, Tokens(path))
    case Fail => Fail
    case OffFront => OffFront
    case Done(text) => Done(if text == "" then SEP else text)
  }

  // ----- getcwd

  /** The text of the path down to the parent of `at`, with a separator at its end. */
  function Up(at: seq<string>): string {
    if at == [] then "" else PathText(at[..|at| - 1]) + SEP
  }

  /** How dentry_abspath ends on a buffer: the whole path; an error, with errno set; or an error without errno, with the
      path only down to the parent in the buffer. */
  datatype Written = Whole(text: string) | TooLong | Parent(text: string)

  function Abs(at: seq<string>, size: nat): Written {
    if at != [] && |Up(at)| >= size then TooLong
    else if |PathText(at)| + 1 >= size then Parent(Up(at))
    else Whole(PathText(at))
  }

  /** getcwd: task_getcwd returns errno for any error, so that one without errno passes for success. */
  function GetCwd(at: seq<string>): Option<string> {
    match Abs(at, MAX_PATH_LEN)
    case TooLong => None
    case Parent(text) => Some(text)
    case Whole(text) => Some(if text == "" then SEP else text)
  }

  /** The first token that is not skipped goes up. */
  predicate GoesUp(ts: seq<string>) {
    ts != [] && if Skipped(ts[0]) then GoesUp(ts[1..]) else ts[0] == ".."
  }

  /** From a working directory at `at`, realpath sets out from the right place: its path fits with a byte to spare, or
      fits down to the parent, where the path goes first. */
  predicate SetsOut(at: seq<string>, path: string) {
    || Absolute(path)
    || |PathText(at)| + 1 < MAX_PATH_LEN
    || (|Up(at)| < MAX_PATH_LEN && GoesUp(Tokens(path)))
  }

  /** stat on an absolute path: it is short enough and the lookup from the root succeeds. */
  predicate Stat(fs: Fs, root: nat, path: string) {
    && |path| < MAX_PATH_LEN && path != "" && path[0] == '/'
    && PathSpec.Walk(fs, root, [], Tokens(path[1..])).Some?
  }

  /** Every text the loop builds on its way fits the path buffer. */
  ghost predicate Fits(fs: Fs, root: nat, at: seq<string>, ts: seq<string>)
    decreases |ts|
  {
    if ts == [] then true
    else if Skipped(ts[0]) then Fits(fs, root, at, ts[1..])
    else if ts[0] == ".." then at == [] || Fits(fs, root, at[..|at| - 1], ts[1..])
    else
      && |PathText(at + [ts[0]])| < MAX_PATH_LEN
      && (InoAt(fs, root, at + [ts[0]]).Some? ==> Fits(fs, root, at + [ts[0]], ts[1..]))
  }

  /** Dropping the text from the last separator on drops the last name. */
  lemma PopText(at: seq<string>)
    requires Names(at)
    ensures var r := LastSep(PathText(at));
            if at == [] then r.None? else r.Some? && PathText(at)[..r.value] == PathText(at[..|at| - 1])
  {
    if at != [] {
      var front, last, s := PathText(at[..|at| - 1]), at[|at| - 1], PathText(at);
      assert Name(last) && s == front + SEP + last;
      assert s[|front|] == '/';
      forall i | |front| < i < |s|
        ensures s[i] != '/'
      {
        assert s[i] == last[i - |front| - 1];
      }
      assert s[..|front|] == front;
    }
  }

  /** stat succeeds on the text of names exactly when they exist. */
  lemma StatNames(fs: Fs, root: nat, names: seq<string>)
    requires names != [] && Names(names) && |PathText(names)| < MAX_PATH_LEN
    ensures Stat(fs, root, PathText(names)) <==> InoAt(fs, root, names).Some?
  {
    TokensPathText(names);
    WalkNames(fs, root, [], names);
    assert [] + names == names;
  }

  /** The text loop follows the dentry walk step by step, and leaves its buffer exactly when the walk climbs above
      the root. */
  lemma {:induction false} LoopIsWalk(fs: Fs, root: nat, at: seq<string>, ts: seq<string>)
    requires Names(at) && Fits(fs, root, at, ts) && forall i :: 0 <= i < |ts| ==> Clean(ts[i])
    ensures Loop(p => Stat(fs, root, p), PathText(at), ts) ==
            if Climb(fs, root, at, ts).Some? then OffFront
            else match PathSpec.Walk(fs, root, at, ts) case None => Fail case Some(q) => Done(PathText(q))
    decreases |ts|
  {
    hide Stat, PathText, InoAt, LastSep;
    if ts != [] {
      if Skipped(ts[0]) {
        LoopIsWalk(fs, root, at, ts[1..]);
      } else if ts[0] == ".." {
        PopText(at);
        if at != [] { LoopIsWalk(fs, root, at[..|at| - 1], ts[1..]); }
      } else {
        var at' := at + [ts[0]];
        assert Names(at');
        PathTextSnoc(at, ts[0]);
        StatNames(fs, root, at');
        if InoAt(fs, root, at').Some? { LoopIsWalk(fs, root, at', ts[1..]); }
      }
    }
  }

  /** What the dentry walk makes of a path, as realpath should answer it. */
  function Due(fs: Fs, root: nat, at: seq<string>, ts: seq<string>): Outcome {
    match PathSpec.Walk(fs, root, at, ts)
    case None => Fail
    case Some(q) => Done(if q == [] then SEP else PathText(q))
  }

  /** From a text for `at`, the outcome is that of the walk, unless the walk climbs above the root, which runs off the
      buffer. */
  lemma RealFrom(fs: Fs, root: nat, at: seq<string>, path: string, cwd: Option<string>)
    requires Names(at) && Fits(fs, root, at, Tokens(path))
    requires if Absolute(path) then at == [] else cwd == Some(if at == [] then SEP else PathText(at))
    ensures Real(p => Stat(fs, root, p), cwd, path) ==
            if Climb(fs, root, at, Tokens(path)).Some? then OffFront else Due(fs, root, at, Tokens(path))
  {
    hide Stat, PathSpec.Walk, Climb, Fits, Tokens, Loop;
    JoinTokens(path);
    LoopIsWalk(fs, root, at, Tokens(path));
    LongText(at);
    match PathSpec.Walk(fs, root, at, Tokens(path)) {
      case None =>
      case Some(q) => TextEmpty(q);
    }
  }

  /** A directory whose path does not fit is followed by a name only into a path that does not fit. */
  lemma {:induction false} NoNameFits(fs: Fs, root: nat, at: seq<string>, ts: seq<string>)
    requires |PathText(at)| + 1 >= MAX_PATH_LEN && Fits(fs, root, at, ts) && !GoesUp(ts)
    ensures forall i :: 0 <= i < |ts| ==> Skipped(ts[i])
    decreases |ts|
  {
    hide PathText;
    if ts != [] {
      if Skipped(ts[0]) {
        NoNameFits(fs, root, at, ts[1..]);
      } else {
        PathTextSnoc(at, ts[0]);
        assert false;
      }
    }
  }

  lemma {:induction false} AllSkipped(fs: Fs, root: nat, at: seq<string>, text: string, ts: seq<string>)
    requires forall i :: 0 <= i < |ts| ==> Skipped(ts[i])
    ensures Loop(p => Stat(fs, root, p), text, ts) == Done(text) && PathSpec.Walk(fs, root, at, ts) == Some(at)
    decreases |ts|
  {
    hide Stat;
    if ts != [] { AllSkipped(fs, root, at, text, ts[1..]); }
  }

  /** Going up first from the path of the parent with a separator behind it is going up from the whole path. */
  lemma {:induction false} UpFromCut(fs: Fs, root: nat, at: seq<string>, ts: seq<string>)
    requires Names(at) && at != [] && GoesUp(ts)
    ensures Loop(p => Stat(fs, root, p), Up(at), ts) == Loop(p => Stat(fs, root, p), PathText(at), ts)
    decreases |ts|
  {
    hide Stat, PathText;
    if Skipped(ts[0]) {
      UpFromCut(fs, root, at, ts[1..]);
    } else {
      PopText(at);
      var up := Up(at);
      assert up[|up| - 1] == '/' && up[..|up| - 1] == PathText(at[..|at| - 1]);
    }
  }

  /** For every path that does not climb above the root and whose texts fit: where the walk from the working directory
      fails, so does realpath; where it arrives, realpath answers the absolute path of that place if and only if it sets
      out from the right one. */
  lemma RealPathExact(fs: Fs, root: nat, cwd: seq<string>, path: string)
    requires Names(cwd) && forall i :: 0 <= i < |cwd| ==> |cwd[i]| < DNAME_MAX_LEN
    requires var from := if Absolute(path) then [] else cwd;
             Climb(fs, root, from, Tokens(path)).None? && Fits(fs, root, from, Tokens(path))
    ensures var from := if Absolute(path) then [] else cwd;
            var due, answer := Due(fs, root, from, Tokens(path)), Real(p => Stat(fs, root, p), GetCwd(cwd), path);
            if due == Fail then answer == Fail else answer == due <==> SetsOut(cwd, path)
  {
    hide Stat, PathSpec.Walk, Climb, Fits, Tokens, Loop, PathText;
    var ts := Tokens(path);
    if Absolute(path) {
      RealFrom(fs, root, [], path, GetCwd(cwd));
    } else if |PathText(cwd)| + 1 < MAX_PATH_LEN {
      UpShorter(cwd);
      TextEmpty(cwd);
      RealFrom(fs, root, cwd, path, GetCwd(cwd));
    } else {
      LongParent(cwd);
      UpShorter(cwd);
      FarAway(fs, root, cwd, path);
    }
  }

  /** The same for a working directory whose path does not fit. */
  lemma FarAway(fs: Fs, root: nat, cwd: seq<string>, path: string)
    requires Names(cwd) && |PathText(cwd)| + 1 >= MAX_PATH_LEN && cwd != [] && Up(cwd) != SEP && !Absolute(path)
    requires Climb(fs, root, cwd, Tokens(path)).None? && Fits(fs, root, cwd, Tokens(path))
    ensures var due, answer := Due(fs, root, cwd, Tokens(path)), Real(p => Stat(fs, root, p), GetCwd(cwd), path);
            if |Up(cwd)| >= MAX_PATH_LEN then answer == Fail
            else if GoesUp(Tokens(path)) then answer == due
            else answer == Done(Up(cwd)) && due == Done(PathText(cwd))
  {
    hide Stat, PathSpec.Walk, Climb, Fits, Tokens, Loop, PathText;
    var ts := Tokens(path);
    if |Up(cwd)| < MAX_PATH_LEN {
      if GoesUp(ts) {
        UpFromCut(fs, root, cwd, ts);
        RealFrom(fs, root, cwd, path, Some(PathText(cwd)));
        LongText(cwd);
      } else {
        NoNameFits(fs, root, cwd, ts);
        AllSkipped(fs, root, cwd, Up(cwd), ts);
      }
    }
  }

  const LONG: string := "aaaaaaaaaaaaaaa"

  /** A chain of `n` directories with names of 15 letters, each the only entry of the one above. */
  function Chain(n: nat): seq<string> {
    seq(n, _ => LONG)
  }

  lemma {:induction false} ChainText(n: nat)
    ensures |PathText(Chain(n))| == 16 * n
  {
    if n > 0 {
      ChainText(n - 1);
      assert Chain(n)[..n - 1] == Chain(n - 1);
    }
  }

  lemma {:induction false} ChainExists(fs: Fs, n: nat)
    requires forall i, s :: fs(i, s) == if s == LONG then Some(0) else None
    ensures InoAt(fs, 0, Chain(n)) == Some(0)
  {
    if n > 0 {
      ChainExists(fs, n - 1);
      assert Chain(n)[..n - 1] == Chain(n - 1);
    }
  }

  lemma DotTokens()
    ensures Tokens(".") == ["."] && !Absolute(".")
  {
    TokensJoin(["."]);
    assert Join(["."]) == ".";
  }

  /** Sixteen directories deep, "." resolves to the path of the parent and a separator; seventeen deep, to nothing. Both
      directories exist, and the walk stays in them. */
  lemma DeepDirectories(fs: Fs)
    requires forall i, s :: fs(i, s) == if s == LONG then Some(0) else None
    ensures InoAt(fs, 0, Chain(16)) == Some(0) && InoAt(fs, 0, Chain(17)) == Some(0)
    ensures Real(p => Stat(fs, 0, p), GetCwd(Chain(16)), ".") == Done(PathText(Chain(15)) + SEP)
    ensures Real(p => Stat(fs, 0, p), GetCwd(Chain(17)), ".") == Fail
    ensures forall n :: n == 16 || n == 17 ==> Due(fs, 0, Chain(n), Tokens(".")) == Done(PathText(Chain(n)))
  {
    hide Stat, PathText, InoAt;
    ChainExists(fs, 16);
    ChainExists(fs, 17);
    ChainText(15);
    ChainText(16);
    ChainText(17);
    DotTokens();
    forall n | n == 16 || n == 17
      ensures Up(Chain(n)) == PathText(Chain(n - 1)) + SEP
    {
      assert Chain(n)[..n - 1] == Chain(n - 1);
    }
    AllSkipped(fs, 0, Chain(16), Up(Chain(16)), ["."]);
    AllSkipped(fs, 0, Chain(17), "", ["."]);
  }

  lemma UpShorter(at: seq<string>)
    requires Names(at)
    ensures |Up(at)| <= |PathText(at)| && (at != [] ==> |Up(at)| < |PathText(at)|)
  {
    if at != [] { assert Name(at[|at| - 1]); }
  }

  lemma LongParent(at: seq<string>)
    requires Names(at) && |PathText(at)| + 1 >= MAX_PATH_LEN && forall i :: 0 <= i < |at| ==> |at[i]| < DNAME_MAX_LEN
    ensures at != [] && Up(at) != SEP
  {
  }

  lemma TextEmpty(q: seq<string>)
    ensures PathText(q) == "" <==> q == []
  {
  }

  lemma LongText(names: seq<string>)
    requires Names(names)
    ensures PathText(names) == "" <==> names == []
    ensures PathText(names) != SEP
  {
    if names != [] { assert Name(names[|names| - 1]); }
  }

  // ----- the loops of realpath

  /** The loop that looks backwards for a separator. */
  method CutBack(text: string) returns (i: nat)
    requires LastSep(text).Some?
    ensures LastSep(text) == Some(i)
  {
    i := |text| - 1;
    while text[i] != '/'
      invariant LastSep(text).value <= i < |text| && forall j :: i < j < |text| ==> text[j] != '/'
      decreases i
    {
      i := i - 1;
    }
  }

  method Realpath(path: string, cwd: Option<string>, stat: string -> bool) returns (r: Option<string>)
    requires NUL !in path && |path| < MAX_PATH_LEN
    requires Real(stat, cwd, path) != OffFront
    ensures r == match Real(stat, cwd, path) case Done(text) => Some(text) case _ => None
  {
    if !Absolute(path) && cwd.None? { return None; }
    var resolved := if Absolute(path) then "" else cwd.value;
    if resolved == SEP { resolved := ""; }
    var buf := new char[MAX_PATH_LEN](i => NUL);
    Copy(buf, path);
    var token: Option<nat> := Some(0);
    ghost var left := Some(path);
    ghost var start := resolved;
    while token.Some?
      invariant token.Some? <==> left.Some?
      invariant token.Some? ==> Terminated(buf[..], token.value) && CStr(buf[..], token.value) == left.value
      invariant Loop(stat, start, Tokens(path)) ==
                Loop(stat, resolved, if left.Some? then Tokens(left.value) else [])
      decreases if left.Some? then |left.value| + 1 else 0
    {
      ghost var (head, tail) := Cut(left.value, SEP);
      ghost var b0 := buf[..];
      var dname, rest := Strsep(buf, token, SEP);
      var name := CStr(buf[..], dname.value);
      assert name == head;
      assert Tokens(left.value)[1..] == if tail.Some? then Tokens(tail.value) else [];
      if name == "." || name == "" {
      } else if name == ".." {
        var i := CutBack(resolved);
        resolved := resolved[..i];
      } else {
        resolved := resolved + SEP + name;
        if !stat(resolved) { return None; }
      }
      token, left := rest, tail;
    }
    if |resolved| == 0 { resolved := SEP; }
    r := Some(resolved);
  }

  /** strcpy into a zeroed buffer. */
  method Copy(buf: array<char>, s: string)
    requires |s| < buf.Length && NUL !in s && forall i :: 0 <= i < buf.Length ==> buf[i] == NUL
    modifies buf
    ensures Terminated(buf[..], 0) && CStr(buf[..], 0) == s
  {
    var i := 0;
    while i < |s|
      invariant 0 <= i <= |s| && buf[..i] == s[..i] && forall j :: i <= j < buf.Length ==> buf[j] == NUL
    {
      buf[i] := s[i];
      i := i + 1;
    }
    CStrIs(buf[..], 0, |s|);
  }
}
