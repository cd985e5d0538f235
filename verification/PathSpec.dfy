/**
  Paths as sequences of names: splitting, walking a file system from the root, and the text of an
  absolute path.
 */
module PathSpec {
  import opened Wrappers
  import opened CStrings

  const SEP: string := "/"                 // PATH_SEP
  const MAX_PATH_LEN: int := 255
  const DNAME_MAX_LEN: int := 16

  /** The inode a directory inode gives for a name, on a file system that does not change. */
  type Fs = (nat, string) -> Option<nat>

  // ----- splitting

  /** The tokens strsep yields one after another. */
  function Tokens(s: string): (r: seq<string>)
    ensures |r| >= 1
    decreases |s|
  {
    var (token, tail) := Cut(s, SEP);
    match tail
    case None => [token]
    case Some(rest) => [token] + Tokens(rest)
  }

  predicate Clean(s: string) {
    '/' !in s
  }

  function Join(ts: seq<string>): string
    requires |ts| >= 1
  {
    if |ts| == 1 then ts[0] else ts[0] + SEP + Join(ts[1..])
  }

  /** Splitting loses nothing: joining the tokens with separators gives the text back. */
  lemma {:induction false} JoinTokens(s: string)
    ensures Join(Tokens(s)) == s && forall i :: 0 <= i < |Tokens(s)| ==> Clean(Tokens(s)[i])
    decreases |s|
  {
    var i := FirstOf(s, SEP);
    var (token, tail) := Cut(s, SEP);
    assert Clean(token);
    if tail.Some? {
      JoinTokens(tail.value);
      assert s[i] == '/';
      assert s == s[..i] + SEP + s[i + 1..];
      assert Tokens(s)[1..] == Tokens(tail.value);
    }
  }

  /** Clean tokens come back from their joined text. */
  lemma {:induction false} TokensJoin(ts: seq<string>)
    requires |ts| >= 1 && forall i :: 0 <= i < |ts| ==> Clean(ts[i])
    ensures Tokens(Join(ts)) == ts
  {
    if |ts| == 1 {
      CutWhole(ts[0]);
    } else {
      TokensJoin(ts[1..]);
      CutFirst(ts[0], Join(ts[1..]));
    }
  }

  lemma CutWhole(t: string)
    requires Clean(t)
    ensures Cut(t, SEP) == (t, None)
  {
    FirstOfIs(t, SEP, |t|);
    assert t[..|t|] == t;
  }

  lemma CutFirst(t: string, rest: string)
    requires Clean(t)
    ensures Cut(t + SEP + rest, SEP) == (t, Some(rest))
  {
    var s := t + SEP + rest;
    FirstOfIs(s, SEP, |t|);
    assert s[..|t|] == t && s[|t| + 1..] == rest;
  }

  // ----- walking

  predicate Skipped(t: string) {
    t == "" || t == "."
  }

  /** A token that names a directory entry. */
  predicate Name(t: string) {
    Clean(t) && !Skipped(t) && t != ".."
  }

  ghost predicate Names(ns: seq<string>) {
    forall i :: 0 <= i < |ns| ==> Name(ns[i])
  }

  /** The inode reached from the root by a sequence of names, through the inode operations alone. */
  function InoAt(fs: Fs, root: nat, names: seq<string>): (r: Option<nat>) {
    if names == [] then Some(root)
    else match InoAt(fs, root, names[..|names| - 1])
      case None => None
      case Some(dir) => fs(dir, names[|names| - 1])
  }

  /** The walk of dentry_lookup over names from the root: ".." at the root answers the root at once and drops the
      remaining tokens. */
  function Walk(fs: Fs, root: nat, at: seq<string>, ts: seq<string>): (r: Option<seq<string>>)
    decreases |ts|
  {
    if ts == [] then Some(at)
    else if Skipped(ts[0]) then Walk(fs, root, at, ts[1..])
    else if ts[0] == ".." then
      if at == [] then Some([]) else Walk(fs, root, at[..|at| - 1], ts[1..])
    else if InoAt(fs, root, at + [ts[0]]).None? then None
    else Walk(fs, root, at + [ts[0]], ts[1..])
  }

  /** The usual meaning: ".." at the root stays at the root. */
  function Resolve(fs: Fs, root: nat, at: seq<string>, ts: seq<string>): (r: Option<seq<string>>)
    decreases |ts|
  {
    if ts == [] then Some(at)
    else if Skipped(ts[0]) then Resolve(fs, root, at, ts[1..])
    else if ts[0] == ".." then Resolve(fs, root, if at == [] then [] else at[..|at| - 1], ts[1..])
    else if InoAt(fs, root, at + [ts[0]]).None? then None
    else Resolve(fs, root, at + [ts[0]], ts[1..])
  }

  /** What is left when the walk first meets ".." at the root; None if it never does. */
  function Climb(fs: Fs, root: nat, at: seq<string>, ts: seq<string>): (r: Option<seq<string>>)
    decreases |ts|
  {
    if ts == [] then None
    else if Skipped(ts[0]) then Climb(fs, root, at, ts[1..])
    else if ts[0] == ".." then
      if at == [] then Some(ts[1..]) else Climb(fs, root, at[..|at| - 1], ts[1..])
    else if InoAt(fs, root, at + [ts[0]]).None? then None
    else Climb(fs, root, at + [ts[0]], ts[1..])
  }

  /** The walk has the usual meaning exactly for paths that never climb above the root or whose remainder leads
      back to the root anyway. */
  lemma {:induction false} WalkMeaning(fs: Fs, root: nat, at: seq<string>, ts: seq<string>)
    ensures var left := Climb(fs, root, at, ts);
            Walk(fs, root, at, ts) == Resolve(fs, root, at, ts) <==>
            left.None? || Resolve(fs, root, [], left.value) == Some([])
    decreases |ts|
  {
    if ts != [] {
      if Skipped(ts[0]) {
        WalkMeaning(fs, root, at, ts[1..]);
      } else if ts[0] == ".." {
        if at != [] { WalkMeaning(fs, root, at[..|at| - 1], ts[1..]); }
      } else {
        WalkMeaning(fs, root, at + [ts[0]], ts[1..]);
      }
    }
  }

  /** "/../a" resolves to the root even where "/a" exists. */
  lemma ClimbDropsRest(fs: Fs, root: nat)
    requires fs(root, "a").Some?
    ensures Tokens("../a") == ["..", "a"]
    ensures Walk(fs, root, [], ["..", "a"]) == Some([]) && Resolve(fs, root, [], ["..", "a"]) == Some(["a"])
  {
    TokensJoin(["..", "a"]);
    assert Join(["..", "a"]) == "../a";
    assert [] + ["a"] == ["a"];
    assert InoAt(fs, root, ["a"]) == fs(root, "a");
    assert ["..", "a"][1..] == ["a"];
    assert Resolve(fs, root, ["a"], []) == Some(["a"]);
  }

  /** Every place the walk reaches exists. */
  lemma {:induction false} WalkExists(fs: Fs, root: nat, at: seq<string>, ts: seq<string>)
    requires InoAt(fs, root, at).Some? && Names(at) && forall i :: 0 <= i < |ts| ==> Clean(ts[i])
    ensures Walk(fs, root, at, ts).Some? ==>
              InoAt(fs, root, Walk(fs, root, at, ts).value).Some? && Names(Walk(fs, root, at, ts).value)
    decreases |ts|
  {
    if ts != [] {
      if Skipped(ts[0]) {
        WalkExists(fs, root, at, ts[1..]);
      } else if ts[0] == ".." {
        if at != [] { WalkExists(fs, root, at[..|at| - 1], ts[1..]); }
      } else if InoAt(fs, root, at + [ts[0]]).Some? {
        assert Names(at + [ts[0]]);
        WalkExists(fs, root, at + [ts[0]], ts[1..]);
      }
    }
  }

  // ----- absolute paths as text

  /** "/a/b" for the names a and b; empty for the root. */
  function PathText(names: seq<string>): string {
    if names == [] then "" else PathText(names[..|names| - 1]) + SEP + names[|names| - 1]
  }

  lemma PathTextSnoc(names: seq<string>, t: string)
    ensures PathText(names + [t]) == PathText(names) + SEP + t
  {
    assert (names + [t])[..|names|] == names;
  }

  lemma InoAtSnoc(fs: Fs, root: nat, names: seq<string>, t: string)
    ensures InoAt(fs, root, names + [t]) == match InoAt(fs, root, names) case None => None case Some(dir) => fs(dir, t)
  {
    assert (names + [t])[..|names|] == names;
  }

  lemma PathTextOne(t: string)
    ensures PathText([t]) == SEP + t && Join([t]) == t
  {
    PathTextSnoc([], t);
    assert [] + [t] == [t];
  }

  lemma {:induction false} PathTextJoin(names: seq<string>)
    requires names != []
    ensures PathText(names) == SEP + Join(names)
    decreases |names|
  {
    hide PathText, Join;
    if |names| == 1 {
      assert names == [names[0]];
      PathTextOne(names[0]);
    } else {
      var front, last := names[..|names| - 1], names[|names| - 1];
      assert front + [last] == names;
      PathTextJoin(front);
      JoinSnoc(front, last);
      PathTextSnoc(front, last);
      assert SEP + Join(front) + SEP + last == SEP + (Join(front) + SEP + last);
    }
  }

  lemma {:induction false} JoinSnoc(ts: seq<string>, t: string)
    requires |ts| >= 1
    ensures Join(ts + [t]) == Join(ts) + SEP + t
  {
    if |ts| == 1 {
      assert (ts + [t])[1..] == [t];
    } else {
      assert (ts + [t])[1..] == ts[1..] + [t];
      JoinSnoc(ts[1..], t);
    }
  }

  /** Splitting the text of an absolute path after its first separator gives its names. */
  lemma TokensPathText(names: seq<string>)
    requires names != [] && Names(names)
    ensures PathText(names) != "" && PathText(names)[0] == '/' && Tokens(PathText(names)[1..]) == names
  {
    PathTextJoin(names);
    TokensJoin(names);
    assert PathText(names)[1..] == Join(names);
  }

  /** Walking plain names from the root succeeds exactly when they exist, and arrives there. */
  lemma {:induction false} WalkNames(fs: Fs, root: nat, at: seq<string>, ts: seq<string>)
    requires Names(ts)
    ensures Walk(fs, root, at, ts) == if ts == [] || InoAt(fs, root, at + ts).Some? then Some(at + ts) else None
    decreases |ts|
  {
    if ts == [] {
      assert at + ts == at;
    } else {
      WalkNames(fs, root, at + [ts[0]], ts[1..]);
      assert at + [ts[0]] + ts[1..] == at + ts;
      if InoAt(fs, root, at + [ts[0]]).None? { MissingPrefix(fs, root, at + [ts[0]], ts[1..]); }
    }
  }

  lemma {:induction false} MissingPrefix(fs: Fs, root: nat, p: seq<string>, ts: seq<string>)
    requires InoAt(fs, root, p).None?
    ensures InoAt(fs, root, p + ts).None?
    decreases |ts|
  {
    if ts == [] {
      assert p + ts == p;
    } else {
      MissingPrefix(fs, root, p, ts[..|ts| - 1]);
      assert (p + ts)[..|p + ts| - 1] == p + ts[..|ts| - 1];
    }
  }
}
