/**
  fs/dentry.c and vfs_lookup in their own form: a cache grown in place by recursive lookups that
  consume a token buffer with strsep, and the absolute path written piece by piece.
 */
module Dentries {
  import opened Wrappers
  import opened CStrings
  import opened PathSpec
  import opened DentrySpec
  import RealPath

  /** The tokens still to come from a strsep position. */
  ghost function Remaining(b: seq<char>, sp: Option<nat>): seq<string>
    requires sp.Some? ==> Terminated(b, sp.value)
  {
    if sp.None? then [] else Tokens(CStr(b, sp.value))
  }

  ghost function Length(b: seq<char>, sp: Option<nat>): nat
    requires sp.Some? ==> Terminated(b, sp.value)
  {
    if sp.None? then 0 else |CStr(b, sp.value)| + 1
  }

  lemma StrsepTokens(b0: seq<char>, b: seq<char>, s: nat, rest: Option<nat>)
    requires Terminated(b0, s) && Separated(b0, b, s, rest, SEP)
    ensures rest.Some? ==> Terminated(b, rest.value)
    ensures Tokens(CStr(b0, s))[0] == CStr(b, s) && Tokens(CStr(b0, s))[1..] == Remaining(b, rest)
    ensures Length(b, rest) < Length(b0, Some(s))
  {
  }

  /** The text of the path down to the parent of `d`, with a separator at its end. */
  ghost function UpTo(fs: Fs, c: Cache, d: nat): string
    requires CacheInv(fs, c) && d < |c|
  {
    if d == 0 then "" else
    assert Rooted(fs, c, d);
    PathText(NamesOf(fs, c, c[d].parent.value)) + SEP
  }

  class DentryCache {
    var dents: Cache

    /** The scan of dir->subdirs for a name. */
    method FindChild(d: nat, name: string, ghost fs: Fs) returns (r: Option<nat>)
      requires CacheInv(fs, dents) && d < |dents|
      ensures Siblings(dents, d) && r == FindIn(dents, dents[d].kids, name)
    {
      assert Siblings(dents, d);
      var i := 0;
      while i < |dents[d].kids|
        invariant 0 <= i <= |dents[d].kids|
        invariant FindIn(dents, dents[d].kids[i..], name) == FindIn(dents, dents[d].kids, name)
      {
        if dents[dents[d].kids[i]].name == name { return Some(dents[d].kids[i]); }
        i := i + 1;
      }
      return None;
    }

    method DentryLookup(fs: Fs, room: nat, d: nat, buf: array<char>, token: Option<nat>) returns (r: Option<nat>)
      requires CacheInv(fs, dents) && d < |dents|
      requires token.Some? ==> Terminated(buf[..], token.value)
      requires Short(Remaining(buf[..], token))
      modifies this, buf
      ensures (dents, r) == old(Lookup(fs, dents, room, d, Remaining(buf[..], token)))
      decreases Length(buf[..], token)
    {
      hide Rooted, Siblings, CStr, Tokens;
      if token.None? { return Some(d); }
      ghost var b0, c := buf[..], dents;
      ghost var ts := Remaining(b0, token);
      var dname, rest := Strsep(buf, token, SEP);
      StrsepTokens(b0, buf[..], token.value, rest);
      var name := CStr(buf[..], dname.value);
      if |name| == 0 || name == "." {
        r := DentryLookup(fs, room, d, buf, rest);
        return;
      }
      if name == ".." {
        ParentBelow(fs, dents, d);
        if dents[d].parent.None? { return Some(d); }
        r := DentryLookup(fs, room, dents[d].parent.value, buf, rest);
        return;
      }
      ChildInv(fs, c, room, d, name);
      var k := FindChild(d, name, fs);
      if k.None? {
        if |dents| >= room { return None; }
        var ino := fs(dents[d].ino, name);
        if ino.None? { return None; }
        k := Some(|dents|);
        dents := AddEntry(dents, d, name, ino.value);
      }
      assert (dents, k) == Child(fs, c, room, d, name);
      r := DentryLookup(fs, room, k.value, buf, rest);
    }

    method LookupPath(fs: Fs, room: nat, cwd: nat, path: string) returns (r: Option<nat>)
      requires CacheInv(fs, dents) && cwd < |dents| && NUL !in path && Short(Tokens(path))
      modifies this
      ensures (dents, r) == old(VfsLookup(fs, dents, room, cwd, path))
    {
      if |path| >= MAX_PATH_LEN { return None; }
      var buf := new char[MAX_PATH_LEN](i => NUL);
      RealPath.Copy(buf, path);
      var from, token := cwd, Some(0);
      if |path| > 0 && path[0] == '/' {
        from := 0;
        ghost var b0 := buf[..];
        var _, rest := Strsep(buf, token, SEP);
        StrsepTokens(b0, buf[..], 0, rest);
        TokensAfterSlash(path);
        token := rest;
        assert Remaining(buf[..], token) == Tokens(path[1..]);
      }
      r := DentryLookup(fs, room, from, buf, token);
    }

    /** _search: writes the path down to the parent of `d`, each name with a separator after it. */
    method SearchUp(fs: Fs, d: nat, size: nat) returns (ok: bool, text: string)
      requires CacheInv(fs, dents) && d < |dents|
      ensures ok <==> d == 0 || |UpTo(fs, dents, d)| < size
      ensures ok ==> text == UpTo(fs, dents, d)
      decreases d
    {
      hide Siblings;
      assert Rooted(fs, dents, d);
      if dents[d].parent.None? { return true, ""; }
      var p := dents[d].parent.value;
      assert Rooted(fs, dents, p);
      ok, text := SearchUp(fs, p, size);
      TextOf(fs, dents, p);
      if !ok { return; }
      if |text| + |dents[p].name| + 1 >= size { return false, text; }
      text := text + dents[p].name + SEP;
    }

    /** dentry_abspath: the absolute path, with one byte of the buffer to spare; empty for the root. The second room
        test fails without setting errno. */
    method Abspath(fs: Fs, d: nat, size: nat) returns (r: RealPath.Written)
      requires CacheInv(fs, dents) && d < |dents|
      ensures r == RealPath.Abs(NamesOf(fs, dents, d), size)
    {
      assert Rooted(fs, dents, d);
      UpToIs(fs, dents, d);
      var ok, text := SearchUp(fs, d, size);
      TextOf(fs, dents, d);
      RootNames(fs, dents, d);
      if !ok { return RealPath.TooLong; }
      if |text| + |dents[d].name| + 1 >= size { return RealPath.Parent(text); }
      r := RealPath.Whole(text + dents[d].name);
    }

    /** task_getcwd with the buffer of realpath: any failure returns errno, so that the one without errno succeeds. */
    method TaskGetcwd(fs: Fs, cwd: nat) returns (r: Option<string>)
      requires CacheInv(fs, dents) && cwd < |dents|
      ensures r == RealPath.GetCwd(NamesOf(fs, dents, cwd))
    {
      var w := Abspath(fs, cwd, MAX_PATH_LEN);
      match w {
        case TooLong => r := None;
        case Parent(text) => r := Some(text);
        case Whole(text) => r := Some(if |text| == 0 then SEP else text);
      }
    }
  }

  lemma UpToIs(fs: Fs, c: Cache, d: nat)
    requires CacheInv(fs, c) && d < |c|
    ensures RealPath.Up(NamesOf(fs, c, d)) == UpTo(fs, c, d)
  {
    assert Rooted(fs, c, d);
    if d > 0 {
      var ns := NamesOf(fs, c, d);
      assert ns[..|ns| - 1] == NamesOf(fs, c, c[d].parent.value);
    }
  }

  lemma ParentBelow(fs: Fs, c: Cache, d: nat)
    requires CacheInv(fs, c) && d < |c|
    ensures c[d].parent.Some? ==> c[d].parent.value < |c|
  {
    assert Rooted(fs, c, d);
  }

  lemma TextOf(fs: Fs, c: Cache, d: nat)
    requires CacheInv(fs, c) && d < |c|
    ensures PathText(NamesOf(fs, c, d)) == UpTo(fs, c, d) + c[d].name
  {
    assert Rooted(fs, c, d);
    if d > 0 {
      var ns := NamesOf(fs, c, d);
      assert ns[..|ns| - 1] == NamesOf(fs, c, c[d].parent.value);
    }
  }

  /** realpath and the dentry walk commute: for a path that does not climb above the root and whose texts fit, with room
      for the entries, realpath fails where vfs_lookup fails, and where vfs_lookup finds an entry, realpath answers with
      its absolute path if and only if it sets out from the right place. */
  lemma RealPathIsAbspath(fs: Fs, c: Cache, room: nat, cwd: nat, path: string)
    requires CacheInv(fs, c) && cwd < |c| && Short(Tokens(path)) && |path| < MAX_PATH_LEN
    requires var from := if RealPath.Absolute(path) then [] else NamesOf(fs, c, cwd);
             Climb(fs, c[0].ino, from, Tokens(path)).None? && RealPath.Fits(fs, c[0].ino, from, Tokens(path))
    ensures var (c', r) := VfsLookup(fs, c, room, cwd, path);
            var names := NamesOf(fs, c, cwd);
            var answer := RealPath.Real(p => RealPath.Stat(fs, c[0].ino, p), RealPath.GetCwd(names), path);
            && CacheInv(fs, c')
            && match r
               case Some(e) =>
                 && e < |c'|
                 && (answer == RealPath.Done(if e == 0 then SEP else PathText(NamesOf(fs, c', e))) <==>
                     RealPath.SetsOut(names, path))
               case None => answer == RealPath.Fail || |c'| >= room
  {
    hide Rooted, Siblings, RealPath.Fits, RealPath.Real, RealPath.GetCwd, RealPath.SetsOut, RealPath.Stat, Climb;
    var root, names := c[0].ino, NamesOf(fs, c, cwd);
    NamesShort(fs, c, cwd);
    RootNames(fs, c, cwd);
    RealPath.RealPathExact(fs, root, names, path);
    var (c', r) := VfsLookup(fs, c, room, cwd, path);
    if RealPath.Absolute(path) {
      TokensAfterSlash(path);
      assert Tokens(path)[1..] == Tokens(path[1..]);
      LookupIsWalk(fs, c, room, 0, Tokens(path[1..]));
    } else {
      LookupIsWalk(fs, c, room, cwd, Tokens(path));
    }
    if r.Some? { RootNames(fs, c', r.value); }
  }

  lemma RootNames(fs: Fs, c: Cache, d: nat)
    requires CacheInv(fs, c) && d < |c|
    ensures NamesOf(fs, c, d) == [] <==> d == 0
  {
  }
}
