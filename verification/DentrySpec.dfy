/**
  The dentry cache of fs/dentry.c: a tree of names over the inodes of a file system, grown by lookups.
 */
module DentrySpec {
  import opened Wrappers
  import opened CStrings
  import opened PathSpec

  /** A cached directory entry; the root has no parent. Entries are named by their index in the cache. */
  datatype Dentry = Dentry(name: string, ino: nat, parent: Option<nat>, kids: seq<nat>)

  type Cache = seq<Dentry>

  // ----- the invariant

  /** Entry `d` hangs under an earlier entry whose inode gives its inode for its name. */
  ghost predicate Rooted(fs: Fs, c: Cache, d: nat)
    requires d < |c|
  {
    if d == 0 then c[d].parent.None? && c[d].name == ""
    else
      && c[d].parent.Some? && c[d].parent.value < d && d in c[c[d].parent.value].kids
      && Name(c[d].name) && |c[d].name| < DNAME_MAX_LEN
      && fs(c[c[d].parent.value].ino, c[d].name) == Some(c[d].ino)
  }

  /** The children of `d` are entries under it, with distinct names. */
  ghost predicate Siblings(c: Cache, d: nat)
    requires d < |c|
  {
    && (forall i :: 0 <= i < |c[d].kids| ==> 0 < c[d].kids[i] < |c| && c[c[d].kids[i]].parent == Some(d))
    && (forall k, k' ::
          k in c[d].kids && k' in c[d].kids && 0 < k < |c| && 0 < k' < |c| && c[k].name == c[k'].name ==> k == k')
  }

  ghost predicate CacheInv(fs: Fs, c: Cache) {
    && |c| > 0
    && (forall d :: 0 <= d < |c| ==> Rooted(fs, c, d))
    && (forall d :: 0 <= d < |c| ==> Siblings(c, d))
  }

  /** The names from the root down to entry `d`. */
  ghost function NamesOf(fs: Fs, c: Cache, d: nat): seq<string>
    requires CacheInv(fs, c) && d < |c|
    decreases d
  {
    if d == 0 then [] else
    assert Rooted(fs, c, d);
    NamesOf(fs, c, c[d].parent.value) + [c[d].name]
  }

  /** `c'` is `c` with entries added: what an entry is called and where it hangs never changes. */
  ghost predicate Extends(c: Cache, c': Cache) {
    && |c| <= |c'|
    && forall d :: 0 <= d < |c| ==> c'[d].name == c[d].name && c'[d].ino == c[d].ino && c'[d].parent == c[d].parent
  }

  // ----- lookups

  /** LIST_ENTRY_FOREACH over `kids` for a name. */
  function FindIn(c: Cache, kids: seq<nat>, name: string): (r: Option<nat>)
    requires forall i :: 0 <= i < |kids| ==> kids[i] < |c|
    ensures r.Some? ==> r.value in kids && c[r.value].name == name
    ensures r.None? ==> forall i :: 0 <= i < |kids| ==> c[kids[i]].name != name
  {
    if kids == [] then None
    else if c[kids[0]].name == name then Some(kids[0])
    else FindIn(c, kids[1..], name)
  }

  /** A new entry for `name` under `d`. */
  function AddEntry(c: Cache, d: nat, name: string, ino: nat): Cache
    requires d < |c|
  {
    c[d := c[d].(kids := c[d].kids + [|c|])] + [Dentry(name, ino, Some(d), [])]
  }

  /** One name under directory `d`: the cached child, or a new one if the inode knows the name and the allocator
      has room for another entry. */
  ghost function Child(fs: Fs, c: Cache, room: nat, d: nat, name: string): (Cache, Option<nat>)
    requires CacheInv(fs, c) && d < |c|
  {
    assert Siblings(c, d);
    match FindIn(c, c[d].kids, name)
    case Some(k) => (c, Some(k))
    case None =>
      if |c| >= room || fs(c[d].ino, name).None? then (c, None)
      else (AddEntry(c, d, name, fs(c[d].ino, name).value), Some(|c|))
  }

  lemma AddEntryInv(fs: Fs, c: Cache, d: nat, name: string, ino: nat)
    requires CacheInv(fs, c) && d < |c| && Name(name) && |name| < DNAME_MAX_LEN && fs(c[d].ino, name) == Some(ino)
    requires forall k :: k in c[d].kids && k < |c| ==> c[k].name != name
    ensures CacheInv(fs, AddEntry(c, d, name, ino)) && Extends(c, AddEntry(c, d, name, ino))
  {
    var c' := AddEntry(c, d, name, ino);
    forall x | 0 <= x < |c'|
      ensures Rooted(fs, c', x)
    {
      AddEntryRooted(fs, c, d, name, ino, x);
    }
    forall x | 0 <= x < |c'|
      ensures Siblings(c', x)
    {
      AddEntrySiblings(fs, c, d, name, ino, x);
    }
  }

  lemma AddEntryRooted(fs: Fs, c: Cache, d: nat, name: string, ino: nat, x: nat)
    requires CacheInv(fs, c) && d < |c| && Name(name) && |name| < DNAME_MAX_LEN && fs(c[d].ino, name) == Some(ino)
    requires x <= |c|
    ensures Rooted(fs, AddEntry(c, d, name, ino), x)
  {
    hide Siblings;
    if x < |c| { assert Rooted(fs, c, x); }
  }

  lemma AddEntrySiblings(fs: Fs, c: Cache, d: nat, name: string, ino: nat, x: nat)
    requires CacheInv(fs, c) && d < |c| && x <= |c|
    requires forall k :: k in c[d].kids && k < |c| ==> c[k].name != name
    ensures Siblings(AddEntry(c, d, name, ino), x)
  {
    hide Rooted;
    if x < |c| {
      assert Siblings(c, x);
      var c' := AddEntry(c, d, name, ino);
      assert forall k :: k in c'[x].kids ==> k in c[x].kids || (x == d && k == |c|);
    }
  }

  lemma ChildInv(fs: Fs, c: Cache, room: nat, d: nat, name: string)
    requires CacheInv(fs, c) && d < |c| && Name(name) && |name| < DNAME_MAX_LEN
    ensures var (c', r) := Child(fs, c, room, d, name);
            && CacheInv(fs, c') && Extends(c, c') && (r.Some? ==> r.value < |c'|)
            && (r.Some? ==> c'[r.value].name == name && c'[r.value].parent == Some(d) && r.value > 0)
            && (r.None? ==> c' == c && (|c| >= room || fs(c[d].ino, name).None?))
            && (r.Some? ==> fs(c[d].ino, name) == Some(c'[r.value].ino))
  {
    assert Siblings(c, d);
    match FindIn(c, c[d].kids, name)
    case Some(k) => assert Rooted(fs, c, k);
    case None =>
      if |c| < room && fs(c[d].ino, name).Some? {
        AddEntryInv(fs, c, d, name, fs(c[d].ino, name).value);
      }
  }

  ghost predicate Short(ts: seq<string>) {
    forall i :: 0 <= i < |ts| ==> Clean(ts[i]) && |ts[i]| < DNAME_MAX_LEN
  }

  /** dentry_lookup from entry `d` over the remaining tokens. */
  ghost function Lookup(fs: Fs, c: Cache, room: nat, d: nat, ts: seq<string>): (r: (Cache, Option<nat>))
    requires CacheInv(fs, c) && d < |c| && Short(ts)
    decreases |ts|
  {
    if ts == [] then (c, Some(d))
    else if Skipped(ts[0]) then Lookup(fs, c, room, d, ts[1..])
    else if ts[0] == ".." then
      assert Rooted(fs, c, d);
      if c[d].parent.None? then (c, Some(d)) else Lookup(fs, c, room, c[d].parent.value, ts[1..])
    else
      ChildInv(fs, c, room, d, ts[0]);
      var (c', r) := Child(fs, c, room, d, ts[0]);
      match r
      case None => (c', None)
      case Some(k) => Lookup(fs, c', room, k, ts[1..])
  }

  lemma {:induction false} LookupInv(fs: Fs, c: Cache, room: nat, d: nat, ts: seq<string>)
    requires CacheInv(fs, c) && d < |c| && Short(ts)
    ensures var (c', r) := Lookup(fs, c, room, d, ts);
            CacheInv(fs, c') && Extends(c, c') && (r.Some? ==> r.value < |c'|)
    decreases |ts|
  {
    if ts != [] {
      if Skipped(ts[0]) {
        LookupInv(fs, c, room, d, ts[1..]);
      } else if ts[0] == ".." {
        assert Rooted(fs, c, d);
        if c[d].parent.Some? { LookupInv(fs, c, room, c[d].parent.value, ts[1..]); }
      } else {
        ChildInv(fs, c, room, d, ts[0]);
        var (c', r) := Child(fs, c, room, d, ts[0]);
        if r.Some? { LookupInv(fs, c', room, r.value, ts[1..]); }
      }
    }
  }

  lemma {:induction false} NamesKept(fs: Fs, c: Cache, c': Cache, d: nat)
    requires CacheInv(fs, c) && CacheInv(fs, c') && Extends(c, c') && d < |c|
    ensures NamesOf(fs, c', d) == NamesOf(fs, c, d)
    decreases d
  {
    if d > 0 {
      assert Rooted(fs, c, d);
      NamesKept(fs, c, c', c[d].parent.value);
    }
  }

  lemma InoAtRoot(fs: Fs, root: nat)
    ensures InoAt(fs, root, []) == Some(root)
  {
  }

  /** Every cached entry carries the inode that its names lead to through the inode operations alone. */
  lemma {:induction false} CachedInode(fs: Fs, c: Cache, d: nat)
    requires CacheInv(fs, c) && d < |c|
    ensures InoAt(fs, c[0].ino, NamesOf(fs, c, d)) == Some(c[d].ino) && Names(NamesOf(fs, c, d))
    decreases d
  {
    hide InoAt, Siblings;
    assert Rooted(fs, c, d);
    if d > 0 {
      var p := c[d].parent.value;
      CachedInode(fs, c, p);
      InoAtSnoc(fs, c[0].ino, NamesOf(fs, c, p), c[d].name);
    } else {
      InoAtRoot(fs, c[0].ino);
    }
  }

  /** A lookup through the cache answers as the walk over names does, unless the allocator runs out: the entry it
      returns is the one the walk reaches, and it fails where the walk fails. */
  lemma {:induction false} LookupIsWalk(fs: Fs, c: Cache, room: nat, d: nat, ts: seq<string>)
    requires CacheInv(fs, c) && d < |c| && Short(ts)
    ensures var (c', r) := Lookup(fs, c, room, d, ts); var w := Walk(fs, c[0].ino, NamesOf(fs, c, d), ts);
            && CacheInv(fs, c')
            && match r
               case Some(e) => e < |c'| && w == Some(NamesOf(fs, c', e))
               case None => w.None? || |c'| >= room
    decreases |ts|
  {
    hide InoAt, Siblings;
    LookupInv(fs, c, room, d, ts);
    if ts != [] {
      if Skipped(ts[0]) {
        LookupIsWalk(fs, c, room, d, ts[1..]);
      } else if ts[0] == ".." {
        assert Rooted(fs, c, d);
        if c[d].parent.Some? {
          LookupIsWalk(fs, c, room, c[d].parent.value, ts[1..]);
          assert NamesOf(fs, c, d)[..|NamesOf(fs, c, d)| - 1] == NamesOf(fs, c, c[d].parent.value);
        }
      } else {
        ChildInv(fs, c, room, d, ts[0]);
        var (c', r) := Child(fs, c, room, d, ts[0]);
        ChildWalk(fs, c, d, ts[0]);
        if r.Some? {
          NamesKept(fs, c, c', d);
          assert NamesOf(fs, c', r.value) == NamesOf(fs, c, d) + [ts[0]];
          LookupIsWalk(fs, c', room, r.value, ts[1..]);
        }
      }
    }
  }

  lemma ChildWalk(fs: Fs, c: Cache, d: nat, name: string)
    requires CacheInv(fs, c) && d < |c|
    ensures InoAt(fs, c[0].ino, NamesOf(fs, c, d) + [name]) == fs(c[d].ino, name)
  {
    hide InoAt, NamesOf;
    CachedInode(fs, c, d);
    InoAtSnoc(fs, c[0].ino, NamesOf(fs, c, d), name);
  }

  // ----- looking up what is cached

  /** A further name at the end is one more step from where the names before it lead. */
  lemma {:induction false} LookupSnoc(fs: Fs, c: Cache, room: nat, d: nat, ts: seq<string>, name: string)
    requires CacheInv(fs, c) && d < |c| && Short(ts + [name]) && Names(ts + [name])
    requires Short(ts) && CacheInv(fs, Lookup(fs, c, room, d, ts).0)
    requires Lookup(fs, c, room, d, ts).1.Some? ==> Lookup(fs, c, room, d, ts).1.value < |Lookup(fs, c, room, d, ts).0|
    ensures var (c1, r) := Lookup(fs, c, room, d, ts);
            Lookup(fs, c, room, d, ts + [name]) == if r.None? then (c1, None) else Child(fs, c1, room, r.value, name)
    decreases |ts|
  {
    assert (ts + [name])[|ts|] == name;
    if ts == [] {
      assert ts + [name] == [name];
      ChildInv(fs, c, room, d, name);
    } else {
      assert (ts + [name])[0] == ts[0] && (ts + [name])[1..] == ts[1..] + [name];
      ChildInv(fs, c, room, d, ts[0]);
      var (c', r) := Child(fs, c, room, d, ts[0]);
      if r.Some? { LookupSnoc(fs, c', room, r.value, ts[1..], name); }
    }
  }

  lemma {:induction false} NamesShort(fs: Fs, c: Cache, d: nat)
    requires CacheInv(fs, c) && d < |c|
    ensures Short(NamesOf(fs, c, d)) && Names(NamesOf(fs, c, d))
    decreases d
  {
    assert Rooted(fs, c, d);
    if d > 0 { NamesShort(fs, c, c[d].parent.value); }
  }

  /** Looking up the names of a cached entry from the root returns that entry and adds nothing. */
  lemma {:induction false} LookupCached(fs: Fs, c: Cache, room: nat, d: nat)
    requires CacheInv(fs, c) && d < |c|
    ensures Short(NamesOf(fs, c, d)) && Lookup(fs, c, room, 0, NamesOf(fs, c, d)) == (c, Some(d))
    decreases d
  {
    NamesShort(fs, c, d);
    if d > 0 {
      assert Rooted(fs, c, d);
      var p := c[d].parent.value;
      LookupCached(fs, c, room, p);
      NamesShort(fs, c, p);
      LookupSnoc(fs, c, room, 0, NamesOf(fs, c, p), c[d].name);
      assert Siblings(c, p);
    }
  }

  /** No two entries have the same names from the root. */
  lemma NamesDistinct(fs: Fs, c: Cache, d: nat, e: nat)
    requires CacheInv(fs, c) && d < |c| && e < |c| && NamesOf(fs, c, d) == NamesOf(fs, c, e)
    ensures d == e
  {
    LookupCached(fs, c, 0, d);
    LookupCached(fs, c, 0, e);
  }

  // ----- vfs_lookup

  /** vfs_lookup with working directory `cwd`. */
  ghost function VfsLookup(fs: Fs, c: Cache, room: nat, cwd: nat, path: string): (Cache, Option<nat>)
    requires CacheInv(fs, c) && cwd < |c| && Short(Tokens(path))
  {
    if |path| >= MAX_PATH_LEN then (c, None)
    else if |path| > 0 && path[0] == '/' then
      TokensAfterSlash(path);
      assert Tokens(path)[1..] == Tokens(path[1..]);
      Lookup(fs, c, room, 0, Tokens(path[1..]))
    else Lookup(fs, c, room, cwd, Tokens(path))
  }

  lemma TokensAfterSlash(path: string)
    requires |path| > 0 && path[0] == '/'
    ensures Tokens(path) == [""] + Tokens(path[1..])
  {
    assert FirstOf(path, SEP) == 0;
  }

  /** vfs_lookup on any text: one that is too long fails; another leads, from the root or from the working directory, to
      the entry the walk over its names reaches, and fails where that fails, unless memory runs out. */
  lemma VfsLookupIsWalk(fs: Fs, c: Cache, room: nat, cwd: nat, path: string)
    requires CacheInv(fs, c) && cwd < |c| && Short(Tokens(path))
    ensures var (c', r) := VfsLookup(fs, c, room, cwd, path);
            var from := if |path| > 0 && path[0] == '/' then [] else NamesOf(fs, c, cwd);
            var w := Walk(fs, c[0].ino, from, Tokens(path));
            && CacheInv(fs, c')
            && match r
               case Some(e) => |path| < MAX_PATH_LEN && e < |c'| && w == Some(NamesOf(fs, c', e))
               case None => |path| >= MAX_PATH_LEN || w.None? || |c'| >= room
  {
    hide InoAt, Siblings, Rooted, Lookup;
    if |path| < MAX_PATH_LEN {
      if |path| > 0 && path[0] == '/' {
        TokensAfterSlash(path);
        assert Tokens(path)[1..] == Tokens(path[1..]);
        LookupIsWalk(fs, c, room, 0, Tokens(path[1..]));
      } else {
        LookupIsWalk(fs, c, room, cwd, Tokens(path));
      }
    }
  }

  /** Looking up the absolute path of a cached entry, as text, returns that same entry and leaves the cache alone;
      the root answers to a single separator. */
  lemma VfsLookupAbsolute(fs: Fs, c: Cache, room: nat, cwd: nat, d: nat)
    requires CacheInv(fs, c) && d < |c| && cwd < |c| && |PathText(NamesOf(fs, c, d))| < MAX_PATH_LEN
    ensures var path := if d == 0 then SEP else PathText(NamesOf(fs, c, d));
            Short(Tokens(path)) && VfsLookup(fs, c, room, cwd, path) == (c, Some(d))
  {
    var path := if d == 0 then SEP else PathText(NamesOf(fs, c, d));
    LookupCached(fs, c, room, d);
    NamesShort(fs, c, d);
    if d == 0 {
      CutWhole("");
      assert path[1..] == "" && Tokens("") == [""];
      assert [""][1..] == [];
      TokensAfterSlash(path);
    } else {
      TokensPathText(NamesOf(fs, c, d));
      TokensAfterSlash(path);
    }
  }

  // ----- runs

  /** A cache holding only the root. */
  function Fresh(root: nat): Cache {
    [Dentry("", root, None, [])]
  }

  /** A lookup from entry `dir` along `tokens` while the allocator has room for `room` entries in all. */
  datatype Query = Query(room: nat, dir: nat, tokens: seq<string>)

  ghost predicate Next(fs: Fs, c: Cache, q: Query, c': Cache) {
    CacheInv(fs, c) ==> q.dir < |c| && Short(q.tokens) && c' == Lookup(fs, c, q.room, q.dir, q.tokens).0
  }

  ghost predicate IsRun(fs: Fs, root: nat, cs: seq<Cache>, qs: seq<Query>) {
    && |cs| == |qs| + 1 && cs[0] == Fresh(root)
    && forall i :: 0 <= i < |qs| ==> Next(fs, cs[i], qs[i], cs[i + 1])
  }

  /** After any run of lookups the cache is a tree of well-formed names, distinct among siblings, whose every entry
      has the inode that the inode operations alone give for its names. */
  lemma {:induction false} RunCache(fs: Fs, root: nat, cs: seq<Cache>, qs: seq<Query>, n: nat)
    requires IsRun(fs, root, cs, qs) && n < |cs|
    ensures CacheInv(fs, cs[n]) && cs[n][0].ino == root
    ensures forall d :: 0 <= d < |cs[n]| ==> InoAt(fs, root, NamesOf(fs, cs[n], d)) == Some(cs[n][d].ino)
  {
    hide Lookup, Rooted, Siblings;
    if n == 0 {
      FreshInv(fs, root);
    } else {
      RunCache(fs, root, cs, qs, n - 1);
      var q := qs[n - 1];
      assert Next(fs, cs[n - 1], q, cs[n]);
      LookupInv(fs, cs[n - 1], q.room, q.dir, q.tokens);
    }
    forall d | 0 <= d < |cs[n]|
      ensures InoAt(fs, root, NamesOf(fs, cs[n], d)) == Some(cs[n][d].ino)
    {
      CachedInode(fs, cs[n], d);
    }
  }

  lemma FreshInv(fs: Fs, root: nat)
    ensures CacheInv(fs, Fresh(root))
  {
  }

  /** Resolving through the cache gives the inode that the walk over inode operations gives. */
  lemma CacheTransparent(fs: Fs, c: Cache, room: nat, d: nat, ts: seq<string>)
    requires CacheInv(fs, c) && d < |c| && Short(ts)
    ensures var (c', r) := Lookup(fs, c, room, d, ts); var w := Walk(fs, c[0].ino, NamesOf(fs, c, d), ts);
            r.Some? ==> w.Some? && r.value < |c'| && InoAt(fs, c[0].ino, w.value) == Some(c'[r.value].ino)
  {
    hide Rooted, Siblings;
    LookupIsWalk(fs, c, room, d, ts);
    LookupInv(fs, c, room, d, ts);
    var (c', r) := Lookup(fs, c, room, d, ts);
    if r.Some? { CachedInode(fs, c', r.value); }
  }
}
