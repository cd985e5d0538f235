/**
  Lives of address spaces: alloc_page_table, clone_page_table and free_page_table between
  page faults and other heap activity, and what every such run keeps.
 */
module AddressSpaces {
  import opened Wrappers
  import opened Frames
  import opened HeapSpec
  import opened HeapRuns
  import opened Paging

  /** The master directory of the kernel maps no user slot but the first, which creation strips. */
  ghost predicate MasterOk(master: Table) {
    |master| == ENTRIES && forall i :: 0 < i < USER ==> !master[i].present
  }

  /** Each directory is the data of a live heap block of one page, on a page boundary, where the processor looks for
      it. */
  ghost predicate DirBlocks(m: Machine) {
    forall d :: d in m.dirs ==> HDR <= d && d % PAGE == 0 && Block(d - HDR, PAGE) in m.st.blocks
  }

  ghost predicate MInv(m: Machine, master: Table) {
    MasterOk(master) && PInv(m, master) && DirBlocks(m)
  }

  /** kmemalign finds a page-aligned block for a directory, or none at all (AlignmentExact tells which requests come
      back misaligned), does not land on a held page, and raises no counter at its last value. */
  ghost predicate CanAllocDir(st: State)
    requires Sound(st)
  {
    && Lands(st, PAGE, PAGE) && CounterLeft(st, PAGE, PAGE)
    && match Pick(st.blocks, st.users, PAGE, PAGE) case None => true case Some((_, a)) => (a + HDR) % PAGE == 0
  }

  lemma PickedFresh(bs: seq<Block>, c: Counts, align: nat, size: nat, i: nat, a: nat, k: nat)
    requires WellFormed(bs) && |c| == FRAMES && align < TOP && size + HDR < TOP
    requires Pick(bs, c, align, size) == Some((i, a)) && k < |bs|
    ensures bs[k].addr != a
  {
    hide Search, FindGap, FirstHeader;
    PickInGap(bs, c, align, size, i, a);
    assert k < i ==> End(bs[k]) <= bs[i].addr;
    assert i + 1 < k ==> End(bs[i + 1]) <= bs[k].addr;
  }

  // ----- creation

  ghost function NewDir(m: Machine, d: nat, dir: Table, family: nat): Machine {
    m.(dirs := m.dirs[d := dir], kin := m.kin[d := family])
  }

  /** alloc_page_table: the kernel's directory without its first slot. */
  ghost function Create(m: Machine, master: Table): (r: Machine)
    requires MInv(m, master)
  {
    match Pick(m.st.blocks, m.st.users, PAGE, PAGE)
    case None => m
    case Some((i, a)) =>
      NewDir(m.(st := Alloc(m.st, PAGE, PAGE), born := m.born + 1), a + HDR,
              master[0 := master[0].(present := false)], m.born)
  }

  /** A new address space that leads to no user table keeps everything. */
  lemma NewDirKeeps(m: Machine, master: Table, d: nat, dir: Table)
    requires MasterOk(master) && PInv(m, master) && d !in m.dirs && |dir| == ENTRIES
    requires forall i :: 0 <= i < USER ==> !dir[i].present
    requires forall i :: USER <= i < ENTRIES ==> dir[i] == master[i]
    ensures PInv(NewDir(m.(born := m.born + 1), d, dir, m.born), master)
  {
    hide Sound;
    var m' := NewDir(m.(born := m.born + 1), d, dir, m.born);
    assert Shape(m');
    assert forall d', i :: Slot(m', d', i) ==> d' != d && Slot(m, d', i);
    assert forall t, j :: Leaf(m', master, t, j) <==> Leaf(m, master, t, j);
  }

  /** Heap activity that leaves the holds alone keeps the paging invariant. */
  lemma HeapKeeps(m: Machine, master: Table, st: State)
    requires PInv(m, master) && Sound(st) && st.holds == m.st.holds
    ensures PInv(m.(st := st), master)
  {
    hide Sound;
    var m' := m.(st := st);
    assert Shape(m') && forall t, j :: Leaf(m', master, t, j) <==> Leaf(m, master, t, j);
    assert forall d, i :: Slot(m', d, i) <==> Slot(m, d, i);
  }

  lemma InsertMembers(bs: seq<Block>, i: nat, b: Block)
    requires i < |bs|
    ensures b in Insert(bs, i, b) && forall b' :: b' in bs ==> b' in Insert(bs, i, b)
  {
    var bs' := Insert(bs, i, b);
    assert bs'[i + 1] == b;
    forall b' | b' in bs
      ensures b' in bs'
    {
      var k :| 0 <= k < |bs| && bs[k] == b';
      assert bs'[if k <= i then k else k + 1] == b';
    }
  }

  lemma AllocDirBlocks(m: Machine, i: nat, a: nat)
    requires Sound(m.st) && DirBlocks(m)
    requires Pick(m.st.blocks, m.st.users, PAGE, PAGE) == Some((i, a))
    ensures a + HDR !in m.dirs && Block(a, PAGE) in Alloc(m.st, PAGE, PAGE).blocks
    ensures forall b :: b in m.st.blocks ==> b in Alloc(m.st, PAGE, PAGE).blocks
  {
    hide WellFormed, Search, FindGap, FirstHeader, Touching, Counted, Exclusive, Insert, AddRange;
    InsertMembers(m.st.blocks, i, Block(a, PAGE));
    if a + HDR in m.dirs {
      var k :| 0 <= k < |m.st.blocks| && m.st.blocks[k] == Block(a, PAGE);
      PickedFresh(m.st.blocks, m.st.users, PAGE, PAGE, i, a, k);
    }
  }

  lemma DirAdded(m: Machine, m': Machine, a: nat)
    requires DirBlocks(m) && m'.dirs.Keys == m.dirs.Keys + {a + HDR} && Block(a, PAGE) in m'.st.blocks
    requires forall b :: b in m.st.blocks ==> b in m'.st.blocks
    ensures DirBlocks(m') <==> (a + HDR) % PAGE == 0
  {
    assert Block(a + HDR - HDR, PAGE) == Block(a, PAGE);
  }

  /** The block of a directory leaves list, counters and exclusion as they should be. */
  lemma AllocDirSound(st: State)
    requires Sound(st)
    ensures Sound(Alloc(st, PAGE, PAGE)) <==> Lands(st, PAGE, PAGE) && CounterLeft(st, PAGE, PAGE)
  {
    hide Sound, Lands, CounterLeft, Alloc;
    StepSound(st, KMemAlign(PAGE, PAGE));
  }

  /** Creation keeps the invariant if and only if the block for the directory, if there is one, lands on an unheld page,
      raises no counter at its last value, and puts the directory on a page boundary. */
  lemma CreateExact(m: Machine, master: Table)
    requires MInv(m, master)
    ensures MInv(Create(m, master), master) <==> CanAllocDir(m.st)
  {
    hide PInv, Sound, Pick, Lands, CounterLeft, Alloc;
    InvOf(m, master);
    if CanAllocDir(m.st) {
      CreateKeeps(m, master);
    } else {
      AllocDirSound(m.st);
      var m' := Create(m, master);
      match Pick(m.st.blocks, m.st.users, PAGE, PAGE) {
        case None => NothingPicked(m.st);
        case Some((_, a)) =>
          assert a + HDR in m'.dirs && m'.st == Alloc(m.st, PAGE, PAGE);
          if PInv(m', master) { InvOf(m', master); }
      }
    }
  }

  lemma NothingPicked(st: State)
    requires Sound(st) && Pick(st.blocks, st.users, PAGE, PAGE).None?
    ensures Lands(st, PAGE, PAGE) && CounterLeft(st, PAGE, PAGE)
  {
    hide Pick;
  }

  lemma CreateKeeps(m: Machine, master: Table)
    requires MInv(m, master) && CanAllocDir(m.st)
    ensures MInv(Create(m, master), master)
  {
    hide Sound, Pick, Lands, CounterLeft, Alloc, PInv, DirBlocks;
    InvOf(m, master);
    AllocDirSound(m.st);
    match Pick(m.st.blocks, m.st.users, PAGE, PAGE)
    case None =>
    case Some((i, a)) =>
      AllocDirBlocks(m, i, a);
      AllocHolds(m.st);
      HeapKeeps(m, master, Alloc(m.st, PAGE, PAGE));
      NewDirKeeps(m.(st := Alloc(m.st, PAGE, PAGE)), master, a + HDR, master[0 := master[0].(present := false)]);
      DirAdded(m, Create(m, master), a);
  }

  lemma AllocHolds(st: State)
    requires Sound(st)
    ensures Alloc(st, PAGE, PAGE).holds == st.holds && |Alloc(st, PAGE, PAGE).users| == |st.holds| == FRAMES
  {
    hide Alloc, Counted, Exclusive;
  }

  /** A new space translates kernel addresses as the master directory does and user addresses not at all; no other space
      sees a change. */
  lemma CreateTranslates(m: Machine, master: Table, i: nat, a: nat, v: nat)
    requires MInv(m, master) && Pick(m.st.blocks, m.st.users, PAGE, PAGE) == Some((i, a)) && v < TOP
    ensures var m' := Create(m, master); var d := a + HDR;
            && Shape(m') && d !in m.dirs && m'.dirs.Keys == m.dirs.Keys + {d} && Block(a, PAGE) in m'.st.blocks
            && Translate(m', d, v) == (if v < KBASE then None else Walk(master, m.tables, v))
            && forall e :: e in m.dirs ==> Translate(m', e, v) == Translate(m, e, v)
  {
    hide WellFormed, Counted, Exclusive, Pick, Lands, Alloc, Slots, Leaves, HeldFrames;
    AllocDirBlocks(m, i, a);
  }

  /** `m'` is `m` with one more space `d`, over a block of its own, that translates kernel addresses as the master
      directory does and user addresses not at all. */
  ghost predicate Added(m: Machine, m': Machine, master: Table, d: nat) {
    && Shape(m) && Shape(m') && |master| == ENTRIES
    && d !in m.dirs && m'.dirs.Keys == m.dirs.Keys + {d} && HDR <= d && Block(d - HDR, PAGE) in m'.st.blocks
    && (forall v: nat :: v < TOP ==> Translate(m', d, v) == if v < KBASE then None else Walk(master, m.tables, v))
    && (forall e, v: nat :: e in m.dirs && v < TOP ==> Translate(m', e, v) == Translate(m, e, v))
  }

  lemma CreateAdded(m: Machine, master: Table, i: nat, a: nat)
    requires MInv(m, master) && Pick(m.st.blocks, m.st.users, PAGE, PAGE) == Some((i, a))
    ensures Added(m, Create(m, master), master, a + HDR)
  {
    hide PInv, Pick, Lands, Alloc, Walk, Create, Translate;
    InvOf(m, master);
    var m', d := Create(m, master), a + HDR;
    CreateTranslates(m, master, i, a, 0);
    forall v: nat | v < TOP
      ensures Translate(m', d, v) == if v < KBASE then None else Walk(master, m.tables, v)
    {
      CreateTranslates(m, master, i, a, v);
    }
    forall e, v: nat | e in m.dirs && v < TOP
      ensures Translate(m', e, v) == Translate(m, e, v)
    {
      CreateTranslates(m, master, i, a, v);
    }
    assert Block(d - HDR, PAGE) == Block(a, PAGE);
  }

  lemma InvOf(m: Machine, master: Table)
    requires PInv(m, master)
    ensures Sound(m.st) && Shape(m) && |master| == ENTRIES && |m.st.users| == |m.st.holds| == FRAMES
  {
  }

  // ----- cloning

  /** The page tables an address space reaches from its user slots. */
  ghost function OwnTables(m: Machine, d: nat): set<nat>
    requires Shape(m) && d in m.dirs
  {
    set i | 0 <= i < USER && m.dirs[d][i].present :: m.dirs[d][i].index
  }

  /** The copied directory: every present user slot loses its write right. */
  function CloneDir(dir: Table): (r: Table)
    requires |dir| == ENTRIES
    ensures |r| == ENTRIES
  {
    seq(ENTRIES, i requires 0 <= i < ENTRIES => if i < USER && dir[i].present then dir[i].(rw := false) else dir[i])
  }

  ghost function Raise(st: State, fs: set<nat>): (r: State)
    ensures |r.users| == |st.users| && |r.holds| == |st.holds|
  {
    st.(users := RaiseAll(st.users, fs), holds := RaiseAll(st.holds, fs))
  }

  /** clone_page_table: a read-only copy of the directory, and one more hold on each user table. */
  ghost function Clone(m: Machine, master: Table, d: nat): (r: Machine)
    requires MInv(m, master) && d in m.dirs
  {
    match Pick(m.st.blocks, m.st.users, PAGE, PAGE)
    case None => m
    case Some((i, a)) =>
      NewDir(m.(st := Raise(Alloc(m.st, PAGE, PAGE), OwnTables(m, d))), a + HDR, CloneDir(m.dirs[d]), m.kin[d])
  }

  /** No counter of a table of `d` is at its last value. */
  ghost predicate CountersLeft(m: Machine, d: nat)
    requires Shape(m) && d in m.dirs && |m.st.holds| == FRAMES
  {
    forall i :: Slot(m, d, i) ==> m.dirs[d][i].index < FRAMES && m.st.holds[m.dirs[d][i].index] < 255
  }

  lemma RaiseInv(st: State, fs: set<nat>)
    requires Sound(st) && forall f :: f in fs ==> f < FRAMES && 0 < st.holds[f] < 255
    ensures Sound(Raise(st, fs))
  {
    hide WellFormed;
    var st' := Raise(st, fs);
    assert forall f :: 0 <= f < FRAMES && f in fs ==> Touching(st.blocks, f) == 0;
  }

  /** What does not mention the counters does not see them change. */
  lemma RaiseOther(m: Machine, master: Table, m': Machine)
    requires |master| == ENTRIES && Shape(m) && m' == m.(st := m'.st)
    ensures Shape(m') && (KernelHalf(m, master) ==> KernelHalf(m', master))
    ensures Slots(m, master) ==> Slots(m', master)
    ensures Leaves(m, master) ==> Leaves(m', master)
  {
    assert forall t, j :: Leaf(m', master, t, j) <==> Leaf(m, master, t, j);
    assert forall d, i :: Slot(m', d, i) <==> Slot(m, d, i);
  }

  lemma RaiseKeeps(m: Machine, master: Table, fs: set<nat>)
    requires PInv(m, master) && forall f :: f in fs ==> f < FRAMES && 0 < m.st.holds[f] < 255
    ensures PInv(m.(st := Raise(m.st, fs)), master)
  {
    hide WellFormed, Counted, Exclusive, Slots, KernelHalf;
    RaiseInv(m.st, fs);
    var m' := m.(st := Raise(m.st, fs));
    RaiseOther(m, master, m');
    assert Shape(m') && forall t, j :: Leaf(m', master, t, j) <==> Leaf(m, master, t, j);
    assert forall d, i :: Slot(m', d, i) <==> Slot(m, d, i);
  }

  /** A copy of an existing directory, in the same family, keeps everything. */
  lemma CopyDirKeeps(m: Machine, master: Table, d: nat, d': nat)
    requires PInv(m, master) && d in m.dirs && d' !in m.dirs
    ensures PInv(NewDir(m, d', CloneDir(m.dirs[d]), m.kin[d]), master)
  {
    hide Sound;
    var m' := NewDir(m, d', CloneDir(m.dirs[d]), m.kin[d]);
    assert Shape(m');
    assert forall e, i :: Slot(m', e, i) ==>
             var e0 := if e == d' then d else e;
             Slot(m, e0, i) && m'.dirs[e][i].index == m.dirs[e0][i].index && m'.kin[e] == m.kin[e0];
    assert forall t, j :: Leaf(m', master, t, j) <==> Leaf(m, master, t, j);
  }

  lemma OwnTablesHeld(m: Machine, master: Table, d: nat)
    requires PInv(m, master) && d in m.dirs && CountersLeft(m, d)
    ensures forall f :: f in OwnTables(m, d) ==> f < FRAMES && 0 < m.st.holds[f] < 255
  {
    hide Sound, Leaves;
    forall f | f in OwnTables(m, d)
      ensures f < FRAMES && 0 < m.st.holds[f] < 255
    {
      var i :| 0 <= i < USER && m.dirs[d][i].present && m.dirs[d][i].index == f;
      assert Slot(m, d, i);
    }
  }

  /** What a clone that gets its directory is. */
  lemma CloneIs(m: Machine, master: Table, d: nat, i: nat, a: nat)
    requires MInv(m, master) && d in m.dirs && Pick(m.st.blocks, m.st.users, PAGE, PAGE) == Some((i, a))
    ensures d in m.kin && |m.dirs[d]| == ENTRIES && a + HDR !in m.dirs
    ensures Clone(m, master, d) ==
            NewDir(m.(st := Raise(Alloc(m.st, PAGE, PAGE), OwnTables(m, d))), a + HDR, CloneDir(m.dirs[d]), m.kin[d])
    ensures |Alloc(m.st, PAGE, PAGE).users| == |Alloc(m.st, PAGE, PAGE).holds| == FRAMES
    ensures Alloc(m.st, PAGE, PAGE).holds == m.st.holds
  {
    hide Sound, Pick, Alloc, Raise, CloneDir, OwnTables, KernelHalf, Slots, Leaves, HeldFrames;
    AllocDirBlocks(m, i, a);
    AllocHolds(m.st);
  }

  lemma CloneDirBlocks(m: Machine, master: Table, d: nat, i: nat, a: nat)
    requires MInv(m, master) && d in m.dirs && Pick(m.st.blocks, m.st.users, PAGE, PAGE) == Some((i, a))
    ensures DirBlocks(Clone(m, master, d)) <==> (a + HDR) % PAGE == 0
  {
    hide Sound, Pick, Alloc, Clone, CloneDir, OwnTables, PInv, RaiseAll, DirBlocks;
    InvOf(m, master);
    AllocDirBlocks(m, i, a);
    CloneIs(m, master, d, i, a);
    DirAdded(m, Clone(m, master, d), a);
  }

  lemma ClonePaging(m: Machine, master: Table, d: nat, i: nat, a: nat)
    requires MInv(m, master) && d in m.dirs && Pick(m.st.blocks, m.st.users, PAGE, PAGE) == Some((i, a))
    requires CountersLeft(m, d) && Sound(Alloc(m.st, PAGE, PAGE))
    ensures PInv(Clone(m, master, d), master)
  {
    hide Sound, Pick, Alloc, PInv, CloneDir, Raise, CountersLeft, Clone, OwnTables, DirBlocks, NewDir;
    InvOf(m, master);
    CloneIs(m, master, d, i, a);
    var st1 := Alloc(m.st, PAGE, PAGE);
    HeapKeeps(m, master, st1);
    OwnTablesHeld(m, master, d);
    RaiseKeeps(m.(st := st1), master, OwnTables(m, d));
    CopyDirKeeps(m.(st := Raise(st1, OwnTables(m, d))), master, d, a + HDR);
  }

  lemma CloneKeeps(m: Machine, master: Table, d: nat)
    requires MInv(m, master) && d in m.dirs && CanAllocDir(m.st) && CountersLeft(m, d)
    ensures MInv(Clone(m, master, d), master)
  {
    hide Sound, Pick, Lands, CounterLeft, Alloc, PInv, CloneDir, Raise, CountersLeft, DirBlocks, OwnTables;
    InvOf(m, master);
    AllocDirSound(m.st);
    match Pick(m.st.blocks, m.st.users, PAGE, PAGE)
    case None =>
    case Some((i, a)) =>
      ClonePaging(m, master, d, i, a);
      CloneDirBlocks(m, master, d, i, a);
  }

  /** A clone translates every address as its parent does, user addresses without the write right;
      every other address space translates as before. */
  lemma CloneTranslates(m: Machine, master: Table, d: nat, i: nat, a: nat, v: nat)
    requires MInv(m, master) && d in m.dirs && v < TOP
    requires Pick(m.st.blocks, m.st.users, PAGE, PAGE) == Some((i, a))
    ensures var m' := Clone(m, master, d); var d' := a + HDR; var old' := Translate(m, d, v);
            && Shape(m') && d' !in m.dirs && d' in m'.dirs
            && Translate(m', d', v) == (if old'.Some? && v < KBASE then Some(old'.value.(rw := false)) else old')
            && forall e :: e in m.dirs ==> e in m'.dirs && Translate(m', e, v) == Translate(m, e, v)
  {
    hide WellFormed, Counted, Exclusive, Pick, Lands, Alloc, RaiseAll, Slots, Leaves, HeldFrames;
    AllocDirBlocks(m, i, a);
  }

  /** After a clone each table of the parent has exactly one user and one hold more, in the eight bits of its counter,
      and only the block of the new directory adds to any other frame. */
  lemma CloneCounts(m: Machine, master: Table, d: nat, i: nat, a: nat, f: nat)
    requires MInv(m, master) && d in m.dirs && f < FRAMES
    requires Pick(m.st.blocks, m.st.users, PAGE, PAGE) == Some((i, a))
    ensures var st, st' := m.st, Clone(m, master, d).st; var k: int := if f in OwnTables(m, d) then 1 else 0;
            && |st'.users| == |st'.holds| == FRAMES
            && st'.holds[f] as int == (st.holds[f] as int + k) % 256
            && st'.users[f] as int == (st.users[f] as int + k + (if Touches(Block(a, PAGE), f) then 1 else 0)) % 256
  {
    hide Sound, Touches, Pick, Alloc, OwnTables, PInv, Clone, CloneDir, Raise, DirBlocks;
    InvOf(m, master);
    CloneIs(m, master, d, i, a);
    RaisedCount(m.st, OwnTables(m, d), i, a, f);
  }

  lemma RaiseCount(st: State, fs: set<nat>, f: nat)
    requires |st.users| == |st.holds| == FRAMES && f < FRAMES
    ensures var k: int := if f in fs then 1 else 0; var st' := Raise(st, fs);
            && |st'.users| == |st'.holds| == FRAMES
            && st'.holds[f] as int == (st.holds[f] as int + k) % 256 &&
                st'.users[f] as int == (st.users[f] as int + k) % 256
  {
  }

  lemma RaisedCount(st: State, fs: set<nat>, i: nat, a: nat, f: nat)
    requires Sound(st) && f < FRAMES && Pick(st.blocks, st.users, PAGE, PAGE) == Some((i, a))
    ensures var k: int := if f in fs then 1 else 0; var st' := Raise(Alloc(st, PAGE, PAGE), fs);
            && |st'.users| == |st'.holds| == FRAMES
            && st'.holds[f] as int == (st.holds[f] as int + k) % 256
            && st'.users[f] as int == (st.users[f] as int + k + (if Touches(Block(a, PAGE), f) then 1 else 0)) % 256
  {
    hide Pick, Alloc, Raise, Touches, Counted, Exclusive, WellFormed;
    AllocHolds(st);
    AllocCount(st, i, a, f);
    RaiseCount(Alloc(st, PAGE, PAGE), fs, f);
    var touch: int := if Touches(Block(a, PAGE), f) then 1 else 0;
    ModTwice(st.users[f], touch, if f in fs then 1 else 0);
  }

  lemma ModTwice(x: int, a: int, b: int)
    ensures ((x + a) % 256 + b) % 256 == (x + b + a) % 256
  {
  }

  lemma AllocCount(st: State, i: nat, a: nat, f: nat)
    requires Sound(st) && f < FRAMES && Pick(st.blocks, st.users, PAGE, PAGE) == Some((i, a))
    ensures Alloc(st, PAGE, PAGE).users[f] as int ==
            (st.users[f] as int + if Touches(Block(a, PAGE), f) then 1 else 0) % 256
  {
    hide Pick, Counted, Exclusive, WellFormed, Insert, Touches;
    TouchedFrames(Block(a, PAGE), f);
  }

  /** A clone keeps the invariant if and only if the block for its directory, if there is one, is one that creation
      could use, and then no counter of a shared table is at its last value: one at 255 comes back as zero, and the
      table counts as free. */
  lemma CloneExact(m: Machine, master: Table, d: nat)
    requires MInv(m, master) && d in m.dirs
    ensures MInv(Clone(m, master, d), master) <==>
            CanAllocDir(m.st) && (Pick(m.st.blocks, m.st.users, PAGE, PAGE).Some? ==> CountersLeft(m, d))
  {
    hide PInv, Pick, OwnTables, Raise, CloneDir, Sound, Lands, CounterLeft, Alloc, CountersLeft, DirBlocks;
    InvOf(m, master);
    match Pick(m.st.blocks, m.st.users, PAGE, PAGE)
    case None => NothingPicked(m.st);
    case Some((i, a)) =>
      AllocDirSound(m.st);
      CloneDirBlocks(m, master, d, i, a);
      ClonePagingExact(m, master, d, i, a);
  }

  lemma ClonePagingExact(m: Machine, master: Table, d: nat, i: nat, a: nat)
    requires MInv(m, master) && d in m.dirs && Pick(m.st.blocks, m.st.users, PAGE, PAGE) == Some((i, a))
    ensures |m.st.holds| == FRAMES
    ensures PInv(Clone(m, master, d), master) <==> CountersLeft(m, d) && Sound(Alloc(m.st, PAGE, PAGE))
  {
    hide PInv, Pick, OwnTables, Raise, CloneDir, Sound, Alloc, CountersLeft, DirBlocks, Clone;
    InvOf(m, master);
    CloneIs(m, master, d, i, a);
    var m', st1 := Clone(m, master, d), Alloc(m.st, PAGE, PAGE);
    if !CountersLeft(m, d) {
      var t := FullTable(m, master, d);
      RaiseFull(st1, OwnTables(m, d), t);
      UnheldTable(m', master, t);
    } else if Sound(st1) {
      ClonePaging(m, master, d, i, a);
    } else if PInv(m', master) {
      InvOf(m', master);
      OwnTablesHeld(m, master, d);
      RaiseBack(st1, OwnTables(m, d));
    }
  }

  /** Raising holds that are there already, and can rise, does not make a state sound. */
  lemma RaiseBack(st: State, fs: set<nat>)
    requires |st.users| == |st.holds| == FRAMES && Sound(Raise(st, fs))
    requires forall f :: f in fs ==> f < FRAMES && 0 < st.holds[f] < 255
    ensures Sound(st)
  {
    hide WellFormed, Touching;
    var st' := Raise(st, fs);
    forall f | 0 <= f < FRAMES
      ensures st.users[f] == Touching(st.blocks, f) + st.holds[f] && (Touching(st.blocks, f) > 0 ==> st.holds[f] == 0)
    {
      assert st'.users[f] == Touching(st.blocks, f) + st'.holds[f];
    }
  }

  lemma FullTable(m: Machine, master: Table, d: nat) returns (t: nat)
    requires PInv(m, master) && d in m.dirs && !CountersLeft(m, d)
    ensures t in m.tables && t in OwnTables(m, d) && t < FRAMES && m.st.holds[t] == 255
  {
    hide Sound, Leaves, KernelHalf;
    var j :| Slot(m, d, j) && !(m.dirs[d][j].index < FRAMES && m.st.holds[m.dirs[d][j].index] < 255);
    t := m.dirs[d][j].index;
  }

  lemma RaiseFull(st: State, fs: set<nat>, t: nat)
    requires t in fs && t < |st.holds| && st.holds[t] == 255
    ensures Raise(st, fs).holds[t] == 0
  {
  }

  lemma UnheldTable(m: Machine, master: Table, t: nat)
    requires t in m.tables && t < |m.st.holds| && m.st.holds[t] == 0
    ensures !PInv(m, master)
  {
    hide Sound, Leaves, KernelHalf, Slots;
  }
}
