/**
  Freeing an address space, and the round trip: create, serve any accesses, free.
 */
module SpaceLifetime {
  import opened Wrappers
  import opened Frames
  import opened HeapSpec
  import opened HeapRuns
  import opened Paging
  import opened AddressSpaces

  /** The frames an address space maps from its user tables. */
  ghost function OwnLeaves(m: Machine, d: nat): set<nat>
    requires Shape(m) && d in m.dirs
  {
    set i, j | 0 <= i < USER && 0 <= j < ENTRIES && m.dirs[d][i].present && m.dirs[d][i].index in m.tables
                 && m.tables[m.dirs[d][i].index][j].present
            :: m.tables[m.dirs[d][i].index][j].index
  }

  ghost function Own(m: Machine, d: nat): set<nat>
    requires Shape(m) && d in m.dirs
  {
    OwnTables(m, d) + OwnLeaves(m, d)
  }

  /** No other address space reaches a table of `d`, and nothing else holds its frames. */
  ghost predicate Unshared(m: Machine, d: nat)
    requires Shape(m) && d in m.dirs && |m.st.holds| == FRAMES
  {
    && (forall d', i :: Slot(m, d', i) && d' != d ==> m.dirs[d'][i].index !in OwnTables(m, d))
    && (forall f :: f in Own(m, d) ==> f < FRAMES && m.st.holds[f] == 1)
  }

  ghost function Lower(st: State, fs: set<nat>): (r: State)
    ensures |r.users| == |st.users| && |r.holds| == |st.holds| && r.blocks == st.blocks
  {
    st.(users := LowerAll(st.users, fs), holds := LowerAll(st.holds, fs))
  }

  /** free_page_table: every mapped frame, every table, and the block `k` of the directory. */
  ghost function FreeSpace(m: Machine, d: nat, k: nat): Machine
    requires Shape(m) && d in m.dirs && Live(m.st.blocks, k)
  {
    m.(st := Free(Lower(m.st, Own(m, d)), k),
       dirs := m.dirs - {d}, kin := m.kin - {d}, tables := m.tables - OwnTables(m, d))
  }

  lemma LowerInv(st: State, fs: set<nat>)
    requires Sound(st) && forall f :: f in fs ==> f < FRAMES && 0 < st.holds[f]
    ensures Sound(Lower(st, fs))
  {
    hide WellFormed, Sized;
    assert forall f :: 0 <= f < FRAMES && f in fs ==> Touching(st.blocks, f) == 0;
  }

  lemma OwnTable(m: Machine, d: nat, i: int)
    requires Shape(m) && Slot(m, d, i)
    ensures m.dirs[d][i].index in OwnTables(m, d)
  {
  }

  lemma OwnLeaf(m: Machine, d: nat, t: nat, j: int)
    requires Shape(m) && d in m.dirs && t in OwnTables(m, d) && t in m.tables && 0 <= j < ENTRIES &&
             m.tables[t][j].present
    ensures m.tables[t][j].index in OwnLeaves(m, d)
  {
    var i :| 0 <= i < USER && m.dirs[d][i].present && m.dirs[d][i].index == t;
  }

  lemma OwnLeafFrom(m: Machine, d: nat, f: nat) returns (t: nat, j: int)
    requires Shape(m) && d in m.dirs && f in OwnLeaves(m, d)
    ensures t in OwnTables(m, d) && t in m.tables && 0 <= j < ENTRIES && m.tables[t][j].present &&
            m.tables[t][j].index == f
  {
    var i :| 0 <= i < USER && m.dirs[d][i].present && m.dirs[d][i].index in m.tables &&
             exists j :: 0 <= j < ENTRIES && m.tables[m.dirs[d][i].index][j].present &&
                 m.tables[m.dirs[d][i].index][j].index == f;
    t := m.dirs[d][i].index;
    j :| 0 <= j < ENTRIES && m.tables[t][j].present && m.tables[t][j].index == f;
  }

  lemma OwnTableFrom(m: Machine, master: Table, d: nat, t: nat) returns (i: int)
    requires PInv(m, master) && d in m.dirs && t in OwnTables(m, d)
    ensures Slot(m, d, i) && m.dirs[d][i].index == t && t in m.tables && !KernelTable(master, t)
  {
    hide Sound, Leaves, HeldFrames;
    i :| 0 <= i < USER && m.dirs[d][i].present && m.dirs[d][i].index == t;
    assert Slot(m, d, i);
  }

  // ----- how a fault changes what an address space owns

  lemma SetLeafOwns(m: Machine, d: nat, t: nat, j: nat, page: nat, user: bool)
    requires Shape(m) && d in m.dirs && t in OwnTables(m, d) && t in m.tables && j < ENTRIES && !m.tables[t][j].present
    ensures var m' := SetLeaf(m, t, j, page, user);
            Shape(m') && OwnTables(m', d) == OwnTables(m, d) && OwnLeaves(m', d) == OwnLeaves(m, d) + {page}
  {
    var m' := SetLeaf(m, t, j, page, user);
    assert OwnTables(m', d) == OwnTables(m, d);
    OwnLeaf(m', d, t, j);
    forall f | f in OwnLeaves(m', d)
      ensures f in OwnLeaves(m, d) + {page}
    {
      var t', j' := OwnLeafFrom(m', d, f);
      if t' != t || j' != j { OwnLeaf(m, d, t', j'); }
    }
    forall f | f in OwnLeaves(m, d)
      ensures f in OwnLeaves(m', d)
    {
      var t', j' := OwnLeafFrom(m, d, f);
      OwnLeaf(m', d, t', j');
    }
  }

  lemma AddTableOwns(m: Machine, d: nat, i: nat, t: nat, user: bool)
    requires Shape(m) && d in m.dirs && i < USER && !Slot(m, d, i) && t !in m.tables
    requires forall i' :: Slot(m, d, i') ==> m.dirs[d][i'].index in m.tables
    ensures var m' := AddTable(m, d, i, t, user);
            Shape(m') && OwnTables(m', d) == OwnTables(m, d) + {t} && OwnLeaves(m', d) == OwnLeaves(m, d)
  {
    var m' := AddTable(m, d, i, t, user);
    assert Shape(m');
    forall t' | t' in OwnTables(m', d)
      ensures t' in OwnTables(m, d) + {t}
    {
      var i' :| 0 <= i' < USER && m'.dirs[d][i'].present && m'.dirs[d][i'].index == t';
      assert i' != i ==> m.dirs[d][i'] == m'.dirs[d][i'] && Slot(m, d, i');
    }
    assert Slot(m', d, i);
    forall t' | t' in OwnTables(m, d)
      ensures t' in OwnTables(m', d)
    {
      var i' :| 0 <= i' < USER && m.dirs[d][i'].present && m.dirs[d][i'].index == t';
      assert Slot(m, d, i') && m.dirs[d][i'] == m'.dirs[d][i'];
    }
    forall f | f in OwnLeaves(m', d)
      ensures f in OwnLeaves(m, d)
    {
      var t', j' := OwnLeafFrom(m', d, f);
      OwnLeaf(m, d, t', j');
    }
    forall f | f in OwnLeaves(m, d)
      ensures f in OwnLeaves(m', d)
    {
      var t', j' := OwnLeafFrom(m, d, f);
      OwnLeaf(m', d, t', j');
    }
  }

  /** What a served fault adds to an address space: a set of frames nobody held, each now held once;
      outside `d` and its tables nothing moves. */
  ghost predicate Grew(m: Machine, d: nat, m': Machine, added: set<nat>)
    requires Shape(m) && Shape(m') && d in m.dirs && d in m'.dirs && |m.st.holds| == FRAMES
  {
    && m'.dirs - {d} == m.dirs - {d} && m'.kin == m.kin && m'.st.blocks == m.st.blocks && m'.born == m.born
    && m'.tables - OwnTables(m', d) == m.tables - OwnTables(m, d)
    && OwnTables(m, d) <= OwnTables(m', d)
    && OwnTables(m', d) - OwnTables(m, d) !! m.tables.Keys
    && Own(m', d) == Own(m, d) + added
    && |m'.st.holds| == FRAMES
    && forall f :: 0 <= f < FRAMES ==>
         if f in added then m.st.holds[f] == 0 && m'.st.holds[f] == 1 else m'.st.holds[f] == m.st.holds[f]
  }

  lemma GrewInTable(m: Machine, master: Table, d: nat, i: nat, j: nat, page: nat, user: bool)
    requires PInv(m, master) && Slot(m, d, i) && j < ENTRIES && m.dirs[d][i].index in m.tables
    requires !m.tables[m.dirs[d][i].index][j].present
    requires page == NextFree(m.st.users, 0, FRAMES) < FRAMES
    ensures var m' := SetLeaf(m.(st := AllocPage(m.st)), m.dirs[d][i].index, j, page, user);
            Shape(m') && Grew(m, d, m', {page})
  {
    hide WellFormed, Exclusive, Sized, Touching, Leaves, HeldFrames, KernelHalf, Slots, OwnTables, OwnLeaves;
    var t := m.dirs[d][i].index;
    var m1 := m.(st := AllocPage(m.st));
    OwnTable(m, d, i);
    SameOwns(m, m1, d);
    SetLeafOwns(m1, d, t, j, page, user);
    var m' := SetLeaf(m1, t, j, page, user);
    assert m.st.holds[page] == 0;
    assert m'.dirs == m.dirs && m'.kin == m.kin;
    assert m'.tables - OwnTables(m, d) == m.tables - OwnTables(m, d);
    assert Own(m', d) == Own(m, d) + {page};
  }

  lemma GrewNewTable(m: Machine, master: Table, d: nat, i: nat, j: nat, page: nat, t: nat, user: bool)
    requires PInv(m, master) && d in m.dirs && i < USER && !Slot(m, d, i) && j < ENTRIES
    requires page == NextFree(m.st.users, 0, FRAMES) < FRAMES
    requires t == NextFree(AllocPage(m.st).users, 0, FRAMES) < FRAMES
    ensures var m' := SetLeaf(AddTable(m.(st := AllocPage(AllocPage(m.st))), d, i, t, user), t, j, page, user);
            Shape(m') && Grew(m, d, m', {page, t})
  {
    hide WellFormed, Counted, Exclusive, Sized, Leaves, HeldFrames, KernelHalf, OwnTables, OwnLeaves, AllocPage;
    TwoFresh(m, master, page, t);
    TwoHolds(m.st, page, t);
    var m2 := m.(st := AllocPage(AllocPage(m.st)));
    SlotsHaveTables(m, master, d);
    SameOwns(m, m2, d);
    NewTableOwns(m2, d, i, j, page, t, user);
  }

  lemma TwoHolds(st: State, page: nat, t: nat)
    requires Sound(st) && page == NextFree(st.users, 0, FRAMES) < FRAMES
    requires t == NextFree(AllocPage(st).users, 0, FRAMES) < FRAMES
    ensures var st2 := AllocPage(AllocPage(st));
            && st2.blocks == st.blocks && |st2.holds| == FRAMES
            && forall f :: 0 <= f < FRAMES ==>
                 if f in {page, t} then st.holds[f] == 0 && st2.holds[f] == 1 else st2.holds[f] == st.holds[f]
  {
    hide WellFormed, Exclusive, Sized, Touching;
    TwoPages(st, page, t);
    assert st.holds[page] == 0 && st.holds[t] == 0;
  }

  lemma SlotsHaveTables(m: Machine, master: Table, d: nat)
    requires PInv(m, master) && d in m.dirs
    ensures forall i :: Slot(m, d, i) ==> m.dirs[d][i].index in m.tables
  {
  }

  lemma SameOwns(m: Machine, m': Machine, d: nat)
    requires Shape(m) && d in m.dirs && m' == m.(st := m'.st)
    ensures Shape(m') && OwnTables(m', d) == OwnTables(m, d) && OwnLeaves(m', d) == OwnLeaves(m, d)
    ensures forall i :: Slot(m', d, i) ==> Slot(m, d, i)
  {
  }

  lemma NewTableOwns(m: Machine, d: nat, i: nat, j: nat, page: nat, t: nat, user: bool)
    requires Shape(m) && d in m.dirs && i < USER && !Slot(m, d, i) && t !in m.tables && j < ENTRIES
    requires forall i' :: Slot(m, d, i') ==> m.dirs[d][i'].index in m.tables
    ensures var m' := SetLeaf(AddTable(m, d, i, t, user), t, j, page, user);
            && Shape(m') && OwnTables(m', d) == OwnTables(m, d) + {t} && OwnLeaves(m', d) == OwnLeaves(m, d) + {page}
            && m'.tables - OwnTables(m', d) == m.tables - OwnTables(m, d)
            && m'.dirs - {d} == m.dirs - {d}
  {
    hide OwnLeaves;
    AddTableOwns(m, d, i, t, user);
    var m3 := AddTable(m, d, i, t, user);
    SetLeafOwns(m3, d, t, j, page, user);
    var m' := SetLeaf(m3, t, j, page, user);
    var own := OwnTables(m, d);
    assert m'.tables - (own + {t}) == m.tables - own;
    assert m'.dirs - {d} == m.dirs - {d};
  }

  // ----- accesses

  /** An access of a task in `d` to address `cr2`: nothing happens when it translates; the first page and
      the kernel half are refused; otherwise the fault is served if frames are left. */
  ghost function Access(m: Machine, master: Table, d: nat, cr2: nat, user: bool): Machine
    requires PInv(m, master) && d in m.dirs
  {
    if cr2 < PAGE || KBASE <= cr2 || Translate(m, d, cr2).Some? then m else MapPage(m, master, d, cr2, user).0
  }

  lemma AccessGrows(m: Machine, master: Table, d: nat, cr2: nat, user: bool) returns (added: set<nat>)
    requires PInv(m, master) && d in m.dirs
    ensures PInv(Access(m, master, d, cr2, user), master) && d in Access(m, master, d, cr2, user).dirs
    ensures Grew(m, d, Access(m, master, d, cr2, user), added)
  {
    hide WellFormed, Exclusive, Sized, Touching, Leaves, HeldFrames, KernelHalf, Slots;
    added := {};
    if PAGE <= cr2 < KBASE && Translate(m, d, cr2).None? {
      MapPageKeeps(m, master, d, cr2, user);
      var page := NextFree(m.st.users, 0, FRAMES);
      var i, j := cr2 / SLOT, cr2 / PAGE % ENTRIES;
      if MapPage(m, master, d, cr2, user).1 {
        if Slot(m, d, i) {
          SlotTable(m, master, d, i);
          GrewInTable(m, master, d, i, j, page, user);
          added := {page};
        } else {
          var t := NextFree(AllocPage(m.st).users, 0, FRAMES);
          GrewNewTable(m, master, d, i, j, page, t, user);
          added := {page, t};
        }
      }
    }
  }

  lemma AccessKeeps(m: Machine, master: Table, d: nat, cr2: nat, user: bool)
    requires PInv(m, master) && d in m.dirs
    ensures PInv(Access(m, master, d, cr2, user), master) && d in Access(m, master, d, cr2, user).dirs
  {
    hide *;
    var _ := AccessGrows(m, master, d, cr2, user);
  }

  ghost predicate FreeFrame(st: State, f: int) {
    0 <= f < |st.users| && st.users[f] == 0
  }

  /** After an access the address translates if and only if it did before, or lies above the first page and below the
      kernel and frames are left: one, and a second one for the table where the slot is empty. */
  lemma AccessServed(m: Machine, master: Table, d: nat, cr2: nat, user: bool)
    requires PInv(m, master) && d in m.dirs && cr2 < TOP
    ensures var m' := Access(m, master, d, cr2, user);
            && Shape(m') && d in m'.dirs
            && (Translate(m', d, cr2).Some? <==>
                || Translate(m, d, cr2).Some?
                || (&& PAGE <= cr2 < KBASE
                    && exists f :: FreeFrame(m.st, f) &&
                         (m.dirs[d][cr2 / SLOT].present || exists g :: FreeFrame(m.st, g) && g != f)))
  {
    hide PInv, MapPage, Translate;
    AccessKeeps(m, master, d, cr2, user);
    InvOf(m, master);
    InvOf(Access(m, master, d, cr2, user), master);
    if PAGE <= cr2 < KBASE && Translate(m, d, cr2).None? {
      FaultServed(m, master, d, cr2, user);
      if MapPage(m, master, d, cr2, user).1 {
        FaultMapsOnePage(m, master, d, cr2, user, d, cr2);
      } else {
        MapPageKeeps(m, master, d, cr2, user);
      }
    }
  }

  lemma FaultServed(m: Machine, master: Table, d: nat, cr2: nat, user: bool)
    requires PInv(m, master) && d in m.dirs && cr2 < KBASE
    ensures MapPage(m, master, d, cr2, user).1 <==>
            exists f :: FreeFrame(m.st, f) &&
              (m.dirs[d][cr2 / SLOT].present || exists g :: FreeFrame(m.st, g) && g != f)
  {
    hide WellFormed, Counted, Exclusive, KernelHalf, Slots, Leaves, HeldFrames;
    var page := NextFree(m.st.users, 0, FRAMES);
    if page < FRAMES {
      assert FreeFrame(m.st, page);
      var st1 := AllocPage(m.st);
      var t := NextFree(st1.users, 0, FRAMES);
      assert forall g :: g != page ==> (FreeFrame(st1, g) <==> FreeFrame(m.st, g));
      assert !FreeFrame(st1, page);
      if t < FRAMES {
        assert FreeFrame(m.st, t) && t != page;
      } else {
        assert forall g :: FreeFrame(m.st, g) ==> g == page;
      }
    } else {
      assert forall f :: !FreeFrame(m.st, f);
    }
  }

  /** Any number of accesses in one address space, each served, refused or failed. */
  ghost function Serve(m: Machine, master: Table, d: nat, accesses: seq<(nat, bool)>): Machine
    requires PInv(m, master) && d in m.dirs
    decreases |accesses|
  {
    if accesses == [] then m else
    AccessKeeps(m, master, d, accesses[0].0, accesses[0].1);
    Serve(Access(m, master, d, accesses[0].0, accesses[0].1), master, d, accesses[1..])
  }

  // ----- the round trip

  /** `m` is `m0` plus the address space `d` in block list `bs`: every frame of `d` was unheld and is held
      once, and everything else is as it was. */
  ghost predicate Private(m0: Machine, d: nat, bs: seq<Block>, m: Machine)
    requires Shape(m) && |m.st.holds| == |m0.st.holds| == FRAMES
  {
    && d in m.dirs && d !in m0.dirs && m.dirs - {d} == m0.dirs && m.kin - {d} == m0.kin
    && m.st.blocks == bs
    && m.tables - OwnTables(m, d) == m0.tables && OwnTables(m, d) !! m0.tables.Keys
    && forall f :: 0 <= f < FRAMES ==>
         if f in Own(m, d) then m0.st.holds[f] == 0 && m.st.holds[f] == 1 else m.st.holds[f] == m0.st.holds[f]
  }

  lemma GrewPrivate(m0: Machine, d: nat, bs: seq<Block>, m: Machine, m': Machine, added: set<nat>)
    requires Shape(m) && Shape(m') && |m.st.holds| == |m'.st.holds| == |m0.st.holds| == FRAMES
    requires Private(m0, d, bs, m) && d in m'.dirs && Grew(m, d, m', added)
    ensures Private(m0, d, bs, m')
  {
    hide OwnTables, OwnLeaves, Shape;
    assert m.tables.Keys == (m.tables - OwnTables(m, d)).Keys + m.tables.Keys * OwnTables(m, d);
  }

  lemma {:induction false} ServePrivate(m0: Machine, master: Table, d: nat, bs: seq<Block>, m: Machine,
          accesses: seq<(nat, bool)>)
    requires PInv(m, master) && d in m.dirs && |m0.st.holds| == FRAMES && Private(m0, d, bs, m)
    ensures var m' := Serve(m, master, d, accesses); PInv(m', master) && Private(m0, d, bs, m')
    decreases |accesses|
  {
    if accesses != [] {
      var (cr2, user) := accesses[0];
      var added := AccessGrows(m, master, d, cr2, user);
      var m1 := Access(m, master, d, cr2, user);
      GrewPrivate(m0, d, bs, m, m1, added);
      hide Access, Private, Grew;
      ServePrivate(m0, master, d, bs, m1, accesses[1..]);
    }
  }

  lemma CreatePrivate(m0: Machine, master: Table, i: nat, a: nat)
    requires MInv(m0, master) && CanAllocDir(m0.st) && Pick(m0.st.blocks, m0.st.users, PAGE, PAGE) == Some((i, a))
    ensures var m := Create(m0, master);
            PInv(m, master) && Private(m0, a + HDR, Alloc(m0.st, PAGE, PAGE).blocks, m)
  {
    hide WellFormed, Counted, Exclusive, Sized, Pick, Lands, Alloc, Slots, Leaves, HeldFrames, KernelHalf;
    CreateKeeps(m0, master);
    AllocDirBlocks(m0, i, a);
    var m, d := Create(m0, master), a + HDR;
    assert OwnTables(m, d) == {} && OwnLeaves(m, d) == {};
    assert m.dirs - {d} == m0.dirs;
    assert m.kin - {d} == m0.kin;
    assert m.tables - {} == m0.tables;
  }

  /** Two states of the heap invariant with the same blocks and holds have the same counters. */
  lemma CountersDetermined(st: State, st': State)
    requires Sound(st) && Sound(st') && st.blocks == st'.blocks && st.holds == st'.holds
    ensures st == st'
  {
    hide WellFormed, Exclusive, Sized, Touching;
    assert forall f :: 0 <= f < FRAMES ==> st.users[f] == st'.users[f];
    assert st.users == st'.users;
  }

  lemma OwnBounded(m: Machine, master: Table, d: nat)
    requires PInv(m, master) && d in m.dirs
    ensures forall f :: f in Own(m, d) ==> f < FRAMES
  {
    hide Sound, Leaves, KernelHalf, Slots, OwnTables, OwnLeaves;
    forall f | f in OwnTables(m, d)
      ensures f < FRAMES
    {
      var _ := OwnTableFrom(m, master, d, f);
    }
    forall f | f in OwnLeaves(m, d)
      ensures f < FRAMES
    {
      var t, j := OwnLeafFrom(m, d, f);
      var _ := OwnTableFrom(m, master, d, t);
      assert Leaf(m, master, t, j);
    }
  }

  lemma OtherSlots(m0: Machine, master: Table, m: Machine, d: nat, d': nat, i: int)
    requires PInv(m0, master) && Shape(m) && Slot(m, d', i) && d' != d && m.dirs - {d} == m0.dirs
    ensures m.dirs[d'][i].index in m0.tables
  {
    hide Sound, Leaves, KernelHalf, HeldFrames;
    assert d' in m.dirs - {d} && m0.dirs[d'] == m.dirs[d'];
    assert Slot(m0, d', i);
  }

  lemma FreePrivate(m0: Machine, master: Table, d: nat, i: nat, a: nat, m: Machine)
    requires PInv(m0, master) && PInv(m, master) && i < |m0.st.blocks| - 1
    requires Private(m0, d, Insert(m0.st.blocks, i, Block(a, PAGE)), m)
    ensures Live(m.st.blocks, i + 1) && Unshared(m, d) && FreeSpace(m, d, i + 1) == m0.(born := m.born)
  {
    hide WellFormed, Counted, Exclusive, Sized, Slots, Leaves, HeldFrames, KernelHalf, OwnTables, OwnLeaves,
         Touching;
    OwnBounded(m, master, d);
    forall d', i' | Slot(m, d', i') && d' != d
      ensures m.dirs[d'][i'].index !in OwnTables(m, d)
    {
      OtherSlots(m0, master, m, d, d', i');
    }
    FreeState(m0.st, m.st, Own(m, d), i, a);
  }

  lemma FreeState(st0: State, st: State, fs: set<nat>, i: nat, a: nat)
    requires Sound(st0) && Sound(st) && i < |st0.blocks| - 1 && st.blocks == Insert(st0.blocks, i, Block(a, PAGE))
    requires forall f :: f in fs ==> f < FRAMES
    requires forall f :: 0 <= f < FRAMES ==>
               if f in fs then st0.holds[f] == 0 && st.holds[f] == 1 else st.holds[f] == st0.holds[f]
    ensures Live(st.blocks, i + 1) && Free(Lower(st, fs), i + 1) == st0
  {
    hide WellFormed, Counted, Exclusive, Sized, Touching, LowerAll, SubRange, Insert;
    LowerInv(st, fs);
    LowerBack(st0.holds, st.holds, fs);
    InsertRemove(st0.blocks, i, Block(a, PAGE));
    FreeSound(Lower(st, fs), i + 1);
    CountersDetermined(Free(Lower(st, fs), i + 1), st0);
  }

  lemma LowerBack(h0: Counts, h: Counts, fs: set<nat>)
    requires |h0| == |h| == FRAMES
    requires forall f :: 0 <= f < FRAMES ==> if f in fs then h0[f] == 0 && h[f] == 1 else h[f] == h0[f]
    ensures LowerAll(h, fs) == h0
  {
    var r := LowerAll(h, fs);
    assert forall f :: 0 <= f < FRAMES ==> r[f] == h0[f];
  }

  lemma InsertRemove(bs: seq<Block>, i: nat, b: Block)
    requires i < |bs| - 1
    ensures Live(Insert(bs, i, b), i + 1) && Remove(Insert(bs, i, b), i + 1) == bs
  {
  }

  /** Creating an address space, serving any accesses in it (also ones that fail for lack of a frame), and
      freeing it leaves the machine as it was: block list, every counter, every other space and table. */
  lemma RoundTrip(m0: Machine, master: Table, i: nat, a: nat, accesses: seq<(nat, bool)>)
    requires MInv(m0, master) && CanAllocDir(m0.st) && Pick(m0.st.blocks, m0.st.users, PAGE, PAGE) == Some((i, a))
    ensures PInv(Create(m0, master), master) && a + HDR in Create(m0, master).dirs
    ensures var m := Serve(Create(m0, master), master, a + HDR, accesses);
            && Shape(m) && |m.st.holds| == FRAMES && a + HDR in m.dirs && Live(m.st.blocks, i + 1)
            && Unshared(m, a + HDR) && FreeSpace(m, a + HDR, i + 1) == m0.(born := m.born)
  {
    hide WellFormed, Counted, Exclusive, Sized, Slots, Leaves, HeldFrames, KernelHalf, Lands, Create, FreeSpace,
         Unshared, Private;
    CreatePrivate(m0, master, i, a);
    var d, m1 := a + HDR, Create(m0, master);
    var bs := Alloc(m0.st, PAGE, PAGE).blocks;
    PrivateDir(m0, d, bs, m1);
    ServePrivate(m0, master, d, bs, m1, accesses);
    var m := Serve(m1, master, d, accesses);
    PrivateDir(m0, d, bs, m);
    assert bs == Insert(m0.st.blocks, i, Block(a, PAGE));
    FreePrivate(m0, master, d, i, a, m);
  }

  lemma PrivateDir(m0: Machine, d: nat, bs: seq<Block>, m: Machine)
    requires Shape(m) && |m.st.holds| == |m0.st.holds| == FRAMES && Private(m0, d, bs, m)
    ensures d in m.dirs && m.st.blocks == bs
  {
  }
}
