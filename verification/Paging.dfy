/**
  Two-level page tables (mm/mm.c, mm/page_fault.c) over the counters shared with the heap:
  the address walk, page faults, and creating, cloning and freeing address spaces.
 */
module Paging {
  import opened Wrappers
  import opened Frames
  import opened HeapSpec
  import opened HeapRuns

  const ENTRIES: int := 1024
  const USER: int := 768                   // directory slots below CONFIG_KERNEL_VM_OFFSET
  const SLOT: int := 0x40_0000             // bytes mapped by one directory slot

  datatype Entry = Entry(present: bool, rw: bool, us: bool, index: nat)

  const EMPTY: Entry := Entry(false, false, false, 0)

  type Table = seq<Entry>

  /** A translation: the frame and the rights both levels grant. */
  datatype Mapping = Mapping(frame: nat, rw: bool, us: bool)

  /** Heap and counters, the directory of each address space by its address, the frames in use as page
      tables, and the creation each address space descends from by cloning, out of `born` so far. */
  datatype Machine = Machine(st: State, dirs: map<nat, Table>, tables: map<nat, Table>, kin: map<nat, nat>, born: nat)

  /** The walk of 32-bit paging: directory slot, table slot, frame. */
  function Walk(dir: Table, tables: map<nat, Table>, v: nat): (r: Option<Mapping>)
    requires |dir| == ENTRIES && v < TOP
  {
    var de := dir[v / SLOT];
    if !de.present || de.index !in tables then None else
    var tbl := tables[de.index];
    var j := v / PAGE % ENTRIES;
    if |tbl| <= j || !tbl[j].present then None
    else Some(Mapping(tbl[j].index, de.rw && tbl[j].rw, de.us && tbl[j].us))
  }

  // ----- the invariant

  ghost predicate Shape(m: Machine) {
    && (forall d :: d in m.dirs ==> |m.dirs[d]| == ENTRIES)
    && (forall t :: t in m.tables ==> |m.tables[t]| == ENTRIES)
    && m.kin.Keys == m.dirs.Keys && (forall d :: d in m.kin ==> m.kin[d] < m.born)
  }

  /** A present user slot of an address space. */
  ghost predicate Slot(m: Machine, d: nat, i: int)
    requires Shape(m)
  {
    d in m.dirs && 0 <= i < USER && m.dirs[d][i].present
  }

  ghost predicate KernelTable(master: Table, t: nat)
    requires |master| == ENTRIES
  {
    exists i :: USER <= i < ENTRIES && master[i].present && master[i].index == t
  }

  /** A present entry of a user page table. */
  ghost predicate Leaf(m: Machine, master: Table, t: nat, j: int)
    requires Shape(m) && |master| == ENTRIES
  {
    t in m.tables && !KernelTable(master, t) && 0 <= j < ENTRIES && m.tables[t][j].present
  }

  /** Every directory carries the master directory's kernel half, whose tables exist. */
  ghost predicate KernelHalf(m: Machine, master: Table)
    requires Shape(m) && |master| == ENTRIES
  {
    && (forall d, i :: d in m.dirs && USER <= i < ENTRIES ==> m.dirs[d][i] == master[i])
    && (forall i :: USER <= i < ENTRIES && master[i].present ==> master[i].index in m.tables)
  }

  /** User slots lead to user tables, shared only at the same slot of spaces related by clone. */
  ghost predicate Slots(m: Machine, master: Table)
    requires Shape(m) && |master| == ENTRIES
  {
    && (forall d, i :: Slot(m, d, i) ==>
          m.dirs[d][i].index in m.tables && !KernelTable(master, m.dirs[d][i].index))
    && (forall d, i, d', i' ::
          Slot(m, d, i) && Slot(m, d', i') && m.dirs[d][i].index == m.dirs[d'][i'].index ==>
          i == i' && m.kin[d] == m.kin[d'])
  }

  /** No two user table entries map the same frame, and none maps a page table. */
  ghost predicate Leaves(m: Machine, master: Table)
    requires Shape(m) && |master| == ENTRIES
  {
    && (forall t, j :: Leaf(m, master, t, j) ==> m.tables[t][j].index !in m.tables)
    && (forall t, j, t', j' ::
          Leaf(m, master, t, j) && Leaf(m, master, t', j') && m.tables[t][j].index == m.tables[t'][j'].index ==>
          t == t' && j == j')
  }

  /** Every table and every mapped frame is held. */
  ghost predicate HeldFrames(m: Machine, master: Table)
    requires Shape(m) && |master| == ENTRIES
  {
    && |m.st.holds| == FRAMES
    && (forall t :: t in m.tables ==> t < FRAMES && m.st.holds[t] > 0)
    && (forall t, j :: Leaf(m, master, t, j) ==> m.tables[t][j].index < FRAMES && m.st.holds[m.tables[t][j].index] > 0)
  }

  ghost predicate PInv(m: Machine, master: Table) {
    && |master| == ENTRIES && Shape(m) && Sound(m.st)
    && KernelHalf(m, master) && Slots(m, master) && Leaves(m, master) && HeldFrames(m, master)
  }

  // ----- page faults

  /** An empty page table in frame `t`, entered at slot `i` of `d`. */
  function AddTable(m: Machine, d: nat, i: nat, t: nat, user: bool): Machine
    requires d in m.dirs && i < |m.dirs[d]|
  {
    m.(tables := m.tables[t := seq(ENTRIES, _ => EMPTY)],
       dirs := m.dirs[d := m.dirs[d][i := Entry(true, true, user, t)]])
  }

  /** Entry `j` of table `t` mapping `page`. */
  function SetLeaf(m: Machine, t: nat, j: nat, page: nat, user: bool): Machine
    requires t in m.tables && j < |m.tables[t]|
  {
    m.(tables := m.tables[t := m.tables[t][j := Entry(true, true, user, page)]])
  }

  /** map_page: a free frame for the page of `cr2`, and one more for its table if the slot is empty;
      a frame already taken is given back when the second one is not to be had. */
  ghost function MapPage(m: Machine, master: Table, d: nat, cr2: nat, user: bool): (r: (Machine, bool))
    requires PInv(m, master) && d in m.dirs && cr2 < KBASE
  {
    var page := NextFree(m.st.users, 0, FRAMES);
    if page == FRAMES then (m, false) else
    var i, j := cr2 / SLOT, cr2 / PAGE % ENTRIES;
    var m1 := m.(st := AllocPage(m.st));
    if Slot(m, d, i) then (SetLeaf(m1, m.dirs[d][i].index, j, page, user), true) else
    var t := NextFree(m1.st.users, 0, FRAMES);
    if t == FRAMES then (m.(st := FreePage(m1.st, page)), false)
    else (SetLeaf(AddTable(m1.(st := AllocPage(m1.st)), d, i, t, user), t, j, page, user), true)
  }

  /** A frame nobody uses is neither a table nor mapped. */
  lemma FreshFrame(m: Machine, master: Table, f: nat)
    requires PInv(m, master) && f < FRAMES && m.st.users[f] == 0
    ensures f !in m.tables && forall t, j :: Leaf(m, master, t, j) ==> m.tables[t][j].index != f
  {
    assert m.st.holds[f] == 0;
  }

  /** One more hold on any frame keeps everything. */
  lemma AllocPageKeeps(m: Machine, master: Table)
    requires PInv(m, master)
    ensures PInv(m.(st := AllocPage(m.st)), master)
  {
    AllocPageUnused(m.st);
    hide Sound;
    var m' := m.(st := AllocPage(m.st));
    assert Shape(m') && forall t, j :: Leaf(m', master, t, j) <==> Leaf(m, master, t, j);
    assert forall d, i :: Slot(m', d, i) <==> Slot(m, d, i);
  }

  lemma AddTableKeeps(m: Machine, master: Table, d: nat, i: nat, t: nat, user: bool)
    requires PInv(m, master) && d in m.dirs && i < USER && !Slot(m, d, i)
    requires t < FRAMES && m.st.holds[t] > 0 && t !in m.tables
    requires forall t', j :: Leaf(m, master, t', j) ==> m.tables[t'][j].index != t
    ensures PInv(AddTable(m, d, i, t, user), master)
  {
    hide Sound;
    AddTableLeaves(m, master, d, i, t, user);
    AddTableSlots(m, master, d, i, t, user);
    hide Leaves, HeldFrames, Slots;
  }

  lemma AddTableLeaves(m: Machine, master: Table, d: nat, i: nat, t: nat, user: bool)
    requires |master| == ENTRIES && Shape(m) && KernelHalf(m, master) && Leaves(m, master) && HeldFrames(m, master)
    requires d in m.dirs && i < USER && t < FRAMES && m.st.holds[t] > 0 && t !in m.tables
    requires forall t', j :: Leaf(m, master, t', j) ==> m.tables[t'][j].index != t
    ensures var m' := AddTable(m, d, i, t, user);
            Shape(m') && KernelHalf(m', master) && Leaves(m', master) && HeldFrames(m', master)
  {
    var m' := AddTable(m, d, i, t, user);
    assert Shape(m');
    assert forall t', j :: Leaf(m', master, t', j) ==> t' != t && Leaf(m, master, t', j);
  }

  lemma AddTableSlots(m: Machine, master: Table, d: nat, i: nat, t: nat, user: bool)
    requires |master| == ENTRIES && Shape(m) && KernelHalf(m, master) && Slots(m, master)
    requires d in m.dirs && i < USER && !Slot(m, d, i) && t !in m.tables
    ensures var m' := AddTable(m, d, i, t, user); Shape(m') && Slots(m', master)
  {
    var m' := AddTable(m, d, i, t, user);
    assert Shape(m') && !KernelTable(master, t);
    assert forall d', i' :: Slot(m', d', i') ==>
             (d' == d && i' == i) || (Slot(m, d', i') && m'.dirs[d'][i'] == m.dirs[d'][i']);
  }

  lemma SetLeafKeeps(m: Machine, master: Table, t: nat, j: nat, page: nat, user: bool)
    requires PInv(m, master) && t in m.tables && !KernelTable(master, t) && j < ENTRIES
    requires page < FRAMES && m.st.holds[page] > 0 && page !in m.tables
    requires forall t', j' :: Leaf(m, master, t', j') ==> m.tables[t'][j'].index != page
    ensures PInv(SetLeaf(m, t, j, page, user), master)
  {
    hide Sound;
    var m' := SetLeaf(m, t, j, page, user);
    assert Shape(m');
    assert forall d, i :: Slot(m', d, i) <==> Slot(m, d, i);
    assert forall t', j' :: Leaf(m', master, t', j') ==>
             (t' == t && j' == j) || (Leaf(m, master, t', j') && m'.tables[t'][j'] == m.tables[t'][j']);
  }

  /** A fault that finds only one frame where it needs two gives it back and changes nothing. */
  lemma FailedFaultUndone(st: State)
    requires |st.users| == |st.holds| == FRAMES && NextFree(st.users, 0, FRAMES) < FRAMES
    ensures FreePage(AllocPage(st), NextFree(st.users, 0, FRAMES)) == st
  {
    hide WellFormed, Exclusive, Sized, Counted, Touching;
    var f := NextFree(st.users, 0, FRAMES);
    var st' := FreePage(AllocPage(st), f);
    assert st'.users == st.users;
    assert st'.holds == st.holds;
  }

  lemma SlotTable(m: Machine, master: Table, d: nat, i: nat)
    requires PInv(m, master) && Slot(m, d, i)
    ensures m.dirs[d][i].index in m.tables && !KernelTable(master, m.dirs[d][i].index)
  {
  }

  /** The two frames a fault on an empty slot takes: distinct, unused before, held after. */
  lemma TwoFresh(m: Machine, master: Table, page: nat, t: nat)
    requires PInv(m, master)
    requires page == NextFree(m.st.users, 0, FRAMES) < FRAMES
    requires t == NextFree(AllocPage(m.st).users, 0, FRAMES) < FRAMES
    ensures t != page && m.st.users[t] == 0 && t !in m.tables && !KernelTable(master, t)
    ensures var st2 := AllocPage(AllocPage(m.st)); |st2.holds| == FRAMES && st2.holds[page] > 0 && st2.holds[t] > 0
    ensures forall t', j :: Leaf(m, master, t', j) ==> m.tables[t'][j].index != t && m.tables[t'][j].index != page
  {
    hide WellFormed, Exclusive, Sized, Leaves, Slots;
    TwoPages(m.st, page, t);
    FreshFrame(m, master, page);
    FreshFrame(m, master, t);
    hide HeldFrames, Sound, AllocPage;
  }

  lemma TwoPages(st: State, page: nat, t: nat)
    requires Sound(st) && page == NextFree(st.users, 0, FRAMES) < FRAMES
    requires t == NextFree(AllocPage(st).users, 0, FRAMES) < FRAMES
    ensures t != page && st.users[t] == 0
    ensures var st2 := AllocPage(AllocPage(st)); |st2.holds| == FRAMES && st2.holds[page] > 0 && st2.holds[t] > 0
  {
    hide WellFormed, Exclusive, Sized, Touching;
    assert st.holds[page] == 0 && st.holds[t] == 0;
  }

  lemma AddTableNoLeaf(m: Machine, master: Table, d: nat, i: nat, t: nat, user: bool)
    requires |master| == ENTRIES && Shape(m) && d in m.dirs && i < USER && t !in m.tables
    ensures Shape(AddTable(m, d, i, t, user))
    ensures var m' := AddTable(m, d, i, t, user);
            forall t', j :: Leaf(m', master, t', j) ==>
              t' != t && Leaf(m, master, t', j) && m'.tables[t'][j] == m.tables[t'][j]
  {
  }

  /** Serving a fault keeps the invariant; a fault that fails leaves the machine as it was. */
  lemma MapPageKeeps(m: Machine, master: Table, d: nat, cr2: nat, user: bool)
    requires PInv(m, master) && d in m.dirs && cr2 < KBASE
    ensures PInv(MapPage(m, master, d, cr2, user).0, master)
    ensures !MapPage(m, master, d, cr2, user).1 ==> MapPage(m, master, d, cr2, user).0 == m
  {
    hide WellFormed, Exclusive, Sized, Touching, Leaves, Slots, HeldFrames, KernelHalf;
    var page := NextFree(m.st.users, 0, FRAMES);
    if page < FRAMES {
      var i, j := cr2 / SLOT, cr2 / PAGE % ENTRIES;
      FreshFrame(m, master, page);
      AllocPageKeeps(m, master);
      var m1 := m.(st := AllocPage(m.st));
      if Slot(m, d, i) {
        SlotTable(m, master, d, i);
        MapInTable(m, master, m.dirs[d][i].index, j, page, user);
      } else {
        var t := NextFree(m1.st.users, 0, FRAMES);
        if t == FRAMES {
          FailedFaultUndone(m.st);
        } else {
          AllocPageKeeps(m1, master);
          MapNewTable(m, master, d, i, j, page, t, user);
        }
      }
    }
  }

  lemma MapInTable(m: Machine, master: Table, t: nat, j: nat, page: nat, user: bool)
    requires PInv(m, master) && t in m.tables && !KernelTable(master, t) && j < ENTRIES
    requires page == NextFree(m.st.users, 0, FRAMES) < FRAMES
    ensures PInv(SetLeaf(m.(st := AllocPage(m.st)), t, j, page, user), master)
  {
    hide WellFormed, Exclusive, Sized, Touching, Leaves, Slots, HeldFrames, KernelHalf;
    FreshFrame(m, master, page);
    AllocPageKeeps(m, master);
    assert m.st.holds[page] == 0;
    SetLeafKeeps(m.(st := AllocPage(m.st)), master, t, j, page, user);
  }

  lemma MapNewTable(m: Machine, master: Table, d: nat, i: nat, j: nat, page: nat, t: nat, user: bool)
    requires PInv(m, master) && d in m.dirs && i < USER && !Slot(m, d, i) && j < ENTRIES
    requires page == NextFree(m.st.users, 0, FRAMES) < FRAMES
    requires t == NextFree(AllocPage(m.st).users, 0, FRAMES) < FRAMES
    requires PInv(m.(st := AllocPage(AllocPage(m.st))), master)
    ensures PInv(SetLeaf(AddTable(m.(st := AllocPage(AllocPage(m.st))), d, i, t, user), t, j, page, user), master)
  {
    hide WellFormed, Exclusive, Sized, Touching, Leaves, Slots, HeldFrames, KernelHalf;
    var m2 := m.(st := AllocPage(AllocPage(m.st)));
    TwoFresh(m, master, page, t);
    assert forall t', j' :: Leaf(m2, master, t', j') <==> Leaf(m, master, t', j');
    FreshFrame(m, master, page);
    AddTableKeeps(m2, master, d, i, t, user);
    AddTableNoLeaf(m2, master, d, i, t, user);
    SetLeafKeeps(AddTable(m2, d, i, t, user), master, t, j, page, user);
  }

  // ----- what a fault does to translations

  /** Translation of `v` in address space `d`. */
  ghost function Translate(m: Machine, d: nat, v: nat): Option<Mapping>
    requires Shape(m) && d in m.dirs && v < TOP
  {
    Walk(m.dirs[d], m.tables, v)
  }

  /** An empty table maps nothing new and hides nothing. */
  lemma AddTableWalk(m: Machine, master: Table, d: nat, i: nat, t: nat, user: bool, d': nat, v: nat)
    requires PInv(m, master) && d in m.dirs && i < USER && !Slot(m, d, i) && t !in m.tables
    requires d' in m.dirs && v < TOP && Shape(AddTable(m, d, i, t, user))
    ensures Translate(AddTable(m, d, i, t, user), d', v) == Translate(m, d', v)
  {
    hide Sound, Leaves, HeldFrames;
    var k := v / SLOT;
    if k < USER && m.dirs[d'][k].present {
      assert Slot(m, d', k);
    }
  }

  lemma SetLeafWalk(m: Machine, t: nat, j: nat, page: nat, user: bool, d: nat, v: nat)
    requires Shape(m) && t in m.tables && j < ENTRIES && d in m.dirs && v < TOP
    ensures var m' := SetLeaf(m, t, j, page, user); Shape(m') && m'.dirs == m.dirs
    ensures var de := m.dirs[d][v / SLOT];
            Translate(SetLeaf(m, t, j, page, user), d, v) ==
            if de.present && de.index == t && v / PAGE % ENTRIES == j then Some(Mapping(page, de.rw, de.us && user))
            else Translate(m, d, v)
  {
  }

  /** Address space `d'` sees a fault served in `d` at `v`: same page, and the same page table. */
  ghost predicate Sees(m: Machine, d: nat, cr2: nat, d': nat, v: nat)
    requires Shape(m) && d in m.dirs && d' in m.dirs && cr2 < KBASE
  {
    var i := cr2 / SLOT;
    v / PAGE == cr2 / PAGE && m.dirs[d'][i].present && m.dirs[d'][i].index == m.dirs[d][i].index
  }

  /** A user table is entered at one slot only, so reaching it fixes the page. */
  lemma SameTableSamePage(m: Machine, master: Table, d: nat, cr2: nat, d': nat, v: nat)
    requires |master| == ENTRIES && Shape(m) && KernelHalf(m, master) && Slots(m, master)
    requires d in m.dirs && d' in m.dirs && cr2 < KBASE && v < TOP && Slot(m, d, cr2 / SLOT)
    ensures var de := m.dirs[d'][v / SLOT];
            de.present && de.index == m.dirs[d][cr2 / SLOT].index && v / PAGE % ENTRIES == cr2 / PAGE % ENTRIES <==>
            Sees(m, d, cr2, d', v)
  {
    var k := v / SLOT;
    assert v / PAGE == k * ENTRIES + v / PAGE % ENTRIES;
    assert cr2 / PAGE == cr2 / SLOT * ENTRIES + cr2 / PAGE % ENTRIES;
    if m.dirs[d'][k].present && m.dirs[d'][k].index == m.dirs[d][cr2 / SLOT].index {
      if k >= USER {
        KernelSlot(m, master, d', k);
      } else {
        assert Slot(m, d', k);
      }
    }
  }

  lemma KernelSlot(m: Machine, master: Table, d: nat, k: nat)
    requires |master| == ENTRIES && Shape(m) && KernelHalf(m, master) && d in m.dirs && USER <= k < ENTRIES
    requires m.dirs[d][k].present
    ensures KernelTable(master, m.dirs[d][k].index)
  {
    assert m.dirs[d][k] == master[k];
  }

  lemma LeafSeen(m: Machine, master: Table, d: nat, cr2: nat, page: nat, user: bool, d': nat, v: nat)
    requires PInv(m, master) && d in m.dirs && d' in m.dirs && cr2 < KBASE && v < TOP && Slot(m, d, cr2 / SLOT)
    ensures m.dirs[d][cr2 / SLOT].index in m.tables
    ensures var m' := SetLeaf(m, m.dirs[d][cr2 / SLOT].index, cr2 / PAGE % ENTRIES, page, user);
            && Shape(m') && m'.dirs == m.dirs
            && var de := m'.dirs[d'][cr2 / SLOT];
               Translate(m', d', v) == if Sees(m', d, cr2, d', v) then Some(Mapping(page, de.rw, de.us && user))
                                       else Translate(m, d', v)
  {
    hide Sound, Leaves, HeldFrames, Slots, KernelHalf, Walk;
    var i, j := cr2 / SLOT, cr2 / PAGE % ENTRIES;
    SlotTable(m, master, d, i);
    SetLeafWalk(m, m.dirs[d][i].index, j, page, user, d', v);
    SameTableSamePage(m, master, d, cr2, d', v);
    assert v / PAGE == cr2 / PAGE ==> v / SLOT == i;
  }

  /** A served fault maps the faulting page to a frame that had no users. In the faulting space the page is writable
      when its slot was empty, with the right of the task, and otherwise has what rights the slot leaves it. Another
      space sees the page exactly if it had the same table there. All other translations stay. */
  lemma FaultMapsOnePage(m: Machine, master: Table, d: nat, cr2: nat, user: bool, d': nat, v: nat)
    requires PInv(m, master) && d in m.dirs && d' in m.dirs && cr2 < KBASE && v < TOP
    requires MapPage(m, master, d, cr2, user).1
    ensures var m' := MapPage(m, master, d, cr2, user).0; var page := NextFree(m.st.users, 0, FRAMES);
            && page < FRAMES && m.st.users[page] == 0 && Shape(m') && d in m'.dirs && d' in m'.dirs
            && var here, there := m.dirs[d][cr2 / SLOT], m.dirs[d'][cr2 / SLOT];
               Translate(m', d', v) ==
               if v / PAGE != cr2 / PAGE then Translate(m, d', v)
               else if !here.present then if d' == d then Some(Mapping(page, true, user)) else Translate(m, d', v)
               else if there.present && there.index == here.index then
                 Some(Mapping(page, there.rw, there.us && user))
               else Translate(m, d', v)
  {
    hide WellFormed, Exclusive, Sized, Touching, Leaves, HeldFrames, Slots, KernelHalf, Walk;
    MapPageKeeps(m, master, d, cr2, user);
    var page := NextFree(m.st.users, 0, FRAMES);
    var i := cr2 / SLOT;
    var m1 := m.(st := AllocPage(m.st));
    if Slot(m, d, i) {
      AllocPageKeeps(m, master);
      LeafSeen(m1, master, d, cr2, page, user, d', v);
    } else {
      var t := NextFree(m1.st.users, 0, FRAMES);
      TwoFresh(m, master, page, t);
      AllocPageKeeps(m, master);
      AllocPageKeeps(m1, master);
      var m2 := m1.(st := AllocPage(m1.st));
      assert forall t', j' :: Leaf(m2, master, t', j') <==> Leaf(m, master, t', j');
      NewTableWalk(m2, master, d, cr2, page, t, user, d', v);
      if Slot(m, d', i) {
        SlotTable(m, master, d', i);
      }
    }
  }

  lemma NewTableWalk(m: Machine, master: Table, d: nat, cr2: nat, page: nat, t: nat, user: bool, d': nat, v: nat)
    requires PInv(m, master) && d in m.dirs && d' in m.dirs && cr2 < KBASE && v < TOP && !Slot(m, d, cr2 / SLOT)
    requires t < FRAMES && m.st.holds[t] > 0 && t !in m.tables
    requires forall t', j :: Leaf(m, master, t', j) ==> m.tables[t'][j].index != t
    ensures var m3 := AddTable(m, d, cr2 / SLOT, t, user);
            && t in m3.tables && Shape(m3)
            && var m' := SetLeaf(m3, t, cr2 / PAGE % ENTRIES, page, user);
               && Shape(m') && d in m'.dirs && d' in m'.dirs
               && var de := m'.dirs[d'][cr2 / SLOT];
                  Translate(m', d', v) == if Sees(m', d, cr2, d', v) then Some(Mapping(page, de.rw, de.us && user))
                                          else Translate(m, d', v)
  {
    hide Sound, Leaves, HeldFrames, Slots, KernelHalf, Walk;
    AddTableKeeps(m, master, d, cr2 / SLOT, t, user);
    AddTableWalk(m, master, d, cr2 / SLOT, t, user, d', v);
    LeafSeen(AddTable(m, d, cr2 / SLOT, t, user), master, d, cr2, page, user, d', v);
  }
}
