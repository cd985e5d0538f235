/**
  mm/mm.c and mm/page_fault.c in their own form: loops over the 1024 entries of directories and
  tables, updating them and the page counters in place.
 */
module PageTables {
  import opened Wrappers
  import opened Frames
  import opened HeapSpec
  import opened HeapRuns
  import opened Paging
  import opened AddressSpaces
  import opened SpaceLifetime
  import Heap

  lemma RaiseOne(st: State, fs: set<nat>, f: nat)
    requires |st.users| == |st.holds| == FRAMES && f < FRAMES && f !in fs
    ensures ObtainPage(Raise(st, fs), f) == Raise(st, fs + {f})
  {
    var a, b := ObtainPage(Raise(st, fs), f), Raise(st, fs + {f});
    assert a.users == b.users;
    assert a.holds == b.holds;
  }

  lemma LowerOne(st: State, fs: set<nat>, f: nat)
    requires |st.users| == |st.holds| == FRAMES && f < FRAMES && f !in fs
    ensures FreePage(Lower(st, fs), f) == Lower(st, fs + {f})
  {
    var a, b := FreePage(Lower(st, fs), f), Lower(st, fs + {f});
    assert a.users == b.users;
    assert a.holds == b.holds;
  }

  /** The directory copied, its slots below `i` already read-only. */
  function PartClone(dir: Table, i: nat): (r: Table)
    requires |dir| == ENTRIES && i <= ENTRIES
    ensures |r| == ENTRIES
  {
    CloneDir(dir)[..i] + dir[i..]
  }

  lemma PartCloneStep(dir: Table, i: nat)
    requires |dir| == ENTRIES && i < ENTRIES
    ensures PartClone(dir, i)[i] == dir[i]
    ensures PartClone(dir, i + 1) == if i < USER && dir[i].present then PartClone(dir, i)[i := dir[i].(rw := false)]
                                     else PartClone(dir, i)
  {
  }

  lemma PartCloneEnds(dir: Table)
    requires |dir| == ENTRIES
    ensures PartClone(dir, 0) == dir && PartClone(dir, ENTRIES) == CloneDir(dir)
  {
  }

  lemma RaiseNone(st: State)
    ensures Raise(st, {}) == st
  {
    assert Raise(st, {}).users == st.users && Raise(st, {}).holds == st.holds;
  }

  lemma TablesBelowNone(dir: Table)
    requires |dir| == ENTRIES
    ensures TablesBelow(dir, 0) == {}
  {
  }

  /** The tables of the present user slots below `i`. */
  ghost function TablesBelow(dir: Table, i: int): set<nat>
    requires |dir| == ENTRIES && 0 <= i <= ENTRIES
  {
    set x | 0 <= x < i && x < USER && dir[x].present :: dir[x].index
  }

  lemma TablesBelowStep(m: Machine, master: Table, d: nat, i: nat)
    requires PInv(m, master) && d in m.dirs && i < ENTRIES
    ensures var dir := m.dirs[d];
            if Slot(m, d, i) then
              TablesBelow(dir, i + 1) == TablesBelow(dir, i) + {dir[i].index} &&
                  dir[i].index !in TablesBelow(dir, i) && dir[i].index < FRAMES
            else TablesBelow(dir, i + 1) == TablesBelow(dir, i)
  {
    hide Sound, Leaves, KernelHalf;
    var dir := m.dirs[d];
    forall x | 0 <= x < i && x < USER && dir[x].present
      ensures Slot(m, d, x)
    {
    }
    if Slot(m, d, i) {
      assert TablesBelow(dir, i + 1) == TablesBelow(dir, i) + {dir[i].index};
    } else {
      assert TablesBelow(dir, i + 1) == TablesBelow(dir, i);
    }
  }

  lemma TablesBelowAll(m: Machine, d: nat)
    requires Shape(m) && d in m.dirs
    ensures TablesBelow(m.dirs[d], ENTRIES) == OwnTables(m, d)
  {
  }

  /** The frames mapped by the entries of a table below `j`. */
  ghost function LeavesBelow(tbl: Table, j: int): set<nat>
    requires |tbl| == ENTRIES && 0 <= j <= ENTRIES
  {
    set y | 0 <= y < j && tbl[y].present :: tbl[y].index
  }

  /** The frames mapped through the present user slots below `i`. */
  ghost function MappedBelow(m: Machine, d: nat, i: int): set<nat>
    requires Shape(m) && d in m.dirs && 0 <= i <= ENTRIES
  {
    set x, y | 0 <= x < i && x < USER && 0 <= y < ENTRIES && m.dirs[d][x].present && m.dirs[d][x].index in m.tables
                 && m.tables[m.dirs[d][x].index][y].present
            :: m.tables[m.dirs[d][x].index][y].index
  }

  /** What free_page_table has released once slot `i` is reached. */
  ghost function FreedBelow(m: Machine, d: nat, i: int): set<nat>
    requires Shape(m) && d in m.dirs && 0 <= i <= ENTRIES
  {
    TablesBelow(m.dirs[d], i) + MappedBelow(m, d, i)
  }

  lemma FreedEnds(m: Machine, d: nat)
    requires Shape(m) && d in m.dirs
    ensures FreedBelow(m, d, 0) == {} && FreedBelow(m, d, ENTRIES) == Own(m, d)
  {
    assert MappedBelow(m, d, ENTRIES) == OwnLeaves(m, d);
    TablesBelowAll(m, d);
  }

  lemma LeavesBelowStep(tbl: Table, j: nat)
    requires |tbl| == ENTRIES && j < ENTRIES
    ensures LeavesBelow(tbl, j + 1) ==
            if tbl[j].present then LeavesBelow(tbl, j) + {tbl[j].index} else LeavesBelow(tbl, j)
  {
  }

  lemma MappedStep(m: Machine, master: Table, d: nat, i: nat)
    requires PInv(m, master) && d in m.dirs && i < ENTRIES
    ensures if Slot(m, d, i) then
              && m.dirs[d][i].index in m.tables
              && MappedBelow(m, d, i + 1) == MappedBelow(m, d, i) + LeavesBelow(m.tables[m.dirs[d][i].index], ENTRIES)
            else MappedBelow(m, d, i + 1) == MappedBelow(m, d, i)
  {
    hide Sound, Leaves, KernelHalf, HeldFrames;
    if Slot(m, d, i) {
      var tbl := m.tables[m.dirs[d][i].index];
      assert MappedBelow(m, d, i + 1) == MappedBelow(m, d, i) + LeavesBelow(tbl, ENTRIES);
    } else {
      assert MappedBelow(m, d, i + 1) == MappedBelow(m, d, i);
    }
  }

  /** The frames of slot `i` were not released before it. */
  lemma SlotApart(m: Machine, master: Table, d: nat, i: nat)
    requires PInv(m, master) && Slot(m, d, i)
    ensures var t := m.dirs[d][i].index;
            && t in m.tables && !KernelTable(master, t) && t < FRAMES && t !in FreedBelow(m, d, i)
            && t !in LeavesBelow(m.tables[t], ENTRIES)
            && (forall j :: 0 <= j < ENTRIES && m.tables[t][j].present ==>
                  m.tables[t][j].index < FRAMES && m.tables[t][j].index !in FreedBelow(m, d, i))
  {
    hide Sound, KernelHalf;
    var t := m.dirs[d][i].index;
    forall x | 0 <= x < i && x < USER && m.dirs[d][x].present
      ensures Slot(m, d, x) && m.dirs[d][x].index != t
      ensures m.dirs[d][x].index in m.tables && !KernelTable(master, m.dirs[d][x].index)
    {
      assert Slot(m, d, x);
    }
    forall x, y | 0 <= x < i && x < USER && m.dirs[d][x].present && 0 <= y < ENTRIES &&
        m.tables[m.dirs[d][x].index][y].present
      ensures Leaf(m, master, m.dirs[d][x].index, y)
    {
    }
    forall j | 0 <= j < ENTRIES && m.tables[t][j].present
      ensures Leaf(m, master, t, j)
    {
    }
  }

  /** One table maps no frame twice. */
  lemma LeafApart(m: Machine, master: Table, t: nat, j: nat)
    requires PInv(m, master) && t in m.tables && !KernelTable(master, t) && j < ENTRIES && m.tables[t][j].present
    ensures m.tables[t][j].index !in LeavesBelow(m.tables[t], j)
  {
    hide Sound, KernelHalf, Slots, HeldFrames;
    forall y | 0 <= y < j && m.tables[t][y].present
      ensures Leaf(m, master, t, y) && Leaf(m, master, t, j)
    {
    }
  }

  lemma LeavesBelowNone(tbl: Table, done: set<nat>)
    requires |tbl| == ENTRIES
    ensures done + LeavesBelow(tbl, 0) == done
  {
  }

  lemma LowerNone(st: State)
    ensures Lower(st, {}) == st
  {
    assert Lower(st, {}).users == st.users && Lower(st, {}).holds == st.holds;
  }

  /** What creation gives, with or without a block for the directory. */
  lemma CreateMeans(m: Machine, master: Table)
    requires MInv(m, master)
    ensures MInv(Create(m, master), master) <==> CanAllocDir(m.st)
    ensures match Pick(m.st.blocks, m.st.users, PAGE, PAGE)
            case None => Create(m, master) == m
            case Some((_, a)) => Added(m, Create(m, master), master, a + HDR)
  {
    hide PInv, Pick, Alloc, Added, DirBlocks, CanAllocDir;
    InvOf(m, master);
    CreateExact(m, master);
    match Pick(m.st.blocks, m.st.users, PAGE, PAGE)
    case None =>
    case Some((i, a)) => CreateAdded(m, master, i, a);
  }

  lemma UnsharedLower(m: Machine, master: Table, d: nat)
    requires PInv(m, master) && d in m.dirs && Unshared(m, d)
    ensures Sound(Lower(m.st, Own(m, d)))
  {
    hide Lower, Own, WellFormed, Counted, Exclusive, Sized, Slots, Leaves, HeldFrames, KernelHalf;
    LowerInv(m.st, Own(m, d));
  }

  /** The address spaces over the kernel's own heap and page counters: directories come from `kmemalign`, tables and
      pages from `alloc_page`. */
  class Spaces {
    const memory: Heap.KernelMemory
    var dirs: map<nat, Table>
    var tables: map<nat, Table>
    ghost var kin: map<nat, nat>
    ghost var born: nat

    /** No space yet, over the tables that the boot loader left. */
    constructor (memory: Heap.KernelMemory, tables: map<nat, Table>)
      ensures this.memory == memory && Abs() == Machine(memory.Abs(), map[], tables, map[], 0)
    {
      this.memory, this.tables := memory, tables;
      dirs, kin, born := map[], map[], 0;
    }

    ghost function Abs(): Machine
      reads this, memory, memory.users
    {
      Machine(memory.Abs(), dirs, tables, kin, born)
    }

    /** The heap below is linked, with one counter for each frame. */
    ghost predicate Ready()
      reads this, memory, memory.users
    {
      memory.users.Length == FRAMES && memory.Linked()
    }

    /** The first free frame, taken; FRAMES when there is none. */
    method TakePage() returns (page: nat)
      requires Ready() && Sound(memory.Abs())
      modifies memory`holds, memory.users
      ensures Ready() && page == NextFree(old(memory.Abs()).users, 0, FRAMES) &&
              memory.Abs() == AllocPage(old(memory.Abs()))
    {
      hide NextFree, AllocPage;
      var a := memory.AllocPage(false);
      page := if a == 0xFFFF_FFFF then FRAMES else a / PAGE;
    }

    method MapPageAt(d: nat, cr2: nat, user: bool, ghost master: Table) returns (ok: bool)
      requires Ready() && PInv(Abs(), master) && d in dirs && cr2 < KBASE
      modifies this, memory`holds, memory.users
      ensures Ready() && (Abs(), ok) == old(MapPage(Abs(), master, d, cr2, user))
    {
      hide WellFormed, Counted, Exclusive, Sized, Leaves, HeldFrames, KernelHalf, NextFree;
      ghost var m := Abs();
      var i, j := cr2 / SLOT, cr2 / PAGE % ENTRIES;
      var page := TakePage();
      if page == FRAMES { return false; }
      if !dirs[d][i].present {
        assert !Slot(m, d, i);
        AllocPageUnused(m.st);
        var t := TakePage();
        if t == FRAMES {
          memory.FreePage(page);
          return false;
        }
        tables := tables[t := seq(ENTRIES, _ => EMPTY)];
        dirs := dirs[d := dirs[d][i := Entry(true, true, user, t)]];
      } else {
        assert Slot(m, d, i);
      }
      var t := dirs[d][i].index;
      tables := tables[t := tables[t][j := Entry(true, true, user, page)]];
      return true;
    }

    /** kmemalign for a directory. */
    method NewDirectory() returns (dir: nat)
      requires Ready() && Sound(memory.Abs())
      modifies memory, memory.users
      ensures Ready() && memory.Abs() == Alloc(old(memory.Abs()), PAGE, PAGE)
      ensures match old(Pick(memory.blocks, memory.users[..], PAGE, PAGE))
              case None => dir == 0 && memory.Abs() == old(memory.Abs())
              case Some((_, a)) => dir == a + HDR
    {
      hide WellFormed, Counted, Exclusive, Pick, Passes;
      memory.SoundValid();
      dir := memory.KMemAlign(PAGE, PAGE);
    }

    /** The code of alloc_page_table. */
    method CreateSpace(master: Table) returns (dir: nat)
      requires Ready() && MInv(Abs(), master)
      modifies this, memory, memory.users
      ensures Ready() && Abs() == old(Create(Abs(), master))
      ensures dir == match old(Pick(memory.blocks, memory.users[..], PAGE, PAGE))
                case None => 0 case Some((_, a)) => a + HDR
    {
      hide PInv, Lands, Pick, Alloc, Sound, DirBlocks;
      InvOf(Abs(), master);
      dir := NewDirectory();
      if dir == 0 { return; }
      dirs := dirs[dir := master[0 := master[0].(present := false)]];
      kin, born := kin[dir := born], born + 1;
    }

    /** alloc_page_table: the machine with one more space, in which kernel addresses translate as the master directory
        translates them and user addresses not at all; no other space changes. The invariant is kept exactly when the
        block for the directory is a usable one. */
    method AllocPageTable(master: Table) returns (dir: nat)
      requires Ready() && MInv(Abs(), master)
      modifies this, memory, memory.users
      ensures Ready() && (MInv(Abs(), master) <==> old(CanAllocDir(memory.Abs())))
      ensures Abs() == old(Create(Abs(), master))
      ensures dir == match old(Pick(memory.blocks, memory.users[..], PAGE, PAGE))
                case None => 0 case Some((_, a)) => a + HDR
      ensures if dir == 0 then Abs() == old(Abs()) else Added(old(Abs()), Abs(), master, dir)
    {
      hide MInv, CanAllocDir, Pick, Added, Ready;
      CreateMeans(Abs(), master);
      dir := CreateSpace(master);
    }

    /** The loop of clone_page_table: read-only copies of the user slots, one more user on each table. `m` is the
        machine before the block for the new directory was taken. */
    method CloneSlots(d: nat, ghost m: Machine, ghost master: Table) returns (cloned: Table)
      requires Ready() && PInv(m, master) && d in dirs && dirs == m.dirs && |memory.holds| == FRAMES
      modifies memory`holds, memory.users
      ensures Ready() && cloned == CloneDir(dirs[d]) && memory.Abs() == Raise(old(memory.Abs()), OwnTables(m, d))
    {
      hide Sound, Slots, Leaves, HeldFrames, KernelHalf, OwnTables, TablesBelow, PartClone, CloneDir, Raise;
      ghost var st := memory.Abs();
      ghost var done: set<nat> := {};
      cloned := dirs[d];
      var i := 0;
      TablesBelowNone(dirs[d]);
      PartCloneEnds(dirs[d]);
      RaiseNone(st);
      while i < ENTRIES
        invariant Ready() && 0 <= i <= ENTRIES && cloned == PartClone(dirs[d], i)
        invariant done == TablesBelow(dirs[d], i) && memory.Abs() == Raise(st, done)
      {
        TablesBelowStep(m, master, d, i);
        PartCloneStep(dirs[d], i);
        if !cloned[i].present || i >= USER {
          i := i + 1;
          continue;
        }
        assert Slot(m, d, i);
        RaiseOne(st, done, cloned[i].index);
        memory.ObtainPage(cloned[i].index);
        done := done + {cloned[i].index};
        cloned := cloned[i := cloned[i].(rw := false)];
        i := i + 1;
      }
      TablesBelowAll(m, d);
    }

    /** clone_page_table; the invariant is kept exactly when the block for the directory is a usable one and no
        counter of a shared table is at its last value. */
    method ClonePageTable(d: nat, master: Table) returns (dir: nat)
      requires Ready() && MInv(Abs(), master) && d in dirs
      modifies this, memory, memory.users
      ensures Ready() && Abs() == old(Clone(Abs(), master, d))
      ensures dir == match old(Pick(memory.blocks, memory.users[..], PAGE, PAGE))
                case None => 0 case Some((_, a)) => a + HDR
      ensures MInv(Abs(), master) <==> old(CanAllocDir(memory.Abs()) && (dir != 0 ==> CountersLeft(Abs(), d)))
    {
      hide PInv, DirBlocks, Sound, Pick, Alloc, OwnTables, Raise, CountersLeft, CloneDir, CanAllocDir;
      ghost var m := Abs();
      InvOf(m, master);
      CloneExact(m, master, d);
      dir := NewDirectory();
      if dir == 0 { return; }
      ghost var (i, a) := Pick(m.st.blocks, m.st.users, PAGE, PAGE).value;
      CloneIs(m, master, d, i, a);
      var cloned := CloneSlots(d, m, master);
      dirs := dirs[dir := cloned];
      kin := kin[dir := kin[d]];
    }

    /** The inner loop of free_page_table: every frame mapped by table `t`. */
    method FreeLeaves(t: nat, ghost m: Machine, ghost master: Table, ghost done: set<nat>)
      requires Ready() && PInv(m, master) && t in m.tables && !KernelTable(master, t)
      requires t in tables && tables[t] == m.tables[t] && memory.Abs() == Lower(m.st, done)
      requires forall j :: 0 <= j < ENTRIES && m.tables[t][j].present ==>
                 m.tables[t][j].index < FRAMES && m.tables[t][j].index !in done
      modifies this`tables, memory`holds, memory.users
      ensures Ready() && memory.Abs() == Lower(m.st, done + LeavesBelow(m.tables[t], ENTRIES))
      ensures t in tables && tables == old(tables)[t := tables[t]] && |tables[t]| == ENTRIES
    {
      hide WellFormed, Counted, Exclusive, Sized, Slots, Leaves, HeldFrames, KernelHalf, Lower, LeavesBelow,
           KernelTable;
      ghost var tbl := m.tables[t];
      var j := 0;
      LeavesBelowNone(tbl, done);
      while j < ENTRIES
        invariant Ready() && 0 <= j <= ENTRIES && t in tables && |tables[t]| == ENTRIES &&
                  tables == old(tables)[t := tables[t]]
        invariant forall y :: j <= y < ENTRIES ==> tables[t][y] == tbl[y]
        invariant memory.Abs() == Lower(m.st, done + LeavesBelow(tbl, j))
      {
        LeavesBelowStep(tbl, j);
        if !tables[t][j].present {
          j := j + 1;
          continue;
        }
        var page := tables[t][j].index;
        LeafApart(m, master, t, j);
        LowerOne(m.st, done + LeavesBelow(tbl, j), page);
        assert done + LeavesBelow(tbl, j) + {page} == done + LeavesBelow(tbl, j + 1);
        memory.FreePage(page);
        if memory.users[page] == 0 {
          tables := tables[t := tables[t][j := tables[t][j].(present := false)]];
        }
        j := j + 1;
      }
    }

    /** One slot of free_page_table: the frames of its table, then the table. */
    method FreeSlot(d: nat, i: nat, t: nat, ghost m: Machine, ghost master: Table)
      requires Ready() && PInv(m, master) && d in m.dirs && i < USER && Slot(m, d, i)
      requires t == m.dirs[d][i].index && t in m.tables && t in tables && tables[t] == m.tables[t]
      requires d in dirs && |dirs[d]| == ENTRIES && dirs[d][i] == m.dirs[d][i]
      requires memory.Abs() == Lower(m.st, FreedBelow(m, d, i))
      modifies this`tables, this`dirs, memory`holds, memory.users
      ensures Ready() && memory.Abs() == Lower(m.st, FreedBelow(m, d, i + 1))
      ensures d in dirs && |dirs[d]| == ENTRIES && dirs == old(dirs)[d := old(dirs)[d][i := dirs[d][i]]]
      ensures t in tables && tables == old(tables)[t := tables[t]] && |tables[t]| == ENTRIES
    {
      hide WellFormed, Counted, Exclusive, Sized, Slots, Leaves, HeldFrames, KernelHalf, Lower, LeavesBelow,
           MappedBelow, TablesBelow, KernelTable;
      ghost var done := FreedBelow(m, d, i);
      SlotApart(m, master, d, i);
      TablesBelowStep(m, master, d, i);
      MappedStep(m, master, d, i);
      FreeLeaves(t, m, master, done);
      ghost var leaves := LeavesBelow(m.tables[t], ENTRIES);
      LowerOne(m.st, done + leaves, t);
      assert done + leaves + {t} == FreedBelow(m, d, i + 1);
      memory.FreePage(t);
      if memory.users[t] == 0 {
        dirs := dirs[d := dirs[d][i := dirs[d][i].(present := false)]];
      }
      assert dirs[d] == old(dirs)[d][i := dirs[d][i]];
    }

    /** The loop of free_page_table over the slots of a directory. */
    method FreeSlots(d: nat, ghost master: Table) returns (freed: set<nat>)
      requires Ready() && PInv(Abs(), master) && d in dirs && d != 0
      modifies this`tables, this`dirs, memory`holds, memory.users
      ensures Ready() && memory.Abs() == old(Lower(memory.Abs(), Own(Abs(), d))) && freed == old(OwnTables(Abs(), d))
      ensures d in dirs && dirs == old(dirs)[d := dirs[d]] && tables.Keys == old(tables).Keys
      ensures forall t :: t in tables && t !in freed ==> tables[t] == old(tables)[t]
    {
      hide WellFormed, Counted, Exclusive, Sized, Slots, Leaves, HeldFrames, KernelHalf, Lower, MappedBelow,
           TablesBelow, OwnTables, OwnLeaves, KernelTable;
      ghost var m := Abs();
      FreedEnds(m, d);
      LowerNone(m.st);
      TablesBelowNone(dirs[d]);
      freed := {};
      var i := 0;
      while i < ENTRIES
        invariant Ready() && 0 <= i <= ENTRIES && d in dirs && |dirs[d]| == ENTRIES
        invariant freed == TablesBelow(m.dirs[d], i)
        invariant memory.Abs() == Lower(m.st, FreedBelow(m, d, i))
        invariant dirs == m.dirs[d := dirs[d]] && forall x :: i <= x < ENTRIES ==> dirs[d][x] == m.dirs[d][x]
        invariant tables.Keys == m.tables.Keys
        invariant forall t :: t in tables && t !in TablesBelow(m.dirs[d], i) ==> tables[t] == m.tables[t]
      {
        TablesBelowStep(m, master, d, i);
        MappedStep(m, master, d, i);
        if !dirs[d][i].present || i >= USER {
          i := i + 1;
          continue;
        }
        assert Slot(m, d, i);
        SlotApart(m, master, d, i);
        freed := freed + {dirs[d][i].index};
        FreeSlot(d, i, dirs[d][i].index, m, master);
        i := i + 1;
      }
      TablesBelowAll(m, d);
    }

    /** `k` is the list index of the directory's heap block; the frames of freed tables stop being tables. */
    method FreePageTable(d: nat, ghost k: nat, ghost master: Table)
      requires Ready() && MInv(Abs(), master)
      requires d != 0 ==>
                 d in dirs && Live(memory.blocks, k) && memory.blocks[k] == Block(d - HDR, PAGE) && Unshared(Abs(), d)
      modifies this, memory, memory.users
      ensures Ready() && Abs() == if d == 0 then old(Abs()) else old(FreeSpace(Abs(), d, k))
    {
      hide WellFormed, Counted, Exclusive, Sized, Slots, Leaves, HeldFrames, KernelHalf, Lower, Own, OwnTables,
           Unshared, Free;
      if d == 0 { return; }
      ghost var m := Abs();
      var freed := FreeSlots(d, master);
      UnsharedLower(m, master, d);
      memory.SoundValid();
      memory.KFree(d, k);
      dirs := dirs - {d};
      assert dirs == m.dirs - {d};
      tables := tables - freed;
      assert tables == m.tables - OwnTables(m, d);
      kin := kin - {d};
    }
  }
}
