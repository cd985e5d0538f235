/**
  Runs of a machine with many address spaces: created, cloned, accessed and freed in any order,
  between heap requests of the rest of the kernel.
 */
module SpaceRuns {
  import opened Wrappers
  import opened Frames
  import opened HeapSpec
  import opened HeapRuns
  import opened Paging
  import opened AddressSpaces
  import opened SpaceLifetime
  import opened BootPaging

  /** Address spaces not related by clone share no user table and no user frame. */
  lemma Isolation(m: Machine, master: Table, d: nat, d': nat, v: nat, v': nat)
    requires PInv(m, master) && d in m.dirs && d' in m.dirs && m.kin[d] != m.kin[d'] && v < KBASE && v' < KBASE
    requires Translate(m, d, v).Some? && Translate(m, d', v').Some?
    ensures m.dirs[d][v / SLOT].index != m.dirs[d'][v' / SLOT].index
    ensures Translate(m, d, v).value.frame != Translate(m, d', v').value.frame
    ensures Translate(m, d, v).value.frame !in m.tables
  {
    hide Sound, HeldFrames, KernelHalf;
    assert Slot(m, d, v / SLOT) && Slot(m, d', v' / SLOT);
    assert Leaf(m, master, m.dirs[d][v / SLOT].index, v / PAGE % ENTRIES);
    assert Leaf(m, master, m.dirs[d'][v' / SLOT].index, v' / PAGE % ENTRIES);
  }

  // ----- freeing inside a run

  ghost predicate CanFree(m: Machine, master: Table, d: nat, k: nat)
    requires MInv(m, master)
  {
    d in m.dirs && Live(m.st.blocks, k) && m.st.blocks[k] == Block(d - HDR, PAGE) && Unshared(m, d)
  }

  lemma RemoveDirBlocks(m: Machine, d: nat, k: nat)
    requires WellFormed(m.st.blocks) && DirBlocks(m) && Live(m.st.blocks, k) && m.st.blocks[k].addr == d - HDR
    ensures forall d' :: d' in m.dirs && d' != d ==> HDR <= d' && Block(d' - HDR, PAGE) in Remove(m.st.blocks, k)
  {
    forall d' | d' in m.dirs && d' != d
      ensures HDR <= d' && Block(d' - HDR, PAGE) in Remove(m.st.blocks, k)
    {
      var j :| 0 <= j < |m.st.blocks| && m.st.blocks[j] == Block(d' - HDR, PAGE);
      assert Remove(m.st.blocks, k)[if j < k then j else j - 1] == m.st.blocks[j];
    }
  }

  /** What is left when `d` and its tables are gone does not meet the frames of `d`. */
  lemma RestApart(m: Machine, master: Table, d: nat, k: nat)
    requires MInv(m, master) && CanFree(m, master, d, k)
    ensures var m' := FreeSpace(m, d, k);
            && Shape(m') && KernelHalf(m', master) && Slots(m', master) && Leaves(m', master)
            && (forall t :: t in m'.tables ==> t !in Own(m, d))
            && (forall t, j :: Leaf(m', master, t, j) ==>
                  Leaf(m, master, t, j) && m'.tables[t] == m.tables[t] && m.tables[t][j].index !in Own(m, d))
  {
    hide Sound, HeldFrames, OwnTables, OwnLeaves, Free, Lower, WellFormed;
    var m' := FreeSpace(m, d, k);
    assert Shape(m');
    forall t | t in OwnTables(m, d)
      ensures t in m.tables && !KernelTable(master, t)
    {
      var _ := OwnTableFrom(m, master, d, t);
    }
    assert forall d', i :: Slot(m', d', i) ==> d' != d && Slot(m, d', i) && m'.dirs[d'][i] == m.dirs[d'][i];
    forall f | f in OwnLeaves(m, d)
      ensures f !in m.tables
      ensures forall t, j :: Leaf(m, master, t, j) && t !in OwnTables(m, d) ==> m.tables[t][j].index != f
    {
      var t0, j0 := OwnLeafFrom(m, d, f);
      assert Leaf(m, master, t0, j0);
    }
    assert forall t, j :: Leaf(m', master, t, j) ==>
             Leaf(m, master, t, j) && t !in OwnTables(m, d) && m'.tables[t] == m.tables[t];
  }

  lemma FreeStateInv(st: State, fs: set<nat>, k: nat)
    requires Sound(st) && Live(st.blocks, k) && forall f :: f in fs ==> f < FRAMES && st.holds[f] == 1
    ensures var st' := Free(Lower(st, fs), k);
            Sound(st') && forall f :: 0 <= f < FRAMES && f !in fs ==> st'.holds[f] == st.holds[f]
  {
    hide WellFormed, Counted, Exclusive, Sized, Touching, SubRange;
    LowerInv(st, fs);
    FreeSound(Lower(st, fs), k);
  }

  lemma FreeKeeps(m: Machine, master: Table, d: nat, k: nat)
    requires MInv(m, master) && CanFree(m, master, d, k)
    ensures MInv(FreeSpace(m, d, k), master)
  {
    hide OwnTables, OwnLeaves, WellFormed, Counted, Exclusive, Sized, Slots, Leaves, KernelHalf, Lower, HeldFrames,
         Own, Remove, SubRange, Touching;
    RestApart(m, master, d, k);
    FreeStateInv(m.st, Own(m, d), k);
    RemoveDirBlocks(m, d, k);
    FreeHeld(m, master, d, k);
    assert DirBlocks(FreeSpace(m, d, k));
  }

  lemma FreeHeld(m: Machine, master: Table, d: nat, k: nat)
    requires MInv(m, master) && CanFree(m, master, d, k)
    requires var m' := FreeSpace(m, d, k);
             && Shape(m') && |m'.st.holds| == FRAMES
             && (forall f :: 0 <= f < FRAMES && f !in Own(m, d) ==> m'.st.holds[f] == m.st.holds[f])
             && (forall t :: t in m'.tables ==> t !in Own(m, d))
             && (forall t, j :: Leaf(m', master, t, j) ==>
                   Leaf(m, master, t, j) && m'.tables[t] == m.tables[t] && m.tables[t][j].index !in Own(m, d))
    ensures HeldFrames(FreeSpace(m, d, k), master)
  {
    hide OwnTables, OwnLeaves, Sound, Slots, Leaves, KernelHalf, Lower, Free, Own;
  }

  // ----- runs

  datatype Event =
    | Created
    | Cloned(d: nat)
    | Accessed(d: nat, cr2: nat, user: bool)
    | Freed(d: nat, k: nat)
    | HeapUsed(op: Op)

  /** What makes an event an event of this machine. Only unshared spaces are freed. */
  ghost predicate Possible(m: Machine, master: Table, e: Event)
    requires MInv(m, master)
  {
    match e
    case Created => true
    case Cloned(d) => d in m.dirs
    case Accessed(d, _, _) => d in m.dirs
    case Freed(d, k) => CanFree(m, master, d, k)
    case HeapUsed(op) =>
      && Callable(m.st, op) && !op.PageObtain? && !op.PageFree?
      && (op.KFree? ==> m.st.blocks[op.k].addr + HDR !in m.dirs)
  }

  /** The tests that creations, clones and heap requests have to pass: the page picked is not held by others, no
      counter is raised at its last value, and a directory lies on a page boundary. */
  ghost predicate Safe(m: Machine, master: Table, e: Event) {
    && MInv(m, master) && Possible(m, master, e)
    && match e
    case Created => CanAllocDir(m.st)
    case Cloned(d) => CanAllocDir(m.st) && (Pick(m.st.blocks, m.st.users, PAGE, PAGE).Some? ==> CountersLeft(m, d))
    case HeapUsed(op) => Passes(m.st, op)
    case _ => true
  }

  ghost function After(m: Machine, master: Table, e: Event): Machine
    requires MInv(m, master) && Possible(m, master, e)
  {
    match e
    case Created => Create(m, master)
    case Cloned(d) => Clone(m, master, d)
    case Accessed(d, cr2, user) => Access(m, master, d, cr2, user)
    case Freed(d, k) => FreeSpace(m, d, k)
    case HeapUsed(op) => m.(st := Step(m.st, op))
  }

  /** The kernel's page tables are the same in both machines. */
  ghost predicate SameKernelTables(m: Machine, m': Machine, master: Table)
    requires |master| == ENTRIES
  {
    forall t :: KernelTable(master, t) ==> t in m.tables && t in m'.tables && m'.tables[t] == m.tables[t]
  }

  lemma AccessEvent(m: Machine, master: Table, d: nat, cr2: nat, user: bool)
    requires MInv(m, master) && d in m.dirs
    ensures var m' := Access(m, master, d, cr2, user); MInv(m', master) && SameKernelTables(m, m', master)
  {
    var m' := Access(m, master, d, cr2, user);
    var added := AccessGrows(m, master, d, cr2, user);
    hide Sound, HeldFrames, Leaves, Slots, Access, OwnTables, OwnLeaves;
    assert m'.dirs.Keys == m.dirs.Keys by {
      assert (m'.dirs - {d}).Keys == (m.dirs - {d}).Keys;
    }
    forall t | KernelTable(master, t)
      ensures t in m.tables && t in m'.tables && m'.tables[t] == m.tables[t]
    {
      KernelNotOwn(m, master, d, t);
      assert t in m.tables - OwnTables(m, d);
      assert t in m'.tables - OwnTables(m', d);
    }
  }

  lemma KernelNotOwn(m: Machine, master: Table, d: nat, t: nat)
    requires PInv(m, master) && d in m.dirs && KernelTable(master, t)
    ensures t in m.tables && t !in OwnTables(m, d)
  {
    hide Sound, HeldFrames, Leaves, Slots, OwnTables;
    if t in OwnTables(m, d) {
      var _ := OwnTableFrom(m, master, d, t);
    }
  }

  lemma HeapEvent(m: Machine, master: Table, op: Op)
    requires MInv(m, master) && Possible(m, master, HeapUsed(op))
    ensures MInv(m.(st := Step(m.st, op)), master) <==> Passes(m.st, op)
  {
    hide WellFormed, Counted, Exclusive, HeldFrames, Leaves, Slots, KernelHalf, Pick, Lands, CounterLeft, Passes;
    StepPasses(m.st, op);
    if Passes(m.st, op) {
      match op
      case KMemAlign(align, size) =>
        HeapKeeps(m, master, Step(m.st, op));
        AllocMembers(m.st, align, size);
      case KFree(k) =>
        HeapKeeps(m, master, Step(m.st, op));
        RemoveDirBlocks(m, m.st.blocks[k].addr + HDR, k);
      case PageAlloc =>
        AllocPageKeeps(m, master);
      case _ =>
    }
  }

  lemma AllocMembers(st: State, align: nat, size: nat)
    requires Sound(st) && align < TOP && size < TOP
    ensures forall b :: b in st.blocks ==> b in Alloc(st, align, size).blocks
  {
    hide WellFormed, Counted, Exclusive, Sized, Search, FindGap, Insert;
    match Pick(st.blocks, st.users, align, size)
    case None =>
    case Some((i, a)) => InsertMembers(st.blocks, i, Block(a, size));
  }

  /** An event keeps the invariant if and only if it passes its tests, and no event touches the kernel's tables. */
  lemma EventExact(m: Machine, master: Table, e: Event)
    requires MInv(m, master) && Possible(m, master, e)
    ensures MInv(After(m, master, e), master) <==> Safe(m, master, e)
    ensures SameKernelTables(m, After(m, master, e), master)
  {
    hide Sound, HeldFrames, Leaves, Slots, Pick, Access, CanAllocDir, CountersLeft, Passes;
    match e
    case Created => CreateExact(m, master);
    case Cloned(d) => CloneExact(m, master, d);
    case Accessed(d, cr2, user) => AccessEvent(m, master, d, cr2, user);
    case Freed(d, k) =>
      FreeKeeps(m, master, d, k);
      forall t | KernelTable(master, t)
        ensures t in m.tables && t !in OwnTables(m, d)
      {
        KernelNotOwn(m, master, d, t);
      }
    case HeapUsed(op) => HeapEvent(m, master, op);
  }

  ghost predicate NextMachine(m: Machine, master: Table, e: Event, m': Machine) {
    MInv(m, master) ==> Possible(m, master, e) && m' == After(m, master, e)
  }

  ghost predicate IsMachineRun(ms: seq<Machine>, master: Table, es: seq<Event>) {
    && |ms| == |es| + 1
    && forall i :: 0 <= i < |es| ==> NextMachine(ms[i], master, es[i], ms[i + 1])
  }

  /** In all states of a run of creations, clones, accesses, frees and heap requests of any size the invariant holds
      if and only if each event passes its tests. */
  lemma MachineRunExact(ms: seq<Machine>, master: Table, es: seq<Event>)
    requires IsMachineRun(ms, master, es) && MInv(ms[0], master)
    ensures (forall n :: 0 <= n < |ms| ==> MInv(ms[n], master)) <==>
            (forall i :: 0 <= i < |es| && MInv(ms[i], master) ==> Safe(ms[i], master, es[i]))
  {
    hide MInv, Possible, After, Safe;
    if forall n :: 0 <= n < |ms| ==> MInv(ms[n], master) {
      forall i | 0 <= i < |es|
        ensures Safe(ms[i], master, es[i])
      {
        assert NextMachine(ms[i], master, es[i], ms[i + 1]);
        EventExact(ms[i], master, es[i]);
      }
    } else {
      var n :| 0 <= n < |ms| && !MInv(ms[n], master);
      if forall i :: 0 <= i < |es| && MInv(ms[i], master) ==> Safe(ms[i], master, es[i]) {
        MachineRun(ms, master, es, n);
      }
    }
  }

  /** In every run whose events pass their tests the invariant holds, so unrelated spaces are isolated in every state,
      and every kernel address of every space translates as the master directory translated it at the start. */
  lemma {:induction false} MachineRun(ms: seq<Machine>, master: Table, es: seq<Event>, n: nat)
    requires IsMachineRun(ms, master, es) && MInv(ms[0], master) && n < |ms|
    requires forall i :: 0 <= i < |es| && MInv(ms[i], master) ==> Safe(ms[i], master, es[i])
    ensures MInv(ms[n], master)
    ensures forall d, v :: d in ms[n].dirs && KBASE <= v < TOP ==>
            Translate(ms[n], d, v) == Walk(master, ms[0].tables, v)
  {
    hide Sound, HeldFrames, Leaves, Slots, Possible, Walk, Safe;
    RunTables(ms, master, es, n);
    forall d, v | d in ms[n].dirs && KBASE <= v < TOP
      ensures Translate(ms[n], d, v) == Walk(master, ms[0].tables, v)
    {
      KernelWalk(ms[n].dirs[d], master, ms[n].tables, ms[0].tables, v);
    }
  }

  lemma KernelWalk(dir: Table, master: Table, tables: map<nat, Table>, tables0: map<nat, Table>, v: nat)
    requires |master| == |dir| == ENTRIES && KBASE <= v < TOP
    requires forall i :: USER <= i < ENTRIES ==> dir[i] == master[i]
    requires forall t :: KernelTable(master, t) ==> t in tables && t in tables0 && tables[t] == tables0[t]
    ensures Walk(dir, tables, v) == Walk(master, tables0, v)
  {
    var i := v / SLOT;
    assert USER <= i < ENTRIES;
    if master[i].present {
      assert KernelTable(master, master[i].index);
    }
  }

  lemma {:induction false} RunTables(ms: seq<Machine>, master: Table, es: seq<Event>, n: nat)
    requires IsMachineRun(ms, master, es) && MInv(ms[0], master) && n < |ms|
    requires forall i :: 0 <= i < |es| && MInv(ms[i], master) ==> Safe(ms[i], master, es[i])
    ensures MInv(ms[n], master) && SameKernelTables(ms[0], ms[n], master)
  {
    hide Sound, HeldFrames, Leaves, Slots, Possible, After, Safe;
    if n > 0 {
      RunTables(ms, master, es, n - 1);
      assert NextMachine(ms[n - 1], master, es[n - 1], ms[n - 1 + 1]);
      EventExact(ms[n - 1], master, es[n - 1]);
    }
  }

  /** From the tables the boot loader built, every kernel address of every address space in every state of
      every run translates to itself minus the kernel offset, writable by the kernel only. */
  lemma KernelInEverySpace(mem0: map<nat, Table>, mem: map<nat, Table>, kernelEnd: nat,
                           ms: seq<Machine>, es: seq<Event>, n: nat, d: nat, v: nat)
    requires Booted(mem0, mem, KBASE, kernelEnd) && IsMachineRun(ms, mem[DIR], es) && MInv(ms[0], mem[DIR])
    requires forall t :: KernelTable(mem[DIR], t) ==> t in mem && t in ms[0].tables && ms[0].tables[t] == mem[t]
    requires forall i :: 0 <= i < |es| && MInv(ms[i], mem[DIR]) ==> Safe(ms[i], mem[DIR], es[i])
    requires n < |ms| && d in ms[n].dirs && KBASE <= v < TOP
    ensures |ms[n].dirs[d]| == ENTRIES
    ensures Walk(ms[n].dirs[d], ms[n].tables, v) == Some(Mapping((v - KBASE) / PAGE, true, false))
  {
    hide Sound, HeldFrames, Leaves, Slots, IsMachineRun, Safe, Walk, LowTable, KernelTableAt, BootDir;
    MachineRun(ms, mem[DIR], es, n);
    BootWalk(mem0, mem, KBASE, kernelEnd, v);
    KernelWalk(mem[DIR], mem[DIR], ms[0].tables, mem, v);
    assert Translate(ms[n], d, v) == Walk(mem[DIR], ms[0].tables, v);
  }

  /** The machine the kernel starts with: no address space yet, and the loader's tables for the kernel half. */
  ghost function BootMachine(mem: map<nat, Table>, st: State): Machine {
    Machine(st, map[], map t | t in mem && DIR < t <= DIR + TableCount(KBASE) :: mem[t], map[], 0)
  }

  /** It satisfies the invariant, so that runs may start from it, when the frames of those tables, which init_page
      leaves unavailable, count as held. */
  lemma BootInv(mem0: map<nat, Table>, mem: map<nat, Table>, kernelEnd: nat, st: State)
    requires Booted(mem0, mem, KBASE, kernelEnd) && Sound(st)
    requires forall t :: DIR < t <= DIR + TableCount(KBASE) ==> st.holds[t] > 0
    requires !(DIR <= LowFrame(kernelEnd) <= DIR + TableCount(KBASE))
    ensures var m := BootMachine(mem, st);
            && MInv(m, mem[DIR])
            && (forall t :: t in m.tables ==> KernelTable(mem[DIR], t))
            && (forall t :: KernelTable(mem[DIR], t) ==> t in mem && t in m.tables && m.tables[t] == mem[t])
  {
    hide Sound, KernelTableAt, LowTable;
    var m, master, n := BootMachine(mem, st), mem[DIR], TableCount(KBASE);
    forall t: nat | DIR < t <= DIR + n
      ensures t in mem && |mem[t]| == ENTRIES && KernelTable(master, t)
    {
      var k := t - DIR - 1;
      assert DIR + 1 + k in mem && mem[DIR + 1 + k] == KernelTableAt(k * ENTRIES);
      assert master[USER + k].present && master[USER + k].index == t;
    }
    assert |st.holds| == FRAMES by { HoldsLength(st); }
  }

  lemma HoldsLength(st: State)
    requires Sound(st)
    ensures |st.holds| == FRAMES
  {
  }
}
