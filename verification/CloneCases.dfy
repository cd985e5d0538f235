/**
  Where the conditions of creations and clones fail: a directory off its page boundary, and a run at whose end a page
  table that 256 address spaces use counts as free, one process cloned 255 times.
 */
module CloneCases {
  import opened Wrappers
  import opened Frames
  import opened HeapSpec
  import opened HeapRuns
  import opened HeapScan
  import opened Paging
  import opened AddressSpaces
  import opened SpaceRuns
  import opened BootPaging
  import HeapCases

  // Frames: the heap's first page, the one page table of the process, its one page, and the page of the end sentinel.
  const HOME: nat := 0x600
  const TABLE: nat := HOME + 512
  const LEAF: nat := HOME + 513
  const LAST: nat := HOME + 514

  /** The address of the `k`-th directory. */
  function DirAt(k: nat): nat {
    Base(HOME + 2 * k + 1)
  }

  /** The heap with `n` directories: each takes a page, and the end of the page before for its header. */
  function Blocks(n: nat): (bs: seq<Block>)
    ensures |bs| == n + 2 && bs[0] == Block(Base(HOME), 0) && bs[n + 1] == Block(Base(LAST), 0)
    ensures forall k {:trigger bs[k]} :: 1 <= k <= n ==> bs[k] == Block(DirAt(k - 1) - HDR, PAGE)
  {
    seq(n + 2, k requires 0 <= k < n + 2 =>
      if k == 0 then Block(Base(HOME), 0) else if k <= n then Block(DirAt(k - 1) - HDR, PAGE) else Block(Base(LAST), 0))
  }

  /** Frames outside the heap are unavailable, as init_page leaves them; the table is held once for each space. */
  function HoldsAt(n: nat, f: int): u8 {
    if f < HOME || f > LAST then 255
    else if f == TABLE then n % 256
    else if f == LEAF then 1
    else 0
  }

  function UsersAt(n: nat, f: int): u8 {
    if f == HOME then 2
    else if HOME < f < HOME + 2 * n || f == LAST then 1
    else HoldsAt(n, f)
  }

  function Counters(n: nat): (st: State)
    ensures |st.users| == |st.holds| == FRAMES
  {
    State(Blocks(n), seq(FRAMES, f => UsersAt(n, f)), seq(FRAMES, f => HoldsAt(n, f)))
  }

  // ----- the block each clone gets

  lemma BlocksOrdered(n: nat)
    requires n <= 256
    ensures |Blocks(n)| == n + 2 && WellFormed(Blocks(n))
  {
  }

  lemma HeaderBefore(bend: nat, f: nat)
    requires Base(f) <= bend <= Base(f + 1) - HDR && f < LAST
    ensures FirstHeader(bend, PAGE) == Base(f + 1) - HDR
  {
  }

  lemma GapFull(n: nat, k: nat)
    requires k < n <= 255
    ensures var bs := Blocks(n);
            && KBASE <= End(bs[k]) <= bs[k + 1].addr
            && Search(Counters(n).users, End(bs[k]), bs[k + 1].addr, PAGE, HDR + PAGE) == None
  {
    var bs := Blocks(n);
    assert bs[k + 1] == Block(DirAt(k) - HDR, PAGE);
    assert k > 0 ==> bs[k] == Block(DirAt(k - 1) - HDR, PAGE);
    HeaderBefore(End(bs[k]), HOME + 2 * k);
  }

  lemma GapLast(n: nat)
    requires 1 <= n <= 255
    ensures var bs := Blocks(n);
            && KBASE <= End(bs[n]) <= bs[n + 1].addr
            && Search(Counters(n).users, End(bs[n]), bs[n + 1].addr, PAGE, HDR + PAGE) == Some(DirAt(n) - HDR)
  {
    var bs, c := Blocks(n), Counters(n).users;
    assert bs[n] == Block(DirAt(n - 1) - HDR, PAGE);
    HeaderBefore(End(bs[n]), HOME + 2 * n);
    var s := DirAt(n) - HDR;
    assert Frame(s) == HOME + 2 * n && Frame(Base(LAST)) == LAST;
    assert c[TABLE] > 0 && forall f :: HOME + 2 * n < f < TABLE ==> c[f] == 0;
    UsedFirst(c, HOME + 2 * n + 1, LAST, TABLE);
  }

  lemma {:induction false} FindsFrom(bs: seq<Block>, c: Counts, i: nat, n: nat, align: nat, need: nat)
    requires WellFormed(bs) && |c| == FRAMES && align < TOP && i <= n < |bs| - 1
    requires forall k :: i <= k < n ==> Search(c, End(bs[k]), bs[k + 1].addr, align, need) == None
    requires Search(c, End(bs[n]), bs[n + 1].addr, align, need).Some?
    ensures FindGap(bs, c, i, align, need) == n
    decreases n - i
  {
    hide Search, WellFormed, End;
    if i < n {
      FindsFrom(bs, c, i + 1, n, align, need);
    }
  }

  lemma FindsLast(n: nat)
    requires 1 <= n <= 255
    ensures WellFormed(Blocks(n)) && FindGap(Blocks(n), Counters(n).users, 0, PAGE, HDR + PAGE) == n
  {
    hide Search, FindGap, Counters, WellFormed, Blocks, End;
    BlocksOrdered(n);
    var bs, c := Blocks(n), Counters(n).users;
    forall k | 0 <= k < n
      ensures KBASE <= End(bs[k]) <= bs[k + 1].addr
      ensures Search(c, End(bs[k]), bs[k + 1].addr, PAGE, HDR + PAGE) == None
    {
      GapFull(n, k);
    }
    GapLast(n);
    FindsFrom(bs, c, 0, n, PAGE, HDR + PAGE);
  }

  lemma PicksNext(n: nat)
    requires 1 <= n <= 255
    ensures WellFormed(Blocks(n)) && Pick(Blocks(n), Counters(n).users, PAGE, PAGE) == Some((n, DirAt(n) - HDR))
  {
    hide Search, FindGap, WellFormed, Counters, IsPow2;
    FindsLast(n);
    GapLast(n);
    HeapCases.PagePow2();
  }

  lemma StateIs(n: nat)
    ensures Counters(n).blocks == Blocks(n)
  {
  }

  lemma PageFree(n: nat)
    requires 1 <= n <= 255
    ensures var f := Frame(DirAt(n) - HDR);
            0 <= f < FRAMES && Counters(n).users[f] == Counters(n).holds[f] == 0 && DirAt(n) % PAGE == 0
  {
    hide Blocks;
    assert Frame(DirAt(n) - HDR) == HOME + 2 * n;
  }

  /** The next directory lands on free pages, on a page boundary. */
  lemma CanCloneNext(n: nat)
    requires 1 <= n <= 255 && Sound(Counters(n))
    ensures CanAllocDir(Counters(n))
  {
    hide Pick, Sound, WellFormed, Counters, FirstHeader, Base, Frame;
    StateIs(n);
    PicksNext(n);
    PageFree(n);
  }

  lemma BlocksNext(n: nat)
    ensures Insert(Blocks(n), n, Block(DirAt(n) - HDR, PAGE)) == Blocks(n + 1)
  {
    var bs, bs' := Insert(Blocks(n), n, Block(DirAt(n) - HDR, PAGE)), Blocks(n + 1);
    forall k | 0 <= k < |bs'|
      ensures bs[k] == bs'[k]
    {
      assert k <= n ==> bs[k] == Blocks(n)[k];
    }
  }

  lemma UsersNext(n: nat)
    requires 1 <= n <= 255
    ensures RaiseAll(AddRange(Counters(n).users, HOME + 2 * n, HOME + 2 * n + 2), {TABLE}) == Counters(n + 1).users
  {
    hide Blocks;
    var c := RaiseAll(AddRange(Counters(n).users, HOME + 2 * n, HOME + 2 * n + 2), {TABLE});
    assert forall f :: 0 <= f < FRAMES ==> c[f] == UsersAt(n + 1, f);
  }

  lemma HoldsNext(n: nat)
    requires 1 <= n <= 255
    ensures RaiseAll(Counters(n).holds, {TABLE}) == Counters(n + 1).holds
  {
    hide Blocks;
    var h := RaiseAll(Counters(n).holds, {TABLE});
    assert forall f :: 0 <= f < FRAMES ==> h[f] == HoldsAt(n + 1, f);
  }

  /** Counters and list after one more clone. */
  lemma CountersNext(n: nat)
    requires 1 <= n <= 255
    ensures WellFormed(Blocks(n)) && Raise(Alloc(Counters(n), PAGE, PAGE), {TABLE}) == Counters(n + 1)
  {
    hide Pick, WellFormed, Blocks, UsersAt, HoldsAt, RaiseAll, AddRange, Insert;
    PicksNext(n);
    var a := DirAt(n) - HDR;
    assert Frame(a) == HOME + 2 * n && FrameUp(a + Need(PAGE)) == HOME + 2 * n + 2;
    BlocksNext(n);
    UsersNext(n);
    HoldsNext(n);
  }

  // ----- the machines

  /** The kernel's directory and its tables, below the heap. */
  ghost predicate KernelOk(master: Table, kernel: map<nat, Table>) {
    && MasterOk(master)
    && (forall t :: t in kernel <==> KernelTable(master, t))
    && (forall t :: t in kernel ==> t < HOME && |kernel[t]| == ENTRIES)
  }

  /** The directory of a process with one page, in the table of slot 1. */
  function Parent(master: Table): (dir: Table)
    requires |master| == ENTRIES
    ensures |dir| == ENTRIES
  {
    seq(ENTRIES, i requires 0 <= i < ENTRIES =>
      if i == 1 then Entry(true, true, true, TABLE) else if i < USER then EMPTY else master[i])
  }

  function OnePage(): (tbl: Table)
    ensures |tbl| == ENTRIES
  {
    seq(ENTRIES, j requires 0 <= j < ENTRIES => if j == 0 then Entry(true, true, true, LEAF) else EMPTY)
  }

  /** The process and its first n - 1 clones. */
  ghost function Spaces(master: Table, n: nat): (dirs: map<nat, Table>)
    requires |master| == ENTRIES && n >= 1
    ensures DirAt(0) in dirs && dirs[DirAt(0)] == Parent(master)
  {
    if n == 1 then map[DirAt(0) := Parent(master)] else Spaces(master, n - 1)[DirAt(n - 1) := CloneDir(Parent(master))]
  }

  ghost function Family(n: nat): map<nat, nat>
    requires n >= 1
  {
    if n == 1 then map[DirAt(0) := 0] else Family(n - 1)[DirAt(n - 1) := 0]
  }

  ghost function Cloned(master: Table, kernel: map<nat, Table>, n: nat): Machine
    requires |master| == ENTRIES && n >= 1
  {
    Machine(Counters(n), Spaces(master, n), kernel[TABLE := OnePage()], Family(n), 1)
  }

  lemma {:induction false} FamilyIs(n: nat)
    requires n >= 1
    ensures DirAt(0) in Family(n) && Family(n)[DirAt(0)] == 0
  {
    if n > 1 { FamilyIs(n - 1); }
  }

  lemma StartSound()
    ensures Sound(Counters(1))
  {
    var st := Counters(1);
    var a, b, e := st.blocks[0], st.blocks[1], st.blocks[2];
    BlocksOrdered(1);
    hide WellFormed;
    forall f | 0 <= f < FRAMES
      ensures Touching(st.blocks, f) == if f == HOME then 2 else if f == HOME + 1 || f == LAST then 1 else 0
    {
      TouchingTwo(a, b, f);
      TouchingConcat([a, b], [e], f);
      assert [a, b] + [e] == st.blocks && [e][..0] == [];
    }
    hide Touching;
  }

  lemma StartInv(master: Table, kernel: map<nat, Table>)
    requires KernelOk(master, kernel)
    ensures MInv(Cloned(master, kernel, 1), master)
  {
    StartSound();
    hide Sound, Blocks;
    var m := Cloned(master, kernel, 1);
    assert m.st.blocks[1] == Block(DirAt(0) - HDR, PAGE) by { BlocksOne(); }
    assert forall d, i :: Slot(m, d, i) ==> d == DirAt(0) && i == 1;
    assert forall t, j :: Leaf(m, master, t, j) ==> t == TABLE && j == 0;
  }

  lemma BlocksOne()
    ensures Blocks(1)[1] == Block(DirAt(0) - HDR, PAGE)
  {
  }

  lemma OneTable(master: Table, kernel: map<nat, Table>, n: nat)
    requires |master| == ENTRIES && n >= 1 && Shape(Cloned(master, kernel, n))
    ensures OwnTables(Cloned(master, kernel, n), DirAt(0)) == {TABLE}
  {
    var m := Cloned(master, kernel, n);
    assert m.dirs[DirAt(0)][1] == Entry(true, true, true, TABLE);
  }

  /** Each clone of the process is the next of these machines. */
  lemma NextClone(master: Table, kernel: map<nat, Table>, n: nat)
    requires |master| == ENTRIES && 1 <= n <= 255 && MInv(Cloned(master, kernel, n), master)
    ensures Clone(Cloned(master, kernel, n), master, DirAt(0)) == Cloned(master, kernel, n + 1)
  {
    hide Pick, PInv, Counters, Raise, Alloc, DirBlocks, Clone, OwnTables, CloneDir, Parent, Sound;
    var m := Cloned(master, kernel, n);
    InvOf(m, master);
    FamilyIs(n);
    OneTable(master, kernel, n);
    StateIs(n);
    PicksNext(n);
    CloneIs(m, master, DirAt(0), n, DirAt(n) - HDR);
    CountersNext(n);
    assert DirAt(n) - HDR + HDR == DirAt(n);
  }

  /** The 255th clone, and no other, breaks the invariant. */
  lemma CloneStep(master: Table, kernel: map<nat, Table>, n: nat)
    requires |master| == ENTRIES && 1 <= n <= 255 && MInv(Cloned(master, kernel, n), master)
    ensures MInv(Cloned(master, kernel, n + 1), master) <==> n < 255
  {
    hide Pick, PInv, Clone, DirBlocks, CanAllocDir, Counters, CountersLeft, Sound;
    var m := Cloned(master, kernel, n);
    InvOf(m, master);
    NextClone(master, kernel, n);
    StateIs(n);
    CanCloneNext(n);
    PicksNext(n);
    CloneExact(m, master, DirAt(0));
    RoomLeft(master, kernel, n);
  }

  lemma RoomLeft(master: Table, kernel: map<nat, Table>, n: nat)
    requires |master| == ENTRIES && 1 <= n <= 255 && Shape(Cloned(master, kernel, n))
    ensures CountersLeft(Cloned(master, kernel, n), DirAt(0)) <==> n < 255
  {
    hide Blocks, Spaces;
    var m := Cloned(master, kernel, n);
    assert Slot(m, DirAt(0), 1);
    assert m.st.holds[TABLE] == n;
  }

  lemma {:induction false} AllButLast(master: Table, kernel: map<nat, Table>, n: nat)
    requires KernelOk(master, kernel) && 1 <= n <= 255
    ensures MInv(Cloned(master, kernel, n), master)
  {
    hide MInv, Cloned;
    if n == 1 {
      StartInv(master, kernel);
    } else {
      AllButLast(master, kernel, n - 1);
      CloneStep(master, kernel, n - 1);
    }
  }

  lemma {:induction false} AllShare(master: Table, n: nat)
    requires |master| == ENTRIES && n >= 1
    ensures forall d :: d in Spaces(master, n) ==>
              |Spaces(master, n)[d]| == ENTRIES && Spaces(master, n)[d][1].present &&
                  Spaces(master, n)[d][1].index == TABLE
  {
    if n > 1 { AllShare(master, n - 1); }
  }

  lemma TableFree()
    ensures NextFree(Counters(256).users, 0, FRAMES) == TABLE
  {
    hide Blocks;
    var c := Counters(256).users;
    assert c[TABLE] == 0 && forall f :: 0 <= f < TABLE ==> c[f] > 0;
    FirstFree(c, 0, TABLE);
  }

  lemma FirstFree(c: Counts, lo: nat, k: nat)
    requires lo <= k < |c| && c[k] == 0 && forall x :: lo <= x < k ==> c[x] > 0
    ensures NextFree(c, lo, |c|) == k
  {
  }

  lemma StepIs(master: Table, kernel: map<nat, Table>, n: nat)
    requires KernelOk(master, kernel) && 1 <= n <= 255
    ensures MInv(Cloned(master, kernel, n), master)
    ensures NextMachine(Cloned(master, kernel, n), master, SpaceRuns.Cloned(DirAt(0)), Cloned(master, kernel, n + 1))
  {
    hide MInv, Clone, Counters;
    AllButLast(master, kernel, n);
    NextClone(master, kernel, n);
  }

  /** Every space of the machine translates through the one table, which counts as free and is the next page that
      alloc_page hands out. */
  ghost predicate TableLost(m: Machine) {
    && (forall d :: d in m.dirs ==> |m.dirs[d]| == ENTRIES && m.dirs[d][1].present && m.dirs[d][1].index == TABLE)
    && TABLE in m.tables && |m.st.users| == FRAMES && NextFree(m.st.users, 0, FRAMES) == TABLE
  }

  /** A run of 255 clones of one process: the invariant holds in every state but the last, and there the table of all
      256 spaces is lost. */
  lemma CloneRun(master: Table, kernel: map<nat, Table>)
    requires KernelOk(master, kernel)
    ensures var ms := seq(256, n requires 0 <= n < 256 => Cloned(master, kernel, n + 1));
            var es := seq(255, _ => SpaceRuns.Cloned(DirAt(0)));
            && IsMachineRun(ms, master, es)
            && (forall n :: 0 <= n < 255 ==> MInv(ms[n], master)) && !MInv(ms[255], master)
            && TableLost(ms[255])
  {
    hide MInv, NextMachine, Cloned, TableLost;
    var ms := seq(256, n requires 0 <= n < 256 => Cloned(master, kernel, n + 1));
    var es := seq(255, _ => SpaceRuns.Cloned(DirAt(0)));
    forall n | 0 <= n < 255
      ensures MInv(ms[n], master) && NextMachine(ms[n], master, es[n], ms[n + 1])
    {
      StepIs(master, kernel, n + 1);
    }
    StepIs(master, kernel, 255);
    CloneStep(master, kernel, 255);
    LostAtLast(master, kernel);
  }

  lemma LostAtLast(master: Table, kernel: map<nat, Table>)
    requires |master| == ENTRIES
    ensures TableLost(Cloned(master, kernel, 256))
  {
    hide Counters, Spaces, NextFree;
    AllShare(master, 256);
    TableFree();
  }

  /** The directory and tables that the boot loader builds are such a kernel. */
  lemma BootKernel(mem0: map<nat, Table>, mem: map<nat, Table>, kernelEnd: nat)
    requires Booted(mem0, mem, KBASE, kernelEnd) && !(DIR <= LowFrame(kernelEnd) <= DIR + TableCount(KBASE))
    ensures KernelOk(mem[DIR], map t | t in mem && DIR < t <= DIR + TableCount(KBASE) :: mem[t])
  {
    hide KernelTableAt, LowTable;
    var master := mem[DIR];
    forall t: nat | DIR < t <= DIR + TableCount(KBASE)
      ensures t in mem && |mem[t]| == ENTRIES && KernelTable(master, t)
    {
      var k := t - DIR - 1;
      assert DIR + 1 + k in mem && mem[DIR + 1 + k] == KernelTableAt(k * ENTRIES);
      assert master[USER + k].present && master[USER + k].index == t;
    }
  }

  /** A first space whose directory comes back off its page boundary: creation breaks the invariant. */
  lemma SpaceMisaligned(master: Table)
    requires |master| == ENTRIES && forall i :: 0 <= i < ENTRIES ==> !master[i].present
    ensures var m := Machine(HeapCases.SPLIT, map[], map[], map[], 0);
            MInv(m, master) && !MInv(Create(m, master), master)
  {
    hide Sound, Pick, Create, Lands;
    var m := Machine(HeapCases.SPLIT, map[], map[], map[], 0);
    HeapCases.DirectoryMisaligned();
    CreateExact(m, master);
  }
}
