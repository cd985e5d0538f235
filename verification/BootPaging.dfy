/**
  The page tables the boot loader builds before the kernel runs (boot/hd/loader.c, setup_page).
 */
module BootPaging {
  import opened Wrappers
  import opened Frames
  import opened Paging

  const DIR: int := 0x100                  // frame of CONFIG_KERNEL_PG_ADDR
  const IMAGE: int := 0x20_1000            // physical address of the kernel image
  const LOW: int := 0x10_0000              // the first megabyte

  /** Page tables needed from the slot of `offset` to the top. */
  function TableCount(offset: nat): int {
    ENTRIES - offset / SLOT
  }

  /** The frame of the temporary table: the first page boundary at or after the end of the kernel. */
  function LowFrame(kernelEnd: nat): nat {
    (kernelEnd + PAGE - 1) / PAGE
  }

  function KernelTableAt(first: nat): (r: Table)
    ensures |r| == ENTRIES
  {
    seq(ENTRIES, j requires 0 <= j < ENTRIES => Entry(true, true, false, first + j))
  }

  function LowTable(): (r: Table)
    ensures |r| == ENTRIES
  {
    seq(ENTRIES, j requires 0 <= j < ENTRIES => if j < LOW / PAGE then Entry(true, false, false, j) else EMPTY)
  }

  function BootDir(offset: nat, kernelEnd: nat): (r: Table)
    requires offset < TOP
    ensures |r| == ENTRIES
  {
    seq(ENTRIES, i requires 0 <= i < ENTRIES =>
      if i == 0 then Entry(true, false, false, LowFrame(kernelEnd))
      else if offset / SLOT <= i then Entry(true, true, false, DIR + 1 + i - offset / SLOT)
      else EMPTY)
  }

  /** Memory after setup_page: directory, kernel tables, temporary table, and nothing else changed. */
  ghost predicate Booted(mem0: map<nat, Table>, mem: map<nat, Table>, offset: nat, kernelEnd: nat)
    requires offset < TOP
  {
    var n := TableCount(offset);
    && (forall f :: f in mem <==> f in mem0 || DIR <= f <= DIR + n || f == LowFrame(kernelEnd))
    && DIR in mem && mem[DIR] == BootDir(offset, kernelEnd)
    && (forall k :: 0 <= k < n ==> DIR + 1 + k in mem && mem[DIR + 1 + k] == KernelTableAt(k * ENTRIES))
    && LowFrame(kernelEnd) in mem && mem[LowFrame(kernelEnd)] == LowTable()
    && forall f :: f in mem0 && !(DIR <= f <= DIR + n) && f != LowFrame(kernelEnd) ==> mem[f] == mem0[f]
  }

  /** The physical address the walk gives for `v`. */
  function Phys(mem: map<nat, Table>, v: nat): Option<nat>
    requires DIR in mem && |mem[DIR]| == ENTRIES && v < TOP
  {
    match Walk(mem[DIR], mem, v)
    case None => None
    case Some(w) => Some(w.frame * PAGE + v % PAGE)
  }

  /** The walk maps each kernel slot linearly from physical zero, the first megabyte to itself, read-only, and
      nothing else. */
  lemma BootWalk(mem0: map<nat, Table>, mem: map<nat, Table>, offset: nat, kernelEnd: nat, v: nat)
    requires SLOT <= offset < TOP && Booted(mem0, mem, offset, kernelEnd) && v < TOP
    ensures Walk(mem[DIR], mem, v) ==
            if offset / SLOT <= v / SLOT then Some(Mapping(v / PAGE - offset / SLOT * ENTRIES, true, false))
            else if v < LOW then Some(Mapping(v / PAGE, false, false))
            else None
  {
    var i := v / SLOT;
    assert v / PAGE == i * ENTRIES + v / PAGE % ENTRIES;
    if offset / SLOT <= i {
      assert mem[DIR + 1 + (i - offset / SLOT)] == KernelTableAt((i - offset / SLOT) * ENTRIES);
    }
  }

  /** No entry of the directory or of its tables is for user mode; the temporary table starts with the first page behind
      the kernel image, and neither of its levels is writable. */
  lemma BootRights(mem0: map<nat, Table>, mem: map<nat, Table>, offset: nat, kernelEnd: nat, i: nat, j: nat)
    requires SLOT <= offset < TOP && Booted(mem0, mem, offset, kernelEnd) && i < ENTRIES && j < ENTRIES
    requires mem[DIR][i].present
    ensures var t := mem[DIR][i].index;
            && t in mem && |mem[t]| == ENTRIES && !mem[DIR][i].us && !mem[t][j].us
            && (if i == 0 then kernelEnd <= t * PAGE < kernelEnd + PAGE && !mem[DIR][i].rw && !mem[t][j].rw
                else mem[DIR][i].rw && mem[t][j].rw)
  {
    if i > 0 {
      assert mem[DIR + 1 + (i - offset / SLOT)] == KernelTableAt((i - offset / SLOT) * ENTRIES);
    }
  }

  /** Every address at or above the offset translates to itself minus the offset exactly when the offset is
      aligned to a directory slot, which the configuration check demands. */
  lemma BootLinear(mem0: map<nat, Table>, mem: map<nat, Table>, offset: nat, kernelEnd: nat)
    requires SLOT <= offset < TOP && Booted(mem0, mem, offset, kernelEnd)
    ensures (forall v :: offset <= v < TOP ==> Phys(mem, v) == Some(v - offset)) <==> offset % SLOT == 0
  {
    if offset % SLOT == 0 {
      forall v | offset <= v < TOP
        ensures Phys(mem, v) == Some(v - offset)
      {
        BootWalk(mem0, mem, offset, kernelEnd, v);
      }
    } else {
      BootWalk(mem0, mem, offset, kernelEnd, offset);
      assert Phys(mem, offset) != Some(0);
    }
  }

  /** The tables end at or before the kernel image exactly for offsets of at least 3 GiB. */
  lemma TablesBelowImage(offset: nat)
    requires offset < TOP && offset % SLOT == 0
    ensures (DIR + 1 + TableCount(offset)) * PAGE <= IMAGE <==> 0xC000_0000 <= offset
  {
  }

  // ----- the loop of setup_page, slot by slot

  /** The directory with the kernel slots below `i` entered. */
  function PartDir(offset: nat, i: int): (r: Table)
    requires offset < TOP && i <= ENTRIES
    ensures |r| == ENTRIES
  {
    seq(ENTRIES, x requires 0 <= x < ENTRIES =>
      if offset / SLOT <= x < i then Entry(true, true, false, DIR + 1 + x - offset / SLOT) else EMPTY)
  }

  /** Memory with the kernel slots below `i` entered and their tables filled. */
  function PartMem(mem0: map<nat, Table>, offset: nat, i: int): map<nat, Table>
    requires offset < TOP && offset / SLOT <= i <= ENTRIES
    decreases i
  {
    if i == offset / SLOT then mem0[DIR := PartDir(offset, i)]
    else
      var k := i - 1 - offset / SLOT;
      PartMem(mem0, offset, i - 1)[DIR := PartDir(offset, i)][DIR + 1 + k := KernelTableAt(k * ENTRIES)]
  }

  lemma {:induction false} PartMemTables(mem0: map<nat, Table>, offset: nat, i: int)
    requires offset < TOP && offset / SLOT <= i <= ENTRIES
    ensures var mem := PartMem(mem0, offset, i); var n := i - offset / SLOT;
            && (forall f :: f in mem <==> f in mem0 || DIR <= f <= DIR + n)
            && mem[DIR] == PartDir(offset, i)
            && (forall k :: 0 <= k < n ==> DIR + 1 + k in mem && mem[DIR + 1 + k] == KernelTableAt(k * ENTRIES))
            && forall f :: f in mem0 && !(DIR <= f <= DIR + n) ==> mem[f] == mem0[f]
    decreases i
  {
    hide KernelTableAt, PartDir;
    if i > offset / SLOT {
      PartMemTables(mem0, offset, i - 1);
    }
  }

  lemma BootedFrom(mem0: map<nat, Table>, offset: nat, kernelEnd: nat)
    requires SLOT <= offset < TOP && DIR + TableCount(offset) < LowFrame(kernelEnd)
    ensures var mem := PartMem(mem0, offset, ENTRIES); var low := LowFrame(kernelEnd);
            DIR in mem && |mem[DIR]| == ENTRIES &&
            Booted(mem0, mem[DIR := mem[DIR][0 := Entry(true, false, false, low)]][low := LowTable()], offset,
                    kernelEnd)
  {
    hide KernelTableAt, LowTable, PartMem;
    PartMemTables(mem0, offset, ENTRIES);
    assert PartDir(offset, ENTRIES)[0 := Entry(true, false, false, LowFrame(kernelEnd))] == BootDir(offset, kernelEnd);
    hide PartDir, BootDir;
  }

  class Loader {
    var mem: map<nat, Table>

    /** Fill the table in frame `f` with consecutive frames from `page`. */
    method FillTable(f: nat, page: nat) returns (next: nat)
      modifies this
      ensures mem == old(mem)[f := KernelTableAt(page)] && next == page + ENTRIES
    {
      mem := mem[f := seq(ENTRIES, _ => EMPTY)];
      next := page;
      var j := 0;
      while j < ENTRIES
        invariant 0 <= j <= ENTRIES && next == page + j && f in mem && |mem[f]| == ENTRIES
        invariant mem == old(mem)[f := mem[f]]
        invariant forall x :: 0 <= x < j ==> mem[f][x] == Entry(true, true, false, page + x)
      {
        mem := mem[f := mem[f][j := Entry(true, true, false, next)]];
        next := next + 1;
        j := j + 1;
      }
      assert mem[f] == KernelTableAt(page);
    }

    /** Fill the table in frame `f` with the first megabyte, read-only. */
    method FillLow(f: nat)
      modifies this
      ensures mem == old(mem)[f := LowTable()]
    {
      mem := mem[f := seq(ENTRIES, _ => EMPTY)];
      var j := 0;
      while j < LOW / PAGE
        invariant 0 <= j <= LOW / PAGE && f in mem && |mem[f]| == ENTRIES && mem == old(mem)[f := mem[f]]
        invariant forall x :: 0 <= x < ENTRIES ==> mem[f][x] == if x < j then Entry(true, false, false, x) else EMPTY
      {
        mem := mem[f := mem[f][j := Entry(true, false, false, j)]];
        j := j + 1;
      }
      assert mem[f] == LowTable();
    }

    method SetupPage(offset: nat, kernelEnd: nat)
      requires SLOT <= offset < TOP && DIR + TableCount(offset) < LowFrame(kernelEnd)
      modifies this
      ensures Booted(old(mem), mem, offset, kernelEnd)
    {
      hide KernelTableAt, LowTable;
      var i0 := offset / SLOT;
      mem := mem[DIR := seq(ENTRIES, _ => EMPTY)];
      assert mem[DIR] == PartDir(offset, i0);
      var i, page, tbl := i0, 0, DIR + 1;
      while i < ENTRIES
        invariant i0 <= i <= ENTRIES && tbl == DIR + 1 + i - i0 && page == (i - i0) * ENTRIES
        invariant mem == PartMem(old(mem), offset, i) && DIR in mem && mem[DIR] == PartDir(offset, i)
      {
        mem := mem[DIR := mem[DIR][i := Entry(true, true, false, tbl)]];
        assert mem[DIR] == PartDir(offset, i + 1);
        page := FillTable(tbl, page);
        tbl := tbl + 1;
        i := i + 1;
      }
      BootedFrom(old(mem), offset, kernelEnd);
      tbl := LowFrame(kernelEnd);
      mem := mem[DIR := mem[DIR][0 := Entry(true, false, false, tbl)]];
      FillLow(tbl);
    }
  }
}
