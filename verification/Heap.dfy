/**
  mm/kmalloc.c and mm/page.c in their own form: headers linked by address inside
  memory, one counter array, and loops over both.
 */
module Heap {
  import opened Wrappers
  import opened Frames
  import opened HeapSpec
  import opened HeapRuns
  import opened HeapScan

  /** A block header in memory; `prev` and `next` are addresses. */
  datatype Header = Header(size: nat, prev: nat, next: nat)

  type Memory = map<nat, Header>

  function After(bs: seq<Block>, k: nat): nat
    requires k < |bs|
  {
    bs[if k == |bs| - 1 then 0 else k + 1].addr
  }

  function Before(bs: seq<Block>, k: nat): nat
    requires k < |bs|
  {
    bs[if k == 0 then |bs| - 1 else k - 1].addr
  }

  /** The header of block `k` is in memory and links its two neighbours, the ends to each other. */
  ghost predicate IsNode(mem: Memory, bs: seq<Block>, k: nat)
    requires k < |bs|
  {
    bs[k].addr in mem && mem[bs[k].addr] == Header(bs[k].size, Before(bs, k), After(bs, k))
  }

  ghost predicate IsList(mem: Memory, bs: seq<Block>) {
    forall k :: 0 <= k < |bs| ==> IsNode(mem, bs, k)
  }

  /** `a` is neither the block nor its successor. */
  predicate CanLink(mem: Memory, block: nat, a: nat) {
    block in mem && mem[block].next in mem && a !in {block, mem[block].next} && block != mem[block].next
  }

  /** kmemalign's four link writes, in its order. */
  function LinkIn(mem: Memory, block: nat, a: nat, size: nat): Memory
    requires CanLink(mem, block, a)
  {
    var next := mem[block].next;
    var m1 := mem[a := Header(size, block, next)];
    var m2 := m1[block := m1[block].(next := a)];
    m2[next := m2[next].(prev := a)]
  }

  lemma AddrsDiffer(bs: seq<Block>, j: nat, k: nat)
    requires Ordered(bs) && j < |bs| && k < |bs| && j != k
    ensures bs[j].addr != bs[k].addr
  {
    assert End(bs[if j < k then j else k]) <= bs[if j < k then k else j].addr;
  }

  lemma LinkInNode(mem: Memory, bs: seq<Block>, i: nat, b: Block, k: nat)
    requires i < |bs| - 1 && k <= |bs|
    requires IsNode(mem, bs, i) && IsNode(mem, bs, i + 1)
    requires bs[i].addr != bs[i + 1].addr && b.addr != bs[i].addr && b.addr != bs[i + 1].addr
    requires k <= i ==> IsNode(mem, bs, k) && bs[k].addr != b.addr && bs[k].addr != bs[i + 1].addr &&
                        (k < i ==> bs[k].addr != bs[i].addr)
    requires k > i + 1 ==> IsNode(mem, bs, k - 1) && bs[k - 1].addr != b.addr && bs[k - 1].addr != bs[i].addr &&
                           (k > i + 2 ==> bs[k - 1].addr != bs[i + 1].addr)
    ensures IsNode(LinkIn(mem, bs[i].addr, b.addr, b.size), Insert(bs, i, b), k)
  {
    var bs' := Insert(bs, i, b);
    assert bs'[k] == if k <= i then bs[k] else if k == i + 1 then b else bs[k - 1];
  }

  lemma LinkInList(mem: Memory, bs: seq<Block>, i: nat, b: Block)
    requires WellFormed(bs) && IsList(mem, bs) && i < |bs| - 1
    requires End(bs[i]) <= b.addr && End(b) <= bs[i + 1].addr
    ensures IsNode(mem, bs, i) && IsNode(mem, bs, i + 1) && bs[i].addr != bs[i + 1].addr
    ensures IsList(LinkIn(mem, bs[i].addr, b.addr, b.size), Insert(bs, i, b))
  {
    InsertWellFormed(bs, i, b);
    var bs' := Insert(bs, i, b);
    assert bs'[i + 1] == b && bs'[i] == bs[i] && bs'[i + 2] == bs[i + 1];
    hide IsNode, LinkIn, Ordered;
    assert IsNode(mem, bs, i) && IsNode(mem, bs, i + 1);
    AddrsDiffer(bs', i, i + 1);
    AddrsDiffer(bs', i, i + 2);
    AddrsDiffer(bs', i + 1, i + 2);
    forall k | 0 <= k < |bs'|
      ensures IsNode(LinkIn(mem, bs[i].addr, b.addr, b.size), bs', k)
    {
      assert bs'[k] == if k <= i then bs[k] else if k == i + 1 then b else bs[k - 1];
      if k != i { AddrsDiffer(bs', i, k); }
      if k != i + 1 {
        AddrsDiffer(bs', i + 1, k);
        assert IsNode(mem, bs, if k <= i then k else k - 1);
      }
      if k != i + 2 { AddrsDiffer(bs', i + 2, k); }
      LinkInNode(mem, bs, i, b, k);
    }
  }

  /** kfree's four link writes, in its order. */
  function Unlink(mem: Memory, block: nat): Memory
    requires block in mem && mem[block].prev in mem && mem[block].next in mem
  {
    var h := mem[block];
    var m1 := mem[h.prev := mem[h.prev].(next := h.next)];
    var m2 := m1[h.next := m1[h.next].(prev := h.prev)];
    m2[block := m2[block].(prev := 0, next := 0)]
  }

  lemma UnlinkNode(mem: Memory, bs: seq<Block>, k: nat, j: nat)
    requires Live(bs, k) && j < |bs| && j != k
    requires IsNode(mem, bs, k - 1) && IsNode(mem, bs, k) && IsNode(mem, bs, k + 1) && IsNode(mem, bs, j)
    requires bs[k - 1].addr != bs[k + 1].addr && bs[j].addr != bs[k].addr
    requires j != k - 1 ==> bs[j].addr != bs[k - 1].addr
    requires j != k + 1 ==> bs[j].addr != bs[k + 1].addr
    ensures IsNode(Unlink(mem, bs[k].addr), Remove(bs, k), if j < k then j else j - 1)
  {
    var bs' := Remove(bs, k);
    assert bs'[if j < k then j else j - 1] == bs[j];
  }

  lemma UnlinkList(mem: Memory, bs: seq<Block>, k: nat)
    requires WellFormed(bs) && IsList(mem, bs) && Live(bs, k)
    ensures IsNode(mem, bs, k - 1) && IsNode(mem, bs, k) && IsNode(mem, bs, k + 1)
    ensures IsList(Unlink(mem, bs[k].addr), Remove(bs, k))
  {
    assert IsNode(mem, bs, k - 1) && IsNode(mem, bs, k) && IsNode(mem, bs, k + 1);
    AddrsDiffer(bs, k - 1, k + 1);
    var bs', mem' := Remove(bs, k), Unlink(mem, bs[k].addr);
    hide IsNode, Unlink, Ordered;
    forall j' | 0 <= j' < |bs'|
      ensures IsNode(mem', bs', j')
    {
      var j := if j' < k then j' else j' + 1;
      assert IsNode(mem, bs, j);
      AddrsDiffer(bs, j, k);
      if j != k - 1 { AddrsDiffer(bs, j, k - 1); }
      if j != k + 1 { AddrsDiffer(bs, j, k + 1); }
      UnlinkNode(mem, bs, k, j);
    }
  }

  /** Where init_heap puts the end sentinel for a memory of `total` bytes. */
  function EndAddr(total: nat): int {
    (if total < TOP - 1 - KBASE then total else TOP - 1 - KBASE) + KBASE - HDR
  }

  /** The counters after init_heap: the page of the first sentinel is frame `f`; the end sentinel's
      page is obtained by its virtual address. */
  function InitCounts(c: Counts, f: nat, end: nat): Counts
    requires |c| == FRAMES && f < FRAMES && end < TOP
  {
    var c1 := c[f := Inc(c[f])];
    c1[end / PAGE := Inc(c1[end / PAGE])]
  }

  /** The holds on every page that no block touches. */
  ghost function Rest(bs: seq<Block>, c: Counts): (h: Counts)
    ensures |h| == |c|
  {
    seq(|c|, f requires 0 <= f < |c| => if Touching(bs, f) > 0 then 0 else c[f])
  }

  /** The pages of an end sentinel at `end` are counted once, and the first free page is not one of them. */
  ghost predicate EndCounted(c: Counts, end: nat)
    requires |c| == FRAMES
  {
    && (forall g :: 0 <= g < FRAMES && Touches(Block(end, 0), g) ==> c[g] == 1)
    && !Touches(Block(end, 0), NextFree(c, 0, FRAMES))
  }

  lemma RestSound(bs: seq<Block>, c: Counts)
    requires |c| == FRAMES && WellFormed(bs)
    ensures Sound(State(bs, c, Rest(bs, c))) <==> forall g :: 0 <= g < FRAMES && Touching(bs, g) > 0 ==>
            c[g] == Touching(bs, g)
  {
    hide Touching, WellFormed;
  }

  lemma InitTouching(f: nat, end: nat, g: int)
    requires f < FRAMES && end < TOP && 0 <= g < FRAMES
    ensures var b := Block(end, 0);
            Touching([Block(Base(f), 0), b], g) == (if g == f then 1 else 0) + (if Touches(b, g) then 1 else 0)
    ensures Touches(Block(end, 0), g) ==> g != end / PAGE
  {
    TouchingTwo(Block(Base(f), 0), Block(end, 0), g);
  }

  lemma InitWellFormed(f: nat, end: nat)
    requires end + HDR <= LAST_PAGE && Base(f) + HDR <= end
    ensures var bs := [Block(Base(f), 0), Block(end, 0)];
            WellFormed(bs) && Sized(bs) && Base(f) != end && f != end / PAGE
  {
  }

  lemma InitInv(c: Counts, f: nat, end: nat)
    requires |c| == FRAMES && f == NextFree(c, 0, FRAMES) < FRAMES && end + HDR <= LAST_PAGE && Base(f) + HDR <= end
    ensures var bs, c' := [Block(Base(f), 0), Block(end, 0)], InitCounts(c, f, end);
            Inv(State(bs, c', Rest(bs, c'))) <==> EndCounted(c, end)
  {
    hide Touching, WellFormed, Sized, NextFree, Touches, Rest, Counted, Exclusive;
    var b := Block(end, 0);
    var bs, c' := [Block(Base(f), 0), b], InitCounts(c, f, end);
    InitWellFormed(f, end);
    RestSound(bs, c');
    forall g | 0 <= g < FRAMES
      ensures Touching(bs, g) > 0 && c'[g] != Touching(bs, g) <==>
              if g == f then Touches(b, f) else Touches(b, g) && c[g] != 1
    {
      InitTouching(f, end, g);
    }
    if EndCounted(c, end) {
      assert forall g :: 0 <= g < FRAMES && Touching(bs, g) > 0 ==> c'[g] == Touching(bs, g);
    } else if Touches(b, f) {
      assert Touching(bs, f) > 0 && c'[f] != Touching(bs, f);
    } else {
      var g :| 0 <= g < FRAMES && Touches(b, g) && c[g] != 1;
      assert Touching(bs, g) > 0 && c'[g] != Touching(bs, g);
    }
  }

  /** The state init_heap leaves over counters `c`: every use of a page without a sentinel is a hold. */
  ghost function InitState(c: Counts, total: nat): State
    requires |c| == FRAMES && NextFree(c, 0, FRAMES) < FRAMES && total + KBASE <= LAST_PAGE && HDR <= total
  {
    var f, end := NextFree(c, 0, FRAMES), EndAddr(total);
    var bs, c' := [Block(Base(f), 0), Block(end, 0)], InitCounts(c, f, end);
    State(bs, c', Rest(bs, c'))
  }

  /** From there the heap has its pages to itself if and only if those between the sentinels were free. */
  lemma InitUnheld(c: Counts, f: nat, end: nat)
    requires |c| == FRAMES && f == NextFree(c, 0, FRAMES) < FRAMES && end + HDR <= LAST_PAGE && Base(f) + HDR <= end
    ensures var bs, c' := [Block(Base(f), 0), Block(end, 0)], InitCounts(c, f, end);
            Unheld(State(bs, c', Rest(bs, c'))) <==> forall g :: f < g < Frame(end) ==> c[g] == 0
  {
    hide Touching, NextFree;
    var b := Block(end, 0);
    var bs, c' := [Block(Base(f), 0), b], InitCounts(c, f, end);
    InitWellFormed(f, end);
    assert Frame(Base(f)) == f && f <= Frame(end) < FRAMES && end / PAGE > Frame(end);
    forall g | f <= g <= Frame(end)
      ensures Touching(bs, g) > 0 <==> g == f || g == Frame(end)
    {
      InitTouching(f, end, g);
      FrameBounds(end);
    }
    var h := Rest(bs, c');
    assert forall g :: f <= g <= Frame(end) ==> h[g] == if g == f || g == Frame(end) then 0 else c[g];
    if Unheld(State(bs, c', h)) {
      assert forall g :: f < g < Frame(end) ==> c[g] == h[g];
    }
  }

  /** init_heap leaves the page of its end sentinel as it found it, and turns the unavailable frame
      that its virtual page number names into a free one. */
  lemma EndPageNotObtained(c: Counts, f: nat, end: nat)
    requires |c| == FRAMES && f < KBASE / PAGE && KBASE <= end < TOP && Frame(end) != f
    ensures InitCounts(c, f, end)[Frame(end)] == c[Frame(end)]
    ensures c[end / PAGE] == 255 ==> InitCounts(c, f, end)[end / PAGE] == 0
  {
  }

  /** The pointer an answer stands for. */
  function Address(r: Answer): nat {
    match r case At(a) => a case _ => 0
  }

  lemma ScanFirst(c: Counts, next: nat, need: nat, s: nat)
    requires |c| == FRAMES && KBASE <= s <= next < LAST_PAGE
    ensures Scanning(c, next, need, s, Frame(s) + 1)
    ensures var e := Wrap(s - s % PAGE + PAGE); EndOf(next, s, Frame(s) + 1) == if next < e then next else e
  {
    FrameBounds(s);
  }

  lemma AddrBase(k: nat)
    requires k < KFRAMES
    ensures Addr(k) == Base(k) && Index(Base(k)) == k
  {
  }

  lemma LandingStep(c: Counts, m: nat, fn: nat)
    requires |c| == FRAMES && m < FRAMES && fn < KFRAMES && m != fn && c[m] > 0
    ensures var m' := if m == FRAMES - 1 then 0 else m + 1;
            Landing(c, m', fn) == Landing(c, m, fn) && Addr(m') == Wrap(Addr(m) + PAGE)
  {
  }

  lemma LandingStop(c: Counts, m: nat, fn: nat)
    requires |c| == FRAMES && m < FRAMES && fn < KFRAMES && (m == fn || c[m] == 0)
    ensures Landing(c, m, fn) == m
  {
  }

  lemma SearchNotNull(c: Counts, bend: nat, next: nat, align: nat, need: nat)
    requires |c| == FRAMES && KBASE <= bend <= next && next + HDR < TOP && align < TOP
    ensures Search(c, bend, next, align, need).Some? ==> Search(c, bend, next, align, need).value >= KBASE
  {
    if Search(c, bend, next, align, need).Some? {
      SearchInGap(c, bend, next, align, need);
    }
  }

  lemma ListStep(mem: Memory, bs: seq<Block>, i: nat)
    requires WellFormed(bs) && IsList(mem, bs) && i < |bs|
    ensures bs[i].addr in mem && mem[bs[i].addr] == Header(bs[i].size, Before(bs, i), After(bs, i))
    ensures After(bs, i) == bs[0].addr <==> i == |bs| - 1
    ensures i < |bs| - 1 ==> KBASE <= End(bs[i]) <= bs[i + 1].addr && bs[i + 1].addr + HDR <= LAST_PAGE
  {
    assert IsNode(mem, bs, i);
    assert bs[0].addr + HDR <= End(bs[i]);
    assert i + 1 < |bs| - 1 ==> End(bs[i + 1]) <= bs[|bs| - 1].addr;
  }

  lemma HeaderPage(bs: seq<Block>, k: nat)
    requires WellFormed(bs) && k < |bs|
    ensures var f := Frame(bs[k].addr); 0 <= f < FRAMES && Touches(bs[k], f)
  {
    FrameBounds(bs[k].addr);
    assert k > 0 ==> End(bs[0]) <= bs[k].addr;
    assert k < |bs| - 1 ==> End(bs[k]) <= bs[|bs| - 1].addr;
  }

  lemma BlockBounds(bs: seq<Block>, i: nat)
    requires WellFormed(bs) && i < |bs| - 1
    ensures KBASE <= bs[i].addr && bs[i + 1].addr < LAST_PAGE
  {
    assert i > 0 ==> End(bs[0]) <= bs[i].addr;
    assert i + 1 < |bs| - 1 ==> End(bs[i + 1]) <= bs[|bs| - 1].addr;
  }

  lemma BlockPages(bs: seq<Block>, k: nat)
    requires WellFormed(bs) && Live(bs, k)
    ensures KBASE <= bs[k].addr && End(bs[k]) <= LAST_PAGE
  {
    assert End(bs[0]) <= bs[k].addr && End(bs[k]) <= bs[|bs| - 1].addr;
  }

  /** The headers in memory after an operation. */
  ghost function Links(mem: Memory, st: State, op: Op): (r: Memory)
    requires Sound(st) && Callable(st, op) && IsList(mem, st.blocks)
  {
    match op
    case KMemAlign(align, size) => (
      match Pick(st.blocks, st.users, align, size)
      case None => mem
      case Some((i, a)) =>
        PickInGap(st.blocks, st.users, align, size, i, a);
        LinkInList(mem, st.blocks, i, Block(a, size));
        LinkIn(mem, st.blocks[i].addr, a, size)
    )
    case KFree(k) =>
      UnlinkList(mem, st.blocks, k);
      Unlink(mem, st.blocks[k].addr)
    case _ => mem
  }

  lemma LinksNone(mem: Memory, st: State, align: nat, size: nat)
    requires Sound(st) && align < TOP && size + HDR < TOP && IsList(mem, st.blocks)
    requires Pick(st.blocks, st.users, align, size).None?
    ensures Links(mem, st, KMemAlign(align, size)) == mem
  {
    hide Pick;
  }

  lemma LinksGrant(mem: Memory, st: State, align: nat, size: nat, i: nat, a: nat)
    requires Sound(st) && align < TOP && size + HDR < TOP && IsList(mem, st.blocks)
    requires Pick(st.blocks, st.users, align, size) == Some((i, a))
    ensures i < |st.blocks| && CanLink(mem, st.blocks[i].addr, a)
    ensures Links(mem, st, KMemAlign(align, size)) == LinkIn(mem, st.blocks[i].addr, a, size)
  {
    hide Pick, Counted, Exclusive, LinkIn;
    PickInGap(st.blocks, st.users, align, size, i, a);
    LinkInList(mem, st.blocks, i, Block(a, size));
    ListStep(mem, st.blocks, i);
    ListStep(mem, st.blocks, i + 1);
    assert IsNode(mem, st.blocks, i + 1);
  }

  /** Every operation leaves one circular, mutually linked list of the blocks. */
  lemma LinksList(mem: Memory, st: State, op: Op)
    requires Sound(st) && Callable(st, op) && IsList(mem, st.blocks)
    ensures IsList(Links(mem, st, op), Step(st, op).blocks)
  {
    match op
    case KMemAlign(align, size) =>
      if Pick(st.blocks, st.users, align, size).Some? {
        var (i, a) := Pick(st.blocks, st.users, align, size).value;
        PickInGap(st.blocks, st.users, align, size, i, a);
        LinkInList(mem, st.blocks, i, Block(a, size));
      }
    case KFree(k) => UnlinkList(mem, st.blocks, k);
    case _ =>
  }

  /** The links of a run: where the state is sound, the headers follow the operation. */
  ghost predicate Linking(mem: Memory, st: State, op: Op, mem': Memory) {
    Sound(st) && Callable(st, op) && IsList(mem, st.blocks) ==> mem' == Links(mem, st, op)
  }

  /** In every state of every run whose requests pass their tests, the headers in memory form one circular, mutually
      linked list of blocks in address order, pairwise disjoint, between the two sentinels. */
  lemma {:induction false} RunLinked(mems: seq<Memory>, sts: seq<State>, ops: seq<Op>, n: nat)
    requires IsRun(sts, ops) && |mems| == |sts| && n < |sts| && Sound(sts[0]) && IsList(mems[0], sts[0].blocks)
    requires forall i :: 0 <= i < |ops| && Sound(sts[i]) ==> Passes(sts[i], ops[i])
    requires forall i :: 0 <= i < |ops| ==> Linking(mems[i], sts[i], ops[i], mems[i + 1])
    ensures Sound(sts[n]) && WellFormed(sts[n].blocks) && IsList(mems[n], sts[n].blocks)
  {
    hide Sound, Passes, Callable, Step, Links, IsList;
    RunSoundTo(sts, ops, n);
    if n > 0 {
      RunLinked(mems, sts, ops, n - 1);
      assert Next(sts[n - 1], ops[n - 1], sts[n - 1 + 1]);
      assert Linking(mems[n - 1], sts[n - 1], ops[n - 1], mems[n - 1 + 1]);
      LinksList(mems[n - 1], sts[n - 1], ops[n - 1]);
    }
    SoundWellFormed(sts[n]);
  }

  lemma SoundWellFormed(st: State)
    requires Sound(st)
    ensures WellFormed(st.blocks)
  {
  }

  class KernelMemory {
    const users: array<u8>
    var heap: nat
    var mem: map<nat, Header>
    ghost var blocks: seq<Block>
    ghost var holds: Counts

    /** The headers in memory form one circular, mutually linked list of `blocks`. */
    ghost predicate Linked()
      reads this
    {
      2 <= |blocks| && blocks[0].addr == heap && IsList(mem, blocks)
    }

    /** The page of every header but the first is in use; for the end sentinel this is the caller's
        burden, since init_heap raises the counter of another frame. */
    ghost predicate Held()
      reads this, users
    {
      && users.Length == FRAMES
      && forall k :: 0 < k < |blocks| ==> 0 <= Frame(blocks[k].addr) < FRAMES && users[Frame(blocks[k].addr)] > 0
    }

    ghost predicate Valid()
      reads this, users
    {
      Linked() && WellFormed(blocks) && Held()
    }

    ghost function Abs(): State
      reads this, users
    {
      State(blocks, users[..], holds)
    }

    /** Exact counters put every header's page in use. */
    lemma SoundValid()
      requires users.Length == FRAMES && Linked() && Sound(Abs())
      ensures Valid()
    {
      forall k | 0 < k < |blocks|
        ensures 0 <= Frame(blocks[k].addr) < FRAMES && users[Frame(blocks[k].addr)] > 0
      {
        HeaderPage(blocks, k);
        TouchingMember(blocks, k, Frame(blocks[k].addr));
      }
    }

    /** The RESET loop: from page start `from`, around the address space if need be, the first page that is free or
        holds `next`. */
    method SkipUsed(from: nat, next: nat) returns (s: nat)
      requires users.Length == FRAMES && KBASE <= next < LAST_PAGE && from < TOP && from == Addr(Index(from))
      ensures s == Addr(Landing(users[..], Index(from), Frame(next)))
    {
      hide NextFree;
      s := from;
      ghost var c, m, fn := users[..], Index(from), Frame(next);
      while !SamePage(s, next) && users[Index(s)] > 0
        invariant 0 <= m < FRAMES && s == Addr(m) && Landing(c, m, fn) == Landing(c, Index(from), fn)
        decreases if m > fn then FRAMES - m + fn else fn - m
      {
        LandingStep(c, m, fn);
        s := Wrap(s + PAGE);
        m := if m == FRAMES - 1 then 0 else m + 1;
      }
      LandingStop(c, m, fn);
    }

    /** The loop of search_interspace from the first header `s0`, whatever the counters, as long as it ends. */
    method Scan(s0: nat, next: nat, need: nat) returns (r: nat)
      requires users.Length == FRAMES && KBASE <= s0 <= next < LAST_PAGE
      requires Hunt(users[..], next, need, s0, false) != Never
      ensures r == Address(Hunt(users[..], next, need, s0, false))
    {
      hide Scanning, Hunt, Reset, Around, Landing, Addr;
      ghost var c, k, lap := users[..], Frame(s0) + 1, false;
      var s: nat := s0;
      var e: nat := Wrap(s - s % PAGE + PAGE);
      if next < e { e := next; }
      ScanFirst(c, next, need, s);
      while true
        invariant Base(-1) <= s < LAST_PAGE && Scanning(c, next, need, s, k) && e == EndOf(next, s, k)
        invariant Hunt(c, next, need, s, lap) == Hunt(c, next, need, s0, false)
        decreases !lap, KFRAMES - Frame(s), KFRAMES - k
      {
        ScanAnswer(c, next, need, s, k, lap);
        if e < s { return 0; }
        if e - s >= need { return s; }
        if SamePage(s, next) { return 0; }
        ScanExtend(c, next, need, s, k, lap);
        if users[Index(e)] == 0 {
          e, k := Wrap(e + PAGE), k + 1;
        } else {
          ScanReset(c, next, need, s, k, lap);
          AddrBase(k);
          s := SkipUsed(e, next);
          e := if SamePage(s, next) then next else Wrap(s + PAGE);
          if e < KBASE { return 0; }
          lap, k := lap || Around(c, k, Frame(next)), Frame(s) + 1;
        }
      }
    }

    method SearchInterspace(block: nat, size: nat, align: nat) returns (r: nat)
      requires users.Length == FRAMES && block in mem && size < TOP && align < TOP
      requires var h := mem[block];
               KBASE <= block + HDR + h.size <= h.next && h.next + HDR <= LAST_PAGE
      requires var h := mem[block];
               Answered(users[..], block + HDR + h.size, h.next, align, Need(size)) != Never
      ensures var h := mem[block];
              r == Address(Answered(users[..], block + HDR + h.size, h.next, align, Need(size)))
    {
      hide Hunt, FirstHeader, Wrap;
      var next := mem[block].next;
      var s := FirstHeader(block + HDR + mem[block].size, align);
      if next < s {
        r := 0;     // the end of the first page, wrapped or cut at `next`, is below `s`
      } else {
        r := Scan(s, next, Need(size));
      }
    }

    /** The walk of kmemalign over the list: the first block whose gap has room, and the header there. */
    method FindRoom(align: nat, size: nat) returns (block: nat, found: nat, ghost i: nat)
      requires Valid() && align < TOP && size < TOP
      ensures var k := FindGap(blocks, users[..], 0, align, Need(size));
              && i == k && block == blocks[k].addr
              && found == if k == |blocks| - 1 then 0
                          else Search(users[..], End(blocks[k]), blocks[k + 1].addr, align, Need(size)).value
      ensures i < |blocks| - 1 ==> found != 0
    {
      hide Search, FirstHeader, Answered, Ordered;
      block, found, i := heap, 0, 0;
      ListStep(mem, blocks, i);
      while mem[block].next != heap
        invariant 0 <= i < |blocks| && block == blocks[i].addr && found == 0
        invariant block in mem && (mem[block].next == heap <==> i == |blocks| - 1)
        invariant FindGap(blocks, users[..], i, align, Need(size)) == FindGap(blocks, users[..], 0, align, Need(size))
        decreases |blocks| - i
      {
        ListStep(mem, blocks, i);
        AnsweredHeld(users[..], End(blocks[i]), blocks[i + 1].addr, align, Need(size));
        found := SearchInterspace(block, size, align);
        SearchNotNull(users[..], End(blocks[i]), blocks[i + 1].addr, align, Need(size));
        if found != 0 { return; }
        block, i := mem[block].next, i + 1;
        ListStep(mem, blocks, i);
      }
    }

    /** obtain_page over the pages from `lo` up to `hi`. */
    method ObtainPages(lo: nat, hi: nat)
      requires users.Length == FRAMES && KBASE <= lo <= hi <= LAST_PAGE
      modifies users
      ensures users[..] == AddRange(old(users[..]), Frame(lo), FrameUp(hi))
    {
      var f := Frame(lo);
      while f < FrameUp(hi)
        invariant Frame(lo) <= f && (f <= FrameUp(hi) || f == Frame(lo))
        invariant users[..] == AddRange(old(users[..]), Frame(lo), f)
      {
        users[f] := Inc(users[f]);
        f := f + 1;
      }
    }

    /** free_page over the pages from `lo` up to `hi`. */
    method FreePages(lo: nat, hi: nat)
      requires users.Length == FRAMES && KBASE <= lo <= hi <= LAST_PAGE
      modifies users
      ensures users[..] == SubRange(old(users[..]), Frame(lo), FrameUp(hi))
    {
      var f := Frame(lo);
      while f < FrameUp(hi)
        invariant Frame(lo) <= f && (f <= FrameUp(hi) || f == Frame(lo))
        invariant users[..] == SubRange(old(users[..]), Frame(lo), f)
      {
        users[f] := Dec(users[f]);
        f := f + 1;
      }
    }

    method KMemAlign(align: nat, size: nat) returns (ptr: nat)
      requires Valid() && align < TOP && size + HDR < TOP
      modifies this, users
      ensures Linked() && heap == old(heap)
      ensures Abs() == Alloc(old(Abs()), align, size)
      ensures ptr == match old(Pick(blocks, users[..], align, size)) case None => 0 case Some((_, a)) => a + HDR
      ensures old(Sound(Abs())) ==> mem == old(Links(mem, Abs(), HeapRuns.KMemAlign(align, size)))
      ensures old(Passes(Abs(), HeapRuns.KMemAlign(align, size))) ==> Sound(Abs()) && Valid()
    {
      ghost var st, op := Abs(), HeapRuns.KMemAlign(align, size);
      ptr := Grant(align, size);
      if Passes(st, op) {
        StepPasses(st, op);
        SoundValid();
      }
    }

    method Grant(align: nat, size: nat) returns (ptr: nat)
      requires Valid() && align < TOP && size + HDR < TOP
      modifies this, users
      ensures Linked() && heap == old(heap)
      ensures Abs() == Alloc(old(Abs()), align, size)
      ensures ptr == match old(Pick(blocks, users[..], align, size)) case None => 0 case Some((_, a)) => a + HDR
      ensures old(Sound(Abs())) ==> mem == old(Links(mem, Abs(), HeapRuns.KMemAlign(align, size)))
    {
      hide Search, FirstHeader, FindGap, IsList, WellFormed, AddRange, IsPow2, PowerTest, Power, Sound, LinkIn,
           Insert, Links;
      ghost var st, m := Abs(), mem;
      if Sound(st) && Pick(blocks, users[..], align, size).None? { LinksNone(m, st, align, size); }
      if size == 0 || (align != 0 && !PowerTest(align)) { PowerTestExact(align); return 0; }
      PowerTestExact(align);
      var block, found;
      ghost var i;
      block, found, i := FindRoom(align, size);
      if found == 0 { return 0; }
      PickInGap(blocks, users[..], align, size, i, found);
      LinkBlock(block, found, size, i);
      if Sound(st) { LinksGrant(m, st, align, size, i, found); }
      return found + HDR;
    }

    /** The second half of kmemalign: the new header is linked in and its pages are obtained. */
    method LinkBlock(block: nat, a: nat, size: nat, ghost i: nat)
      requires Linked() && WellFormed(blocks) && users.Length == FRAMES && size + HDR < TOP
      requires i < |blocks| - 1 && block == blocks[i].addr && End(blocks[i]) <= a &&
               a + HDR + size <= blocks[i + 1].addr
      modifies this, users
      ensures Linked() && heap == old(heap) && Abs() == Place(old(Abs()), i, a, size)
      ensures CanLink(old(mem), block, a) && mem == LinkIn(old(mem), block, a, size)
    {
      hide IsList, WellFormed, AddRange;
      ListStep(mem, blocks, i);
      LinkInList(mem, blocks, i, Block(a, size));
      ListStep(mem, blocks, i + 1);
      BlockBounds(blocks, i);
      assert CanLink(mem, block, a);
      mem := LinkIn(mem, block, a, size);
      hide IsNode, LinkIn;
      blocks := Insert(blocks, i, Block(a, size));
      ObtainPages(a, a + Need(size));
    }

    method KFree(ptr: nat, ghost k: nat)
      requires Valid()
      requires ptr != 0 ==> Live(blocks, k) && ptr == blocks[k].addr + HDR
      modifies this, users
      ensures Linked() && heap == old(heap)
      ensures Abs() == if ptr == 0 then old(Abs()) else Free(old(Abs()), k)
      ensures ptr != 0 && old(Sound(Abs())) ==> mem == old(Links(mem, Abs(), HeapRuns.KFree(k)))
      ensures old(Sound(Abs())) ==> Sound(Abs()) && Valid()
    {
      ghost var st := Abs();
      if ptr == 0 { return; }
      Release(ptr, k);
      if Sound(st) {
        FreeSound(st, k);
        SoundValid();
      }
    }

    method Release(ptr: nat, ghost k: nat)
      requires Valid() && Live(blocks, k) && ptr == blocks[k].addr + HDR
      modifies this, users
      ensures Linked() && heap == old(heap)
      ensures Abs() == Free(old(Abs()), k)
      ensures old(Sound(Abs())) ==> mem == old(Links(mem, Abs(), HeapRuns.KFree(k)))
    {
      hide IsList, Ordered, SubRange, Sound;
      var block := ptr - HDR;
      UnlinkList(mem, blocks, k);
      BlockPages(blocks, k);
      FreePages(block, block + HDR + mem[block].size);
      mem := Unlink(mem, block);
      hide IsNode, Unlink;
      blocks := Remove(blocks, k);
    }

    method AllocPage(highmem: bool) returns (page: int)
      requires users.Length == FRAMES && |holds| == FRAMES
      modifies users, this`holds
      ensures Abs() == if highmem then old(Abs()) else HeapRuns.AllocPage(old(Abs()))
      ensures var f := NextFree(old(users[..]), 0, FRAMES);
              page == if highmem || f == FRAMES then 0xFFFF_FFFF else f * PAGE
    {
      if highmem { return 0xFFFF_FFFF; }
      var i := 0;
      while i < FRAMES
        invariant 0 <= i <= FRAMES && NextFree(users[..], i, FRAMES) == NextFree(users[..], 0, FRAMES)
        invariant users[..] == old(users[..]) && holds == old(holds)
      {
        if users[i] != 0 {
          i := i + 1;
          continue;
        }
        users[i] := Inc(users[i]);
        holds := holds[i := Inc(holds[i])];
        return i * PAGE;
      }
      return 0xFFFF_FFFF;
    }

    /** obtain_page of a frame that is held already. */
    method ObtainPage(f: nat)
      requires users.Length == FRAMES && |holds| == FRAMES && f < FRAMES
      modifies users, this`holds
      ensures Abs() == HeapRuns.ObtainPage(old(Abs()), f)
    {
      users[f] := Inc(users[f]);
      holds := holds[f := Inc(holds[f])];
    }

    /** free_page of a held frame. */
    method FreePage(f: nat)
      requires users.Length == FRAMES && |holds| == FRAMES && f < FRAMES
      modifies users, this`holds
      ensures Abs() == HeapRuns.FreePage(old(Abs()), f)
    {
      users[f] := Dec(users[f]);
      holds := holds[f := Dec(holds[f])];
    }

    /** Before there is a heap every use of a page is a hold. The two sentinels then share no page with another use, and
        the heap can serve any run, if and only if the pages of the end sentinel are counted once, which this function
        does not see to, and the first sentinel has another page. */
    method InitHeap(total: nat) returns (ok: bool)
      requires users.Length == FRAMES && holds == users[..] && total + KBASE <= LAST_PAGE
      requires var f := NextFree(users[..], 0, FRAMES); f == FRAMES || f * PAGE + 2 * HDR <= total
      modifies this, users
      ensures var f := NextFree(old(users[..]), 0, FRAMES); var end := EndAddr(total);
              && ok == (f < FRAMES)
              && (ok ==> Linked() && WellFormed(blocks) && blocks == [Block(Base(f), 0), Block(end, 0)] &&
                         users[..] == InitCounts(old(users[..]), f, end) && holds == Rest(blocks, users[..]))
      ensures ok ==> End(blocks[1]) == KBASE + total
      ensures ok ==> Abs() == InitState(old(users[..]), total)
      ensures ok ==> (Inv(Abs()) <==> old(EndCounted(users[..], EndAddr(total))))
      ensures ok ==> (Unheld(Abs()) <==>
                      forall g :: NextFree(old(users[..]), 0, FRAMES) < g < Frame(EndAddr(total)) ==>
                          old(users[..])[g] == 0)
      ensures ok && Inv(Abs()) ==> Valid()
    {
      hide Touching, EndCounted, Rest, NextFree, WellFormed, Counted, Exclusive, Sized;
      ghost var c := users[..];
      var page := AllocPage(false);
      if page == 0xFFFF_FFFF { return false; }
      heap := page + KBASE;
      InitWellFormed(NextFree(c, 0, FRAMES), EndAddr(total));
      var end := EndAddr(total);
      users[end / PAGE] := Inc(users[end / PAGE]);
      mem := mem[heap := Header(0, end, end)];
      mem := mem[end := Header(0, heap, heap)];
      blocks := [Block(heap, 0), Block(end, 0)];
      holds := Rest(blocks, users[..]);
      InitInv(c, NextFree(c, 0, FRAMES), end);
      InitUnheld(c, NextFree(c, 0, FRAMES), end);
      if Inv(Abs()) { SoundValid(); }
      return true;
    }

    /** The header of the `k`-th block, by walking the list. */
    method BlockAt(k: nat) returns (block: nat)
      requires Linked() && WellFormed(blocks) && k < |blocks|
      ensures block == blocks[k].addr
    {
      block := heap;
      for i := 0 to k
        invariant block == blocks[i].addr
      {
        ListStep(mem, blocks, i);
        block := mem[block].next;
      }
    }

    /** Any sequence of calls from a sound state whose requests pass their tests: each finds what it needs, and the
        links, the counters and the holds at the end are those of the run. */
    method Replay(ops: seq<Op>, ghost sts: seq<State>)
      requires users.Length == FRAMES && Linked() && Sound(Abs()) && IsRun(sts, ops) && sts[0] == Abs()
      requires forall i :: 0 <= i < |ops| && Sound(sts[i]) ==> Passes(sts[i], ops[i])
      modifies this, users
      ensures Valid() && Sound(Abs()) && Abs() == sts[|ops|]
    {
      hide Sound, WellFormed, IsList, Alloc, Free;
      for i := 0 to |ops|
        invariant Linked() && Sound(Abs()) && Abs() == sts[i]
      {
        assert Next(sts[i], ops[i], sts[i + 1]) && Passes(sts[i], ops[i]);
        Perform(ops[i]);
      }
      SoundValid();
    }

    /** init_heap and then any kmemalign and kfree calls, each request of at least five bytes, over pages that were
        free and an end page counted once: the headers are one circular list of disjoint blocks in address order
        between the sentinels, the state is that of the run, and no counter between the sentinels is above 242. */
    method ServeHeap(total: nat, ops: seq<Op>, ghost sts: seq<State>) returns (ok: bool)
      requires users.Length == FRAMES && holds == users[..] && total + KBASE <= LAST_PAGE
      requires var f := NextFree(users[..], 0, FRAMES); f == FRAMES || f * PAGE + 2 * HDR <= total
      requires |sts| == |ops| + 1 && IsRun(sts, ops)
      requires var f := NextFree(users[..], 0, FRAMES);
               f < FRAMES ==>
                 && EndCounted(users[..], EndAddr(total))
                 && (forall g :: f < g < Frame(EndAddr(total)) ==> users[g] == 0)
                 && sts[0] == InitState(users[..], total)
      requires forall i :: 0 <= i < |ops| ==> HeapOp(ops[i]) && (ops[i].KMemAlign? ==> ops[i].size >= 5)
      modifies this, users
      ensures ok ==> Valid() && Inv(Abs()) && Abs() == sts[|ops|]
      ensures ok ==>
            blocks[0].addr == Base(NextFree(old(users[..]), 0, FRAMES)) && blocks[|blocks| - 1].addr == EndAddr(total)
      ensures ok ==> forall f :: 0 <= f < FRAMES && Frame(blocks[0].addr) <= f <= Frame(blocks[|blocks| - 1].addr) ==>
                       users[f] == Touching(blocks, f) <= 242
    {
      hide Inv, Unheld, Passes, EndCounted, IsRun, NextFree, WellFormed, IsList, InitCounts, Rest, Touching;
      ok := InitHeap(total);
      if !ok { return; }
      HeapRunInv(sts, ops, |ops|);
      HeapRunPasses(sts, ops);
      Replay(ops, sts);
    }

    method Perform(op: Op)
      requires users.Length == FRAMES && Linked() && Passes(Abs(), op)
      modifies this, users
      ensures Linked() && Sound(Abs()) && Abs() == Step(old(Abs()), op)
    {
      hide Lands, CounterLeft, WellFormed, Counted, Exclusive, IsList, Alloc, Free;
      StepPasses(Abs(), op);
      SoundValid();
      match op {
        case KMemAlign(align, size) => var _ := KMemAlign(align, size);
        case KFree(k) =>
          var block := BlockAt(k);
          KFree(block + HDR, k);
        case PageAlloc => var _ := AllocPage(false);
        case PageObtain(f) => ObtainPage(f);
        case PageFree(f) => FreePage(f);
      }
    }
  }
}
