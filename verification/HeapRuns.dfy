/**
  Runs of the heap and the page allocator: kmemalign, kfree, alloc_page, obtain_page and
  free_page in any order, over one shared set of page counters.
 */
module HeapRuns {
  import opened Wrappers
  import opened Frames
  import opened HeapSpec

  /** The block list, the page counters, and, for each frame, how many of its users are holds taken
      through alloc_page or obtain_page rather than heap blocks. */
  datatype State = State(blocks: seq<Block>, users: Counts, holds: Counts)

  // ----- kmemalign and kfree

  function Insert(bs: seq<Block>, i: nat, b: Block): seq<Block>
    requires i < |bs|
  {
    bs[..i + 1] + [b] + bs[i + 1..]
  }

  function Remove(bs: seq<Block>, k: nat): seq<Block>
    requires k < |bs|
  {
    bs[..k] + bs[k + 1..]
  }

  /** Bytes asked of the search: header plus data, in 32 bits. */
  function Need(size: nat): nat
    requires size < TOP
  {
    Wrap(HDR + size)
  }

  /** The first block from index `i` on whose following gap has room; the end sentinel if none. */
  function FindGap(bs: seq<Block>, c: Counts, i: nat, align: nat, need: nat): (k: nat)
    requires WellFormed(bs) && |c| == FRAMES && align < TOP && i < |bs|
    ensures i <= k < |bs|
    ensures k < |bs| - 1 ==> Search(c, End(bs[k]), bs[k + 1].addr, align, need).Some?
    decreases |bs| - i
  {
    if i == |bs| - 1 || Search(c, End(bs[i]), bs[i + 1].addr, align, need).Some? then i
    else FindGap(bs, c, i + 1, align, need)
  }

  predicate Accepts(align: nat, size: nat) {
    size != 0 && (align == 0 || IsPow2(align))
  }

  /** The gap and the header address kmemalign picks; None when it returns NULL. */
  function Pick(bs: seq<Block>, c: Counts, align: nat, size: nat): (r: Option<(nat, nat)>)
    requires WellFormed(bs) && |c| == FRAMES && align < TOP && size < TOP
    ensures r.Some? ==>
              && r.value.0 < |bs| - 1
              && Search(c, End(bs[r.value.0]), bs[r.value.0 + 1].addr, align, Need(size)) == Some(r.value.1)
  {
    var k := FindGap(bs, c, 0, align, Need(size));
    if !Accepts(align, size) || k == |bs| - 1 then None
    else Some((k, Search(c, End(bs[k]), bs[k + 1].addr, align, Need(size)).value))
  }

  function Alloc(st: State, align: nat, size: nat): (r: State)
    requires WellFormed(st.blocks) && |st.users| == FRAMES && align < TOP && size < TOP
    ensures |r.users| == FRAMES && r.holds == st.holds
  {
    match Pick(st.blocks, st.users, align, size)
    case None => st
    case Some((i, a)) => Place(st, i, a, size)
  }

  /** Link a block in after index `i` and obtain the pages it reaches. */
  function Place(st: State, i: nat, a: nat, size: nat): State
    requires i < |st.blocks| && size < TOP
  {
    st.(blocks := Insert(st.blocks, i, Block(a, size)),
        users := AddRange(st.users, Frame(a), FrameUp(a + Need(size))))
  }

  /** Index of a live block other than the sentinels. */
  predicate Live(bs: seq<Block>, k: nat) {
    0 < k < |bs| - 1
  }

  function Free(st: State, k: nat): State
    requires Live(st.blocks, k)
  {
    var b := st.blocks[k];
    st.(blocks := Remove(st.blocks, k),
        users := SubRange(st.users, Frame(b.addr), FrameUp(End(b))))
  }

  // ----- the page allocator

  function AllocPage(st: State): (r: State)
    requires |st.users| == |st.holds| == FRAMES
    ensures |r.users| == |r.holds| == FRAMES && r.blocks == st.blocks
  {
    var f := NextFree(st.users, 0, FRAMES);
    if f == FRAMES then st
    else st.(users := st.users[f := Inc(st.users[f])], holds := st.holds[f := Inc(st.holds[f])])
  }

  function ObtainPage(st: State, f: nat): State
    requires |st.users| == |st.holds| == FRAMES && f < FRAMES
  {
    st.(users := st.users[f := Inc(st.users[f])], holds := st.holds[f := Inc(st.holds[f])])
  }

  function FreePage(st: State, f: nat): State
    requires |st.users| == |st.holds| == FRAMES && f < FRAMES
  {
    st.(users := st.users[f := Dec(st.users[f])], holds := st.holds[f := Dec(st.holds[f])])
  }

  // ----- the invariant

  /** Each counter is the number of heap blocks overlapping the frame plus its other holds. */
  predicate Counted(st: State) {
    && |st.users| == |st.holds| == FRAMES
    && forall f :: 0 <= f < FRAMES ==> st.users[f] == Touching(st.blocks, f) + st.holds[f]
  }

  /** No frame carries both a heap block and another hold. */
  predicate Exclusive(st: State) {
    && |st.holds| == FRAMES
    && forall f :: 0 <= f < FRAMES && Touching(st.blocks, f) > 0 ==> st.holds[f] == 0
  }

  /** Every block that was asked for has at least five bytes of data. */
  predicate Sized(bs: seq<Block>) {
    forall k :: 0 < k < |bs| - 1 ==> bs[k].size >= 5
  }

  /** What holds whatever the sizes asked for. */
  predicate Sound(st: State) {
    |st.users| == |st.holds| == FRAMES && WellFormed(st.blocks) && Counted(st) && Exclusive(st)
  }

  predicate Inv(st: State) {
    && |st.users| == |st.holds| == FRAMES
    && WellFormed(st.blocks) && Counted(st) && Exclusive(st) && Sized(st.blocks)
  }

  // ----- counting

  lemma {:induction false} TouchingConcat(xs: seq<Block>, ys: seq<Block>, f: int)
    ensures Touching(xs + ys, f) == Touching(xs, f) + Touching(ys, f)
  {
    if ys == [] {
      assert xs + ys == xs;
    } else {
      assert (xs + ys)[..|xs + ys| - 1] == xs + ys[..|ys| - 1];
      TouchingConcat(xs, ys[..|ys| - 1], f);
    }
  }

  lemma TouchingTwo(a: Block, b: Block, f: int)
    ensures Touching([a, b], f) == (if Touches(a, f) then 1 else 0) + (if Touches(b, f) then 1 else 0)
  {
    TouchingConcat([a], [b], f);
    assert [a] + [b] == [a, b] && [a][..0] == [] && [b][..0] == [];
  }

  lemma TouchingInsert(bs: seq<Block>, i: nat, b: Block, f: int)
    requires i < |bs|
    ensures Touching(Insert(bs, i, b), f) == Touching(bs, f) + (if Touches(b, f) then 1 else 0)
  {
    TouchingConcat(bs[..i + 1], bs[i + 1..], f);
    assert bs[..i + 1] + bs[i + 1..] == bs;
    TouchingConcat(bs[..i + 1] + [b], bs[i + 1..], f);
    TouchingConcat(bs[..i + 1], [b], f);
  }

  lemma TouchingRemove(bs: seq<Block>, k: nat, f: int)
    requires k < |bs|
    ensures Touching(bs, f) == Touching(Remove(bs, k), f) + (if Touches(bs[k], f) then 1 else 0)
  {
    TouchingConcat(bs[..k], bs[k + 1..], f);
    assert bs[..k] + [bs[k]] + bs[k + 1..] == bs;
    TouchingConcat(bs[..k] + [bs[k]], bs[k + 1..], f);
    TouchingConcat(bs[..k], [bs[k]], f);
  }

  lemma {:induction false} TouchingMember(bs: seq<Block>, k: nat, f: int)
    requires k < |bs| && Touches(bs[k], f)
    ensures Touching(bs, f) > 0
  {
    TouchingRemove(bs, k, f);
  }

  /** The frames between the page of the header and the page after the data are those touched. */
  lemma TouchedFrames(b: Block, f: int)
    ensures Frame(b.addr) <= f < FrameUp(End(b)) <==> Touches(b, f)
  {
    FrameBounds(b.addr);
    FrameUpBounds(End(b));
  }

  // ----- the counter bound

  /** Blocks of at least 17 bytes laid end to end push the last end 17 bytes further each. */
  lemma {:induction false} TouchingSpread(bs: seq<Block>, n: nat, f: int)
    requires Ordered(bs) && Sized(bs) && n < |bs|
    ensures var t := Touching(bs[..n], f);
            t <= 242 && (t >= 1 ==> 17 * (t - 1) + 1 <= End(bs[n - 1]) - Base(f))
  {
    if n > 0 {
      TouchingSpread(bs, n - 1, f);
      assert bs[..n][..n - 1] == bs[..n - 1];
      assert n - 1 > 0 ==> Live(bs, n - 1) && End(bs[n - 2]) <= bs[n - 1].addr;
    }
  }

  /** A frame meets at most 242 heap blocks when every request is at least five bytes. */
  lemma TouchingBound(bs: seq<Block>, f: int)
    requires WellFormed(bs) && Sized(bs)
    ensures Touching(bs, f) <= 242
  {
    var n := |bs| - 1;
    TouchingSpread(bs, n, f);
    assert bs[..|bs|][..n] == bs[..n] && bs[..|bs|] == bs;
    assert End(bs[n - 1]) <= bs[n].addr;
  }

  // ----- what each operation keeps

  /** The picked range lies between the end of the chosen block and the next one. */
  lemma PickInGap(bs: seq<Block>, c: Counts, align: nat, size: nat, i: nat, a: nat)
    requires WellFormed(bs) && |c| == FRAMES && align < TOP && size < TOP
    requires Pick(bs, c, align, size) == Some((i, a))
    ensures i + 1 < |bs| && End(bs[i]) <= a && a + Need(size) <= bs[i + 1].addr < LAST_PAGE
    ensures 0 <= Frame(a) < FRAMES && FrameUp(a + Need(size)) <= FRAMES
    ensures forall f :: Frame(a) < f < FrameUp(a + Need(size)) ==> c[f] == 0
    ensures a == FirstHeader(End(bs[i]), align) || SamePage(a, bs[i + 1].addr) || c[Frame(a)] == 0
  {
    SearchInGap(c, End(bs[i]), bs[i + 1].addr, align, Need(size));
  }

  /** A place for a block in the gap after block `i`. */
  ghost predicate Fits(bs: seq<Block>, c: Counts, align: nat, need: nat, i: int, a: nat)
    requires WellFormed(bs) && |c| == FRAMES && align < TOP
  {
    && 0 <= i < |bs| - 1
    && var s, next := FirstHeader(End(bs[i]), align), bs[i + 1].addr;
       s <= a <= next && Candidate(c, s, next, a) && Room(c, a, next, need)
  }

  lemma SearchExact(bs: seq<Block>, c: Counts, align: nat, need: nat, i: nat)
    requires WellFormed(bs) && |c| == FRAMES && align < TOP && i < |bs| - 1
    ensures match Search(c, End(bs[i]), bs[i + 1].addr, align, need)
            case None => forall x :: !Fits(bs, c, align, need, i, x)
            case Some(a) => Fits(bs, c, align, need, i, a) && forall x :: Fits(bs, c, align, need, i, x) ==> a <= x
  {
    hide Fit, Candidate, Room, FirstHeader;
    var s, next := FirstHeader(End(bs[i]), align), bs[i + 1].addr;
    if s <= next { FitIsLeast(c, s, next, need); }
  }

  lemma {:induction false} FindGapFirst(bs: seq<Block>, c: Counts, i: nat, align: nat, need: nat)
    requires WellFormed(bs) && |c| == FRAMES && align < TOP && i < |bs|
    ensures forall j, x :: i <= j < FindGap(bs, c, i, align, need) ==> !Fits(bs, c, align, need, j, x)
    decreases |bs| - i
  {
    hide Search, Fits, WellFormed;
    if i < |bs| - 1 {
      SearchExact(bs, c, align, need, i);
      if i < FindGap(bs, c, i, align, need) { FindGapFirst(bs, c, i + 1, align, need); }
    }
  }

  /** kmemalign grants a request if and only if it is not empty, its alignment is zero or a power of two, and some gap
      has a place for it; it takes the first such gap, and in it the lowest place. */
  lemma PickExact(bs: seq<Block>, c: Counts, align: nat, size: nat)
    requires WellFormed(bs) && |c| == FRAMES && align < TOP && size < TOP
    ensures match Pick(bs, c, align, size)
            case None => size == 0 || (align != 0 && forall k: nat :: Power(k) != align)
                         || forall i, x :: !Fits(bs, c, align, Need(size), i, x)
            case Some((i, a)) => size != 0 && (align == 0 || exists k: nat :: Power(k) == align)
                                 && Fits(bs, c, align, Need(size), i, a)
                                 && forall j, x :: Fits(bs, c, align, Need(size), j, x) ==> i < j || (i == j && a <= x)
  {
    hide Search, FindGap, Ordered, IsPow2, Power;
    PowerTestExact(align);
    var k := FindGap(bs, c, 0, align, Need(size));
    FindGapFirst(bs, c, 0, align, Need(size));
    if k < |bs| - 1 { SearchExact(bs, c, align, Need(size), k); }
    FitsInside(bs, c, align, Need(size));
    hide Fits;
  }

  lemma FitsInside(bs: seq<Block>, c: Counts, align: nat, need: nat)
    requires WellFormed(bs) && |c| == FRAMES && align < TOP
    ensures forall i, x :: Fits(bs, c, align, need, i, x) ==> 0 <= i < |bs| - 1
  {
  }

  /** A successful kmemalign keeps the list ordered, disjoint and between its sentinels exactly when
      header plus size does not wrap 32 bits. */
  lemma AllocWellFormed(st: State, align: nat, size: nat)
    requires WellFormed(st.blocks) && |st.users| == FRAMES && align < TOP && size < TOP
    requires Pick(st.blocks, st.users, align, size).Some?
    ensures WellFormed(Alloc(st, align, size).blocks) <==> size + HDR < TOP
  {
    hide FindGap, Search, FirstHeader, WellFormed;
    var (i, a) := Pick(st.blocks, st.users, align, size).value;
    PickInGap(st.blocks, st.users, align, size, i, a);
    InsertWellFormed(st.blocks, i, Block(a, size));
  }

  lemma InsertWellFormed(bs: seq<Block>, i: nat, b: Block)
    requires WellFormed(bs) && i < |bs| - 1 && End(bs[i]) <= b.addr
    ensures WellFormed(Insert(bs, i, b)) <==> End(b) <= bs[i + 1].addr
  {
    var bs' := Insert(bs, i, b);
    assert bs'[i + 1] == b && bs'[i + 2] == bs[i + 1];
    if End(b) <= bs[i + 1].addr {
      forall j, k | 0 <= j < k < |bs'|
        ensures End(bs'[j]) <= bs'[k].addr
      {
        assert bs'[j] == if j <= i then bs[j] else if j == i + 1 then b else bs[j - 1];
        assert bs'[k] == if k <= i then bs[k] else if k == i + 1 then b else bs[k - 1];
      }
    }
  }

  /** The first header tried is never tested against the counters: it must not be in a held page. */
  predicate Lands(st: State, align: nat, size: nat)
    requires WellFormed(st.blocks) && |st.users| == |st.holds| == FRAMES && align < TOP && size < TOP
  {
    match Pick(st.blocks, st.users, align, size)
    case None => true
    case Some((i, a)) => a == FirstHeader(End(st.blocks[i]), align) ==>
        0 <= Frame(a) < FRAMES && st.holds[Frame(a)] == 0
  }

  /** kmemalign keeps heap blocks out of pages held by others exactly when the page of the first
      header it tries is not one of those, or the search moved past it. */
  lemma AllocExclusive(st: State, align: nat, size: nat)
    requires Sound(st) && align < TOP && size + HDR < TOP
    ensures Exclusive(Alloc(st, align, size)) <==> Lands(st, align, size)
  {
    if Pick(st.blocks, st.users, align, size).Some? {
      var (i, a) := Pick(st.blocks, st.users, align, size).value;
      PickInGap(st.blocks, st.users, align, size, i, a);
      PlaceExclusive(st, i, a, size);
      SharedPageUnheld(st, i + 1, a);
      assert Alloc(st, align, size) == Place(st, i, a, size);
    }
  }

  lemma SharedPageUnheld(st: State, k: nat, a: nat)
    requires Sound(st) && k < |st.blocks| && 0 <= Frame(a) < FRAMES
    ensures SamePage(a, st.blocks[k].addr) || st.users[Frame(a)] == 0 ==> st.holds[Frame(a)] == 0
  {
    if SamePage(a, st.blocks[k].addr) {
      FrameBounds(a);
      FrameBounds(st.blocks[k].addr);
      TouchingMember(st.blocks, k, Frame(a));
    }
  }

  lemma PlaceExclusive(st: State, i: nat, a: nat, size: nat)
    requires Sound(st) && i < |st.blocks| && size + HDR < TOP
    requires 0 <= Frame(a) < FRAMES && FrameUp(a + Need(size)) <= FRAMES
    requires forall f :: Frame(a) < f < FrameUp(a + Need(size)) ==> st.users[f] == 0
    ensures Exclusive(Place(st, i, a, size)) <==> st.holds[Frame(a)] == 0
  {
    var b := Block(a, size);
    var bs' := Insert(st.blocks, i, b);
    FrameBounds(a);
    TouchingInsert(st.blocks, i, b, Frame(a));
    if st.holds[Frame(a)] == 0 {
      forall f | 0 <= f < FRAMES && Touching(bs', f) > 0
        ensures st.holds[f] == 0
      {
        TouchingInsert(st.blocks, i, b, f);
        TouchedFrames(b, f);
      }
    }
  }

  lemma PlaceCount(st: State, i: nat, a: nat, size: nat, f: nat)
    requires Counted(st) && i < |st.blocks| && size + HDR < TOP && f < FRAMES && 0 <= Frame(a) < FRAMES
    requires Frame(a) < f < FrameUp(a + Need(size)) ==> st.users[f] == 0
    ensures var st' := Place(st, i, a, size);
            && |st'.users| == FRAMES && st'.holds == st.holds
            && (st'.users[f] == Touching(st'.blocks, f) + st.holds[f] <==>
                f != Frame(a) || FrameUp(a + Need(size)) <= f || st.users[f] < 255)
  {
    hide Insert, Touching;
    TouchingInsert(st.blocks, i, Block(a, size), f);
    TouchedFrames(Block(a, size), f);
  }

  /** Obtaining the pages of a new block keeps the counters exact unless that of its first page wraps. */
  lemma PlaceCounted(st: State, i: nat, a: nat, size: nat)
    requires Sound(st) && i < |st.blocks| && size + HDR < TOP && Exclusive(Place(st, i, a, size))
    requires 0 <= Frame(a) < FRAMES && FrameUp(a + Need(size)) <= FRAMES
    requires forall f :: Frame(a) < f < FrameUp(a + Need(size)) ==> st.users[f] == 0
    ensures Counted(Place(st, i, a, size)) <==> st.users[Frame(a)] < 255
  {
    hide Place, Touching, WellFormed, Exclusive;
    var st' := Place(st, i, a, size);
    forall f | 0 <= f < FRAMES
      ensures |st'.users| == FRAMES && st'.holds == st.holds
      ensures st'.users[f] == Touching(st'.blocks, f) + st.holds[f] <==> f != Frame(a) || st.users[f] < 255
    {
      PlaceCount(st, i, a, size, f);
      FrameBounds(a);
      FrameUpBounds(a + Need(size));
    }
    assert st.users[Frame(a)] == 255 ==> st'.users[Frame(a)] != Touching(st'.blocks, Frame(a)) + st'.holds[Frame(a)];
  }

  /** The counter of the page under the picked header is not at its last value. */
  predicate CounterLeft(st: State, align: nat, size: nat)
    requires WellFormed(st.blocks) && |st.users| == FRAMES && align < TOP && size < TOP
  {
    match Pick(st.blocks, st.users, align, size)
    case None => true
    case Some((_, a)) => 0 <= Frame(a) < FRAMES && st.users[Frame(a)] < 255
  }

  /** For requests of any size, list, counters and exclusion are kept exactly when no counter is at its last value. */
  lemma AllocSound(st: State, align: nat, size: nat)
    requires Sound(st) && align < TOP && size + HDR < TOP && Lands(st, align, size)
    ensures Sound(Alloc(st, align, size)) <==> CounterLeft(st, align, size)
  {
    AllocExclusive(st, align, size);
    hide FindGap, Search, FirstHeader, Counted, Exclusive, Ordered;
    if Pick(st.blocks, st.users, align, size).Some? {
      var (i, a) := Pick(st.blocks, st.users, align, size).value;
      AllocWellFormed(st, align, size);
      PickInGap(st.blocks, st.users, align, size, i, a);
      PlaceCounted(st, i, a, size);
    }
  }

  /** Requests of at least five bytes never bring a counter that far. */
  lemma AllocInv(st: State, align: nat, size: nat)
    requires Inv(st) && align < TOP && 5 <= size && size + HDR < TOP && Lands(st, align, size)
    ensures CounterLeft(st, align, size) && Inv(Alloc(st, align, size))
  {
    AllocExclusive(st, align, size);
    AllocSound(st, align, size);
    hide FindGap, Search, FirstHeader, Ordered;
    if Pick(st.blocks, st.users, align, size).Some? {
      var (i, a) := Pick(st.blocks, st.users, align, size).value;
      PickInGap(st.blocks, st.users, align, size, i, a);
      FirstPageCount(st, i, a, size);
      InsertSized(st.blocks, i, Block(a, size));
    }
  }

  lemma FirstPageCount(st: State, i: nat, a: nat, size: nat)
    requires Inv(st) && i < |st.blocks| && 0 <= Frame(a) < FRAMES && size < TOP && Exclusive(Place(st, i, a, size))
    ensures st.users[Frame(a)] <= 242
  {
    TouchingBound(st.blocks, Frame(a));
    FrameBounds(a);
    TouchingInsert(st.blocks, i, Block(a, size), Frame(a));
  }

  lemma InsertSized(bs: seq<Block>, i: nat, b: Block)
    requires Sized(bs) && i < |bs| - 1 && b.size >= 5
    ensures Sized(Insert(bs, i, b))
  {
    var bs' := Insert(bs, i, b);
    assert forall k :: 0 <= k < |bs'| ==> bs'[k] == if k <= i then bs[k] else if k == i + 1 then b else bs[k - 1];
  }

  lemma FreeFrame(st: State, k: nat, f: int)
    requires |st.users| == |st.holds| == FRAMES && Live(st.blocks, k) && 0 <= f < FRAMES
    requires st.users[f] == Touching(st.blocks, f) + st.holds[f]
    ensures Touching(st.blocks, f) >= Touching(Remove(st.blocks, k), f)
    ensures SubRange(st.users, Frame(st.blocks[k].addr), FrameUp(End(st.blocks[k])))[f]
            == Touching(Remove(st.blocks, k), f) + st.holds[f]
  {
    TouchingRemove(st.blocks, k, f);
    TouchedFrames(st.blocks[k], f);
    hide Touching, Touches, Remove;
  }

  lemma FreeSound(st: State, k: nat)
    requires Sound(st) && Live(st.blocks, k)
    ensures Sound(Free(st, k))
  {
    RemoveWellFormed(st.blocks, k);
    hide WellFormed, Ordered, Touching, Remove, SubRange;
    forall f | 0 <= f < FRAMES
      ensures Free(st, k).users[f] == Touching(Free(st, k).blocks, f) + st.holds[f]
      ensures Touching(Free(st, k).blocks, f) > 0 ==> st.holds[f] == 0
    {
      FreeFrame(st, k, f);
    }
  }

  lemma FreeInv(st: State, k: nat)
    requires Inv(st) && Live(st.blocks, k)
    ensures Inv(Free(st, k))
  {
    FreeSound(st, k);
    RemoveWellFormed(st.blocks, k);
    hide WellFormed, Counted, Exclusive;
  }

  lemma RemoveWellFormed(bs: seq<Block>, k: nat)
    requires WellFormed(bs) && Live(bs, k)
    ensures WellFormed(Remove(bs, k))
    ensures Sized(bs) ==> Sized(Remove(bs, k))
  {
    var bs' := Remove(bs, k);
    assert forall j :: 0 <= j < |bs'| ==> bs'[j] == if j < k then bs[j] else bs[j + 1];
  }

  /** kfree of the block just returned restores the list and every counter. */
  lemma FreeUndoesAlloc(st: State, align: nat, size: nat, i: nat, a: nat)
    requires WellFormed(st.blocks) && |st.users| == FRAMES && align < TOP && size + HDR < TOP
    requires Pick(st.blocks, st.users, align, size) == Some((i, a))
    ensures Live(Alloc(st, align, size).blocks, i + 1) && Free(Alloc(st, align, size), i + 1) == st
  {
    hide FindGap, Search, Touching, WellFormed;
    PlaceUndone(st, i, a, size);
    hide Place, Free;
  }

  lemma PlaceUndone(st: State, i: nat, a: nat, size: nat)
    requires i < |st.blocks| - 1 && size + HDR < TOP
    ensures Live(Place(st, i, a, size).blocks, i + 1) && Free(Place(st, i, a, size), i + 1) == st
  {
    assert Remove(Insert(st.blocks, i, Block(a, size)), i + 1) == st.blocks;
    SubAddRange(st.users, Frame(a), FrameUp(a + Need(size)));
  }

  /** alloc_page takes the lowest frame without users, and nothing when there is none. */
  lemma AllocPageExact(st: State, f: nat)
    requires |st.users| == |st.holds| == FRAMES && f <= FRAMES && forall g :: 0 <= g < f ==> st.users[g] > 0
    ensures f == FRAMES ==> AllocPage(st) == st
    ensures f < FRAMES && st.users[f] == 0 ==>
              AllocPage(st) == st.(users := st.users[f := 1], holds := st.holds[f := Inc(st.holds[f])])
  {
  }

  /** alloc_page hands out a frame that no heap block touches and nobody holds. */
  lemma AllocPageUnused(st: State)
    requires Sound(st)
    ensures var f := NextFree(st.users, 0, FRAMES);
            f < FRAMES ==> Touching(st.blocks, f) == 0 && st.holds[f] == 0 &&
                           (forall k :: 0 <= k < |st.blocks| ==> !Touches(st.blocks[k], f))
    ensures Sound(AllocPage(st))
  {
    var f := NextFree(st.users, 0, FRAMES);
    if f < FRAMES {
      forall k | 0 <= k < |st.blocks| && Touches(st.blocks[k], f)
        ensures false
      {
        TouchingMember(st.blocks, k, f);
      }
    }
  }

  // ----- runs

  datatype Op =
    | KMemAlign(align: nat, size: nat)
    | KFree(k: nat)
    | PageAlloc
    | PageObtain(f: nat)
    | PageFree(f: nat)

  /** What the code needs of a call to make sense at all. */
  predicate Callable(st: State, op: Op)
    requires |st.holds| == FRAMES
  {
    match op
    case KMemAlign(align, size) => align < TOP && size + HDR < TOP
    case KFree(k) => Live(st.blocks, k)
    case PageAlloc => true
    case PageObtain(f) => f < FRAMES && 0 < st.holds[f] < 255
    case PageFree(f) => f < FRAMES && 0 < st.holds[f]
  }

  /** What each call asks of its caller. */
  predicate Legal(st: State, op: Op)
    requires Inv(st)
  {
    Callable(st, op) && match op case KMemAlign(align, size) => 5 <= size && Lands(st, align, size) case _ => true
  }

  function Step(st: State, op: Op): State
    requires Sound(st) && Callable(st, op)
  {
    match op
    case KMemAlign(align, size) => Alloc(st, align, size)
    case KFree(k) => Free(st, k)
    case PageAlloc => AllocPage(st)
    case PageObtain(f) => ObtainPage(st, f)
    case PageFree(f) => FreePage(st, f)
  }

  /** With requests of every size a step keeps the list, the counters and the exclusion exactly when kmemalign does not
      take a page held by others and does not raise a counter at its last value. */
  lemma StepSound(st: State, op: Op)
    requires Sound(st) && Callable(st, op)
    ensures Sound(Step(st, op)) <==>
            (op.KMemAlign? ==> Lands(st, op.align, op.size) && CounterLeft(st, op.align, op.size))
  {
    match op
    case KMemAlign(align, size) =>
      AllocExclusive(st, align, size);
      if Lands(st, align, size) { AllocSound(st, align, size); }
    case KFree(k) => FreeSound(st, k);
    case PageAlloc => AllocPageUnused(st);
    case PageObtain(f) =>
    case PageFree(f) =>
  }

  lemma StepInv(st: State, op: Op)
    requires Inv(st) && Legal(st, op)
    ensures Inv(Step(st, op))
  {
    match op
    case KMemAlign(align, size) => AllocInv(st, align, size);
    case KFree(k) => FreeInv(st, k);
    case PageAlloc => AllocPageUnused(st);
    case PageObtain(f) =>
    case PageFree(f) =>
  }

  /** What StepSound asks of kmemalign: an unheld page whose counter can still rise. */
  predicate Passes(st: State, op: Op) {
    && Sound(st)
    && Callable(st, op)
    && (op.KMemAlign? ==> Lands(st, op.align, op.size) && CounterLeft(st, op.align, op.size))
  }

  predicate Next(st: State, op: Op, st': State) {
    Sound(st) ==> Callable(st, op) && st' == Step(st, op)
  }

  /** `sts` is a run: each state follows from the one before by an operation that makes sense there. */
  predicate IsRun(sts: seq<State>, ops: seq<Op>) {
    && |sts| == |ops| + 1
    && forall i :: 0 <= i < |ops| ==> Next(sts[i], ops[i], sts[i + 1])
  }

  lemma {:induction false} RunSoundTo(sts: seq<State>, ops: seq<Op>, n: nat)
    requires IsRun(sts, ops) && Sound(sts[0]) && n < |sts|
    requires forall i :: 0 <= i < n && Sound(sts[i]) ==> Passes(sts[i], ops[i])
    ensures Sound(sts[n])
  {
    if n > 0 {
      RunSoundTo(sts, ops, n - 1);
      assert Next(sts[n - 1], ops[n - 1], sts[n - 1 + 1]);
      StepSound(sts[n - 1], ops[n - 1]);
    }
  }

  /** For requests of every size: in all states of a run the blocks are ordered and disjoint between the sentinels, each
      counter is exactly the blocks on the frame plus its other holds, and the two never mix, if and only if each
      kmemalign in it picks an unheld page whose counter can still rise. */
  lemma RunSound(sts: seq<State>, ops: seq<Op>)
    requires IsRun(sts, ops) && Sound(sts[0])
    ensures (forall n :: 0 <= n < |sts| ==> Sound(sts[n])) <==>
            (forall i ::
               0 <= i < |ops| && Sound(sts[i]) ==> Passes(sts[i], ops[i]))
  {
    hide Sound, Callable, Step, Passes;
    if forall n :: 0 <= n < |sts| ==> Sound(sts[n]) {
      forall i | 0 <= i < |ops| && Sound(sts[i])
        ensures Passes(sts[i], ops[i])
      {
        assert Next(sts[i], ops[i], sts[i + 1]);
        StepPasses(sts[i], ops[i]);
      }
    } else {
      var n :| 0 <= n < |sts| && !Sound(sts[n]);
      if forall i ::
           0 <= i < |ops| && Sound(sts[i]) ==> Passes(sts[i], ops[i]) {
        RunSoundTo(sts, ops, n);
      }
    }
  }

  lemma StepPasses(st: State, op: Op)
    requires Sound(st) && Callable(st, op)
    ensures Sound(Step(st, op)) <==> Passes(st, op)
  {
    hide Step, Lands, CounterLeft, Callable;
    StepSound(st, op);
  }

  /** Runs whose requests are of at least five bytes and land on unheld pages pass every test: the invariant holds in
      all their states. */
  lemma {:induction false} RunInv(sts: seq<State>, ops: seq<Op>, n: nat)
    requires IsRun(sts, ops) && Inv(sts[0]) && n < |sts|
    requires forall i :: 0 <= i < |ops| && Inv(sts[i]) ==> Legal(sts[i], ops[i])
    ensures Inv(sts[n])
  {
    if n > 0 {
      RunInv(sts, ops, n - 1);
      assert Next(sts[n - 1], ops[n - 1], sts[n - 1 + 1]);
      StepInv(sts[n - 1], ops[n - 1]);
    }
  }

  // ----- runs of the heap alone

  /** Nothing but the heap holds pages between the sentinels. */
  predicate Unheld(st: State) {
    && |st.blocks| >= 2 && |st.holds| == FRAMES
    && forall f :: 0 <= f < FRAMES && Frame(st.blocks[0].addr) <= f <= Frame(st.blocks[|st.blocks| - 1].addr) ==>
        st.holds[f] == 0
  }

  /** Then the untested first page is no restriction. */
  lemma HeapOnlyLands(st: State, align: nat, size: nat)
    requires Sound(st) && Unheld(st) && align < TOP && size + HDR < TOP
    ensures Lands(st, align, size)
  {
    hide FindGap, Search, FirstHeader, Touching;
    if Pick(st.blocks, st.users, align, size).Some? {
      var (i, a) := Pick(st.blocks, st.users, align, size).value;
      PickInGap(st.blocks, st.users, align, size, i, a);
      assert i > 0 ==> End(st.blocks[0]) <= st.blocks[i].addr;
      assert i + 1 < |st.blocks| - 1 ==> End(st.blocks[i + 1]) <= st.blocks[|st.blocks| - 1].addr;
    }
  }

  predicate HeapOp(op: Op) {
    op.KMemAlign? || op.KFree?
  }

  /** kmemalign does not raise a counter at its last value. */
  predicate CounterPasses(st: State, op: Op) {
    Sound(st) && Callable(st, op) && (op.KMemAlign? ==> CounterLeft(st, op.align, op.size))
  }

  /** kmemalign and kfree leave the sentinels where they are and the holds of others alone. */
  lemma HeapStepEnds(st: State, op: Op)
    requires Sound(st) && Callable(st, op) && HeapOp(op)
    ensures var bs, st' := st.blocks, Step(st, op);
            && st'.holds == st.holds && |st'.blocks| >= 2
            && st'.blocks[0] == bs[0] && st'.blocks[|st'.blocks| - 1] == bs[|bs| - 1]
  {
    hide FindGap, Search, FirstHeader, Counted, Exclusive, WellFormed, AddRange, SubRange;
    assert |st.blocks| >= 2 by { TwoSentinels(st.blocks); }
    match op
    case KMemAlign(align, size) =>
      match Pick(st.blocks, st.users, align, size) {
        case None =>
        case Some((i, a)) => InsertEnds(st.blocks, i, Block(a, size));
      }
    case KFree(k) =>
    case _ =>
  }

  lemma TwoSentinels(bs: seq<Block>)
    requires WellFormed(bs)
    ensures |bs| >= 2
  {
  }

  lemma InsertEnds(bs: seq<Block>, i: nat, b: Block)
    requires i < |bs| - 1
    ensures var bs' := Insert(bs, i, b); |bs'| >= 2 && bs'[0] == bs[0] && bs'[|bs'| - 1] == bs[|bs| - 1]
  {
  }

  /** In a run of the heap alone, as long as it is sound, pages between the sentinels stay unheld. */
  lemma {:induction false} HeapRunUnheld(sts: seq<State>, ops: seq<Op>, n: nat)
    requires IsRun(sts, ops) && n < |sts| && (forall i :: 0 <= i < |ops| ==> HeapOp(ops[i]))
    requires Sound(sts[0]) && Unheld(sts[0]) && forall i :: 0 <= i <= n ==> Sound(sts[i])
    ensures Unheld(sts[n])
  {
    hide Sound, Callable, Step;
    if n > 0 {
      HeapRunUnheld(sts, ops, n - 1);
      assert Next(sts[n - 1], ops[n - 1], sts[n - 1 + 1]);
      HeapStepEnds(sts[n - 1], ops[n - 1]);
    }
  }

  /** A run of the heap alone over pages that nobody else holds, with requests of every size, is sound if and only if no
      kmemalign in it raises a counter at its last value. */
  lemma HeapRunExact(sts: seq<State>, ops: seq<Op>)
    requires IsRun(sts, ops) && Sound(sts[0]) && Unheld(sts[0]) && forall i :: 0 <= i < |ops| ==> HeapOp(ops[i])
    ensures (forall n :: 0 <= n < |sts| ==> Sound(sts[n])) <==>
            (forall i :: 0 <= i < |ops| && Sound(sts[i]) ==> CounterPasses(sts[i], ops[i]))
  {
    hide Sound, CounterLeft, Lands, Unheld, Step, Callable;
    RunSound(sts, ops);
    if forall i :: 0 <= i < |ops| && Sound(sts[i]) ==> CounterPasses(sts[i], ops[i]) {
      HeapRunSoundTo(sts, ops, |ops|);
    }
  }

  lemma {:induction false} HeapRunSoundTo(sts: seq<State>, ops: seq<Op>, n: nat)
    requires IsRun(sts, ops) && Sound(sts[0]) && Unheld(sts[0]) && n < |sts|
    requires forall i :: 0 <= i < |ops| ==> HeapOp(ops[i])
    requires forall i :: 0 <= i < n && Sound(sts[i]) ==> CounterPasses(sts[i], ops[i])
    ensures forall i :: 0 <= i <= n ==> Sound(sts[i])
  {
    hide Sound, CounterLeft, Lands, Unheld, Step;
    if n > 0 {
      var st, op := sts[n - 1], ops[n - 1];
      HeapRunSoundTo(sts, ops, n - 1);
      HeapRunUnheld(sts, ops, n - 1);
      assert Next(st, op, sts[n - 1 + 1]);
      if op.KMemAlign? { HeapOnlyLands(st, op.align, op.size); }
      StepPasses(st, op);
    }
  }

  /** In every state of every run of the heap alone, over pages nobody else holds and with requests of at least five
      bytes, the invariant holds, and every counter between the sentinels is exactly the number of blocks on its page,
      at most 242: none ever wraps. */
  lemma {:induction false} HeapRunInv(sts: seq<State>, ops: seq<Op>, n: nat)
    requires IsRun(sts, ops) && Inv(sts[0]) && Unheld(sts[0]) && n < |sts|
    requires forall i :: 0 <= i < |ops| ==> HeapOp(ops[i]) && (ops[i].KMemAlign? ==> ops[i].size >= 5)
    ensures Inv(sts[n]) && Unheld(sts[n])
    ensures sts[n].blocks[0] == sts[0].blocks[0]
    ensures sts[n].blocks[|sts[n].blocks| - 1] == sts[0].blocks[|sts[0].blocks| - 1]
    ensures forall f :: 0 <= f < FRAMES && Frame(sts[0].blocks[0].addr) <= f &&
                        f <= Frame(sts[0].blocks[|sts[0].blocks| - 1].addr) ==>
              sts[n].users[f] == Touching(sts[n].blocks, f) <= 242
  {
    hide Step, Touching, CounterLeft, Lands, Callable;
    if n > 0 {
      var st, op := sts[n - 1], ops[n - 1];
      HeapRunInv(sts, ops, n - 1);
      assert Next(st, op, sts[n - 1 + 1]);
      HeapRunStep(st, op);
    }
    forall f | 0 <= f < FRAMES
      ensures Touching(sts[n].blocks, f) <= 242
    {
      TouchingBound(sts[n].blocks, f);
    }
  }

  /** Each call of such a run passes its tests. */
  lemma HeapRunPasses(sts: seq<State>, ops: seq<Op>)
    requires IsRun(sts, ops) && Inv(sts[0]) && Unheld(sts[0])
    requires forall i :: 0 <= i < |ops| ==> HeapOp(ops[i]) && (ops[i].KMemAlign? ==> ops[i].size >= 5)
    ensures Sound(sts[0]) && forall i :: 0 <= i < |ops| ==> Passes(sts[i], ops[i])
  {
    hide Step, Lands, CounterLeft, Unheld, Touching, Callable;
    forall i | 0 <= i < |ops|
      ensures Passes(sts[i], ops[i])
    {
      HeapRunInv(sts, ops, i);
      assert Next(sts[i], ops[i], sts[i + 1]);
      HeapRunPassed(sts[i], ops[i]);
    }
  }

  lemma HeapRunPassed(st: State, op: Op)
    requires Inv(st) && Unheld(st) && Callable(st, op) && HeapOp(op) && (op.KMemAlign? ==> op.size >= 5)
    ensures Passes(st, op)
  {
    hide Unheld, Counted, Exclusive, Sized, WellFormed, Lands, CounterLeft;
    if op.KMemAlign? {
      HeapOnlyLands(st, op.align, op.size);
      AllocInv(st, op.align, op.size);
    }
  }

  lemma HeapRunStep(st: State, op: Op)
    requires Inv(st) && Unheld(st) && Callable(st, op) && HeapOp(op) && (op.KMemAlign? ==> op.size >= 5)
    ensures var bs, st' := st.blocks, Step(st, op);
            && Inv(st') && Unheld(st')
            && st'.blocks[0] == bs[0] && st'.blocks[|st'.blocks| - 1] == bs[|bs| - 1]
  {
    hide Step, Lands, Counted, Exclusive, Sized;
    HeapStepEnds(st, op);
    if op.KMemAlign? { HeapOnlyLands(st, op.align, op.size); }
    StepInv(st, op);
  }

  /** An initial list over given counters starts a run, with the rest of the counts as holds, exactly
      when each frame under a sentinel counts the sentinels on it and nothing else. */
  lemma InitialState(bs: seq<Block>, c: Counts)
    requires WellFormed(bs) && |bs| == 2 && |c| == FRAMES
    ensures (exists h :: Inv(State(bs, c, h))) <==>
            (forall f :: 0 <= f < FRAMES && Touching(bs, f) > 0 ==> c[f] == Touching(bs, f))
  {
    if forall f :: 0 <= f < FRAMES && Touching(bs, f) > 0 ==> c[f] == Touching(bs, f) {
      var h: Counts := seq(FRAMES, f requires 0 <= f < FRAMES => if Touching(bs, f) > 0 then 0 else c[f]);
      assert Inv(State(bs, c, h));
    }
  }
}
