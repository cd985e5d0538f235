/**
  Inputs at which the heap of mm/kmalloc.c fails, each with the state and the calls that lead there.
 */
module HeapCases {
  import opened Wrappers
  import opened Frames
  import opened HeapSpec
  import opened HeapRuns
  import opened HeapScan

  /** Counters that are zero but for three frames. */
  function Three(f0: nat, c0: u8, f1: nat, c1: u8, f2: nat, c2: u8): (c: Counts)
    ensures |c| == FRAMES
  {
    seq(FRAMES, f requires 0 <= f < FRAMES => if f == f0 then c0 else if f == f1 then c1 else if f == f2 then c2 else 0)
  }

  lemma FirstHeaderUnaligned(bend: nat)
    requires bend + HDR < TOP
    ensures FirstHeader(bend, 0) == bend
  {
  }

  // ----- 256 users on one page

  /** Blocks of four bytes laid end to end behind the first sentinel. */
  function Packed(n: nat): (bs: seq<Block>)
    ensures |bs| == n && forall k :: 0 <= k < n ==> bs[k] == Block(Base(0) + HDR + 16 * k, 4)
  {
    seq(n, k requires 0 <= k < n => Block(Base(0) + HDR + 16 * k, 4))
  }

  /** The heap after `n` requests of four bytes, with pages 0 and 1 between its sentinels. */
  function After(n: nat): State {
    State([Block(Base(0), 0)] + Packed(n) + [Block(Base(2), 0)],
          Three(0, (n + 1) % 256, 2, 1, 2, 1), Three(0, 0, 0, 0, 0, 0))
  }

  lemma AfterBlocks(n: nat)
    requires n <= 255
    ensures var bs := After(n).blocks;
            && |bs| == n + 2 && bs[n + 1] == Block(Base(2), 0)
            && (forall k :: 0 <= k <= n ==> End(bs[k]) == Base(0) + HDR + 16 * k)
            && (forall k {:trigger bs[k]} :: 0 < k <= n ==>
                  bs[k].addr == Base(0) + HDR + 16 * (k - 1) && bs[k].size == 4)
            && WellFormed(bs)
  {
    var bs := After(n).blocks;
    assert bs[0] == Block(Base(0), 0);
    assert forall k {:trigger bs[k]} :: 0 < k <= n ==> bs[k] == Packed(n)[k - 1];
  }

  lemma GapFull(n: nat, k: nat)
    requires k < n <= 255
    ensures var st := After(n);
            (AfterBlocks(n); Search(st.users, End(st.blocks[k]), st.blocks[k + 1].addr, 0, 16) == None)
  {
    var st := After(n);
    AfterBlocks(n);
    FirstHeaderUnaligned(End(st.blocks[k]));
  }

  lemma GapLast(n: nat, need: nat)
    requires n <= 254 && need <= 16
    ensures var st := After(n);
            (AfterBlocks(n); Search(st.users, End(st.blocks[n]), st.blocks[n + 1].addr, 0, need) ==
                    Some(End(st.blocks[n])))
  {
    var st := After(n);
    AfterBlocks(n);
    FirstHeaderUnaligned(End(st.blocks[n]));
    assert NextUsed(st.users, 1, 2) == 2;
  }

  lemma {:induction false} FindsLast(n: nat, k: nat)
    requires k <= n <= 254
    ensures (AfterBlocks(n); FindGap(After(n).blocks, After(n).users, k, 0, 16) == n)
    decreases n - k
  {
    AfterBlocks(n);
    hide Search, After;
    if k == n {
      GapLast(n, 16);
    } else {
      GapFull(n, k);
      FindsLast(n, k + 1);
    }
  }

  lemma PicksLast(n: nat)
    requires n <= 254
    ensures (AfterBlocks(n); Pick(After(n).blocks, After(n).users, 0, 4) == Some((n, Base(0) + HDR + 16 * n)))
  {
    hide Search, FindGap, WellFormed, Three, Packed;
    AfterBlocks(n);
    FindsLast(n, 0);
    GapLast(n, 16);
  }

  lemma PlaceLast(n: nat)
    requires n <= 254
    ensures Place(After(n), n, Base(0) + HDR + 16 * n, 4) == After(n + 1)
  {
    var st, a := After(n), Base(0) + HDR + 16 * n;
    assert Frame(a) == 0 && FrameUp(a + 16) == 1;
    assert Insert(st.blocks, n, Block(a, 4)) == After(n + 1).blocks;
    assert AddRange(st.users, 0, 1) == After(n + 1).users;
  }

  /** Each request lands right behind the one before and raises the counter of page 0. */
  lemma FourBytesMore(n: nat)
    requires n <= 254
    ensures (AfterBlocks(n); Alloc(After(n), 0, 4) == After(n + 1))
  {
    hide After, Pick, Place;
    AfterBlocks(n);
    PicksLast(n);
    PlaceLast(n);
  }

  lemma {:induction false} PackedTouching(n: nat, f: int)
    requires n <= 255
    ensures Touching(Packed(n), f) == if f == 0 then n else 0
  {
    if n > 0 {
      PackedTouching(n - 1, f);
      assert Packed(n)[..n - 1] == Packed(n - 1);
    }
  }

  lemma AfterTouching(n: nat, f: int)
    requires n <= 255
    ensures Touching(After(n).blocks, f) == if f == 0 then n + 1 else if f == 2 then 1 else 0
  {
    PackedTouching(n, f);
    TouchingConcat([Block(Base(0), 0)] + Packed(n), [Block(Base(2), 0)], f);
    TouchingConcat([Block(Base(0), 0)], Packed(n), f);
    assert [Block(Base(0), 0)][..0] == [] && [Block(Base(2), 0)][..0] == [];
  }

  lemma AfterSound(n: nat)
    requires n <= 255
    ensures Sound(After(n)) <==> n < 255
  {
    AfterBlocks(n);
    hide WellFormed, Touching, Packed;
    forall f | 0 <= f < FRAMES
      ensures Touching(After(n).blocks, f) == if f == 0 then n + 1 else if f == 2 then 1 else 0
    {
      AfterTouching(n, f);
    }
    assert After(n).users[0] == (n + 1) % 256;
  }

  /** A run of 255 requests of four bytes, from a heap of two sentinels with exact counters: every state but the last is
      sound, and in the last one the counter of the page under all those blocks is zero, so that alloc_page would hand
      that page out. */
  lemma FourByteRun()
    ensures var sts := seq(256, n requires 0 <= n < 256 => After(n)); var ops := seq(255, _ => KMemAlign(0, 4));
            && IsRun(sts, ops)
            && (forall n :: 0 <= n < 255 ==> Sound(sts[n])) && !Sound(sts[255])
            && Touching(sts[255].blocks, 0) == 256 && NextFree(sts[255].users, 0, FRAMES) == 0
  {
    var sts := seq(256, n requires 0 <= n < 256 => After(n));
    var ops := seq(255, _ => KMemAlign(0, 4));
    forall n | 0 <= n < 255
      ensures Sound(sts[n]) && Next(sts[n], ops[n], sts[n + 1])
    {
      AfterSound(n);
      FourBytesMore(n);
      hide After, Sound, Alloc;
    }
    AfterSound(255);
    AfterTouching(255, 0);
    assert sts[255].users[0] == 0;
  }

  // ----- a size that wraps

  /** A request of 2^32 - 1 bytes is granted, for header plus size is eleven in 32 bits, and the list is broken. */
  lemma WrappingSizeGranted()
    ensures var st := After(0);
            && Sound(st) && Pick(st.blocks, st.users, 0, 0xFFFF_FFFF) == Some((0, Base(0) + HDR))
            && !WellFormed(Alloc(st, 0, 0xFFFF_FFFF).blocks)
  {
    hide Search, After, WellFormed, Alloc;
    AfterSound(0);
    AfterBlocks(0);
    GapLast(0, 11);
    AllocWellFormed(After(0), 0, 0xFFFF_FFFF);
  }

  // ----- a held page behind the first one

  /** A block that fills the page of the first sentinel, and the page behind it held by others. */
  const EDGE: State :=
    State([Block(Base(0), 0), Block(Base(0) + HDR, PAGE - 2 * HDR), Block(Base(3), 0)],
          Three(0, 2, 1, 1, 3, 1), Three(1, 1, 1, 1, 1, 1))

  /** A first sentinel at the start of its page, and the page behind it held by others. */
  const SPLIT: State :=
    State([Block(Base(0), 0), Block(Base(5), 0)], Three(0, 1, 1, 1, 5, 1), Three(1, 1, 1, 1, 1, 1))

  lemma TwoSound(a: Block, b: Block, fa: nat, fb: nat)
    requires fa < fb < FRAMES && WellFormed([a, b]) && fa != 1 && fb != 1
    requires forall f :: Touches(a, f) <==> f == fa
    requires forall f :: Touches(b, f) <==> f == fb
    ensures Sound(State([a, b], Three(fa, 1, 1, 1, fb, 1), Three(1, 1, 1, 1, 1, 1)))
  {
    forall f | 0 <= f < FRAMES
      ensures Touching([a, b], f) == (if f == fa then 1 else 0) + (if f == fb then 1 else 0)
    {
      TouchingTwo(a, b, f);
    }
    hide Touching, WellFormed;
  }

  lemma EdgeSound()
    ensures Sound(EDGE)
  {
    var a, b, e := EDGE.blocks[0], EDGE.blocks[1], EDGE.blocks[2];
    assert WellFormed(EDGE.blocks);
    forall f | 0 <= f < FRAMES
      ensures Touching(EDGE.blocks, f) == if f == 0 then 2 else if f == 3 then 1 else 0
    {
      TouchingTwo(a, b, f);
      TouchingConcat([a, b], [e], f);
      assert [a, b] + [e] == EDGE.blocks && [e][..0] == [];
    }
    hide Touching, WellFormed;
  }

  lemma EdgePick()
    ensures WellFormed(EDGE.blocks) && Pick(EDGE.blocks, EDGE.users, 0, 5) == Some((1, Base(1)))
  {
    var c, bs := EDGE.users, EDGE.blocks;
    assert WellFormed(bs);
    FirstHeaderUnaligned(Base(0) + HDR);
    FirstHeaderUnaligned(Base(1));
    assert Search(c, End(bs[0]), bs[1].addr, 0, 17) == None;
    assert NextUsed(c, 2, 3) == 3;
    assert Search(c, End(bs[1]), bs[2].addr, 0, 17) == Some(Base(1));
    hide Search;
    assert FindGap(bs, c, 1, 0, 17) == 1;
  }

  /** The untested page of the first header: a request lands in a page that others hold. */
  lemma HeldPageTaken()
    ensures Sound(EDGE) && EDGE.holds[1] == 1
    ensures Pick(EDGE.blocks, EDGE.users, 0, 5) == Some((1, Base(1)))
    ensures !Lands(EDGE, 0, 5) && !Exclusive(Alloc(EDGE, 0, 5))
  {
    hide Search, Sound, Pick, Exclusive, WellFormed;
    EdgeSound();
    EdgePick();
    FirstHeaderUnaligned(Base(1));
    AllocExclusive(EDGE, 0, 5);
  }

  /** A restart: a directory is asked for on a page boundary and comes back twelve bytes behind one. */
  lemma DirectoryMisaligned()
    ensures Sound(SPLIT)
    ensures IsPow2(PAGE) && Pick(SPLIT.blocks, SPLIT.users, PAGE, PAGE) == Some((0, Base(2)))
    ensures Lands(SPLIT, PAGE, PAGE) && (Base(2) + HDR) % PAGE == HDR
  {
    hide Search, IsPow2, Touching, Three;
    TwoSound(Block(Base(0), 0), Block(Base(5), 0), 0, 5);
    PagePow2();
    SplitSearch();
    assert SPLIT.holds[2] == 0 by { ThreeAt(1, 1, 1, 1, 1, 1, 2); }
  }

  lemma PagePow2()
    ensures IsPow2(PAGE)
  {
    assert IsPow2(16) && IsPow2(256);
  }

  lemma ThreeAt(f0: nat, c0: u8, f1: nat, c1: u8, f2: nat, c2: u8, f: nat)
    requires f < FRAMES
    ensures Three(f0, c0, f1, c1, f2, c2)[f] ==
            if f == f0 then c0 else if f == f1 then c1 else if f == f2 then c2 else 0
  {
  }

  lemma SplitSearch()
    ensures Search(SPLIT.users, Base(0) + HDR, Base(5), PAGE, HDR + PAGE) == Some(Base(2))
  {
    var c := SPLIT.users;
    assert FirstHeader(Base(0) + HDR, PAGE) == Base(1) - HDR;
    assert NextUsed(c, 1, 5) == 1 && NextFree(c, 1, 5) == 2;
    assert NextUsed(c, 3, 5) == 5;
    assert Fit(c, Base(2), Base(5), HDR + PAGE) == Some(Base(2));
  }

  // ----- the page of `next` not in use

  /** With the page of `next` free, as init_heap leaves that of the end sentinel, a request is answered with a block
      that overlaps the header at `next`. */
  lemma NextOverrun()
    ensures var c := Three(0, 1, 3, 1, 3, 1); var s, next := Base(0) + HDR, Base(2);
            Hunt(c, next, 2 * PAGE, s, false) == At(s) && s + 2 * PAGE > next
  {
    var c := Three(0, 1, 3, 1, 3, 1);
    assert NextUsed(c, 1, KFRAMES) == 3 by { UsedFirst(c, 1, KFRAMES, 3); }
  }

  /** Two free pages, before and under `next`. */
  const NARROW: Counts := seq(FRAMES, f => if f == 1 || f == 2 then 0 else 1)

  /** With no other free page a request too large for those two sends the search around the address space for ever. */
  lemma NeverEnds()
    ensures |NARROW| == FRAMES && Hunt(NARROW, Base(2), 3 * PAGE, Base(0) + HDR, false) == Never
  {
    var c, s, next, need := NARROW, Base(0) + HDR, Base(2), 3 * PAGE;
    assert NextUsed(c, 1, 3) == 3;
    assert Cover(c, s, next) == Some(s);
    FitAtCover(c, next, need, s);
    UsedFirst(c, 1, KFRAMES, 3);
    UsedFirst(c, 2, KFRAMES, 3);
    assert !RoomyPage(c, 3, KFRAMES - 1, need) && !RoomyPage(c, 0, 2, need);
    hide Hunt, Fit, Cover, Roomy;
    NeverExact(c, next, need, s);
  }
}
