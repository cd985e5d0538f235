/**
  The kernel heap of mm/kmalloc.c as a value: an address-ordered list of blocks
  between two sentinels, living in pages whose 8-bit user counters it shares with
  the page allocator of mm/page.c.
 */
module HeapSpec {
  import opened Wrappers
  import opened Frames

  const HDR: int := 12                     // sizeof(struct heap_block)
  const LAST_PAGE: int := 0xFFFF_F000      // ALIGN_CEIL to a page wraps above this address

  /** A block: the address of its header and the size of its data. */
  datatype Block = Block(addr: nat, size: nat)

  /** One past the last byte of a block (BLOCK_END, without wrap-around). */
  function End(b: Block): nat {
    b.addr + HDR + b.size
  }

  predicate Touches(b: Block, f: int) {
    b.addr < Base(f + 1) && Base(f) < End(b)
  }

  /** How many blocks of the list overlap frame `f`. */
  function Touching(bs: seq<Block>, f: int): nat {
    if bs == [] then 0 else Touching(bs[..|bs| - 1], f) + (if Touches(bs[|bs| - 1], f) then 1 else 0)
  }

  /** Header-plus-data ranges are pairwise disjoint and in list order. */
  predicate Ordered(bs: seq<Block>) {
    forall i, j :: 0 <= i < j < |bs| ==> End(bs[i]) <= bs[j].addr
  }

  /** The list runs between two empty sentinels inside the kernel half, below its last page. */
  predicate WellFormed(bs: seq<Block>) {
    && 2 <= |bs|
    && KBASE <= bs[0].addr
    && bs[0].size == 0 && bs[|bs| - 1].size == 0
    && End(bs[|bs| - 1]) <= LAST_PAGE
    && Ordered(bs)
  }

  // ----- search_interspace

  predicate IsPow2(n: nat) {
    n == 1 || (n > 1 && n % 2 == 0 && IsPow2(n / 2))
  }

  function Power(k: nat): (p: nat)
    ensures p >= 1
  {
    if k == 0 then 1 else 2 * Power(k - 1)
  }

  /** Bitwise and. */
  function BitAnd(a: nat, b: nat): nat {
    if a == 0 || b == 0 then 0 else 2 * BitAnd(a / 2, b / 2) + if a % 2 == b % 2 == 1 then 1 else 0
  }

  /** is_power_of_2. */
  predicate PowerTest(n: nat) {
    n != 0 && BitAnd(n, n - 1) == 0
  }

  lemma {:induction false} BitAndSelf(n: nat)
    ensures BitAnd(n, n) == n
  {
    if n > 0 { BitAndSelf(n / 2); }
  }

  /** The bit trick of is_power_of_2 tells exactly the powers of two. */
  lemma {:induction false} PowerTestExact(n: nat)
    ensures PowerTest(n) <==> IsPow2(n)
    ensures IsPow2(n) <==> exists k: nat :: Power(k) == n
  {
    if n > 1 {
      PowerTestExact(n / 2);
      if n % 2 == 1 {
        BitAndSelf(n / 2);
        assert (n - 1) / 2 == n / 2;
        assert forall k: nat :: Power(k) != n;
      } else {
        assert (n - 1) / 2 == n / 2 - 1;
        if IsPow2(n) {
          var k: nat :| Power(k) == n / 2;
          assert Power(k + 1) == n;
        }
        if exists k: nat :: Power(k) == n {
          var k: nat :| Power(k) == n;
          assert k > 0 && Power(k - 1) == n / 2;
        }
      }
    } else {
      assert Power(0) == 1;
    }
  }

  /** ALIGN_CEIL for a power of two `a`, with the 32-bit wrap-around of the sum. */
  function AlignCeil(n: nat, a: nat): (r: nat)
    requires n < TOP && 0 < a < TOP
    ensures if n + a - 1 < TOP then n <= r < TOP && r < n + a else r == 0
  {
    var x := Wrap(n + a - 1);
    DivModFacts(x, a);
    x - x % a
  }

  lemma DivModFacts(x: nat, a: nat)
    requires 0 < a
    ensures 0 <= x % a < a && x % a <= x
    ensures x < a ==> x % a == x
    ensures (x - x % a) % a == 0
  {
    assert x == a * (x / a) + x % a;
    if x < a {
      assert x / a == 0;
    }
    MultipleMod(x / a, a);
  }

  lemma MultipleMod(k: nat, a: nat)
    requires 0 < a
    ensures (a * k) % a == 0
  {
    var q, r := (a * k) / a, (a * k) % a;
    var d := k - q;
    assert a * d == r;
    assert d >= 1 ==> a * d >= a;
    assert d <= -1 ==> a * d <= 0 - a;
  }

  /** The first header address tried after a block that ends at `bend`. */
  function FirstHeader(bend: nat, align: nat): (r: nat)
    requires bend + HDR < TOP && align < TOP
    ensures bend <= r < TOP
  {
    Wrap(AlignCeil(bend + HDR, if align == 0 then 1 else align) - HDR)
  }

  /** Where the usable run starting at `s` ends: at `next` when that lies in the page of `s`, and
      otherwise at the first later page in use, which is at latest the page of `next`. */
  function RunEnd(c: Counts, s: nat, next: nat): (e: nat)
    requires |c| == FRAMES && KBASE <= s <= next < TOP
    ensures s <= e <= next
    ensures !SamePage(s, next) ==> s < e
  {
    if SamePage(s, next) then next else Base(NextUsed(c, Frame(s) + 1, Frame(next)))
  }

  /** First run at or after `s` with room for `need` bytes. */
  function Fit(c: Counts, s: nat, next: nat, need: nat): (r: Option<nat>)
    requires |c| == FRAMES && KBASE <= s <= next < TOP
    decreases next - s
  {
    var e := RunEnd(c, s, next);
    if e - s >= need then Some(s)
    else if SamePage(s, next) then None
    else Fit(c, Base(NextFree(c, Frame(e), Frame(next))), next, need)
  }

  /** What search_interspace answers for the gap between a block ending at `bend` and `next`. */
  function Search(c: Counts, bend: nat, next: nat, align: nat, need: nat): (r: Option<nat>)
    requires |c| == FRAMES && KBASE <= bend <= next && next + HDR < TOP && align < TOP
  {
    var s := FirstHeader(bend, align);
    if next < s then None else Fit(c, s, next, need)
  }

  /** A place where a block may start: the first header tried, or the start of a later page that is
      free or holds `next`. */
  predicate Candidate(c: Counts, s: nat, next: nat, x: nat)
    requires |c| == FRAMES && KBASE <= s <= next < TOP
  {
    || x == s
    || (s < x <= next && x % PAGE == 0 && (SamePage(x, next) || c[Frame(x)] == 0))
  }

  /** The run at `x` has room for `need` bytes. */
  predicate Room(c: Counts, x: nat, next: nat, need: nat)
    requires |c| == FRAMES && KBASE <= x <= next < TOP
  {
    x + need <= RunEnd(c, x, next)
  }

  lemma NextUsedSplit(c: Counts, lo: nat, mid: nat, hi: nat)
    requires lo <= hi <= |c| && lo <= mid <= NextUsed(c, lo, hi)
    ensures mid <= hi && NextUsed(c, mid, hi) == NextUsed(c, lo, hi)
    decreases mid - lo
  {
    if lo < mid { NextUsedSplit(c, lo + 1, mid, hi); }
  }

  /** A later candidate is inside the run at `s`, with less room, or starts no earlier than the
      restart of the search. */
  lemma LaterCandidate(c: Counts, s: nat, next: nat, x: nat)
    requires |c| == FRAMES && KBASE <= s <= next < TOP && !SamePage(s, next)
    requires s < x && Candidate(c, s, next, x)
    ensures var e := RunEnd(c, s, next); var s' := Base(NextFree(c, Frame(e), Frame(next)));
            || (x < e && RunEnd(c, x, next) == e)
            || (s' <= x && Candidate(c, s', next, x))
  {
    var e := RunEnd(c, s, next);
    var s' := Base(NextFree(c, Frame(e), Frame(next)));
    assert Base(Frame(x)) == x;
    if x < e {
      NextUsedSplit(c, Frame(s) + 1, Frame(x) + 1, Frame(next));
    } else if x < s' {
      assert false;
    }
  }

  /** The page-by-page search finds exactly the lowest candidate whose run has room. */
  lemma {:induction false} FitIsLeast(c: Counts, s: nat, next: nat, need: nat)
    requires |c| == FRAMES && KBASE <= s <= next < TOP
    ensures var r := Fit(c, s, next, need);
            && (r.Some? ==> s <= r.value <= next && Candidate(c, s, next, r.value) && Room(c, r.value, next, need))
            && forall x :: s <= x <= next && Candidate(c, s, next, x) && Room(c, x, next, need) ==>
                 r.Some? && r.value <= x
    decreases next - s
  {
    var e := RunEnd(c, s, next);
    if e - s < need && !SamePage(s, next) {
      var s' := Base(NextFree(c, Frame(e), Frame(next)));
      FitIsLeast(c, s', next, need);
      forall x | s < x <= next && Candidate(c, s, next, x) && Room(c, x, next, need)
        ensures s' <= x && Candidate(c, s', next, x)
      {
        LaterCandidate(c, s, next, x);
      }
    }
  }

  /** Every answer lies between the end of `block` and `next`; the pages it reaches after its first
      were free, and the first is that of the first header tried unless it was free or holds `next`. */
  lemma SearchInGap(c: Counts, bend: nat, next: nat, align: nat, need: nat)
    requires |c| == FRAMES && KBASE <= bend <= next && next + HDR < TOP && align < TOP
    requires Search(c, bend, next, align, need).Some?
    ensures var a := Search(c, bend, next, align, need).value;
            && bend <= a && a + need <= next
            && (forall f :: Frame(a) < f < FrameUp(a + need) ==> c[f] == 0)
            && (a == FirstHeader(bend, align) || SamePage(a, next) || c[Frame(a)] == 0)
  {
    FitIsLeast(c, FirstHeader(bend, align), next, need);
  }

  /** Data is aligned as asked exactly when the alignment is at most 4 or the first header was taken:
      every later candidate is a page start, which puts the data at page start + 12. */
  lemma AlignmentExact(c: Counts, bend: nat, next: nat, align: nat, need: nat)
    requires |c| == FRAMES && KBASE <= bend <= next && next + HDR < TOP && align < TOP && IsPow2(align)
    requires Search(c, bend, next, align, need).Some?
    ensures var s := FirstHeader(bend, align); var a := Search(c, bend, next, align, need).value;
            (a + HDR) % align == 0 <==> align <= 4 || Room(c, s, next, need)
  {
    hide Fit, RunEnd, FirstHeader, IsPow2, NextUsed, NextFree;
    var s := FirstHeader(bend, align);
    var a := Search(c, bend, next, align, need).value;
    FitIsLeast(c, s, next, need);
    assert Room(c, s, next, need) ==> a == s;
    assert a != s ==> a % PAGE == 0;
    hide Room, Candidate, Search;
    Pow2Small(align);
    FirstHeaderAligned(bend, align);
    PageStartAligned(a, align);
  }

  lemma FirstHeaderAligned(bend: nat, align: nat)
    requires bend + HDR < TOP && 0 < align < TOP
    ensures var s := FirstHeader(bend, align); s + HDR < TOP ==> (s + HDR) % align == 0
  {
    DivModFacts(Wrap(bend + HDR + align - 1), align);
  }

  lemma {:induction false} Pow2Small(n: nat)
    requires IsPow2(n)
    ensures n > 0
    ensures n <= 4 ==> n == 1 || n == 2 || n == 4
    ensures n > 4 ==> n % 8 == 0
  {
    if n > 4 && n != 8 {
      Pow2Small(n / 2);
    }
  }

  lemma MultipleOf8(x: nat, align: nat)
    requires 0 < align && align % 8 == 0 && x % align == 0
    ensures x % 8 == 0
  {
    var q, m := x / align, align / 8;
    assert x == align * q && align == 8 * m;
    assert x == 8 * (m * q);
  }

  lemma PageStartAligned(a: nat, align: nat)
    requires IsPow2(align)
    ensures a % PAGE == 0 ==> ((a + HDR) % align == 0 <==> align <= 4)
  {
    Pow2Small(align);
    if align > 4 && (a + HDR) % align == 0 {
      MultipleOf8(a + HDR, align);
    }
  }
}
