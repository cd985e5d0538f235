/**
  Physical page frames: 32-bit addresses, pages, and the 8-bit user counter that
  mm/page.c keeps for each frame.
 */
module Frames {

  const TOP: int := 0x1_0000_0000          // one past the last 32-bit address
  const PAGE: int := 4096
  const FRAMES: int := 0x10_0000           // MAX_PAGES_COUNT
  const KBASE: int := 0xC000_0000          // CONFIG_KERNEL_VM_OFFSET

  /** A counter cell of `_page_users`. */
  type u8 = x: int | 0 <= x < 256

  type Counts = seq<u8>

  /** 32-bit wrap-around of a sum or a difference of two 32-bit values. */
  function Wrap(x: int): (r: int)
    requires -TOP <= x < 2 * TOP
    ensures 0 <= r < TOP
  {
    if x < 0 then x + TOP else if x < TOP then x else x - TOP
  }

  /** The frame behind a kernel-half virtual address (phy_addr, then the page shift). */
  function Frame(a: nat): int {
    a / PAGE - KBASE / PAGE
  }

  /** The kernel-half virtual address at which a frame starts. */
  function Base(f: int): int {
    KBASE + f * PAGE
  }

  /** The first frame whose page starts at or after `a`. */
  function FrameUp(a: nat): int {
    (a + PAGE - 1) / PAGE - KBASE / PAGE
  }

  predicate SamePage(a: nat, b: nat) {
    Frame(a) == Frame(b)
  }

  lemma FrameBounds(a: nat)
    ensures Base(Frame(a)) <= a < Base(Frame(a) + 1)
  {
  }

  lemma FrameUpBounds(a: nat)
    ensures Base(FrameUp(a) - 1) < a <= Base(FrameUp(a))
  {
  }

  function Inc(c: u8): u8 { (c + 1) % 256 }

  function Dec(c: u8): u8 { (c + 255) % 256 }

  /** Counts after one more user on every frame in lo..hi. */
  function AddRange(c: Counts, lo: int, hi: int): (r: Counts)
    ensures |r| == |c|
  {
    seq(|c|, i requires 0 <= i < |c| => if lo <= i < hi then Inc(c[i]) else c[i])
  }

  /** Counts after one user fewer on every frame in lo..hi. */
  function SubRange(c: Counts, lo: int, hi: int): (r: Counts)
    ensures |r| == |c|
  {
    seq(|c|, i requires 0 <= i < |c| => if lo <= i < hi then Dec(c[i]) else c[i])
  }

  /** Releasing a range right after obtaining it restores every counter, wrapped or not. */
  lemma SubAddRange(c: Counts, lo: int, hi: int)
    ensures SubRange(AddRange(c, lo, hi), lo, hi) == c
  {
    assert forall i :: 0 <= i < |c| ==> Dec(Inc(c[i])) == c[i];
  }

  /** The first frame in lo..hi that is in use; hi when there is none. */
  function NextUsed(c: Counts, lo: nat, hi: nat): (r: nat)
    requires lo <= hi <= |c|
    ensures lo <= r <= hi
    ensures forall x :: lo <= x < r ==> c[x] == 0
    ensures r == hi || c[r] > 0
    decreases hi - lo
  {
    if lo == hi || c[lo] > 0 then lo else NextUsed(c, lo + 1, hi)
  }

  /** The first frame in lo..hi that is free; hi when there is none. */
  function NextFree(c: Counts, lo: nat, hi: nat): (r: nat)
    requires lo <= hi <= |c|
    ensures lo <= r <= hi
    ensures forall x :: lo <= x < r ==> c[x] > 0
    ensures r == hi || c[r] == 0
    decreases hi - lo
  {
    if lo == hi || c[lo] == 0 then lo else NextFree(c, lo + 1, hi)
  }

  /** Counts after one more user on every frame of a set. */
  ghost function RaiseAll(c: Counts, fs: set<nat>): (r: Counts)
    ensures |r| == |c|
  {
    seq(|c|, i requires 0 <= i < |c| => if i in fs then Inc(c[i]) else c[i])
  }

  /** Counts after one user fewer on every frame of a set. */
  ghost function LowerAll(c: Counts, fs: set<nat>): (r: Counts)
    ensures |r| == |c|
  {
    seq(|c|, i requires 0 <= i < |c| => if i in fs then Dec(c[i]) else c[i])
  }
}
