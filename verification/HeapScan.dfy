/**
  The loop of search_interspace as it runs whatever the counters are. The code relies on the page of `next` being in
  use; where it is not, the loop goes on past `next`, around the address space, or for ever.
 */
module HeapScan {
  import opened Wrappers
  import opened Frames
  import opened HeapSpec

  const KFRAMES: int := 0x4_0000           // pages of the kernel half

  /** NULL, an address, or no answer at all. */
  datatype Answer = Null | At(a: nat) | Never

  /** The last page boundary that the loop tries as the end of a run whose first page is `f`; past the top of the
      address space the end wraps to zero. */
  function Limit(c: Counts, f: int): (r: int)
    requires |c| == FRAMES && -1 <= f < KFRAMES - 1
    ensures f < r < KFRAMES
  {
    var k := NextUsed(c, f + 1, KFRAMES);
    if k == KFRAMES then KFRAMES - 1 else k
  }

  /** There are `need` bytes from `s` to the last end the loop tries for it. */
  predicate Roomy(c: Counts, s: nat, need: nat)
    requires |c| == FRAMES && Base(-1) <= s < LAST_PAGE
  {
    s + need <= Base(Limit(c, Frame(s)))
  }

  /** search_interspace from header `s`, with the end of its page as the first end tried. `lap` tells that the search
      has come around the address space; coming around again it would repeat itself. */
  function Hunt(c: Counts, next: nat, need: nat, s: nat, lap: bool): (r: Answer)
    requires |c| == FRAMES && KBASE <= next < LAST_PAGE && Base(-1) <= s < LAST_PAGE
    decreases !lap, KFRAMES - Frame(s)
  {
    var f, fn := Frame(s), Frame(next);
    if f == fn then
      if s + need <= next then At(s) else Null
    else if Roomy(c, s, need) then At(s)
    else Reset(c, next, need, s, NextUsed(c, f + 1, KFRAMES), lap)
  }

  /** The search after a run that ended too early at page `k`. */
  function Reset(c: Counts, next: nat, need: nat, s: nat, k: nat, lap: bool): (r: Answer)
    requires |c| == FRAMES && KBASE <= next < LAST_PAGE && Base(-1) <= s < LAST_PAGE && Frame(s) < k <= KFRAMES
    requires k == KFRAMES || c[k] > 0
    decreases !lap, KFRAMES - Frame(s), 0
  {
    var fn := Frame(next);
    if k == KFRAMES then Null
    else if k <= fn then Hunt(c, next, need, Base(NextFree(c, k, fn)), lap)
    else
      var m := NextFree(c, k, FRAMES);
      if m < KFRAMES - 1 then Hunt(c, next, need, Base(m), lap)
      else if m < FRAMES - 1 then Null
      else if lap then Never
      else Hunt(c, next, need, if m == FRAMES - 1 then Base(-1) else Base(NextFree(c, 0, fn)), true)
  }

  // ----- runs that reach through the page of `next`

  /** The candidate from `s` on whose run reaches through the page of `next`. */
  function Cover(c: Counts, s: nat, next: nat): (r: Option<nat>)
    requires |c| == FRAMES && KBASE <= s <= next < LAST_PAGE
    ensures r.Some? ==> s <= r.value < Base(Frame(next)) && (r.value == s || r.value % PAGE == 0)
    ensures r.Some? ==> forall f :: Frame(r.value) < f <= Frame(next) ==> c[f] == 0
    ensures r.Some? && r.value != s ==>
              Frame(s) < Frame(r.value) - 1 && c[Frame(r.value) - 1] > 0 && c[Frame(r.value)] == 0
    decreases next - s
  {
    if SamePage(s, next) then None else
    var k := NextUsed(c, Frame(s) + 1, Frame(next) + 1);
    if k == Frame(next) + 1 then Some(s) else Cover(c, Base(NextFree(c, k, Frame(next))), next)
  }

  /** There is one exactly when that page is free and the page before it is free or that of `s`. */
  lemma {:induction false} CoverExact(c: Counts, s: nat, next: nat)
    requires |c| == FRAMES && KBASE <= s <= next < LAST_PAGE
    ensures var fn := Frame(next);
            Cover(c, s, next).Some? <==> Frame(s) < fn && c[fn] == 0 && (Frame(s) == fn - 1 || c[fn - 1] == 0)
    decreases next - s
  {
    if !SamePage(s, next) {
      var k := NextUsed(c, Frame(s) + 1, Frame(next) + 1);
      if k <= Frame(next) {
        CoverExact(c, Base(NextFree(c, k, Frame(next))), next);
      }
    }
  }

  lemma UsedFirst(c: Counts, lo: nat, hi: nat, k: nat)
    requires lo <= k < hi <= |c| && c[k] > 0 && forall x :: lo <= x < k ==> c[x] == 0
    ensures NextUsed(c, lo, hi) == k
  {
  }

  function Found(r: Option<nat>): Answer {
    match r case None => Null case Some(a) => At(a)
  }

  lemma FitStep(c: Counts, next: nat, need: nat, s: nat, k: nat)
    requires |c| == FRAMES && KBASE <= s <= next < LAST_PAGE && Frame(s) < Frame(next)
    requires k == NextUsed(c, Frame(s) + 1, Frame(next))
    ensures KBASE <= Base(NextFree(c, k, Frame(next))) <= next
    ensures Fit(c, s, next, need) ==
            if s + need <= Base(k) then Some(s) else Fit(c, Base(NextFree(c, k, Frame(next))), next, need)
  {
    assert Frame(Base(k)) == k;
  }

  /** A run that ends at a used page not past that of `next`. */
  lemma HuntStep(c: Counts, next: nat, need: nat, s: nat, lap: bool, k: nat)
    requires |c| == FRAMES && KBASE <= next < LAST_PAGE && Base(-1) <= s <= next && Frame(s) < k <= Frame(next)
    requires c[k] > 0 && forall x :: Frame(s) < x < k ==> c[x] == 0
    ensures Base(-1) <= Base(NextFree(c, k, Frame(next))) < LAST_PAGE
    ensures Hunt(c, next, need, s, lap) ==
            if s + need <= Base(k) then At(s) else Hunt(c, next, need, Base(NextFree(c, k, Frame(next))), lap)
  {
    UsedFirst(c, Frame(s) + 1, KFRAMES, k);
  }

  lemma HuntSamePage(c: Counts, next: nat, need: nat, s: nat, lap: bool)
    requires |c| == FRAMES && KBASE <= s <= next < LAST_PAGE && SamePage(s, next)
    ensures Hunt(c, next, need, s, lap) == Found(Fit(c, s, next, need))
    ensures Fit(c, s, next, need) == if s + need <= next then Some(s) else None
  {
  }

  lemma UsedBefore(c: Counts, lo: nat, hi: nat)
    requires lo <= hi < |c| && NextUsed(c, lo, hi + 1) <= hi
    ensures NextUsed(c, lo, hi) == NextUsed(c, lo, hi + 1)
  {
  }

  lemma CoverStep(c: Counts, s: nat, next: nat, k: nat)
    requires |c| == FRAMES && KBASE <= s <= next < LAST_PAGE && Frame(s) < Frame(next)
    requires k == NextUsed(c, Frame(s) + 1, Frame(next) + 1)
    ensures k == Frame(next) + 1 ==> Cover(c, s, next) == Some(s)
    ensures k <= Frame(next) ==>
              var s' := Base(NextFree(c, k, Frame(next))); s < s' <= next && Cover(c, s, next) == Cover(c, s', next)
  {
  }

  /** Without such a run the loop is the bounded search. */
  lemma {:induction false} HuntIsFit(c: Counts, next: nat, need: nat, s: nat, lap: bool)
    requires |c| == FRAMES && KBASE <= s <= next < LAST_PAGE && Cover(c, s, next).None?
    ensures Hunt(c, next, need, s, lap) == Found(Fit(c, s, next, need))
    decreases next - s
  {
    hide Fit, Hunt, NextUsed, NextFree, Cover;
    var f, fn := Frame(s), Frame(next);
    if f == fn {
      HuntSamePage(c, next, need, s, lap);
    } else {
      var k := NextUsed(c, f + 1, fn + 1);
      CoverStep(c, s, next, k);
      UsedBefore(c, f + 1, fn);
      FitStep(c, next, need, s, k);
      HuntStep(c, next, need, s, lap, k);
      HuntIsFit(c, next, need, Base(NextFree(c, k, fn)), lap);
    }
  }

  lemma HuntNotRoomy(c: Counts, next: nat, need: nat, s: nat, lap: bool, k: nat)
    requires |c| == FRAMES && KBASE <= next < LAST_PAGE && Base(-1) <= s < LAST_PAGE && !SamePage(s, next)
    requires !Roomy(c, s, need) && k == NextUsed(c, Frame(s) + 1, KFRAMES)
    ensures Hunt(c, next, need, s, lap) == Reset(c, next, need, s, k, lap)
  {
  }

  lemma HuntRoomy(c: Counts, next: nat, need: nat, s: nat, lap: bool)
    requires |c| == FRAMES && KBASE <= next < LAST_PAGE && Base(-1) <= s < LAST_PAGE && !SamePage(s, next)
    requires Roomy(c, s, need)
    ensures Hunt(c, next, need, s, lap) == At(s)
  {
  }

  /** Up to such a run at `t` the loop is the bounded search. */
  lemma {:induction false} HuntToCover(c: Counts, next: nat, need: nat, s: nat, lap: bool, t: nat)
    requires |c| == FRAMES && KBASE <= s <= next < LAST_PAGE && s <= t <= next && Cover(c, s, next) == Some(t)
    ensures var g := Fit(c, s, next, need); var r := Hunt(c, next, need, s, lap);
            if g.Some? && g.value < t then s <= g.value && g.value + need <= next && r == At(g.value)
            else g == Fit(c, t, next, need) && r == Hunt(c, next, need, t, lap)
    decreases next - s
  {
    hide Fit, Hunt, NextUsed, NextFree, Cover;
    var f, fn := Frame(s), Frame(next);
    assert f < fn by { CoverExact(c, s, next); }
    var k := NextUsed(c, f + 1, fn + 1);
    CoverStep(c, s, next, k);
    if k <= fn {
      UsedBefore(c, f + 1, fn);
      FitStep(c, next, need, s, k);
      HuntStep(c, next, need, s, lap, k);
      var s' := Base(NextFree(c, k, fn));
      assert s' <= t;
      HuntToCover(c, next, need, s', lap, t);
      assert Base(k) <= Base(fn) <= next;
    } else {
      FitNotBefore(c, next, need, s);
    }
  }

  lemma FitNotBefore(c: Counts, next: nat, need: nat, s: nat)
    requires |c| == FRAMES && KBASE <= s <= next < LAST_PAGE
    ensures var g := Fit(c, s, next, need); g.Some? ==> s <= g.value
  {
    FitIsLeast(c, s, next, need);
  }

  lemma FitAtCover(c: Counts, next: nat, need: nat, t: nat)
    requires |c| == FRAMES && KBASE <= t <= next < LAST_PAGE && Frame(t) < Frame(next)
    requires forall f :: Frame(t) < f <= Frame(next) ==> c[f] == 0
    ensures var b := Base(Frame(next));
            Fit(c, t, next, need) == if t + need <= b then Some(t) else if b + need <= next then Some(b) else None
  {
    hide Fit;
    var fn := Frame(next);
    assert NextUsed(c, Frame(t) + 1, fn) == fn && NextFree(c, fn, fn) == fn;
    FitStep(c, next, need, t, fn);
    HuntSamePage(c, next, need, Base(fn), false);
  }

  // ----- past `next`

  lemma LimitSame(c: Counts, f: int, g: int)
    requires |c| == FRAMES && -1 <= f < g < KFRAMES - 1 && forall x :: f < x <= g ==> c[x] == 0
    ensures Limit(c, g) == Limit(c, f)
  {
    var k := NextUsed(c, g + 1, KFRAMES);
    if k < KFRAMES { UsedFirst(c, f + 1, KFRAMES, k); }
  }

  /** A free page among lo..hi with a run of `need` bytes from its start. */
  ghost predicate RoomyPage(c: Counts, lo: int, hi: int, need: nat)
    requires |c| == FRAMES && 0 <= lo && hi < KFRAMES
  {
    exists m :: lo <= m < hi && c[m] == 0 && Roomy(c, Base(m), need)
  }

  /** Pages in use have no room. */
  lemma UsedSkipped(c: Counts, k: int, m: int, hi: int, need: nat)
    requires |c| == FRAMES && 0 <= k <= m && hi < KFRAMES && forall x :: k <= x < m && x < hi ==> c[x] > 0
    ensures RoomyPage(c, k, hi, need) <==> RoomyPage(c, m, hi, need)
  {
    hide Roomy;
  }

  /** A run from `s` that is too short, up to page `k`, has no page with more room. */
  lemma RunTooShort(c: Counts, s: nat, k: int, hi: int, need: nat)
    requires |c| == FRAMES && Base(-1) <= s < LAST_PAGE && Frame(s) < k && hi < KFRAMES && !Roomy(c, s, need)
    requires forall x :: Frame(s) < x < k && x < hi ==> c[x] == 0
    ensures RoomyPage(c, Frame(s) + 1, hi, need) <==> RoomyPage(c, k, hi, need)
  {
    forall m | Frame(s) < m < k && m < hi
      ensures !Roomy(c, Base(m), need)
    {
      LimitSame(c, Frame(s), m);
    }
    hide Roomy;
  }

  /** No free page from the last one of the kernel half up to the last but one of all. */
  predicate Full(c: Counts)
    requires |c| == FRAMES
  {
    forall g :: KFRAMES - 1 <= g < FRAMES - 1 ==> c[g] > 0
  }

  /** Where the search stands when it has come around. */
  function LapStart(c: Counts, next: nat): (s: int)
    requires |c| == FRAMES && KBASE <= next < LAST_PAGE
    ensures Base(-1) <= s <= next
  {
    if c[FRAMES - 1] == 0 then Base(-1) else Base(NextFree(c, 0, Frame(next)))
  }

  /** Past `next` the loop takes any page with room; without one it ends, or comes around the address space. */
  lemma {:induction false} Beyond(c: Counts, next: nat, need: nat, s: nat, k: nat, lap: bool)
    requires |c| == FRAMES && KBASE <= next < LAST_PAGE && Base(-1) <= s < LAST_PAGE
    requires Frame(s) < k <= KFRAMES && Frame(next) < k && (k < KFRAMES ==> c[k] > 0)
    ensures var r := Reset(c, next, need, s, k, lap);
            if RoomyPage(c, k, KFRAMES - 1, need) then r.At? && r.a > next
            else if k == KFRAMES || !Full(c) then r == Null
            else if lap then r == Never
            else r == Hunt(c, next, need, LapStart(c, next), true)
    decreases KFRAMES - k
  {
    hide Roomy, NextUsed, NextFree, Limit;
    if k < KFRAMES {
      var m := NextFree(c, k, FRAMES);
      UsedSkipped(c, k, m, KFRAMES - 1, need);
      if m < KFRAMES - 1 && !Roomy(c, Base(m), need) {
        var k' := NextUsed(c, m + 1, KFRAMES);
        RunTooShort(c, Base(m), k', KFRAMES - 1, need);
        assert RoomyPage(c, m, KFRAMES - 1, need) <==> RoomyPage(c, m + 1, KFRAMES - 1, need);
        assert k' == KFRAMES ==> c[KFRAMES - 1] == 0;
        Beyond(c, next, need, Base(m), k', lap);
      }
    }
  }

  /** The search come around, at the start of page `f`: it takes any page before `next` with room; without one it ends
      in the page of `next`, or passes it and repeats itself. */
  lemma {:induction false} LapHunt(c: Counts, next: nat, need: nat, f: int, k0: nat)
    requires |c| == FRAMES && KBASE <= next < LAST_PAGE && Full(c)
    requires var fn := Frame(next); -1 <= f <= fn && 1 <= fn && c[fn] == 0 && (f == -1 || f == fn || c[f] == 0)
    requires Base(Frame(next)) + need > next
    requires k0 == NextUsed(c, Frame(next), KFRAMES) && !RoomyPage(c, k0, KFRAMES - 1, need)
    ensures var r := Hunt(c, next, need, Base(f), true); var fn := Frame(next);
            if (f < fn && Roomy(c, Base(f), need)) || RoomyPage(c, f + 1, fn, need) then
              r.At? && r.a % PAGE == 0 && -1 <= Frame(r.a) < fn && Roomy(c, r.a, need) &&
                  (Frame(r.a) == -1 || c[Frame(r.a)] == 0)
            else r == if f < fn && c[fn - 1] == 0 then Never else Null
    decreases Frame(next) - f
  {
    hide Roomy, NextUsed, NextFree, Limit, RoomyPage, Hunt, Fit;
    var fn := Frame(next);
    assert Frame(Base(f)) == f && Base(f) % PAGE == 0;
    if f == fn {
      NoPageFrom(c, f + 1, fn, need);
      HuntSamePage(c, next, need, Base(f), true);
    } else if Roomy(c, Base(f), need) {
      HuntRoomy(c, next, need, Base(f), true);
    } else {
      var k := NextUsed(c, f + 1, KFRAMES);
      HuntNotRoomy(c, next, need, Base(f), true, k);
      RunTooShort(c, Base(f), k, fn, need);
      if k < fn {
        var g := NextFree(c, k, fn);
        UsedSkipped(c, k, g, fn, need);
        PageOrLater(c, g, fn, need);
        LapHunt(c, next, need, g, k0);
      } else {
        assert k < KFRAMES by { assert c[KFRAMES - 1] > 0; }
        UsedFirst(c, fn, KFRAMES, k);
        NoPageFrom(c, k, fn, need);
        Beyond(c, next, need, Base(f), k, true);
      }
    }
  }

  lemma NoPageFrom(c: Counts, lo: int, hi: int, need: nat)
    requires |c| == FRAMES && 0 <= lo && hi <= lo && hi < KFRAMES
    ensures !RoomyPage(c, lo, hi, need)
  {
  }

  lemma PageOrLater(c: Counts, lo: int, hi: int, need: nat)
    requires |c| == FRAMES && 0 <= lo <= hi < KFRAMES && (lo < hi ==> c[lo] == 0)
    ensures RoomyPage(c, lo, hi, need) <==> (lo < hi && Roomy(c, Base(lo), need)) || RoomyPage(c, lo + 1, hi, need)
  {
    hide Roomy;
  }

  /** A page with room that the search would come to after the run through the page of `next`. */
  ghost predicate Elsewhere(c: Counts, next: nat, need: nat)
    requires |c| == FRAMES && KBASE <= next < LAST_PAGE
  {
    || RoomyPage(c, Frame(next) + 1, KFRAMES - 1, need)
    || (Full(c) && ((c[FRAMES - 1] == 0 && Roomy(c, Base(-1), need)) || RoomyPage(c, 0, Frame(next), need)))
  }

  /** An answer given after coming around. */
  predicate Lapped(c: Counts, next: nat, need: nat, a: nat)
    requires |c| == FRAMES && KBASE <= next < LAST_PAGE
  {
    && Base(-1) <= a < Base(Frame(next)) && a % PAGE == 0
    && (Frame(a) == -1 || c[Frame(a)] == 0) && Roomy(c, a, need)
  }

  lemma AroundOnce(c: Counts, next: nat, need: nat, k0: nat)
    requires |c| == FRAMES && KBASE <= next < LAST_PAGE && Full(c) && 1 <= Frame(next) && c[Frame(next)] == 0
    requires Base(Frame(next)) + need > next
    requires k0 == NextUsed(c, Frame(next), KFRAMES) && !RoomyPage(c, k0, KFRAMES - 1, need)
    ensures var r := Hunt(c, next, need, LapStart(c, next), true); var fn := Frame(next);
            if (c[FRAMES - 1] == 0 && Roomy(c, Base(-1), need)) || RoomyPage(c, 0, fn, need) then
              r.At? && Lapped(c, next, need, r.a)
            else r == if c[fn - 1] == 0 then Never else Null
  {
    hide Roomy, NextUsed, NextFree, Limit, RoomyPage, Hunt, Full;
    var fn := Frame(next);
    if c[FRAMES - 1] == 0 {
      LapHunt(c, next, need, -1, k0);
    } else {
      var g := NextFree(c, 0, fn);
      UsedSkipped(c, 0, g, fn, need);
      PageOrLater(c, g, fn, need);
      LapHunt(c, next, need, g, k0);
    }
  }

  /** What the search does at the run through the page of `next` when `need` does not fit before `next`. */
  lemma AtCover(c: Counts, next: nat, need: nat, t: nat)
    requires |c| == FRAMES && KBASE <= t <= next < LAST_PAGE && Frame(t) < Frame(next)
    requires forall f :: Frame(t) < f <= Frame(next) ==> c[f] == 0
    requires Base(Frame(next)) + need > next && !Roomy(c, t, need)
    ensures var r := Hunt(c, next, need, t, false);
            if Elsewhere(c, next, need) then r.At? && (r.a > next || Lapped(c, next, need, r.a))
            else r == if Full(c) && c[Frame(next) - 1] == 0 then Never else Null
  {
    hide Roomy, NextUsed, NextFree, Limit, RoomyPage, Hunt, Reset;
    var fn := Frame(next);
    var k := NextUsed(c, Frame(t) + 1, KFRAMES);
    HuntNotRoomy(c, next, need, t, false, k);
    Beyond(c, next, need, t, k, false);
    RunTooShort(c, t, k, KFRAMES - 1, need);
    RunTooShort(c, t, fn + 1, KFRAMES - 1, need);
    assert k == KFRAMES ==> c[KFRAMES - 1] == 0;
    if k < KFRAMES && !RoomyPage(c, k, KFRAMES - 1, need) && Full(c) {
      UsedFirst(c, fn, KFRAMES, k);
      AroundOnce(c, next, need, k);
    }
  }

  lemma LappedFits(c: Counts, next: nat, need: nat, s: nat, t: nat, a: nat)
    requires |c| == FRAMES && KBASE <= s <= next < LAST_PAGE && Cover(c, s, next) == Some(t)
    requires Lapped(c, next, need, a) && s <= a && a + need <= next
    ensures Candidate(c, s, next, a) && (Room(c, a, next, need) || t + need <= next)
  {
    hide NextUsed, NextFree, Cover;
    var m, fn := Frame(a), Frame(next);
    assert Base(m) == a;
    var u := NextUsed(c, m + 1, fn);
    if u < fn {
      UsedFirst(c, m + 1, KFRAMES, u);
    } else if t != s {
      assert c[Frame(t) - 1] > 0;
    }
  }

  /** An answer given after coming around does not lie between `s` and `next`: the search would have taken it before. */
  lemma LappedOutside(c: Counts, next: nat, need: nat, s: nat, t: nat, a: nat)
    requires |c| == FRAMES && KBASE <= s <= next < LAST_PAGE && Cover(c, s, next) == Some(t) && t + need > next
    requires Fit(c, s, next, need).None? && Lapped(c, next, need, a)
    ensures !(s <= a && a + need <= next)
  {
    hide Fit, Cover, Lapped;
    if s <= a && a + need <= next {
      LappedFits(c, next, need, s, t, a);
      FitIsLeast(c, s, next, need);
    }
  }

  /** Whether an answer is a range between `s` and `next`, if it is one at all. */
  predicate InGap(r: Answer, s: nat, next: nat, need: nat) {
    r.At? ==> s <= r.a && r.a + need <= next
  }

  /** `need` bytes do not fit before `next`, and a run reaches through the page of `next`. */
  ghost predicate Strays(c: Counts, next: nat, need: nat, s: nat)
    requires |c| == FRAMES && KBASE <= s <= next < LAST_PAGE
  {
    var t := Cover(c, s, next);
    Fit(c, s, next, need).None? && t.Some? && t.value + need > next
  }

  lemma SearchStays(c: Counts, next: nat, need: nat, s: nat)
    requires |c| == FRAMES && KBASE <= s <= next < LAST_PAGE && !Strays(c, next, need, s)
    ensures var r := Hunt(c, next, need, s, false);
            r != Never && InGap(r, s, next, need) && (r.At? <==> Fit(c, s, next, need).Some? || Cover(c, s, next).Some?)
  {
    hide Hunt, Fit, NextUsed, NextFree;
    var t := Cover(c, s, next);
    FitIsLeast(c, s, next, need);
    if t.None? {
      HuntIsFit(c, next, need, s, false);
    } else {
      HuntToCover(c, next, need, s, false, t.value);
      FitAtCover(c, next, need, t.value);
      if t.value + need <= next { TakenAtCover(c, next, need, t.value); }
    }
  }

  lemma TakenAtCover(c: Counts, next: nat, need: nat, t: nat)
    requires |c| == FRAMES && KBASE <= t <= next < LAST_PAGE && Frame(t) < Frame(next) && t + need <= next
    requires forall f :: Frame(t) < f <= Frame(next) ==> c[f] == 0
    ensures Hunt(c, next, need, t, false) == At(t)
  {
    assert Limit(c, Frame(t)) > Frame(next);
  }

  lemma SearchStrays(c: Counts, next: nat, need: nat, s: nat)
    requires |c| == FRAMES && KBASE <= s <= next < LAST_PAGE && Strays(c, next, need, s)
    ensures var r := Hunt(c, next, need, s, false); var t := Cover(c, s, next).value;
            if Roomy(c, t, need) || Elsewhere(c, next, need) then r.At? && !InGap(r, s, next, need)
            else r == if Full(c) && c[Frame(next) - 1] == 0 then Never else Null
  {
    hide Hunt, Fit, NextUsed, NextFree, Roomy, Limit, Full, Elsewhere, Lapped, Cover;
    var t := Cover(c, s, next).value;
    HuntToCover(c, next, need, s, false, t);
    FitAtCover(c, next, need, t);
    if Roomy(c, t, need) {
      HuntRoomy(c, next, need, t, false);
    } else {
      AtCover(c, next, need, t);
      var r := Hunt(c, next, need, t, false);
      if r.At? && r.a <= next { LappedOutside(c, next, need, s, t, r.a); }
    }
  }

  /** For every request: the search answers with a range between `s` and `next`, or not at all, if and only if `need`
      bytes fit there, or no run reaches through the page of `next`, or nothing that it comes to then has room. */
  lemma OverrunExact(c: Counts, next: nat, need: nat, s: nat)
    requires |c| == FRAMES && KBASE <= s <= next < LAST_PAGE
    ensures var t := Cover(c, s, next);
            InGap(Hunt(c, next, need, s, false), s, next, need) <==>
            || Fit(c, s, next, need).Some?
            || t.None?
            || t.value + need <= next
            || !(Roomy(c, t.value, need) || Elsewhere(c, next, need))
  {
    hide Hunt, Fit, Cover, Roomy, Elsewhere, Full;
    if Strays(c, next, need, s) { SearchStrays(c, next, need, s); } else { SearchStays(c, next, need, s); }
  }

  /** The loop never ends if and only if the request strays, nothing has room, no page from the top of the kernel half
      up to the last but one is free, and the page before that of `next` is. */
  lemma NeverExact(c: Counts, next: nat, need: nat, s: nat)
    requires |c| == FRAMES && KBASE <= s <= next < LAST_PAGE
    ensures Hunt(c, next, need, s, false) == Never <==>
            && Strays(c, next, need, s)
            && !(Roomy(c, Cover(c, s, next).value, need) || Elsewhere(c, next, need))
            && Full(c) && c[Frame(next) - 1] == 0
  {
    hide Hunt, Fit, Cover, Roomy, Elsewhere, Full;
    CoverExact(c, s, next);
    if Strays(c, next, need, s) { SearchStrays(c, next, need, s); } else { SearchStays(c, next, need, s); }
  }

  /** With the page of `next` in use none of this can happen. */
  lemma HeldNext(c: Counts, next: nat, need: nat, s: nat)
    requires |c| == FRAMES && KBASE <= s <= next < LAST_PAGE && c[Frame(next)] > 0
    ensures Hunt(c, next, need, s, false) == Found(Fit(c, s, next, need))
  {
    hide Hunt, Fit, Cover;
    CoverExact(c, s, next);
    HuntIsFit(c, next, need, s, false);
  }

  /** search_interspace for the gap between a block that ends at `bend` and `next`. */
  function Answered(c: Counts, bend: nat, next: nat, align: nat, need: nat): Answer
    requires |c| == FRAMES && KBASE <= bend <= next && next < LAST_PAGE && align < TOP
  {
    var s := FirstHeader(bend, align);
    if next < s then Null else Hunt(c, next, need, s, false)
  }

  lemma AnsweredHeld(c: Counts, bend: nat, next: nat, align: nat, need: nat)
    requires |c| == FRAMES && KBASE <= bend <= next && next < LAST_PAGE && align < TOP && c[Frame(next)] > 0
    ensures Answered(c, bend, next, align, need) == Found(Search(c, bend, next, align, need))
  {
    hide Hunt, Fit, FirstHeader;
    var s := FirstHeader(bend, align);
    if s <= next { HeldNext(c, next, need, s); }
  }

  // ----- the loop step by step

  /** Index of the counter that page_users(phy_addr(a)) reads. */
  function Index(a: nat): (i: nat)
    requires a < TOP
    ensures i < FRAMES
  {
    Wrap(a - KBASE) / PAGE
  }

  /** The address of the page whose counter has index `m`. */
  function Addr(m: nat): (a: nat)
    requires m < FRAMES
    ensures a < TOP && a % PAGE == 0 && Index(a) == m
  {
    if m < KFRAMES then Base(m) else Base(m) - TOP
  }

  /** Where the inner loop of the search stops that skips pages in use from page `k` on. */
  function Landing(c: Counts, k: nat, fn: nat): (m: nat)
    requires |c| == FRAMES && k < FRAMES && fn < FRAMES
    ensures m < FRAMES
  {
    if k <= fn then NextFree(c, k, fn)
    else if NextFree(c, k, FRAMES) < FRAMES then NextFree(c, k, FRAMES)
    else NextFree(c, 0, fn)
  }

  /** The search at header `s` with `k` the page boundary tried next as its end. */
  ghost predicate Scanning(c: Counts, next: nat, need: nat, s: nat, k: int) {
    && |c| == FRAMES && KBASE <= next < LAST_PAGE && Base(-1) <= s < LAST_PAGE
    && if SamePage(s, next) then s <= next
       else Frame(s) < k <= NextUsed(c, Frame(s) + 1, KFRAMES) && (k > Frame(s) + 1 ==> Base(k - 1) - s < need)
  }

  /** The value of `eaddr` there. */
  function EndOf(next: nat, s: nat, k: int): int {
    if SamePage(s, next) then next else if k == KFRAMES then 0 else Base(k)
  }

  /** What the three exits of the loop answer. */
  lemma ScanAnswer(c: Counts, next: nat, need: nat, s: nat, k: int, lap: bool)
    requires Scanning(c, next, need, s, k)
    ensures var e, r := EndOf(next, s, k), Hunt(c, next, need, s, lap);
            && (e < s ==> r == Null)
            && (e >= s && e - s >= need ==> r == At(s))
            && (e >= s && e - s < need && SamePage(s, next) ==> r == Null)
            && (e >= s && !SamePage(s, next) ==> 0 <= k < KFRAMES && e == Base(k))
  {
    hide NextUsed, NextFree;
  }

  /** A free page extends the run; a page in use ends it. */
  lemma ScanExtend(c: Counts, next: nat, need: nat, s: nat, k: nat, lap: bool)
    requires Scanning(c, next, need, s, k) && !SamePage(s, next) && k < KFRAMES && Base(k) - s < need
    ensures Index(Base(k)) == k
    ensures c[k] == 0 ==> Scanning(c, next, need, s, k + 1) && EndOf(next, s, k + 1) == Wrap(Base(k) + PAGE)
    ensures c[k] > 0 ==> Frame(s) < k && Hunt(c, next, need, s, lap) == Reset(c, next, need, s, k, lap)
  {
    hide NextFree, Reset;
    if c[k] > 0 { HuntNotRoomy(c, next, need, s, lap, k); }
  }

  /** Whether skipping from page `k` goes around the address space. */
  predicate Around(c: Counts, k: nat, fn: nat)
    requires |c| == FRAMES && k < FRAMES
  {
    k > fn && NextFree(c, k, FRAMES) >= FRAMES - 1
  }

  /** The search after the skip: it gives up below the kernel half, or goes on at the page found. */
  lemma ScanReset(c: Counts, next: nat, need: nat, s: nat, k: nat, lap: bool)
    requires |c| == FRAMES && KBASE <= next < LAST_PAGE && Base(-1) <= s < LAST_PAGE
    requires Frame(s) < k < KFRAMES && c[k] > 0 && Reset(c, next, need, s, k, lap) != Never
    ensures var fn := Frame(next); var s' := Addr(Landing(c, k, fn)); var r := Reset(c, next, need, s, k, lap);
            var e := if SamePage(s', next) then next else Wrap(s' + PAGE);
            if e < KBASE then r == Null
            else
              && (Around(c, k, fn) ==> !lap)
              && Base(-1) <= s' < LAST_PAGE && Scanning(c, next, need, s', Frame(s') + 1) &&
                  e == EndOf(next, s', Frame(s') + 1)
              && (Around(c, k, fn) || Frame(s) < Frame(s'))
              && r == Hunt(c, next, need, s', lap || Around(c, k, fn))
  {
    hide Hunt, NextUsed;
    var fn := Frame(next);
    var m := Landing(c, k, fn);
    assert m < KFRAMES ==> Frame(Addr(m)) == m;
    assert m == FRAMES - 1 ==> Addr(m) == Base(-1) && Frame(Addr(m)) == -1;
  }
}
