/**
  The rights of user pages over whole runs: where a process may write, and whether it may do so from user mode.
 */
module SpaceRights {
  import opened Wrappers
  import opened Frames
  import opened HeapSpec
  import opened HeapRuns
  import opened Paging
  import opened AddressSpaces
  import opened SpaceLifetime
  import opened SpaceRuns

  // ----- what an access writes

  /** `m'` is `m` with entry `j` of the table at slot `i` of `d` written for a task of the given kind, and with that
      table entered first where the slot was empty. */
  ghost predicate Wrote(m: Machine, d: nat, i: nat, j: nat, user: bool, m': Machine)
    requires Shape(m) && Shape(m') && d in m.dirs && m'.dirs.Keys == m.dirs.Keys
  {
    && i < USER && j < ENTRIES && Slot(m', d, i) && m'.dirs == m.dirs[d := m.dirs[d][i := m'.dirs[d][i]]]
    && var t := m'.dirs[d][i].index;
       && (if m.dirs[d][i].present then m'.dirs[d][i] == m.dirs[d][i] && t in m.tables
           else m'.dirs[d][i].rw && m'.dirs[d][i].us == user && t !in m.tables)
       && t in m'.tables && m'.tables == m.tables[t := m'.tables[t]]
       && m'.tables[t][j].rw && m'.tables[t][j].us == user
       && forall j' :: 0 <= j' < ENTRIES && j' != j && m'.tables[t][j'].present ==>
            t in m.tables && m'.tables[t][j'] == m.tables[t][j']
  }

  lemma WroteInTable(m: Machine, st: State, d: nat, i: nat, j: nat, page: nat, user: bool)
    requires Shape(m) && Slot(m, d, i) && m.dirs[d][i].index in m.tables && j < ENTRIES
    ensures var m' := SetLeaf(m.(st := st), m.dirs[d][i].index, j, page, user);
            Shape(m') && m'.dirs.Keys == m.dirs.Keys && m'.kin == m.kin && Wrote(m, d, i, j, user, m')
  {
    assert m.dirs[d][i := m.dirs[d][i]] == m.dirs[d];
  }

  lemma WroteNewTable(m: Machine, st: State, d: nat, i: nat, j: nat, page: nat, t: nat, user: bool)
    requires Shape(m) && d in m.dirs && i < USER && !Slot(m, d, i) && j < ENTRIES && t !in m.tables
    ensures var m' := SetLeaf(AddTable(m.(st := st), d, i, t, user), t, j, page, user);
            Shape(m') && m'.dirs.Keys == m.dirs.Keys && m'.kin == m.kin && Wrote(m, d, i, j, user, m')
  {
    var m' := SetLeaf(AddTable(m.(st := st), d, i, t, user), t, j, page, user);
    assert m'.tables == m.tables[t := m'.tables[t]];
  }

  lemma AccessWrites(m: Machine, master: Table, d: nat, cr2: nat, user: bool)
    requires PInv(m, master) && d in m.dirs
    ensures var m' := Access(m, master, d, cr2, user);
            && Shape(m') && m'.kin == m.kin && m'.born == m.born && m'.dirs.Keys == m.dirs.Keys
            && ((m'.dirs == m.dirs && m'.tables == m.tables) || Wrote(m, d, cr2 / SLOT, cr2 / PAGE % ENTRIES, user, m'))
  {
    hide WellFormed, Exclusive, Counted, Leaves, HeldFrames, KernelHalf, Slots, AllocPage, FreePage, Wrote, Translate;
    if PAGE <= cr2 < KBASE && Translate(m, d, cr2).None? && MapPage(m, master, d, cr2, user).1 {
      var i, j := cr2 / SLOT, cr2 / PAGE % ENTRIES;
      var page := NextFree(m.st.users, 0, FRAMES);
      var st1 := AllocPage(m.st);
      if Slot(m, d, i) {
        SlotTable(m, master, d, i);
        WroteInTable(m, st1, d, i, j, page, user);
      } else {
        var t := NextFree(st1.users, 0, FRAMES);
        TwoFresh(m, master, page, t);
        WroteNewTable(m, AllocPage(st1), d, i, j, page, t, user);
      }
    } else {
      MapFailed(m, master, d, cr2, user);
    }
  }

  lemma MapFailed(m: Machine, master: Table, d: nat, cr2: nat, user: bool)
    requires PInv(m, master) && d in m.dirs
    ensures PAGE <= cr2 < KBASE && !MapPage(m, master, d, cr2, user).1 ==> Access(m, master, d, cr2, user) == m
  {
    hide PInv, MapPage, Translate;
    if PAGE <= cr2 < KBASE {
      MapPageKeeps(m, master, d, cr2, user);
    }
  }

  // ----- one event

  /** What a creation or a clone leaves alone, and the directory it adds. */
  lemma SpaceAdded(m: Machine, master: Table, e: Event)
    requires MInv(m, master) && Possible(m, master, e) && (e.Created? || e.Cloned?)
    ensures var m' := After(m, master, e);
            && m'.tables == m.tables
            && (forall d :: d in m.dirs ==> d in m'.dirs && m'.dirs[d] == m.dirs[d] && m'.kin[d] == m.kin[d])
            && (forall d :: d in m'.dirs && d !in m.dirs ==>
                  match e
                  case Created => m'.kin[d] == m.born && forall i :: 0 <= i < USER ==> !m'.dirs[d][i].present
                  case Cloned(p) => m'.kin[d] == m.kin[p] && m'.dirs[d] == CloneDir(m.dirs[p]))
            && m'.born == if e.Created? && m' != m then m.born + 1 else m.born
  {
    hide WellFormed, Counted, Exclusive, Pick, Alloc, CloneDir, Raise, OwnTables, KernelHalf, Slots, Leaves,
         HeldFrames;
    match Pick(m.st.blocks, m.st.users, PAGE, PAGE)
    case None =>
    case Some((i, a)) => AllocDirBlocks(m, i, a);
  }

  /** A slot of a space keeps its entry until the space is freed; a new one is writable. */
  lemma SlotStep(m: Machine, master: Table, e: Event, d: nat, i: nat)
    requires MInv(m, master) && Possible(m, master, e) && MInv(After(m, master, e), master)
    requires d in m.dirs && !(e.Freed? && e.d == d) && i < USER
    ensures var m' := After(m, master, e);
            && d in m'.dirs && m'.kin[d] == m.kin[d]
            && (m.dirs[d][i].present ==> m'.dirs[d][i] == m.dirs[d][i])
            && (!m.dirs[d][i].present && m'.dirs[d][i].present ==> m'.dirs[d][i].rw)
  {
    hide Sound, KernelHalf, Slots, Leaves, HeldFrames, Create, Clone, Access, Unshared, OwnTables, Own, Free, Lower;
    match e
    case Created => SpaceAdded(m, master, e);
    case Cloned(_) => SpaceAdded(m, master, e);
    case Accessed(p, cr2, user) => AccessWrites(m, master, p, cr2, user);
    case _ =>
  }

  ghost predicate LeavesWritable(m: Machine, master: Table)
    requires Shape(m) && |master| == ENTRIES
  {
    forall t, j :: Leaf(m, master, t, j) ==> m.tables[t][j].rw
  }

  lemma LeafStep(m: Machine, master: Table, e: Event)
    requires MInv(m, master) && Possible(m, master, e) && MInv(After(m, master, e), master) && LeavesWritable(m, master)
    ensures LeavesWritable(After(m, master, e), master)
  {
    hide Sound, KernelHalf, Slots, Leaves, HeldFrames, Create, Clone, Access, Unshared, OwnTables, Own, Free, Lower;
    var m' := After(m, master, e);
    match e
    case Created => SpaceAdded(m, master, e);
    case Cloned(_) => SpaceAdded(m, master, e);
    case Accessed(p, cr2, user) => AccessWrites(m, master, p, cr2, user);
    case Freed(d, k) => assert forall t, j :: Leaf(m', master, t, j) ==> Leaf(m, master, t, j);
    case _ => assert forall t, j :: Leaf(m', master, t, j) ==> Leaf(m, master, t, j);
  }

  /** Every user entry a family of spaces reaches, of directories and tables, is for tasks of one kind. */
  ghost predicate Typed(m: Machine, family: nat, user: bool)
    requires Shape(m)
  {
    forall d, i :: Slot(m, d, i) && m.kin[d] == family ==>
      m.dirs[d][i].us == user && TypedTable(m, m.dirs[d][i].index, user)
  }

  ghost predicate TypedTable(m: Machine, t: nat, user: bool)
    requires Shape(m)
  {
    t in m.tables ==> forall j :: 0 <= j < ENTRIES && m.tables[t][j].present ==> m.tables[t][j].us == user
  }

  /** Accesses of the family come from tasks of this kind. */
  ghost predicate OfKind(m: Machine, e: Event, family: nat, user: bool) {
    e.Accessed? && e.d in m.kin && m.kin[e.d] == family ==> e.user == user
  }

  lemma TypedAccess(m: Machine, master: Table, d: nat, cr2: nat, u: bool, family: nat, user: bool)
    requires PInv(m, master) && d in m.dirs && PInv(Access(m, master, d, cr2, u), master)
    requires Typed(m, family, user) && (m.kin[d] == family ==> u == user)
    ensures Typed(Access(m, master, d, cr2, u), family, user)
  {
    hide Sound, KernelHalf, Leaves, HeldFrames, Access;
    AccessWrites(m, master, d, cr2, u);
    var m' := Access(m, master, d, cr2, u);
    forall e, i | Slot(m', e, i) && m'.kin[e] == family
      ensures m'.dirs[e][i].us == user && TypedTable(m', m'.dirs[e][i].index, user)
    {
      assert Slot(m, e, i) || (e == d && i == cr2 / SLOT);
    }
  }

  lemma TypedAdded(m: Machine, master: Table, e: Event, family: nat, user: bool)
    requires MInv(m, master) && Possible(m, master, e) && (e.Created? || e.Cloned?) && Shape(After(m, master, e))
    requires Typed(m, family, user) && family < m.born
    ensures Typed(After(m, master, e), family, user) && family < After(m, master, e).born
  {
    hide Sound, KernelHalf, Leaves, Slots, HeldFrames, Create, Clone;
    SpaceAdded(m, master, e);
    var m' := After(m, master, e);
    assert e.Cloned? ==> forall d, i :: Slot(m', d, i) && d !in m.dirs ==> Slot(m, e.d, i);
  }

  lemma TypedStep(m: Machine, master: Table, e: Event, family: nat, user: bool)
    requires MInv(m, master) && Possible(m, master, e) && MInv(After(m, master, e), master)
    requires Typed(m, family, user) && family < m.born && OfKind(m, e, family, user)
    ensures Typed(After(m, master, e), family, user) && family < After(m, master, e).born
  {
    hide Sound, KernelHalf, Leaves, Slots, HeldFrames, Create, Clone, Access, Unshared, OwnTables, Own, Free, Lower;
    var m' := After(m, master, e);
    match e
    case Created => TypedAdded(m, master, e, family, user);
    case Cloned(_) => TypedAdded(m, master, e, family, user);
    case Accessed(p, cr2, u) =>
      AccessWrites(m, master, p, cr2, u);
      TypedAccess(m, master, p, cr2, u, family, user);
    case Freed(d, k) => assert forall d', i :: Slot(m', d', i) ==> Slot(m, d', i);
    case _ => assert forall d', i :: Slot(m', d', i) ==> Slot(m, d', i);
  }

  // ----- runs

  /** A run from a machine whose tables are all the kernel's, as BootMachine is, of events that pass their tests. */
  ghost predicate FromBoot(ms: seq<Machine>, master: Table, es: seq<Event>) {
    && IsMachineRun(ms, master, es) && MInv(ms[0], master)
    && (forall t :: t in ms[0].tables ==> KernelTable(master, t))
    && (forall i :: 0 <= i < |es| && MInv(ms[i], master) ==> Safe(ms[i], master, es[i]))
  }

  /** Space `d` is not freed by the events from `k` up to `n`. */
  ghost predicate Kept(es: seq<Event>, d: nat, k: nat, n: nat)
    requires n <= |es|
  {
    forall i :: k <= i < n ==> !(es[i].Freed? && es[i].d == d)
  }

  lemma NextOf(ms: seq<Machine>, master: Table, es: seq<Event>, n: nat)
    requires FromBoot(ms, master, es) && n < |ms| - 1
    ensures n < |es| && MInv(ms[n], master) && MInv(ms[n + 1], master)
    ensures Possible(ms[n], master, es[n]) && ms[n + 1] == After(ms[n], master, es[n])
  {
    hide MInv, Possible, After, Safe, Translate;
    RunTables(ms, master, es, n);
    RunTables(ms, master, es, n + 1);
    assert NextMachine(ms[n], master, es[n], ms[n + 1]);
  }

  lemma {:induction false} RunWritable(ms: seq<Machine>, master: Table, es: seq<Event>, n: nat)
    requires FromBoot(ms, master, es) && n < |ms|
    ensures MInv(ms[n], master) && LeavesWritable(ms[n], master)
  {
    hide Sound, KernelHalf, Slots, Leaves, HeldFrames, Possible, After, Safe, IsMachineRun;
    if n > 0 {
      RunWritable(ms, master, es, n - 1);
      NextOf(ms, master, es, n - 1);
      LeafStep(ms[n - 1], master, es[n - 1]);
    }
  }

  lemma {:induction false} RunSlot(ms: seq<Machine>, master: Table, es: seq<Event>, k: nat, n: nat, d: nat, i: nat)
    requires FromBoot(ms, master, es) && k <= n < |ms| && Kept(es, d, k, n) && i < USER
    requires MInv(ms[k], master) && d in ms[k].dirs
    ensures MInv(ms[n], master) && d in ms[n].dirs && ms[n].kin[d] == ms[k].kin[d]
    ensures ms[k].dirs[d][i].present ==> ms[n].dirs[d][i] == ms[k].dirs[d][i]
    ensures !ms[k].dirs[d][i].present && ms[n].dirs[d][i].present ==> ms[n].dirs[d][i].rw
    decreases n
  {
    hide Sound, KernelHalf, Slots, Leaves, HeldFrames, Possible, After, Safe, FromBoot;
    if k < n {
      RunSlot(ms, master, es, k, n - 1, d, i);
      NextOf(ms, master, es, n - 1);
      SlotStep(ms[n - 1], master, es[n - 1], d, i);
    }
  }

  /** While a space lives, a page it maps is writable if and only if its slot was empty at the start or writable then.
      */
  lemma WritableOver(ms: seq<Machine>, master: Table, es: seq<Event>, k: nat, n: nat, d: nat, v: nat)
    requires FromBoot(ms, master, es) && k <= n < |ms| && Kept(es, d, k, n) && v < KBASE
    requires MInv(ms[k], master) && d in ms[k].dirs
    ensures MInv(ms[n], master) && d in ms[n].dirs && ms[n].kin[d] == ms[k].kin[d]
    ensures var de := ms[k].dirs[d][v / SLOT];
            match Translate(ms[n], d, v) case None => true case Some(page) => page.rw <==> !de.present || de.rw
  {
    hide Sound, KernelHalf, Leaves, HeldFrames, FromBoot;
    RunSlot(ms, master, es, k, n, d, v / SLOT);
    RunWritable(ms, master, es, n);
    if Translate(ms[n], d, v).Some? {
      assert Slot(ms[n], d, v / SLOT);
      assert Leaf(ms[n], master, ms[n].dirs[d][v / SLOT].index, v / PAGE % ENTRIES);
    }
  }

  lemma {:induction false} RunTyped(ms: seq<Machine>, master: Table, es: seq<Event>, k: nat, n: nat, family: nat,
          user: bool)
    requires FromBoot(ms, master, es) && k <= n < |ms|
    requires MInv(ms[k], master) && Typed(ms[k], family, user) && family < ms[k].born
    requires forall i :: k <= i < n ==> OfKind(ms[i], es[i], family, user)
    ensures MInv(ms[n], master) && Typed(ms[n], family, user) && family < ms[n].born
    decreases n
  {
    hide PInv, Typed, Possible, After, Safe, FromBoot, OfKind;
    if k < n {
      RunTyped(ms, master, es, k, n - 1, family, user);
      NextOf(ms, master, es, n - 1);
      InvOf(ms[n - 1], master);
      InvOf(ms[n], master);
      TypedStep(ms[n - 1], master, es[n - 1], family, user);
    }
  }

  /** In every run, every page that a space made by alloc_page_table maps below the kernel is writable, for as long as
      the space lives, whatever clones are made of it; and if the tasks that fault in it and in its clones are of one
      kind, it is for user mode exactly when they are user tasks. */
  lemma CreatedRights(ms: seq<Machine>, master: Table, es: seq<Event>, k: nat, n: nat, d: nat, v: nat, user: bool)
    requires FromBoot(ms, master, es) && k < n < |ms| && es[k] == Created && Kept(es, d, k + 1, n) && v < KBASE
    requires d !in ms[k].dirs && d in ms[k + 1].dirs
    requires forall i :: k < i < n ==> OfKind(ms[i], es[i], ms[k].born, user)
    ensures Shape(ms[n]) && d in ms[n].dirs
    ensures match Translate(ms[n], d, v) case None => true case Some(page) => page.rw && page.us == user
  {
    hide Sound, KernelHalf, Leaves, HeldFrames, FromBoot, Create, OfKind, Possible;
    NextOf(ms, master, es, k);
    SpaceAdded(ms[k], master, Created);
    WritableOver(ms, master, es, k + 1, n, d, v);
    assert Typed(ms[k + 1], ms[k].born, user);
    RunTyped(ms, master, es, k + 1, n, ms[k].born, user);
    if Translate(ms[n], d, v).Some? {
      assert Slot(ms[n], d, v / SLOT);
    }
  }

  /** In a clone, exactly the pages of those slots are writable that were empty in its parent when it was made. */
  lemma ClonedRights(ms: seq<Machine>, master: Table, es: seq<Event>, k: nat, n: nat, p: nat, d: nat, v: nat)
    requires FromBoot(ms, master, es) && k < n < |ms| && es[k] == Cloned(p) && Kept(es, d, k + 1, n) && v < KBASE
    requires d !in ms[k].dirs && d in ms[k + 1].dirs
    ensures Shape(ms[k]) && p in ms[k].dirs && Shape(ms[n]) && d in ms[n].dirs
    ensures match Translate(ms[n], d, v)
            case None => true
            case Some(page) => page.rw <==> !ms[k].dirs[p][v / SLOT].present
  {
    hide Sound, KernelHalf, Leaves, HeldFrames, FromBoot, Clone, Slots, Translate;
    NextOf(ms, master, es, k);
    SpaceAdded(ms[k], master, es[k]);
    WritableOver(ms, master, es, k + 1, n, d, v);
  }
}
