/** Whole runs: any interleaving of loads, stores, forks, verify_area and exits behaves as if
    every task had a memory of its own. */
module PagingRuns {
  import opened PageWord
  import opened PagingState
  import opened PagingSteps
  import opened PagingTables
  import opened PagingTasks
  import opened PagingProcess

  const SLICE := 0x100_0000    // words in the 64 MB slice of a task
  const IMAGE := 160 * WORDS   // words of task 0 that copy_page_tables hands to its children

  /** Words of private memory: whole slices from task 1 up, the boot image for task 0. */
  predicate Cell(n: int, a: int) {
    (n == 0 && 0 <= a < IMAGE) || (1 <= n < NR_TASKS && 0 <= a < SLICE)
  }

  // Where word a of task n's segment lies: directory entry, table entry, word in the page.
  function DirOf(n: int, a: int): int { 16 * n + a / 0x10_0000 }
  function TabOf(a: int): int { a / WORDS % WORDS }
  function OffOf(a: int): int { a % WORDS }

  /** The split of a linear address loses nothing and stays inside the slice. */
  lemma AddressSplit(n: int, a: int)
    requires Cell(n, a)
    ensures Addr(DirOf(n, a), TabOf(a), OffOf(a)) && InSlice(n, DirOf(n, a)) && DirOf(n, a) / 16 == n
    ensures a == (DirOf(n, a) - 16 * n) * 0x10_0000 + TabOf(a) * WORDS + OffOf(a)
  {
    var q := a / WORDS;
    assert a / 0x10_0000 == q / WORDS;
    assert q == q / WORDS * WORDS + q % WORDS;
  }

  lemma AddressUnique(n: int, a: int, m: int, b: int)
    requires Cell(n, a) && Cell(m, b)
    requires DirOf(n, a) == DirOf(m, b) && TabOf(a) == TabOf(b) && OffOf(a) == OffOf(b)
    ensures n == m && a == b
  {
    AddressSplit(n, a);
    AddressSplit(m, b);
  }

  /** What task n reads at word a. */
  ghost function View(s: Mem, n: int, a: int): Word
    requires Shape(s) && Cell(n, a)
  {
    AddressSplit(n, a);
    ViewAt(s, DirOf(n, a), TabOf(a), OffOf(a))
  }

  // ---------------------------------------------------------------- events

  /** What tasks do. A store or load may fault first. Fork names the slot that find_empty_process chose; Release is
      what the release of an exited task does to memory: its slot and the page of its structure become free. */
  datatype Event =
    | Load(n: int, a: int)
    | Store(n: int, a: int, v: Word)
    | Fork(cur: int, nr: int, pcb: Page)
    | Verify(n: int, addr: int, size: int)
    | Exit(n: int)
    | Release(n: int)

  /** ok is false for a fork that returned -1. Stopped: the kernel halted. */
  datatype Outcome = Running(s: Mem, ok: bool) | Stopped

  predicate Live(s: Mem, n: int)
    requires |s.slot| == NR_TASKS
  {
    1 <= n < NR_TASKS && s.slot[n] != 0
  }

  /** The word lies below the segment limit, which the hardware enforces. */
  predicate WithinLimit(s: Mem, n: int, a: int)
    requires |s.limit| == NR_TASKS && 0 <= n < NR_TASKS
  {
    0 <= a && a * 4 < s.limit[n]
  }

  /** Which events the machine can produce in state s. */
  ghost predicate Enabled(s: Mem, e: Event)
    requires Shape(s)
  {
    match e
    case Load(n, a) => Live(s, n) && WithinLimit(s, n, a)
    case Store(n, a, v) => Live(s, n) && WithinLimit(s, n, a)
    case Fork(cur, nr, pcb) => (cur == 0 || Live(s, cur)) && 1 <= nr < NR_TASKS && s.slot[nr] == 0
    case Verify(n, addr, size) =>
      (n == 0 || Live(s, n)) && 0 <= addr < 0x1_0000_0000 && 0 <= size < 0x1_0000_0000
    case Exit(n) => Live(s, n)
    case Release(n) => Live(s, n) && forall d :: 16 * n <= d < 16 * n + 16 ==> !s.dir[d].p
  }

  /** The page fault a write at (d, t) raises, by the error code (mm/page.s): missing or protected page. */
  ghost function WriteFault(s: Mem, d: int, t: int): Option<Mem>
    requires Inv(s, {}) && 16 <= d < WORDS && 0 <= t < WORDS
  {
    if Entry(s, d, t).p then WriteVerify(s, d, t) else NoPage(s, d, t)
  }

  lemma WriteFaultStep(s: Mem, d: int, t: int)
    requires Inv(s, {}) && 16 <= d < WORDS && 0 <= t < WORDS
    requires s.slot[d / 16] != 0 && d % 16 < Dirs(s.limit[d / 16])
    ensures WriteFault(s, d, t).Some? ==>
      var s' := WriteFault(s, d, t).value;
      && Inv(s', {}) && SameViews(s, s') && CanWrite(s', Pte(d, t)) && s'.slot == s.slot && s'.limit == s.limit
      && Entry(s', d, t).frame < FRAMES
  {
    if Entry(s, d, t).p {
      WriteVerifyStep(s, d, t);
    } else {
      NoPageStep(s, d, t);
    }
    if WriteFault(s, d, t).Some? {
      EntryInRange(WriteFault(s, d, t).value, {}, d, t);
    }
  }

  lemma LimitCovers(s: Mem, n: int, a: int)
    requires Shape(s) && 1 <= n < NR_TASKS && WithinLimit(s, n, a)
    ensures Cell(n, a) && DirOf(n, a) / 16 == n && DirOf(n, a) % 16 < Dirs(s.limit[n])
  {
    AddressSplit(n, a);
    assert s.limit[n] > a / 0x10_0000 * 0x40_0000;
  }

  ghost function Access(s: Mem, n: int, a: int, write: bool): Option<Mem>
    requires Inv(s, {}) && Live(s, n) && WithinLimit(s, n, a)
  {
    LimitCovers(s, n, a);
    AddressSplit(n, a);
    var d, t := DirOf(n, a), TabOf(a);
    if write then WriteFault(s, d, t)
    else if Entry(s, d, t).p then Some(s) else NoPage(s, d, t)
  }

  ghost function Step(s: Mem, e: Event): Outcome
    requires Inv(s, {}) && Enabled(s, e)
  {
    match e
    case Load(n, a) =>
      (match Access(s, n, a, false)
       case None => Stopped
       case Some(s1) => Running(s1, true))
    case Store(n, a, v) =>
      LimitCovers(s, n, a);
      AddressSplit(n, a);
      WriteFaultStep(s, DirOf(n, a), TabOf(a));
      (match Access(s, n, a, true)
       case None => Stopped
       case Some(s1) => Running(StoreWord(s1, DirOf(n, a), TabOf(a), OffOf(a), v), true))
    case Fork(cur, nr, pcb) =>
      (match CopyProcess(s, cur, nr, pcb)
       case Forked(s1) => Running(s1, true)
       case Refused(s1) => Running(s1, false)
       case Halted => Stopped)
    case Verify(n, addr, size) =>
      (match VerifyArea(s, n, addr, size)
       case None => Stopped
       case Some(s1) => Running(s1, true))
    case Exit(n) =>
      (match FreeTables(s, 16 * n, Dirs(s.limit[n]))
       case None => Stopped
       case Some(s1) => Running(s1, true))
    case Release(n) =>
      if FreePanics(s, s.slot[n]) then Stopped else Running(DropSlot(s, n), true)
  }

  // ---------------------------------------------------------------- private memories

  /** One memory per task: the specification. */
  type Memories = (int, int) -> Word

  /** A store changes one word of one task, a fork copies the parent's memory, an exit clears the
      task's memory, and nothing else happens. */
  function SpecStep(m: Memories, e: Event, ok: bool): Memories {
    match e
    case Load(n, a) => m
    case Store(n, a, v) => (k: int, b: int) => if k == n && b == a then v else m(k, b)
    case Fork(cur, nr, pcb) =>
      if !ok then m
      else (k: int, b: int) => if k != nr then m(k, b) else if cur == 0 && b >= IMAGE then ZERO else m(cur, b)
    case Verify(n, addr, size) => m
    case Exit(n) => (k: int, b: int) => if k == n then ZERO else m(k, b)
    case Release(n) => m
  }

  ghost predicate Agrees(s: Mem, m: Memories)
    requires Shape(s)
  {
    forall n, a :: Cell(n, a) ==> View(s, n, a) == m(n, a)
  }

  lemma SameViewsAgree(s: Mem, s': Mem, m: Memories)
    requires Shape(s) && Shape(s') && SameViews(s, s') && Agrees(s, m)
    ensures Agrees(s', m)
  {
    forall n, a | Cell(n, a) ensures View(s', n, a) == m(n, a) {
      AddressSplit(n, a);
      assert View(s, n, a) == m(n, a);
    }
  }

  /** Fewer than two frames are free. */
  predicate Exhausted(s: Mem)
    requires |s.memMap| == PAGING_PAGES && |s.phys| == FRAMES
  {
    GetFree(s).0 == 0 || GetFree(GetFree(s).1).0 == 0
  }

  lemma AccessStep(s: Mem, m: Memories, n: int, a: int, write: bool)
    requires Inv(s, {}) && Live(s, n) && WithinLimit(s, n, a) && Agrees(s, m)
    ensures match Access(s, n, a, write)
      case None => Exhausted(s)
      case Some(s') =>
        && Inv(s', {}) && Agrees(s', m) && Cell(n, a) && Addr(DirOf(n, a), TabOf(a), OffOf(a)) && DirOf(n, a) >= 16
        && s'.slot == s.slot && s'.limit == s.limit
        && Entry(s', DirOf(n, a), TabOf(a)).p && (write ==> CanWrite(s', Pte(DirOf(n, a), TabOf(a))))
  {
    LimitCovers(s, n, a);
    AddressSplit(n, a);
    var d, t := DirOf(n, a), TabOf(a);
    if Entry(s, d, t).p {
      WriteVerifyStep(s, d, t);
      EntryInRange(s, {}, d, t);
      UnWpStep(s, {}, d, t);
    } else {
      NoPageStep(s, d, t);
    }
    var r := Access(s, n, a, write);
    hide Accounted, InRange, Exclusive, WriteOwned, OncePerSlice, HandFree, Boot, Slices, Entry, ViewAt, Target;
    if r.Some? {
      SameViewsAgree(s, r.value, m);
    }
  }

  /** A load returns what the private memory holds, whether or not it faulted first. */
  lemma LoadReads(s: Mem, m: Memories, n: int, a: int)
    requires Inv(s, {}) && Live(s, n) && WithinLimit(s, n, a) && Agrees(s, m) && Access(s, n, a, false).Some?
    ensures Cell(n, a)
    ensures var s' := Access(s, n, a, false).value;
      && Shape(s') && Entry(s', DirOf(n, a), TabOf(a)).p && Entry(s', DirOf(n, a), TabOf(a)).frame < FRAMES
      && s'.phys[Entry(s', DirOf(n, a), TabOf(a)).frame][OffOf(a)] == m(n, a)
  {
    AccessStep(s, m, n, a, false);
    var s' := Access(s, n, a, false).value;
    EntryInRange(s', {}, DirOf(n, a), TabOf(a));
    assert View(s', n, a) == m(n, a);
  }

  lemma StoreStep(s: Mem, m: Memories, n: int, a: int, v: Word)
    requires Inv(s, {}) && Live(s, n) && WithinLimit(s, n, a) && Agrees(s, m)
    ensures match Step(s, Store(n, a, v))
      case Stopped => Exhausted(s)
      case Running(s', ok) => Inv(s', {}) && Agrees(s', SpecStep(m, Store(n, a, v), ok)) && s'.slot == s.slot
  {
    AccessStep(s, m, n, a, true);
    if Access(s, n, a, true).Some? {
      var s1 := Access(s, n, a, true).value;
      var d, t, o := DirOf(n, a), TabOf(a), OffOf(a);
      StoreWordStep(s1, {}, d, t, o, v);
      var s' := StoreWord(s1, d, t, o, v);
      hide Inv, Entry, ViewAt;
      forall k, b | Cell(k, b) ensures View(s', k, b) == if k == n && b == a then v else m(k, b) {
        AddressSplit(k, b);
        assert View(s1, k, b) == m(k, b);
        if DirOf(k, b) == d && TabOf(b) == t && OffOf(b) == o {
          AddressUnique(k, b, n, a);
        }
      }
    }
  }

  lemma ForkAgrees(s: Mem, s': Mem, m: Memories, cur: int, nr: int, pcb: Page)
    requires Shape(s) && Shape(s') && 0 <= cur < NR_TASKS && 1 <= nr < NR_TASKS && cur != nr
    requires OthersRead(s, s', nr) && ChildReads(s, s', cur, nr) && Agrees(s, m)
    ensures Agrees(s', SpecStep(m, Fork(cur, nr, pcb), true))
  {
    hide ViewAt;
    forall k, b | Cell(k, b)
      ensures View(s', k, b) == if k != nr then m(k, b) else if cur == 0 && b >= IMAGE then ZERO else m(cur, b)
    {
      AddressSplit(k, b);
      var d, t, o := DirOf(k, b), TabOf(b), OffOf(b);
      if k != nr {
        assert !InSlice(nr, d);
        assert View(s, k, b) == m(k, b);
      } else if cur == 0 && b >= IMAGE {
        assert !Addr(Twin(cur, nr, d), t, o) by { BeyondImage(nr, b); }
      } else {
        AddressSplit(cur, b);
        assert DirOf(cur, b) == Twin(cur, nr, d);
        assert View(s, cur, b) == m(cur, b);
      }
    }
  }

  /** What lies beyond task 0's image is in another table or past the 160th page. */
  lemma BeyondImage(nr: int, b: int)
    requires 1 <= nr < NR_TASKS && IMAGE <= b < SLICE
    ensures DirOf(nr, b) - 16 * nr > 0 || TabOf(b) >= 160
  {
    AddressSplit(nr, b);
  }

  lemma ForkStep(s: Mem, m: Memories, cur: int, nr: int, pcb: Page)
    requires Inv(s, {}) && Enabled(s, Fork(cur, nr, pcb)) && Agrees(s, m)
    ensures match Step(s, Fork(cur, nr, pcb))
      case Stopped => false
      case Running(s', ok) =>
        && Inv(s', {}) && Agrees(s', SpecStep(m, Fork(cur, nr, pcb), ok))
        && (!ok ==> s'.memMap == s.memMap && s'.dir == s.dir && s'.slot == s.slot)
        && (ok <==> |Free(s)| >= 1 + Tables(s.dir, 16 * cur, Dirs(s.limit[cur])))
        && (ok ==> 0 < s'.slot[nr] < FRAMES && s'.phys[s'.slot[nr]] == pcb)
  {
    ForkExactly(s, cur, nr, pcb);
    hide Free, Tables;
    match CopyProcess(s, cur, nr, pcb) {
      case Forked(s') =>
        ForkSucceeds(s, cur, nr, pcb);
        ForkAgrees(s, s', m, cur, nr, pcb);
      case Refused(s') =>
        ForkRefused(s, cur, nr, pcb);
        SameViewsAgree(s, s', m);
      case Halted =>
        ForkRefused(s, cur, nr, pcb);
    }
  }

  lemma ExitStep(s: Mem, m: Memories, n: int)
    requires Inv(s, {}) && Live(s, n) && Agrees(s, m)
    ensures match Step(s, Exit(n))
      case Stopped => false
      case Running(s', ok) => Inv(s', {}) && Agrees(s', SpecStep(m, Exit(n), ok))
  {
    var k := Dirs(s.limit[n]);
    FreeTablesStep(s, {}, 16 * n, k);
    BeyondLimit(s, n);
    var s' := FreeTables(s, 16 * n, k).value;
    hide FreeTables, Accounted, InRange, Exclusive, WriteOwned, OncePerSlice, HandFree, Boot, Slices, Entry;
    hide ViewAt, Target;
    forall j, b | Cell(j, b) ensures View(s', j, b) == if j == n then ZERO else m(j, b) {
      AddressSplit(j, b);
      assert View(s, j, b) == m(j, b);
    }
  }

  /** Release makes the slot free and is seen by nobody. */
  lemma ReleaseStep(s: Mem, m: Memories, n: int)
    requires Inv(s, {}) && Enabled(s, Release(n)) && Agrees(s, m)
    ensures match Step(s, Release(n))
      case Stopped => false
      case Running(s', ok) => Inv(s', {}) && Agrees(s', m) && s'.slot == s.slot[n := 0] && s'.dir == s.dir
  {
    hide Accounted, InRange, Exclusive, WriteOwned, OncePerSlice, HandFree, Boot, Slices, Target, ViewAt;
    DropSlotStep(s, {}, n);
    SameViewsAgree(s, DropSlot(s, n), m);
  }

  /** A child that exits and is released before anything else happens has cost nothing: every count, the directory and
      the task array are as before its fork, and so is what every task reads. */
  lemma ForkExitRelease(s: Mem, m: Memories, cur: int, nr: int, pcb: Page)
    requires Inv(s, {}) && Enabled(s, Fork(cur, nr, pcb)) && Agrees(s, m)
    requires Step(s, Fork(cur, nr, pcb)).Running? && Step(s, Fork(cur, nr, pcb)).ok
    ensures var s1 := Step(s, Fork(cur, nr, pcb)).s;
      && Inv(s1, {}) && Enabled(s1, Exit(nr)) && Step(s1, Exit(nr)).Running?
      && var s2 := Step(s1, Exit(nr)).s;
      && Inv(s2, {}) && Enabled(s2, Release(nr)) && Step(s2, Release(nr)).Running?
      && var s3 := Step(s2, Release(nr)).s;
      && Inv(s3, {}) && Agrees(s3, m)
      && s3.memMap == s.memMap && s3.dir == s.dir && s3.slot == s.slot
  {
    hide FreeTables, Accounted, InRange, Exclusive, WriteOwned, OncePerSlice, HandFree, Boot, Slices, Target;
    hide ViewAt, Entry;
    ForkUndone(s, cur, nr, pcb);
    EmptySlice(s, nr);
    var s1 := CopyProcess(s, cur, nr, pcb).s;
    hide CopyProcess;
    FreeTablesStep(s1, {}, 16 * nr, Dirs(s1.limit[nr]));
    SameViewsAgree(s, Step(Step(s1, Exit(nr)).s, Release(nr)).s, m);
  }

  /** One event: the invariant survives, the tasks see what the private memories say, and the kernel
      halts only when frames run out. */
  lemma StepRefines(s: Mem, m: Memories, e: Event)
    requires Inv(s, {}) && Enabled(s, e) && Agrees(s, m)
    ensures match Step(s, e)
      case Running(s', ok) => Inv(s', {}) && Agrees(s', SpecStep(m, e, ok))
      case Stopped => e.Verify? || ((e.Load? || e.Store?) && Exhausted(s))
  {
    match e {
      case Load(n, a) => AccessStep(s, m, n, a, false);
      case Store(n, a, v) => StoreStep(s, m, n, a, v);
      case Fork(cur, nr, pcb) => ForkStep(s, m, cur, nr, pcb);
      case Verify(n, addr, size) =>
        VerifyPagesStep(s, LinearPage(n, addr), VerifyCount(addr, size));
        if VerifyArea(s, n, addr, size).Some? {
          SameViewsAgree(s, VerifyArea(s, n, addr, size).value, m);
        }
      case Exit(n) => ExitStep(s, m, n);
      case Release(n) => ReleaseStep(s, m, n);
    }
  }

  lemma AccessStops(s: Mem, n: int, a: int)
    requires Inv(s, {}) && Live(s, n) && WithinLimit(s, n, a)
    ensures Access(s, n, a, false).None? <==> Stops(s, Load(n, a))
    ensures forall v :: Access(s, n, a, true).None? <==> Stops(s, Store(n, a, v))
  {
    LimitCovers(s, n, a);
    AddressSplit(n, a);
    NoPageExactly(s, DirOf(n, a), TabOf(a));
    WriteVerifyExactly(s, DirOf(n, a), TabOf(a));
    hide NoPage, WriteVerify, Accounted, InRange, Exclusive, WriteOwned, OncePerSlice, HandFree, Boot, Slices;
    hide Entry, Free, OnlyRef;
  }

  /** Exactly when an event halts the kernel: a fault that needs more frames than are free, or verify_area at a page
      where that is so. */
  lemma StepStops(s: Mem, e: Event)
    requires Inv(s, {}) && Enabled(s, e)
    ensures Step(s, e).Stopped? <==> Stops(s, e)
  {
    hide Accounted, InRange, Exclusive, WriteOwned, OncePerSlice, HandFree, Boot, Slices, Target, ViewAt, Free, OnlyRef;
    hide BlockedWithin, LinearPage, VerifyCount, VerifyPages;
    match e {
      case Load(n, a) => AccessStops(s, n, a);
      case Store(n, a, v) => AccessStops(s, n, a);
      case Fork(cur, nr, pcb) => ForkTasks(s, cur, nr, pcb);
      case Verify(n, addr, size) => VerifyHaltsExactly(s, LinearPage(n, addr), VerifyCount(addr, size));
      case Exit(n) => FreeTablesKeeps(s, {}, 16 * n, Dirs(s.limit[n]));
      case Release(n) => DropSlotStep(s, {}, n);
    }
    hide Access;
  }

  ghost predicate Stops(s: Mem, e: Event)
    requires Inv(s, {}) && Enabled(s, e)
  {
    match e
    case Load(n, a) => LimitCovers(s, n, a); AddressSplit(n, a); Starved(s, DirOf(n, a), TabOf(a))
    case Store(n, a, v) =>
      LimitCovers(s, n, a);
      AddressSplit(n, a);
      var d, t := DirOf(n, a), TabOf(a);
      Starved(s, d, t) || (Entry(s, d, t).p && !Entry(s, d, t).rw && !OnlyRef(s, d, t) && Free(s) == {})
    case Verify(n, addr, size) => BlockedWithin(s, LinearPage(n, addr), VerifyCount(addr, size))
    case _ => false
  }

  /** A missing page for which, with its table, there are too few free frames. */
  ghost predicate Starved(s: Mem, d: int, t: int)
    requires Shape(s) && 0 <= d < WORDS && 0 <= t < WORDS
  {
    !Entry(s, d, t).p && |Free(s)| < if s.dir[d].p then 1 else 2
  }

  // ---------------------------------------------------------------- task structures

  /** The task in slot n is still there, in the same page, with the same contents. */
  ghost predicate SameTask(s: Mem, s': Mem, n: int)
    requires Shape(s) && Shape(s') && 1 <= n < NR_TASKS
  {
    s'.slot[n] == s.slot[n] && 0 < s.slot[n] < FRAMES && s'.phys[s.slot[n]] == s.phys[s.slot[n]]
  }

  lemma KeptSame(s: Mem, s': Mem, n: int)
    requires Shape(s) && Shape(s') && Live(s, n) && TasksKept(s, s')
    ensures SameTask(s, s', n)
  {
  }

  lemma AccessKeeps(s: Mem, n: int, a: int, write: bool)
    requires Inv(s, {}) && Live(s, n) && WithinLimit(s, n, a)
    ensures Access(s, n, a, write).Some? ==>
      Shape(Access(s, n, a, write).value) && TasksKept(s, Access(s, n, a, write).value)
  {
    OneFrame(s, {}, s, 0);
    LimitCovers(s, n, a);
    AddressSplit(n, a);
    hide Accounted, InRange, Exclusive, WriteOwned, OncePerSlice, HandFree, Slices, Boot, TasksKept, NoPage;
    hide WriteVerify;
    WriteVerifyKeeps(s, DirOf(n, a), TabOf(a));
    if !Entry(s, DirOf(n, a), TabOf(a)).p {
      NoPageKeeps(s, DirOf(n, a), TabOf(a));
    }
  }

  lemma StoreTasks(s: Mem, n: int, a: int, v: Word)
    requires Inv(s, {}) && Enabled(s, Store(n, a, v))
    ensures var o := Step(s, Store(n, a, v)); o.Running? ==> Shape(o.s) && TasksKept(s, o.s)
  {
    LimitCovers(s, n, a);
    AddressSplit(n, a);
    AccessKeeps(s, n, a, true);
    WriteFaultStep(s, DirOf(n, a), TabOf(a));
    hide Accounted, InRange, Exclusive, WriteOwned, OncePerSlice, HandFree, Slices, Boot, TasksKept, WriteFault, Target;
    var r := Access(s, n, a, true);
    if r.Some? {
      StoreKeeps(r.value, DirOf(n, a), TabOf(a), OffOf(a), v);
      TasksTrans(s, r.value, StoreWord(r.value, DirOf(n, a), TabOf(a), OffOf(a), v));
    }
  }

  /** No event but its own release touches a task structure: no load, store, fault, fork, verify_area or exit of
      anybody. */
  lemma StepTasks(s: Mem, e: Event, n: int)
    requires Inv(s, {}) && Enabled(s, e) && Live(s, n) && e != Release(n)
    requires Step(s, e).Running? && Shape(Step(s, e).s)
    ensures SameTask(s, Step(s, e).s, n)
  {
    hide Accounted, InRange, Exclusive, WriteOwned, OncePerSlice, HandFree, Slices, Boot, Target, Access;
    match e {
      case Load(k, a) => AccessKeeps(s, k, a, false);
      case Store(k, a, v) => StoreTasks(s, k, a, v);
      case Fork(cur, nr, pcb) => ForkTasks(s, cur, nr, pcb);
      case Verify(k, addr, size) => VerifyPagesKeeps(s, LinearPage(k, addr), VerifyCount(addr, size));
      case Exit(k) => FreeTablesKeeps(s, {}, 16 * k, Dirs(s.limit[k]));
      case Release(k) => OneFrame(s, {}, s, 0);
    }
  }

  // ---------------------------------------------------------------- runs

  /** s' is reached from s by the events es, none of which halts the kernel, while the private
      memories go from m to m'. */
  ghost predicate Run(s: Mem, m: Memories, es: seq<Event>, s': Mem, m': Memories)
    requires Inv(s, {})
    decreases |es|
  {
    if es == [] then s' == s && m' == m
    else
      && Enabled(s, es[0]) && Step(s, es[0]).Running?
      && var o := Step(s, es[0]);
         Inv(o.s, {}) && Run(o.s, SpecStep(m, es[0], o.ok), es[1..], s', m')
  }

  /** Copy-on-write paging refines private memories, over every run. */
  lemma {:induction false} RunRefines(s: Mem, m: Memories, es: seq<Event>, s': Mem, m': Memories)
    requires Inv(s, {}) && Agrees(s, m) && Run(s, m, es, s', m')
    ensures Inv(s', {}) && Agrees(s', m')
    decreases |es|
  {
    if es != [] {
      StepRefines(s, m, es[0]);
      var o := Step(s, es[0]);
      RunRefines(o.s, SpecStep(m, es[0], o.ok), es[1..], s', m');
    }
  }

  /** Over every run the task structure in a live slot keeps its page and its contents until its own release. */
  lemma {:induction false} RunTasks(s: Mem, m: Memories, es: seq<Event>, s': Mem, m': Memories, n: int)
    requires Inv(s, {}) && Run(s, m, es, s', m') && Shape(s') && Live(s, n) && Release(n) !in es
    ensures Live(s', n) && SameTask(s, s', n)
    decreases |es|
  {
    if es == [] {
      OneFrame(s, {}, s, 0);
    } else {
      assert es[0] in es;
      StepTasks(s, es[0], n);
      hide Inv, Enabled, Step;
      var o := Step(s, es[0]);
      RunTasks(o.s, SpecStep(m, es[0], o.ok), es[1..], s', m', n);
    }
  }

  /** So what fork put there is what is there as long as the task lives. */
  lemma ForkedTaskKept(s: Mem, m: Memories, cur: int, nr: int, pcb: Page, es: seq<Event>, s': Mem, m': Memories)
    requires Inv(s, {}) && Enabled(s, Fork(cur, nr, pcb)) && Agrees(s, m)
    requires var o := Step(s, Fork(cur, nr, pcb));
      o.Running? && o.ok && Inv(o.s, {}) && Run(o.s, SpecStep(m, Fork(cur, nr, pcb), true), es, s', m')
    requires Shape(s') && Release(nr) !in es
    ensures 0 < s'.slot[nr] < FRAMES && s'.phys[s'.slot[nr]] == pcb
  {
    ForkStep(s, m, cur, nr, pcb);
    hide Step, Accounted, InRange, Exclusive, WriteOwned, OncePerSlice, HandFree, Slices, Boot;
    RunTasks(Step(s, Fork(cur, nr, pcb)).s, SpecStep(m, Fork(cur, nr, pcb), true), es, s', m', nr);
  }

  /** The state after mem_init and head.s: all of main memory free, no task but task 0, no table but the boot tables. */
  ghost predicate BootState(s: Mem) {
    && Shape(s) && Boot(s)
    && (forall f :: LOW_FRAME <= f < FRAMES ==> s.memMap[f - LOW_FRAME] == if Main(s, f) then 0 else USED)
    && (forall d :: 16 <= d < WORDS ==> s.dir[d] == ZERO)
    && (forall n :: 1 <= n < NR_TASKS ==> s.slot[n] == 0)
  }

  lemma BootInv(s: Mem)
    requires BootState(s)
    ensures Inv(s, {})
  {
    forall r | RefOk(r) ensures Target(s, r) == -1 {
    }
    forall f | LOW_FRAME <= f < FRAMES
      ensures s.memMap[f - LOW_FRAME] == if Main(s, f) then |Refs(s, f)| + One(f in {}) else USED
    {
      assert Refs(s, f) == {};
    }
  }

  /** What the invariant says about frame f and reference r. */
  lemma InvFacts(s: Mem, f: int, r: Ref)
    requires Inv(s, {}) && Main(s, f) && RefOk(r)
    ensures s.memMap[f - LOW_FRAME] == |Refs(s, f)| < NR_TASKS
    ensures GetFree(s).0 != 0 ==> Target(s, r) != GetFree(s).0
    ensures Target(s, r) >= LOW_FRAME ==> !FreePanics(s, Target(s, r))
    ensures CanWrite(s, r) ==> Refs(s, Target(s, r)) == {r}
  {
    CountsFit(s, {}, f);
    GetFreeTakes(s, {});
    if Target(s, r) >= LOW_FRAME {
      Counted(s, {}, r);
    }
    if CanWrite(s, r) {
      assert r in Refs(s, Target(s, r));
    }
  }

  /** In every state reachable from boot: each count is the number of references and stays a small byte,
      the frame that get_free_page would take is referred to by nobody, and whatever a task can write is its own. */
  lemma ReachableStates(s: Mem, m: Memories, es: seq<Event>, s': Mem, m': Memories, f: int, r: Ref)
    requires BootState(s) && Inv(s, {}) && Agrees(s, m) && Run(s, m, es, s', m')
    requires Shape(s') && Main(s', f) && RefOk(r)
    ensures s'.memMap[f - LOW_FRAME] == |Refs(s', f)| < NR_TASKS
    ensures GetFree(s').0 != 0 ==> Target(s', r) != GetFree(s').0
    ensures Target(s', r) >= LOW_FRAME ==> !FreePanics(s', Target(s', r))
    ensures CanWrite(s', r) ==> Refs(s', Target(s', r)) == {r}
  {
    hide Inv, Refs, Target, GetFree, FreePanics, CanWrite, Agrees, BootState, Main;
    RunRefines(s, m, es, s', m');
    InvFacts(s', f, r);
  }

  /** do_exit releases the same slice twice (once as code, once as data); the second call does nothing. */
  lemma {:induction false} ReleaseTwice(s: Mem, d: int, n: nat)
    requires Shape(s) && 16 <= d && d + n <= WORDS && forall e :: d <= e < d + n ==> !s.dir[e].p
    ensures FreeTables(s, d, n) == Some(s)
    decreases n
  {
    if n > 0 {
      ReleaseTwice(s, d + 1, n - 1);
    }
  }
}
