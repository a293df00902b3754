/** Fork, exit and verify_area on the shared memory (kernel/fork.c, kernel/exit.c). */
module PagingProcess {
  import opened PageWord
  import opened PagingState
  import opened PagingSteps
  import opened PagingTables
  import opened PagingTasks

  // ---------------------------------------------------------------- copy_process

  /** Refused is the return value -1; Halted is a panic. */
  datatype ForkResult = Forked(s: Mem) | Refused(s: Mem) | Halted

  /** copy_process and copy_mem: nr is the free task slot, pcb the copied task structure. */
  function CopyProcess(s: Mem, cur: int, nr: int, pcb: Page): ForkResult
    requires Shape(s) && 0 <= cur < NR_TASKS && 1 <= nr < NR_TASKS
  {
    var (f, s1) := GetFree(s);
    if f == 0 then Refused(s)
    else CopyMem(TakeSlot(s1, nr, f, s.limit[cur], pcb), cur, nr)
  }

  /** copy_mem and, when it fails, the clean-up in it and in copy_process. */
  function CopyMem(s: Mem, cur: int, nr: int): ForkResult
    requires Shape(s) && 0 <= cur < NR_TASKS && 1 <= nr < NR_TASKS
  {
    var n := Dirs(s.limit[cur]);
    match CopyTables(s, 16 * cur, 16 * nr, n, Share(cur))
    case Copied(s') => Forked(s')
    case AlreadyExists => Halted
    case NoMemory(s1) =>
      match FreeTables(s1, 16 * nr, n)
        case None => Halted
        case Some(s2) => if FreePanics(s2, s2.slot[nr]) then Halted else Refused(DropSlot(s2, nr))
  }

  /** Slice nr reads as slice cur did in s wherever slice cur has private addresses, and as zeros elsewhere. */
  ghost predicate ChildReads(s: Mem, s': Mem, cur: int, nr: int)
    requires Shape(s) && Shape(s') && 0 <= cur < NR_TASKS && 1 <= nr < NR_TASKS
  {
    forall d, t, o :: Addr(d, t, o) && InSlice(nr, d) ==>
      ViewAt(s', d, t, o) == if Addr(Twin(cur, nr, d), t, o) then ViewAt(s, Twin(cur, nr, d), t, o) else ZERO
  }

  ghost predicate OthersRead(s: Mem, s': Mem, nr: int)
    requires Shape(s) && Shape(s')
  {
    forall d, t, o :: Addr(d, t, o) && !InSlice(nr, d) ==> ViewAt(s', d, t, o) == ViewAt(s, d, t, o)
  }

  /** An unused slot has an empty slice, which reads as zeros. */
  lemma EmptySlice(s: Mem, n: int)
    requires Inv(s, {}) && 1 <= n < NR_TASKS && s.slot[n] == 0
    ensures forall d :: InSlice(n, d) ==> s.dir[d] == ZERO
    ensures forall d, t, o :: Addr(d, t, o) && InSlice(n, d) ==> !Entry(s, d, t).p && ViewAt(s, d, t, o) == ZERO
  {
    hide Accounted, InRange, Exclusive, WriteOwned, OncePerSlice, HandFree, Boot, Target;
    assert forall d :: InSlice(n, d) ==> d / 16 == n;
  }

  lemma ForkStart(s: Mem, cur: int, nr: int, pcb: Page)
    requires Inv(s, {}) && 0 <= cur < NR_TASKS && 1 <= nr < NR_TASKS && cur != nr && s.slot[nr] == 0
    requires GetFree(s).0 != 0
    ensures var s2 := TakeSlot(GetFree(s).1, nr, GetFree(s).0, s.limit[cur], pcb);
      && CopyTodo(s2, {}, cur, nr, 16 * nr, Dirs(s.limit[cur])) && SameViews(s, s2) && s2.dir == s.dir
      && s2.slot == s.slot[nr := GetFree(s).0] && s2.limit == s.limit[nr := s.limit[cur]]
      && s2.start == s.start && s2.high == s.high
      && (forall d, t :: Addr(d, t, 0) ==> Entry(s2, d, t) == Entry(s, d, t))
  {
    var (f, s1) := GetFree(s);
    GetFreeTakes(s, {});
    EmptySlice(s, nr);
    TakeSlotStep(s1, {} + {f}, nr, f, s.limit[cur], pcb);
    assert {} + {f} - {f} == {};
    hide Accounted, InRange, Exclusive, WriteOwned, OncePerSlice, HandFree, Slices, Target, ViewAt, Entry;
  }

  /** What a successful fork went through. */
  lemma ForkForked(s: Mem, cur: int, nr: int, pcb: Page)
    requires Shape(s) && 0 <= cur < NR_TASKS && 1 <= nr < NR_TASKS && CopyProcess(s, cur, nr, pcb).Forked?
    ensures GetFree(s).0 != 0
    ensures var s2 := TakeSlot(GetFree(s).1, nr, GetFree(s).0, s.limit[cur], pcb);
      CopyTables(s2, 16 * cur, 16 * nr, Dirs(s.limit[cur]), Share(cur)) == Copied(CopyProcess(s, cur, nr, pcb).s)
  {
  }

  /** The new slot holds a copy of the parent's task structure, in a page of its own. */
  lemma StartTasks(s: Mem, cur: int, nr: int, pcb: Page)
    requires Inv(s, {}) && 0 <= cur < NR_TASKS && 1 <= nr < NR_TASKS && cur != nr && s.slot[nr] == 0
    requires GetFree(s).0 != 0
    ensures var s2 := TakeSlot(GetFree(s).1, nr, GetFree(s).0, s.limit[cur], pcb);
      Shape(s2) && NewTask(s, s2, nr, pcb)
  {
    GetFreeKeeps(s, {});
    GetFreeTakes(s, {});
    ForkStart(s, cur, nr, pcb);
    forall n | 1 <= n < NR_TASKS && s.slot[n] != 0 ensures s.slot[n] != GetFree(s).0 {
      assert Target(s, Slot(n)) == s.slot[n];
    }
  }

  /** Slot nr is new and its page holds pcb; all other slots and their pages are as they were. */
  ghost predicate NewTask(s: Mem, s': Mem, nr: int, pcb: Page)
    requires Shape(s) && Shape(s') && 1 <= nr < NR_TASKS
  {
    && s'.slot == s.slot[nr := s'.slot[nr]] && 0 < s'.slot[nr] < FRAMES && s'.phys[s'.slot[nr]] == pcb
    && forall n :: 1 <= n < NR_TASKS && n != nr && s.slot[n] != 0 ==>
         0 <= s.slot[n] < FRAMES && s'.phys[s.slot[n]] == s.phys[s.slot[n]]
  }

  lemma NewTaskKept(s: Mem, s2: Mem, s3: Mem, nr: int, pcb: Page)
    requires Shape(s) && Shape(s2) && Shape(s3) && 1 <= nr < NR_TASKS && s.slot[nr] == 0
    requires NewTask(s, s2, nr, pcb) && TasksKept(s2, s3)
    ensures NewTask(s, s3, nr, pcb)
  {
    assert s2.slot[nr] != 0;
    forall n | 1 <= n < NR_TASKS && n != nr && s.slot[n] != 0
      ensures 0 <= s.slot[n] < FRAMES && s3.phys[s.slot[n]] == s.phys[s.slot[n]]
    {
      assert s2.slot[n] == s.slot[n];
    }
  }

  lemma CopyMemTasks(s: Mem, s2: Mem, cur: int, nr: int, pcb: Page)
    requires Shape(s) && 0 <= cur < NR_TASKS && 1 <= nr < NR_TASKS && s.slot[nr] == 0 && Shape(s2)
    requires CopyTodo(s2, {}, cur, nr, 16 * nr, Dirs(s2.limit[cur])) && NewTask(s, s2, nr, pcb)
    ensures match CopyMem(s2, cur, nr)
      case Forked(s') => Shape(s') && NewTask(s, s', nr, pcb)
      case Refused(s') => Shape(s') ==> TasksKept(s, s')
      case Halted => true
  {
    hide Accounted, InRange, Exclusive, WriteOwned, OncePerSlice, HandFree, Slices, Boot, Target, Entry, ViewAt;
    hide CopyTables, FreeTables, NewTask, TasksKept, DropSlot;
    var n := Dirs(s2.limit[cur]);
    CopyTablesStep(s2, {}, cur, nr, 16 * nr, n);
    CopyTablesKeeps(s2, {}, cur, nr, 16 * nr, n);
    var r := CopyTables(s2, 16 * cur, 16 * nr, n, Share(cur));
    if r.NoMemory? {
      FreeTablesKeeps(r.s, {}, 16 * nr, n);
      DropTasks(s, s2, r.s, FreeTables(r.s, 16 * nr, n).value, nr, pcb);
    } else {
      NewTaskKept(s, s2, r.s, nr, pcb);
    }
  }

  /** fork puts a copy of the parent's structure in the new slot, and touches no other task's; if it fails it touches
      none at all. */
  lemma ForkTasks(s: Mem, cur: int, nr: int, pcb: Page)
    requires Inv(s, {}) && 0 <= cur < NR_TASKS && 1 <= nr < NR_TASKS && cur != nr && s.slot[nr] == 0
    ensures match CopyProcess(s, cur, nr, pcb)
      case Forked(s') => Shape(s') && NewTask(s, s', nr, pcb)
      case Refused(s') => Shape(s') && TasksKept(s, s')
      case Halted => false
  {
    OneFrame(s, {}, s, 0);
    hide Accounted, InRange, Exclusive, WriteOwned, OncePerSlice, HandFree, Slices, Boot, Target, Entry, ViewAt;
    hide NewTask, TasksKept, CopyMem;
    if !CopyProcess(s, cur, nr, pcb).Forked? {
      ForkRefused(s, cur, nr, pcb);
    }
    if GetFree(s).0 != 0 {
      ForkStart(s, cur, nr, pcb);
      StartTasks(s, cur, nr, pcb);
      CopyMemTasks(s, TakeSlot(GetFree(s).1, nr, GetFree(s).0, s.limit[cur], pcb), cur, nr, pcb);
    }
  }

  lemma DropTasks(s: Mem, s2: Mem, s3: Mem, s4: Mem, nr: int, pcb: Page)
    requires Shape(s) && Shape(s2) && Shape(s3) && Shape(s4) && 1 <= nr < NR_TASKS && s.slot[nr] == 0
    requires NewTask(s, s2, nr, pcb) && TasksKept(s2, s3) && TasksKept(s3, s4)
    ensures Shape(DropSlot(s4, nr)) ==> TasksKept(s, DropSlot(s4, nr))
  {
  }

  lemma CopyMemForks(s: Mem, cur: int, nr: int)
    requires Shape(s) && 0 <= cur < NR_TASKS && 1 <= nr < NR_TASKS
    ensures var r := CopyTables(s, 16 * cur, 16 * nr, Dirs(s.limit[cur]), Share(cur));
      && (CopyMem(s, cur, nr).Forked? <==> r.Copied?) && (r.Copied? ==> CopyMem(s, cur, nr).s == r.s)
  {
    hide CopyTables, FreeTables;
  }

  /** fork succeeds if and only if there are free frames for the child's task structure and for a copy of every page
      table of the parent; then it takes just these. */
  lemma ForkExactly(s: Mem, cur: int, nr: int, pcb: Page)
    requires Inv(s, {}) && 0 <= cur < NR_TASKS && 1 <= nr < NR_TASKS && cur != nr && s.slot[nr] == 0
    ensures var k := Tables(s.dir, 16 * cur, Dirs(s.limit[cur]));
      && (CopyProcess(s, cur, nr, pcb).Forked? <==> |Free(s)| >= 1 + k)
      && (CopyProcess(s, cur, nr, pcb).Forked? ==>
            |CopyProcess(s, cur, nr, pcb).s.memMap| == PAGING_PAGES
            && |Free(CopyProcess(s, cur, nr, pcb).s)| == |Free(s)| - 1 - k)
  {
    hide Accounted, InRange, Exclusive, WriteOwned, OncePerSlice, HandFree, Slices, Boot, Target, Entry, ViewAt;
    hide CopyTables, CopyMem, SameViews, Free, Tables;
    GetFreeCost(s);
    if GetFree(s).0 != 0 {
      ForkStart(s, cur, nr, pcb);
      var s2 := TakeSlot(GetFree(s).1, nr, GetFree(s).0, s.limit[cur], pcb);
      SameMapSameFree(GetFree(s).1, s2);
      hide GetFree, Mirror;
      CopyTablesCost(s2, {}, cur, nr, 16 * nr, Dirs(s.limit[cur]));
      CopyMemForks(s2, cur, nr);
    }
  }

  /** A successful fork: the child reads exactly what the parent reads, nobody else notices, and the page of the new
      task holds the copied structure. */
  lemma ForkSucceeds(s: Mem, cur: int, nr: int, pcb: Page)
    requires Inv(s, {}) && 0 <= cur < NR_TASKS && 1 <= nr < NR_TASKS && cur != nr && s.slot[nr] == 0
    requires CopyProcess(s, cur, nr, pcb).Forked?
    ensures var s' := CopyProcess(s, cur, nr, pcb).s;
      && Inv(s', {}) && OthersRead(s, s', nr) && ChildReads(s, s', cur, nr)
      && s'.slot[nr] != 0 && s'.slot == s.slot[nr := s'.slot[nr]] && s'.limit == s.limit[nr := s.limit[cur]]
      && s'.slot[nr] < FRAMES && s'.phys[s'.slot[nr]] == pcb
  {
    ForkTasks(s, cur, nr, pcb);
    var n := Dirs(s.limit[cur]);
    assert Shape(s) && (cur == 0 ==> Dirs(s.limit[0]) == 1);
    hide Accounted, InRange, Exclusive, WriteOwned, OncePerSlice, HandFree, Slices, Boot, Entry, ViewAt, ViewsCopied;
    ForkForked(s, cur, nr, pcb);
    hide CopyProcess;
    ForkStart(s, cur, nr, pcb);
    EmptySlice(s, nr);
    BeyondLimit(s, cur);
    var s2 := TakeSlot(GetFree(s).1, nr, GetFree(s).0, s.limit[cur], pcb);
    CopyTablesStep(s2, {}, cur, nr, 16 * nr, n);
    var s' := CopyProcess(s, cur, nr, pcb).s;
    assert Shape(s') && Shape(s2);
    hide GetFree, CopyTables, Inv;
    CopiedViews(s, s2, s', cur, nr);
  }

  lemma CopiedViews(s: Mem, s2: Mem, s': Mem, cur: int, nr: int)
    requires Shape(s) && Shape(s2) && Shape(s') && 0 <= cur < NR_TASKS && 1 <= nr < NR_TASKS && cur != nr
    requires SameViews(s, s2) && KeptOutside(s2, s', nr) && (cur == 0 ==> Dirs(s.limit[0]) == 1)
    requires ViewsCopied(s2, s', cur, nr, 16 * nr, Dirs(s.limit[cur]), 0)
    requires forall d, t, o :: Addr(d, t, o) && InSlice(nr, d) ==> ViewAt(s, d, t, o) == ZERO
    requires forall d, t, o :: Addr(d, t, o) && InSlice(cur, d) && d - 16 * cur >= Dirs(s.limit[cur]) ==>
      ViewAt(s, d, t, o) == ZERO
    ensures OthersRead(s, s', nr) && ChildReads(s, s', cur, nr)
  {
    hide ViewAt, Entry;
    forall d, t, o | Addr(d, t, o) && InSlice(nr, d)
      ensures ViewAt(s', d, t, o) == if Addr(Twin(cur, nr, d), t, o) then ViewAt(s, Twin(cur, nr, d), t, o) else ZERO
    {
      assert ViewAt(s2, d, t, o) == ViewAt(s, d, t, o) == ZERO;
    }
  }

  /** A slice reads as zeros beyond the tables its segment limit allows. */
  lemma BeyondLimit(s: Mem, n: int)
    requires Inv(s, {}) && 0 <= n < NR_TASKS
    ensures forall d, t, o :: Addr(d, t, o) && InSlice(n, d) && d - 16 * n >= Dirs(s.limit[n]) ==>
      ViewAt(s, d, t, o) == ZERO
  {
    hide Accounted, InRange, Exclusive, WriteOwned, OncePerSlice, HandFree, Target;
    assert forall d :: InSlice(n, d) ==> d / 16 == n && d % 16 == d - 16 * n;
  }

  /** The reference counts are a function of who refers to what. */
  lemma SameTargetsSameCounts(s: Mem, s': Mem)
    requires Inv(s, {}) && Inv(s', {}) && s'.start == s.start && s'.high == s.high
    requires forall r :: RefOk(r) ==> Target(s', r) == Target(s, r)
    ensures s'.memMap == s.memMap
  {
    forall i | 0 <= i < PAGING_PAGES ensures s'.memMap[i] == s.memMap[i] {
      var f := i + LOW_FRAME;
      assert Main(s', f) == Main(s, f);
      assert Refs(s', f) == Refs(s, f);
      assert s'.memMap[f - LOW_FRAME] == s.memMap[f - LOW_FRAME];
    }
  }

  /** Copying part of the tables and releasing the slice again leaves the slice as empty as it was. */
  lemma RolledBack(s: Mem, s1: Mem, s2: Mem, nr: int, n: int)
    requires Shape(s) && Shape(s1) && Inv(s2, {}) && 1 <= nr < NR_TASKS
    requires KeptOutside(s, s1, nr) && Cleared(s1, s2, 16 * nr, n) && 0 < s.limit[nr] && n == Dirs(s.limit[nr]) <= 16
    requires forall d :: InSlice(nr, d) ==> s.dir[d] == ZERO
    ensures s2.dir == s.dir && s2.slot == s.slot && s2.limit == s.limit && s2.start == s.start && s2.high == s.high
    ensures forall r :: RefOk(r) ==> Target(s2, r) == Target(s, r)
    ensures SameViews(s, s2)
  {
    hide Accounted, InRange, Exclusive, WriteOwned, OncePerSlice, HandFree;
    assert forall d :: InSlice(nr, d) ==> d / 16 == nr && d % 16 == d - 16 * nr;
    forall d | 0 <= d < WORDS ensures s2.dir[d] == s.dir[d] {
    }
  }

  /** A refused fork is invisible: counts, directory, task array and every view are as before. */
  lemma ForkRefused(s: Mem, cur: int, nr: int, pcb: Page)
    requires Inv(s, {}) && 0 <= cur < NR_TASKS && 1 <= nr < NR_TASKS && cur != nr && s.slot[nr] == 0
    requires !CopyProcess(s, cur, nr, pcb).Forked?
    ensures CopyProcess(s, cur, nr, pcb).Refused?
    ensures var s' := CopyProcess(s, cur, nr, pcb).s;
      && Inv(s', {}) && s'.memMap == s.memMap && s'.dir == s.dir && s'.slot == s.slot && SameViews(s, s')
      && (forall n :: 0 <= n < NR_TASKS && n != nr ==> s'.limit[n] == s.limit[n])
  {
    if GetFree(s).0 != 0 {
      ForkStart(s, cur, nr, pcb);
      EmptySlice(s, nr);
      RefusedAfterStart(s, TakeSlot(GetFree(s).1, nr, GetFree(s).0, s.limit[cur], pcb), cur, nr);
    }
  }

  lemma RefusedAfterStart(s: Mem, s2: Mem, cur: int, nr: int)
    requires Inv(s, {}) && 0 <= cur < NR_TASKS && 1 <= nr < NR_TASKS && cur != nr && s.slot[nr] == 0
    requires forall d :: InSlice(nr, d) ==> s.dir[d] == ZERO
    requires Shape(s2) && CopyTodo(s2, {}, cur, nr, 16 * nr, Dirs(s2.limit[cur])) && SameViews(s, s2) && s2.dir == s.dir
    requires s2.slot == s.slot[nr := s2.slot[nr]] && s2.limit == s.limit[nr := s.limit[cur]]
    requires s2.start == s.start && s2.high == s.high
    requires forall d, t :: Addr(d, t, 0) ==> Entry(s2, d, t) == Entry(s, d, t)
    requires !CopyMem(s2, cur, nr).Forked?
    ensures CopyMem(s2, cur, nr).Refused?
    ensures var s' := CopyMem(s2, cur, nr).s;
      && Inv(s', {}) && s'.memMap == s.memMap && s'.dir == s.dir && s'.slot == s.slot && SameViews(s, s')
      && s'.limit == s2.limit
  {
    hide CopyTables, FreeTables, Accounted, InRange, Exclusive, WriteOwned, OncePerSlice, HandFree, Boot, Target;
    hide Entry, ViewAt;
    var n := Dirs(s2.limit[cur]);
    CopyTablesStep(s2, {}, cur, nr, 16 * nr, n);
    SliceUndone(s, s2, CopyTables(s2, 16 * cur, 16 * nr, n, Share(cur)).s, nr);
  }

  /** Releasing slice and slot of a task that was started in s2 and has changed its own slice only (s3) leads back to s:
      counts, directory, task array and every view are as before. */
  lemma SliceUndone(s: Mem, s2: Mem, s3: Mem, nr: int)
    requires Inv(s, {}) && Shape(s2) && Inv(s3, {}) && 1 <= nr < NR_TASKS && s.slot[nr] == 0 && s2.slot[nr] != 0
    requires forall d :: InSlice(nr, d) ==> s.dir[d] == ZERO
    requires SameViews(s, s2) && s2.dir == s.dir && s2.slot == s.slot[nr := s2.slot[nr]]
    requires s2.start == s.start && s2.high == s.high
    requires forall d, t :: Addr(d, t, 0) ==> Entry(s2, d, t) == Entry(s, d, t)
    requires KeptOutside(s2, s3, nr)
    ensures FreeTables(s3, 16 * nr, Dirs(s3.limit[nr])).Some?
    ensures var s4 := FreeTables(s3, 16 * nr, Dirs(s3.limit[nr])).value;
      && !FreePanics(s4, s4.slot[nr]) && s4.dir == s.dir && s4.slot[nr] == s3.slot[nr] && SameViews(s, s4)
      && var s' := DropSlot(s4, nr);
      && Inv(s', {}) && s'.memMap == s.memMap && s'.dir == s.dir && s'.slot == s.slot && SameViews(s, s')
      && s'.limit == s2.limit
  {
    hide FreeTables, Accounted, InRange, Exclusive, WriteOwned, OncePerSlice, HandFree, Boot, Target, Entry, ViewAt;
    var n := Dirs(s3.limit[nr]);
    FreeTablesStep(s3, {}, 16 * nr, n);
    var s4 := FreeTables(s3, 16 * nr, n).value;
    RolledBack(s2, s3, s4, nr, n);
    DropSlotStep(s4, {}, nr);
    var s' := DropSlot(s4, nr);
    RefusedTargets(s, s2, s4, s', nr);
    SameTargetsSameCounts(s, s');
  }

  /** A fork whose child is released at once is invisible as well: all its frames, and no others, are free again. */
  lemma ForkUndone(s: Mem, cur: int, nr: int, pcb: Page)
    requires Inv(s, {}) && 0 <= cur < NR_TASKS && 1 <= nr < NR_TASKS && cur != nr && s.slot[nr] == 0
    requires CopyProcess(s, cur, nr, pcb).Forked?
    ensures var s3 := CopyProcess(s, cur, nr, pcb).s;
      && Inv(s3, {}) && s3.slot[nr] != 0
      && FreeTables(s3, 16 * nr, Dirs(s3.limit[nr])).Some?
      && var s4 := FreeTables(s3, 16 * nr, Dirs(s3.limit[nr])).value;
      && !FreePanics(s4, s4.slot[nr]) && s4.dir == s.dir && s4.slot[nr] == s3.slot[nr]
      && var s' := DropSlot(s4, nr);
      && Inv(s', {}) && s'.memMap == s.memMap && s'.dir == s.dir && s'.slot == s.slot && SameViews(s, s')
  {
    hide FreeTables, Accounted, InRange, Exclusive, WriteOwned, OncePerSlice, HandFree, Slices, Boot, Target;
    hide Entry, ViewAt;
    hide CopyTables, CopyMem;
    ForkForked(s, cur, nr, pcb);
    hide CopyProcess;
    ForkStart(s, cur, nr, pcb);
    EmptySlice(s, nr);
    var s2 := TakeSlot(GetFree(s).1, nr, GetFree(s).0, s.limit[cur], pcb);
    CopyTablesStep(s2, {}, cur, nr, 16 * nr, Dirs(s.limit[cur]));
    hide GetFree;
    SliceUndone(s, s2, CopyProcess(s, cur, nr, pcb).s, nr);
  }

  lemma RefusedTargets(s: Mem, s2: Mem, s4: Mem, s': Mem, nr: int)
    requires Shape(s) && Shape(s2) && Shape(s4) && Shape(s') && 1 <= nr < NR_TASKS && s.slot[nr] == 0
    requires s4.dir == s2.dir == s.dir && s4.slot == s2.slot == s.slot[nr := s2.slot[nr]]
    requires forall d, t :: Addr(d, t, 0) ==> Entry(s2, d, t) == Entry(s, d, t)
    requires forall r :: RefOk(r) ==> Target(s4, r) == Target(s2, r)
    requires s' == DropSlot(s4, nr)
    ensures forall r :: RefOk(r) ==> Target(s', r) == Target(s, r)
    ensures s'.dir == s.dir && s'.slot == s.slot
  {
    forall r | RefOk(r) ensures Target(s', r) == Target(s, r) {
      if r.Pte? {
        assert Target(s', r) == Target(s4, r) == Target(s2, r);
      }
    }
  }

  // ---------------------------------------------------------------- write access

  lemma EntryInRange(s: Mem, hand: set<int>, d: int, t: int)
    requires Inv(s, hand) && 0 <= d < WORDS && 0 <= t < WORDS
    ensures Entry(s, d, t).p ==> Entry(s, d, t).frame < FRAMES
  {
    if d >= 16 {
      assert Target(s, Pte(d, t)) != -1 ==> Target(s, Pte(d, t)) == Entry(s, d, t).frame;
    }
  }

  /** write_verify on the page of table entry (d, t); None when un_wp_page runs out of memory. */
  ghost function WriteVerify(s: Mem, d: int, t: int): Option<Mem>
    requires Inv(s, {}) && 0 <= d < WORDS && 0 <= t < WORDS
  {
    if Entry(s, d, t).p && !Entry(s, d, t).rw then
      EntryInRange(s, {}, d, t);
      UnWp(s, d, t)
    else Some(s)
  }

  /** In the slice of task 0 everything present is writable: write_verify does nothing there. */
  lemma LowPage(s: Mem, d: int, t: int)
    requires Inv(s, {}) && 0 <= d < 16 && 0 <= t < WORDS
    ensures Entry(s, d, t) == if d < 4 then FullAccess(d * WORDS + t) else ZERO
    ensures WriteVerify(s, d, t) == Some(s)
  {
  }

  /** write_verify halts only for a protected page that somebody else refers to, or that is not counted, when no frame
      is free. */
  lemma WriteVerifyExactly(s: Mem, d: int, t: int)
    requires Inv(s, {}) && 16 <= d < WORDS && 0 <= t < WORDS
    ensures WriteVerify(s, d, t).None? <==>
      Entry(s, d, t).p && !Entry(s, d, t).rw && !OnlyRef(s, d, t) && Free(s) == {}
    ensures !Entry(s, d, t).p || Entry(s, d, t).rw ==> WriteVerify(s, d, t) == Some(s)
    ensures Entry(s, d, t).p && OnlyRef(s, d, t) && WriteVerify(s, d, t).Some? ==>
      WriteVerify(s, d, t).value.memMap == s.memMap
  {
    hide Accounted, InRange, Exclusive, WriteOwned, OncePerSlice, HandFree, Slices, Boot, Free, UnWp;
    if Entry(s, d, t).p && !Entry(s, d, t).rw {
      UnWpExactly(s, d, t);
    }
  }

  lemma WriteVerifyKeeps(s: Mem, d: int, t: int)
    requires Inv(s, {}) && 0 <= d < WORDS && 0 <= t < WORDS
    ensures WriteVerify(s, d, t).Some? ==>
      Inv(WriteVerify(s, d, t).value, {}) && TasksKept(s, WriteVerify(s, d, t).value)
  {
    OneFrame(s, {}, s, 0);
    WriteVerifyStep(s, d, t);
    hide Accounted, InRange, Exclusive, WriteOwned, OncePerSlice, HandFree, Slices, UnWp, TasksKept;
    if d < 16 {
      LowPage(s, d, t);
    } else if Entry(s, d, t).p && !Entry(s, d, t).rw {
      UnWpKeeps(s, d, t);
    }
  }

  /** The page can be written without being seen by anyone else. */
  ghost predicate Private(s: Mem, d: int, t: int)
    requires Shape(s) && 16 <= d < WORDS && 0 <= t < WORDS
  {
    Entry(s, d, t).p ==>
      CanWrite(s, Pte(d, t)) && forall q :: RefOk(q) && Target(s, q) == Target(s, Pte(d, t)) ==> q == Pte(d, t)
  }

  lemma CanWriteIsPrivate(s: Mem, d: int, t: int)
    requires Inv(s, {}) && 16 <= d < WORDS && 0 <= t < WORDS && (Entry(s, d, t).p ==> CanWrite(s, Pte(d, t)))
    ensures Private(s, d, t)
  {
  }

  lemma WriteVerifyStep(s: Mem, d: int, t: int)
    requires Inv(s, {}) && 0 <= d < WORDS && 0 <= t < WORDS
    ensures WriteVerify(s, d, t).None? ==> GetFree(s).0 == 0
    ensures WriteVerify(s, d, t).Some? ==>
      var s' := WriteVerify(s, d, t).value;
      && Inv(s', {}) && SameViews(s, s')
      && (if d < 16 then s' == s else Private(s', d, t))
      && s'.dir == s.dir && s'.slot == s.slot && s'.limit == s.limit
      && (forall e, u :: Addr(e, u, 0) && (e, u) != (d, t) ==> Entry(s', e, u) == Entry(s, e, u))
      && Entry(s', d, t).p == Entry(s, d, t).p
  {
    if d < 16 {
      LowPage(s, d, t);
    } else {
      if Entry(s, d, t).p && !Entry(s, d, t).rw {
        UnWpStep(s, {}, d, t);
      }
      if WriteVerify(s, d, t).Some? {
        CanWriteIsPrivate(WriteVerify(s, d, t).value, d, t);
      }
    }
  }

  // ---------------------------------------------------------------- verify_area

  const PAGES := 0x10_0000   // pages of the 4 GB linear space, which wraps

  // The directory and table entry of linear page p.
  function PageDir(p: int): int { p / WORDS % WORDS }
  function PageTab(p: int): int { p % WORDS }

  lemma PageSplit(p: int)
    ensures 0 <= PageDir(p) < WORDS && 0 <= PageTab(p) < WORDS
    ensures PageDir(p) * WORDS + PageTab(p) == p % PAGES
  {
    var q := p / WORDS;
    assert p == (q / WORDS) * PAGES + (q % WORDS) * WORDS + p % WORDS;
  }

  /** Linear page x is one of the n pages from p on, around the end of the linear space if need be. */
  predicate Visited(p: int, n: int, x: int) {
    (x - p) % PAGES < n
  }

  lemma VisitedNext(p: int, n: int, x: int)
    requires 0 < n <= PAGES && 0 <= x < PAGES
    ensures Visited(p, n, x) <==> x == p % PAGES || Visited(p + 1, n - 1, x)
    ensures !Visited(p + 1, n - 1, p % PAGES)
  {
  }

  lemma VisitedAt(p: int, n: int, k: int)
    requires 0 <= k < PAGES
    ensures Visited(p, n, p + k) <==> k < n
  {
  }

  lemma VisitedMod(p: int, n: int, x: int)
    ensures Visited(p, n, x % PAGES) <==> Visited(p, n, x)
  {
    assert (x % PAGES - p) % PAGES == (x - p) % PAGES;
  }

  /** write_verify at linear page p. */
  ghost function VerifyPage(s: Mem, p: int): (r: Option<Mem>)
    requires Inv(s, {})
    ensures r.Some? ==> Inv(r.value, {})
  {
    PageSplit(p);
    WriteVerifyStep(s, PageDir(p), PageTab(p));
    WriteVerify(s, PageDir(p), PageTab(p))
  }

  /** The loop of verify_area over n pages from linear page p on. */
  ghost function VerifyPages(s: Mem, p: int, n: nat): Option<Mem>
    requires Inv(s, {})
    decreases n
  {
    if n == 0 then Some(s)
    else
      match VerifyPage(s, p)
      case None => None
      case Some(s1) => VerifyPages(s1, p + 1, n - 1)
  }

  /** What verify_area leaves alone: everything but the entries of the pages it visits. */
  ghost predicate OnlyPages(s: Mem, s': Mem, p: int, n: int)
    requires Shape(s) && Shape(s')
  {
    && s'.dir == s.dir && s'.slot == s.slot && s'.limit == s.limit && SameViews(s, s')
    && (forall d, t :: Addr(d, t, 0) && !Visited(p, n, d * WORDS + t) ==> Entry(s', d, t) == Entry(s, d, t))
    && (forall d, t :: Addr(d, t, 0) ==> Entry(s', d, t).p == Entry(s, d, t).p)
  }

  ghost predicate AllPrivate(s: Mem, p: int, n: int)
    requires Shape(s)
  {
    forall d, t :: 16 <= d < WORDS && 0 <= t < WORDS && Visited(p, n, d * WORDS + t) ==> Private(s, d, t)
  }

  /** Page p is as private as it can be: its own task's, or one of task 0, where nothing is shared by counting. */
  ghost predicate PrivatePage(s: Mem, p: int)
    requires Shape(s)
  {
    PageSplit(p);
    PageDir(p) >= 16 ==> Private(s, PageDir(p), PageTab(p))
  }

  lemma VerifyOne(s: Mem, p: int)
    requires Inv(s, {})
    requires VerifyPage(s, p).Some?
    ensures var s1 := VerifyPage(s, p).value;
      Inv(s1, {}) && OnlyPages(s, s1, p, 1) && PrivatePage(s1, p)
  {
    assert Shape(s);
    hide Inv, Private, SameViews, WriteVerify, Entry, PageDir, PageTab, Visited;
    PageSplit(p);
    WriteVerifyStep(s, PageDir(p), PageTab(p));
    VisitedSelf(p, PageDir(p), PageTab(p));
  }

  lemma VisitedSelf(p: int, d: int, t: int)
    requires d == PageDir(p) && t == PageTab(p)
    ensures Visited(p, 1, d * WORDS + t)
  {
    PageSplit(p);
    VisitedNext(p, 1, p % PAGES);
  }

  lemma InvShape(s: Mem, hand: set<int>)
    requires Inv(s, hand)
    ensures Shape(s)
  {
  }

  lemma VerifyJoin(s: Mem, s1: Mem, s': Mem, p: int, n: nat)
    requires Shape(s) && Inv(s1, {}) && Inv(s', {}) && 0 < n <= PAGES
    requires OnlyPages(s, s1, p, 1) && PrivatePage(s1, p)
    requires OnlyPages(s1, s', p + 1, n - 1) && AllPrivate(s', p + 1, n - 1)
    ensures OnlyPages(s, s', p, n) && AllPrivate(s', p, n)
  {
    assert Shape(s1) && Shape(s');
    hide OnlyPages, AllPrivate, Private, Inv;
    PageSplit(p);
    var d, t := PageDir(p), PageTab(p);
    VisitedNext(p, n, p % PAGES);
    if d >= 16 {
      StillPrivate(s1, s', d, t, p + 1, n - 1);
    }
    OnlyPagesTrans(s, s1, s', p, n);
    AllPrivateMore(s', p, n);
  }

  lemma NoneVisited(s: Mem, p: int)
    requires Shape(s)
    ensures OnlyPages(s, s, p, 0) && AllPrivate(s, p, 0)
  {
    hide Private, Entry;
  }

  /** verify_area is complete and local over the pages it visits. */
  lemma {:induction false} VerifyPagesStep(s: Mem, p: int, n: nat)
    requires Inv(s, {}) && n <= PAGES
    ensures VerifyPages(s, p, n).Some? ==>
      var s' := VerifyPages(s, p, n).value;
      Inv(s', {}) && OnlyPages(s, s', p, n) && AllPrivate(s', p, n)
    decreases n
  {
    hide OnlyPages, AllPrivate, PrivatePage, Inv, Shape, VerifyPage;
    InvShape(s, {});
    if n == 0 {
      NoneVisited(s, p);
    } else if VerifyPages(s, p, n).Some? {
      VerifyOne(s, p);
      var s1 := VerifyPage(s, p).value;
      assert VerifyPages(s, p, n) == VerifyPages(s1, p + 1, n - 1);
      hide VerifyPages;
      VerifyPagesStep(s1, p + 1, n - 1);
      VerifyJoin(s, s1, VerifyPages(s1, p + 1, n - 1).value, p, n);
    }
  }

  lemma {:induction false} VerifyPagesKeeps(s: Mem, p: int, n: nat)
    requires Inv(s, {})
    ensures VerifyPages(s, p, n).Some? ==>
      Inv(VerifyPages(s, p, n).value, {}) && TasksKept(s, VerifyPages(s, p, n).value)
    decreases n
  {
    OneFrame(s, {}, s, 0);
    if n > 0 {
      PageSplit(p);
      WriteVerifyKeeps(s, PageDir(p), PageTab(p));
      hide Accounted, InRange, Exclusive, WriteOwned, OncePerSlice, HandFree, Slices, Boot, WriteVerify;
      hide PageDir, PageTab, TasksKept;
      var r := VerifyPage(s, p);
      if r.Some? {
        VerifyPagesKeeps(r.value, p + 1, n - 1);
        if VerifyPages(r.value, p + 1, n - 1).Some? {
          TasksTrans(s, r.value, VerifyPages(r.value, p + 1, n - 1).value);
        }
      }
    }
  }

  predicate NoneFree(s: Mem) {
    |s.memMap| == PAGING_PAGES && |s.phys| == FRAMES && GetFree(s).0 == 0
  }

  /** At linear page p un_wp_page would need a frame and there is none. */
  ghost predicate Blocked(s: Mem, p: int) {
    && Inv(s, {}) && 0 <= PageTab(p) < WORDS && 16 <= PageDir(p) < WORDS
    && Entry(s, PageDir(p), PageTab(p)).p && !Entry(s, PageDir(p), PageTab(p)).rw
    && !OnlyRef(s, PageDir(p), PageTab(p)) && Free(s) == {}
  }

  lemma StopsExactly(s: Mem, p: int)
    requires Inv(s, {})
    ensures VerifyPage(s, p).None? <==> Blocked(s, p)
    ensures Blocked(s, p) ==> NoneFree(s)
  {
    PageSplit(p);
    GetFreeCost(s);
    hide Accounted, InRange, Exclusive, WriteOwned, OncePerSlice, HandFree, Slices, OnlyRef, Free;
    if PageDir(p) < 16 {
      LowPage(s, PageDir(p), PageTab(p));
    } else {
      WriteVerifyExactly(s, PageDir(p), PageTab(p));
    }
    hide Boot, WriteVerify;
  }

  /** verify_area halts only at a page at which un_wp_page needs a frame and none is free. */
  lemma {:induction false} VerifyHalts(s: Mem, p: int, n: nat) returns (k: nat)
    requires Inv(s, {}) && VerifyPages(s, p, n).None?
    ensures k < n && VerifyPages(s, p, k).Some?
    ensures Blocked(VerifyPages(s, p, k).value, p + k) && NoneFree(VerifyPages(s, p, k).value)
    decreases n
  {
    hide Inv, VerifyPage, NoneFree, Blocked;
    StopsExactly(s, p);
    if VerifyPage(s, p).None? {
      k := 0;
    } else {
      k := VerifyHalts(VerifyPage(s, p).value, p + 1, n - 1);
      k := k + 1;
    }
  }

  /** And at such a page it does halt. */
  lemma {:induction false} VerifyMustHalt(s: Mem, p: int, n: nat, k: nat)
    requires Inv(s, {}) && k < n && VerifyPages(s, p, k).Some? && Blocked(VerifyPages(s, p, k).value, p + k)
    ensures VerifyPages(s, p, n).None?
    decreases n
  {
    hide Inv, VerifyPage, Blocked;
    if k == 0 {
      StopsExactly(s, p);
    } else {
      VerifyMustHalt(VerifyPage(s, p).value, p + 1, n - 1, k - 1);
    }
  }

  /** One of the n pages from p on is blocked when the loop gets to it. */
  ghost predicate BlockedWithin(s: Mem, p: int, n: nat)
    requires Inv(s, {})
  {
    exists k: nat :: k < n && VerifyPages(s, p, k).Some? && Blocked(VerifyPages(s, p, k).value, p + k)
  }

  lemma VerifyHaltsExactly(s: Mem, p: int, n: nat)
    requires Inv(s, {})
    ensures VerifyPages(s, p, n).None? <==> BlockedWithin(s, p, n)
  {
    hide Inv, Blocked, VerifyPages;
    if VerifyPages(s, p, n).None? {
      var k := VerifyHalts(s, p, n);
    } else if k: nat :| k < n && VerifyPages(s, p, k).Some? && Blocked(VerifyPages(s, p, k).value, p + k) {
      VerifyMustHalt(s, p, n, k);
    }
  }

  lemma OnlyPagesTrans(s: Mem, s1: Mem, s': Mem, p: int, n: int)
    requires Shape(s) && Shape(s1) && Shape(s') && 0 < n <= PAGES
    requires OnlyPages(s, s1, p, 1) && OnlyPages(s1, s', p + 1, n - 1)
    ensures OnlyPages(s, s', p, n)
  {
    hide Entry, ViewAt;
    forall d, t | Addr(d, t, 0) && !Visited(p, n, d * WORDS + t) ensures Entry(s', d, t) == Entry(s, d, t) {
      VisitedNext(p, n, d * WORDS + t);
      VisitedNext(p, 1, d * WORDS + t);
    }
  }

  lemma AllPrivateMore(s: Mem, p: int, n: int)
    requires Shape(s) && 0 < n <= PAGES
    requires PrivatePage(s, p) && AllPrivate(s, p + 1, n - 1)
    ensures AllPrivate(s, p, n)
  {
    hide Private, Entry;
    forall e, u | 16 <= e < WORDS && 0 <= u < WORDS && Visited(p, n, e * WORDS + u) ensures Private(s, e, u) {
      VisitedNext(p, n, e * WORDS + u);
      PageSplit(p);
    }
  }

  /** A page not visited later stays private: its entry is untouched and writable. */
  lemma StillPrivate(s: Mem, s': Mem, d: int, t: int, p: int, n: int)
    requires Inv(s, {}) && Inv(s', {}) && 16 <= d < WORDS && 0 <= t < WORDS && !Visited(p, n, d * WORDS + t)
    requires Private(s, d, t) && OnlyPages(s, s', p, n)
    ensures Private(s', d, t)
  {
    assert Entry(s', d, t) == Entry(s, d, t);
    CanWriteIsPrivate(s', d, t);
  }

  /** The number of pages verify_area visits: size is an unsigned 32-bit number, the loop test is signed. */
  function VerifyCount(addr: int, size: int): (n: nat)
    requires 0 <= addr < 0x1_0000_0000 && 0 <= size < 0x1_0000_0000
    ensures n <= PAGES / 2
  {
    var z := (size + addr % 4096) % 0x1_0000_0000;
    if z >= 0x8000_0000 then 0 else (z + 4095) / 4096
  }

  /** The visited pages cover [addr, addr + size) exactly when the rounded size is below 2^31:
      beyond that the signed loop test (or the wrap of the addition) ends the loop too early. */
  lemma VerifyCountCovers(addr: int, size: int)
    requires 0 <= addr < 0x1_0000_0000 && 0 <= size < 0x1_0000_0000
    ensures (addr - addr % 4096) + VerifyCount(addr, size) * 4096 >= addr + size
            <==> size + addr % 4096 < 0x8000_0000
    ensures size + addr % 4096 < 0x8000_0000 ==>
              (addr - addr % 4096) + VerifyCount(addr, size) * 4096 < addr + size + 4096
    ensures size + addr % 4096 >= 0x8000_0000 ==>
      VerifyCount(addr, size) <= 1 && (VerifyCount(addr, size) == 1 ==> size > 4096)
  {
    var off := addr % 4096;
    var z := (size + off) % 0x1_0000_0000;
    assert z < 0x8000_0000 ==> z <= (z + 4095) / 4096 * 4096 < z + 4096;
    assert size + off >= 0x1_0000_0000 ==> z == size + off - 0x1_0000_0000;
  }

  /** The linear page of byte b of the segment of task n; byte numbers may run past 2^32, where addresses wrap. */
  function LinearPage(n: int, b: int): int {
    n * 16384 + b / 4096
  }

  /** verify_area(addr, size) called by task n, whose segment starts at 64 MB * n. */
  ghost function VerifyArea(s: Mem, n: int, addr: int, size: int): Option<Mem>
    requires Inv(s, {}) && 0 <= n < NR_TASKS && 0 <= addr < 0x1_0000_0000 && 0 <= size < 0x1_0000_0000
  {
    VerifyPages(s, LinearPage(n, addr), VerifyCount(addr, size))
  }

  /** The area is visited completely if and only if its size, with the offset in the first page, is below 2^31. */
  lemma VerifyAreaCovers(n: int, addr: int, size: int)
    requires 0 <= n < NR_TASKS && 0 <= addr < 0x1_0000_0000 && 0 <= size < 0x1_0000_0000
    ensures (forall b :: addr <= b < addr + size ==>
      Visited(LinearPage(n, addr), VerifyCount(addr, size), LinearPage(n, b)))
            <==> size + addr % 4096 < 0x8000_0000
  {
    var p, cnt := LinearPage(n, addr), VerifyCount(addr, size);
    VerifyCountCovers(addr, size);
    hide Visited, VerifyCount;
    if size + addr % 4096 < 0x8000_0000 {
      forall b | addr <= b < addr + size ensures Visited(p, cnt, LinearPage(n, b)) {
        VisitedAt(p, cnt, b / 4096 - addr / 4096);
      }
    } else {
      var b := if cnt == 0 then addr else addr + 4096;
      VisitedAt(p, cnt, b / 4096 - addr / 4096);
      assert addr <= b < addr + size && !Visited(p, cnt, LinearPage(n, b));
    }
  }

  lemma LowKept(s: Mem, s': Mem)
    requires Inv(s, {}) && Inv(s', {})
    ensures forall d, t :: 0 <= d < 16 && 0 <= t < WORDS ==> Entry(s', d, t) == Entry(s, d, t)
  {
    forall d, t | 0 <= d < 16 && 0 <= t < WORDS ensures Entry(s', d, t) == Entry(s, d, t) {
      LowPage(s, d, t);
      LowPage(s', d, t);
    }
  }

  lemma VisitedPrivate(s: Mem, p: int, n: int, x: int)
    requires Shape(s) && AllPrivate(s, p, n) && Visited(p, n, x)
    ensures PrivatePage(s, x)
  {
    hide Private, Visited;
    PageSplit(x);
    VisitedMod(p, n, x);
  }

  /** verify_area for any 32-bit arguments: every present page that it visits, in whatever slice, is its task's own and
      writable afterwards; no view and no other entry has changed, and nothing in the slice of task 0. */
  lemma VerifyAreaComplete(s: Mem, n: int, addr: int, size: int)
    requires Inv(s, {}) && 0 <= n < NR_TASKS && 0 <= addr < 0x1_0000_0000 && 0 <= size < 0x1_0000_0000
    requires VerifyArea(s, n, addr, size).Some?
    ensures var s' := VerifyArea(s, n, addr, size).value;
      && Inv(s', {}) && OnlyPages(s, s', LinearPage(n, addr), VerifyCount(addr, size))
      && (forall d, t :: 0 <= d < 16 && 0 <= t < WORDS ==> Entry(s', d, t) == Entry(s, d, t))
      && (forall b :: addr <= b < addr + size && size + addr % 4096 < 0x8000_0000 ==> PrivatePage(s', LinearPage(n, b)))
    ensures (forall b :: addr <= b < addr + size ==>
      Visited(LinearPage(n, addr), VerifyCount(addr, size), LinearPage(n, b)))
            <==> size + addr % 4096 < 0x8000_0000
  {
    var p, cnt := LinearPage(n, addr), VerifyCount(addr, size);
    var s' := VerifyArea(s, n, addr, size).value;
    VerifyPagesStep(s, p, cnt);
    VerifyAreaCovers(n, addr, size);
    LowKept(s, s');
    assert Shape(s');
    hide AllPrivate, OnlyPages, PrivatePage, Inv, Entry, VerifyCount, LinearPage, Visited;
    forall b | addr <= b < addr + size && size + addr % 4096 < 0x8000_0000 ensures PrivatePage(s', LinearPage(n, b)) {
      VisitedPrivate(s', p, cnt, LinearPage(n, b));
    }
  }

  /** The area, rounded to pages, in the arithmetic of the source: nothing is visited when the rounded size is 0 or
      reads as negative; after a wrap only the page of addr may be. */
  predicate StaysInside(addr: int, size: int) {
    var z := size + addr % 4096;
    || z == 0
    || 0x8000_0000 <= z <= 0x1_0000_0000
    || (if z < 0x8000_0000 then addr - addr % 4096 + z <= 0x400_0000 else addr < 0x400_0000)
  }

  lemma StaysInsideCount(addr: int, size: int)
    requires 0 <= addr < 0x1_0000_0000 && 0 <= size < 0x1_0000_0000
    ensures StaysInside(addr, size) <==>
      VerifyCount(addr, size) == 0 || addr / 4096 + VerifyCount(addr, size) <= 16384
  {
  }

  lemma FirstOutside(n: int, p: int, a: int, cnt: int) returns (x: int)
    requires 0 <= n < NR_TASKS && 0 <= a < PAGES && p == n * 16384 + a && 0 < cnt <= PAGES && a + cnt > 16384
    ensures 0 <= x < PAGES && Visited(p, cnt, x) && x / 16384 != n
  {
    var k := if a < 16384 then 16384 - a else 0;
    x := (p + k) % PAGES;
    VisitedAt(p, cnt, k);
    VisitedMod(p, cnt, p + k);
  }

  lemma VisitedInside(n: int, p: int, a: int, cnt: int, x: int)
    requires 0 <= n < NR_TASKS && 0 <= a < PAGES && p == n * 16384 + a && 0 <= cnt && a + cnt <= 16384
    requires 0 <= x < PAGES && Visited(p, cnt, x)
    ensures x / 16384 == n
  {
    assert p <= x < p + cnt;
  }

  /** It visits pages of the caller's slice only, if and only if StaysInside says so: up to 2 GB, if and only if the
      rounded area ends within the 64 MB of the segment. */
  lemma VerifyAreaLocal(n: int, addr: int, size: int)
    requires 0 <= n < NR_TASKS && 0 <= addr < 0x1_0000_0000 && 0 <= size < 0x1_0000_0000
    ensures (forall x :: 0 <= x < PAGES && Visited(LinearPage(n, addr), VerifyCount(addr, size), x) ==> x / 16384 == n)
            <==> StaysInside(addr, size)
  {
    var a, cnt := addr / 4096, VerifyCount(addr, size);
    var p := LinearPage(n, addr);
    StaysInsideCount(addr, size);
    hide VerifyCount, StaysInside;
    if cnt == 0 {
      assert forall x :: !Visited(p, cnt, x);
    } else if a + cnt <= 16384 {
      forall x | 0 <= x < PAGES && Visited(p, cnt, x) ensures x / 16384 == n {
        VisitedInside(n, p, a, cnt, x);
      }
    } else {
      var x := FirstOutside(n, p, a, cnt);
    }
  }

  lemma BehindSegment(n: int)
    requires 0 <= n < NR_TASKS - 1
    ensures var x := LinearPage(n, 0x400_0000); PageDir(x) == 16 * (n + 1) && PageTab(x) == 0
  {
    assert LinearPage(n, 0x400_0000) == (n + 1) * 16384;
  }

  /** A pointer just behind the segment makes verify_area un-share a page of the next task's slice. */
  lemma PointerBeyondSegment(s: Mem, n: int)
    requires Inv(s, {}) && 0 <= n < NR_TASKS - 1
    requires Entry(s, 16 * (n + 1), 0).p && !Entry(s, 16 * (n + 1), 0).rw
    requires VerifyArea(s, n, 0x400_0000, 1).Some?
    ensures var s' := VerifyArea(s, n, 0x400_0000, 1).value;
      Shape(s') && Entry(s', 16 * (n + 1), 0).rw && SameViews(s, s')
  {
    hide Accounted, InRange, Exclusive, WriteOwned, OncePerSlice, HandFree, Slices, Boot, SameViews, Target;
    VerifyAreaComplete(s, n, 0x400_0000, 1);
    var s', x := VerifyArea(s, n, 0x400_0000, 1).value, LinearPage(n, 0x400_0000);
    BehindSegment(n);
    hide VerifyArea, VerifyCount, LinearPage, PageDir, PageTab, Visited;
    assert PrivatePage(s', x) && Addr(PageDir(x), 0, 0);
  }
}
