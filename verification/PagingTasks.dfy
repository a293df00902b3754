/** The pages that hold task structures: whatever the memory manager does, each keeps its contents as long as its slot
    is in use. And how many free frames the operations need: exactly when fork succeeds. */
module PagingTasks {
  import opened PageWord
  import opened PagingState
  import opened PagingSteps
  import opened PagingTables

  /** No slot has changed, and the page of every task in use is as it was. */
  ghost predicate TasksKept(s: Mem, s': Mem)
    requires Shape(s) && Shape(s')
  {
    && s'.slot == s.slot
    && forall n :: 1 <= n < NR_TASKS && s.slot[n] != 0 ==>
         0 <= s.slot[n] < FRAMES && s'.phys[s.slot[n]] == s.phys[s.slot[n]]
  }

  lemma TasksTrans(s: Mem, s1: Mem, s2: Mem)
    requires Shape(s) && Shape(s1) && Shape(s2) && TasksKept(s, s1) && TasksKept(s1, s2)
    ensures TasksKept(s, s2)
  {
  }

  /** A step that writes one frame, and no task's. */
  lemma OneFrame(s: Mem, hand: set<int>, s': Mem, f: int)
    requires Inv(s, hand) && Shape(s') && s'.slot == s.slot
    requires forall x :: 0 <= x < FRAMES && x != f ==> s'.phys[x] == s.phys[x]
    requires forall n :: 1 <= n < NR_TASKS && s.slot[n] != 0 ==> s.slot[n] != f
    ensures TasksKept(s, s')
  {
    forall n | 1 <= n < NR_TASKS && s.slot[n] != 0
      ensures 0 <= s.slot[n] < FRAMES && s'.phys[s.slot[n]] == s.phys[s.slot[n]]
    {
      assert Target(s, Slot(n)) == s.slot[n];
    }
  }

  lemma TasksRefl(s: Mem, hand: set<int>)
    requires Inv(s, hand)
    ensures Shape(s) && TasksKept(s, s)
  {
    OneFrame(s, hand, s, 0);
  }

  lemma GetFreeKeeps(s: Mem, hand: set<int>)
    requires Inv(s, hand)
    ensures Shape(GetFree(s).1) && TasksKept(s, GetFree(s).1)
  {
    var (f, s1) := GetFree(s);
    GetFreeTakes(s, hand);
    hide Accounted, Exclusive, WriteOwned, OncePerSlice, HandFree, Slices, Boot;
    forall n | 1 <= n < NR_TASKS && s.slot[n] != 0 ensures f != 0 ==> s.slot[n] != f {
      assert Target(s, Slot(n)) == s.slot[n];
    }
    OneFrame(s, hand, s1, f);
  }

  lemma SetEntryKeeps(s: Mem, hand: set<int>, d: int, t: int, w: Word)
    requires Inv(s, hand) && 16 <= d < WORDS && 0 <= t < WORDS && s.dir[d].p
    ensures Shape(SetEntry(s, d, t, w)) && TasksKept(s, SetEntry(s, d, t, w))
  {
    TableFrame(s, hand, d);
    hide Accounted, InRange, Exclusive, WriteOwned, OncePerSlice, HandFree, Slices, Boot;
    forall n | 1 <= n < NR_TASKS && s.slot[n] != 0 ensures s.slot[n] != s.dir[d].frame {
      assert Target(s, Slot(n)) == s.slot[n];
    }
    OneFrame(s, hand, SetEntry(s, d, t, w), s.dir[d].frame);
  }

  // ---------------------------------------------------------------- releasing

  lemma {:induction false} FreeEntriesKeeps(s: Mem, hand: set<int>, d: int, t: int)
    requires Inv(s, hand) && 16 <= d < WORDS && s.dir[d].p && 0 <= t <= WORDS
    ensures FreeEntries(s, d, t).Some? && TasksKept(s, FreeEntries(s, d, t).value)
    decreases WORDS - t
  {
    FreeEntriesStep(s, hand, d, t);
    hide Accounted, Exclusive, WriteOwned, OncePerSlice, HandFree, Slices, Boot;
    if t == WORDS {
      OneFrame(s, hand, s, 0);
    } else {
      DropEntryStep(s, hand, d, t);
      SetEntryKeeps(s, hand, d, t, ZERO);
      hide InRange, Target;
      var s1 := DropEntry(s, d, t);
      assert s1.phys == SetEntry(s, d, t, ZERO).phys && s1.slot == s.slot;
      hide DropEntry, SetEntry;
      FreeEntriesKeeps(s1, hand, d, t + 1);
      TasksTrans(s, s1, FreeEntries(s1, d, t + 1).value);
    }
  }

  lemma FreeTableKeeps(s: Mem, hand: set<int>, d: int)
    requires Inv(s, hand) && 16 <= d < WORDS
    ensures FreeTable(s, d).Some? && Inv(FreeTable(s, d).value, hand) && TasksKept(s, FreeTable(s, d).value)
  {
    FreeTableRound(s, hand, d);
    if s.dir[d].p {
      FreeEntriesKeeps(s, hand, d, 0);
    } else {
      OneFrame(s, hand, s, 0);
    }
    hide Accounted, InRange, Exclusive, WriteOwned, OncePerSlice, HandFree, Slices, Boot;
  }

  lemma FreeRoundKeeps(s: Mem, hand: set<int>, d: int, n: nat) returns (s1: Mem)
    requires Inv(s, hand) && 16 <= d && d + n <= WORDS && n > 0
    ensures Inv(s1, hand) && Shape(s1) && TasksKept(s, s1) && FreeTables(s, d, n) == FreeTables(s1, d + 1, n - 1)
  {
    FreeTableKeeps(s, hand, d);
    s1 := FreeTable(s, d).value;
    hide Accounted, InRange, Exclusive, WriteOwned, OncePerSlice, HandFree, Slices, Boot, FreeTable, TasksKept;
  }

  lemma {:induction false} FreeTablesKeeps(s: Mem, hand: set<int>, d: int, n: nat)
    requires Inv(s, hand) && 16 <= d && d + n <= WORDS
    ensures FreeTables(s, d, n).Some? && TasksKept(s, FreeTables(s, d, n).value)
    decreases n
  {
    TasksRefl(s, hand);
    hide Inv, Shape, TasksKept;
    if n > 0 {
      hide FreeTables;
      var s1 := FreeRoundKeeps(s, hand, d, n);
      FreeTablesKeeps(s1, hand, d + 1, n - 1);
      TasksTrans(s, s1, FreeTables(s1, d + 1, n - 1).value);
    }
  }

  // ---------------------------------------------------------------- copying

  lemma CopyEntryKeeps(s: Mem, hand: set<int>, cur: int, nr: int, dt: int, t: int)
    requires CopyPoint(s, hand, cur, nr, dt, t) && t < Share(cur)
    ensures Shape(ShareEntry(s, Twin(cur, nr, dt), dt, t)) && TasksKept(s, ShareEntry(s, Twin(cur, nr, dt), dt, t))
  {
    var df := Twin(cur, nr, dt);
    CopyOneEntry(s, hand, cur, nr, dt, t);
    if Entry(s, df, t).p {
      var w := Entry(s, df, t);
      ShareEntrySplit(s, hand, df, dt, t);
      SetEntryKeeps(s, hand, dt, t, w.ReadOnly());
      if w.frame >= LOW_FRAME {
        var s1 := SetEntry(s, df, t, w.ReadOnly());
        SetEntryKeeps(s, hand, df, t, w.ReadOnly());
        ReadOnlyStep(s, hand, df, t);
        SetEntryKeeps(s1, hand, dt, t, w.ReadOnly());
        hide Accounted, InRange, Exclusive, WriteOwned, OncePerSlice, HandFree, Slices, Boot, Target, ShareEntry;
        TasksTrans(s, s1, SetEntry(s1, dt, t, w.ReadOnly()));
      }
    } else {
      OneFrame(s, hand, s, 0);
    }
  }

  lemma {:induction false} CopyEntriesKeeps(s: Mem, hand: set<int>, cur: int, nr: int, dt: int, t: int)
    requires CopyPoint(s, hand, cur, nr, dt, t)
    ensures TasksKept(s, CopyEntries(s, Twin(cur, nr, dt), dt, t, Share(cur)))
    decreases WORDS - t
  {
    if t == Share(cur) {
      OneFrame(s, hand, s, 0);
    } else {
      var s1 := ShareEntry(s, Twin(cur, nr, dt), dt, t);
      hide Accounted, InRange, Exclusive, WriteOwned, OncePerSlice, HandFree, Slices, Boot, ShareEntry, TasksKept;
      CopyOneEntry(s, hand, cur, nr, dt, t);
      CopyEntryKeeps(s, hand, cur, nr, dt, t);
      CopyEntriesKeeps(s1, hand, cur, nr, dt, t + 1);
      TasksTrans(s, s1, CopyEntries(s1, Twin(cur, nr, dt), dt, t + 1, Share(cur)));
    }
  }

  lemma CopyTableKeeps(s: Mem, hand: set<int>, cur: int, nr: int, dt: int, n: int)
    requires CopyTodo(s, hand, cur, nr, dt, n) && n > 0 && s.dir[Twin(cur, nr, dt)].p
    ensures var r := CopyTable(s, Twin(cur, nr, dt), dt, Share(cur));
      r.Some? ==> TasksKept(s, r.value)
  {
    if GetFree(s).0 != 0 {
      CopyStart(s, hand, cur, nr, dt, n);
      GetFreeKeeps(s, hand);
      hide Accounted, InRange, Exclusive, WriteOwned, OncePerSlice, HandFree, Slices, Boot, GetFree;
      var s2 := LinkNew(GetFree(s).1, dt, GetFree(s).0);
      CopyEntriesKeeps(s2, hand, cur, nr, dt, 0);
      TasksTrans(s, s2, CopyEntries(s2, Twin(cur, nr, dt), dt, 0, Share(cur)));
    }
  }

  /** One round of the outer loop: what it leads to, or None when it finds no frame for the table. */
  lemma CopyRound(s: Mem, hand: set<int>, cur: int, nr: int, dt: int, n: nat) returns (r: Option<Mem>)
    requires CopyTodo(s, hand, cur, nr, dt, n) && n > 0
    ensures r == if s.dir[Twin(cur, nr, dt)].p then CopyTable(s, Twin(cur, nr, dt), dt, Share(cur)) else Some(s)
    ensures r.None? ==> CopyTables(s, Twin(cur, nr, dt), dt, n, Share(cur)) == NoMemory(s)
    ensures r.Some? ==>
      && CopyTodo(r.value, hand, cur, nr, dt + 1, n - 1) && TasksKept(s, r.value) && KeptOutside(s, r.value, nr)
      && CopyTables(s, Twin(cur, nr, dt), dt, n, Share(cur))
         == CopyTables(r.value, Twin(cur, nr, dt + 1), dt + 1, n - 1, Share(cur))
  {
    OneFrame(s, hand, s, 0);
    hide Accounted, InRange, Exclusive, WriteOwned, OncePerSlice, HandFree, Slices, Boot, TasksKept, Mirror, Entry;
    hide ViewsCopied, CopyTable, GetFree, ViewAt, Target;
    if !s.dir[Twin(cur, nr, dt)].p {
      NothingToCopy(s, hand, cur, nr, dt, n);
      r := Some(s);
    } else {
      CopyOneTable(s, hand, cur, nr, dt, n);
      CopyTableKeeps(s, hand, cur, nr, dt, n);
      r := CopyTable(s, Twin(cur, nr, dt), dt, Share(cur));
    }
  }

  lemma CopyTodoFits(s: Mem, hand: set<int>, cur: int, nr: int, dt: int, n: nat)
    requires CopyTodo(s, hand, cur, nr, dt, n)
    ensures Shape(s) && 0 <= dt && dt + n <= WORDS && 0 <= Twin(cur, nr, dt) && Twin(cur, nr, dt) + n <= WORDS
    ensures Twin(cur, nr, dt + 1) == Twin(cur, nr, dt) + 1 && TasksKept(s, s)
    ensures |s.dir| == WORDS && |s.memMap| == PAGING_PAGES
  {
    TasksRefl(s, hand);
  }

  lemma {:induction false} CopyTablesKeeps(s: Mem, hand: set<int>, cur: int, nr: int, dt: int, n: nat)
    requires CopyTodo(s, hand, cur, nr, dt, n)
    ensures var r := CopyTables(s, Twin(cur, nr, dt), dt, n, Share(cur));
      !r.AlreadyExists? && TasksKept(s, r.s)
    decreases n
  {
    hide CopyTodo, Inv, TasksKept, KeptOutside, Shape, Twin, CopyTable;
    CopyTodoFits(s, hand, cur, nr, dt, n);
    if n > 0 {
      hide CopyTables;
      var r := CopyRound(s, hand, cur, nr, dt, n);
      if r.Some? {
        CopyTodoFits(r.value, hand, cur, nr, dt + 1, n - 1);
        CopyTablesKeeps(r.value, hand, cur, nr, dt + 1, n - 1);
        TasksTrans(s, r.value, CopyTables(r.value, Twin(cur, nr, dt + 1), dt + 1, n - 1, Share(cur)).s);
      }
    }
  }

  // ---------------------------------------------------------------- faults and stores

  lemma PutPageKeeps(s: Mem, hand: set<int>, f: FrameNo, d: int, t: int)
    requires Inv(s, hand) && 16 <= d < WORDS && 0 <= t < WORDS
    requires s.slot[d / 16] != 0 && d % 16 < Dirs(s.limit[d / 16])
    ensures PutPage(s, f, d, t).Some? ==> Shape(PutPage(s, f, d, t).value) && TasksKept(s, PutPage(s, f, d, t).value)
  {
    if s.dir[d].p {
      SetEntryKeeps(s, hand, d, t, FullAccess(f));
    } else {
      NewTable(s, hand, d);
      GetFreeKeeps(s, hand);
      var (g, s1) := GetFree(s);
      hide Accounted, InRange, Exclusive, WriteOwned, OncePerSlice, HandFree, Slices, Boot, GetFree;
      if g != 0 {
        var s2 := s1.(dir := s1.dir[d := FullAccess(g)]);
        SetEntryKeeps(s2, hand, d, t, FullAccess(f));
        TasksTrans(s, s2, SetEntry(s2, d, t, FullAccess(f)));
      }
    }
  }

  lemma NoPageKeeps(s: Mem, d: int, t: int)
    requires Inv(s, {}) && 16 <= d < WORDS && 0 <= t < WORDS
    requires s.slot[d / 16] != 0 && d % 16 < Dirs(s.limit[d / 16])
    ensures NoPage(s, d, t).Some? ==> Shape(NoPage(s, d, t).value) && TasksKept(s, NoPage(s, d, t).value)
  {
    var (f, s1) := GetFree(s);
    GetFreeTakes(s, {});
    GetFreeKeeps(s, {});
    hide Accounted, InRange, Exclusive, WriteOwned, OncePerSlice, HandFree, Slices, Boot, GetFree, PutPage;
    if f != 0 {
      PutPageKeeps(s1, {} + {f}, f, d, t);
      if PutPage(s1, f, d, t).Some? {
        TasksTrans(s, s1, PutPage(s1, f, d, t).value);
      }
    }
  }

  lemma CopyOutKeeps(s: Mem, hand: set<int>, d: int, t: int, g: FrameNo)
    requires Inv(s, hand) && 16 <= d < WORDS && 0 <= t < WORDS && s.dir[d].p && Entry(s, d, t).p
    requires Entry(s, d, t).frame < FRAMES && g in hand && g < FRAMES
    ensures var s' := CopyOut(s, d, t, Entry(s, d, t).frame, g); Shape(s') && TasksKept(s, s')
  {
    CopyOutStep(s, hand, d, t, g);
    SetEntryKeeps(s, hand, d, t, FullAccess(g));
    var s2, s' := SetEntry(s, d, t, FullAccess(g)), CopyOut(s, d, t, Entry(s, d, t).frame, g);
    forall n | 1 <= n < NR_TASKS && s.slot[n] != 0 ensures s'.phys[s.slot[n]] == s2.phys[s.slot[n]] {
      assert Target(s, Slot(n)) != g;
    }
  }

  lemma UnWpKeeps(s: Mem, d: int, t: int)
    requires Inv(s, {}) && 16 <= d < WORDS && 0 <= t < WORDS && s.dir[d].p && Entry(s, d, t).p
    ensures Entry(s, d, t).frame < FRAMES
    ensures UnWp(s, d, t).Some? ==> Shape(UnWp(s, d, t).value) && TasksKept(s, UnWp(s, d, t).value)
  {
    hide Accounted, InRange, Exclusive, WriteOwned, OncePerSlice, HandFree, Slices, Boot, CopyOut, SetEntry, Target;
    UnWpStep(s, {}, d, t);
    var w := Entry(s, d, t);
    if w.frame >= LOW_FRAME && s.memMap[w.frame - LOW_FRAME] == 1 {
      SetEntryKeeps(s, {}, d, t, w.Writable());
    } else if UnWp(s, d, t).Some? {
      var (g, s1) := GetFree(s);
      GetFreeTakes(s, {});
      GetFreeKeeps(s, {});
      hide GetFree;
      assert Entry(s1, d, t) == w;
      CopyOutKeeps(s1, {} + {g}, d, t, g);
      TasksTrans(s, s1, CopyOut(s1, d, t, w.frame, g));
    }
  }

  lemma StoreKeeps(s: Mem, d: int, t: int, o: int, v: Word)
    requires Inv(s, {}) && Addr(d, t, o) && 16 <= d && CanWrite(s, Pte(d, t))
    ensures Entry(s, d, t).frame < FRAMES
    ensures Shape(StoreWord(s, d, t, o, v)) && TasksKept(s, StoreWord(s, d, t, o, v))
  {
    StoreWordStep(s, {}, d, t, o, v);
    var f := Entry(s, d, t).frame;
    assert Target(s, Pte(d, t)) == f;
    forall n | 1 <= n < NR_TASKS && s.slot[n] != 0 ensures s.slot[n] != f {
      assert Target(s, Slot(n)) == s.slot[n];
    }
    OneFrame(s, {}, StoreWord(s, d, t, o, v), f);
  }

  // ---------------------------------------------------------------- free frames

  /** The free frames, by their place in mem_map. */
  function Free(s: Mem): set<int>
    requires |s.memMap| == PAGING_PAGES
  {
    set i | 0 <= i < PAGING_PAGES && s.memMap[i] == 0
  }

  /** get_free_page fails only when no frame is free, and takes one. */
  lemma GetFreeCost(s: Mem)
    requires Shape(s)
    ensures GetFree(s).0 == 0 <==> Free(s) == {}
    ensures GetFree(s).0 == 0 ==> GetFree(s).1 == s
    ensures GetFree(s).0 != 0 ==> |GetFree(s).1.memMap| == PAGING_PAGES && |Free(GetFree(s).1)| == |Free(s)| - 1
  {
    var (f, s1) := GetFree(s);
    if f == 0 {
      assert Free(s) == {};
    } else {
      assert f - LOW_FRAME in Free(s);
      assert Free(s1) == Free(s) - {f - LOW_FRAME};
    }
  }

  lemma ShareCost(s: Mem, hand: set<int>, cur: int, nr: int, dt: int, t: int)
    requires CopyPoint(s, hand, cur, nr, dt, t) && t < Share(cur)
    ensures var s' := ShareEntry(s, Twin(cur, nr, dt), dt, t); |s'.memMap| == PAGING_PAGES && Free(s') == Free(s)
  {
    var df := Twin(cur, nr, dt);
    var w := Entry(s, df, t);
    if w.p {
      ShareEntrySplit(s, hand, df, dt, t);
      if w.frame >= LOW_FRAME {
        assert Target(s, Pte(df, t)) == w.frame;
        Counted(s, hand, Pte(df, t));
        CountsFit(s, hand, w.frame);
      }
    }
  }

  lemma {:induction false} CopyEntriesCost(s: Mem, hand: set<int>, cur: int, nr: int, dt: int, t: int)
    requires CopyPoint(s, hand, cur, nr, dt, t)
    ensures Free(CopyEntries(s, Twin(cur, nr, dt), dt, t, Share(cur))) == Free(s)
    decreases WORDS - t
  {
    if t < Share(cur) {
      var s1 := ShareEntry(s, Twin(cur, nr, dt), dt, t);
      hide Accounted, InRange, Exclusive, WriteOwned, OncePerSlice, HandFree, Slices, Boot, ShareEntry;
      CopyOneEntry(s, hand, cur, nr, dt, t);
      ShareCost(s, hand, cur, nr, dt, t);
      CopyEntriesCost(s1, hand, cur, nr, dt, t + 1);
    }
  }

  /** A table to copy into costs one frame; sharing its entries costs none. */
  lemma CopyTableCost(s: Mem, hand: set<int>, cur: int, nr: int, dt: int, n: int)
    requires CopyTodo(s, hand, cur, nr, dt, n) && n > 0 && s.dir[Twin(cur, nr, dt)].p
    ensures var r := CopyTable(s, Twin(cur, nr, dt), dt, Share(cur));
      && (r.None? <==> Free(s) == {})
      && (r.Some? ==> |Free(r.value)| == |Free(s)| - 1)
  {
    GetFreeCost(s);
    if GetFree(s).0 != 0 {
      CopyStart(s, hand, cur, nr, dt, n);
      hide Accounted, InRange, Exclusive, WriteOwned, OncePerSlice, HandFree, Slices, Boot, GetFree, Free;
      var s2 := LinkNew(GetFree(s).1, dt, GetFree(s).0);
      CopyEntriesCost(s2, hand, cur, nr, dt, 0);
      assert Free(s2) == Free(GetFree(s).1) by {
        SameMapSameFree(s2, GetFree(s).1);
      }
    }
  }

  lemma SameMapSameFree(s: Mem, s': Mem)
    requires |s.memMap| == PAGING_PAGES && s'.memMap == s.memMap
    ensures Free(s') == Free(s)
  {
  }

  /** How many of the n directory entries from d on have a table. */
  function Tables(dir: seq<Word>, d: int, n: nat): nat
    requires 0 <= d && d + n <= |dir|
    decreases n
  {
    if n == 0 then 0 else (if dir[d].p then 1 else 0) + Tables(dir, d + 1, n - 1)
  }

  lemma {:induction false} TablesSame(dir: seq<Word>, dir': seq<Word>, d: int, n: nat)
    requires 0 <= d && d + n <= |dir| == |dir'| && forall e :: d <= e < d + n ==> dir'[e].p == dir[e].p
    ensures Tables(dir', d, n) == Tables(dir, d, n)
    decreases n
  {
    if n > 0 {
      TablesSame(dir, dir', d + 1, n - 1);
    }
  }

  /** What a round of copy_page_tables costs. */
  lemma CopyRoundCost(s: Mem, hand: set<int>, cur: int, nr: int, dt: int, n: nat) returns (r: Option<Mem>)
    requires CopyTodo(s, hand, cur, nr, dt, n) && n > 0
    ensures Shape(s) && 0 <= Twin(cur, nr, dt) && Twin(cur, nr, dt) + n <= WORDS
    ensures r.None? ==>
      CopyTables(s, Twin(cur, nr, dt), dt, n, Share(cur)) == NoMemory(s)
      && Free(s) == {} && s.dir[Twin(cur, nr, dt)].p
    ensures r.Some? ==>
      && CopyTodo(r.value, hand, cur, nr, dt + 1, n - 1) && |r.value.dir| == WORDS && |r.value.memMap| == PAGING_PAGES
      && CopyTables(s, Twin(cur, nr, dt), dt, n, Share(cur))
         == CopyTables(r.value, Twin(cur, nr, dt) + 1, dt + 1, n - 1, Share(cur))
      && Tables(r.value.dir, Twin(cur, nr, dt) + 1, n - 1) == Tables(s.dir, Twin(cur, nr, dt) + 1, n - 1)
      && |Free(r.value)| == |Free(s)| - if s.dir[Twin(cur, nr, dt)].p then 1 else 0
  {
    hide Accounted, InRange, Exclusive, WriteOwned, OncePerSlice, HandFree, Slices, Boot, Mirror;
    hide TasksKept, CopyTables, CopyTable, Free;
    r := CopyRound(s, hand, cur, nr, dt, n);
    if s.dir[Twin(cur, nr, dt)].p {
      CopyTableCost(s, hand, cur, nr, dt, n);
    }
    if r.Some? {
      TablesSame(s.dir, r.value.dir, Twin(cur, nr, dt) + 1, n - 1);
    }
  }

  /** copy_page_tables succeeds if and only if there is a free frame for every table it copies, and takes just these. */
  lemma {:induction false} CopyTablesCost(s: Mem, hand: set<int>, cur: int, nr: int, dt: int, n: nat)
    requires CopyTodo(s, hand, cur, nr, dt, n)
    ensures Shape(s) && 0 <= dt && dt + n <= WORDS && 0 <= Twin(cur, nr, dt) && Twin(cur, nr, dt) + n <= WORDS
    ensures var r := CopyTables(s, Twin(cur, nr, dt), dt, n, Share(cur));
      && (r.Copied? <==> |Free(s)| >= Tables(s.dir, Twin(cur, nr, dt), n))
      && (r.Copied? ==> |Free(r.s)| == |Free(s)| - Tables(s.dir, Twin(cur, nr, dt), n))
    decreases n
  {
    hide CopyTodo, Inv, Shape, CopyTable, TasksKept, Free;
    CopyTodoFits(s, hand, cur, nr, dt, n);
    if n > 0 {
      var df := Twin(cur, nr, dt);
      assert Tables(s.dir, df, n) == (if s.dir[df].p then 1 else 0) + Tables(s.dir, df + 1, n - 1);
      hide CopyTables, Tables, Twin;
      var r := CopyRoundCost(s, hand, cur, nr, dt, n);
      if r.Some? {
        CopyTablesCost(r.value, hand, cur, nr, dt + 1, n - 1);
      }
    }
  }

  /** A missing page is supplied if and only if there are frames for it and, where that is missing too, for its
      table. */
  lemma NoPageExactly(s: Mem, d: int, t: int)
    requires Shape(s) && 0 <= d < WORDS && 0 <= t < WORDS
    ensures NoPage(s, d, t).Some? <==> |Free(s)| >= if s.dir[d].p then 1 else 2
  {
    GetFreeCost(s);
    var (f, s1) := GetFree(s);
    if f != 0 {
      assert Shape(s1);
      GetFreeCost(s1);
    }
    hide Free;
  }

  /** Pte(d, t) is the only reference to a frame that is counted. */
  ghost predicate OnlyRef(s: Mem, d: int, t: int)
    requires Shape(s) && 16 <= d < WORDS && 0 <= t < WORDS
  {
    Entry(s, d, t).frame >= LOW_FRAME
    && forall q :: RefOk(q) && Target(s, q) == Entry(s, d, t).frame ==> q == Pte(d, t)
  }

  lemma OnlyRefCount(s: Mem, d: int, t: int)
    requires Inv(s, {}) && 16 <= d < WORDS && 0 <= t < WORDS && Entry(s, d, t).p
    ensures Entry(s, d, t).frame < FRAMES
    ensures OnlyRef(s, d, t) <==> Entry(s, d, t).frame >= LOW_FRAME && s.memMap[Entry(s, d, t).frame - LOW_FRAME] == 1
  {
    var f, r := Entry(s, d, t).frame, Pte(d, t);
    assert Target(s, r) == f;
    if f >= LOW_FRAME {
      Counted(s, {}, r);
      if OnlyRef(s, d, t) {
        assert Refs(s, f) == {r};
      }
    }
  }

  /** un_wp_page: a page that nobody else refers to becomes writable where it is; any other is moved to a new frame, and
      only when none is free does the machine halt. */
  lemma UnWpExactly(s: Mem, d: int, t: int)
    requires Inv(s, {}) && 16 <= d < WORDS && 0 <= t < WORDS && s.dir[d].p && Entry(s, d, t).p
    ensures Entry(s, d, t).frame < FRAMES
    ensures UnWp(s, d, t).None? <==> !OnlyRef(s, d, t) && Free(s) == {}
    ensures UnWp(s, d, t).Some? ==>
      var s' := UnWp(s, d, t).value;
      if OnlyRef(s, d, t) then Entry(s', d, t) == Entry(s, d, t).Writable() && s'.memMap == s.memMap
      else Entry(s', d, t) == FullAccess(GetFree(s).0)
  {
    hide Accounted, InRange, Exclusive, WriteOwned, OncePerSlice, HandFree, Slices, Boot, Free, OnlyRef, CopyOut;
    OnlyRefCount(s, d, t);
    GetFreeCost(s);
    if UnWp(s, d, t).Some? && !OnlyRef(s, d, t) {
      var (g, s1) := GetFree(s);
      MovedEntry(s, {}, s1, d, t, g);
    }
  }

  lemma MovedEntry(s: Mem, hand: set<int>, s1: Mem, d: int, t: int, g: FrameNo)
    requires Inv(s, hand) && 16 <= d < WORDS && 0 <= t < WORDS && s.dir[d].p && Entry(s, d, t).p
    requires (g as int, s1) == GetFree(s) && g != 0 && Entry(s, d, t).frame < FRAMES
    ensures |s1.memMap| == PAGING_PAGES && |s1.phys| == FRAMES && g < FRAMES
    ensures var s' := CopyOut(s1, d, t, Entry(s, d, t).frame, g); Shape(s') && Entry(s', d, t) == FullAccess(g)
  {
    GetFreeTakes(s, hand);
    NoTable(s, g);
  }
}
