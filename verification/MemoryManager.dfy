/** mm/memory.c and the memory part of kernel/fork.c as they run: arrays updated in place,
    each routine tied to the specification functions of the Paging modules. */
module MemoryManager {
  import opened PageWord
  import opened PagingState
  import opened PagingSteps
  import opened PagingTables
  import opened PagingProcess
  import opened PagingRuns

  /** Failed is the return value -1 (or 0 for put_page); Panic covers panic and oom, which do not return. */
  datatype Status = Done | Failed | Panic

  /** Frames 1 to 4 hold the boot page tables; the rest is taken as zero. */
  function BootPage(f: int): Page {
    if 1 <= f <= 4 then BootTable(f - 1) else ZeroPage()
  }

  /** A 32-bit unsigned number read as a signed one. */
  function Signed(x: int): int {
    if x < 0x8000_0000 then x else x - 0x1_0000_0000
  }

  /** The loop of verify_area still runs cnt times when left bytes are left. */
  predicate Rounds(left: int, cnt: int) {
    cnt <= PAGES / 2 && Signed(left) <= cnt * 4096 && (cnt > 0 ==> Signed(left) > (cnt - 1) * 4096)
  }

  lemma CountStarts(addr: int, size: int)
    requires 0 <= addr < 0x1_0000_0000 && 0 <= size < 0x1_0000_0000
    ensures Rounds((size + addr % 4096) % 0x1_0000_0000, VerifyCount(addr, size))
  {
  }

  lemma CountDown(left: int, cnt: int)
    requires 0 <= left < 0x1_0000_0000 && cnt >= 0 && Signed(left) > 0 && Rounds(left, cnt)
    ensures cnt > 0 && Rounds((left - 4096) % 0x1_0000_0000, cnt - 1)
  {
  }

  lemma NoRounds(left: int, cnt: int)
    requires cnt >= 0 && Signed(left) <= 0 && Rounds(left, cnt)
    ensures cnt == 0
  {
  }

  lemma PageAddress(p: int, start: int)
    requires start == p % PAGES * 4096
    ensures 0 <= start < 0x1_0000_0000 && start / 0x40_0000 == PageDir(p) && start / 4096 % WORDS == PageTab(p)
    ensures (start + 4096) % 0x1_0000_0000 == (p + 1) % PAGES * 4096
  {
    PageSplit(p);
  }

  lemma Wrapped(n: int, q: int, r: int)
    requires n == q * 0x1_0000_0000 + r && 0 <= r < 0x1_0000_0000
    ensures n % 0x1_0000_0000 == r
  {
  }

  lemma PageStart(address: int)
    requires 0 <= address < 0x1_0000_0000
    ensures var a := address - address % 4096;
      0 <= a < 0x1_0000_0000 && a / 4096 == address / 4096 && a / 0x40_0000 == address / 0x40_0000
  {
  }

  lemma FirstAddress(n: int, addr: int)
    requires 0 <= n < NR_TASKS && 0 <= addr < 0x1_0000_0000
    ensures (addr - addr % 4096 + n * 0x400_0000) % 0x1_0000_0000 == LinearPage(n, addr) % PAGES * 4096
  {
    var x := LinearPage(n, addr);
    assert addr - addr % 4096 + n * 0x400_0000 == x * 4096;
    Wrapped(x * 4096, x / PAGES, x % PAGES * 4096);
  }

  /** What head.s and mem_init leave behind is the boot state. */
  lemma MadeBoot(s: Mem)
    requires |s.memMap| == PAGING_PAGES && |s.dir| == WORDS && |s.phys| == FRAMES && |s.slot| == |s.limit| == NR_TASKS
    requires LOW_FRAME <= s.start <= s.high <= FRAMES
    requires forall j :: 0 <= j < PAGING_PAGES ==> s.memMap[j] == if s.start <= j + LOW_FRAME < s.high then 0 else USED
    requires forall d :: 0 <= d < WORDS ==> s.dir[d] == if d < 4 then FullAccess(d + 1) else ZERO
    requires forall f :: 0 <= f < FRAMES ==> s.phys[f] == BootPage(f)
    requires forall n :: 0 <= n < NR_TASKS ==> s.slot[n] == 0 && s.limit[n] == 0xA_0000
    ensures BootState(s) && Inv(s, {})
  {
    BootInv(s);
  }

  class Memory {
    const memMap: array<int>
    const pgDir: array<Word>
    const phys: array<Page>
    const task: array<int>
    const limit: array<int>
    var highMemory: int
    ghost var startMemory: int

    ghost function Abs(): Mem
      reads this, memMap, pgDir, phys, task, limit
    {
      Mem(memMap[..], pgDir[..], phys[..], task[..], limit[..], startMemory, highMemory)
    }

    ghost predicate Shaped()
      reads this, memMap, pgDir, phys, task, limit
    {
      && memMap.Length == PAGING_PAGES && pgDir.Length == WORDS && phys.Length == FRAMES
      && task.Length == NR_TASKS && limit.Length == NR_TASKS
      && memMap != task && memMap != limit && task != limit
      && Shape(Abs())
    }

    ghost predicate Valid()
      reads this, memMap, pgDir, phys, task, limit
    {
      Shaped() && Inv(Abs(), {})
    }

    /** The machine after head.s has built the boot tables and main has called mem_init(start, end). */
    constructor (start: int, end: int)
      requires LOW_MEM <= start <= end <= FRAMES * 4096 && start % 4096 == 0 && end % 4096 == 0
      ensures Shaped() && BootState(Abs()) && Valid()
      ensures fresh(memMap) && fresh(pgDir) && fresh(phys) && fresh(task) && fresh(limit)
    {
      memMap := new int[PAGING_PAGES](_ => 0);
      pgDir := new Word[WORDS](d => if 0 <= d < 4 then FullAccess(d + 1) else ZERO);
      phys := new Page[FRAMES](BootPage);
      task := new int[NR_TASKS](_ => 0);
      limit := new int[NR_TASKS](_ => 0xA_0000);
      new;
      MemInit(start, end);
      hide Shape, BootState, Inv, BootPage;
      MadeBoot(Abs());
    }

    /** mem_init: everything used, then main memory [start, end) free, as far as it has whole pages. HIGH_MEMORY is
        compared with page addresses only, so it is kept as the first page at or above it. */
    method MemInit(start: int, end: int)
      requires memMap.Length == PAGING_PAGES && LOW_MEM <= start <= end <= FRAMES * 4096
      modifies memMap, this
      ensures highMemory == (end + 4095) / 4096 && startMemory == start / 4096
      ensures forall j :: 0 <= j < PAGING_PAGES ==>
        memMap[j] == if startMemory <= j + LOW_FRAME < startMemory + (end - start) / 4096 then 0 else USED
    {
      highMemory := (end + 4095) / 4096;
      startMemory := start / 4096;
      var i := 0;
      while i < PAGING_PAGES
        invariant 0 <= i <= PAGING_PAGES && highMemory == (end + 4095) / 4096 && startMemory == start / 4096
        invariant forall j :: 0 <= j < i ==> memMap[j] == USED
      {
        memMap[i] := USED;
        i := i + 1;
      }
      i := (start - LOW_MEM) / 4096;
      var left := (end - start) / 4096;
      while left > 0
        invariant highMemory == (end + 4095) / 4096 && startMemory == start / 4096
        invariant 0 <= left && i + left == startMemory - LOW_FRAME + (end - start) / 4096
        invariant startMemory - LOW_FRAME <= i
        invariant forall j :: 0 <= j < PAGING_PAGES ==>
          memMap[j] == if startMemory - LOW_FRAME <= j < i then 0 else USED
      {
        memMap[i] := 0;
        i, left := i + 1, left - 1;
      }
    }

    /** get_free_page: the backward scan of the count bytes; returns the frame, or 0. */
    method GetFreePage() returns (f: int)
      requires Shaped()
      modifies memMap, phys
      ensures Shaped() && (f, Abs()) == GetFree(old(Abs()))
    {
      var i := PAGING_PAGES;
      while i > 0 && memMap[i - 1] != 0
        invariant 0 <= i <= PAGING_PAGES
        invariant forall j :: i <= j < PAGING_PAGES ==> memMap[j] != 0
      {
        i := i - 1;
      }
      ghost var h := HighestFree(memMap[..], |memMap[..]|);
      if i == 0 {
        assert h == -1;
        return 0;
      }
      assert h == i - 1;
      memMap[i - 1] := 1;
      f := i - 1 + LOW_FRAME;
      phys[f] := ZeroPage();
      assert memMap[..] == old(memMap[..])[i - 1 := 1];
      assert phys[..] == old(phys[..])[f := ZeroPage()];
    }

    /** free_page; true when it panics. */
    method FreePage(f: int) returns (panic: bool)
      requires Shaped()
      modifies memMap
      ensures Shaped() && Abs() == FreeFrame(old(Abs()), f) && panic == FreePanics(old(Abs()), f)
    {
      panic := false;
      if f < LOW_FRAME || f >= highMemory {
        return;
      }
      var i := f - LOW_FRAME;
      if memMap[i] != 0 {
        memMap[i] := memMap[i] - 1;
        assert memMap[..] == old(memMap[..])[i := old(memMap[i]) - 1];
        return;
      }
      memMap[i] := 0;
      assert memMap[..] == old(memMap[..]);
      panic := true;
    }

    /** Stores one word through a pointer into the table of directory entry d. */
    method WriteEntry(d: int, t: int, w: Word)
      requires Shaped() && 0 <= d < WORDS && 0 <= t < WORDS && pgDir[d].p
      modifies phys
      ensures Shaped() && Abs() == SetEntry(old(Abs()), d, t, w)
    {
      var f := pgDir[d].frame;
      phys[f] := phys[f][t := w];
      assert phys[..] == old(phys[..])[f := old(phys[f])[t := w]];
    }

    method WriteDir(d: int, w: Word)
      requires Shaped() && 0 <= d < WORDS && (w.p ==> w.frame < FRAMES)
      modifies pgDir
      ensures Shaped() && Abs() == old(Abs()).(dir := old(Abs()).dir[d := w])
    {
      pgDir[d] := w;
      assert pgDir[..] == old(pgDir[..])[d := w];
    }

    /** free_page_tables(from, size). */
    method FreePageTables(from: int, size: int) returns (st: Status)
      requires Shaped() && 0 <= from && 0 <= size && from / 0x40_0000 + Dirs(size) <= WORDS
      modifies memMap, pgDir, phys
      ensures Shaped()
      ensures from % 0x40_0000 != 0 || from == 0 ==> st == Panic && Abs() == old(Abs())
      ensures from % 0x40_0000 == 0 && from != 0 ==>
        match FreeTables(old(Abs()), from / 0x40_0000, Dirs(size))
        case None => st == Panic
        case Some(s) => st == Done && Abs() == s
    {
      if from % 0x40_0000 != 0 {
        return Panic;
      }
      if from == 0 {
        return Panic;
      }
      st := FreeAllTables(from / 0x40_0000, Dirs(size));
    }

    /** The outer loop of free_page_tables over n tables from directory entry first on. */
    method FreeAllTables(first: int, count: nat) returns (st: Status)
      requires Shaped() && 0 <= first && first + count <= WORDS
      modifies memMap, pgDir, phys
      ensures Shaped()
      ensures match FreeTables(old(Abs()), first, count)
        case None => st == Panic
        case Some(s) => st == Done && Abs() == s
    {
      hide FreeTable;
      var d, n := first, count;
      while n > 0
        invariant 0 <= n && 0 <= d && d + n == first + count
        invariant Shaped()
        invariant FreeTables(Abs(), d, n) == FreeTables(old(Abs()), first, count)
      {
        var ok := FreeOneTable(d);
        if !ok {
          return Panic;
        }
        d, n := d + 1, n - 1;
      }
      return Done;
    }

    /** One round of the outer loop of free_page_tables. */
    method FreeOneTable(d: int) returns (ok: bool)
      requires Shaped() && 0 <= d < WORDS
      modifies memMap, pgDir, phys
      ensures Shaped()
      ensures match FreeTable(old(Abs()), d)
        case None => !ok
        case Some(s) => ok && Abs() == s
    {
      if !pgDir[d].p {
        return true;
      }
      hide FreeEntries;
      ok := FreeTableEntries(d);
      if ok {
        var panic := FreePage(pgDir[d].frame);
        if panic {
          return false;
        }
        WriteDir(d, ZERO);
      }
    }

    /** The inner loop of free_page_tables over the entries of the table of d. */
    method FreeTableEntries(d: int) returns (ok: bool)
      requires Shaped() && 0 <= d < WORDS && pgDir[d].p
      modifies memMap, phys
      ensures Shaped()
      ensures match FreeEntries(old(Abs()), d, 0)
        case None => !ok
        case Some(s) => ok && Abs() == s
    {
      var nr := 0;
      while nr < WORDS
        invariant 0 <= nr <= WORDS && Shaped()
        invariant FreeEntries(Abs(), d, nr) == FreeEntries(old(Abs()), d, 0)
      {
        var w := phys[pgDir[d].frame][nr];
        if w.p {
          var panic := FreePage(w.frame);
          if panic {
            return false;
          }
        }
        WriteEntry(d, nr, ZERO);
        nr := nr + 1;
      }
      return true;
    }

    /** put_page: map frame f at the page of address; Failed when no frame is left for the table. */
    method PutPage(f: FrameNo, address: int) returns (st: Status)
      requires Shaped() && 0 <= address < 0x1_0000_0000
      modifies memMap, pgDir, phys
      ensures Shaped()
      ensures match PagingTables.PutPage(old(Abs()), f, address / 0x40_0000, address / 4096 % WORDS)
        case None => st == Failed && Abs() == old(Abs())
        case Some(s) => st == Done && Abs() == s
    {
      var d := address / 0x40_0000;
      if !pgDir[d].p {
        var tmp := GetFreePage();
        if tmp == 0 {
          return Failed;
        }
        WriteDir(d, FullAccess(tmp));
      }
      WriteEntry(d, address / 4096 % WORDS, FullAccess(f));
      return Done;
    }

    /** do_no_page: Panic is the oom of the source. */
    method DoNoPage(address: int) returns (st: Status)
      requires Shaped() && 0 <= address < 0x1_0000_0000
      modifies memMap, pgDir, phys
      ensures Shaped()
      ensures match NoPage(old(Abs()), address / 0x40_0000, address / 4096 % WORDS)
        case None => st == Panic
        case Some(s) => st == Done && Abs() == s
    {
      var a := address - address % 4096;
      PageStart(address);
      hide HighestFree, ZeroPage;
      var page := GetFreePage();
      if page == 0 {
        return Panic;
      }
      st := PutPage(page, a);
      if st == Done {
        return;
      }
      var _ := FreePage(page);
      return Panic;
    }

    /** un_wp_page on entry t of the table of directory entry d. */
    method UnWpPage(d: int, t: int) returns (st: Status)
      requires Shaped() && 0 <= d < WORDS && 0 <= t < WORDS && pgDir[d].p && phys[pgDir[d].frame][t].frame < FRAMES
      modifies memMap, phys
      ensures Shaped()
      ensures match UnWp(old(Abs()), d, t)
        case None => st == Panic
        case Some(s) => st == Done && Abs() == s
    {
      var w := phys[pgDir[d].frame][t];
      var oldPage := w.frame;
      if oldPage >= LOW_FRAME && memMap[oldPage - LOW_FRAME] == 1 {
        WriteEntry(d, t, w.Writable());
        return Done;
      }
      hide HighestFree;
      var newPage := GetFreePage();
      if newPage == 0 {
        return Panic;
      }
      CopyOutPage(d, t, oldPage, newPage);
      return Done;
    }

    /** The rest of un_wp_page once the new frame has been found. */
    method CopyOutPage(d: int, t: int, oldPage: FrameNo, newPage: FrameNo)
      requires Shaped() && 0 <= d < WORDS && 0 <= t < WORDS && pgDir[d].p && oldPage < FRAMES && newPage < FRAMES
      modifies memMap, phys
      ensures Shaped() && Abs() == CopyOut(old(Abs()), d, t, oldPage, newPage)
    {
      ghost var s1 := Abs();
      if oldPage >= LOW_FRAME {
        memMap[oldPage - LOW_FRAME] := (memMap[oldPage - LOW_FRAME] + 255) % 256;
        assert memMap[..] == s1.memMap[oldPage - LOW_FRAME := (s1.memMap[oldPage - LOW_FRAME] + 255) % 256];
      }
      WriteEntry(d, t, FullAccess(newPage));
      ghost var s2 := Abs();
      phys[newPage] := phys[oldPage];
      assert phys[..] == s2.phys[newPage := s2.phys[oldPage]];
    }

    /** do_wp_page: a write fault on a page that is present. In the slices of tasks from 1 up it leaves the page
        private, and halts only when no frame is free; in the slice of task 0 no page is protected. */
    method DoWpPage(address: int) returns (st: Status)
      requires Valid() && 0 <= address < 0x1_0000_0000
      requires Entry(Abs(), address / 0x40_0000, address / 4096 % WORDS).p
      modifies memMap, phys
      ensures Shaped()
      ensures address / 0x40_0000 < 16 ==> old(Entry(Abs(), address / 0x40_0000, address / 4096 % WORDS)).rw
      ensures address / 0x40_0000 >= 16 && st != Panic ==>
        st == Done && Valid() && Unshared(old(Abs()), {}, Abs(), address / 0x40_0000, address / 4096 % WORDS)
      ensures st == Panic ==> GetFree(old(Abs())).0 == 0
    {
      var d, t := address / 0x40_0000, address / 4096 % WORDS;
      if d < 16 {
        LowPage(Abs(), d, t);
      } else {
        UnWpStep(Abs(), {}, d, t);
      }
      EntryInRange(Abs(), {}, d, t);
      st := UnWpPage(d, t);
    }

    /** write_verify */
    method WriteVerify(address: int) returns (st: Status)
      requires Valid() && 0 <= address < 0x1_0000_0000
      modifies memMap, phys
      ensures Shaped()
      ensures match PagingProcess.WriteVerify(old(Abs()), address / 0x40_0000, address / 4096 % WORDS)
        case None => st == Panic
        case Some(s) => st == Done && Abs() == s
    {
      var d, t := address / 0x40_0000, address / 4096 % WORDS;
      if !pgDir[d].p {
        return Done;
      }
      var w := phys[pgDir[d].frame][t];
      EntryInRange(Abs(), {}, d, t);
      if w.p && !w.rw {
        st := UnWpPage(d, t);
      } else {
        st := Done;
      }
    }

    /** The same for the linear page p that starts at the given address. */
    method VerifyOne(ghost p: int, start: int) returns (st: Status)
      requires Valid() && start == p % PAGES * 4096
      modifies memMap, phys
      ensures match PagingProcess.VerifyPage(old(Abs()), p)
        case None => st == Panic
        case Some(s) => st == Done && Valid() && Abs() == s
    {
      hide PagingProcess.WriteVerify, Private, SameViews, Inv, Entry, PageDir, PageTab;
      PageAddress(p, start);
      st := WriteVerify(start);
    }

    /** verify_area(addr, size) for task n, for any 32-bit arguments: size and start are unsigned and wrap, the loop
        test reads size as a signed number. */
    method VerifyArea(n: int, addr: int, size: int) returns (st: Status)
      requires Valid() && 0 <= n < NR_TASKS && 0 <= addr < 0x1_0000_0000 && 0 <= size < 0x1_0000_0000
      modifies memMap, phys
      ensures match PagingProcess.VerifyArea(old(Abs()), n, addr, size)
        case None => st == Panic
        case Some(s) => st == Done && Valid() && Abs() == s
    {
      hide PagingProcess.VerifyPage, Inv, PageDir, PageTab;
      var left := (size + addr % 4096) % 0x1_0000_0000;
      var start := (addr - addr % 4096 + n * 0x400_0000) % 0x1_0000_0000;
      ghost var p, cnt: int := LinearPage(n, addr), VerifyCount(addr, size);
      CountStarts(addr, size);
      FirstAddress(n, addr);
      hide LinearPage, VerifyCount, Rounds;
      while Signed(left) > 0
        invariant 0 <= left < 0x1_0000_0000 && cnt >= 0 && Rounds(left, cnt)
        invariant start == p % PAGES * 4096
        invariant Valid() && VerifyPages(Abs(), p, cnt) == PagingProcess.VerifyArea(old(Abs()), n, addr, size)
        decreases cnt
      {
        CountDown(left, cnt);
        left := (left - 4096) % 0x1_0000_0000;
        PageAddress(p, start);
        st := VerifyOne(p, start);
        if st == Panic {
          return;
        }
        start := (start + 4096) % 0x1_0000_0000;
        p, cnt := p + 1, cnt - 1;
      }
      NoRounds(left, cnt);
      return Done;
    }

    /** One round of the inner loop of copy_page_tables. */
    method ShareOne(df: int, dt: int, i: int)
      requires Shaped() && 0 <= df < WORDS && 0 <= dt < WORDS && pgDir[df].p && pgDir[dt].p && 0 <= i < WORDS
      modifies memMap, phys
      ensures Shaped() && Abs() == ShareEntry(old(Abs()), df, dt, i)
    {
      var thisPage := phys[pgDir[df].frame][i];
      if !thisPage.p {
        return;
      }
      thisPage := thisPage.ReadOnly();
      WriteEntry(dt, i, thisPage);
      if thisPage.Encode() > LOW_MEM && LOW_FRAME <= thisPage.frame < FRAMES {
        WriteEntry(df, i, thisPage);
        ghost var s1 := Abs();
        var m := thisPage.frame - LOW_FRAME;
        memMap[m] := (memMap[m] + 1) % 256;
        assert memMap[..] == s1.memMap[m := (s1.memMap[m] + 1) % 256];
      }
    }

    /** The inner loop of copy_page_tables over entries [0, n) of the tables of df and dt. */
    method CopyTableEntries(df: int, dt: int, n: int)
      requires Shaped() && 0 <= df < WORDS && 0 <= dt < WORDS && pgDir[df].p && pgDir[dt].p && 0 <= n <= WORDS
      modifies memMap, phys
      ensures Shaped() && Abs() == CopyEntries(old(Abs()), df, dt, 0, n)
    {
      hide ShareEntry;
      var i := 0;
      while i < n
        invariant 0 <= i <= n && Shaped()
        invariant CopyEntries(Abs(), df, dt, i, n) == CopyEntries(old(Abs()), df, dt, 0, n)
      {
        ShareOne(df, dt, i);
        i := i + 1;
      }
    }

    /** One round of the outer loop of copy_page_tables; false when no frame is free for the table. */
    method CopyTable(df: int, dt: int, nr: int) returns (ok: bool)
      requires Shaped() && 0 <= df < WORDS && 0 <= dt < WORDS && pgDir[df].p && 0 <= nr <= WORDS
      modifies memMap, pgDir, phys
      ensures Shaped()
      ensures match PagingTables.CopyTable(old(Abs()), df, dt, nr)
        case None => !ok && Abs() == old(Abs())
        case Some(s) => ok && Abs() == s
    {
      hide CopyEntries;
      var f := GetFreePage();
      if f == 0 {
        return false;
      }
      WriteDir(dt, FullAccess(f));
      CopyTableEntries(df, dt, nr);
      return true;
    }

    /** copy_page_tables(from, to, size). Failed leaves the tables copied so far in place. */
    method CopyPageTables(from: int, to: int, size: int) returns (st: Status)
      requires Shaped() && 0 <= from && 0 <= to && 0 <= size
      requires from / 0x40_0000 + Dirs(size) <= WORDS && to / 0x40_0000 + Dirs(size) <= WORDS
      modifies memMap, pgDir, phys
      ensures Shaped()
      ensures from % 0x40_0000 != 0 || to % 0x40_0000 != 0 ==> st == Panic && Abs() == old(Abs())
      ensures from % 0x40_0000 == 0 && to % 0x40_0000 == 0 ==>
        match CopyTables(old(Abs()), from / 0x40_0000, to / 0x40_0000, Dirs(size), if from == 0 then 160 else WORDS)
        case Copied(s) => st == Done && Abs() == s
        case NoMemory(s) => st == Failed && Abs() == s
        case AlreadyExists => st == Panic
    {
      if from % 0x40_0000 != 0 || to % 0x40_0000 != 0 {
        return Panic;
      }
      hide PagingTables.CopyTable;
      var n := Dirs(size);
      var df, dt := from / 0x40_0000, to / 0x40_0000;
      var nr := if from == 0 then 160 else WORDS;
      while n > 0
        invariant 0 <= n && 0 <= df && 0 <= dt && df + n <= WORDS && dt + n <= WORDS && Shaped()
        invariant CopyTables(Abs(), df, dt, n, nr) ==
          CopyTables(old(Abs()), from / 0x40_0000, to / 0x40_0000, Dirs(size), nr)
      {
        if pgDir[dt].p {
          return Panic;
        }
        if pgDir[df].p {
          var ok := CopyTable(df, dt, nr);
          if !ok {
            return Failed;
          }
        }
        df, dt, n := df + 1, dt + 1, n - 1;
      }
      return Done;
    }

    /** The slot search of find_empty_process; -1 when all are taken. */
    method FindEmptyProcess() returns (nr: int)
      requires Shaped()
      ensures nr == -1 ==> forall i :: 1 <= i < NR_TASKS ==> task[i] != 0
      ensures nr != -1 ==> 1 <= nr < NR_TASKS && task[nr] == 0 && forall i :: 1 <= i < nr ==> task[i] != 0
    {
      nr := 1;
      while nr < NR_TASKS
        invariant 1 <= nr <= NR_TASKS && forall i :: 1 <= i < nr ==> task[i] != 0
      {
        if task[nr] == 0 {
          return;
        }
        nr := nr + 1;
      }
      nr := -1;
    }

    /** copy_process(nr, ...) run by task cur, memory and task slot only; pcb is the copied task structure. */
    method CopyProcess(cur: int, nr: int, pcb: Page) returns (st: Status)
      requires Shaped() && 0 <= cur < NR_TASKS && 1 <= nr < NR_TASKS
      modifies memMap, pgDir, phys, task, limit
      ensures Shaped()
      ensures match PagingProcess.CopyProcess(old(Abs()), cur, nr, pcb)
        case Forked(s) => st == Done && Abs() == s
        case Refused(s) => st == Failed && Abs() == s
        case Halted => st == Panic
    {
      var p := GetFreePage();
      if p == 0 {
        return Failed;
      }
      ghost var s1 := Abs();
      task[nr] := p;
      phys[p] := pcb;
      limit[nr] := limit[cur];
      assert task[..] == s1.slot[nr := p];
      assert phys[..] == s1.phys[p := pcb];
      assert limit[..] == s1.limit[nr := s1.limit[cur]];
      assert Abs() == TakeSlot(s1, nr, p, s1.limit[cur], pcb);
      st := CopyMem(cur, nr);
      if st == Failed {
        var panic := DropTask(nr);
        if panic {
          return Panic;
        }
      }
    }

    /** task[n] = NULL; free_page(p) for the page p that held the task; true when free_page panics. */
    method DropTask(n: int) returns (panic: bool)
      requires Shaped() && 0 <= n < NR_TASKS
      modifies memMap, task
      ensures Shaped() && Abs() == DropSlot(old(Abs()), n) && panic == FreePanics(old(Abs()), old(task[n]))
    {
      ghost var s := Abs();
      var p := task[n];
      task[n] := 0;
      assert task[..] == s.slot[n := 0];
      panic := FreePage(p);
    }

    /** copy_mem(nr, p) run by task cur; on failure the new slice has been released again. */
    method CopyMem(cur: int, nr: int) returns (st: Status)
      requires Shaped() && 0 <= cur < NR_TASKS && 1 <= nr < NR_TASKS
      modifies memMap, pgDir, phys
      ensures Shaped()
      ensures match CopyTables(old(Abs()), 16 * cur, 16 * nr, Dirs(old(limit[cur])), Share(cur))
        case Copied(s) => st == Done && Abs() == s
        case AlreadyExists => st == Panic
        case NoMemory(s) =>
          match FreeTables(s, 16 * nr, Dirs(old(limit[cur])))
          case None => st == Panic
          case Some(s2) => st == Failed && Abs() == s2
    {
      var oldBase, newBase := cur * 0x400_0000, nr * 0x400_0000;
      var dataLimit := limit[cur];
      st := CopyPageTables(oldBase, newBase, dataLimit);
      if st == Failed {
        st := FreePageTables(newBase, dataLimit);
        if st == Done {
          st := Failed;
        }
      }
    }

    /** free_page_tables on the whole segment of task n. */
    method ReleaseSegment(n: int) returns (st: Status)
      requires Shaped() && 1 <= n < NR_TASKS
      modifies memMap, pgDir, phys
      ensures Shaped()
      ensures match FreeTables(old(Abs()), 16 * n, Dirs(limit[n]))
        case None => st == Panic
        case Some(s) => st == Done && Abs() == s
    {
      hide FreeTables;
      assert n * 0x400_0000 / 0x40_0000 == 16 * n && n * 0x400_0000 % 0x40_0000 == 0;
      st := FreePageTables(n * 0x400_0000, limit[n]);
    }

    /** The memory part of do_exit for task n: its slice is released as code and again as data. */
    method ExitMemory(n: int) returns (st: Status)
      requires Valid() && 1 <= n < NR_TASKS
      modifies memMap, pgDir, phys
      ensures st == Done && Valid()
      ensures Some(Abs()) == FreeTables(old(Abs()), 16 * n, Dirs(limit[n]))
      ensures Cleared(old(Abs()), Abs(), 16 * n, Dirs(limit[n]))
    {
      var k := Dirs(limit[n]);
      FreeTablesStep(Abs(), {}, 16 * n, k);
      hide FreeTables, Inv;
      st := ReleaseSegment(n);
      ReleaseTwice(Abs(), 16 * n, k);
      hide Cleared;
      st := ReleaseSegment(n);
    }
  }
}
