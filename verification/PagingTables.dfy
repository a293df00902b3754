/** The table-level operations of mm/memory.c: put_page and do_no_page, free_page_tables, copy_page_tables. */
module PagingTables {
  import opened PageWord
  import opened PagingState
  import opened PagingSteps

  // ---------------------------------------------------------------- missing pages

  /** put_page: map frame f at (d, t), taking a frame for the table if there is none; None when that fails. */
  function PutPage(s: Mem, f: FrameNo, d: int, t: int): Option<Mem>
    requires Shape(s) && 0 <= d < WORDS && 0 <= t < WORDS
  {
    if s.dir[d].p then Some(SetEntry(s, d, t, FullAccess(f)))
    else
      var (g, s1) := GetFree(s);
      if g == 0 then None
      else Some(SetEntry(s1.(dir := s1.dir[d := FullAccess(g)]), d, t, FullAccess(f)))
  }

  /** do_no_page; None when it runs out of memory, where the source halts. */
  function NoPage(s: Mem, d: int, t: int): Option<Mem>
    requires Shape(s) && 0 <= d < WORDS && 0 <= t < WORDS
  {
    var (f, s1) := GetFree(s);
    if f == 0 then None else PutPage(s1, f, d, t)
  }

  /** A table is supplied for directory entry d and nobody notices. */
  lemma NewTable(s: Mem, hand: set<int>, d: int)
    requires Inv(s, hand) && 16 <= d < WORDS && !s.dir[d].p
    requires s.slot[d / 16] != 0 && d % 16 < Dirs(s.limit[d / 16])
    ensures var (g, s1) := GetFree(s);
      g != 0 ==>
        var s2 := s1.(dir := s1.dir[d := FullAccess(g)]);
        && Inv(s2, hand) && SameViews(s, s2)
        && (forall e, u :: Addr(e, u, 0) ==> Entry(s2, e, u) == Entry(s, e, u))
        && (forall x :: 0 <= x < FRAMES && x != g ==> s2.phys[x] == s.phys[x]) && g !in hand
  {
    var (g, s1) := GetFree(s);
    GetFreeTakes(s, hand);
    if g != 0 {
      LinkTable(s1, hand + {g}, d, g);
      assert hand + {g} - {g} == hand;
    }
  }

  lemma PutPageStep(s: Mem, hand: set<int>, f: FrameNo, d: int, t: int)
    requires Inv(s, hand) && 16 <= d < WORDS && 0 <= t < WORDS && !Entry(s, d, t).p && f in hand
    requires s.slot[d / 16] != 0 && d % 16 < Dirs(s.limit[d / 16])
    ensures PutPage(s, f, d, t).Some? ==>
      var s' := PutPage(s, f, d, t).value;
      && Inv(s', hand - {f}) && s'.slot == s.slot && s'.limit == s.limit
      && Entry(s', d, t) == FullAccess(f)
      && (forall e, u, o :: Addr(e, u, o) ==>
            ViewAt(s', e, u, o) == if (e, u) == (d, t) then s.phys[f][o] else ViewAt(s, e, u, o))
  {
    if s.dir[d].p {
      LinkPage(s, hand, d, t, f);
    } else {
      NewTable(s, hand, d);
      var (g, s1) := GetFree(s);
      if g != 0 {
        LinkPage(s1.(dir := s1.dir[d := FullAccess(g)]), hand, d, t, f);
      }
    }
  }

  /** A missing page reads as zeros before the fault and after it; then it is present and writable. */
  lemma NoPageStep(s: Mem, d: int, t: int)
    requires Inv(s, {}) && 16 <= d < WORDS && 0 <= t < WORDS && !Entry(s, d, t).p
    requires s.slot[d / 16] != 0 && d % 16 < Dirs(s.limit[d / 16])
    ensures NoPage(s, d, t).Some? ==>
      var s' := NoPage(s, d, t).value;
      Inv(s', {}) && s'.slot == s.slot && s'.limit == s.limit && SameViews(s, s') && CanWrite(s', Pte(d, t))
  {
    hide PutPage, Accounted, InRange, Exclusive, WriteOwned, OncePerSlice, HandFree, Slices, Boot, Target;
    var (f, s1) := GetFree(s);
    GetFreeTakes(s, {});
    hide GetFree;
    if f != 0 {
      assert Entry(s1, d, t) == Entry(s, d, t);
      PutPageStep(s1, {} + {f}, f, d, t);
      assert {} + {f} - {f} == {};
      assert forall o :: 0 <= o < WORDS ==> ViewAt(s, d, t, o) == ZERO == s1.phys[f][o];
    }
  }

  // ---------------------------------------------------------------- free_page_tables

  /** The inner loop from entry t on; None is the panic of free_page. */
  function FreeEntries(s: Mem, d: int, t: int): (r: Option<Mem>)
    requires Shape(s) && 0 <= d < WORDS && s.dir[d].p && 0 <= t <= WORDS
    ensures r.Some? ==> Shape(r.value) && r.value.dir == s.dir && r.value.start == s.start && r.value.high == s.high
    decreases |s.dir| - t
  {
    if t == WORDS then Some(s)
    else
      var w := s.phys[s.dir[d].frame][t];
      if w.p && FreePanics(s, w.frame) then None
      else FreeEntries(DropEntry(s, d, t), d, t + 1)
  }

  /** One round of the outer loop; None is the panic of free_page. */
  function FreeTable(s: Mem, d: int): (r: Option<Mem>)
    requires Shape(s) && 0 <= d < WORDS
    ensures r.Some? ==> Shape(r.value)
  {
    if !s.dir[d].p then Some(s)
    else match FreeEntries(s, d, 0)
      case None => None
      case Some(s1) => if FreePanics(s1, s1.dir[d].frame) then None else Some(DropTable(s1, d))
  }

  /** The outer loop over n directory entries from d on. */
  function FreeTables(s: Mem, d: int, n: nat): (r: Option<Mem>)
    requires Shape(s) && 0 <= d && d + n <= WORDS
    ensures r.Some? ==> Shape(r.value)
    decreases n
  {
    if n == 0 then Some(s)
    else match FreeTable(s, d)
      case None => None
      case Some(s1) => FreeTables(s1, d + 1, n - 1)
  }

  lemma {:induction false} FreeEntriesStep(s: Mem, hand: set<int>, d: int, t: int)
    requires Inv(s, hand) && 16 <= d < WORDS && s.dir[d].p && 0 <= t <= WORDS
    ensures FreeEntries(s, d, t).Some?
    ensures var s' := FreeEntries(s, d, t).value;
      && Inv(s', hand) && s'.dir == s.dir && s'.slot == s.slot && s'.limit == s.limit
      && (forall u :: t <= u < WORDS ==> Entry(s', d, u) == ZERO)
      && (forall e, u :: Addr(e, u, 0) && (e != d || u < t) ==> Entry(s', e, u) == Entry(s, e, u))
      && (forall e, u, o :: Addr(e, u, o) ==>
            ViewAt(s', e, u, o) == if e == d && t <= u then ZERO else ViewAt(s, e, u, o))
    decreases WORDS - t
  {
    if t < WORDS {
      DropEntryStep(s, hand, d, t);
      FreeEntriesStep(DropEntry(s, d, t), hand, d, t + 1);
    }
  }

  /** s' differs from s only in the page tables of directory entries [d, d + n), which are gone;
      outside them entries, directory and views are as before. */
  ghost predicate Cleared(s: Mem, s': Mem, d: int, n: int)
    requires Shape(s) && Shape(s')
  {
    && s'.slot == s.slot && s'.limit == s.limit && s'.start == s.start && s'.high == s.high
    && (forall e :: 0 <= e < WORDS ==> s'.dir[e] == if d <= e < d + n then ZERO else s.dir[e])
    && (forall e, u :: Addr(e, u, 0) ==> Entry(s', e, u) == if d <= e < d + n then ZERO else Entry(s, e, u))
    && (forall e, u, o :: Addr(e, u, o) ==> ViewAt(s', e, u, o) == if d <= e < d + n then ZERO else ViewAt(s, e, u, o))
  }

  lemma ClearedOne(s: Mem, s1: Mem, s2: Mem, d: int)
    requires Shape(s) && Shape(s1) && Shape(s2) && 16 <= d < WORDS
    requires s1.dir == s.dir && s1.slot == s.slot && s1.limit == s.limit && s1.start == s.start && s1.high == s.high
    requires s2 == DropTable(s1, d) && SameViews(s1, s2)
    requires forall e, u :: Addr(e, u, 0) && e != d ==> Entry(s1, e, u) == Entry(s, e, u)
    requires forall e, u, o :: Addr(e, u, o) ==> ViewAt(s1, e, u, o) == if e == d then ZERO else ViewAt(s, e, u, o)
    requires forall e, u :: Addr(e, u, 0) && e != d ==> Entry(s2, e, u) == Entry(s1, e, u)
    requires forall u :: 0 <= u < WORDS ==> Entry(s2, d, u) == ZERO
    ensures Cleared(s, s2, d, 1)
  {
  }

  lemma ClearedTrans(s: Mem, s1: Mem, s2: Mem, d: int, n: int)
    requires Shape(s) && Shape(s1) && Shape(s2) && n >= 1 && Cleared(s, s1, d, 1) && Cleared(s1, s2, d + 1, n - 1)
    ensures Cleared(s, s2, d, n)
  {
  }

  lemma FreeTableStep(s: Mem, hand: set<int>, d: int)
    requires Inv(s, hand) && 16 <= d < WORDS && s.dir[d].p
    ensures var s1 := FreeEntries(s, d, 0);
      && s1.Some? && !FreePanics(s1.value, s1.value.dir[d].frame)
      && Inv(DropTable(s1.value, d), hand) && Cleared(s, DropTable(s1.value, d), d, 1)
  {
    hide Accounted, InRange, Exclusive, WriteOwned, OncePerSlice, HandFree, Boot, Slices, Target, ViewAt;
    FreeEntriesStep(s, hand, d, 0);
    var s1 := FreeEntries(s, d, 0).value;
    DropTableStep(s1, hand, d);
    ClearedOne(s, s1, DropTable(s1, d), d);
  }

  lemma ClearedNone(s: Mem, hand: set<int>, d: int)
    requires Inv(s, hand) && 16 <= d < WORDS && !s.dir[d].p
    ensures Cleared(s, s, d, 1)
  {
  }

  lemma NothingCleared(s: Mem, d: int)
    requires Shape(s)
    ensures Cleared(s, s, d, 0)
  {
  }

  /** One round of free_page_tables. */
  lemma FreeTableRound(s: Mem, hand: set<int>, d: int)
    requires Inv(s, hand) && 16 <= d < WORDS
    ensures FreeTable(s, d).Some? && Inv(FreeTable(s, d).value, hand) && Cleared(s, FreeTable(s, d).value, d, 1)
  {
    if s.dir[d].p {
      FreeTableStep(s, hand, d);
    } else {
      ClearedNone(s, hand, d);
    }
    hide FreeEntries, Inv, Cleared, DropTable;
  }

  /** free_page_tables never panics in free_page, and empties exactly its directory entries. */
  lemma {:induction false} FreeTablesStep(s: Mem, hand: set<int>, d: int, n: nat)
    requires Inv(s, hand) && 16 <= d && d + n <= WORDS
    ensures FreeTables(s, d, n).Some?
    ensures Inv(FreeTables(s, d, n).value, hand) && Cleared(s, FreeTables(s, d, n).value, d, n)
    decreases n
  {
    hide Accounted, InRange, Exclusive, WriteOwned, OncePerSlice, HandFree, Boot, Slices, Target, Cleared;
    NothingCleared(s, d);
    if n > 0 {
      FreeTableRound(s, hand, d);
      var s1 := FreeTable(s, d).value;
      assert Shape(s) && Shape(s1);
      hide FreeTable, Inv, Shape, Cleared;
      FreeTablesStep(s1, hand, d + 1, n - 1);
      ClearedTrans(s, s1, FreeTables(s1, d + 1, n - 1).value, d, n);
    }
  }

  // ---------------------------------------------------------------- copy_page_tables

  /** The inner loop: entries [t, nr) of the table of df are shared with the table of dt. */
  function CopyEntries(s: Mem, df: int, dt: int, t: int, nr: int): (s': Mem)
    requires Shape(s) && 0 <= df < WORDS && 0 <= dt < WORDS && s.dir[df].p && s.dir[dt].p && 0 <= t <= nr <= WORDS
    ensures Shape(s') && s'.dir == s.dir && s'.start == s.start && s'.high == s.high
    decreases |s.dir| - t
  {
    if t == nr then s else CopyEntries(ShareEntry(s, df, dt, t), df, dt, t + 1, nr)
  }

  /** A frame becomes the table of directory entry dt. */
  function LinkNew(s: Mem, dt: int, f: FrameNo): Mem
    requires 0 <= dt < |s.dir|
  {
    s.(dir := s.dir[dt := FullAccess(f)])
  }

  /** One round of the outer loop: a new table for dt, filled from the table of df; None when no frame is free. */
  function CopyTable(s: Mem, df: int, dt: int, nr: int): (r: Option<Mem>)
    requires Shape(s) && 0 <= df < WORDS && 0 <= dt < WORDS && s.dir[df].p && 0 <= nr <= WORDS
    ensures r.Some? ==> Shape(r.value)
  {
    var (f, s1) := GetFree(s);
    if f == 0 then None else Some(CopyEntries(LinkNew(s1, dt, f), df, dt, 0, nr))
  }

  datatype CopyResult = Copied(s: Mem) | NoMemory(s: Mem) | AlreadyExists

  /** The outer loop over n directory entries. */
  function CopyTables(s: Mem, df: int, dt: int, n: nat, nr: int): (r: CopyResult)
    requires Shape(s) && 0 <= df && 0 <= dt && df + n <= WORDS && dt + n <= WORDS && 0 <= nr <= WORDS
    ensures !r.AlreadyExists? ==> Shape(r.s)
    decreases n
  {
    if n == 0 then Copied(s)
    else if s.dir[dt].p then AlreadyExists
    else if !s.dir[df].p then CopyTables(s, df + 1, dt + 1, n - 1, nr)
    else match CopyTable(s, df, dt, nr)
      case None => NoMemory(s)
      case Some(s1) => CopyTables(s1, df + 1, dt + 1, n - 1, nr)
  }

  predicate InSlice(n: int, d: int) {
    16 * n <= d < 16 * n + 16
  }

  /** The directory entry at the same place in slice cur as d is in slice nr. */
  function Twin(cur: int, nr: int, d: int): int {
    d - 16 * nr + 16 * cur
  }

  /** Every present entry of slice nr maps the frame of the entry at the same place in slice cur. */
  ghost predicate Mirror(s: Mem, cur: int, nr: int)
    requires Shape(s) && 0 <= cur < NR_TASKS && 1 <= nr < NR_TASKS
  {
    forall d, t :: InSlice(nr, d) && 0 <= t < WORDS && Entry(s, d, t).p ==>
      && Addr(Twin(cur, nr, d), t, 0)
      && Entry(s, Twin(cur, nr, d), t).p && Entry(s, d, t).frame == Entry(s, Twin(cur, nr, d), t).frame
  }

  /** Outside slice n nothing has changed but write permissions: same tables, same frames, same views. */
  ghost predicate KeptOutside(s: Mem, s': Mem, n: int)
    requires Shape(s) && Shape(s')
  {
    && s'.slot == s.slot && s'.limit == s.limit && s'.start == s.start && s'.high == s.high
    && (forall d :: 0 <= d < WORDS && !InSlice(n, d) ==> s'.dir[d] == s.dir[d])
    && (forall d, t :: Addr(d, t, 0) && !InSlice(n, d) ==>
          Entry(s', d, t).p == Entry(s, d, t).p && Entry(s', d, t).frame == Entry(s, d, t).frame)
    && (forall d, t, o :: Addr(d, t, o) && !InSlice(n, d) ==> ViewAt(s', d, t, o) == ViewAt(s, d, t, o))
  }

  /** copy_page_tables copies only the first 160 entries of a table when it copies from address 0. */
  function Share(cur: int): int {
    if cur == 0 then 160 else WORDS
  }

  /** What the copy of one entry relies on, at entry t of the table of dt in slice nr. */
  ghost predicate CopyPoint(s: Mem, hand: set<int>, cur: int, nr: int, dt: int, t: int) {
    && 0 <= cur < NR_TASKS && 1 <= nr < NR_TASKS && cur != nr && InSlice(nr, dt)
    && (cur == 0 ==> Twin(cur, nr, dt) == 0)
    && Inv(s, hand) && s.dir[Twin(cur, nr, dt)].p && s.dir[dt].p && Mirror(s, cur, nr)
    && 0 <= t <= Share(cur)
    && EmptyFrom(s, dt, t)
  }

  ghost predicate EmptyFrom(s: Mem, d: int, t: int)
    requires Shape(s) && 0 <= d < WORDS && 0 <= t
  {
    forall u :: t <= u < WORDS ==> !Entry(s, d, u).p
  }

  /** The frame about to be shared is not yet mapped by the receiving slice. */
  lemma NotYetShared(s: Mem, hand: set<int>, cur: int, nr: int, dt: int, t: int, q: Ref)
    requires CopyPoint(s, hand, cur, nr, dt, t) && t < Share(cur) && Entry(s, Twin(cur, nr, dt), t).p
    requires RefOk(q) && q.Pte? && InSlice(nr, q.d) && Target(s, q) >= LOW_FRAME
    ensures Target(s, q) != Entry(s, Twin(cur, nr, dt), t).frame
  {
    hide Accounted, InRange, Exclusive, WriteOwned, HandFree, Slices;
    assert !Entry(s, dt, t).p;
    assert Entry(s, q.d, q.t).p;
    if cur != 0 {
      var a, b := Pte(Twin(cur, nr, dt), t), Pte(Twin(cur, nr, q.d), q.t);
      assert Target(s, b) == Target(s, q);
      assert a.d / 16 == cur && b.d / 16 == cur;
      assert q != Pte(dt, t) && a != b;
    }
  }

  lemma SharedMirror(s: Mem, s': Mem, cur: int, nr: int, dt: int, t: int)
    requires Shape(s) && Shape(s') && 0 <= cur < NR_TASKS && 1 <= nr < NR_TASKS && cur != nr && InSlice(nr, dt)
    requires cur == 0 ==> Twin(cur, nr, dt) == 0
    requires 0 <= t < Share(cur) && Mirror(s, cur, nr) && EmptyFrom(s, dt, t)
    requires SharedOne(s, s', Twin(cur, nr, dt), dt, t)
    ensures Mirror(s', cur, nr) && EmptyFrom(s', dt, t + 1) && KeptOutside(s, s', nr)
  {
    hide Entry, ViewAt;
    assert forall d :: InSlice(nr, d) ==> 16 <= d < WORDS && !InSlice(nr, Twin(cur, nr, d));
  }

  lemma NoneShared(s: Mem, hand: set<int>, cur: int, nr: int, dt: int, t: int)
    requires CopyPoint(s, hand, cur, nr, dt, t) && t < Share(cur)
    ensures forall q :: RefOk(q) && q.Pte? && q.d / 16 == dt / 16 && Target(s, q) >= LOW_FRAME ==>
      !Entry(s, Twin(cur, nr, dt), t).p || Target(s, q) != Entry(s, Twin(cur, nr, dt), t).frame
  {
    hide Accounted, InRange, Exclusive, WriteOwned, OncePerSlice, HandFree, Slices, Boot, Target, Entry, EmptyFrom;
    hide Mirror;
    forall q | RefOk(q) && q.Pte? && q.d / 16 == dt / 16 && Target(s, q) >= LOW_FRAME
      ensures !Entry(s, Twin(cur, nr, dt), t).p || Target(s, q) != Entry(s, Twin(cur, nr, dt), t).frame
    {
      if Entry(s, Twin(cur, nr, dt), t).p {
        NotYetShared(s, hand, cur, nr, dt, t, q);
      }
    }
  }

  lemma CopyOneEntry(s: Mem, hand: set<int>, cur: int, nr: int, dt: int, t: int)
    requires CopyPoint(s, hand, cur, nr, dt, t) && t < Share(cur)
    ensures var s' := ShareEntry(s, Twin(cur, nr, dt), dt, t);
      CopyPoint(s', hand, cur, nr, dt, t + 1) && KeptOutside(s, s', nr) && SharedOne(s, s', Twin(cur, nr, dt), dt, t)
  {
    var df := Twin(cur, nr, dt);
    var s' := ShareEntry(s, df, dt, t);
    NoneShared(s, hand, cur, nr, dt, t);
    hide Accounted, InRange, Exclusive, WriteOwned, OncePerSlice, HandFree, Slices, Boot, ViewAt, Target, Entry;
    ShareEntryStep(s, hand, df, dt, t);
    hide ShareEntry;
    SharedMirror(s, s', cur, nr, dt, t);
  }

  /** In slice nr, pages [t, Share(cur)) of directory entries [dt, dt + n) now read as the twin page
      in slice cur did; everything else in the slice reads as before. */
  ghost predicate ViewsCopied(s: Mem, s': Mem, cur: int, nr: int, dt: int, n: int, t: int)
    requires Shape(s) && Shape(s') && 0 <= cur < NR_TASKS && 1 <= nr < NR_TASKS
  {
    forall d, u, o :: Addr(d, u, o) && InSlice(nr, d) ==>
      ViewAt(s', d, u, o) ==
        if dt <= d < dt + n && t <= u < Share(cur) then ViewAt(s, Twin(cur, nr, d), u, o) else ViewAt(s, d, u, o)
  }

  lemma KeptTrans(s: Mem, s1: Mem, s2: Mem, n: int)
    requires Shape(s) && Shape(s1) && Shape(s2) && KeptOutside(s, s1, n) && KeptOutside(s1, s2, n)
    ensures KeptOutside(s, s2, n)
  {
  }

  lemma ViewsCopiedMore(s: Mem, s1: Mem, s2: Mem, cur: int, nr: int, dt: int, t: int)
    requires Shape(s) && Shape(s1) && Shape(s2) && 0 <= cur < NR_TASKS && 1 <= nr < NR_TASKS && cur != nr
    requires InSlice(nr, dt)
    requires 0 <= t < Share(cur) && (cur == 0 ==> Twin(cur, nr, dt) == 0)
    requires SharedOne(s, s1, Twin(cur, nr, dt), dt, t) && KeptOutside(s, s1, nr)
    requires ViewsCopied(s1, s2, cur, nr, dt, 1, t + 1)
    ensures ViewsCopied(s, s2, cur, nr, dt, 1, t)
  {
    hide Entry, ViewAt;
    assert !InSlice(nr, Twin(cur, nr, dt));
    forall d, u, o | Addr(d, u, o) && InSlice(nr, d)
      ensures ViewAt(s2, d, u, o) ==
        if dt <= d < dt + 1 && t <= u < Share(cur) then ViewAt(s, Twin(cur, nr, d), u, o) else ViewAt(s, d, u, o)
    {
      if d == dt && t < u < Share(cur) {
        assert Addr(Twin(cur, nr, dt), u, o);
      }
    }
  }

  lemma {:induction false} CopyEntriesStep(s: Mem, hand: set<int>, cur: int, nr: int, dt: int, t: int)
    requires CopyPoint(s, hand, cur, nr, dt, t)
    ensures var s' := CopyEntries(s, Twin(cur, nr, dt), dt, t, Share(cur));
      && CopyPoint(s', hand, cur, nr, dt, Share(cur)) && KeptOutside(s, s', nr) && s'.dir == s.dir
      && ViewsCopied(s, s', cur, nr, dt, 1, t)
    decreases WORDS - t
  {
    hide Accounted, InRange, Exclusive, WriteOwned, OncePerSlice, HandFree, Slices, Boot, ViewAt, Target, Entry;
    if t < Share(cur) {
      var df := Twin(cur, nr, dt);
      var s1 := ShareEntry(s, df, dt, t);
      CopyOneEntry(s, hand, cur, nr, dt, t);
      CopyEntriesStep(s1, hand, cur, nr, dt, t + 1);
      var s2 := CopyEntries(s1, df, dt, t + 1, Share(cur));
      KeptTrans(s, s1, s2, nr);
      ViewsCopiedMore(s, s1, s2, cur, nr, dt, t);
    }
  }

  /** Ready to copy n tables into slice nr from directory entry dt on. */
  ghost predicate CopyTodo(s: Mem, hand: set<int>, cur: int, nr: int, dt: int, n: int) {
    && 0 <= cur < NR_TASKS && 1 <= nr < NR_TASKS && cur != nr
    && 0 <= n && 16 * nr <= dt && dt + n <= 16 * nr + 16
    && (cur == 0 && n > 0 ==> Twin(cur, nr, dt) == 0 && n == 1)
    && Inv(s, hand) && Mirror(s, cur, nr) && s.slot[nr] != 0
    && dt + n - 16 * nr <= Dirs(s.limit[nr])
    && (forall d :: dt <= d < dt + n ==> !s.dir[d].p)
  }

  lemma CopyStart(s: Mem, hand: set<int>, cur: int, nr: int, dt: int, n: int)
    requires CopyTodo(s, hand, cur, nr, dt, n) && n > 0 && s.dir[Twin(cur, nr, dt)].p && GetFree(s).0 != 0
    ensures var s2 := LinkNew(GetFree(s).1, dt, GetFree(s).0);
      && CopyPoint(s2, hand, cur, nr, dt, 0) && KeptOutside(s, s2, nr) && SameViews(s, s2)
      && s2.dir == s.dir[dt := s2.dir[dt]]
  {
    assert dt / 16 == nr && dt % 16 == dt - 16 * nr;
    NewTable(s, hand, dt);
    var s2 := LinkNew(GetFree(s).1, dt, GetFree(s).0);
    assert forall u :: 0 <= u < WORDS ==> Entry(s2, dt, u) == ZERO;
    hide Accounted, InRange, Exclusive, WriteOwned, OncePerSlice, HandFree, Slices, Boot, ViewAt, Target, Entry;
    assert Mirror(s2, cur, nr) by {
      assert forall d, t :: InSlice(nr, d) && 0 <= t < WORDS ==> Entry(s2, d, t) == Entry(s, d, t);
    }
  }

  lemma CopyOneTable(s: Mem, hand: set<int>, cur: int, nr: int, dt: int, n: int)
    requires CopyTodo(s, hand, cur, nr, dt, n) && n > 0 && s.dir[Twin(cur, nr, dt)].p
    ensures match CopyTable(s, Twin(cur, nr, dt), dt, Share(cur))
      case None => true
      case Some(s') =>
        CopyTodo(s', hand, cur, nr, dt + 1, n - 1) && KeptOutside(s, s', nr) && ViewsCopied(s, s', cur, nr, dt, 1, 0)
  {
    if GetFree(s).0 != 0 {
      CopyStart(s, hand, cur, nr, dt, n);
      hide GetFree, Accounted, InRange, Exclusive, WriteOwned, OncePerSlice, HandFree, Slices, Boot, ViewAt;
      hide Target, Entry;
      var s2 := LinkNew(GetFree(s).1, dt, GetFree(s).0);
      CopyEntriesStep(s2, hand, cur, nr, dt, 0);
      var s' := CopyEntries(s2, Twin(cur, nr, dt), dt, 0, Share(cur));
      KeptTrans(s, s2, s', nr);
      forall d, u, o | Addr(d, u, o) && InSlice(nr, d)
        ensures ViewAt(s', d, u, o) ==
          if dt <= d < dt + 1 && 0 <= u < Share(cur) then ViewAt(s, Twin(cur, nr, d), u, o) else ViewAt(s, d, u, o)
      {
        assert d == dt && u < Share(cur) ==> Addr(Twin(cur, nr, d), u, o);
      }
    }
  }

  lemma NothingToCopy(s: Mem, hand: set<int>, cur: int, nr: int, dt: int, n: int)
    requires CopyTodo(s, hand, cur, nr, dt, n) && n > 0 && !s.dir[Twin(cur, nr, dt)].p
    ensures CopyTodo(s, hand, cur, nr, dt + 1, n - 1) && ViewsCopied(s, s, cur, nr, dt, 1, 0)
  {
    assert cur != 0;
  }

  lemma ViewsCopiedTrans(s: Mem, s1: Mem, s2: Mem, cur: int, nr: int, dt: int, n: int)
    requires Shape(s) && Shape(s1) && Shape(s2) && 0 <= cur < NR_TASKS && 1 <= nr < NR_TASKS && cur != nr && n > 0
    requires 16 * nr <= dt && dt + n <= 16 * nr + 16 && (cur == 0 ==> n == 1)
    requires KeptOutside(s, s1, nr) && ViewsCopied(s, s1, cur, nr, dt, 1, 0)
    requires ViewsCopied(s1, s2, cur, nr, dt + 1, n - 1, 0)
    ensures ViewsCopied(s, s2, cur, nr, dt, n, 0)
  {
    hide ViewAt, Entry;
    forall d, u, o | Addr(d, u, o) && InSlice(nr, d)
      ensures ViewAt(s2, d, u, o) ==
        if dt <= d < dt + n && 0 <= u < Share(cur) then ViewAt(s, Twin(cur, nr, d), u, o) else ViewAt(s, d, u, o)
    {
      if dt < d < dt + n {
        assert Addr(Twin(cur, nr, d), u, o) && !InSlice(nr, Twin(cur, nr, d));
      }
    }
  }

  /** Where the copying stands. */
  lemma CopyTodoMeans(s: Mem, hand: set<int>, cur: int, nr: int, dt: int, n: int)
    requires CopyTodo(s, hand, cur, nr, dt, n)
    ensures Inv(s, hand) && Shape(s) && 0 <= cur < NR_TASKS && 1 <= nr < NR_TASKS && cur != nr
    ensures 0 <= n && 16 * nr <= dt && dt + n <= 16 * nr + 16 && (cur == 0 && n > 0 ==> n == 1)
    ensures 0 <= Twin(cur, nr, dt) && Twin(cur, nr, dt) + n <= WORDS && Twin(cur, nr, dt + 1) == Twin(cur, nr, dt) + 1
    ensures n > 0 ==> !s.dir[dt].p
    ensures KeptOutside(s, s, nr) && ViewsCopied(s, s, cur, nr, dt, 0, 0)
  {
  }

  /** copy_page_tables: the receiving slice reads as the giving one, nobody else's view changes, and
      if frames run out part-way the invariant still holds and nothing outside the slice has changed. */
  lemma {:induction false} CopyTablesStep(s: Mem, hand: set<int>, cur: int, nr: int, dt: int, n: nat)
    requires CopyTodo(s, hand, cur, nr, dt, n)
    ensures match CopyTables(s, Twin(cur, nr, dt), dt, n, Share(cur))
      case Copied(s') => Inv(s', hand) && KeptOutside(s, s', nr) && ViewsCopied(s, s', cur, nr, dt, n, 0)
      case NoMemory(s') => Inv(s', hand) && KeptOutside(s, s', nr)
      case AlreadyExists => false
    decreases n
  {
    hide CopyTodo, Inv, Shape, CopyTable, KeptOutside, ViewsCopied;
    CopyTodoMeans(s, hand, cur, nr, dt, n);
    if n > 0 {
      var s1 := s;
      if !s.dir[Twin(cur, nr, dt)].p {
        NothingToCopy(s, hand, cur, nr, dt, n);
      } else {
        CopyOneTable(s, hand, cur, nr, dt, n);
        match CopyTable(s, Twin(cur, nr, dt), dt, Share(cur)) {
          case None => return;
          case Some(t) => s1 := t;
        }
      }
      CopyTodoMeans(s1, hand, cur, nr, dt + 1, n - 1);
      CopyTablesStep(s1, hand, cur, nr, dt + 1, n - 1);
      match CopyTables(s1, Twin(cur, nr, dt + 1), dt + 1, n - 1, Share(cur)) {
        case Copied(s') =>
          KeptTrans(s, s1, s', nr);
          ViewsCopiedTrans(s, s1, s', cur, nr, dt, n);
        case NoMemory(s') =>
          KeptTrans(s, s1, s', nr);
        case AlreadyExists =>
      }
    }
  }
}
