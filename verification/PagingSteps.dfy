/** The single updates that mm/memory.c is made of, as functions on the state, each with the
    lemma that it keeps the invariant and what it does to the tasks' views. */
module PagingSteps {
  import opened PageWord
  import opened PagingState

  datatype Option<T> = None | Some(value: T)

  // ---------------------------------------------------------------- frames

  /** Index of the last zero byte among the first n, or -1. */
  function HighestFree(m: seq<int>, n: nat): (r: int)
    requires n <= |m|
    ensures -1 <= r < n
    ensures r >= 0 ==> m[r] == 0
    ensures forall i :: r < i < n ==> m[i] != 0
  {
    if n == 0 then -1 else if m[n - 1] == 0 then n - 1 else HighestFree(m, n - 1)
  }

  /** get_free_page: the frame taken (0 when there is none) and the state with it marked used and zeroed. */
  function GetFree(s: Mem): (r: (int, Mem))
    requires |s.memMap| == PAGING_PAGES && |s.phys| == FRAMES
    ensures r.1 == s.(memMap := r.1.memMap, phys := r.1.phys)
    ensures r.0 == 0 || LOW_FRAME <= r.0 < FRAMES
  {
    var i := HighestFree(s.memMap, |s.memMap|);
    if i == -1 then (0, s)
    else (i + LOW_FRAME, s.(memMap := s.memMap[i := 1], phys := s.phys[i + LOW_FRAME := ZeroPage()]))
  }

  /** free_page. Frames below LOW_MEM or from HIGH_MEMORY up are ignored. */
  function FreeFrame(s: Mem, f: int): Mem
    requires |s.memMap| == PAGING_PAGES && s.high <= FRAMES
  {
    if f < LOW_FRAME || f >= s.high then s
    else if s.memMap[f - LOW_FRAME] == 0 then s
    else s.(memMap := s.memMap[f - LOW_FRAME := s.memMap[f - LOW_FRAME] - 1])
  }

  /** When free_page panics: the frame is managed and already free. */
  predicate FreePanics(s: Mem, f: int)
    requires |s.memMap| == PAGING_PAGES && s.high <= FRAMES
  {
    LOW_FRAME <= f < s.high && s.memMap[f - LOW_FRAME] == 0
  }

  /** Overwrites one table entry. */
  function SetEntry(s: Mem, d: int, t: int, w: Word): Mem
    requires |s.phys| == FRAMES && 0 <= d < |s.dir| && 0 <= t < WORDS && s.dir[d].frame < FRAMES
  {
    s.(phys := s.phys[s.dir[d].frame := s.phys[s.dir[d].frame][t := w]])
  }

  // ---------------------------------------------------------------- framing

  /** Contents of frames that are no table, and entries elsewhere, are untouched by a write to frame f. */
  lemma EntriesKept(s: Mem, hand: set<int>, s': Mem, f: int)
    requires Inv(s, hand) && Shape(s') && s'.dir == s.dir && f >= LOW_FRAME
    requires forall x :: 0 <= x < FRAMES && x != f ==> s'.phys[x] == s.phys[x]
    ensures forall d, t :: Addr(d, t, 0) && !(s.dir[d].p && s.dir[d].frame == f) ==> Entry(s', d, t) == Entry(s, d, t)
    ensures Boot(s') <== s'.limit[0] == s.limit[0]
  {
  }

  lemma TableFrame(s: Mem, hand: set<int>, d: int)
    requires Inv(s, hand) && 16 <= d < WORDS && s.dir[d].p
    ensures Main(s, s.dir[d].frame) && s.dir[d].frame !in hand
    ensures forall q :: RefOk(q) && q != Dir(d) ==> Target(s, q) != s.dir[d].frame
    ensures forall e :: 16 <= e < WORDS && e != d && s.dir[e].p ==> s.dir[e].frame != s.dir[d].frame
  {
    assert Target(s, Dir(d)) == s.dir[d].frame;
    assert forall e :: 16 <= e < WORDS && s.dir[e].p ==> Target(s, Dir(e)) == s.dir[e].frame;
  }

  /** Counts alone are invisible to entries, references and views. */
  lemma CountsOnly(u: Mem, s': Mem)
    requires Shape(u) && Shape(s') && s' == u.(memMap := s'.memMap)
    ensures Boot(u) ==> Boot(s')
    ensures Slices(u) ==> Slices(s')
    ensures forall r :: RefOk(r) ==> Target(s', r) == Target(u, r) && CanWrite(s', r) == CanWrite(u, r)
    ensures forall e, t :: 0 <= e < WORDS && 0 <= t < WORDS ==> Entry(s', e, t) == Entry(u, e, t)
    ensures SameViews(u, s')
  {
  }

  /** A frame nobody refers to holds no table. */
  lemma NoTable(s: Mem, f: int)
    requires Shape(s) && forall r :: RefOk(r) ==> Target(s, r) != f
    ensures forall d :: 16 <= d < WORDS && s.dir[d].p ==> s.dir[d].frame != f
    ensures forall d, t :: 16 <= d < WORDS && 0 <= t < WORDS && Entry(s, d, t).p ==> Entry(s, d, t).frame != f
  {
    forall d | 16 <= d < WORDS && s.dir[d].p ensures s.dir[d].frame != f {
      assert Target(s, Dir(d)) != f;
    }
    forall d, t | 16 <= d < WORDS && 0 <= t < WORDS && Entry(s, d, t).p ensures Entry(s, d, t).frame != f {
      assert Target(s, Pte(d, t)) != f;
    }
  }

  /** A new table entry changes nothing but that entry and the view of its page. */
  lemma SetEntryEffect(s: Mem, hand: set<int>, d: int, t: int, w: Word)
    requires Inv(s, hand) && 16 <= d < WORDS && 0 <= t < WORDS && s.dir[d].p
    ensures var s' := SetEntry(s, d, t, w);
      && Shape(s') && Boot(s') && Slices(s')
      && Entry(s', d, t) == w
      && (forall e, u :: Addr(e, u, 0) && (e, u) != (d, t) ==> Entry(s', e, u) == Entry(s, e, u))
      && (forall q :: RefOk(q) && q != Pte(d, t) ==> Target(s', q) == Target(s, q))
      && (forall e, u, o :: Addr(e, u, o) && (e, u) != (d, t) ==> ViewAt(s', e, u, o) == ViewAt(s, e, u, o))
      && (forall x :: 0 <= x < FRAMES && x != s.dir[d].frame ==> s'.phys[x] == s.phys[x])
  {
    var s' := SetEntry(s, d, t, w);
    TableFrame(s, hand, d);
    EntriesKept(s, hand, s', s.dir[d].frame);
    forall e, u, o | Addr(e, u, o) && (e, u) != (d, t)
      ensures ViewAt(s', e, u, o) == ViewAt(s, e, u, o)
    {
      if 16 <= e {
        assert Target(s, Pte(e, u)) != s.dir[d].frame;
      }
    }
  }

  // ---------------------------------------------------------------- taking and linking frames

  lemma ZeroCountUnused(s: Mem, hand: set<int>, f: int)
    requires Inv(s, hand) && LOW_FRAME <= f < FRAMES && s.memMap[f - LOW_FRAME] == 0
    ensures Main(s, f) && f !in hand
    ensures forall r :: RefOk(r) ==> Target(s, r) != f
  {
    assert |Refs(s, f)| == 0;
    forall r | RefOk(r) ensures Target(s, r) != f {
      assert r !in Refs(s, f);
    }
  }

  /** Zeroing a frame nobody refers to is seen by nobody. */
  lemma TakeUnseen(s: Mem, hand: set<int>, s': Mem, f: int)
    requires Inv(s, hand) && Main(s, f) && forall r :: RefOk(r) ==> Target(s, r) != f
    requires s' == s.(memMap := s.memMap[f - LOW_FRAME := 1], phys := s.phys[f := ZeroPage()])
    ensures Shape(s') && Boot(s') && Slices(s') && SameViews(s, s')
    ensures forall r :: RefOk(r) ==> Target(s', r) == Target(s, r)
    ensures forall d, t :: Addr(d, t, 0) ==> Entry(s', d, t) == Entry(s, d, t)
  {
    NoTable(s, f);
    EntriesKept(s, hand, s', f);
  }

  /** Taking an unreferenced frame in hand moves no reference. */
  lemma TakeMoves(s: Mem, hand: set<int>, s': Mem, f: int)
    requires Inv(s, hand) && Main(s, f) && f !in hand && s.memMap[f - LOW_FRAME] == 0
    requires Shape(s') && Boot(s') && Slices(s') && s'.start == s.start && s'.high == s.high
    requires s'.memMap == s.memMap[f - LOW_FRAME := 1]
    requires forall r :: RefOk(r) ==>
      Target(s, r) != f && Target(s', r) == Target(s, r) && (CanWrite(s', r) ==> CanWrite(s, r))
    ensures Inv(s', hand + {f})
  {
    Retarget(s, hand, s', hand + {f}, Dir(16));
  }

  lemma GetFreeTakes(s: Mem, hand: set<int>)
    requires Inv(s, hand)
    ensures var (f, s') := GetFree(s);
      && (f == 0 ==> s' == s && forall i :: 0 <= i < PAGING_PAGES ==> s.memMap[i] != 0)
      && (f != 0 ==> s.memMap[f - LOW_FRAME] == 0 && s'.memMap == s.memMap[f - LOW_FRAME := 1]
                     && forall i :: f - LOW_FRAME < i < PAGING_PAGES ==> s.memMap[i] != 0)
      && (f != 0 ==> Main(s, f) && f !in hand && Inv(s', hand + {f}) && SameViews(s, s')
                     && s'.phys[f] == ZeroPage()
                     && (forall r :: RefOk(r) ==> Target(s, r) != f && Target(s', r) == Target(s, r))
                     && (forall d, t :: Addr(d, t, 0) ==> Entry(s', d, t) == Entry(s, d, t)))
  {
    var (f, s') := GetFree(s);
    if f != 0 {
      ZeroCountUnused(s, hand, f);
      TakeUnseen(s, hand, s', f);
      TakeMoves(s, hand, s', f);
    }
  }

  /** An empty new table changes no entry and no view. */
  lemma LinkTableUnseen(s: Mem, hand: set<int>, d: int, f: FrameNo)
    requires Inv(s, hand) && 16 <= d < WORDS && !s.dir[d].p && f < FRAMES && s.phys[f] == ZeroPage()
    requires s.slot[d / 16] != 0 && d % 16 < Dirs(s.limit[d / 16])
    ensures var s' := s.(dir := s.dir[d := FullAccess(f)]);
      && Shape(s') && Boot(s') && Slices(s') && SameViews(s, s')
      && (forall e, u :: Addr(e, u, 0) ==> Entry(s', e, u) == Entry(s, e, u))
  {
    var s' := s.(dir := s.dir[d := FullAccess(f)]);
    forall e, u | Addr(e, u, 0) ensures Entry(s', e, u) == Entry(s, e, u) {
      assert e != d ==> s'.dir[e] == s.dir[e];
    }
  }

  lemma LinkTable(s: Mem, hand: set<int>, d: int, f: FrameNo)
    requires Inv(s, hand) && 16 <= d < WORDS && !s.dir[d].p && f in hand && f < FRAMES && s.phys[f] == ZeroPage()
    requires s.slot[d / 16] != 0 && d % 16 < Dirs(s.limit[d / 16])
    ensures var s' := s.(dir := s.dir[d := FullAccess(f)]);
      && Inv(s', hand - {f}) && SameViews(s, s')
      && (forall e, u :: Addr(e, u, 0) ==> Entry(s', e, u) == Entry(s, e, u))
  {
    var s' := s.(dir := s.dir[d := FullAccess(f)]);
    LinkTableUnseen(s, hand, d, f);
    assert Target(s', Dir(d)) == f && Target(s, Dir(d)) == -1;
    Retarget(s, hand, s', hand - {f}, Dir(d));
  }

  lemma LinkPage(s: Mem, hand: set<int>, d: int, t: int, f: FrameNo)
    requires Inv(s, hand) && 16 <= d < WORDS && 0 <= t < WORDS && s.dir[d].p && !Entry(s, d, t).p && f in hand
    ensures var s' := SetEntry(s, d, t, FullAccess(f));
      && Inv(s', hand - {f})
      && Entry(s', d, t) == FullAccess(f)
      && (forall e, u, o :: Addr(e, u, o) ==>
            ViewAt(s', e, u, o) == if (e, u) == (d, t) then s.phys[f][o] else ViewAt(s, e, u, o))
  {
    var s' := SetEntry(s, d, t, FullAccess(f));
    SetEntryEffect(s, hand, d, t, FullAccess(f));
    TableFrame(s, hand, d);
    assert Move(s, hand, s', hand - {f}, Pte(d, t));
    Retarget(s, hand, s', hand - {f}, Pte(d, t));
  }

  /** A reference counted in memMap keeps its frame from being free. */
  lemma Counted(s: Mem, hand: set<int>, r: Ref)
    requires Inv(s, hand) && RefOk(r) && Target(s, r) >= LOW_FRAME
    ensures Main(s, Target(s, r)) && s.memMap[Target(s, r) - LOW_FRAME] >= 1
    ensures s.memMap[Target(s, r) - LOW_FRAME] == 1 ==> forall q :: RefOk(q) && Target(s, q) == Target(s, r) ==> q == r
  {
    var f := Target(s, r);
    assert r in Refs(s, f);
    RemoveOne(Refs(s, f), r);
    if s.memMap[f - LOW_FRAME] == 1 {
      assert Refs(s, f) - {r} == {};
      forall q | RefOk(q) && Target(s, q) == f ensures q == r {
        assert q in Refs(s, f) && q !in Refs(s, f) - {r};
      }
    }
  }

  /** free_page panics on a frame of main memory that nobody refers to and that is in nobody's hand, and only then. */
  lemma FreePanicsExactly(s: Mem, hand: set<int>, f: int)
    requires Inv(s, hand)
    ensures FreePanics(s, f) <==> Main(s, f) && f !in hand && forall r :: RefOk(r) ==> Target(s, r) != f
  {
    if FreePanics(s, f) {
      ZeroCountUnused(s, hand, f);
    } else if Main(s, f) && f !in hand {
      assert s.memMap[f - LOW_FRAME] == |Refs(s, f)|;
      var r :| r in Refs(s, f);
      assert RefOk(r) && Target(s, r) == f;
    }
  }

  // ---------------------------------------------------------------- releasing

  /** Clearing a reference and releasing its frame. */
  lemma DropMoves(s: Mem, hand: set<int>, s': Mem, r: Ref)
    requires Inv(s, hand) && RefOk(r)
    requires Shape(s') && Boot(s') && Slices(s') && s'.start == s.start && s'.high == s.high
    requires s'.memMap == if Target(s, r) == -1 then s.memMap else FreeFrame(s, Target(s, r)).memMap
    requires Target(s', r) == -1
    requires forall q :: RefOk(q) && q != r ==> Target(s', q) == Target(s, q) && (CanWrite(s', q) ==> CanWrite(s, q))
    ensures Target(s, r) != -1 ==> !FreePanics(s, Target(s, r))
    ensures Inv(s', hand)
  {
    if Target(s, r) >= LOW_FRAME {
      Counted(s, hand, r);
    }
    Retarget(s, hand, s', hand, r);
  }

  /** One round of the inner loop of free_page_tables: release the page, clear the entry. */
  function DropEntry(s: Mem, d: int, t: int): Mem
    requires |s.memMap| == PAGING_PAGES && s.high <= FRAMES
    requires |s.phys| == FRAMES && 0 <= d < |s.dir| && 0 <= t < WORDS && s.dir[d].frame < FRAMES
  {
    var w := s.phys[s.dir[d].frame][t];
    SetEntry(if w.p then FreeFrame(s, w.frame) else s, d, t, ZERO)
  }

  lemma DropEntryStep(s: Mem, hand: set<int>, d: int, t: int)
    requires Inv(s, hand) && 16 <= d < WORDS && 0 <= t < WORDS && s.dir[d].p
    ensures var s' := DropEntry(s, d, t);
      && (Entry(s, d, t).p ==> !FreePanics(s, Entry(s, d, t).frame))
      && Inv(s', hand) && s'.dir == s.dir && s'.slot == s.slot && s'.limit == s.limit
      && Entry(s', d, t) == ZERO
      && (forall e, u :: Addr(e, u, 0) && (e, u) != (d, t) ==> Entry(s', e, u) == Entry(s, e, u))
      && (forall e, u, o :: Addr(e, u, o) ==>
            ViewAt(s', e, u, o) == if (e, u) == (d, t) then ZERO else ViewAt(s, e, u, o))
  {
    var s' := DropEntry(s, d, t);
    var r := Pte(d, t);
    SetEntryEffect(s, hand, d, t, ZERO);
    var u := SetEntry(s, d, t, ZERO);
    CountsOnly(u, s');
    DropMoves(s, hand, s', r);
  }

  /** The end of a round of the outer loop: release the table, clear the directory entry. */
  function DropTable(s: Mem, d: int): Mem
    requires |s.memMap| == PAGING_PAGES && s.high <= FRAMES && 0 <= d < |s.dir|
  {
    var s1 := FreeFrame(s, s.dir[d].frame);
    s1.(dir := s1.dir[d := ZERO])
  }

  lemma DropTableStep(s: Mem, hand: set<int>, d: int)
    requires Inv(s, hand) && 16 <= d < WORDS && s.dir[d].p
    requires forall t :: 0 <= t < WORDS ==> !Entry(s, d, t).p
    ensures var s' := DropTable(s, d);
      && !FreePanics(s, s.dir[d].frame)
      && Inv(s', hand) && s'.dir == s.dir[d := ZERO] && s'.slot == s.slot && s'.limit == s.limit && SameViews(s, s')
      && (forall e, u :: Addr(e, u, 0) && e != d ==> Entry(s', e, u) == Entry(s, e, u))
      && (forall u :: 0 <= u < WORDS ==> Entry(s', d, u) == ZERO)
  {
    var s' := DropTable(s, d);
    assert Target(s, Dir(d)) == s.dir[d].frame;
    forall q | RefOk(q) && q != Dir(d) ensures Target(s', q) == Target(s, q) && (CanWrite(s', q) ==> CanWrite(s, q)) {
      assert q.Pte? && q.d == d ==> !Entry(s, q.d, q.t).p;
    }
    DropMoves(s, hand, s', Dir(d));
  }

  // ---------------------------------------------------------------- task structures

  /** The part of copy_process that puts frame f in the task array with a copy of the parent's structure. */
  function TakeSlot(s: Mem, n: int, f: int, lim: int, pcb: Page): Mem
    requires 0 <= n < |s.slot| && n < |s.limit| && 0 <= f < |s.phys|
  {
    s.(slot := s.slot[n := f], limit := s.limit[n := lim], phys := s.phys[f := pcb])
  }

  lemma EntriesSame(s: Mem, s': Mem, f: int)
    requires Shape(s) && Shape(s') && Boot(s) && Boot(s') && s'.dir == s.dir && f >= LOW_FRAME
    requires forall x :: 0 <= x < FRAMES && x != f ==> s'.phys[x] == s.phys[x]
    requires forall d :: 16 <= d < WORDS && s.dir[d].p ==> s.dir[d].frame != f
    requires forall d, t :: 16 <= d < WORDS && 0 <= t < WORDS && Entry(s, d, t).p ==> Entry(s, d, t).frame != f
    ensures forall e, u :: Addr(e, u, 0) ==> Entry(s', e, u) == Entry(s, e, u)
    ensures SameViews(s, s')
  {
  }

  lemma TakeSlotStep(s: Mem, hand: set<int>, n: int, f: int, lim: int, pcb: Page)
    requires Inv(s, hand) && 1 <= n < NR_TASKS && s.slot[n] == 0 && f in hand && 0 < lim <= 0x400_0000
    ensures var s' := TakeSlot(s, n, f, lim, pcb);
      && Inv(s', hand - {f}) && SameViews(s, s')
      && (forall e, u :: Addr(e, u, 0) ==> Entry(s', e, u) == Entry(s, e, u))
  {
    var s' := TakeSlot(s, n, f, lim, pcb);
    NoTable(s, f);
    EntriesSame(s, s', f);
    assert forall q :: RefOk(q) && q != Slot(n) ==> Target(s', q) == Target(s, q) && CanWrite(s', q) == CanWrite(s, q);
    assert Target(s', Slot(n)) == f && Target(s, Slot(n)) == -1;
    Retarget(s, hand, s', hand - {f}, Slot(n));
  }

  /** task[nr] = NULL; free_page(p). */
  function DropSlot(s: Mem, n: int): Mem
    requires |s.memMap| == PAGING_PAGES && s.high <= FRAMES && 0 <= n < |s.slot|
  {
    FreeFrame(s.(slot := s.slot[n := 0]), s.slot[n])
  }

  /** A slot whose slice has no table can be cleared without anyone noticing. */
  lemma ClearSlotUnseen(s: Mem, hand: set<int>, n: int)
    requires Inv(s, hand) && 1 <= n < NR_TASKS && s.slot[n] != 0
    requires forall d :: 16 * n <= d < 16 * n + 16 ==> !s.dir[d].p
    ensures var u := s.(slot := s.slot[n := 0]);
      && Shape(u) && Boot(u) && Slices(u) && SameViews(s, u)
      && Target(s, Slot(n)) == s.slot[n] && Target(u, Slot(n)) == -1
      && (forall q :: RefOk(q) && q != Slot(n) ==> Target(u, q) == Target(s, q) && CanWrite(u, q) == CanWrite(s, q))
  {
    hide Accounted, InRange, Exclusive, WriteOwned, OncePerSlice, HandFree;
  }

  lemma DropSlotStep(s: Mem, hand: set<int>, n: int)
    requires Inv(s, hand) && 1 <= n < NR_TASKS && s.slot[n] != 0
    requires forall d :: 16 * n <= d < 16 * n + 16 ==> !s.dir[d].p
    ensures var s' := DropSlot(s, n);
      && !FreePanics(s, s.slot[n])
      && Inv(s', hand) && SameViews(s, s')
  {
    var s' := DropSlot(s, n);
    var u := s.(slot := s.slot[n := 0]);
    ClearSlotUnseen(s, hand, n);
    assert Shape(s');
    hide Accounted, InRange, Exclusive, WriteOwned, OncePerSlice, HandFree, Slices, Boot, Target, CanWrite, Entry;
    hide ViewAt;
    CountsOnly(u, s');
    DropMoves(s, hand, s', Slot(n));
  }

  // ---------------------------------------------------------------- sharing

  /** One round of the inner loop of copy_page_tables. The source compares the raw word with LOW_MEM. */
  function ShareEntry(s: Mem, df: int, dt: int, t: int): Mem
    requires |s.memMap| == PAGING_PAGES && |s.phys| == FRAMES && 0 <= df < |s.dir| && 0 <= dt < |s.dir|
    requires 0 <= t < WORDS
    requires s.dir[df].frame < FRAMES && s.dir[dt].frame < FRAMES
  {
    var w := s.phys[s.dir[df].frame][t];
    if !w.p then s
    else
      var s1 := SetEntry(s, dt, t, w.ReadOnly());
      if w.ReadOnly().Encode() > LOW_MEM && LOW_FRAME <= w.frame < FRAMES then
        var s2 := SetEntry(s1, df, t, w.ReadOnly());
        s2.(memMap := s2.memMap[w.frame - LOW_FRAME := (s2.memMap[w.frame - LOW_FRAME] + 1) % 256])
      else s1
  }

  lemma {:induction false} OnePerSliceBound(a: set<Ref>, k: nat)
    requires forall r :: r in a ==> r.Pte? && 1 <= r.d / 16 <= k
    requires forall r, q :: r in a && q in a && r.d / 16 == q.d / 16 ==> r == q
    ensures |a| <= k
    decreases k
  {
    if k == 0 {
      assert forall r :: r !in a;
    } else if r :| r in a && r.d / 16 == k {
      RemoveOne(a, r);
      OnePerSliceBound(a - {r}, k - 1);
    } else {
      OnePerSliceBound(a, k - 1);
    }
  }

  /** Reference counts fit: a counted frame is mapped at most once by each of the 63 slices. */
  lemma CountsFit(s: Mem, hand: set<int>, f: int)
    requires Inv(s, hand) && Main(s, f)
    ensures 0 <= s.memMap[f - LOW_FRAME] <= NR_TASKS - 1 < USED
  {
    if r :| r in Refs(s, f) && !r.Pte? {
      assert forall q :: q in Refs(s, f) ==> q == r;
      assert Refs(s, f) == {r};
    } else {
      OnePerSliceBound(Refs(s, f), NR_TASKS - 1);
    }
    if f in hand {
      assert Refs(s, f) == {};
    }
  }

  /** Clearing the write bit of a mapping. */
  lemma ReadOnlyStep(s: Mem, hand: set<int>, d: int, t: int)
    requires Inv(s, hand) && 16 <= d < WORDS && 0 <= t < WORDS && s.dir[d].p && Entry(s, d, t).p
    ensures var s' := SetEntry(s, d, t, Entry(s, d, t).ReadOnly());
      && Inv(s', hand) && SameViews(s, s')
      && (forall q :: RefOk(q) ==> Target(s', q) == Target(s, q) && (CanWrite(s', q) ==> CanWrite(s, q)))
      && Entry(s', d, t) == Entry(s, d, t).ReadOnly()
      && (forall e, u :: Addr(e, u, 0) && (e, u) != (d, t) ==> Entry(s', e, u) == Entry(s, e, u))
  {
    var w := Entry(s, d, t).ReadOnly();
    var s' := SetEntry(s, d, t, w);
    SetEntryEffect(s, hand, d, t, w);
    TableFrame(s, hand, d);
    assert Target(s, Pte(d, t)) == w.frame;
    Retarget(s, hand, s', hand, Dir(d));
  }

  /** A further read-only mapping w of a frame that is either below LOW_MEM or mapped read-only elsewhere. */
  function AddShare(s: Mem, d: int, t: int, w: Word): Mem
    requires |s.memMap| == PAGING_PAGES && |s.phys| == FRAMES && 0 <= d < |s.dir| && 0 <= t < WORDS
    requires s.dir[d].frame < FRAMES && w.frame < FRAMES
  {
    var s1 := SetEntry(s, d, t, w);
    if w.frame < LOW_FRAME then s1
    else s1.(memMap := s1.memMap[w.frame - LOW_FRAME := (s1.memMap[w.frame - LOW_FRAME] + 1) % 256])
  }

  lemma ShareMoves(s: Mem, hand: set<int>, s': Mem, r: Ref, n: int)
    requires Inv(s, hand) && RefOk(r) && r.Pte? && Target(s, r) == -1
    requires Shape(s') && Boot(s') && Slices(s') && s'.start == s.start && s'.high == s.high
    requires 0 <= n < LOW_FRAME || (Main(s, n) && n !in hand)
    requires s'.memMap == if n < LOW_FRAME then s.memMap else s.memMap[n - LOW_FRAME := s.memMap[n - LOW_FRAME] + 1]
    requires Target(s', r) == n && !CanWrite(s', r)
    requires forall q :: RefOk(q) && q != r ==> Target(s', q) == Target(s, q) && (CanWrite(s', q) ==> CanWrite(s, q))
    requires forall q :: RefOk(q) && Target(s, q) == n ==>
               q.Pte? && !CanWrite(s, q) && (n >= LOW_FRAME ==> q.d / 16 != r.d / 16)
    ensures Inv(s', hand)
  {
    Retarget(s, hand, s', hand, r);
  }

  lemma AddShareSeen(s: Mem, hand: set<int>, d: int, t: int, w: Word)
    requires Inv(s, hand) && 16 <= d < WORDS && 0 <= t < WORDS && s.dir[d].p && w.p && w.frame < FRAMES
    requires w.frame != s.dir[d].frame
    ensures var s' := AddShare(s, d, t, w);
      && Shape(s') && Boot(s') && Slices(s') && Entry(s', d, t) == w
      && (forall e, u :: Addr(e, u, 0) && (e, u) != (d, t) ==> Entry(s', e, u) == Entry(s, e, u))
      && (forall q :: RefOk(q) && q != Pte(d, t) ==> Target(s', q) == Target(s, q))
      && (forall e, u, o :: Addr(e, u, o) ==>
            ViewAt(s', e, u, o) == if (e, u) == (d, t) then s.phys[w.frame][o] else ViewAt(s, e, u, o))
      && Target(s', Pte(d, t)) == w.frame && (CanWrite(s', Pte(d, t)) <==> w.rw)
      && (forall q :: RefOk(q) && q != Pte(d, t) ==> CanWrite(s', q) == CanWrite(s, q))
  {
    SetEntryEffect(s, hand, d, t, w);
    CountsOnly(SetEntry(s, d, t, w), AddShare(s, d, t, w));
  }

  lemma AddShareStep(s: Mem, hand: set<int>, d: int, t: int, w: Word)
    requires Inv(s, hand) && 16 <= d < WORDS && 0 <= t < WORDS && s.dir[d].p && !Entry(s, d, t).p
    requires w.p && !w.rw && (w.frame < LOW_FRAME || (Main(s, w.frame) && w.frame !in hand))
    requires forall q :: RefOk(q) && Target(s, q) == w.frame ==>
               q.Pte? && !CanWrite(s, q) && (w.frame >= LOW_FRAME ==> q.d / 16 != d / 16)
    ensures var s' := AddShare(s, d, t, w);
      && Inv(s', hand) && s'.dir == s.dir && s'.slot == s.slot && s'.limit == s.limit
      && s'.start == s.start && s'.high == s.high
      && Entry(s', d, t) == w
      && (forall e, u :: Addr(e, u, 0) && (e, u) != (d, t) ==> Entry(s', e, u) == Entry(s, e, u))
      && (forall e, u, o :: Addr(e, u, o) ==>
            ViewAt(s', e, u, o) == if (e, u) == (d, t) then s.phys[w.frame][o] else ViewAt(s, e, u, o))
  {
    assert Target(s, Dir(d)) == s.dir[d].frame;
    AddShareSeen(s, hand, d, t, w);
    assert Shape(s) && Target(s, Pte(d, t)) == -1;
    hide Accounted, InRange, Exclusive, WriteOwned, OncePerSlice, HandFree, Slices, Boot, Target, CanWrite, Entry;
    hide ViewAt;
    if w.frame >= LOW_FRAME {
      CountsFit(s, hand, w.frame);
    }
    ShareMoves(s, hand, AddShare(s, d, t, w), Pte(d, t), w.frame);
  }

  lemma ShareOrder(s: Mem, df: int, dt: int, t: int)
    requires Shape(s) && 0 <= df < WORDS && 0 <= dt < WORDS && 0 <= t < WORDS
    requires s.dir[df].frame < FRAMES && s.dir[dt].frame < FRAMES && s.dir[df].frame != s.dir[dt].frame
    requires var w := s.phys[s.dir[df].frame][t];
      w.p && w.frame < FRAMES && (w.ReadOnly().Encode() > LOW_MEM <==> w.frame >= LOW_FRAME)
    ensures var w := s.phys[s.dir[df].frame][t];
      ShareEntry(s, df, dt, t) ==
        AddShare(if w.frame < LOW_FRAME then s else SetEntry(s, df, t, w.ReadOnly()), dt, t, w.ReadOnly())
  {
    hide Word.Encode;
    var w := s.phys[s.dir[df].frame][t].ReadOnly();
    var a, b := s.dir[df].frame, s.dir[dt].frame;
    var pa, pb := s.phys[a][t := w], s.phys[b][t := w];
    assert s.phys[b := pb][a := pa] == s.phys[a := pa][b := pb];
  }

  /** The source clears the parent's write bit after writing the child's entry; the order does not matter. */
  lemma ShareEntrySplit(s: Mem, hand: set<int>, df: int, dt: int, t: int)
    requires Inv(s, hand) && Addr(df, t, 0) && 16 <= dt < WORDS && df != dt && s.dir[df].p && s.dir[dt].p
    requires Entry(s, df, t).p
    ensures var w := Entry(s, df, t);
      && w.frame < FRAMES
      && (w.frame >= LOW_FRAME ==> Main(s, w.frame) && 16 <= df)
      && ShareEntry(s, df, dt, t) ==
           AddShare(if w.frame < LOW_FRAME then s else SetEntry(s, df, t, w.ReadOnly()), dt, t, w.ReadOnly())
  {
    var w := Entry(s, df, t);
    assert w.ReadOnly().Encode() > LOW_MEM <==> w.frame >= LOW_FRAME by {
      EncodeFields(w.ReadOnly());
    }
    if df >= 16 {
      assert Target(s, Pte(df, t)) == w.frame;
      TableFrame(s, hand, df);
    }
    TableFrame(s, hand, dt);
    assert Shape(s) && s.dir[df].frame != s.dir[dt].frame && s.phys[s.dir[df].frame][t] == w;
    assert w.frame < FRAMES;
    hide Inv;
    ShareOrder(s, df, dt, t);
  }

  /** What sharing an entry does: the receiving entry becomes a read-only copy of the giving one and reads as it did;
      every other entry keeps its page, at most losing its write bit, and reads as before. */
  ghost predicate SharedOne(s: Mem, s': Mem, df: int, dt: int, t: int)
    requires Shape(s) && Shape(s') && Addr(df, t, 0) && 16 <= dt < WORDS
  {
    && s'.dir == s.dir && s'.slot == s.slot && s'.limit == s.limit && s'.start == s.start && s'.high == s.high
    && Entry(s', dt, t) == (if Entry(s, df, t).p then Entry(s, df, t).ReadOnly() else Entry(s, dt, t))
    && (forall e, u :: Addr(e, u, 0) && (e, u) != (dt, t) ==>
          Entry(s', e, u) == Entry(s, e, u) || (Entry(s, e, u).p && Entry(s', e, u) == Entry(s, e, u).ReadOnly()))
    && (forall e, u, o :: Addr(e, u, o) ==>
          ViewAt(s', e, u, o) == if (e, u) == (dt, t) then ViewAt(s, df, t, o) else ViewAt(s, e, u, o))
  }

  /** A frame below LOW_MEM is shared without counting. */
  lemma ShareLow(s: Mem, hand: set<int>, df: int, dt: int, t: int)
    requires Inv(s, hand) && Addr(df, t, 0) && 16 <= dt < WORDS && df != dt && s.dir[df].p && s.dir[dt].p
    requires !Entry(s, dt, t).p && Entry(s, df, t).p && Entry(s, df, t).frame < LOW_FRAME
    ensures var s' := AddShare(s, dt, t, Entry(s, df, t).ReadOnly());
      Inv(s', hand) && SharedOne(s, s', df, dt, t)
  {
    var w := Entry(s, df, t);
    assert forall q :: RefOk(q) && Target(s, q) == w.frame ==> q.Pte? && !CanWrite(s, q);
    hide Accounted, InRange, Exclusive, WriteOwned, OncePerSlice, HandFree, Slices, Boot, AddShare, CanWrite;
    AddShareStep(s, hand, dt, t, w.ReadOnly());
  }

  /** Without the write bit at (d, t) its frame is mapped, read-only, by table entries alone. */
  lemma NobodyWrites(s: Mem, hand: set<int>, s1: Mem, d: int, t: int)
    requires Inv(s, hand) && 16 <= d < WORDS && 0 <= t < WORDS && Entry(s, d, t).p && Entry(s, d, t).frame >= LOW_FRAME
    requires Shape(s1) && Entry(s1, d, t) == Entry(s, d, t).ReadOnly() && s1.start == s.start && s1.high == s.high
    requires forall q :: RefOk(q) ==> Target(s1, q) == Target(s, q) && (CanWrite(s1, q) ==> CanWrite(s, q))
    ensures Main(s1, Entry(s, d, t).frame) && Entry(s, d, t).frame !in hand
    ensures forall q :: RefOk(q) && Target(s1, q) == Entry(s, d, t).frame ==> q.Pte? && !CanWrite(s1, q)
  {
    hide Accounted, OncePerSlice, Slices, Boot;
    assert Target(s, Pte(d, t)) == Entry(s, d, t).frame;
  }

  /** A counted frame first loses the write bit of the mapping it has. */
  lemma ShareHigh(s: Mem, hand: set<int>, df: int, dt: int, t: int)
    requires Inv(s, hand) && 16 <= df < WORDS && 0 <= t < WORDS && 16 <= dt < WORDS && df != dt && s.dir[df].p
    requires s.dir[dt].p
    requires !Entry(s, dt, t).p && Entry(s, df, t).p && LOW_FRAME <= Entry(s, df, t).frame < FRAMES
    requires forall q :: RefOk(q) && q.Pte? && q.d / 16 == dt / 16 && Target(s, q) >= LOW_FRAME ==>
               Target(s, q) != Entry(s, df, t).frame
    ensures var s' := AddShare(SetEntry(s, df, t, Entry(s, df, t).ReadOnly()), dt, t, Entry(s, df, t).ReadOnly());
      Inv(s', hand) && SharedOne(s, s', df, dt, t)
  {
    hide Accounted, InRange, Exclusive, WriteOwned, OncePerSlice, HandFree, Slices, Boot, AddShare, CanWrite, Target;
    var w := Entry(s, df, t);
    var s1 := SetEntry(s, df, t, w.ReadOnly());
    ReadOnlyStep(s, hand, df, t);
    NobodyWrites(s, hand, s1, df, t);
    AddShareStep(s1, hand, dt, t, w.ReadOnly());
    assert forall o :: 0 <= o < WORDS ==> s1.phys[w.frame][o] == ViewAt(s1, df, t, o);
  }

  lemma ShareEntryStep(s: Mem, hand: set<int>, df: int, dt: int, t: int)
    requires Inv(s, hand) && Addr(df, t, 0) && 16 <= dt < WORDS && df != dt && s.dir[df].p && s.dir[dt].p
    requires !Entry(s, dt, t).p
    requires forall q :: RefOk(q) && q.Pte? && q.d / 16 == dt / 16 && Target(s, q) >= LOW_FRAME ==>
               !Entry(s, df, t).p || Target(s, q) != Entry(s, df, t).frame
    ensures var s' := ShareEntry(s, df, dt, t);
      Inv(s', hand) && SharedOne(s, s', df, dt, t)
  {
    hide Accounted, InRange, Exclusive, WriteOwned, OncePerSlice, HandFree, Slices, Boot, AddShare, SetEntry;
    hide Word.Encode;
    if Entry(s, df, t).p {
      ShareEntrySplit(s, hand, df, dt, t);
      if Entry(s, df, t).frame < LOW_FRAME {
        ShareLow(s, hand, df, dt, t);
      } else {
        ShareHigh(s, hand, df, dt, t);
      }
    }
  }

  // ---------------------------------------------------------------- un-sharing and storing

  /** un_wp_page on the entry (d, t); None when it runs out of memory, where the source halts. */
  function UnWp(s: Mem, d: int, t: int): Option<Mem>
    requires |s.memMap| == PAGING_PAGES && |s.phys| == FRAMES && 0 <= d < |s.dir| && 0 <= t < WORDS
    requires s.dir[d].frame < FRAMES && s.phys[s.dir[d].frame][t].frame < FRAMES
  {
    var w := s.phys[s.dir[d].frame][t];
    if w.frame >= LOW_FRAME && s.memMap[w.frame - LOW_FRAME] == 1 then
      Some(SetEntry(s, d, t, w.Writable()))
    else
      var (g, s1) := GetFree(s);
      if g == 0 then None
      else
        Some(CopyOut(s1, d, t, w.frame, g))
  }

  /** The copying end of un_wp_page: give up frame f, map the new frame g writable, copy the contents. */
  function CopyOut(s: Mem, d: int, t: int, f: FrameNo, g: FrameNo): Mem
    requires |s.memMap| == PAGING_PAGES && |s.phys| == FRAMES && 0 <= d < |s.dir| && 0 <= t < WORDS
    requires s.dir[d].frame < FRAMES && f < FRAMES && g < FRAMES
  {
    var m := if f >= LOW_FRAME then s.memMap[f - LOW_FRAME := (s.memMap[f - LOW_FRAME] + 255) % 256] else s.memMap;
    var s2 := SetEntry(s.(memMap := m), d, t, FullAccess(g));
    s2.(phys := s2.phys[g := s2.phys[f]])
  }

  /** What both branches of un_wp_page achieve: the page is this entry's own and writable, and reads as before. */
  ghost predicate Unshared(s: Mem, hand: set<int>, s': Mem, d: int, t: int)
    requires Shape(s) && 16 <= d < WORDS && 0 <= t < WORDS
  {
    && Inv(s', hand) && s'.dir == s.dir && s'.slot == s.slot && s'.limit == s.limit
    && SameViews(s, s') && CanWrite(s', Pte(d, t))
    && (forall e, u :: Addr(e, u, 0) && (e, u) != (d, t) ==> Entry(s', e, u) == Entry(s, e, u))
  }

  lemma OwnMoves(s: Mem, hand: set<int>, s': Mem, r: Ref)
    requires Inv(s, hand) && RefOk(r) && Main(s, Target(s, r))
    requires Shape(s') && Boot(s') && Slices(s') && s'.start == s.start && s'.high == s.high && s'.memMap == s.memMap
    requires Target(s', r) == Target(s, r)
    requires forall q :: RefOk(q) && q != r ==> Target(s', q) == Target(s, q) && (CanWrite(s', q) ==> CanWrite(s, q))
    requires forall q :: RefOk(q) && q != r ==> Target(s, q) != Target(s, r)
    ensures Inv(s', hand)
  {
    Retarget(s, hand, s', hand, r);
  }

  lemma UnWpReuse(s: Mem, hand: set<int>, d: int, t: int)
    requires Inv(s, hand) && 16 <= d < WORDS && 0 <= t < WORDS && s.dir[d].p && Entry(s, d, t).p
    requires LOW_FRAME <= Entry(s, d, t).frame < FRAMES && s.memMap[Entry(s, d, t).frame - LOW_FRAME] == 1
    ensures Unshared(s, hand, SetEntry(s, d, t, Entry(s, d, t).Writable()), d, t)
  {
    var w := Entry(s, d, t).Writable();
    var s' := SetEntry(s, d, t, w);
    assert Target(s, Pte(d, t)) == w.frame;
    Counted(s, hand, Pte(d, t));
    SetEntryEffect(s, hand, d, t, w);
    assert Target(s, Dir(d)) == s.dir[d].frame;
    OwnMoves(s, hand, s', Pte(d, t));
  }

  /** Filling frame g, which only the entry (d, t) refers to, changes the view of that entry's page alone. */
  lemma FillSeen(u: Mem, s': Mem, d: int, t: int, g: FrameNo, p: Page)
    requires Shape(u) && Boot(u) && Slices(u) && Shape(s') && LOW_FRAME <= g < FRAMES
    requires 16 <= d < WORDS && 0 <= t < WORDS && Entry(u, d, t) == FullAccess(g)
    requires s' == u.(memMap := s'.memMap, phys := u.phys[g := p])
    requires forall e :: 16 <= e < WORDS && u.dir[e].p ==> u.dir[e].frame != g
    requires forall e, v :: 16 <= e < WORDS && 0 <= v < WORDS && (e, v) != (d, t) && Entry(u, e, v).p ==>
               Entry(u, e, v).frame != g
    ensures Boot(s') && Slices(s')
    ensures forall e, v :: Addr(e, v, 0) ==> Entry(s', e, v) == Entry(u, e, v)
    ensures forall e, v, o :: Addr(e, v, o) ==>
      ViewAt(s', e, v, o) == if (e, v) == (d, t) then p[o] else ViewAt(u, e, v, o)
    ensures forall q :: RefOk(q) ==> Target(s', q) == Target(u, q)
  {
    forall e, v | Addr(e, v, 0) ensures Entry(s', e, v) == Entry(u, e, v) {
      assert e == 0 || !u.dir[e].p || u.dir[e].frame != g;
    }
  }

  lemma UnWpCopySeen(s: Mem, hand: set<int>, d: int, t: int, g: FrameNo, s': Mem)
    requires Inv(s, hand) && 16 <= d < WORDS && 0 <= t < WORDS && s.dir[d].p && Entry(s, d, t).p
    requires g in hand && g < FRAMES && Entry(s, d, t).frame < FRAMES && |s'.memMap| == PAGING_PAGES
    requires forall i :: 0 <= i < PAGING_PAGES ==> 0 <= s'.memMap[i] < 256
    requires var u := SetEntry(s, d, t, FullAccess(g));
      s' == u.(memMap := s'.memMap, phys := u.phys[g := u.phys[Entry(s, d, t).frame]])
    ensures Shape(s') && Boot(s') && Slices(s') && SameViews(s, s') && Entry(s', d, t) == FullAccess(g)
    ensures forall e, u :: Addr(e, u, 0) && (e, u) != (d, t) ==> Entry(s', e, u) == Entry(s, e, u)
    ensures forall q :: RefOk(q) && q != Pte(d, t) ==> Target(s', q) == Target(s, q)
  {
    var u := SetEntry(s, d, t, FullAccess(g));
    SetEntryEffect(s, hand, d, t, FullAccess(g));
    NoTable(s, g);
    assert Target(s, Pte(d, t)) == Entry(s, d, t).frame;
    TableFrame(s, hand, d);
    assert Shape(s') && LOW_FRAME <= g;
    hide Accounted, InRange, Exclusive, WriteOwned, OncePerSlice, HandFree, Slices, Boot, Target, Entry, SetEntry;
    FillSeen(u, s', d, t, g, s.phys[Entry(s, d, t).frame]);
  }

  lemma CopyMoves(s: Mem, hand: set<int>, s': Mem, r: Ref, g: int)
    requires Inv(s, hand) && RefOk(r) && r.Pte? && Target(s, r) != -1 && g in hand
    requires Shape(s') && Boot(s') && Slices(s') && s'.start == s.start && s'.high == s.high
    requires var f := Target(s, r);
      s'.memMap == if f < LOW_FRAME then s.memMap else s.memMap[f - LOW_FRAME := (s.memMap[f - LOW_FRAME] + 255) % 256]
    requires Target(s', r) == g
    requires forall q :: RefOk(q) && q != r ==> Target(s', q) == Target(s, q) && (CanWrite(s', q) ==> CanWrite(s, q))
    ensures Inv(s', hand - {g})
  {
    hide OncePerSlice, Boot, Slices;
    if Target(s, r) >= LOW_FRAME {
      Counted(s, hand, r);
      CountsFit(s, hand, Target(s, r));
    }
    Retarget(s, hand, s', hand - {g}, r);
  }

  lemma CopyOutStep(s: Mem, hand: set<int>, d: int, t: int, g: FrameNo)
    requires Inv(s, hand) && 16 <= d < WORDS && 0 <= t < WORDS && s.dir[d].p && Entry(s, d, t).p
    requires Entry(s, d, t).frame < FRAMES && g in hand && g < FRAMES
    ensures Unshared(s, hand - {g}, CopyOut(s, d, t, Entry(s, d, t).frame, g), d, t)
  {
    var s' := CopyOut(s, d, t, Entry(s, d, t).frame, g);
    assert Target(s, Pte(d, t)) == Entry(s, d, t).frame;
    assert |s'.memMap| == PAGING_PAGES && forall i :: 0 <= i < PAGING_PAGES ==> 0 <= s'.memMap[i] < 256;
    hide Accounted, InRange, Exclusive, WriteOwned, OncePerSlice, Slices, Boot;
    UnWpCopySeen(s, hand, d, t, g, s');
    CopyMoves(s, hand, s', Pte(d, t), g);
  }

  lemma UnWpFresh(s: Mem, hand: set<int>, s1: Mem, d: int, t: int, g: FrameNo)
    requires Shape(s) && 16 <= d < WORDS && 0 <= t < WORDS && s.dir[d].p && Entry(s, d, t).p
    requires g !in hand && g < FRAMES && Inv(s1, hand + {g}) && SameViews(s, s1)
    requires s1.dir == s.dir && s1.slot == s.slot && s1.limit == s.limit
    requires forall e, u :: Addr(e, u, 0) ==> Entry(s1, e, u) == Entry(s, e, u)
    ensures Entry(s, d, t).frame < FRAMES
    ensures Unshared(s, hand, CopyOut(s1, d, t, Entry(s, d, t).frame, g), d, t)
  {
    assert Entry(s1, d, t) == Entry(s, d, t) && Target(s1, Pte(d, t)) == Entry(s, d, t).frame;
    CopyOutStep(s1, hand + {g}, d, t, g);
    assert hand + {g} - {g} == hand;
  }

  lemma UnWpStep(s: Mem, hand: set<int>, d: int, t: int)
    requires Inv(s, hand) && 16 <= d < WORDS && 0 <= t < WORDS && s.dir[d].p && Entry(s, d, t).p
    ensures Entry(s, d, t).frame < FRAMES
    ensures match UnWp(s, d, t)
      case Some(s') => Unshared(s, hand, s', d, t)
      case None => GetFree(s).0 == 0
  {
    hide Accounted, Exclusive, WriteOwned, OncePerSlice, HandFree, Boot, Slices, ViewAt, SetEntry, CopyOut, Unshared;
    var w := Entry(s, d, t);
    assert Target(s, Pte(d, t)) == w.frame < FRAMES;
    hide InRange, Target;
    if w.frame >= LOW_FRAME && s.memMap[w.frame - LOW_FRAME] == 1 {
      UnWpReuse(s, hand, d, t);
    } else if UnWp(s, d, t).Some? {
      var (g, s1) := GetFree(s);
      GetFreeTakes(s, hand);
      UnWpFresh(s, hand, s1, d, t, g);
    }
  }

  /** A user-mode store through a writable entry. */
  function StoreWord(s: Mem, d: int, t: int, o: int, v: Word): Mem
    requires |s.phys| == FRAMES && 0 <= d < |s.dir| && 0 <= t < WORDS && 0 <= o < WORDS
    requires s.dir[d].frame < FRAMES && s.phys[s.dir[d].frame][t].frame < FRAMES
  {
    var f := s.phys[s.dir[d].frame][t].frame;
    s.(phys := s.phys[f := s.phys[f][o := v]])
  }

  /** A store into a frame that this entry alone refers to reaches one word of one task, and never a page table. */
  lemma SoleStoreStep(s: Mem, hand: set<int>, d: int, t: int, o: int, v: Word)
    requires Inv(s, hand) && Addr(d, t, o) && 16 <= d && Entry(s, d, t).p
    requires LOW_FRAME <= Entry(s, d, t).frame < FRAMES
    requires forall q :: RefOk(q) && Target(s, q) == Entry(s, d, t).frame ==> q == Pte(d, t)
    ensures var s' := StoreWord(s, d, t, o, v);
      && Inv(s', hand)
      && (forall e, u :: Addr(e, u, 0) ==> Entry(s', e, u) == Entry(s, e, u))
      && (forall e, u, i :: Addr(e, u, i) ==>
            ViewAt(s', e, u, i) == if (e, u, i) == (d, t, o) then v else ViewAt(s, e, u, i))
  {
    var s' := StoreWord(s, d, t, o, v);
    var f := Entry(s, d, t).frame;
    assert Target(s, Pte(d, t)) == f;
    forall e | 16 <= e < WORDS && s.dir[e].p ensures s.dir[e].frame != f {
      assert Target(s, Dir(e)) == s.dir[e].frame;
    }
    EntriesKept(s, hand, s', f);
    forall e, u, i | Addr(e, u, i) && (e, u) != (d, t) ensures ViewAt(s', e, u, i) == ViewAt(s, e, u, i) {
      if e >= 16 {
        assert Target(s, Pte(e, u)) != f;
      }
    }
    StayMoves(s, hand, s');
  }

  /** What a task can write is its own: a user-mode store changes one word of its view. */
  lemma StoreWordStep(s: Mem, hand: set<int>, d: int, t: int, o: int, v: Word)
    requires Inv(s, hand) && Addr(d, t, o) && 16 <= d && CanWrite(s, Pte(d, t))
    ensures Entry(s, d, t).frame < FRAMES
    ensures var s' := StoreWord(s, d, t, o, v);
      && Inv(s', hand)
      && (forall e, u :: Addr(e, u, 0) ==> Entry(s', e, u) == Entry(s, e, u))
      && (forall e, u, i :: Addr(e, u, i) ==>
            ViewAt(s', e, u, i) == if (e, u, i) == (d, t, o) then v else ViewAt(s, e, u, i))
  {
    assert Target(s, Pte(d, t)) == Entry(s, d, t).frame;
    SoleStoreStep(s, hand, d, t, o, v);
  }

  lemma StayMoves(s: Mem, hand: set<int>, s': Mem)
    requires Inv(s, hand) && Shape(s') && s'.dir == s.dir && s'.slot == s.slot && s'.limit == s.limit
    requires s'.memMap == s.memMap && s'.start == s.start && s'.high == s.high
    requires Boot(s') && forall e, u :: Addr(e, u, 0) ==> Entry(s', e, u) == Entry(s, e, u)
    ensures Inv(s', hand)
  {
    Retarget(s, hand, s', hand, Dir(16));
  }
}
