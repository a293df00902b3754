/** The state that mm/memory.c and the memory part of kernel/fork.c share, and its invariant. */
module PagingState {
  import opened PageWord

  /** memMap: one reference count per frame from LOW_MEM up; dir: the single page directory;
      phys: the contents of every frame, tables and data alike; slot: the frame held by each task
      (0 for NULL); limit: segment limit of each task; [start, high): the main-memory frames. */
  datatype Mem = Mem(memMap: seq<int>, dir: seq<Word>, phys: seq<Page>,
                     slot: seq<int>, limit: seq<int>, start: int, high: int)

  ghost predicate Shape(s: Mem) {
    && |s.memMap| == PAGING_PAGES && |s.dir| == WORDS && |s.phys| == FRAMES
    && |s.slot| == NR_TASKS && |s.limit| == NR_TASKS
    && LOW_FRAME <= s.start <= s.high <= FRAMES
    && (forall i :: 0 <= i < PAGING_PAGES ==> 0 <= s.memMap[i] < 256)
    && (forall d :: 0 <= d < WORDS && s.dir[d].p ==> s.dir[d].frame < FRAMES)
    && (forall n :: 0 <= n < NR_TASKS ==> 0 < s.limit[n] <= 0x400_0000 && 0 <= s.slot[n])
  }

  /** Number of directory entries that cover a segment of the given size. */
  function Dirs(size: int): int {
    (size + 0x3f_ffff) / 0x40_0000
  }

  /** As many tables as it takes to cover size bytes, and no more. */
  lemma DirsExactly(size: int)
    requires size >= 0
    ensures Dirs(size) * 0x40_0000 >= size > (Dirs(size) - 1) * 0x40_0000
  {
  }

  /** The page-table entry for table slot t of directory entry d; not present when there is no table. */
  ghost function Entry(s: Mem, d: int, t: int): Word
    requires Shape(s) && 0 <= d < WORDS && 0 <= t < WORDS
  {
    if s.dir[d].p then s.phys[s.dir[d].frame][t] else ZERO
  }

  /** Everything that can hold a counted reference to a frame. */
  datatype Ref = Pte(d: int, t: int) | Dir(d: int) | Slot(n: int)

  predicate RefOk(r: Ref) {
    match r
    case Pte(d, t) => 16 <= d < WORDS && 0 <= t < WORDS
    case Dir(d) => 16 <= d < WORDS
    case Slot(n) => 1 <= n < NR_TASKS
  }

  ghost function AllRefs(): (a: set<Ref>)
    ensures forall r :: r in a <==> RefOk(r)
  {
    (set d, t | 16 <= d < WORDS && 0 <= t < WORDS :: Pte(d, t))
    + (set d | 16 <= d < WORDS :: Dir(d))
    + (set n | 1 <= n < NR_TASKS :: Slot(n))
  }

  /** The frame a reference points to, or -1. */
  ghost function Target(s: Mem, r: Ref): int
    requires Shape(s) && RefOk(r)
  {
    match r
    case Pte(d, t) => if Entry(s, d, t).p then Entry(s, d, t).frame else -1
    case Dir(d) => if s.dir[d].p then s.dir[d].frame else -1
    case Slot(n) => if s.slot[n] != 0 then s.slot[n] else -1
  }

  ghost function Refs(s: Mem, f: int): set<Ref>
    requires Shape(s)
  {
    set r | r in AllRefs() && Target(s, r) == f
  }

  ghost predicate CanWrite(s: Mem, r: Ref)
    requires Shape(s) && RefOk(r)
  {
    r.Pte? && Entry(s, r.d, r.t).p && Entry(s, r.d, r.t).rw
  }

  predicate Main(s: Mem, f: int) {
    s.start <= f < s.high
  }

  function One(b: bool): int {
    if b then 1 else 0
  }

  /** Frame accounting. hand holds the frames that kernel code has taken but not yet linked. */
  ghost predicate Accounted(s: Mem, hand: set<int>)
    requires Shape(s)
  {
    forall f :: LOW_FRAME <= f < FRAMES ==>
      s.memMap[f - LOW_FRAME] == if Main(s, f) then |Refs(s, f)| + One(f in hand) else USED
  }

  ghost predicate InRange(s: Mem)
    requires Shape(s)
  {
    forall r :: RefOk(r) && Target(s, r) != -1 ==>
      Main(s, Target(s, r)) || (r.Pte? && 0 <= Target(s, r) < LOW_FRAME)
  }

  /** Page tables and task structures belong to their one directory entry or task slot. */
  ghost predicate Exclusive(s: Mem)
    requires Shape(s)
  {
    forall r, q :: RefOk(r) && RefOk(q) && !r.Pte? && Target(s, r) != -1 && Target(s, q) == Target(s, r) ==> r == q
  }

  /** Writable means exclusively owned, and above LOW_MEM. */
  ghost predicate WriteOwned(s: Mem)
    requires Shape(s)
  {
    forall r :: RefOk(r) && CanWrite(s, r) ==>
      Target(s, r) >= LOW_FRAME && forall q :: RefOk(q) && Target(s, q) == Target(s, r) ==> q == r
  }

  ghost predicate OncePerSlice(s: Mem)
    requires Shape(s)
  {
    forall r, q | RefOk(r) && RefOk(q) && r.Pte? && q.Pte? && r.d / 16 == q.d / 16 ::
      Target(s, r) >= LOW_FRAME && Target(s, q) == Target(s, r) ==> r == q
  }

  ghost predicate HandFree(s: Mem, hand: set<int>)
    requires Shape(s)
  {
    forall f :: f in hand ==> Main(s, f) && forall r :: RefOk(r) ==> Target(s, r) != f
  }

  /** Tables exist only for tasks in use, below the segment limit; directory entries are all or nothing, and those that
      are present let user code read and write. */
  ghost predicate Slices(s: Mem)
    requires Shape(s)
  {
    forall d :: 16 <= d < WORDS ==>
      if s.dir[d].p then
        s.dir[d].rw && s.dir[d].misc % 2 == 1 && s.slot[d / 16] != 0 && d % 16 < Dirs(s.limit[d / 16])
      else s.dir[d] == ZERO
  }

  /** Boot page table d of the four: 4 MB mapped one to one, user, read/write, present. */
  function BootTable(d: int): (p: Page)
    requires 0 <= d < 4
    ensures forall t :: 0 <= t < WORDS ==> p[t] == FullAccess(d * WORDS + t)
  {
    var p := seq(WORDS, t requires 0 <= t < WORDS => FullAccess(d * WORDS + t));
    assert |p| == WORDS;
    p
  }

  /** The slice of task 0 (boot/head.s, INIT_TASK): four boot tables for 16 MB, all of it writable, nothing beyond;
      the segment of task 0 is the first 640 KB. */
  ghost predicate Boot(s: Mem)
    requires Shape(s)
  {
    && s.limit[0] == 0xA_0000
    && (forall d :: 0 <= d < 4 ==> s.dir[d] == FullAccess(d + 1) && s.phys[d + 1] == BootTable(d))
    && (forall d :: 4 <= d < 16 ==> s.dir[d] == ZERO)
  }

  ghost predicate Inv(s: Mem, hand: set<int>) {
    && Shape(s) && Boot(s) && Slices(s)
    && Accounted(s, hand) && InRange(s) && Exclusive(s) && WriteOwned(s) && OncePerSlice(s) && HandFree(s, hand)
  }

  // ---------------------------------------------------------------- views

  /** Word o of the page at (d, t) as the task that owns directory entry d sees it:
      a page that is not present reads as zeros. */
  ghost function ViewAt(s: Mem, d: int, t: int, o: int): Word
    requires Shape(s) && 0 <= d < WORDS && 0 <= t < WORDS && 0 <= o < WORDS
  {
    if Entry(s, d, t).p && Entry(s, d, t).frame < FRAMES then s.phys[Entry(s, d, t).frame][o] else ZERO
  }

  /** Addresses whose view is private state: all slices of tasks from 1 up, and the first 640 KB of task 0. */
  predicate Addr(d: int, t: int, o: int) {
    0 <= t < WORDS && 0 <= o < WORDS && (16 <= d < WORDS || (d == 0 && t < 160))
  }

  ghost predicate SameViews(s: Mem, s': Mem)
    requires Shape(s) && Shape(s')
  {
    forall d, t, o :: Addr(d, t, o) ==> ViewAt(s', d, t, o) == ViewAt(s, d, t, o)
  }

  // ---------------------------------------------------------------- one reference changes

  lemma RemoveOne(a: set<Ref>, r: Ref)
    ensures |a| == |a - {r}| + One(r in a)
  {
    if r !in a {
      assert a - {r} == a;
    }
  }

  lemma RefsChange(s: Mem, s': Mem, r: Ref, f: int)
    requires Shape(s) && Shape(s') && RefOk(r)
    requires forall q :: RefOk(q) && q != r ==> Target(s', q) == Target(s, q)
    ensures |Refs(s', f)| == |Refs(s, f)| - One(Target(s, r) == f) + One(Target(s', r) == f)
  {
    var before, after := Refs(s, f), Refs(s', f);
    assert forall q :: q in before && q != r <==> q in after && q != r;
    assert r in before <==> Target(s, r) == f;
    assert r in after <==> Target(s', r) == f;
    RemoveOne(before, r);
    RemoveOne(after, r);
    assert before - {r} == after - {r};
  }

  /** One reference r changes from s to s' and the counts move with it; its new target is none,
      is in nobody else's hands, or is a frame mapped read-only everywhere. */
  ghost predicate Move(s: Mem, hand: set<int>, s': Mem, hand': set<int>, r: Ref)
    requires Shape(s) && Shape(s') && RefOk(r)
  {
    && s'.start == s.start && s'.high == s.high
    && (forall q :: RefOk(q) && q != r ==> Target(s', q) == Target(s, q) && (CanWrite(s', q) ==> CanWrite(s, q)))
    && (forall f :: LOW_FRAME <= f < FRAMES && !Main(s, f) ==> s'.memMap[f - LOW_FRAME] == USED)
    && (forall f :: Main(s, f) ==>
      s'.memMap[f - LOW_FRAME] - One(f in hand') ==
      s.memMap[f - LOW_FRAME] - One(f in hand) - One(Target(s, r) == f) + One(Target(s', r) == f))
    && HandFree(s', hand')
    && NewTarget(s, s', r, Target(s', r))
  }

  ghost predicate NewTarget(s: Mem, s': Mem, r: Ref, n: int)
    requires Shape(s) && Shape(s') && RefOk(r)
  {
    || n == -1
    || (Main(s, n) && forall q :: RefOk(q) && q != r ==> Target(s, q) != n)
    || (r.Pte? && (0 <= n < LOW_FRAME || Main(s, n)) && !CanWrite(s', r)
        && forall q :: RefOk(q) && q != r && Target(s, q) == n ==>
             q.Pte? && !CanWrite(s', q) && (n >= LOW_FRAME ==> q.d / 16 != r.d / 16))
  }

  lemma MoveAccounted(s: Mem, hand: set<int>, s': Mem, hand': set<int>, r: Ref)
    requires Inv(s, hand) && Shape(s') && RefOk(r) && Move(s, hand, s', hand', r)
    ensures Accounted(s', hand') && InRange(s')
  {
    forall f | LOW_FRAME <= f < FRAMES && Main(s, f)
      ensures s'.memMap[f - LOW_FRAME] == |Refs(s', f)| + One(f in hand')
    {
      RefsChange(s, s', r, f);
    }
    forall q | RefOk(q) && Target(s', q) != -1
      ensures Main(s', Target(s', q)) || (q.Pte? && 0 <= Target(s', q) < LOW_FRAME)
    {
      assert q != r ==> Target(s, q) == Target(s', q);
    }
  }

  lemma MoveExclusive(s: Mem, hand: set<int>, s': Mem, hand': set<int>, r: Ref)
    requires Inv(s, hand) && Shape(s') && RefOk(r) && Move(s, hand, s', hand', r)
    ensures Exclusive(s')
  {
    forall a, b | RefOk(a) && RefOk(b) && !a.Pte? && Target(s', a) != -1 && Target(s', b) == Target(s', a)
      ensures a == b
    {
      if a != r && b != r {
        assert Target(s, a) == Target(s', a) && Target(s, b) == Target(s', b);
      }
    }
  }

  lemma MoveWriteOwned(s: Mem, hand: set<int>, s': Mem, hand': set<int>, r: Ref)
    requires Inv(s, hand) && Shape(s') && RefOk(r) && Move(s, hand, s', hand', r)
    ensures WriteOwned(s')
  {
    forall a | RefOk(a) && CanWrite(s', a)
      ensures Target(s', a) >= LOW_FRAME && forall q :: RefOk(q) && Target(s', q) == Target(s', a) ==> q == a
    {
      if a != r {
        assert CanWrite(s, a) && Target(s, a) == Target(s', a);
      }
    }
  }

  lemma MoveOnce(s: Mem, hand: set<int>, s': Mem, hand': set<int>, r: Ref)
    requires Inv(s, hand) && Shape(s') && RefOk(r) && Move(s, hand, s', hand', r)
    ensures OncePerSlice(s')
  {
    hide Accounted, InRange, Exclusive, WriteOwned, HandFree, Slices, Boot, CanWrite;
    forall a, b | RefOk(a) && RefOk(b) && a.Pte? && b.Pte? && a.d / 16 == b.d / 16
      && Target(s', a) >= LOW_FRAME && Target(s', b) == Target(s', a)
      ensures a == b
    {
      if a != r && b != r {
        assert Target(s, a) == Target(s', a) && Target(s, b) == Target(s', b);
      }
    }
  }

  lemma Retarget(s: Mem, hand: set<int>, s': Mem, hand': set<int>, r: Ref)
    requires Inv(s, hand) && Shape(s') && Boot(s') && Slices(s')
    requires RefOk(r) && Move(s, hand, s', hand', r)
    ensures Inv(s', hand')
  {
    MoveAccounted(s, hand, s', hand', r);
    MoveExclusive(s, hand, s', hand', r);
    MoveWriteOwned(s, hand, s', hand', r);
    MoveOnce(s, hand, s', hand', r);
  }
}
