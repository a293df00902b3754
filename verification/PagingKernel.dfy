/** Stores in kernel mode. boot/head.s leaves write protection of the supervisor off, so put_fs_byte and its kin
    write to any page that is present, writable or not. What verify_area is for is that such a store stays private. */
module PagingKernel {
  import opened PageWord
  import opened PagingState
  import opened PagingSteps
  import opened PagingProcess

  /** The addresses through which somebody may read: the slices of tasks from 1 up, and the low megabyte. */
  predicate Seen(d: int, t: int, o: int) {
    0 <= t < WORDS && 0 <= o < WORDS && (16 <= d < WORDS || (d == 0 && t < LOW_FRAME))
  }

  /** Writing v to word o of the page at (d, t) is seen nowhere else. */
  ghost predicate Alone(s: Mem, d: int, t: int, o: int, v: Word)
    requires Inv(s, {}) && 16 <= d < WORDS && 0 <= t < WORDS && 0 <= o < WORDS && Entry(s, d, t).p
  {
    EntryInRange(s, {}, d, t);
    var s' := StoreWord(s, d, t, o, v);
    Shape(s') && forall e, u, i :: Seen(e, u, i) && (e, u, i) != (d, t, o) ==> ViewAt(s', e, u, i) == ViewAt(s, e, u, i)
  }

  /** The test of un_wp_page: the frame lies in main memory and is referred to once. */
  ghost predicate Sole(s: Mem, d: int, t: int)
    requires Inv(s, {}) && 16 <= d < WORDS && 0 <= t < WORDS && Entry(s, d, t).p
  {
    EntryInRange(s, {}, d, t);
    var f := Entry(s, d, t).frame;
    f >= LOW_FRAME && s.memMap[f - LOW_FRAME] == 1
  }

  /** The low megabyte is mapped one to one at address 0. */
  lemma LowReads(s: Mem)
    requires Inv(s, {})
    ensures forall u, i :: 0 <= u < LOW_FRAME && 0 <= i < WORDS ==> ViewAt(s, 0, u, i) == s.phys[u][i]
  {
    hide Accounted, InRange, Exclusive, WriteOwned, OncePerSlice, HandFree, Slices;
    forall u | 0 <= u < LOW_FRAME ensures Entry(s, 0, u) == FullAccess(u) {
      LowPage(s, 0, u);
    }
  }

  lemma SoleStoreAlone(s: Mem, d: int, t: int, o: int, v: Word)
    requires Inv(s, {}) && 16 <= d < WORDS && 0 <= t < WORDS && 0 <= o < WORDS && Entry(s, d, t).p && Sole(s, d, t)
    ensures Alone(s, d, t, o, v)
  {
    EntryInRange(s, {}, d, t);
    assert Target(s, Pte(d, t)) == Entry(s, d, t).frame;
    hide Accounted, InRange, Exclusive, WriteOwned, OncePerSlice, HandFree, Slices, Boot, Target;
    Counted(s, {}, Pte(d, t));
    SoleStoreStep(s, {}, d, t, o, v);
    var s' := StoreWord(s, d, t, o, v);
    LowReads(s);
    LowReads(s');
    hide ViewAt, Inv;
  }

  /** A word different from w. */
  function Other(w: Word): (v: Word)
    ensures v != w && (w != ZERO ==> v == ZERO)
  {
    if w == ZERO then FullAccess(0) else ZERO
  }

  /** A frame below LOW_MEM is also low memory. */
  lemma LowStoreSeen(s: Mem, d: int, t: int, o: int)
    requires Inv(s, {}) && 16 <= d < WORDS && 0 <= t < WORDS && 0 <= o < WORDS && Entry(s, d, t).p
    requires Entry(s, d, t).frame < LOW_FRAME
    ensures !Alone(s, d, t, o, Other(s.phys[Entry(s, d, t).frame][o]))
  {
    var f := Entry(s, d, t).frame;
    var v := Other(s.phys[f][o]);
    var s' := StoreWord(s, d, t, o, v);
    LowPage(s, 0, f);
    assert Shape(s');
    assert s'.phys[1][f] == if f == 1 && o == f then v else FullAccess(f);
    assert Seen(0, f, o) && ViewAt(s', 0, f, o) != ViewAt(s, 0, f, o);
  }

  /** A count other than 1 means a second reference. */
  lemma SecondRef(s: Mem, r: Ref) returns (q: Ref)
    requires Inv(s, {}) && RefOk(r) && Target(s, r) >= LOW_FRAME && s.memMap[Target(s, r) - LOW_FRAME] != 1
    ensures RefOk(q) && q != r && Target(s, q) == Target(s, r)
  {
    hide InRange, Exclusive, WriteOwned, OncePerSlice, HandFree, Slices, Boot;
    var f := Target(s, r);
    Counted(s, {}, r);
    RemoveOne(Refs(s, f), r);
    assert Refs(s, f) - {r} != {};
    q :| q in Refs(s, f) - {r};
  }

  /** A frame that is not the entry's own has another page-table entry. */
  lemma OtherEntry(s: Mem, d: int, t: int) returns (q: Ref)
    requires Inv(s, {}) && 16 <= d < WORDS && 0 <= t < WORDS && Entry(s, d, t).p
    requires LOW_FRAME <= Entry(s, d, t).frame < FRAMES && !Sole(s, d, t)
    ensures RefOk(q) && q.Pte? && q != Pte(d, t) && Target(s, q) == Entry(s, d, t).frame
    ensures s.dir[q.d].p && s.dir[q.d].frame != Entry(s, d, t).frame
  {
    assert Target(s, Pte(d, t)) == Entry(s, d, t).frame;
    q := SecondRef(s, Pte(d, t));
    assert q.Pte? by {
      hide Accounted, InRange, WriteOwned, OncePerSlice, HandFree, Slices, Boot;
    }
    TableFrame(s, {}, q.d);
  }

  /** A shared frame is seen by the other entry that maps it. */
  lemma SharedStoreSeen(s: Mem, d: int, t: int, o: int)
    requires Inv(s, {}) && 16 <= d < WORDS && 0 <= t < WORDS && 0 <= o < WORDS && Entry(s, d, t).p
    requires LOW_FRAME <= Entry(s, d, t).frame < FRAMES && !Sole(s, d, t)
    ensures !Alone(s, d, t, o, Other(s.phys[Entry(s, d, t).frame][o]))
  {
    var q := OtherEntry(s, d, t);
    hide Accounted, InRange, Exclusive, WriteOwned, OncePerSlice, HandFree, Boot, Slices;
    var f := Entry(s, d, t).frame;
    var s' := StoreWord(s, d, t, o, Other(s.phys[f][o]));
    assert Shape(s');
    assert Seen(q.d, q.t, o) && ViewAt(s', q.d, q.t, o) != ViewAt(s, q.d, q.t, o);
  }

  /** A kernel-mode store stays private, whatever is written, if and only if the page passes un_wp_page's test. */
  lemma KernelStorePrivate(s: Mem, d: int, t: int, o: int)
    requires Inv(s, {}) && 16 <= d < WORDS && 0 <= t < WORDS && 0 <= o < WORDS && Entry(s, d, t).p
    ensures (forall v :: Alone(s, d, t, o, v)) <==> Sole(s, d, t)
  {
    EntryInRange(s, {}, d, t);
    if Sole(s, d, t) {
      forall v ensures Alone(s, d, t, o, v) {
        SoleStoreAlone(s, d, t, o, v);
      }
    } else if Entry(s, d, t).frame < LOW_FRAME {
      LowStoreSeen(s, d, t, o);
    } else {
      SharedStoreSeen(s, d, t, o);
    }
  }

  lemma PrivateIsSole(s: Mem, d: int, t: int)
    requires Inv(s, {}) && 16 <= d < WORDS && 0 <= t < WORDS && Entry(s, d, t).p && Private(s, d, t)
    ensures Sole(s, d, t)
  {
    EntryInRange(s, {}, d, t);
    var r := Pte(d, t);
    assert Target(s, r) == Entry(s, d, t).frame;
    assert Refs(s, Target(s, r)) == {r};
    Counted(s, {}, r);
  }

  /** What verify_area is for: after it, a kernel-mode store to any present page of the area stays private. */
  lemma VerifiedStoreAlone(s: Mem, n: int, addr: int, size: int, b: int, o: int, v: Word)
    requires Inv(s, {}) && 0 <= n < NR_TASKS && 0 <= addr < 0x1_0000_0000 && 0 <= size
    requires size + addr % 4096 < 0x8000_0000 && VerifyArea(s, n, addr, size).Some? && addr <= b < addr + size
    requires 0 <= o < WORDS
    ensures var s', x := VerifyArea(s, n, addr, size).value, LinearPage(n, b);
      && Inv(s', {}) && 0 <= PageDir(x) < WORDS && 0 <= PageTab(x) < WORDS
      && (PageDir(x) >= 16 && Entry(s', PageDir(x), PageTab(x)).p ==> Alone(s', PageDir(x), PageTab(x), o, v))
  {
    var s', x := VerifyArea(s, n, addr, size).value, LinearPage(n, b);
    VerifyAreaComplete(s, n, addr, size);
    PageSplit(x);
    assert PrivatePage(s', x);
    if PageDir(x) >= 16 && Entry(s', PageDir(x), PageTab(x)).p {
      PrivateIsSole(s', PageDir(x), PageTab(x));
      SoleStoreAlone(s', PageDir(x), PageTab(x), o, v);
    }
  }
}
