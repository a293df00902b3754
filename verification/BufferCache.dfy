/** fs/buffer.c and kernel/blk_drv/ll_rw_blk.c as one task runs them. A routine that can sleep takes a
    schedule: what the other tasks and the devices do at each of its sleeps. When the schedule ends the
    routine is still asleep. */
module BufferCache {
  import opened Links
  import opened CacheState
  import opened BufferLists
  import opened CacheMachine
  import RequestTable

  /** What the others attempt during one sleep; whatever the code would not do just then does not happen. */
  type Nap = seq<Step>

  datatype Outcome = Got(i: int) | Nothing | Asleep

  /** From (s, log) to (s', log') the chosen task has slept. */
  ghost predicate Slept(s: Sys, log: seq<Step>, s': Sys, log': seq<Step>) {
    Rely(s, s') && NoWrites(log, log')
  }

  lemma StepSlept(s: Sys, log: seq<Step>, st: Step)
    requires Inv(s) && Enabled(s, st) && ByOthers(st)
    ensures Slept(s, log, Apply(s, st), log + [st])
  {
    OthersRely(s, st);
  }

  lemma NoSleep(s: Sys, log: seq<Step>)
    requires |s.bufs| == |s.mine| == |s.io|
    ensures Slept(s, log, s, log)
  {
  }

  lemma SleptTrans(s: Sys, log: seq<Step>, s1: Sys, log1: seq<Step>, s2: Sys, log2: seq<Step>)
    requires Slept(s, log, s1, log1) && Slept(s1, log1, s2, log2)
    ensures Slept(s, log, s2, log2)
  {
    RelyTrans(s, s1, s2);
    NoWritesTrans(log, log1, log2);
  }

  lemma NoWritesTrans(log: seq<Step>, log1: seq<Step>, log2: seq<Step>)
    requires NoWrites(log, log1) && NoWrites(log1, log2)
    ensures NoWrites(log, log2)
  {
    forall k | |log| <= k < |log2| ensures ByOthers(log2[k]) || !Writes(log2[k]) {
      assert k < |log1| ==> log1[k] == log2[k];
    }
  }

  // ---------------------------------------------------------------- the other tasks

  /** The code of the others would take this step now. */
  ghost predicate May(s: Sys, st: Step)
    requires Shape(s)
  {
    ByOthers(st) && Enabled(s, st)
  }

  /** An attempted step is taken if and only if the code would take it; queueing a request also needs a free slot. */
  ghost predicate Tried(s: Sys, st: Step, took: bool, s': Sys)
    requires Shape(s)
  {
    if took then May(s, st) && s' == Apply(s, st) else (May(s, st) ==> st.Enqueue?) && s' == s
  }

  /** From s to s', of the steps attempted in a nap, those taken. */
  ghost predicate Took(s: Sys, nap: Nap, taken: seq<Step>, s': Sys)
    requires Inv(s)
    decreases |nap|
  {
    if nap == [] then taken == [] && s' == s else TookFirst(s, nap, taken, s') || LeftFirst(s, nap, taken, s')
  }

  ghost predicate TookFirst(s: Sys, nap: Nap, taken: seq<Step>, s': Sys)
    requires Inv(s) && nap != []
    decreases |nap|, 0
  {
    && May(s, nap[0]) && taken != [] && taken[0] == nap[0]
    && Inv(Apply(s, nap[0])) && Took(Apply(s, nap[0]), nap[1..], taken[1..], s')
  }

  ghost predicate LeftFirst(s: Sys, nap: Nap, taken: seq<Step>, s': Sys)
    requires Inv(s) && nap != []
    decreases |nap|, 0
  {
    (May(s, nap[0]) ==> nap[0].Enqueue?) && Took(s, nap[1..], taken, s')
  }

  function Plural(took: bool, st: Step): seq<Step> {
    if took then [st] else []
  }

  lemma TookOne(s: Sys, st: Step, took: bool, s': Sys)
    requires Inv(s) && Inv(s') && Tried(s, st, took, s')
    ensures Took(s, [st], Plural(took, st), s')
  {
    hide Apply, Enabled, Unique, Locks, Requests, Clean, Ordered;
    assert [st][1..] == [] && Took(s', [], [], s');
    assert if took then TookFirst(s, [st], [st], s') else LeftFirst(s, [st], [], s');
  }

  lemma {:induction false} TookMore(s: Sys, nap: Nap, taken: seq<Step>, s1: Sys, st: Step, took: bool, s2: Sys)
    requires Inv(s) && Took(s, nap, taken, s1) && Inv(s1) && Inv(s2) && Tried(s1, st, took, s2)
    ensures Took(s, nap + [st], taken + Plural(took, st), s2)
    decreases |nap|
  {
    hide Apply, Enabled, Unique, Locks, Requests, Clean, Ordered, Tried, Plural;
    if nap == [] {
      assert nap + [st] == [st] && taken + Plural(took, st) == Plural(took, st);
      TookOne(s, st, took, s2);
    } else {
      assert (nap + [st])[1..] == nap[1..] + [st];
      if TookFirst(s, nap, taken, s1) {
        TookMore(Apply(s, nap[0]), nap[1..], taken[1..], s1, st, took, s2);
        assert (taken + Plural(took, st))[1..] == taken[1..] + Plural(took, st);
        assert TookFirst(s, nap + [st], taken + Plural(took, st), s2);
      } else {
        TookMore(s, nap[1..], taken, s1, st, took, s2);
        assert LeftFirst(s, nap + [st], taken + Plural(took, st), s2);
      }
    }
  }

  /** Every run of the others can happen in a sleep. */
  lemma {:induction false} AnyRunHappens(s: Sys, log: seq<Step>, s': Sys)
    requires Inv(s) && Reaches(s, log, s') && forall k :: 0 <= k < |log| ==> ByOthers(log[k])
    ensures Took(s, log, log, s')
    decreases |log|
  {
    if log != [] {
      StepKeepsInv(s, log[0]);
      hide Apply, Enabled, Unique, Locks, Requests, Clean, Ordered;
      AnyRunHappens(Apply(s, log[0]), log[1..], s');
      assert TookFirst(s, log, log, s');
    }
  }

  lemma FirstHappens(s: Sys, log: seq<Step>, s': Sys, taken: seq<Step>, s1: Sys)
    requires Inv(s) && Reaches(s, log, s') && log != [] && ByOthers(log[0]) && !log[0].Enqueue?
    requires Took(s, log, taken, s1)
    ensures Shape(s) && Enabled(s, log[0]) && taken != [] && taken[0] == log[0] && Inv(Apply(s, log[0]))
    ensures Reaches(Apply(s, log[0]), log[1..], s') && Took(Apply(s, log[0]), log[1..], taken[1..], s1)
  {
    hide Apply, Enabled, Unique, Locks, Requests, Clean, Ordered;
    assert May(s, log[0]);
  }

  /** And when just that run is attempted it is what happens, but for queueing, which may find no slot. */
  lemma {:induction false} OnlyRunHappens(s: Sys, log: seq<Step>, s': Sys, taken: seq<Step>, s1: Sys)
    requires Inv(s) && Reaches(s, log, s') && forall k :: 0 <= k < |log| ==> ByOthers(log[k]) && !log[k].Enqueue?
    requires Took(s, log, taken, s1)
    ensures taken == log && s1 == s'
    decreases |log|
  {
    if log != [] {
      FirstHappens(s, log, s', taken, s1);
      hide Apply, Enabled, Inv, Shape, Took, Reaches;
      OnlyRunHappens(Apply(s, log[0]), log[1..], s', taken[1..], s1);
      assert taken == [taken[0]] + taken[1..] && log == [log[0]] + log[1..];
    }
  }

  lemma TriedSlept(s: Sys, log: seq<Step>, st: Step, took: bool, s': Sys)
    requires Inv(s) && Tried(s, st, took, s')
    ensures Slept(s, log, s', log + Plural(took, st))
  {
    if took {
      StepSlept(s, log, st);
    } else {
      assert log + Plural(took, st) == log;
      NoSleep(s, log);
    }
  }

  /** A step of another task on one buffer, if it may take it. */
  method OtherReference(c: Cache, st: Step) returns (took: bool)
    requires c.Valid() && (st.Reference? || st.Unreference? || st.Lock? || st.GiveUp?) && st.who == Other
    modifies c.Repr()
    ensures c.Valid() && Tried(old(c.Abs()), st, took, c.Abs()) && c.log == old(c.log) + Plural(took, st)
  {
    hide Inv, Cache.Valid, Cache.Structure, Cache.Abs, Reaches, Apply;
    var i := st.i;
    took := false;
    if 0 <= i < c.buf.Length {
      var b, held := c.buf[i], c.buf[i].count > c.mine[i];
      if st.Reference? && b.dev != 0 {
        c.Reference(i, st.who);
        took := true;
      } else if st.Unreference? && held && !b.lock {
        c.Unreference(i, st.who);
        took := true;
      } else if st.Lock? && !b.lock && b.dev != 0 && b.dev / 256 < NR_BLK_DEV
        && ((st.cmd == WRITE && b.dirt) || (st.cmd == READ && !b.uptodate))
      {
        c.LockBuffer(i, st.cmd, st.who);
        took := true;
      } else if st.GiveUp? && c.io[i].Pending? && c.io[i].who == Other {
        c.GiveUp(i, st.who);
        took := true;
      }
    }
  }

  method OtherWrite(c: Cache, st: Step) returns (took: bool)
    requires c.Valid() && !st.Complete? && st.who == Other && Writes(st)
    modifies c.Repr()
    ensures c.Valid() && Tried(old(c.Abs()), st, took, c.Abs()) && c.log == old(c.log) + Plural(took, st)
  {
    hide Inv, Cache.Valid, Cache.Structure, Cache.Abs, Reaches, Apply;
    var i := st.i;
    took := false;
    if 0 <= i < c.buf.Length && c.buf[i].count > c.mine[i] {
      if st.Modify? && c.buf[i].uptodate {
        c.Write(i, st.data, false, st.who);
        took := true;
      } else if st.Fill? && !c.buf[i].lock {
        c.Write(i, st.data, true, st.who);
        took := true;
      } else if st.Discard? && c.buf[i].count == 1 && !c.buf[i].lock {
        c.Discard(i, st.who);
        took := true;
      }
    }
  }

  /** Another task reaches the end of getblk. */
  method OtherClaim(c: Cache, st: Step) returns (took: bool)
    requires c.Valid() && st.Claim? && st.who == Other
    modifies c.Repr()
    ensures c.Valid() && Tried(old(c.Abs()), st, took, c.Abs()) && c.log == old(c.log) + Plural(took, st)
  {
    hide Inv, Cached, Cache.Valid, Cache.Structure, Cache.Abs, Reaches, Apply;
    var i, dev, block := st.i, st.dev, st.block;
    took := false;
    if 0 <= i < c.buf.Length && 0 <= dev < 0x10000 && 0 <= block < 0x8000_0000
      && c.buf[i].count == 0 && !c.buf[i].dirt && !c.buf[i].lock
    {
      var j := c.Find(dev, block);
      if j == NULL {
        c.Claim(i, dev, block, st.who);
        took := true;
      }
    }
  }

  /** Another task queues its request, if there is a slot for it. */
  method OtherEnqueue(c: Cache, st: Step) returns (took: bool)
    requires c.Valid() && st.Enqueue? && st.who == Other
    modifies c.Repr()
    ensures c.Valid() && Tried(old(c.Abs()), st, took, c.Abs()) && c.log == old(c.log) + Plural(took, st)
    ensures !took && May(old(c.Abs()), st) ==> c.NoSlot(c.io[st.i].cmd)
  {
    hide Inv, Cache.Valid, Cache.Structure, Cache.Abs, Cache.NoSlot, Reaches, Apply;
    took := false;
    if 0 <= st.i < c.buf.Length && c.io[st.i].Pending? && c.io[st.i].who == Other {
      var slot := c.FreeSlot(c.io[st.i].cmd);
      if slot != NULL {
        c.Enqueue(st.i, slot, st.who);
        took := true;
      }
    }
  }

  /** A device finishes its current request, if it has one. */
  method OtherComplete(c: Cache, st: Step) returns (took: bool)
    requires c.Valid() && st.Complete?
    modifies c.Repr()
    ensures c.Valid() && Tried(old(c.Abs()), st, took, c.Abs()) && c.log == old(c.log) + Plural(took, st)
  {
    ghost var s := c.Abs();
    hide Inv, Cache.Valid, Cache.Structure, Cache.Abs, Reaches, Apply;
    took := false;
    if 0 <= st.m < NR_BLK_DEV {
      var busy := c.HasRequest(st.m);
      if busy {
        HeadValid(s, st.m);
        c.EndRequest(st.m);
        took := true;
      }
    }
  }

  lemma HeadValid(s: Sys, m: int)
    requires Inv(s) && 0 <= m < NR_BLK_DEV && s.queues[m] != []
    ensures Enabled(s, Step.Complete(m))
  {
    assert QueuedAt(s, s.queues[m][0].bh, m, 0);
  }

  /** One attempt. Steps in this task's name are not for the others to take. */
  method Attempt(c: Cache, st: Step) returns (took: bool)
    requires c.Valid()
    modifies c.Repr()
    ensures c.Valid() && Tried(old(c.Abs()), st, took, c.Abs()) && c.log == old(c.log) + Plural(took, st)
  {
    hide Inv, Enabled, Cache.Valid, Cache.Structure, Cache.Abs, Reaches, Apply;
    took := false;
    if st.Complete? || st.who == Other {
      if st.Complete? {
        took := OtherComplete(c, st);
      } else if st.Claim? {
        took := OtherClaim(c, st);
      } else if st.Enqueue? {
        took := OtherEnqueue(c, st);
      } else if Writes(st) {
        took := OtherWrite(c, st);
      } else {
        took := OtherReference(c, st);
      }
    }
  }

  /** What a nap, or the part of it that has passed, comes to. */
  ghost predicate Napped(s: Sys, log: seq<Step>, nap: Nap, s': Sys, log': seq<Step>)
    requires Inv(s)
  {
    Slept(s, log, s', log') && log <= log' && Took(s, nap, log'[|log|..], s')
  }

  lemma NoNap(s: Sys, log: seq<Step>)
    requires Inv(s)
    ensures Napped(s, log, [], s, log)
  {
    NoSleep(s, log);
    assert log[|log|..] == [];
  }

  lemma NapOn(s: Sys, log: seq<Step>, nap: Nap, s1: Sys, log1: seq<Step>, st: Step, took: bool, s2: Sys)
    requires Inv(s) && Napped(s, log, nap, s1, log1) && Inv(s1) && Inv(s2) && Tried(s1, st, took, s2)
    ensures Napped(s, log, nap + [st], s2, log1 + Plural(took, st))
  {
    var taken, log2 := log1[|log|..], log1 + Plural(took, st);
    hide Consistent, Slept, Took, Tried, Plural;
    TriedSlept(s1, log1, st, took, s2);
    SleptTrans(s, log, s1, log1, s2, log2);
    TookMore(s, nap, taken, s1, st, took, s2);
    assert log2[|log|..] == taken + Plural(took, st);
  }

  /** One attempt of a nap whose first k have been made. */
  method Next(c: Cache, nap: Nap, k: nat, ghost s: Sys, ghost log: seq<Step>)
    requires c.Valid() && k < |nap| && Inv(s) && Napped(s, log, nap[..k], c.Abs(), c.log)
    modifies c.Repr()
    ensures c.Valid() && Napped(s, log, nap[..k + 1], c.Abs(), c.log)
  {
    hide Consistent, Cache.Valid, Cache.Structure, Cache.Abs, Reaches, Napped, Tried, Plural;
    ghost var s1, log1 := c.Abs(), c.log;
    var took := Attempt(c, nap[k]);
    NapOn(s, log, nap[..k], s1, log1, nap[k], took, c.Abs());
    assert nap[..k] + [nap[k]] == nap[..k + 1];
  }

  /** One sleep: the others take those of the attempted steps that the code would take, in order. */
  method Sleep(c: Cache, nap: Nap)
    requires c.Valid()
    modifies c.Repr()
    ensures c.Valid() && Napped(old(c.Abs()), old(c.log), nap, c.Abs(), c.log)
    ensures Slept(old(c.Abs()), old(c.log), c.Abs(), c.log)
  {
    ghost var s, log := c.Abs(), c.log;
    NoNap(s, log);
    hide Consistent, Cache.Valid, Cache.Structure, Cache.Abs, Reaches, Slept, Took;
    assert nap[..0] == [];
    for k := 0 to |nap|
      invariant c.Valid() && Napped(s, log, nap[..k], c.Abs(), c.log)
    {
      Next(c, nap, k, s, log);
    }
    assert nap[..|nap|] == nap;
  }

  // ---------------------------------------------------------------- waiting and looking up

  /** wait_on_buffer: without a sleep nothing has changed; it is still asleep only at the end of the schedule, with the
      buffer still locked. */
  method WaitOnBuffer(c: Cache, i: int, sched: seq<Nap>) returns (woke: bool, rest: seq<Nap>)
    requires c.Valid() && 0 <= i < c.buf.Length
    modifies c.Repr()
    ensures c.Valid() && Slept(old(c.Abs()), old(c.log), c.Abs(), c.log)
    ensures if woke then !c.buf[i].lock else rest == [] && c.buf[i].lock
    ensures |rest| <= |sched| && (|rest| == |sched| ==> c.Abs() == old(c.Abs()) && c.log == old(c.log))
    ensures !old(c.buf[i].lock) ==> woke && rest == sched
  {
    ghost var s, log := c.Abs(), c.log;
    NoSleep(s, log);
    hide Inv, Shape, Cache.Valid, Cache.Structure, Cache.Abs, Reaches, Slept;
    rest := sched;
    while c.buf[i].lock
      invariant c.Valid() && Slept(s, log, c.Abs(), c.log)
      invariant |rest| <= |sched| && (|rest| == |sched| ==> rest == sched && c.Abs() == s && c.log == log)
      invariant |rest| == |sched| || old(c.buf[i].lock)
      decreases |rest|
    {
      if rest == [] {
        return false, [];
      }
      ghost var s1, log1 := c.Abs(), c.log;
      Sleep(c, rest[0]);
      rest := rest[1..];
      SleptTrans(s, log, s1, log1, c.Abs(), c.log);
    }
    woke := true;
  }

  /** What holds of the state in which a routine returns, against the state in which it was called. */
  ghost predicate Ran(s: Sys, log: seq<Step>, s': Sys, log': seq<Step>) {
    Keeps(s, s') && NoWrites(log, log')
  }

  lemma RanTrans(s: Sys, log: seq<Step>, s1: Sys, log1: seq<Step>, s2: Sys, log2: seq<Step>)
    requires Ran(s, log, s1, log1) && Ran(s1, log1, s2, log2)
    ensures Ran(s, log, s2, log2)
  {
    KeepsTrans(s, s1, s2);
    NoWritesTrans(log, log1, log2);
  }

  lemma SleptRan(s: Sys, log: seq<Step>, s': Sys, log': seq<Step>)
    requires Slept(s, log, s', log')
    ensures Ran(s, log, s', log') && s'.mine == s.mine
  {
  }

  lemma OwnRan(s: Sys, log: seq<Step>, st: Step)
    requires Inv(s) && Enabled(s, st) && !st.Unreference? && !st.Complete? && !Writes(st)
    ensures Ran(s, log, Apply(s, st), log + [st])
  {
    OwnKeeps(s, st);
  }

  /** A reference taken before a wait pins the identity of its buffer. */
  lemma Pinned(s: Sys, log: seq<Step>, i: int, s2: Sys, log2: seq<Step>)
    requires Inv(s) && Enabled(s, Step.Reference(i, Me))
    requires Slept(Apply(s, Step.Reference(i, Me)), log + [Step.Reference(i, Me)], s2, log2)
    ensures Ran(s, log, s2, log2) && s2.mine == Plus(s.mine, i, 1)
    ensures |s2.bufs| == |s.bufs| && Holds(s2.bufs[i], s.bufs[i].dev, s.bufs[i].block)
  {
    var st := Step.Reference(i, Me);
    OwnRan(s, log, st);
    SleptRan(Apply(s, st), log + [st], s2, log2);
    RanTrans(s, log, Apply(s, st), log + [st], s2, log2);
  }

  /** b_count++ in get_hash_table. */
  method TakeReference(c: Cache, i: int)
    requires c.Valid() && 0 <= i < c.buf.Length && c.buf[i].dev != 0
    modifies c, c.buf
    ensures c.Valid() && Enabled(old(c.Abs()), Step.Reference(i, Me))
    ensures c.Abs() == Apply(old(c.Abs()), Step.Reference(i, Me)) && c.log == old(c.log) + [Step.Reference(i, Me)]
    ensures c.buf[i] == old(c.buf[i]).(count := old(c.buf[i]).count + 1)
  {
    ghost var s := c.Abs();
    hide Inv, Shape, Cache.Valid, Cache.Structure, Cache.Abs, Reaches, Apply;
    c.Reference(i, Me);
    Referenced(s, i);
  }

  /** get_hash_table from b_count++ on; woke says that the buffer is unlocked. */
  method TakeFound(c: Cache, i: int, sched: seq<Nap>) returns (woke: bool, rest: seq<Nap>)
    requires c.Valid() && 0 <= i < c.buf.Length && c.buf[i].dev != 0
    modifies c.Repr()
    ensures c.Valid() && Ran(old(c.Abs()), old(c.log), c.Abs(), c.log) && |rest| <= |sched|
    ensures c.mine == Plus(old(c.mine), i, 1) && Holds(c.buf[i], old(c.buf[i].dev), old(c.buf[i].block))
    ensures if woke then !c.buf[i].lock else rest == [] && c.buf[i].lock
    ensures !old(c.buf[i].lock) ==>
      woke && rest == sched && c.buf[i] == old(c.buf[i]).(count := old(c.buf[i]).count + 1)
  {
    ghost var s, log := c.Abs(), c.log;
    hide Inv, Shape, Enabled, Cache.Valid, Cache.Structure, Cache.Abs, Reaches, Apply, Plus, Slept, Ran;
    TakeReference(c, i);
    woke, rest := WaitOnBuffer(c, i, sched);
    Pinned(s, log, i, c.Abs(), c.log);
  }

  /** get_hash_table. The retry of the source is dead. */
  method GetHashTable(c: Cache, dev: int, block: int, sched: seq<Nap>) returns (o: Outcome, rest: seq<Nap>)
    requires c.Valid() && 0 <= dev < 0x10000 && 0 <= block < 0x8000_0000
    modifies c.Repr()
    ensures c.Valid() && Ran(old(c.Abs()), old(c.log), c.Abs(), c.log) && |rest| <= |sched|
    ensures o.Got? ==> IsBlock(c.Abs(), o.i, dev, block) && c.mine == Plus(old(c.mine), o.i, 1)
    ensures o.Nothing? ==> rest == sched && c.Abs() == old(c.Abs()) && c.log == old(c.log)
    ensures o.Nothing? && dev != 0 ==> !Cached(c.Abs(), dev, block)
    ensures o.Asleep? ==> rest == [] && SomeLocked(c)
    ensures Handed(old(c.Abs()), dev, block, sched, o, rest, c.Abs())
  {
    ghost var s, log := c.Abs(), c.log;
    RanRefl(s, log);
    hide Inv, Shape, Cached, Cache.Valid, Cache.Structure, Cache.Abs, Reaches, Plus, Ran, Handed;
    o, rest := Nothing, sched;
    var i := c.Find(dev, block);
    if i != NULL {
      var woke;
      woke, rest := TakeFound(c, i, rest);
      HandedFound(s, i, dev, block, sched, woke, rest, c.Abs());
      o := if woke then Got(i) else Asleep;
      if woke && !(c.buf[i].dev == dev && c.buf[i].block == block) {
        assert false;
      }
    } else {
      HandedMissed(s, dev, block, sched);
    }
  }

  lemma Referenced(s: Sys, i: int)
    requires Inv(s) && Enabled(s, Step.Reference(i, Me))
    ensures |Apply(s, Step.Reference(i, Me)).bufs| == |s.bufs|
    ensures Apply(s, Step.Reference(i, Me)).bufs[i] == s.bufs[i].(count := s.bufs[i].count + 1)
  {
  }

  /** The block is cached in an unlocked buffer. */
  ghost predicate AtHand(s: Sys, dev: int, block: int) {
    exists i :: IsBlock(s, i, dev, block)
  }

  /** A look-up at s that ended in s': an unlocked buffer is delivered without a sleep, with one reference more; what is
      not cached is not found. */
  ghost predicate Handed(s: Sys, dev: int, block: int, sched: seq<Nap>, o: Outcome, rest: seq<Nap>, s': Sys) {
    && (dev != 0 && AtHand(s, dev, block) ==>
          && o.Got? && rest == sched && IsBuffer(s, o.i) && IsBuffer(s', o.i)
          && s'.bufs[o.i] == s.bufs[o.i].(count := s.bufs[o.i].count + 1))
    && ((dev != 0 ==> !Cached(s, dev, block)) ==> o.Nothing?)
  }

  lemma AtHandCached(s: Sys, dev: int, block: int)
    ensures AtHand(s, dev, block) ==> Cached(s, dev, block)
  {
    if i :| IsBlock(s, i, dev, block) {
      assert Holds(s.bufs[i], dev, block);
    }
  }

  lemma HandedFound(s: Sys, i: int, dev: int, block: int, sched: seq<Nap>, woke: bool, rest: seq<Nap>, s': Sys)
    requires Inv(s) && IsBuffer(s, i) && s.bufs[i].dev != 0 && Holds(s.bufs[i], dev, block) && |s'.bufs| == |s.bufs|
    requires !s.bufs[i].lock ==>
      woke && rest == sched && s'.bufs[i] == s.bufs[i].(count := s.bufs[i].count + 1)
    ensures Handed(s, dev, block, sched, if woke then Got(i) else Asleep, rest, s')
  {
    hide Locks, Requests, Clean, Ordered;
    assert Cached(s, dev, block);
  }

  lemma HandedMissed(s: Sys, dev: int, block: int, sched: seq<Nap>)
    requires dev != 0 ==> !Cached(s, dev, block)
    ensures Handed(s, dev, block, sched, Nothing, sched, s)
  {
    AtHandCached(s, dev, block);
  }

  predicate SomeLocked(c: Cache)
    reads c.buf
  {
    exists i :: 0 <= i < c.buf.Length && c.buf[i].lock
  }

  lemma RanRefl(s: Sys, log: seq<Step>)
    requires |s.bufs| == |s.mine| == |s.io|
    ensures Ran(s, log, s, log)
  {
  }

  /** Buffer i is unlocked and stands for the block. */
  predicate IsBlock(s: Sys, i: int, dev: int, block: int) {
    IsBuffer(s, i) && i < |s.mine| && Holds(s.bufs[i], dev, block) && !s.bufs[i].lock
  }

  // ---------------------------------------------------------------- requests

  const READA := 2
  const WRITEA := 3

  lemma Locked(s: Sys, log: seq<Step>, i: int, cmd: int)
    requires Inv(s) && Enabled(s, Step.Lock(i, cmd, Me))
    ensures var s' := Apply(s, Step.Lock(i, cmd, Me));
      s'.io[i] == Pending(cmd, Me) && s'.mine == s.mine && Ran(s, log, s', log + [Step.Lock(i, cmd, Me)])
  {
    OwnRan(s, log, Step.Lock(i, cmd, Me));
  }

  lemma Enqueued(s: Sys, log: seq<Step>, i: int)
    requires Inv(s) && Enabled(s, Step.Enqueue(i, Me))
    ensures var s' := Apply(s, Step.Enqueue(i, Me));
      && s'.io[i] == Queued(s.io[i].cmd) && !s'.bufs[i].dirt && s'.mine == s.mine
      && Ran(s, log, s', log + [Step.Enqueue(i, Me)])
  {
    OwnRan(s, log, Step.Enqueue(i, Me));
  }

  lemma GivenUp(s: Sys, log: seq<Step>, i: int)
    requires Inv(s) && Enabled(s, Step.GiveUp(i, Me))
    ensures var s' := Apply(s, Step.GiveUp(i, Me)); s'.mine == s.mine && Ran(s, log, s', log + [Step.GiveUp(i, Me)])
  {
    OwnRan(s, log, Step.GiveUp(i, Me));
  }

  lemma StillMaking(s: Sys, log: seq<Step>, s': Sys, log': seq<Step>, i: int)
    requires Slept(s, log, s', log') && IsBuffer(s, i) && s.io[i].Pending? && s.io[i].who == Me
    ensures IsBuffer(s', i) && s'.io[i] == s.io[i]
  {
    assert Making(s, s', i);
  }

  /** The slot search of make_request, with its sleeps: NULL when a read- or write-ahead finds none, or while
      this task is asleep. */
  method AwaitSlot(c: Cache, i: int, cmd: int, ahead: bool, sched: seq<Nap>) returns (slot: int, rest: seq<Nap>)
    requires c.Valid() && 0 <= i < c.buf.Length && c.io[i] == Pending(cmd, Me)
    modifies c.Repr()
    ensures c.Valid() && Slept(old(c.Abs()), old(c.log), c.Abs(), c.log) && |rest| <= |sched|
    ensures c.io[i] == Pending(cmd, Me)
    ensures slot != NULL ==> 0 <= slot < c.req.slots.Length == RequestTable.NR_REQUEST && c.req.slots[slot].dev < 0
    ensures slot != NULL && cmd != READ ==> slot < RequestTable.WRITE_SLOTS
    ensures slot == NULL ==> c.NoSlot(cmd) && (ahead || rest == [])
  {
    ghost var s, log := c.Abs(), c.log;
    NoSleep(s, log);
    hide Inv, Shape, Cache.Valid, Cache.Structure, Cache.Abs, Cache.NoSlot, Reaches, Slept;
    rest := sched;
    slot := c.FreeSlot(cmd);
    while slot == NULL && !ahead && rest != []
      invariant c.Valid() && Slept(s, log, c.Abs(), c.log) && |rest| <= |sched| && c.io[i] == Pending(cmd, Me)
      invariant slot != NULL ==> 0 <= slot < c.req.slots.Length == RequestTable.NR_REQUEST && c.req.slots[slot].dev < 0
      invariant slot != NULL && cmd != READ ==> slot < RequestTable.WRITE_SLOTS
      invariant slot == NULL ==> c.NoSlot(cmd)
      decreases |rest|
    {
      ghost var s1, log1 := c.Abs(), c.log;
      Sleep(c, rest[0]);
      rest := rest[1..];
      StillMaking(s1, log1, c.Abs(), c.log, i);
      SleptTrans(s, log, s1, log1, c.Abs(), c.log);
      slot := c.FreeSlot(cmd);
    }
  }

  /** The end of make_request. */
  method PlaceRequest(c: Cache, i: int, slot: int)
    requires c.Valid() && 0 <= i < c.buf.Length && c.io[i].Pending? && c.io[i].who == Me
    requires 0 <= slot < c.req.slots.Length == RequestTable.NR_REQUEST && c.req.slots[slot].dev < 0
    requires c.io[i].cmd == WRITE ==> slot < RequestTable.WRITE_SLOTS
    modifies c.Repr()
    ensures c.Valid() && Ran(old(c.Abs()), old(c.log), c.Abs(), c.log) && c.mine == old(c.mine)
    ensures c.io[i] == Queued(old(c.io[i].cmd)) && !c.buf[i].dirt
  {
    ghost var s, log := c.Abs(), c.log;
    hide Inv, Shape, Cache.Valid, Cache.Structure, Cache.Abs, Reaches, Apply, Ran;
    c.Enqueue(i, slot, Me);
    Enqueued(s, log, i);
  }

  /** A read- or write-ahead that has found no slot. */
  method LetGo(c: Cache, i: int)
    requires c.Valid() && 0 <= i < c.buf.Length && c.io[i].Pending? && c.io[i].who == Me && c.NoSlot(c.io[i].cmd)
    modifies c, c.buf
    ensures c.NoSlot(old(c.io[i].cmd))
    ensures c.Valid() && Ran(old(c.Abs()), old(c.log), c.Abs(), c.log) && c.mine == old(c.mine)
  {
    ghost var s, log := c.Abs(), c.log;
    hide Inv, Shape, Cache.Valid, Cache.Structure, Cache.Abs, Reaches, Apply, Ran;
    c.GiveUp(i, Me);
    GivenUp(s, log, i);
  }

  /** The second half of make_request, from its label: the buffer is locked for cmd; find a slot, or sleep for
      one (a read- or write-ahead gives up instead), and queue the request. */
  method QueueUp(c: Cache, i: int, cmd: int, ahead: bool, sched: seq<Nap>) returns (done: bool, rest: seq<Nap>)
    requires c.Valid() && 0 <= i < c.buf.Length && c.io[i] == Pending(cmd, Me)
    modifies c.Repr()
    ensures c.Valid() && Ran(old(c.Abs()), old(c.log), c.Abs(), c.log) && c.mine == old(c.mine) && |rest| <= |sched|
    ensures done ==> (c.io[i] == Queued(cmd) && !c.buf[i].dirt) || (ahead && c.NoSlot(cmd))
    ensures !done ==> !ahead && rest == [] && c.NoSlot(cmd) && c.buf[i].lock
  {
    ghost var s, log := c.Abs(), c.log;
    hide Inv, Shape, Cache.Valid, Cache.Structure, Cache.Abs, Cache.NoSlot, Reaches, Slept, Ran;
    var slot;
    slot, rest := AwaitSlot(c, i, cmd, ahead, sched);
    ghost var s1, log1 := c.Abs(), c.log;
    SleptRan(s, log, s1, log1);
    done := slot != NULL || ahead;
    if slot != NULL {
      PlaceRequest(c, i, slot);
      RanTrans(s, log, s1, log1, c.Abs(), c.log);
    } else if ahead {
      LetGo(c, i);
      RanTrans(s, log, s1, log1, c.Abs(), c.log);
    }
  }

  /** lock_buffer once the buffer is unlocked and there is work to do. */
  method TakeLock(c: Cache, i: int, cmd: int)
    requires c.Valid() && 0 <= i < c.buf.Length && !c.buf[i].lock && c.buf[i].dev != 0
    requires c.buf[i].dev / 256 < NR_BLK_DEV
    requires (cmd == WRITE && c.buf[i].dirt) || (cmd == READ && !c.buf[i].uptodate)
    modifies c, c.buf
    ensures c.Valid() && Ran(old(c.Abs()), old(c.log), c.Abs(), c.log) && c.mine == old(c.mine)
    ensures c.io[i] == Pending(cmd, Me)
  {
    ghost var s, log := c.Abs(), c.log;
    hide Inv, Shape, Cache.Valid, Cache.Structure, Cache.Abs, Reaches, Apply, Ran;
    c.LockBuffer(i, cmd, Me);
    Locked(s, log, i, cmd);
  }

  /** make_request. Its callers refer to the buffer, or have just found it unlocked; locking a buffer and
      unlocking it at once, when there is nothing to do, changes nothing. */
  method MakeRequest(c: Cache, i: int, rw: int, sched: seq<Nap>) returns (done: bool, rest: seq<Nap>)
    requires c.Valid() && 0 <= i < c.buf.Length && READ <= rw <= WRITEA
    requires c.buf[i].dev != 0 && c.buf[i].dev / 256 < NR_BLK_DEV
    requires c.mine[i] > 0 || !c.buf[i].lock || rw >= READA
    modifies c.Repr()
    ensures c.Valid() && Ran(old(c.Abs()), old(c.log), c.Abs(), c.log) && c.mine == old(c.mine) && |rest| <= |sched|
    ensures done && (rw == READ || rw == READA) ==>
      Coming(c.Abs(), i) || (rw == READA && GaveUp(c, READ, old(c.buf[i].lock)))
    ensures done && (rw == WRITE || rw == WRITEA) ==>
      !c.buf[i].dirt || (rw == WRITEA && GaveUp(c, WRITE, old(c.buf[i].lock)))
    ensures !done ==> rw < READA && rest == [] && c.buf[i].lock
  {
    ghost var s, log := c.Abs(), c.log;
    RanRefl(s, log);
    hide Inv, Shape, Cache.Valid, Cache.Structure, Cache.Abs, Cache.NoSlot, Reaches, Apply, Slept, Ran;
    var ahead := rw == READA || rw == WRITEA;
    var cmd := if rw == READA then READ else if rw == WRITEA then WRITE else rw;
    if ahead && c.buf[i].lock {
      return true, sched;
    }
    done, rest := WaitOnBuffer(c, i, sched);
    ghost var s1, log1 := c.Abs(), c.log;
    SameBlock(s, log, s1, log1, i);
    if !done || (cmd == WRITE && !c.buf[i].dirt) || (cmd == READ && c.buf[i].uptodate) {
      return;
    }
    TakeLock(c, i, cmd);
    ghost var s2, log2 := c.Abs(), c.log;
    RanTrans(s, log, s1, log1, s2, log2);
    done, rest := QueueUp(c, i, cmd, ahead, rest);
    RanTrans(s, log, s2, log2, c.Abs(), c.log);
  }

  /** A read- or write-ahead lets go when the buffer is locked, or when no slot is free. */
  predicate GaveUp(c: Cache, cmd: int, locked: bool)
    reads c.req.slots
  {
    locked || c.NoSlot(cmd)
  }

  lemma SameBlock(s: Sys, log: seq<Step>, s1: Sys, log1: seq<Step>, i: int)
    requires Slept(s, log, s1, log1) && IsBuffer(s, i) && (s.mine[i] > 0 || s1 == s)
    ensures Ran(s, log, s1, log1) && s1.mine == s.mine && |s1.bufs| == |s.bufs|
    ensures Holds(s1.bufs[i], s.bufs[i].dev, s.bufs[i].block)
  {
  }

  /** ll_rw_block: a device without a driver is reported and nothing is done. */
  method LlRwBlock(c: Cache, rw: int, i: int, sched: seq<Nap>) returns (done: bool, rest: seq<Nap>)
    requires c.Valid() && 0 <= i < c.buf.Length && READ <= rw <= WRITEA
    requires c.mine[i] > 0 || !c.buf[i].lock || rw >= READA
    modifies c.Repr()
    ensures c.Valid() && Ran(old(c.Abs()), old(c.log), c.Abs(), c.log) && c.mine == old(c.mine) && |rest| <= |sched|
    ensures done && (rw == READ || rw == READA) && Driven(c, old(c.buf[i].dev)) ==>
      Coming(c.Abs(), i) || (rw == READA && GaveUp(c, READ, old(c.buf[i].lock)))
    ensures done && (rw == WRITE || rw == WRITEA) && Driven(c, old(c.buf[i].dev)) ==>
      !c.buf[i].dirt || (rw == WRITEA && GaveUp(c, WRITE, old(c.buf[i].lock)))
    ensures !done ==> rw < READA && rest == [] && c.buf[i].lock
    ensures !Driven(c, old(c.buf[i].dev)) ==> done && c.Abs() == old(c.Abs()) && c.log == old(c.log)
  {
    ghost var s, log := c.Abs(), c.log;
    RanRefl(s, log);
    DeviceRange(s, i);
    hide Inv, Shape, Cache.Valid, Cache.Structure, Cache.Abs, Reaches, Ran;
    var major := c.buf[i].dev / 256;
    if major >= NR_BLK_DEV || !c.hasDriver[major] {
      return true, sched;
    }
    c.NoDriverForNone();
    done, rest := MakeRequest(c, i, rw, sched);
  }

  lemma DeviceRange(s: Sys, i: int)
    requires Inv(s) && IsBuffer(s, i)
    ensures 0 <= s.bufs[i].dev < 0x10000
  {
  }

  /** The device has a request function. */
  predicate Driven(c: Cache, dev: int) {
    0 <= dev && dev / 256 < |c.hasDriver| && c.hasDriver[dev / 256]
  }

  // ---------------------------------------------------------------- writing back

  /** If a buffer of dev was dirty in s and in s1 is not a dirty buffer of dev, it was queued or dropped. */
  lemma WasCleaned(boot: Sys, s: Sys, log: seq<Step>, s1: Sys, log1: seq<Step>, i: int)
    requires Inv(boot) && Reaches(boot, log, s) && Reaches(boot, log1, s1) && log <= log1
    requires IsBuffer(s, i) && s.bufs[i].dirt
    requires |s1.bufs| == |s.bufs| && !(s1.bufs[i].dirt && s1.bufs[i].dev == s.bufs[i].dev)
    ensures Cleaned(log, log1, i)
  {
    ReachesRest(boot, log, s, log1, s1);
    if !Cleaned(log, log1, i) {
      forall k | 0 <= k < |log1[|log|..]| ensures !Cleans(log1[|log|..][k], i) {
        assert log1[|log|..][k] == log1[|log| + k];
      }
      StaysDirty(s, log1[|log|..], s1, i);
    }
  }

  lemma CleanedMore(log: seq<Step>, log1: seq<Step>, log2: seq<Step>, i: int)
    requires Cleaned(log, log1, i) && log1 <= log2
    ensures Cleaned(log, log2, i)
  {
    var k :| |log| <= k < |log1| && Cleans(log1[k], i);
    assert log2[k] == log1[k];
  }

  /** Every buffer below n that was dirty in s, and whose device dev has a driver, has been cleaned. */
  ghost predicate Flushed(c: Cache, s: Sys, log: seq<Step>, log1: seq<Step>, dev: int, n: int) {
    Driven(c, dev) ==>
      forall i :: 0 <= i < n <= |s.bufs| && s.bufs[i].dirt && s.bufs[i].dev == dev ==> Cleaned(log, log1, i)
  }

  lemma FlushedMore(c: Cache, s: Sys, log: seq<Step>, log1: seq<Step>, log2: seq<Step>, dev: int, n: int)
    requires Flushed(c, s, log, log1, dev, n) && log1 <= log2
    ensures Flushed(c, s, log, log2, dev, n)
  {
    if Driven(c, dev) {
      forall i | 0 <= i < n <= |s.bufs| && s.bufs[i].dirt && s.bufs[i].dev == dev ensures Cleaned(log, log2, i) {
        CleanedMore(log, log1, log2, i);
      }
    }
  }

  lemma FlushedNext(c: Cache, s: Sys, log: seq<Step>, s1: Sys, log1: seq<Step>, dev: int, i: int)
    requires Inv(c.boot) && Reaches(c.boot, log, s) && Reaches(c.boot, log1, s1) && log <= log1
    requires 0 <= i < |s.bufs| == |s1.bufs| && Flushed(c, s, log, log1, dev, i)
    requires s1.bufs[i].dev == dev && s1.bufs[i].dirt ==> !Driven(c, dev)
    ensures Flushed(c, s, log, log1, dev, i + 1)
  {
    if s.bufs[i].dirt && s.bufs[i].dev == dev && Driven(c, dev) {
      WasCleaned(c.boot, s, log, s1, log1, i);
    }
  }

  /** The body of the loop of sync_dev. */
  method SyncBuffer(c: Cache, i: int, dev: int, sched: seq<Nap>) returns (done: bool, rest: seq<Nap>)
    requires c.Valid() && 0 <= i < c.buf.Length
    modifies c.Repr()
    ensures c.Valid() && Ran(old(c.Abs()), old(c.log), c.Abs(), c.log) && c.mine == old(c.mine) && |rest| <= |sched|
    ensures done && c.buf[i].dev == dev && c.buf[i].dirt ==> !Driven(c, dev)
    ensures !done ==> rest == [] && c.buf[i].lock
  {
    ghost var s, log := c.Abs(), c.log;
    RanRefl(s, log);
    hide Inv, Shape, Cache.Valid, Cache.Structure, Cache.Abs, Reaches, Slept, Ran;
    done, rest := true, sched;
    if c.buf[i].dev == dev {
      done, rest := WaitOnBuffer(c, i, rest);
      ghost var s1, log1 := c.Abs(), c.log;
      SleptRan(s, log, s1, log1);
      if done && c.buf[i].dev == dev && c.buf[i].dirt {
        done, rest := LlRwBlock(c, WRITE, i, rest);
        RanTrans(s, log, s1, log1, c.Abs(), c.log);
      }
    }
  }

  lemma RanExtends(s: Sys, log: seq<Step>, s1: Sys, log1: seq<Step>)
    requires Ran(s, log, s1, log1)
    ensures log <= log1 && |s1.bufs| == |s.bufs|
  {
  }

  lemma PassStep(c: Cache, s: Sys, log: seq<Step>, s1: Sys, log1: seq<Step>, s2: Sys, log2: seq<Step>, dev: int, i: int)
    requires Inv(c.boot) && Reaches(c.boot, log, s) && Reaches(c.boot, log2, s2)
    requires Ran(s, log, s1, log1) && Ran(s1, log1, s2, log2)
    requires 0 <= i < |s2.bufs| && Flushed(c, s, log, log1, dev, i)
    requires s2.bufs[i].dev == dev && s2.bufs[i].dirt ==> !Driven(c, dev)
    ensures Ran(s, log, s2, log2) && Flushed(c, s, log, log2, dev, i + 1)
  {
    RanTrans(s, log, s1, log1, s2, log2);
    RanExtends(s1, log1, s2, log2);
    RanExtends(s, log, s2, log2);
    FlushedMore(c, s, log, log1, log2, dev, i);
    FlushedNext(c, s, log, s2, log2, dev, i);
  }

  /** One of the two passes of sync_dev: whatever was dirty when it began has been written back. */
  method SyncPass(c: Cache, dev: int, sched: seq<Nap>) returns (done: bool, rest: seq<Nap>)
    requires c.Valid()
    modifies c.Repr()
    ensures c.Valid() && Ran(old(c.Abs()), old(c.log), c.Abs(), c.log) && c.mine == old(c.mine) && |rest| <= |sched|
    ensures done ==> Flushed(c, old(c.Abs()), old(c.log), c.log, dev, c.buf.Length)
    ensures !done ==> rest == [] && SomeLocked(c)
  {
    ghost var s, log := c.Abs(), c.log;
    RanRefl(s, log);
    hide Inv, Shape, Cache.Valid, Cache.Structure, Cache.Abs, Reaches, Ran, Driven;
    assert Flushed(c, s, log, log, dev, 0);
    hide Flushed;
    done, rest := true, sched;
    for i := 0 to c.buf.Length
      invariant c.Valid() && Ran(s, log, c.Abs(), c.log) && c.mine == s.mine && |rest| <= |sched| && done
      invariant Flushed(c, s, log, c.log, dev, i)
    {
      ghost var s1, log1 := c.Abs(), c.log;
      done, rest := SyncBuffer(c, i, dev, rest);
      if !done {
        RanTrans(s, log, s1, log1, c.Abs(), c.log);
        return;
      }
      PassStep(c, s, log, s1, log1, c.Abs(), c.log, dev, i);
    }
  }

  /** Everything dirty at the start is cleaned, then others have their turn in sync_inodes, and everything that is dirty
      then is cleaned as well. */
  ghost predicate Synced(c: Cache, s: Sys, log: seq<Step>, log': seq<Step>, dev: int) {
    exists s1, log1, nap, s2, log2 ::
      && Inv(s1) && Napped(s1, log1, nap, s2, log2) && log <= log1 && log2 <= log'
      && Inv(c.boot) && Reaches(c.boot, log1, s1) && Reaches(c.boot, log2, s2)
      && Flushed(c, s, log, log1, dev, |s.bufs|) && Flushed(c, s2, log2, log', dev, |s2.bufs|)
  }

  lemma SyncedBy(c: Cache, s: Sys, log: seq<Step>, s1: Sys, log1: seq<Step>, nap: Nap, s2: Sys, log2: seq<Step>,
                 log': seq<Step>, dev: int)
    requires Inv(s1) && Napped(s1, log1, nap, s2, log2) && log <= log1 && log2 <= log'
    requires Inv(c.boot) && Reaches(c.boot, log1, s1) && Reaches(c.boot, log2, s2)
    requires Flushed(c, s, log, log1, dev, |s.bufs|) && Flushed(c, s2, log2, log', dev, |s2.bufs|)
    ensures Synced(c, s, log, log', dev)
  {
    hide Inv, Napped, Reaches, Flushed;
  }

  /** sync_dev. What sync_inodes does between the passes, getting, changing and releasing inode blocks, counts
      as steps of others: it holds no reference when it is done. */
  method SyncDev(c: Cache, dev: int, sched: seq<Nap>) returns (done: bool, rest: seq<Nap>)
    requires c.Valid()
    modifies c.Repr()
    ensures c.Valid() && Ran(old(c.Abs()), old(c.log), c.Abs(), c.log) && c.mine == old(c.mine)
    ensures |rest| <= |sched| && if done then |rest| < |sched| else rest == []
    ensures done ==> Flushed(c, old(c.Abs()), old(c.log), c.log, dev, c.buf.Length)
    ensures done ==> Synced(c, old(c.Abs()), old(c.log), c.log, dev)
  {
    ghost var s, log := c.Abs(), c.log;
    hide Inv, Shape, Cache.Valid, Cache.Structure, Cache.Abs, Reaches, Slept, Ran, Flushed;
    done, rest := SyncPass(c, dev, sched);
    if !done || rest == [] {
      return false, rest;
    }
    ghost var s1, log1, sched1 := c.Abs(), c.log, rest;
    Sleep(c, rest[0]);
    rest := rest[1..];
    SleptRan(s1, log1, c.Abs(), c.log);
    ghost var s2, log2 := c.Abs(), c.log;
    done, rest := SyncPass(c, dev, rest);
    RanTrans(s1, log1, s2, log2, c.Abs(), c.log);
    RanTrans(s, log, s1, log1, c.Abs(), c.log);
    RanExtends(s1, log1, c.Abs(), c.log);
    FlushedMore(c, s, log, log1, c.log, dev, c.buf.Length);
    if done {
      SyncedBy(c, s, log, s1, log1, sched1[0], s2, log2, c.log, dev);
    }
  }

  // ---------------------------------------------------------------- getblk, brelse, bread

  /** The state with one reference of this task to buffer i less. */
  function Dropped(s: Sys, i: int): Sys
    requires IsBuffer(s, i) && |s.mine| == |s.bufs|
  {
    s.(mine := Plus(s.mine, i, -1))
  }

  lemma Released(s: Sys, log: seq<Step>, s1: Sys, log1: seq<Step>, i: int)
    requires Slept(s, log, s1, log1) && Inv(s1) && IsBuffer(s, i) && Enabled(s1, Step.Unreference(i, Me))
    ensures var st := Step.Unreference(i, Me);
      Apply(s1, st).mine == Plus(s.mine, i, -1) && Ran(Dropped(s, i), log, Apply(s1, st), log1 + [st])
  {
    var st := Step.Unreference(i, Me);
    SameIdentities(s1, st);
    NoWritesTrans(log, log1, log1 + [st]);
  }

  /** The end of brelse, once the buffer is unlocked. */
  method DropReference(c: Cache, i: int)
    requires c.Valid() && 0 <= i < c.buf.Length && c.mine[i] > 0 && !c.buf[i].lock
    modifies c, c.buf
    ensures c.Valid() && c.Abs() == Apply(old(c.Abs()), Step.Unreference(i, Me))
    ensures c.log == old(c.log) + [Step.Unreference(i, Me)]
    ensures Enabled(old(c.Abs()), Step.Unreference(i, Me))
  {
    CountCovers(c.Abs(), i);
    hide Inv, Shape, Cache.Valid, Cache.Structure, Cache.Abs, Reaches, Apply;
    c.Unreference(i, Me);
  }

  /** The same for a task that has slept since it called brelse. */
  method EndBrelse(c: Cache, i: int, ghost s: Sys, ghost log: seq<Step>)
    requires c.Valid() && 0 <= i < c.buf.Length && c.mine[i] > 0 && !c.buf[i].lock
    requires IsBuffer(s, i) && |s.mine| == |s.bufs| && Slept(s, log, c.Abs(), c.log)
    modifies c, c.buf
    ensures c.Valid() && c.mine == Plus(s.mine, i, -1) && Ran(Dropped(s, i), log, c.Abs(), c.log)
    ensures LetGoAtOnce(old(c.Abs()), old(c.log), i, c.Abs(), c.log)
  {
    ghost var s1, log1 := c.Abs(), c.log;
    hide Inv, Shape, Enabled, Cache.Valid, Cache.Structure, Cache.Abs, Reaches, Apply, Plus, Slept, Ran, Dropped;
    hide LetGoAtOnce;
    DropReference(c, i);
    Released(s, log, s1, log1, i);
    Unreferenced(s1, log1, i);
  }

  /** brelse of a buffer. The panic of the source, on a count of 0, cannot happen to a task that holds a reference. */
  method BrelseHeld(c: Cache, i: int, sched: seq<Nap>) returns (done: bool, rest: seq<Nap>)
    requires c.Valid() && 0 <= i < c.buf.Length && c.mine[i] > 0
    modifies c.Repr()
    ensures c.Valid() && |rest| <= |sched|
    ensures !done ==> Ran(old(c.Abs()), old(c.log), c.Abs(), c.log) && c.mine == old(c.mine)
    ensures !done ==> rest == [] && c.buf[i].lock
    ensures !old(c.buf[i].lock) ==>
      done && rest == sched && LetGoAtOnce(old(c.Abs()), old(c.log), i, c.Abs(), c.log)
    ensures done ==>
      && c.log != [] && c.log[|c.log| - 1] == Step.Unreference(i, Me)
      && c.mine == Plus(old(c.mine), i, -1) && Ran(Dropped(old(c.Abs()), i), old(c.log), c.Abs(), c.log)
  {
    ghost var s, log := c.Abs(), c.log;
    hide Inv, Shape, Cache.Valid, Cache.Structure, Cache.Abs, Reaches, Plus, Slept, Ran, Dropped;
    done, rest := WaitOnBuffer(c, i, sched);
    SleptRan(s, log, c.Abs(), c.log);
    if done {
      EndBrelse(c, i, s, log);
    }
  }

  /** brelse: NULL is ignored. */
  method Brelse(c: Cache, i: int, sched: seq<Nap>) returns (done: bool, rest: seq<Nap>)
    requires c.Valid() && (i == NULL || (0 <= i < c.buf.Length && c.mine[i] > 0))
    modifies c.Repr()
    ensures c.Valid() && |rest| <= |sched|
    ensures i == NULL ==> done && c.Abs() == old(c.Abs()) && c.log == old(c.log)
    ensures !done ==> Ran(old(c.Abs()), old(c.log), c.Abs(), c.log) && c.mine == old(c.mine)
    ensures !done ==> rest == [] && c.buf[i].lock
    ensures i != NULL && !old(c.buf[i].lock) ==>
      done && rest == sched && LetGoAtOnce(old(c.Abs()), old(c.log), i, c.Abs(), c.log)
    ensures done && i != NULL ==>
      && c.log != [] && c.log[|c.log| - 1] == Step.Unreference(i, Me)
      && c.mine == Plus(old(c.mine), i, -1)
      && Ran(Dropped(old(c.Abs()), i), old(c.log), c.Abs(), c.log)
  {
    if i == NULL {
      return true, sched;
    }
    hide Inv, Shape, Cache.Valid, Cache.Structure, Cache.Abs, Reaches, Plus, Ran, Dropped, LetGoAtOnce;
    done, rest := BrelseHeld(c, i, sched);
  }

  lemma Unreferenced(s: Sys, log: seq<Step>, i: int)
    requires Inv(s) && Enabled(s, Step.Unreference(i, Me))
    ensures LetGoAtOnce(s, log, i, Apply(s, Step.Unreference(i, Me)), log + [Step.Unreference(i, Me)])
  {
  }

  /** brelse without a sleep: the count of buffer i goes down by one, and no other buffer changes. */
  ghost predicate LetGoAtOnce(s: Sys, log: seq<Step>, i: int, s': Sys, log': seq<Step>) {
    && IsBuffer(s, i) && s'.bufs == s.bufs[i := s.bufs[i].(count := s.bufs[i].count - 1)]
    && log' == log + [Step.Unreference(i, Me)]
  }

  lemma CountCovers(s: Sys, i: int)
    requires Inv(s) && IsBuffer(s, i)
    ensures 0 <= s.mine[i] <= s.bufs[i].count
  {
  }

  lemma Claimed(s: Sys, log: seq<Step>, i: int, dev: int, block: int)
    requires Inv(s) && Enabled(s, Step.Claim(i, dev, block, Me))
    ensures var st := Step.Claim(i, dev, block, Me);
      && Ran(s, log, Apply(s, st), log + [st]) && Apply(s, st).mine == Plus(s.mine, i, 1)
      && IsBlock(Apply(s, st), i, dev, block)
  {
    OwnRan(s, log, Step.Claim(i, dev, block, Me));
  }

  /** The body of getblk's loop on a dirty buffer. */
  method WriteBack(c: Cache, i: int, sched: seq<Nap>) returns (awake: bool, rest: seq<Nap>)
    requires c.Valid() && 0 <= i < c.buf.Length
    modifies c.Repr()
    ensures c.Valid() && Ran(old(c.Abs()), old(c.log), c.Abs(), c.log) && c.mine == old(c.mine)
    ensures |rest| <= |sched| && if awake then |rest| < |sched| && !c.buf[i].lock else rest == []
  {
    ghost var s, log := c.Abs(), c.log;
    hide Inv, Shape, Cache.Valid, Cache.Structure, Cache.Abs, Reaches, Slept, Ran, Flushed;
    awake, rest := SyncDev(c, c.buf[i].dev, sched);
    if awake {
      ghost var s1, log1 := c.Abs(), c.log;
      awake, rest := WaitOnBuffer(c, i, rest);
      SleptRan(s1, log1, c.Abs(), c.log);
      RanTrans(s, log, s1, log1, c.Abs(), c.log);
    }
  }

  /** The inner loop of getblk: write buffer i back while it is dirty, unless others take it meanwhile. */
  method WriteOut(c: Cache, i: int, sched: seq<Nap>) returns (ready: bool, awake: bool, rest: seq<Nap>)
    requires c.Valid() && 0 <= i < c.buf.Length && c.buf[i].count == 0 && !c.buf[i].lock
    modifies c.Repr()
    ensures c.Valid() && Ran(old(c.Abs()), old(c.log), c.Abs(), c.log) && c.mine == old(c.mine) && |rest| <= |sched|
    ensures ready ==> awake && c.buf[i].count == 0 && !c.buf[i].dirt && !c.buf[i].lock
    ensures |rest| == |sched| && awake ==> ready && rest == sched && c.Abs() == old(c.Abs())
    ensures !awake ==> rest == []
    ensures !old(c.buf[i].dirt) ==> ready && rest == sched
  {
    ghost var s, log := c.Abs(), c.log;
    RanRefl(s, log);
    hide Inv, Shape, Cache.Valid, Cache.Structure, Cache.Abs, Reaches, Ran;
    ready, awake, rest := true, true, sched;
    while ready && c.buf[i].dirt
      invariant c.Valid() && Ran(s, log, c.Abs(), c.log) && c.mine == s.mine && |rest| <= |sched| && awake
      invariant ready ==> c.buf[i].count == 0 && !c.buf[i].lock
      invariant |rest| == |sched| ==> ready && rest == sched && c.Abs() == s
      invariant !old(c.buf[i].dirt) ==> |rest| == |sched|
      decreases |rest|, ready
    {
      ghost var s1, log1 := c.Abs(), c.log;
      awake, rest := WriteBack(c, i, rest);
      RanTrans(s, log, s1, log1, c.Abs(), c.log);
      if !awake {
        return false, false, rest;
      }
      ready := c.buf[i].count == 0;
    }
  }

  /** The part of getblk behind the scan: wait for buffer i, write it back while it is dirty. ready says that
      it is now free, unlocked and clean; otherwise others have taken it meanwhile, unless this task is still asleep. */
  method MakeReady(c: Cache, i: int, sched: seq<Nap>) returns (ready: bool, awake: bool, rest: seq<Nap>)
    requires c.Valid() && 0 <= i < c.buf.Length && c.buf[i].count == 0
    modifies c.Repr()
    ensures c.Valid() && Ran(old(c.Abs()), old(c.log), c.Abs(), c.log) && c.mine == old(c.mine) && |rest| <= |sched|
    ensures ready ==> awake && c.buf[i].count == 0 && !c.buf[i].dirt && !c.buf[i].lock
    ensures ready && |rest| == |sched| ==> c.Abs() == old(c.Abs())
    ensures awake && !ready ==> |rest| < |sched|
    ensures !awake ==> rest == []
    ensures !old(c.buf[i].lock) && !old(c.buf[i].dirt) ==> ready && rest == sched
  {
    ghost var s, log := c.Abs(), c.log;
    hide Inv, Shape, Cache.Valid, Cache.Structure, Cache.Abs, Reaches, Slept, Ran;
    ready := false;
    awake, rest := WaitOnBuffer(c, i, sched);
    ghost var s1, log1 := c.Abs(), c.log;
    SleptRan(s, log, s1, log1);
    if awake && c.buf[i].count == 0 {
      ready, awake, rest := WriteOut(c, i, rest);
      RanTrans(s, log, s1, log1, c.Abs(), c.log);
    }
  }

  /** The end of getblk: the buffer is free, unlocked and clean; look once more, then relabel it. */
  method ClaimFree(c: Cache, i: int, dev: int, block: int) returns (o: Outcome)
    requires c.Valid() && 0 <= dev < 0x10000 && 0 <= block < 0x8000_0000
    requires 0 <= i < c.buf.Length && c.buf[i].count == 0 && !c.buf[i].dirt && !c.buf[i].lock
    modifies c.Repr()
    ensures c.Valid() && Ran(old(c.Abs()), old(c.log), c.Abs(), c.log)
    ensures o == if dev != 0 && Cached(old(c.Abs()), dev, block) then Nothing else Got(i)
    ensures o.Got? ==> IsBlock(c.Abs(), i, dev, block) && c.mine == Plus(old(c.mine), i, 1)
    ensures o.Nothing? ==> c.Abs() == old(c.Abs())
  {
    ghost var s, log := c.Abs(), c.log;
    RanRefl(s, log);
    hide Inv, Shape, Cached, Cache.Valid, Cache.Structure, Cache.Abs, Reaches, Apply, Plus, Slept, Ran;
    o := Nothing;
    var other := c.Find(dev, block);
    if other == NULL {
      c.Claim(i, dev, block, Me);
      Claimed(s, log, i, dev, block);
      o := Got(i);
    }
  }

  /** Some buffer is unreferenced, clean and unlocked. */
  ghost predicate Takeable(s: Sys) {
    exists i :: IsBuffer(s, i) && s.bufs[i].count == 0 && !s.bufs[i].dirt && !s.bufs[i].lock
  }

  /** getblk behind the lookup that found nothing: take a buffer for the block, or Nothing to start again. */
  method TakeBuffer(c: Cache, dev: int, block: int, sched: seq<Nap>) returns (o: Outcome, rest: seq<Nap>)
    requires c.Valid() && 0 <= dev < 0x10000 && 0 <= block < 0x8000_0000
    requires dev != 0 ==> !Cached(c.Abs(), dev, block)
    modifies c.Repr()
    ensures c.Valid() && Ran(old(c.Abs()), old(c.log), c.Abs(), c.log) && |rest| <= |sched|
    ensures o.Got? ==> IsBlock(c.Abs(), o.i, dev, block) && c.mine == Plus(old(c.mine), o.i, 1)
    ensures o.Nothing? ==> |rest| < |sched| && c.mine == old(c.mine)
    ensures o.Asleep? ==> rest == []
    ensures Takeable(old(c.Abs())) ==> o.Got? && rest == sched
  {
    ghost var s, log := c.Abs(), c.log;
    RanRefl(s, log);
    hide Inv, Shape, Cached, Cache.Valid, Cache.Structure, Cache.Abs, Reaches, Apply, Plus, Slept, Ran, Chosen;
    o, rest := Asleep, sched;
    var bh := c.Victim();
    if bh == NULL {
      if rest != [] {
        Sleep(c, rest[0]);
        SleptRan(s, log, c.Abs(), c.log);
        o, rest := Nothing, rest[1..];
      }
      return;
    }
    var ready, awake;
    ready, awake, rest := MakeReady(c, bh, rest);
    if ready {
      ghost var s1, log1 := c.Abs(), c.log;
      o := ClaimFree(c, bh, dev, block);
      RanTrans(s, log, s1, log1, c.Abs(), c.log);
    } else if awake {
      o := Nothing;
    }
  }

  /** getblk need not wait: the block is cached and unlocked, or it is not cached and there is a buffer to take. */
  ghost predicate AtOnce(s: Sys, dev: int, block: int) {
    (dev != 0 && AtHand(s, dev, block)) || ((dev != 0 ==> !Cached(s, dev, block)) && Takeable(s))
  }

  /** getblk at s that ended in s': it is still asleep only at the end of the schedule, and does not sleep if it need
      not. */
  ghost predicate Prompt(s: Sys, dev: int, block: int, sched: seq<Nap>, o: Outcome, rest: seq<Nap>, s': Sys) {
    && (o.Asleep? ==> rest == [])
    && (AtOnce(s, dev, block) ==> o.Got? && rest == sched)
    && (dev != 0 && AtHand(s, dev, block) ==> Handed(s, dev, block, sched, o, rest, s'))
  }

  lemma PromptLater(s: Sys, s1: Sys, dev: int, block: int, sched: seq<Nap>, sched1: seq<Nap>, o: Outcome,
                    rest: seq<Nap>, s': Sys)
    requires !AtOnce(s, dev, block) && Prompt(s1, dev, block, sched1, o, rest, s')
    ensures Prompt(s, dev, block, sched, o, rest, s')
  {
  }

  /** What getblk, or a part of it, has come to. */
  ghost predicate Sought(s: Sys, log: seq<Step>, dev: int, block: int, sched: seq<Nap>, o: Outcome, rest: seq<Nap>,
                         s': Sys, log': seq<Step>) {
    && Ran(s, log, s', log') && |rest| <= |sched| && Prompt(s, dev, block, sched, o, rest, s')
    && (o.Got? ==> IsBlock(s', o.i, dev, block) && 0 <= o.i < |s.mine| && s'.mine == Plus(s.mine, o.i, 1))
    && (o.Nothing? ==> |rest| < |sched| && s'.mine == s.mine)
  }

  lemma SoughtMore(s: Sys, log: seq<Step>, dev: int, block: int, sched: seq<Nap>, rest1: seq<Nap>, s1: Sys,
                   log1: seq<Step>, o: Outcome, rest: seq<Nap>, s': Sys, log': seq<Step>)
    requires Sought(s, log, dev, block, sched, Nothing, rest1, s1, log1)
    requires Sought(s1, log1, dev, block, rest1, o, rest, s', log')
    ensures Sought(s, log, dev, block, sched, o, rest, s', log')
  {
    hide Ran, Plus, IsBlock;
    RanTrans(s, log, s1, log1, s', log');
    PromptLater(s, s1, dev, block, sched, rest1, o, rest, s');
  }

  /** After the look-up: found, or asleep. */
  lemma SoughtFound(s: Sys, log: seq<Step>, dev: int, block: int, sched: seq<Nap>, o: Outcome, rest: seq<Nap>,
                    s': Sys, log': seq<Step>)
    requires Inv(s) && Ran(s, log, s', log') && |rest| <= |sched| && !o.Nothing? && (o.Asleep? ==> rest == [])
    requires Handed(s, dev, block, sched, o, rest, s')
    requires o.Got? ==> IsBlock(s', o.i, dev, block) && s'.mine == Plus(s.mine, o.i, 1)
    ensures Sought(s, log, dev, block, sched, o, rest, s', log')
  {
    hide Consistent;
  }

  /** After the attempt to take a buffer. */
  lemma SoughtTaken(s: Sys, log: seq<Step>, dev: int, block: int, sched: seq<Nap>, o: Outcome, rest: seq<Nap>,
                    s': Sys, log': seq<Step>)
    requires Inv(s) && Ran(s, log, s', log') && |rest| <= |sched| && (o.Asleep? ==> rest == [])
    requires (dev != 0 ==> !Cached(s, dev, block)) && (Takeable(s) ==> o.Got? && rest == sched)
    requires o.Got? ==> IsBlock(s', o.i, dev, block) && s'.mine == Plus(s.mine, o.i, 1)
    requires o.Nothing? ==> |rest| < |sched| && s'.mine == s.mine
    ensures Sought(s, log, dev, block, sched, o, rest, s', log')
  {
    hide Consistent;
    AtHandCached(s, dev, block);
  }

  /** getblk from its label on, once. */
  method TryGetblk(c: Cache, dev: int, block: int, sched: seq<Nap>) returns (o: Outcome, rest: seq<Nap>)
    requires c.Valid() && 0 <= dev < 0x10000 && 0 <= block < 0x8000_0000
    modifies c.Repr()
    ensures c.Valid() && Sought(old(c.Abs()), old(c.log), dev, block, sched, o, rest, c.Abs(), c.log)
  {
    ghost var s, log := c.Abs(), c.log;
    hide Inv, Shape, Cached, Cache.Valid, Cache.Structure, Cache.Abs, Reaches, Plus, Ran, Handed;
    hide Takeable, IsBlock, Sought;
    o, rest := GetHashTable(c, dev, block, sched);
    if o.Nothing? {
      o, rest := TakeBuffer(c, dev, block, rest);
      SoughtTaken(s, log, dev, block, sched, o, rest, c.Abs(), c.log);
    } else {
      SoughtFound(s, log, dev, block, sched, o, rest, c.Abs(), c.log);
    }
  }

  /** getblk: it ends with an unlocked buffer for the block and one reference more on it, or asleep at the end of the
      schedule. When it need not wait, it does not. */
  method Getblk(c: Cache, dev: int, block: int, sched: seq<Nap>) returns (o: Outcome, rest: seq<Nap>)
    requires c.Valid() && 0 <= dev < 0x10000 && 0 <= block < 0x8000_0000
    modifies c.Repr()
    ensures c.Valid() && Ran(old(c.Abs()), old(c.log), c.Abs(), c.log) && |rest| <= |sched|
    ensures o.Got? || o.Asleep?
    ensures Prompt(old(c.Abs()), dev, block, sched, o, rest, c.Abs())
    ensures o.Got? ==> IsBlock(c.Abs(), o.i, dev, block) && c.mine == Plus(old(c.mine), o.i, 1)
  {
    ghost var s, log := c.Abs(), c.log;
    hide Inv, Shape, Cache.Valid, Cache.Structure, Cache.Abs, Reaches, Plus, Ran, IsBlock, Prompt;
    o, rest := TryGetblk(c, dev, block, sched);
    while o.Nothing?
      invariant c.Valid() && Sought(s, log, dev, block, sched, o, rest, c.Abs(), c.log)
      decreases o.Nothing?, |rest|
    {
      ghost var s1, log1, rest1 := c.Abs(), c.log, rest;
      o, rest := TryGetblk(c, dev, block, rest);
      SoughtMore(s, log, dev, block, sched, rest1, s1, log1, o, rest, c.Abs(), c.log);
    }
  }

  lemma StillComing(s: Sys, log: seq<Step>, s1: Sys, log1: seq<Step>, i: int)
    requires Ran(s, log, s1, log1) && IsBuffer(s, i) && s.mine[i] > 0
    ensures IsBuffer(s1, i) && Holds(s1.bufs[i], s.bufs[i].dev, s.bufs[i].block)
    ensures Coming(s, i) ==> Coming(s1, i)
  {
  }

  /** Once unlocked, a buffer whose read was under way is valid, and its data is what its block contains. */
  lemma Arrived(s: Sys, i: int)
    requires Inv(s) && IsBuffer(s, i) && !s.bufs[i].lock
    ensures Coming(s, i) ==> s.bufs[i].uptodate
    ensures s.bufs[i].uptodate && s.bufs[i].dev != 0 ==> s.bufs[i].data == Content(s, s.bufs[i].dev, s.bufs[i].block)
  {
    if s.bufs[i].uptodate && s.bufs[i].dev != 0 {
      ContentOfHolder(s, i, s.bufs[i].dev, s.bufs[i].block);
    }
  }

  /** wait_on_buffer in bread, for a buffer of this task's on which a read may be under way. */
  method AwaitRead(c: Cache, i: int, dev: int, block: int, sched: seq<Nap>) returns (done: bool, rest: seq<Nap>)
    requires c.Valid() && 0 <= i < c.buf.Length && Holds(c.buf[i], dev, block) && c.mine[i] > 0
    modifies c.Repr()
    ensures c.Valid() && Ran(old(c.Abs()), old(c.log), c.Abs(), c.log) && c.mine == old(c.mine) && |rest| <= |sched|
    ensures done ==> IsBlock(c.Abs(), i, dev, block) && (Coming(old(c.Abs()), i) ==> c.buf[i].uptodate)
    ensures !done ==> rest == [] && c.buf[i].lock
  {
    ghost var s, log := c.Abs(), c.log;
    hide Inv, Shape, Cache.Valid, Cache.Structure, Cache.Abs, Reaches, Slept, Ran, Content, Coming;
    done, rest := WaitOnBuffer(c, i, sched);
    SleptRan(s, log, c.Abs(), c.log);
    StillComing(s, log, c.Abs(), c.log, i);
    if done {
      Arrived(c.Abs(), i);
    }
  }

  /** The second half of bread: getblk has returned an invalid buffer; read it. */
  method ReadIn(c: Cache, i: int, dev: int, block: int, sched: seq<Nap>) returns (done: bool, rest: seq<Nap>)
    requires c.Valid() && IsBlock(c.Abs(), i, dev, block) && c.mine[i] > 0 && dev != 0
    modifies c.Repr()
    ensures c.Valid() && Ran(old(c.Abs()), old(c.log), c.Abs(), c.log) && c.mine == old(c.mine) && |rest| <= |sched|
    ensures done ==> IsBlock(c.Abs(), i, dev, block) && (Driven(c, dev) ==> c.buf[i].uptodate)
    ensures !done ==> rest == [] && c.buf[i].lock
  {
    ghost var s, log := c.Abs(), c.log;
    hide Inv, Shape, Cache.Valid, Cache.Structure, Cache.Abs, Reaches, Ran, Content, Coming;
    done, rest := LlRwBlock(c, READ, i, sched);
    if done {
      ghost var s1, log1 := c.Abs(), c.log;
      StillComing(s, log, s1, log1, i);
      done, rest := AwaitRead(c, i, dev, block, rest);
      RanTrans(s, log, s1, log1, c.Abs(), c.log);
    }
  }

  /** bread from its second look at the buffer on. */
  method Deliver(c: Cache, i: int, dev: int, block: int, sched: seq<Nap>) returns (o: Outcome, rest: seq<Nap>)
    requires c.Valid() && IsBlock(c.Abs(), i, dev, block) && c.mine[i] > 0 && dev != 0
    modifies c.Repr()
    ensures c.Valid() && |rest| <= |sched|
    ensures o.Got? ==> o.i == i && c.Abs() == old(c.Abs()) && c.log == old(c.log) && c.buf[i].uptodate
    ensures o.Asleep? ==> rest == []
    ensures old(c.buf[i].uptodate) ==> o.Got? && rest == sched
    ensures o.Nothing? ==> !old(c.buf[i].uptodate) && c.mine == Plus(old(c.mine), i, -1)
    ensures o.Nothing? ==> Ran(Dropped(old(c.Abs()), i), old(c.log), c.Abs(), c.log)
  {
    hide Inv, Shape, Cache.Valid, Cache.Structure, Cache.Abs, Reaches, Plus, Ran;
    if c.buf[i].uptodate {
      return Got(i), sched;
    }
    var done;
    done, rest := Brelse(c, i, sched);
    o := if done then Nothing else Asleep;
  }

  lemma RanDropped(s: Sys, log: seq<Step>, s1: Sys, log1: seq<Step>, i: int, s2: Sys, log2: seq<Step>)
    requires Ran(s, log, s1, log1) && 0 <= i < |s.mine| && s1.mine == Plus(s.mine, i, 1)
    requires Ran(Dropped(s1, i), log1, s2, log2)
    ensures Plus(s1.mine, i, -1) == s.mine && Ran(s, log, s2, log2)
  {
    assert Ran(s, log, Dropped(s1, i), log1);
    RanTrans(s, log, Dropped(s1, i), log1, s2, log2);
  }

  lemma DroppedRan(s: Sys, log: seq<Step>, s1: Sys, log1: seq<Step>, i: int, s2: Sys, log2: seq<Step>)
    requires Ran(s, log, s1, log1) && IsBuffer(s, i) && s1.mine == s.mine && Ran(Dropped(s1, i), log1, s2, log2)
    ensures Ran(Dropped(s, i), log, s2, log2)
  {
    assert Ran(Dropped(s, i), log, Dropped(s1, i), log1);
    RanTrans(Dropped(s, i), log, Dropped(s1, i), log1, s2, log2);
  }

  /** bread behind getblk: read the buffer if it is not valid, then return it, or release it if it still is not. */
  method Load(c: Cache, i: int, dev: int, block: int, sched: seq<Nap>) returns (o: Outcome, rest: seq<Nap>)
    requires c.Valid() && IsBlock(c.Abs(), i, dev, block) && c.mine[i] > 0 && dev != 0
    modifies c.Repr()
    ensures c.Valid() && |rest| <= |sched| && (o.Asleep? ==> rest == [])
    ensures old(c.buf[i].uptodate) ==> o.Got? && rest == sched
    ensures o.Got? ==>
      && Ran(old(c.Abs()), old(c.log), c.Abs(), c.log) && c.mine == old(c.mine)
      && o.i == i && IsBlock(c.Abs(), i, dev, block)
      && c.buf[i].uptodate && c.buf[i].data == Content(c.Abs(), dev, block)
    ensures o.Nothing? ==>
      && Ran(Dropped(old(c.Abs()), i), old(c.log), c.Abs(), c.log) && c.mine == Plus(old(c.mine), i, -1)
      && !Driven(c, dev)
  {
    ghost var s, log := c.Abs(), c.log;
    RanRefl(s, log);
    hide Inv, Shape, Cache.Valid, Cache.Structure, Cache.Abs, Reaches, Plus, Ran, Content, Driven, Dropped;
    rest := sched;
    if !c.buf[i].uptodate {
      var done;
      done, rest := ReadIn(c, i, dev, block, rest);
      if !done {
        return Asleep, rest;
      }
    }
    ghost var s1, log1 := c.Abs(), c.log;
    o, rest := Deliver(c, i, dev, block, rest);
    if o.Got? {
      Arrived(s1, i);
    } else if o.Nothing? {
      DroppedRan(s, log, s1, log1, i, c.Abs(), c.log);
    }
  }

  /** The block is cached in an unlocked, valid buffer. */
  ghost predicate ValidAtHand(s: Sys, dev: int, block: int) {
    exists i :: IsBlock(s, i, dev, block) && s.bufs[i].uptodate
  }

  lemma PromptValid(s: Sys, dev: int, block: int, sched: seq<Nap>, o: Outcome, rest: seq<Nap>, s': Sys)
    requires Inv(s) && dev != 0 && Prompt(s, dev, block, sched, o, rest, s')
    requires o.Got? && IsBlock(s', o.i, dev, block) && ValidAtHand(s, dev, block)
    ensures rest == sched && s'.bufs[o.i].uptodate
  {
    var i :| IsBlock(s, i, dev, block) && s.bufs[i].uptodate;
    hide Locks, Requests, Clean, Ordered;
    assert AtHand(s, dev, block) && Handed(s, dev, block, sched, o, rest, s');
    assert Holds(s.bufs[i], dev, block) && Holds(s.bufs[o.i], dev, block);
  }

  /** bread: the buffer it returns holds what the block contains; it returns none only for a device without a
      driver, and then keeps no reference. It is still asleep only at the end of the schedule, and it does not sleep
      when getblk need not wait and the buffer is valid. */
  method Bread(c: Cache, dev: int, block: int, sched: seq<Nap>) returns (o: Outcome, rest: seq<Nap>)
    requires c.Valid() && 0 < dev < 0x10000 && 0 <= block < 0x8000_0000
    modifies c.Repr()
    ensures c.Valid() && |rest| <= |sched| && (o.Asleep? ==> rest == [])
    ensures ValidAtHand(old(c.Abs()), dev, block) ==> o.Got? && rest == sched
    ensures !o.Asleep? ==> Ran(old(c.Abs()), old(c.log), c.Abs(), c.log)
    ensures o.Got? ==>
      && IsBlock(c.Abs(), o.i, dev, block) && c.mine == Plus(old(c.mine), o.i, 1)
      && c.buf[o.i].uptodate && c.buf[o.i].data == Content(c.Abs(), dev, block)
    ensures o.Nothing? ==> !Driven(c, dev) && c.mine == old(c.mine)
  {
    ghost var s, log := c.Abs(), c.log;
    NoNegative(s);
    ValidIsAtOnce(s, dev, block);
    hide Inv, Shape, Cache.Valid, Cache.Structure, Cache.Abs, Reaches, Plus, Ran, Content, Driven, Dropped;
    hide AtHand, ValidAtHand, Takeable, Handed;
    o, rest := Getblk(c, dev, block, sched);
    if o.Asleep? {
      return;
    }
    var i := o.i;
    ghost var s1, log1 := c.Abs(), c.log;
    PlusPositive(s.mine, i);
    if ValidAtHand(s, dev, block) {
      PromptValid(s, dev, block, sched, o, rest, s1);
    }
    o, rest := Load(c, i, dev, block, rest);
    if o.Got? {
      RanTrans(s, log, s1, log1, c.Abs(), c.log);
    } else if o.Nothing? {
      RanDropped(s, log, s1, log1, i, c.Abs(), c.log);
    }
  }

  lemma ValidIsAtOnce(s: Sys, dev: int, block: int)
    ensures dev != 0 && ValidAtHand(s, dev, block) ==> AtOnce(s, dev, block)
  {
  }

  lemma NoNegative(s: Sys)
    requires Inv(s)
    ensures forall i :: 0 <= i < |s.mine| ==> s.mine[i] >= 0
  {
  }

  lemma PlusPositive(m: seq<int>, i: int)
    requires 0 <= i < |m| && m[i] >= 0
    ensures Plus(m, i, 1)[i] > 0
  {
  }

  /** While nobody writes or frees a block, every routine leaves every block's content alone. */
  lemma {:induction false} QuietRun(s: Sys, log: seq<Step>, s': Sys, dev: int, block: int)
    requires Inv(s) && Reaches(s, log, s') && dev != 0
    requires forall k :: 0 <= k < |log| ==> !Writes(log[k])
    ensures Content(s', dev, block) == Content(s, dev, block)
    decreases |log|
  {
    if log != [] {
      StepAgrees(s, log[0], (d, b) => Content(s, d, b));
      QuietRun(Apply(s, log[0]), log[1..], s', dev, block);
    }
  }
}
