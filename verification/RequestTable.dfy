/** The request array and the per-device request lists of kernel/blk_drv/ll_rw_blk.c, in place. */
module RequestTable {
  import opened Elevator
  import opened CacheState
  import opened Links

  const NR_REQUEST := 32
  const WRITE_SLOTS := 21   // NR_REQUEST * 2 / 3

  /** What a request slot says; dev is -1 when the slot is free. */
  datatype Slot = Slot(dev: int, cmd: int, sector: int, bh: int) {
    function Req(): Req {
      CacheState.Req.Req(cmd, dev, sector, bh)
    }
  }

  predicate LinkAt(next: seq<int>, list: seq<int>, k: int)
    requires 0 <= k < |list| && Indices(list, |next|)
  {
    next[list[k]] == At(list, k + 1)
  }

  /** list, from head, is the list linked by the next fields. */
  ghost predicate Linked(next: seq<int>, list: seq<int>, head: int) {
    Indices(list, |next|) && head == At(list, 0) && forall k :: 0 <= k < |list| ==> LinkAt(next, list, k)
  }

  /** Slot i is at position k of list m. */
  predicate OnList(lists: seq<seq<int>>, i: int, m: int, k: int) {
    0 <= m < |lists| && 0 <= k < |lists[m]| && lists[m][k] == i
  }

  /** No slot is on two lists, or twice on one. */
  ghost predicate Once(lists: seq<seq<int>>) {
    forall i, m, k, n, l :: OnList(lists, i, m, k) && OnList(lists, i, n, l) ==> m == n && k == l
  }

  ghost predicate Somewhere(lists: seq<seq<int>>, i: int) {
    exists m, k :: OnList(lists, i, m, k)
  }

  /** Slot conservation: each slot is either free or on exactly one list, exactly once. */
  ghost predicate Conserved(slots: seq<Slot>, lists: seq<seq<int>>) {
    && Once(lists)
    && (forall m :: 0 <= m < |lists| ==> Indices(lists[m], |slots|))
    && (forall i :: 0 <= i < |slots| ==> (slots[i].dev >= 0 <==> Somewhere(lists, i)))
  }

  /** Writes never use the last third of the slots. */
  ghost predicate Reserved(slots: seq<Slot>) {
    forall i :: WRITE_SLOTS <= i < |slots| && slots[i].dev >= 0 ==> slots[i].cmd != WRITE
  }

  ghost predicate AllLinked(next: seq<int>, current: seq<int>, lists: seq<seq<int>>) {
    |current| == |lists| == NR_BLK_DEV && forall m :: 0 <= m < NR_BLK_DEV ==> Linked(next, lists[m], current[m])
  }

  ghost function Reqs(slots: seq<Slot>, list: seq<int>): (q: seq<Req>)
    requires Indices(list, |slots|)
    ensures |q| == |list| && forall k :: 0 <= k < |list| ==> q[k] == slots[list[k]].Req()
  {
    seq(|list|, k requires 0 <= k < |list| => slots[list[k]].Req())
  }

  function Inserted(list: seq<int>, p: int, i: int): seq<int>
    requires -1 <= p < |list|
  {
    list[..p + 1] + [i] + list[p + 1..]
  }

  // ---------------------------------------------------------------- linking and unlinking

  lemma LinkedFrame(next: seq<int>, next': seq<int>, list: seq<int>, head: int)
    requires Linked(next, list, head) && |next'| == |next|
    requires forall k :: 0 <= k < |list| ==> next'[list[k]] == next[list[k]]
    ensures Linked(next', list, head)
  {
    forall k | 0 <= k < |list| ensures LinkAt(next', list, k) {
      assert LinkAt(next, list, k);
    }
  }

  /** req->next = tmp->next; tmp->next = req, for tmp at position p; or the first request of an empty list. */
  lemma InsertLinked(next: seq<int>, list: seq<int>, head: int, p: int, i: int)
    requires Linked(next, list, head) && -1 <= p < |list| && (p == -1 ==> list == []) && 0 <= i < |next|
    requires forall k, l :: 0 <= k < |list| && 0 <= l < |list| && list[k] == list[l] ==> k == l
    requires forall k :: 0 <= k < |list| ==> list[k] != i
    ensures Linked(if p == -1 then next[i := NULL] else next[i := next[list[p]]][list[p] := i],
                   Inserted(list, p, i), if p == -1 then i else head)
  {
    var next' := if p == -1 then next[i := NULL] else next[i := next[list[p]]][list[p] := i];
    var list' := Inserted(list, p, i);
    assert p >= 0 ==> LinkAt(next, list, p);
    forall k | 0 <= k < |list'| ensures LinkAt(next', list', k) {
      if k != p + 1 {
        assert LinkAt(next, list, if k <= p then k else k - 1);
      }
    }
  }

  lemma InsertOnce(lists: seq<seq<int>>, m: int, p: int, i: int)
    requires Once(lists) && 0 <= m < |lists| && -1 <= p < |lists[m]| && !Somewhere(lists, i)
    ensures Once(lists[m := Inserted(lists[m], p, i)])
    ensures forall j :: Somewhere(lists[m := Inserted(lists[m], p, i)], j) <==> j == i || Somewhere(lists, j)
  {
    var lists' := lists[m := Inserted(lists[m], p, i)];
    forall j, n, k | OnList(lists', j, n, k)
      ensures if n == m && k == p + 1 then j == i else OnList(lists, j, n, if n == m && k > p then k - 1 else k)
    {
    }
    forall j, n, k | OnList(lists, j, n, k) ensures OnList(lists', j, n, if n == m && k > p then k + 1 else k) {
    }
    assert OnList(lists', i, m, p + 1);
  }

  lemma InsertAllLinked(next: seq<int>, current: seq<int>, lists: seq<seq<int>>, m: int, p: int, i: int)
    requires AllLinked(next, current, lists) && Once(lists) && !Somewhere(lists, i) && 0 <= i < |next|
    requires 0 <= m < NR_BLK_DEV && -1 <= p < |lists[m]| && (p == -1 ==> lists[m] == [])
    ensures AllLinked(if p == -1 then next[i := NULL] else next[i := next[lists[m][p]]][lists[m][p] := i],
                      if p == -1 then current[m := i] else current, lists[m := Inserted(lists[m], p, i)])
  {
    var next' := if p == -1 then next[i := NULL] else next[i := next[lists[m][p]]][lists[m][p] := i];
    forall n, k | 0 <= n < NR_BLK_DEV && 0 <= k < |lists[n]| ensures lists[n][k] != i {
      assert OnList(lists, lists[n][k], n, k);
    }
    forall k, l | 0 <= k < |lists[m]| && 0 <= l < |lists[m]| && lists[m][k] == lists[m][l] ensures k == l {
      assert OnList(lists, lists[m][k], m, k) && OnList(lists, lists[m][k], m, l);
    }
    InsertLinked(next, lists[m], current[m], p, i);
    forall n | 0 <= n < NR_BLK_DEV && n != m ensures Linked(next', lists[n], current[n]) {
      forall k | 0 <= k < |lists[n]| ensures next'[lists[n][k]] == next[lists[n][k]] {
        assert OnList(lists, lists[n][k], n, k);
        assert p >= 0 ==> OnList(lists, lists[m][p], m, p);
      }
      LinkedFrame(next, next', lists[n], current[n]);
    }
  }

  lemma RemoveOnce(lists: seq<seq<int>>, m: int)
    requires Once(lists) && 0 <= m < |lists| && lists[m] != []
    ensures Once(lists[m := lists[m][1..]])
    ensures forall j :: Somewhere(lists[m := lists[m][1..]], j) <==> j != lists[m][0] && Somewhere(lists, j)
  {
    var lists' := lists[m := lists[m][1..]];
    assert OnList(lists, lists[m][0], m, 0);
    forall j, n, k | OnList(lists', j, n, k)
      ensures OnList(lists, j, n, if n == m then k + 1 else k) && j != lists[m][0]
    {
      assert OnList(lists, j, n, if n == m then k + 1 else k);
    }
    forall j | Somewhere(lists', j) ensures j != lists[m][0] && Somewhere(lists, j) {
      var n, k :| OnList(lists', j, n, k);
      assert OnList(lists, j, n, if n == m then k + 1 else k);
    }
    forall j | j != lists[m][0] && Somewhere(lists, j) ensures Somewhere(lists', j) {
      var n, k :| OnList(lists, j, n, k);
      assert OnList(lists', j, n, if n == m then k - 1 else k);
    }
  }

  lemma RemoveLinked(next: seq<int>, list: seq<int>, head: int)
    requires Linked(next, list, head) && list != []
    ensures 0 <= head < |next| && Linked(next, list[1..], next[head])
  {
    assert LinkAt(next, list, 0);
    forall k | 0 <= k < |list[1..]| ensures LinkAt(next, list[1..], k) {
      assert LinkAt(next, list, k + 1);
    }
  }

  /** Filling free slot i and putting it on list m behind position p. */
  lemma FilledConserved(slots: seq<Slot>, slots': seq<Slot>, lists: seq<seq<int>>, m: int, p: int, i: int)
    requires Conserved(slots, lists) && 0 <= i < |slots| && slots[i].dev < 0
    requires |slots'| == |slots| && slots' == slots[i := slots'[i]] && slots'[i].dev >= 0
    requires 0 <= m < |lists| && -1 <= p < |lists[m]|
    ensures !Somewhere(lists, i) && forall n, k :: 0 <= n < |lists| && 0 <= k < |lists[n]| ==> lists[n][k] != i
    ensures Conserved(slots', lists[m := Inserted(lists[m], p, i)])
    ensures Reqs(slots', Inserted(lists[m], p, i)) ==
              Reqs(slots, lists[m])[..p + 1] + [slots'[i].Req()] + Reqs(slots, lists[m])[p + 1..]
    ensures forall n :: 0 <= n < |lists| && n != m ==> Reqs(slots', lists[n]) == Reqs(slots, lists[n])
  {
    InsertOnce(lists, m, p, i);
    forall n, k | 0 <= n < |lists| && 0 <= k < |lists[n]| ensures lists[n][k] != i {
      assert OnList(lists, lists[n][k], n, k);
    }
  }

  /** Freeing the first slot of list m. */
  lemma FreedConserved(slots: seq<Slot>, slots': seq<Slot>, lists: seq<seq<int>>, m: int)
    requires Conserved(slots, lists) && 0 <= m < |lists| && lists[m] != []
    requires Indices(lists[m], |slots'|) && slots' == slots[lists[m][0] := slots'[lists[m][0]]]
    requires slots'[lists[m][0]].dev < 0
    ensures Conserved(slots', lists[m := lists[m][1..]])
    ensures Reqs(slots', lists[m][1..]) == Reqs(slots, lists[m])[1..]
    ensures forall n :: 0 <= n < |lists| && n != m ==> Reqs(slots', lists[n]) == Reqs(slots, lists[n])
  {
    var i := lists[m][0];
    RemoveOnce(lists, m);
    assert OnList(lists, i, m, 0);
    forall n, k | 0 <= n < |lists| && 0 <= k < |lists[n]| && (n, k) != (m, 0) ensures lists[n][k] != i {
      assert OnList(lists, lists[n][k], n, k);
    }
  }

  // ---------------------------------------------------------------- the table

  class Requests {
    const slots: array<Slot>
    const next: array<int>
    const current: array<int>
    ghost var lists: seq<seq<int>>

    ghost predicate Valid()
      reads this, slots, next, current
    {
      && next != current && slots.Length == next.Length == NR_REQUEST && current.Length == NR_BLK_DEV
      && AllLinked(next[..], current[..], lists) && Conserved(slots[..], lists) && Reserved(slots[..])
    }

    /** The queue of device m as the state machine sees it. */
    ghost function Queue(m: int): seq<Req>
      reads this, slots, next, current
      requires Valid() && 0 <= m < NR_BLK_DEV
    {
      Reqs(slots[..], lists[m])
    }

    ghost function Queues(): (q: seq<seq<Req>>)
      reads this, slots, next, current
      requires Valid()
      ensures |q| == NR_BLK_DEV && forall m :: 0 <= m < NR_BLK_DEV ==> q[m] == Queue(m)
    {
      seq(NR_BLK_DEV, m requires 0 <= m < NR_BLK_DEV reads this, slots, next, current requires Valid() => Queue(m))
    }

    /** blk_dev_init: every slot free, every list empty. */
    constructor ()
      ensures Valid() && fresh(slots) && fresh(next) && fresh(current)
      ensures Queues() == seq(NR_BLK_DEV, _ => [])
    {
      slots := new Slot[NR_REQUEST](_ => Slot(-1, 0, 0, 0));
      next := new int[NR_REQUEST](_ => NULL);
      current := new int[NR_BLK_DEV](_ => NULL);
      lists := seq(NR_BLK_DEV, _ => []);
    }

    /** The slot search of make_request, downwards from the end of the range the command may use; NULL if none is
        free. */
    method FindSlot(cmd: int) returns (i: int)
      requires Valid()
      ensures i == NULL || (0 <= i < (if cmd == READ then NR_REQUEST else WRITE_SLOTS) && slots[i].dev < 0)
      ensures forall j :: i < j < (if cmd == READ then NR_REQUEST else WRITE_SLOTS) ==> slots[j].dev >= 0
    {
      i := if cmd == READ then NR_REQUEST else WRITE_SLOTS;
      i := i - 1;
      while i >= 0 && slots[i].dev >= 0
        invariant -1 <= i < (if cmd == READ then NR_REQUEST else WRITE_SLOTS)
        invariant forall j :: i < j < (if cmd == READ then NR_REQUEST else WRITE_SLOTS) ==> slots[j].dev >= 0
      {
        i := i - 1;
      }
    }

    /** The end of make_request and add_request: fill slot i and link it into the queue of device m. */
    method AddRequest(m: int, i: int, r: Req)
      requires Valid() && 0 <= m < NR_BLK_DEV && 0 <= i < NR_REQUEST && slots[i].dev < 0
      requires r.dev >= 0 && (r.cmd == WRITE ==> i < WRITE_SLOTS)
      modifies this, slots, next, current
      ensures Valid() && Queues() == old(Queues())[m := InsertReq(old(Queues())[m], r)]
    {
      ghost var q, nx, cur, ls, sl := Queue(m), next[..], current[..], lists, slots[..];
      hide InOrder, InsertAfter, Reserved;
      slots[i] := Slot(r.dev, r.cmd, r.sector, r.bh);
      ghost var p := -1;
      FilledConserved(sl, slots[..], ls, m, p, i);
      next[i] := NULL;
      var tmp := current[m];
      if tmp == NULL {
        current[m] := i;
        assert next[..] == nx[i := NULL] && current[..] == cur[m := i];
      } else {
        tmp, p := FindPlace(m, i, r, q, nx);
        next[i] := next[tmp];
        next[tmp] := i;
        assert next[..] == nx[i := nx[ls[m][p]]][ls[m][p] := i] && current[..] == cur;
        FilledConserved(sl, slots[..], ls, m, p, i);
      }
      InsertAllLinked(nx, cur, ls, m, p, i);
      lists := lists[m := Inserted(lists[m], p, i)];
      assert Queue(m) == InsertReq(q, r);
    }

    /** The loop of add_request: tmp is the slot behind which r belongs, p its place in the list. */
    method FindPlace(m: int, i: int, r: Req, ghost q: seq<Req>, ghost nx: seq<int>) returns (tmp: int, ghost p: int)
      requires 0 <= m < NR_BLK_DEV == current.Length == |lists| && slots.Length == next.Length == |nx|
      requires 0 <= i < |nx| && next[..] == nx[i := NULL] && Linked(nx, lists[m], current[m]) && current[m] != NULL
      requires forall k :: 0 <= k < |lists[m]| ==> lists[m][k] != i
      requires |q| == |lists[m]| && forall k :: 0 <= k < |q| ==> slots[lists[m][k]].Req() == q[k]
      ensures 0 <= p < |q| && tmp == lists[m][p] && p == InsertAfter(Keys(q), r.Key(), 0)
    {
      tmp, p := current[m], 0;
      assert LinkAt(nx, lists[m], 0);
      while next[tmp] != NULL
        && !((InOrder(slots[tmp].Req().Key(), r.Key())
              || !InOrder(slots[tmp].Req().Key(), slots[next[tmp]].Req().Key()))
             && InOrder(r.Key(), slots[next[tmp]].Req().Key()))
        invariant 0 <= p < |q| && tmp == lists[m][p] && LinkAt(nx, lists[m], p)
        invariant InsertAfter(Keys(q), r.Key(), p) == InsertAfter(Keys(q), r.Key(), 0)
        decreases |q| - p
      {
        tmp, p := next[tmp], p + 1;
        assert LinkAt(nx, lists[m], p);
      }
    }

    /** end_request on device m, but for the buffer: the current request is freed, the next one becomes current. */
    method EndRequest(m: int) returns (r: Req)
      requires Valid() && 0 <= m < NR_BLK_DEV && Queues()[m] != []
      modifies this, slots, current
      ensures Valid() && r == old(Queues())[m][0] && Queues() == old(Queues())[m := old(Queues())[m][1..]]
    {
      ghost var sl, ls := slots[..], lists;
      var i := current[m];
      r := slots[i].Req();
      slots[i] := slots[i].(dev := -1);
      FreedConserved(sl, slots[..], ls, m);
      RemoveLinked(next[..], lists[m], i);
      current[m] := next[i];
      lists := lists[m := lists[m][1..]];
    }

    /** Whether device m has a request to finish. */
    method Busy(m: int) returns (busy: bool)
      requires Valid() && 0 <= m < NR_BLK_DEV
      ensures busy <==> Queues()[m] != []
    {
      busy := current[m] != NULL;
    }
  }
}
