/** The order of a device's request queue: IN_ORDER of kernel/blk_drv/blk.h, the insertion loop of
    add_request and the removal in end_request, on the sequence of request keys. */
module Elevator {
  /** What IN_ORDER compares: the command (READ 0, WRITE 1), the device, the first sector. */
  datatype Key = Key(cmd: int, dev: int, sector: int)

  predicate InOrder(a: Key, b: Key) {
    a.cmd < b.cmd || (a.cmd == b.cmd && (a.dev < b.dev || (a.dev == b.dev && a.sector < b.sector)))
  }

  /** The index after which add_request links r, searching from i; the head keeps its place. */
  function InsertAfter(q: seq<Key>, r: Key, i: nat): (p: nat)
    requires i < |q|
    ensures i <= p < |q|
    decreases |q| - i
  {
    if i + 1 == |q| then i
    else if (InOrder(q[i], r) || !InOrder(q[i], q[i + 1])) && InOrder(r, q[i + 1]) then i
    else InsertAfter(q, r, i + 1)
  }

  function Add(q: seq<Key>, r: Key): seq<Key> {
    if q == [] then [r]
    else
      var p := InsertAfter(q, r, 0);
      q[..p + 1] + [r] + q[p + 1..]
  }

  predicate Distinct(q: seq<Key>) {
    forall i, j :: 0 <= i < j < |q| ==> q[i] != q[j]
  }

  /** The queue turns back at i. */
  predicate Descent(q: seq<Key>, i: int)
    requires 0 <= i < |q| - 1
  {
    !InOrder(q[i], q[i + 1])
  }

  predicate OneDescent(q: seq<Key>) {
    forall i, j :: 0 <= i < |q| - 1 && 0 <= j < |q| - 1 && Descent(q, i) && Descent(q, j) ==> i == j
  }

  /** The loop of add_request stops at the first place that passes its test, or at the end. */
  lemma {:induction false} InsertAfterFirst(q: seq<Key>, r: Key, i: nat)
    requires i < |q|
    ensures var p := InsertAfter(q, r, i);
      && (p + 1 < |q| ==> (InOrder(q[p], r) || Descent(q, p)) && InOrder(r, q[p + 1]))
      && (forall j :: i <= j < p ==> !((InOrder(q[j], r) || Descent(q, j)) && InOrder(r, q[j + 1])))
    decreases |q| - i
  {
    if i + 1 < |q| && !((InOrder(q[i], r) || !InOrder(q[i], q[i + 1])) && InOrder(r, q[i + 1])) {
      InsertAfterFirst(q, r, i + 1);
    }
  }

  /** On an ascending stretch whose ends enclose r there is a place for r. */
  lemma {:induction false} Crossing(q: seq<Key>, r: Key, i: nat, j: nat) returns (k: nat)
    requires i < j < |q| && InOrder(q[i], r) && InOrder(r, q[j])
    requires forall m :: i < m <= j ==> q[m] != r
    ensures i <= k < j && InOrder(q[k], r) && InOrder(r, q[k + 1])
    decreases j - i
  {
    if InOrder(r, q[i + 1]) {
      k := i;
    } else {
      k := Crossing(q, r, i + 1, j);
    }
  }

  /** With distinct keys, a request that goes to the end either continues the last run or opens a second one. */
  lemma AddAtEnd(q: seq<Key>, r: Key)
    requires q != [] && OneDescent(q) && r !in q && InsertAfter(q, r, 0) == |q| - 1
    ensures InOrder(q[|q| - 1], r) || forall i :: 0 <= i < |q| - 1 ==> !Descent(q, i)
  {
    InsertAfterFirst(q, r, 0);
    var last := |q| - 1;
    if !InOrder(q[last], r) {
      forall i | 0 <= i < last ensures !Descent(q, i) {
        if Descent(q, i) {
          assert InOrder(q[i + 1], r);
          var k := Crossing(q, r, i + 1, last);
        }
      }
    }
  }

  /** Where a descent of the new queue comes from: the pairs around r stand for the old pair (p, p + 1). */
  lemma DescentAfterAdd(q: seq<Key>, r: Key, i: int)
    requires q != [] && 0 <= i < |q| && Descent(Add(q, r), i)
    ensures var p := InsertAfter(q, r, 0);
      && i != p + 1
      && (i < p ==> Descent(q, i))
      && (i > p ==> i - 1 > p && Descent(q, i - 1))
      && (i == p && p + 1 < |q| ==> Descent(q, p))
  {
    InsertAfterFirst(q, r, 0);
  }

  lemma AddContents(q: seq<Key>, r: Key)
    requires q != []
    ensures |Add(q, r)| == |q| + 1 && Add(q, r)[0] == q[0]
    ensures multiset(Add(q, r)) == multiset(q) + multiset{r}
  {
    var p := InsertAfter(q, r, 0);
    assert q == q[..p + 1] + q[p + 1..];
  }

  lemma AddDistinct(q: seq<Key>, r: Key)
    requires Distinct(q) && r !in q
    ensures Distinct(Add(q, r))
  {
  }

  /** At most one descent survives add_request, given that the new key is not queued. */
  lemma AddKeepsOneDescent(q: seq<Key>, r: Key)
    requires OneDescent(q) && Distinct(q) && r !in q
    ensures OneDescent(Add(q, r)) && Distinct(Add(q, r))
  {
    if q != [] {
      AddContents(q, r);
      AddDistinct(q, r);
      var p := InsertAfter(q, r, 0);
      var q' := Add(q, r);
      if p == |q| - 1 {
        AddAtEnd(q, r);
      }
      forall i, j | 0 <= i < |q'| - 1 && 0 <= j < |q'| - 1 && Descent(q', i) && Descent(q', j) ensures i == j {
        DescentAfterAdd(q, r, i);
        DescentAfterAdd(q, r, j);
        assert p == |q| - 1 ==> q'[p] == q[p] && q'[p + 1] == r;
      }
    }
  }

  lemma DoneKeepsOneDescent(q: seq<Key>)
    requires OneDescent(q) && Distinct(q) && q != []
    ensures OneDescent(q[1..]) && Distinct(q[1..])
  {
    forall i | 0 <= i < |q[1..]| - 1 && Descent(q[1..], i) ensures Descent(q, i + 1) {
    }
  }

  /** Distinct keys are needed, even if equal neighbours are not held against the order: here the queue
      turns back once before the insertion and twice after it. */
  lemma RepeatedKeyBreaksOrder()
    ensures var q := [Key(0, 3, 5), Key(0, 3, 5), Key(0, 3, 9), Key(0, 3, 1)];
      var q' := Add(q, Key(0, 3, 3));
      && (forall i :: 0 <= i < |q| - 1 && InOrder(q[i + 1], q[i]) ==> i == 2)
      && |q'| == 5 && InOrder(q'[1], q'[0]) && InOrder(q'[4], q'[3])
  {
    var q := [Key(0, 3, 5), Key(0, 3, 5), Key(0, 3, 9), Key(0, 3, 1)];
    var r := Key(0, 3, 3);
    assert InsertAfter(q, r, 0) == 0;
    assert Add(q, r) == [Key(0, 3, 5), Key(0, 3, 3), Key(0, 3, 5), Key(0, 3, 9), Key(0, 3, 1)];
  }

  // ---------------------------------------------------------------- starvation bound

  /** Last index of the first ascending run, from i on. */
  function RunEnd(q: seq<Key>, i: nat): (e: nat)
    requires i < |q|
    ensures i <= e < |q|
    ensures forall j :: i <= j < e ==> !Descent(q, j)
    ensures e + 1 < |q| ==> Descent(q, e)
    decreases |q| - i
  {
    if i + 1 < |q| && InOrder(q[i], q[i + 1]) then RunEnd(q, i + 1) else i
  }

  /** Keys u with lo <= u < hi. */
  function Between(all: set<Key>, lo: Key, hi: Key): set<Key> {
    set u | u in all && !InOrder(u, lo) && InOrder(u, hi)
  }

  /** Keys u with lo <= u <= hi. */
  function UpTo(all: set<Key>, lo: Key, hi: Key): set<Key> {
    set u | u in all && !InOrder(u, lo) && !InOrder(hi, u)
  }

  function Below(all: set<Key>, hi: Key): set<Key> {
    set u | u in all && InOrder(u, hi)
  }

  /** How many requests can still be served before the one at index k: those between the head and it in the
      first run; or the rest of the first run, whose last key no insertion can raise any more, and then those
      below it. */
  function Waiting(q: seq<Key>, k: nat, all: set<Key>): nat
    requires k < |q|
  {
    var e := RunEnd(q, 0);
    if k <= e then |Between(all, q[0], q[k])|
    else |UpTo(all, q[0], q[e])| + |Below(all, q[k])|
  }

  ghost predicate Queued(q: seq<Key>, all: set<Key>) {
    OneDescent(q) && Distinct(q) && forall i :: 0 <= i < |q| ==> q[i] in all
  }

  lemma SubsetSize(a: set<Key>, b: set<Key>)
    requires a <= b
    ensures |a| <= |b|
    ensures a != b ==> |a| < |b|
  {
    var rest := b - a;
    assert b == a + rest;
    assert a != b ==> rest != {};
  }

  lemma WaitingBound(q: seq<Key>, k: nat, all: set<Key>)
    requires k < |q| && Queued(q, all)
    ensures Waiting(q, k, all) < 2 * |all|
  {
    var e := RunEnd(q, 0);
    assert q[k] in all;
    if k <= e {
      assert q[k] !in Between(all, q[0], q[k]);
      SubsetSize(Between(all, q[0], q[k]), all);
    } else {
      SubsetSize(UpTo(all, q[0], q[e]), all);
      assert q[k] !in Below(all, q[k]);
      SubsetSize(Below(all, q[k]), all);
    }
  }

  lemma {:induction false} Ascending(q: seq<Key>, i: nat, j: nat)
    requires i < j < |q| && forall m :: i <= m < j ==> !Descent(q, m)
    ensures InOrder(q[i], q[j])
    decreases j - i
  {
    assert !Descent(q, i);
    if i + 1 < j {
      Ascending(q, i + 1, j);
    }
  }

  lemma {:induction false} RunEndIs(q: seq<Key>, i: nat, e: nat)
    requires i <= e < |q| && forall m :: i <= m < e ==> !Descent(q, m)
    requires e + 1 < |q| ==> Descent(q, e)
    ensures RunEnd(q, i) == e
    decreases e - i
  {
    if i < e {
      RunEndIs(q, i + 1, e);
    }
  }

  /** Serving the head brings every other request nearer. */
  lemma DoneServes(q: seq<Key>, k: nat, all: set<Key>)
    requires 0 < k < |q| && Queued(q, all)
    ensures Waiting(q[1..], k - 1, all) < Waiting(q, k, all)
  {
    var e := RunEnd(q, 0);
    var t := q[1..];
    assert q[0] in all && q[k] in all && t[0] == q[1] && t[k - 1] == q[k];
    if e >= 1 {
      forall m | 0 <= m < |t| - 1 ensures Descent(t, m) == Descent(q, m + 1) {
      }
      RunEndIs(t, 0, e - 1);
      assert t[e - 1] == q[e];
      if k <= e {
        Ascending(q, 0, k);
        assert q[0] in Between(all, q[0], q[k]) && q[0] !in Between(all, q[1], q[k]);
        SubsetSize(Between(all, q[1], q[k]), Between(all, q[0], q[k]));
      } else {
        Ascending(q, 0, e);
        assert q[0] in UpTo(all, q[0], q[e]) && q[0] !in UpTo(all, q[1], q[e]);
        SubsetSize(UpTo(all, q[1], q[e]), UpTo(all, q[0], q[e]));
      }
    } else {
      forall m | 0 <= m < |t| - 1 ensures !Descent(t, m) {
        assert Descent(q, 0) && (Descent(t, m) ==> Descent(q, m + 1));
      }
      RunEndIs(t, 0, |t| - 1);
      assert q[0] in UpTo(all, q[0], q[0]);
      SubsetSize(Between(all, t[0], q[k]), Below(all, q[k]));
    }
  }

  /** The index in Add(q, r) of the request at index k of q. */
  function Moved(q: seq<Key>, r: Key, k: nat): nat
    requires k < |q|
  {
    if k <= InsertAfter(q, r, 0) then k else k + 1
  }

  /** q' is q with r behind position p. */
  predicate PlacedBehind(q: seq<Key>, q': seq<Key>, r: Key, p: nat) {
    && p < |q| && |q'| == |q| + 1 && q'[p + 1] == r
    && (forall j :: 0 <= j <= p ==> q'[j] == q[j])
    && (forall j :: p + 1 < j < |q'| ==> q'[j] == q[j - 1])
  }

  lemma AddPlaces(q: seq<Key>, r: Key)
    requires q != []
    ensures var p := InsertAfter(q, r, 0);
      && PlacedBehind(q, Add(q, r), r, p)
      && (p + 1 < |q| ==> (InOrder(q[p], r) || Descent(q, p)) && InOrder(r, q[p + 1]))
  {
    InsertAfterFirst(q, r, 0);
    hide InOrder, InsertAfter;
  }

  /** Away from p the descents are where they were. */
  lemma InsertedDescent(q: seq<Key>, q': seq<Key>, r: Key, p: nat, m: nat)
    requires PlacedBehind(q, q', r, p) && m + 1 < |q'| && m != p && m != p + 1
    ensures Descent(q', m) == Descent(q, if m < p then m else m - 1)
  {
    hide InOrder;
    if m < p {
      assert q'[m] == q[m] && q'[m + 1] == q[m + 1];
    } else {
      assert q'[m] == q[m - 1] && q'[m + 1] == q[m];
    }
  }

  /** The run that r joins grows by one; otherwise the first run ends where it did. */
  lemma NewRunEnd(q: seq<Key>, q': seq<Key>, r: Key, p: nat)
    requires PlacedBehind(q, q', r, p)
    requires p + 1 < |q| ==> (InOrder(q[p], r) || Descent(q, p)) && InOrder(r, q[p + 1])
    requires p == RunEnd(q, 0) && p + 1 < |q| ==> !InOrder(q[p], r)
    ensures var e := RunEnd(q, 0);
      RunEnd(q', 0) == if p < e || (p == e && InOrder(q[e], r)) then e + 1 else e
  {
    hide InOrder, RunEnd;
    var e := RunEnd(q, 0);
    var e' := if p < e || (p == e && InOrder(q[e], r)) then e + 1 else e;
    assert q'[p] == q[p] && q'[p + 1] == r && (p + 1 < |q| ==> q'[p + 2] == q[p + 1]);
    forall m | 0 <= m < e' ensures !Descent(q', m) {
      if m != p && m != p + 1 {
        InsertedDescent(q, q', r, p, m);
      } else if p < e {
        assert !Descent(q, p);
      }
    }
    if e' + 1 < |q'| && e' != p && e' != p + 1 {
      InsertedDescent(q, q', r, p, e');
    }
    RunEndIs(q', 0, e');
  }

  /** Adding a request leaves every other one in its run, and never raises the end of a run that has a successor. */
  lemma AddRunEnd(q: seq<Key>, r: Key, k: nat)
    requires k < |q| && OneDescent(q) && Distinct(q) && r !in q
    ensures Moved(q, r, k) < |Add(q, r)| && Add(q, r)[Moved(q, r, k)] == q[k] && Add(q, r)[0] == q[0]
    ensures var e, e' := RunEnd(q, 0), RunEnd(Add(q, r), 0);
      if k <= e then Moved(q, r, k) <= e' else Moved(q, r, k) > e' && Add(q, r)[e'] == q[e]
  {
    hide RunEnd, InOrder, InsertAfter;
    var p, e := InsertAfter(q, r, 0), RunEnd(q, 0);
    AddPlaces(q, r);
    hide Add;
    if p == e && e + 1 < |q| {
      AfterDescent(q, r);
    }
    NewRunEnd(q, Add(q, r), r, p);
  }

  /** A request that lands in front of the second run is below the end of the first. */
  lemma AfterDescent(q: seq<Key>, r: Key)
    requires q != [] && Distinct(q) && InsertAfter(q, r, 0) == RunEnd(q, 0) < |q| - 1
    ensures !InOrder(q[RunEnd(q, 0)], r)
  {
    InsertAfterFirst(q, r, 0);
    var e := RunEnd(q, 0);
    assert q[e] != q[e + 1];
  }

  /** An insertion makes nobody wait longer. */
  lemma AddWaits(q: seq<Key>, r: Key, k: nat, all: set<Key>)
    requires k < |q| && Queued(q, all) && r !in q
    ensures Moved(q, r, k) < |Add(q, r)| && Add(q, r)[Moved(q, r, k)] == q[k]
    ensures Waiting(Add(q, r), Moved(q, r, k), all) == Waiting(q, k, all)
  {
    AddRunEnd(q, r, k);
  }

  // ---------------------------------------------------------------- runs

  datatype Event = Enter(r: Key) | Finish

  /** Keys come from all, a key is not queued twice, and only a queue with a head finishes a request. */
  ghost predicate Legal(q: seq<Key>, es: seq<Event>, all: set<Key>)
    decreases |es|
  {
    es == [] ||
    (match es[0]
     case Enter(r) => r in all && r !in q && Legal(Add(q, r), es[1..], all)
     case Finish => q != [] && Legal(q[1..], es[1..], all))
  }

  ghost predicate Served(q: seq<Key>, x: Key, es: seq<Event>, all: set<Key>)
    requires Legal(q, es, all)
    decreases |es|
  {
    es != [] &&
    (match es[0]
     case Enter(r) => Served(Add(q, r), x, es[1..], all)
     case Finish => q[0] == x || Served(q[1..], x, es[1..], all))
  }

  function Finishes(es: seq<Event>): nat {
    if es == [] then 0 else (if es[0].Finish? then 1 else 0) + Finishes(es[1..])
  }

  lemma AddQueued(q: seq<Key>, r: Key, all: set<Key>)
    requires Queued(q, all) && r in all && r !in q
    ensures Queued(Add(q, r), all)
  {
    AddKeepsOneDescent(q, r);
  }

  lemma {:induction false} ServedWithinWaiting(q: seq<Key>, k: nat, es: seq<Event>, all: set<Key>)
    requires k < |q| && Queued(q, all) && Legal(q, es, all) && Finishes(es) > Waiting(q, k, all)
    ensures Served(q, q[k], es, all)
    decreases |es|
  {
    match es[0] {
      case Enter(r) =>
        AddQueued(q, r, all);
        AddWaits(q, r, k, all);
        ServedWithinWaiting(Add(q, r), Moved(q, r, k), es[1..], all);
      case Finish =>
        if k > 0 {
          DoneKeepsOneDescent(q);
          DoneServes(q, k, all);
          ServedWithinWaiting(q[1..], k - 1, es[1..], all);
        }
    }
  }

  /** The elevator does not starve: with N possible keys, a queued request is served within 2N completions,
      whatever is added meanwhile. */
  lemma NoStarvation(q: seq<Key>, k: nat, es: seq<Event>, all: set<Key>)
    requires k < |q| && Queued(q, all) && Legal(q, es, all) && Finishes(es) >= 2 * |all|
    ensures Served(q, q[k], es, all)
  {
    WaitingBound(q, k, all);
    ServedWithinWaiting(q, k, es, all);
  }

  // ---------------------------------------------------------------- sweeps

  /** One completion: the key served, how many requests its run still has behind it, and how many the queue has. */
  datatype Service = Service(key: Key, inRun: nat, waiting: nat)

  function ServiceOf(q: seq<Key>): Service
    requires q != []
  {
    Service(q[0], RunEnd(q, 0), |q| - 1)
  }

  /** Everything that the events es serve, in order. */
  ghost function Services(q: seq<Key>, es: seq<Event>, all: set<Key>): seq<Service>
    requires Legal(q, es, all)
    decreases |es|
  {
    if es == [] then []
    else match es[0]
      case Enter(r) => Services(Add(q, r), es[1..], all)
      case Finish => [ServiceOf(q)] + Services(q[1..], es[1..], all)
  }

  /** What enters does not displace the head: the next key served is the one that is the head now. */
  lemma {:induction false} HeadIsServed(q: seq<Key>, es: seq<Event>, all: set<Key>)
    requires q != [] && Legal(q, es, all) && Services(q, es, all) != []
    ensures Services(q, es, all)[0].key == q[0]
    decreases |es|
  {
    if es[0].Enter? {
      AddContents(q, es[0].r);
      HeadIsServed(Add(q, es[0].r), es[1..], all);
    }
  }

  /** Reads (command 0) before writes (command 1), lower devices before higher ones, then rising sectors. */
  predicate Rises(a: Key, b: Key) {
    a.cmd <= b.cmd && (a.cmd == b.cmd ==> a.dev <= b.dev && (a.dev == b.dev ==> a.sector < b.sector))
  }

  /** Within a run the next key is further up; at its end, while requests wait, it is further down. */
  predicate Sweeps(a: Service, b: Service) {
    if a.inRun > 0 then Rises(a.key, b.key) else a.waiting > 0 ==> Rises(b.key, a.key)
  }

  lemma NextInQueue(q: seq<Key>, b: Service)
    requires |q| > 1 && Distinct(q) && b.key == q[1]
    ensures Sweeps(ServiceOf(q), b)
  {
    assert q[0] != q[1];
    assert RunEnd(q, 0) > 0 ==> !Descent(q, 0);
    assert RunEnd(q, 0) == 0 ==> Descent(q, 0);
  }

  /** IN_ORDER is that order, and for different keys it goes one way or the other. */
  lemma InOrderExactly(a: Key, b: Key)
    ensures InOrder(a, b) <==> Rises(a, b)
    ensures a != b ==> (InOrder(a, b) <==> !InOrder(b, a))
  {
  }

  /** The keys served over a run are ascending sweeps. The sweep goes up as long as the run at the head of the queue
      lasts, whatever enters meanwhile, and turns back exactly at its end, if requests are then waiting. */
  lemma {:induction false} ServedInSweeps(q: seq<Key>, es: seq<Event>, all: set<Key>, i: nat)
    requires Queued(q, all) && Legal(q, es, all) && i + 1 < |Services(q, es, all)|
    ensures Sweeps(Services(q, es, all)[i], Services(q, es, all)[i + 1])
    decreases |es|
  {
    match es[0] {
      case Enter(r) =>
        AddQueued(q, r, all);
        ServedInSweeps(Add(q, r), es[1..], all, i);
      case Finish =>
        DoneKeepsOneDescent(q);
        if i > 0 {
          ServedInSweeps(q[1..], es[1..], all, i - 1);
        } else if |q| > 1 {
          HeadIsServed(q[1..], es[1..], all);
          NextInQueue(q, Services(q, es, all)[1]);
        }
    }
  }
}
