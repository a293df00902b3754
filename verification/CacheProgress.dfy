/** The elevator bound for the buffer cache: the requests that the cache queues satisfy what the elevator
    asks for, so no queued buffer waits for more than two rounds of its device. */
module CacheProgress {
  import opened Elevator
  import opened CacheState

  /** What a step does to the queue of device m. */
  ghost function EventOf(s: Sys, st: Step, m: int): (es: seq<Event>)
    requires Inv(s) && Enabled(s, st)
  {
    match st
    case Enqueue(i, who) =>
      if s.bufs[i].dev / 256 == m then [Enter(NewReq(s.bufs[i], i, s.io[i].cmd).Key())] else []
    case Complete(n) => if n == m then [Finish] else []
    case _ => []
  }

  /** The queue of device m sees this step, with keys from all. */
  ghost predicate KeyIn(s: Sys, st: Step, m: int, all: set<Key>)
    requires Inv(s) && Enabled(s, st)
  {
    forall r :: Enter(r) in EventOf(s, st, m) ==> r in all
  }

  ghost function Events(s: Sys, log: seq<Step>, s': Sys, m: int): seq<Event>
    requires Inv(s) && Reaches(s, log, s')
    decreases |log|
  {
    if log == [] then [] else EventOf(s, log[0], m) + Events(Apply(s, log[0]), log[1..], s', m)
  }

  /** Every key that enters the queue of device m during the run is in all. */
  ghost predicate KeysFrom(s: Sys, log: seq<Step>, s': Sys, m: int, all: set<Key>)
    requires Inv(s) && Reaches(s, log, s')
    decreases |log|
  {
    log == [] || (KeyIn(s, log[0], m, all) && KeysFrom(Apply(s, log[0]), log[1..], s', m, all))
  }

  /** In the run, device m completes the request with key x. */
  ghost predicate Completed(s: Sys, log: seq<Step>, s': Sys, m: int, x: Key)
    requires Inv(s) && Reaches(s, log, s') && 0 <= m < NR_BLK_DEV
    decreases |log|
  {
    log != [] &&
    ((log[0] == Complete(m) && s.queues[m][0].Key() == x) || Completed(Apply(s, log[0]), log[1..], s', m, x))
  }

  function Completions(log: seq<Step>, m: int): nat {
    if log == [] then 0 else (if log[0] == Complete(m) then 1 else 0) + Completions(log[1..], m)
  }

  /** One step on the keys of queue m: the elevator's insertion of a new key, its removal, or nothing. */
  lemma EventStep(s: Sys, st: Step, m: int)
    requires Inv(s) && Enabled(s, st) && 0 <= m < NR_BLK_DEV
    ensures Inv(Apply(s, st))
    ensures var q, q', e := Keys(s.queues[m]), Keys(Apply(s, st).queues[m]), EventOf(s, st, m);
      || (e == [] && q' == q)
      || (|e| == 1 && e[0].Enter? && e[0].r !in q && q' == Add(q, e[0].r))
      || (e == [Finish] && q != [] && q' == q[1..])
  {
    StepKeepsInv(s, st);
    if st.Enqueue? && s.bufs[st.i].dev / 256 == m {
      NewKeyFresh(s, st.i, m, s.io[st.i].cmd);
      InsertReqKeys(s.queues[m], NewReq(s.bufs[st.i], st.i, s.io[st.i].cmd));
    } else if st == Complete(m) {
      assert Keys(s.queues[m][1..]) == Keys(s.queues[m])[1..];
    }
  }

  /** A run of the cache is a legal run of the elevator; what the elevator serves, the device completes. */
  lemma {:induction false} CacheRunLegal(s: Sys, log: seq<Step>, s': Sys, m: int, all: set<Key>)
    requires Inv(s) && Reaches(s, log, s') && 0 <= m < NR_BLK_DEV && KeysFrom(s, log, s', m, all)
    ensures Legal(Keys(s.queues[m]), Events(s, log, s', m), all)
    ensures Finishes(Events(s, log, s', m)) == Completions(log, m)
    ensures forall x :: Served(Keys(s.queues[m]), x, Events(s, log, s', m), all) ==> Completed(s, log, s', m, x)
    decreases |log|
  {
    if log != [] {
      var st := log[0];
      EventStep(s, st, m);
      CacheRunLegal(Apply(s, st), log[1..], s', m, all);
      hide Apply, Enabled, Inv, Shape, Reaches;
      var e, rest := EventOf(s, st, m), Events(Apply(s, st), log[1..], s', m);
      assert Events(s, log, s', m) == e + rest;
      if e == [] {
        assert e + rest == rest;
      } else {
        assert (e + rest)[0] == e[0] && (e + rest)[1..] == rest;
        assert e[0] in e;
      }
    }
  }

  /** No queued request waits for more than 2N completions of its device, N the number of different keys that
      occur in its queue, whatever all tasks do meanwhile. */
  lemma RequestCompletes(s: Sys, log: seq<Step>, s': Sys, m: int, k: nat, all: set<Key>)
    requires Inv(s) && Reaches(s, log, s') && 0 <= m < NR_BLK_DEV && k < |s.queues[m]|
    requires forall j :: 0 <= j < |s.queues[m]| ==> s.queues[m][j].Key() in all
    requires KeysFrom(s, log, s', m, all) && Completions(log, m) >= 2 * |all|
    ensures Completed(s, log, s', m, s.queues[m][k].Key())
  {
    CacheRunLegal(s, log, s', m, all);
    NoStarvation(Keys(s.queues[m]), k, Events(s, log, s', m), all);
  }

  /** What device m completes during the run, in order. */
  ghost function Completes(s: Sys, log: seq<Step>, s': Sys, m: int): seq<Service>
    requires Inv(s) && Reaches(s, log, s') && 0 <= m < NR_BLK_DEV
    decreases |log|
  {
    if log == [] then []
    else
      (if log[0] == Complete(m) then [ServiceOf(Keys(s.queues[m]))] else [])
      + Completes(Apply(s, log[0]), log[1..], s', m)
  }

  /** The device completes what the elevator serves. */
  lemma {:induction false} CompletesServices(s: Sys, log: seq<Step>, s': Sys, m: int, all: set<Key>)
    requires Inv(s) && Reaches(s, log, s') && 0 <= m < NR_BLK_DEV && KeysFrom(s, log, s', m, all)
    ensures Legal(Keys(s.queues[m]), Events(s, log, s', m), all)
    ensures Completes(s, log, s', m) == Services(Keys(s.queues[m]), Events(s, log, s', m), all)
    decreases |log|
  {
    CacheRunLegal(s, log, s', m, all);
    if log != [] {
      var st := log[0];
      EventStep(s, st, m);
      CompletesServices(Apply(s, st), log[1..], s', m, all);
      hide Apply, Enabled, Inv, Shape, Reaches;
      var e, rest := EventOf(s, st, m), Events(Apply(s, st), log[1..], s', m);
      assert Events(s, log, s', m) == e + rest;
      if e == [] {
        assert e + rest == rest;
      } else {
        assert (e + rest)[0] == e[0] && (e + rest)[1..] == rest;
      }
    }
  }

  /** Every device of the cache works in ascending sweeps, over every interleaving of all tasks: no read follows a write
      within one. */
  lemma DeviceSweeps(s: Sys, log: seq<Step>, s': Sys, m: int, all: set<Key>, i: nat)
    requires Inv(s) && Reaches(s, log, s') && 0 <= m < NR_BLK_DEV
    requires forall j :: 0 <= j < |s.queues[m]| ==> s.queues[m][j].Key() in all
    requires KeysFrom(s, log, s', m, all) && i + 1 < |Completes(s, log, s', m)|
    ensures var a, b := Completes(s, log, s', m)[i], Completes(s, log, s', m)[i + 1];
      Sweeps(a, b) && (a.inRun > 0 && a.key.cmd == WRITE ==> b.key.cmd != READ)
  {
    CompletesServices(s, log, s', m, all);
    ServedInSweeps(Keys(s.queues[m]), Events(s, log, s', m), all, i);
  }
}
