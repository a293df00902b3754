/** The buffer cache of fs/buffer.c and the request queues of kernel/blk_drv below it, as a state
    machine: its steps are the pieces of code that run between two sleeps. */
module CacheState {
  import opened Elevator

  const READ := 0
  const WRITE := 1
  const NR_BLK_DEV := 7

  type Data = seq<int>

  /** The fields of struct buffer_head that carry meaning; its links are in BufferLists. */
  datatype Buf = Buf(dev: int, block: int, count: int, dirt: bool, lock: bool, uptodate: bool, data: Data)

  /** A queued request: what make_request fills in. */
  datatype Req = Req(cmd: int, dev: int, sector: int, bh: int) {
    function Key(): Key {
      Elevator.Key.Key(cmd, dev, sector)
    }
  }

  /** The contents of all devices, by device and block number. */
  type Disk = (int, int) -> Data

  /** Who takes a step: one chosen task, or any other. */
  datatype Who = Me | Other

  /** What make_request is doing with a buffer: nothing, locked by a task that is looking for a slot, or queued. */
  datatype Io = Idle | Pending(cmd: int, who: Who) | Queued(cmd: int)

  /** io[i] says why buffer i is locked; mine[i] counts the references of one chosen task on buffer i, the
      rest of its count belongs to the others; queues are the request queues of the block devices by major
      number, current request first. */
  datatype Sys = Sys(bufs: seq<Buf>, io: seq<Io>, mine: seq<int>, disk: Disk, queues: seq<seq<Req>>)

  function Keys(q: seq<Req>): (k: seq<Key>)
    ensures |k| == |q| && forall i :: 0 <= i < |q| ==> k[i] == q[i].Key()
    ensures forall i :: 0 <= i < |q| ==> k[i].cmd == q[i].cmd && k[i].dev == q[i].dev && k[i].sector == q[i].sector
  {
    seq(|q|, i requires 0 <= i < |q| => q[i].Key())
  }

  // ---------------------------------------------------------------- invariant

  /** i is the number of a buffer. */
  predicate IsBuffer(s: Sys, i: int) {
    0 <= i < |s.bufs|
  }

  predicate Holds(b: Buf, dev: int, block: int) {
    b.dev == dev && b.block == block
  }

  /** Buffer i has a request in queue m at position k. */
  predicate QueuedAt(s: Sys, i: int, m: int, k: int) {
    0 <= m < |s.queues| && 0 <= k < |s.queues[m]| && s.queues[m][k].bh == i
  }

  ghost predicate Shape(s: Sys) {
    && |s.mine| == |s.bufs| && |s.io| == |s.bufs| && |s.queues| == NR_BLK_DEV
    && (forall i :: IsBuffer(s, i) ==> 0 <= s.mine[i] <= s.bufs[i].count)
    && (forall i :: IsBuffer(s, i) ==> 0 <= s.bufs[i].dev < 0x10000 && 0 <= s.bufs[i].block < 0x8000_0000)
  }

  /** No two buffers stand for the same block. */
  ghost predicate Unique(s: Sys) {
    forall i, j | IsBuffer(s, i) && IsBuffer(s, j) && s.bufs[i].dev != 0 ::
      Holds(s.bufs[j], s.bufs[i].dev, s.bufs[i].block) ==> i == j
  }

  /** A buffer is locked exactly while a request for it is being made or is queued. */
  ghost predicate Locks(s: Sys)
    requires Shape(s)
  {
    forall i :: IsBuffer(s, i) ==>
      && (s.bufs[i].lock <==> s.io[i] != Idle)
      && (s.bufs[i].lock ==> s.bufs[i].dev != 0 && s.bufs[i].dev / 256 < NR_BLK_DEV)
      && (s.io[i].Pending? ==>
            (s.io[i].cmd == READ && !s.bufs[i].uptodate) || (s.io[i].cmd == WRITE && s.bufs[i].dirt))
      && (s.io[i].Queued? ==>
            (s.io[i].cmd == READ && !s.bufs[i].uptodate && !s.bufs[i].dirt)
            || (s.io[i].cmd == WRITE && s.bufs[i].uptodate))
  }

  /** Request r of queue m describes its buffer, which is queued. */
  predicate Matches(s: Sys, r: Req, m: int)
    requires |s.io| == |s.bufs|
  {
    && IsBuffer(s, r.bh) && s.io[r.bh] == Queued(r.cmd)
    && r.dev == s.bufs[r.bh].dev && r.sector == 2 * s.bufs[r.bh].block && r.dev / 256 == m
  }

  /** Every request describes its buffer, and no buffer has two requests. */
  ghost predicate Requests(s: Sys)
    requires Shape(s)
  {
    && (forall i, m, k :: QueuedAt(s, i, m, k) ==> Matches(s, s.queues[m][k], m))
    && (forall i, m, k, n, l :: QueuedAt(s, i, m, k) && QueuedAt(s, i, n, l) ==> m == n && k == l)
  }

  /** A clean valid buffer with no write under way holds what the device holds; dirty buffers are valid. */
  ghost predicate Clean(s: Sys)
    requires Shape(s)
  {
    forall i :: IsBuffer(s, i) ==>
      && (s.bufs[i].dirt ==> s.bufs[i].uptodate)
      && (s.bufs[i].uptodate && !s.bufs[i].dirt && s.bufs[i].dev != 0 && s.io[i] != Queued(WRITE) ==>
            s.bufs[i].data == s.disk(s.bufs[i].dev, s.bufs[i].block))
  }

  /** The elevator order of every queue. */
  ghost predicate Ordered(s: Sys) {
    forall m :: 0 <= m < |s.queues| ==> OneDescent(Keys(s.queues[m])) && Distinct(Keys(s.queues[m]))
  }

  ghost predicate Consistent(s: Sys)
    requires Shape(s)
  {
    Unique(s) && Locks(s) && Requests(s) && Clean(s) && Ordered(s)
  }

  ghost predicate Inv(s: Sys) {
    Shape(s) && Consistent(s)
  }

  // ---------------------------------------------------------------- steps

  datatype Step =
    | Reference(i: int, who: Who)                            // find_buffer hit: b_count++
    | Claim(i: int, dev: int, block: int, who: Who)          // the end of getblk
    | Unreference(i: int, who: Who)                          // brelse
    | Lock(i: int, cmd: int, who: Who)                       // lock_buffer in make_request, work to do
    | GiveUp(i: int, who: Who)                               // read-ahead without a free slot
    | Enqueue(i: int, who: Who)                              // add_request
    | Complete(m: int)                                       // end_request(1)
    | Modify(i: int, data: Data, who: Who)                   // a holder changes a valid buffer
    | Fill(i: int, data: Data, who: Who)                     // a holder overwrites a buffer entirely
    | Discard(i: int, who: Who)                              // free_block drops a cached block

  predicate HasRef(s: Sys, i: int, who: Who)
    requires |s.mine| == |s.bufs| && IsBuffer(s, i)
  {
    if who == Me then s.mine[i] > 0 else s.bufs[i].count > s.mine[i]
  }

  ghost predicate Cached(s: Sys, dev: int, block: int) {
    exists j :: IsBuffer(s, j) && Holds(s.bufs[j], dev, block)
  }

  /** When the code takes the step. */
  ghost predicate Enabled(s: Sys, st: Step)
    requires Shape(s)
  {
    match st
    case Reference(i, who) => IsBuffer(s, i) && s.bufs[i].dev != 0
    case Claim(i, dev, block, who) =>
      && IsBuffer(s, i) && 0 <= dev < 0x10000 && 0 <= block < 0x8000_0000
      && s.bufs[i].count == 0 && !s.bufs[i].dirt && !s.bufs[i].lock && (dev != 0 ==> !Cached(s, dev, block))
    case Unreference(i, who) => IsBuffer(s, i) && HasRef(s, i, who) && !s.bufs[i].lock
    case Lock(i, cmd, who) =>
      && IsBuffer(s, i) && !s.bufs[i].lock && s.bufs[i].dev != 0 && s.bufs[i].dev / 256 < NR_BLK_DEV
      && ((cmd == WRITE && s.bufs[i].dirt) || (cmd == READ && !s.bufs[i].uptodate))
    case GiveUp(i, who) => IsBuffer(s, i) && s.io[i].Pending? && s.io[i].who == who
    case Enqueue(i, who) => IsBuffer(s, i) && s.io[i].Pending? && s.io[i].who == who
    case Complete(m) => 0 <= m < NR_BLK_DEV && s.queues[m] != [] && IsBuffer(s, s.queues[m][0].bh)
    case Modify(i, data, who) => IsBuffer(s, i) && HasRef(s, i, who) && s.bufs[i].uptodate
    case Fill(i, data, who) => IsBuffer(s, i) && HasRef(s, i, who) && !s.bufs[i].lock
    case Discard(i, who) => IsBuffer(s, i) && HasRef(s, i, who) && s.bufs[i].count == 1 && !s.bufs[i].lock
  }

  function SetBuf(s: Sys, i: int, b: Buf): Sys
    requires IsBuffer(s, i)
  {
    s.(bufs := s.bufs[i := b])
  }

  /** The end of getblk: buffer i stands for the given block from now on. */
  function Claimed(s: Sys, i: int, dev: int, block: int): Sys
    requires IsBuffer(s, i)
  {
    SetBuf(s, i, Buf(dev, block, 1, false, false, false, s.bufs[i].data))
  }

  function Plus(m: seq<int>, i: int, d: int): seq<int>
    requires 0 <= i < |m|
  {
    m[i := m[i] + d]
  }

  function AddMine(s: Sys, i: int, who: Who, d: int): seq<int>
    requires IsBuffer(s, i) && |s.mine| == |s.bufs|
  {
    if who == Me then Plus(s.mine, i, d) else s.mine
  }

  function NewReq(b: Buf, i: int, cmd: int): Req {
    Req(cmd, b.dev, 2 * b.block, i)
  }

  /** add_request on one queue. */
  function InsertReq(q: seq<Req>, r: Req): seq<Req> {
    if q == [] then [r]
    else
      var p := InsertAfter(Keys(q), r.Key(), 0);
      q[..p + 1] + [r] + q[p + 1..]
  }

  function WriteDisk(disk: Disk, dev: int, block: int, data: Data): Disk {
    (d: int, b: int) => if d == dev && b == block then data else disk(d, b)
  }

  ghost function Apply(s: Sys, st: Step): Sys
    requires Shape(s) && Enabled(s, st)
  {
    match st
    case Reference(i, who) =>
      SetBuf(s, i, s.bufs[i].(count := s.bufs[i].count + 1)).(mine := AddMine(s, i, who, 1))
    case Claim(i, dev, block, who) =>
      Claimed(s, i, dev, block).(mine := AddMine(s, i, who, 1))
    case Unreference(i, who) =>
      SetBuf(s, i, s.bufs[i].(count := s.bufs[i].count - 1)).(mine := AddMine(s, i, who, -1))
    case Lock(i, cmd, who) => SetBuf(s, i, s.bufs[i].(lock := true)).(io := s.io[i := Pending(cmd, who)])
    case GiveUp(i, who) => SetBuf(s, i, s.bufs[i].(lock := false)).(io := s.io[i := Idle])
    case Enqueue(i, who) => EnqueueAt(s, i, s.bufs[i].dev / 256)
    case Complete(m) => CompleteReq(s, m, s.queues[m][0])
    case Modify(i, data, who) => SetBuf(s, i, s.bufs[i].(data := data, dirt := true))
    case Fill(i, data, who) => SetBuf(s, i, s.bufs[i].(data := data, dirt := true, uptodate := true))
    case Discard(i, who) =>
      SetBuf(s, i, s.bufs[i].(dirt := false, uptodate := false, count := s.bufs[i].count - 1))
        .(mine := AddMine(s, i, who, -1))
  }

  function EnqueueAt(s: Sys, i: int, m: int): Sys
    requires IsBuffer(s, i) && |s.io| == |s.bufs| && s.io[i].Pending?
  {
    if 0 <= m < |s.queues| then
      SetBuf(s, i, s.bufs[i].(dirt := false))
        .(io := s.io[i := Queued(s.io[i].cmd)],
          queues := s.queues[m := InsertReq(s.queues[m], NewReq(s.bufs[i], i, s.io[i].cmd))])
    else s
  }

  /** end_request(1): the device has transferred the sectors that the request names, two to a block. */
  function CompleteReq(s: Sys, m: int, r: Req): Sys
    requires IsBuffer(s, r.bh) && |s.io| == |s.bufs| && 0 <= m < |s.queues| && s.queues[m] != []
  {
    var b := s.bufs[r.bh];
    var s1 := s.(queues := s.queues[m := s.queues[m][1..]], io := s.io[r.bh := Idle]);
    if r.cmd == READ then
      SetBuf(s1, r.bh, b.(lock := false, uptodate := true, data := s.disk(r.dev, r.sector / 2)))
    else
      SetBuf(s1, r.bh, b.(lock := false, uptodate := true)).(disk := WriteDisk(s.disk, r.dev, r.sector / 2, b.data))
  }

  // ---------------------------------------------------------------- every step keeps the invariant

  /** Steps on one buffer that leave the queues, the device and queued buffers' requests alone. */
  ghost predicate OneBuffer(s: Sys, s': Sys, i: int)
    requires Shape(s) && Shape(s') && IsBuffer(s, i)
  {
    && |s'.bufs| == |s.bufs| && s'.queues == s.queues && s'.disk == s.disk
    && (forall j :: IsBuffer(s, j) && j != i ==> s'.bufs[j] == s.bufs[j] && s'.io[j] == s.io[j])
    && (s.io[i].Queued? ==> s'.io[i] == s.io[i] && Holds(s'.bufs[i], s.bufs[i].dev, s.bufs[i].block))
  }

  lemma OneBufferStep(s: Sys, s': Sys, i: int)
    requires Inv(s) && Shape(s') && IsBuffer(s, i) && OneBuffer(s, s', i)
    requires s'.bufs[i].dirt ==> s'.bufs[i].uptodate
    requires Locks(s') && Unique(s')
    requires s'.bufs[i].uptodate && !s'.bufs[i].dirt && s'.bufs[i].dev != 0 && s'.io[i] != Queued(WRITE) ==>
      s'.bufs[i].data == s.disk(s'.bufs[i].dev, s'.bufs[i].block)
    ensures Inv(s')
  {
    assert forall j, m, k :: QueuedAt(s', j, m, k) ==> QueuedAt(s, j, m, k);
    forall j, m, k | QueuedAt(s', j, m, k) ensures Matches(s', s'.queues[m][k], m) {
      assert Matches(s, s.queues[m][k], m);
    }
  }

  lemma ClaimUnique(s: Sys, i: int, dev: int, block: int, who: Who)
    requires Inv(s) && Enabled(s, Claim(i, dev, block, who))
    ensures Unique(Apply(s, Claim(i, dev, block, who)))
  {
    var s' := Apply(s, Claim(i, dev, block, who));
    forall a, b | IsBuffer(s', a) && IsBuffer(s', b) && s'.bufs[a].dev != 0
      && Holds(s'.bufs[b], s'.bufs[a].dev, s'.bufs[a].block) ensures a == b
    {
      if dev != 0 {
        assert !Holds(s.bufs[a], dev, block) && !Holds(s.bufs[b], dev, block);
      }
    }
  }

  /** Identities change in no step but Claim. */
  lemma SameIdentities(s: Sys, st: Step)
    requires Inv(s) && Enabled(s, st) && !st.Claim?
    ensures |Apply(s, st).bufs| == |s.bufs|
    ensures forall j :: IsBuffer(s, j) ==> Holds(Apply(s, st).bufs[j], s.bufs[j].dev, s.bufs[j].block)
    ensures Unique(Apply(s, st))
  {
  }

  lemma BufferStep(s: Sys, st: Step)
    requires Inv(s) && Enabled(s, st) && !st.Enqueue? && !st.Complete?
    ensures Inv(Apply(s, st))
  {
    if st.Claim? {
      ClaimUnique(s, st.i, st.dev, st.block, st.who);
    } else {
      SameIdentities(s, st);
    }
    hide Unique, Ordered, Requests, EnqueueAt, CompleteReq;
    OneBufferStep(s, Apply(s, st), st.i);
  }

  lemma InsertReqKeys(q: seq<Req>, r: Req)
    ensures Keys(InsertReq(q, r)) == Add(Keys(q), r.Key())
  {
    if q != [] {
      var p := InsertAfter(Keys(q), r.Key(), 0);
      assert Keys(q[..p + 1]) == Keys(q)[..p + 1];
      assert Keys(q[p + 1..]) == Keys(q)[p + 1..];
    }
  }

  /** The new key is not in the queue: queued buffers are distinct, so by uniqueness their blocks are. */
  lemma NewKeyFresh(s: Sys, i: int, m: int, cmd: int)
    requires Inv(s) && IsBuffer(s, i) && s.bufs[i].dev != 0 && !s.io[i].Queued? && 0 <= m < NR_BLK_DEV
    ensures NewReq(s.bufs[i], i, cmd).Key() !in Keys(s.queues[m])
  {
    forall k | 0 <= k < |s.queues[m]| ensures Keys(s.queues[m])[k] != NewReq(s.bufs[i], i, cmd).Key() {
      var r := s.queues[m][k];
      assert QueuedAt(s, r.bh, m, k) && Matches(s, r, m);
      assert !Holds(s.bufs[r.bh], s.bufs[i].dev, s.bufs[i].block);
    }
  }

  lemma QueuesOrdered(s: Sys, s': Sys, m: int)
    requires Ordered(s) && 0 <= m < |s.queues| && |s'.queues| == |s.queues|
    requires forall n :: 0 <= n < |s.queues| && n != m ==> s'.queues[n] == s.queues[n]
    requires OneDescent(Keys(s'.queues[m])) && Distinct(Keys(s'.queues[m]))
    ensures Ordered(s')
  {
  }

  /** q' is q with r at position p. */
  predicate PlacedReq(q: seq<Req>, q': seq<Req>, r: Req, p: int) {
    && 0 <= p <= |q| && |q'| == |q| + 1 && q'[p] == r
    && (forall j :: 0 <= j < p ==> q'[j] == q[j])
    && (forall j :: p < j < |q'| ==> q'[j] == q[j - 1])
  }

  /** The positions of the old requests after an insertion. */
  lemma InsertReqAt(q: seq<Req>, r: Req) returns (p: int)
    ensures PlacedReq(q, InsertReq(q, r), r, p)
  {
    p := if q == [] then 0 else InsertAfter(Keys(q), r.Key(), 0) + 1;
    hide InsertAfter, Keys;
  }

  lemma EnqueueRequests(s: Sys, i: int, who: Who)
    requires Inv(s) && Enabled(s, Enqueue(i, who))
    ensures Requests(Apply(s, Enqueue(i, who)))
  {
    var s' := Apply(s, Enqueue(i, who));
    var m := s.bufs[i].dev / 256;
    var r := NewReq(s.bufs[i], i, s.io[i].cmd);
    var p := InsertReqAt(s.queues[m], r);
    hide Unique, Locks, Clean, Ordered, InsertReq;
    assert PlacedReq(s.queues[m], s'.queues[m], r, p);
    forall j, n, k | QueuedAt(s', j, n, k)
      ensures Matches(s', s'.queues[n][k], n)
      ensures if n == m && k == p then j == i else j != i && QueuedAt(s, j, n, if n == m && k > p then k - 1 else k)
    {
      if n != m || k != p {
        var l := if n == m && k > p then k - 1 else k;
        assert QueuedAt(s, j, n, l) && Matches(s, s.queues[n][l], n);
      }
    }
  }

  lemma EnqueueStep(s: Sys, i: int, who: Who)
    requires Inv(s) && Enabled(s, Enqueue(i, who))
    ensures Inv(Apply(s, Enqueue(i, who)))
  {
    var s' := Apply(s, Enqueue(i, who));
    var m := s.bufs[i].dev / 256;
    var r := NewReq(s.bufs[i], i, s.io[i].cmd);
    EnqueueRequests(s, i, who);
    NewKeyFresh(s, i, m, s.io[i].cmd);
    InsertReqKeys(s.queues[m], r);
    AddKeepsOneDescent(Keys(s.queues[m]), r.Key());
    QueuesOrdered(s, s', m);
    SameIdentities(s, Enqueue(i, who));
    hide Unique, Ordered, Requests;
  }

  lemma CompleteRequests(s: Sys, m: int)
    requires Inv(s) && Enabled(s, Complete(m))
    ensures Requests(Apply(s, Complete(m)))
  {
    var s' := Apply(s, Complete(m));
    var i := s.queues[m][0].bh;
    assert QueuedAt(s, i, m, 0);
    forall j, n, k | QueuedAt(s', j, n, k)
      ensures Matches(s', s'.queues[n][k], n)
      ensures j != i && QueuedAt(s, j, n, if n == m then k + 1 else k)
    {
      var l := if n == m then k + 1 else k;
      assert QueuedAt(s, j, n, l) && Matches(s, s.queues[n][l], n);
    }
  }

  lemma CompleteStep(s: Sys, m: int)
    requires Inv(s) && Enabled(s, Complete(m))
    ensures Inv(Apply(s, Complete(m)))
  {
    var s' := Apply(s, Complete(m));
    var r := s.queues[m][0];
    assert QueuedAt(s, r.bh, m, 0) && Matches(s, r, m);
    CompleteRequests(s, m);
    DoneKeepsOneDescent(Keys(s.queues[m]));
    assert Keys(s.queues[m][1..]) == Keys(s.queues[m])[1..];
    QueuesOrdered(s, s', m);
    SameIdentities(s, Complete(m));
    assert forall i :: IsBuffer(s, i) && i != r.bh && s.bufs[i].dev != 0 ==>
      !Holds(s.bufs[i], s.bufs[r.bh].dev, s.bufs[r.bh].block);
    hide Unique, Ordered, Requests;
  }

  /** Every step of every task keeps the invariant: uniqueness, lock discipline, coherence, elevator order. */
  lemma StepKeepsInv(s: Sys, st: Step)
    requires Inv(s) && Enabled(s, st)
    ensures Inv(Apply(s, st))
  {
    match st {
      case Enqueue(i, who) => EnqueueStep(s, i, who);
      case Complete(m) => CompleteStep(s, m);
      case _ => BufferStep(s, st);
    }
  }

  // ---------------------------------------------------------------- stable identity

  /** No step of anybody gives a referenced or locked buffer a new identity. */
  lemma IdentityStable(s: Sys, st: Step, i: int)
    requires Inv(s) && Enabled(s, st) && IsBuffer(s, i) && (s.bufs[i].count > 0 || s.bufs[i].lock)
    ensures IsBuffer(Apply(s, st), i) && Holds(Apply(s, st).bufs[i], s.bufs[i].dev, s.bufs[i].block)
  {
    if !st.Claim? {
      SameIdentities(s, st);
    }
  }

  // ---------------------------------------------------------------- the plain block store

  ghost predicate ValidCopy(s: Sys, i: int, dev: int, block: int) {
    IsBuffer(s, i) && Holds(s.bufs[i], dev, block) && s.bufs[i].uptodate
  }

  /** What a reader of (dev, block) is entitled to: the valid cached copy if there is one, else the device's. */
  ghost function Content(s: Sys, dev: int, block: int): Data {
    if exists i :: ValidCopy(s, i, dev, block) then
      (var i :| ValidCopy(s, i, dev, block); s.bufs[i].data)
    else s.disk(dev, block)
  }

  lemma ContentOfHolder(s: Sys, i: int, dev: int, block: int)
    requires Unique(s) && IsBuffer(s, i) && Holds(s.bufs[i], dev, block) && dev != 0
    ensures Content(s, dev, block) == if s.bufs[i].uptodate then s.bufs[i].data else s.disk(dev, block)
  {
    if s.bufs[i].uptodate {
      assert ValidCopy(s, i, dev, block);
    }
  }

  lemma ContentUncached(s: Sys, dev: int, block: int)
    requires forall i :: IsBuffer(s, i) && Holds(s.bufs[i], dev, block) ==> !s.bufs[i].uptodate
    ensures Content(s, dev, block) == s.disk(dev, block)
  {
  }

  /** The store a cache should look like: plain memory, changed only where a task writes or frees a block. */
  function StoreStep(c: Disk, s: Sys, st: Step): Disk
    requires (st.Modify? || st.Fill? || st.Discard?) ==> IsBuffer(s, st.i)
  {
    match st
    case Modify(i, data, who) => WriteDisk(c, s.bufs[i].dev, s.bufs[i].block, data)
    case Fill(i, data, who) => WriteDisk(c, s.bufs[i].dev, s.bufs[i].block, data)
    case Discard(i, who) => WriteDisk(c, s.bufs[i].dev, s.bufs[i].block, s.disk(s.bufs[i].dev, s.bufs[i].block))
    case _ => c
  }

  lemma CopiesElsewhere(s: Sys, s': Sys, i: int, dev: int, block: int)
    requires Unique(s) && Unique(s') && dev != 0 && IsBuffer(s, i) && |s'.bufs| == |s.bufs|
    requires forall j :: IsBuffer(s, j) && j != i ==> s'.bufs[j] == s.bufs[j]
    requires !Holds(s.bufs[i], dev, block) && !Holds(s'.bufs[i], dev, block)
    requires s'.disk(dev, block) == s.disk(dev, block)
    ensures Content(s', dev, block) == Content(s, dev, block)
  {
    assert forall j :: ValidCopy(s', j, dev, block) <==> ValidCopy(s, j, dev, block);
  }

  /** The buffer a step works on. */
  function Subject(s: Sys, st: Step): int
    requires st.Complete? ==> 0 <= st.m < |s.queues| && s.queues[st.m] != []
  {
    if st.Complete? then s.queues[st.m][0].bh else st.i
  }

  lemma OnlyBuffer(s: Sys, st: Step, i: int, buf: Buf)
    requires Inv(s) && Enabled(s, st) && IsBuffer(s, i) && s.bufs[i] == buf
    ensures |Apply(s, st).bufs| == |s.bufs| && IsBuffer(s, Subject(s, st))
    ensures i != Subject(s, st) ==> Apply(s, st).bufs[i] == buf
    ensures forall d, b :: !st.Complete? || !Holds(s.bufs[Subject(s, st)], d, b) ==>
      Apply(s, st).disk(d, b) == s.disk(d, b)
  {
    if st.Complete? {
      assert QueuedAt(s, s.queues[st.m][0].bh, st.m, 0);
    }
  }

  /** Only a writing or freeing task changes what a block contains, and then only that block: locking,
      queueing, transfers, references and replacement of buffers are invisible. */
  lemma StepKeepsContent(s: Sys, st: Step, dev: int, block: int)
    requires Inv(s) && Enabled(s, st) && dev != 0
    requires IsBuffer(s, Subject(s, st))
    ensures Content(Apply(s, st), dev, block) == StoreStep((d, b) => Content(s, d, b), s, st)(dev, block)
  {
    var s', i := Apply(s, st), Subject(s, st);
    StepKeepsInv(s, st);
    forall j | IsBuffer(s, j) && j != i ensures s'.bufs[j] == s.bufs[j] {
      OnlyBuffer(s, st, j, s.bufs[j]);
    }
    OnlyBuffer(s, st, i, s.bufs[i]);
    if !Holds(s.bufs[i], dev, block) && !Holds(s'.bufs[i], dev, block) {
      CopiesElsewhere(s, s', i, dev, block);
    } else {
      SubjectContent(s, st, i, dev, block);
    }
  }

  lemma SubjectContent(s: Sys, st: Step, i: int, dev: int, block: int)
    requires Inv(s) && Enabled(s, st) && dev != 0 && Inv(Apply(s, st)) && i == Subject(s, st) && IsBuffer(s, i)
    requires Holds(s.bufs[i], dev, block) || Holds(Apply(s, st).bufs[i], dev, block)
    ensures Content(Apply(s, st), dev, block) == StoreStep((d, b) => Content(s, d, b), s, st)(dev, block)
  {
    var s' := Apply(s, st);
    if st.Claim? {
      ClaimContent(s, i, st.dev, st.block, st.who, dev, block);
    } else {
      SameIdentities(s, st);
      ContentOfHolder(s, i, dev, block);
      ContentOfHolder(s', i, dev, block);
      if st.Complete? {
        assert QueuedAt(s, i, st.m, 0) && Matches(s, s.queues[st.m][0], st.m);
      }
    }
  }

  /** Eviction drops nothing: the victim is clean, so its block is on the device. */
  lemma ClaimContent(s: Sys, i: int, dev: int, block: int, who: Who, d: int, b: int)
    requires Inv(s) && Enabled(s, Claim(i, dev, block, who)) && d != 0
    requires Holds(s.bufs[i], d, b) || (dev == d && block == b)
    ensures Content(Apply(s, Claim(i, dev, block, who)), d, b) == Content(s, d, b) == s.disk(d, b)
  {
    var s' := Apply(s, Claim(i, dev, block, who));
    assert forall j :: IsBuffer(s', j) ==> s'.bufs[j] == s.bufs[j] || (j == i && !s'.bufs[j].uptodate);
    if Holds(s.bufs[i], d, b) {
      ContentOfHolder(s, i, d, b);
    } else {
      ContentUncached(s, d, b);
    }
    ContentUncached(s', d, b);
  }

  // ---------------------------------------------------------------- runs

  /** s' is reached from s by the steps of log. */
  ghost predicate Reaches(s: Sys, log: seq<Step>, s': Sys)
    requires Inv(s)
    decreases |log|
  {
    if log == [] then s' == s
    else
      Enabled(s, log[0]) && Inv(Apply(s, log[0])) && Reaches(Apply(s, log[0]), log[1..], s')
  }

  /** The plain store that log drives from c. */
  ghost function StoreRun(c: Disk, s: Sys, log: seq<Step>): Disk
    requires Inv(s) && exists s' :: Reaches(s, log, s')
    decreases |log|
  {
    if log == [] then c
    else
      var s' :| Reaches(s, log, s');
      assert Reaches(Apply(s, log[0]), log[1..], s');
      StoreRun(StoreStep(c, s, log[0]), Apply(s, log[0]), log[1..])
  }

  ghost predicate Agrees(s: Sys, c: Disk) {
    forall dev, block :: dev != 0 ==> Content(s, dev, block) == c(dev, block)
  }

  lemma StepAgrees(s: Sys, st: Step, c: Disk)
    requires Inv(s) && Enabled(s, st) && Agrees(s, c)
    ensures Inv(Apply(s, st)) && Agrees(Apply(s, st), StoreStep(c, s, st))
  {
    StepKeepsInv(s, st);
    assert IsBuffer(s, Subject(s, st));
    forall dev, block | dev != 0
      ensures Content(Apply(s, st), dev, block) == StoreStep(c, s, st)(dev, block)
    {
      StepKeepsContent(s, st, dev, block);
    }
  }

  /** The cache refines the plain store over every interleaving. */
  lemma {:induction false} RunAgrees(s: Sys, log: seq<Step>, s': Sys, c: Disk)
    requires Inv(s) && Agrees(s, c) && Reaches(s, log, s')
    ensures Inv(s') && Agrees(s', StoreRun(c, s, log))
    decreases |log|
  {
    if log != [] {
      StepAgrees(s, log[0], c);
      RunAgrees(Apply(s, log[0]), log[1..], s', StoreStep(c, s, log[0]));
    }
  }

  /** Appending one step to a run. */
  lemma {:induction false} ReachesMore(s: Sys, log: seq<Step>, s1: Sys, st: Step)
    requires Inv(s) && Reaches(s, log, s1) && Inv(s1) && Enabled(s1, st) && Inv(Apply(s1, st))
    ensures Reaches(s, log + [st], Apply(s1, st))
    decreases |log|
  {
    hide Apply, Enabled, Unique, Locks, Requests, Clean, Ordered;
    if log == [] {
      assert log + [st] == [st] && [st][1..] == [];
      assert Reaches(Apply(s1, st), [], Apply(s1, st));
    } else {
      ReachesMore(Apply(s, log[0]), log[1..], s1, st);
      assert (log + [st])[1..] == log[1..] + [st];
    }
  }

  /** A run continues from where a prefix of it has led. */
  lemma {:induction false} ReachesRest(s: Sys, log: seq<Step>, s1: Sys, log2: seq<Step>, s2: Sys)
    requires Inv(s) && Reaches(s, log, s1) && log <= log2 && Reaches(s, log2, s2)
    ensures Inv(s1) && Reaches(s1, log2[|log|..], s2)
    decreases |log|
  {
    hide Apply, Enabled, Unique, Locks, Requests, Clean, Ordered;
    if log != [] {
      ReachesRest(Apply(s, log[0]), log[1..], s1, log2[1..], s2);
      assert log2[1..][|log[1..]|..] == log2[|log|..];
    } else {
      assert log2[0..] == log2;
    }
  }

  // ---------------------------------------------------------------- dirty buffers

  /** Buffer i is put into a queue, or free_block drops it. */
  predicate Cleans(st: Step, i: int) {
    (st.Enqueue? || st.Discard?) && st.i == i
  }

  lemma StepStaysDirty(s: Sys, st: Step, i: int)
    requires Inv(s) && Enabled(s, st) && IsBuffer(s, i) && s.bufs[i].dirt && !Cleans(st, i)
    ensures IsBuffer(Apply(s, st), i) && Apply(s, st).bufs[i].dirt
    ensures Holds(Apply(s, st).bufs[i], s.bufs[i].dev, s.bufs[i].block)
  {
    if !st.Claim? {
      SameIdentities(s, st);
    }
  }

  /** A dirty buffer stays dirty, and the same block, until it is queued or dropped. */
  lemma {:induction false} StaysDirty(s: Sys, log: seq<Step>, s': Sys, i: int)
    requires Inv(s) && Reaches(s, log, s') && IsBuffer(s, i) && s.bufs[i].dirt
    requires forall k :: 0 <= k < |log| ==> !Cleans(log[k], i)
    ensures IsBuffer(s', i) && s'.bufs[i].dirt && Holds(s'.bufs[i], s.bufs[i].dev, s.bufs[i].block)
    decreases |log|
  {
    if log != [] {
      StepStaysDirty(s, log[0], i);
      StaysDirty(Apply(s, log[0]), log[1..], s', i);
    }
  }

  /** Between before and after, buffer i was queued for its device, or dropped. */
  ghost predicate Cleaned(before: seq<Step>, after: seq<Step>, i: int) {
    exists k :: |before| <= k < |after| && Cleans(after[k], i)
  }

  // ---------------------------------------------------------------- reference counts

  /** What a step does to the count of buffer i. */
  function Delta(st: Step, i: int): int {
    match st
    case Reference(j, _) => if j == i then 1 else 0
    case Claim(j, _, _, _) => if j == i then 1 else 0
    case Unreference(j, _) => if j == i then -1 else 0
    case Discard(j, _) => if j == i then -1 else 0
    case _ => 0
  }

  /** References and claims less releases and drops of buffer i, all of them or those of the chosen task. */
  function Balance(log: seq<Step>, i: int, all: bool): int {
    if log == [] then 0
    else (if all || (!log[0].Complete? && log[0].who == Me) then Delta(log[0], i) else 0) + Balance(log[1..], i, all)
  }

  /** b_count goes up by one for a look-up that hits and for a claim, down by one for brelse and free_block. */
  lemma CountStep(s: Sys, st: Step, i: int)
    requires Inv(s) && Enabled(s, st) && IsBuffer(s, i)
    ensures |Apply(s, st).bufs| == |s.bufs| == |Apply(s, st).mine|
    ensures Apply(s, st).bufs[i].count == s.bufs[i].count + Delta(st, i)
    ensures Apply(s, st).mine[i] == s.mine[i] + if !st.Complete? && st.who == Me then Delta(st, i) else 0
  {
    hide Consistent;
  }

  /** Over every run the count of a buffer is what the run has taken and not given back, and so is the part of it that
      is the chosen task's. */
  lemma {:induction false} CountIsBalance(s: Sys, log: seq<Step>, s': Sys, i: int)
    requires Inv(s) && Reaches(s, log, s') && IsBuffer(s, i)
    ensures |s'.bufs| == |s.bufs| == |s'.mine|
    ensures s'.bufs[i].count == s.bufs[i].count + Balance(log, i, true)
    ensures s'.mine[i] == s.mine[i] + Balance(log, i, false)
    decreases |log|
  {
    if log != [] {
      StepKeepsInv(s, log[0]);
      CountStep(s, log[0], i);
      CountIsBalance(Apply(s, log[0]), log[1..], s', i);
    }
  }

  // ---------------------------------------------------------------- what a sleeping task can rely on

  /** The others have taken this step: a device interrupt, or a step in their own name. */
  predicate ByOthers(st: Step) {
    st.Complete? || st.who == Other
  }

  /** Buffer i is valid, or a read of it is on its way. */
  predicate Coming(s: Sys, i: int)
    requires IsBuffer(s, i) && |s.io| == |s.bufs|
  {
    s.bufs[i].uptodate || s.io[i] == Queued(READ)
  }

  /** From s to s' the chosen task has lost no reference, the buffers it refers to in s are still the same
      blocks, and if they were valid or being read they still are. */
  ghost predicate Keeps(s: Sys, s': Sys) {
    && |s'.bufs| == |s.bufs| == |s.mine| == |s.io| == |s'.mine| == |s'.io|
    && (forall i :: IsBuffer(s, i) ==> s.mine[i] <= s'.mine[i])
    && (forall i :: IsBuffer(s, i) && s.mine[i] > 0 ==>
          Holds(s'.bufs[i], s.bufs[i].dev, s.bufs[i].block) && (Coming(s, i) ==> Coming(s', i)))
  }

  /** The request that the chosen task is making for buffer i is as it was. */
  predicate Making(s: Sys, s': Sys, i: int)
    requires IsBuffer(s, i) && IsBuffer(s', i) && |s.io| == |s.bufs| && |s'.io| == |s'.bufs|
  {
    s.io[i].Pending? && s.io[i].who == Me ==>
      s'.io[i] == s.io[i] && Holds(s'.bufs[i], s.bufs[i].dev, s.bufs[i].block)
  }

  /** What a sleeping task finds on waking up. */
  ghost predicate Rely(s: Sys, s': Sys) {
    Keeps(s, s') && s'.mine == s.mine && forall i :: IsBuffer(s, i) ==> Making(s, s', i)
  }

  lemma OthersComplete(s: Sys, m: int)
    requires Inv(s) && Enabled(s, Complete(m))
    ensures Rely(s, Apply(s, Complete(m)))
  {
    hide Unique, Clean, Ordered, WriteDisk;
    assert QueuedAt(s, s.queues[m][0].bh, m, 0);
  }

  lemma OthersRely(s: Sys, st: Step)
    requires Inv(s) && Enabled(s, st) && ByOthers(st)
    ensures Rely(s, Apply(s, st))
  {
    hide Unique, Clean, Ordered, InsertReq, WriteDisk, Requests;
    if st.Complete? {
      OthersComplete(s, st.m);
    } else if !st.Claim? {
      SameIdentities(s, st);
    }
  }

  lemma RelyTrans(s: Sys, s1: Sys, s2: Sys)
    requires Rely(s, s1) && Rely(s1, s2)
    ensures Rely(s, s2)
  {
    forall i | IsBuffer(s, i) ensures Making(s, s2, i) {
      assert Making(s, s1, i) && Making(s1, s2, i);
    }
  }

  lemma KeepsTrans(s: Sys, s1: Sys, s2: Sys)
    requires Keeps(s, s1) && Keeps(s1, s2)
    ensures Keeps(s, s2)
  {
  }

  /** The chosen task's own steps keep what it holds, but for the reference that brelse gives up. */
  lemma OwnKeeps(s: Sys, st: Step)
    requires Inv(s) && Enabled(s, st) && !st.Unreference? && !st.Discard? && !st.Complete?
    ensures Keeps(s, Apply(s, st))
  {
    if !st.Claim? {
      SameIdentities(s, st);
    }
  }

  /** The steps from before to after, as far as they are the chosen task's own, write no data. */
  ghost predicate NoWrites(before: seq<Step>, after: seq<Step>) {
    before <= after && forall k :: |before| <= k < |after| ==> ByOthers(after[k]) || !Writes(after[k])
  }

  predicate Writes(st: Step) {
    st.Modify? || st.Fill? || st.Discard?
  }
}
