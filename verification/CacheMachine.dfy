/** The buffers, lists and requests together, in place. Every change is a step of the state machine of
    CacheState, and the log of all steps since boot is kept with the proof that it leads here. */
module CacheMachine {
  import opened Elevator
  import opened CacheState
  import opened Links
  import opened BufferLists
  import RequestTable

  function Unused(): Buf {
    Buf(0, 0, 0, false, false, false, [])
  }

  /** n buffers without a device, no request. */
  function BootState(n: nat, contents: Disk): Sys {
    Sys(seq(n, _ => Unused()), seq(n, _ => Idle), seq(n, _ => 0), contents, seq(NR_BLK_DEV, _ => []))
  }

  lemma BootInv(n: nat, contents: Disk)
    ensures Inv(BootState(n, contents)) && Agrees(BootState(n, contents), contents)
  {
    var s := BootState(n, contents);
    forall dev, block | dev != 0 ensures Content(s, dev, block) == contents(dev, block) {
      ContentUncached(s, dev, block);
    }
  }

  lemma PendingBuffer(s: Sys, i: int, who: Who)
    requires Inv(s) && Enabled(s, Step.Enqueue(i, who))
    ensures 0 <= s.bufs[i].dev && s.bufs[i].dev / 256 < NR_BLK_DEV
    ensures Apply(s, Step.Enqueue(i, who)) == EnqueueAt(s, i, s.bufs[i].dev / 256)
  {
  }

  lemma HeadBuffer(s: Sys, m: int)
    requires Shape(s) && Enabled(s, Step.Complete(m))
    ensures 0 <= m < NR_BLK_DEV == |s.queues| && s.queues[m] != []
    ensures 0 <= s.queues[m][0].bh < |s.bufs| == |s.io|
    ensures Apply(s, Step.Complete(m)) == CompleteReq(s, m, s.queues[m][0])
  {
  }

  class Cache {
    const buf: array<Buf>
    const lists: Lists
    const req: RequestTable.Requests
    const hasDriver: seq<bool>
    var disk: Disk
    var io: seq<Io>
    var mine: seq<int>
    /** Every step taken since boot. */
    ghost var log: seq<Step>
    ghost const boot: Sys

    /** The arrays of the request table are none of the arrays of the lists. */
    ghost predicate Separate() {
      && req.next != lists.next && req.next != lists.prev && req.next != lists.nextFree
      && req.next != lists.prevFree && req.next != lists.hash
      && req.current != lists.next && req.current != lists.prev && req.current != lists.nextFree
      && req.current != lists.prevFree && req.current != lists.hash
    }

    ghost function Repr(): set<object> {
      {this, buf, lists, lists.next, lists.prev, lists.nextFree, lists.prevFree, lists.hash,
       req, req.slots, req.next, req.current}
    }

    ghost function Abs(): (s: Sys)
      reads this, buf, req, req.slots, req.next, req.current
      requires req.Valid()
      ensures s.bufs == buf[..] && s.io == io && s.mine == mine && s.disk == disk
    {
      Sys(buf[..], io, mine, disk, req.Queues())
    }

    /** The lists and the request table are in order. */
    ghost predicate Structure()
      reads this, buf, lists, lists.next, lists.prev, lists.nextFree, lists.prevFree, lists.hash
      reads req, req.slots, req.next, req.current
      ensures Structure() ==> req.Valid()
    {
      && Separate() && lists.Valid(buf[..]) && req.Valid() && buf.Length >= 1
      && |hasDriver| == NR_BLK_DEV && !hasDriver[0]
    }

    ghost predicate Valid()
      reads this, buf, lists, lists.next, lists.prev, lists.nextFree, lists.prevFree, lists.hash
      reads req, req.slots, req.next, req.current
      ensures Valid() ==> req.Valid() && |io| == |mine| == buf.Length && |hasDriver| == NR_BLK_DEV
      ensures Valid() ==> Inv(Abs()) && Inv(boot) && Reaches(boot, log, Abs())
    {
      && Structure()
      && Inv(Abs()) && Inv(boot) && Reaches(boot, log, Abs())
    }

    /** buffer_init and blk_dev_init: n buffers without a device, no request. */
    constructor (n: int, drivers: seq<bool>, contents: Disk)
      requires n >= 1 && |drivers| == NR_BLK_DEV && !drivers[0]
      ensures Valid() && log == [] && fresh(buf) && fresh(lists) && fresh(req) && buf.Length == n
      ensures Abs() == BootState(n, contents) && Agrees(Abs(), contents)
    {
      buf := new Buf[n](_ => Unused());
      lists := new Lists(n, seq(n, _ => Unused()));
      req := new RequestTable.Requests();
      hasDriver := drivers;
      disk := contents;
      io := seq(n, _ => Idle);
      mine := seq(n, _ => 0);
      log := [];
      boot := BootState(n, contents);
      new;
      hide Inv, Shape, Agrees, Lists.Except, RequestTable.Requests.Valid;
      assert buf[..] == seq(n, _ => Unused());
      BootInv(n, contents);
    }

    // -------------------------------------------------------------- the steps

    ghost method Record(s: Sys, st: Step)
      requires Structure()
      requires Inv(s) && Inv(boot) && Reaches(boot, log, s) && Enabled(s, st) && Abs() == Apply(s, st)
      modifies this`log
      ensures Valid() && Abs() == Apply(s, st) && log == old(log) + [st]
    {
      hide Apply, Enabled, Inv, Shape, Reaches, Lists.Except, RequestTable.Requests.Valid, RequestTable.Requests.Queues;
      StepKeepsInv(s, st);
      ReachesMore(boot, log, s, st);
      log := log + [st];
    }

    /** find_buffer, for a 16-bit device number: it finds exactly what is cached. */
    method Find(dev: int, block: int) returns (i: int)
      requires Valid() && 0 <= dev < 0x10000 && 0 <= block < 0x8000_0000
      ensures Valid() && Abs() == old(Abs())
      ensures i != NULL ==> 0 <= i < buf.Length && buf[i].dev != 0 && Holds(buf[i], dev, block)
      ensures dev != 0 ==> (i != NULL <==> Cached(Abs(), dev, block))
    {
      assert Idents(Abs().bufs);
      hide Inv, Shape, Reaches, RequestTable.Requests.Valid, Lists.Except, Idents, Holds;
      assert lists.Valid(buf[..]);
      i := FindLinked(dev, block);
    }

    /** The same, knowing only the links and the identities. */
    method FindLinked(dev: int, block: int) returns (i: int)
      requires lists.Valid(buf[..]) && Idents(buf[..]) && 0 <= dev < 0x10000 && 0 <= block < 0x8000_0000
      ensures i != NULL ==> 0 <= i < buf.Length && buf[i].dev != 0 && Holds(buf[i], dev, block)
      ensures dev != 0 ==> (i != NULL <==> exists j :: 0 <= j < buf.Length && Holds(buf[j], dev, block))
    {
      if dev != 0 {
        FindableIffCached(buf[..], dev, block);
      }
      hide Lists.Valid, Idents;
      i := lists.FindBuffer(buf, dev, block);
    }

    /** The scan of getblk for a buffer to take. */
    method Victim() returns (bh: int)
      requires Valid()
      ensures Valid() && Abs() == old(Abs())
      ensures NULL <= bh < buf.Length && Indices(lists.ring, buf.Length)
      ensures Chosen(buf[..], lists.ring, |lists.ring|, bh)
      ensures bh == NULL <==> forall j :: 0 <= j < buf.Length ==> buf[j].count != 0
      ensures forall j :: 0 <= j < buf.Length && buf[j].count == 0 ==> bh != NULL && !Handier(buf[j], buf[bh])
      ensures bh != NULL ==> buf[bh].count == 0
    {
      hide Inv, Shape, Reaches, RequestTable.Requests.Valid, Lists.Except;
      bh := lists.ScanFree(buf);
    }

    /** Major number 0 stands for no device and has no driver. */
    lemma NoDriverForNone()
      requires Valid()
      ensures !hasDriver[0]
    {
    }

    /** Every slot that the command may use is taken. */
    predicate NoSlot(cmd: int)
      reads req.slots
    {
      forall j :: 0 <= j < req.slots.Length && (cmd == READ || j < RequestTable.WRITE_SLOTS) ==> req.slots[j].dev >= 0
    }

    /** The slot search of make_request. */
    method FreeSlot(cmd: int) returns (slot: int)
      requires Valid()
      ensures Valid() && Abs() == old(Abs())
      ensures slot != NULL ==> 0 <= slot < req.slots.Length == RequestTable.NR_REQUEST && req.slots[slot].dev < 0
      ensures slot != NULL && cmd != READ ==> slot < RequestTable.WRITE_SLOTS
      ensures slot == NULL ==> NoSlot(cmd)
    {
      hide Inv, Shape, Reaches, Lists.Except;
      slot := req.FindSlot(cmd);
    }

    method HasRequest(m: int) returns (busy: bool)
      requires Valid() && 0 <= m < NR_BLK_DEV
      ensures Valid() && Abs() == old(Abs())
      ensures busy <==> Abs().queues[m] != []
    {
      hide Inv, Shape, Reaches, Lists.Except, RequestTable.Requests.Valid;
      busy := req.Busy(m);
    }

    /** b_count++ */
    method Reference(i: int, who: Who)
      requires Valid() && Enabled(Abs(), Step.Reference(i, who))
      modifies this, buf
      ensures Valid() && Abs() == Apply(old(Abs()), Step.Reference(i, who))
      ensures log == old(log) + [Step.Reference(i, who)]
    {
      hide Lists.Except, RequestTable.Requests.Valid, Consistent, Reaches;
      ghost var s := Abs();
      buf[i] := buf[i].(count := buf[i].count + 1);
      if who == Me {
        mine := mine[i := mine[i] + 1];
      }
      assert buf[..] == s.bufs[i := buf[i]];
      lists.IdentitiesOnly(s.bufs, buf[..], NULL);
      Record(s, Step.Reference(i, who));
    }

    /** b_count-- on an unlocked buffer: the end of brelse. */
    method Unreference(i: int, who: Who)
      requires Valid() && Enabled(Abs(), Step.Unreference(i, who))
      modifies this, buf
      ensures Valid() && Abs() == Apply(old(Abs()), Step.Unreference(i, who))
      ensures log == old(log) + [Step.Unreference(i, who)]
    {
      hide Lists.Except, RequestTable.Requests.Valid, Consistent, Reaches;
      ghost var s := Abs();
      buf[i] := buf[i].(count := buf[i].count - 1);
      if who == Me {
        mine := mine[i := mine[i] - 1];
      }
      assert buf[..] == s.bufs[i := buf[i]];
      lists.IdentitiesOnly(s.bufs, buf[..], NULL);
      Record(s, Step.Unreference(i, who));
    }

    /** The end of getblk: take a free clean buffer for (dev, block). */
    method Claim(i: int, dev: int, block: int, who: Who)
      requires Valid() && Enabled(Abs(), Step.Claim(i, dev, block, who))
      modifies this, buf, lists, lists.next, lists.prev, lists.nextFree, lists.prevFree, lists.hash
      ensures Valid() && Abs() == Apply(old(Abs()), Step.Claim(i, dev, block, who))
      ensures log == old(log) + [Step.Claim(i, dev, block, who)]
      ensures lists.ring[|lists.ring| - 1] == i
    {
      hide Lists.Except, RequestTable.Requests.Valid, Consistent, Reaches;
      ghost var s := Abs();
      Relabel(i, dev, block);
      if who == Me {
        mine := mine[i := mine[i] + 1];
      }
      Record(s, Step.Claim(i, dev, block, who));
    }

    /** The relabelling at the end of getblk: out of both lists, new identity, back into both. */
    method Relabel(i: int, dev: int, block: int)
      requires lists.Valid(buf[..]) && 0 <= i < buf.Length && 0 <= dev < 0x10000 && 0 <= block < 0x8000_0000
      modifies buf, lists, lists.next, lists.prev, lists.nextFree, lists.prevFree, lists.hash
      ensures lists.Valid(buf[..]) && lists.ring != [] && lists.ring[|lists.ring| - 1] == i
      ensures buf[..] ==
        old(buf[..])[i := Buf(dev, block, 1, false, old(buf[i].lock), false, old(buf[i].data))]
    {
      ghost var was := buf[..];
      assert Idents(was);
      hide Lists.Except;
      buf[i] := buf[i].(count := 1, dirt := false, uptodate := false);
      lists.IdentitiesOnly(was, buf[..], NULL);
      lists.RemoveFromQueues(i, buf[i].dev, buf[i].block, buf[..]);
      ghost var before := buf[..];
      buf[i] := buf[i].(dev := dev, block := block);
      lists.IdentitiesOnly(before, buf[..], i);
      lists.InsertIntoQueues(i, dev, block, buf[..]);
    }

    /** lock_buffer when there is work to do. */
    method LockBuffer(i: int, cmd: int, who: Who)
      requires Valid() && Enabled(Abs(), Step.Lock(i, cmd, who))
      modifies this, buf
      ensures Valid() && Abs() == Apply(old(Abs()), Step.Lock(i, cmd, who))
      ensures log == old(log) + [Step.Lock(i, cmd, who)]
    {
      hide Lists.Except, RequestTable.Requests.Valid, Consistent, Reaches;
      ghost var s := Abs();
      buf[i] := buf[i].(lock := true);
      io := io[i := Pending(cmd, who)];
      assert buf[..] == s.bufs[i := buf[i]];
      lists.IdentitiesOnly(s.bufs, buf[..], NULL);
      Record(s, Step.Lock(i, cmd, who));
    }

    /** unlock_buffer when a read-ahead finds no slot. */
    method GiveUp(i: int, who: Who)
      requires Valid() && Enabled(Abs(), Step.GiveUp(i, who))
      modifies this, buf
      ensures Valid() && Abs() == Apply(old(Abs()), Step.GiveUp(i, who)) && log == old(log) + [Step.GiveUp(i, who)]
    {
      hide Lists.Except, RequestTable.Requests.Valid, Consistent, Reaches;
      ghost var s := Abs();
      buf[i] := buf[i].(lock := false);
      io := io[i := Idle];
      assert buf[..] == s.bufs[i := buf[i]];
      lists.IdentitiesOnly(s.bufs, buf[..], NULL);
      Record(s, Step.GiveUp(i, who));
    }

    /** A holder changes a buffer's data: Modify keeps a valid buffer valid, Fill makes it valid. */
    method Write(i: int, data: Data, fill: bool, who: Who)
      requires Valid() && Enabled(Abs(), if fill then Step.Fill(i, data, who) else Step.Modify(i, data, who))
      modifies this, buf
      ensures Valid()
      ensures Abs() == Apply(old(Abs()), if fill then Step.Fill(i, data, who) else Step.Modify(i, data, who))
      ensures log == old(log) + [if fill then Step.Fill(i, data, who) else Step.Modify(i, data, who)]
    {
      hide Lists.Except, RequestTable.Requests.Valid, Consistent, Reaches;
      ghost var s := Abs();
      buf[i] := buf[i].(data := data, dirt := true, uptodate := fill || buf[i].uptodate);
      assert buf[..] == s.bufs[i := buf[i]];
      lists.IdentitiesOnly(s.bufs, buf[..], NULL);
      Record(s, if fill then Step.Fill(i, data, who) else Step.Modify(i, data, who));
    }

    /** The cache part of free_block, once the buffer is known to have no other holder. */
    method Discard(i: int, who: Who)
      requires Valid() && Enabled(Abs(), Step.Discard(i, who))
      modifies this, buf
      ensures Valid() && Abs() == Apply(old(Abs()), Step.Discard(i, who)) && log == old(log) + [Step.Discard(i, who)]
    {
      hide Lists.Except, RequestTable.Requests.Valid, Consistent, Reaches;
      ghost var s := Abs();
      buf[i] := buf[i].(dirt := false, uptodate := false, count := buf[i].count - 1);
      if who == Me {
        mine := mine[i := mine[i] - 1];
      }
      assert buf[..] == s.bufs[i := buf[i]];
      lists.IdentitiesOnly(s.bufs, buf[..], NULL);
      Record(s, Step.Discard(i, who));
    }

    /** The end of make_request: fill slot, clear the dirty flag, link the request. */
    method Enqueue(i: int, slot: int, who: Who)
      requires Valid() && Enabled(Abs(), Step.Enqueue(i, who))
      requires 0 <= slot < RequestTable.NR_REQUEST && req.slots[slot].dev < 0
      requires io[i].cmd == WRITE ==> slot < RequestTable.WRITE_SLOTS
      modifies this, buf, req, req.slots, req.next, req.current
      ensures Valid() && Abs() == Apply(old(Abs()), Step.Enqueue(i, who)) && log == old(log) + [Step.Enqueue(i, who)]
    {
      ghost var s := Abs();
      PendingBuffer(s, i, who);
      hide Inv, Shape, Structure, Reaches;
      Link(i, slot, buf[i].dev / 256);
      Record(s, Step.Enqueue(i, who));
    }

    method Link(i: int, slot: int, m: int)
      requires Structure() && 0 <= i < buf.Length == |io| && io[i].Pending? && 0 <= m < NR_BLK_DEV && buf[i].dev >= 0
      requires 0 <= slot < RequestTable.NR_REQUEST && req.slots[slot].dev < 0
      requires io[i].cmd == WRITE ==> slot < RequestTable.WRITE_SLOTS
      modifies this`io, buf, req, req.slots, req.next, req.current
      ensures Structure() && Abs() == EnqueueAt(old(Abs()), i, m)
    {
      ghost var was := buf[..];
      assert Idents(was);
      hide InsertReq, Lists.Except, RequestTable.Requests.Valid, RequestTable.Requests.Queues;
      var r := NewReq(buf[i], i, io[i].cmd);
      MarkQueued(i);
      req.AddRequest(m, slot, r);
      lists.IdentitiesOnly(was, buf[..], NULL);
    }

    method MarkQueued(i: int)
      requires 0 <= i < buf.Length == |io| && io[i].Pending?
      modifies this`io, buf
      ensures io == old(io)[i := Queued(old(io)[i].cmd)]
      ensures buf[..] == old(buf[..])[i := old(buf[i]).(dirt := false)]
    {
      buf[i] := buf[i].(dirt := false);
      io := io[i := Queued(io[i].cmd)];
    }

    /** end_request(1) on device m after the transfer. */
    method EndRequest(m: int)
      requires Valid() && Enabled(Abs(), Step.Complete(m))
      modifies this, buf, req, req.slots, req.current
      ensures Valid() && Abs() == Apply(old(Abs()), Step.Complete(m)) && log == old(log) + [Step.Complete(m)]
    {
      ghost var s := Abs();
      HeadBuffer(s, m);
      hide Inv, Shape, Enabled, Structure, Abs, Reaches, Apply, CompleteReq;
      Unlink(m);
      Record(s, Step.Complete(m));
    }

    method Unlink(m: int)
      requires Structure() && 0 <= m < NR_BLK_DEV && Abs().queues[m] != []
      requires 0 <= Abs().queues[m][0].bh < buf.Length == |io|
      modifies this`io, this`disk, buf, req, req.slots, req.current
      ensures Structure() && Abs() == CompleteReq(old(Abs()), m, old(Abs()).queues[m][0])
    {
      ghost var was := buf[..];
      assert Idents(was);
      hide Lists.Except, RequestTable.Requests.Valid, RequestTable.Requests.Queues;
      var r := req.EndRequest(m);
      Transfer(r);
      lists.IdentitiesOnly(was, buf[..], NULL);
    }

    /** The device moves the block of request r, and the buffer is unlocked. */
    method Transfer(r: Req)
      requires 0 <= r.bh < buf.Length == |io|
      modifies this`disk, this`io, buf
      ensures var b := old(buf[r.bh]);
        && io == old(io)[r.bh := Idle]
        && (r.cmd == READ ==>
              disk == old(disk)
              && buf[..] == old(buf[..])[r.bh :=
                   b.(lock := false, uptodate := true, data := disk(r.dev, r.sector / 2))])
        && (r.cmd != READ ==>
              disk == WriteDisk(old(disk), r.dev, r.sector / 2, b.data)
              && buf[..] == old(buf[..])[r.bh := b.(lock := false, uptodate := true)])
    {
      var i := r.bh;
      if r.cmd == READ {
        buf[i] := buf[i].(lock := false, uptodate := true, data := disk(r.dev, r.sector / 2));
      } else {
        disk := WriteDisk(disk, r.dev, r.sector / 2, buf[i].data);
        buf[i] := buf[i].(lock := false, uptodate := true);
      }
      io := io[i := Idle];
    }
  }
}
