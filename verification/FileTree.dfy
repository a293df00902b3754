/** The zones of a file: the tree that the nine zone numbers of an inode and its indirect blocks form
    (fs/inode.c, fs/truncate.c), and the partial map from file blocks to zones that it stands for. */
module FileTree {
  type Byte = x: int | 0 <= x < 256

  type Block = b: seq<Byte> | |b| == 1024 witness Zeros()

  const MAX_BLOCKS := 7 + 512 + 512 * 512

  function Zeros(): (b: seq<Byte>)
    ensures |b| == 1024
  {
    seq(1024, _ => 0)
  }

  /** Entry i of an indirect block: 16 bits, low byte first. */
  function Word(b: Block, i: int): (w: int)
    requires 0 <= i < 512
    ensures 0 <= w < 0x10000
  {
    var low: int, high: int := b[2 * i], b[2 * i + 1];
    low + 256 * high
  }

  function PutWord(b: Block, i: int, w: int): Block
    requires 0 <= i < 512 && 0 <= w < 0x10000
  {
    b[2 * i := w % 256][2 * i + 1 := w / 256]
  }

  lemma WordPut(b: Block, i: int, w: int, j: int)
    requires 0 <= i < 512 && 0 <= w < 0x10000 && 0 <= j < 512
    ensures Word(PutWord(b, i, w), j) == if i == j then w else Word(b, j)
  {
  }

  /** One device with its file system. data is what the cache gives for each zone (bread), used the zone bitmap,
      held how many references others have to the zone's buffer, device what the device itself has, and bad
      the zones that cannot be read. Data zones begin at first. */
  datatype Fs = Fs(first: int, data: seq<Block>, used: seq<bool>, held: seq<int>, device: seq<Block>, bad: set<int>)

  predicate Shape(s: Fs) {
    && 1 <= s.first <= |s.data| < 0x10000 && |s.used| == |s.held| == |s.device| == |s.data|
    && forall z :: 0 <= z < |s.held| ==> s.held[z] >= 0
  }

  function Blk(s: Fs, z: int): Block {
    if 0 <= z < |s.data| then s.data[z] else Zeros()
  }

  /** bread(dev, z) succeeds. */
  predicate CanRead(s: Fs, z: int) {
    0 <= z < |s.data| && z !in s.bad
  }

  // ---------------------------------------------------------------- the tree

  /** A place where the tree has a zone number: in the inode, in the indirect block, in the double indirect
      block, or in the indirect block that entry k of the double indirect block names. */
  datatype Slot = Root(i: int) | Ind(k: int) | Mid(k: int) | Leaf(k: int, l: int)

  predicate IsSlot(p: Slot) {
    match p
    case Root(i) => 0 <= i < 9
    case Ind(k) => 0 <= k < 512
    case Mid(k) => 0 <= k < 512
    case Leaf(k, l) => 0 <= k < 512 && 0 <= l < 512
  }

  function Depth(p: Slot): nat {
    match p
    case Root(_) => 0
    case Ind(_) => 1
    case Mid(_) => 1
    case Leaf(_, _) => 2
  }

  /** The slot whose zone is the block that p lies in, and p's place in it. */
  function Parent(p: Slot): (q: Slot)
    requires IsSlot(p) && !p.Root?
    ensures IsSlot(q) && Depth(q) < Depth(p)
  {
    match p
    case Ind(_) => Root(7)
    case Mid(_) => Root(8)
    case Leaf(k, _) => Mid(k)
  }

  function Index(p: Slot): (i: int)
    requires IsSlot(p)
    ensures p.Root? || 0 <= i < 512
  {
    match p
    case Root(i) => i
    case Ind(k) => k
    case Mid(k) => k
    case Leaf(_, l) => l
  }

  /** The zone number in slot p; 0 is none. */
  function At(s: Fs, zone: seq<int>, p: Slot): int
    requires IsSlot(p) && |zone| == 9
    decreases Depth(p)
  {
    if p.Root? then zone[p.i]
    else
      var h := At(s, zone, Parent(p));
      if h == 0 then 0 else Word(Blk(s, h), Index(p))
  }

  /** z is a data zone in use. */
  predicate InUse(s: Fs, z: int) {
    0 <= s.first <= z < |s.used| && s.used[z]
  }

  /** Every zone number in the tree is a data zone in use. */
  ghost predicate Allocated(s: Fs, zone: seq<int>)
    requires |zone| == 9
  {
    forall p :: IsSlot(p) && At(s, zone, p) != 0 ==> InUse(s, At(s, zone, p))
  }

  predicate Same(s: Fs, zone: seq<int>, p: Slot, q: Slot)
    requires |zone| == 9
  {
    IsSlot(p) && IsSlot(q) && At(s, zone, p) != 0 && At(s, zone, p) == At(s, zone, q)
  }

  /** No zone occurs twice in the tree. */
  ghost predicate Unshared(s: Fs, zone: seq<int>)
    requires |zone| == 9
  {
    forall p, q :: Same(s, zone, p, q) ==> p == q
  }

  ghost predicate Inv(s: Fs, zone: seq<int>) {
    Shape(s) && |zone| == 9 && Allocated(s, zone) && Unshared(s, zone)
  }

  // ---------------------------------------------------------------- the map and the file

  /** The slot of file block b. */
  function SlotOf(b: int): (p: Slot)
    requires 0 <= b < MAX_BLOCKS
    ensures IsSlot(p)
  {
    if b < 7 then Root(b) else if b < 7 + 512 then Ind(b - 7) else Leaf((b - 519) / 512, (b - 519) % 512)
  }

  lemma SlotOfInjective(b: int, c: int)
    requires 0 <= b < MAX_BLOCKS && 0 <= c < MAX_BLOCKS && SlotOf(b) == SlotOf(c)
    ensures b == c
  {
  }

  /** The zone of file block b; 0 is a hole. */
  function Lookup(s: Fs, zone: seq<int>, b: int): int
    requires |zone| == 9 && 0 <= b < MAX_BLOCKS
  {
    At(s, zone, SlotOf(b))
  }

  lemma Different(s: Fs, zone: seq<int>, p: Slot, q: Slot)
    requires Inv(s, zone) && IsSlot(p) && IsSlot(q) && p != q && At(s, zone, p) != 0
    ensures At(s, zone, p) != At(s, zone, q)
  {
    assert Same(s, zone, p, q) ==> p == q;
  }

  /** The tree stands for an injective partial map. */
  lemma LookupInjective(s: Fs, zone: seq<int>, b: int, c: int)
    requires Inv(s, zone) && 0 <= b < MAX_BLOCKS && 0 <= c < MAX_BLOCKS
    requires Lookup(s, zone, b) != 0 && Lookup(s, zone, b) == Lookup(s, zone, c)
    ensures b == c
  {
    assert Same(s, zone, SlotOf(b), SlotOf(c));
    SlotOfInjective(b, c);
  }

  /** Byte pos of the logical file; holes read as zero. */
  /** Entry k of block z, 16 bits with the low byte first, as the bytes of the cached block give it; 0 of no block. */
  function RawEntry(s: Fs, z: int, k: int): int
    requires 0 <= k < 512
  {
    if z == 0 then 0
    else if 0 <= z < |s.data| then (s.data[z][2 * k] as int) + 256 * (s.data[z][2 * k + 1] as int)
    else 0
  }

  /** Where file block b lies: in the inode below 7; below 519 in the indirect block; else in the indirect block that
      the double indirect block names in entry (b - 519) / 512, at (b - 519) % 512. */
  lemma LookupExactly(s: Fs, zone: seq<int>, b: int)
    requires |zone| == 9 && 0 <= b < 262663
    ensures b < MAX_BLOCKS
    ensures Lookup(s, zone, b) ==
      if b < 7 then zone[b]
      else if b < 519 then RawEntry(s, zone[7], b - 7)
      else RawEntry(s, RawEntry(s, zone[8], (b - 519) / 512), (b - 519) % 512)
  {
    if 7 <= b < 519 {
      assert At(s, zone, Root(7)) == zone[7];
      EntryIsRaw(s, zone[7], b - 7);
    } else if b >= 519 {
      var k, l := (b - 519) / 512, (b - 519) % 512;
      assert At(s, zone, Root(8)) == zone[8];
      EntryIsRaw(s, zone[8], k);
      assert At(s, zone, Mid(k)) == RawEntry(s, zone[8], k);
      EntryIsRaw(s, RawEntry(s, zone[8], k), l);
    }
  }

  lemma EntryIsRaw(s: Fs, z: int, k: int)
    requires 0 <= k < 512
    ensures RawEntry(s, z, k) == if z == 0 then 0 else Word(Blk(s, z), k)
  {
  }

  /** Byte pos of a file is byte pos % 1024 of the zone of its block pos / 1024, and 0 in a hole. */
  lemma FileByteExactly(s: Fs, zone: seq<int>, pos: int)
    requires |zone| == 9 && 0 <= pos < 262663 * 1024
    ensures var b := pos / 1024;
      var z := if b < 7 then zone[b]
        else if b < 519 then RawEntry(s, zone[7], b - 7)
        else RawEntry(s, RawEntry(s, zone[8], (b - 519) / 512), (b - 519) % 512);
      FileByte(s, zone, pos) == if 0 < z < |s.data| then s.data[z][pos % 1024] else 0
  {
    LookupExactly(s, zone, pos / 1024);
  }

  function FileByte(s: Fs, zone: seq<int>, pos: int): Byte
    requires |zone| == 9 && 0 <= pos < MAX_BLOCKS * 1024
  {
    var z := Lookup(s, zone, pos / 1024);
    if z == 0 then 0 else Blk(s, z)[pos % 1024]
  }

  // ---------------------------------------------------------------- allocation

  /** The first clear bit of the bitmap from z on; 0 if there is none. */
  function FindFree(used: seq<bool>, z: nat): (f: int)
    requires z >= 1
    ensures f == 0 ==> forall y :: z <= y < |used| ==> used[y]
    ensures f != 0 ==> z <= f < |used| && !used[f] && forall y :: z <= y < f ==> used[y]
    decreases |used| - z
  {
    if z >= |used| then 0 else if !used[z] then z else FindFree(used, z + 1)
  }

  /** The documented contract of new_block: the first free zone, now marked used and zeroed, with a valid buffer
      in the cache. */
  function Allocate(s: Fs, z: int): Fs
    requires Shape(s) && 0 <= z < |s.data|
  {
    s.(used := s.used[z := true], data := s.data[z := Zeros()], bad := s.bad - {z})
  }

  /** Zone number z written to entry k of block h. */
  function PutEntry(s: Fs, h: int, k: int, z: int): Fs
    requires 0 <= k < 512 && 0 <= z < 0x10000
  {
    if 0 <= h < |s.data| then s.(data := s.data[h := PutWord(s.data[h], k, z)]) else s
  }

  /** The device with a new zone z in slot p, whose parent exists. */
  function PutFs(s: Fs, zone: seq<int>, p: Slot, z: int): Fs
    requires IsSlot(p) && |zone| == 9 && Shape(s) && 0 <= z < |s.data|
  {
    if p.Root? then Allocate(s, z) else PutEntry(Allocate(s, z), At(s, zone, Parent(p)), Index(p), z)
  }

  function PutZone(zone: seq<int>, p: Slot, z: int): seq<int>
    requires IsSlot(p) && |zone| == 9
  {
    if p.Root? then zone[p.i := z] else zone
  }

  datatype Walk = Walk(s: Fs, zone: seq<int>, r: int)

  /** One level of _bmap: the number in slot p, a new zone if it is 0 and create is set. */
  function Fill(s: Fs, zone: seq<int>, p: Slot, create: bool): Walk
    requires IsSlot(p) && |zone| == 9 && Shape(s)
  {
    var z := FindFree(s.used, s.first);
    var w := At(s, zone, p);
    if create && w == 0 && z != 0 then
      Walk(PutFs(s, zone, p, z), PutZone(zone, p, z), z)
    else Walk(s, zone, w)
  }

  /** _bmap from the inode down to slot p. */
  function Visit(s: Fs, zone: seq<int>, p: Slot, create: bool): (w: Walk)
    requires IsSlot(p) && |zone| == 9 && Shape(s)
    ensures Shape(w.s) && |w.zone| == 9
    decreases Depth(p)
  {
    if p.Root? then Fill(s, zone, p, create)
    else
      var up := Visit(s, zone, Parent(p), create);
      if up.r == 0 || !CanRead(up.s, up.r) then up.(r := 0) else Fill(up.s, up.zone, p, create)
  }

  /** Filling slot p with a fresh zone changes no other entry. */
  lemma {:induction false} FillAt(s: Fs, zone: seq<int>, p: Slot, z: int, q: Slot)
    requires Inv(s, zone) && IsSlot(p) && IsSlot(q) && At(s, zone, p) == 0
    requires !p.Root? ==> At(s, zone, Parent(p)) != 0
    requires s.first <= z < |s.used| && !s.used[z]
    ensures At(PutFs(s, zone, p, z), PutZone(zone, p, z), q) == if q == p then z else At(s, zone, q)
    decreases Depth(q)
  {
    var s', zone' := PutFs(s, zone, p, z), PutZone(zone, p, z);
    if !q.Root? {
      FillAt(s, zone, p, z, Parent(q));
      var h := At(s, zone, Parent(q));
      if Parent(q) == p {
        assert Word(Zeros(), Index(q)) == 0;
      } else if h != 0 {
        assert InUse(s, h);
        if !p.Root? {
          WordPut(s.data[At(s, zone, Parent(p))], Index(p), z, Index(q));
          if At(s, zone, Parent(p)) == h {
            assert Same(s, zone, Parent(p), Parent(q));
          }
        }
      }
    }
  }

  // ---------------------------------------------------------------- what _bmap does to the tree

  /** p lies on the way from the inode to q. */
  predicate OnPath(p: Slot, q: Slot)
    requires IsSlot(q)
    decreases Depth(q)
  {
    p == q || (!q.Root? && OnPath(p, Parent(q)))
  }

  /** Zones only come into use, nothing else about the device changes. */
  ghost predicate Grown(s: Fs, s': Fs) {
    && |s'.data| == |s.data| && |s'.used| == |s.used|
    && s'.first == s.first && s'.held == s.held && s'.device == s.device
    && (forall z :: 0 <= z < |s.used| && s.used[z] ==> s'.used[z])
    && (forall z :: InUse(s, z) ==> (z in s'.bad <==> z in s.bad))
  }

  /** The data zones of the file, as far as they were mapped, hold what they held; new ones hold zeros. */
  ghost predicate SameFile(s: Fs, zone: seq<int>, s': Fs, zone': seq<int>)
    requires |zone| == 9 == |zone'|
  {
    forall pos :: 0 <= pos < MAX_BLOCKS * 1024 ==> FileByte(s', zone', pos) == FileByte(s, zone, pos)
  }

  /** Entries change only on the path to p, and only from 0 to a zone that was free. */
  ghost predicate OnlyAdds(s: Fs, zone: seq<int>, s': Fs, zone': seq<int>, p: Slot)
    requires IsSlot(p) && |zone| == 9 == |zone'|
  {
    forall q :: IsSlot(q) ==> EntryKept(s, zone, s', zone', p, q)
  }

  ghost predicate EntryKept(s: Fs, zone: seq<int>, s': Fs, zone': seq<int>, p: Slot, q: Slot)
    requires IsSlot(p) && IsSlot(q) && |zone| == 9 == |zone'|
  {
    At(s', zone', q) == At(s, zone, q)
    || (OnPath(q, p) && At(s, zone, q) == 0 && 0 <= s.first <= At(s', zone', q) < |s.used| && !s.used[At(s', zone', q)])
  }

  lemma FillInv(s: Fs, zone: seq<int>, p: Slot, z: int)
    requires Inv(s, zone) && IsSlot(p) && At(s, zone, p) == 0
    requires !p.Root? ==> At(s, zone, Parent(p)) != 0
    requires s.first <= z < |s.used| && !s.used[z]
    ensures Inv(PutFs(s, zone, p, z), PutZone(zone, p, z))
  {
    var s', zone' := PutFs(s, zone, p, z), PutZone(zone, p, z);
    forall q | IsSlot(q) && At(s', zone', q) != 0 ensures InUse(s', At(s', zone', q)) {
      FillAt(s, zone, p, z, q);
      assert q != p ==> InUse(s, At(s, zone, q));
    }
    forall q, r | Same(s', zone', q, r) ensures q == r {
      FillAt(s, zone, p, z, q);
      FillAt(s, zone, p, z, r);
      assert q != p && r != p ==> Same(s, zone, q, r);
      assert q != p ==> InUse(s, At(s, zone, q));
      assert r != p ==> InUse(s, At(s, zone, r));
    }
  }

  /** A data block of the file is none of its indirect blocks. */
  lemma FillByte(s: Fs, zone: seq<int>, p: Slot, z: int, pos: int)
    requires Inv(s, zone) && IsSlot(p) && At(s, zone, p) == 0 && 0 <= pos < MAX_BLOCKS * 1024
    requires !p.Root? ==> At(s, zone, Parent(p)) != 0
    requires s.first <= z < |s.used| && !s.used[z]
    ensures FileByte(PutFs(s, zone, p, z), PutZone(zone, p, z), pos) == FileByte(s, zone, pos)
  {
    var q := SlotOf(pos / 1024);
    FillAt(s, zone, p, z, q);
    var y := At(s, zone, q);
    if y != 0 {
      assert InUse(s, y);
    }
    if !p.Root? {
      var h := At(s, zone, Parent(p));
      assert InUse(s, h);
      Different(s, zone, Parent(p), q);
    }
  }

  lemma FillStep(s: Fs, zone: seq<int>, p: Slot, create: bool)
    requires Inv(s, zone) && IsSlot(p) && (!p.Root? ==> At(s, zone, Parent(p)) != 0)
    ensures var w := Fill(s, zone, p, create);
      && Inv(w.s, w.zone) && Grown(s, w.s) && SameFile(s, zone, w.s, w.zone) && OnlyAdds(s, zone, w.s, w.zone, p)
      && w.r == At(w.s, w.zone, p)
  {
    var z := FindFree(s.used, s.first);
    if create && At(s, zone, p) == 0 && z != 0 {
      FillInv(s, zone, p, z);
      var w := Fill(s, zone, p, create);
      forall q | IsSlot(q) ensures EntryKept(s, zone, w.s, w.zone, p, q) {
        FillAt(s, zone, p, z, q);
      }
      FillAt(s, zone, p, z, p);
      forall pos | 0 <= pos < MAX_BLOCKS * 1024 ensures FileByte(w.s, w.zone, pos) == FileByte(s, zone, pos) {
        FillByte(s, zone, p, z, pos);
      }
    }
  }

  /** The way to a file block leads through no other file block's slot. */
  lemma DataOnPath(b: int, c: int)
    requires 0 <= b < MAX_BLOCKS && 0 <= c < MAX_BLOCKS && b != c
    ensures !OnPath(SlotOf(c), SlotOf(b))
  {
    var p := SlotOf(b);
    if SlotOf(c) == p {
      SlotOfInjective(b, c);
    }
    if !p.Root? {
      assert !OnPath(SlotOf(c), Root(7)) && !OnPath(SlotOf(c), Root(8));
      assert p.Leaf? ==> !OnPath(SlotOf(c), Mid(p.k));
    }
  }

  lemma OnPathParent(p: Slot, q: Slot)
    requires IsSlot(p) && !p.Root? && OnPath(q, Parent(p))
    ensures OnPath(q, p)
  {
  }

  lemma OnlyAddsTrans(s: Fs, zone: seq<int>, s1: Fs, zone1: seq<int>, s2: Fs, zone2: seq<int>, p: Slot)
    requires IsSlot(p) && !p.Root? && |zone| == |zone1| == |zone2| == 9 && Grown(s, s1) && Shape(s) && Shape(s1)
    requires OnlyAdds(s, zone, s1, zone1, Parent(p)) && OnlyAdds(s1, zone1, s2, zone2, p)
    ensures OnlyAdds(s, zone, s2, zone2, p)
  {
    forall q | IsSlot(q) ensures EntryKept(s, zone, s2, zone2, p, q) {
      assert EntryKept(s, zone, s1, zone1, Parent(p), q) && EntryKept(s1, zone1, s2, zone2, p, q);
      if At(s1, zone1, q) != At(s, zone, q) {
        OnPathParent(p, q);
      }
    }
  }

  /** _bmap, with or without create, keeps the tree unshared and allocated, changes no byte of the file, and adds
      zones only on the way to the requested slot. */
  lemma {:induction false} VisitStep(s: Fs, zone: seq<int>, p: Slot, create: bool)
    requires Inv(s, zone) && IsSlot(p)
    ensures var w := Visit(s, zone, p, create);
      && Inv(w.s, w.zone) && Grown(s, w.s) && SameFile(s, zone, w.s, w.zone) && OnlyAdds(s, zone, w.s, w.zone, p)
      && (w.r != 0 ==> w.r == At(w.s, w.zone, p))
    decreases Depth(p)
  {
    if p.Root? {
      FillStep(s, zone, p, create);
    } else {
      VisitStep(s, zone, Parent(p), create);
      var up := Visit(s, zone, Parent(p), create);
      if up.r != 0 && CanRead(up.s, up.r) {
        FillStep(up.s, up.zone, p, create);
        var w := Fill(up.s, up.zone, p, create);
        OnlyAddsTrans(s, zone, up.s, up.zone, w.s, w.zone, p);
      } else {
        forall q | IsSlot(q) ensures EntryKept(s, zone, up.s, up.zone, p, q) {
          assert EntryKept(s, zone, up.s, up.zone, Parent(p), q);
          if OnPath(q, Parent(p)) {
            OnPathParent(p, q);
          }
        }
      }
    }
  }

  // ---------------------------------------------------------------- the map

  /** What bmap(inode, b) returns without create. */
  function Bmap(s: Fs, zone: seq<int>, b: int): int
    requires |zone| == 9 && Shape(s) && 0 <= b < MAX_BLOCKS
  {
    Visit(s, zone, SlotOf(b), false).r
  }

  /** The indirect blocks that exist on the way to p are readable. */
  predicate Readable(s: Fs, zone: seq<int>, p: Slot)
    requires IsSlot(p) && |zone| == 9
    decreases Depth(p)
  {
    p.Root? || (Readable(s, zone, Parent(p)) && (At(s, zone, Parent(p)) == 0 || CanRead(s, At(s, zone, Parent(p)))))
  }

  /** bmap changes nothing, and returns the map's zone exactly if it can read its way or there is none. */
  lemma {:induction false} BmapReads(s: Fs, zone: seq<int>, p: Slot)
    requires |zone| == 9 && Shape(s) && IsSlot(p)
    ensures var w := Visit(s, zone, p, false);
      && w.s == s && w.zone == zone
      && w.r == (if Readable(s, zone, p) then At(s, zone, p) else 0)
    decreases Depth(p)
  {
    if !p.Root? {
      BmapReads(s, zone, Parent(p));
    }
  }

  /** bmap tells the truth about block b if and only if its way is readable or there is nothing to find. */
  lemma BmapIsLookup(s: Fs, zone: seq<int>, b: int)
    requires |zone| == 9 && Shape(s) && 0 <= b < MAX_BLOCKS
    ensures Bmap(s, zone, b) == Lookup(s, zone, b) <==> Readable(s, zone, SlotOf(b)) || Lookup(s, zone, b) == 0
  {
    BmapReads(s, zone, SlotOf(b));
  }

  lemma {:induction false} ReadableKept(s: Fs, zone: seq<int>, s': Fs, zone': seq<int>, p: Slot, q: Slot)
    requires Inv(s, zone) && |zone'| == 9 && IsSlot(p) && IsSlot(q)
    requires OnlyAdds(s, zone, s', zone', p) && Grown(s, s') && At(s, zone, q) != 0
    ensures Readable(s', zone', q) == Readable(s, zone, q) && At(s', zone', q) == At(s, zone, q)
    decreases Depth(q)
  {
    assert EntryKept(s, zone, s', zone', p, q);
    if !q.Root? {
      ReadableKept(s, zone, s', zone', p, Parent(q));
      assert InUse(s, At(s, zone, Parent(q)));
    }
  }

  /** A zone that _bmap returns is found again; it returns none only if the device is full or cannot be read. */
  lemma {:induction false} VisitFinds(s: Fs, zone: seq<int>, p: Slot)
    requires Inv(s, zone) && IsSlot(p)
    ensures var w := Visit(s, zone, p, true);
      if w.r != 0 then Readable(w.s, w.zone, p) && At(w.s, w.zone, p) == w.r
      else FindFree(w.s.used, w.s.first) == 0 || !Readable(w.s, w.zone, p)
    decreases Depth(p)
  {
    VisitStep(s, zone, p, true);
    if !p.Root? {
      VisitFinds(s, zone, Parent(p));
      VisitStep(s, zone, Parent(p), true);
      var up := Visit(s, zone, Parent(p), true);
      if up.r != 0 && CanRead(up.s, up.r) {
        FillStep(up.s, up.zone, p, true);
        var w := Fill(up.s, up.zone, p, true);
        ReadableKept(up.s, up.zone, w.s, w.zone, p, Parent(p));
      }
    }
  }

  /** With create, a block that is mapped is found and nothing changes. */
  lemma {:induction false} VisitPresent(s: Fs, zone: seq<int>, p: Slot)
    requires Inv(s, zone) && IsSlot(p) && At(s, zone, p) != 0 && Readable(s, zone, p)
    ensures Visit(s, zone, p, true) == Walk(s, zone, At(s, zone, p))
    decreases Depth(p)
  {
    if !p.Root? {
      VisitPresent(s, zone, Parent(p));
    }
  }

  /** _bmap with create changes the map at the requested block only, where it puts a zone that was free; it
      keeps the tree unshared, changes no byte of the file, and a later bmap of the block returns the same zone. */
  lemma BmapCreates(s: Fs, zone: seq<int>, b: int)
    requires Inv(s, zone) && 0 <= b < MAX_BLOCKS
    ensures var w := Visit(s, zone, SlotOf(b), true);
      && Inv(w.s, w.zone) && Grown(s, w.s) && SameFile(s, zone, w.s, w.zone)
      && (forall c :: 0 <= c < MAX_BLOCKS && c != b ==> Lookup(w.s, w.zone, c) == Lookup(s, zone, c))
      && (forall c :: 0 <= c < MAX_BLOCKS && c != b ==> Bmap(w.s, w.zone, c) == Bmap(s, zone, c))
      && (w.r != 0 ==> Bmap(w.s, w.zone, b) == w.r == Lookup(w.s, w.zone, b))
      && (w.r == 0 ==> FindFree(w.s.used, w.s.first) == 0 || !Readable(w.s, w.zone, SlotOf(b)))
      && (Lookup(s, zone, b) != 0 && Readable(s, zone, SlotOf(b)) ==> w == Walk(s, zone, Lookup(s, zone, b)))
      && (Lookup(s, zone, b) == 0 && w.r != 0 ==> w.r >= s.first && !s.used[w.r])
  {
    var p := SlotOf(b);
    hide Inv, SameFile, SlotOf, OnPath, Readable, At, FindFree;
    var w := Visit(s, zone, p, true);
    VisitStep(s, zone, p, true);
    VisitFinds(s, zone, p);
    BmapReads(w.s, w.zone, p);
    assert EntryKept(s, zone, w.s, w.zone, p, p);
    forall c | 0 <= c < MAX_BLOCKS && c != b
      ensures Lookup(w.s, w.zone, c) == Lookup(s, zone, c) && Bmap(w.s, w.zone, c) == Bmap(s, zone, c)
    {
      assert EntryKept(s, zone, w.s, w.zone, p, SlotOf(c));
      DataOnPath(b, c);
      BmapReads(s, zone, SlotOf(c));
      BmapReads(w.s, w.zone, SlotOf(c));
      if Lookup(s, zone, c) != 0 {
        ReadableKept(s, zone, w.s, w.zone, p, SlotOf(c));
      }
    }
    if Lookup(s, zone, b) != 0 && Readable(s, zone, p) {
      VisitPresent(s, zone, p);
    }
  }

  // ---------------------------------------------------------------- a file with an unreadable indirect block

  /** Zone 1 is an indirect block that cannot be read, zone 2 the data block that it names. */
  function SpoiledFs(): Fs {
    Fs(1, [Zeros(), PutWord(Zeros(), 0, 2), Zeros()[0 := 7]], [true, true, true], [0, 0, 0],
       [Zeros(), Zeros(), Zeros()], {1})
  }

  function SpoiledZone(): seq<int> {
    [0, 0, 0, 0, 0, 0, 0, 1, 0]
  }

  lemma SpoiledAt(p: Slot)
    requires IsSlot(p)
    ensures At(SpoiledFs(), SpoiledZone(), p) == if p == Root(7) then 1 else if p == Ind(0) then 2 else 0
  {
    var s, zone := SpoiledFs(), SpoiledZone();
    assert At(s, zone, Root(7)) == 1 && At(s, zone, Root(8)) == 0;
    match p {
      case Root(i) =>
      case Ind(k) =>
        WordPut(Zeros(), 0, 2, k);
      case Mid(k) =>
      case Leaf(k, l) =>
        assert At(s, zone, Mid(k)) == 0;
    }
  }

  /** The file is well formed, and its one data block, file block 7, cannot be reached. */
  lemma SpoiledInv()
    ensures Inv(SpoiledFs(), SpoiledZone()) && At(SpoiledFs(), SpoiledZone(), Ind(0)) == 2
    ensures SlotOf(7) == Ind(0) && !Readable(SpoiledFs(), SpoiledZone(), Ind(0))
  {
    var s, zone := SpoiledFs(), SpoiledZone();
    SpoiledAt(Root(7));
    SpoiledAt(Ind(0));
    forall p | IsSlot(p) && At(s, zone, p) != 0 ensures InUse(s, At(s, zone, p)) {
      SpoiledAt(p);
    }
    forall p, q | Same(s, zone, p, q) ensures p == q {
      SpoiledAt(p);
      SpoiledAt(q);
    }
  }
}
