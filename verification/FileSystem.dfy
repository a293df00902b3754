/** The device, its bitmap and an inode in place: new_block by its contract, free_block (fs/bitmap.c), _bmap
    (fs/inode.c) and file_read (fs/file_dev.c). A panic is a result after which nothing runs. */
module FileSystem {
  import opened FileTree
  import opened Truncation

  const ERROR := 99

  class Inode {
    const zone: array<int>
    var mode: int
    var size: int
    var dirt: bool

    constructor (z: seq<int>, mode: int, size: int)
      requires |z| == 9
      ensures zone[..] == z && fresh(zone) && this.mode == mode && this.size == size && !dirt
    {
      zone := new int[9](i requires 0 <= i < 9 => z[i]);
      this.mode, this.size, dirt := mode, size, false;
      new;
      assert zone[..] == z;
    }
  }

  datatype Mapped = Zone(z: int) | Panic

  /** The open file: its position. */
  class OpenFile {
    var pos: int

    constructor (p: int)
      ensures pos == p
    {
      pos := p;
    }
  }

  datatype ReadResult = Count(n: int) | Stopped

  /** What file_read delivers for byte pos: through an indirect block that cannot be read, bmap finds a hole. */
  function SeenByte(s: Fs, zone: seq<int>, pos: int): Byte
    requires |zone| == 9 && Shape(s) && 0 <= pos < MAX_BLOCKS * 1024
  {
    var z := FileTree.Bmap(s, zone, pos / 1024);
    if z == 0 then 0 else Blk(s, z)[pos % 1024]
  }

  /** n bytes of the logical file from pos on. */
  function FileSlice(s: Fs, zone: seq<int>, pos: int, n: int): seq<int>
    requires |zone| == 9 && 0 <= pos && 0 <= n && pos + n <= MAX_BLOCKS * 1024
  {
    seq(n, i requires 0 <= i < n => FileByte(s, zone, pos + i))
  }

  function SeenSlice(s: Fs, zone: seq<int>, pos: int, n: int): seq<int>
    requires |zone| == 9 && Shape(s) && 0 <= pos && 0 <= n && pos + n <= MAX_BLOCKS * 1024
  {
    seq(n, i requires 0 <= i < n => SeenByte(s, zone, pos + i))
  }

  /** The byte delivered is the file's if and only if the way to its block can be read or the byte is 0. */
  lemma SeenByteExactly(s: Fs, zone: seq<int>, pos: int)
    requires |zone| == 9 && Shape(s) && 0 <= pos < MAX_BLOCKS * 1024
    ensures SeenByte(s, zone, pos) == FileByte(s, zone, pos)
            <==> Readable(s, zone, SlotOf(pos / 1024)) || FileByte(s, zone, pos) == 0
    ensures !Readable(s, zone, SlotOf(pos / 1024)) ==> SeenByte(s, zone, pos) == 0
  {
    BmapReads(s, zone, SlotOf(pos / 1024));
  }

  /** The slice grows by a piece of one block. */
  lemma SliceMore(s: Fs, zone: seq<int>, pos: int, n: int, z: int, chars: int)
    requires |zone| == 9 && Shape(s) && 0 <= pos && 0 <= n && 0 < chars && pos + n + chars <= MAX_BLOCKS * 1024
    requires (pos + n) % 1024 + chars <= 1024 && z == FileTree.Bmap(s, zone, (pos + n) / 1024)
    ensures var off := (pos + n) % 1024;
      SeenSlice(s, zone, pos, n + chars) ==
        SeenSlice(s, zone, pos, n) + (if z == 0 then Zeros()[off..off + chars] else Blk(s, z)[off..off + chars])
  {
    var off := (pos + n) % 1024;
    var l, r := SeenSlice(s, zone, pos, n + chars),
      SeenSlice(s, zone, pos, n) + (if z == 0 then Zeros()[off..off + chars] else Blk(s, z)[off..off + chars]);
    forall i | 0 <= i < n + chars ensures l[i] == r[i] {
      if i >= n {
        var q := (pos + n) / 1024;
        assert pos + i == 1024 * q + (off + i - n) && 0 <= off + i - n < 1024;
        assert (pos + i) / 1024 == q && (pos + i) % 1024 == off + i - n;
      }
    }
  }

  /** file_read passes over block b: it is a hole for bmap, or its zone can be read. */
  predicate Passes(s: Fs, zone: seq<int>, b: int)
    requires |zone| == 9 && Shape(s) && 0 <= b < MAX_BLOCKS
  {
    !NotReadable(s, FileTree.Bmap(s, zone, b))
  }

  /** out is the slice from pos that file_read should deliver, and all its blocks can be passed. */
  ghost predicate Delivered(s: Fs, zone: seq<int>, pos: int, out: seq<int>)
    requires |zone| == 9 && Shape(s) && pos >= 0
  {
    out == [] ||
    (pos + |out| <= MAX_BLOCKS * 1024 && out == SeenSlice(s, zone, pos, |out|)
     && forall b :: pos / 1024 <= b <= (pos + |out| - 1) / 1024 ==> Passes(s, zone, b))
  }

  lemma LastBlock(p: int, chars: int)
    requires p >= 0 && chars > 0 && p % 1024 + chars <= 1024
    ensures (p + chars - 1) / 1024 == p / 1024
  {
  }

  lemma EarlierBlock(p: int, b: int)
    requires b < p / 1024
    ensures b <= (p - 1) / 1024
  {
  }

  lemma DeliveredMore(s: Fs, zone: seq<int>, pos: int, out: seq<int>, z: int, chars: int, piece: seq<int>)
    requires |zone| == 9 && Shape(s) && pos >= 0 && Delivered(s, zone, pos, out)
    requires chars > 0 && (pos + |out|) % 1024 + chars <= 1024 && (pos + |out|) / 1024 < MAX_BLOCKS
    requires z == FileTree.Bmap(s, zone, (pos + |out|) / 1024) && !NotReadable(s, z)
    requires var off := (pos + |out|) % 1024;
      piece == if z == 0 then Zeros()[off..off + chars] else Blk(s, z)[off..off + chars]
    ensures Delivered(s, zone, pos, out + piece)
  {
    assert out == SeenSlice(s, zone, pos, |out|);
    SliceMore(s, zone, pos, |out|, z, chars);
    hide FileTree.Bmap, SeenSlice, Blk;
    assert |out + piece| == |out| + chars && Passes(s, zone, (pos + |out|) / 1024);
    MorePass(s, zone, pos, |out|, chars);
    hide Passes;
  }

  /** With the block of the next piece all blocks up to it can be passed. */
  lemma MorePass(s: Fs, zone: seq<int>, pos: int, n: nat, chars: int)
    requires |zone| == 9 && Shape(s) && pos >= 0 && pos + n <= MAX_BLOCKS * 1024
    requires chars > 0 && (pos + n) % 1024 + chars <= 1024 && (pos + n) / 1024 < MAX_BLOCKS
    requires n > 0 ==> forall b :: pos / 1024 <= b <= (pos + n - 1) / 1024 ==> Passes(s, zone, b)
    requires Passes(s, zone, (pos + n) / 1024)
    ensures forall b :: pos / 1024 <= b <= (pos + n + chars - 1) / 1024 ==> Passes(s, zone, b)
  {
    hide Passes, Shape;
    LastBlock(pos + n, chars);
    forall b | pos / 1024 <= b <= (pos + n + chars - 1) / 1024 ensures Passes(s, zone, b) {
      if b < (pos + n) / 1024 {
        EarlierBlock(pos + n, b);
      }
    }
  }

  /** What file_read(count) does from position pos: it delivers out, leaves the position at pos1 and returns r. It
      panics only behind the largest mappable block, and stops early only at a block that cannot be read. */
  ghost predicate Reads(s: Fs, zone: seq<int>, pos: int, count: int, r: ReadResult, out: seq<int>, pos1: int)
    requires |zone| == 9 && Shape(s) && pos >= 0
  {
    && Delivered(s, zone, pos, out) && |out| <= (if count > 0 then count else 0) && pos1 == pos + |out|
    && (count <= 0 ==> r == Count(0))
    && (r.Stopped? ==> pos1 / 1024 >= MAX_BLOCKS && |out| < count)
    && (count > 0 && r.Count? ==> r.n == if out == [] then -ERROR else |out|)
    && (count > 0 && r.Count? && |out| < count ==>
          pos1 / 1024 < MAX_BLOCKS && NotReadable(s, FileTree.Bmap(s, zone, pos1 / 1024)))
  }

  predicate NotReadable(s: Fs, z: int) {
    z != 0 && !CanRead(s, z)
  }

  /** Within the mappable size file_read returns count, and moves the position by it, if and only if it can pass all
      the blocks of the range. */
  lemma ReadIsComplete(s: Fs, zone: seq<int>, pos: int, count: int, r: ReadResult, out: seq<int>, pos1: int)
    requires |zone| == 9 && Shape(s) && pos >= 0 && count > 0 && pos + count <= MAX_BLOCKS * 1024
    requires Reads(s, zone, pos, count, r, out, pos1)
    ensures r == Count(count) && pos1 == pos + count
            <==> forall b :: pos / 1024 <= b <= (pos + count - 1) / 1024 ==> Passes(s, zone, b)
  {
    if |out| < count {
      assert pos1 / 1024 < MAX_BLOCKS && !Passes(s, zone, pos1 / 1024);
    }
  }

  /** Within the mappable size file_read fails, with -99 and without moving, if and only if the first block stops it;
      otherwise it returns what it has delivered, and has delivered all up to the first block that stops it. */
  lemma ReadFails(s: Fs, zone: seq<int>, pos: int, count: int, r: ReadResult, out: seq<int>, pos1: int)
    requires |zone| == 9 && Shape(s) && pos >= 0 && count > 0 && pos + count <= MAX_BLOCKS * 1024
    requires Reads(s, zone, pos, count, r, out, pos1)
    ensures r == Count(-99) && out == [] && pos1 == pos <==> !Passes(s, zone, pos / 1024)
    ensures out != [] ==> r == Count(|out|) && pos1 == pos + |out| && out == SeenSlice(s, zone, pos, |out|)
    ensures forall b :: pos / 1024 <= b <= (pos + |out| - 1) / 1024 && out != [] ==> Passes(s, zone, b)
    ensures |out| < count ==> !Passes(s, zone, (pos + |out|) / 1024)
  {
  }

  /** The blocks of the range, and the indirect blocks on the way to them, can be read. */
  ghost predicate RangeReadable(s: Fs, zone: seq<int>, pos: int, count: int)
    requires |zone| == 9 && 0 <= pos && 0 < count && pos + count <= MAX_BLOCKS * 1024
  {
    forall b :: pos / 1024 <= b <= (pos + count - 1) / 1024 ==> BlockReadable(s, zone, b)
  }

  predicate BlockReadable(s: Fs, zone: seq<int>, b: int)
    requires |zone| == 9 && 0 <= b < MAX_BLOCKS
  {
    var z := FileTree.Lookup(s, zone, b);
    Readable(s, zone, SlotOf(b)) && (z == 0 || (0 < z < |s.data| && z !in s.bad))
  }

  /** When its range can be read, and within the mappable size, file_read is a slice of the logical file: it delivers
      count bytes, holes as zeros, returns count and advances the position by count. */
  lemma ReadIsSlice(s: Fs, zone: seq<int>, pos: int, count: int, r: ReadResult, out: seq<int>, pos1: int)
    requires |zone| == 9 && Shape(s) && pos >= 0 && count > 0 && pos + count <= MAX_BLOCKS * 1024
    requires RangeReadable(s, zone, pos, count) && Reads(s, zone, pos, count, r, out, pos1)
    ensures r == Count(count) && out == FileSlice(s, zone, pos, count) && pos1 == pos + count
  {
    forall b | pos / 1024 <= b <= (pos + count - 1) / 1024 ensures Passes(s, zone, b) {
      assert BlockReadable(s, zone, b);
      BmapIsLookup(s, zone, b);
    }
    ReadIsComplete(s, zone, pos, count, r, out, pos1);
    hide Shape, Passes, BlockReadable;
    forall k | pos <= k < pos + count ensures SeenByte(s, zone, k) == FileByte(s, zone, k) {
      RangeWay(s, zone, pos, count, k);
      SeenByteExactly(s, zone, k);
    }
    hide SeenByte, FileByte;
  }

  lemma RangeWay(s: Fs, zone: seq<int>, pos: int, count: int, k: int)
    requires |zone| == 9 && 0 <= pos <= k < pos + count && pos + count <= MAX_BLOCKS * 1024
    requires RangeReadable(s, zone, pos, count)
    ensures Readable(s, zone, SlotOf(k / 1024))
  {
    assert BlockReadable(s, zone, k / 1024);
  }

  /** On a well-formed file whose indirect block cannot be read file_read delivers 0 for a byte that is 7, and
      reports no error. */
  lemma ZerosForData()
    ensures Inv(SpoiledFs(), SpoiledZone())
    ensures FileByte(SpoiledFs(), SpoiledZone(), 7 * 1024) == 7 && SeenByte(SpoiledFs(), SpoiledZone(), 7 * 1024) == 0
    ensures Reads(SpoiledFs(), SpoiledZone(), 7 * 1024, 1, Count(1), [0], 7 * 1024 + 1)
  {
    var s, zone := SpoiledFs(), SpoiledZone();
    SpoiledInv();
    SeenByteExactly(s, zone, 7 * 1024);
    BmapReads(s, zone, Ind(0));
    assert SeenSlice(s, zone, 7 * 1024, 1) == [0];
  }

  /** The number that Fill returns is the one in the slot. */
  lemma MidFilled(s: Fs, zone: seq<int>, k: int, create: bool)
    requires Shape(s) && |zone| == 9 && 0 <= k < 512 && zone[8] != 0
    ensures var w := Fill(s, zone, Mid(k), create);
      w.zone == zone && (CanRead(s, zone[8]) ==> At(w.s, zone, Mid(k)) == w.r)
  {
    var z := FindFree(s.used, s.first);
    assert At(s, zone, Root(8)) == zone[8];
    if z != 0 && CanRead(s, zone[8]) {
      WordPut(Blk(Allocate(s, z), zone[8]), k, z, k);
    }
  }

  class Device {
    const first: int
    const data: array<Block>
    const used: array<bool>
    const held: array<int>
    const device: seq<Block>
    var bad: set<int>

    ghost function Abs(): Fs
      reads this, data, used, held
    {
      Fs(first, data[..], used[..], held[..], device, bad)
    }

    ghost predicate Valid()
      reads this, data, used, held
    {
      Shape(Abs())
    }

    constructor (s: Fs)
      requires Shape(s)
      ensures Valid() && Abs() == s && fresh(data) && fresh(used) && fresh(held)
    {
      first := s.first;
      data := new Block[|s.data|](i requires 0 <= i < |s.data| => s.data[i]);
      used := new bool[|s.used|](i requires 0 <= i < |s.used| => s.used[i]);
      held := new int[|s.held|](i requires 0 <= i < |s.held| => s.held[i]);
      device := s.device;
      bad := s.bad;
      new;
      assert data[..] == s.data && used[..] == s.used && held[..] == s.held;
    }

    /** What the source writes above its stub: the first free zone, marked used and zeroed, or 0. */
    method NewBlock() returns (z: int)
      requires Valid()
      modifies this`bad, data, used
      ensures Valid() && z == FindFree(old(used[..]), first)
      ensures Abs() == if z == 0 then old(Abs()) else Allocate(old(Abs()), z)
    {
      z := FindFree(used[..], first);
      if z != 0 {
        used[z] := true;
        data[z] := Zeros();
        bad := bad - {z};
      }
    }

    method FreeBlock(z: int) returns (ok: bool)
      requires Valid()
      modifies data, used, held
      ensures Valid() && Freed(Abs(), ok) == FreeZone(old(Abs()), z)
    {
      if z < first || z >= data.Length {
        return false;
      }
      if held[z] > 0 {
        held[z] := held[z] + 1;
        return true;
      }
      data[z] := device[z];
      ok := used[z];
      used[z] := false;
      assert !ok ==> used[..] == old(used[..]);
    }

    /** bread, without its data. */
    method Bread(z: int) returns (ok: bool)
      requires Valid()
      modifies held
      ensures Valid() && ok == CanRead(Abs(), z) && Abs() == if ok then Hold(old(Abs()), z, 1) else old(Abs())
    {
      ok := 0 <= z < data.Length && z !in bad;
      if ok {
        held[z] := held[z] + 1;
      }
    }

    method Brelse(z: int)
      requires Valid() && 0 <= z < held.Length && held[z] > 0
      modifies held
      ensures Valid() && Abs() == Hold(old(Abs()), z, -1)
    {
      held[z] := held[z] - 1;
    }

    // -------------------------------------------------------------- _bmap

    /** Zone number i of the inode, with a new zone if it is 0 and create is set. */
    method RootEntry(ino: Inode, i: int, create: bool) returns (z: int)
      requires Valid() && ino.zone.Length == 9 && 0 <= i < 9 && ino.zone != held
      modifies this`bad, data, used, ino`dirt, ino.zone
      ensures Valid() && Walk(Abs(), ino.zone[..], z) == Fill(old(Abs()), old(ino.zone[..]), Root(i), create)
      ensures ino.dirt <==> old(ino.dirt) || ino.zone[..] != old(ino.zone[..])
    {
      ghost var s, zone := Abs(), ino.zone[..];
      assert zone[i := zone[i]] == zone;
      if create && ino.zone[i] == 0 {
        ino.zone[i] := NewBlock();
        assert ino.zone[..] == zone[i := ino.zone[i]];
        if ino.zone[i] != 0 {
          ino.dirt := true;
        }
      }
      z := ino.zone[i];
    }

    /** Entry k of the indirect block h, which slot p names, read with bread and released with brelse. */
    method Entry(h: int, k: int, create: bool, ghost zone: seq<int>, ghost p: Slot) returns (z: int)
      requires Valid() && |zone| == 9 && IsSlot(p) && !p.Root? && At(Abs(), zone, Parent(p)) == h != 0 && Index(p) == k
      modifies this`bad, data, used, held
      ensures Valid()
      ensures Walk(Abs(), zone, z) ==
                if CanRead(old(Abs()), h) then Fill(old(Abs()), zone, p, create) else Walk(old(Abs()), zone, 0)
    {
      ghost var s := Abs();
      var ok := Bread(h);
      if !ok {
        return 0;
      }
      z := Word(data[h], k);
      if create && z == 0 {
        z := NewBlock();
        if z != 0 {
          data[h] := PutWord(data[h], k, z);
        }
      }
      Brelse(h);
      assert held[..] == s.held;
    }

    /** _bmap for entry b of the indirect block. */
    method BmapInd(ino: Inode, b: int, create: bool) returns (z: int)
      requires Valid() && ino.zone.Length == 9 && ino.zone != held && 0 <= b < 512
      modifies this`bad, data, used, held, ino`dirt, ino.zone
      ensures Valid() && Walk(Abs(), ino.zone[..], z) == Visit(old(Abs()), old(ino.zone[..]), Ind(b), create)
      ensures ino.dirt <==> old(ino.dirt) || ino.zone[..] != old(ino.zone[..])
    {
      hide Shape, FindFree, Word, PutWord, Blk;
      z := RootEntry(ino, 7, create);
      if z != 0 {
        z := Entry(z, b, create, ino.zone[..], Ind(b));
      }
    }

    /** _bmap for entry b of the double indirect block's tree. */
    method BmapDind(ino: Inode, b: int, create: bool) returns (z: int)
      requires Valid() && ino.zone.Length == 9 && ino.zone != held && 0 <= b < 512 * 512
      modifies this`bad, data, used, held, ino`dirt, ino.zone
      ensures Valid()
      ensures Walk(Abs(), ino.zone[..], z) == Visit(old(Abs()), old(ino.zone[..]), Leaf(b / 512, b % 512), create)
      ensures ino.dirt <==> old(ino.dirt) || ino.zone[..] != old(ino.zone[..])
    {
      hide Shape, FindFree, Word, PutWord, Blk;
      ghost var s, zone := Abs(), ino.zone[..];
      z := RootEntry(ino, 8, create);
      assert Walk(Abs(), ino.zone[..], z) == Visit(s, zone, Root(8), create);
      if z != 0 {
        MidFilled(Abs(), ino.zone[..], b / 512, create);
        z := Entry(z, b / 512, create, ino.zone[..], Mid(b / 512));
        assert Walk(Abs(), ino.zone[..], z) == Visit(s, zone, Mid(b / 512), create);
        if z != 0 {
          z := Entry(z, b % 512, create, ino.zone[..], Leaf(b / 512, b % 512));
        }
      }
    }

    /** _bmap. */
    method Bmap(ino: Inode, block: int, create: bool) returns (r: Mapped)
      requires Valid() && ino.zone.Length == 9 && ino.zone != held
      modifies this`bad, data, used, held, ino`dirt, ino.zone
      ensures Valid() && (r.Panic? <==> !(0 <= block < MAX_BLOCKS))
      ensures r.Panic? ==> Abs() == old(Abs()) && ino.zone[..] == old(ino.zone[..]) && ino.dirt == old(ino.dirt)
      ensures r.Zone? ==>
        && Walk(Abs(), ino.zone[..], r.z) == Visit(old(Abs()), old(ino.zone[..]), SlotOf(block), create)
        && (ino.dirt <==> old(ino.dirt) || ino.zone[..] != old(ino.zone[..]))
    {
      if block < 0 || block >= MAX_BLOCKS {
        return Panic;
      }
      hide Shape, Fill;
      var z: int;
      if block < 7 {
        z := RootEntry(ino, block, create);
        return Zone(z);
      }
      var b := block - 7;
      if b < 512 {
        z := BmapInd(ino, b, create);
        return Zone(z);
      }
      b := b - 512;
      z := BmapDind(ino, b, create);
      return Zone(z);
    }

    // -------------------------------------------------------------- file_read

    /** One round of file_read's loop: at most chars bytes of the block of position pos; Nothing if it cannot be
        read. */
    method ReadPiece(ino: Inode, pos: int, chars: int) returns (m: Mapped, ok: bool, piece: seq<int>)
      requires Valid() && ino.zone.Length == 9 && ino.zone != held && pos >= 0 && chars >= 0
      requires pos % 1024 + chars <= 1024
      modifies this`bad, data, used, held, ino`dirt, ino.zone
      ensures Valid() && Abs() == old(Abs()) && ino.zone[..] == old(ino.zone[..]) && ino.dirt == old(ino.dirt)
      ensures m == if pos / 1024 < MAX_BLOCKS then Zone(FileTree.Bmap(Abs(), ino.zone[..], pos / 1024)) else Panic
      ensures ok <==> m.Zone? && (m.z == 0 || CanRead(Abs(), m.z))
      ensures ok ==> var off := pos % 1024;
        piece == if m.z == 0 then Zeros()[off..off + chars] else Blk(Abs(), m.z)[off..off + chars]
    {
      ghost var s, zone := Abs(), ino.zone[..];
      if pos / 1024 < MAX_BLOCKS {
        BmapReads(s, zone, SlotOf(pos / 1024));
      }
      hide Visit, SlotOf, Shape;
      m := Bmap(ino, pos / 1024, false);
      ok, piece := m.Zone?, [];
      if ok {
        var off := pos % 1024;
        if m.z == 0 {
          piece := Zeros()[off..off + chars];
        } else {
          ok := Bread(m.z);
          if ok {
            piece := data[m.z][off..off + chars];
            Brelse(m.z);
            HoldBack(s, m.z);
          }
        }
      }
    }

    /** How much of the rest the block of position pos still has: MIN(BLOCK_SIZE - nr, left). */
    function Chars(pos: int, left: int): (chars: int)
      requires pos >= 0 && left > 0
      ensures 0 < chars <= left && pos % 1024 + chars <= 1024
    {
      if 1024 - pos % 1024 < left then 1024 - pos % 1024 else left
    }

    /** file_read. It panics only behind the largest mappable block, and stops early only at a block that cannot
        be read. */
    method FileRead(ino: Inode, f: OpenFile, count: int) returns (r: ReadResult, out: seq<int>)
      requires Valid() && ino.zone.Length == 9 && ino.zone != held && f.pos >= 0
      modifies this`bad, data, used, held, ino`dirt, ino.zone, f
      ensures Valid() && Abs() == old(Abs()) && ino.zone[..] == old(ino.zone[..]) && ino.dirt == old(ino.dirt)
      ensures Reads(old(Abs()), old(ino.zone[..]), old(f.pos), count, r, out, f.pos)
    {
      ghost var s, zone, pos0 := Abs(), ino.zone[..], f.pos;
      out := [];
      var left := count;
      if left <= 0 {
        return Count(0), out;
      }
      hide FileTree.Bmap, Shape, Delivered, Blk, CanRead, Passes, Chars;
      while left > 0
        invariant Valid() && Abs() == s && ino.zone[..] == zone && ino.dirt == old(ino.dirt)
        invariant left >= 0 && |out| == count - left && f.pos == pos0 + |out|
        invariant Delivered(s, zone, pos0, out)
      {
        var chars := Chars(f.pos, left);
        var m, ok, piece := ReadPiece(ino, f.pos, chars);
        if m.Panic? {
          return Stopped, out;
        }
        if !ok {
          break;
        }
        DeliveredMore(s, zone, pos0, out, m.z, chars, piece);
        f.pos := f.pos + chars;
        left := left - chars;
        out := out + piece;
      }
      r := Count(if out == [] then -ERROR else |out|);
    }

    // -------------------------------------------------------------- truncate

    /** The loop of free_ind over the block it holds. */
    method FreeKids(z: int) returns (ok: bool)
      requires Valid() && 0 <= z < data.Length && held[z] > 0
      modifies data, used, held
      ensures Valid() && Freed(Abs(), ok) == FreeAll(old(Abs()), Kids(old(data[z]), 0))
    {
      ghost var s, b := Abs(), data[z];
      hide Shape, FreeZone, FreeAll, Kids, Word;
      for i := 0 to 512
        invariant Valid() && data[z] == b && held[z] > 0
        invariant FreeAll(s, Kids(b, 0)) == FreeAll(Abs(), Kids(b, i))
      {
        ghost var s1 := Abs();
        KidsRound(s1, b, i);
        var w := Word(data[z], i);
        if w != 0 {
          OneHeld(s1, w, z);
          ok := FreeBlock(w);
          if !ok {
            return;
          }
        }
      }
      NoKids(Abs(), b);
      ok := true;
    }

    /** free_ind. */
    method FreeInd(z: int) returns (ok: bool)
      requires Valid()
      modifies data, used, held
      ensures Valid() && Freed(Abs(), ok) == Truncation.FreeInd(old(Abs()), z)
    {
      if z == 0 {
        return true;
      }
      hide FreeZone, FreeAll, Kids;
      ok := Bread(z);
      if ok {
        ok := FreeKids(z);
        if !ok {
          return;
        }
        Brelse(z);
      }
      ok := FreeBlock(z);
    }

    /** The loop of free_dind over the block it holds. */
    method FreeMids(z: int) returns (ok: bool)
      requires Valid() && 0 <= z < data.Length && held[z] > 0
      modifies data, used, held
      ensures Valid() && Freed(Abs(), ok) == FreeInds(old(Abs()), Kids(old(data[z]), 0))
    {
      ghost var s, b := Abs(), data[z];
      hide Shape, Truncation.FreeInd, FreeInds, FreeAll, FreeZone, Kids, Word;
      for i := 0 to 512
        invariant Valid() && data[z] == b && held[z] > 0
        invariant FreeInds(s, Kids(b, 0)) == FreeInds(Abs(), Kids(b, i))
      {
        ghost var s1 := Abs();
        MidsRound(s1, b, i);
        var w := Word(data[z], i);
        if w != 0 {
          FreeIndHeld(s1, w, z);
          ok := FreeInd(w);
          if !ok {
            return;
          }
        }
      }
      NoKids(Abs(), b);
      ok := true;
    }

    /** free_dind. */
    method FreeDind(z: int) returns (ok: bool)
      requires Valid()
      modifies data, used, held
      ensures Valid() && Freed(Abs(), ok) == Truncation.FreeDind(old(Abs()), z)
    {
      if z == 0 {
        return true;
      }
      hide FreeZone, FreeInds, Kids;
      ok := Bread(z);
      if ok {
        ok := FreeMids(z);
        if !ok {
          return;
        }
        Brelse(z);
      }
      ok := FreeBlock(z);
    }

    /** truncate: what it does to the device and the zone numbers is CutAll; other files than regular files and
        directories are left alone. */
    method Truncate(ino: Inode) returns (ok: bool)
      requires Valid() && ino.zone.Length == 9 && ino.zone != held
      modifies data, used, held, ino, ino.zone
      ensures Valid() && ino.mode == old(ino.mode)
      ensures !(RegularOrDirectory(ino.mode)) ==>
        && ok && Abs() == old(Abs()) && ino.zone[..] == old(ino.zone[..])
        && ino.size == old(ino.size) && ino.dirt == old(ino.dirt)
      ensures RegularOrDirectory(ino.mode) ==>
        && Cut(Abs(), ino.zone[..], ok) == CutAll(old(Abs()), old(ino.zone[..]))
        && (ok ==> ino.size == 0 && ino.dirt)
    {
      if !RegularOrDirectory(ino.mode) {
        return true;
      }
      ok := CutDirectZones(ino);
      if !ok {
        return;
      }
      hide Truncation.FreeInd, Truncation.FreeDind;
      ok := FreeInd(ino.zone[7]);
      if !ok {
        return;
      }
      ok := FreeDind(ino.zone[8]);
      if !ok {
        return;
      }
      ghost var zone := ino.zone[..];
      ino.zone[7] := 0;
      ino.zone[8] := 0;
      assert ino.zone[..] == zone[7 := 0][8 := 0];
      ino.size := 0;
      ino.dirt := true;
    }

    /** The first loop of truncate. */
    method CutDirectZones(ino: Inode) returns (ok: bool)
      requires Valid() && ino.zone.Length == 9 && ino.zone != held
      modifies data, used, held, ino.zone
      ensures Valid() && Cut(Abs(), ino.zone[..], ok) == CutDirect(old(Abs()), old(ino.zone[..]), 0)
    {
      ghost var s, zone := Abs(), ino.zone[..];
      hide FreeZone, Shape;
      ghost var i0 := 0;
      for i := 0 to 7
        invariant Valid() && CutDirect(s, zone, i0) == CutDirect(Abs(), ino.zone[..], i)
      {
        if ino.zone[i] != 0 {
          ghost var zone1 := ino.zone[..];
          ok := FreeBlock(ino.zone[i]);
          if !ok {
            return;
          }
          ino.zone[i] := 0;
          assert ino.zone[..] == zone1[i := 0];
        }
      }
      ok := true;
    }
  }

  /** S_ISREG(mode) || S_ISDIR(mode): the top four bits of the 16-bit mode. */
  /** S_ISREG or S_ISDIR: the type is in bits 12-15 of the mode. */
  predicate RegularOrDirectory(mode: int) {
    mode / 0x1000 % 16 == 8 || mode / 0x1000 % 16 == 4
  }

  /** A 16-bit mode says regular file from 0x8000 and directory from 0x4000 on, for 0x1000 each. */
  lemma ModesExactly(mode: int)
    requires 0 <= mode < 0x1_0000
    ensures RegularOrDirectory(mode) <==> 0x8000 <= mode < 0x9000 || 0x4000 <= mode < 0x5000
  {
  }

  lemma OneHeld(s: Fs, w: int, z: int)
    requires Shape(s) && 0 <= z < |s.held| && s.held[z] > 0
    ensures FreeZone(s, w).s.data[z] == s.data[z] && FreeZone(s, w).s.held[z] > 0
  {
  }

  lemma NoKids(s: Fs, b: Block)
    requires Shape(s)
    ensures FreeAll(s, Kids(b, 512)) == Freed(s, true) == FreeInds(s, Kids(b, 512))
  {
  }
}
