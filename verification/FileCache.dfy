/** Where the two halves meet: the blocks that FileTree and Truncation speak of are contents of the buffer cache,
    and free_block's dealings with the cache are steps of its state machine. */
module FileCache {
  import opened CacheState
  import FileTree
  import Truncation
  import BufferCache

  /** Buffer i stands for zone z of the device. */
  predicate Stands(s: Sys, i: int, dev: int, z: int) {
    IsBuffer(s, i) && Holds(s.bufs[i], dev, z)
  }

  /** The references on the buffer of zone z. */
  ghost function References(s: Sys, dev: int, z: int): int {
    if exists i :: Stands(s, i, dev, z) then (var i :| Stands(s, i, dev, z); s.bufs[i].count) else 0
  }

  ghost predicate Shows(s: Sys, dev: int, data: seq<FileTree.Block>) {
    forall z :: 0 <= z < |data| ==> data[z] == Content(s, dev, z)
  }

  /** fs is what the cache and its device number dev come to for the file system code. */
  ghost predicate Presents(s: Sys, dev: int, fs: FileTree.Fs) {
    && |fs.device| == |fs.held| == |fs.data| && Shows(s, dev, fs.data)
    && forall z :: 0 <= z < |fs.data| ==> fs.device[z] == s.disk(dev, z) && fs.held[z] == References(s, dev, z)
  }

  lemma ReferencesOf(s: Sys, i: int, dev: int, z: int)
    requires Unique(s) && dev != 0 && Stands(s, i, dev, z)
    ensures References(s, dev, z) == s.bufs[i].count
  {
  }

  /** What bread returns is what the file system code expects in the block. */
  lemma ReadsShown(s: Sys, i: int, dev: int, z: int, data: seq<FileTree.Block>)
    requires Inv(s) && dev != 0 && Shows(s, dev, data) && 0 <= z < |data| && Stands(s, i, dev, z) && s.bufs[i].uptodate
    ensures s.bufs[i].data == data[z]
  {
    ContentOfHolder(s, i, dev, z);
  }

  /** While nobody writes or frees a block, sleeping changes nothing that the file system code sees. */
  lemma QuietShows(s: Sys, log: seq<Step>, s': Sys, dev: int, data: seq<FileTree.Block>)
    requires Inv(s) && Reaches(s, log, s') && dev != 0 && Shows(s, dev, data)
    requires forall k :: 0 <= k < |log| ==> !Writes(log[k])
    ensures Shows(s', dev, data)
  {
    forall z | 0 <= z < |data| ensures data[z] == Content(s', dev, z) {
      BufferCache.QuietRun(s, log, s', dev, z);
    }
  }

  /** Changing a buffer, as bmap changes an indirect block and new_block clears a new one, changes its block alone. */
  lemma WriteShows(s: Sys, st: Step, dev: int, z: int, b: FileTree.Block, data: seq<FileTree.Block>)
    requires Inv(s) && Enabled(s, st) && (st.Modify? || st.Fill?) && st.data == b
    requires dev != 0 && 0 <= z < |data| && Stands(s, st.i, dev, z) && Shows(s, dev, data)
    ensures Inv(Apply(s, st)) && Shows(Apply(s, st), dev, data[z := b])
  {
    StepKeepsInv(s, st);
    hide Inv, Content, Apply;
    forall y | 0 <= y < |data| ensures data[z := b][y] == Content(Apply(s, st), dev, y) {
      StepKeepsContent(s, st, dev, y);
    }
  }

  /** Only the buffer of zone z changes, and only in its flags and its count. */
  ghost predicate OnlyZone(s: Sys, s': Sys, i: int)
    requires IsBuffer(s, i)
  {
    && |s'.bufs| == |s.bufs| && s'.disk == s.disk
    && Holds(s'.bufs[i], s.bufs[i].dev, s.bufs[i].block)
    && forall j :: IsBuffer(s, j) && j != i ==> s'.bufs[j] == s.bufs[j]
  }

  lemma OtherReferences(s: Sys, s': Sys, i: int, dev: int, z: int)
    requires Unique(s) && Unique(s') && dev != 0 && IsBuffer(s, i) && OnlyZone(s, s', i) && !Holds(s.bufs[i], dev, z)
    ensures References(s', dev, z) == References(s, dev, z)
  {
    if j :| Stands(s, j, dev, z) {
      ReferencesOf(s, j, dev, z);
      assert Stands(s', j, dev, z);
      ReferencesOf(s', j, dev, z);
    } else {
      assert forall j :: Stands(s', j, dev, z) ==> Stands(s, j, dev, z);
    }
  }

  /** get_hash_table and the end of free_block, seen from the file system: zone z reads as b from then on. */
  lemma ZoneStep(s: Sys, st: Step, i: int, dev: int, z: int, fs: FileTree.Fs, b: FileTree.Block)
    requires Inv(s) && Enabled(s, st) && (st.Reference? || st.Discard?) && st.i == i && Stands(s, i, dev, z) && dev != 0
    requires Presents(s, dev, fs) && 0 <= z < |fs.data| && b == if st.Reference? then fs.data[z] else fs.device[z]
    ensures var s' := Apply(s, st);
      && Inv(s') && OnlyZone(s, s', i)
      && s'.bufs[i].count == s.bufs[i].count + (if st.Reference? then 1 else -1)
      && s'.bufs[i].lock == s.bufs[i].lock && (st.Reference? ==> HasRef(s', i, st.who))
      && Presents(s', dev, fs.(data := fs.data[z := b], held := fs.held[z := s'.bufs[i].count]))
  {
    var s' := Apply(s, st);
    StepKeepsInv(s, st);
    assert OnlyZone(s, s', i) && Unique(s) && Unique(s');
    hide Inv, Content, Unique, Apply;
    ReferencesOf(s', i, dev, z);
    forall y | 0 <= y < |fs.data|
      ensures fs.data[z := b][y] == Content(s', dev, y)
      ensures fs.held[z := s'.bufs[i].count][y] == References(s', dev, y)
    {
      StepKeepsContent(s, st, dev, y);
      if y != z {
        OtherReferences(s, s', i, dev, y);
      }
    }
  }

  /** What Presents looks at in the result of FreeZone. */
  lemma FreeZoneFields(fs: FileTree.Fs, z: int)
    requires FileTree.Shape(fs) && fs.first <= z < |fs.data|
    ensures var g := Truncation.FreeZone(fs, z).s;
      && g.device == fs.device
      && g.data == (if fs.held[z] > 0 then fs.data else fs.data[z := fs.device[z]])
      && g.held == if fs.held[z] > 0 then fs.held[z := fs.held[z] + 1] else fs.held
  {
  }

  /** The second half of free_block's dealings with the cache, for a block that nobody else refers to. */
  lemma DropShown(s: Sys, i: int, who: Who, dev: int, z: int, fs: FileTree.Fs)
    requires Inv(s) && dev != 0 && Stands(s, i, dev, z) && !s.bufs[i].lock && s.bufs[i].count == 1 && HasRef(s, i, who)
    requires FileTree.Shape(fs) && fs.first <= z < |fs.data| && fs.held[z] == 0
    requires Presents(s, dev, fs.(held := fs.held[z := 1]))
    ensures Enabled(s, Discard(i, who)) && Presents(Apply(s, Discard(i, who)), dev, Truncation.FreeZone(fs, z).s)
  {
    ZoneStep(s, Discard(i, who), i, dev, z, fs.(held := fs.held[z := 1]), fs.device[z]);
    FreeZoneFields(fs, z);
    hide Inv, Apply, Truncation.FreeZone, Content, References;
    assert fs.held[z := 1][z := 0] == fs.held;
  }

  /** free_block on a cached, unlocked block: get_hash_table takes a reference. If others have one too, it stays taken;
      otherwise both flags are cleared and brelse gives the reference back. Either way this is FreeZone. */
  lemma FreeZoneRefines(s: Sys, i: int, who: Who, dev: int, z: int, fs: FileTree.Fs)
    requires Inv(s) && dev != 0 && Stands(s, i, dev, z) && !s.bufs[i].lock
    requires FileTree.Shape(fs) && Presents(s, dev, fs) && fs.first <= z < |fs.data|
    ensures Enabled(s, Reference(i, who)) && Inv(Apply(s, Reference(i, who)))
    ensures var s1 := Apply(s, Reference(i, who));
      && (s1.bufs[i].count != 1 <==> fs.held[z] > 0)
      && (s1.bufs[i].count != 1 ==> Presents(s1, dev, Truncation.FreeZone(fs, z).s))
      && (s1.bufs[i].count == 1 ==>
            Enabled(s1, Discard(i, who)) && Presents(Apply(s1, Discard(i, who)), dev, Truncation.FreeZone(fs, z).s))
  {
    hide Content, References, Locks, Requests, Clean, Ordered;
    ReferencesOf(s, i, dev, z);
    var s1 := Apply(s, Reference(i, who));
    ZoneStep(s, Reference(i, who), i, dev, z, fs, fs.data[z]);
    assert fs.data[z := fs.data[z]] == fs.data;
    FreeZoneFields(fs, z);
    hide Apply, Unique, Truncation.FreeZone;
    if s1.bufs[i].count == 1 {
      DropShown(s1, i, who, dev, z, fs);
    }
  }

  /** free_block on a block that is not cached: what it would drop is on the device only. */
  lemma FreeUncached(s: Sys, dev: int, z: int, fs: FileTree.Fs)
    requires !Cached(s, dev, z) && FileTree.Shape(fs) && Presents(s, dev, fs) && fs.first <= z < |fs.data|
    ensures fs.held[z] == 0 && Presents(s, dev, Truncation.FreeZone(fs, z).s)
  {
    assert forall i :: IsBuffer(s, i) ==> !Holds(s.bufs[i], dev, z);
    ContentUncached(s, dev, z);
  }
}
