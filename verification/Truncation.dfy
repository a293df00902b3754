/** Giving a file's zones back: free_block of fs/bitmap.c and the loops of fs/truncate.c as functions, and
    what they come to on a well-formed tree. */
module Truncation {
  import opened FileTree

  /** free_block: a block that others hold is reported and stays allocated, with one reference more, because the
      reference that get_hash_table took is not given back. */
  function FreeZone(s: Fs, z: int): (f: Freed)
    requires Shape(s)
    ensures Shape(f.s) && |f.s.data| == |s.data|
  {
    if z < s.first || z >= |s.data| then Freed(s, false)
    else if s.held[z] > 0 then Freed(s.(held := s.held[z := s.held[z] + 1]), true)
    else
      var dropped := s.(data := s.data[z := s.device[z]]);
      if s.used[z] then Freed(dropped.(used := s.used[z := false]), true) else Freed(dropped, false)
  }

  /** ok is false after a panic. */
  datatype Freed = Freed(s: Fs, ok: bool)

  /** One reference more, or less, on the buffer of zone z: bread and brelse. */
  function Hold(s: Fs, z: int, d: int): Fs
    requires 0 <= z < |s.held|
  {
    s.(held := s.held[z := s.held[z] + d])
  }

  /** The nonzero entries of an indirect block from entry i on, in order. */
  function Kids(b: Block, i: nat): seq<int>
    decreases |b| / 2 - i
  {
    if i >= |b| / 2 then [] else (if Word(b, i) != 0 then [Word(b, i)] else []) + Kids(b, i + 1)
  }

  /** free_block on each zone of zs in turn, up to a panic. */
  function FreeAll(s: Fs, zs: seq<int>): (f: Freed)
    requires Shape(s)
    ensures Shape(f.s) && |f.s.data| == |s.data| && forall z :: 0 <= z < |s.held| ==> f.s.held[z] >= s.held[z]
    decreases |zs|
  {
    if zs == [] then Freed(s, true)
    else
      var f := FreeZone(s, zs[0]);
      if f.ok then FreeAll(f.s, zs[1..]) else f
  }

  /** free_ind: the zones that block z names, then z itself; z is held meanwhile. */
  function FreeInd(s: Fs, z: int): (f: Freed)
    requires Shape(s)
    ensures Shape(f.s) && |f.s.data| == |s.data| && forall y :: 0 <= y < |s.held| ==> f.s.held[y] >= s.held[y]
  {
    if z == 0 then Freed(s, true)
    else if !CanRead(s, z) then FreeZone(s, z)
    else
      var f := FreeAll(Hold(s, z, 1), Kids(s.data[z], 0));
      if f.ok then FreeZone(Hold(f.s, z, -1), z) else f
  }

  function FreeInds(s: Fs, zs: seq<int>): (f: Freed)
    requires Shape(s)
    ensures Shape(f.s) && |f.s.data| == |s.data| && forall z :: 0 <= z < |s.held| ==> f.s.held[z] >= s.held[z]
    decreases |zs|
  {
    if zs == [] then Freed(s, true)
    else
      var f := FreeInd(s, zs[0]);
      if f.ok then FreeInds(f.s, zs[1..]) else f
  }

  /** free_dind. */
  function FreeDind(s: Fs, z: int): (f: Freed)
    requires Shape(s)
    ensures Shape(f.s) && |f.s.data| == |s.data|
  {
    if z == 0 then Freed(s, true)
    else if !CanRead(s, z) then FreeZone(s, z)
    else
      var f := FreeInds(Hold(s, z, 1), Kids(s.data[z], 0));
      if f.ok then FreeZone(Hold(f.s, z, -1), z) else f
  }

  datatype Cut = Cut(s: Fs, zone: seq<int>, ok: bool)

  /** The loop of truncate over the direct zones, from zone i on. */
  function CutDirect(s: Fs, zone: seq<int>, i: nat): (c: Cut)
    requires Shape(s) && |zone| == 9 && i <= 7
    ensures Shape(c.s) && |c.zone| == 9
    decreases |zone| - i
  {
    if i == 7 then Cut(s, zone, true)
    else if zone[i] == 0 then CutDirect(s, zone, i + 1)
    else
      var f := FreeZone(s, zone[i]);
      if f.ok then CutDirect(f.s, zone[i := 0], i + 1) else Cut(f.s, zone, false)
  }

  /** What truncate does to the device and the zone numbers of a regular file or a directory. */
  function CutAll(s: Fs, zone: seq<int>): (c: Cut)
    requires Shape(s) && |zone| == 9
    ensures Shape(c.s) && |c.zone| == 9
  {
    var c := CutDirect(s, zone, 0);
    if !c.ok then c
    else
      var f := FreeInd(c.s, c.zone[7]);
      if !f.ok then Cut(f.s, c.zone, false)
      else
        var g := FreeDind(f.s, c.zone[8]);
        if g.ok then Cut(g.s, c.zone[7 := 0][8 := 0], true) else Cut(g.s, c.zone, false)
  }

  /** A held block keeps its contents. */
  lemma {:induction false} FreeAllHeld(s: Fs, zs: seq<int>, z: int)
    requires Shape(s) && 0 <= z < |s.held| && s.held[z] > 0
    ensures FreeAll(s, zs).s.data[z] == s.data[z]
    decreases |zs|
  {
    if zs != [] && FreeZone(s, zs[0]).ok {
      FreeAllHeld(FreeZone(s, zs[0]).s, zs[1..], z);
    }
  }

  lemma FreeIndHeld(s: Fs, y: int, z: int)
    requires Shape(s) && 0 <= z < |s.held| && s.held[z] > 0
    ensures FreeInd(s, y).s.data[z] == s.data[z] && FreeInd(s, y).s.held[z] > 0
  {
    if y != 0 && CanRead(s, y) {
      FreeAllHeld(Hold(s, y, 1), Kids(s.data[y], 0), z);
    }
  }

  /** One round of the loop in free_ind, at entry i of the block. */
  lemma KidsRound(s: Fs, b: Block, i: nat)
    requires Shape(s) && i < 512
    ensures var w := Word(b, i);
      if w == 0 then FreeAll(s, Kids(b, i)) == FreeAll(s, Kids(b, i + 1))
      else var f := FreeZone(s, w); FreeAll(s, Kids(b, i)) == if f.ok then FreeAll(f.s, Kids(b, i + 1)) else f
  {
    if Word(b, i) == 0 {
      assert Kids(b, i) == Kids(b, i + 1);
    } else {
      assert Kids(b, i)[1..] == Kids(b, i + 1);
    }
  }

  /** One round of the loop in free_dind. */
  lemma MidsRound(s: Fs, b: Block, i: nat)
    requires Shape(s) && i < 512
    ensures var w := Word(b, i);
      if w == 0 then FreeInds(s, Kids(b, i)) == FreeInds(s, Kids(b, i + 1))
      else var f := FreeInd(s, w); FreeInds(s, Kids(b, i)) == if f.ok then FreeInds(f.s, Kids(b, i + 1)) else f
  {
    if Word(b, i) == 0 {
      assert Kids(b, i) == Kids(b, i + 1);
    } else {
      assert Kids(b, i)[1..] == Kids(b, i + 1);
    }
  }

  // ---------------------------------------------------------------- what that comes to

  /** s after all zones of S, in use in s, have been given back. */
  function Gone(s: Fs, S: set<int>): (r: Fs)
    requires Shape(s)
    ensures Shape(r) && |r.data| == |s.data|
  {
    s.(data := seq(|s.data|, z requires 0 <= z < |s.data| =>
         if z in S && s.held[z] == 0 then s.device[z] else s.data[z]),
       used := seq(|s.used|, z requires 0 <= z < |s.used| => s.used[z] && !(z in S && s.held[z] == 0)),
       held := seq(|s.held|, z requires 0 <= z < |s.held| =>
         if z in S && s.held[z] > 0 then s.held[z] + 1 else s.held[z]))
  }

  lemma GoneNone(s: Fs)
    requires Shape(s)
    ensures Gone(s, {}) == s
  {
    var r := Gone(s, {});
    assert r.data == s.data && r.used == s.used && r.held == s.held;
  }

  lemma GoneMore(s: Fs, S: set<int>, z: int)
    requires Shape(s) && InUse(s, z) && z !in S
    ensures FreeZone(Gone(s, S), z) == Freed(Gone(s, S + {z}), true)
  {
    var f, g := FreeZone(Gone(s, S), z).s, Gone(s, S + {z});
    assert f.data == g.data && f.used == g.used && f.held == g.held;
  }

  lemma HoldGone(s: Fs, S: set<int>, m: int, d: int)
    requires Shape(s) && 0 <= m < |s.held| && m !in S && s.held[m] + d >= 0
    ensures Gone(Hold(s, m, d), S) == Hold(Gone(s, S), m, d)
  {
    var f, g := Gone(Hold(s, m, d), S), Hold(Gone(s, S), m, d);
    assert f.data == g.data && f.used == g.used && f.held == g.held;
  }

  function Elements(zs: seq<int>): set<int> {
    set z | z in zs
  }

  lemma {:induction false} FreeAllGone(s: Fs, S: set<int>, zs: seq<int>)
    requires Shape(s) && forall i :: 0 <= i < |zs| ==> InUse(s, zs[i]) && zs[i] !in S
    requires forall i, j :: 0 <= i < j < |zs| ==> zs[i] != zs[j]
    ensures FreeAll(Gone(s, S), zs) == Freed(Gone(s, S + Elements(zs)), true)
    decreases |zs|
  {
    if zs == [] {
      assert S + Elements(zs) == S;
    } else {
      GoneMore(s, S, zs[0]);
      FreeAllGone(s, S + {zs[0]}, zs[1..]);
      assert S + {zs[0]} + Elements(zs[1..]) == S + Elements(zs);
    }
  }

  lemma {:induction false} KidsAre(b: Block, i: nat)
    requires i <= 512
    ensures forall z :: z in Kids(b, i) <==> exists k :: i <= k < 512 && Word(b, k) == z != 0
    decreases 512 - i
  {
    if i < 512 {
      KidsAre(b, i + 1);
      forall z | z in Kids(b, i) ensures exists k :: i <= k < 512 && Word(b, k) == z != 0 {
        if z in Kids(b, i + 1) {
          var k :| i + 1 <= k < 512 && Word(b, k) == z != 0;
        }
      }
    }
  }

  lemma {:induction false} KidsDistinct(b: Block, i: nat)
    requires i <= 512
    requires forall j, k :: 0 <= j < 512 && 0 <= k < 512 && Word(b, j) == Word(b, k) != 0 ==> j == k
    ensures forall j, k :: 0 <= j < k < |Kids(b, i)| ==> Kids(b, i)[j] != Kids(b, i)[k]
    decreases 512 - i
  {
    if i < 512 {
      KidsDistinct(b, i + 1);
      KidsAre(b, i + 1);
      var rest := Kids(b, i + 1);
      forall j | 0 <= j < |rest| ensures rest[j] != Word(b, i) {
        assert rest[j] in rest;
      }
    }
  }

  /** The zones that free_ind gives back. */
  function IndSet(s: Fs, m: int): set<int> {
    (if CanRead(s, m) then Elements(Kids(s.data[m], 0)) else {}) + {m}
  }

  /** Block m and the zones it names are in use, different, and not in S. */
  ghost predicate Takes(s: Fs, S: set<int>, m: int) {
    && InUse(s, m) && m !in S
    && (CanRead(s, m) ==>
          && (forall j :: 0 <= j < 512 && Word(s.data[m], j) != 0 ==>
                InUse(s, Word(s.data[m], j)) && Word(s.data[m], j) !in S && Word(s.data[m], j) != m)
          && (forall j, k :: 0 <= j < 512 && 0 <= k < 512 && Word(s.data[m], j) == Word(s.data[m], k) != 0 ==> j == k))
  }

  lemma FreeIndGone(s: Fs, S: set<int>, m: int)
    requires Shape(s) && Takes(s, S, m)
    ensures FreeInd(Gone(s, S), m) == Freed(Gone(s, S + IndSet(s, m)), true)
  {
    if CanRead(s, m) {
      var b := s.data[m];
      var zs := Kids(b, 0);
      KidsAre(b, 0);
      KidsDistinct(b, 0);
      var h := Hold(s, m, 1);
      HoldGone(s, S, m, 1);
      forall i | 0 <= i < |zs| ensures InUse(h, zs[i]) && zs[i] !in S && zs[i] != m {
        assert zs[i] in zs;
      }
      FreeAllGone(h, S, zs);
      HoldGone(s, S + Elements(zs), m, 1);
      var t := Gone(s, S + Elements(zs));
      assert Hold(Hold(t, m, 1), m, -1) == t by {
        assert t.held[m := t.held[m] + 1][m := t.held[m]] == t.held;
      }
      GoneMore(s, S + Elements(zs), m);
      assert S + Elements(zs) + {m} == S + IndSet(s, m);
    } else {
      GoneMore(s, S, m);
      assert S + {m} == S + IndSet(s, m);
    }
  }

  // ---------------------------------------------------------------- on a well-formed tree

  /** The zones that free_dind gives back through the entries of block b from entry i on. */
  function MidSet(s: Fs, b: Block, i: nat): set<int>
    decreases |b| / 2 - i
  {
    if i >= |b| / 2 then {}
    else (if Word(b, i) != 0 then IndSet(s, Word(b, i)) else {}) + MidSet(s, b, i + 1)
  }

  function DindSet(s: Fs, d: int): set<int> {
    (if CanRead(s, d) then MidSet(s, s.data[d], 0) else {}) + {d}
  }

  /** Slot p has a zone, which is not in S. */
  predicate Left(s: Fs, zone: seq<int>, S: set<int>, p: Slot)
    requires |zone| == 9
  {
    IsSlot(p) && At(s, zone, p) != 0 ==> At(s, zone, p) !in S
  }

  lemma {:induction false} HoldAt(s: Fs, zone: seq<int>, z: int, d: int, p: Slot)
    requires 0 <= z < |s.held| && IsSlot(p) && |zone| == 9
    ensures At(Hold(s, z, d), zone, p) == At(s, zone, p)
    decreases Depth(p)
  {
    if !p.Root? {
      HoldAt(s, zone, z, d, Parent(p));
    }
  }

  lemma HoldInv(s: Fs, zone: seq<int>, z: int)
    requires Inv(s, zone) && 0 <= z < |s.held|
    ensures Inv(Hold(s, z, 1), zone)
  {
    var t := Hold(s, z, 1);
    forall p | IsSlot(p) && At(t, zone, p) != 0 ensures InUse(t, At(t, zone, p)) {
      HoldAt(s, zone, z, 1, p);
      assert InUse(s, At(s, zone, p));
    }
    forall p, q | Same(t, zone, p, q) ensures p == q {
      HoldAt(s, zone, z, 1, p);
      HoldAt(s, zone, z, 1, q);
      assert Same(s, zone, p, q);
    }
  }

  /** The block that slot m names, with the zones below it, can be given back. */
  lemma TakesSlot(s: Fs, zone: seq<int>, S: set<int>, m: Slot, child: int -> Slot)
    requires Inv(s, zone) && IsSlot(m) && At(s, zone, m) != 0 && Left(s, zone, S, m)
    requires forall j :: 0 <= j < 512 ==>
      IsSlot(child(j)) && !child(j).Root? && Parent(child(j)) == m && Index(child(j)) == j && Left(s, zone, S, child(j))
    ensures Takes(s, S, At(s, zone, m))
    ensures forall j :: 0 <= j < 512 ==> At(s, zone, child(j)) == Word(s.data[At(s, zone, m)], j)
  {
    var z := At(s, zone, m);
    assert InUse(s, z);
    var b := s.data[z];
    forall j | 0 <= j < 512
      ensures At(s, zone, child(j)) == Word(b, j)
      ensures Word(b, j) != 0 ==> InUse(s, Word(b, j)) && Word(b, j) !in S && Word(b, j) != z
    {
      assert At(s, zone, child(j)) == Word(Blk(s, z), Index(child(j)));
      if Word(b, j) != 0 {
        Different(s, zone, child(j), m);
      }
    }
    forall j, k | 0 <= j < 512 && 0 <= k < 512 && Word(b, j) == Word(b, k) != 0 ensures j == k {
      assert Same(s, zone, child(j), child(k));
      assert Index(child(j)) == j && Index(child(k)) == k;
    }
  }

  /** The zones of IndSet are those in slot m and, if it can be read, below it. */
  lemma IndSetIs(s: Fs, zone: seq<int>, m: Slot, child: int -> Slot)
    requires IsSlot(m) && |zone| == 9 && At(s, zone, m) != 0
    requires forall j :: 0 <= j < 512 ==>
      IsSlot(child(j)) && !child(j).Root? && Parent(child(j)) == m && Index(child(j)) == j
    ensures forall z :: z in IndSet(s, At(s, zone, m)) <==>
      z == At(s, zone, m) || (CanRead(s, At(s, zone, m)) && exists j :: 0 <= j < 512 && At(s, zone, child(j)) == z != 0)
  {
    var y := At(s, zone, m);
    KidsAre(Blk(s, y), 0);
    forall j | 0 <= j < 512 ensures At(s, zone, child(j)) == Word(Blk(s, y), j) {
      assert At(s, zone, child(j)) == Word(Blk(s, y), Index(child(j)));
    }
  }

  /** Slots outside entry i of the double indirect block have none of its zones. */
  lemma NotBelow(s: Fs, zone: seq<int>, i: int, p: Slot)
    requires Inv(s, zone) && 0 <= i < 512 && At(s, zone, Mid(i)) != 0 && IsSlot(p)
    requires p != Mid(i) && !(p.Leaf? && p.k == i)
    ensures Left(s, zone, IndSet(s, At(s, zone, Mid(i))), p)
  {
    IndSetIs(s, zone, Mid(i), j => Leaf(i, j));
    var z := At(s, zone, p);
    if z != 0 {
      Different(s, zone, p, Mid(i));
      forall j | 0 <= j < 512 ensures At(s, zone, Leaf(i, j)) != z {
        Different(s, zone, p, Leaf(i, j));
      }
    }
  }

  /** S has none of the zones that the double indirect block names from entry i on. */
  ghost predicate LeftFrom(s: Fs, zone: seq<int>, S: set<int>, i: nat)
    requires |zone| == 9
  {
    forall p: Slot | (p.Mid? || p.Leaf?) && p.k >= i :: Left(s, zone, S, p)
  }

  lemma LeftNext(s: Fs, zone: seq<int>, S: set<int>, i: nat)
    requires Inv(s, zone) && i < 512 && At(s, zone, Mid(i)) != 0 && LeftFrom(s, zone, S, i)
    ensures LeftFrom(s, zone, S + IndSet(s, At(s, zone, Mid(i))), i + 1)
  {
    forall p: Slot | (p.Mid? || p.Leaf?) && p.k >= i + 1 ensures Left(s, zone, S + IndSet(s, At(s, zone, Mid(i))), p) {
      assert Left(s, zone, S, p);
      if IsSlot(p) {
        NotBelow(s, zone, i, p);
      }
    }
  }

  lemma TakesMid(s: Fs, zone: seq<int>, S: set<int>, i: nat)
    requires Inv(s, zone) && i < 512 && At(s, zone, Mid(i)) != 0 && LeftFrom(s, zone, S, i)
    ensures Takes(s, S, At(s, zone, Mid(i)))
  {
    assert Left(s, zone, S, Mid(i));
    assert forall j :: Left(s, zone, S, Leaf(i, j));
    TakesSlot(s, zone, S, Mid(i), j => Leaf(i, j));
  }

  lemma Regroup(S: set<int>, A: set<int>, B: set<int>)
    ensures S + A + B == S + (A + B)
  {
  }

  lemma MidStep(s: Fs, zone: seq<int>, i: nat)
    requires |zone| == 9 && zone[8] != 0 && i < 512
    ensures var b, m := Blk(s, zone[8]), At(s, zone, Mid(i));
      m == Word(b, i) && MidSet(s, b, i) == (if m != 0 then IndSet(s, m) else {}) + MidSet(s, b, i + 1)
  {
    assert At(s, zone, Root(8)) == zone[8];
  }

  /** The loop of free_dind from entry i on, after S has been given back: S has none of the zones still to come. */
  lemma {:induction false} FreeIndsGone(s: Fs, zone: seq<int>, S: set<int>, i: nat)
    requires Inv(s, zone) && zone[8] != 0 && i <= 512 && LeftFrom(s, zone, S, i)
    ensures FreeInds(Gone(s, S), Kids(Blk(s, zone[8]), i)) == Freed(Gone(s, S + MidSet(s, Blk(s, zone[8]), i)), true)
    decreases 512 - i
  {
    var b := Blk(s, zone[8]);
    if i == 512 {
      assert S + MidSet(s, b, i) == S;
    } else {
      var m := At(s, zone, Mid(i));
      var A, B := if m != 0 then IndSet(s, m) else {}, MidSet(s, b, i + 1);
      var S1 := S + A;
      MidStep(s, zone, i);
      Regroup(S, A, B);
      hide Blk, Inv, At, Word, LeftFrom, Gone, Kids, MidSet, IndSet, FreeInd, FreeInds, Takes, Allocated, Unshared;
      MidsRound(Gone(s, S), b, i);
      if m == 0 {
        LeftLater(s, zone, S, i);
        assert S1 == S;
      } else {
        TakesMid(s, zone, S, i);
        FreeIndGone(s, S, m);
        LeftNext(s, zone, S, i);
      }
      FreeIndsGone(s, zone, S1, i + 1);
    }
  }

  lemma LeftLater(s: Fs, zone: seq<int>, S: set<int>, i: nat)
    requires |zone| == 9 && LeftFrom(s, zone, S, i)
    ensures LeftFrom(s, zone, S, i + 1)
  {
  }

  /** A zone of MidSet is a zone of one of its entries. */
  lemma {:induction false} MidSetIs(s: Fs, zone: seq<int>, i: nat)
    requires |zone| == 9 && zone[8] != 0 && i <= 512
    ensures forall z :: z in MidSet(s, Blk(s, zone[8]), i) <==>
      exists k :: i <= k < 512 && At(s, zone, Mid(k)) != 0 && z in IndSet(s, At(s, zone, Mid(k)))
    decreases 512 - i
  {
    if i < 512 {
      MidStep(s, zone, i);
      MidSetIs(s, zone, i + 1);
      hide At, IndSet, MidSet;
      var b := Blk(s, zone[8]);
      forall z
        ensures z in MidSet(s, b, i) <==>
          exists k :: i <= k < 512 && At(s, zone, Mid(k)) != 0 && z in IndSet(s, At(s, zone, Mid(k)))
      {
        if z in MidSet(s, b, i + 1) {
          var k :| i + 1 <= k < 512 && At(s, zone, Mid(k)) != 0 && z in IndSet(s, At(s, zone, Mid(k)));
        }
      }
    }
  }

  lemma {:induction false} HoldMidSet(s: Fs, b: Block, d: int, i: nat)
    requires Shape(s) && 0 <= d < |s.held|
    ensures MidSet(Hold(s, d, 1), b, i) == MidSet(s, b, i)
    decreases |b| / 2 - i
  {
    if i < |b| / 2 {
      HoldMidSet(s, b, d, i + 1);
    }
  }

  lemma HoldLeft(s: Fs, zone: seq<int>, S: set<int>, d: int)
    requires Shape(s) && |zone| == 9 && 0 <= d < |s.held| && LeftFrom(s, zone, S, 0)
    ensures LeftFrom(Hold(s, d, 1), zone, S, 0)
  {
    forall p: Slot | (p.Mid? || p.Leaf?) && p.k >= 0 ensures Left(Hold(s, d, 1), zone, S, p) {
      assert Left(s, zone, S, p);
      if IsSlot(p) {
        HoldAt(s, zone, d, 1, p);
      }
    }
  }

  /** The double indirect block is none of the blocks it names. */
  lemma DindApart(s: Fs, zone: seq<int>)
    requires Inv(s, zone) && zone[8] != 0
    ensures zone[8] !in MidSet(s, Blk(s, zone[8]), 0)
  {
    MidSetIs(s, zone, 0);
    forall k | 0 <= k < 512 && At(s, zone, Mid(k)) != 0 ensures zone[8] !in IndSet(s, At(s, zone, Mid(k))) {
      NotBelow(s, zone, k, Root(8));
    }
  }

  lemma FreeDindGone(s: Fs, zone: seq<int>, S: set<int>)
    requires Inv(s, zone) && zone[8] != 0 && zone[8] !in S && LeftFrom(s, zone, S, 0)
    ensures FreeDind(Gone(s, S), zone[8]) == Freed(Gone(s, S + DindSet(s, zone[8])), true)
  {
    var d := zone[8];
    assert InUse(s, At(s, zone, Root(8)));
    if CanRead(s, d) {
      var T := S + MidSet(s, s.data[d], 0);
      HoldGone(s, S, d, 1);
      HoldInv(s, zone, d);
      HoldLeft(s, zone, S, d);
      HoldMidSet(s, s.data[d], d, 0);
      FreeIndsGone(Hold(s, d, 1), zone, S, 0);
      DindApart(s, zone);
      HoldGone(s, T, d, 1);
      HoldBack(Gone(s, T), d);
      hide Inv, LeftFrom, MidSet, FreeInds, Kids;
      GoneMore(s, T, d);
      assert T + {d} == S + DindSet(s, d);
    } else {
      GoneMore(s, S, d);
      assert S + {d} == S + DindSet(s, d);
    }
  }

  lemma HoldBack(t: Fs, d: int)
    requires 0 <= d < |t.held|
    ensures Hold(Hold(t, d, 1), d, -1) == t
  {
    assert t.held[d := t.held[d] + 1][d := t.held[d]] == t.held;
  }

  // ---------------------------------------------------------------- the direct zones and the whole tree

  function DirectSet(zone: seq<int>, i: nat): set<int>
    requires |zone| == 9 && i <= 7
  {
    set z | z in zone[i..7] && z != 0
  }

  function Zeroed(zone: seq<int>, i: nat): seq<int>
    requires |zone| == 9
  {
    seq(9, j requires 0 <= j < 9 => if i <= j < 7 then 0 else zone[j])
  }

  lemma {:induction false} CutDirectGone(s: Fs, zone: seq<int>, S: set<int>, i: nat)
    requires Shape(s) && |zone| == 9 && i <= 7
    requires forall j :: i <= j < 7 && zone[j] != 0 ==> InUse(s, zone[j]) && zone[j] !in S
    requires forall j, k :: i <= j < k < 7 && zone[j] != 0 ==> zone[j] != zone[k]
    ensures CutDirect(Gone(s, S), zone, i) == Cut(Gone(s, S + DirectSet(zone, i)), Zeroed(zone, i), true)
    decreases 7 - i
  {
    if i == 7 {
      assert S + DirectSet(zone, i) == S && Zeroed(zone, i) == zone;
    } else if zone[i] == 0 {
      CutDirectGone(s, zone, S, i + 1);
      assert zone[i..7] == [zone[i]] + zone[i + 1..7];
      assert DirectSet(zone, i) == DirectSet(zone, i + 1) && Zeroed(zone, i) == Zeroed(zone, i + 1);
    } else {
      GoneMore(s, S, zone[i]);
      var zone1 := zone[i := 0];
      CutDirectGone(s, zone1, S + {zone[i]}, i + 1);
      assert zone1[i + 1..7] == zone[i + 1..7] && zone[i..7] == [zone[i]] + zone[i + 1..7];
      assert DirectSet(zone, i) == {zone[i]} + DirectSet(zone, i + 1);
      assert S + {zone[i]} + DirectSet(zone1, i + 1) == S + DirectSet(zone, i);
      assert Zeroed(zone1, i + 1) == Zeroed(zone, i);
    }
  }

  function TreeSet(s: Fs, zone: seq<int>): set<int>
    requires |zone| == 9
  {
    DirectSet(zone, 0)
    + (if zone[7] != 0 then IndSet(s, zone[7]) else {})
    + (if zone[8] != 0 then DindSet(s, zone[8]) else {})
  }

  /** z is in one of the slots that can be read. */
  ghost predicate InTree(s: Fs, zone: seq<int>, z: int)
    requires |zone| == 9
  {
    exists p :: Holds(s, zone, p, z)
  }

  predicate Holds(s: Fs, zone: seq<int>, p: Slot, z: int)
    requires |zone| == 9
  {
    IsSlot(p) && Readable(s, zone, p) && At(s, zone, p) == z != 0
  }

  lemma IndSetInTree(s: Fs, zone: seq<int>, m: Slot, child: int -> Slot, z: int)
    requires IsSlot(m) && |zone| == 9 && At(s, zone, m) != 0 && Readable(s, zone, m) && z in IndSet(s, At(s, zone, m))
    requires forall j :: 0 <= j < 512 ==>
      IsSlot(child(j)) && !child(j).Root? && Parent(child(j)) == m && Index(child(j)) == j
    ensures InTree(s, zone, z)
  {
    IndSetIs(s, zone, m, child);
    if z == At(s, zone, m) {
      assert Holds(s, zone, m, z);
    } else {
      var j :| 0 <= j < 512 && At(s, zone, child(j)) == z != 0;
      assert Holds(s, zone, child(j), z);
    }
  }

  /** The zones of TreeSet come from slots that can be read. */
  lemma SetInTree(s: Fs, zone: seq<int>, z: int)
    requires |zone| == 9 && z in TreeSet(s, zone)
    ensures InTree(s, zone, z)
  {
    if z in DirectSet(zone, 0) {
      var j :| 0 <= j < 7 && zone[0..7][j] == z;
      assert Holds(s, zone, Root(j), z);
    } else if zone[7] != 0 && z in IndSet(s, zone[7]) {
      IndSetInTree(s, zone, Root(7), j => Ind(j), z);
    } else if z == zone[8] {
      assert Holds(s, zone, Root(8), z);
    } else {
      MidSetIs(s, zone, 0);
      var k :| 0 <= k < 512 && At(s, zone, Mid(k)) != 0 && z in IndSet(s, At(s, zone, Mid(k)));
      IndSetInTree(s, zone, Mid(k), j => Leaf(k, j), z);
    }
  }

  lemma BelowInSet(s: Fs, zone: seq<int>, m: Slot, child: int -> Slot, j: int)
    requires IsSlot(m) && |zone| == 9 && 0 <= j < 512 && CanRead(s, At(s, zone, m))
    requires forall i :: 0 <= i < 512 ==>
      IsSlot(child(i)) && !child(i).Root? && Parent(child(i)) == m && Index(child(i)) == i
    requires At(s, zone, child(j)) != 0
    ensures At(s, zone, child(j)) in IndSet(s, At(s, zone, m))
  {
    assert At(s, zone, m) != 0;
    IndSetIs(s, zone, m, child);
  }

  lemma TreeInSet(s: Fs, zone: seq<int>, p: Slot, z: int)
    requires |zone| == 9 && Holds(s, zone, p, z)
    ensures z in TreeSet(s, zone)
  {
    match p {
      case Root(i) =>
        assert i < 7 ==> zone[0..7][i] == z;
      case Ind(k) =>
        BelowInSet(s, zone, Root(7), j => Ind(j), k);
      case Mid(k) =>
        MidSetIs(s, zone, 0);
        assert z in IndSet(s, At(s, zone, Mid(k)));
      case Leaf(k, l) =>
        assert Readable(s, zone, Mid(k));
        BelowInSet(s, zone, Mid(k), j => Leaf(k, j), l);
        MidSetIs(s, zone, 0);
    }
  }

  /** Before truncate reaches the indirect block, and before it reaches the double one, their zones are still there. */
  lemma RootsLeft(s: Fs, zone: seq<int>)
    requires Inv(s, zone)
    ensures forall j :: 0 <= j < 7 && zone[j] != 0 ==> InUse(s, zone[j])
    ensures forall j, k :: 0 <= j < k < 9 && zone[j] != 0 ==> zone[j] != zone[k]
    ensures forall p :: IsSlot(p) && !p.Root? ==> Left(s, zone, DirectSet(zone, 0), p)
  {
    forall j | 0 <= j < 9 && zone[j] != 0 ensures InUse(s, zone[j]) {
      assert InUse(s, At(s, zone, Root(j)));
    }
    forall j, k | 0 <= j < k < 9 && zone[j] != 0 ensures zone[j] != zone[k] {
      Different(s, zone, Root(j), Root(k));
    }
    forall p | IsSlot(p) && !p.Root? ensures Left(s, zone, DirectSet(zone, 0), p) {
      if At(s, zone, p) != 0 {
        forall j | 0 <= j < 7 ensures zone[0..7][j] != At(s, zone, p) {
          Different(s, zone, p, Root(j));
        }
      }
    }
  }

  lemma IndLeft(s: Fs, zone: seq<int>)
    requires Inv(s, zone) && zone[7] != 0
    ensures Takes(s, DirectSet(zone, 0), zone[7])
    ensures zone[8] !in IndSet(s, zone[7]) || zone[8] == 0
    ensures LeftFrom(s, zone, DirectSet(zone, 0) + IndSet(s, zone[7]), 0)
  {
    RootsLeft(s, zone);
    assert At(s, zone, Root(8)) == zone[8];
    assert Left(s, zone, DirectSet(zone, 0), Root(7));
    TakesSlot(s, zone, DirectSet(zone, 0), Root(7), j => Ind(j));
    IndSetIs(s, zone, Root(7), j => Ind(j));
    forall p: Slot | IsSlot(p) && (p.Mid? || p.Leaf? || p == Root(8)) && At(s, zone, p) != 0
      ensures At(s, zone, p) !in IndSet(s, zone[7])
    {
      Different(s, zone, p, Root(7));
      forall j | 0 <= j < 512 ensures At(s, zone, Ind(j)) != At(s, zone, p) {
        Different(s, zone, p, Ind(j));
      }
    }
    forall p: Slot | (p.Mid? || p.Leaf?) && p.k >= 0
      ensures Left(s, zone, DirectSet(zone, 0) + IndSet(s, zone[7]), p)
    {
      if IsSlot(p) {
        assert Left(s, zone, DirectSet(zone, 0), p);
      }
    }
  }

  /** truncate on a well-formed tree: no panic, exactly TreeSet is given back, all zone numbers are zero. */
  lemma CutAllGone(s: Fs, zone: seq<int>)
    requires Inv(s, zone)
    ensures CutAll(s, zone) == Cut(Gone(s, TreeSet(s, zone)), seq(9, _ => 0), true)
  {
    RootsLeft(s, zone);
    GoneNone(s);
    CutDirectGone(s, zone, {}, 0);
    var S := DirectSet(zone, 0);
    assert {} + S == S;
    var S1 := S + (if zone[7] != 0 then IndSet(s, zone[7]) else {});
    assert LeftFrom(s, zone, S, 0);
    if zone[7] != 0 {
      IndLeft(s, zone);
      FreeIndGone(s, S, zone[7]);
    } else {
      assert S1 == S;
    }
    if zone[8] != 0 {
      assert zone[8] !in S;
      FreeDindGone(s, zone, S1);
    } else {
      assert TreeSet(s, zone) == S1;
    }
    assert Zeroed(zone, 0)[7 := 0][8 := 0] == seq(9, _ => 0);
  }

  /** truncate gives back exactly the zones of the file's tree, as far as the indirect blocks can be read: it never
      panics, clears just the bits of those that nobody else holds, and leaves no zone number in the inode. */
  lemma TruncateFreesTree(s: Fs, zone: seq<int>)
    requires Inv(s, zone)
    ensures var c := CutAll(s, zone);
      && c.ok && c.zone == seq(9, _ => 0) && |c.s.used| == |s.used| && |c.s.held| == |s.held|
      && (forall z :: 0 <= z < |s.used| ==> (c.s.used[z] <==> s.used[z] && !(InTree(s, zone, z) && s.held[z] == 0)))
      && (forall z :: 0 <= z < |s.held| ==>
            c.s.held[z] == s.held[z] + (if InTree(s, zone, z) && s.held[z] > 0 then 1 else 0))
      && |c.s.data| == |s.data| && c.s.first == s.first && c.s.device == s.device && c.s.bad == s.bad
      && (forall z :: 0 <= z < |s.data| ==>
            c.s.data[z] == if InTree(s, zone, z) && s.held[z] == 0 then s.device[z] else s.data[z])
  {
    CutAllGone(s, zone);
    forall z ensures z in TreeSet(s, zone) <==> InTree(s, zone, z) {
      if z in TreeSet(s, zone) {
        SetInTree(s, zone, z);
      }
      if p :| Holds(s, zone, p, z) {
        TreeInSet(s, zone, p, z);
      }
    }
  }

  /** The zone in slot p is free after truncate. */
  ghost predicate GivenBack(s: Fs, zone: seq<int>, p: Slot)
    requires Inv(s, zone)
  {
    var c := CutAll(s, zone);
    IsSlot(p) && At(s, zone, p) != 0 ==> 0 <= At(s, zone, p) < |c.s.used| && !c.s.used[At(s, zone, p)]
  }

  /** The zone in slot p can be reached, and nobody else holds it. */
  predicate CanGiveBack(s: Fs, zone: seq<int>, p: Slot)
    requires |zone| == 9
  {
    IsSlot(p) && At(s, zone, p) != 0 ==>
      Readable(s, zone, p) && 0 <= At(s, zone, p) < |s.held| && s.held[At(s, zone, p)] == 0
  }

  lemma GivenBackIff(s: Fs, zone: seq<int>, p: Slot)
    requires Inv(s, zone)
    ensures GivenBack(s, zone, p) <==> CanGiveBack(s, zone, p)
  {
    if IsSlot(p) && At(s, zone, p) != 0 {
      var z := At(s, zone, p);
      assert InUse(s, z);
      TruncateFreesTree(s, zone);
      hide CutAll;
      if Readable(s, zone, p) {
        assert Holds(s, zone, p, z);
      } else if InTree(s, zone, z) {
        var q :| Holds(s, zone, q, z);
        Different(s, zone, q, p);
      }
    }
  }

  /** truncate gives back all zones of the file if and only if the way to each of them can be read and nobody else
      holds one. */
  lemma TruncateFreesAll(s: Fs, zone: seq<int>)
    requires Inv(s, zone)
    ensures (forall p :: GivenBack(s, zone, p)) <==> (forall p :: CanGiveBack(s, zone, p))
  {
    hide GivenBack, CanGiveBack;
    forall p ensures GivenBack(s, zone, p) <==> CanGiveBack(s, zone, p) {
      GivenBackIff(s, zone, p);
    }
  }

  /** Behind an unreadable indirect block a data block that nobody holds stays allocated, and no file has it any
      more. */
  lemma UnreadableLeaks()
    ensures Inv(SpoiledFs(), SpoiledZone()) && SpoiledFs().held == [0, 0, 0]
    ensures At(SpoiledFs(), SpoiledZone(), Ind(0)) == 2
    ensures var c := CutAll(SpoiledFs(), SpoiledZone());
      c.ok && c.zone == seq(9, _ => 0) && |c.s.used| == 3 && c.s.used[2]
  {
    var s, zone := SpoiledFs(), SpoiledZone();
    SpoiledInv();
    TruncateFreesTree(s, zone);
    GivenBackIff(s, zone, Ind(0));
    hide CutAll;
    assert GivenBack(s, zone, Ind(0)) <==> !CutAll(s, zone).s.used[2];
  }

  /** A file of one block, zone 1, which somebody else holds. */
  function HeldFs(): Fs {
    Fs(1, [Zeros(), Zeros()], [true, true], [0, 1], [Zeros(), Zeros()], {})
  }

  function HeldZone(): seq<int> {
    [1, 0, 0, 0, 0, 0, 0, 0, 0]
  }

  /** The block stays allocated, with one reference more than before. */
  lemma HeldBlockLeaks()
    ensures Inv(HeldFs(), HeldZone())
    ensures var c := CutAll(HeldFs(), HeldZone());
      c.ok && c.zone == seq(9, _ => 0) && |c.s.used| == |c.s.held| == 2 && c.s.used[1] && c.s.held[1] == 2
  {
    var s, zone := HeldFs(), HeldZone();
    forall p | IsSlot(p) ensures At(s, zone, p) == if p == Root(0) then 1 else 0 {
      assert At(s, zone, Root(7)) == 0 == At(s, zone, Root(8));
      assert p.Leaf? ==> At(s, zone, Mid(p.k)) == 0;
    }
    TruncateFreesTree(s, zone);
    hide CutAll;
    assert Holds(s, zone, Root(0), 1);
  }

  // ---------------------------------------------------------------- other files

  predicate Common(s: Fs, zone: seq<int>, other: seq<int>, p: Slot, q: Slot)
    requires |zone| == 9 == |other|
  {
    IsSlot(p) && IsSlot(q) && At(s, zone, p) != 0 && At(s, zone, p) == At(s, other, q)
  }

  /** Two files have no zone in common. */
  ghost predicate Apart(s: Fs, zone: seq<int>, other: seq<int>)
    requires |zone| == 9 == |other|
  {
    forall p, q :: !Common(s, zone, other, p, q)
  }

  lemma NotCommon(s: Fs, zone: seq<int>, other: seq<int>, p: Slot, q: Slot)
    requires |zone| == 9 == |other| && Apart(s, zone, other) && IsSlot(p) && IsSlot(q) && At(s, zone, p) != 0
    ensures At(s, zone, p) != At(s, other, q)
  {
    assert !Common(s, zone, other, p, q);
  }

  lemma {:induction false} GoneAt(s: Fs, other: seq<int>, S: set<int>, p: Slot)
    requires Inv(s, other) && IsSlot(p) && forall q :: IsSlot(q) ==> Left(s, other, S, q)
    ensures At(Gone(s, S), other, p) == At(s, other, p)
    decreases Depth(p)
  {
    if !p.Root? {
      GoneAt(s, other, S, Parent(p));
      assert Left(s, other, S, Parent(p));
      assert At(s, other, Parent(p)) != 0 ==> InUse(s, At(s, other, Parent(p)));
    }
  }

  lemma GoneKeeps(s: Fs, other: seq<int>, S: set<int>)
    requires Inv(s, other) && forall q :: IsSlot(q) ==> Left(s, other, S, q)
    ensures Inv(Gone(s, S), other) && SameFile(s, other, Gone(s, S), other)
  {
    var t := Gone(s, S);
    forall p | IsSlot(p) && At(t, other, p) != 0 ensures InUse(t, At(t, other, p)) {
      GoneAt(s, other, S, p);
      assert Left(s, other, S, p) && InUse(s, At(s, other, p));
    }
    forall p, q | Same(t, other, p, q) ensures p == q {
      GoneAt(s, other, S, p);
      GoneAt(s, other, S, q);
      assert Same(s, other, p, q);
    }
    forall pos | 0 <= pos < MAX_BLOCKS * 1024 ensures FileByte(t, other, pos) == FileByte(s, other, pos) {
      var p := SlotOf(pos / 1024);
      GoneAt(s, other, S, p);
      assert Left(s, other, S, p) && (At(s, other, p) != 0 ==> InUse(s, At(s, other, p)));
    }
  }

  /** Truncating one file leaves every file it shares no zone with as it was: its tree and all its bytes. */
  lemma OtherFileKept(s: Fs, zone: seq<int>, other: seq<int>)
    requires Inv(s, zone) && Inv(s, other) && Apart(s, zone, other)
    ensures Inv(CutAll(s, zone).s, other) && SameFile(s, other, CutAll(s, zone).s, other)
  {
    CutAllGone(s, zone);
    forall q | IsSlot(q) ensures Left(s, other, TreeSet(s, zone), q) {
      forall z | z in TreeSet(s, zone) ensures z != At(s, other, q) {
        SetInTree(s, zone, z);
        var p :| Holds(s, zone, p, z);
        NotCommon(s, zone, other, p, q);
      }
    }
    GoneKeeps(s, other, TreeSet(s, zone));
  }
}
