/** The two intrusive lists of fs/buffer.c: the circular free list through all buffers and the hash
    chains through those that have a device. Buffers are numbered from start_buffer; -1 is NULL. */
module BufferLists {
  import opened Links
  import opened CacheState

  const NR_HASH := 307

  /** The bitwise exclusive or of two numbers. */
  function Xor(a: nat, b: nat): nat
    decreases a + b
  {
    if a == 0 && b == 0 then 0 else 2 * Xor(a / 2, b / 2) + (a + b) % 2
  }

  /** _hashfn: both arguments are 32-bit numbers. */
  function HashFn(dev: int, block: int): (h: int)
    requires 0 <= dev < 0x1_0000_0000 && 0 <= block < 0x1_0000_0000
    ensures 0 <= h < NR_HASH
  {
    Xor(dev, block) % NR_HASH
  }

  predicate NoRepeat(s: seq<int>) {
    forall i, j :: 0 <= i < |s| && 0 <= j < |s| && s[i] == s[j] ==> i == j
  }

  function Without(s: seq<int>, k: int): seq<int>
    requires 0 <= k < |s|
  {
    s[..k] + s[k + 1..]
  }

  // ---------------------------------------------------------------- the free list

  predicate RingAt(nextFree: seq<int>, prevFree: seq<int>, ring: seq<int>, k: int)
    requires 0 <= k < |ring| && |prevFree| == |nextFree|
    requires Indices(ring, |nextFree|)
  {
    var after := if k + 1 == |ring| then ring[0] else ring[k + 1];
    nextFree[ring[k]] == after && prevFree[after] == ring[k]
  }

  /** ring, read from its first element, is one circular doubly linked list. */
  ghost predicate Ring(nextFree: seq<int>, prevFree: seq<int>, ring: seq<int>) {
    && |prevFree| == |nextFree|
    && Indices(ring, |nextFree|)
    && NoRepeat(ring)
    && (forall k :: 0 <= k < |ring| ==> RingAt(nextFree, prevFree, ring, k))
  }

  lemma UnlinkRingAt(nextFree: seq<int>, prevFree: seq<int>, ring: seq<int>, k: int, j: int)
    requires Ring(nextFree, prevFree, ring) && 0 <= k < |ring| && 0 <= j < |ring| - 1
    ensures var b, a := if k == 0 then |ring| - 1 else k - 1, if k + 1 == |ring| then 0 else k + 1;
      RingAt(nextFree[ring[b] := ring[a]], prevFree[ring[a] := ring[b]], Without(ring, k), j)
  {
    var m := if j < k then j else j + 1;
    assert RingAt(nextFree, prevFree, ring, m);
    assert Without(ring, k)[j] == ring[m];
  }

  /** The free-list half of remove_from_queues. */
  lemma UnlinkRing(nextFree: seq<int>, prevFree: seq<int>, ring: seq<int>, k: int)
    requires Ring(nextFree, prevFree, ring) && 0 <= k < |ring| && |ring| > 1
    ensures var x := ring[k]; var p, n := prevFree[x], nextFree[x];
      && p in ring && n in ring && p != x && n != x
      && Ring(nextFree[p := n], prevFree[n := p], Without(ring, k))
      && (k == 0 ==> n == ring[1])
  {
    var x := ring[k];
    var b := if k == 0 then |ring| - 1 else k - 1;
    var a := if k + 1 == |ring| then 0 else k + 1;
    assert RingAt(nextFree, prevFree, ring, k) && RingAt(nextFree, prevFree, ring, b);
    var p, n := ring[b], ring[a];
    assert prevFree[x] == p && nextFree[x] == n;
    var nf, pf, r := nextFree[p := n], prevFree[n := p], Without(ring, k);
    hide RingAt;
    forall j | 0 <= j < |r| ensures RingAt(nf, pf, r, j) {
      UnlinkRingAt(nextFree, prevFree, ring, k, j);
    }
  }

  /** The free-list half of insert_into_queues: x goes to the end. */
  lemma LinkRing(nextFree: seq<int>, prevFree: seq<int>, ring: seq<int>, x: int)
    requires Ring(nextFree, prevFree, ring) && ring != [] && x !in ring && 0 <= x < |nextFree|
    ensures var first := ring[0]; var last := prevFree[first];
      && last in ring
      && Ring(nextFree[x := first][last := x], prevFree[x := last][first := x], ring + [x])
  {
    var first, end := ring[0], |ring| - 1;
    assert RingAt(nextFree, prevFree, ring, end);
    var last := ring[end];
    var nf, pf, r := nextFree[x := first][last := x], prevFree[x := last][first := x], ring + [x];
    forall j | 0 <= j < |r| ensures RingAt(nf, pf, r, j) {
      if j < |ring| {
        assert RingAt(nextFree, prevFree, ring, j);
      }
    }
  }

  // ---------------------------------------------------------------- one hash chain

  predicate ChainAt(next: seq<int>, prev: seq<int>, c: seq<int>, k: int)
    requires 0 <= k < |c| && |prev| == |next|
    requires Indices(c, |next|)
  {
    next[c[k]] == At(c, k + 1) && prev[c[k]] == At(c, k - 1)
  }

  /** From head, c is an acyclic doubly linked chain. */
  ghost predicate Chain(next: seq<int>, prev: seq<int>, c: seq<int>, head: int) {
    && |prev| == |next|
    && Indices(c, |next|)
    && NoRepeat(c)
    && head == At(c, 0)
    && (forall k :: 0 <= k < |c| ==> ChainAt(next, prev, c, k))
  }

  function UnlinkPrev(next: seq<int>, prev: seq<int>, x: int): seq<int>
    requires 0 <= x < |next| == |prev| && NULL <= next[x] < |prev|
  {
    if next[x] != NULL then prev[next[x] := prev[x]] else prev
  }

  function UnlinkNext(next: seq<int>, prev: seq<int>, x: int): seq<int>
    requires 0 <= x < |next| == |prev| && NULL <= prev[x] < |next|
  {
    if prev[x] != NULL then next[prev[x] := next[x]] else next
  }

  /** The hash half of remove_from_queues. */
  lemma UnlinkChain(next: seq<int>, prev: seq<int>, c: seq<int>, head: int, k: int)
    requires Chain(next, prev, c, head) && 0 <= k < |c|
    ensures var x := c[k];
      && NULL <= next[x] < |prev| && NULL <= prev[x] < |next|
      && next[x] == At(c, k + 1) && prev[x] == At(c, k - 1) && next[x] != x && prev[x] != x
      && Chain(UnlinkNext(next, prev, x), UnlinkPrev(next, prev, x), Without(c, k), if head == x then next[x] else head)
  {
    var x := c[k];
    assert ChainAt(next, prev, c, k);
    var nx, pv, d := UnlinkNext(next, prev, x), UnlinkPrev(next, prev, x), Without(c, k);
    forall j | 0 <= j < |d| ensures ChainAt(nx, pv, d, j) {
      var m := if j < k then j else j + 1;
      assert ChainAt(next, prev, c, m) && d[j] == c[m];
    }
  }

  /** The hash half of insert_into_queues: x becomes the head. */
  lemma PushChain(next: seq<int>, prev: seq<int>, c: seq<int>, head: int, x: int)
    requires Chain(next, prev, c, head) && x !in c && 0 <= x < |next|
    ensures Chain(next[x := head], if head != NULL then prev[x := NULL][head := x] else prev[x := NULL], [x] + c, x)
  {
    var nx := next[x := head];
    var pv := if head != NULL then prev[x := NULL][head := x] else prev[x := NULL];
    var d := [x] + c;
    forall j | 0 <= j < |d| ensures ChainAt(nx, pv, d, j) {
      if j > 0 {
        assert ChainAt(next, prev, c, j - 1) && d[j] == c[j - 1];
      }
    }
  }

  /** A chain is not disturbed by writes to other buffers' links. */
  lemma ChainFrame(next: seq<int>, prev: seq<int>, next': seq<int>, prev': seq<int>, c: seq<int>, head: int)
    requires Chain(next, prev, c, head) && |next'| == |prev'| == |next|
    requires forall k :: 0 <= k < |c| ==> next'[c[k]] == next[c[k]] && prev'[c[k]] == prev[c[k]]
    ensures Chain(next', prev', c, head)
  {
    forall k | 0 <= k < |c| ensures ChainAt(next', prev', c, k) {
      assert ChainAt(next, prev, c, k);
    }
  }

  // ---------------------------------------------------------------- all chains

  /** Where buffer b belongs. */
  function Home(b: Buf): int
    requires 0 <= b.dev < 0x10000 && 0 <= b.block < 0x8000_0000
  {
    HashFn(b.dev, b.block)
  }

  ghost predicate Idents(bufs: seq<Buf>) {
    forall i :: 0 <= i < |bufs| ==> 0 <= bufs[i].dev < 0x10000 && 0 <= bufs[i].block < 0x8000_0000
  }

  ghost predicate AllChains(next: seq<int>, prev: seq<int>, hash: seq<int>, chains: seq<seq<int>>) {
    && |hash| == |chains| == NR_HASH
    && (forall h :: 0 <= h < NR_HASH ==> Chain(next, prev, chains[h], hash[h]))
  }

  /** Every buffer with a device, except out, lies in the chain of its hash, and in no other. */
  ghost predicate Placed(chains: seq<seq<int>>, bufs: seq<Buf>, out: int)
    requires Idents(bufs)
  {
    && |chains| == NR_HASH
    && (forall h, k :: 0 <= h < NR_HASH && 0 <= k < |chains[h]| ==> BelongsTo(bufs, out, chains[h][k], h))
    && (forall i :: 0 <= i < |bufs| && i != out && bufs[i].dev != 0 ==> InChain(chains, Home(bufs[i]), i))
  }

  predicate BelongsTo(bufs: seq<Buf>, out: int, i: int, h: int)
    requires Idents(bufs)
  {
    i != out && 0 <= i < |bufs| && bufs[i].dev != 0 && Home(bufs[i]) == h
  }

  ghost predicate InChain(chains: seq<seq<int>>, h: int, i: int)
    requires 0 <= h < |chains|
  {
    exists k :: 0 <= k < |chains[h]| && chains[h][k] == i
  }

  ghost predicate Chains(next: seq<int>, prev: seq<int>, hash: seq<int>, chains: seq<seq<int>>, bufs: seq<Buf>,
                         out: int)
  {
    && |next| == |prev| == |bufs| && Idents(bufs)
    && AllChains(next, prev, hash, chains) && Placed(chains, bufs, out)
    && (forall i :: 0 <= i < |bufs| && i != out && bufs[i].dev == 0 ==> next[i] == prev[i] == NULL)
  }

  lemma PlacedWithout(chains: seq<seq<int>>, bufs: seq<Buf>, x: int, h: int, k: int)
    requires Idents(bufs) && Placed(chains, bufs, NULL) && 0 <= h < NR_HASH && 0 <= k < |chains[h]| && chains[h][k] == x
    requires NoRepeat(chains[h])
    ensures Placed(chains[h := Without(chains[h], k)], bufs, x)
  {
    var chains' := chains[h := Without(chains[h], k)];
    assert BelongsTo(bufs, NULL, x, h);
    assert forall j :: 0 <= j < |chains[h]| && j != k ==> chains[h][j] != x;
    hide HashFn, Home, NoRepeat;
    forall i | 0 <= i < |bufs| && i != x && bufs[i].dev != 0 ensures InChain(chains', Home(bufs[i]), i) {
      var g := Home(bufs[i]);
      assert InChain(chains, g, i);
      var j :| 0 <= j < |chains[g]| && chains[g][j] == i;
      assert chains'[g][if g == h && j > k then j - 1 else j] == i;
    }
    forall g, j | 0 <= g < NR_HASH && 0 <= j < |chains'[g]| ensures BelongsTo(bufs, x, chains'[g][j], g) {
      var m := if g == h && j >= k then j + 1 else j;
      assert chains'[g][j] == chains[g][m] && BelongsTo(bufs, NULL, chains[g][m], g);
    }
  }

  lemma PlacedWith(chains: seq<seq<int>>, bufs: seq<Buf>, x: int)
    requires Idents(bufs) && Placed(chains, bufs, x) && 0 <= x < |bufs| && bufs[x].dev != 0
    ensures Placed(chains[Home(bufs[x]) := [x] + chains[Home(bufs[x])]], bufs, NULL)
  {
    var h := Home(bufs[x]);
    var chains' := chains[h := [x] + chains[h]];
    hide HashFn;
    forall i | 0 <= i < |bufs| && bufs[i].dev != 0 ensures InChain(chains', Home(bufs[i]), i) {
      if i == x {
        assert chains'[h][0] == x;
      } else {
        var g := Home(bufs[i]);
        assert InChain(chains, g, i);
        var j :| 0 <= j < |chains[g]| && chains[g][j] == i;
        assert chains'[g][if g == h then j + 1 else j] == i;
      }
    }
    forall g, j | 0 <= g < NR_HASH && 0 <= j < |chains'[g]| ensures BelongsTo(bufs, NULL, chains'[g][j], g) {
      if g == h && j > 0 {
        assert chains'[g][j] == chains[g][j - 1] && BelongsTo(bufs, x, chains[g][j - 1], g);
      } else if g != h {
        assert BelongsTo(bufs, x, chains[g][j], g);
      }
    }
  }

  /** Writes to the links of buffers at home in chain h leave the other chains alone. */
  lemma OtherChains(next: seq<int>, prev: seq<int>, next': seq<int>, prev': seq<int>, hash: seq<int>,
                    chains: seq<seq<int>>, bufs: seq<Buf>, out: int, h: int)
    requires |next| == |prev| == |next'| == |prev'| == |bufs| && Idents(bufs)
    requires AllChains(next, prev, hash, chains) && Placed(chains, bufs, out)
    requires forall i :: 0 <= i < |bufs| && i != out && bufs[i].dev != 0 && Home(bufs[i]) != h ==>
      next'[i] == next[i] && prev'[i] == prev[i]
    ensures forall g :: 0 <= g < NR_HASH && g != h ==> Chain(next', prev', chains[g], hash[g])
  {
    hide HashFn, Home;
    forall g | 0 <= g < NR_HASH && g != h ensures Chain(next', prev', chains[g], hash[g]) {
      assert forall j :: 0 <= j < |chains[g]| ==> BelongsTo(bufs, out, chains[g][j], g);
      ChainFrame(next, prev, next', prev', chains[g], hash[g]);
    }
  }

  /** Unlinking x writes only to its neighbours, which are at home in the same chain. */
  lemma UnlinkWrites(next: seq<int>, prev: seq<int>, hash: seq<int>, chains: seq<seq<int>>, bufs: seq<Buf>,
                     x: int, h: int, k: int)
    requires Chains(next, prev, hash, chains, bufs, NULL) && 0 <= h < NR_HASH && 0 <= k < |chains[h]|
    requires chains[h][k] == x
    ensures 0 <= x < |next| && NULL <= next[x] < |prev| && NULL <= prev[x] < |next|
    ensures forall i :: 0 <= i < |bufs| && (bufs[i].dev == 0 || Home(bufs[i]) != h) ==>
      UnlinkNext(next, prev, x)[i] == next[i] && UnlinkPrev(next, prev, x)[i] == prev[i]
  {
    assert ChainAt(next, prev, chains[h], k);
    assert next[x] != NULL ==> BelongsTo(bufs, NULL, chains[h][k + 1], h);
    assert prev[x] != NULL ==> BelongsTo(bufs, NULL, chains[h][k - 1], h);
  }

  /** The hash half of remove_from_queues on all chains, for a buffer that has a device. */
  lemma UnlinkChains(next: seq<int>, prev: seq<int>, hash: seq<int>, chains: seq<seq<int>>, bufs: seq<Buf>,
                     x: int, k: int)
    requires Chains(next, prev, hash, chains, bufs, NULL) && 0 <= x < |bufs| && bufs[x].dev != 0
    requires 0 <= k < |chains[Home(bufs[x])]| && chains[Home(bufs[x])][k] == x
    ensures NULL <= next[x] < |prev| && NULL <= prev[x] < |next| && next[x] != x && prev[x] != x
    ensures var h := Home(bufs[x]);
      Chains(UnlinkNext(next, prev, x), UnlinkPrev(next, prev, x), if hash[h] == x then hash[h := next[x]] else hash,
             chains[h := Without(chains[h], k)], bufs, x)
  {
    var h := Home(bufs[x]);
    UnlinkChain(next, prev, chains[h], hash[h], k);
    var nx, pv := UnlinkNext(next, prev, x), UnlinkPrev(next, prev, x);
    assert NoRepeat(chains[h]);
    UnlinkWrites(next, prev, hash, chains, bufs, x, h, k);
    hide HashFn, Home, Chain, NoRepeat, Indices, UnlinkNext, UnlinkPrev;
    PlacedWithout(chains, bufs, x, h, k);
    OtherChains(next, prev, nx, pv, hash, chains, bufs, NULL, h);
    hide Placed, Without;
  }

  /** The hash half of insert_into_queues on all chains. */
  lemma PushChains(next: seq<int>, prev: seq<int>, hash: seq<int>, chains: seq<seq<int>>, bufs: seq<Buf>, x: int)
    requires Chains(next, prev, hash, chains, bufs, x) && 0 <= x < |bufs| && bufs[x].dev != 0
    ensures var h := Home(bufs[x]);
      && NULL <= hash[h] < |prev|
      && Chains(next[x := hash[h]], if hash[h] != NULL then prev[x := NULL][hash[h] := x] else prev[x := NULL],
                hash[h := x], chains[h := [x] + chains[h]], bufs, NULL)
  {
    var h := Home(bufs[x]);
    PlacedWith(chains, bufs, x);
    assert forall j :: 0 <= j < |chains[h]| ==> BelongsTo(bufs, x, chains[h][j], h);
    PushChain(next, prev, chains[h], hash[h], x);
    assert NULL <= hash[h] < |prev| && (hash[h] != NULL ==> BelongsTo(bufs, x, hash[h], h));
    hide HashFn, Home, Chain, NoRepeat, Indices;
    var nx := next[x := hash[h]];
    var pv := if hash[h] != NULL then prev[x := NULL][hash[h] := x] else prev[x := NULL];
    OtherChains(next, prev, nx, pv, hash, chains, bufs, x, h);
    hide Placed;
  }

  // ---------------------------------------------------------------- the lists in place

  /** The ring holds every buffer but out; with no buffer left, out still points to itself. */
  ghost predicate FreeList(nextFree: seq<int>, prevFree: seq<int>, freeList: int, ring: seq<int>, out: int) {
    && Ring(nextFree, prevFree, ring)
    && (forall i :: 0 <= i < |nextFree| && i != out ==> i in ring) && out !in ring
    && if ring != [] then freeList == ring[0]
       else 0 <= out < |nextFree| && freeList == out && nextFree[out] == out && prevFree[out] == out
  }

  function UnlinkNextFree(nextFree: seq<int>, prevFree: seq<int>, x: int): seq<int>
    requires 0 <= x < |nextFree| == |prevFree| && 0 <= prevFree[x] < |nextFree|
  {
    nextFree[prevFree[x] := nextFree[x]]
  }

  function UnlinkPrevFree(nextFree: seq<int>, prevFree: seq<int>, x: int): seq<int>
    requires 0 <= x < |nextFree| == |prevFree| && 0 <= nextFree[x] < |prevFree|
  {
    prevFree[nextFree[x] := prevFree[x]]
  }

  lemma FreeListUnlink(nextFree: seq<int>, prevFree: seq<int>, freeList: int, ring: seq<int>, k: int)
    requires FreeList(nextFree, prevFree, freeList, ring, NULL) && 0 <= k < |ring|
    ensures var x := ring[k];
      && 0 <= x < |nextFree| && 0 <= prevFree[x] < |nextFree| && 0 <= nextFree[x] < |prevFree|
      && var nf, pf := UnlinkNextFree(nextFree, prevFree, x), UnlinkPrevFree(nextFree, prevFree, x);
         FreeList(nf, pf, if freeList == x then nf[x] else freeList, Without(ring, k), x)
  {
    var x, r := ring[k], Without(ring, k);
    assert RingAt(nextFree, prevFree, ring, k);
    if |ring| > 1 {
      UnlinkRing(nextFree, prevFree, ring, k);
    } else {
      assert ring == [x] && r == [];
    }
    forall i | 0 <= i < |nextFree| && i != x ensures i in r {
      assert i in ring;
      var j :| 0 <= j < |ring| && ring[j] == i;
      assert r[if j < k then j else j - 1] == i;
    }
    forall j | 0 <= j < |r| ensures r[j] != x {
      assert r[j] == ring[if j < k then j else j + 1];
    }
  }

  lemma FreeListLink(nextFree: seq<int>, prevFree: seq<int>, freeList: int, ring: seq<int>, x: int)
    requires FreeList(nextFree, prevFree, freeList, ring, x) && 0 <= x < |nextFree|
    ensures 0 <= freeList < |nextFree| && 0 <= prevFree[freeList] < |nextFree|
    ensures var last := prevFree[freeList];
      FreeList(nextFree[x := freeList][last := x], prevFree[x := last][freeList := x], freeList, ring + [x], NULL)
  {
    if ring != [] {
      LinkRing(nextFree, prevFree, ring, x);
      assert RingAt(nextFree, prevFree, ring, |ring| - 1);
    } else {
      var nf, pf := nextFree[x := x][x := x], prevFree[x := x][x := x];
      assert RingAt(nf, pf, [x], 0);
      assert ring + [x] == [x];
    }
    forall i | 0 <= i < |nextFree| ensures i in ring + [x] {
      assert i != x ==> i in ring;
    }
  }

  lemma InitialRing(nextFree: seq<int>, prevFree: seq<int>, n: int)
    requires 1 <= n == |nextFree| == |prevFree|
    requires forall i :: 0 <= i < n ==> nextFree[i] == (if i == n - 1 then 0 else i + 1)
    requires forall i :: 0 <= i < n ==> prevFree[i] == (if i == 0 then n - 1 else i - 1)
    ensures FreeList(nextFree, prevFree, 0, seq(n, i => i), NULL)
  {
    var ring := seq(n, i => i);
    forall k | 0 <= k < n ensures RingAt(nextFree, prevFree, ring, k) {
    }
    forall i | 0 <= i < n ensures i in ring {
      assert ring[i] == i;
    }
  }

  lemma InitialChains(next: seq<int>, prev: seq<int>, hash: seq<int>, bufs: seq<Buf>)
    requires |hash| == NR_HASH && forall h :: 0 <= h < NR_HASH ==> hash[h] == NULL
    requires |next| == |prev| == |bufs| && Idents(bufs)
    requires forall i :: 0 <= i < |bufs| ==> bufs[i].dev == 0 && next[i] == prev[i] == NULL
    ensures Chains(next, prev, hash, seq(NR_HASH, _ => []), bufs, NULL)
  {
  }

  class Lists {
    const next: array<int>
    const prev: array<int>
    const nextFree: array<int>
    const prevFree: array<int>
    const hash: array<int>
    var freeList: int
    ghost var ring: seq<int>
    ghost var chains: seq<seq<int>>

    /** buffer_init for n buffers, none of which has a device: the free list links them in order. */
    constructor (n: int, ghost bufs: seq<Buf>)
      requires 1 <= n == |bufs| && Idents(bufs) && forall i :: 0 <= i < n ==> bufs[i].dev == 0
      ensures Valid(bufs) && ring == seq(n, i => i)
      ensures fresh(next) && fresh(prev) && fresh(nextFree) && fresh(prevFree) && fresh(hash)
    {
      next := new int[n](_ => NULL);
      prev := new int[n](_ => NULL);
      nextFree := new int[n](_ => NULL);
      prevFree := new int[n](_ => NULL);
      hash := new int[NR_HASH](_ => NULL);
      freeList := 0;
      ring := seq(n, i => i);
      chains := seq(NR_HASH, _ => []);
      new;
      var h := 0;
      while h < n
        invariant 0 <= h <= n && freeList == 0 && ring == seq(n, i => i) && chains == seq(NR_HASH, _ => [])
        invariant forall i :: 0 <= i < h ==> nextFree[i] == i + 1 && prevFree[i] == i - 1
        invariant forall i :: 0 <= i < n ==> next[i] == prev[i] == NULL
        invariant forall i :: 0 <= i < NR_HASH ==> hash[i] == NULL
      {
        prevFree[h] := h - 1;
        nextFree[h] := h + 1;
        h := h + 1;
      }
      h := h - 1;
      prevFree[freeList] := h;
      nextFree[h] := freeList;
      InitialRing(nextFree[..], prevFree[..], n);
      InitialChains(next[..], prev[..], hash[..], bufs);
    }

    ghost predicate Apart() {
      && next != prev && next != nextFree && next != prevFree && next != hash
      && prev != nextFree && prev != prevFree && prev != hash
      && nextFree != prevFree && nextFree != hash && prevFree != hash
    }

    ghost predicate Sized(n: int)
      reads next, prev, nextFree, prevFree, hash
    {
      Apart() && next.Length == prev.Length == nextFree.Length == prevFree.Length == n && hash.Length == NR_HASH
    }

    /** Both lists are in order, but for buffer out, which is in neither. */
    ghost predicate Except(bufs: seq<Buf>, out: int)
      reads this, next, prev, nextFree, prevFree, hash
    {
      && Sized(|bufs|)
      && FreeList(nextFree[..], prevFree[..], freeList, ring, out)
      && Chains(next[..], prev[..], hash[..], chains, bufs, out)
    }

    ghost predicate Valid(bufs: seq<Buf>)
      reads this, next, prev, nextFree, prevFree, hash
    {
      Except(bufs, NULL)
    }

    /** The lists depend on the identities of the buffers only, and on nothing of buffer out. */
    lemma IdentitiesOnly(bufs: seq<Buf>, bufs': seq<Buf>, out: int)
      requires Except(bufs, out) && |bufs'| == |bufs| && Idents(bufs')
      requires forall i :: 0 <= i < |bufs| && i != out ==> Holds(bufs'[i], bufs[i].dev, bufs[i].block)
      ensures Except(bufs', out)
    {
      hide FreeList, AllChains, Ring, InChain, HashFn;
      forall h, k | 0 <= h < NR_HASH && 0 <= k < |chains[h]| ensures BelongsTo(bufs', out, chains[h][k], h) {
        assert BelongsTo(bufs, out, chains[h][k], h);
      }
    }

    /** The writes of remove_from_queues for the chain that starts at hash[h]. */
    method Unlink(x: int, h: int)
      requires next != prev && next != hash && prev != hash && 0 <= x < next.Length == prev.Length
      requires 0 <= h < hash.Length
      requires NULL <= next[x] < prev.Length && NULL <= prev[x] < next.Length && next[x] != x && prev[x] != x
      modifies next, prev, hash
      ensures next[..] == UnlinkNext(old(next[..]), old(prev[..]), x)
      ensures prev[..] == UnlinkPrev(old(next[..]), old(prev[..]), x)
      ensures hash[..] == if old(hash[h]) == x then old(hash[..])[h := old(next[x])] else old(hash[..])
    {
      ghost var nx, pv := next[..], prev[..];
      if next[x] != NULL {
        prev[next[x]] := prev[x];
      }
      assert prev[..] == UnlinkPrev(nx, pv, x);
      if prev[x] != NULL {
        next[prev[x]] := next[x];
      }
      assert next[..] == UnlinkNext(nx, pv, x);
      if hash[h] == x {
        hash[h] := next[x];
      }
    }

    /** The hash half of remove_from_queues. */
    method RemoveFromChain(x: int, dev: int, block: int, ghost bufs: seq<Buf>)
      requires Valid(bufs) && 0 <= x < |bufs| && bufs[x].dev == dev && bufs[x].block == block
      modifies this`chains, next, prev, hash
      ensures Sized(|bufs|) && Chains(next[..], prev[..], hash[..], chains, bufs, x)
    {
      ghost var nx, pv, hs := next[..], prev[..], hash[..];
      var h := HashFn(dev, block);
      ghost var k := -1;
      if dev != 0 {
        assert InChain(chains, h, x);
        k :| 0 <= k < |chains[h]| && chains[h][k] == x;
        UnlinkChains(nx, pv, hs, chains, bufs, x, k);
      } else {
        assert hash[h] != NULL ==> BelongsTo(bufs, NULL, chains[h][0], h);
      }
      Unlink(x, h);
      if dev != 0 {
        chains := chains[h := Without(chains[h], k)];
      }
    }

    /** remove_from_queues(x). The test for NULL free links, a panic in the source, cannot succeed here. */
    method RemoveFromQueues(x: int, dev: int, block: int, ghost bufs: seq<Buf>)
      requires Valid(bufs) && 0 <= x < |bufs| && bufs[x].dev == dev && bufs[x].block == block
      modifies this, next, prev, nextFree, prevFree, hash
      ensures Except(bufs, x)
      ensures exists k :: 0 <= k < |old(ring)| && old(ring)[k] == x && ring == Without(old(ring), k)
    {
      RemoveFromChain(x, dev, block, bufs);
      assert x in ring;
      ghost var k :| 0 <= k < |ring| && ring[k] == x;
      ghost var nf, pf, fl := nextFree[..], prevFree[..], freeList;
      FreeListUnlink(nf, pf, fl, ring, k);
      nextFree[prevFree[x]] := nextFree[x];
      assert nextFree[..] == UnlinkNextFree(nf, pf, x);
      assert nextFree[x] == nf[x];
      prevFree[nextFree[x]] := prevFree[x];
      assert prevFree[..] == UnlinkPrevFree(nf, pf, x);
      if freeList == x {
        freeList := nextFree[x];
      }
      ring := Without(ring, k);
    }

    /** insert_into_queues(x): the end of the free list, and the head of its hash chain if it has a device. */
    method InsertIntoQueues(x: int, dev: int, block: int, ghost bufs: seq<Buf>)
      requires Except(bufs, x) && 0 <= x < |bufs| && bufs[x].dev == dev && bufs[x].block == block
      modifies this, next, prev, nextFree, prevFree, hash
      ensures Valid(bufs) && ring == old(ring) + [x]
      ensures dev != 0 ==> hash[HashFn(dev, block)] == x
    {
      ghost var nf, pf := nextFree[..], prevFree[..];
      FreeListLink(nf, pf, freeList, ring, x);
      ghost var last := pf[freeList];
      nextFree[x] := freeList;
      prevFree[x] := prevFree[freeList];
      nextFree[prevFree[freeList]] := x;
      prevFree[freeList] := x;
      assert nextFree[..] == nf[x := freeList][last := x];
      assert prevFree[..] == pf[x := last][freeList := x];
      ring := ring + [x];
      InsertIntoChain(x, dev, block, bufs);
    }

    /** The hash half of insert_into_queues. */
    method InsertIntoChain(x: int, dev: int, block: int, ghost bufs: seq<Buf>)
      requires Sized(|bufs|) && Chains(next[..], prev[..], hash[..], chains, bufs, x)
      requires 0 <= x < |bufs| && bufs[x].dev == dev && bufs[x].block == block
      modifies this`chains, next, prev, hash
      ensures Sized(|bufs|) && Chains(next[..], prev[..], hash[..], chains, bufs, NULL)
      ensures dev != 0 ==> hash[HashFn(dev, block)] == x
    {
      ghost var nx, pv, hs := next[..], prev[..], hash[..];
      next[x] := NULL;
      prev[x] := NULL;
      if dev == 0 {
        NoDevice(nx, pv, hs, chains, bufs, x);
        assert next[..] == nx[x := NULL] && prev[..] == pv[x := NULL] && hash[..] == hs;
        return;
      }
      PushChains(nx, pv, hs, chains, bufs, x);
      var h := HashFn(dev, block);
      next[x] := hash[h];
      hash[h] := x;
      if next[x] != NULL {
        prev[next[x]] := x;
      }
      assert next[..] == nx[x := hs[h]];
      assert prev[..] == if hs[h] != NULL then pv[x := NULL][hs[h] := x] else pv[x := NULL];
      assert hash[..] == hs[h := x];
      chains := chains[h := [x] + chains[h]];
    }

    /** find_buffer(dev, block), for any 32-bit arguments: it searches the chain of the hash of dev but
        compares with dev cut down to 16 bits. */
    method FindBuffer(bufs: array<Buf>, dev: int, block: int) returns (i: int)
      requires Valid(bufs[..]) && 0 <= dev < 0x1_0000_0000 && 0 <= block < 0x1_0000_0000
      ensures i != NULL ==> 0 <= i < bufs.Length && Holds(bufs[i], dev % 0x10000, block)
      ensures i != NULL <==> Findable(bufs[..], dev, block)
    {
      var h := HashFn(dev, block);
      ghost var k := 0;
      i := hash[h];
      while i != NULL
        invariant 0 <= k <= |chains[h]| && i == At(chains[h], k)
        invariant forall j :: 0 <= j < k ==> !Holds(bufs[chains[h][j]], dev % 0x10000, block)
        decreases |chains[h]| - k
      {
        assert ChainAt(next[..], prev[..], chains[h], k) && BelongsTo(bufs[..], NULL, chains[h][k], h);
        if bufs[i].dev == dev % 0x10000 && bufs[i].block == block {
          assert Holds(bufs[..][i], dev % 0x10000, block);
          return;
        }
        i := next[i];
        k := k + 1;
      }
      forall j | 0 <= j < bufs.Length && bufs[j].dev != 0 && HashFn(bufs[j].dev, bufs[j].block) == h
        ensures !Holds(bufs[j], dev % 0x10000, block)
      {
        assert InChain(chains, Home(bufs[..][j]), j);
      }
    }

    /** The free-list scan of getblk. */
    method ScanFree(bufs: array<Buf>) returns (bh: int)
      requires Valid(bufs[..]) && bufs.Length >= 1
      ensures NULL <= bh < bufs.Length && Indices(ring, bufs.Length) && Chosen(bufs[..], ring, |ring|, bh)
      ensures bh == NULL <==> forall j :: 0 <= j < bufs.Length ==> bufs[j].count != 0
      ensures forall j :: 0 <= j < bufs.Length && bufs[j].count == 0 ==> bh != NULL && !Handier(bufs[j], bufs[bh])
    {
      assert 0 in ring;
      bh := NULL;
      ghost var k := 0;
      var tmp, more := freeList, true;
      while more
        invariant 0 <= k <= |ring| && (more ==> k < |ring| && tmp == ring[k])
        invariant NULL <= bh < bufs.Length && Chosen(bufs[..], ring, k, bh)
        invariant !more ==> k == |ring| || (bh != NULL && Badness(bufs[bh]) == 0)
        decreases more, |ring| - k
      {
        assert RingAt(nextFree[..], prevFree[..], ring, k);
        ghost var b0 := bh;
        if bufs[tmp].count == 0 && (bh == NULL || Badness(bufs[tmp]) < Badness(bufs[bh])) {
          bh := tmp;
        }
        ChosenNext(bufs[..], ring, k, b0, bh);
        if bh == tmp && Badness(bufs[bh]) == 0 {
          more := false;
        } else {
          tmp := nextFree[tmp];
          more := tmp != freeList;
        }
        k := k + 1;
      }
      ChosenBest(bufs[..], ring, bh);
    }
  }

  /** Dirty weighs more than locked. */
  function Badness(b: Buf): int {
    (if b.dirt then 2 else 0) + (if b.lock then 1 else 0)
  }

  /** Buffer a is handier than b: clean ones before dirty ones, and of two alike in that unlocked before locked ones. */
  predicate Handier(a: Buf, b: Buf) {
    if a.dirt != b.dirt then !a.dirt else !a.lock && b.lock
  }

  /** Among the first n buffers of the ring, bh is the first of the handiest unreferenced ones; NULL if all are
      referenced. */
  ghost predicate Chosen(bufs: seq<Buf>, ring: seq<int>, n: int, bh: int)
    requires Indices(ring, |bufs|) && 0 <= n <= |ring| && NULL <= bh < |bufs|
  {
    if bh == NULL then forall j :: 0 <= j < n ==> bufs[ring[j]].count != 0
    else bufs[bh].count == 0 && exists k :: 0 <= k < n && ring[k] == bh && Least(bufs, ring, n, k)
  }

  ghost predicate Least(bufs: seq<Buf>, ring: seq<int>, n: int, k: int)
    requires Indices(ring, |bufs|) && 0 <= k < n <= |ring|
  {
    forall j | 0 <= j < n && bufs[ring[j]].count == 0 ::
      !Handier(bufs[ring[j]], bufs[ring[k]]) && (j < k ==> Handier(bufs[ring[k]], bufs[ring[j]]))
  }

  lemma ChosenBest(bufs: seq<Buf>, ring: seq<int>, bh: int)
    requires Indices(ring, |bufs|) && NULL <= bh < |bufs| && Chosen(bufs, ring, |ring|, bh)
    requires forall j :: 0 <= j < |bufs| ==> j in ring
    ensures bh == NULL <==> forall j :: 0 <= j < |bufs| ==> bufs[j].count != 0
    ensures forall j :: 0 <= j < |bufs| && bufs[j].count == 0 ==> bh != NULL && !Handier(bufs[j], bufs[bh])
  {
    forall j | 0 <= j < |bufs| && bufs[j].count == 0 ensures bh != NULL && !Handier(bufs[j], bufs[bh]) {
      assert j in ring;
    }
  }

  lemma ChosenNext(bufs: seq<Buf>, ring: seq<int>, n: int, b0: int, b1: int)
    requires Indices(ring, |bufs|) && 0 <= n < |ring| && NULL <= b0 < |bufs| && Chosen(bufs, ring, n, b0)
    requires b1 ==
      if bufs[ring[n]].count == 0 && (b0 == NULL || Badness(bufs[ring[n]]) < Badness(bufs[b0])) then ring[n] else b0
    ensures Chosen(bufs, ring, n + 1, b1)
    ensures b1 != NULL && Badness(bufs[b1]) == 0 ==> Chosen(bufs, ring, |ring|, b1)
  {
    if b1 != NULL {
      var k := n;
      if b0 != NULL {
        k :| 0 <= k < n && ring[k] == b0 && Least(bufs, ring, n, k);
        k := if b1 == b0 then k else n;
      }
      assert Least(bufs, ring, n + 1, k);
      if Badness(bufs[b1]) == 0 {
        assert Least(bufs, ring, |ring|, k);
      }
    }
  }

  /** Some buffer stands for the block, and the search starts in that buffer's chain. */
  ghost predicate Findable(bufs: seq<Buf>, dev: int, block: int)
    requires Idents(bufs) && 0 <= dev < 0x1_0000_0000 && 0 <= block < 0x1_0000_0000
  {
    exists j :: 0 <= j < |bufs| && bufs[j].dev != 0 && Holds(bufs[j], dev % 0x10000, block)
      && HashFn(bufs[j].dev, bufs[j].block) == HashFn(dev, block)
  }

  /** For a 16-bit device number the hash is no restriction: find_buffer finds exactly what is cached. */
  lemma FindableIffCached(bufs: seq<Buf>, dev: int, block: int)
    requires Idents(bufs) && 0 < dev < 0x10000 && 0 <= block < 0x1_0000_0000
    ensures Findable(bufs, dev, block) <==> exists j :: 0 <= j < |bufs| && Holds(bufs[j], dev, block)
  {
    if j :| 0 <= j < |bufs| && Holds(bufs[j], dev, block) {
      assert bufs[j].dev != 0 && HashFn(bufs[j].dev, bufs[j].block) == HashFn(dev, block);
    }
  }

  /** For any 32-bit number it finds exactly what is cached under the low 16 bits, provided that these are not all
      zero and that the bits above them leave the hash as it is. */
  lemma FindableExactly(bufs: seq<Buf>, dev: int, block: int)
    requires Idents(bufs) && 0 <= dev < 0x1_0000_0000 && 0 <= block < 0x1_0000_0000
    ensures Findable(bufs, dev, block) <==>
      && dev % 0x10000 != 0
      && (exists j :: 0 <= j < |bufs| && Holds(bufs[j], dev % 0x10000, block))
      && HashFn(dev % 0x10000, block) == HashFn(dev, block)
  {
    hide HashFn;
    if j :| 0 <= j < |bufs| && Holds(bufs[j], dev % 0x10000, block) {
      assert HashFn(bufs[j].dev, bufs[j].block) == HashFn(dev % 0x10000, block);
    }
  }

  /** Such a number can miss a buffer that the comparison would accept. */
  lemma WideDeviceMissed()
    ensures var b := Buf(1, 0, 1, false, false, true, []);
      Holds(b, 0x10001 % 0x10000, 0) && !Findable([b], 0x10001, 0)
  {
    assert Xor(1, 0) == 1;
    XorZero(0x10001);
  }

  /** After a look-up that found nothing, getblk gives buffer i the low 16 bits of dev. Blocks stay unique unless these
      bits are a device, the bits above them change the hash, and another buffer stands for that block already. */
  lemma WideClaimUnique(s: Sys, i: int, dev: int, block: int)
    requires Inv(s) && IsBuffer(s, i) && 0 <= dev < 0x1_0000_0000 && 0 <= block < 0x8000_0000
    requires !Findable(s.bufs, dev, block)
    ensures Unique(Claimed(s, i, dev % 0x10000, block)) <==>
      || dev % 0x10000 == 0
      || HashFn(dev % 0x10000, block) == HashFn(dev, block)
      || forall j :: IsBuffer(s, j) && j != i ==> !Holds(s.bufs[j], dev % 0x10000, block)
  {
    FindableExactly(s.bufs, dev, block);
    hide HashFn, Findable, Locks, Requests, Clean, Ordered;
    var d := dev % 0x10000;
    var s' := Claimed(s, i, d, block);
    assert Holds(s'.bufs[i], d, block);
    if j :| d != 0 && IsBuffer(s, j) && j != i && Holds(s.bufs[j], d, block) {
      assert s'.bufs[j] == s.bufs[j] && IsBuffer(s', i) && IsBuffer(s', j);
    }
  }

  lemma WideHash()
    ensures HashFn(0x10001, 0) != HashFn(1, 0)
  {
    hide Xor;
    XorZero(1);
    XorZero(0x10001);
  }

  /** Two buffers: one in use for block 0 of device 1, one free. */
  function OneHeld(disk: Disk): Sys {
    Sys([Buf(1, 0, 1, false, false, true, disk(1, 0)), Buf(0, 0, 0, false, false, false, [])],
        [Idle, Idle], [0, 0], disk, seq(NR_BLK_DEV, _ => []))
  }

  lemma OneHeldInv(disk: Disk)
    ensures Inv(OneHeld(disk))
  {
    var s := OneHeld(disk);
    assert forall m :: 0 <= m < NR_BLK_DEV ==> Keys(s.queues[m]) == [];
    assert Shape(s) && Unique(s) && Locks(s) && Requests(s) && Clean(s) && Ordered(s);
  }

  /** getblk(0x10001, 0) then makes the free buffer a second one for block 0 of device 1. */
  lemma WideClaimDuplicates(disk: Disk)
    ensures var s := OneHeld(disk);
      Inv(s) && !Findable(s.bufs, 0x10001, 0) && !Unique(Claimed(s, 1, 0x10001 % 0x10000, 0))
  {
    var s := OneHeld(disk);
    OneHeldInv(disk);
    WideHash();
    hide HashFn, Inv, Unique;
    FindableExactly(s.bufs, 0x10001, 0);
    assert Holds(s.bufs[0], 0x10001 % 0x10000, 0);
    WideClaimUnique(s, 1, 0x10001, 0);
  }

  /** Bit k of a number. */
  function Bit(a: nat, k: nat): nat
    decreases k
  {
    if k == 0 then a % 2 else Bit(a / 2, k - 1)
  }

  lemma Halves(n: nat, x: nat, r: nat)
    requires n == 2 * x + r && r < 2
    ensures n / 2 == x && n % 2 == r
  {
  }

  lemma ParityOfSum(a: nat, b: nat)
    ensures (a + b) % 2 == if a % 2 != b % 2 then 1 else 0
  {
  }

  lemma XorHalves(a: nat, b: nat)
    ensures Xor(a, b) / 2 == Xor(a / 2, b / 2)
    ensures Xor(a, b) % 2 == if a % 2 != b % 2 then 1 else 0
  {
    var x, r := Xor(a / 2, b / 2), (a + b) % 2;
    assert Xor(a, b) == 2 * x + r;
    hide Xor;
    Halves(Xor(a, b), x, r);
    ParityOfSum(a, b);
  }

  /** Xor is the exclusive or bit by bit. */
  lemma {:induction false} XorBits(a: nat, b: nat, k: nat)
    ensures Bit(Xor(a, b), k) == if Bit(a, k) != Bit(b, k) then 1 else 0
    decreases k
  {
    hide Xor;
    XorHalves(a, b);
    if k > 0 {
      XorBits(a / 2, b / 2, k - 1);
    }
  }

  /** The hash of fs/buffer.c: the remainder, by 307, of the number whose bits say where dev and block differ. */
  lemma HashExactly(dev: int, block: int) returns (x: nat)
    requires 0 <= dev < 0x1_0000_0000 && 0 <= block < 0x1_0000_0000
    ensures HashFn(dev, block) == x % 307 && forall k: nat :: Bit(x, k) == if Bit(dev, k) != Bit(block, k) then 1 else 0
  {
    x := Xor(dev, block);
    forall k: nat ensures Bit(x, k) == if Bit(dev, k) != Bit(block, k) then 1 else 0 {
      XorBits(dev, block, k);
    }
  }

  lemma {:induction false} XorZero(a: nat)
    ensures Xor(a, 0) == a
    decreases a
  {
    if a != 0 {
      XorZero(a / 2);
    }
  }

  /** A buffer without a device belongs to no chain. */
  lemma NoDevice(next: seq<int>, prev: seq<int>, hash: seq<int>, chains: seq<seq<int>>, bufs: seq<Buf>, x: int)
    requires Chains(next, prev, hash, chains, bufs, x) && 0 <= x < |bufs| && bufs[x].dev == 0
    ensures Chains(next[x := NULL], prev[x := NULL], hash, chains, bufs, NULL)
  {
    var nx, pv := next[x := NULL], prev[x := NULL];
    forall g | 0 <= g < NR_HASH ensures Chain(nx, pv, chains[g], hash[g]) {
      assert forall j :: 0 <= j < |chains[g]| ==> BelongsTo(bufs, x, chains[g][j], g);
      ChainFrame(next, prev, nx, pv, chains[g], hash[g]);
    }
    forall g, j | 0 <= g < NR_HASH && 0 <= j < |chains[g]| ensures BelongsTo(bufs, NULL, chains[g][j], g) {
      assert BelongsTo(bufs, x, chains[g][j], g);
    }
  }
}
