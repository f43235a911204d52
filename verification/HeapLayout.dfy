/** How heap blocks tile the heap, and what splitting, coalescing, allocating and freeing do to the tiling.
    Addresses are heap block numbers; sizes are in bytes, as in the block headers. */
module HeapLayout {
  import opened Units
  import M = MarkModel

  const UNIQUE_THRESHOLD: nat := 32
  const HUGE_THRESHOLD: nat := 256
  const FL_COMPRESSION: nat := 8
  const N_HBLK_FLS: nat := 60

  /** What a header says about its block, apart from the free-list links. For a free block sz is the size
      of the whole block, otherwise that of the objects in it. */
  datatype Blk = Blk(sz: nat, free: bool, kind: M.Kind, ignoreOffPage: bool)

  type Layout = map<nat, Blk>

  /** OBJ_SZ_TO_BLOCKS. */
  function Blocks(sz: nat): nat {
    (sz + HBLKSIZE - 1) / HBLKSIZE
  }

  /** GC_hblk_fl_from_blocks. */
  function FlIndex(blocks: nat): (n: nat)
    ensures n <= N_HBLK_FLS
  {
    if blocks <= UNIQUE_THRESHOLD then blocks
    else if blocks >= HUGE_THRESHOLD then N_HBLK_FLS
    else (blocks - UNIQUE_THRESHOLD) / FL_COMPRESSION + UNIQUE_THRESHOLD
  }

  /** Bigger blocks never sit on earlier lists, and the first lists hold one size each. */
  lemma FlIndexOrder(a: nat, b: nat)
    requires a <= b
    ensures FlIndex(a) <= FlIndex(b)
    ensures FlIndex(a) == FlIndex(b) < UNIQUE_THRESHOLD ==> a == b
  {
  }

  /** Which sizes share a list: up to 32 heap blocks none, then eight at a time, and from 256 on all. */
  lemma FlIndexGroups(blocks: nat, n: nat)
    ensures blocks <= 32 ==> (FlIndex(blocks) == n <==> blocks == n)
    ensures 32 <= blocks < 256 ==> (FlIndex(blocks) == n <==> 32 <= n && 8 * n <= blocks + 224 < 8 * n + 8)
    ensures 256 <= blocks ==> FlIndex(blocks) == 60
  {
  }

  function End(m: Layout, h: nat): nat
    requires h in m
  {
    h + Blocks(m[h].sz)
  }

  /** Blocks are not at address 0, not empty, and do not overlap; free ones are whole numbers of heap blocks. */
  ghost predicate Tiles(m: Layout) {
    && 0 !in m
    && (forall h | h in m :: 0 < m[h].sz && (m[h].free ==> m[h].sz % HBLKSIZE == 0))
    && (forall a, b | a in m && b in m && a < b :: End(m, a) <= b)
  }

  ghost predicate NoAdjacentFree(m: Layout) {
    forall h | h in m && m[h].free :: !(End(m, h) in m && m[End(m, h)].free)
  }

  /** Heap block x lies in block h, which is free or used as stated. */
  predicate Owns(m: Layout, free: bool, h: nat, x: nat) {
    h in m && m[h].free == free && h <= x < End(m, h)
  }

  /** The heap blocks covered by free (or by used) blocks. */
  ghost function Region(m: Layout, free: bool): set<nat> {
    set h, x | h in m && h <= x < End(m, h) && Owns(m, free, h, x) :: x
  }

  lemma RegionMember(m: Layout, free: bool)
    ensures forall x :: x in Region(m, free) <==> exists h: nat :: Owns(m, free, h, x)
  {
  }

  function Interval(a: nat, n: nat): (r: set<nat>)
    ensures forall x :: x in r <==> a <= x < a + n
    ensures |r| == n
    decreases n
  {
    if n == 0 then {} else Interval(a, n - 1) + {a + n - 1}
  }

  function FreeBlk(sz: nat): Blk {
    Blk(sz, true, M.PtrFree, false)
  }

  /** The two kinds of region never share a heap block. */
  lemma RegionsDisjoint(m: Layout)
    requires Tiles(m)
    ensures Region(m, true) !! Region(m, false)
  {
  }

  lemma PositiveBlocks(sz: nat)
    ensures 0 < Blocks(sz) <==> 0 < sz
  {
  }

  lemma WholeBlocks(k: nat)
    ensures Blocks(k * HBLKSIZE) == k && k * HBLKSIZE % HBLKSIZE == 0
  {
  }

  function SplitAt(m: Layout, h: nat, n: nat, first: Blk, second: Blk): Layout {
    m[h := first][n := second]
  }

  ghost predicate Splittable(m: Layout, h: nat, n: nat, first: Blk, second: Blk) {
    && Tiles(m) && h in m && h < n < End(m, h)
    && first.free == second.free == m[h].free
    && Blocks(first.sz) == n - h && Blocks(second.sz) == End(m, h) - n
    && (m[h].free ==> first.sz % HBLKSIZE == 0 && second.sz % HBLKSIZE == 0)
  }

  /** Cutting block h at n, both parts free or used as h was, leaves all regions as they were. */
  lemma SplitRegion(m: Layout, h: nat, n: nat, first: Blk, second: Blk)
    requires Splittable(m, h, n, first, second)
    ensures var m' := SplitAt(m, h, n, first, second);
      && n !in m && Tiles(m') && End(m', h) == n && End(m', n) == End(m, h)
      && (forall a | a in m && a != h :: m'[a] == m[a])
      && Region(m', true) == Region(m, true) && Region(m', false) == Region(m, false)
  {
    hide Region;
    SplitTiles(m, h, n, first, second);
    SplitSame(m, h, n, first, second, true);
    SplitSame(m, h, n, first, second, false);
  }

  lemma SplitTiles(m: Layout, h: nat, n: nat, first: Blk, second: Blk)
    requires Splittable(m, h, n, first, second)
    ensures n !in m && Tiles(SplitAt(m, h, n, first, second))
  {
    PositiveBlocks(first.sz);
    PositiveBlocks(second.sz);
    hide Blocks;
    var m' := SplitAt(m, h, n, first, second);
    assert n !in m;
    assert forall a | a in m && a != h :: End(m', a) == End(m, a);
    forall a, b | a in m' && b in m' && a < b ensures End(m', a) <= b {
      if a in m && b in m {
        assert End(m, a) <= b;
      } else if a == n {
        assert End(m, h) <= b;
      } else if a != h {
        assert a < h && End(m, a) <= h;
      }
    }
  }

  lemma SplitSame(m: Layout, h: nat, n: nat, first: Blk, second: Blk, free: bool)
    requires Splittable(m, h, n, first, second)
    ensures Region(SplitAt(m, h, n, first, second), free) == Region(m, free)
  {
    hide Blocks, Region;
    var m' := SplitAt(m, h, n, first, second);
    RegionMember(m, free);
    RegionMember(m', free);
    assert n !in m;
    forall x: nat | x in Region(m, free) ensures x in Region(m', free) {
      var a: nat :| Owns(m, free, a, x);
      assert Owns(m', free, if a == h && n <= x then n else a, x);
    }
    forall x: nat | x in Region(m', free) ensures x in Region(m, free) {
      var a: nat :| Owns(m', free, a, x);
      assert Owns(m, free, if a == n then h else a, x);
    }
  }

  function MergeAt(m: Layout, h: nat): Layout
    requires h in m && End(m, h) in m
  {
    (m - {End(m, h)})[h := m[h].(sz := m[h].sz + m[End(m, h)].sz)]
  }

  /** Joining free block h with the free block right after it leaves all regions as they were. */
  lemma MergeRegion(m: Layout, h: nat)
    requires Tiles(m) && h in m && m[h].free && End(m, h) in m && m[End(m, h)].free
    ensures var n := End(m, h); var m' := MergeAt(m, h);
      && h < n && Tiles(m') && End(m', h) == End(m, n)
      && Region(m', true) == Region(m, true) && Region(m', false) == Region(m, false)
      && m'.Keys == m.Keys - {n}
  {
    var n := End(m, h);
    var m' := MergeAt(m, h);
    assert End(m', h) == End(m, n);
    MergeTiles(m, h);
    MergeSame(m, h, true);
    MergeSame(m, h, false);
  }

  lemma MergeTiles(m: Layout, h: nat)
    requires Tiles(m) && h in m && m[h].free && End(m, h) in m && m[End(m, h)].free
    requires End(MergeAt(m, h), h) == End(m, End(m, h)) && h < End(m, h)
    ensures Tiles(MergeAt(m, h))
  {
    hide Blocks;
    var n := End(m, h);
    var m' := MergeAt(m, h);
    forall a, b | a in m' && b in m' && a < b ensures End(m', a) <= b {
      if a == h {
        assert b != n && End(m, h) <= b;
      }
    }
  }

  lemma MergeSame(m: Layout, h: nat, free: bool)
    requires Tiles(m) && h in m && m[h].free && End(m, h) in m && m[End(m, h)].free
    requires End(MergeAt(m, h), h) == End(m, End(m, h)) && h < End(m, h)
    ensures Region(MergeAt(m, h), free) == Region(m, free)
  {
    hide Blocks, Region;
    var n := End(m, h);
    var m' := MergeAt(m, h);
    RegionMember(m, free);
    RegionMember(m', free);
    forall x | x in Region(m, free) ensures x in Region(m', free) {
      var a: nat :| Owns(m, free, a, x);
      assert Owns(m', free, if a == n then h else a, x);
    }
    forall x | x in Region(m', free) ensures x in Region(m, free) {
      var a: nat :| Owns(m', free, a, x);
      assert Owns(m, free, if a == h && n <= x then n else a, x);
    }
  }

  /** Changing a block between free and used, over the same extent, moves exactly its heap blocks. */
  lemma FlipRegion(m: Layout, h: nat, blk: Blk)
    requires Tiles(m) && h in m && blk.free != m[h].free
    requires 0 < blk.sz && Blocks(blk.sz) == Blocks(m[h].sz) && (blk.free ==> blk.sz % HBLKSIZE == 0)
    ensures var m' := m[h := blk]; var moved := Interval(h, Blocks(blk.sz));
      && Tiles(m') && (forall a | a in m :: End(m', a) == End(m, a))
      && moved <= Region(m, m[h].free)
      && Region(m', m[h].free) == Region(m, m[h].free) - moved
      && Region(m', blk.free) == Region(m, blk.free) + moved
  {
    hide Blocks, Region, Interval, Owns;
    FlipOut(m, h, blk);
    FlipInto(m, h, blk);
  }

  lemma FlipOut(m: Layout, h: nat, blk: Blk)
    requires Tiles(m) && h in m && blk.free != m[h].free && Blocks(blk.sz) == Blocks(m[h].sz)
    ensures Interval(h, Blocks(blk.sz)) <= Region(m, m[h].free)
    ensures Region(m[h := blk], m[h].free) == Region(m, m[h].free) - Interval(h, Blocks(blk.sz))
  {
    hide Blocks, Region;
    var m', moved := m[h := blk], Interval(h, Blocks(blk.sz));
    var was := m[h].free;
    RegionMember(m, was);
    RegionMember(m', was);
    assert moved <= Region(m, was) by {
      forall x: nat | x in moved ensures x in Region(m, was) {
        assert Owns(m, was, h, x);
      }
    }
    forall x: nat | x in Region(m, was) - moved ensures x in Region(m', was) {
      var a: nat :| Owns(m, was, a, x);
      assert Owns(m', was, a, x);
    }
    forall x: nat | x in Region(m', was) ensures x in Region(m, was) && x !in moved {
      var a: nat :| Owns(m', was, a, x);
      assert Owns(m, was, a, x) && a != h;
      assert End(m, a) <= h || End(m, h) <= a;
    }
  }

  lemma FlipInto(m: Layout, h: nat, blk: Blk)
    requires Tiles(m) && h in m && blk.free != m[h].free && Blocks(blk.sz) == Blocks(m[h].sz)
    ensures Region(m[h := blk], blk.free) == Region(m, blk.free) + Interval(h, Blocks(blk.sz))
  {
    hide Blocks, Region;
    var m', moved := m[h := blk], Interval(h, Blocks(blk.sz));
    RegionMember(m, blk.free);
    RegionMember(m', blk.free);
    forall x: nat | x in Region(m, blk.free) + moved ensures x in Region(m', blk.free) {
      if x in moved {
        assert Owns(m', blk.free, h, x);
      } else {
        var a: nat :| Owns(m, blk.free, a, x);
        assert Owns(m', blk.free, a, x);
      }
    }
    forall x: nat | x in Region(m', blk.free) ensures x in Region(m, blk.free) + moved {
      var a: nat :| Owns(m', blk.free, a, x);
      assert a == h || Owns(m, blk.free, a, x);
    }
  }

  /** A new block outside everything covered so far adds exactly its heap blocks. */
  lemma NewRegion(m: Layout, h: nat, blk: Blk)
    requires Tiles(m) && 0 < h && 0 < blk.sz && (blk.free ==> blk.sz % HBLKSIZE == 0) && 0 < Blocks(blk.sz)
    requires Interval(h, Blocks(blk.sz)) !! Region(m, true) && Interval(h, Blocks(blk.sz)) !! Region(m, false)
    ensures var m' := m[h := blk];
      && h !in m && Tiles(m')
      && Region(m', blk.free) == Region(m, blk.free) + Interval(h, Blocks(blk.sz))
      && Region(m', !blk.free) == Region(m, !blk.free)
  {
    hide Blocks, Region, Tiles;
    NewTiles(m, h, blk);
    NewInto(m, h, blk);
    NewOther(m, h, blk);
  }

  lemma NewTiles(m: Layout, h: nat, blk: Blk)
    requires Tiles(m) && 0 < h && 0 < blk.sz && (blk.free ==> blk.sz % HBLKSIZE == 0) && 0 < Blocks(blk.sz)
    requires Interval(h, Blocks(blk.sz)) !! Region(m, true) && Interval(h, Blocks(blk.sz)) !! Region(m, false)
    ensures h !in m && Tiles(m[h := blk])
  {
    hide Region, Interval;
    forall a | a in m ensures a < End(m, a) && (End(m, a) <= h || h + Blocks(blk.sz) <= a) {
      NewApart(m, h, Blocks(blk.sz), a);
    }
    var m' := m[h := blk];
    assert h !in m;
    forall a, b | a in m' && b in m' && a < b ensures End(m', a) <= b {
      if a != h && b != h {
        assert End(m, a) <= b;
      }
    }
  }

  lemma NewApart(m: Layout, h: nat, n: nat, a: nat)
    requires a in m && a < End(m, a) && 0 < n && Interval(h, n) !! Region(m, m[a].free)
    ensures End(m, a) <= h || h + n <= a
  {
    hide Blocks, Region, Interval;
    if a < h + n && h < End(m, a) {
      OverlapShares(m, h, n, a);
      assert false;
    }
  }

  lemma OverlapShares(m: Layout, h: nat, n: nat, a: nat)
    requires a in m && a < End(m, a) && 0 < n && a < h + n && h < End(m, a)
    ensures !(Interval(h, n) !! Region(m, m[a].free))
  {
    hide Blocks, Region;
    RegionMember(m, m[a].free);
    var x := if a < h then h else a;
    assert Owns(m, m[a].free, a, x) && x in Interval(h, n);
  }

  lemma NewOther(m: Layout, h: nat, blk: Blk)
    requires h !in m
    ensures Region(m[h := blk], !blk.free) == Region(m, !blk.free)
  {
    hide Blocks, Region;
    var m', other := m[h := blk], !blk.free;
    RegionMember(m, other);
    RegionMember(m', other);
    forall x: nat | x in Region(m, other) ensures x in Region(m', other) {
      var a: nat :| Owns(m, other, a, x);
      assert Owns(m', other, a, x);
    }
    forall x: nat | x in Region(m', other) ensures x in Region(m, other) {
      var a: nat :| Owns(m', other, a, x);
      assert Owns(m, other, a, x);
    }
  }

  lemma NewInto(m: Layout, h: nat, blk: Blk)
    requires h !in m
    ensures Region(m[h := blk], blk.free) == Region(m, blk.free) + Interval(h, Blocks(blk.sz))
  {
    hide Blocks, Region, Interval;
    var m', added := m[h := blk], Interval(h, Blocks(blk.sz));
    RegionMember(m, blk.free);
    RegionMember(m', blk.free);
    forall x: nat | x in Region(m, blk.free) + added ensures x in Region(m', blk.free) {
      if x in added {
        assert Owns(m', blk.free, h, x);
      } else {
        var a: nat :| Owns(m, blk.free, a, x);
        assert Owns(m', blk.free, a, x);
      }
    }
    forall x: nat | x in Region(m', blk.free) ensures x in Region(m, blk.free) + added {
      var a: nat :| Owns(m', blk.free, a, x);
      assert a == h || Owns(m, blk.free, a, x);
    }
  }

  // ----- Freeing and allocating -----

  /** Block h becomes free, as a whole number of heap blocks. */
  function Freed(m: Layout, h: nat): Layout
    requires h in m
  {
    m[h := m[h].(sz := HBLKSIZE * Blocks(m[h].sz), free := true)]
  }

  predicate NextIsFree(m: Layout, h: nat)
    requires h in m
  {
    End(m, h) in m && m[End(m, h)].free
  }

  function JoinNext(m: Layout, h: nat): Layout
    requires h in m
  {
    if NextIsFree(m, h) then MergeAt(m, h) else m
  }

  /** The free block that ends at h, or 0 when there is none. */
  ghost predicate EndsAt(m: Layout, h: nat, prev: nat) {
    if prev == 0 then forall p | p in m && m[p].free :: End(m, p) != h
    else prev in m && m[prev].free && End(m, prev) == h
  }

  function JoinPrev(m: Layout, h: nat, prev: nat): Layout {
    if prev in m && End(m, prev) in m then MergeAt(m, prev) else m
  }

  /** The layout once used block h has been freed and joined with what follows it and with the free block prev before
      it. */
  function Joined(m: Layout, h: nat, prev: nat): Layout
    requires h in m
  {
    var m2 := JoinNext(Freed(m, h), h);
    if prev != 0 then JoinPrev(m2, h, prev) else m2
  }

  /** The heap blocks of h go from used to free, and other used blocks stay as they are. */
  ghost predicate FreedIn(m: Layout, h: nat, m': Layout) {
    && h in m && var moved := Interval(h, Blocks(m[h].sz));
    && moved <= Region(m, false)
    && Region(m', true) == Region(m, true) + moved && Region(m', false) == Region(m, false) - moved
    && (forall a | a in m && !m[a].free && a != h :: a in m' && m'[a] == m[a])
  }

  lemma FreedRegion(m: Layout, h: nat)
    requires Tiles(m) && h in m && !m[h].free
    ensures var m1 := Freed(m, h); var moved := Interval(h, Blocks(m[h].sz));
      && Tiles(m1) && (forall a | a in m :: End(m1, a) == End(m, a))
      && moved <= Region(m, false)
      && Region(m1, true) == Region(m, true) + moved && Region(m1, false) == Region(m, false) - moved
  {
    hide Region;
    assert Blocks(HBLKSIZE * Blocks(m[h].sz)) == Blocks(m[h].sz);
    FlipRegion(m, h, m[h].(sz := HBLKSIZE * Blocks(m[h].sz), free := true));
  }

  /** Freeing a block and joining it with both neighbours leaves no two adjacent free blocks. */
  lemma FreeOk(m: Layout, h: nat, prev: nat)
    requires Tiles(m) && NoAdjacentFree(m) && h in m && !m[h].free && EndsAt(m, h, prev)
    ensures var m2 := JoinNext(Freed(m, h), h);
      var m3 := if prev != 0 then JoinPrev(m2, h, prev) else m2; var moved := Interval(h, Blocks(m[h].sz));
      && h in m2 && m2[h].free
      && Tiles(m2) && (prev != 0 ==> prev in m2 && m2[prev] == m[prev] && End(m2, prev) == h)
      && Tiles(m3) && NoAdjacentFree(m3) && moved <= Region(m, false)
      && Region(m3, true) == Region(m, true) + moved && Region(m3, false) == Region(m, false) - moved
      && (forall a | a in m && !m[a].free && a != h :: a in m3 && m3[a] == m[a])
  {
    hide Blocks, Region, Interval, Tiles, NoAdjacentFree, JoinNext, NextIsFree, MergeAt;
    FreedRegion(m, h);
    var m1 := Freed(m, h);
    NextJoined(m1, h);
    var m2 := JoinNext(m1, h);
    JoinedNext(m, h, prev);
    if prev != 0 {
      PrevJoined(m2, h, prev);
      JoinedPrev(m2, h, prev);
    } else {
      AloneIsFine(m2, h);
    }
  }

  lemma NextJoined(m1: Layout, h: nat)
    requires Tiles(m1) && h in m1 && m1[h].free
    ensures var m2 := JoinNext(m1, h);
      Tiles(m2) && Region(m2, true) == Region(m1, true) && Region(m2, false) == Region(m1, false)
    ensures NextIsFree(m1, h) ==> h < End(m1, h) && End(JoinNext(m1, h), h) == End(m1, End(m1, h))
  {
    hide Blocks, Region;
    if NextIsFree(m1, h) {
      MergeRegion(m1, h);
    }
  }

  lemma PrevJoined(m2: Layout, h: nat, prev: nat)
    requires Tiles(m2) && h in m2 && m2[h].free && prev in m2 && m2[prev].free && End(m2, prev) == h
    ensures var m3 := JoinPrev(m2, h, prev);
      && m3 == MergeAt(m2, prev) && prev < h && End(m3, prev) == End(m2, h)
      && Tiles(m3) && Region(m3, true) == Region(m2, true) && Region(m3, false) == Region(m2, false)
  {
    hide Blocks, Region;
    MergeRegion(m2, prev);
  }

  lemma AloneIsFine(m2: Layout, h: nat)
    requires h in m2 && m2[h].free && !NextIsFree(m2, h)
    requires forall a | a in m2 && m2[a].free && a != h :: End(m2, a) != h && !NextIsFree(m2, a)
    ensures NoAdjacentFree(m2)
  {
  }

  lemma JoinedPrev(m2: Layout, h: nat, prev: nat)
    requires Tiles(m2) && h in m2 && m2[h].free && prev in m2 && m2[prev].free && End(m2, prev) == h && prev < h
    requires !NextIsFree(m2, h) && End(MergeAt(m2, prev), prev) == End(m2, h)
    requires forall a | a in m2 && m2[a].free && a != h && a != prev :: End(m2, a) != h && !NextIsFree(m2, a)
    requires forall a | a in m2 && m2[a].free && a != prev :: End(m2, a) != prev
    ensures NoAdjacentFree(MergeAt(m2, prev))
    ensures forall a | a in m2 && !m2[a].free :: a in MergeAt(m2, prev) && MergeAt(m2, prev)[a] == m2[a]
  {
    hide Blocks;
    var m3 := MergeAt(m2, prev);
    forall a | a in m3 && m3[a].free ensures !(End(m3, a) in m3 && m3[End(m3, a)].free) {
      if a != prev {
        assert m3[a] == m2[a] && !NextIsFree(m2, a);
      }
    }
  }

  /** After joining with what follows, only the blocks before h can still be next to a free block. */
  lemma JoinedNext(m: Layout, h: nat, prev: nat)
    requires Tiles(m) && NoAdjacentFree(m) && h in m && !m[h].free && EndsAt(m, h, prev)
    requires Tiles(Freed(m, h)) && forall a | a in m :: End(Freed(m, h), a) == End(m, a)
    requires NextIsFree(Freed(m, h), h) ==>
      h < End(Freed(m, h), h) && End(JoinNext(Freed(m, h), h), h) == End(Freed(m, h), End(Freed(m, h), h))
    ensures var m2 := JoinNext(Freed(m, h), h);
      && JoinKeeps(m, h, m2) && !NextIsFree(m2, h)
      && (prev != 0 ==> prev in m2 && m2[prev] == m[prev] && m2[prev].free && End(m2, prev) == h)
      && (forall a | a in m2 && m2[a].free && a != h && a != prev :: End(m2, a) != h && !NextIsFree(m2, a))
      && (prev != 0 ==> forall a | a in m2 && m2[a].free && a != prev :: End(m2, a) != prev)
  {
    hide Blocks, JoinNext;
    JoinedNextKeeps(m, h, prev);
    var m2 := JoinNext(Freed(m, h), h);
    forall a | a in m2 && m2[a].free && a != h && a != prev ensures End(m2, a) != h && !NextIsFree(m2, a) {
      assert a in m && m[a].free && m2[a] == m[a];
    }
  }

  /** Joining with what follows leaves the other blocks as they are, if it leaves them. */
  ghost predicate JoinKeeps(m: Layout, h: nat, m2: Layout) {
    && h in m2 && m2[h].free && 0 !in m2
    && (forall a | a in m2 && m2[a].free && a != h :: a in m && m[a].free && m2[a] == m[a])
    && (forall a | a in m && !m[a].free && a != h :: a in m2 && m2[a] == m[a])
  }

  lemma JoinedNextKeeps(m: Layout, h: nat, prev: nat)
    requires Tiles(m) && NoAdjacentFree(m) && h in m && !m[h].free && EndsAt(m, h, prev)
    requires Tiles(Freed(m, h)) && forall a | a in m :: End(Freed(m, h), a) == End(m, a)
    requires NextIsFree(Freed(m, h), h) ==>
      h < End(Freed(m, h), h) && End(JoinNext(Freed(m, h), h), h) == End(Freed(m, h), End(Freed(m, h), h))
    ensures var m2 := JoinNext(Freed(m, h), h);
      && JoinKeeps(m, h, m2) && !NextIsFree(m2, h)
      && (prev != 0 ==> prev in m2 && m2[prev] == m[prev] && m2[prev].free && End(m2, prev) == h)
      && End(m2, h) > h
  {
    hide Blocks, Tiles;
    EndsAbove(m);
    var f := Freed(m, h);
    var next := End(f, h);
    if NextIsFree(f, h) {
      assert m[next].free && f[next] == m[next];
      assert !NextIsFree(m, next);
    }
  }

  lemma EndsAbove(m: Layout)
    requires Tiles(m)
    ensures 0 !in m && forall a | a in m :: a < End(m, a)
  {
    forall a | a in m ensures a < End(m, a) {
      PositiveBlocks(m[a].sz);
    }
  }

  /** The free block h, from which need heap blocks at p are to be taken. */
  ghost predicate Fits(m: Layout, h: nat, p: nat, need: nat) {
    h in m && m[h].free && 0 < need && h <= p && p + need <= End(m, h)
  }

  function FrontPart(m: Layout, h: nat, p: nat): Layout
    requires h in m && h < p < End(m, h)
  {
    SplitAt(m, h, p, m[h].(sz := (p - h) * HBLKSIZE), FreeBlk((End(m, h) - p) * HBLKSIZE))
  }

  /** The layout once p has been cut off the front of block h, if need be. */
  function CutFront(m: Layout, h: nat, p: nat): Layout
    requires h in m && h <= p < End(m, h)
  {
    if p == h then m else FrontPart(m, h, p)
  }

  /** The layout once all but the first need heap blocks of p have been returned. */
  function CutBack(m: Layout, p: nat, need: nat): Layout
    requires p in m && p + need <= End(m, p)
  {
    if End(m, p) == p + need then m
    else m[p + need := FreeBlk((End(m, p) - (p + need)) * HBLKSIZE)]
  }

  lemma CutFrontOk(m: Layout, h: nat, p: nat)
    requires Tiles(m) && h in m && m[h].free && h <= p < End(m, h)
    ensures var m1 := CutFront(m, h, p);
      && Tiles(m1) && p in m1 && m1[p].free && End(m1, p) == End(m, h)
      && (h < p ==> p !in m && End(m1, h) == p && h in m1 && m1[h].free)
      && (forall a | a in m && a != h :: a in m1 && m1[a] == m[a])
      && m1.Keys == m.Keys + {p}
      && Region(m1, true) == Region(m, true) && Region(m1, false) == Region(m, false)
  {
    hide Region;
    if h < p {
      WholeBlocks(p - h);
      WholeBlocks(End(m, h) - p);
      SplitRegion(m, h, p, m[h].(sz := (p - h) * HBLKSIZE), FreeBlk((End(m, h) - p) * HBLKSIZE));
    }
  }

  /** Using the first need heap blocks of free block p and returning the rest. */
  lemma TakeFrontOk(m: Layout, p: nat, need: nat, blk: Blk)
    requires Tiles(m) && p in m && m[p].free && 0 < need && p + need <= End(m, p)
    requires !blk.free && Blocks(blk.sz) == need
    ensures var m2 := CutBack(m, p, need)[p := blk]; var taken := Interval(p, need);
      && Tiles(m2) && End(m2, p) == p + need
      && (p + need < End(m, p) ==> p + need !in m && End(m2, p + need) == End(m, p))
      && m2.Keys == m.Keys + (if p + need < End(m, p) then {p + need} else {}) + {p}
      && (forall a | a in m && a != p :: a in m2 && m2[a] == m[a])
      && taken <= Region(m, true)
      && Region(m2, true) == Region(m, true) - taken && Region(m2, false) == Region(m, false) + taken
  {
    hide Region, Blocks, Interval, Tiles;
    PositiveBlocks(blk.sz);
    if End(m, p) == p + need {
      FlipRegion(m, p, blk);
    } else {
      TakePart(m, p, need, blk);
    }
  }

  lemma TakePart(m: Layout, p: nat, need: nat, blk: Blk)
    requires Tiles(m) && p in m && m[p].free && 0 < need && p + need < End(m, p)
    requires !blk.free && Blocks(blk.sz) == need && 0 < blk.sz
    ensures var m2 := CutBack(m, p, need)[p := blk]; var taken := Interval(p, need);
      && Tiles(m2) && p + need !in m && End(m2, p + need) == End(m, p)
      && taken <= Region(m, true)
      && Region(m2, true) == Region(m, true) - taken && Region(m2, false) == Region(m, false) + taken
  {
    WholeBlocks(need);
    WholeBlocks(End(m, p) - (p + need));
    hide Region, Blocks, Interval, Tiles, SplitAt, CutBack;
    var n := p + need;
    var first, second := m[p].(sz := need * HBLKSIZE), FreeBlk((End(m, p) - n) * HBLKSIZE);
    SplitRegion(m, p, n, first, second);
    var m1 := SplitAt(m, p, n, first, second);
    SplitHas(m, p, n, first, second);
    FlipRegion(m1, p, blk);
    Overwrite(m, p, need, n, first, second, blk);
  }

  lemma SplitHas(m: Layout, h: nat, n: nat, first: Blk, second: Blk)
    requires h != n
    ensures var m1 := SplitAt(m, h, n, first, second); h in m1 && m1[h] == first && n in m1 && m1[n] == second
  {
  }

  lemma Overwrite(m: Layout, p: nat, need: nat, n: nat, first: Blk, second: Blk, blk: Blk)
    requires p in m && 0 < need && p + need < End(m, p)
    requires n == p + need && second == FreeBlk((End(m, p) - n) * HBLKSIZE)
    ensures SplitAt(m, p, n, first, second)[p := blk] == CutBack(m, p, need)[p := blk]
  {
  }

  /** The layout after allocating. */
  function Taken(m: Layout, h: nat, p: nat, need: nat, blk: Blk): Layout
    requires h in m && h <= p < End(m, h) && p + need <= End(m, h) && p in CutFront(m, h, p)
    requires p + need <= End(CutFront(m, h, p), p)
  {
    CutBack(CutFront(m, h, p), p, need)[p := blk]
  }

  /** Allocating takes exactly the wanted heap blocks, and what is returned is not next to another free block. */
  lemma AllocOk(m: Layout, h: nat, p: nat, need: nat, blk: Blk)
    requires Tiles(m) && NoAdjacentFree(m) && Fits(m, h, p, need) && !blk.free && Blocks(blk.sz) == need
    ensures p in CutFront(m, h, p) && p + need <= End(CutFront(m, h, p), p)
    ensures var m2 := Taken(m, h, p, need, blk); var taken := Interval(p, need);
      && Tiles(m2) && NoAdjacentFree(m2) && p in m2 && m2[p] == blk
      && (forall a | a in m && !m[a].free :: a in m2 && m2[a] == m[a])
      && taken <= Region(m, true)
      && Region(m2, true) == Region(m, true) - taken && Region(m2, false) == Region(m, false) + taken
  {
    hide Region, Blocks;
    CutFrontOk(m, h, p);
    TakeFrontOk(CutFront(m, h, p), p, need, blk);
    AllocAdjacent(m, h, p, need, blk);
  }

  lemma AllocAdjacent(m: Layout, h: nat, p: nat, need: nat, blk: Blk)
    requires Tiles(m) && NoAdjacentFree(m) && Fits(m, h, p, need) && !blk.free && Blocks(blk.sz) == need
    requires p in CutFront(m, h, p) && End(CutFront(m, h, p), p) == End(m, h)
    requires Tiles(CutFront(m, h, p))
    requires forall a | a in m && a != h :: a in CutFront(m, h, p) && CutFront(m, h, p)[a] == m[a]
    requires h < p ==> End(CutFront(m, h, p), h) == p && h in CutFront(m, h, p)
    requires CutFront(m, h, p).Keys == m.Keys + {p}
    requires Tiles(Taken(m, h, p, need, blk))
    requires p + need < End(m, h) ==> p + need !in m && End(Taken(m, h, p, need, blk), p + need) == End(m, h)
    ensures NoAdjacentFree(Taken(m, h, p, need, blk))
  {
    hide Blocks, FrontPart;
    var m2 := Taken(m, h, p, need, blk);
    forall a | a in m2 && m2[a].free ensures !NextIsFree(m2, a) {
      if a == h {
        assert End(m2, a) == p;
      } else if a == p + need && p + need < End(m, h) {
        assert End(m2, a) == End(m, h);
        assert !NextIsFree(m, h);
      } else {
        FreeElsewhere(m, m2, h, p, need, a);
      }
    }
  }

  lemma FreeElsewhere(m: Layout, m2: Layout, h: nat, p: nat, need: nat, a: nat)
    requires Tiles(m) && NoAdjacentFree(m) && Fits(m, h, p, need) && a in m && m[a].free && a != h && a in m2
    requires m2[a] == m[a]
    requires forall x | x in m2 && m2[x].free && x != p + need && x != h :: x in m && m[x].free
    ensures End(m2, a) == p + need || !NextIsFree(m2, a)
    ensures End(m2, a) <= h || End(m, h) <= a
  {
    hide Blocks;
  }

  /** A used block of n heap blocks that holds nothing anybody wants. */
  function UsedBlk(n: nat): Blk {
    Blk(n * HBLKSIZE, false, M.PtrFree, false)
  }

  /** Making a free block used, as it stands. */
  lemma UseOk(m: Layout, h: nat)
    requires Tiles(m) && NoAdjacentFree(m) && h in m && m[h].free
    ensures var m' := m[h := UsedBlk(Blocks(m[h].sz))]; var taken := Interval(h, Blocks(m[h].sz));
      && Tiles(m') && NoAdjacentFree(m') && End(m', h) == End(m, h) && taken <= Region(m, true)
      && Region(m', true) == Region(m, true) - taken && Region(m', false) == Region(m, false) + taken
  {
    hide Region;
    WholeBlocks(Blocks(m[h].sz));
    PositiveBlocks(m[h].sz);
    FlipRegion(m, h, UsedBlk(Blocks(m[h].sz)));
  }

  /** Block h of count heap blocks cut up into used blocks of one heap block each. */
  function Chopped(m: Layout, h: nat, count: nat): Layout {
    map x | x in m.Keys + Interval(h, count) :: if h <= x < h + count then UsedBlk(1) else m[x]
  }

  lemma ChoppedTiles(m: Layout, h: nat, count: nat)
    requires Tiles(m) && h in m && m[h].free && count == Blocks(m[h].sz)
    ensures Tiles(Chopped(m, h, count))
  {
    hide Blocks;
    WholeBlocks(1);
    var m' := Chopped(m, h, count);
    forall a, b | a in m' && b in m' && a < b ensures End(m', a) <= b {
      if h <= a < h + count {
        assert End(m', a) == a + 1;
      } else {
        assert a in m && (a < h ==> End(m, a) <= h);
      }
    }
  }

  lemma ChoppedKeeps(m: Layout, h: nat, count: nat)
    requires Tiles(m) && h in m && count == Blocks(m[h].sz)
    ensures forall a | a in m && a != h :: a in Chopped(m, h, count) && Chopped(m, h, count)[a] == m[a]
  {
  }

  /** Cutting up a free block into used ones moves exactly its heap blocks. */
  lemma ChoppedRegion(m: Layout, h: nat, count: nat)
    requires Tiles(m) && NoAdjacentFree(m) && h in m && m[h].free && count == Blocks(m[h].sz)
    ensures var m', taken := Chopped(m, h, count), Interval(h, count);
      && NoAdjacentFree(m') && taken <= Region(m, true)
      && Region(m', true) == Region(m, true) - taken && Region(m', false) == Region(m, false) + taken
  {
    hide Region, Blocks, Tiles, NoAdjacentFree, Chopped;
    var u := m[h := UsedBlk(count)];
    WholeBlocks(count);
    PositiveBlocks(m[h].sz);
    UseOk(m, h);
    ChoppedAdjacent(m, h, count);
    ChoppedSame(m, h, count, true);
    ChoppedSame(m, h, count, false);
  }

  lemma ChoppedAdjacent(m: Layout, h: nat, count: nat)
    requires NoAdjacentFree(m) && h in m
    ensures NoAdjacentFree(Chopped(m, h, count))
  {
    hide Blocks;
    var m' := Chopped(m, h, count);
    forall a | a in m' && m'[a].free ensures !(End(m', a) in m' && m'[End(m', a)].free) {
      assert a in m && End(m', a) == End(m, a);
    }
  }

  lemma ChoppedSame(m: Layout, h: nat, count: nat, free: bool)
    requires Tiles(m) && h in m && count == Blocks(m[h].sz)
    ensures Region(Chopped(m, h, count), free) == Region(m[h := UsedBlk(count)], free)
  {
    hide Region, Blocks, Tiles, Chopped, Owns;
    var m', u := Chopped(m, h, count), m[h := UsedBlk(count)];
    RegionMember(m', free);
    RegionMember(u, free);
    forall x | x in Region(m', free) ensures x in Region(u, free) {
      var a: nat :| Owns(m', free, a, x);
      OwnerWhole(m, h, count, free, a, x);
    }
    forall x | x in Region(u, free) ensures x in Region(m', free) {
      var a: nat :| Owns(u, free, a, x);
      OwnerSingle(m, h, count, free, a, x);
    }
  }

  lemma OwnerWhole(m: Layout, h: nat, count: nat, free: bool, a: nat, x: nat)
    requires h in m && count == Blocks(m[h].sz) && Owns(Chopped(m, h, count), free, a, x)
    ensures Owns(m[h := UsedBlk(count)], free, if h <= a < h + count then h else a, x)
  {
    hide Blocks;
    WholeBlocks(1);
    WholeBlocks(count);
  }

  lemma OwnerSingle(m: Layout, h: nat, count: nat, free: bool, a: nat, x: nat)
    requires Tiles(m) && h in m && count == Blocks(m[h].sz) && Owns(m[h := UsedBlk(count)], free, a, x)
    ensures Owns(Chopped(m, h, count), free, if a == h then x else a, x)
  {
    hide Blocks, Tiles;
    ChoppedKeeps(m, h, count);
    WholeBlocks(1);
    WholeBlocks(count);
  }

  lemma ChoppedNext(m: Layout, h: nat, i: nat)
    requires h in m
    ensures Chopped(m, h, 0) == m && Chopped(m, h, i)[h + i := UsedBlk(1)] == Chopped(m, h, i + 1)
    ensures h in Chopped(m, h, i) && (0 < i ==> !Chopped(m, h, i)[h].free)
    ensures h + i in Chopped(m, h, i) <==> h + i in m
  {
    hide Interval;
    var c, d := Chopped(m, h, i)[h + i := UsedBlk(1)], Chopped(m, h, i + 1);
    assert c.Keys == d.Keys;
  }

  lemma NoFront(m: Layout, h: nat)
    requires h in m && h < End(m, h)
    ensures CutFront(m, h, h) == m
  {
  }

  /** What allocation does: some heap blocks go from free to used, and every block that was in use stays as it was. */
  ghost predicate Grew(m: Layout, m': Layout, taken: set<nat>) {
    && taken <= Region(m, true)
    && Region(m', true) == Region(m, true) - taken
    && Region(m', false) == Region(m, false) + taken
    && (forall a | a in m && !m[a].free :: a in m' && m'[a] == m[a])
  }

  lemma GrewTrans(m: Layout, m1: Layout, m2: Layout, t1: set<nat>, t2: set<nat>)
    requires Grew(m, m1, t1) && Grew(m1, m2, t2)
    ensures Grew(m, m2, t1 + t2) && t1 !! t2
  {
  }

  lemma NotFreeAfter(m: Layout, a: nat)
    requires Tiles(m) && NoAdjacentFree(m) && a in m && m[a].free
    ensures End(m, a) !in Region(m, true)
  {
  }

  /** Without adjacent free blocks, any run of free heap blocks lies within a single free block. */
  lemma FreeRun(m: Layout, r: nat, n: nat)
    requires Tiles(m) && NoAdjacentFree(m) && 0 < n && Interval(r, n) <= Region(m, true)
    ensures exists h :: h in m && m[h].free && h <= r && r + n <= End(m, h)
  {
    hide Blocks, Region, Tiles, NoAdjacentFree;
    RegionMember(m, true);
    assert r in Interval(r, n);
    var a: nat :| Owns(m, true, a, r);
    NotFreeAfter(m, a);
    assert End(m, a) !in Interval(r, n);
  }
}
