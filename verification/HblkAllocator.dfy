/** The heap block allocator: GC_allochblk, GC_freehblk, GC_add_to_heap and what they call. */
module HblkAllocator {
  import opened Collections
  import opened Units
  import opened HeapLayout
  import opened FreeLists
  import I = AddressIndex
  import M = MarkModel
  import B = BlackList

  const MAX_BLACK_LIST_ALLOC: nat := 2 * HBLKSIZE
  const MAX_HEAP_SECTS: nat := 384
  const ADDRESS_BLOCKS: nat := 0x10_0000_0000_0000   // heap blocks in the address space

  /** What became of one block that is big enough. */
  datatype Outcome = Took(place: nat) | Passed | Dropped

  ghost predicate NothingListed(t: B.Tables)
    requires t.Ok()
  {
    forall h: nat, n: nat :: t.NextPlausible(h, n) == 0
  }

  /** No bit is set in the tables then. */
  lemma NothingListedIff(t: B.Tables)
    requires t.Ok()
    ensures NothingListed(t) <==> forall x: nat :: !t.NormalListed(x) && !t.StackListed(x)
  {
    if NothingListed(t) {
      forall x: nat ensures !t.NormalListed(x) && !t.StackListed(x) {
        assert t.NextPlausible(x, 1) == 0;
        B.NextPlausibleMeaning(t, x, 1);
        assert B.Last(x, 1) == x + 1;
      }
    }
    if forall x: nat :: !t.NormalListed(x) && !t.StackListed(x) {
      forall h: nat, n: nat ensures t.NextPlausible(h, n) == 0 {
        B.NextPlausibleMeaning(t, h, n);
      }
    }
  }

  predicate Suitable(sz: nat, needed: nat, maySplit: bool) {
    sz == needed || (maySplit && needed < sz)
  }

  /** Is one of the blocks s big enough, or exactly right? */
  ghost predicate SomeSuitable(m: Layout, s: seq<nat>, needed: nat, maySplit: bool) {
    exists j :: 0 <= j < |s| && s[j] in m && Suitable(m[s[j]].sz, needed, maySplit)
  }

  /** Every block that is free now was free before, and has not changed. */
  ghost predicate FewerFree(m: Layout, m': Layout) {
    forall a | a in m' && m'[a].free :: a in m && m[a] == m'[a]
  }

  /** Block h is no longer free, and the others are as they were. */
  ghost predicate ClearedOf(m: Layout, m': Layout, h: nat) {
    && FewerFree(m, m') && !(h in m' && m'[h].free)
    && forall a | a in m && a != h :: a in m' && m'[a] == m[a]
  }

  lemma FewerTrans(m: Layout, m1: Layout, m2: Layout)
    requires FewerFree(m, m1) && FewerFree(m1, m2)
    ensures FewerFree(m, m2)
  {
  }

  lemma Fewer(m: Layout, m1: Layout, m2: Layout, h: nat)
    requires FewerFree(m, m1) && ClearedOf(m1, m2, h)
    ensures FewerFree(m, m2)
  {
  }

  /** A search for room for blk: whether bigger blocks may be split, and what the black lists say. */
  datatype Search = Search(t: B.Tables, blLimit: nat, blk: Blk, maySplit: bool) {
    function Need(): nat {
      Blocks(blk.sz)
    }

    ghost predicate Listed(h: nat, n: nat) {
      t.Ok() && t.Listed(h, n)
    }

    predicate Suits(sz: nat) {
      Suitable(sz, HBLKSIZE * Need(), maySplit)
    }

    /** Black lists matter for this request. */
    predicate Counts() {
      !blk.kind.Uncollectable? && !blk.kind.AUncollectable? && !(blk.kind.PtrFree? && HBLKSIZE * Need() <= MAX_BLACK_LIST_ALLOC)
    }

    /** No heap block that must not be black listed is, if the request is met at s: the first one only, if pointers
        past it need not be recognized. */
    ghost predicate Clear(s: nat) {
      t.Ok() ==>
        && !t.NormalListed(s)
        && if blk.ignoreOffPage then !t.StackListed(s) else forall x: nat | s <= x < s + Need() :: !t.StackListed(x)
    }

    lemma ClearIff(n: nat)
      requires 0 < Need() && n == if blk.ignoreOffPage then 1 else Need()
      ensures forall s: nat :: Clear(s) <==> !Listed(s, n)
    {
    }

    /** Every start from h on and before end is black listed for the length that counts. */
    ghost predicate AllListed(h: nat, end: int) {
      forall s: nat | h <= s < end :: !Clear(s)
    }

    /** No place in the free block at h, of sz bytes, will do: all are black listed, that counts for this
        request, and the code does not punt. */
    ghost predicate NoRoom(h: nat, sz: nat) {
      && Counts() && !(blLimit < HBLKSIZE * Need() && blLimit < sz - HBLKSIZE * Need())
      && AllListed(h, h + Blocks(sz) - Need() + 1)
    }

    /** The code punts and takes the free block h although all places in it are black listed: the request and what
        would be left over are both too big. */
    ghost predicate Punts(m: Layout, h: nat) {
      && h in m && m[h].free && blLimit < HBLKSIZE * Need() && blLimit < m[h].sz - HBLKSIZE * Need()
      && AllListed(h, h + Blocks(m[h].sz) - Need() + 1)
    }

    ghost predicate Hopeless(m: Layout, h: nat) {
      h in m && (Suits(m[h].sz) ==> NoRoom(h, m[h].sz))
    }

    /** The kth block of s suits, and is not black listed where it stands. */
    ghost predicate Good(m: Layout, s: seq<nat>, k: nat) {
      k < |s| && s[k] in m && Suits(m[s[k]].sz) && !Listed(s[k], Need())
    }

    /** The block after the kth is obviously better. */
    ghost predicate NextBetter(m: Layout, s: seq<nat>, k: nat) {
      && k + 1 < |s| && s[k] in m && s[k + 1] in m
      && HBLKSIZE * Need() <= m[s[k + 1]].sz < m[s[k]].sz && !Listed(s[k + 1], Need())
    }

    /** The search tries to allocate from the kth block of s. */
    ghost predicate Tries(m: Layout, s: seq<nat>, k: nat) {
      && k < |s| && s[k] in m && Suits(m[s[k]].sz)
      && (m[s[k]].sz == HBLKSIZE * Need() || !NextBetter(m, s, k))
    }

    /** r is the first block of s that the search tries. */
    ghost predicate FirstTried(m: Layout, s: seq<nat>, r: nat) {
      exists k :: 0 <= k < |s| && s[k] == r && Tries(m, s, k) && NoneTried(m, s, k)
    }

    ghost predicate NoneTried(m: Layout, s: seq<nat>, k: nat) {
      forall j | 0 <= j < k && j < |s| :: !Tries(m, s, j)
    }

    /** The blocks before position k are hopeless unless the one at k is good. */
    ghost predicate StateAt(m: Layout, s: seq<nat>, k: nat) {
      Good(m, s, k) || HopelessTo(m, s, k)
    }

    ghost predicate HopelessTo(m: Layout, s: seq<nat>, k: nat) {
      forall j | 0 <= j < k && j < |s| :: Hopeless(m, s[j])
    }

    /** The search goes past the kth block because it is hopeless, or for the next one, which is good. */
    ghost predicate GoesPast(m: Layout, s: seq<nat>, k: nat) {
      Good(m, s, k + 1) || (k < |s| && Hopeless(m, s[k]) && !Good(m, s, k))
    }

    /** In terms of the tables. */
    lemma SafePlace(m: Layout, r: nat)
      requires t.Ok() && (Counts() ==> Clear(r) || Punts(m, r))
      ensures blk.kind != M.Uncollectable && blk.kind != M.AUncollectable ==>
        (blk.kind == M.PtrFree ==> MAX_BLACK_LIST_ALLOC < HBLKSIZE * Blocks(blk.sz)) ==>
        || (&& !t.NormalListed(r)
            && forall x: nat | r <= x < r + (if blk.ignoreOffPage then 1 else Blocks(blk.sz)) :: !t.StackListed(x))
        || (&& r in m && m[r].free && blLimit < HBLKSIZE * Blocks(blk.sz)
            && blLimit < m[r].sz - HBLKSIZE * Blocks(blk.sz))
    {
    }

    lemma PuntsBefore(m: Layout, m': Layout, h: nat)
      requires FewerFree(m, m')
      ensures Punts(m', h) ==> Punts(m, h)
    {
    }

    lemma Starts(m: Layout, s: seq<nat>)
      ensures StateAt(m, s, 0) && NoneTried(m, s, 0)
    {
    }

    lemma Ends(m: Layout, s: seq<nat>)
      requires StateAt(m, s, |s|)
      ensures HopelessTo(m, s, |s|)
    {
    }

    lemma Found(m: Layout, s: seq<nat>, k: nat)
      requires Tries(m, s, k) && NoneTried(m, s, k)
      ensures FirstTried(m, s, s[k]) && SomeSuitable(m, s, HBLKSIZE * Need(), maySplit)
    {
    }

    lemma NotTried(m: Layout, s: seq<nat>, k: nat)
      requires NoneTried(m, s, k) && !Tries(m, s, k)
      ensures NoneTried(m, s, k + 1)
    {
    }

    /** With nothing black listed, only blocks that do not suit are hopeless. */
    lemma NoneSuitable(m: Layout, s: seq<nat>)
      requires t.Ok() && NothingListed(t) && HopelessTo(m, s, |s|)
      ensures !SomeSuitable(m, s, HBLKSIZE * Need(), maySplit)
    {
      forall j | 0 <= j < |s| && s[j] in m ensures !Suits(m[s[j]].sz) {
        assert Hopeless(m, s[j]);
        if Suits(m[s[j]].sz) {
          SuitsBlocks(m[s[j]].sz);
          assert !Clear(s[j]);
          NothingListedIff(t);
        }
      }
    }

    /** The kth block, which is not good, is dropped: the search goes on with the one that takes its place. */
    lemma Drops(m: Layout, m': Layout, s: seq<nat>, k: nat)
      requires k < |s| && NoDup(s) && StateAt(m, s, k) && !Good(m, s, k) && ClearedOf(m, m', s[k])
      ensures StateAt(m', Without(s, k), k)
    {
    }

    lemma GoOn(m: Layout, s: seq<nat>, k: nat)
      requires StateAt(m, s, k) && GoesPast(m, s, k)
      ensures StateAt(m, s, k + 1)
    {
    }

    /** Where a block has no room, it is listed where it stands. */
    lemma NoRoomNotGood(m: Layout, s: seq<nat>, k: nat)
      requires k < |s| && s[k] in m && NoRoom(s[k], m[s[k]].sz)
      ensures !Good(m, s, k)
    {
      if Good(m, s, k) {
        SuitsBlocks(m[s[k]].sz);
        assert !Clear(s[k]);
        LongerListed(s[k]);
      }
    }

    lemma NoRoomGoesPast(m: Layout, s: seq<nat>, k: nat)
      requires k < |s| && s[k] in m && Search(t, blLimit, blk, true).NoRoom(s[k], m[s[k]].sz)
      ensures !Good(m, s, k) && GoesPast(m, s, k)
    {
      Search(t, blLimit, blk, true).SameRoom(maySplit, s[k], m[s[k]].sz);
      NoRoomNotGood(m, s, k);
    }

    lemma SkipGoesPast(m: Layout, s: seq<nat>, k: nat)
      requires k < |s| && s[k] in m && !Tries(m, s, k)
      ensures GoesPast(m, s, k)
    {
    }

    lemma SameRoom(split: bool, h: nat, sz: nat)
      requires NoRoom(h, sz)
      ensures Search(t, blLimit, blk, split).NoRoom(h, sz)
    {
      var q := Search(t, blLimit, blk, split);
      forall s: nat | h <= s < h + Blocks(sz) - Need() + 1 ensures !q.Clear(s) {
        assert !Clear(s);
      }
    }

    lemma SuitsBlocks(sz: nat)
      requires Suits(sz)
      ensures Need() <= Blocks(sz)
    {
    }

    lemma LongerListed(h: nat)
      requires !Clear(h)
      ensures Listed(h, Need())
    {
    }
  }

  /** A free block that the search may use: of the right size, or bigger and within the split limit. */
  ghost predicate Acceptable(m: Layout, h: nat, needed: nat, limit: nat) {
    h in m && m[h].free && (m[h].sz == needed || (needed < m[h].sz && FlIndex(Blocks(m[h].sz)) <= limit))
  }

  /** Every byte of the heap lies strictly above least and below greatest: the marker's quick test for
      implausible pointers rejects none into the heap. */
  ghost predicate Bounded(m: Layout, least: nat, greatest: nat) {
    forall x | x in Region(m, true) + Region(m, false) :: 0 < least < x * HBLKSIZE && (x + 1) * HBLKSIZE <= greatest
  }

  lemma WiderBounds(m: Layout, m': Layout, least: nat, greatest: nat, p: nat, n: nat)
    requires Bounded(m, least, greatest) && 1 < p
    requires Region(m', true) == Region(m, true) + Interval(p, n) && Region(m', false) == Region(m, false)
    ensures Bounded(m', if p * HBLKSIZE <= least || least == 0 then p * HBLKSIZE - WORD_BYTES else least,
                    if (p + n) * HBLKSIZE >= greatest then (p + n) * HBLKSIZE else greatest)
  {
    hide Region;
    var least' := if p * HBLKSIZE <= least || least == 0 then p * HBLKSIZE - WORD_BYTES else least;
    var greatest' := if (p + n) * HBLKSIZE >= greatest then (p + n) * HBLKSIZE else greatest;
    forall x | x in Region(m', true) + Region(m', false)
      ensures 0 < least' < x * HBLKSIZE && (x + 1) * HBLKSIZE <= greatest'
    {
      if x in Interval(p, n) {
        assert p <= x < p + n;
      } else {
        assert x in Region(m, true) + Region(m, false);
      }
    }
  }

  /** Moving heap blocks between free and used changes neither their number nor their bounds. */
  lemma SameHeap(m: Layout, m': Layout, least: nat, greatest: nat)
    requires Tiles(m) && Tiles(m') && Region(m', true) + Region(m', false) == Region(m, true) + Region(m, false)
    ensures |Region(m', true)| + |Region(m', false)| == |Region(m, true)| + |Region(m, false)|
    ensures Bounded(m, least, greatest) ==> Bounded(m', least, greatest)
  {
    hide Region, Tiles, Blocks;
    RegionsDisjoint(m);
    RegionsDisjoint(m');
    assert |Region(m, true) + Region(m, false)| == |Region(m, true)| + |Region(m, false)|;
    assert |Region(m', true) + Region(m', false)| == |Region(m', true)| + |Region(m', false)|;
  }

  /** What the split limit depends on. useEntireHeap stands for GC_use_entire_heap, GC_dont_gc, incremental
      mode and GC_should_collect() being false. */
  datatype Policy = Policy(useEntireHeap: bool, requestedHeapSize: nat, finalizerBytesFreed: nat,
                           largeAllocd: nat, maxLargeAllocd: nat)

  /** Free bytes on lists n and up, with those in large objects. */
  function LargeFrom(freeBytes: seq<nat>, p: Policy, n: nat): nat
    requires n <= |freeBytes|
  {
    p.largeAllocd + Sum(freeBytes[n..])
  }

  /** Enough large blocks are left to cover any earlier demand when those of lists beyond the limit are kept whole. */
  ghost predicate KeepsEnough(freeBytes: seq<nat>, p: Policy, limit: nat)
    requires |freeBytes| == N_HBLK_FLS + 1
  {
    && limit <= N_HBLK_FLS
    && (forall n | limit < n <= N_HBLK_FLS :: LargeFrom(freeBytes, p, n) < p.maxLargeAllocd)
    && (0 < limit ==> p.maxLargeAllocd <= LargeFrom(freeBytes, p, limit))
  }

  /** The highest list whose blocks may be split. */
  ghost predicate IsSplitLimit(freeBytes: seq<nat>, heapSize: nat, largeFree: nat, p: Policy, limit: nat)
    requires |freeBytes| == N_HBLK_FLS + 1
  {
    if p.useEntireHeap || heapSize - largeFree < p.requestedHeapSize then limit == N_HBLK_FLS
    else if heapSize / 16 < p.finalizerBytesFreed then limit == 0
    else KeepsEnough(freeBytes, p, limit)
  }

  lemma OneLimit(freeBytes: seq<nat>, heapSize: nat, largeFree: nat, p: Policy, limit: nat)
    requires |freeBytes| == N_HBLK_FLS + 1 && IsSplitLimit(freeBytes, heapSize, largeFree, p, limit)
    ensures p.useEntireHeap ==> limit == N_HBLK_FLS
    ensures forall other: nat | IsSplitLimit(freeBytes, heapSize, largeFree, p, other) :: other == limit
  {
  }

  const SIGN_BIT: nat := WORD_RANGE / 2

  /** OBJ_SZ_TO_BLOCKS, with the wrap-around of a word. */
  function WordBlocks(sz: nat): nat {
    (sz + HBLKSIZE - 1) % WORD_RANGE / HBLKSIZE
  }

  /** Rounding a size up to heap blocks is right exactly if it does not wrap around; otherwise it gives no block at
      all. */
  lemma RoundingExact(sz: nat)
    requires sz < WORD_RANGE
    ensures WordBlocks(sz) == Blocks(sz) <==> sz + HBLKSIZE <= WORD_RANGE
    ensures WORD_RANGE < sz + HBLKSIZE ==> WordBlocks(sz) == 0
  {
    var s := sz + HBLKSIZE - 1;
    if s < WORD_RANGE {
      assert s % WORD_RANGE == s;
    } else {
      assert s % WORD_RANGE == s - WORD_RANGE < HBLKSIZE;
    }
  }

  class Allocator {
    var hdrs: Hdrs                 // the headers, by block address
    var heads: seq<nat>            // GC_hblkfreelist
    var freeBytes: seq<nat>        // GC_free_bytes
    var largeFree: nat             // GC_large_free_bytes
    var bytesDropped: nat
    var heapSize: nat
    var leastHa: nat               // GC_least_plausible_heap_addr, in bytes
    var greatestHa: nat            // GC_greatest_plausible_heap_addr
    var nHeapSects: nat
    var dropCount: nat
    var black: B.Tables
    var blLimit: nat               // BL_LIMIT
    const addresses: I.Index       // the two-level map from addresses to headers
    ghost var lists: seq<seq<nat>>

    ghost predicate ListsValid()
      reads this
    {
      ListsOk(hdrs, heads, freeBytes, lists)
    }

    ghost function Layout(): Layout
      reads this
    {
      Strip(hdrs)
    }

    /** Everything the allocator keeps between operations, except the heap's total size. */
    ghost predicate Consistent()
      reads this
    {
      && black.Ok() && ListsValid()
      && LayoutOk(Layout(), lists)
      && Sum(freeBytes) == largeFree == HBLKSIZE * |Region(Layout(), true)|
    }

    /** The index agrees with the headers. */
    ghost predicate Indexed()
      reads this`hdrs, addresses
    {
      addresses.Valid() && addresses.Agrees(Strip(hdrs))
    }

    ghost predicate Valid()
      reads this
    {
      && Consistent() && heapSize == HBLKSIZE * (|Region(Layout(), true)| + |Region(Layout(), false)|)
      && Bounded(Layout(), leastHa, greatestHa)
    }

    /** An empty heap. */
    constructor (black: B.Tables, blLimit: nat)
      requires black.Ok()
      ensures Valid() && Indexed() && hdrs == map[] && this.black == black && this.blLimit == blLimit
      ensures fresh(addresses)
      ensures bytesDropped == leastHa == greatestHa == nHeapSects == dropCount == 0
    {
      addresses := new I.Index();
      hdrs, heads, freeBytes := map[], seq(N_HBLK_FLS + 1, _ => 0), seq(N_HBLK_FLS + 1, _ => 0);
      largeFree, bytesDropped, heapSize, leastHa, greatestHa, nHeapSects, dropCount := 0, 0, 0, 0, 0, 0, 0;
      this.black, this.blLimit := black, blLimit;
      lists := seq(N_HBLK_FLS + 1, _ => []);
      new;
      SumZeros(freeBytes);
      assert Strip(hdrs) == map[];
      assert Region(Layout(), true) == {} && Region(Layout(), false) == {};
    }

    // ----- Free lists -----

    /** GC_remove_from_fl: take h, which is the kth block of list n, out of that list. */
    method RemoveFromFl(h: nat, n: nat, ghost k: nat, ghost misplaced: set<nat>)
      requires ListsValid() && n <= N_HBLK_FLS && k < |lists[n]| && lists[n][k] == h
      requires PlacedBut(Layout(), lists, misplaced)
      modifies this`hdrs, this`heads, this`freeBytes, this`lists
      ensures ListsValid() && lists == old(lists)[n := Without(old(lists)[n], k)]
      ensures Layout() == old(Layout()) && hdrs.Keys == old(hdrs.Keys) && h in hdrs
      ensures Sum(freeBytes) + hdrs[h].blk.sz == old(Sum(freeBytes))
      ensures PlacedBut(Layout(), lists, misplaced + {h}) && OffLists(lists, h)
    {
      hide Linked, ListBytes, Without, Sum, Strip, ListsOk;
      RemoveOk(hdrs, heads, freeBytes, lists, n, k);
      Shapes(hdrs, heads, freeBytes, lists);
      OnOneList(hdrs, heads, freeBytes, lists, n, k);
      RemovedPlaced(Layout(), lists, n, k, misplaced);
      var x := hdrs[h];
      SumUpdate(freeBytes, n, freeBytes[n] - x.blk.sz);
      ghost var d := Unlink(hdrs, h);
      if x.prev == 0 {
        heads := heads[n := x.next];
      } else {
        hdrs := hdrs[x.prev := hdrs[x.prev].(next := x.next)];
      }
      freeBytes := freeBytes[n := freeBytes[n] - x.blk.sz];
      if x.next != 0 {
        hdrs := hdrs[x.next := hdrs[x.next].(prev := x.prev)];
      }
      assert hdrs == d;
      StripSize(old(hdrs), hdrs, h);
      lists := lists[n := Without(lists[n], k)];
    }

    /** GC_add_to_fl: push h on the list for its size and mark it free. */
    method AddToFl(h: nat, ghost misplaced: set<nat>)
      requires ListsValid() && h in hdrs && OffLists(lists, h) && PlacedBut(Layout(), lists, misplaced + {h})
      requires hdrs[h].blk.sz % HBLKSIZE == 0
      modifies this`hdrs, this`heads, this`freeBytes, this`lists
      ensures ListsValid()
      ensures var n := FlIndex(Blocks(old(hdrs)[h].blk.sz));
        |old(lists)| == |lists| == N_HBLK_FLS + 1 && lists == old(lists)[n := [h] + old(lists)[n]]
      ensures Layout() == old(Layout())[h := old(hdrs)[h].blk.(free := true)] && hdrs.Keys == old(hdrs.Keys)
      ensures Sum(freeBytes) == old(Sum(freeBytes)) + old(hdrs)[h].blk.sz
      ensures PlacedBut(Layout(), lists, misplaced)
    {
      hide Linked, ListBytes, Sum, ListsOk;
      Shapes(hdrs, heads, freeBytes, lists);
      var b := hdrs[h].blk;
      assert Blocks(b.sz) == b.sz / HBLKSIZE;
      var index := FlIndex(b.sz / HBLKSIZE);
      var second := heads[index];
      PushOk(hdrs, heads, freeBytes, lists, index, h);
      SumUpdate(freeBytes, index, freeBytes[index] + b.sz);
      ghost var d := PushFront(hdrs, h, second);
      heads := heads[index := h];
      freeBytes := freeBytes[index := freeBytes[index] + b.sz];
      hdrs := hdrs[h := hdrs[h].(next := second, prev := 0)];
      if second != 0 {
        hdrs := hdrs[second := hdrs[second].(prev := h)];
      }
      assert hdrs == d;
      StripSize(old(hdrs), hdrs, h);
      lists := lists[index := [h] + lists[index]];
      SetBlkOk(hdrs, heads, freeBytes, lists, h, b.(free := true));
      hdrs := hdrs[h := hdrs[h].(blk := b.(free := true))];
      assert Strip(hdrs) == Strip(d)[h := b.(free := true)];
      PushedPlaced(old(Layout()), Layout(), old(lists), lists, h, misplaced);
    }

    /** The position of a free block in the list for its size. */
    lemma Position(h: nat, misplaced: set<nat>) returns (n: nat, k: nat)
      requires ListsValid() && PlacedBut(Layout(), lists, misplaced) && h !in misplaced && h in hdrs && hdrs[h].blk.free
      ensures n == FlIndex(Blocks(hdrs[h].blk.sz)) && n < |lists| && k < |lists[n]| && lists[n][k] == h
    {
      hide ListsOk, Blocks, FlIndex;
      n := FlIndex(Blocks(hdrs[h].blk.sz));
      assert Layout()[h] == hdrs[h].blk;
      k :| 0 <= k < |lists[n]| && lists[n][k] == h;
    }

    /** Write what header h says. Its block is on no list, or keeps its size. */
    method SetBlk(h: nat, blk: Blk, ghost misplaced: set<nat>)
      requires ListsValid() && h in hdrs && PlacedBut(Layout(), lists, misplaced)
      requires OffLists(lists, h) || blk.sz == hdrs[h].blk.sz
      requires h in misplaced || (OffLists(lists, h) && !blk.free)
      modifies this`hdrs
      ensures ListsValid() && Layout() == old(Layout())[h := blk] && hdrs.Keys == old(hdrs.Keys)
      ensures PlacedBut(Layout(), lists, misplaced)
    {
      hide ListsOk, Blocks, FlIndex;
      SetBlkOk(hdrs, heads, freeBytes, lists, h, blk);
      hdrs := hdrs[h := hdrs[h].(blk := blk)];
      assert Strip(hdrs) == old(Layout())[h := blk];
    }

    /** GC_install_header; the new header gets the given contents. */
    method InstallHeader(h: nat, blk: Blk, ghost misplaced: set<nat>)
      requires ListsValid() && h != 0 && PlacedBut(Layout(), lists, misplaced)
      requires OffLists(lists, h) && (blk.free ==> h in misplaced)
      modifies this`hdrs
      ensures ListsValid() && Layout() == old(Layout())[h := blk] && hdrs.Keys == old(hdrs.Keys) + {h}
      ensures PlacedBut(Layout(), lists, misplaced)
    {
      hide ListsOk, Blocks, FlIndex;
      NewHdrOk(hdrs, heads, freeBytes, lists, h, Hdr(blk, 0, 0));
      hdrs := hdrs[h := Hdr(blk, 0, 0)];
      assert Strip(hdrs) == old(Layout())[h := blk];
    }

    /** GC_remove_header. */
    method RemoveHeader(h: nat, ghost misplaced: set<nat>)
      requires ListsValid() && h in hdrs && PlacedBut(Layout(), lists, misplaced) && OffLists(lists, h)
      modifies this`hdrs
      ensures ListsValid() && Layout() == old(Layout()) - {h} && hdrs.Keys == old(hdrs.Keys) - {h}
      ensures PlacedBut(Layout(), lists, misplaced - {h})
    {
      hide ListsOk, Blocks, FlIndex;
      DropHdrOk(hdrs, heads, freeBytes, lists, h);
      hdrs := hdrs - {h};
      assert Strip(hdrs) == old(Layout()) - {h};
    }

    // ----- Freeing -----

    lemma UsedOff(h: nat)
      requires PlacedBut(Layout(), lists, {}) && h in hdrs && !hdrs[h].blk.free
      ensures OffLists(lists, h) && PlacedBut(Layout(), lists, {h})
    {
      hide Blocks, FlIndex;
      assert Layout()[h] == hdrs[h].blk;
    }

    lemma MergeIs(m: Layout, a: nat, b: nat)
      requires a in m && b in m && End(m, a) == b && a != b
      ensures m[a := m[a].(sz := m[a].sz + m[b].sz)] - {b} == MergeAt(m, a)
    {
    }

    /** Coalesce h, which is on no list, with the free block that follows it. */
    method CoalesceNext(h: nat, next: nat)
      requires ListsValid() && PlacedBut(Layout(), lists, {h}) && OffLists(lists, h)
      requires h in hdrs && hdrs[h].blk.free && next in hdrs && hdrs[next].blk.free && next != h
      requires End(Layout(), h) == next
      modifies this`hdrs, this`heads, this`freeBytes, this`lists
      ensures ListsValid() && PlacedBut(Layout(), lists, {h}) && OffLists(lists, h) && h in hdrs
      ensures Layout() == MergeAt(old(Layout()), h) && hdrs[h].blk.free
      ensures Sum(freeBytes) + hdrs[h].blk.sz == old(Sum(freeBytes)) + old(hdrs)[h].blk.sz
    {
      hide ListsOk, Blocks, FlIndex, PlacedBut, Sum;
      ghost var n, k := Position(next, {h});
      ghost var m := Layout();
      StillOff(n, k, h);
      RemoveFromFl(next, FlIndex(Blocks(hdrs[next].blk.sz)), k, {h});
      StripSize(old(hdrs), hdrs, h);
      StripSize(old(hdrs), hdrs, next);
      SetBlk(h, hdrs[h].blk.(sz := hdrs[h].blk.sz + hdrs[next].blk.sz), {h} + {next});
      assert Layout()[h] == hdrs[h].blk;
      RemoveHeader(next, {h} + {next});
      assert {h} + {next} - {next} == {h};
      MergeIs(m, h, next);
      assert Layout()[h] == hdrs[h].blk;
    }

    /** Coalesce the free block prev with h, which follows it and is on no list. */
    method CoalescePrev(prev: nat, h: nat)
      requires ListsValid() && PlacedBut(Layout(), lists, {h}) && OffLists(lists, h)
      requires h in hdrs && hdrs[h].blk.free && prev in hdrs && hdrs[prev].blk.free && prev != h
      requires End(Layout(), prev) == h
      modifies this`hdrs, this`heads, this`freeBytes, this`lists
      ensures ListsValid() && PlacedBut(Layout(), lists, {prev}) && OffLists(lists, prev) && prev in hdrs
      ensures Layout() == MergeAt(old(Layout()), prev) && hdrs[prev].blk.free
      ensures Sum(freeBytes) + hdrs[prev].blk.sz == old(Sum(freeBytes)) + old(hdrs)[h].blk.sz
    {
      hide ListsOk, Blocks, FlIndex, PlacedBut, Sum;
      ghost var n, k := Position(prev, {h});
      ghost var m := Layout();
      StillOff(n, k, h);
      RemoveFromFl(prev, FlIndex(Blocks(hdrs[prev].blk.sz)), k, {h});
      StripSize(old(hdrs), hdrs, h);
      StripSize(old(hdrs), hdrs, prev);
      SetBlk(prev, hdrs[prev].blk.(sz := hdrs[prev].blk.sz + hdrs[h].blk.sz), {h} + {prev});
      assert Layout()[prev] == hdrs[prev].blk;
      RemoveHeader(h, {h} + {prev});
      assert {h} + {prev} - {h} == {prev};
      MergeIs(m, prev, h);
      assert Layout()[prev] == hdrs[prev].blk;
    }

    lemma StillOff(n: nat, k: nat, h: nat)
      requires OffLists(lists, h) && n < |lists| && k < |lists[n]|
      ensures OffLists(lists[n := Without(lists[n], k)], h)
    {
    }

    /** GC_freehblk: false stands for the abort on a duplicate deallocation. */
    method Freehblk(hbp: nat) returns (ok: bool)
      requires Consistent() && Indexed() && hbp in hdrs
      modifies this`hdrs, this`heads, this`freeBytes, this`lists, this`largeFree, addresses
      ensures Consistent() && Indexed() && ok == !old(hdrs)[hbp].blk.free && (old(Valid()) ==> Valid())
      ensures !ok ==> Layout() == old(Layout()) && lists == old(lists)
      ensures ok ==> FreedIn(old(Layout()), hbp, Layout())
    {
      hide Consistent, ListsOk, FreedIn, Valid, Joined, I.Index.Valid, I.Index.Agrees;
      StripKeys(hdrs);
      assert Layout()[hbp] == hdrs[hbp].blk;
      if hdrs[hbp].blk.free {
        return false;
      }
      var prev := PrecedingFree(hbp);
      RecordFree(hbp, prev);
      FreeJoined(hbp, prev);
      ok := true;
    }

    /** The free block that ends at block h, found through the index. */
    method PrecedingFree(h: nat) returns (prev: nat)
      requires Indexed() && h in hdrs
      ensures EndsAt(Layout(), h, prev)
    {
      hide I.Index.Valid, I.Index.Agrees;
      addresses.Starts(Strip(hdrs), h);
      AtBoundary(Strip(hdrs), h);
      prev := addresses.FreeBlockEndingAt(Strip(hdrs), h);
    }

    method RecordFree(h: nat, prev: nat)
      requires Consistent() && Indexed() && h in hdrs && !hdrs[h].blk.free && EndsAt(Layout(), h, prev)
      modifies addresses
      ensures h in Layout() && addresses.Valid() && addresses.Agrees(Joined(Layout(), h, prev))
    {
      hide I.Index.Valid, I.Index.Agrees, Joined, EndsAt, Tiles, NoAdjacentFree, PlacedBut, ListsOk;
      StripKeys(hdrs);
      assert Layout()[h] == hdrs[h].blk;
      addresses.RecordFree(Strip(hdrs), h, prev);
    }

    lemma AtBoundary(m: Layout, h: nat)
      requires Tiles(m) && h in m
      ensures 0 < h && I.Boundary(m, h)
    {
    }

    /** Freeing block h and joining it with what follows it and with the free block prev before it, if they are there. */
    method FreeJoined(hbp: nat, prev: nat)
      requires Consistent() && hbp in hdrs && !hdrs[hbp].blk.free && EndsAt(Layout(), hbp, prev)
      modifies this`hdrs, this`heads, this`freeBytes, this`lists, this`largeFree
      ensures Consistent() && (old(Valid()) ==> Valid())
      ensures Layout() == Joined(old(Layout()), hbp, prev) && FreedIn(old(Layout()), hbp, Layout())
    {
      hide ListsOk, Blocks, FlIndex, Region, Interval, Tiles, NoAdjacentFree, PlacedBut, OffLists, Sum, Bounded,
           MergeAt, Linked, ListBytes, JoinNext, JoinPrev, Freed, NextIsFree;
      ghost var m := Layout();
      var size := HBLKSIZE * Blocks(hdrs[hbp].blk.sz);
      FreeOk(m, hbp, prev);
      FreeForward(hbp, size);
      FreeBackward(hbp, prev);
      largeFree := largeFree + size;
      assert FreedIn(m, hbp, Layout());
      hide FreedIn;
      FreedBytes(m, hbp, Layout());
    }

    /** The second half: join free block h with the free block prev before it, if there is one, and put it on its
        list. */
    method FreeBackward(h: nat, prev: nat)
      requires ListsValid() && PlacedBut(Layout(), lists, {h}) && OffLists(lists, h) && h in Layout()
      requires hdrs[h].blk.free
      requires prev != 0 ==> prev in Layout() && Layout()[prev].free && prev != h && End(Layout(), prev) == h
      requires var m3 := if prev != 0 then JoinPrev(Layout(), h, prev) else Layout(); Tiles(m3) && NoAdjacentFree(m3)
      modifies this`hdrs, this`heads, this`freeBytes, this`lists
      ensures ListsValid() && LayoutOk(Layout(), lists)
      ensures Layout() == if prev != 0 then JoinPrev(old(Layout()), h, prev) else old(Layout())
      ensures Sum(freeBytes) == old(Sum(freeBytes)) + old(hdrs)[h].blk.sz
    {
      hide ListsOk, Blocks, FlIndex, Region, Tiles, NoAdjacentFree, PlacedBut, OffLists, Sum, MergeAt;
      assert Layout()[h] == hdrs[h].blk;
      if prev != 0 {
        assert Layout()[prev] == hdrs[prev].blk;
        CoalescePrev(prev, h);
        AddFree(prev);
      } else {
        AddFree(h);
      }
    }

    lemma FreedBytes(m: Layout, h: nat, m': Layout)
      requires Tiles(m) && Tiles(m') && FreedIn(m, h, m')
      ensures HBLKSIZE * |Region(m', true)| == HBLKSIZE * |Region(m, true)| + HBLKSIZE * Blocks(m[h].sz)
      ensures |Region(m', true)| + |Region(m', false)| == |Region(m, true)| + |Region(m, false)|
      ensures Bounded(m, leastHa, greatestHa) ==> Bounded(m', leastHa, greatestHa)
    {
      hide Region, Tiles, Blocks, Bounded;
      MovedBytes(m, m', Interval(h, Blocks(m[h].sz)));
      SameHeap(m, m', leastHa, greatestHa);
    }

    /** The first half of it: free used block h and join it with what follows it. */
    method FreeForward(h: nat, size: nat)
      requires ListsValid() && LayoutOk(Layout(), lists) && h in hdrs && !hdrs[h].blk.free
      requires size == HBLKSIZE * Blocks(hdrs[h].blk.sz)
      modifies this`hdrs, this`heads, this`freeBytes, this`lists
      ensures ListsValid() && PlacedBut(Layout(), lists, {h}) && OffLists(lists, h) && h in hdrs && hdrs[h].blk.free
      ensures Layout() == JoinNext(Freed(old(Layout()), h), h)
      ensures Sum(freeBytes) + hdrs[h].blk.sz == old(Sum(freeBytes)) + size
    {
      hide ListsOk, Blocks, FlIndex, Region, Tiles, NoAdjacentFree, PlacedBut, OffLists, Sum, MergeAt;
      ghost var m := Layout();
      UsedOff(h);
      FreedExtent(m, h);
      SetBlk(h, hdrs[h].blk.(sz := size, free := true), {h});
      assert Layout() == Freed(m, h);
      assert Layout()[h] == hdrs[h].blk;
      var next := h + size / HBLKSIZE;
      if next in hdrs && hdrs[next].blk.free {
        assert Layout()[next] == hdrs[next].blk;
        CoalesceNext(h, next);
      }
    }

    /** Put the coalesced block h on its list. */
    method AddFree(h: nat)
      requires ListsValid() && PlacedBut(Layout(), lists, {h}) && OffLists(lists, h)
      requires h in hdrs && hdrs[h].blk.free && Tiles(Layout()) && NoAdjacentFree(Layout())
      modifies this`hdrs, this`heads, this`freeBytes, this`lists
      ensures ListsValid() && LayoutOk(Layout(), lists) && Layout() == old(Layout())
      ensures Sum(freeBytes) == old(Sum(freeBytes)) + old(hdrs)[h].blk.sz
    {
      hide ListsOk, Blocks, FlIndex, Region, PlacedBut, OffLists, Sum, Tiles, NoAdjacentFree;
      WholeFree(Layout(), h);
      assert Layout()[h] == hdrs[h].blk;
      assert {} + {h} == {h};
      AddToFl(h, {});
      assert Layout() == old(Layout());
    }

    lemma FreedExtent(m: Layout, h: nat)
      requires Tiles(m) && h in m
      ensures Blocks(HBLKSIZE * Blocks(m[h].sz)) == Blocks(m[h].sz)
      ensures HBLKSIZE * Blocks(m[h].sz) / HBLKSIZE == Blocks(m[h].sz) && 0 < Blocks(m[h].sz)
    {
    }

    lemma WholeFree(m: Layout, h: nat)
      requires Tiles(m) && h in m && m[h].free
      ensures m[h].sz % HBLKSIZE == 0
    {
    }

    lemma MovedBytes(m: Layout, m': Layout, moved: set<nat>)
      requires Tiles(m) && moved <= Region(m, false) && Region(m', true) == Region(m, true) + moved
      ensures |Region(m', true)| == |Region(m, true)| + |moved|
    {
    }

    // ----- Growing the heap -----

    /** GC_add_to_heap: make n heap blocks of memory starting at p part of the heap. */
    method AddToHeap(start: nat, count: nat) returns (ok: bool)
      requires Valid() && Indexed() && 0 < count && start + count <= ADDRESS_BLOCKS
      requires Interval(start, count) !! Region(Layout(), true) && Interval(start, count) !! Region(Layout(), false)
      modifies this`hdrs, this`heads, this`freeBytes, this`lists, this`largeFree, this`heapSize, this`nHeapSects,
          this`leastHa, this`greatestHa, addresses
      ensures Valid() && Indexed() && ok == (old(nHeapSects) < MAX_HEAP_SECTS)
      ensures !ok ==> Layout() == old(Layout())
      ensures ok ==> Region(Layout(), false) == old(Region(Layout(), false))
      ensures ok ==> Region(Layout(), true) == old(Region(Layout(), true)) + Usable(start, count)
    {
      hide Valid, Layout, Region, Interval, Usable, Indexed;
      if nHeapSects >= MAX_HEAP_SECTS {
        return false;
      }
      var p, n := start, count;
      while p <= 1
        invariant 0 < n && p + n == start + count && start <= p && (p == start || p <= 2)
      {
        p := p + 1;
        n := n - 1;
        if n == 0 {
          NoneUsable(start, count);
          return true;
        }
      }
      if p + n >= ADDRESS_BLOCKS {
        n := n - 1;
        if n == 0 {
          NoneUsable(start, count);
          return true;
        }
      }
      TrimmedUsable(start, count, p, n, Region(Layout(), true), Region(Layout(), false));
      AddSection(p, n);
      ok := true;
    }

    /** The new section starts as one used block, which is then freed. */
    method AddSection(p: nat, n: nat)
      requires Valid() && Indexed() && 1 < p && 0 < n
      requires Interval(p, n) !! Region(Layout(), true) && Interval(p, n) !! Region(Layout(), false)
      modifies this`hdrs, this`heads, this`freeBytes, this`lists, this`largeFree, this`heapSize, this`nHeapSects,
          this`leastHa, this`greatestHa, addresses
      ensures Valid() && Indexed() && nHeapSects == old(nHeapSects) + 1
      ensures Region(Layout(), false) == old(Region(Layout(), false))
      ensures Region(Layout(), true) == old(Region(Layout(), true)) + Interval(p, n)
    {
      hide ListsOk, FlIndex, Region, Interval, Tiles, NoAdjacentFree, PlacedBut, OffLists, Sum, Blocks, Bounded,
           Linked, ListBytes, Joined, EndsAt, I.Index.Valid, I.Index.Agrees;
      var prev := RecordSection(p, n);
      nHeapSects := nHeapSects + 1;
      var blk := Blk(n * HBLKSIZE, false, M.PtrFree, false);
      WholeBlocks(n);
      ghost var m := Layout();
      NewRegion(m, p, blk);
      NewOff(p);
      InstallHeader(p, blk, {});
      NewNotAdjacent(m, p, blk);
      assert Layout()[p] == hdrs[p].blk;
      FreeJoined(p, prev);
      heapSize := heapSize + n * HBLKSIZE;
      AddedThenTaken(Region(m, false), Interval(p, n));
      MoreBlocks(m, Interval(p, n));
      WidenBounds(m, p, n);
    }

    /** The index operations for a new section. The free block before it is looked for as well. */
    method RecordSection(p: nat, n: nat) returns (prev: nat)
      requires Consistent() && Indexed() && 1 < p && 0 < n
      requires Interval(p, n) !! Region(Layout(), true) && Interval(p, n) !! Region(Layout(), false)
      modifies addresses
      ensures var m1: Layout := Layout()[p := Blk(n * HBLKSIZE, false, M.PtrFree, false)];
        EndsAt(m1, p, prev) && addresses.Valid() && addresses.Agrees(Joined(m1, p, prev))
    {
      hide I.Index.Valid, I.Index.Agrees, Joined, EndsAt, Tiles, NoAdjacentFree, PlacedBut, ListsOk, Region, Interval;
      SectionBoundary(Layout(), p, n);
      prev := addresses.FreeBlockEndingAt(Strip(hdrs), p);
      SamePreceding(Layout(), p, Blk(n * HBLKSIZE, false, M.PtrFree, false), prev);
      addresses.RecordSection(Strip(hdrs), p, n, prev);
    }

    lemma SectionBoundary(m: Layout, p: nat, n: nat)
      requires Tiles(m) && 0 < n && Interval(p, n) !! Region(m, true) && Interval(p, n) !! Region(m, false)
      ensures p !in m && I.Boundary(m, p)
    {
      hide Region, Blocks;
      forall b | b in m && b <= p ensures b != p && End(m, b) <= p {
        PositiveBlocks(m[b].sz);
        NewApart(m, p, n, b);
      }
    }

    lemma SamePreceding(m: Layout, p: nat, blk: Blk, prev: nat)
      requires EndsAt(m, p, prev) && p !in m && !blk.free
      ensures EndsAt(m[p := blk], p, prev)
    {
    }

    /** The end of GC_add_to_heap. */
    method WidenBounds(ghost m: Layout, p: nat, n: nat)
      requires Bounded(m, leastHa, greatestHa) && 1 < p
      requires Region(Layout(), true) == Region(m, true) + Interval(p, n) && Region(Layout(), false) == Region(m, false)
      modifies this`leastHa, this`greatestHa
      ensures Bounded(Layout(), leastHa, greatestHa)
    {
      hide Region, Bounded, Interval;
      WiderBounds(m, Layout(), leastHa, greatestHa, p, n);
      if p * HBLKSIZE <= leastHa || leastHa == 0 {
        leastHa := p * HBLKSIZE - WORD_BYTES;
      }
      if (p + n) * HBLKSIZE >= greatestHa {
        greatestHa := (p + n) * HBLKSIZE;
      }
    }

    /** The heap blocks that can really be used: not the two lowest, nor the last of the address space. */
    ghost function Usable(start: nat, count: nat): set<nat> {
      set x | x in Interval(start, count) && 2 <= x < ADDRESS_BLOCKS - 1
    }

    lemma NoneUsable(start: nat, count: nat)
      requires start + count <= 2 || (start == ADDRESS_BLOCKS - 1 && count == 1)
      ensures forall s: set<nat> :: s + Usable(start, count) == s
    {
    }

    lemma TrimmedUsable(start: nat, count: nat, p: nat, n: nat, free: set<nat>, used: set<nat>)
      requires start <= p && 2 <= p && (start < p ==> p == 2)
      requires p + n == if start + count == ADDRESS_BLOCKS then start + count - 1 else start + count
      requires start + count <= ADDRESS_BLOCKS
      requires Interval(start, count) !! free && Interval(start, count) !! used
      ensures Interval(p, n) == Usable(start, count)
      ensures Interval(p, n) !! free && Interval(p, n) !! used
    {
    }

    lemma NewOff(p: nat)
      requires ListsValid() && p !in hdrs
      ensures OffLists(lists, p)
    {
    }

    lemma NewNotAdjacent(m: Layout, p: nat, blk: Blk)
      requires NoAdjacentFree(m) && p !in m && !blk.free
      ensures NoAdjacentFree(m[p := blk])
    {
      hide Blocks;
      var m' := m[p := blk];
      forall h | h in m' && m'[h].free ensures !(End(m', h) in m' && m'[End(m', h)].free) {
        assert h in m && End(m', h) == End(m, h);
      }
    }

    lemma AddedThenTaken(s: set<nat>, t: set<nat>)
      requires s !! t
      ensures s + t - t == s
    {
    }

    lemma MoreBlocks(m: Layout, added: set<nat>)
      requires added !! Region(m, true)
      ensures |Region(m, true) + added| == |Region(m, true)| + |added|
    {
    }

    // ----- Allocating -----

    /** GC_split_block: cut h, the kth block of list index, at n. The second part takes h's place in
        that list, whatever its size, and the first part goes to the list for its own size. */
    method SplitBlock(h: nat, n: nat, index: nat, ghost k: nat) returns (ghost k': nat)
      requires ListsValid() && LayoutOk(Layout(), lists) && index <= N_HBLK_FLS && k < |lists[index]|
      requires lists[index][k] == h
      requires h in hdrs && hdrs[h].blk.free && h < n < End(Layout(), h)
      modifies this`hdrs, this`heads, this`freeBytes, this`lists
      ensures ListsValid() && PlacedBut(Layout(), lists, {n}) && Layout() == CutFront(old(Layout()), h, n) && n in hdrs
      ensures k' < |lists[index]| && lists[index][k'] == n
      ensures Sum(freeBytes) == old(Sum(freeBytes))
    {
      hide ListsOk, Blocks, FlIndex, Region, PlacedBut, OffLists, Sum, Tiles, NoAdjacentFree, CutFront, Interval,
           Bounded, Linked;
      ghost var m := Layout();
      Shapes(hdrs, heads, freeBytes, lists);
      StripKeys(hdrs);
      assert m[h] == hdrs[h].blk;
      CutFrontOk(m, h, n);
      SplitSizes(m, h, n);
      var size := (n - h) * HBLKSIZE;
      var rest := FreeBlk(hdrs[h].blk.sz - size).(free := false);
      ReplaceInList(h, n, rest, index, k);
      ghost var ls := lists;
      assert ls[index][k] == n;
      SetBlk(h, hdrs[h].blk.(sz := size), {n} + {h});
      assert Layout()[h] == hdrs[h].blk && Layout()[n] == hdrs[n].blk;
      k' := if FlIndex(Blocks(size)) == index then k + 1 else k;
      AddToFl(h, {n});
      PushMoves(ls, FlIndex(Blocks(size)), h, index, k);
      assert Layout()[n] == hdrs[n].blk;
      SetBlk(n, rest.(free := true), {n});
      CutFrontSteps(m, h, n, size, rest);
    }

    lemma CutFrontSteps(m: Layout, h: nat, n: nat, size: nat, rest: Blk)
      requires h in m && m[h].free && h < n < End(m, h) && size == (n - h) * HBLKSIZE
      requires rest.(free := true) == FreeBlk((End(m, h) - n) * HBLKSIZE)
      ensures var b := m[h].(sz := size);
        m[n := rest][h := b][h := b.(free := true)][n := rest.(free := true)] == CutFront(m, h, n)
    {
    }

    lemma PushMoves(ls: seq<seq<nat>>, j: nat, h: nat, i: nat, k: nat)
      requires j < |ls| && i < |ls| && k < |ls[i]|
      ensures var k' := if j == i then k + 1 else k; var w := ls[j := [h] + ls[j]];
        k' < |w[i]| && w[i][k'] == ls[i][k]
    {
    }

    lemma SplitSizes(m: Layout, h: nat, n: nat)
      requires Tiles(m) && h in m && m[h].free && h < n < End(m, h)
      ensures m[h].sz - (n - h) * HBLKSIZE == (End(m, h) - n) * HBLKSIZE && (n - h) * HBLKSIZE % HBLKSIZE == 0
      ensures n != 0
    {
    }

    /** The first half of GC_split_block: n, with the given header, replaces h in its free list. */
    method ReplaceInList(h: nat, n: nat, rest: Blk, index: nat, ghost k: nat)
      requires ListsValid() && PlacedBut(Layout(), lists, {}) && index <= N_HBLK_FLS && k < |lists[index]|
      requires lists[index][k] == h
      requires n !in hdrs && n != 0 && h in hdrs && rest.sz <= hdrs[h].blk.sz
      modifies this`hdrs, this`heads, this`freeBytes, this`lists
      ensures ListsValid() && PlacedBut(Layout(), lists, {n} + {h}) && OffLists(lists, h)
      ensures Layout() == old(Layout())[n := rest] && hdrs.Keys == old(hdrs.Keys) + {n} && hdrs[n].blk == rest
      ensures lists == old(lists)[index := Put(old(lists)[index], k, n)] && hdrs[h].blk == old(hdrs)[h].blk
      ensures Sum(freeBytes) + old(hdrs)[h].blk.sz == old(Sum(freeBytes)) + rest.sz
    {
      hide ListsOk, Blocks, FlIndex, PlacedBut, OffLists, Sum, Linked, ListBytes, Strip;
      Shapes(hdrs, heads, freeBytes, lists);
      OnOneList(hdrs, heads, freeBytes, lists, index, k);
      ReplaceOk(hdrs, heads, freeBytes, lists, index, k, n, rest);
      ReplacedBlks(hdrs, Replace(hdrs, h, n, rest), n, rest);
      StripKeys(hdrs);
      ReplacedPlaced(Layout(), lists, index, k, n, rest);
      var x := hdrs[h];
      SumUpdate(freeBytes, index, freeBytes[index] - x.blk.sz + rest.sz);
      ghost var d := Replace(hdrs, h, n, rest);
      hdrs := hdrs[n := Hdr(rest, x.next, x.prev)];
      if x.prev != 0 {
        hdrs := hdrs[x.prev := hdrs[x.prev].(next := n)];
      } else {
        heads := heads[index := n];
      }
      if x.next != 0 {
        hdrs := hdrs[x.next := hdrs[x.next].(prev := n)];
      }
      freeBytes := freeBytes[index := freeBytes[index] - (x.blk.sz - rest.sz)];
      assert hdrs == d;
      lists := lists[index := Put(lists[index], k, n)];
    }

    lemma StripKeys(d: Hdrs)
      ensures Strip(d).Keys == d.Keys
    {
    }

    /** GC_get_first_part: take h, the kth block of list index, off that list and return all but its
        first need heap blocks to the free lists. The caller still has to set up h's own header. */
    method GetFirstPart(h: nat, need: nat, index: nat, ghost k: nat)
      requires ListsValid() && PlacedBut(Layout(), lists, {h}) && index <= N_HBLK_FLS && k < |lists[index]|
      requires lists[index][k] == h
      requires Tiles(Layout()) && h in hdrs && hdrs[h].blk.free && 0 < need && h + need <= End(Layout(), h)
      modifies this`hdrs, this`heads, this`freeBytes, this`lists
      ensures ListsValid() && PlacedBut(Layout(), lists, {h}) && OffLists(lists, h) && h in hdrs
      ensures Layout() == CutBack(old(Layout()), h, need)
      ensures Sum(freeBytes) + need * HBLKSIZE == old(Sum(freeBytes))
    {
      hide ListsOk, Blocks, FlIndex, Region, PlacedBut, OffLists, Sum, Tiles, NoAdjacentFree;
      ghost var m := Layout();
      PartSizes(m, h, need);
      RemoveFromFl(h, index, k, {h});
      assert {h} + {h} == {h};
      StripSize(old(hdrs), hdrs, h);
      var total, bytes := hdrs[h].blk.sz, need * HBLKSIZE;
      if total == bytes {
        return;
      }
      AddRest(h, need, h + need, total - bytes);
    }

    /** The rest of the block gets a header and goes to its list. */
    method AddRest(h: nat, need: nat, rest: nat, size: nat)
      requires ListsValid() && PlacedBut(Layout(), lists, {h}) && OffLists(lists, h)
      requires h in hdrs && hdrs[h].blk.free && rest == h + need < End(Layout(), h) && rest !in hdrs && 0 < need
      requires size == (End(Layout(), h) - rest) * HBLKSIZE
      modifies this`hdrs, this`heads, this`freeBytes, this`lists
      ensures ListsValid() && PlacedBut(Layout(), lists, {h}) && OffLists(lists, h) && h in hdrs
      ensures Layout() == CutBack(old(Layout()), h, need)
      ensures Sum(freeBytes) == old(Sum(freeBytes)) + size
    {
      hide ListsOk, Blocks, FlIndex, Region, PlacedBut, OffLists, Sum, Tiles, NoAdjacentFree;
      ghost var m := Layout();
      NewOff(rest);
      InstallHeader(rest, FreeBlk(size).(free := false), {h});
      assert Layout()[rest] == hdrs[rest].blk;
      FreshMisplaced(rest, {h});
      ghost var ls := lists;
      AddToFl(rest, {h});
      assert Layout() == CutBack(m, h, need);
      PushKeepsOff(ls, FlIndex(Blocks(size)), rest, h);
    }

    lemma PartSizes(m: Layout, h: nat, need: nat)
      requires Tiles(m) && h in m && m[h].free && 0 < need && h + need <= End(m, h)
      ensures m[h].sz == need * HBLKSIZE <==> End(m, h) == h + need
      ensures need * HBLKSIZE <= m[h].sz
      ensures m[h].sz - need * HBLKSIZE == (End(m, h) - (h + need)) * HBLKSIZE
      ensures h + need < End(m, h) ==> h + need !in m && h + need != 0
      ensures (m[h].sz - need * HBLKSIZE) % HBLKSIZE == 0
    {
    }

    lemma FreshMisplaced(h: nat, misplaced: set<nat>)
      requires PlacedBut(Layout(), lists, misplaced)
      ensures PlacedBut(Layout(), lists, misplaced + {h})
    {
    }

    lemma PushKeepsOff(ls: seq<seq<nat>>, n: nat, pushed: nat, h: nat)
      requires OffLists(ls, h) && n < |ls| && pushed != h
      ensures OffLists(ls[n := [pushed] + ls[n]], h)
    {
    }

    /** The end of a successful search: carve need heap blocks at place out of h, the kth block of
        list index, and set up their header. */
    method AllocateAt(h: nat, place: nat, index: nat, ghost k: nat, blk: Blk)
      requires Consistent() && Indexed() && index <= N_HBLK_FLS && k < |lists[index]| && lists[index][k] == h
      requires h in hdrs && Fits(Layout(), h, place, Blocks(blk.sz)) && !blk.free
      modifies this`hdrs, this`heads, this`freeBytes, this`lists, this`largeFree, addresses
      ensures Consistent() && Indexed() && place in hdrs && hdrs[place].blk == blk
      ensures Grew(old(Layout()), Layout(), Interval(place, Blocks(blk.sz)))
    {
      hide Consistent, Fits, Grew, Interval, Blocks, Taken, CutFront, I.Index.Valid, I.Index.Agrees;
      RecordAllocation(h, place, blk);
      CarveAt(h, place, index, k, blk);
    }

    method RecordAllocation(h: nat, place: nat, blk: Blk)
      requires Consistent() && Indexed() && Fits(Layout(), h, place, Blocks(blk.sz)) && !blk.free
      modifies addresses
      ensures addresses.Valid()
      ensures place in CutFront(Layout(), h, place)
      ensures place + Blocks(blk.sz) <= End(CutFront(Layout(), h, place), place)
      ensures addresses.Agrees(Taken(Layout(), h, place, Blocks(blk.sz), blk))
    {
      hide I.Index.Valid, I.Index.Agrees, Tiles, NoAdjacentFree, PlacedBut, ListsOk, Taken, CutFront, Blocks;
      addresses.RecordAllocation(Strip(hdrs), h, place, Blocks(blk.sz), blk);
    }

    method CarveAt(h: nat, place: nat, index: nat, ghost k: nat, blk: Blk)
      requires Consistent() && index <= N_HBLK_FLS && k < |lists[index]| && lists[index][k] == h
      requires h in hdrs && Fits(Layout(), h, place, Blocks(blk.sz)) && !blk.free
      modifies this`hdrs, this`heads, this`freeBytes, this`lists, this`largeFree
      ensures Consistent() && place in hdrs && hdrs[place].blk == blk
      ensures Grew(old(Layout()), Layout(), Interval(place, Blocks(blk.sz)))
      ensures var m := old(Layout());
        place in CutFront(m, h, place) && place + Blocks(blk.sz) <= End(CutFront(m, h, place), place)
        && Layout() == Taken(m, h, place, Blocks(blk.sz), blk)
    {
      hide ListsOk, Blocks, FlIndex, Region, PlacedBut, OffLists, Sum, Tiles, NoAdjacentFree, Interval, CutFront,
           CutBack;
      ghost var m, need := Layout(), Blocks(blk.sz);
      AllocOk(m, h, place, need, blk);
      CutFrontOk(m, h, place);
      assert Layout()[h] == hdrs[h].blk;
      ghost var k' := k;
      if place != h {
        k' := SplitBlock(h, place, index, k);
      } else {
        NoFront(m, h);
        FreshMisplaced(h, {});
        assert {} + {h} == {h};
      }
      assert Layout()[place] == hdrs[place].blk;
      GetFirstPart(place, Blocks(blk.sz), index, k');
      SetBlk(place, blk, {place});
      NotMisplaced(Layout(), lists, place);
      assert Layout()[place] == hdrs[place].blk;
      TakenBytes(m, Layout(), Interval(place, need));
      largeFree := largeFree - HBLKSIZE * Blocks(blk.sz);
    }

    lemma TakenBytes(m: Layout, m': Layout, taken: set<nat>)
      requires taken <= Region(m, true) && Region(m', true) == Region(m, true) - taken
      ensures |Region(m', true)| == |Region(m, true)| - |taken| && |taken| <= |Region(m, true)|
    {
    }

    // ----- The search -----

    /** The black-list loop: the first place from h on whose effective length is not black listed,
        or some place too late for the block to fit. */
    method SearchPlace(h: nat, avail: nat, need: nat, eff: nat) returns (place: nat)
      requires black.Ok() && 0 < eff <= need <= avail
      ensures h <= place <= h + avail
      ensures place + need <= h + avail ==> black.NextPlausible(place, eff) == 0
      ensures black.NextPlausible(h, eff) == 0 ==> place == h
      ensures forall s: nat | h <= s < place :: black.Listed(s, eff)
    {
      place := h;
      while place + need <= h + avail && black.NextPlausible(place, eff) != 0
        invariant h <= place <= h + avail
        invariant black.NextPlausible(h, eff) == 0 ==> place == h
        invariant forall s: nat | h <= s < place :: black.Listed(s, eff)
        decreases h + avail - place
      {
        NextInReach(place, eff);
        B.NextPlausibleMeaning(black, place, eff);
        place := black.NextPlausible(place, eff);
      }
    }

    lemma NextInReach(h: nat, n: nat)
      requires black.Ok() && 0 < n
      ensures black.NextPlausible(h, n) != 0 ==> h < black.NextPlausible(h, n) <= h + n
    {
      if !black.NormalListed(h) {
        B.FirstListedMeaning(black, h, B.Last(h, n));
      }
    }

    /** Dropping a wholly black-listed free block h, the kth of list n: it is allocated as single
        pointer-free heap blocks, to be reconsidered at the next collection. */
    method DropBlock(h: nat, n: nat, ghost k: nat)
      requires Consistent() && Indexed() && n <= N_HBLK_FLS && k < |lists[n]| && lists[n][k] == h
      requires h in hdrs && hdrs[h].blk.free
      modifies this`hdrs, this`heads, this`freeBytes, this`lists, this`largeFree, this`bytesDropped, addresses
      ensures Consistent() && Indexed() && lists == old(lists)[n := Without(old(lists)[n], k)]
      ensures Grew(old(Layout()), Layout(), Interval(h, Blocks(old(hdrs)[h].blk.sz)))
      ensures bytesDropped == old(bytesDropped) + HBLKSIZE * Blocks(old(hdrs)[h].blk.sz)
      ensures ClearedOf(old(Layout()), Layout(), h)
    {
      hide Consistent, Grew, Interval, Blocks, Chopped, ClearedOf, I.Index.Valid, I.Index.Agrees;
      RecordDrop(h);
      DropOff(h, n, k);
    }

    method RecordDrop(h: nat)
      requires Indexed() && h in hdrs && hdrs[h].blk.free
      modifies addresses
      ensures addresses.Valid() && addresses.Agrees(Chopped(Layout(), h, Blocks(hdrs[h].blk.sz)))
    {
      hide I.Index.Valid, I.Index.Agrees, Chopped, Blocks;
      assert Strip(hdrs)[h] == hdrs[h].blk;
      addresses.RecordDrop(Strip(hdrs), h, Blocks(hdrs[h].blk.sz));
    }

    method DropOff(h: nat, n: nat, ghost k: nat)
      requires Consistent() && n <= N_HBLK_FLS && k < |lists[n]| && lists[n][k] == h
      requires h in hdrs && hdrs[h].blk.free
      modifies this`hdrs, this`heads, this`freeBytes, this`lists, this`largeFree, this`bytesDropped
      ensures Consistent() && lists == old(lists)[n := Without(old(lists)[n], k)]
      ensures Grew(old(Layout()), Layout(), Interval(h, Blocks(old(hdrs)[h].blk.sz)))
      ensures bytesDropped == old(bytesDropped) + HBLKSIZE * Blocks(old(hdrs)[h].blk.sz)
      ensures ClearedOf(old(Layout()), Layout(), h)
      ensures Layout() == Chopped(old(Layout()), h, Blocks(old(hdrs)[h].blk.sz))
    {
      hide ListsOk, FlIndex, Region, PlacedBut, OffLists, Sum, Tiles, NoAdjacentFree, Interval, Blocks, Chopped;
      ghost var m, ls := Layout(), lists;
      assert m[h] == hdrs[h].blk;
      ghost var count := Blocks(m[h].sz);
      ChoppedTiles(m, h, count);
      ChoppedRegion(m, h, count);
      WholeFreeSize(m, h);
      NoHeadersIn(m, h);
      StripKeys(hdrs);
      OnOneList(hdrs, heads, freeBytes, lists, n, k);
      var total := hdrs[h].blk.sz;
      TakenBytes(m, Chopped(m, h, count), Interval(h, count));
      largeFree := largeFree - total;
      bytesDropped := bytesDropped + total;
      RemoveFromFl(h, n, k, {});
      assert {} + {h} == {h};
      ChopUp(h, total / HBLKSIZE);
      ChoppedKeeps(m, h, count);
      DroppedOne(m, ls, Layout(), lists, n, k);
    }

    lemma NoHeadersIn(m: Layout, h: nat)
      requires Tiles(m) && h in m
      ensures forall x | h < x < End(m, h) :: x !in m
    {
    }

    /** Off its list, the block is free no more, and no block has become free. */
    lemma DroppedOne(m: Layout, ls: seq<seq<nat>>, m': Layout, ls': seq<seq<nat>>, n: nat, k: nat)
      requires PlacedBut(m, ls, {}) && PlacedBut(m', ls', {}) && n <= N_HBLK_FLS && k < |ls[n]|
      requires ls' == ls[n := Without(ls[n], k)]
      requires NoDup(ls[n]) && forall a | a in m && a != ls[n][k] :: a in m' && m'[a] == m[a]
      ensures ClearedOf(m, m', ls[n][k])
    {
      hide Blocks, FlIndex;
      WithoutMembers(ls[n], k);
      forall a | a in m' && m'[a].free ensures a in m && m[a] == m'[a] && a != ls[n][k] {
        var i := FlIndex(Blocks(m'[a].sz));
        assert a in ls'[i] && a in ls[i] && ls[n][k] in ls[n];
      }
    }

    /** The loop of the drop: a header for each of the block's heap blocks. */
    method ChopUp(h: nat, count: nat)
      requires ListsValid() && PlacedBut(Layout(), lists, {h}) && OffLists(lists, h) && h in hdrs && 0 < count
      requires forall x | h < x < h + count :: x !in hdrs
      modifies this`hdrs
      ensures ListsValid() && PlacedBut(Layout(), lists, {}) && Layout() == Chopped(old(Layout()), h, count)
    {
      hide ListsOk, FlIndex, PlacedBut, OffLists, Blocks, Strip, Interval, Chopped;
      ghost var m := Layout();
      StripKeys(hdrs);
      ChoppedNext(m, h, 0);
      var i := 0;
      while i < count
        invariant i <= count && ListsValid() && PlacedBut(Layout(), lists, {h}) && OffLists(lists, h)
        invariant hdrs.Keys == Layout().Keys && Layout() == Chopped(m, h, i)
      {
        ChoppedNext(m, h, i);
        if i == 0 {
          SetBlk(h, UsedBlk(1), {h});
        } else {
          NewOff(h + i);
          InstallHeader(h + i, UsedBlk(1), {h});
        }
        StripKeys(hdrs);
        i := i + 1;
      }
      ChoppedNext(m, h, count);
      NotMisplaced(Layout(), lists, h);
    }

    lemma WholeFreeSize(m: Layout, h: nat)
      requires Tiles(m) && h in m && m[h].free
      ensures m[h].sz == HBLKSIZE * Blocks(m[h].sz) && 0 < Blocks(m[h].sz)
    {
    }

    ghost function Request(blk: Blk, maySplit: bool := true): Search
      reads this
    {
      Search(black, blLimit, blk, maySplit)
    }

    /** One round of the loop in GC_allochblk_nth, for a block h that is big enough: allocate from it,
        pass over it, or drop it. */
    method TryBlock(h: nat, n: nat, ghost k: nat, blk: Blk) returns (o: Outcome)
      requires Consistent() && Indexed() && n <= N_HBLK_FLS && k < |lists[n]| && lists[n][k] == h && h in hdrs
      requires hdrs[h].blk.free
      requires 0 < blk.sz && !blk.free && HBLKSIZE * Blocks(blk.sz) <= hdrs[h].blk.sz
      modifies this`hdrs, this`heads, this`freeBytes, this`lists, this`largeFree, this`bytesDropped, this`dropCount
      modifies addresses
      ensures Consistent() && Indexed()
      ensures o.Took? ==>
        && o.place in hdrs && hdrs[o.place].blk == blk && bytesDropped == old(bytesDropped)
        && Grew(old(Layout()), Layout(), Interval(o.place, Blocks(blk.sz)))
        && (Request(blk).Counts() ==> Request(blk).Clear(o.place) || Request(blk).Punts(old(Layout()), o.place))
      ensures o.Passed? ==>
        && Layout() == old(Layout()) && hdrs == old(hdrs) && lists == old(lists) && heads == old(heads)
        && freeBytes == old(freeBytes) && largeFree == old(largeFree) && bytesDropped == old(bytesDropped)
      ensures o.Dropped? ==>
        && lists == old(lists)[n := Without(old(lists)[n], k)] &&
            bytesDropped == old(bytesDropped) + HBLKSIZE * Blocks(old(hdrs)[h].blk.sz)
        && Grew(old(Layout()), Layout(), Interval(h, Blocks(old(hdrs)[h].blk.sz)))
      ensures o.Dropped? ==> ClearedOf(old(Layout()), Layout(), h)
      ensures NothingListed(black) ==> o == Took(h)
      // The first place that will do is taken; without one, the block is passed over, or dropped now and then.
      ensures o.Took? ==> h <= o.place && Request(blk).AllListed(h, o.place)
      ensures !o.Took? ==>
        && Request(blk).NoRoom(h, old(hdrs)[h].blk.sz)
        && dropCount == old(dropCount) + (if Blocks(blk.sz) == 1 then 1 else 0)
        && (o.Dropped? <==> Blocks(blk.sz) == 1 && dropCount % 4 == 0)
    {
      hide Indexed, ListsOk, FlIndex, Region, PlacedBut, OffLists, Sum, Tiles, NoAdjacentFree, Interval, Blocks, Grew;
      assert Layout()[h] == hdrs[h].blk;
      WholeFreeSize(Layout(), h);
      PositiveBlocks(blk.sz);
      var need, size := Blocks(blk.sz), Blocks(hdrs[h].blk.sz);
      var needed := HBLKSIZE * need;
      var place := h;
      if !M.IsUncollectable(blk.kind) && (!blk.kind.PtrFree? || needed > MAX_BLACK_LIST_ALLOC) {
        place := SearchPlace(h, size, need, if blk.ignoreOffPage then 1 else need);
        Request(blk).ClearIff(if blk.ignoreOffPage then 1 else need);
        var avail := size - (place - h);
        if avail >= need {
          B.NextPlausibleMeaning(black, place, if blk.ignoreOffPage then 1 else need);
        } else if needed > blLimit && (size - need) * HBLKSIZE > blLimit {
          place := h;   // punt: anything else risks unreasonable heap growth
        } else if avail == 0 && need == 1 {
          dropCount := dropCount + 1;
          if dropCount % 4 == 0 {
            DropBlock(h, n, k);
            return Dropped;
          }
          return Passed;
        } else {
          return Passed;
        }
      }
      AllocateAt(h, place, n, k, blk);
      o := Took(place);
    }

    /** Is block hbp, the kth of list n, too small, of the wrong size, or is the next block obviously better? */
    method Skips(hbp: nat, n: nat, ghost k: nat, blk: Blk, maySplit: bool) returns (skip: bool)
      requires Consistent() && n <= N_HBLK_FLS && k < |lists[n]| && lists[n][k] == hbp
      ensures hbp in Layout() && hbp in hdrs && Layout()[hbp] == hdrs[hbp].blk && hdrs[hbp].blk.free
      ensures skip <==> !Request(blk, maySplit).Tries(Layout(), lists[n], k)
      ensures !skip ==> HBLKSIZE * Blocks(blk.sz) <= hdrs[hbp].blk.sz
    {
      hide ListsOk, FlIndex, Region, PlacedBut, Sum, Tiles, NoAdjacentFree, Blocks;
      ListMember(n, k);
      var needed := HBLKSIZE * Blocks(blk.sz);
      var next, avail := hdrs[hbp].next, hdrs[hbp].blk.sz;
      if avail < needed {
        return true;
      }
      if avail != needed {
        if !maySplit {
          return true;
        }
        if next != 0 {
          ListMember(n, k + 1);
          var nextSize := hdrs[next].blk.sz;
          B.NextPlausibleMeaning(black, next, Blocks(blk.sz));
          return nextSize < avail && nextSize >= needed && black.NextPlausible(next, Blocks(blk.sz)) == 0;
        }
      }
      skip := false;
    }

    /** One round of that loop for any block hbp, the kth of list n, when the heap blocks in before have been dropped. */
    method VisitBlock(hbp: nat, n: nat, ghost k: nat, blk: Blk, maySplit: bool, ghost m: Layout, ghost before: set<nat>)
      returns (o: Outcome, ghost dropped: set<nat>)
      requires Consistent() && Indexed() && n <= N_HBLK_FLS && k < |lists[n]| && lists[n][k] == hbp
      requires Grew(m, Layout(), before)
      requires 0 < blk.sz && !blk.free
      modifies this`hdrs, this`heads, this`freeBytes, this`lists, this`largeFree, this`bytesDropped, this`dropCount
      modifies addresses
      ensures Consistent() && Indexed() && (!o.Dropped? ==> dropped == before && bytesDropped == old(bytesDropped))
      ensures o.Took? ==>
        && o.place != 0 && o.place in hdrs && hdrs[o.place].blk == blk
        && Grew(m, Layout(), before + Interval(o.place, Blocks(blk.sz))) && before !! Interval(o.place, Blocks(blk.sz))
        && (Request(blk).Counts() ==> Request(blk).Clear(o.place) || Request(blk).Punts(old(Layout()), o.place))
      ensures o.Took? || (o.Passed? && NothingListed(black)) ==>
        (o.Took? <==> Request(blk, maySplit).Tries(old(Layout()), old(lists)[n], k))
      ensures NothingListed(black) && o.Took? ==> o.place == hbp
      ensures o.Passed? ==>
        && Layout() == old(Layout()) && lists == old(lists) && hdrs == old(hdrs) && heads == old(heads)
        && freeBytes == old(freeBytes) && largeFree == old(largeFree)
        && Request(blk, maySplit).GoesPast(Layout(), lists[n], k)
      ensures o.Dropped? ==>
        && Grew(m, Layout(), dropped) && bytesDropped + HBLKSIZE * |before| == old(bytesDropped) + HBLKSIZE * |dropped|
        && lists == old(lists)[n := Without(old(lists)[n], k)] && !NothingListed(black)
        && ClearedOf(old(Layout()), Layout(), hbp) && !Request(blk, maySplit).Good(old(Layout()), old(lists)[n], k)
    {
      hide Consistent, Indexed, ListsOk, FlIndex, Region, PlacedBut, OffLists, Interval, Blocks, Grew, NothingListed,
           Layout, ClearedOf, Suitable, Search.Clear, Without, B.Tables.Listed, At, B.Tables.Ok, Search.Tries,
           Search.GoesPast, Search.NoRoom, Search.Good, Search.AllListed, Search.Punts, Search.Counts;
      dropped := before;
      ListMember(n, k);
      ghost var l, size, ls, q := Layout(), Blocks(hdrs[hbp].blk.sz), lists, Request(blk, maySplit);
      var skip := Skips(hbp, n, k, blk, maySplit);
      if skip {
        q.SkipGoesPast(l, ls[n], k);
        return Passed, dropped;
      }
      o := TryBlock(hbp, n, k, blk);
      match o
      case Took(place) =>
        GrewTrans(m, l, Layout(), before, Interval(place, Blocks(blk.sz)));
        ListMember(n, 0);
      case Passed =>
        q.NoRoomGoesPast(l, ls[n], k);
      case Dropped =>
        q.NoRoomGoesPast(l, ls[n], k);
        GrewTrans(m, l, Layout(), before, Interval(hbp, size));
        dropped := before + Interval(hbp, size);
    }

    /** GC_allochblk_nth: search list n; 0 when nothing suitable is found. The heap blocks of wholly
        black-listed blocks that were dropped on the way are returned as well. */
    method AllochblkNth(blk: Blk, n: nat, maySplit: bool) returns (r: nat, ghost dropped: set<nat>)
      requires Consistent() && Indexed() && n <= N_HBLK_FLS && 0 < blk.sz && !blk.free
      modifies this`hdrs, this`heads, this`freeBytes, this`lists, this`largeFree, this`bytesDropped, this`dropCount
      modifies addresses
      ensures Consistent() && Indexed() && bytesDropped == old(bytesDropped) + HBLKSIZE * |dropped|
      ensures r == 0 ==> Grew(old(Layout()), Layout(), dropped)
      ensures r != 0 ==>
        && r in hdrs && hdrs[r].blk == blk && Grew(old(Layout()), Layout(), dropped + Interval(r, Blocks(blk.sz)))
        && dropped !! Interval(r, Blocks(blk.sz))
        && (Request(blk).Counts() ==> Request(blk).Clear(r) || Request(blk).Punts(old(Layout()), r))
      ensures NothingListed(black) ==> dropped == {}
      ensures NothingListed(black) && r == 0 ==>
        Layout() == old(Layout()) && lists == old(lists) && freeBytes == old(freeBytes) && largeFree == old(largeFree)
      ensures NothingListed(black) ==>
        (r != 0 <==> SomeSuitable(old(Layout()), old(lists)[n], HBLKSIZE * Blocks(blk.sz), maySplit))
      ensures NothingListed(black) && r != 0 ==> Request(blk, maySplit).FirstTried(old(Layout()), old(lists)[n], r)
      ensures r == 0 ==>
        FewerFree(old(Layout()), Layout()) && Request(blk, maySplit).HopelessTo(Layout(), lists[n], |lists[n]|)
      decreases |lists[n]|, 0
    {
      hide Consistent, Indexed, ListsOk, FlIndex, Region, PlacedBut, OffLists, Interval, Blocks, Grew, SomeSuitable,
           NothingListed, Layout, Suitable, Search.Clear, Without, B.Tables.Listed, At, B.Tables.Ok, FewerFree,
           ClearedOf, Search.Tries, Search.GoesPast, Search.StateAt, Search.HopelessTo, Search.Good, Search.NoneTried,
           Search.FirstTried, Search.Punts, Search.Counts, Search.NoRoom, NoDup;
      dropped := {};
      ListMember(n, 0);
      var hbp := heads[n];
      ghost var k, m, bl, q := 0, Layout(), black, Request(blk, maySplit);
      GrewNothing(m);
      q.Starts(m, lists[n]);
      while hbp != 0
        invariant Consistent() && Indexed() && black == bl && |lists| == |heads| == N_HBLK_FLS + 1
        invariant k <= |lists[n]| <= |old(lists)[n]| && hbp == At(lists[n], k)
        invariant Grew(m, Layout(), dropped) && FewerFree(m, Layout())
        invariant bytesDropped == old(bytesDropped) + HBLKSIZE * |dropped|
        invariant NothingListed(bl) ==>
          dropped == {} && Layout() == m && lists == old(lists) && freeBytes == old(freeBytes) && largeFree == old(largeFree)
        invariant q.StateAt(Layout(), lists[n], k) && (NothingListed(bl) ==> q.NoneTried(m, lists[n], k))
        decreases |lists[n]| - k
      {
        ListMember(n, k);
        var next, prev := hdrs[hbp].next, hdrs[hbp].prev;
        ghost var l, ls := Layout(), lists;
        var o;
        o, dropped := VisitBlock(hbp, n, k, blk, maySplit, m, dropped);
        match o
        case Took(place) =>
          if NothingListed(bl) {
            q.Found(m, ls[n], k);
          }
          Request(blk).PuntsBefore(m, l, place);
          return place, dropped;
        case Passed =>
          q.GoOn(l, ls[n], k);
          if NothingListed(bl) {
            q.NotTried(m, ls[n], k);
          }
          hbp, k := next, k + 1;
        case Dropped =>
          WithoutShorter(ls[n], k);
          Fewer(m, l, Layout(), hbp);
          q.Drops(l, Layout(), ls[n], k);
          if prev == 0 {
            ghost var l1 := Layout();
            r, dropped := SearchOn(m, dropped, blk, n, maySplit);
            if r == 0 {
              FewerTrans(m, l1, Layout());
            } else {
              Request(blk).PuntsBefore(m, l1, r);
            }
            return;
          }
          ListMember(n, k - 1);
          hbp := hdrs[prev].next;
      }
      r := 0;
      ListMember(n, k);
      q.Ends(Layout(), lists[n]);
      if NothingListed(bl) {
        q.NoneSuitable(m, lists[n]);
      }
    }

    /** The search of list n, for a caller who has dropped the heap blocks in before already. */
    method SearchOn(ghost m: Layout, ghost before: set<nat>, blk: Blk, n: nat, maySplit: bool)
      returns (r: nat, ghost dropped: set<nat>)
      requires Consistent() && Indexed() && n <= N_HBLK_FLS && 0 < blk.sz && !blk.free && Grew(m, Layout(), before)
      modifies this`hdrs, this`heads, this`freeBytes, this`lists, this`largeFree, this`bytesDropped, this`dropCount
      modifies addresses
      ensures Consistent() && Indexed()
      ensures bytesDropped + HBLKSIZE * |before| == old(bytesDropped) + HBLKSIZE * |dropped|
      ensures r == 0 ==> Grew(m, Layout(), dropped)
      ensures r != 0 ==>
        && r in hdrs && hdrs[r].blk == blk && Grew(m, Layout(), dropped + Interval(r, Blocks(blk.sz)))
        && dropped !! Interval(r, Blocks(blk.sz))
        && (Request(blk).Counts() ==> Request(blk).Clear(r) || Request(blk).Punts(old(Layout()), r))
      ensures NothingListed(black) ==> dropped == before
      ensures NothingListed(black) && r == 0 ==>
        Layout() == old(Layout()) && lists == old(lists) && freeBytes == old(freeBytes) && largeFree == old(largeFree)
      ensures NothingListed(black) ==>
        (r != 0 <==> SomeSuitable(old(Layout()), old(lists)[n], HBLKSIZE * Blocks(blk.sz), maySplit))
      ensures NothingListed(black) && r != 0 ==> Request(blk, maySplit).FirstTried(old(Layout()), old(lists)[n], r)
      ensures r == 0 ==>
        FewerFree(old(Layout()), Layout()) && Request(blk, maySplit).HopelessTo(Layout(), lists[n], |lists[n]|)
      decreases |lists[n]|, 1
    {
      hide Consistent, Indexed, ListsOk, FlIndex, Region, PlacedBut, OffLists, Interval, Blocks, Grew, SomeSuitable,
           NothingListed, Layout, Search.Clear, B.Tables.Listed, FewerFree, Search.HopelessTo, Search.FirstTried,
           Search.Punts, Search.Counts;
      ghost var l := Layout();
      ghost var more: set<nat>;
      r, more := AllochblkNth(blk, n, maySplit);
      ghost var taken := if r == 0 then {} else Interval(r, Blocks(blk.sz));
      assert more + {} == more;
      GrewTrans(m, l, Layout(), before, more + taken);
      assert before + (more + taken) == (before + more) + taken;
      dropped := before + more;
      assert dropped + {} == dropped;
    }

    lemma WithoutShorter(s: seq<nat>, k: nat)
      requires k < |s|
      ensures |Without(s, k)| == |s| - 1 && At(s, k - 1) == At(Without(s, k), k - 1)
    {
    }

    lemma GrewNothing(m: Layout)
      ensures Grew(m, m, {}) && FewerFree(m, m)
    {
    }

    lemma ListMember(n: nat, k: nat)
      requires Consistent() && n <= N_HBLK_FLS
      ensures black.Ok() && |lists| == |heads| == N_HBLK_FLS + 1 && heads[n] == At(lists[n], 0) && 0 !in hdrs
      ensures (At(lists[n], k) != 0 <==> k < |lists[n]|) && (k < |lists[n]| ==> At(lists[n], k) == lists[n][k])
      ensures At(lists[n], k - 1) != 0 ==> 0 < k
      ensures k < |lists[n]| ==>
        && lists[n][k] in hdrs && hdrs[lists[n][k]].blk.free && lists[n][k] in Layout() &&
            Layout()[lists[n][k]] == hdrs[lists[n][k]].blk
        && hdrs[lists[n][k]].next == At(lists[n], k + 1) && hdrs[lists[n][k]].prev == At(lists[n], k - 1)
      ensures NoDup(lists[n])
    {
      hide Blocks, FlIndex, ListBytes, Region, Sum, Tiles, NoAdjacentFree;
      Shapes(hdrs, heads, freeBytes, lists);
      assert Linked(hdrs, heads[n], lists[n]);
      if k < |lists[n]| {
        assert lists[n][k] in lists[n];
        assert Layout()[lists[n][k]] == hdrs[lists[n][k]].blk;
      }
    }

    // ----- GC_allochblk -----

    /** GC_enough_large_bytes_left. */
    method EnoughLargeBytesLeft(p: Policy) returns (n: nat)
      requires |freeBytes| == N_HBLK_FLS + 1
      ensures KeepsEnough(freeBytes, p, n)
    {
      n := N_HBLK_FLS + 1;
      var bytes := p.largeAllocd;
      while 0 < n
        invariant n <= N_HBLK_FLS + 1 && bytes == LargeFrom(freeBytes, p, n)
        invariant forall j | n <= j <= N_HBLK_FLS :: LargeFrom(freeBytes, p, j) < p.maxLargeAllocd
      {
        n := n - 1;
        assert freeBytes[n..][1..] == freeBytes[n + 1..];
        bytes := bytes + freeBytes[n];
        if bytes >= p.maxLargeAllocd {
          return;
        }
      }
    }

    method SplitLimit(p: Policy) returns (limit: nat)
      requires |freeBytes| == N_HBLK_FLS + 1
      ensures IsSplitLimit(freeBytes, heapSize, largeFree, p, limit) && limit <= N_HBLK_FLS
    {
      if p.useEntireHeap || heapSize - largeFree < p.requestedHeapSize {
        return N_HBLK_FLS;
      } else if p.finalizerBytesFreed > heapSize / 16 {
        return 0;
      }
      limit := EnoughLargeBytesLeft(p);
    }

    /** GC_allochblk: first an exact fit, then the lists up to the split limit. With nothing black listed
        it fails only for want of an acceptable block. */
    method Allochblk(blk: Blk, p: Policy) returns (r: nat, ghost dropped: set<nat>)
      requires Valid() && Indexed() && 0 < blk.sz && !blk.free && blk.sz + HBLKSIZE <= WORD_RANGE
      modifies this`hdrs, this`heads, this`freeBytes, this`lists, this`largeFree, this`bytesDropped, this`dropCount
      modifies addresses
      ensures Valid() && Indexed() && bytesDropped == old(bytesDropped) + HBLKSIZE * |dropped|
      ensures r == 0 ==> Grew(old(Layout()), Layout(), dropped)
      ensures r != 0 ==>
        && r in hdrs && hdrs[r].blk == blk && Grew(old(Layout()), Layout(), dropped + Interval(r, Blocks(blk.sz)))
        && dropped !! Interval(r, Blocks(blk.sz))
        && (Request(blk).Counts() ==> Request(blk).Clear(r) || Request(blk).Punts(old(Layout()), r))
      // Where pointers to the request matter, no heap block of it that counts is black listed, unless the code punts.
      ensures r != 0 && blk.kind != M.Uncollectable && blk.kind != M.AUncollectable ==>
        (blk.kind == M.PtrFree ==> MAX_BLACK_LIST_ALLOC < HBLKSIZE * Blocks(blk.sz)) ==>
        || (&& !black.NormalListed(r)
            && forall x: nat | r <= x < r + (if blk.ignoreOffPage then 1 else Blocks(blk.sz)) :: !black.StackListed(x))
        || (&& r in old(Layout()) && old(Layout())[r].free && blLimit < HBLKSIZE * Blocks(blk.sz)
            && blLimit < old(Layout())[r].sz - HBLKSIZE * Blocks(blk.sz))
      ensures NothingListed(black) ==>
        dropped == {} && forall limit: nat | IsSplitLimit(old(freeBytes), old(heapSize), old(largeFree), p, limit) ::
        (r != 0 <==> HBLKSIZE * Blocks(blk.sz) < SIGN_BIT &&
                     exists h :: Acceptable(old(Layout()), h, HBLKSIZE * Blocks(blk.sz), limit))
      ensures NothingListed(black) && r != 0 ==> IsChoice(Request(blk), old(Layout()), old(lists), r)
      // With use of the entire heap allowed, it fails only if each place with room is black listed, and that counts.
      ensures r == 0 && p.useEntireHeap && HBLKSIZE * Blocks(blk.sz) < SIGN_BIT ==>
        forall place: nat | FreeRunAt(Layout(), place, Blocks(blk.sz)) :: Request(blk).Counts() && !Request(blk).Clear(place)
    {
      hide Consistent, Indexed, FlIndex, Region, Interval, Blocks, Grew, SomeSuitable, NothingListed, Layout,
           IsSplitLimit, Search.Clear, Acceptable, NoneOn, LayoutOk, Bounded, Tiles, B.Tables.Listed, FewerFree,
           IsChoice, HopelessLists, FreeRunAt, Search.HopelessTo, Search.FirstTried, Search.Punts, Search.Counts;
      dropped := {};
      ghost var m, ls, bl, q := Layout(), lists, black, Request(blk);
      ListMember(0, 0);
      ConsistentNow();
      GrewNothing(m);
      var blocks := Blocks(blk.sz);
      if blocks * HBLKSIZE >= SIGN_BIT {
        return 0, {};
      }
      var start := FlIndex(blocks);
      r, dropped := SearchOn(m, dropped, blk, start, false);
      if r != 0 {
        q.SafePlace(m, r);
        StillValid(m, dropped + Interval(r, Blocks(blk.sz)));
        if NothingListed(black) {
          forall limit: nat | IsSplitLimit(old(freeBytes), old(heapSize), old(largeFree), p, limit)
            ensures exists h :: Acceptable(m, h, HBLKSIZE * blocks, limit)
          {
            OneAcceptable(m, ls, start, HBLKSIZE * blocks, false, limit);
          }
          ChoseExact(q, m, ls, r);
        }
        return;
      }
      ConsistentNow();
      ghost var l := Layout();
      r, dropped := SearchBigger(m, dropped, blk, p);
      if r == 0 {
        StillValid(m, dropped);
      } else {
        Request(blk).PuntsBefore(m, l, r);
        q.SafePlace(m, r);
        StillValid(m, dropped + Interval(r, Blocks(blk.sz)));
      }
    }

    /** The rest of GC_allochblk once there is no exact fit, for a caller who has dropped the heap blocks in before
        already. */
    method SearchBigger(ghost m: Layout, ghost before: set<nat>, blk: Blk, p: Policy)
      returns (r: nat, ghost dropped: set<nat>)
      requires Consistent() && Indexed() && 0 < blk.sz && !blk.free && Grew(m, Layout(), before)
      requires |lists| == N_HBLK_FLS + 1
      requires Request(blk, false).HopelessTo(Layout(), lists[FlIndex(Blocks(blk.sz))], |lists[FlIndex(Blocks(blk.sz))]|)
      requires NothingListed(black) ==>
        !SomeSuitable(Layout(), lists[FlIndex(Blocks(blk.sz))], HBLKSIZE * Blocks(blk.sz), false)
      modifies this`hdrs, this`heads, this`freeBytes, this`lists, this`largeFree, this`bytesDropped, this`dropCount
      modifies addresses
      ensures Consistent() && Indexed()
      ensures bytesDropped + HBLKSIZE * |before| == old(bytesDropped) + HBLKSIZE * |dropped|
      ensures r == 0 ==> Grew(m, Layout(), dropped)
      ensures r != 0 ==>
        && r in hdrs && hdrs[r].blk == blk && Grew(m, Layout(), dropped + Interval(r, Blocks(blk.sz)))
        && dropped !! Interval(r, Blocks(blk.sz))
        && (Request(blk).Counts() ==> Request(blk).Clear(r) || Request(blk).Punts(old(Layout()), r))
      ensures NothingListed(black) ==>
        dropped == before && forall limit: nat | IsSplitLimit(old(freeBytes), heapSize, old(largeFree), p, limit) ::
        (r != 0 <==> exists h :: Acceptable(old(Layout()), h, HBLKSIZE * Blocks(blk.sz), limit))
      ensures NothingListed(black) && r != 0 ==> IsChoice(Request(blk), old(Layout()), old(lists), r)
      ensures r == 0 && p.useEntireHeap ==>
        forall place: nat | FreeRunAt(Layout(), place, Blocks(blk.sz)) :: Request(blk).Counts() && !Request(blk).Clear(place)
    {
      hide Consistent, Indexed, FlIndex, Region, Interval, Blocks, Grew, SomeSuitable, NothingListed, Layout,
           IsSplitLimit, Search.Clear, Acceptable, NoneOn, LayoutOk, Bounded, Tiles, B.Tables.Listed, FewerFree,
           IsChoice, HopelessLists, FreeRunAt, Search.HopelessTo, Search.FirstTried, Search.Punts, Search.Counts;
      dropped := before;
      ghost var l0, ls, bl, q, blocks := Layout(), lists, black, Request(blk), Blocks(blk.sz);
      ConsistentNow();
      ListMember(0, 0);
      var limit := SplitLimit(p);
      OneLimit(freeBytes, heapSize, largeFree, p, limit);
      var start := FlIndex(Blocks(blk.sz));
      var first := FirstBigger(start);
      var i := first;
      NoneYet(l0, ls, first, HBLKSIZE * blocks);
      GrewNothing(l0);
      ExactDone(q, l0, ls);
      while i <= limit
        invariant Consistent() && Indexed() && black == bl && first <= i
        invariant bytesDropped + HBLKSIZE * |before| == old(bytesDropped) + HBLKSIZE * |dropped|
        invariant Grew(m, Layout(), dropped)
        invariant NothingListed(bl) ==> dropped == before && Layout() == l0 && lists == ls
        invariant NothingListed(bl) ==> NoneOn(l0, ls, first, i, HBLKSIZE * blocks)
        invariant HopelessLists(q, Layout(), start, i) && FewerFree(l0, Layout())
      {
        ghost var l := Layout();
        r, dropped := SearchOn(m, dropped, blk, i, true);
        if r != 0 {
          q.PuntsBefore(l0, l, r);
          if NothingListed(bl) {
            OneAcceptable(l0, ls, i, HBLKSIZE * blocks, true, limit);
            ChoseBigger(q, l0, ls, i, r);
          }
          return;
        }
        ConsistentNow();
        MoreDone(q, l, Layout(), lists, start, i);
        FewerTrans(l0, l, Layout());
        if NothingListed(bl) {
          NoneUpTo(l0, ls, first, i, HBLKSIZE * blocks);
        }
        i := i + 1;
      }
      r := 0;
      if p.useEntireHeap {
        ConsistentNow();
        NoPlaceLeft(q, start, i);
      }
      if NothingListed(bl) {
        NoneAcceptable(l0, ls, first, i, blocks, limit);
      }
    }

    /** As AllDone, after the loop over the lists. */
    lemma NoPlaceLeft(q: Search, start: nat, i: nat)
      requires black.Ok() && q == Request(q.blk) && start == FlIndex(q.Need()) && 0 < q.blk.sz && N_HBLK_FLS < i
      requires Tiles(Layout()) && NoAdjacentFree(Layout()) && HopelessLists(q, Layout(), start, i)
      ensures forall place: nat | FreeRunAt(Layout(), place, q.Need()) ::
        q.Counts() && !q.Clear(place)
    {
      hide Tiles, NoAdjacentFree, FlIndex, HopelessLists, FreeRunAt, Blocks;
      PositiveBlocks(q.blk.sz);
      forall place: nat | FreeRunAt(Layout(), place, q.Need())
        ensures q.Counts() && !q.Clear(place)
      {
        EarlierLists(q, Layout(), start, i);
        AllDone(q, Layout(), place);
      }
    }

    /** Allocation moves heap blocks from free to used, so the heap as a whole stays as it was. */
    lemma StillValid(m: Layout, taken: set<nat>)
      requires Consistent() && Tiles(m) && Grew(m, Layout(), taken)
      requires heapSize == HBLKSIZE * (|Region(m, true)| + |Region(m, false)|) && Bounded(m, leastHa, greatestHa)
      ensures Valid()
    {
      hide Bounded, Region, Grew, Tiles, NoAdjacentFree, PlacedBut, ListsOk;
      GrewSameHeap(m, Layout(), taken);
      SameHeap(m, Layout(), leastHa, greatestHa);
    }

    lemma ConsistentNow()
      requires Consistent()
      ensures LayoutOk(Layout(), lists) && Tiles(Layout()) && |lists| == |freeBytes| == N_HBLK_FLS + 1
    {
    }
  }

  /** The first list on which bigger blocks are looked for, after the exact search of list start. */
  function FirstBigger(start: nat): nat {
    if start < UNIQUE_THRESHOLD then start + 1 else start
  }

  /** r is what the code chooses when nothing is black listed: the first block of exactly the right size or, without
      one, the first that is tried on the first list with a block that is big enough. */
  ghost predicate IsChoice(q: Search, m: Layout, ls: seq<seq<nat>>, r: nat) {
    var start, needed := FlIndex(q.Need()), HBLKSIZE * q.Need();
    && |ls| == N_HBLK_FLS + 1
    && if SomeSuitable(m, ls[start], needed, false) then q.(maySplit := false).FirstTried(m, ls[start], r)
       else exists i :: FirstBigger(start) <= i < |ls| && IsBigger(q, m, ls, FirstBigger(start), i, r)
  }

  ghost predicate IsBigger(q: Search, m: Layout, ls: seq<seq<nat>>, first: nat, i: nat, r: nat) {
    i < |ls| && NoneOn(m, ls, first, i, HBLKSIZE * q.Need()) && q.FirstTried(m, ls[i], r)
  }

  lemma ChoseBigger(q: Search, m: Layout, ls: seq<seq<nat>>, i: nat, r: nat)
    requires |ls| == N_HBLK_FLS + 1 && FirstBigger(FlIndex(q.Need())) <= i
    requires IsBigger(q, m, ls, FirstBigger(FlIndex(q.Need())), i, r)
    requires !SomeSuitable(m, ls[FlIndex(q.Need())], HBLKSIZE * q.Need(), false)
    ensures IsChoice(q, m, ls, r)
  {
  }

  lemma ChoseExact(q: Search, m: Layout, ls: seq<seq<nat>>, r: nat)
    requires |ls| == N_HBLK_FLS + 1 && SomeSuitable(m, ls[FlIndex(q.Need())], HBLKSIZE * q.Need(), false)
    requires q.(maySplit := false).FirstTried(m, ls[FlIndex(q.Need())], r)
    ensures IsChoice(q, m, ls, r)
  {
  }

  /** All free blocks that belong on the lists from start up to i are hopeless. */
  ghost predicate HopelessLists(q: Search, m: Layout, start: nat, i: nat) {
    forall h | h in m && m[h].free && start <= FlIndex(Blocks(m[h].sz)) < i :: q.Hopeless(m, h)
  }

  /** On a list for one size the exact search has seen all that would do. */
  lemma ExactDone(q: Search, m: Layout, ls: seq<seq<nat>>)
    requires LayoutOk(m, ls) && q.maySplit
    requires var start := FlIndex(q.Need()); q.(maySplit := false).HopelessTo(m, ls[start], |ls[start]|)
    ensures HopelessLists(q, m, FlIndex(q.Need()), FirstBigger(FlIndex(q.Need())))
  {
    hide Search.NoRoom, NoAdjacentFree;
    var start, exact := FlIndex(q.Need()), q.(maySplit := false);
    forall h | h in m && m[h].free && FlIndex(Blocks(m[h].sz)) == start < UNIQUE_THRESHOLD ensures q.Hopeless(m, h) {
      if q.Suits(m[h].sz) {
        q.SuitsBlocks(m[h].sz);
        FlIndexOrder(q.Need(), Blocks(m[h].sz));
        var j :| 0 <= j < |ls[start]| && ls[start][j] == h;
        assert exact.Hopeless(m, ls[start][j]);
        exact.SameRoom(true, h, m[h].sz);
      }
    }
  }

  lemma MoreDone(q: Search, m: Layout, m': Layout, ls: seq<seq<nat>>, start: nat, i: nat)
    requires HopelessLists(q, m, start, i) && FewerFree(m, m') && PlacedBut(m', ls, {}) && i < |ls|
    requires q.HopelessTo(m', ls[i], |ls[i]|)
    ensures HopelessLists(q, m', start, i + 1)
  {
  }

  lemma EarlierLists(q: Search, m: Layout, start: nat, i: nat)
    requires HopelessLists(q, m, start, i) && N_HBLK_FLS < i
    ensures HopelessLists(q, m, start, N_HBLK_FLS + 1)
  {
  }

  /** With all lists searched, every place with enough free heap blocks is black listed. */
  lemma AllDone(q: Search, m: Layout, place: nat)
    requires Tiles(m) && NoAdjacentFree(m) && q.maySplit && 0 < q.Need()
    requires HopelessLists(q, m, FlIndex(q.Need()), N_HBLK_FLS + 1) && FreeRunAt(m, place, q.Need())
    ensures q.Counts() && !q.Clear(place)
  {
    hide Blocks, FlIndex, NoAdjacentFree, Region;
    FreeRun(m, place, q.Need());
    var h :| h in m && m[h].free && h <= place && place + q.Need() <= End(m, h);
    FlIndexOrder(q.Need(), Blocks(m[h].sz));
    WholeFreeBlock(m, h);
    assert q.Suits(m[h].sz);
    assert q.Hopeless(m, h);
  }

  lemma WholeFreeBlock(m: Layout, h: nat)
    requires Tiles(m) && h in m && m[h].free
    ensures m[h].sz == HBLKSIZE * Blocks(m[h].sz)
  {
  }

  /** No list from first up to i has a block of needed bytes or more. */
  ghost predicate NoneOn(m: Layout, ls: seq<seq<nat>>, first: nat, i: nat, needed: nat) {
    forall j | first <= j < i && j < |ls| :: !SomeSuitable(m, ls[j], needed, true)
  }

  lemma NoneYet(m: Layout, ls: seq<seq<nat>>, first: nat, needed: nat)
    ensures NoneOn(m, ls, first, first, needed)
  {
  }

  lemma NoneUpTo(m: Layout, ls: seq<seq<nat>>, first: nat, i: nat, needed: nat)
    requires NoneOn(m, ls, first, i, needed) && i < |ls| && !SomeSuitable(m, ls[i], needed, true)
    ensures NoneOn(m, ls, first, i + 1, needed)
  {
  }

  /** What is left for the limit to decide: the bigger blocks. */
  lemma OneAcceptable(m: Layout, ls: seq<seq<nat>>, i: nat, needed: nat, maySplit: bool, limit: nat)
    requires LayoutOk(m, ls) && i < |ls| && SomeSuitable(m, ls[i], needed, maySplit) && (maySplit ==> i <= limit)
    ensures exists h :: Acceptable(m, h, needed, limit)
  {
    hide Blocks, FlIndex, Tiles, NoAdjacentFree;
    var j :| 0 <= j < |ls[i]| && ls[i][j] in m && Suitable(m[ls[i][j]].sz, needed, maySplit);
    assert ls[i][j] in ls[i];
    assert Acceptable(m, ls[i][j], needed, limit);
  }

  /** Binning by size hides nothing from the search: every acceptable block is on a list that was searched. */
  lemma NoneAcceptable(m: Layout, ls: seq<seq<nat>>, first: nat, i: nat, blocks: nat, limit: nat)
    requires LayoutOk(m, ls) && !SomeSuitable(m, ls[FlIndex(blocks)], HBLKSIZE * blocks, false)
    requires first == if FlIndex(blocks) < UNIQUE_THRESHOLD then FlIndex(blocks) + 1 else FlIndex(blocks)
    requires NoneOn(m, ls, first, i, HBLKSIZE * blocks) && limit < i
    ensures !exists h :: Acceptable(m, h, HBLKSIZE * blocks, limit)
  {
  }

  ghost predicate FreeRunAt(m: Layout, r: nat, n: nat) {
    Interval(r, n) <= Region(m, true)
  }

  /** When any block may be split, an acceptable block is there exactly when somewhere in the heap enough
      consecutive heap blocks are free. */
  lemma RoomIsAcceptable(m: Layout, need: nat)
    requires Tiles(m) && NoAdjacentFree(m) && 0 < need
    ensures (exists h :: Acceptable(m, h, HBLKSIZE * need, N_HBLK_FLS)) <==> exists r: nat :: FreeRunAt(m, r, need)
  {
    hide Region, Acceptable, FreeRunAt, Tiles, NoAdjacentFree, Blocks;
    if r: nat :| FreeRunAt(m, r, need) {
      var h := RunIsIn(m, r, need);
      assert Acceptable(m, h, HBLKSIZE * need, N_HBLK_FLS);
    }
    if h :| Acceptable(m, h, HBLKSIZE * need, N_HBLK_FLS) {
      AcceptableRun(m, h, need);
    }
  }

  lemma RunIsIn(m: Layout, r: nat, need: nat) returns (h: nat)
    requires Tiles(m) && NoAdjacentFree(m) && 0 < need && FreeRunAt(m, r, need)
    ensures Acceptable(m, h, HBLKSIZE * need, N_HBLK_FLS)
  {
    hide Region, FlIndex, NoAdjacentFree, Interval;
    FreeRun(m, r, need);
    h :| h in m && m[h].free && h <= r && r + need <= End(m, h);
  }

  lemma AcceptableRun(m: Layout, h: nat, need: nat)
    requires Tiles(m) && Acceptable(m, h, HBLKSIZE * need, N_HBLK_FLS)
    ensures FreeRunAt(m, h, need)
  {
    hide Region, FlIndex;
    RegionMember(m, true);
    assert h + need <= End(m, h);
    forall x: nat | x in Interval(h, need) ensures x in Region(m, true) {
      assert Owns(m, true, h, x);
    }
  }

  lemma {:induction false} SumZeros(s: seq<nat>)
    requires forall i | 0 <= i < |s| :: s[i] == 0
    ensures Sum(s) == 0
    decreases |s|
  {
    if s != [] {
      SumZeros(s[1..]);
    }
  }

  lemma GrewSameHeap(m: Layout, m': Layout, taken: set<nat>)
    requires Grew(m, m', taken)
    ensures Region(m', true) + Region(m', false) == Region(m, true) + Region(m, false)
  {
  }
}
