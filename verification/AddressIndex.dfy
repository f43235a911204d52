/** The two-level map from heap blocks to headers, with forwarding counts inside large objects.
    Addresses are heap block numbers, except in Base, where they are bytes. */
module AddressIndex {
  import opened Collections
  import opened Units
  import opened HeapLayout
  import M = MarkModel

  const BOTTOM_SZ: nat := 1024
  const MAX_JUMP: nat := HBLKSIZE - 1

  /** An entry of a bottom index. Forward(k): the block starts k heap blocks lower, or further. */
  datatype Entry = Nil | Forward(k: nat) | Header

  function Jump(i: nat): nat {
    if i > MAX_JUMP then MAX_JUMP else i
  }

  /** Heap block x lies within the used block b, past its first heap block. */
  predicate Inside(m: Layout, b: nat, x: nat) {
    b in m && !m[b].free && b < x < End(m, b)
  }

  /** What the index must say about heap block x. */
  ghost predicate Describes(m: Layout, x: nat, e: Entry) {
    match e
    case Header => x in m
    case Forward(k) => exists b: nat :: Inside(m, b, x) && k == Jump(x - b)
    case Nil => x !in m && forall b: nat :: !Inside(m, b, x)
  }

  /** There is only one right answer. */
  lemma OneDescription(m: Layout, x: nat, e: Entry, e': Entry)
    requires Tiles(m) && Describes(m, x, e) && Describes(m, x, e')
    ensures e == e'
  {
  }

  function Key(keys: seq<nat>, i: int): Option<nat> {
    if 0 <= i < |keys| then Some(keys[i]) else None
  }

  ghost predicate Ascending(keys: seq<nat>) {
    forall i, j | 0 <= i < j < |keys| :: keys[i] < keys[j]
  }

  /** Each key leads to the one d places after it. */
  ghost predicate Links(keys: seq<nat>, link: map<nat, Option<nat>>, d: int) {
    && (forall i | 0 <= i < |keys| :: keys[i] in link)
    && (forall i {:trigger link[keys[i]]} | 0 <= i < |keys| :: link[keys[i]] == Key(keys, i + d))
  }

  /** The bottom indices, which have the given keys, are doubly linked in that order. */
  ghost predicate Linked(keys: seq<nat>, asc: map<nat, Option<nat>>, desc: map<nat, Option<nat>>,
                         first: Option<nat>, last: Option<nat>) {
    && Ascending(keys) && first == Key(keys, 0) && last == Key(keys, |keys| - 1)
    && Links(keys, asc, 1) && Links(keys, desc, -1)
  }

  function Inserted(keys: seq<nat>, i: nat, hi: nat): seq<nat>
    requires i <= |keys|
  {
    keys[..i] + [hi] + keys[i..]
  }

  /** hi belongs at position i. */
  ghost predicate Between(keys: seq<nat>, i: nat, hi: nat) {
    Ascending(keys) && i <= |keys| && (forall k | 0 <= k < i :: keys[k] < hi) && (i < |keys| ==> hi < keys[i])
  }

  lemma InsertedAt(keys: seq<nat>, i: nat, hi: nat, k: nat)
    requires Between(keys, i, hi) && k <= |keys|
    ensures |Inserted(keys, i, hi)| == |keys| + 1
    ensures Inserted(keys, i, hi)[k] == if k < i then keys[k] else if k == i then hi else keys[k - 1]
    ensures k < i ==> keys[k] < hi
    ensures k < i - 1 ==> keys[k] < keys[i - 1]
    ensures k > i ==> hi < keys[k - 1] && keys[i] <= keys[k - 1] && (k > i + 1 ==> keys[i] < keys[k - 1])
  {
  }

  lemma InsertedAscends(keys: seq<nat>, i: nat, hi: nat)
    requires Between(keys, i, hi)
    ensures Ascending(Inserted(keys, i, hi)) && hi !in keys
    ensures forall k :: k in Inserted(keys, i, hi) <==> k in keys || k == hi
  {
  }

  lemma InsertAsc(keys: seq<nat>, asc: map<nat, Option<nat>>, i: nat, hi: nat)
    requires i <= |keys| && Between(keys, i, hi) && Links(keys, asc, 1)
    ensures var pi, asc1 := Key(keys, i - 1), asc[hi := Key(keys, i)];
      Links(Inserted(keys, i, hi), if pi.Some? then asc1[pi.value := Some(hi)] else asc1, 1)
  {
  }

  lemma InsertDesc(keys: seq<nat>, desc: map<nat, Option<nat>>, i: nat, hi: nat)
    requires i <= |keys| && Between(keys, i, hi) && Links(keys, desc, -1)
    ensures var p, desc1 := Key(keys, i), desc[hi := Key(keys, i - 1)];
      Links(Inserted(keys, i, hi), if p.Some? then desc1[p.value := Some(hi)] else desc1, -1)
  {
  }

  function AscAfter(keys: seq<nat>, asc: map<nat, Option<nat>>, i: nat, hi: nat): map<nat, Option<nat>> {
    var pi, asc1 := Key(keys, i - 1), asc[hi := Key(keys, i)];
    if pi.Some? then asc1[pi.value := Some(hi)] else asc1
  }

  function DescAfter(keys: seq<nat>, desc: map<nat, Option<nat>>, i: nat, hi: nat): map<nat, Option<nat>> {
    var p, desc1 := Key(keys, i), desc[hi := Key(keys, i - 1)];
    if p.Some? then desc1[p.value := Some(hi)] else desc1
  }

  lemma InsertLinked(keys: seq<nat>, asc: map<nat, Option<nat>>, desc: map<nat, Option<nat>>,
                     first: Option<nat>, last: Option<nat>, i: nat, hi: nat)
    requires i <= |keys| && Linked(keys, asc, desc, first, last) && Between(keys, i, hi)
    ensures Linked(Inserted(keys, i, hi), AscAfter(keys, asc, i, hi), DescAfter(keys, desc, i, hi),
                   if Key(keys, i - 1).Some? then first else Some(hi), if Key(keys, i).Some? then last else Some(hi))
  {
    hide Inserted, Links;
    InsertAsc(keys, asc, i, hi);
    InsertDesc(keys, desc, i, hi);
    InsertedAt(keys, i, hi, 0);
    InsertedAt(keys, i, hi, |keys|);
    InsertedAscends(keys, i, hi);
  }

  function Hi(h: nat): nat {
    h / BOTTOM_SZ
  }

  function Lo(h: nat): (lo: nat)
    ensures lo < BOTTOM_SZ
  {
    h % BOTTOM_SZ
  }

  lemma OneAddress(x: nat, y: nat)
    ensures Hi(x) == Hi(y) && Lo(x) == Lo(y) ==> x == y
  {
  }

  lemma NextStride(x: nat)
    ensures forall y: nat | x <= y < x + BOTTOM_SZ :: Hi(y) == Hi(x) || Hi(y) == Hi(x + BOTTOM_SZ)
  {
  }

  lemma Strides(last: nat, x: nat)
    requires last < x
    ensures forall y: nat | y <= last && Hi(y) == Hi(x) :: Hi(y) == Hi(last)
  {
  }

  class Index {
    var top: map<nat, seq<Entry>>          // bottom indices by the high-order part of the address
    var asc: map<nat, Option<nat>>
    var desc: map<nat, Option<nat>>
    var first: Option<nat>                 // GC_all_bottom_indices
    var last: Option<nat>                  // GC_all_bottom_indices_end
    ghost var keys: seq<nat>

    ghost predicate Valid()
      reads this
    {
      && Linked(keys, asc, desc, first, last)
      && (forall k :: k in top <==> k in keys)
      && (forall k | k in top :: |top[k]| == BOTTOM_SZ)
    }

    /** HDR: the entry for heap block h; where there is no bottom index, GC_all_nils answers. */
    function At(h: nat): Entry
      reads this
      requires forall k | k in top :: |top[k]| == BOTTOM_SZ
    {
      if Hi(h) in top then top[Hi(h)][Lo(h)] else Nil
    }

    ghost predicate Agrees(m: Layout)
      requires Valid()
      reads this
    {
      Tiles(m) && forall h: nat :: Describes(m, h, At(h))
    }

    // ----- Updates -----

    constructor ()
      ensures Valid() && Agrees(map[])
    {
      top, asc, desc, first, last, keys := map[], map[], map[], None, None, [];
    }

    /** get_index. */
    method GetIndex(hi: nat)
      requires Valid()
      modifies this
      ensures Valid() && top.Keys == old(top.Keys) + {hi} && forall h: nat :: At(h) == old(At(h))
    {
      hide Hi, Lo, Linked, Ascending, Between;
      if hi in top {
        return;
      }
      ghost var i := 0;
      Ends();
      var pi, p := None, first;
      while p.Some? && p.value < hi
        invariant unchanged(this) && i <= |keys| && pi == Key(keys, i - 1) && p == Key(keys, i)
        invariant forall k | 0 <= k < i :: keys[k] < hi
        decreases |keys| - i
      {
        AscIs(i);
        pi, p := p, asc[p.value];
        i := i + 1;
      }
      Neighbours(i, hi);
      LinkIn(hi, pi, p, i);
      top := top[hi := seq(BOTTOM_SZ, _ => Nil)];
    }

    lemma Neighbours(i: nat, hi: nat)
      requires Valid() && hi !in top && i <= |keys| && (forall k | 0 <= k < i :: keys[k] < hi)
      requires Key(keys, i).Some? ==> hi <= Key(keys, i).value
      ensures Between(keys, i, hi)
    {
      hide Links;
      assert i < |keys| ==> keys[i] in keys;
    }

    /** The end of get_index: put hi between pi and p in the list of bottom indices. */
    method LinkIn(hi: nat, pi: Option<nat>, p: Option<nat>, ghost i: nat)
      requires i <= |keys| && Linked(keys, asc, desc, first, last) && Between(keys, i, hi) && pi == Key(keys, i - 1)
      requires p == Key(keys, i)
      modifies this`asc, this`desc, this`first, this`last, this`keys
      ensures Linked(keys, asc, desc, first, last) && forall k :: k in keys <==> k in old(keys) || k == hi
    {
      hide Linked, Links, Inserted, Between;
      InsertLinked(keys, asc, desc, first, last, i, hi);
      InsertedAscends(keys, i, hi);
      desc := desc[hi := pi];
      if p.None? {
        last := Some(hi);
      } else {
        desc := desc[p.value := Some(hi)];
      }
      asc := asc[hi := p];
      if pi.None? {
        first := Some(hi);
      } else {
        asc := asc[pi.value := Some(hi)];
      }
      keys := Inserted(keys, i, hi);
    }

    lemma Ends()
      requires Valid()
      ensures Ascending(keys) && first == Key(keys, 0) && last == Key(keys, |keys| - 1)
    {
    }

    lemma AscIs(i: nat)
      requires Valid() && i < |keys|
      ensures keys[i] in asc && asc[keys[i]] == Key(keys, i + 1) && keys[i] in desc && desc[keys[i]] == Key(keys, i - 1)
      ensures keys[i] in keys && keys[i] in top
    {
    }

    /** SET_HDR. Where there is no bottom index only nil may be written, which changes nothing. */
    method Set(h: nat, e: Entry)
      requires Valid() && (e != Nil ==> Hi(h) in top)
      modifies this`top
      ensures Valid() && top.Keys == old(top.Keys) && forall x: nat :: At(x) == if x == h then e else old(At(x))
    {
      hide Hi, Lo, Linked;
      var hi, lo := Hi(h), Lo(h);
      if hi in top {
        top := top[hi := top[hi][lo := e]];
        forall x: nat ensures At(x) == if x == h then e else old(At(x)) {
          OneAddress(x, h);
        }
      }
    }

    /** GC_install_header. */
    method InstallHeader(h: nat)
      requires Valid()
      modifies this
      ensures Valid() && forall x: nat :: At(x) == if x == h then Header else old(At(x))
    {
      hide Hi, Linked;
      GetIndex(Hi(h));
      Set(h, Header);
    }

    /** GC_remove_header. */
    method RemoveHeader(h: nat)
      requires Valid()
      modifies this`top
      ensures Valid() && forall x: nat :: At(x) == if x == h then Nil else old(At(x))
    {
      Set(h, Nil);
    }

    /** GC_install_counts, for n heap blocks. */
    method InstallCounts(h: nat, n: nat)
      requires Valid() && 0 < n
      modifies this
      ensures Valid() && forall x: nat :: At(x) == if h < x < h + n then Forward(Jump(x - h)) else old(At(x))
    {
      hide Hi, Linked, At;
      var hbp := h;
      while hbp < h + n
        invariant h <= hbp && (hbp - h) % BOTTOM_SZ == 0
        invariant Valid() && forall x: nat :: At(x) == old(At(x))
        invariant forall x: nat | h <= x < hbp && x < h + n :: Hi(x) in top || Hi(x) == Hi(hbp)
      {
        GetIndex(Hi(hbp));
        NextStride(hbp);
        hbp := hbp + BOTTOM_SZ;
      }
      GetIndex(Hi(h + n - 1));
      Strides(h + n - 1, hbp);
      var i := 1;
      while i < n
        invariant 1 <= i <= n && Valid()
        invariant forall x: nat | h <= x < h + n :: Hi(x) in top
        invariant forall x: nat :: At(x) == if h < x < h + i then Forward(Jump(x - h)) else old(At(x))
      {
        Set(h + i, Forward(if i > MAX_JUMP then MAX_JUMP else i));
        i := i + 1;
      }
    }

    /** GC_remove_counts. */
    method RemoveCounts(h: nat, n: nat)
      requires Valid()
      modifies this`top
      ensures Valid() && forall x: nat :: At(x) == if h < x < h + n then Nil else old(At(x))
    {
      var i := 1;
      while i < n
        invariant 1 <= i && (i <= n || i == 1) && Valid()
        invariant forall x: nat :: At(x) == if h < x < h + i then Nil else old(At(x))
      {
        Set(h + i, Nil);
        i := i + 1;
      }
    }

    // ----- Queries. The layout m stands for what the headers say. -----

    /** Block starts, and only they, have headers. */
    lemma Starts(m: Layout, x: nat)
      requires Valid() && Agrees(m)
      ensures Tiles(m) && (x in m <==> At(x) == Header)
      ensures x in m ==> Hi(x) in top && Hi(x) in keys
    {
    }

    lemma Inner(m: Layout, x: nat)
      requires Valid() && Agrees(m) && At(x).Forward?
      ensures exists b: nat :: Inside(m, b, x) && At(x).k == Jump(x - b)
    {
    }

    lemma KeyAt(i: nat)
      requires Valid() && i < |keys|
      ensures keys[i] in top && |top[keys[i]]| == BOTTOM_SZ
      ensures keys[i] in asc && asc[keys[i]] == Key(keys, i + 1) && keys[i] in desc && desc[keys[i]] == Key(keys, i - 1)
      ensures forall j: nat | j < BOTTOM_SZ :: At(Address(keys[i], j)) == top[keys[i]][j]
    {
      hide Linked, Hi, Lo;
      AscIs(i);
      forall j: nat | j < BOTTOM_SZ ensures At(Address(keys[i], j)) == top[keys[i]][j] {
        AddressParts(keys[i], j);
      }
    }

    /** Between neighbouring bottom indices no block starts. */
    lemma Gap(m: Layout, i: nat, b: nat)
      requires Valid() && Agrees(m) && i <= |keys| && b in m
      ensures 0 < i && Address(keys[i - 1], BOTTOM_SZ) <= b ==> i < |keys| && Address(keys[i], 0) <= b
      ensures i < |keys| && b < Address(keys[i], 0) ==> 0 < i && b < Address(keys[i - 1], BOTTOM_SZ)
      ensures i == 0 ==> i < |keys| && Address(keys[i], 0) <= b
    {
      hide Links, Agrees, Blocks;
      Starts(m, b);
      var k :| 0 <= k < |keys| && keys[k] == Hi(b);
    }

    /** Where the upward search from h starts: h's own entry, or the first entry after it that there is. */
    method SeekUp(m: Layout, h: nat) returns (bi: Option<nat>, j: nat, ghost i: nat)
      requires Valid() && Agrees(m)
      ensures i <= |keys| && bi == Key(keys, i) && j < BOTTOM_SZ
      ensures i < |keys| ==> Hi(h) <= keys[i] && h <= Address(keys[i], j)
      ensures if i < |keys| then NoneBefore(m, h, Address(keys[i], j)) else NoneFrom(m, h)
    {
      hide Linked, Hi, Lo, Blocks, At, Describes, Used, NoneBefore, NoneFrom, Agrees;
      var hi := Hi(h);
      bi, j, i := Some(hi), Lo(h), 0;
      if hi !in top {
        bi := first;
        Ends();
        while bi.Some? && bi.value < hi
          invariant i <= |keys| && bi == Key(keys, i) && forall k | 0 <= k < i :: keys[k] < hi
          decreases |keys| - i
        {
          KeyAt(i);
          bi := asc[bi.value];
          i := i + 1;
        }
        j := 0;
        SkippedKeys(m, h, i);
      } else {
        i :| 0 <= i < |keys| && keys[i] == hi;
        AddressOf(h);
        NothingYet(m, h);
      }
    }

    /** GC_next_used_block. */
    method NextUsedBlock(m: Layout, h: nat) returns (r: nat)
      requires Valid() && Agrees(m)
      ensures r != 0 ==> Used(m, r) && h <= r && forall b: nat | Used(m, b) && h <= b :: r <= b
      ensures r == 0 ==> NoneFrom(m, h)
    {
      hide Linked, Hi, Lo, Blocks, At, Describes, Used, NoneBefore, NoneFrom, Agrees;
      var bi: Option<nat>, j: nat, i: nat := SeekUp(m, h);
      while bi.Some?
        invariant i <= |keys| && bi == Key(keys, i) && j < BOTTOM_SZ
        invariant i < |keys| ==> Hi(h) <= keys[i] && h <= Address(keys[i], j)
        invariant if i < |keys| then NoneBefore(m, h, Address(keys[i], j)) else NoneFrom(m, h)
        decreases |keys| - i
      {
        KeyAt(i);
        while j < BOTTOM_SZ
          invariant h <= Address(keys[i], j) && NoneBefore(m, h, Address(keys[i], j))
        {
          var x := Address(bi.value, j);
          Starts(m, x);
          match top[bi.value][j]
          case Header =>
            if !m[x].free {
              FirstUsed(m, h, x);
              return x;
            }
            PastFree(m, h, x);
            j := j + m[x].sz / HBLKSIZE;
          case _ =>
            PastOther(m, h, x);
            j := j + 1;
        }
        PastBottom(m, h, i, j);
        j := 0;
        bi := asc[bi.value];
        i := i + 1;
      }
      r := 0;
    }

    lemma SkippedKeys(m: Layout, h: nat, i: nat)
      requires Valid() && Agrees(m) && i <= |keys| && Hi(h) !in top
      requires (forall k | 0 <= k < i :: keys[k] < Hi(h)) && (i < |keys| ==> Hi(h) <= keys[i])
      ensures if i < |keys| then h <= Address(keys[i], 0) && NoneBefore(m, h, Address(keys[i], 0)) else NoneFrom(m, h)
    {
      hide Links, Blocks, Agrees;
      forall b: nat | Used(m, b) && h <= b ensures i < |keys| && Address(keys[i], 0) <= b {
        Starts(m, b);
        var k :| 0 <= k < |keys| && keys[k] == Hi(b);
        assert Hi(h) <= Hi(b);
        assert i <= k;
      }
    }

    lemma PastBottom(m: Layout, h: nat, i: nat, j: nat)
      requires Valid() && Agrees(m) && i < |keys| && BOTTOM_SZ <= j && NoneBefore(m, h, Address(keys[i], j))
      requires Hi(h) <= keys[i]
      ensures i + 1 < |keys| ==> Hi(h) <= keys[i + 1] && h <= Address(keys[i + 1], 0)
      ensures if i + 1 < |keys| then NoneBefore(m, h, Address(keys[i + 1], 0)) else NoneFrom(m, h)
    {
      hide Links, Blocks, Agrees;
      assert i + 1 < |keys| ==> keys[i] < keys[i + 1];
      forall b: nat | Used(m, b) && h <= b ensures i + 1 < |keys| && Address(keys[i + 1], 0) <= b {
        assert Address(keys[i], BOTTOM_SZ) <= b;
        Gap(m, i + 1, b);
      }
    }

    lemma SkippedKeysDown(m: Layout, h: nat, i: int)
      requires Valid() && Agrees(m) && -1 <= i < |keys| && Hi(h) !in top
      requires (forall k | i < k < |keys| :: Hi(h) < keys[k]) && (0 <= i ==> keys[i] <= Hi(h))
      ensures if 0 <= i then Address(keys[i], BOTTOM_SZ) <= h && NoneAfter(m, h, Address(keys[i], BOTTOM_SZ) - 1)
        else NoneUpTo(m, h)
    {
      hide Links, Blocks, Agrees;
      assert 0 <= i ==> keys[i] in keys;
      forall b: nat | b in m && b <= h ensures 0 <= i && b < Address(keys[i], BOTTOM_SZ) {
        Starts(m, b);
        var k :| 0 <= k < |keys| && keys[k] == Hi(b);
        assert Hi(b) <= Hi(h);
        assert k <= i;
      }
    }

    lemma PastBottomDown(m: Layout, h: nat, i: nat, j: int)
      requires Valid() && Agrees(m) && i < |keys| && j < 0 && NoneAfter(m, h, Address(keys[i], 0) + j)
      requires keys[i] <= Hi(h)
      ensures 0 < i ==> keys[i - 1] <= Hi(h) && Address(keys[i - 1], BOTTOM_SZ) <= h
      ensures if 0 < i then NoneAfter(m, h, Address(keys[i - 1], BOTTOM_SZ) - 1) else NoneUpTo(m, h)
    {
      hide Links, Blocks, Agrees;
      assert 0 < i ==> keys[i - 1] < keys[i];
      forall b: nat | b in m && b <= h ensures 0 < i && b < Address(keys[i - 1], BOTTOM_SZ) {
        assert b < Address(keys[i], 0);
        Gap(m, i, b);
      }
    }

    /** Where the downward search from h starts. */
    method SeekDown(m: Layout, h: nat) returns (bi: Option<nat>, j: int, ghost i: int)
      requires Valid() && Agrees(m)
      ensures -1 <= i < |keys| && bi == Key(keys, i) && 0 <= j < BOTTOM_SZ
      ensures if 0 <= i then keys[i] <= Hi(h) && Address(keys[i], 0) + j <= h &&
          NoneAfter(m, h, Address(keys[i], 0) + j) else NoneUpTo(m, h)
    {
      hide Linked, Hi, Lo, Blocks, At, Describes, NoneAfter, NoneUpTo, Agrees;
      var hi := Hi(h);
      bi, j := Some(hi), Lo(h);
      if hi !in top {
        bi := last;
        i := |keys| - 1;
        Ends();
        while bi.Some? && bi.value > hi
          invariant -1 <= i < |keys| && bi == Key(keys, i) && forall k | i < k < |keys| :: hi < keys[k]
          decreases i
        {
          KeyAt(i);
          bi := desc[bi.value];
          i := i - 1;
        }
        j := BOTTOM_SZ - 1;
        SkippedKeysDown(m, h, i);
      } else {
        i :| 0 <= i < |keys| && keys[i] == hi;
        AddressOf(h);
        NothingAbove(m, h);
      }
    }

    /** GC_prev_block: the last block, free or used, that starts at h or before. */
    method PrevBlock(m: Layout, h: nat) returns (r: nat)
      requires Valid() && Agrees(m)
      ensures r != 0 ==> r in m && r <= h && forall b: nat | b in m && b <= h :: b <= r
      ensures r == 0 ==> NoneUpTo(m, h)
    {
      hide Linked, Hi, Lo, Blocks, At, Describes, NoneAfter, NoneUpTo, Agrees, Inside;
      var bi, j, i := SeekDown(m, h);
      while bi.Some?
        invariant -1 <= i < |keys| && bi == Key(keys, i) && 0 <= j < BOTTOM_SZ
        invariant if 0 <= i then keys[i] <= Hi(h) && Address(keys[i], 0) + j <= h &&
            NoneAfter(m, h, Address(keys[i], 0) + j) else NoneUpTo(m, h)
        decreases i
      {
        KeyAt(i);
        while j >= 0
          invariant j < BOTTOM_SZ && Address(keys[i], 0) + j <= h && NoneAfter(m, h, Address(keys[i], 0) + j)
        {
          var x := Address(bi.value, j);
          Starts(m, x);
          match top[bi.value][j]
          case Nil =>
            BelowOther(m, h, x);
            j := j - 1;
          case Forward(k) =>
            Inner(m, x);
            BelowInner(m, h, x, k);
            j := j - k;
          case Header =>
            LastBlock(m, h, x);
            return x;
        }
        PastBottomDown(m, h, i, j);
        j := BOTTOM_SZ - 1;
        bi := desc[bi.value];
        i := i - 1;
      }
      r := 0;
    }

    /** GC_apply_to_all_blocks: the blocks the function is applied to, in order. */
    method ApplyToAllBlocks(m: Layout) returns (visited: seq<nat>)
      requires Valid() && Agrees(m)
      ensures forall b: nat :: b in visited <==> Used(m, b)
      ensures forall i, j | 0 <= i < j < |visited| :: visited[i] != visited[j]
    {
      hide Linked, Hi, Lo, Blocks, At, Describes, Agrees, Inside, Seen, NoDup, Used;
      Ends();
      var p := first;
      visited := [];
      ghost var i: nat := 0;
      NoneSeen(m);
      while p.Some?
        invariant i <= |keys| && p == Key(keys, i) && NoDup(visited)
        invariant if i < |keys| then Seen(m, visited, Address(keys[i], 0), 0, 0) else forall b: nat ::
          b in visited <==> Used(m, b)
        decreases |keys| - i
      {
        KeyAt(i);
        var j: int := BOTTOM_SZ - 1;
        ghost var lo, end := Address(keys[i], 0), Address(keys[i], BOTTOM_SZ);
        SeenNone(m, visited, lo, end);
        while j >= 0
          invariant j < BOTTOM_SZ && NoDup(visited) && Seen(m, visited, lo, lo + j, end)
        {
          var x := Address(p.value, j);
          Starts(m, x);
          match top[p.value][j]
          case Header =>
            if !m[x].free {
              SeenNext(m, visited, lo, x, end);
              visited := visited + [x];
            } else {
              SeenOther(m, visited, lo, x, end);
            }
            j := j - 1;
          case Nil =>
            SeenOther(m, visited, lo, x, end);
            j := j - 1;
          case Forward(k) =>
            Inner(m, x);
            SeenInner(m, visited, lo, x, k, end);
            j := j - k;
        }
        SeenBottom(m, visited, i, j);
        p := asc[p.value];
        i := i + 1;
      }
      NoDupIs(visited);
    }

    lemma NoneSeen(m: Layout)
      requires Valid() && Agrees(m)
      ensures if 0 < |keys| then Seen(m, [], Address(keys[0], 0), 0, 0) else forall b: nat :: !Used(m, b)
      ensures NoDup<nat>([])
    {
      hide Linked, Agrees, Blocks;
      forall b: nat | Used(m, b) ensures 0 < |keys| && Address(keys[0], 0) <= b {
        Gap(m, 0, b);
      }
    }

    lemma SeenBottom(m: Layout, visited: seq<nat>, i: nat, j: int)
      requires Valid() && Agrees(m) && i < |keys| && j < 0
      requires Seen(m, visited, Address(keys[i], 0), Address(keys[i], 0) + j, Address(keys[i], BOTTOM_SZ))
      ensures if i + 1 < |keys| then Seen(m, visited, Address(keys[i + 1], 0), 0, 0) else forall b: nat ::
        b in visited <==> Used(m, b)
    {
      hide Links, Agrees, Blocks;
      assert i + 1 < |keys| ==> keys[i] < keys[i + 1];
      forall b: nat | Used(m, b)
        ensures Address(keys[i], BOTTOM_SZ) <= b ==> i + 1 < |keys| && Address(keys[i + 1], 0) <= b
      {
        Gap(m, i + 1, b);
      }
    }

    /** Following the counts from a heap block of a used block leads to its start. */
    method BlockStart(m: Layout, x: nat) returns (b: nat)
      requires Valid() && Agrees(m) && At(x) != Nil
      ensures b in m && (b == x || Inside(m, b, x))
      decreases x
    {
      hide Linked, Hi, Lo, Blocks, At, Describes, Agrees, Tiles;
      Starts(m, x);
      b := x;
      ghost var start := x;
      if At(x).Forward? {
        Inner(m, x);
        start :| Inside(m, start, x);
      }
      while At(b).Forward?
        invariant start in m && (start == x || Inside(m, start, x)) && (b == start || Inside(m, start, b)) && b <= x && At(b) != Nil
        decreases b
      {
        Inner(m, b);
        Forwarded(m, start, x, b, At(b).k);
        b := b - At(b).k;
        Starts(m, b);
        NotNil(m, start, b);
      }
      Starts(m, b);
      StartIs(m, start, b);
    }

    lemma NotNil(m: Layout, start: nat, b: nat)
      requires Valid() && Agrees(m) && ((b == start && start in m) || Inside(m, start, b))
      ensures At(b) != Nil
    {
    }

    /** GC_free_block_ending_at, for the start of a block or of a section that is being added. */
    method FreeBlockEndingAt(m: Layout, h: nat) returns (p: nat)
      requires Valid() && Agrees(m) && 0 < h && Boundary(m, h)
      ensures EndsAt(m, h, p)
    {
      hide Linked, Hi, Lo, Blocks, At, Describes, Agrees, Inside, NoneUpTo, EndsAt, Tiles, Boundary;
      Starts(m, h);
      p := h - 1;
      if At(p) != Nil {
        p := BlockStart(m, p);
        EndsWithIt(m, h, p);
        return if m[p].free then p else 0;
      }
      p := PrevBlock(m, p);
      if p != 0 && m[p].free && p + m[p].sz / HBLKSIZE == h {
        PrevEnds(m, h, p);
        return;
      }
      NoPrevEnds(m, h, p);
      p := 0;
    }

    /** GC_base, for a byte address: the start of the object that contains it, or 0. */
    method Base(m: Layout, p: nat) returns (r: nat)
      requires Valid() && Agrees(m) && forall b: nat | Used(m, b) :: m[b].sz % WORD_BYTES == 0
      ensures r != 0 ==> exists b: nat :: Contains(m, b, r, p)
      ensures r == 0 ==> NoObject(m, p)
    {
      hide Linked, Hi, Lo, Blocks, At, Describes, Agrees, Inside, Contains, NoObject, Tiles;
      var h := p / HBLKSIZE;
      Starts(m, h);
      if At(h) == Nil {
        NilHasNone(m, p);
        return 0;
      }
      var b := BlockStart(m, h);
      if m[b].free {
        FreeHasNone(m, p, h, b);
        return 0;
      }
      var sz := m[b].sz;
      NotEmpty(m, b);
      var r1 := if b != h then b * HBLKSIZE else p;
      r1 := r1 - r1 % WORD_BYTES;
      var start := r1 - r1 % HBLKSIZE % sz;
      BaseIs(m, p, h, b, start);
      var limit := start + sz;
      if limit > (b + 1) * HBLKSIZE && sz <= HBLKSIZE {
        return 0;
      }
      if p >= limit {
        return 0;
      }
      r := start;
    }

    lemma NilHasNone(m: Layout, p: nat)
      requires Valid() && Agrees(m) && At(p / HBLKSIZE) == Nil
      ensures NoObject(m, p)
    {
      hide Linked, At, Contains;
      assert Describes(m, p / HBLKSIZE, Nil);
      forall b: nat, o: nat ensures !Contains(m, b, o, p) {
        if Contains(m, b, o, p) {
          ObjectWithin(m, b, o, p);
          assert false;
        }
      }
    }

    // ----- The index follows the layout -----

    /** The index operations of a successful GC_allochblk_nth, in its order. */
    method RecordAllocation(m: Layout, h: nat, p: nat, need: nat, ghost blk: Blk)
      requires Valid() && Agrees(m) && NoAdjacentFree(m) && Fits(m, h, p, need) && !blk.free && Blocks(blk.sz) == need
      modifies this
      ensures p in CutFront(m, h, p) && p + need <= End(CutFront(m, h, p), p)
      ensures Valid() && Agrees(Taken(m, h, p, need, blk))
    {
      hide Linked, Hi, Lo, Blocks, At, Describes, Tiles, NoAdjacentFree, CutFront, CutBack;
      AllocOk(m, h, p, need, blk);
      Starts(m, h);
      if p != h {
        InstallHeader(p);
      }
      if p + need != End(m, h) {
        InstallHeader(p + need);
      }
      InstallCounts(p, need);
      forall x: nat ensures Describes(Taken(m, h, p, need, blk), x, At(x)) {
        AllocEntries(m, h, p, need, blk, x, old(At(x)));
      }
    }

    /** The index operations of GC_freehblk, in its order. */
    method RecordFree(m: Layout, h: nat, prev: nat)
      requires Valid() && Agrees(m) && NoAdjacentFree(m) && h in m && !m[h].free && EndsAt(m, h, prev)
      modifies this
      ensures Valid()
      ensures Agrees(Joined(m, h, prev))
    {
      hide Linked, Hi, Lo, Blocks, At, Describes, Tiles, NoAdjacentFree, Freed, JoinNext, JoinPrev;
      FreeOk(m, h, prev);
      FreedRegion(m, h);
      RemoveCounts(h, Blocks(m[h].sz));
      forall x: nat ensures Describes(Freed(m, h), x, At(x)) {
        FreedEntries(m, h, x, old(At(x)));
      }
      FreedHas(m, h);
      RecordJoins(Freed(m, h), h, prev);
    }

    /** The index operations of GC_add_to_heap for n heap blocks at p. */
    method RecordSection(m: Layout, p: nat, n: nat, prev: nat)
      requires Valid() && Agrees(m) && 0 < p && 0 < n && NoAdjacentFree(m)
      requires Interval(p, n) !! Region(m, true) && Interval(p, n) !! Region(m, false)
      requires EndsAt(m[p := Blk(n * HBLKSIZE, false, M.PtrFree, false)], p, prev)
      modifies this
      ensures Valid()
      ensures Agrees(Joined(m[p := Blk(n * HBLKSIZE, false, M.PtrFree, false)], p, prev))
    {
      hide Linked, Hi, Lo, Blocks, At, Describes, Tiles, NoAdjacentFree, Freed, JoinNext, JoinPrev, Region, Interval;
      var blk := Blk(n * HBLKSIZE, false, M.PtrFree, false);
      WholeBlocks(n);
      NewRegion(m, p, blk);
      NotAdjacentYet(m, p, blk);
      var m1: Layout := m[p := blk];
      FreeOk(m1, p, prev);
      FreedRegion(m1, p);
      InstallHeader(p);
      RemoveCounts(p, n);
      forall x: nat ensures Describes(Freed(m1, p), x, At(x)) {
        SectionEntries(m, p, blk, x, old(At(x)));
      }
      FreedHas(m1, p);
      RecordJoins(Freed(m1, p), p, prev);
    }

    /** The index operations of dropping the free block h: a header for each of its heap blocks. */
    method RecordDrop(m: Layout, h: nat, count: nat)
      requires Valid() && Agrees(m) && h in m && m[h].free && count == Blocks(m[h].sz)
      modifies this
      ensures Valid() && Agrees(Chopped(m, h, count))
    {
      hide Linked, Hi, Lo, Blocks, At, Describes, Tiles, Chopped;
      Starts(m, h);
      NotEmpty(m, h);
      PositiveBlocks(m[h].sz);
      var i := 1;
      while i < count
        invariant Valid() && 0 < i <= count
        invariant forall x: nat :: At(x) == if h < x < h + i then Header else old(At(x))
      {
        InstallHeader(h + i);
        i := i + 1;
      }
      ChoppedTiles(m, h, count);
      forall x: nat ensures Describes(Chopped(m, h, count), x, At(x)) {
        ChoppedEntries(m, h, count, x, old(At(x)));
      }
    }

    /** Coalescing h with what follows it, then with the block prev before it. */
    method RecordJoins(m: Layout, h: nat, prev: nat)
      requires Valid() && Agrees(m) && h in m && m[h].free && Tiles(JoinNext(m, h))
      requires h in JoinNext(m, h) && JoinNext(m, h)[h].free
      requires prev != 0 ==> prev in JoinNext(m, h) && JoinNext(m, h)[prev].free && End(JoinNext(m, h), prev) == h
      modifies this
      ensures Valid() && Agrees(if prev != 0 then JoinPrev(JoinNext(m, h), h, prev) else JoinNext(m, h))
    {
      hide Linked, Hi, Lo, Blocks, At, Describes, Tiles, NoAdjacentFree, MergeAt;
      if NextIsFree(m, h) {
        RemoveHeader(End(m, h));
        forall x: nat ensures Describes(MergeAt(m, h), x, At(x)) {
          MergeEntries(m, h, x, old(At(x)));
        }
      }
      assert Agrees(JoinNext(m, h));
      if prev != 0 {
        label L:
        RemoveHeader(h);
        var m2 := JoinNext(m, h);
        forall x: nat ensures Describes(MergeAt(m2, prev), x, At(x)) {
          MergeEntries(m2, prev, x, old@L(At(x)));
        }
        MergeRegion(m2, prev);
      }
    }
  }

  predicate Used(m: Layout, b: nat) {
    b in m && !m[b].free
  }

  lemma NothingYet(m: Layout, h: nat)
    ensures NoneBefore(m, h, h)
  {
  }

  lemma FirstUsed(m: Layout, h: nat, x: nat)
    requires Tiles(m) && x in m && !m[x].free && NoneBefore(m, h, x)
    ensures Used(m, x) && x != 0 && forall b: nat | Used(m, b) && h <= b :: x <= b
  {
  }

  function Address(key: nat, j: nat): nat {
    key * BOTTOM_SZ + j
  }

  lemma AddressParts(key: nat, j: nat)
    requires j < BOTTOM_SZ
    ensures Hi(Address(key, j)) == key && Lo(Address(key, j)) == j
  {
  }

  lemma AddressOf(h: nat)
    ensures Address(Hi(h), Lo(h)) == h
  {
  }

  ghost predicate NoneFrom(m: Layout, h: nat) {
    forall b: nat | Used(m, b) :: b < h
  }

  /** No used block starts from h on and before pos. */
  ghost predicate NoneBefore(m: Layout, h: nat, pos: nat) {
    forall b: nat | Used(m, b) && h <= b :: pos <= b
  }

  lemma PastOther(m: Layout, h: nat, x: nat)
    requires NoneBefore(m, h, x) && x !in m
    ensures NoneBefore(m, h, x + 1)
  {
  }

  lemma PastFree(m: Layout, h: nat, x: nat)
    requires Tiles(m) && NoneBefore(m, h, x) && x in m && m[x].free
    ensures NoneBefore(m, h, x + m[x].sz / HBLKSIZE) && 0 < m[x].sz / HBLKSIZE
  {
  }

  ghost predicate NoneUpTo(m: Layout, h: nat) {
    forall b: nat | b in m :: h < b
  }

  /** No block starts after pos and up to h. */
  ghost predicate NoneAfter(m: Layout, h: nat, pos: int) {
    forall b: nat | b in m && b <= h :: b <= pos
  }

  lemma NothingAbove(m: Layout, h: nat)
    ensures NoneAfter(m, h, h)
  {
  }

  lemma BelowOther(m: Layout, h: nat, x: nat)
    requires NoneAfter(m, h, x) && x !in m
    ensures NoneAfter(m, h, x - 1)
  {
  }

  lemma BelowInner(m: Layout, h: nat, x: nat, k: nat)
    requires Tiles(m) && x <= h && NoneAfter(m, h, x) && exists b: nat :: Inside(m, b, x) && k == Jump(x - b)
    ensures NoneAfter(m, h, x - k) && 0 < k
  {
  }

  lemma LastBlock(m: Layout, h: nat, x: nat)
    requires Tiles(m) && x in m && x <= h && NoneAfter(m, h, x)
    ensures x != 0 && forall b: nat | b in m && b <= h :: b <= x
  {
  }

  /** What has been visited: the used blocks before lo, and those after mid and before end. */
  ghost predicate Seen(m: Layout, visited: seq<nat>, lo: nat, mid: int, end: nat) {
    forall b: nat :: b in visited <==> Used(m, b) && (b < lo || mid < b < end)
  }

  lemma NoDupIs(s: seq<nat>)
    requires NoDup(s)
    ensures forall i, j | 0 <= i < j < |s| :: s[i] != s[j]
  {
  }

  lemma SeenNone(m: Layout, visited: seq<nat>, lo: nat, end: nat)
    requires Seen(m, visited, lo, 0, 0)
    ensures Seen(m, visited, lo, end - 1, end)
  {
  }

  lemma SeenOther(m: Layout, visited: seq<nat>, lo: nat, x: nat, end: nat)
    requires Seen(m, visited, lo, x, end) && x < end && (x !in m || m[x].free)
    ensures Seen(m, visited, lo, x - 1, end)
  {
  }

  lemma SeenInner(m: Layout, visited: seq<nat>, lo: nat, x: nat, k: nat, end: nat)
    requires Tiles(m) && Seen(m, visited, lo, x, end) && x < end && exists b: nat :: Inside(m, b, x) && k == Jump(x - b)
    ensures Seen(m, visited, lo, x - k, end) && 0 < k
  {
  }

  lemma SeenNext(m: Layout, visited: seq<nat>, lo: nat, x: nat, end: nat)
    requires Seen(m, visited, lo, x, end) && lo <= x < end && x in m && !m[x].free && NoDup(visited)
    ensures Seen(m, visited + [x], lo, x - 1, end) && NoDup(visited + [x])
  {
    assert x !in visited;
  }

  lemma Forwarded(m: Layout, start: nat, x: nat, b: nat, k: nat)
    requires Tiles(m) && (start == x || Inside(m, start, x)) && start in m && (b == start || Inside(m, start, b)) && b <= x
    requires exists c: nat :: Inside(m, c, b) && k == Jump(b - c)
    ensures 0 < k <= b && start <= b - k && (b - k == start || Inside(m, start, b - k))
  {
  }

  lemma StartIs(m: Layout, start: nat, b: nat)
    requires Tiles(m) && start in m && b in m && (b == start || Inside(m, start, b))
    ensures b == start
  {
  }

  /** No block begins before h and ends after it. */
  ghost predicate Boundary(m: Layout, h: nat) {
    forall b | b in m && b < h :: End(m, b) <= h
  }

  /** Whatever block holds the heap block just before h ends there. */
  lemma EndsWithIt(m: Layout, h: nat, p: nat)
    requires Tiles(m) && Boundary(m, h) && p in m && 0 < h && (p == h - 1 || Inside(m, p, h - 1))
    ensures EndsAt(m, h, if m[p].free then p else 0)
  {
  }

  lemma PrevEnds(m: Layout, h: nat, p: nat)
    requires Tiles(m) && p in m && p != 0 && m[p].free && p + m[p].sz / HBLKSIZE == h
    ensures EndsAt(m, h, p)
  {
  }

  lemma NoPrevEnds(m: Layout, h: nat, p: nat)
    requires Tiles(m) && 0 < h && (p != 0 ==> p in m && !(m[p].free && p + m[p].sz / HBLKSIZE == h))
    requires if p == 0 then NoneUpTo(m, h - 1) else p <= h - 1 && forall b: nat | b in m && b <= h - 1 :: b <= p
    ensures EndsAt(m, h, 0)
  {
  }

  /** An object of used block b starts at byte address o: either the one large object, or one of the
      small ones that lie wholly within the heap block. */
  ghost predicate IsObject(m: Layout, b: nat, o: nat) {
    Used(m, b) && if m[b].sz > HBLKSIZE then o == b * HBLKSIZE else SmallObject(b, m[b].sz, o)
  }

  predicate SmallObject(b: nat, sz: nat, o: nat) {
    0 < sz && b * HBLKSIZE <= o && (o - b * HBLKSIZE) % sz == 0 && o + sz <= (b + 1) * HBLKSIZE
  }

  /** Byte p is in the object of block b that starts at o. */
  ghost predicate Contains(m: Layout, b: nat, o: nat, p: nat) {
    IsObject(m, b, o) && o <= p < o + m[b].sz
  }

  ghost predicate NoObject(m: Layout, p: nat) {
    forall b: nat, o: nat :: !Contains(m, b, o, p)
  }

  lemma ObjectWithin(m: Layout, b: nat, o: nat, p: nat)
    requires Tiles(m) && Contains(m, b, o, p)
    ensures Used(m, b) && (b == p / HBLKSIZE || Inside(m, b, p / HBLKSIZE))
  {
  }

  lemma NotEmpty(m: Layout, b: nat)
    requires Tiles(m) && b in m
    ensures 0 < m[b].sz && 0 < b
  {
  }

  lemma FreeHasNone(m: Layout, p: nat, h: nat, b: nat)
    requires Tiles(m) && h == p / HBLKSIZE && b in m && m[b].free && (b == h || Inside(m, b, h))
    ensures NoObject(m, p)
  {
  }

  lemma OneObject(m: Layout, b: nat, c: nat, o: nat, p: nat)
    requires Tiles(m) && Used(m, b) && (b == p / HBLKSIZE || Inside(m, b, p / HBLKSIZE)) && Contains(m, c, o, p)
    ensures c == b
  {
  }

  /** What GC_base computes once the block b of heap block h has been found. */
  function BaseAddress(p: nat, h: nat, b: nat, sz: nat): int
    requires 0 < sz
  {
    var r := if b != h then b * HBLKSIZE else p;
    var r1 := r - r % WORD_BYTES;
    r1 - r1 % HBLKSIZE % sz
  }

  lemma BaseIs(m: Layout, p: nat, h: nat, b: nat, r: int)
    requires Tiles(m) && Used(m, b) && h == p / HBLKSIZE && (b == h || Inside(m, b, h)) && 0 < m[b].sz
    requires m[b].sz % WORD_BYTES == 0 && r == BaseAddress(p, h, b, m[b].sz)
    ensures 0 < r
    ensures if (r + m[b].sz > (b + 1) * HBLKSIZE && m[b].sz <= HBLKSIZE) || p >= r + m[b].sz
      then NoObject(m, p) else Contains(m, b, r, p)
  {
    hide BaseAddress, Blocks, Inside;
    var sz := m[b].sz;
    NotEmpty(m, b);
    if sz > HBLKSIZE {
      InsideAfter(m, b, h);
      LargeBase(p, h, b, sz);
      forall c: nat, o: nat ensures Contains(m, c, o, p) ==> p < r + sz {
        if Contains(m, c, o, p) {
          OneObject(m, b, c, o, p);
        }
      }
    } else {
      SmallInside(m, b, h);
      SmallBase(p, b, sz);
      forall c: nat, o: nat ensures Contains(m, c, o, p) ==> r + sz <= (b + 1) * HBLKSIZE && p < r + sz {
        if Contains(m, c, o, p) {
          OneObject(m, b, c, o, p);
          OneSlot(o - b * HBLKSIZE, r - b * HBLKSIZE, sz);
        }
      }
    }
  }

  lemma InsideAfter(m: Layout, b: nat, h: nat)
    requires b == h || Inside(m, b, h)
    ensures b <= h
  {
  }

  lemma SmallInside(m: Layout, b: nat, h: nat)
    requires b in m && 0 < m[b].sz <= HBLKSIZE && (b == h || Inside(m, b, h))
    ensures b == h
  {
  }

  lemma LargeBase(p: nat, h: nat, b: nat, sz: nat)
    requires sz > HBLKSIZE && h == p / HBLKSIZE && b <= h
    ensures BaseAddress(p, h, b, sz) == b * HBLKSIZE
  {
    hide BaseAddress;
    var r := if b != h then b * HBLKSIZE else p;
    BlockOf(r, b);
    SmallMod((r - r % WORD_BYTES) % HBLKSIZE, sz);
    BaseAddressIs(p, h, b, sz);
  }

  lemma BaseAddressIs(p: nat, h: nat, b: nat, sz: nat)
    requires 0 < sz
    ensures var r := if b != h then b * HBLKSIZE else p;
      BaseAddress(p, h, b, sz) == r - r % WORD_BYTES - (r - r % WORD_BYTES) % HBLKSIZE % sz
  {
  }

  lemma BlockOf(r: nat, b: nat)
    requires r / HBLKSIZE == b
    ensures r - r % WORD_BYTES - (r - r % WORD_BYTES) % HBLKSIZE == b * HBLKSIZE
  {
    var t := r % HBLKSIZE;
    var u := t - t % WORD_BYTES;
    assert r == b * HBLKSIZE + t;
    assert r % WORD_BYTES == t % WORD_BYTES;
    assert r - r % WORD_BYTES == b * HBLKSIZE + u;
    Remainder(b, u);
  }

  lemma Remainder(b: nat, u: nat)
    requires u < HBLKSIZE
    ensures (b * HBLKSIZE + u) % HBLKSIZE == u
  {
  }

  lemma SmallMod(x: nat, sz: nat)
    requires x < sz
    ensures x % sz == x
  {
  }

  lemma SmallBase(p: nat, b: nat, sz: nat)
    requires 0 < sz <= HBLKSIZE && sz % WORD_BYTES == 0 && p / HBLKSIZE == b
    ensures var r := BaseAddress(p, b, b, sz);
      b * HBLKSIZE <= r <= p < r + sz && (r - b * HBLKSIZE) % sz == 0
  {
    var off := (p - p % WORD_BYTES) % HBLKSIZE;
    assert p - p % WORD_BYTES == b * HBLKSIZE + off;
    WholeWords(off, sz);
    SlotStart(off, sz);
  }

  lemma SlotStart(off: nat, sz: nat)
    requires 0 < sz
    ensures 0 <= off % sz <= off && (off - off % sz) % sz == 0
  {
    var q := off / sz;
    assert off - off % sz == q * sz;
    MultipleMod(q, sz);
  }

  /** A multiple of sz other than 0 is at least sz away from it. */
  lemma FarMultiple(d: nat, sz: nat)
    requires 0 < d
    ensures d * sz >= sz
  {
  }

  lemma MultipleMod(q: nat, sz: nat)
    requires 0 < sz
    ensures q * sz % sz == 0
  {
    var k := q * sz / sz;
    assert q * sz - k * sz == q * sz % sz;
    SameMultiple(q, k, sz);
  }

  lemma SameMultiple(i: nat, j: nat, sz: nat)
    requires i * sz < j * sz + sz && j * sz < i * sz + sz
    ensures i == j
  {
    if i < j {
      FarMultiple(j - i, sz);
    } else if j < i {
      FarMultiple(i - j, sz);
    }
  }

  lemma WholeWords(off: nat, sz: nat)
    requires 0 < sz && off % WORD_BYTES == 0 && sz % WORD_BYTES == 0
    ensures off % sz <= sz - WORD_BYTES
  {
    var q, t := off / sz, sz / WORD_BYTES;
    assert off % sz == off - q * sz;
    assert q * sz == WORD_BYTES * (q * t);
  }

  lemma OneSlot(a: nat, b: nat, sz: nat)
    requires 0 < sz && a % sz == 0 && b % sz == 0 && a < b + sz && b < a + sz
    ensures a == b
  {
    var i, j := a / sz, b / sz;
    assert a == i * sz && b == j * sz;
    SameMultiple(i, j, sz);
  }

  // ----- What the entries must become -----

  /** With the same used blocks, only starts of free blocks come and go. */
  lemma SameUsed(m: Layout, m': Layout, x: nat, e: Entry)
    requires Tiles(m) && Tiles(m') && Describes(m, x, e)
    requires forall b: nat :: Used(m, b) <==> Used(m', b)
    requires forall b: nat | Used(m, b) :: b in m' && m'[b] == m[b]
    ensures Describes(m', x, if x in m' then Header else if x in m then Nil else e)
  {
    hide Tiles, Blocks;
    assert forall b: nat :: Inside(m, b, x) <==> Inside(m', b, x) by {
      forall b: nat ensures Inside(m, b, x) <==> Inside(m', b, x) {
        assert Used(m, b) <==> Used(m', b);
      }
    }
    if x in m {
      NotInside(m, x);
    }
  }

  lemma NotInside(m: Layout, x: nat)
    requires Tiles(m) && x in m
    ensures forall b: nat :: !Inside(m, b, x)
  {
  }

  lemma MergeEntries(m: Layout, h: nat, x: nat, e: Entry)
    requires Tiles(m) && h in m && m[h].free && End(m, h) in m && m[End(m, h)].free && Describes(m, x, e)
    ensures Tiles(MergeAt(m, h)) && Describes(MergeAt(m, h), x, if x == End(m, h) then Nil else e)
  {
    hide Describes, Tiles;
    MergeRegion(m, h);
    SameUsed(m, MergeAt(m, h), x, e);
    HeaderIff(m, x, e);
  }

  lemma HeaderIff(m: Layout, x: nat, e: Entry)
    requires Tiles(m) && Describes(m, x, e)
    ensures e == Header <==> x in m
  {
  }

  /** A free block is put to use over the same extent. */
  lemma UsedEntries(m: Layout, h: nat, blk: Blk, x: nat, e: Entry)
    requires Tiles(m) && h in m && m[h].free && !blk.free && Blocks(blk.sz) == Blocks(m[h].sz) && Describes(m, x, e)
    ensures Describes(m[h := blk], x, if h < x < End(m, h) then Forward(Jump(x - h)) else e)
  {
    hide Blocks;
    var m' := m[h := blk];
    assert End(m', h) == End(m, h);
    if h < x < End(m, h) {
      assert Inside(m', h, x);
    } else {
      assert forall b: nat :: Inside(m, b, x) <==> Inside(m', b, x);
    }
  }

  lemma FreedEntries(m: Layout, h: nat, x: nat, e: Entry)
    requires Tiles(m) && h in m && !m[h].free && Describes(m, x, e) && End(Freed(m, h), h) == End(m, h)
    ensures Describes(Freed(m, h), x, if h < x < End(m, h) then Nil else e)
  {
    hide Blocks;
    var m' := Freed(m, h);
    if h < x < End(m, h) {
      assert Inside(m, h, x);
      forall b: nat ensures !Inside(m', b, x) {
        assert b in m && b != h ==> End(m, b) <= h || End(m, h) <= b;
      }
    } else {
      assert forall b: nat :: Inside(m, b, x) <==> Inside(m', b, x);
    }
  }

  lemma FreedHas(m: Layout, h: nat)
    requires h in m
    ensures h in Freed(m, h) && Freed(m, h)[h].free
  {
  }

  lemma NotAdjacentYet(m: Layout, p: nat, blk: Blk)
    requires NoAdjacentFree(m) && p !in m && !blk.free
    ensures NoAdjacentFree(m[p := blk])
  {
    hide Blocks;
    var m' := m[p := blk];
    forall h | h in m' && m'[h].free ensures !(End(m', h) in m' && m'[End(m', h)].free) {
      assert h in m && End(m', h) == End(m, h);
    }
  }

  lemma SectionEntries(m: Layout, p: nat, blk: Blk, x: nat, e: Entry)
    requires Tiles(m) && p !in m && !blk.free && Tiles(m[p := blk]) && Tiles(Freed(m[p := blk], p))
    requires Describes(m, x, e)
    ensures Describes(Freed(m[p := blk], p), x, if p < x < p + Blocks(blk.sz) then Nil else if x == p then Header else e)
  {
    hide Describes, Tiles, Blocks;
    SameUsed(m, Freed(m[p := blk], p), x, e);
    HeaderIff(m, x, e);
    if p < x < p + Blocks(blk.sz) {
      NewIsClear(m, p, blk, x, e);
    }
  }

  lemma NewIsClear(m: Layout, p: nat, blk: Blk, x: nat, e: Entry)
    requires p !in m && Tiles(m[p := blk]) && p < x < p + Blocks(blk.sz) && Describes(m, x, e)
    ensures e == Nil
  {
    hide Blocks;
    var m' := m[p := blk];
    assert End(m', p) == p + Blocks(blk.sz);
    assert x in m ==> x in m';
    forall b: nat ensures !Inside(m, b, x) {
      assert b in m ==> b in m' && b != p && End(m', b) == End(m, b);
    }
  }

  lemma AllocEntries(m: Layout, h: nat, p: nat, need: nat, blk: Blk, x: nat, e: Entry)
    requires Tiles(m) && Fits(m, h, p, need) && !blk.free && Blocks(blk.sz) == need && Describes(m, x, e)
    requires p in CutFront(m, h, p) && p + need <= End(CutFront(m, h, p), p)
    ensures Describes(Taken(m, h, p, need, blk), x,
      if p < x < p + need then Forward(Jump(x - p))
      else if x == p || (x == p + need && p + need != End(m, h)) then Header else e)
  {
    hide Describes, Tiles, Blocks;
    CutFrontOk(m, h, p);
    var m1 := CutFront(m, h, p);
    SameUsed(m, m1, x, e);
    HeaderIff(m, x, e);
    CutBackOk(m1, p, need);
    var m2 := CutBackAll(m1, p, need);
    SameUsed(m1, m2, x, if x in m1 then Header else e);
    var e2 := if x in m2 then Header else e;
    UsedEntries(m2, p, blk, x, e2);
    assert m2[p := blk] == CutBack(m1, p, need)[p := blk];
  }

  lemma ChoppedEntries(m: Layout, h: nat, count: nat, x: nat, e: Entry)
    requires Tiles(m) && h in m && m[h].free && count == Blocks(m[h].sz) && Describes(m, x, e)
    ensures Describes(Chopped(m, h, count), x, if h < x < h + count then Header else e)
  {
    hide Blocks, Tiles;
    var m' := Chopped(m, h, count);
    forall b | b in m && b != h ensures b in m' && m'[b] == m[b] {
      OutsideBlock(m, h, b);
    }
    if e.Forward? {
      var b: nat :| Inside(m, b, x) && e.k == Jump(x - b);
      assert Inside(m', b, x);
      OneUsed(m, b, h, x);
    } else {
      NotInside(m, h);
      NotInSingles(m, h, count, x);
    }
  }

  lemma NotInSingles(m: Layout, h: nat, count: nat, x: nat)
    ensures forall b: nat | Inside(Chopped(m, h, count), b, x) :: Inside(m, b, x)
  {
    WholeBlocks(1);
  }

  /** No heap block is in two blocks. */
  lemma OneUsed(m: Layout, b: nat, h: nat, x: nat)
    requires Tiles(m) && h in m && m[h].free && Inside(m, b, x)
    ensures x < h || End(m, h) <= x
  {
  }

  lemma OutsideBlock(m: Layout, h: nat, b: nat)
    requires Tiles(m) && h in m && b in m && b != h
    ensures b < h || End(m, h) <= b
  {
  }

  /** The layout once both parts of p have been made separate free blocks. */
  function CutBackAll(m: Layout, p: nat, need: nat): Layout
    requires p in m && p + need <= End(m, p)
  {
    CutBack(m, p, need)[p := m[p].(sz := need * HBLKSIZE)]
  }

  lemma FreeIsWhole(m: Layout, p: nat)
    requires Tiles(m) && p in m && m[p].free
    ensures m[p].sz == Blocks(m[p].sz) * HBLKSIZE
  {
  }

  lemma CutBackOk(m: Layout, p: nat, need: nat)
    requires Tiles(m) && p in m && m[p].free && 0 < need && p + need <= End(m, p)
    ensures var m2 := CutBackAll(m, p, need);
      && Tiles(m2) && p in m2 && m2[p].free && End(m2, p) == p + need
      && m2.Keys == m.Keys + (if p + need != End(m, p) then {p + need} else {})
      && (forall b: nat :: Used(m, b) <==> Used(m2, b)) && (forall b: nat | Used(m, b) :: b in m2 && m2[b] == m[b])
  {
    hide Tiles, Region, Blocks;
    WholeBlocks(need);
    WholeBlocks(End(m, p) - (p + need));
    FreeIsWhole(m, p);
    var n, first := p + need, m[p].(sz := need * HBLKSIZE);
    if n == End(m, p) {
      assert CutBackAll(m, p, need) == m;
    } else {
      var rest := FreeBlk((End(m, p) - n) * HBLKSIZE);
      SplitRegion(m, p, n, first, rest);
      assert CutBackAll(m, p, need) == SplitAt(m, p, n, first, rest);
    }
  }
}
