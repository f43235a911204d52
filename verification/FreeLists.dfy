/** The segregated doubly linked free lists threaded through the block headers. */
module FreeLists {
  import opened Collections
  import opened HeapLayout

  /** A block header; links are block addresses, 0 for none. */
  datatype Hdr = Hdr(blk: Blk, next: nat, prev: nat)

  type Hdrs = map<nat, Hdr>

  function Strip(hdrs: Hdrs): Layout {
    map h | h in hdrs :: hdrs[h].blk
  }

  function Put(s: seq<nat>, k: nat, x: nat): seq<nat>
    requires k < |s|
  {
    s[k := x]
  }

  /** The list s of blocks is threaded through the headers, starting at head. */
  ghost predicate Linked(hdrs: Hdrs, head: nat, s: seq<nat>) {
    && head == At(s, 0)
    && 0 !in s && NoDup(s)
    && (forall k | 0 <= k < |s| :: s[k] in hdrs && hdrs[s[k]].next == At(s, k + 1) && hdrs[s[k]].prev == At(s, k - 1))
  }

  function ListBytes(hdrs: Hdrs, s: seq<nat>): nat {
    if s == [] then 0
    else (if s[0] in hdrs then hdrs[s[0]].blk.sz else 0) + ListBytes(hdrs, s[1..])
  }

  lemma {:induction false} ListBytesSame(hdrs: Hdrs, hdrs': Hdrs, s: seq<nat>)
    requires forall x | x in s :: x in hdrs && x in hdrs' && hdrs[x].blk.sz == hdrs'[x].blk.sz
    ensures ListBytes(hdrs, s) == ListBytes(hdrs', s)
    decreases |s|
  {
    if s != [] {
      ListBytesSame(hdrs, hdrs', s[1..]);
    }
  }

  lemma {:induction false} ListBytesWithout(hdrs: Hdrs, s: seq<nat>, k: nat)
    requires k < |s| && s[k] in hdrs
    ensures ListBytes(hdrs, Without(s, k)) + hdrs[s[k]].blk.sz == ListBytes(hdrs, s)
    decreases |s|
  {
    if k > 0 {
      ListBytesWithout(hdrs, s[1..], k - 1);
      assert Without(s, k) == [s[0]] + Without(s[1..], k - 1);
    } else {
      assert Without(s, k) == s[1..];
    }
  }

  /** The headers after taking h out of its list: its neighbours are joined. */
  function Unlink(hdrs: Hdrs, h: nat): Hdrs
    requires h in hdrs
  {
    var x := hdrs[h];
    var d := if x.prev in hdrs then hdrs[x.prev := hdrs[x.prev].(next := x.next)] else hdrs;
    if x.next in d then d[x.next := d[x.next].(prev := x.prev)] else d
  }

  /** The headers after pushing h in front of the list that starts at second. */
  function PushFront(hdrs: Hdrs, h: nat, second: nat): Hdrs
    requires h in hdrs
  {
    var d := hdrs[h := hdrs[h].(next := second, prev := 0)];
    if second in d then d[second := d[second].(prev := h)] else d
  }

  /** The headers after n, with contents blk, has taken h's place in its list. */
  function Replace(hdrs: Hdrs, h: nat, n: nat, blk: Blk): Hdrs
    requires h in hdrs
  {
    var x := hdrs[h];
    var d := hdrs[n := Hdr(blk, x.next, x.prev)];
    var d := if x.prev in d then d[x.prev := d[x.prev].(next := n)] else d;
    if x.next in d then d[x.next := d[x.next].(prev := n)] else d
  }

  lemma WithoutMembers(s: seq<nat>, k: nat)
    requires NoDup(s) && k < |s|
    ensures NoDup(Without(s, k))
    ensures forall x :: x in Without(s, k) <==> x in s && x != s[k]
  {
  }

  lemma UnlinkAt(hdrs: Hdrs, h: nat)
    requires h in hdrs
    ensures Unlink(hdrs, h).Keys == hdrs.Keys && Strip(Unlink(hdrs, h)) == Strip(hdrs)
    ensures forall y | y in hdrs ::
      && Unlink(hdrs, h)[y].next == (if y == hdrs[h].prev then hdrs[h].next else hdrs[y].next)
      && Unlink(hdrs, h)[y].prev == (if y == hdrs[h].next then hdrs[h].prev else hdrs[y].prev)
  {
  }

  lemma UnlinkLinked(hdrs: Hdrs, head: nat, s: seq<nat>, k: nat)
    requires 0 !in hdrs && Linked(hdrs, head, s) && k < |s|
    ensures Linked(Unlink(hdrs, s[k]), if hdrs[s[k]].prev == 0 then hdrs[s[k]].next else head, Without(s, k))
  {
    hide Unlink, Strip;
    UnlinkAt(hdrs, s[k]);
    var d, w := Unlink(hdrs, s[k]), Without(s, k);
    WithoutMembers(s, k);
    forall i | 0 <= i < |w| ensures w[i] in d && d[w[i]].next == At(w, i + 1) && d[w[i]].prev == At(w, i - 1) {
      var j := if i < k then i else i + 1;
      assert w[i] == s[j];
      assert w[i] == hdrs[s[k]].prev <==> j == k - 1;
      assert w[i] == hdrs[s[k]].next <==> j == k + 1;
    }
  }

  lemma PushLinked(hdrs: Hdrs, head: nat, s: seq<nat>, h: nat)
    requires 0 !in hdrs && Linked(hdrs, head, s) && h in hdrs && h !in s
    ensures Strip(PushFront(hdrs, h, head)) == Strip(hdrs)
    ensures Linked(PushFront(hdrs, h, head), h, [h] + s)
  {
  }

  lemma ReplaceAt(hdrs: Hdrs, h: nat, n: nat, blk: Blk)
    requires h in hdrs && n !in hdrs && hdrs[h].next != n && hdrs[h].prev != n
    ensures Replace(hdrs, h, n, blk).Keys == hdrs.Keys + {n} && Strip(Replace(hdrs, h, n, blk)) == Strip(hdrs)[n := blk]
    ensures Replace(hdrs, h, n, blk)[n] == Hdr(blk, hdrs[h].next, hdrs[h].prev)
    ensures forall y | y in hdrs ::
      && Replace(hdrs, h, n, blk)[y].next == (if y == hdrs[h].prev then n else hdrs[y].next)
      && Replace(hdrs, h, n, blk)[y].prev == (if y == hdrs[h].next then n else hdrs[y].prev)
  {
  }

  lemma ReplaceLinked(hdrs: Hdrs, head: nat, s: seq<nat>, k: nat, n: nat, blk: Blk)
    requires 0 !in hdrs && Linked(hdrs, head, s) && k < |s| && n !in hdrs && n != 0
    ensures Linked(Replace(hdrs, s[k], n, blk), if hdrs[s[k]].prev == 0 then n else head, Put(s, k, n))
  {
    hide Replace;
    ReplaceAt(hdrs, s[k], n, blk);
    var d, w := Replace(hdrs, s[k], n, blk), Put(s, k, n);
    assert 0 !in w && NoDup(w);
    forall i | 0 <= i < |w| ensures w[i] in d && d[w[i]].next == At(w, i + 1) && d[w[i]].prev == At(w, i - 1) {
      if i != k {
        assert w[i] == s[i];
        assert w[i] == hdrs[s[k]].prev <==> i == k - 1;
        assert w[i] == hdrs[s[k]].next <==> i == k + 1;
      }
    }
  }

  /** A list none of whose blocks were written is still linked. */
  lemma StillLinked(hdrs: Hdrs, hdrs': Hdrs, head: nat, s: seq<nat>)
    requires Linked(hdrs, head, s)
    requires forall x | x in s :: x in hdrs' && hdrs'[x].next == hdrs[x].next && hdrs'[x].prev == hdrs[x].prev
    ensures Linked(hdrs', head, s)
  {
  }

  ghost predicate Apart(lists: seq<seq<nat>>) {
    forall i, j, x | 0 <= i < j < |lists| && x in lists[i] :: x !in lists[j]
  }

  /** Every list is linked, no block is on two lists, and the byte counters are the sums of the lists. */
  ghost predicate ListsOk(hdrs: Hdrs, heads: seq<nat>, bytes: seq<nat>, lists: seq<seq<nat>>) {
    && 0 !in hdrs
    && |heads| == |bytes| == |lists| == N_HBLK_FLS + 1
    && Apart(lists)
    && (forall n | 0 <= n < |lists| :: Linked(hdrs, heads[n], lists[n]) && bytes[n] == ListBytes(hdrs, lists[n]))
  }

  /** Writing only links of blocks on list n leaves the other lists linked and their sums unchanged. */
  lemma OtherList(hdrs: Hdrs, hdrs': Hdrs, head: nat, bytes: nat, s: seq<nat>)
    requires Linked(hdrs, head, s) && bytes == ListBytes(hdrs, s)
    requires forall x | x in s :: x in hdrs' && hdrs'[x] == hdrs[x]
    ensures Linked(hdrs', head, s) && bytes == ListBytes(hdrs', s)
  {
    hide ListBytes;
    assert forall k | 0 <= k < |s| :: s[k] in s;
    ListBytesSame(hdrs, hdrs', s);
  }

  lemma Neighbours(hdrs: Hdrs, head: nat, s: seq<nat>, k: nat)
    requires Linked(hdrs, head, s) && k < |s|
    ensures s[k] in hdrs && s[k] != 0
    ensures hdrs[s[k]].prev == 0 || hdrs[s[k]].prev in s
    ensures hdrs[s[k]].next == 0 || hdrs[s[k]].next in s
    ensures hdrs[s[k]].prev != s[k] && hdrs[s[k]].next != s[k]
    ensures NoDup(s) && forall x | x in s :: x in hdrs
  {
  }

  lemma StripSize(hdrs: Hdrs, hdrs': Hdrs, x: nat)
    requires x in hdrs && Strip(hdrs) == Strip(hdrs')
    ensures x in hdrs' && hdrs'[x].blk == hdrs[x].blk
  {
    assert x in Strip(hdrs') && Strip(hdrs')[x] == Strip(hdrs)[x];
  }

  /** Lists other than n stay in order when only blocks of list n are written. */
  lemma OthersOk(hdrs: Hdrs, d: Hdrs, heads: seq<nat>, bytes: seq<nat>, lists: seq<seq<nat>>, n: nat)
    requires ListsOk(hdrs, heads, bytes, lists) && n <= N_HBLK_FLS
    requires forall m, x | 0 <= m < |lists| && m != n && x in lists[m] && x in hdrs && x !in lists[n] ::
      x in d && d[x] == hdrs[x]
    ensures forall m | 0 <= m < |lists| && m != n :: Linked(d, heads[m], lists[m]) && bytes[m] == ListBytes(d, lists[m])
    ensures forall m, x | 0 <= m < |lists| && m != n && x in lists[m] :: x in hdrs && x !in lists[n]
  {
    hide ListBytes;
    forall m, x | 0 <= m < |lists| && m != n && x in lists[m] ensures x in hdrs && x !in lists[n] {
      var k :| 0 <= k < |lists[m]| && lists[m][k] == x;
      assert Linked(hdrs, heads[m], lists[m]);
    }
    forall m | 0 <= m < |lists| && m != n ensures Linked(d, heads[m], lists[m]) && bytes[m] == ListBytes(d, lists[m]) {
      OtherList(hdrs, d, heads[m], bytes[m], lists[m]);
    }
  }

  lemma Assemble(d: Hdrs, heads: seq<nat>, bytes: seq<nat>, lists: seq<seq<nat>>, n: nat, head: nat, b: nat,
                 s: seq<nat>)
    requires 0 !in d && |heads| == |bytes| == |lists| == N_HBLK_FLS + 1 && n <= N_HBLK_FLS && Apart(lists)
    requires forall m | 0 <= m < |lists| && m != n ::
      Linked(d, heads[m], lists[m]) && bytes[m] == ListBytes(d, lists[m])
    requires Linked(d, head, s) && b == ListBytes(d, s)
    requires forall m, x | 0 <= m < |lists| && m != n && x in lists[m] :: x !in s
    ensures ListsOk(d, heads[n := head], bytes[n := b], lists[n := s])
  {
  }

  /** Taking one block out of list n. */
  lemma RemoveOk(hdrs: Hdrs, heads: seq<nat>, bytes: seq<nat>, lists: seq<seq<nat>>, n: nat, k: nat)
    requires ListsOk(hdrs, heads, bytes, lists) && n <= N_HBLK_FLS && k < |lists[n]|
    ensures lists[n][k] in hdrs
    ensures var h := lists[n][k]; var x := hdrs[h];
      && (x.prev == 0 || x.prev in hdrs) && (x.next == 0 || x.next in hdrs) && x.prev != h && x.next != h
      && x.blk.sz <= bytes[n] && Unlink(hdrs, h).Keys == hdrs.Keys && Strip(Unlink(hdrs, h)) == Strip(hdrs)
      && ListsOk(Unlink(hdrs, h), if x.prev == 0 then heads[n := x.next] else heads,
                 bytes[n := bytes[n] - x.blk.sz], lists[n := Without(lists[n], k)])
  {
    hide ListBytes, Unlink, Strip, Linked, NoDup, Apart;
    var s := lists[n];
    var h := s[k];
    Neighbours(hdrs, heads[n], s, k);
    UnlinkAt(hdrs, h);
    UnlinkLinked(hdrs, heads[n], s, k);
    WithoutMembers(s, k);
    var d := Unlink(hdrs, h);
    ListBytesWithout(hdrs, s, k);
    forall x | x in s ensures x in d && d[x].blk.sz == hdrs[x].blk.sz {
      StripSize(hdrs, d, x);
    }
    ListBytesSame(hdrs, d, Without(s, k));
    forall x | x in hdrs && x !in s ensures x in d && d[x] == hdrs[x] {
      StripSize(hdrs, d, x);
    }
    OthersOk(hdrs, d, heads, bytes, lists, n);
    var head := if hdrs[h].prev == 0 then hdrs[h].next else heads[n];
    Assemble(d, heads, bytes, lists, n, head, bytes[n] - hdrs[h].blk.sz, Without(s, k));
    assert heads[n := heads[n]] == heads;
  }

  /** Pushing a block that is on no list onto list n. */
  lemma PushOk(hdrs: Hdrs, heads: seq<nat>, bytes: seq<nat>, lists: seq<seq<nat>>, n: nat, h: nat)
    requires ListsOk(hdrs, heads, bytes, lists) && n <= N_HBLK_FLS && h in hdrs
    requires forall m | 0 <= m < |lists| :: h !in lists[m]
    ensures (heads[n] == 0 || heads[n] in hdrs) && heads[n] != h
    ensures PushFront(hdrs, h, heads[n]).Keys == hdrs.Keys && Strip(PushFront(hdrs, h, heads[n])) == Strip(hdrs)
    ensures ListsOk(PushFront(hdrs, h, heads[n]), heads[n := h], bytes[n := bytes[n] + hdrs[h].blk.sz],
                    lists[n := [h] + lists[n]])
  {
    hide ListBytes;
    var s := lists[n];
    PushLinked(hdrs, heads[n], s, h);
    var d := PushFront(hdrs, h, heads[n]);
    assert heads[n] == 0 || heads[n] in s;
    forall x | x in hdrs ensures x in d && d[x].blk == hdrs[x].blk {
      StripSize(hdrs, d, x);
    }
    assert forall i | 0 <= i < |s| :: s[i] in hdrs;
    ListBytesSame(hdrs, d, s);
    ListBytesCons(d, h, s);
    OthersOk(hdrs, d, heads, bytes, lists, n);
    Assemble(d, heads, bytes, lists, n, h, bytes[n] + hdrs[h].blk.sz, [h] + s);
  }

  /** A new block n with contents blk takes the place of the kth block of list m. */
  lemma ReplaceOk(hdrs: Hdrs, heads: seq<nat>, bytes: seq<nat>, lists: seq<seq<nat>>, m: nat, k: nat, n: nat, blk: Blk)
    requires ListsOk(hdrs, heads, bytes, lists) && m <= N_HBLK_FLS && k < |lists[m]|
    requires n !in hdrs && n != 0
    ensures lists[m][k] in hdrs
    ensures var h := lists[m][k]; var x := hdrs[h];
      && (x.prev == 0 || x.prev in hdrs) && (x.next == 0 || x.next in hdrs)
      && x.blk.sz <= bytes[m]
      && Replace(hdrs, h, n, blk).Keys == hdrs.Keys + {n} && Strip(Replace(hdrs, h, n, blk)) == Strip(hdrs)[n := blk]
      && ListsOk(Replace(hdrs, h, n, blk), if x.prev == 0 then heads[m := n] else heads,
                 bytes[m := bytes[m] - x.blk.sz + blk.sz], lists[m := Put(lists[m], k, n)])
  {
    hide ListBytes, Replace, Strip, Linked, NoDup, Apart;
    var s := lists[m];
    var h := s[k];
    Neighbours(hdrs, heads[m], s, k);
    ReplaceAt(hdrs, h, n, blk);
    ReplaceLinked(hdrs, heads[m], s, k, n, blk);
    var d := Replace(hdrs, h, n, blk);
    ReplacedBlks(hdrs, d, n, blk);
    ReplacedBytes(hdrs, d, s, k, n);
    OthersOk(hdrs, d, heads, bytes, lists, m);
    ListBytesWithout(hdrs, s, k);
    var head := if hdrs[h].prev == 0 then n else heads[m];
    forall x | x in Put(s, k, n) ensures x in s || x == n {
      var i :| 0 <= i < |s| && Put(s, k, n)[i] == x;
      assert i != k ==> s[i] == x;
    }
    Assemble(d, heads, bytes, lists, m, head, bytes[m] - hdrs[h].blk.sz + blk.sz, Put(s, k, n));
    assert heads[m := heads[m]] == heads;
  }

  lemma ReplacedBlks(hdrs: Hdrs, d: Hdrs, n: nat, blk: Blk)
    requires n !in hdrs && Strip(d) == Strip(hdrs)[n := blk]
    ensures n in d && d[n].blk == blk && forall x | x in hdrs :: x in d && d[x].blk == hdrs[x].blk
  {
    assert n in Strip(d) && Strip(d)[n] == blk;
    forall x | x in hdrs ensures x in d && d[x].blk == hdrs[x].blk {
      assert x in Strip(d) && Strip(d)[x] == Strip(hdrs)[x];
    }
  }

  lemma {:induction false} ReplacedBytes(hdrs: Hdrs, d: Hdrs, s: seq<nat>, k: nat, n: nat)
    requires k < |s| && n in d && n !in s && NoDup(s)
    requires forall x | x in s :: x in hdrs && x in d && d[x].blk.sz == hdrs[x].blk.sz
    ensures ListBytes(d, Put(s, k, n)) + hdrs[s[k]].blk.sz == ListBytes(hdrs, s) + d[n].blk.sz
    decreases |s|
  {
    if k == 0 {
      assert Put(s, k, n)[1..] == s[1..];
      ListBytesSame(hdrs, d, s[1..]);
    } else {
      assert Put(s, k, n)[1..] == Put(s[1..], k - 1, n);
      ReplacedBytes(hdrs, d, s[1..], k - 1, n);
    }
  }

  lemma ListBytesCons(hdrs: Hdrs, h: nat, s: seq<nat>)
    requires h in hdrs
    ensures ListBytes(hdrs, [h] + s) == hdrs[h].blk.sz + ListBytes(hdrs, s)
  {
  }

  lemma Shapes(hdrs: Hdrs, heads: seq<nat>, bytes: seq<nat>, lists: seq<seq<nat>>)
    requires ListsOk(hdrs, heads, bytes, lists)
    ensures |heads| == |bytes| == |lists| == N_HBLK_FLS + 1 && 0 !in hdrs
    ensures forall n | 0 <= n <= N_HBLK_FLS :: heads[n] == At(lists[n], 0)
    ensures forall n, h | 0 <= n <= N_HBLK_FLS && h in lists[n] :: h in hdrs
  {
  }

  /** Rewriting what a header says, but not its size, does not disturb the lists. */
  lemma SetBlkOk(hdrs: Hdrs, heads: seq<nat>, bytes: seq<nat>, lists: seq<seq<nat>>, h: nat, blk: Blk)
    requires ListsOk(hdrs, heads, bytes, lists) && h in hdrs
    requires OffLists(lists, h) || blk.sz == hdrs[h].blk.sz
    ensures ListsOk(hdrs[h := hdrs[h].(blk := blk)], heads, bytes, lists)
  {
    hide ListBytes;
    var d := hdrs[h := hdrs[h].(blk := blk)];
    forall n | 0 <= n < |lists| ensures Linked(d, heads[n], lists[n]) && bytes[n] == ListBytes(d, lists[n]) {
      var s := lists[n];
      assert Linked(hdrs, heads[n], s);
      assert forall x | x in s :: x in hdrs && x in d && d[x].blk.sz == hdrs[x].blk.sz;
      StillLinked(hdrs, d, heads[n], s);
      ListBytesSame(hdrs, d, s);
    }
  }

  /** Adding a header that is on no list does not disturb the lists. */
  lemma NewHdrOk(hdrs: Hdrs, heads: seq<nat>, bytes: seq<nat>, lists: seq<seq<nat>>, h: nat, x: Hdr)
    requires ListsOk(hdrs, heads, bytes, lists) && h != 0 && OffLists(lists, h)
    ensures ListsOk(hdrs[h := x], heads, bytes, lists)
  {
    hide ListBytes;
    forall n | 0 <= n < |lists|
      ensures Linked(hdrs[h := x], heads[n], lists[n]) && bytes[n] == ListBytes(hdrs[h := x], lists[n])
    {
      assert Linked(hdrs, heads[n], lists[n]);
      assert forall y | y in lists[n] :: y in hdrs && y != h;
      StillLinked(hdrs, hdrs[h := x], heads[n], lists[n]);
      ListBytesSame(hdrs, hdrs[h := x], lists[n]);
    }
  }

  /** Dropping a header that is on no list does not disturb the lists. */
  lemma DropHdrOk(hdrs: Hdrs, heads: seq<nat>, bytes: seq<nat>, lists: seq<seq<nat>>, h: nat)
    requires ListsOk(hdrs, heads, bytes, lists) && OffLists(lists, h)
    ensures ListsOk(hdrs - {h}, heads, bytes, lists)
  {
    hide ListBytes;
    forall n | 0 <= n < |lists|
      ensures Linked(hdrs - {h}, heads[n], lists[n]) && bytes[n] == ListBytes(hdrs - {h}, lists[n])
    {
      assert Linked(hdrs, heads[n], lists[n]);
      assert forall y | y in lists[n] :: y in hdrs && y != h;
      StillLinked(hdrs, hdrs - {h}, heads[n], lists[n]);
      ListBytesSame(hdrs, hdrs - {h}, lists[n]);
    }
  }

  // ----- Which list a block is on -----

  ghost predicate OffLists(lists: seq<seq<nat>>, h: nat) {
    forall n | 0 <= n < |lists| :: h !in lists[n]
  }

  /** Apart from the misplaced ones, the free blocks are exactly those on the list for their size. */
  ghost predicate PlacedBut(m: Layout, lists: seq<seq<nat>>, misplaced: set<nat>) {
    && |lists| == N_HBLK_FLS + 1
    && (forall n, h | 0 <= n < |lists| && h in lists[n] && h !in misplaced :: h in m && m[h].free && FlIndex(Blocks(m[h].sz)) == n)
    && (forall h | h in m && m[h].free && h !in misplaced :: h in lists[FlIndex(Blocks(m[h].sz))])
  }

  lemma OnOneList(hdrs: Hdrs, heads: seq<nat>, bytes: seq<nat>, lists: seq<seq<nat>>, n: nat, k: nat)
    requires ListsOk(hdrs, heads, bytes, lists) && n <= N_HBLK_FLS && k < |lists[n]|
    ensures NoDup(lists[n]) && forall j | 0 <= j < |lists| && j != n :: lists[n][k] !in lists[j]
  {
    hide ListBytes;
    assert Linked(hdrs, heads[n], lists[n]);
    assert lists[n][k] in lists[n];
  }

  lemma RemovedPlaced(m: Layout, lists: seq<seq<nat>>, n: nat, k: nat, misplaced: set<nat>)
    requires n < |lists| && k < |lists[n]| && PlacedBut(m, lists, misplaced)
    requires NoDup(lists[n]) && forall j | 0 <= j < |lists| && j != n :: lists[n][k] !in lists[j]
    ensures PlacedBut(m, lists[n := Without(lists[n], k)], misplaced + {lists[n][k]})
    ensures OffLists(lists[n := Without(lists[n], k)], lists[n][k])
  {
  }

  lemma PushedPlaced(m: Layout, m': Layout, lists: seq<seq<nat>>, lists': seq<seq<nat>>, h: nat, misplaced: set<nat>)
    requires PlacedBut(m, lists, misplaced + {h}) && OffLists(lists, h)
    requires h in m && m' == m[h := m[h].(free := true)]
    requires var n := FlIndex(Blocks(m[h].sz)); lists' == lists[n := [h] + lists[n]]
    ensures PlacedBut(m', lists', misplaced)
  {
  }

  lemma ReplacedPlaced(m: Layout, lists: seq<seq<nat>>, i: nat, k: nat, n: nat, blk: Blk)
    requires i < |lists| && k < |lists[i]| && n !in m && PlacedBut(m, lists, {})
    requires NoDup(lists[i]) && forall j | 0 <= j < |lists| && j != i :: lists[i][k] !in lists[j]
    ensures PlacedBut(m[n := blk], lists[i := Put(lists[i], k, n)], {n} + {lists[i][k]})
    ensures OffLists(lists[i := Put(lists[i], k, n)], lists[i][k])
  {
    hide Blocks, FlIndex;
    var s, w, h := lists[i], Put(lists[i], k, n), lists[i][k];
    assert h in s && h in m;
    forall x | x in w ensures (x in s && x != h) || x == n {
      var a :| 0 <= a < |w| && w[a] == x;
      assert a != k ==> s[a] == x;
    }
    forall x | x in s && x != h ensures x in w {
      var a :| 0 <= a < |s| && s[a] == x;
      assert w[a] == x;
    }
    assert h !in w;
  }

  /** A block that is neither free nor on a list is not misplaced. */
  lemma NotMisplaced(m: Layout, lists: seq<seq<nat>>, h: nat)
    requires PlacedBut(m, lists, {h}) && OffLists(lists, h) && (h in m ==> !m[h].free)
    ensures PlacedBut(m, lists, {})
  {
  }

  ghost predicate LayoutOk(m: Layout, lists: seq<seq<nat>>) {
    Tiles(m) && NoAdjacentFree(m) && PlacedBut(m, lists, {})
  }

  function Sum(s: seq<nat>): nat {
    if s == [] then 0 else s[0] + Sum(s[1..])
  }

  lemma {:induction false} SumUpdate(s: seq<nat>, n: nat, x: nat)
    requires n < |s|
    ensures Sum(s[n := x]) + s[n] == Sum(s) + x
    decreases |s|
  {
    if n > 0 {
      SumUpdate(s[1..], n - 1, x);
      assert s[n := x][1..] == s[1..][n - 1 := x];
    } else {
      assert s[n := x][1..] == s[1..];
    }
  }
}
