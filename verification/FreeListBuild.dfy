/** Building the free list of a new block of small objects: the general builder and the unrolled ones. */
module FreeListBuild {

  import opened Units

  const HBLK_WORDS: nat := 512

  /** The address of word k of the block at base. */
  function Addr(base: nat, k: nat): nat {
    base + WORD_BYTES * k
  }

  /** The number of whole objects of sz words. */
  function Objects(sz: nat): (n: nat)
    requires 0 < sz
    ensures sz <= HBLK_WORDS ==> 0 < n
  {
    HBLK_WORDS / sz
  }

  /** Does an object of sz words start at word k? */
  predicate StartsAt(sz: nat, k: nat)
    requires 0 < sz
  {
    k % sz == 0 && k + sz <= HBLK_WORDS
  }

  /** Word k of the finished block: objects are linked downwards, the lowest one to the old list. */
  function Word(was: nat, base: nat, sz: nat, clear: bool, list: nat, k: nat): nat
    requires 0 < sz
  {
    if !StartsAt(sz, k) then (if clear then 0 else was)
    else if k == 0 then list
    else if k < sz then 0 else Addr(base, k - sz)
  }

  /** The first words of the block are finished; the others hold what was is. */
  ghost predicate BuiltTo(mem: seq<nat>, was: seq<nat>, base: nat, sz: nat, clear: bool, list: nat, n: nat)
    requires 0 < sz
  {
    && |mem| == |was| == HBLK_WORDS
    && (forall k | 0 <= k < n && k < |mem| :: mem[k] == Word(was[k], base, sz, clear, list, k))
    && (forall k | n <= k < |mem| :: mem[k] == was[k])
  }

  ghost predicate Built(mem: seq<nat>, was: seq<nat>, base: nat, sz: nat, clear: bool, list: nat)
    requires 0 < sz
  {
    BuiltTo(mem, was, base, sz, clear, list, HBLK_WORDS)
  }

  lemma NothingBuilt(was: seq<nat>, base: nat, sz: nat, clear: bool, list: nat)
    requires 0 < sz && |was| == HBLK_WORDS
    ensures BuiltTo(was, was, base, sz, clear, list, 0)
  {
  }

  /** Writing the words from n up to n' as described. */
  lemma BuiltOn(mem: seq<nat>, mem': seq<nat>, was: seq<nat>, base: nat, sz: nat, clear: bool, list: nat, n: nat,
                n': nat)
    requires 0 < sz && BuiltTo(mem, was, base, sz, clear, list, n) && n <= n' <= HBLK_WORDS
    requires |mem'| == |mem| == |was| == HBLK_WORDS
    requires forall k | n <= k < n' :: mem'[k] == Word(mem[k], base, sz, clear, list, k)
    requires forall k | 0 <= k < HBLK_WORDS && !(n <= k < n') :: mem'[k] == mem[k]
    ensures BuiltTo(mem', was, base, sz, clear, list, n')
  {
  }

  function Head(base: nat, sz: nat): nat
    requires 0 < sz <= HBLK_WORDS
  {
    Addr(base, (Objects(sz) - 1) * sz)
  }

  /** What the description asks of four words in a row, for objects of two words. */
  lemma FourOfTwo(base: nat, clear: bool, list: nat, p: nat)
    requires p % 4 == 0 && p + 4 <= HBLK_WORDS
    ensures forall was: nat :: Word(was, base, 2, clear, list, p) == if p == 0 then list else Addr(base, p - 2)
    ensures forall was: nat, k | k == p + 2 :: Word(was, base, 2, clear, list, k) == Addr(base, p)
    ensures forall was: nat, k | p < k < p + 4 && k != p + 2 ::
      Word(was, base, 2, clear, list, k) == if clear then 0 else was
  {
  }

  /** The same for objects of four words. */
  lemma FourOfFour(base: nat, clear: bool, list: nat, p: nat)
    requires p % 4 == 0 && p + 4 <= HBLK_WORDS
    ensures forall was: nat :: Word(was, base, 4, clear, list, p) == if p == 0 then list else Addr(base, p - 4)
    ensures forall was: nat, k | p < k < p + 4 :: Word(was, base, 4, clear, list, k) == if clear then 0 else was
  {
  }

  /** GC_build_fl_clear2. */
  method BuildClear2(h: array<nat>, base: nat, ofl: nat) returns (head: nat)
    requires h.Length == HBLK_WORDS
    modifies h
    ensures Built(h[..], old(h[..]), base, 2, true, ofl) && head == Head(base, 2)
  {
    hide BuiltTo, Word, StartsAt;
    ghost var was := h[..];
    h[0] := ofl;
    h[1] := 0;
    h[2] := Addr(base, 0);
    h[3] := 0;
    FourOfTwo(base, true, ofl, 0);
    NothingBuilt(was, base, 2, true, ofl);
    BuiltOn(was, h[..], was, base, 2, true, ofl, 0, 4);
    var p := 4;
    while p < HBLK_WORDS
      invariant 4 <= p <= HBLK_WORDS && p % 4 == 0 && BuiltTo(h[..], old(h[..]), base, 2, true, ofl, p)
    {
      ghost var mem := h[..];
      h[p] := Addr(base, p - 2);
      h[p + 1] := 0;
      h[p + 2] := Addr(base, p);
      h[p + 3] := 0;
      FourOfTwo(base, true, ofl, p);
      BuiltOn(mem, h[..], was, base, 2, true, ofl, p, p + 4);
      p := p + 4;
    }
    head := Addr(base, p - 2);
  }

  /** GC_build_fl_clear4. */
  method BuildClear4(h: array<nat>, base: nat, ofl: nat) returns (head: nat)
    requires h.Length == HBLK_WORDS
    modifies h
    ensures Built(h[..], old(h[..]), base, 4, true, ofl) && head == Head(base, 4)
  {
    hide BuiltTo, Word, StartsAt;
    ghost var was := h[..];
    h[0] := ofl;
    h[1] := 0;
    h[2] := 0;
    h[3] := 0;
    FourOfFour(base, true, ofl, 0);
    NothingBuilt(was, base, 4, true, ofl);
    BuiltOn(was, h[..], was, base, 4, true, ofl, 0, 4);
    var p := 4;
    while p < HBLK_WORDS
      invariant 4 <= p <= HBLK_WORDS && p % 4 == 0 && BuiltTo(h[..], old(h[..]), base, 4, true, ofl, p)
    {
      ghost var mem := h[..];
      h[p] := Addr(base, p - 4);
      h[p + 1] := 0;
      h[p + 2] := 0;
      h[p + 3] := 0;
      FourOfFour(base, true, ofl, p);
      BuiltOn(mem, h[..], was, base, 4, true, ofl, p, p + 4);
      p := p + 4;
    }
    head := Addr(base, p - 4);
  }

  /** GC_build_fl2. */
  method Build2(h: array<nat>, base: nat, ofl: nat) returns (head: nat)
    requires h.Length == HBLK_WORDS
    modifies h
    ensures Built(h[..], old(h[..]), base, 2, false, ofl) && head == Head(base, 2)
  {
    hide BuiltTo, Word, StartsAt;
    ghost var was := h[..];
    h[0] := ofl;
    h[2] := Addr(base, 0);
    FourOfTwo(base, false, ofl, 0);
    NothingBuilt(was, base, 2, false, ofl);
    BuiltOn(was, h[..], was, base, 2, false, ofl, 0, 4);
    var p := 4;
    while p < HBLK_WORDS
      invariant 4 <= p <= HBLK_WORDS && p % 4 == 0 && BuiltTo(h[..], old(h[..]), base, 2, false, ofl, p)
    {
      ghost var mem := h[..];
      h[p] := Addr(base, p - 2);
      h[p + 2] := Addr(base, p);
      FourOfTwo(base, false, ofl, p);
      BuiltOn(mem, h[..], was, base, 2, false, ofl, p, p + 4);
      p := p + 4;
    }
    head := Addr(base, p - 2);
  }

  /** GC_build_fl4. */
  method Build4(h: array<nat>, base: nat, ofl: nat) returns (head: nat)
    requires h.Length == HBLK_WORDS
    modifies h
    ensures Built(h[..], old(h[..]), base, 4, false, ofl) && head == Head(base, 4)
  {
    hide BuiltTo, Word, StartsAt;
    ghost var was := h[..];
    h[0] := ofl;
    h[4] := Addr(base, 0);
    FourOfFour(base, false, ofl, 0);
    FourOfFour(base, false, ofl, 4);
    NothingBuilt(was, base, 4, false, ofl);
    BuiltOn(was, h[..], was, base, 4, false, ofl, 0, 8);
    var p := 8;
    while p < HBLK_WORDS
      invariant 8 <= p <= HBLK_WORDS && p % 8 == 0 && BuiltTo(h[..], old(h[..]), base, 4, false, ofl, p)
    {
      ghost var mem := h[..];
      h[p] := Addr(base, p - 4);
      h[p + 4] := Addr(base, p);
      FourOfFour(base, false, ofl, p);
      FourOfFour(base, false, ofl, p + 4);
      BuiltOn(mem, h[..], was, base, 4, false, ofl, p, p + 8);
      p := p + 8;
    }
    head := Addr(base, p - 4);
  }

  /** BZERO of the block. */
  method Zero(h: array<nat>)
    modifies h
    ensures forall k | 0 <= k < h.Length :: h[k] == 0
  {
    for i := 0 to h.Length
      invariant forall k | 0 <= k < i :: h[k] == 0
    {
      h[i] := 0;
    }
  }

  /** The loop of GC_build_fl, for any size. */
  method BuildGeneral(h: array<nat>, base: nat, sz: nat, clear: bool, list: nat) returns (head: nat)
    requires h.Length == HBLK_WORDS && 0 < sz <= HBLK_WORDS
    modifies h
    ensures Built(h[..], old(h[..]), base, sz, clear, list) && head == Head(base, sz)
  {
    hide StartsAt, Objects;
    if clear {
      Zero(h);
    }
    var p, prev := sz, 0;
    var lastObject := HBLK_WORDS - sz;
    Slots(sz, 0);
    while p <= lastObject
      invariant sz <= p <= HBLK_WORDS && p % sz == 0 && prev == p - sz
      invariant forall k | 0 < k < p :: h[k] == Word(old(h[k]), base, sz, clear, list, k)
      invariant forall k | k == 0 || p <= k < HBLK_WORDS :: h[k] == if clear then 0 else old(h[k])
    {
      NextSlot(sz, p);
      h[p] := Addr(base, prev);
      prev := p;
      p := p + sz;
    }
    LastSlot(sz, p);
    p := p - sz;
    h[0] := list;
    head := Addr(base, p);
  }

  /** GC_build_fl. */
  method BuildFl(h: array<nat>, base: nat, sz: nat, clear: bool, list: nat) returns (head: nat)
    requires h.Length == HBLK_WORDS && 0 < sz <= HBLK_WORDS
    modifies h
    ensures Built(h[..], old(h[..]), base, sz, clear, list) && head == Head(base, sz)
  {
    if sz == 2 && clear {
      head := BuildClear2(h, base, list);
    } else if sz == 2 {
      head := Build2(h, base, list);
    } else if sz == 4 && clear {
      head := BuildClear4(h, base, list);
    } else if sz == 4 {
      head := Build4(h, base, list);
    } else {
      head := BuildGeneral(h, base, sz, clear, list);
    }
  }

  lemma Slots(sz: nat, p: nat)
    requires 0 < sz <= HBLK_WORDS && p == 0
    ensures sz % sz == 0 && StartsAt(sz, 0) && forall k | 0 < k < sz :: !StartsAt(sz, k)
  {
  }

  /** Between one object and the next none starts. */
  lemma NextSlot(sz: nat, p: nat)
    requires 0 < sz && p % sz == 0 && p + sz <= HBLK_WORDS
    ensures StartsAt(sz, p) && (p + sz) % sz == 0 && forall k | p < k < p + sz :: !StartsAt(sz, k)
  {
    Modulo(p, sz, sz);
    forall k | p < k < p + sz ensures !StartsAt(sz, k) {
      NotBetween(p, k, sz);
    }
  }

  lemma NotBetween(p: nat, k: nat, sz: nat)
    requires 0 < sz && p % sz == 0 && p < k < p + sz
    ensures k % sz != 0
  {
    Modulo(p, k - p, sz);
  }

  lemma Modulo(p: nat, i: nat, sz: nat)
    requires 0 < sz && p % sz == 0
    ensures (p + i) % sz == i % sz
  {
    var q := p / sz;
    var r := (p + i) / sz;
    var t := i / sz;
    assert (p + i) % sz - i % sz == (q + t - r) * sz;
    Between(q + t - r, sz);
  }

  lemma Between(d: int, sz: nat)
    ensures d == 0 || d * sz >= sz || d * sz + sz <= 0
  {
  }

  lemma LastSlot(sz: nat, p: nat)
    requires 0 < sz <= p <= HBLK_WORDS && p % sz == 0 && HBLK_WORDS - sz < p
    ensures p - sz == (Objects(sz) - 1) * sz && forall k | p <= k < HBLK_WORDS :: !StartsAt(sz, k)
  {
    var q := p / sz;
    assert p == q * sz;
    var c := Objects(sz);
    assert c * sz <= HBLK_WORDS < c * sz + sz;
    Between(q - c, sz);
    assert (q - c) * sz == q * sz - c * sz;
  }

  /** The description fixes every word, so a special builder leaves what the general one would. */
  lemma OneResult(mem: seq<nat>, mem': seq<nat>, was: seq<nat>, base: nat, sz: nat, clear: bool, list: nat)
    requires 0 < sz && Built(mem, was, base, sz, clear, list) && Built(mem', was, base, sz, clear, list)
    ensures mem == mem'
  {
  }

  // ----- The list -----

  /** The objects found by following the links from word k, as long as they lead downwards within the block. */
  function Followed(mem: seq<nat>, base: nat, k: nat): seq<nat>
    requires k < |mem|
    decreases k
  {
    var link := mem[k];
    if base <= link < Addr(base, k) && (link - base) % WORD_BYTES == 0 then
      [k] + Followed(mem, base, (link - base) / WORD_BYTES)
    else [k]
  }

  /** c objects of sz words, from the highest to the lowest. */
  function Descending(c: nat, sz: nat): (r: seq<nat>)
    ensures |r| == c && forall i | 0 <= i < c :: r[i] == (c - 1 - i) * sz
  {
    if c == 0 then [] else [(c - 1) * sz] + Descending(c - 1, sz)
  }

  /** From the head the list visits every whole object once, in descending order, and then goes on to the old
      list, which lies elsewhere. */
  lemma ListVisitsAll(mem: seq<nat>, was: seq<nat>, base: nat, sz: nat, clear: bool, list: nat)
    requires 0 < sz <= HBLK_WORDS && Built(mem, was, base, sz, clear, list)
    requires list < base || Addr(base, HBLK_WORDS) <= list
    ensures 0 < Objects(sz) && (Objects(sz) - 1) * sz < HBLK_WORDS
    ensures Followed(mem, base, (Objects(sz) - 1) * sz) == Descending(Objects(sz), sz) && mem[0] == list
  {
    var c := Objects(sz);
    CountBounds(sz);
    FollowedFrom(mem, was, base, sz, clear, list, c);
    Slots(sz, 0);
  }

  lemma CountBounds(sz: nat)
    requires 0 < sz <= HBLK_WORDS
    ensures 0 < Objects(sz) && Objects(sz) * sz <= HBLK_WORDS
  {
  }

  lemma {:induction false} FollowedFrom(mem: seq<nat>, was: seq<nat>, base: nat, sz: nat, clear: bool, list: nat,
                                        c: nat)
    requires 0 < sz && 0 < c && c * sz <= HBLK_WORDS && Built(mem, was, base, sz, clear, list)
    requires list < base || Addr(base, HBLK_WORDS) <= list
    ensures (c - 1) * sz < |mem| && Followed(mem, base, (c - 1) * sz) == Descending(c, sz)
    decreases c
  {
    hide Built, Followed, StartsAt;
    var k := (c - 1) * sz;
    assert k + sz == c * sz;
    MultipleStarts(c - 1, sz);
    FollowLink(mem, was, base, sz, clear, list, k);
    if 1 < c {
      assert k - sz == (c - 2) * sz;
      FollowedFrom(mem, was, base, sz, clear, list, c - 1);
    }
  }

  lemma FollowLink(mem: seq<nat>, was: seq<nat>, base: nat, sz: nat, clear: bool, list: nat, k: nat)
    requires 0 < sz && StartsAt(sz, k) && (k == 0 || sz <= k) && Built(mem, was, base, sz, clear, list)
    requires list < base || Addr(base, HBLK_WORDS) <= list
    ensures k < |mem| && Followed(mem, base, k) == if k == 0 then [0] else [k] + Followed(mem, base, k - sz)
  {
  }

  lemma MultipleStarts(q: nat, sz: nat)
    requires 0 < sz && q * sz + sz <= HBLK_WORDS
    ensures StartsAt(sz, q * sz) && (0 < q ==> sz <= q * sz)
  {
  }
}
