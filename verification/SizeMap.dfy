/** The map from request sizes to object sizes in granules, which is filled in on demand. */
module SizeMap {

  const GRANULE_BYTES: nat := 16
  const HBLK_GRANULES: nat := 256
  const MAXOBJBYTES: nat := 2048
  const MAXOBJGRANULES: nat := 128
  const TINY_FREELISTS: nat := 25

  /** ROUNDED_UP_GRANULES, with extra for EXTRA_BYTES. */
  function RoundedUp(n: nat, extra: nat): nat {
    (n + GRANULE_BYTES - 1 + extra) / GRANULE_BYTES
  }

  /** An object of g granules holds a request of j bytes and the extra bytes, and is small. */
  predicate Holds(g: nat, j: nat, extra: nat) {
    j + extra <= g * GRANULE_BYTES && g <= MAXOBJGRANULES
  }

  /** Rounding a request up to granules gives the least size that holds it. */
  lemma RoundedUpLeast(n: nat, extra: nat)
    ensures n + extra <= RoundedUp(n, extra) * GRANULE_BYTES
    ensures forall g: nat | n + extra <= g * GRANULE_BYTES :: RoundedUp(n, extra) <= g
  {
  }

  /** The size of objects that fill a block just as often, but waste less of it: an even number of granules. */
  function Fitted(g: nat): nat
    requires 0 < g <= MAXOBJGRANULES
  {
    HBLK_GRANULES / (HBLK_GRANULES / g) / 2 * 2
  }

  lemma Quotient(n: nat, d: nat, q: nat)
    requires 0 < d
    ensures n / d == q <==> q * d <= n < q * d + d
  {
    var r := n / d;
    assert r * d <= n < r * d + d;
    if q < r {
      MulOrder(q + 1, r, d);
    } else if r < q {
      MulOrder(r + 1, q, d);
    }
  }

  lemma MulOrder(a: nat, b: nat, d: nat)
    requires a <= b
    ensures a * d <= b * d
  {
  }

  /** Objects of any size from g up to the block divided by their number fit that number of times. */
  lemma KeepsCount(n: nat, g: nat, k: nat, h: nat, f: nat)
    requires 0 < g <= f <= h && k * g <= n < k * g + g && h * k <= n
    ensures n / f == k
  {
    MulOrder(f, h, k);
    MulOrder(g, f, k + 1);
    assert k * f <= n < k * f + f;
    Quotient(n, f, k);
  }

  /** Fitting keeps the number of objects per block, never shrinks an even size, and yields a small even one. */
  lemma FittedFits(g: nat)
    requires 0 < g <= MAXOBJGRANULES && g % 2 == 0
    ensures var f := Fitted(g); g <= f <= MAXOBJGRANULES && f % 2 == 0 && HBLK_GRANULES / f == HBLK_GRANULES / g
  {
    hide Fitted;
    var k := HBLK_GRANULES / g;
    Count(g, k);
    FittedBounds(g, k);
    KeepsCount(HBLK_GRANULES, g, k, HBLK_GRANULES / k, Fitted(g));
  }

  lemma Count(g: nat, k: nat)
    requires 0 < g <= MAXOBJGRANULES && k == HBLK_GRANULES / g
    ensures 2 <= k && k * g <= HBLK_GRANULES < k * g + g
  {
  }

  lemma FittedBounds(g: nat, k: nat)
    requires 0 < g <= MAXOBJGRANULES && g % 2 == 0 && k == HBLK_GRANULES / g && 2 <= k && k * g <= HBLK_GRANULES
    ensures g <= Fitted(g) <= HBLK_GRANULES / k <= MAXOBJGRANULES && HBLK_GRANULES / k * k <= HBLK_GRANULES
    ensures Fitted(g) % 2 == 0
  {
    var h := HBLK_GRANULES / k;
    Quotient(HBLK_GRANULES, k, h);
    LeQuotient(g, k, HBLK_GRANULES);
    MulOrder(2, k, h);
  }

  lemma LeQuotient(q: nat, d: nat, n: nat)
    requires 0 < d && q * d <= n
    ensures q <= n / d
  {
    var r := n / d;
    if r < q {
      MulOrder(r + 1, q, d);
    }
  }

  /** The even number of granules from g up, as long as the objects are small. */
  function Even(g: nat): (e: nat)
    ensures e % 2 == 0 && e <= MAXOBJGRANULES && (g <= MAXOBJGRANULES ==> e == g || e == g + 1)
    ensures MAXOBJGRANULES < g ==> e == MAXOBJGRANULES
  {
    if MAXOBJGRANULES < g then MAXOBJGRANULES else (g + 1) / 2 * 2
  }

  /** Size f is the greatest even one of which a block holds as many as of g granules, made even. */
  ghost predicate FillsBlock(f: nat, g: nat) {
    && 0 < f && f % 2 == 0 && 0 < Even(g) && HBLK_GRANULES / f == HBLK_GRANULES / Even(g)
    && forall f' | f < f' && f' % 2 == 0 :: HBLK_GRANULES / f' < HBLK_GRANULES / Even(g)
  }

  lemma FittedGreatest(g: nat)
    requires 0 < g <= MAXOBJGRANULES && g % 2 == 0
    ensures forall f | Fitted(g) < f && f % 2 == 0 :: HBLK_GRANULES / f < HBLK_GRANULES / g
  {
    var k := HBLK_GRANULES / g;
    Count(g, k);
    forall f | Fitted(g) < f && f % 2 == 0 ensures HBLK_GRANULES / f < k {
      BeyondFitted(k, f);
    }
  }

  lemma BeyondFitted(k: nat, f: nat)
    requires 0 < k && HBLK_GRANULES / k / 2 * 2 < f && f % 2 == 0
    ensures 0 < f && HBLK_GRANULES / f < k
  {
    var h := HBLK_GRANULES / k;
    Quotient(HBLK_GRANULES, k, h);
    var q := HBLK_GRANULES / f;
    Quotient(HBLK_GRANULES, f, q);
    if k <= q {
      MulOrder(k, q, f);
      MulOrder(h + 1, f, k);
    }
  }

  /** Bigger wishes come with fewer objects per block. */
  lemma FillsAtLeast(f: nat, g: nat, g': nat)
    requires FillsBlock(f, g) && g <= g'
    ensures HBLK_GRANULES / Even(g') <= HBLK_GRANULES / f
  {
    var e, e' := Even(g), Even(g');
    assert e <= e';
    var q := HBLK_GRANULES / e';
    Quotient(HBLK_GRANULES, e', q);
    MulOrder(e, e', q);
    LeQuotient(q, e, HBLK_GRANULES);
  }

  /** An eighth less than the size of the objects that just hold a request of i bytes. */
  function EighthBelow(i: nat, extra: nat): nat {
    var byteSz := RoundedUp(i, extra) * GRANULE_BYTES;
    byteSz - byteSz / 8
  }

  class Map {
    const sizeMap: array<nat>      // GC_size_map
    const extra: nat               // EXTRA_BYTES

    ghost predicate Valid()
      reads this, sizeMap
    {
      && sizeMap.Length == MAXOBJBYTES + 1 && extra <= 1
      && (forall j | 0 <= j <= MAXOBJBYTES && sizeMap[j] != 0 :: Holds(sizeMap[j], j, extra))
      && (forall j | 0 <= j <= Prefilled() :: sizeMap[j] != 0)
    }

    /** The sizes filled in at the start. */
    function Prefilled(): nat {
      if extra <= 1 then (TINY_FREELISTS - 1) * GRANULE_BYTES - extra else 0
    }

    /** GC_init_size_map. */
    constructor (extra: nat)
      requires extra <= 1
      ensures Valid() && this.extra == extra && fresh(sizeMap)
      ensures forall j | 0 < j <= MAXOBJBYTES ::
        sizeMap[j] == if j + extra <= (TINY_FREELISTS - 1) * GRANULE_BYTES then RoundedUp(j, extra) else 0
    {
      this.extra := extra;
      sizeMap := new nat[MAXOBJBYTES + 1](_ => 0);
      new;
      sizeMap[0] := 1;
      var i := 1;
      while i <= Prefilled()
        invariant 1 <= i <= Prefilled() + 1 && sizeMap[0] == 1
        invariant forall j | 0 < j <= MAXOBJBYTES :: sizeMap[j] == if j < i then RoundedUp(j, extra) else 0
      {
        sizeMap[i] := RoundedUp(i, extra);
        i := i + 1;
      }
    }

    /** The first unfilled entry from low on. */
    method FirstUnfilled(low: nat, i: nat) returns (limit: nat)
      requires sizeMap.Length == MAXOBJBYTES + 1 && low <= i <= MAXOBJBYTES && sizeMap[i] == 0
      ensures low <= limit <= i && sizeMap[limit] == 0 && forall j | low <= j < limit :: sizeMap[j] != 0
    {
      limit := low;
      while sizeMap[limit] != 0
        invariant low <= limit <= i && forall j | low <= j < limit :: sizeMap[j] != 0
        decreases i - limit
      {
        limit := limit + 1;
      }
    }

    /** GC_extend_size_map, for a small size i that is not filled in; low is the least entry that it fills in. */
    method Extend(i: nat) returns (ghost low: nat)
      requires Valid() && i + extra <= MAXOBJBYTES && sizeMap[i] == 0
      modifies sizeMap
      ensures Valid() && sizeMap[i] != 0
      // The filling starts at the first unfilled entry from an eighth below i on or, if that one is unfilled, from a
      // quarter.
      ensures var b := RoundedUp(i, extra) * GRANULE_BYTES;
        && b <= MAXOBJBYTES && low <= i && old(sizeMap[low]) == 0
        && var from := if old(sizeMap[b - b / 8]) == 0 then b - b / 4 else b - b / 8 + 1;
           from <= low && forall j | from <= j < low :: old(sizeMap[j]) != 0
      ensures forall j | 0 <= j <= MAXOBJBYTES ::
        sizeMap[j] == if low <= j && j + extra <= sizeMap[i] * GRANULE_BYTES then sizeMap[i] else old(sizeMap[j])
      // The size is that of a request up to an eighth bigger, in an even number of granules, ...
      ensures var o, r := RoundedUp(i, extra), RoundedUp(low, extra);
        && o * GRANULE_BYTES <= MAXOBJBYTES && o <= MAXOBJGRANULES
        && var filled := old(sizeMap[o * GRANULE_BYTES - o * GRANULE_BYTES / 8]) != 0;
           FillsBlock(sizeMap[i], if filled && o < r + r / 8 then r + r / 8 else o)
      // ... and fits a block as often as the even number of granules an eighth above the least size, at least.
      ensures var o := RoundedUp(i, extra);
        o <= sizeMap[i] && HBLK_GRANULES / Even(o + o / 8) <= HBLK_GRANULES / sizeMap[i]
      ensures forall j | 0 <= j <= MAXOBJBYTES ::
        sizeMap[j] == old(sizeMap[j]) || (sizeMap[j] == sizeMap[i] && sizeMap[j] % 2 == 0 && sizeMap[j] == Fitted(sizeMap[j]))
      // All requests from i up to what the objects hold share the new size; bigger ones are left alone ...
      ensures forall j | i <= j <= MAXOBJBYTES ::
        sizeMap[j] == if j + extra <= sizeMap[i] * GRANULE_BYTES then sizeMap[i] else old(sizeMap[j])
      // ... and no hole is left just below i.
      ensures forall j | EighthBelow(i, extra) <= j <= i :: sizeMap[j] != 0
    {
      hide Fitted, Holds, RoundedUp, FillsBlock, Even;
      var origGranuleSz := RoundedUp(i, extra);
      var granuleSz := origGranuleSz;
      var byteSz := granuleSz * GRANULE_BYTES;
      var smallerThanI := byteSz - byteSz / 8;
      var muchSmallerThanI := byteSz - byteSz / 4;
      Bounds(i, extra, byteSz);
      var lowLimit: nat;
      if sizeMap[smallerThanI] == 0 {
        lowLimit := FirstUnfilled(muchSmallerThanI, smallerThanI);
      } else {
        lowLimit := FirstUnfilled(smallerThanI + 1, i);
        granuleSz := RoundedUp(lowLimit, extra);
        granuleSz := granuleSz + granuleSz / 8;
        if granuleSz < origGranuleSz {
          granuleSz := origGranuleSz;
        }
      }
      low := lowLimit;
      NotAbove(low, i, extra, granuleSz);
      ghost var wanted := granuleSz;
      granuleSz := ChooseSize(granuleSz, origGranuleSz);
      FillsAtLeast(granuleSz, wanted, origGranuleSz + origGranuleSz / 8);
      RoundedUpLeast(i, extra);
      Fill(lowLimit, granuleSz, granuleSz * GRANULE_BYTES - extra, i);
    }

    /** The end of the size computation: an even number of granules, not too big, that fits well into a block. */
    method ChooseSize(granuleSz: nat, ghost origGranuleSz: nat) returns (g: nat)
      requires 0 < origGranuleSz <= granuleSz && origGranuleSz <= MAXOBJGRANULES
      ensures origGranuleSz <= g <= MAXOBJGRANULES && g % 2 == 0 && g == Fitted(g) && FillsBlock(g, granuleSz)
    {
      g := (granuleSz + 1) / 2 * 2;
      if g > MAXOBJGRANULES {
        g := MAXOBJGRANULES;
      }
      FittedFits(g);
      FittedTwice(g);
      FittedGreatest(g);
      hide Fitted;
      g := Fitted(g);
    }

    /** The loop that fills in the entries from low to high. */
    method Fill(low: nat, g: nat, high: nat, i: nat)
      requires Valid() && low <= i <= high && high == g * GRANULE_BYTES - extra && g <= MAXOBJGRANULES && 0 < g
      modifies sizeMap
      ensures Valid()
      ensures forall j | 0 <= j <= MAXOBJBYTES :: sizeMap[j] == if low <= j <= high then g else old(sizeMap[j])
    {
      var j := low;
      while j <= high
        invariant low <= j <= high + 1
        invariant forall k | 0 <= k <= MAXOBJBYTES :: sizeMap[k] == if low <= k < j then g else old(sizeMap[k])
      {
        sizeMap[j] := g;
        j := j + 1;
      }
      forall k | 0 <= k <= MAXOBJBYTES && sizeMap[k] != 0 ensures Holds(sizeMap[k], k, extra) {
      }
    }

    lemma NotAbove(low: nat, i: nat, extra: nat, g: nat)
      requires low <= i
      requires var o, r := RoundedUp(i, extra), RoundedUp(low, extra); g == o || g == r + r / 8
      ensures g <= RoundedUp(i, extra) + RoundedUp(i, extra) / 8
    {
    }

    lemma Bounds(i: nat, extra: nat, byteSz: nat)
      requires Valid() && extra == this.extra && i + extra <= MAXOBJBYTES && sizeMap[i] == 0
      requires byteSz == RoundedUp(i, extra) * GRANULE_BYTES
      ensures byteSz <= MAXOBJBYTES && byteSz - byteSz / 8 + 1 <= i && byteSz / 8 <= byteSz / 4 <= byteSz
      ensures 0 < RoundedUp(i, extra) <= MAXOBJGRANULES
    {
    }
  }

  lemma FittedTwice(g: nat)
    requires 0 < g <= MAXOBJGRANULES && g % 2 == 0
    ensures 0 < Fitted(g) <= MAXOBJGRANULES && Fitted(Fitted(g)) == Fitted(g)
  {
    FittedFits(g);
  }
}
