/** Black lists: bit tables of heap blocks that have attracted false pointers. */
module BlackList {

  const WORDSZ: nat := 64
  const PHT_ENTRIES: nat := 262144
  const PHT_SIZE: nat := 4096   // words in a table

  /** PHT_HASH of the block with number h. */
  function Hash(h: nat): (index: nat)
    ensures index < PHT_ENTRIES
  {
    h % PHT_ENTRIES
  }

  function Bit(w: bv64, k: nat): bool
    requires k < WORDSZ
  {
    (w >> (k as bv6)) & 1 == 1
  }

  /** w with its bit number k set. */
  function WithBit(w: bv64, k: nat): bv64
    requires k < WORDSZ
  {
    w | (1 << (k as bv6))
  }

  lemma BitOne(w: bv64, k: bv6, j: bv6)
    ensures ((w | (1 << k)) >> j) & 1 == if j == k then 1 else (w >> j) & 1
  {
  }

  lemma BackAgain(k: nat)
    requires k < WORDSZ
    ensures k as bv6 as nat == k
  {
  }

  /** Setting a bit makes that one be set, and leaves the others alone. */
  lemma BitSet(w: bv64, k: nat, j: nat)
    requires k < WORDSZ && j < WORDSZ
    ensures Bit(WithBit(w, k), j) <==> j == k || Bit(w, j)
  {
    BitOne(w, k as bv6, j as bv6);
    BackAgain(k);
    BackAgain(j);
  }

  /** The contents of the four tables; the normal ones are in use only when
      interior pointers are not all valid. */
  datatype Tables = Tables(allInterior: bool, oldNormal: seq<bv64>, incompleteNormal: seq<bv64>,
                           oldStack: seq<bv64>, incompleteStack: seq<bv64>)
  {
    predicate Ok() {
      |oldNormal| == |incompleteNormal| == |oldStack| == |incompleteStack| == PHT_SIZE
    }

    predicate StackListed(h: nat)
      requires Ok()
    {
      Entry(oldStack, Hash(h)) || Entry(incompleteStack, Hash(h))
    }

    predicate NormalListed(h: nat)
      requires Ok()
    {
      !allInterior && (Entry(oldNormal, Hash(h)) || Entry(incompleteNormal, Hash(h)))
    }

    /** Is a block of n heap blocks starting at h black listed? (Even an empty one looks at h itself.) */
    ghost predicate Listed(h: nat, n: nat)
      requires Ok()
    {
      NormalListed(h) || exists x: nat :: h <= x < Last(h, n) && StackListed(x)
    }

    /** The scan one block at a time: just past the first listed block from x to before end, or 0. */
    function FirstListed(x: nat, end: nat): nat
      requires Ok()
      decreases end - x
    {
      if x >= end then 0
      else if StackListed(x) then x + 1
      else FirstListed(x + 1, end)
    }

    function NextPlausible(h: nat, n: nat): nat
      requires Ok()
    {
      if NormalListed(h) then h + 1 else FirstListed(h, Last(h, n))
    }
  }

  function Last(h: nat, n: nat): nat {
    if n == 0 then h + 1 else h + n
  }

  /** get_pht_entry_from_index. */
  predicate Entry(bl: seq<bv64>, index: nat)
    requires |bl| == PHT_SIZE && index < PHT_ENTRIES
  {
    Bit(bl[index / WORDSZ], index % WORDSZ)
  }

  lemma ZeroWord(bl: seq<bv64>, index: nat)
    requires |bl| == PHT_SIZE && index < PHT_ENTRIES && bl[index / WORDSZ] == 0
    ensures !Entry(bl, index)
  {
  }

  /** The rest of an all-clear word holds no listed block, whatever the table wraps around to. */
  lemma ClearWord(t: Tables, h: nat, x: nat)
    requires t.Ok() && h <= x < h + WORDSZ - Hash(h) % WORDSZ
    requires t.oldStack[Hash(h) / WORDSZ] == 0 && t.incompleteStack[Hash(h) / WORDSZ] == 0
    ensures !t.StackListed(x)
  {
    assert Hash(x) == Hash(h) + (x - h) && Hash(x) / WORDSZ == Hash(h) / WORDSZ;
    ZeroWord(t.oldStack, Hash(x));
    ZeroWord(t.incompleteStack, Hash(x));
  }

  lemma {:induction false} SkipClear(t: Tables, x: nat, y: nat, end: nat)
    requires t.Ok() && x <= y
    requires forall z: nat | x <= z < y && z < end :: !t.StackListed(z)
    ensures t.FirstListed(x, end) == t.FirstListed(y, end)
    decreases y - x
  {
    hide Tables.StackListed;
    if x < y && x < end {
      SkipClear(t, x + 1, y, end);
    }
  }

  /** What the scan answers: 0 exactly for blocks that are not listed; otherwise every
      start from h up to the answer is listed for that length. */
  lemma NextPlausibleMeaning(t: Tables, h: nat, n: nat)
    requires t.Ok()
    ensures t.NextPlausible(h, n) == 0 <==> !t.Listed(h, n)
    ensures var r := t.NextPlausible(h, n);
      r != 0 ==> h < r && forall s: nat | h <= s < r :: t.Listed(s, n)
  {
    if !t.NormalListed(h) {
      FirstListedMeaning(t, h, Last(h, n));
    }
  }

  lemma {:induction false} FirstListedMeaning(t: Tables, x: nat, end: nat)
    requires t.Ok()
    ensures var r := t.FirstListed(x, end);
      && (r == 0 <==> forall y: nat | x <= y < end :: !t.StackListed(y))
      && (r != 0 ==> x < r <= end && t.StackListed(r - 1) && forall y: nat | x <= y < r - 1 :: !t.StackListed(y))
    decreases end - x
  {
    hide Tables.StackListed;
    if x < end && !t.StackListed(x) {
      FirstListedMeaning(t, x + 1, end);
    }
  }

  class BlackLists {
    const allInterior: bool
    var oldNormal: array<bv64>
    var incompleteNormal: array<bv64>
    var oldStack: array<bv64>
    var incompleteStack: array<bv64>

    /** GC_bl_init: four clear tables. */
    constructor (allInterior: bool)
      ensures Valid() && this.allInterior == allInterior
      ensures forall h: nat :: !Contents().StackListed(h) && !Contents().NormalListed(h)
    {
      this.allInterior := allInterior;
      oldNormal := new bv64[PHT_SIZE](_ => 0);
      incompleteNormal := new bv64[PHT_SIZE](_ => 0);
      oldStack := new bv64[PHT_SIZE](_ => 0);
      incompleteStack := new bv64[PHT_SIZE](_ => 0);
      new;
      forall h: nat ensures !Contents().StackListed(h) && !Contents().NormalListed(h) {
        ZeroWord(oldStack[..], Hash(h));
        ZeroWord(incompleteStack[..], Hash(h));
        ZeroWord(oldNormal[..], Hash(h));
        ZeroWord(incompleteNormal[..], Hash(h));
      }
    }

    ghost predicate Valid()
      reads this, oldNormal, incompleteNormal, oldStack, incompleteStack
    {
      && Contents().Ok()
      && oldNormal != incompleteNormal && oldNormal != oldStack && oldNormal != incompleteStack
      && incompleteNormal != oldStack && incompleteNormal != incompleteStack && oldStack != incompleteStack
    }

    ghost function Contents(): Tables
      reads this, oldNormal, incompleteNormal, oldStack, incompleteStack
    {
      Tables(allInterior, oldNormal[..], incompleteNormal[..], oldStack[..], incompleteStack[..])
    }

    /** GC_is_black_listed: the scan that skips whole words of the tables. */
    method IsBlackListed(h: nat, nblocks: nat) returns (r: nat)
      requires Valid()
      ensures r == Contents().NextPlausible(h, nblocks)
    {
      hide Bit;
      ghost var t := Contents();
      var index := Hash(h);
      if !allInterior {
        if GetEntry(oldNormal, index) || GetEntry(incompleteNormal, index) {
          return h + 1;
        }
      }
      ghost var end := Last(h, nblocks);
      var i := 0;
      while true
        invariant h + i < end && index == Hash(h + i)
        invariant t.FirstListed(h, end) == t.FirstListed(h + i, end)
        decreases end - i
      {
        ghost var at := h + i;
        if oldStack[index / WORDSZ] == 0 && incompleteStack[index / WORDSZ] == 0 {
          i := i + (WORDSZ - index % WORDSZ);
          forall x: nat | at <= x < h + i ensures !t.StackListed(x) {
            ClearWord(t, at, x);
          }
        } else {
          if GetEntry(oldStack, index) || GetEntry(incompleteStack, index) {
            return h + i + 1;
          }
          i := i + 1;
        }
        SkipClear(t, at, h + i, end);
        if i >= nblocks {
          break;
        }
        index := Hash(h + i);
      }
      r := 0;
    }

    predicate GetEntry(bl: array<bv64>, index: nat)
      requires bl.Length == PHT_SIZE && index < PHT_ENTRIES
      reads bl
      ensures GetEntry(bl, index) == Entry(bl[..], index)
    {
      Bit(bl[index / WORDSZ], index % WORDSZ)
    }

    /** set_pht_entry_from_index. */
    static method SetEntry(bl: array<bv64>, index: nat)
      requires bl.Length == PHT_SIZE && index < PHT_ENTRIES
      modifies bl
      ensures forall j | 0 <= j < PHT_ENTRIES :: Entry(bl[..], j) <==> j == index || Entry(old(bl[..]), j)
    {
      hide Bit, WithBit;
      ghost var was := bl[..];
      bl[index / WORDSZ] := WithBit(bl[index / WORDSZ], index % WORDSZ);
      forall j | 0 <= j < PHT_ENTRIES ensures Entry(bl[..], j) <==> j == index || Entry(was, j) {
        if j / WORDSZ == index / WORDSZ {
          BitSet(was[index / WORDSZ], index % WORDSZ, j % WORDSZ);
        }
      }
    }

    /** GC_add_to_black_list_normal, for a false pointer to heap block h, which has a header or not; a pointer to the
        middle of a word may be out of the question. */
    method AddNormal(h: nat, hasHeader: bool, validOffset: bool)
      requires Valid()
      modifies incompleteNormal
      ensures Valid() && Contents().oldNormal == old(Contents()).oldNormal
      ensures Contents().oldStack == old(Contents()).oldStack
      ensures Contents().incompleteStack == old(Contents()).incompleteStack
      ensures forall x: nat :: Entry(Contents().incompleteNormal, Hash(x)) <==>
        || Entry(old(Contents()).incompleteNormal, Hash(x))
        || (validOffset && Hash(x) == Hash(h) && (!hasHeader || Entry(old(Contents()).oldNormal, Hash(h))))
      // Without a header the block is listed from now on, and so are those that share its entry; nothing else changes.
      ensures forall x: nat :: Contents().NormalListed(x) <==>
        old(Contents()).NormalListed(x) || (!allInterior && validOffset && Hash(x) == Hash(h) && !hasHeader)
    {
      hide Bit;
      if !validOffset {
        return;
      }
      var index := Hash(h);
      if !hasHeader || GetEntry(oldNormal, index) {
        SetEntry(incompleteNormal, index);
      }
    }

    /** GC_add_to_black_list_stack. */
    method AddStack(h: nat, hasHeader: bool)
      requires Valid()
      modifies incompleteStack
      ensures Valid() && Contents().oldStack == old(Contents()).oldStack
      ensures Contents().oldNormal == old(Contents()).oldNormal
      ensures Contents().incompleteNormal == old(Contents()).incompleteNormal
      ensures forall x: nat :: Entry(Contents().incompleteStack, Hash(x)) <==>
        || Entry(old(Contents()).incompleteStack, Hash(x))
        || (Hash(x) == Hash(h) && (!hasHeader || Entry(old(Contents()).oldStack, Hash(h))))
      ensures forall x: nat :: Contents().StackListed(x) <==>
        old(Contents()).StackListed(x) || (Hash(x) == Hash(h) && !hasHeader)
    {
      hide Bit;
      var index := Hash(h);
      if !hasHeader || GetEntry(oldStack, index) {
        SetEntry(incompleteStack, index);
      }
    }

    /** GC_clear_bl. */
    static method Clear(doomed: array<bv64>)
      modifies doomed
      ensures forall i | 0 <= i < doomed.Length :: doomed[i] == 0
    {
      for i := 0 to doomed.Length
        invariant forall j | 0 <= j < i :: doomed[j] == 0
      {
        doomed[i] := 0;
      }
    }

    /** The table part of GC_promote_black_lists: the entries collected since the last full
        collection become the old ones, and the previous old ones are forgotten. */
    method Promote()
      requires Valid()
      modifies this, oldNormal, oldStack
      ensures Valid()
      ensures Contents().oldStack == old(Contents()).incompleteStack
      ensures Contents().oldNormal == old(Contents()).incompleteNormal
      ensures forall h :: Contents().StackListed(h) <==> Entry(old(Contents()).incompleteStack, Hash(h))
      ensures forall h ::
        Contents().NormalListed(h) <==> !allInterior && Entry(old(Contents()).incompleteNormal, Hash(h))
      ensures forall k | 0 <= k < PHT_SIZE :: Contents().incompleteStack[k] == 0
      ensures forall k | 0 <= k < PHT_SIZE ::
        Contents().incompleteNormal[k] == if allInterior then old(Contents()).oldNormal[k] else 0
      ensures {oldNormal, incompleteNormal, oldStack, incompleteStack}
           == old({oldNormal, incompleteNormal, oldStack, incompleteStack})
    {
      var veryOldNormal, veryOldStack := oldNormal, oldStack;
      oldNormal := incompleteNormal;
      oldStack := incompleteStack;
      if !allInterior {
        Clear(veryOldNormal);
      }
      Clear(veryOldStack);
      incompleteNormal := veryOldNormal;
      incompleteStack := veryOldStack;
      forall h: nat ensures !Entry(incompleteStack[..], Hash(h)) {
        ZeroWord(incompleteStack[..], Hash(h));
      }
      if !allInterior {
        forall h: nat ensures !Entry(incompleteNormal[..], Hash(h)) {
          ZeroWord(incompleteNormal[..], Hash(h));
        }
      }
    }
  }
}
