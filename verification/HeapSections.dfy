/** The collector's own memory sections: sorting them, and registering as roots what lies between them. */
module HeapSections {
  import opened Exclusions

  datatype Sect = Sect(start: nat, bytes: nat)
  {
    function End(): nat { start + bytes }
  }

  ghost predicate Sorted(s: seq<Sect>) {
    forall i, j | 0 <= i < j < |s| :: s[i].start <= s[j].start
  }

  ghost predicate Within(s: seq<Sect>, x: nat) {
    exists i :: 0 <= i < |s| && s[i].start <= x < s[i].End()
  }

  /** No address belongs to two sections, and none of them is empty. */
  ghost predicate Disjoint(s: seq<Sect>) {
    && (forall i | 0 <= i < |s| :: 0 < s[i].bytes)
    && (forall i, j | 0 <= i < j < |s| :: s[i].End() <= s[j].start || s[j].End() <= s[i].start)
  }

  /** Ascending and disjoint. */
  ghost predicate Apart(s: seq<Sect>) {
    forall i, j | 0 <= i < j < |s| :: s[i].End() <= s[j].start
  }

  /** The sections at places i and i + 1 exchanged. */
  function Swapped(s: seq<Sect>, i: nat): (t: seq<Sect>)
    requires i + 1 < |s|
    ensures |t| == |s|
  {
    s[i := s[i + 1]][i + 1 := s[i]]
  }

  lemma SwapSame(s: seq<Sect>, i: nat)
    requires i + 1 < |s|
    ensures multiset(Swapped(s, i)) == multiset(s)
  {
  }

  /** The first m sections are in order, apart from the one at place i, which still has to move down;
      those above it are all greater. */
  ghost predicate Inserting(s: seq<Sect>, m: nat, i: nat) {
    && i < m <= |s|
    && (forall a, b | 0 <= a < b < m && a != i && b != i :: s[a].start <= s[b].start)
    && (forall b | i < b < m :: s[i].start <= s[b].start)
  }

  lemma InsertStep(s: seq<Sect>, m: nat, i: nat)
    requires Inserting(s, m, i) && 0 < i && s[i - 1].start > s[i].start
    ensures Inserting(Swapped(s, i - 1), m, i - 1)
  {
  }

  lemma InsertDone(s: seq<Sect>, m: nat, i: nat)
    requires Inserting(s, m, i) && (0 < i ==> s[i - 1].start <= s[i].start)
    ensures Sorted(s[..m])
  {
  }

  /** sort_heap_sects, for any sections, distinct starts or not. */
  method SortHeapSects(base: array<Sect>)
    modifies base
    ensures Sorted(base[..]) && multiset(base[..]) == old(multiset(base[..]))
  {
    var n, nsorted := base.Length, 1;
    while nsorted < n
      invariant 1 <= nsorted && (nsorted <= n || n == 0) && multiset(base[..]) == old(multiset(base[..]))
      invariant nsorted <= n ==> Sorted(base[..nsorted])
    {
      while nsorted < n && base[nsorted - 1].start < base[nsorted].start
        invariant 1 <= nsorted <= n && Sorted(base[..nsorted]) && multiset(base[..]) == old(multiset(base[..]))
      {
        SortedMore(base[..], nsorted);
        nsorted := nsorted + 1;
      }
      if nsorted == n {
        break;
      }
      InsertLast(base, nsorted);
      nsorted := nsorted + 1;
    }
    assert base[..] == base[..n];
  }

  lemma SortedMore(s: seq<Sect>, m: nat)
    requires 0 < m < |s| && Sorted(s[..m]) && s[m - 1].start <= s[m].start
    ensures Sorted(s[..m + 1])
  {
  }

  /** The insertion loop: move the section at place m down to where it belongs. */
  method InsertLast(base: array<Sect>, m: nat)
    requires 0 < m < base.Length && Sorted(base[..m])
    modifies base
    ensures Sorted(base[..m + 1]) && multiset(base[..]) == old(multiset(base[..]))
  {
    hide Inserting, Sorted, Swapped;
    var i: int := m - 1;
    StartInserting(base[..], m);
    ghost var all := multiset(base[..]);
    while i >= 0 && base[i].start > base[i + 1].start
      invariant -1 <= i < m && Inserting(base[..], m + 1, i + 1) && multiset(base[..]) == all
    {
      InsertStep(base[..], m + 1, i + 1);
      SwapSame(base[..], i);
      Swap(base, i);
      i := i - 1;
    }
    InsertDone(base[..], m + 1, i + 1);
  }

  method Swap(base: array<Sect>, i: nat)
    requires i + 1 < base.Length
    modifies base
    ensures base[..] == Swapped(old(base[..]), i)
  {
    var tmp := base[i];
    base[i] := base[i + 1];
    base[i + 1] := tmp;
  }

  lemma StartInserting(s: seq<Sect>, m: nat)
    requires m < |s| && Sorted(s[..m])
    ensures Inserting(s, m + 1, m)
  {
  }

  // ----- Sorted sections are apart if they were disjoint before -----

  lemma TwiceIn(s: seq<Sect>, i: nat, j: nat)
    requires i < j < |s| && s[i] == s[j]
    ensures multiset(s)[s[i]] >= 2
  {
    assert s == s[..j] + s[j..];
    assert s[i] in s[..j] && s[j..][0] == s[i];
  }

  lemma {:induction false} TwoPlaces(s: seq<Sect>, x: Sect)
    requires multiset(s)[x] >= 2
    ensures exists i, j :: 0 <= i < j < |s| && s[i] == x && s[j] == x
    decreases |s|
  {
    var n := |s| - 1;
    assert s == s[..n] + [s[n]];
    if s[n] != x {
      TwoPlaces(s[..n], x);
      var i, j :| 0 <= i < j < n && s[..n][i] == x && s[..n][j] == x;
      assert s[i] == x && s[j] == x;
    } else {
      assert x in multiset(s[..n]);
      var i :| 0 <= i < n && s[..n][i] == x;
      assert s[i] == x && s[n] == x;
    }
  }

  lemma SortedApart(s: seq<Sect>, t: seq<Sect>)
    requires Disjoint(s) && multiset(s) == multiset(t) && Sorted(t)
    ensures Apart(t) && forall x: nat :: Within(t, x) <==> Within(s, x)
  {
    forall i, j | 0 <= i < j < |t| ensures t[i].End() <= t[j].start {
      assert t[i] in multiset(s) && t[j] in multiset(s);
      var a :| 0 <= a < |s| && s[a] == t[i];
      var b :| 0 <= b < |s| && s[b] == t[j];
      if t[i] == t[j] {
        TwiceIn(t, i, j);
        TwoPlaces(s, t[i]);
      }
    }
    SameWithin(s, t);
    SameWithin(t, s);
  }

  lemma SameWithin(s: seq<Sect>, t: seq<Sect>)
    requires multiset(s) == multiset(t)
    ensures forall x: nat | Within(s, x) :: Within(t, x)
  {
    forall x: nat | Within(s, x) ensures Within(t, x) {
      var a :| 0 <= a < |s| && s[a].start <= x < s[a].End();
      assert s[a] in multiset(t);
      var b :| 0 <= b < |t| && t[b] == s[a];
    }
  }

  // ----- The gap walk -----

  /** The ranges cover exactly the mapping minus the sections, no address twice. */
  ghost predicate Gaps(s: seq<Sect>, start: nat, end: nat, added: seq<Range>) {
    Ordered(added) && forall x: nat :: Covered(added, x) <==> start <= x < end && !Within(s, x)
  }

  /** Registered so far: what lies in the mapping before from and in no section. */
  ghost predicate Walked(s: seq<Sect>, start: nat, from: nat, end: nat, added: seq<Range>) {
    && Ordered(added) && (added != [] ==> added[|added| - 1].end <= from)
    && forall x: nat :: Covered(added, x) <==> start <= x < from && x < end && !Within(s, x)
  }

  /** The part of GC_register_map_entries that registers one writable mapping: the ranges added. */
  method RegisterMapping(ourMemory: array<Sect>, start: nat, end: nat) returns (added: seq<Range>)
    requires 0 < ourMemory.Length && Apart(ourMemory[..]) && start <= end
    ensures Gaps(ourMemory[..], start, end, added)
  {
    hide Gaps, Walked, Apart;
    var n := ourMemory.Length;
    ghost var s := ourMemory[..];
    assert forall j | 0 <= j < n :: s[j] == ourMemory[j];
    var leastHa, greatestHa := ourMemory[0].start, ourMemory[n - 1].End();
    if end <= leastHa || start >= greatestHa {
      Untouched(s, start, end);
      return [Range(start, end)];
    }
    var from, i := start, 0;
    while ourMemory[i].End() < from
      invariant i < n && forall j | 0 <= j < i :: s[j].End() <= from
      decreases n - i
    {
      i := i + 1;
    }
    added := [];
    if ourMemory[i].start <= from {
      from := ourMemory[i].End();
      i := i + 1;
    }
    FirstGap(s, start, from, end, i);
    while i < n && ourMemory[i].start < end && from < end
      invariant i <= n && start <= from && Walked(s, start, from, end, added)
      invariant forall j | 0 <= j < i :: s[j].End() <= from
      invariant forall j | i <= j < n :: from <= s[j].start
    {
      NextGap(s, start, from, end, added, i);
      if from < ourMemory[i].start {
        added := added + [Range(from, ourMemory[i].start)];
      }
      from := ourMemory[i].End();
      i := i + 1;
    }
    LastGap(s, start, from, end, added, i);
    if from < end {
      added := added + [Range(from, end)];
    }
  }

  lemma Untouched(s: seq<Sect>, start: nat, end: nat)
    requires s != [] && Apart(s) && (end <= s[0].start || s[|s| - 1].End() <= start) && start <= end
    ensures Gaps(s, start, end, [Range(start, end)])
  {
    forall x: nat ensures Covered([Range(start, end)], x) <==> start <= x < end && !Within(s, x) {
      if start <= x < end {
        assert [Range(start, end)][0].start <= x < [Range(start, end)][0].end;
        forall i | 0 <= i < |s| ensures !(s[i].start <= x < s[i].End()) {
          assert i < |s| - 1 ==> s[i].End() <= s[|s| - 1].start;
          assert 0 < i ==> s[0].End() <= s[i].start;
        }
      }
    }
  }

  /** The walk starts where the mapping does, or after the section it starts in. */
  lemma FirstGap(s: seq<Sect>, start: nat, from: nat, end: nat, i: nat)
    requires Apart(s) && start <= from && i <= |s|
    requires (from == start && i < |s| && start < s[i].start) || (0 < i && from == s[i - 1].End() && s[i - 1].start <= start)
    ensures Walked(s, start, from, end, []) && forall j | i <= j < |s| :: from <= s[j].start
  {
  }

  lemma NextGap(s: seq<Sect>, start: nat, from: nat, end: nat, added: seq<Range>, i: nat)
    requires Apart(s) && Walked(s, start, from, end, added) && i < |s| && s[i].start < end && start <= from < end
    requires (forall j | 0 <= j < i :: s[j].End() <= from) && (forall j | i <= j < |s| :: from <= s[j].start)
    ensures var p := if from < s[i].start then added + [Range(from, s[i].start)] else added;
      Walked(s, start, s[i].End(), end, p)
    ensures (forall j | 0 <= j <= i :: s[j].End() <= s[i].End()) && (forall j | i < j < |s| :: s[i].End() <= s[j].start)
  {
    if from < s[i].start {
      CoveredMore(added, Range(from, s[i].start));
    }
    forall x: nat | from <= x < s[i].End() ensures Within(s, x) <==> s[i].start <= x {
      assert forall j | i < j < |s| :: s[i].End() <= s[j].start;
    }
  }

  lemma LastGap(s: seq<Sect>, start: nat, from: nat, end: nat, added: seq<Range>, i: nat)
    requires Walked(s, start, from, end, added) && i <= |s| && start <= from
    requires forall j | 0 <= j < i :: s[j].End() <= from
    requires i < |s| ==> end <= s[i].start || end <= from
    requires Apart(s)
    ensures var p := if from < end then added + [Range(from, end)] else added;
      Gaps(s, start, end, p)
  {
    if from < end {
      CoveredMore(added, Range(from, end));
      forall x: nat | from <= x < end ensures !Within(s, x) {
        assert forall j | i < j < |s| :: s[i].End() <= s[j].start;
      }
    }
  }
}
