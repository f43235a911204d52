/** Address ranges: the exclusion table for static roots, the static roots themselves, and the parts of a
    mapping that lie between the collector's own sections. */
module Exclusions {

  const MAX_EXCLUSIONS: nat := 512
  const MAX_ROOT_SETS: nat := 2048

  /** The addresses from start up to but not including end. */
  datatype Range = Range(start: nat, end: nat)

  ghost predicate Covered(s: seq<Range>, x: nat) {
    exists i :: 0 <= i < |s| && s[i].start <= x < s[i].end
  }

  /** Ascending, without overlap. */
  ghost predicate Ordered(s: seq<Range>) {
    && (forall i | 0 <= i < |s| :: s[i].start <= s[i].end)
    && (forall i, j | 0 <= i < j < |s| :: s[i].end <= s[j].start)
  }

  /** What becomes of a range to be excluded. The others are aborts: on ranges that overlap, on a full table,
      and on a full table after the loop that makes room has written the entry past its end. */
  datatype Exclusion = Added | Overlap | TooMany | Overrun

  /** No range of s has an address in common with [start, finish), or encloses it. */
  ghost predicate Free(s: seq<Range>, start: nat, finish: nat) {
    forall j | 0 <= j < |s| :: s[j].end <= start || finish <= s[j].start
  }

  ghost predicate AllBefore(s: seq<Range>, start: nat) {
    forall j | 0 <= j < |s| :: s[j].end <= start
  }

  /** [start, finish) has its place right before range k, which begins later. */
  ghost predicate Precedes(s: seq<Range>, k: nat, start: nat, finish: nat) {
    k < |s| && AllBefore(s[..k], start) && start < s[k].end && finish < s[k].start
  }

  ghost predicate MakesRoom(s: seq<Range>, start: nat, finish: nat) {
    exists k :: Precedes(s, k, start, finish)
  }

  /** A caller can tell beforehand: room is made unless all ranges end before, or one of them is met. */
  lemma MakesRoomIff(s: seq<Range>, start: nat, finish: nat)
    requires Ordered(s) && start <= finish
    ensures MakesRoom(s, start, finish) <==>
      !AllBefore(s, start) && forall j | 0 <= j < |s| && start < s[j].end :: finish < s[j].start
  {
    if !AllBefore(s, start) && forall j | 0 <= j < |s| && start < s[j].end :: finish < s[j].start {
      var k := FirstAfter(s, start, 0);
      assert Precedes(s, k, start, finish);
    }
  }

  function FirstAfter(s: seq<Range>, start: nat, i: nat): (k: nat)
    requires i <= |s|
    ensures i <= k <= |s| && (k < |s| ==> start < s[k].end) && forall j | i <= j < k :: s[j].end <= start
    decreases |s| - i
  {
    if i == |s| || start < s[i].end then i else FirstAfter(s, start, i + 1)
  }

  /** What a full table holds once room has been made at place k: range k twice, and the last one lost past its end. */
  ghost function Overrunning(s: seq<Range>, k: nat): seq<Range>
    requires k < |s|
  {
    s[..k + 1] + s[k..|s| - 1]
  }

  /** A full table of ranges of one address each, nine apart, and a range below all of them. */
  lemma FullTableOverruns()
    ensures var s := seq(MAX_EXCLUSIONS, i requires 0 <= i => Range(10 * i + 9, 10 * i + 10));
      |s| == MAX_EXCLUSIONS && Ordered(s) && Free(s, 0, 5) && MakesRoom(s, 0, 5)
  {
    var s := seq(MAX_EXCLUSIONS, i requires 0 <= i => Range(10 * i + 9, 10 * i + 10));
    assert Precedes(s, 0, 0, 5);
  }

  class ExclusionTable {
    const table: array<Range>          // GC_excl_table
    var entries: nat

    ghost predicate Valid()
      reads this, table
    {
      table.Length == MAX_EXCLUSIONS && entries <= MAX_EXCLUSIONS && Ordered(Excluded())
    }

    ghost function Excluded(): seq<Range>
      reads this, table
    {
      if entries <= table.Length then table[..entries] else []
    }

    constructor ()
      ensures Valid() && entries == 0 && fresh(table)
    {
      table := new Range[MAX_EXCLUSIONS](_ => Range(0, 0));
      entries := 0;
    }

    /** GC_next_exclusion: the first range that includes an address at or after start. */
    method NextExclusion(start: nat) returns (found: bool, k: nat)
      requires Valid() && 0 < entries
      ensures k < entries && (found <==> start < table[k].end)
      ensures forall j | 0 <= j < k :: table[j].end <= start
      ensures !found ==> forall j | 0 <= j < entries :: table[j].end <= start
    {
      var low, high := 0, entries - 1;
      EndsAscend();
      while high > low
        invariant low <= high < entries
        invariant forall j | 0 <= j < low :: table[j].end <= start
        invariant high < entries - 1 ==> start < table[high].end
      {
        var mid := (low + high) / 2;
        if table[mid].end <= start {
          low := mid + 1;
        } else {
          high := mid;
        }
      }
      k := low;
      found := !(table[low].end <= start);
    }

    lemma EndsAscend()
      requires Valid()
      ensures forall i, j | 0 <= i <= j < entries :: table[i].end <= table[j].end
    {
    }

    /** GC_exclude_static_roots. */
    method ExcludeStaticRoots(start: nat, finish: nat) returns (r: Exclusion)
      requires Valid() && start <= finish
      modifies this`entries, table
      ensures r != Overrun ==> Valid()
      ensures r == Overlap <==> !Free(old(Excluded()), start, finish)
      ensures r == TooMany <==> old(entries) == MAX_EXCLUSIONS && AllBefore(old(Excluded()), start)
      ensures r == Overrun <==> old(entries) == MAX_EXCLUSIONS && MakesRoom(old(Excluded()), start, finish)
      ensures r == Overlap || r == TooMany ==> Excluded() == old(Excluded())
      ensures r == Overrun ==> Excluded() == Overrunning(old(Excluded()), FirstAfter(old(Excluded()), start, 0))
      ensures r == Added ==>
        forall x: nat :: Covered(Excluded(), x) <==> Covered(old(Excluded()), x) || start <= x < finish
    {
      ghost var s := Excluded();
      MakesRoomIff(s, start, finish);
      hide MakesRoom, Overrunning;
      var found, k := false, 0;
      if entries != 0 {
        found, k := NextExclusion(start);
        assert forall j | 0 <= j < entries :: s[j] == table[j];
      }
      if !found {
        k := entries;
      }
      assert forall j | 0 <= j < k :: s[j].end <= start;
      if found {
        if table[k].start < finish {
          return Overlap;
        }
        LaterStarts(s, k, finish);
        if table[k].start == finish {
          table[k] := Range(start, table[k].end);
          Extended(s, Excluded(), k, start, finish);
          return Added;
        }
        assert finish < s[k].start && start < s[k].end;
        OnlyPlace(s, k, start);
      }
      r := MakeRoom(k, start, finish);
    }

    /** The rest of it, for a range that belongs into place k. */
    method MakeRoom(k: nat, start: nat, finish: nat) returns (r: Exclusion)
      requires Valid() && start <= finish && k <= entries
      requires forall j | 0 <= j < k :: table[j].end <= start
      requires forall j | k <= j < entries :: finish <= table[j].start
      modifies this`entries, table
      ensures r == if old(entries) < MAX_EXCLUSIONS then Added else if k < old(entries) then Overrun else TooMany
      ensures r != Overrun ==> Valid()
      ensures r == TooMany ==> Excluded() == old(Excluded())
      ensures r == Overrun ==> Excluded() == Overrunning(old(Excluded()), k)
      ensures r == Added ==>
        forall x: nat :: Covered(Excluded(), x) <==> Covered(old(Excluded()), x) || start <= x < finish
    {
      hide Covered, Ordered;
      ghost var s := Excluded();
      var overrun := false;
      if k < entries {
        overrun := Shift(k);
      }
      if overrun {
        return Overrun;
      }
      if entries == MAX_EXCLUSIONS {
        return TooMany;
      }
      Fill(k, start, finish);
      assert s[..k] == old(table[..k]) && s[k..] == old(table[k..entries]);
      Inserted(s, Excluded(), k, start, finish);
      r := Added;
    }

    /** Put a range into place k, where there is room for it. */
    method Fill(k: nat, start: nat, finish: nat)
      requires table.Length == MAX_EXCLUSIONS && k <= entries < MAX_EXCLUSIONS
      modifies this`entries, table
      ensures entries == old(entries) + 1 <= table.Length
      ensures table[..entries] == old(table[..k]) + [Range(start, finish)] + old(table[k + 1..entries + 1])
    {
      table[k] := Range(start, finish);
      entries := entries + 1;
      assert table[..entries] == table[..k] + [table[k]] + table[k + 1..entries];
    }

    lemma OnlyPlace(s: seq<Range>, k: nat, start: nat)
      requires k < |s| && start < s[k].end && forall j | 0 <= j < k :: s[j].end <= start
      ensures k == FirstAfter(s, start, 0)
    {
    }

    /** The loop that makes room at place k; overrun says that it has written an entry past the end of the table. */
    method Shift(k: nat) returns (overrun: bool)
      requires table.Length == MAX_EXCLUSIONS && k < entries <= MAX_EXCLUSIONS
      modifies table
      ensures overrun <==> entries == MAX_EXCLUSIONS
      ensures overrun ==> Excluded() == Overrunning(old(Excluded()), k)
      ensures !overrun ==> table[..k] == old(table[..k]) && table[k + 1..entries + 1] == old(table[k..entries])
    {
      hide Overrunning, Ordered;
      overrun := false;
      var i := entries;
      while i > k
        invariant k <= i <= entries && (overrun <==> i < entries == MAX_EXCLUSIONS)
        invariant forall j | 0 <= j <= i && j < MAX_EXCLUSIONS :: table[j] == old(table[j])
        invariant forall j | i < j <= entries && j < MAX_EXCLUSIONS :: table[j] == old(table[j - 1])
      {
        if i < table.Length {
          table[i] := table[i - 1];
        } else {
          overrun := true;
        }
        i := i - 1;
      }
      Shifted(old(table[..]), table[..], k, entries);
      assert entries == MAX_EXCLUSIONS ==> table[..] == Excluded() && old(table[..]) == old(Excluded());
      assert table[..][..k] == table[..k] && old(table[..])[..k] == old(table[..k]);
      assert entries < MAX_EXCLUSIONS ==>
          table[..][k + 1..entries + 1] == table[k + 1..entries + 1] && old(table[..])[k..entries] == old(table[k..entries]);
    }

    static lemma Shifted(s: seq<Range>, s': seq<Range>, k: nat, n: nat)
      requires |s| == |s'| == MAX_EXCLUSIONS && k < n <= MAX_EXCLUSIONS
      requires forall j | 0 <= j <= k :: s'[j] == s[j]
      requires forall j | k < j <= n && j < MAX_EXCLUSIONS :: s'[j] == s[j - 1]
      ensures n == MAX_EXCLUSIONS ==> s' == Overrunning(s, k)
      ensures n < MAX_EXCLUSIONS ==> s'[..k] == s[..k] && s'[k + 1..n + 1] == s[k..n]
    {
    }

    /** GC_push_conditional_with_exclusions: the ranges it pushes. */
    method PushWithExclusions(bottom: nat, top: nat) returns (pushed: seq<Range>)
      requires Valid() && 0 < entries
      ensures Ordered(pushed) && forall x: nat :: Covered(pushed, x) <==> bottom <= x < top && !Covered(Excluded(), x)
    {
      ghost var s := Excluded();
      assert forall j | 0 <= j < entries :: s[j] == table[j];
      pushed := [];
      var from := bottom;
      while from < top
        invariant bottom <= from && Pushed(s, bottom, from, top, pushed)
        decreases top - from
      {
        var found, next := NextExclusion(from);
        if !found || table[next].start >= top {
          LastPush(s, bottom, from, top, pushed, if found then next else entries);
          pushed := pushed + [Range(from, top)];
          return;
        }
        NextPush(s, bottom, from, top, pushed, next);
        if table[next].start > from {
          pushed := pushed + [Range(from, table[next].start)];
        }
        from := table[next].end;
      }
      AllPushed(s, bottom, from, top, pushed);
    }
  }

  lemma LaterStarts(s: seq<Range>, k: nat, finish: nat)
    requires Ordered(s) && k < |s| && finish <= s[k].start
    ensures forall j | k <= j < |s| :: finish <= s[j].start
  {
  }

  /** Range k has been extended backwards from finish to start. */
  lemma Extended(s: seq<Range>, s': seq<Range>, k: nat, start: nat, finish: nat)
    requires Ordered(s) && k < |s| && start <= finish == s[k].start && s' == s[k := Range(start, s[k].end)]
    requires forall j | 0 <= j < k :: s[j].end <= start
    ensures Ordered(s') && forall x: nat :: Covered(s', x) <==> Covered(s, x) || start <= x < finish
  {
    forall x: nat ensures Covered(s', x) <==> Covered(s, x) || start <= x < finish {
      if i :| 0 <= i < |s| && s[i].start <= x < s[i].end {
        assert s'[i].start <= x < s'[i].end;
      } else if start <= x < finish {
        assert s'[k].start <= x < s'[k].end;
      }
    }
  }

  lemma Inserted(s: seq<Range>, s': seq<Range>, k: nat, start: nat, finish: nat)
    requires Ordered(s) && k <= |s| && start <= finish && s' == s[..k] + [Range(start, finish)] + s[k..]
    requires (forall j | 0 <= j < k :: s[j].end <= start) && (forall j | k <= j < |s| :: finish <= s[j].start)
    ensures Ordered(s') && forall x: nat :: Covered(s', x) <==> Covered(s, x) || start <= x < finish
  {
    forall x: nat ensures Covered(s', x) <==> Covered(s, x) || start <= x < finish {
      if i :| 0 <= i < |s| && s[i].start <= x < s[i].end {
        assert s'[if i < k then i else i + 1] == s[i];
      } else if start <= x < finish {
        assert s'[k] == Range(start, finish);
      }
      if i :| 0 <= i < |s'| && s'[i].start <= x < s'[i].end {
        assert i != k ==> s'[i] == s[if i < k then i else i - 1];
      }
    }
  }

  /** What has been pushed: everything between bottom and from (and below top) that is not excluded. */
  ghost predicate Pushed(s: seq<Range>, bottom: nat, from: nat, top: nat, pushed: seq<Range>) {
    && Ordered(pushed) && (pushed != [] ==> pushed[|pushed| - 1].end <= from)
    && forall x: nat :: Covered(pushed, x) <==> bottom <= x < from && x < top && !Covered(s, x)
  }

  lemma CoveredMore(s: seq<Range>, r: Range)
    requires Ordered(s) && r.start <= r.end && (s != [] ==> s[|s| - 1].end <= r.start)
    ensures Ordered(s + [r]) && forall x: nat :: Covered(s + [r], x) <==> Covered(s, x) || r.start <= x < r.end
  {
    var w := s + [r];
    forall x: nat ensures Covered(w, x) <==> Covered(s, x) || r.start <= x < r.end {
      if i :| 0 <= i < |s| && s[i].start <= x < s[i].end {
        assert w[i] == s[i];
      }
      assert w[|s|] == r;
    }
  }

  lemma LastPush(s: seq<Range>, bottom: nat, from: nat, top: nat, pushed: seq<Range>, k: nat)
    requires Ordered(s) && Pushed(s, bottom, from, top, pushed) && bottom <= from < top && k <= |s|
    requires (forall j | 0 <= j < k :: s[j].end <= from) && (k < |s| ==> top <= s[k].start)
    ensures Ordered(pushed + [Range(from, top)])
    ensures forall x: nat :: Covered(pushed + [Range(from, top)], x) <==> bottom <= x < top && !Covered(s, x)
  {
    CoveredMore(pushed, Range(from, top));
    assert forall j | k < j < |s| :: s[k].start <= s[k].end <= s[j].start;
    forall x: nat | from <= x < top ensures !Covered(s, x) {
    }
  }

  lemma NextPush(s: seq<Range>, bottom: nat, from: nat, top: nat, pushed: seq<Range>, k: nat)
    requires Ordered(s) && Pushed(s, bottom, from, top, pushed) && bottom <= from < top && k < |s|
    requires (forall j | 0 <= j < k :: s[j].end <= from) && from < s[k].end && s[k].start < top
    ensures var p := if s[k].start > from then pushed + [Range(from, s[k].start)] else pushed;
      Pushed(s, bottom, s[k].end, top, p)
  {
    var p := if s[k].start > from then pushed + [Range(from, s[k].start)] else pushed;
    if s[k].start > from {
      CoveredMore(pushed, Range(from, s[k].start));
    }
    forall x: nat | from <= x < s[k].end ensures Covered(s, x) <==> s[k].start <= x {
      assert forall j | k < j < |s| :: s[k].end <= s[j].start;
    }
  }

  lemma AllPushed(s: seq<Range>, bottom: nat, from: nat, top: nat, pushed: seq<Range>)
    requires Pushed(s, bottom, from, top, pushed) && top <= from
    ensures forall x: nat :: Covered(pushed, x) <==> bottom <= x < top && !Covered(s, x)
  {
  }

  // ----- Static roots -----

  datatype RootSet = RootSet(start: nat, end: nat, tmp: bool)

  ghost predicate Rooted(s: seq<RootSet>, x: nat) {
    exists i :: 0 <= i < |s| && s[i].start <= x < s[i].end
  }

  ghost predicate Proper(s: seq<RootSet>) {
    forall i | 0 <= i < |s| :: s[i].start <= s[i].end
  }

  class StaticRoots {
    const sets: array<RootSet>         // GC_static_roots
    var n: nat                         // n_root_sets

    ghost predicate Valid()
      reads this, sets
    {
      sets.Length == MAX_ROOT_SETS && n <= MAX_ROOT_SETS && Proper(Roots())
    }

    ghost function Roots(): seq<RootSet>
      reads this, sets
    {
      if n <= sets.Length then sets[..n] else []
    }

    constructor ()
      ensures Valid() && n == 0 && fresh(sets)
    {
      sets := new RootSet[MAX_ROOT_SETS](_ => RootSet(0, 0, false));
      n := 0;
    }

    /** GC_add_roots_inner: false stands for the abort on a full table, and i is the entry that takes the range in. */
    method AddRoots(b: nat, e: nat, tmp: bool) returns (ok: bool, i: nat)
      requires Valid() && b <= e
      modifies this`n, sets
      ensures Valid() && (ok ==> forall x: nat :: Rooted(Roots(), x) <==> Rooted(old(Roots()), x) || b <= x < e)
      ensures !ok ==> Roots() == old(Roots()) && old(n) == MAX_ROOT_SETS
      // It is the first of its kind that overlaps the range or touches it, which then absorbs others; or else a new
      // one.
      ensures i <= old(n) && forall j | 0 <= j < i :: !Meets(old(Roots())[j], RootSet(b, e, tmp))
      ensures i < old(n) ==> ok && Meets(old(Roots())[i], RootSet(b, e, tmp))
      ensures i < old(n) ==> Roots() == Absorbed(old(Roots())[i := Widened(old(Roots())[i], b, e)], i, i + 1)
      ensures i == old(n) ==> if ok then Roots() == old(Roots()) + [RootSet(b, e, tmp)] else old(n) == MAX_ROOT_SETS
    {
      i := 0;
      while i < n && !(b <= sets[i].end && e >= sets[i].start && tmp == sets[i].tmp)
        invariant i <= n && forall j | 0 <= j < i :: !Meets(Roots()[j], RootSet(b, e, tmp))
      {
        i := i + 1;
      }
      if i < n {
        ghost var s := Roots();
        Widen(i, b, e);
        WidenedCovers(s, Roots(), i, b, e);
        MergeOthers(i);
        return true, i;
      }
      if n == MAX_ROOT_SETS {
        return false, i;
      }
      ghost var s := Roots();
      sets[n] := RootSet(b, e, tmp);
      n := n + 1;
      assert Roots() == s + [RootSet(b, e, tmp)];
      AppendedCovers(s, RootSet(b, e, tmp));
      ok := true;
    }

    /** Let entry k take in [b, e), which overlaps it or touches it. */
    method Widen(k: nat, b: nat, e: nat)
      requires Valid() && k < n
      modifies sets
      ensures Roots() == old(Roots())[k := Widened(old(Roots())[k], b, e)]
    {
      if b < sets[k].start {
        sets[k] := sets[k].(start := b);
      }
      if e > sets[k].end {
        sets[k] := sets[k].(end := e);
      }
    }

    /** The second loop: merge later entries into entry k. The last entry moves into the place of one that
        is merged, without its kind, and that place is not looked at again. */
    method MergeOthers(k: nat)
      requires Valid() && k < n
      modifies this`n, sets
      ensures Valid() && forall x: nat :: Rooted(Roots(), x) <==> Rooted(old(Roots()), x)
      ensures Roots() == Absorbed(old(Roots()), k, k + 1)
    {
      hide Absorbed;
      var i := k + 1;
      while i < n
        invariant k < i && k < n && Valid() && forall x: nat :: Rooted(Roots(), x) <==> Rooted(old(Roots()), x)
        invariant Absorbed(Roots(), k, i) == Absorbed(old(Roots()), k, k + 1)
        decreases n - i
      {
        var b, e, tmp := sets[i].start, sets[i].end, sets[i].tmp;
        if b <= sets[k].end && e >= sets[k].start && tmp == sets[k].tmp {
          ghost var s := Roots();
          Widen(k, b, e);
          ghost var s1 := Roots();
          WidenedCovers(s, s1, k, b, e);
          sets[i] := RootSet(sets[n - 1].start, sets[n - 1].end, sets[i].tmp);
          n := n - 1;
          DeletedCovers(s1, Roots(), k, i, b, e);
          AbsorbsNext(s, k, i);
          assert Roots() == s1[i := RootSet(s1[|s1| - 1].start, s1[|s1| - 1].end, s1[i].tmp)][..|s1| - 1];
        } else {
          AbsorbsNext(Roots(), k, i);
        }
        i := i + 1;
      }
      AbsorbsNext(Roots(), k, i);
    }
  }

  /** Two ranges of the same kind overlap or touch. */
  predicate Meets(r: RootSet, other: RootSet) {
    other.start <= r.end && r.start <= other.end && other.tmp == r.tmp
  }

  /** What the second loop makes of s from entry i on: entry k absorbs those that it meets, and each time the last range
      takes over the place, but not the kind, and is passed over. */
  function Absorbed(s: seq<RootSet>, k: nat, i: nat): seq<RootSet>
    requires k < |s| && k < i
    decreases |s| - i
  {
    if |s| <= i then s
    else if Meets(s[k], s[i]) then
      var last := RootSet(s[|s| - 1].start, s[|s| - 1].end, s[i].tmp);
      Absorbed(s[k := Widened(s[k], s[i].start, s[i].end)][i := last][..|s| - 1], k, i + 1)
    else Absorbed(s, k, i + 1)
  }

  lemma AbsorbsNext(s: seq<RootSet>, k: nat, i: nat)
    requires k < |s| && k < i
    ensures Absorbed(s, k, i) == if |s| <= i then s
      else if Meets(s[k], s[i]) then
        Absorbed(s[k := Widened(s[k], s[i].start, s[i].end)]
                  [i := RootSet(s[|s| - 1].start, s[|s| - 1].end, s[i].tmp)][..|s| - 1], k, i + 1)
      else Absorbed(s, k, i + 1)
  {
  }

  /** The entries before the absorbing one stay as they are, that one grows and keeps its kind, and there are not
      more. */
  lemma {:induction false} AbsorbedGrows(s: seq<RootSet>, k: nat, i: nat)
    requires k < |s| && k < i
    ensures var s' := Absorbed(s, k, i);
      && k < |s'| <= |s| && s'[..k] == s[..k] && s'[k].tmp == s[k].tmp && s'[k].start <= s[k].start && s[k].end <= s'[k].end
    decreases |s| - i
  {
    if i < |s| {
      if Meets(s[k], s[i]) {
        var last := RootSet(s[|s| - 1].start, s[|s| - 1].end, s[i].tmp);
        AbsorbedGrows(s[k := Widened(s[k], s[i].start, s[i].end)][i := last][..|s| - 1], k, i + 1);
      } else {
        AbsorbedGrows(s, k, i + 1);
      }
    }
  }

  /** What the source promises of adding a range a second time: it is found where it was, and widens nothing. */
  lemma AddedTwice(s: seq<RootSet>, k: nat, b: nat, e: nat, tmp: bool)
    requires k < |s| && Meets(s[k], RootSet(b, e, tmp)) && forall j | 0 <= j < k :: !Meets(s[j], RootSet(b, e, tmp))
    ensures var s' := Absorbed(s[k := Widened(s[k], b, e)], k, k + 1);
      && k < |s'| && Meets(s'[k], RootSet(b, e, tmp)) && (forall j | 0 <= j < k :: !Meets(s'[j], RootSet(b, e, tmp)))
      && Widened(s'[k], b, e) == s'[k]
  {
    AbsorbedGrows(s[k := Widened(s[k], b, e)], k, k + 1);
  }

  function Widened(r: RootSet, b: nat, e: nat): RootSet {
    RootSet(if b < r.start then b else r.start, if e > r.end then e else r.end, r.tmp)
  }

  lemma WidenedCovers(s: seq<RootSet>, s': seq<RootSet>, k: nat, b: nat, e: nat)
    requires Proper(s) && k < |s| && b <= e && b <= s[k].end && s[k].start <= e && s' == s[k := Widened(s[k], b, e)]
    ensures Proper(s') && forall x: nat :: Rooted(s', x) <==> Rooted(s, x) || b <= x < e
  {
    forall x: nat ensures Rooted(s', x) <==> Rooted(s, x) || b <= x < e {
      if i :| 0 <= i < |s| && s[i].start <= x < s[i].end {
        assert s'[i].start <= x < s'[i].end;
      } else if b <= x < e {
        assert s'[k].start <= x < s'[k].end;
      }
    }
  }

  lemma AppendedCovers(s: seq<RootSet>, r: RootSet)
    requires Proper(s) && r.start <= r.end
    ensures Proper(s + [r]) && forall x: nat :: Rooted(s + [r], x) <==> Rooted(s, x) || r.start <= x < r.end
  {
    var w := s + [r];
    forall x: nat ensures Rooted(w, x) <==> Rooted(s, x) || r.start <= x < r.end {
      if i :| 0 <= i < |s| && s[i].start <= x < s[i].end {
        assert w[i] == s[i];
      }
      assert w[|s|] == r;
    }
  }

  /** Entry i, which entry k has taken in, gives way to the last one. */
  lemma DeletedCovers(s: seq<RootSet>, s': seq<RootSet>, k: nat, i: nat, b: nat, e: nat)
    requires Proper(s) && k < i < |s| && s[i].start == b && s[i].end == e && s[k].start <= b && e <= s[k].end
    requires |s'| == |s| - 1 && (forall j | 0 <= j < |s'| && j != i :: s'[j] == s[j])
    requires i < |s'| ==> s'[i].start == s[|s| - 1].start && s'[i].end == s[|s| - 1].end
    ensures Proper(s') && forall x: nat :: Rooted(s', x) <==> Rooted(s, x)
  {
  }
}
