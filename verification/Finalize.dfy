/** Finalization: registration tables, the phases of GC_finalize and the queue of ready finalizers.
    The marker appears as an exact closure over a fixed object graph. */
module Finalize {
  import opened ChainedTable
  import opened Collections

  type Graph = map<Addr, seq<Addr>>      // the objects, with the objects they point to

  datatype Link = Link(obj: Addr, late: bool)
  datatype Fin = Fin(fn: nat, data: nat, level: nat)    // the item's key is the object's base

  // ----- What marking means -----

  ghost predicate Edge(g: Graph, x: Addr, y: Addr) {
    x in g && y in g[x]
  }

  ghost predicate Steps(g: Graph, x: Addr, y: Addr, n: nat)
    decreases n
  {
    if n == 0 then Edge(g, x, y) else exists z :: Edge(g, x, z) && Steps(g, z, y, n - 1)
  }

  /** y can be reached from x in one or more steps. */
  ghost predicate Reaches(g: Graph, x: Addr, y: Addr) {
    exists n: nat :: Steps(g, x, y, n)
  }

  ghost predicate WellFormed(g: Graph) {
    forall x, y | Edge(g, x, y) :: y in g
  }

  ghost predicate TargetsIn(g: Graph, x: Addr, s: set<Addr>) {
    forall y | Edge(g, x, y) :: y in s
  }

  ghost predicate Closed(g: Graph, s: set<Addr>) {
    forall x | x in s :: TargetsIn(g, x, s)
  }

  ghost predicate ReachedFrom(g: Graph, roots: set<Addr>, y: Addr) {
    exists r :: r in roots && Reaches(g, r, y)
  }

  /** m and everything that can be reached from the roots; not the roots themselves. */
  ghost function MarkedWith(g: Graph, m: set<Addr>, roots: set<Addr>): set<Addr> {
    m + set y | y in g.Keys && ReachedFrom(g, roots, y)
  }

  lemma {:induction false} StepsIn(g: Graph, x: Addr, y: Addr, n: nat, s: set<Addr>)
    requires Closed(g, s) && TargetsIn(g, x, s) && Steps(g, x, y, n)
    ensures y in s
    decreases n
  {
    if 0 < n {
      var z :| Edge(g, x, z) && Steps(g, z, y, n - 1);
      StepsIn(g, z, y, n - 1, s);
    }
  }

  /** What leaves a closed set's neighbourhood never gets out of the set. */
  lemma ReachesIn(g: Graph, x: Addr, y: Addr, s: set<Addr>)
    requires Closed(g, s) && TargetsIn(g, x, s) && Reaches(g, x, y)
    ensures y in s
  {
    hide Closed, TargetsIn;
    var n: nat :| Steps(g, x, y, n);
    StepsIn(g, x, y, n, s);
  }

  lemma {:induction false} StepsOn(g: Graph, x: Addr, y: Addr, z: Addr, n: nat)
    requires Steps(g, x, y, n) && Edge(g, y, z)
    ensures Steps(g, x, z, n + 1)
    decreases n
  {
    if n == 0 {
      assert Steps(g, y, z, 0);
    } else {
      var w :| Edge(g, x, w) && Steps(g, w, y, n - 1);
      StepsOn(g, w, y, z, n - 1);
    }
  }

  lemma OneStep(g: Graph, x: Addr, y: Addr)
    requires Edge(g, x, y)
    ensures Reaches(g, x, y)
  {
    assert Steps(g, x, y, 0);
  }

  lemma NextStep(g: Graph, x: Addr, y: Addr, z: Addr)
    requires Reaches(g, x, y) && Edge(g, y, z)
    ensures Reaches(g, x, z)
  {
    var n: nat :| Steps(g, x, y, n);
    StepsOn(g, x, y, z, n);
  }

  lemma {:induction false} StepsInGraph(g: Graph, x: Addr, y: Addr, n: nat)
    requires WellFormed(g) && Steps(g, x, y, n)
    ensures y in g
    decreases n
  {
    if 0 < n {
      var z :| Edge(g, x, z) && Steps(g, z, y, n - 1);
      StepsInGraph(g, z, y, n - 1);
    }
  }

  lemma InGraph(g: Graph, roots: set<Addr>, y: Addr)
    requires WellFormed(g) && ReachedFrom(g, roots, y)
    ensures y in g
  {
    hide WellFormed;
    var r :| r in roots && Reaches(g, r, y);
    var n: nat :| Steps(g, r, y, n);
    StepsInGraph(g, r, y, n);
  }

  lemma InMarkedWith(g: Graph, m: set<Addr>, roots: set<Addr>, y: Addr)
    requires WellFormed(g)
    ensures y in MarkedWith(g, m, roots) <==> y in m || ReachedFrom(g, roots, y)
  {
    hide WellFormed, ReachedFrom;
    if ReachedFrom(g, roots, y) {
      InGraph(g, roots, y);
    }
  }

  /** Adding what the roots reach to a set closed but for roots closes it but for the roots that stay out. */
  lemma MarkedWithClosed(g: Graph, m: set<Addr>, roots: set<Addr>)
    requires WellFormed(g) && forall x | x in m :: x in roots || TargetsIn(g, x, m)
    ensures Closed(g, MarkedWith(g, m, roots)) && forall r | r in roots :: TargetsIn(g, r, MarkedWith(g, m, roots))
  {
    hide WellFormed, MarkedWith, Reaches;
    var s := MarkedWith(g, m, roots);
    forall x, y | (x in s || x in roots) && Edge(g, x, y) ensures y in s {
      InMarkedWith(g, m, roots, x);
      InMarkedWith(g, m, roots, y);
      if x in roots {
        OneStep(g, x, y);
        assert ReachedFrom(g, roots, y);
      } else if x !in m {
        var r :| r in roots && Reaches(g, r, x);
        NextStep(g, r, x, y);
        assert ReachedFrom(g, roots, y);
      }
    }
  }

  // ----- What the phases of GC_finalize do, on sets of registrations -----

  ghost function Unmarked(fo: set<Item<Fin>>, level: nat, m: set<Addr>): set<Item<Fin>> {
    set it | it in fo && it.val.level == level && it.key !in m
  }

  /** The marks after finalize_eagers(level). */
  ghost function AfterEager(g: Graph, fo: set<Item<Fin>>, level: nat, m: set<Addr>): set<Addr> {
    var k := KeysOf(Unmarked(fo, level, m));
    MarkedWith(g, m + k, k)
  }

  /** The marks once both eager phases are over. */
  ghost function AfterEagers(g: Graph, fo: set<Item<Fin>>, m: set<Addr>): set<Addr> {
    AfterEager(g, fo, 2, AfterEager(g, fo, 1, m))
  }

  /** The marks when the remaining unmarked objects are queued: those objects are not included. */
  ghost function BeforeQueueing(g: Graph, fo: set<Item<Fin>>, m: set<Addr>): set<Addr> {
    var m2 := AfterEagers(g, fo, m);
    MarkedWith(g, m2, KeysOf(Unmarked(fo, 0, m2)))
  }

  /** The registrations queued last. */
  ghost function LastQueued(g: Graph, fo: set<Item<Fin>>, m: set<Addr>): set<Item<Fin>> {
    set it | it in fo && it.key !in BeforeQueueing(g, fo, m)
  }

  ghost function FinalMarks(g: Graph, fo: set<Item<Fin>>, m: set<Addr>): set<Addr> {
    BeforeQueueing(g, fo, m) + KeysOf(LastQueued(g, fo, m))
  }

  /** The registrations queued by the eager phases. */
  ghost function EagersOf(g: Graph, fo: set<Item<Fin>>, m: set<Addr>): set<Item<Fin>> {
    Unmarked(fo, 1, m) + Unmarked(fo, 2, AfterEager(g, fo, 1, m))
  }

  /** Everything queued. */
  ghost function Queued(g: Graph, fo: set<Item<Fin>>, m: set<Addr>): set<Item<Fin>> {
    EagersOf(g, fo, m) + LastQueued(g, fo, m)
  }

  lemma EagerCloses(g: Graph, fo: set<Item<Fin>>, level: nat, m: set<Addr>)
    requires WellFormed(g) && Closed(g, m)
    ensures var m' := AfterEager(g, fo, level, m);
      Closed(g, m') && m <= m' && forall it | it in fo && it.val.level == level :: it.key in m'
  {
    hide WellFormed, ReachedFrom;
    var k := KeysOf(Unmarked(fo, level, m));
    forall x | x in m + k ensures x in k || TargetsIn(g, x, m + k) {
    }
    MarkedWithClosed(g, m + k, k);
    forall it | it in fo && it.val.level == level ensures it.key in m + k {
      assert it.key !in m ==> it in Unmarked(fo, level, m);
    }
  }

  /** Level 1 disregards cycles and order altogether: all unmarked objects of that level are queued. Those of
      level 2 are queued unless level 1 objects lead to them. */
  lemma EagersQueued(g: Graph, fo: set<Item<Fin>>, m: set<Addr>, it: Item<Fin>)
    requires WellFormed(g) && Closed(g, m) && it in fo && 1 <= it.val.level <= 2
    requires forall x, y | x in fo && y in fo && x.key == y.key :: x == y
    ensures it.val.level == 1 ==> (it in Queued(g, fo, m) <==> it.key !in m)
    ensures it.val.level == 2 ==> (it in Queued(g, fo, m) <==>
      it.key !in m && !exists x :: x in fo && x.val.level == 1 && x.key !in m && Reaches(g, x.key, it.key))
  {
    hide WellFormed, Closed, Reaches, MarkedWith;
    var m1, k := AfterEager(g, fo, 1, m), KeysOf(Unmarked(fo, 1, m));
    EagerCloses(g, fo, 1, m);
    EagerCloses(g, fo, 2, m1);
    MoreMarks(g, fo, m);
    InMarkedWith(g, m + k, k, it.key);
    if it.val.level == 2 {
      assert it.key !in k;
      if ReachedFrom(g, k, it.key) {
        var r :| r in k && Reaches(g, r, it.key);
        var x :| x in Unmarked(fo, 1, m) && x.key == r;
      }
      forall x | x in fo && x.val.level == 1 && x.key !in m && Reaches(g, x.key, it.key)
        ensures ReachedFrom(g, k, it.key)
      {
        assert x in Unmarked(fo, 1, m);
        assert x.key in k;
      }
    }
  }

  lemma MoreMarks(g: Graph, fo: set<Item<Fin>>, m: set<Addr>)
    ensures m <= AfterEager(g, fo, 1, m) <= AfterEagers(g, fo, m) <= BeforeQueueing(g, fo, m) <= FinalMarks(g, fo, m)
  {
  }

  /** The non-eager objects that are queued: unmarked after the eager phases and beyond the reach of every
      object of that kind, themselves included. */
  lemma QueueExact(g: Graph, fo: set<Item<Fin>>, m: set<Addr>, it: Item<Fin>)
    requires WellFormed(g) && it in fo && it.val.level == 0
    ensures var m2 := AfterEagers(g, fo, m);
      it in Queued(g, fo, m) <==>
      it.key !in m2 && !exists x :: x in fo && x.val.level == 0 && x.key !in m2 && Reaches(g, x.key, it.key)
  {
    hide WellFormed, Reaches, MarkedWith, AfterEagers;
    var m2 := AfterEagers(g, fo, m);
    var u := KeysOf(Unmarked(fo, 0, m2));
    InMarkedWith(g, m2, u, it.key);
    if ReachedFrom(g, u, it.key) {
      var r :| r in u && Reaches(g, r, it.key);
      var x :| x in Unmarked(fo, 0, m2) && x.key == r;
    }
    forall x | x in fo && x.val.level == 0 && x.key !in m2 && Reaches(g, x.key, it.key)
      ensures ReachedFrom(g, u, it.key)
    {
      assert x in Unmarked(fo, 0, m2);
      assert x.key in u;
    }
  }

  /** The unmarked registrations at the levels that are marked from. */
  ghost function Live(fo: set<Item<Fin>>, m: set<Addr>): set<Item<Fin>> {
    set it | it in fo && it.val.level <= 2 && it.key !in m
  }

  /** In one step what the phases come to: every registered object is marked in the end, and whatever the unmarked
      ones at levels 0, 1 and 2 reach. */
  lemma FinalMarksAre(g: Graph, fo: set<Item<Fin>>, m: set<Addr>)
    requires WellFormed(g) && Closed(g, m)
    ensures FinalMarks(g, fo, m) == MarkedWith(g, m + KeysOf(fo), KeysOf(Live(fo, m)))
  {
    hide WellFormed, Closed, MarkedWith, Reaches, ReachedFrom, AfterEager, AfterEagers, BeforeQueueing;
    var all, live, b := m + KeysOf(fo), KeysOf(Live(fo, m)), BeforeQueueing(g, fo, m);
    MoreMarks(g, fo, m);
    forall y | y in FinalMarks(g, fo, m) ensures y in MarkedWith(g, all, live) {
      InMarkedWith(g, all, live, y);
      if y in b {
        MarkedByPhases(g, fo, m, y);
      }
    }
    forall y | y in MarkedWith(g, all, live) ensures y in FinalMarks(g, fo, m) {
      InMarkedWith(g, all, live, y);
      if y in KeysOf(fo) {
        var it :| it in fo && it.key == y;
        assert y !in b ==> it in LastQueued(g, fo, m);
      } else if y !in m {
        LiveMarks(g, fo, m, y);
      }
    }
  }

  /** What a phase adds to the marks are the unmarked objects of its level, and what they reach. */
  lemma PhaseAdds(g: Graph, fo: set<Item<Fin>>, level: nat, m0: set<Addr>, m: set<Addr>, extra: set<Addr>, y: Addr)
    requires WellFormed(g) && level <= 2 && m0 <= m && extra <= KeysOf(Unmarked(fo, level, m))
    ensures var k := KeysOf(Unmarked(fo, level, m));
      y in MarkedWith(g, m + extra, k) ==> y in m || y in KeysOf(fo) || ReachedFrom(g, KeysOf(Live(fo, m0)), y)
  {
    hide WellFormed, MarkedWith, Reaches;
    var k := KeysOf(Unmarked(fo, level, m));
    InMarkedWith(g, m + extra, k, y);
    assert k <= KeysOf(Live(fo, m0)) by {
      assert Unmarked(fo, level, m) <= Live(fo, m0);
    }
  }

  lemma MarkedByPhases(g: Graph, fo: set<Item<Fin>>, m: set<Addr>, y: Addr)
    requires WellFormed(g) && y in BeforeQueueing(g, fo, m)
    ensures y in m || y in KeysOf(fo) || ReachedFrom(g, KeysOf(Live(fo, m)), y)
  {
    hide WellFormed, MarkedWith, Reaches, ReachedFrom;
    var m1, m2 := AfterEager(g, fo, 1, m), AfterEagers(g, fo, m);
    MoreMarks(g, fo, m);
    assert m2 + {} == m2;
    PhaseAdds(g, fo, 0, m, m2, {}, y);
    PhaseAdds(g, fo, 2, m, m1, KeysOf(Unmarked(fo, 2, m1)), y);
    PhaseAdds(g, fo, 1, m, m, KeysOf(Unmarked(fo, 1, m)), y);
  }

  /** An object of level 0, 1 or 2 is marked from in the phase for its level, if its targets are not marked by then. */
  lemma LiveMarks(g: Graph, fo: set<Item<Fin>>, m: set<Addr>, y: Addr)
    requires WellFormed(g) && Closed(g, m) && ReachedFrom(g, KeysOf(Live(fo, m)), y)
    ensures y in BeforeQueueing(g, fo, m)
  {
    hide WellFormed, Closed, MarkedWith, Reaches, TargetsIn;
    var m1, m2, b := AfterEager(g, fo, 1, m), AfterEagers(g, fo, m), BeforeQueueing(g, fo, m);
    MoreMarks(g, fo, m);
    EagerCloses(g, fo, 1, m);
    EagerCloses(g, fo, 2, m1);
    var u := KeysOf(Unmarked(fo, 0, m2));
    ClosedSplit(g, m2, u);
    MarkedWithClosed(g, m2, u);
    var r :| r in KeysOf(Live(fo, m)) && Reaches(g, r, y);
    var it :| it in Live(fo, m) && it.key == r;
    if it.val.level == 0 && r !in m2 {
      assert it in Unmarked(fo, 0, m2);
      assert r in u;
      ReachesIn(g, r, y, b);
    } else {
      TargetsOf(g, r, m2);
      ReachesIn(g, r, y, m2);
    }
  }

  lemma ClosedSplit(g: Graph, m: set<Addr>, roots: set<Addr>)
    requires Closed(g, m)
    ensures forall x | x in m :: x in roots || TargetsIn(g, x, m)
  {
  }

  /** After GC_finalize the marks are closed exactly when the objects registered above level 2 that are neither marked
      before nor reached from lower levels point to nothing else than marked or registered objects, and what the
      lower levels reach: nothing marks from them. */
  lemma ClosedIff(g: Graph, fo: set<Item<Fin>>, m: set<Addr>)
    requires WellFormed(g) && Closed(g, m)
    ensures Closed(g, FinalMarks(g, fo, m)) <==>
      forall it, y | it in fo && 2 < it.val.level && it.key !in m && !ReachedFrom(g, KeysOf(Live(fo, m)), it.key) &&
          Edge(g, it.key, y) ::
        y in m || y in KeysOf(fo) || ReachedFrom(g, KeysOf(Live(fo, m)), y)
  {
    hide WellFormed, MarkedWith, Reaches, ReachedFrom, FinalMarks;
    var f, all, live := FinalMarks(g, fo, m), m + KeysOf(fo), KeysOf(Live(fo, m));
    FinalMarksAre(g, fo, m);
    forall y ensures y in f <==> y in all || ReachedFrom(g, live, y) {
      InMarkedWith(g, all, live, y);
    }
    if forall it, y | it in fo && 2 < it.val.level && it.key !in m && !ReachedFrom(g, live, it.key) &&
        Edge(g, it.key, y) :: y in f {
      forall x, y | x in f && Edge(g, x, y) ensures y in f {
        if x in live || ReachedFrom(g, live, x) {
          ReachedNext(g, live, x, y);
        } else if x !in m {
          var it :| it in fo && it.key == x;
          assert it.val.level <= 2 ==> it in Live(fo, m);
        }
      }
    }
  }

  lemma ReachedNext(g: Graph, roots: set<Addr>, x: Addr, y: Addr)
    requires Edge(g, x, y) && (x in roots || ReachedFrom(g, roots, x))
    ensures ReachedFrom(g, roots, y)
  {
    hide Reaches;
    if x in roots {
      OneStep(g, x, y);
    } else {
      var r :| r in roots && Reaches(g, r, x);
      NextStep(g, r, x, y);
    }
  }

  lemma MoreTargets(g: Graph, x: Addr, s: set<Addr>, t: set<Addr>)
    requires TargetsIn(g, x, s) && s <= t
    ensures TargetsIn(g, x, t)
  {
  }

  /** With the levels the interface documents, everything reachable from a marked or queued object is marked, the
      objects that an earlier collection has queued and marked included. */
  lemma QueueReachesMarked(g: Graph, fo: set<Item<Fin>>, before: set<Item<Fin>>, m: set<Addr>, it: Item<Fin>, y: Addr)
    requires WellFormed(g) && Closed(g, m) && forall x | x in fo :: x.val.level <= 2
    requires forall x | x in before :: x.key in m
    requires (it in before || it in Queued(g, fo, m)) && (y == it.key || Reaches(g, it.key, y))
    ensures y in FinalMarks(g, fo, m)
  {
    hide WellFormed, MarkedWith, TargetsIn, Reaches;
    var f, m1 := FinalMarks(g, fo, m), AfterEager(g, fo, 1, m);
    ClosedIff(g, fo, m);
    MoreMarks(g, fo, m);
    EagerCloses(g, fo, 1, m);
    EagerCloses(g, fo, 2, m1);
    assert it.key in f;
    if y != it.key {
      ReachesIn(g, it.key, y, f);
    }
  }

  /** An unmarked object a registered at level 3 is queued and marked, but an object b it points to is not. */
  lemma LevelThreeLeavesGap(g: Graph, a: Addr, b: Addr)
    requires a != b && g.Keys == {a, b} && g[a] == [b] && g[b] == []
    ensures var fo := {Item(a, Fin(1, 0, 3))};
      WellFormed(g) && Closed(g, {}) && a in FinalMarks(g, fo, {}) && b !in FinalMarks(g, fo, {})
  {
    var it := Item(a, Fin(1, 0, 3));
    var fo := {it};
    NoRoots(g, fo, 1, {});
    NoRoots(g, fo, 2, {});
    NoRoots(g, fo, 0, {});
    assert BeforeQueueing(g, fo, {}) == {};
    assert it in LastQueued(g, fo, {});
    assert a in FinalMarks(g, fo, {});
  }

  lemma NoRoots(g: Graph, fo: set<Item<Fin>>, level: nat, m: set<Addr>)
    requires forall it | it in fo :: it.val.level != level
    ensures KeysOf(Unmarked(fo, level, m)) == {} && MarkedWith(g, m, {}) == m && AfterEager(g, fo, level, m) == m
  {
  }

  // ----- The collector's side -----

  ghost function ToSet<A>(s: seq<A>): set<A> {
    set x | x in s
  }

  predicate Wanted(level: Option<nat>, it: Item<Fin>, m: set<Addr>) {
    (level.None? || it.val.level == level.value) && it.key !in m
  }

  ghost function WantedOf(fo: set<Item<Fin>>, level: Option<nat>, m: set<Addr>): set<Item<Fin>> {
    set it | it in fo && Wanted(level, it, m)
  }

  /** Must a link be cleared when links of this kind are looked at? */
  predicate Doomed(it: Item<Link>, late: bool, m: set<Addr>) {
    it.val.late == late && it.val.obj !in m
  }

  /** Is the holder of the link a heap object that is going away? */
  predicate Dangling(it: Item<Link>, base: map<Addr, Addr>, m: set<Addr>) {
    it.key in base && base[it.key] !in m
  }

  const ALIGNMENT: nat := 8

  /** Is there memory for a new table, and for a new entry? */
  datatype Memory = Memory(table: bool, entry: bool)

  /** Refused stands for the abort on a misaligned link, NoTable for the one when there is no memory for the first
      table; NoMemory is the result when there is none for an entry. */
  datatype Registration = Refused | NoTable | NoMemory | Updated | Created

  /** Fault: there is no table yet, but the source follows its pointer all the same. */
  datatype Unregistration = Removed | NotFound | Fault

  /** The queue without the first entry for obj. */
  function Dequeued(s: seq<Item<Fin>>, obj: Addr): seq<Item<Fin>> {
    if s == [] then []
    else if s[0].key == obj then s[1..]
    else [s[0]] + Dequeued(s[1..], obj)
  }

  /** The registration for a link gets a new object and keeps its kind. */
  ghost predicate Relinked(c: set<Item<Link>>, c': set<Item<Link>>, link: Addr, obj: Addr) {
    exists it :: it in c && it.key == link && c' == c - {it} + {Item(link, Link(obj, it.val.late))}
  }

  /** The registration it of an object gives way to a new one, or to none. */
  ghost predicate Reregistered(c: set<Item<Fin>>, c': set<Item<Fin>>, it: Item<Fin>, fin: Fin) {
    it in c && c' == c - {it} + (if fin.fn == 0 then {} else {Item(it.key, fin)})
  }

  class Finalizer {
    const g: Graph
    const base: map<Addr, Addr>            // GC_base of the link addresses that lie in heap objects
    var marks: set<Addr>
    var memory: map<Addr, nat>             // the words at the link addresses
    var dlLog: int
    var dlHead: Chains<Link>
    var dlEntries: nat
    var foLog: int
    var foHead: Chains<Fin>
    var foEntries: nat
    var finalizeNow: seq<Item<Fin>>        // GC_finalize_now
    var doing: bool

    ghost predicate Valid()
      reads this
    {
      && WellFormed(g) && TableOk(dlLog, dlHead, dlEntries) && TableOk(foLog, foHead, foEntries)
      && (forall it | it in Contents(dlHead) :: it.key in memory)
      && (forall it | it in Contents(foHead) :: it.key in g)
    }

    constructor (g: Graph, base: map<Addr, Addr>, memory: map<Addr, nat>)
      requires WellFormed(g)
      ensures Valid() && Contents(dlHead) == {} && Contents(foHead) == {} && finalizeNow == []
    {
      this.g, this.base, this.memory, marks, doing := g, base, memory, {}, false;
      dlLog, dlHead, dlEntries, foLog, foHead, foEntries, finalizeNow := -1, [], 0, -1, [], 0, [];
      new;
      EmptyOk<Link>();
      EmptyOk<Fin>();
    }

    // ----- Marking -----

    /** The normal mark procedure for x, and the mark stack emptied after it. */
    method MarkFrom(x: Addr)
      requires WellFormed(g) && x in g
      modifies this`marks
      ensures old(marks) <= marks && TargetsIn(g, x, marks)
      ensures forall y | y in marks && y !in old(marks) :: Reaches(g, x, y) && TargetsIn(g, y, marks)
    {
      var stack := [x];
      while stack != []
        invariant old(marks) <= marks && (x in stack || TargetsIn(g, x, marks))
        invariant forall y | y in stack :: y in g && (y == x || Reaches(g, x, y))
        invariant forall y | y in marks && y !in old(marks) ::
          y in g && Reaches(g, x, y) && (y in stack || TargetsIn(g, y, marks))
        decreases |g.Keys - marks|, |stack|
      {
        var o := stack[|stack| - 1];
        stack := MarkTargets(x, stack);
      }
    }

    /** One step of the marker: pop an object, mark its unmarked targets and push them. */
    method MarkTargets(ghost x: Addr, stack: seq<Addr>) returns (s: seq<Addr>)
      requires WellFormed(g) && stack != []
      requires forall y | y in stack :: y in g && (y == x || Reaches(g, x, y))
      modifies this`marks
      ensures old(marks) <= marks && TargetsIn(g, stack[|stack| - 1], marks)
      ensures forall y | y in stack :: y in s || y == stack[|stack| - 1]
      ensures Chased(x, old(marks), s)
      ensures |g.Keys - marks| <= |old(g.Keys - marks)|
      ensures |g.Keys - marks| == |old(g.Keys - marks)| ==> |s| < |stack|
    {
      hide WellFormed, Reaches, Chased;
      var o := stack[|stack| - 1];
      s := stack[..|stack| - 1];
      StillIn(s, stack);
      ChaseStarts(x, stack);
      var i := 0;
      while i < |g[o]|
        invariant i <= |g[o]| && old(marks) <= marks && |stack| - 1 <= |s| && s[..|stack| - 1] == stack[..|stack| - 1]
        invariant forall k | 0 <= k < i :: g[o][k] in marks
        invariant Chased(x, old(marks), s)
        invariant |g.Keys - marks| + |s| <= |old(g.Keys - marks)| + |stack| - 1
        invariant |g.Keys - marks| <= |old(g.Keys - marks)|
      {
        s := MarkTarget(x, o, g[o][i], s, old(marks));
        i := i + 1;
      }
      StillIn(s, stack);
    }

    /** All objects on the stack s are reached from x, or are x, and so are those marked since the marks were m; the
        latter are on the stack. */
    ghost predicate Chased(x: Addr, m: set<Addr>, s: seq<Addr>)
      reads this`marks
    {
      && (forall y | y in s :: y in g && (y == x || Reaches(g, x, y)))
      && (forall y | y in marks && y !in m :: y in g && Reaches(g, x, y) && y in s)
    }

    lemma ChaseStarts(x: Addr, stack: seq<Addr>)
      requires stack != [] && forall y | y in stack :: y in g && (y == x || Reaches(g, x, y))
      ensures Chased(x, marks, stack[..|stack| - 1])
    {
    }

    /** PUSH_CONTENTS for one target: mark and push it unless it is marked already. */
    method MarkTarget(ghost x: Addr, ghost o: Addr, t: Addr, s: seq<Addr>, ghost m: set<Addr>) returns (s': seq<Addr>)
      requires WellFormed(g) && Edge(g, o, t) && (o == x || Reaches(g, x, o)) && Chased(x, m, s)
      modifies this`marks
      ensures marks == old(marks) + {t} && s' == (if t in old(marks) then s else s + [t])
      ensures t in g && Chased(x, m, s') && |g.Keys - marks| + |s'| == |old(g.Keys - marks)| + |s|
    {
      s' := s;
      StepTo(x, o, t);
      if t !in marks {
        FewerLeft(t);
        marks := marks + {t};
        s' := s + [t];
      }
    }

    lemma StillIn(s: seq<Addr>, stack: seq<Addr>)
      requires stack != [] && |stack| - 1 <= |s| && s[..|stack| - 1] == stack[..|stack| - 1]
      ensures forall y | y in stack :: y in s || y == stack[|stack| - 1]
    {
    }

    lemma StepTo(x: Addr, o: Addr, t: Addr)
      requires WellFormed(g) && Edge(g, o, t) && (o == x || Reaches(g, x, o))
      ensures t in g && Reaches(g, x, t)
    {
      if o == x {
        OneStep(g, x, t);
      } else {
        NextStep(g, x, o, t);
      }
    }

    lemma FewerLeft(t: Addr)
      requires t in g && t !in marks
      ensures |g.Keys - (marks + {t})| == |g.Keys - marks| - 1
    {
      assert g.Keys - marks == g.Keys - (marks + {t}) + {t};
    }

    // ----- Walking the tables -----

    /** The loop that queues unmarked objects: those of an eager level, or (last) all of them. */
    method TakeUnmarked(level: Option<nat>) returns (ghost taken: seq<Item<Fin>>)
      requires TableOk(foLog, foHead, foEntries)
      modifies this`marks, this`foHead, this`foEntries, this`finalizeNow
      ensures TableOk(foLog, foHead, foEntries) && |foHead| == |old(foHead)|
      ensures ToSet(taken) == WantedOf(Contents(old(foHead)), level, old(marks)) && NoDup(taken)
      ensures Contents(foHead) == Contents(old(foHead)) - ToSet(taken)
      ensures marks == old(marks) + KeysOf(ToSet(taken))
      ensures finalizeNow == taken + old(finalizeNow)
    {
      hide Placed, Contents, Wanted, KeysOf, NoDup, ToSet, Sweeping, SweptTo, Without;
      ghost var c, p := foHead, (it: Item<Fin>) => Wanted(level, it, old(marks));
      taken := [];
      SweepStart(foLog, foHead, p);
      NothingTaken();
      var i := 0;
      while i < |foHead|
        invariant i <= |foHead| == |c| && TableOk(foLog, foHead, foEntries)
        invariant Sweeping(c, foHead, ToSet(taken), p) && SweptTo(foHead, i, 0, p)
        invariant NoDup(taken) && marks == old(marks) + KeysOf(ToSet(taken)) && finalizeNow == taken + old(finalizeNow)
      {
        var j := 0;
        while j < |foHead[i]|
          invariant i < |foHead| == |c| && j <= |foHead[i]| && TableOk(foLog, foHead, foEntries)
          invariant Sweeping(c, foHead, ToSet(taken), p) && SweptTo(foHead, i, j, p)
          invariant NoDup(taken) && marks == old(marks) + KeysOf(ToSet(taken))
          invariant finalizeNow == taken + old(finalizeNow)
          decreases |foHead[i]| - j
        {
          SweepHere(c, foHead, ToSet(taken), p, i, j);
          WantedStill(level, foHead[i][j], old(marks), marks);
          if Wanted(level, foHead[i][j], marks) {
            SweepDrop(foLog, c, foHead, ToSet(taken), p, i, j);
            OneMore(taken, foHead[i][j]);
            taken := [foHead[i][j]] + taken;
            Enqueue(i, j);
          } else {
            SweepKeep(foHead, p, i, j);
            j := j + 1;
          }
        }
        SweepChain(foHead, p, i);
        i := i + 1;
      }
      SweptWanted(c, foHead, ToSet(taken), p, level, old(marks));
    }

    /** Mark the object at place j of chain i, unlink its registration and put that on the queue. */
    method Enqueue(i: nat, j: nat)
      requires i < |foHead| && j < |foHead[i]| && 0 < foEntries
      modifies this`marks, this`foHead, this`foEntries, this`finalizeNow
      ensures var it := old(foHead)[i][j];
        && marks == old(marks) + {it.key} && finalizeNow == [it] + old(finalizeNow)
        && foHead == old(foHead)[i := Without(old(foHead)[i], j)] && foEntries == old(foEntries) - 1
    {
      var it := foHead[i][j];
      marks := marks + {it.key};
      foHead := foHead[i := Without(foHead[i], j)];
      foEntries := foEntries - 1;
      finalizeNow := [it] + finalizeNow;
    }

    /** The marking half of finalize_eagers: mark from the first n objects on the queue. */
    method MarkFromQueued(n: nat, level: nat)
      requires WellFormed(g) && n <= |finalizeNow|
      requires forall it | it in finalizeNow[..n] :: it.key in g && it.val.level == level
      requires forall x | x in marks :: x in KeysOf(ToSet(finalizeNow[..n])) || TargetsIn(g, x, marks)
      modifies this`marks
      ensures marks == MarkedWith(g, old(marks), KeysOf(ToSet(finalizeNow[..n])))
    {
      hide Reaches, WellFormed, MarkedWith, ReachedFrom, KeysOf, ToSet;
      ghost var m, roots := marks, KeysOf(ToSet(finalizeNow[..n]));
      var k := 0;
      while k < n
        invariant k <= n && m <= marks
        invariant forall y | y in marks && y !in m :: ReachedFrom(g, roots, y) && TargetsIn(g, y, marks)
        invariant forall j | 0 <= j < k :: TargetsIn(g, finalizeNow[j].key, marks)
      {
        ghost var was := marks;
        RootAt(finalizeNow[..n], k);
        if finalizeNow[k].val.level == level {
          MarkFrom(finalizeNow[k].key);
        }
        forall y | y in marks && y !in m ensures ReachedFrom(g, roots, y) && TargetsIn(g, y, marks) {
          if y in was {
            MoreTargets(g, y, was, marks);
          } else {
            FromRoot(g, roots, finalizeNow[k].key, y);
          }
        }
        forall j | 0 <= j < k ensures TargetsIn(g, finalizeNow[j].key, marks) {
          MoreTargets(g, finalizeNow[j].key, was, marks);
        }
        k := k + 1;
      }
      forall r | r in roots ensures TargetsIn(g, r, marks) {
        RootOf(finalizeNow[..n], r);
      }
      MarkingDone(g, m, roots, marks);
    }

    /** finalize_eagers. */
    method FinalizeEagers(level: nat) returns (ghost taken: seq<Item<Fin>>)
      requires Valid() && Closed(g, marks)
      modifies this`marks, this`foHead, this`foEntries, this`finalizeNow
      ensures Valid() && Closed(g, marks)
      ensures ToSet(taken) == Unmarked(Contents(old(foHead)), level, old(marks)) && NoDup(taken)
      ensures Contents(foHead) == Contents(old(foHead)) - ToSet(taken)
      ensures marks == AfterEager(g, Contents(old(foHead)), level, old(marks))
      ensures finalizeNow == taken + old(finalizeNow)
    {
      hide Placed, Contents, MarkedWith, WellFormed, TargetsIn, NoDup, ToSet;
      ghost var m, fo := marks, Contents(foHead);
      var before := |finalizeNow|;
      taken := TakeUnmarked(Some(level));
      assert WantedOf(fo, Some(level), m) == Unmarked(fo, level, m);
      InSet(taken);
      var n := |finalizeNow| - before;
      assert finalizeNow[..n] == taken;
      EagerCloses(g, fo, level, m);
      forall x | x in marks ensures x in KeysOf(ToSet(taken)) || TargetsIn(g, x, marks) {
        if x in m {
          MoreTargets(g, x, m, marks);
        }
      }
      MarkFromQueued(n, level);
    }

    method MarkNonEagerFrom(ghost m: set<Addr>, ghost roots: set<Addr>, it: Item<Fin>)
      requires WellFormed(g) && Closed(g, marks) && m <= marks && it.key in g && it.key !in m && it.val.level == 0
      requires it in Contents(foHead) && roots == KeysOf(Unmarked(Contents(foHead), 0, m))
      requires forall y | y in marks && y !in m :: ReachedFrom(g, roots, y)
      modifies this`marks
      ensures old(marks) <= marks && Closed(g, marks) && TargetsIn(g, it.key, marks)
      ensures forall y | y in marks && y !in m :: ReachedFrom(g, roots, y)
    {
      hide Reaches, WellFormed, MarkedWith, ReachedFrom, Contents, TargetsIn;
      assert it in Unmarked(Contents(foHead), 0, m);
      assert it.key in roots;
      MarkFrom(it.key);
      forall y | y in marks ensures TargetsIn(g, y, marks) {
        if y in old(marks) {
          MoreTargets(g, y, old(marks), marks);
        }
      }
      forall y | y in marks && y !in m ensures ReachedFrom(g, roots, y) {
        if y !in old(marks) {
          FromRoot(g, roots, it.key, y);
        }
      }
    }

    /** Registrations at other levels, and their keys, are no roots. */
    lemma NotARoot(it: Item<Fin>, m: set<Addr>)
      requires Placed(foLog, foHead) && it in Contents(foHead) && it.val.level != 0
      ensures it.key !in KeysOf(Unmarked(Contents(foHead), 0, m))
    {
      hide Placed, Contents;
      forall x | x in Unmarked(Contents(foHead), 0, m) ensures x.key != it.key {
        if x.key == it.key {
          OneItem(foLog, foHead, x, it);
        }
      }
    }

    lemma RootItem(m: set<Addr>, r: Addr) returns (it: Item<Fin>)
      requires r in KeysOf(Unmarked(Contents(foHead), 0, m))
      ensures it in Contents(foHead) && it.key == r
    {
      hide Contents;
      it :| it in Unmarked(Contents(foHead), 0, m) && it.key == r;
    }

    /** Mark everything reachable from the unmarked non-eager objects, but not those objects. */
    method MarkNonEager()
      requires Valid() && Closed(g, marks)
      modifies this`marks
      ensures Valid() && Closed(g, marks) && old(marks) <= marks
      ensures marks == MarkedWith(g, old(marks), KeysOf(Unmarked(Contents(foHead), 0, old(marks))))
    {
      hide Reaches, WellFormed, MarkedWith, ReachedFrom, KeysOf, KeysTo, Placed, Contents, Unmarked, Closed,
           TargetsIn;
      ghost var m, roots, done := marks, KeysOf(Unmarked(Contents(foHead), 0, marks)), {};
      MemberAt(foHead);
      KeysNone(foHead);
      var i := 0;
      while i < |foHead|
        invariant i <= |foHead| && m <= marks && Closed(g, marks)
        invariant forall y | y in marks && y !in m :: ReachedFrom(g, roots, y)
        invariant (forall r | r in done && r in roots :: TargetsIn(g, r, marks)) && KeysTo(foHead, i, 0) <= done
      {
        var j := 0;
        while j < |foHead[i]|
          invariant j <= |foHead[i]| && m <= marks && Closed(g, marks)
          invariant forall y | y in marks && y !in m :: ReachedFrom(g, roots, y)
          invariant (forall r | r in done && r in roots :: TargetsIn(g, r, marks)) && KeysTo(foHead, i, j) <= done
        {
          var it := foHead[i][j];
          ghost var was := marks;
          if it.val.level == 0 {
            if it.key !in marks {
              MarkNonEagerFrom(m, roots, it);
            } else {
              TargetsOf(g, it.key, marks);
            }
          } else {
            NotARoot(it, m);
          }
          forall r | r in done && r in roots ensures TargetsIn(g, r, marks) {
            MoreTargets(g, r, was, marks);
          }
          KeysNext(foHead, i, j);
          done := done + {it.key};
          j := j + 1;
        }
        KeysChain(foHead, i);
        i := i + 1;
      }
      forall r | r in roots ensures TargetsIn(g, r, marks) {
        var it := RootItem(m, r);
        KeysAll(foHead, it);
      }
      MarkingClosed(g, m, roots, marks);
    }

    // ----- Weak links -----

    /** The loops that make normal (or late) links to unmarked objects disappear. */
    method ClearLinks(late: bool)
      requires TableOk(dlLog, dlHead, dlEntries) && forall it | it in Contents(dlHead) :: it.key in memory
      modifies this`memory, this`dlHead, this`dlEntries
      ensures TableOk(dlLog, dlHead, dlEntries)
      ensures Contents(dlHead) == Contents(old(dlHead)) - DoomedOf(Contents(old(dlHead)), late, marks)
      ensures memory == Zeroed(old(memory), KeysOf(DoomedOf(Contents(old(dlHead)), late, marks)))
      ensures forall it | it in Contents(old(dlHead)) ::
        it in Contents(dlHead) <==> !(it.val.late == late && it.val.obj !in marks)
    {
      hide Placed, Contents, Doomed, KeysOf, Sweeping, SweptTo, Without, Zeroed;
      ghost var m := marks;
      ghost var c, p, gone := dlHead, (it: Item<Link>) => Doomed(it, late, m), {};
      SweepStart(dlLog, dlHead, p);
      NothingZeroed(memory);
      ghost var mem := memory;
      var i := 0;
      while i < |dlHead|
        invariant i <= |dlHead| == |c| && TableOk(dlLog, dlHead, dlEntries)
        invariant Sweeping(c, dlHead, gone, p) && SweptTo(dlHead, i, 0, p) && memory == Zeroed(mem, KeysOf(gone))
      {
        var j := 0;
        while j < |dlHead[i]|
          invariant i < |dlHead| == |c| && j <= |dlHead[i]| && TableOk(dlLog, dlHead, dlEntries)
          invariant Sweeping(c, dlHead, gone, p) && SweptTo(dlHead, i, j, p) && memory == Zeroed(mem, KeysOf(gone))
          decreases |dlHead[i]| - j
        {
          var it := dlHead[i][j];
          if Doomed(it, late, marks) {
            SweepHere(c, dlHead, gone, p, i, j);
            SweepDrop(dlLog, c, dlHead, gone, p, i, j);
            ZeroedMore(mem, KeysOf(gone), it.key);
            gone := gone + {it};
            memory := memory[it.key := 0];
            dlHead := dlHead[i := Without(dlHead[i], j)];
            dlEntries := dlEntries - 1;
          } else {
            SweepKeep(dlHead, p, i, j);
            j := j + 1;
          }
        }
        SweepChain(dlHead, p, i);
        i := i + 1;
      }
      SweptLinks(c, dlHead, gone, p, DoomedOf(Contents(c), late, marks));
      DoomedAre(Contents(c), late, marks);
    }

    /** The loop that forgets links whose holder is unmarked. */
    method DropDangling()
      requires TableOk(dlLog, dlHead, dlEntries)
      modifies this`dlHead, this`dlEntries
      ensures TableOk(dlLog, dlHead, dlEntries)
      ensures Contents(dlHead) == Contents(old(dlHead)) - DanglingOf(Contents(old(dlHead)), base, marks)
      ensures forall it | it in Contents(old(dlHead)) ::
        it in Contents(dlHead) <==> (it.key in base ==> base[it.key] in marks)
    {
      hide Placed, Contents, Dangling, KeysOf, Sweeping, SweptTo, Without;
      ghost var m, holders := marks, base;
      ghost var c, p, gone := dlHead, (it: Item<Link>) => Dangling(it, holders, m), {};
      SweepStart(dlLog, dlHead, p);
      var i := 0;
      while i < |dlHead|
        invariant i <= |dlHead| == |c| && TableOk(dlLog, dlHead, dlEntries)
        invariant Sweeping(c, dlHead, gone, p) && SweptTo(dlHead, i, 0, p)
      {
        var j := 0;
        while j < |dlHead[i]|
          invariant i < |dlHead| == |c| && j <= |dlHead[i]| && TableOk(dlLog, dlHead, dlEntries)
          invariant Sweeping(c, dlHead, gone, p) && SweptTo(dlHead, i, j, p)
          decreases |dlHead[i]| - j
        {
          if Dangling(dlHead[i][j], base, marks) {
            SweepDrop(dlLog, c, dlHead, gone, p, i, j);
            gone := gone + {dlHead[i][j]};
            dlHead := dlHead[i := Without(dlHead[i], j)];
            dlEntries := dlEntries - 1;
          } else {
            SweepKeep(dlHead, p, i, j);
            j := j + 1;
          }
        }
        SweepChain(dlHead, p, i);
        i := i + 1;
      }
      SweptLinks(c, dlHead, gone, p, DanglingOf(Contents(c), base, marks));
      DanglingAre(Contents(c), base, marks);
    }

    /** Both eager phases of GC_finalize, level 1 first. */
    method QueueEagers() returns (ghost queued: seq<Item<Fin>>)
      requires Valid() && Closed(g, marks)
      modifies this`marks, this`foHead, this`foEntries, this`finalizeNow
      ensures Valid() && Closed(g, marks)
      ensures marks == AfterEagers(g, Contents(old(foHead)), old(marks))
      ensures finalizeNow == queued + old(finalizeNow) && NoDup(queued)
      ensures ToSet(queued) == EagersOf(g, Contents(old(foHead)), old(marks))
      ensures Contents(foHead) == Contents(old(foHead)) - ToSet(queued)
    {
      hide TableOk, Contents, MarkedWith, WellFormed, TargetsIn, NoDup, ToSet, KeysOf, AfterEager, Unmarked, Closed,
           WantedOf;
      ghost var m, fo := marks, Contents(foHead);
      ghost var m1 := AfterEager(g, fo, 1, m);
      ghost var q1 := FinalizeEagers(1);
      OtherLevel(g, fo, 1, m, 2, m1);
      ghost var q2 := FinalizeEagers(2);
      queued := q2 + q1;
      Levels(fo, m, m1);
      JoinQueues(q2, q1);
      assert fo - Unmarked(fo, 1, m) - Unmarked(fo, 2, m1) == fo - ToSet(queued);
    }

    /** The part of GC_finalize that queues objects. */
    method QueueObjects() returns (ghost queued: seq<Item<Fin>>)
      requires Valid() && Closed(g, marks)
      modifies this`marks, this`foHead, this`foEntries, this`finalizeNow
      ensures Valid()
      ensures marks == FinalMarks(g, Contents(old(foHead)), old(marks))
      ensures finalizeNow == queued + old(finalizeNow) && NoDup(queued)
      ensures ToSet(queued) == Queued(g, Contents(old(foHead)), old(marks))
      ensures Contents(foHead) == Contents(old(foHead)) - ToSet(queued)
    {
      hide TableOk, Contents, MarkedWith, WellFormed, TargetsIn, NoDup, ToSet, KeysOf, AfterEagers, Unmarked,
           LastQueued, Closed, WantedOf, EagersOf;
      ghost var m, fo := marks, Contents(foHead);
      ghost var eagers := QueueEagers();
      NotEager(g, fo, m);
      MarkNonEager();
      ghost var last := TakeUnmarked(None);
      LastAre(g, fo, m);
      queued := last + eagers;
      JoinQueues(last, eagers);
      assert fo - ToSet(eagers) - ToSet(last) == fo - ToSet(queued);
    }

    /** GC_finalize, with the hooks for pushing roots again and for custom finalization doing nothing. */
    method Finalize() returns (ghost queued: seq<Item<Fin>>)
      requires Valid() && Closed(g, marks)
      modifies this`marks, this`memory, this`dlHead, this`dlEntries, this`foHead, this`foEntries, this`finalizeNow
      ensures Valid()
      ensures marks == FinalMarks(g, Contents(old(foHead)), old(marks))
      ensures finalizeNow == queued + old(finalizeNow) && NoDup(queued)
      ensures ToSet(queued) == Queued(g, Contents(old(foHead)), old(marks))
      ensures Contents(foHead) == Contents(old(foHead)) - ToSet(queued)
      ensures Contents(dlHead) == LinksLeft(Contents(old(dlHead)), base, old(marks), marks)
      ensures memory == Zeroed(old(memory), KeysOf(LinksCleared(Contents(old(dlHead)), base, old(marks), marks)))
      // A normal link is zeroed if its object was unmarked before, a late one if it still is and the holder is alive;
      // a link that is not zeroed is kept if its holder is alive. Other words and links do not change.
      ensures memory.Keys == old(memory).Keys && forall it | it in Contents(old(dlHead)) :: it.key in old(memory)
      ensures forall it | it in Contents(old(dlHead)) ::
        if (if it.val.late then it.val.obj !in marks && (it.key in base ==> base[it.key] in marks) else it.val.obj !in old(marks))
        then memory[it.key] == 0 && it !in Contents(dlHead)
        else memory[it.key] == old(memory)[it.key] && (it in Contents(dlHead) <==> (it.key in base ==> base[it.key] in marks))
      ensures forall it | it in Contents(dlHead) :: it in Contents(old(dlHead))
      ensures forall a | a in memory && !HasKey(Contents(old(dlHead)), a) :: memory[a] == old(memory)[a]
    {
      hide TableOk, Contents, WellFormed, NoDup, ToSet, KeysOf, Zeroed, DoomedOf, DanglingOf, FinalMarks, Queued,
           Closed, LinksLeft, LinksCleared;
      ghost var m, dl, mem := marks, Contents(dlHead), memory;
      OneLink(dlLog, dlHead, dlEntries);
      ClearLinks(false);
      ZeroedKeys(mem, KeysOf(DoomedOf(dl, false, m)));
      queued := QueueObjects();
      DropDangling();
      ClearLinks(true);
      LinksAre(dl, base, m, marks);
      ZeroedTwice(mem, KeysOf(DoomedOf(dl, false, m)),
          KeysOf(DoomedOf(dl - DoomedOf(dl, false, m) - DanglingOf(dl - DoomedOf(dl, false, m), base, marks), true, marks)));
      LinksExact(dl, base, m, marks, mem);
    }

    // ----- Registration -----

    /** GC_general_register_disappearing_link. Registering a link again changes its object, not its kind. */
    method RegisterLink(link: Addr, obj: Addr, late: bool, memory: Memory) returns (r: Registration)
      requires Valid() && link in this.memory
      modifies this`dlLog, this`dlHead, this`dlEntries
      ensures Valid()
      ensures r == Refused <==> link % ALIGNMENT != 0
      ensures r == NoTable <==> r != Refused && old(dlLog) < 0 && !memory.table
      ensures r == Updated <==> r != Refused && r != NoTable && HasKey(Contents(old(dlHead)), link)
      ensures r == NoMemory ==> !memory.entry
      ensures r == Created ==> memory.entry && Contents(dlHead) == Contents(old(dlHead)) + {Item(link, Link(obj, late))}
      ensures r == Updated ==> Relinked(Contents(old(dlHead)), Contents(dlHead), link, obj)
      ensures r != Created && r != Updated ==> Contents(dlHead) == Contents(old(dlHead))
    {
      hide Placed, TableOk, Contents, Hash;
      if link % ALIGNMENT != 0 {
        return Refused;
      }
      var ok;
      dlHead, dlLog, ok := MakeRoom(dlHead, dlLog, dlEntries, memory.table);
      if !ok {
        return NoTable;
      }
      var found, index, j := Find(dlHead, dlLog, dlEntries, link);
      if found {
        TableSet(dlLog, dlHead, dlEntries, index, j, Link(obj, dlHead[index][j].val.late));
        dlHead := dlHead[index := dlHead[index][j := Item(link, Link(obj, dlHead[index][j].val.late))]];
        return Updated;
      }
      if !memory.entry {
        return NoMemory;
      }
      TableAdd(dlLog, dlHead, dlEntries, Item(link, Link(obj, late)));
      dlHead := dlHead[index := [Item(link, Link(obj, late))] + dlHead[index]];
      dlEntries := dlEntries + 1;
      r := Created;
    }

    /** GC_unregister_disappearing_link. */
    method UnregisterLink(link: Addr) returns (r: Unregistration)
      requires Valid()
      modifies this`dlHead, this`dlEntries
      ensures Valid()
      ensures r == Fault <==> link % ALIGNMENT == 0 && dlLog < 0
      ensures r == Removed <==> link % ALIGNMENT == 0 && 0 <= dlLog && HasKey(Contents(old(dlHead)), link)
      ensures r != Removed ==> Contents(dlHead) == Contents(old(dlHead))
      ensures r == Removed ==>
        exists it :: it in Contents(old(dlHead)) && it.key == link && Contents(dlHead) == Contents(old(dlHead)) - {it}
    {
      hide Placed, TableOk, Contents, Hash, Without;
      if link % ALIGNMENT != 0 {
        return NotFound;
      }
      if dlLog < 0 {
        return Fault;
      }
      var found, index, j := Find(dlHead, dlLog, dlEntries, link);
      if !found {
        return NotFound;
      }
      TableDrop(dlLog, dlHead, dlEntries, index, j);
      dlHead := dlHead[index := Without(dlHead[index], j)];
      dlEntries := dlEntries - 1;
      r := Removed;
    }

    /** GC_register_finalizer_inner with the normal mark procedure; fn 0 asks for removal, also from the queue. Without
        memory for an entry nothing is registered, and nothing says so; ok is false for the abort without a table. */
    method RegisterFinalizer(obj: Addr, fn: nat, data: nat, level: nat, memory: Memory)
      returns (ok: bool, oldFn: nat, oldData: nat, ghost was: Option<Item<Fin>>)
      requires Valid()
      modifies this`foLog, this`foHead, this`foEntries, this`finalizeNow
      ensures Valid() && (ok <==> memory.table || 0 <= old(foLog))
      ensures was.Some? <==> ok && HasKey(Contents(old(foHead)), obj)
      ensures was.Some? ==>
        && was.value.key == obj && Reregistered(Contents(old(foHead)), Contents(foHead), was.value, Fin(fn, data, level))
        && oldFn == was.value.val.fn && oldData == was.value.val.data && finalizeNow == old(finalizeNow)
      ensures was.None? ==>
        && oldFn == 0 && oldData == 0
        && finalizeNow == (if ok && fn == 0 then Dequeued(old(finalizeNow), obj) else old(finalizeNow))
        && Contents(foHead) == Contents(old(foHead)) + (if ok && fn != 0 && obj in g &&
            memory.entry then {Item(obj, Fin(fn, data, level))} else {})
    {
      hide Placed, TableOk, Contents, Hash, Without;
      oldFn, oldData, was := 0, 0, None;
      foHead, foLog, ok := MakeRoom(foHead, foLog, foEntries, memory.table);
      if !ok {
        return;
      }
      var found, index, j := Find(foHead, foLog, foEntries, obj);
      var next := Item(obj, Fin(fn, data, level));
      if found {
        var it := foHead[index][j];
        oldFn, oldData, was := it.val.fn, it.val.data, Some(it);
        if fn == 0 {
          TableDrop(foLog, foHead, foEntries, index, j);
          foHead := foHead[index := Without(foHead[index], j)];
          foEntries := foEntries - 1;
        } else {
          TableSet(foLog, foHead, foEntries, index, j, next.val);
          foHead := foHead[index := foHead[index][j := next]];
        }
        return;
      }
      if fn == 0 {
        Dequeue(obj);
        return;
      }
      if obj !in g || !memory.entry {
        return;
      }
      TableAdd(foLog, foHead, foEntries, next);
      foHead := foHead[index := [next] + foHead[index]];
      foEntries := foEntries + 1;
    }

    /** Withdraw the first queued finalizer of obj, if any. */
    method Dequeue(obj: Addr)
      modifies this`finalizeNow
      ensures finalizeNow == Dequeued(old(finalizeNow), obj)
    {
      var k := 0;
      while k < |finalizeNow|
        invariant k <= |finalizeNow| && finalizeNow == old(finalizeNow)
        invariant Dequeued(finalizeNow, obj) == finalizeNow[..k] + Dequeued(finalizeNow[k..], obj)
      {
        if finalizeNow[k].key == obj {
          finalizeNow := finalizeNow[..k] + finalizeNow[k + 1..];
          return;
        }
        k := k + 1;
      }
    }

    /** GC_invoke_finalizers: the calls made, in order. The kth call may lead to collections that put later[k] in
        front of the queue, and each may try to invoke finalizers itself. */
    method InvokeFinalizers(later: seq<seq<Item<Fin>>>) returns (calls: seq<Item<Fin>>)
      modifies this`finalizeNow, this`doing
      ensures doing == old(doing)
      ensures old(doing) ==> calls == [] && finalizeNow == old(finalizeNow)
      ensures !old(doing) ==>
        && finalizeNow == [] && Conserved(old(finalizeNow), later, calls, [])
        && (later == [] ==> calls == old(finalizeNow))
      decreases !doing
    {
      hide Conserved;
      calls := [];
      if doing {
        return;
      }
      doing := true;
      NoCallYet(finalizeNow, later);
      while finalizeNow != []
        invariant Conserved(old(finalizeNow), later, calls, finalizeNow)
        invariant later == [] ==> calls + finalizeNow == old(finalizeNow)
        invariant doing
        decreases if |calls| < |later| then |later| - |calls| else 0, |finalizeNow|
      {
        var it, more := finalizeNow[0], ByCall(later, |calls|);
        CallMade(old(finalizeNow), later, calls, finalizeNow);
        finalizeNow := finalizeNow[1..];
        var nested := InvokeFinalizers([]);      // by the finalizer: comes to nothing
        finalizeNow := more + finalizeNow;
        assert calls + [it] + nested == calls + [it];
        calls := calls + [it] + nested;
      }
      doing := false;
    }
  }

  /** Everything that was queued, at first or by the calls made so far, has been called once or still is queued. */
  ghost predicate Conserved(before: seq<Item<Fin>>, later: seq<seq<Item<Fin>>>, calls: seq<Item<Fin>>,
                            queue: seq<Item<Fin>>) {
    multiset(calls) + multiset(queue) == multiset(before) + QueuedBy(later, |calls|)
  }

  /** What the first n calls lead to being queued. */
  ghost function QueuedBy(later: seq<seq<Item<Fin>>>, n: nat): multiset<Item<Fin>> {
    if n == 0 then multiset{} else QueuedBy(later, n - 1) + multiset(ByCall(later, n - 1))
  }

  function ByCall(later: seq<seq<Item<Fin>>>, k: nat): seq<Item<Fin>> {
    if k < |later| then later[k] else []
  }

  lemma NoCallYet(before: seq<Item<Fin>>, later: seq<seq<Item<Fin>>>)
    ensures Conserved(before, later, [], before)
  {
  }

  lemma QueuedNext(later: seq<seq<Item<Fin>>>, n: nat)
    ensures QueuedBy(later, n + 1) == QueuedBy(later, n) + multiset(ByCall(later, n))
  {
  }

  lemma CallMade(before: seq<Item<Fin>>, later: seq<seq<Item<Fin>>>, calls: seq<Item<Fin>>, queue: seq<Item<Fin>>)
    requires queue != [] && Conserved(before, later, calls, queue)
    ensures Conserved(before, later, calls + [queue[0]], ByCall(later, |calls|) + queue[1..])
    ensures calls + [queue[0]] + queue[1..] == calls + queue
  {
    hide QueuedBy, ByCall;
    var n, x, rest, more := |calls|, queue[0], queue[1..], ByCall(later, |calls|);
    assert queue == [x] + rest;
    QueuedNext(later, n);
    var a, b, q, m, w := multiset(calls), multiset(rest), multiset(before), multiset(more), QueuedBy(later, n);
    assert multiset(calls + [x]) == a + multiset{x} && multiset(more + rest) == m + b && multiset(queue) == multiset{x} + b;
    assert |calls + [x]| == n + 1;
    assert (a + multiset{x}) + (m + b) == (a + (multiset{x} + b)) + m;
    assert (q + w) + m == q + (w + m);
  }

  lemma SweptWanted(c: Chains<Fin>, now: Chains<Fin>, gone: set<Item<Fin>>, p: Item<Fin> -> bool, level: Option<nat>,
                    m: set<Addr>)
    requires Sweeping(c, now, gone, p) && SweptTo(now, |now|, 0, p) && forall it :: p(it) <==> Wanted(level, it, m)
    ensures gone == WantedOf(Contents(c), level, m) && Contents(now) == Contents(c) - gone
  {
    hide Contents, Wanted, SweptTo;
    SweepEnd(c, now, gone, p);
  }

  lemma NothingTaken()
    ensures ToSet<Item<Fin>>([]) == {} && NoDup<Item<Fin>>([]) && KeysOf<Fin>({}) == {}
  {
  }

  lemma WantedStill(level: Option<nat>, it: Item<Fin>, m: set<Addr>, m': set<Addr>)
    requires m <= m' && (it.key in m' ==> it.key in m)
    ensures Wanted(level, it, m) <==> Wanted(level, it, m')
  {
  }

  lemma OneMore<A>(s: seq<A>, x: A)
    requires NoDup(s) && x !in ToSet(s)
    ensures NoDup([x] + s) && ToSet([x] + s) == ToSet(s) + {x}
  {
  }

  lemma InSet<A>(s: seq<A>)
    ensures forall x :: x in s <==> x in ToSet(s)
  {
  }

  lemma RootAt(s: seq<Item<Fin>>, k: nat)
    requires k < |s|
    ensures s[k] in s && s[k].key in KeysOf(ToSet(s))
  {
  }

  lemma RootOf(s: seq<Item<Fin>>, r: Addr)
    requires r in KeysOf(ToSet(s))
    ensures exists k :: 0 <= k < |s| && s[k].key == r
  {
  }

  lemma FromRoot(g: Graph, roots: set<Addr>, r: Addr, y: Addr)
    requires r in roots && Reaches(g, r, y)
    ensures ReachedFrom(g, roots, y)
  {
  }

  /** A marker that has marked all targets and only what can be reached has marked exactly that. */
  lemma MarkingDone(g: Graph, m: set<Addr>, roots: set<Addr>, m': set<Addr>)
    requires WellFormed(g) && m <= m'
    requires forall x | x in m :: x in roots || TargetsIn(g, x, m)
    requires forall y | y in m' && y !in m :: ReachedFrom(g, roots, y) && TargetsIn(g, y, m')
    requires forall r | r in roots :: TargetsIn(g, r, m')
    ensures m' == MarkedWith(g, m, roots)
  {
    hide WellFormed, Reaches, MarkedWith, TargetsIn, ReachedFrom;
    forall x | x in m' ensures TargetsIn(g, x, m') {
      if x in m && x !in roots {
        MoreTargets(g, x, m, m');
      }
    }
    MarkingClosed(g, m, roots, m');
  }

  lemma MarkingClosed(g: Graph, m: set<Addr>, roots: set<Addr>, m': set<Addr>)
    requires WellFormed(g) && m <= m' && Closed(g, m')
    requires forall y | y in m' && y !in m :: ReachedFrom(g, roots, y)
    requires forall r | r in roots :: TargetsIn(g, r, m')
    ensures m' == MarkedWith(g, m, roots)
  {
    hide WellFormed, Reaches, MarkedWith, TargetsIn, Closed;
    forall y ensures y in m' <==> y in MarkedWith(g, m, roots) {
      InMarkedWith(g, m, roots, y);
      if ReachedFrom(g, roots, y) {
        var r :| r in roots && Reaches(g, r, y);
        ReachesIn(g, r, y, m');
      }
    }
  }

  lemma TargetsOf(g: Graph, x: Addr, m: set<Addr>)
    requires Closed(g, m) && x in m
    ensures TargetsIn(g, x, m)
  {
  }

  /** The keys of the items before place j of chain i. */
  ghost function KeysTo(chains: Chains<Fin>, i: nat, j: nat): set<Addr> {
    set a, b | 0 <= a < |chains| && 0 <= b < |chains[a]| && (a < i || (a == i && b < j)) :: chains[a][b].key
  }

  lemma KeysNext(chains: Chains<Fin>, i: nat, j: nat)
    requires i < |chains| && j < |chains[i]|
    ensures KeysTo(chains, i, j + 1) == KeysTo(chains, i, j) + {chains[i][j].key}
  {
  }

  lemma KeysChain(chains: Chains<Fin>, i: nat)
    requires i < |chains|
    ensures KeysTo(chains, i + 1, 0) == KeysTo(chains, i, |chains[i]|)
  {
  }

  lemma KeysNone(chains: Chains<Fin>)
    ensures KeysTo(chains, 0, 0) == {}
  {
  }

  lemma KeysAll(chains: Chains<Fin>, it: Item<Fin>)
    requires it in Contents(chains)
    ensures it.key in KeysTo(chains, |chains|, 0)
  {
  }

  ghost function DoomedOf(dl: set<Item<Link>>, late: bool, m: set<Addr>): set<Item<Link>> {
    set it | it in dl && Doomed(it, late, m)
  }

  ghost function DanglingOf(dl: set<Item<Link>>, base: map<Addr, Addr>, m: set<Addr>): set<Item<Link>> {
    set it | it in dl && Dangling(it, base, m)
  }

  /** The links cleared by a collection that starts with marks m and ends with marks f: the normal ones whose
      object was unmarked before resurrection, and the late ones with live holders whose object is unmarked after it. */
  ghost function LinksCleared(dl: set<Item<Link>>, base: map<Addr, Addr>, m: set<Addr>, f: set<Addr>): set<Item<Link>> {
    set it | it in dl && (Doomed(it, false, m) || (Doomed(it, true, f) && !Dangling(it, base, f)))
  }

  /** The links still registered after such a collection. */
  ghost function LinksLeft(dl: set<Item<Link>>, base: map<Addr, Addr>, m: set<Addr>, f: set<Addr>): set<Item<Link>> {
    set it | it in dl && it !in LinksCleared(dl, base, m, f) && !Dangling(it, base, f)
  }

  lemma DoomedAre(dl: set<Item<Link>>, late: bool, m: set<Addr>)
    ensures forall it | it in dl :: it in DoomedOf(dl, late, m) <==> it.val.late == late && it.val.obj !in m
  {
  }

  lemma DanglingAre(dl: set<Item<Link>>, base: map<Addr, Addr>, m: set<Addr>)
    ensures forall it | it in dl :: it in DanglingOf(dl, base, m) <==> it.key in base && base[it.key] !in m
  {
  }

  lemma OneLink(log: int, chains: Chains<Link>, entries: nat)
    requires TableOk(log, chains, entries)
    ensures forall x, y | x in Contents(chains) && y in Contents(chains) && x.key == y.key :: x == y
  {
    hide Contents, Placed;
    forall x, y | x in Contents(chains) && y in Contents(chains) && x.key == y.key ensures x == y {
      assert Placed(log, chains) by { PlacedIn(log, chains, entries); }
      OneItem(log, chains, x, y);
    }
  }

  lemma PlacedIn(log: int, chains: Chains<Link>, entries: nat)
    requires TableOk(log, chains, entries)
    ensures Placed(log, chains)
  {
  }

  /** What becomes of each link. */
  lemma LinksExact(dl: set<Item<Link>>, base: map<Addr, Addr>, m: set<Addr>, f: set<Addr>, mem: map<Addr, nat>)
    requires forall x, y | x in dl && y in dl && x.key == y.key :: x == y
    requires forall it | it in dl :: it.key in mem
    ensures var mem' := Zeroed(mem, KeysOf(LinksCleared(dl, base, m, f)));
      && mem'.Keys == mem.Keys && (forall a | a in mem && !HasKey(dl, a) :: mem'[a] == mem[a])
      && forall it | it in dl :: it.key in mem' &&
           if (if it.val.late then it.val.obj !in f && (it.key in base ==> base[it.key] in f) else it.val.obj !in m)
           then mem'[it.key] == 0 && it !in LinksLeft(dl, base, m, f)
           else mem'[it.key] == mem[it.key] && (it in LinksLeft(dl, base, m, f) <==> (it.key in base ==> base[it.key] in f))
  {
    forall it | it in dl
      ensures it.key in KeysOf(LinksCleared(dl, base, m, f)) <==> it in LinksCleared(dl, base, m, f)
    {
    }
  }

  /** Every link left has a marked object and a holder that is marked or outside the heap. */
  lemma LinksLeftAlive(dl: set<Item<Link>>, base: map<Addr, Addr>, m: set<Addr>, f: set<Addr>, it: Item<Link>)
    requires m <= f && it in LinksLeft(dl, base, m, f)
    ensures it.val.obj in f && (it.key in base ==> base[it.key] in f)
  {
  }

  ghost function Zeroed(mem: map<Addr, nat>, keys: set<Addr>): map<Addr, nat> {
    map k | k in mem :: if k in keys then 0 else mem[k]
  }

  lemma NothingZeroed(mem: map<Addr, nat>)
    ensures Zeroed(mem, KeysOf<Link>({})) == mem
  {
  }

  lemma ZeroedMore(mem: map<Addr, nat>, keys: set<Addr>, k: Addr)
    requires k in mem
    ensures Zeroed(mem, keys)[k := 0] == Zeroed(mem, keys + {k})
  {
  }

  lemma SweptLinks(c: Chains<Link>, now: Chains<Link>, gone: set<Item<Link>>, p: Item<Link> -> bool, s: set<Item<Link>>)
    requires Sweeping(c, now, gone, p) && SweptTo(now, |now|, 0, p)
    requires forall it :: it in s <==> it in Contents(c) && p(it)
    ensures gone == s && Contents(now) == Contents(c) - s
  {
  }

  /** What one phase takes is of no concern to the phases for other levels. */
  lemma OtherLevel(g: Graph, fo: set<Item<Fin>>, level: nat, m: set<Addr>, other: nat, m': set<Addr>)
    requires level != other
    ensures var rest := fo - Unmarked(fo, level, m);
      Unmarked(rest, other, m') == Unmarked(fo, other, m') && AfterEager(g, rest, other, m') == AfterEager(g, fo, other, m')
  {
  }

  lemma Levels(fo: set<Item<Fin>>, m: set<Addr>, m1: set<Addr>)
    ensures Unmarked(fo, 2, m1) !! Unmarked(fo, 1, m)
  {
  }

  lemma NotEager(g: Graph, fo: set<Item<Fin>>, m: set<Addr>)
    ensures var m2 := AfterEagers(g, fo, m);
      Unmarked(fo - EagersOf(g, fo, m), 0, m2) == Unmarked(fo, 0, m2)
  {
  }

  lemma LastAre(g: Graph, fo: set<Item<Fin>>, m: set<Addr>)
    ensures WantedOf(fo - EagersOf(g, fo, m), None, BeforeQueueing(g, fo, m)) == LastQueued(g, fo, m)
    ensures LastQueued(g, fo, m) !! EagersOf(g, fo, m)
  {
  }

  lemma JoinQueues<A>(s: seq<A>, t: seq<A>)
    requires NoDup(s) && NoDup(t) && ToSet(s) !! ToSet(t)
    ensures NoDup(s + t) && ToSet(s + t) == ToSet(s) + ToSet(t)
  {
    forall i, j | 0 <= i < j < |s + t| ensures (s + t)[i] != (s + t)[j] {
      if i < |s| <= j {
        assert s[i] in ToSet(s) && t[j - |s|] in ToSet(t);
      }
    }
  }

  lemma LinksAre(dl: set<Item<Link>>, base: map<Addr, Addr>, m: set<Addr>, f: set<Addr>)
    ensures var dl1 := dl - DoomedOf(dl, false, m); var dl2 := dl1 - DanglingOf(dl1, base, f);
      && dl2 - DoomedOf(dl2, true, f) == LinksLeft(dl, base, m, f)
      && KeysOf(DoomedOf(dl, false, m)) + KeysOf(DoomedOf(dl2, true, f)) == KeysOf(LinksCleared(dl, base, m, f))
  {
  }

  lemma ZeroedKeys(mem: map<Addr, nat>, keys: set<Addr>)
    ensures Zeroed(mem, keys).Keys == mem.Keys
  {
  }

  lemma ZeroedTwice(mem: map<Addr, nat>, keys: set<Addr>, more: set<Addr>)
    ensures Zeroed(Zeroed(mem, keys), more) == Zeroed(mem, keys + more) && Zeroed(mem, keys + more).Keys == mem.Keys
  {
  }
}
