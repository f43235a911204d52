/** A full collection up to the sweep: marking from the roots, and then finalization, which goes on with the same marks.
    The marker's heap of words and the finalizer's graph of objects are two views of the same objects. */
module FullCollection {
  import opened Collections
  import opened ChainedTable
  import M = MarkModel
  import K = Marker
  import F = Finalize

  /** Graph g has the objects of heap h, and the pointers between them. */
  ghost predicate Shows(h: M.Heap, g: F.Graph)
    requires M.WellFormed(h)
  {
    g.Keys == h.home.Keys && forall o, t :: F.Edge(g, o, t) <==> M.Edge(h, o, t)
  }

  ghost function Listing(s: set<nat>): (r: seq<nat>)
    ensures forall x :: x in r <==> x in s
  {
    if s == {} then [] else
      var x :| x in s;
      Listing(s - {x}) + [x]
  }

  /** Every heap has such a graph. */
  lemma GraphOf(h: M.Heap) returns (g: F.Graph)
    requires M.WellFormed(h)
    ensures Shows(h, g)
  {
    hide M.Positions, M.Target;
    g := map o | o in h.home :: Listing(M.Targets(h, M.Positions(h, M.ObjEntry(h, o))));
    forall o, t ensures F.Edge(g, o, t) <==> M.Edge(h, o, t) {
      if o in h.home {
        assert t in g[o] <==> t in M.Targets(h, M.Positions(h, M.ObjEntry(h, o)));
      }
    }
  }

  lemma TargetsAtHome(h: M.Heap, g: F.Graph)
    requires M.WellFormed(h) && Shows(h, g)
    ensures F.WellFormed(g)
  {
    forall x, y | F.Edge(g, x, y) ensures y in g {
      assert M.Edge(h, x, y);
    }
  }

  lemma {:induction false} PathReaches(h: M.Heap, g: F.Graph, p: seq<nat>)
    requires M.WellFormed(h) && Shows(h, g) && M.IsPath(h, p) && 1 < |p|
    ensures F.Reaches(g, p[0], p[|p| - 1])
    decreases |p|
  {
    hide M.WellFormed, F.Reaches, M.Edge;
    var n := |p| - 1;
    assert M.Edge(h, p[n - 1], p[n]) && F.Edge(g, p[n - 1], p[n]);
    if n == 1 {
      F.OneStep(g, p[0], p[1]);
    } else {
      PathReaches(h, g, p[..n]);
      F.NextStep(g, p[0], p[n - 1], p[n]);
    }
  }

  lemma {:induction false} StepsReach(h: M.Heap, g: F.Graph, seeds: set<nat>, x: nat, y: nat, n: nat)
    requires M.WellFormed(h) && Shows(h, g) && M.Reach(h, seeds, x) && F.Steps(g, x, y, n)
    ensures M.Reach(h, seeds, y)
    decreases n
  {
    hide M.WellFormed, M.Reach, M.Edge;
    if n == 0 {
      M.ReachStep(h, seeds, x, y);
    } else {
      var z :| F.Edge(g, x, z) && F.Steps(g, z, y, n - 1);
      M.ReachStep(h, seeds, x, z);
      StepsReach(h, g, seeds, z, y, n - 1);
    }
  }

  /** The marker's reachability, in any number of steps, and the finalizer's, in one or more. */
  lemma SameReach(h: M.Heap, g: F.Graph, seeds: set<nat>, o: nat)
    requires M.WellFormed(h) && Shows(h, g)
    ensures M.Reach(h, seeds, o) <==> o in seeds || F.ReachedFrom(g, seeds, o)
  {
    hide M.WellFormed, M.Edge, Shows;
    if M.Reach(h, seeds, o) && o !in seeds {
      var p :| M.Path(h, seeds, p, o);
      PathReaches(h, g, p);
    }
    if o in seeds {
      M.ReachSeed(h, seeds, o);
    }
    if F.ReachedFrom(g, seeds, o) {
      var r :| r in seeds && F.Reaches(g, r, o);
      M.ReachSeed(h, seeds, r);
      var n: nat :| F.Steps(g, r, o, n);
      StepsReach(h, g, seeds, r, o, n);
    }
  }

  /** The marks with which the marker ends are those from which finalization can start. */
  lemma MarkedIsClosed(h: M.Heap, g: F.Graph, seeds: set<nat>, marked: set<nat>)
    requires M.WellFormed(h) && Shows(h, g) && forall o :: o in marked <==> M.Reach(h, seeds, o)
    ensures F.WellFormed(g) && F.Closed(g, marked) && seeds <= marked
  {
    TargetsAtHome(h, g);
    hide M.WellFormed, M.Edge, M.Reach;
    forall x, y | x in marked && F.Edge(g, x, y) ensures y in marked {
      M.ReachStep(h, seeds, x, y);
    }
    forall o | o in seeds ensures o in marked {
      M.ReachSeed(h, seeds, o);
    }
  }

  /** With the levels that the interface documents, finalization keeps exactly what the roots or registered objects
      reach. */
  lemma KeptByFinalization(h: M.Heap, g: F.Graph, seeds: set<nat>, marked: set<nat>, fo: set<Item<F.Fin>>, o: nat)
    requires M.WellFormed(h) && Shows(h, g) && (forall x :: x in marked <==> M.Reach(h, seeds, x))
    requires Documented(fo)
    ensures o in F.FinalMarks(g, fo, marked) <==> M.Reach(h, seeds + KeysOf(fo), o)
  {
    hide M.WellFormed, M.Reach, Shows, F.FinalMarks, F.MarkedWith, F.Closed, F.Reaches;
    MarkedIsClosed(h, g, seeds, marked);
    var keys, live := KeysOf(fo), KeysOf(F.Live(fo, marked));
    F.FinalMarksAre(g, fo, marked);
    F.InMarkedWith(g, marked + keys, live, o);
    SameReach(h, g, seeds + keys, o);
    if o in marked {
      SameReach(h, g, seeds, o);
    }
    if F.ReachedFrom(g, seeds + keys, o) {
      var r :| r in seeds + keys && F.Reaches(g, r, o);
      if r in marked {
        F.TargetsOf(g, r, marked);
        F.ReachesIn(g, r, o, marked);
      } else {
        var it :| it in fo && it.key == r;
        assert it in F.Live(fo, marked);
      }
    }
  }

  /** A full collection up to the sweep; the finalizer works on the marker's mark bits. With the levels that the
      interface documents the marker is then ready for the next, incremental collection; marked are the marks before
      finalization. */
  method Collect(m: K.Marker, f: F.Finalizer, canGrow: bool)
    returns (ghost marked: set<nat>, ghost queued: seq<Item<F.Fin>>)
    requires m.Shape() && f.Valid() && Shows(m.h, f.g)
    modifies m, f
    ensures m.state == M.MsNone && m.h == M.DirtyRead(old(m.h)) && f.Valid() && m.marked == f.marks
    ensures var fo, seeds := Contents(old(f.foHead)), M.UncollectableAmong(old(m.h), old(m.marked)) + M.RootTargets(m.h);
      && M.WellFormed(m.h) && (forall o :: o in marked <==> M.Reach(m.h, seeds, o))
      && F.ToSet(queued) == F.Queued(f.g, fo, marked) && f.finalizeNow == queued + old(f.finalizeNow)
      && (Documented(fo) ==> m.Valid() && forall o :: o in m.marked <==> M.Reach(m.h, seeds + KeysOf(fo), o))
  {
    hide M.Reach, M.RootTargets, M.DirtyRead, M.UncollectableAmong, F.Queued, KeysOf, Contents, Shows, Documented, m.Valid;
    ghost var h0, seeds := m.h, M.UncollectableAmong(m.h, m.marked);
    m.FullMark(canGrow);
    seeds := seeds + M.RootTargets(m.h);
    StillShows(h0, f.g);
    AtTheEnd(m);
    marked := m.marked;
    queued := FinalizeMarked(m, f, seeds);
  }

  /** The second half of it, after marking from the seeds. */
  method FinalizeMarked(m: K.Marker, f: F.Finalizer, ghost seeds: set<nat>) returns (ghost queued: seq<Item<F.Fin>>)
    requires Ended(m) && f.Valid() && Shows(m.h, f.g)
    requires M.RootTargets(m.h) <= seeds && forall o :: o in m.marked <==> M.Reach(m.h, seeds, o)
    modifies m`marked, m`seeds, m`duty, f
    ensures f.Valid() && m.marked == f.marks && f.finalizeNow == queued + old(f.finalizeNow)
    ensures F.ToSet(queued) == F.Queued(f.g, Contents(old(f.foHead)), old(m.marked))
    ensures Documented(Contents(old(f.foHead))) ==>
      m.Valid() && forall o :: o in m.marked <==> M.Reach(m.h, seeds + KeysOf(Contents(old(f.foHead))), o)
  {
    hide M.Reach, M.RootTargets, M.StaticWords, M.WellFormed, M.EntryOk, M.Owed, M.StackFine;
    hide F.FinalMarks, F.Queued, F.WellFormed, TableOk, KeysOf, Contents, Shows, Documented, m.Valid;
    ghost var marked, fo := m.marked, Contents(f.foHead);
    MarkedIsClosed(m.h, f.g, seeds, marked);
    KeysHome(m.h, f);
    f.marks := m.marked;
    queued := f.Finalize();
    m.marked, m.seeds, m.duty := f.marks, seeds + KeysOf(fo), M.StaticWords(m.h);
    if Documented(fo) {
      forall o ensures o in m.marked <==> M.Reach(m.h, m.seeds, o) {
        KeptByFinalization(m.h, f.g, seeds, marked, fo, o);
      }
      ReachHome(m.h, m.seeds);
      F.MoreMarks(f.g, fo, marked);
      ReadyAgain(m, marked);
    }
  }

  /** What reachable objects there are is among the objects of the heap, if the starting ones are. */
  lemma ReachHome(h: M.Heap, seeds: set<nat>)
    requires M.WellFormed(h) && seeds <= h.home.Keys
    ensures forall o | M.Reach(h, seeds, o) :: o in h.home
  {
    forall o | M.Reach(h, seeds, o) ensures o in h.home {
      var p :| M.Path(h, seeds, p, o);
      var n := |p| - 1;
      if 0 < n {
        assert M.Edge(h, p[n - 1], p[n]);
      }
    }
  }

  lemma KeysHome(h: M.Heap, f: F.Finalizer)
    requires M.WellFormed(h) && f.Valid() && Shows(h, f.g)
    ensures KeysOf(Contents(f.foHead)) <= h.home.Keys
  {
    hide M.WellFormed, Contents;
  }

  /** What the marker is in when a mark phase has ended, as far as finalization does not change it. */
  ghost predicate Ended(m: K.Marker)
    reads m
  {
    && m.Shape() && m.state == M.MsNone && m.stack == [] && m.still && M.NoneWritten(m.h)
    && M.Owed(m.h, m.marked, {}, M.StaticWords(m.h)) && M.StackFine(m.h, m.marked, m.h.stackWords)
    && M.RootTargets(m.h) <= m.seeds
  }

  lemma AtTheEnd(m: K.Marker)
    requires m.Valid() && m.state == M.MsNone && m.still
    ensures Ended(m)
  {
    m.NoneIsClosed();
  }

  /** More marks, as long as they are what more seeds reach, leave the marker ready. */
  lemma ReadyAgain(m: K.Marker, before: set<nat>)
    requires M.WellFormed(m.h) && before <= m.marked <= m.h.home.Keys && m.duty == M.StaticWords(m.h)
    requires M.INITIAL_MARK_STACK_SIZE <= m.limit && m.state == M.MsNone && m.stack == [] && m.still
    requires M.NoneWritten(m.h)
    requires M.Owed(m.h, before, {}, M.StaticWords(m.h)) && M.StackFine(m.h, before, m.h.stackWords)
    requires M.RootTargets(m.h) <= m.seeds && forall o :: o in m.marked <==> M.Reach(m.h, m.seeds, o)
    ensures m.Valid()
  {
    M.QuietAreStatic(m.h);
    hide M.WellFormed, M.Positions, M.Reach, M.RootTargets, M.StaticWords, M.QuietWords;
    assert M.StackWords(m.h, m.stack) + {} == {};
    forall o | o in m.marked ensures M.Covered(m.h, m.marked, {}, o) {
      forall q | q in M.Positions(m.h, M.ObjEntry(m.h, o)) ensures M.Fine(m.h, m.marked, q) {
        if M.Target(m.h, q).Some? {
          assert M.Edge(m.h, o, M.Target(m.h, q).value);
          M.ReachStep(m.h, m.seeds, o, M.Target(m.h, q).value);
        }
      }
    }
  }

  /** Levels 0, 1 and 2 only. */
  ghost predicate Documented(fo: set<Item<F.Fin>>) {
    forall it | it in fo :: it.val.level <= 2
  }

  lemma StillShows(h: M.Heap, g: F.Graph)
    requires M.WellFormed(h) && Shows(h, g)
    ensures M.WellFormed(M.DirtyRead(h)) && Shows(M.DirtyRead(h), g)
  {
    M.DirtyReadOk(h);
    M.DirtyReadSame(h, []);
    M.SamePositions(h, M.DirtyRead(h));
    hide M.WellFormed, M.Positions, M.DirtyRead, M.Target;
  }
}
