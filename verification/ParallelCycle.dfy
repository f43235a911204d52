/** Collections whose mark phases are run by several threads: whenever the sequential machine would drain its stack, a
    run of the parallel marker takes its place. A phase whose stacks overflow leaves the marks invalid, and the heap
    is scanned again before the next one. */
module ParallelCycle {
  import opened MarkModel
  import opened ParallelMark
  import Collections
  import M = Marker

  function Slots(stack: seq<Entry>): seq<Collections.Option<Entry>> {
    seq(|stack|, k requires 0 <= k < |stack| => Collections.Some(stack[k]))
  }

  /** A thread that takes no part yet. */
  function Resting(markNo: nat): Thread {
    Thread(Idle, markNo, 0, [], Collections.None, {}, Collections.None, Collections.None)
  }

  /** The shared state with which GC_do_parallel_mark starts on a mark stack, for an initiator and its helpers. */
  function StartOf(stack: seq<Entry>, limit: nat, marked: set<nat>, helpers: nat, markNo: nat): State {
    State(Slots(stack), limit, 0, 0, 0, false, markNo, helpers + 1, true, marked, seq(helpers + 1, k => Resting(markNo)))
  }

  lemma SlotsHold(h: Heap, stack: seq<Entry>)
    ensures GlobalWords(h, Slots(stack)) == StackWords(h, stack)
  {
    hide MarkModel.Positions, MarkModel.StackWords;
    var g := Slots(stack);
    forall q ensures q in GlobalWords(h, g) <==> q in StackWords(h, stack) {
      StackMember(h, stack, q);
      if q in StackWords(h, stack) {
        var e :| e in stack && q in Positions(h, e);
        var k :| 0 <= k < |stack| && stack[k] == e;
        assert g[k] == Collections.Some(e);
      }
    }
  }

  /** A thread takes its top entry as the sequential marker does: it considers as much of it, and leaves as much. */
  lemma SameAsSequential(h: Heap, t: Thread)
    requires 1 <= h.wordUnits && t.local != []
    ensures var n := |t.local| - 1;
      && TakeTop(h, t).local == t.local[..n] + M.Remainder(h, t.local[n])
      && TakeTop(h, t).hand == if M.Remainder(h, t.local[n]) == [] then Positions(h, t.local[n])
                               else Range(t.local[n].start, t.local[n].start + 127 * h.wordUnits - 1)
  {
  }

  /** A possible course of the phase that starts in s0; it may stop anywhere. */
  ghost predicate Course(h: Heap, s0: State, run: seq<State>)
    requires WellFormed(h)
  {
    0 < |run| && run[0] == s0 && Steps(h, run)
  }

  predicate Over(run: seq<State>) {
    run != [] && run[|run| - 1].threads != [] && run[|run| - 1].threads[0].pc.Returned?
  }

  lemma PhaseStarts(m: M.Marker, s0: State, helpers: nat, markNo: nat)
    requires m.Valid() && m.state == RootsPushed && s0 == StartOf(m.stack, m.limit, m.marked, helpers, markNo)
    ensures Initial(m.h, m.seeds, m.duty, s0)
  {
    hide MarkModel.WellFormed, MarkModel.Exact, MarkModel.ObjInv, MarkModel.StackWords, MarkModel.Owed;
    SlotsHold(m.h, m.stack);
    assert StackWords(m.h, m.stack) + {} == StackWords(m.h, m.stack);
    RootsScope(m);
  }

  /** The scan address does not matter once the roots are pushed. */
  lemma RootsScope(m: M.Marker)
    requires m.Valid() && m.state == RootsPushed
    ensures ObjInv(m.h, RootsPushed, 0, m.marked, StackWords(m.h, m.stack) + {})
  {
  }

  /** The MS_ROOTS_PUSHED arm of GC_mark_some when marking is parallel: the phase takes the given course. */
  method ParallelDrain(m: M.Marker, ghost s0: State, run: seq<State>, canGrow: bool) returns (done: bool)
    requires m.Valid() && m.state == RootsPushed && Initial(m.h, m.seeds, m.duty, s0) && s0.marked == m.marked
    requires Course(m.h, s0, run) && Over(run)
    modifies m`marked, m`state, m`stack, m`limit, m`tooSmall
    ensures m.Valid() && old(m.marked) <= m.marked && m.stack == []
    ensures done <==> NoOverflow(m.h, run)
    ensures m.state == if done then MsNone else Invalid
    // After an overflow, too, the stack grows if there is memory.
    ensures !m.tooSmall && m.limit == if (old(m.tooSmall) || !done) && canGrow then 2 * old(m.limit) else old(m.limit)
  {
    hide MarkModel.WellFormed, MarkModel.Exact, MarkModel.ObjInv, MarkModel.Reach, MarkModel.Owed, Steps, Initial,
         Quiet;
    ReturnIsSafe(m.h, m.seeds, m.duty, run);
    var s := run[|run| - 1];
    ghost var before := m.marked;
    m.marked := s.marked;
    m.stack := [];
    if !s.valid {
      m.state := Invalid;
      m.tooSmall := true;
    }
    if m.tooSmall {
      m.AllocMarkStack(2 * m.limit, canGrow);
    }
    done := m.state == RootsPushed;
    if done {
      m.state := MsNone;
    }
    PhaseEnds(m, before);
  }

  lemma PhaseEnds(m: M.Marker, before: set<nat>)
    requires m.Shape() && m.stack == [] && m.objectsAreMarked && m.scan == 0 && before <= m.marked
    requires m.still ==> NoneWritten(m.h)
    requires Exact(m.h, m.seeds, m.marked, {}) && RootTargets(m.h) <= m.seeds && m.state in {MsNone, Invalid}
    requires m.state == MsNone ==> Kept(m.h, m.marked, {}, m.duty) && QuietWords(m.h) <= m.duty
    requires m.still ==> StackFine(m.h, before, m.h.stackWords)
    ensures m.Valid()
  {
    hide MarkModel.RootTargets, MarkModel.QuietWords, MarkModel.Positions, MarkModel.Reach;
    assert StackWords(m.h, m.stack) + {} == {};
  }

  /** GC_mark_some when marking is parallel. The phase, if there is one, takes the course that `phase` tells for its
      start; a phase that does not come to an end leaves the collector waiting. */
  method ParallelMarkSome(m: M.Marker, phase: State -> seq<State>, helpers: nat, markNo: nat, canGrow: bool)
    returns (done: bool, waits: bool, markNo': nat)
    requires m.Valid() && forall s0 :: Course(m.h, s0, phase(s0))
    modifies m`marked, m`state, m`scan, m`objectsAreMarked, m`stack, m`limit, m`tooSmall, m`duty
    ensures m.Valid() && old(m.marked) <= m.marked
    ensures done ==> m.state == MsNone
    ensures old(m.state) != MsNone && !done ==> m.state != MsNone
    // A phase is in vain only if a stack overflows; it leaves its number behind.
    ensures old(m.state) == RootsPushed ==>
      var run := phase(StartOf(old(m.stack), old(m.limit), old(m.marked), helpers, markNo));
      && (waits <==> !Over(run)) && (done <==> Over(run) && NoOverflow(m.h, run))
      && markNo' == if Over(run) then run[|run| - 1].markNo else markNo
    // Without one, this is a step of the sequential machine; a stack that is a quarter full is taken to be too small.
    ensures old(m.state) != RootsPushed ==> !waits && !done && markNo' == markNo
    ensures old(m.state) != RootsPushed && old(m.state) != MsNone ==>
      m.Smaller(old(m.Unmarked(m.marked)), old(m.Phase()), old(m.BlocksLeft()), old(m.BytesOnStack()))
    ensures old(m.state) == PushUncollectable && m.state != Invalid ==>
      m.tooSmall == (old(m.tooSmall) || old(m.limit) / 4 <= old(|m.stack|) - 1)
    ensures old(m.state) == PartiallyInvalid && m.state != Invalid ==> m.tooSmall == old(m.tooSmall)
    ensures old(m.state) == PushRescuers && m.state != Invalid && old(|m.stack|) - 1 < m.limit - 2048 ==>
      m.tooSmall == old(m.tooSmall)
  {
    hide Course, StartOf, Initial, Over, MarkModel.WellFormed, NoOverflow, m.Smaller;
    done, waits, markNo' := false, false, markNo;
    if m.state == RootsPushed {
      var s0 := StartOf(m.stack, m.limit, m.marked, helpers, markNo);
      PhaseStarts(m, s0, helpers, markNo);
      assert s0.marked == m.marked by { StartMarks(m.stack, m.limit, m.marked, helpers, markNo); }
      var run := phase(s0);
      if Over(run) {
        EndsSomewhere(run);
        markNo' := run[|run| - 1].markNo;
        done := ParallelDrain(m, s0, run, canGrow);
      } else {
        waits := true;
      }
    } else {
      if m.state == PushUncollectable && |m.stack| - 1 >= m.limit / 4 {
        m.tooSmall := true;
      }
      done := m.MarkSome(canGrow);
    }
  }

  lemma EndsSomewhere(run: seq<State>)
    requires Over(run)
    ensures run != []
  {
  }

  lemma StartMarks(stack: seq<Entry>, limit: nat, marked: set<nat>, helpers: nat, markNo: nat)
    ensures StartOf(stack, limit, marked, helpers, markNo).marked == marked
  {
  }

  /** The marking loop of a collection with the world stopped: when it ends exactly the reachable objects are marked,
      whatever courses the phases have taken and however often they have overflowed. It stops after some rounds. */
  method ParallelMarking(m: M.Marker, ghost kept: set<nat>, phases: nat -> State -> seq<State>, helpers: nat,
                         rounds: nat, canGrow: bool)
    returns (done: bool, waits: bool, calls: nat)
    requires m.Valid() && m.still && m.state != MsNone && kept <= m.marked && m.seeds == kept + RootTargets(m.h)
    requires forall k, s0 :: Course(m.h, s0, phases(k)(s0))
    modifies m`marked, m`state, m`scan, m`objectsAreMarked, m`stack, m`limit, m`tooSmall, m`duty
    ensures m.Valid() && old(m.marked) <= m.marked && (done <==> m.state == MsNone)
    ensures done ==> forall o :: o in m.marked <==> Reach(m.h, kept + RootTargets(m.h), o)
    ensures calls <= rounds && (!done && !waits ==> calls == rounds)
  {
    hide Course, MarkModel.Reach, MarkModel.RootTargets, MarkModel.WellFormed, MarkModel.Exact, MarkModel.ObjInv,
         MarkModel.Owed, m.Smaller, NoOverflow, StartOf, Over;
    var markNo := 0;
    done, waits, calls := false, false, 0;
    while calls < rounds && !done && !waits
      invariant m.Valid() && old(m.marked) <= m.marked && (done <==> m.state == MsNone) && calls <= rounds
    {
      done, waits, markNo := ParallelMarkSome(m, phases(calls), helpers, markNo, canGrow);
      calls := calls + 1;
    }
    if done {
      m.AllMarked(kept);
    }
  }
}
