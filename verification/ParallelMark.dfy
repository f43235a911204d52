/** The parallel marker as a state machine: an initiator and any number of helpers share a
    global mark stack, steal entries from it, give entries back, and detect when all work is done.
    A step is one access to shared memory or one critical section of the mark lock. */
module ParallelMark {
  import opened Collections
  import opened MarkModel

  const LOCAL_MARK_STACK_SIZE: nat := 4096
  const ENTRIES_TO_GET: nat := 5
  const SHARE_WORDS: nat := 256   // SHARE_BYTES, in eight-byte words

  /** Where a thread is in GC_do_parallel_mark, GC_help_marker, GC_mark_local and what they call. */
  datatype Pc =
    | Idle                                              // not taking part
    | Joined                                            // counted as a helper, not yet in GC_mark_local
    | Head                                              // top of the loop
    | Cas(seen: nat)                                    // about to advance GC_first_nonempty from seen
    | ReadTop
    | CheckEmpty                                        // about to look again with the lock held
    | Waiting                                           // inactive, in GC_wait_marker
    | Stealing(p: nat, high: int, got: nat, max: nat)   // GC_steal_mark_stack
    | Marking                                           // GC_do_local_mark
    | Exited                                            // GC_mark_local has returned
    | WaitHelpers                                       // the initiator, after withdrawing GC_help_wanted
    | Returned                                          // GC_do_parallel_mark has returned

  datatype Thread = Thread(
    pc: Pc,
    wanted: nat,              // my_mark_no
    first: nat,               // my_first_nonempty
    local: seq<Entry>,
    loaded: Option<Entry>,    // entry read, its slot not yet cleared
    hand: set<nat>,           // locations of the entry being marked from
    candidate: Option<nat>,   // location whose target was seen unmarked
    toPush: Option<nat>)      // object marked, not yet pushed

  datatype State = State(
    global: seq<Option<Entry>>,   // slots up to GC_mark_stack_top; None is a zero descriptor
    size: nat,                    // GC_mark_stack_size
    firstNonempty: nat,
    active: nat,
    helpers: nat,
    helpWanted: bool,
    markNo: nat,
    markers: nat,
    valid: bool,                  // GC_mark_state has not become MS_INVALID
    marked: set<nat>,
    threads: seq<Thread>)         // threads[0] is the initiator

  datatype Action =
    | Start | Join | Enter
    | LoadFirst | CompareAndSwap | LoadTop | CheckUnderLock | Leave | Resume
    | StealLoad | StealStore | StealDone
    | Take | Share | Look(q: nat) | SetMark | Push | GiveBackAll | GiveBackHalf | LocalDone
    | StopHelp | Finish | HelperReturn

  predicate IsActive(pc: Pc) {
    pc.Head? || pc.Cas? || pc.ReadTop? || pc.CheckEmpty? || pc.Stealing? || pc.Marking?
  }

  predicate IsHelping(pc: Pc) {
    pc.Joined? || pc.Waiting? || IsActive(pc)
  }

  function Rest(t: Thread): Thread {
    t.(local := [], loaded := None, hand := {}, candidate := None, toPush := None)
  }

  predicate BetweenEntries(t: Thread) {
    t.pc.Marking? && t.hand == {} && t.candidate.None? && t.toPush.None?
  }

  function StealFrom(t: Thread, s: State): Pc {
    Stealing(t.first, |s.global| - 1, 0, if |s.global| - t.first < 2 * ENTRIES_TO_GET then 1 else ENTRIES_TO_GET)
  }

  /** A big entry counts for its length as well. */
  function StealCost(e: Entry): nat {
    1 + match e.descr { case Length(n) => n / 256 case _ => 0 }
  }

  predicate Drained(s: State) {
    s.active == 0 && |s.global| <= s.firstNonempty
  }

  predicate CanShare(h: Heap, e: Entry) {
    e.descr.Length? && SHARE_WORDS * h.wordUnits < e.descr.n
  }

  /** The two halves, overlapping by a word, that a big range is split into; `half` is rounded down to whole words. */
  function Halves(h: Heap, e: Entry, half: nat): seq<Entry>
    requires CanShare(h, e) && half <= e.descr.n
  {
    [Entry(e.start, Length(half + h.wordUnits)), Entry(e.start + half, Length(e.descr.n - half))]
  }

  /** The greatest number of whole words that is no more than half of n units. */
  function HalfUnits(h: Heap, n: nat): (half: nat)
    requires 1 <= h.wordUnits
    ensures half <= n / 2 < half + h.wordUnits
  {
    var half := n / 2;
    half - half % h.wordUnits
  }

  ghost predicate Enabled(h: Heap, s: State, i: nat, a: Action)
    requires WellFormed(h)
  {
    i < |s.threads| &&
    var t := s.threads[i];
    match a
    case Start => i == 0 && t.pc.Idle? && !s.helpWanted && s.active == 0 && s.helpers == 0
    case Join => i > 0 && t.pc.Idle? && s.helpWanted && s.markNo == t.wanted && s.helpers < s.markers
    case Enter => t.pc.Joined?
    case LoadFirst => t.pc.Head?
    case CompareAndSwap => t.pc.Cas?
    case LoadTop => t.pc.ReadTop?
    case CheckUnderLock => t.pc.CheckEmpty?
    case Leave => t.pc.Waiting? && Drained(s)
    case Resume => t.pc.Waiting? && !Drained(s)
    case StealLoad => t.pc.Stealing? && t.pc.p <= t.pc.high && t.pc.got <= t.pc.max && t.loaded.None? && t.pc.p < |s.global|
    case StealStore => t.pc.Stealing? && t.loaded.Some? && t.pc.p < |s.global|
    case StealDone => t.pc.Stealing? && t.loaded.None? && !(t.pc.p <= t.pc.high && t.pc.got <= t.pc.max)
    case Take => BetweenEntries(t) && t.local != []
    case Share => BetweenEntries(t) && t.local != [] && CanShare(h, t.local[|t.local| - 1]) && |t.local| < LOCAL_MARK_STACK_SIZE
    case Look(q) => t.pc.Marking? && q in t.hand && t.candidate.None? && t.toPush.None?
    case SetMark => t.pc.Marking? && t.candidate.Some? && Target(h, t.candidate.value).Some?
    case Push => t.pc.Marking? && t.toPush.Some? && t.toPush.value in h.home
    case GiveBackAll => BetweenEntries(t) && LOCAL_MARK_STACK_SIZE / 2 < |t.local|
    case GiveBackHalf => BetweenEntries(t) && 2 < |t.local|
    case LocalDone => BetweenEntries(t) && t.local == []
    case StopHelp => i == 0 && t.pc.Exited?
    case Finish => i == 0 && t.pc.WaitHelpers? && s.helpers == 0
    case HelperReturn => i > 0 && t.pc.Exited?
  }

  /** GC_return_mark_stack: append entries to the global stack, or drop them and invalidate the marks. */
  function GiveBack(s: State, entries: seq<Entry>): State {
    if |s.global| + |entries| > s.size then s.(valid := false)
    else s.(global := s.global + seq(|entries|, k requires 0 <= k < |entries| => Some(entries[k])))
  }

  function PushLocal(s: State, i: nat, e: Entry): State
    requires i < |s.threads|
  {
    var t := s.threads[i].(toPush := None);
    if e.descr == Length(0) then s.(threads := s.threads[i := t])
    else if |t.local| < LOCAL_MARK_STACK_SIZE then s.(threads := s.threads[i := t.(local := t.local + [e])])
    else s.(valid := false, threads := s.threads[i := t.(local := t.local[..LOCAL_MARK_STACK_SIZE - MARK_STACK_DISCARDS] + [e])])
  }

  /** GC_mark_from taking the top entry; the remainder of a long range stays on the stack. */
  function TakeTop(h: Heap, t: Thread): Thread
    requires t.local != []
  {
    var n := |t.local| - 1;
    var e, d := t.local[n], Simple(h, t.local[n]);
    var cut := (SPLIT_RANGE_WORDS - 1) * h.wordUnits;
    if d.Length? && SPLIT_RANGE_WORDS * h.wordUnits <= d.n
    then t.(local := t.local[..n] + [Entry(e.start + cut, Length(d.n - cut))], hand := Range(e.start, e.start + cut - 1))
    else t.(local := t.local[..n], hand := Positions(h, e))
  }

  ghost function Do(h: Heap, s: State, i: nat, a: Action): (s': State)
    requires WellFormed(h) && Enabled(h, s, i, a)
    ensures |s'.threads| == |s.threads|
  {
    var t := s.threads[i];
    match a
    case Start => s.(firstNonempty := 0, active := 0, helpers := 1, helpWanted := true, threads := s.threads[i := t.(pc := Joined)])
    case Join => s.(helpers := s.helpers + 1, threads := s.threads[i := t.(pc := Joined)])
    case Enter => s.(active := s.active + 1, threads := s.threads[i := t.(pc := Head, first := s.firstNonempty)])
    case LoadFirst =>
      var g := s.firstNonempty;
      s.(threads := s.threads[i :=
        if t.first < g then t.(first := g, pc := ReadTop)
        else if g < t.first then t.(pc := Cas(g))
        else t.(pc := ReadTop)])
    case CompareAndSwap =>
      s.(firstNonempty := if s.firstNonempty == t.pc.seen then t.first else s.firstNonempty,
         threads := s.threads[i := t.(pc := ReadTop)])
    case LoadTop =>
      s.(threads := s.threads[i := t.(pc := if |s.global| == t.first then CheckEmpty else StealFrom(t, s))])
    case CheckUnderLock =>
      if |s.global| == t.first
      then s.(active := if 0 < s.active then s.active - 1 else 0, threads := s.threads[i := t.(pc := Waiting)])
      else s.(threads := s.threads[i := t.(pc := StealFrom(t, s))])
    case Leave => s.(helpers := if 0 < s.helpers then s.helpers - 1 else 0, threads := s.threads[i := t.(pc := Exited)])
    case Resume => s.(active := s.active + 1, threads := s.threads[i := t.(pc := Head)])
    case StealLoad =>
      var e := s.global[t.pc.p];
      s.(threads := s.threads[i := if e.None? then t.(pc := t.pc.(p := t.pc.p + 1)) else t.(loaded := e)])
    case StealStore =>
      var e := t.loaded.value;
      s.(global := s.global[t.pc.p := None],
         threads := s.threads[i := t.(pc := t.pc.(p := t.pc.p + 1, got := t.pc.got + StealCost(e)), loaded := None,
             local := t.local + [e])])
    case StealDone => s.(threads := s.threads[i := t.(first := t.pc.p, pc := Marking)])
    case Take => s.(threads := s.threads[i := TakeTop(h, t)])
    case Share =>
      var n := |t.local| - 1;
      var e := t.local[n];
      s.(threads := s.threads[i := t.(local := t.local[..n] + Halves(h, e, HalfUnits(h, e.descr.n)))])
    case Look(q) =>
      var x := Target(h, q);
      s.(threads := s.threads[i :=
        if x.None? || x.value in s.marked then t.(hand := t.hand - {q}) else t.(candidate := Some(q))])
    case SetMark =>
      var q := t.candidate.value;
      var x := Target(h, q).value;
      s.(marked := s.marked + {x}, threads := s.threads[i := t.(hand := t.hand - {q}, candidate := None, toPush := Some(x))])
    case Push => PushLocal(s, i, ObjEntry(h, t.toPush.value))
    case GiveBackAll =>
      GiveBack(s, t.local).(threads := s.threads[i := t.(local := [], pc := Head)])
    case GiveBackHalf =>
      var k := (|t.local| - 1) / 2;
      GiveBack(s, t.local[..k]).(threads := s.threads[i := t.(local := t.local[k..])])
    case LocalDone => s.(threads := s.threads[i := t.(pc := Head)])
    case StopHelp => s.(helpWanted := false, threads := s.threads[i := t.(pc := WaitHelpers)])
    case Finish => s.(markNo := s.markNo + 1, threads := s.threads[i := t.(pc := Returned)])
    case HelperReturn => s.(threads := s.threads[i := t.(pc := Idle)])
  }

  // ----- Invariants -----

  function Count(ts: seq<Thread>, p: Pc -> bool): nat {
    if ts == [] then 0
    else Count(ts[..|ts| - 1], p) + (if p(ts[|ts| - 1].pc) then 1 else 0)
  }

  lemma {:induction false} CountUpdate(ts: seq<Thread>, i: nat, t: Thread, p: Pc -> bool)
    requires i < |ts|
    ensures Count(ts[i := t], p) + (if p(ts[i].pc) then 1 else 0) == Count(ts, p) + (if p(t.pc) then 1 else 0)
    decreases |ts|
  {
    var n := |ts| - 1;
    if i < n {
      CountUpdate(ts[..n], i, t, p);
      assert ts[i := t][..n] == ts[..n][i := t];
    } else {
      assert ts[i := t][..n] == ts[..n];
    }
  }

  lemma {:induction false} CountZero(ts: seq<Thread>, i: nat, p: Pc -> bool)
    requires i < |ts| && p(ts[i].pc)
    ensures 0 < Count(ts, p)
    decreases |ts|
  {
    if i < |ts| - 1 {
      CountZero(ts[..|ts| - 1], i, p);
    }
  }

  function Held(h: Heap, t: Thread): set<nat>
  {
    StackWords(h, t.local) + t.hand
      + (if t.loaded.Some? then Positions(h, t.loaded.value) else {})
      + (if t.toPush.Some? && t.toPush.value in h.home && h.home[t.toPush.value] < |h.blocks|
         then Positions(h, Entry(t.toPush.value, h.blocks[h.home[t.toPush.value]].descr)) else {})
  }

  ghost function GlobalWords(h: Heap, g: seq<Option<Entry>>): set<nat> {
    set j, q | 0 <= j < |g| && g[j].Some? && q in Positions(h, g[j].value) :: q
  }

  ghost function HeldWords(h: Heap, ts: seq<Thread>): set<nat> {
    set i, q | 0 <= i < |ts| && q in Held(h, ts[i]) :: q
  }

  /** All locations still waiting to be considered, wherever their entry is. */
  ghost function Pending(h: Heap, s: State): set<nat> {
    GlobalWords(h, s.global) + HeldWords(h, s.threads)
  }

  /** Every slot below n has been emptied. */
  predicate ZeroBelow(s: State, n: nat) {
    n <= |s.global| && forall j | 0 <= j < n :: s.global[j].None?
  }

  ghost predicate ThreadOk(h: Heap, s: State, t: Thread)
    requires WellFormed(h)
  {
    && (IsActive(t.pc) || t.pc.Waiting? ==> ZeroBelow(s, t.first))
    && (!t.pc.Stealing? && !t.pc.Marking? ==> t == Rest(t))
    && (t.pc.Stealing? ==>
         && t.hand == {} && t.candidate.None? && t.toPush.None?
         && ZeroBelow(s, t.pc.p) && t.pc.high < |s.global| && StealOk(t)
         && (t.loaded.Some? ==> t.pc.p <= t.pc.high && s.global[t.pc.p] in {None, t.loaded}))
    && (t.pc.Marking? ==> t.loaded.None?)
    && (t.pc.Cas? ==> t.pc.seen < t.first)
    && (t.candidate.Some? ==> t.candidate.value in t.hand && Target(h, t.candidate.value).Some?)
    && (t.toPush.Some? ==> t.toPush.value in s.marked && t.candidate.None?)
  }

  /** A steal looks at one slot at least, and takes no more than it may: one entry, or five, and the one that exceeds
      it. */
  predicate StealOk(t: Thread)
    requires t.pc.Stealing?
  {
    && t.first <= t.pc.p && (t.pc.p == t.first ==> t.pc.p <= t.pc.high && t.pc.got <= t.pc.max)
    && (t.pc.max == 1 || t.pc.max == 5) && (t.loaded.Some? ==> t.pc.got <= t.pc.max)
    && |t.local| <= t.pc.got && |t.local| <= t.pc.max + 1
  }

  /** No entry anywhere. */
  ghost predicate Quiet(s: State) {
    && (forall j | 0 <= j < |s.global| :: s.global[j].None?)
    && (forall t | t in s.threads :: t == Rest(t))
    && |s.global| <= s.firstNonempty
  }

  /** The counters, the emptied slots and every thread's own state are consistent. */
  ghost predicate Structure(h: Heap, s: State)
    requires WellFormed(h)
  {
    && 0 < |s.threads|
    && s.active == Count(s.threads, IsActive)
    && s.helpers == Count(s.threads, IsHelping)
    && ZeroBelow(s, s.firstNonempty)
    && (forall t | t in s.threads :: ThreadOk(h, s, t))
    && (forall i | 0 < i < |s.threads| :: !s.threads[i].pc.WaitHelpers? && !s.threads[i].pc.Returned?)
    && (PastWork(s.threads[0].pc) ==> Quiet(s))
    && (s.threads[0].pc.Idle? ==> !s.helpWanted)
    && (s.threads[0].pc.WaitHelpers? || s.threads[0].pc.Returned? ==> !s.helpWanted)
    && (s.threads[0].pc.Returned? ==> s.helpers == 0)
    && (1 <= s.markers ==> s.helpers <= s.markers)
  }

  predicate PastWork(pc: Pc) {
    pc.Exited? || pc.WaitHelpers? || pc.Returned?
  }

  ghost predicate Inv(h: Heap, seeds: set<nat>, duty: set<nat>, s: State)
    requires WellFormed(h)
  {
    Structure(h, s) && s.marked <= h.home.Keys && MarksOk(h, seeds, duty, s)
  }

  /** Every pointer of a marked object, and in the static data that has been pushed, is pending or leads to a marked
      object. */
  ghost predicate Kept(h: Heap, marked: set<nat>, pend: set<nat>, duty: set<nat>)
    requires WellFormed(h) && marked <= h.home.Keys
  {
    ObjInv(h, RootsPushed, 0, marked, pend) && Owed(h, marked, pend, duty)
  }

  /** Only reachable objects are marked or pending and, while the marks are valid, no pointer is forgotten. */
  ghost predicate MarksOk(h: Heap, seeds: set<nat>, duty: set<nat>, s: State)
    requires WellFormed(h) && s.marked <= h.home.Keys
  {
    && (s.valid ==> Kept(h, s.marked, Pending(h, s), duty))
    && Exact(h, seeds, s.marked, Pending(h, s))
  }

  // ----- What a step does to the pending locations -----

  lemma HeldUpdate(h: Heap, ts: seq<Thread>, i: nat, t: Thread)
    requires i < |ts|
    ensures forall q | q in HeldWords(h, ts) :: q in HeldWords(h, ts[i := t]) || q in Held(h, ts[i])
    ensures forall q | q in HeldWords(h, ts[i := t]) :: q in HeldWords(h, ts) || q in Held(h, t)
    ensures Held(h, t) <= HeldWords(h, ts[i := t])
    ensures Held(h, ts[i]) <= HeldWords(h, ts)
  {
    hide Held;
    var ts' := ts[i := t];
    forall q | q in HeldWords(h, ts) ensures q in HeldWords(h, ts') || q in Held(h, ts[i]) {
      var j :| 0 <= j < |ts| && q in Held(h, ts[j]);
      if j != i {
        assert ts'[j] == ts[j];
      }
    }
    forall q | q in HeldWords(h, ts') ensures q in HeldWords(h, ts) || q in Held(h, t) {
      var j :| 0 <= j < |ts'| && q in Held(h, ts'[j]);
      if j != i {
        assert ts'[j] == ts[j];
      }
    }
    assert ts'[i] == t;
  }

  /** The marks stay sound, and covered if they were, when nothing pending is lost before its target
      is marked and only contents of marked objects become pending. */
  lemma Transfer(h: Heap, seeds: set<nat>, duty: set<nat>, marked: set<nat>, pend: set<nat>, pend': set<nat>,
                 covered: bool)
    requires WellFormed(h) && marked <= h.home.Keys && Exact(h, seeds, marked, pend)
    requires covered ==> Kept(h, marked, pend, duty)
    requires covered ==> forall q | q in pend :: q in pend' || Fine(h, marked, q)
    requires pend' <= pend
    ensures Exact(h, seeds, marked, pend')
    ensures covered ==> Kept(h, marked, pend', duty)
  {
  }

  /** A step of thread i that keeps what it holds. */
  lemma SameHeld(h: Heap, seeds: set<nat>, duty: set<nat>, s: State, s': State, i: nat)
    requires WellFormed(h) && s.marked <= h.home.Keys && MarksOk(h, seeds, duty, s)
    requires i < |s.threads| && |s'.threads| == |s.threads| && s'.threads == s.threads[i := s'.threads[i]]
    requires s'.global == s.global && s'.marked == s.marked && (s'.valid ==> s.valid)
    requires Held(h, s'.threads[i]) <= Held(h, s.threads[i])
    requires s'.valid ==> forall q | q in Held(h, s.threads[i]) && q !in Held(h, s'.threads[i]) :: Fine(h, s.marked, q)
    ensures MarksOk(h, seeds, duty, s')
  {
    hide Held, MarkModel.WellFormed, MarkModel.Exact, Kept;
    HeldUpdate(h, s.threads, i, s'.threads[i]);
    Transfer(h, seeds, duty, s.marked, Pending(h, s), Pending(h, s'), s'.valid);
  }

  lemma StealKeepsMarks(h: Heap, seeds: set<nat>, duty: set<nat>, s: State, i: nat, a: Action)
    requires WellFormed(h) && s.marked <= h.home.Keys && MarksOk(h, seeds, duty, s)
    requires Enabled(h, s, i, a) && (a.StealLoad? || a.StealStore?) && ThreadOk(h, s, s.threads[i])
    ensures MarksOk(h, seeds, duty, Do(h, s, i, a))
  {
    hide MarkModel.WellFormed, MarkModel.Exact, Kept, MarkModel.Positions, MarkModel.StackWords;
    var t, s' := s.threads[i], Do(h, s, i, a);
    var p := t.pc.p;
    HeldUpdate(h, s.threads, i, s'.threads[i]);
    if a.StealStore? {
      StackPush(h, t.local, t.loaded.value);
      assert Held(h, s'.threads[i]) == Held(h, t);
      forall q | q in GlobalWords(h, s.global) ensures q in Pending(h, s') {
        var j :| 0 <= j < |s.global| && s.global[j].Some? && q in Positions(h, s.global[j].value);
        if j != p {
          assert s'.global[j] == s.global[j];
        }
      }
      forall q | q in GlobalWords(h, s'.global) ensures q in Pending(h, s) {
        var j :| 0 <= j < |s'.global| && s'.global[j].Some? && q in Positions(h, s'.global[j].value);
        assert s.global[j] == s'.global[j];
      }
    } else if s.global[p].Some? {
      assert Held(h, s'.threads[i]) == Held(h, t) + Positions(h, s.global[p].value);
    } else {
      assert Held(h, s'.threads[i]) == Held(h, t);
    }
    Transfer(h, seeds, duty, s.marked, Pending(h, s), Pending(h, s'), s'.valid);
  }

  lemma TakeHeld(h: Heap, t: Thread)
    requires 1 <= h.wordUnits && t.local != [] && t.hand == {}
    ensures Held(h, TakeTop(h, t)) == Held(h, t)
  {
  }

  lemma ShareHeld(h: Heap, t: Thread, half: nat)
    requires 1 <= h.wordUnits && t.local != [] && CanShare(h, t.local[|t.local| - 1])
    requires half <= t.local[|t.local| - 1].descr.n - h.wordUnits
    ensures Held(h, t.(local := t.local[..|t.local| - 1] + Halves(h, t.local[|t.local| - 1], half))) == Held(h, t)
  {
    hide MarkModel.StackWords, MarkModel.Positions;
    var n := |t.local| - 1;
    var e, below := t.local[n], t.local[..n];
    assert t.local == below + [e];
    StackPush(h, below, e);
    HalvesCover(h, e, half);
    var hs := Halves(h, e, half);
    StackPush(h, below, hs[0]);
    StackPush(h, below + [hs[0]], hs[1]);
    assert below + hs == below + [hs[0]] + [hs[1]];
  }

  lemma TakeKeepsMarks(h: Heap, seeds: set<nat>, duty: set<nat>, s: State, i: nat, a: Action)
    requires WellFormed(h) && s.marked <= h.home.Keys && MarksOk(h, seeds, duty, s) && Enabled(h, s, i, a)
    requires a.Take? || a.Share?
    ensures MarksOk(h, seeds, duty, Do(h, s, i, a))
  {
    hide MarkModel.WellFormed, MarkModel.Exact, Kept, Held;
    var t, s' := s.threads[i], Do(h, s, i, a);
    WordUnitsPositive(h);
    if a.Take? {
      TakeHeld(h, t);
    } else {
      ShareHeld(h, t, HalfUnits(h, t.local[|t.local| - 1].descr.n));
    }
    SameHeld(h, seeds, duty, s, s', i);
  }

  lemma WordUnitsPositive(h: Heap)
    requires WellFormed(h)
    ensures 1 <= h.wordUnits
  {
  }

  /** Splitting a range for sharing loses no location; the two parts share at most a word's worth. */
  lemma HalvesCover(h: Heap, e: Entry, half: nat)
    requires 1 <= h.wordUnits && CanShare(h, e) && half <= e.descr.n - h.wordUnits
    ensures var hs := Halves(h, e, half);
      Positions(h, e) == Positions(h, hs[0]) + Positions(h, hs[1])
  {
  }

  lemma MarkKeepsMarks(h: Heap, seeds: set<nat>, duty: set<nat>, s: State, i: nat, a: Action)
    requires WellFormed(h) && s.marked <= h.home.Keys && MarksOk(h, seeds, duty, s)
    requires Enabled(h, s, i, a) && a.SetMark? && ThreadOk(h, s, s.threads[i])
    ensures Do(h, s, i, a).marked <= h.home.Keys && MarksOk(h, seeds, duty, Do(h, s, i, a))
    ensures s.marked <= Do(h, s, i, a).marked
  {
    hide MarkModel.Exact, MarkModel.ObjInv, MarkModel.StackWords, MarkModel.Positions, MarkModel.WellFormed;
    hide HeldWords, GlobalWords, MarkModel.Owed;
    var t, s' := s.threads[i], Do(h, s, i, a);
    var q := t.candidate.value;
    var x := Target(h, q).value;
    HeldUpdate(h, s.threads, i, s'.threads[i]);
    PendingTarget(h, seeds, s.marked, Pending(h, s), q);
    var more := Positions(h, ObjEntry(h, x));
    MarkOne(h, seeds, RootsPushed, 0, s.marked, Pending(h, s), x, duty);
    MarkHeld(h, t, q, x);
    Transfer(h, seeds, duty, s'.marked, Pending(h, s) + more, Pending(h, s'), s'.valid);
  }

  lemma MarkHeld(h: Heap, t: Thread, q: nat, x: nat)
    requires WellFormed(h) && q in t.hand && x in h.home && t.toPush.None?
    ensures Held(h, t.(hand := t.hand - {q}, candidate := None, toPush := Some(x))) + {q} == Held(h, t) + Positions(h,
        ObjEntry(h, x)) + {q}
    ensures Positions(h, ObjEntry(h, x)) <= Held(h, t.(hand := t.hand - {q}, candidate := None, toPush := Some(x)))
    ensures Held(h, t.(hand := t.hand - {q}, candidate := None, toPush := Some(x))) <= Held(h, t) + Positions(h, ObjEntry(h, x))
    ensures q in Held(h, t)
  {
  }

  lemma PendingTarget(h: Heap, seeds: set<nat>, marked: set<nat>, pend: set<nat>, q: nat)
    requires WellFormed(h) && Exact(h, seeds, marked, pend) && q in pend && Target(h, q).Some?
    ensures Reach(h, seeds, Target(h, q).value) && Target(h, q).value in h.home
  {
  }

  lemma PushKeepsMarks(h: Heap, seeds: set<nat>, duty: set<nat>, s: State, i: nat, a: Action)
    requires WellFormed(h) && s.marked <= h.home.Keys && MarksOk(h, seeds, duty, s) && Enabled(h, s, i, a) && a.Push?
    ensures MarksOk(h, seeds, duty, Do(h, s, i, a))
  {
    hide MarkModel.Exact, Kept, MarkModel.StackWords, Held, MarksOk;
    PushHeld(h, s, i, a);
    SameHeld(h, seeds, duty, s, Do(h, s, i, a), i);
  }

  /** What a thread holds after a push of e onto its stack, cut down to its first k entries. */
  lemma PushedHeld(h: Heap, t: Thread, k: nat, e: Entry)
    requires WellFormed(h) && k <= |t.local| && t.toPush.Some? && t.toPush.value in h.home
    requires e == ObjEntry(h, t.toPush.value)
    ensures var t' := t.(toPush := None, local := t.local[..k] + [e]);
      Held(h, t') <= Held(h, t) && (k == |t.local| ==> Held(h, t) <= Held(h, t'))
  {
    hide MarkModel.StackWords, MarkModel.Positions;
    StackPush(h, t.local[..k], e);
    StackPrefix(h, t.local, k);
    assert k == |t.local| ==> t.local[..k] == t.local;
  }

  /** A push loses nothing unless it overflows, which invalidates the marks. */
  lemma PushHeld(h: Heap, s: State, i: nat, a: Action)
    requires WellFormed(h) && Enabled(h, s, i, a) && a.Push?
    ensures var t, t' := s.threads[i], Do(h, s, i, a).threads[i];
      Held(h, t') <= Held(h, t) && (Do(h, s, i, a).valid ==> Held(h, t) <= Held(h, t'))
  {
    hide MarkModel.StackWords, MarkModel.Positions, MarkModel.WellFormed;
    var t := s.threads[i];
    var e := ObjEntry(h, t.toPush.value);
    if e.descr == Length(0) {
      NothingToPush(h, e);
    } else if |t.local| < LOCAL_MARK_STACK_SIZE {
      hide Held;
      PushedHeld(h, t, |t.local|, e);
      assert t.local[..|t.local|] == t.local;
    } else {
      hide Held;
      PushedHeld(h, t, LOCAL_MARK_STACK_SIZE - MARK_STACK_DISCARDS, e);
    }
  }

  lemma NothingToPush(h: Heap, e: Entry)
    requires WellFormed(h) && e.descr == Length(0)
    ensures Positions(h, e) == {}
  {
  }

  lemma {:induction false} SplitStack(h: Heap, a: seq<Entry>, b: seq<Entry>)
    ensures StackWords(h, a + b) == StackWords(h, a) + StackWords(h, b)
    decreases |b|
  {
    if b == [] {
      assert a + b == a;
    } else {
      var n := |b| - 1;
      assert a + b == a + b[..n] + [b[n]];
      SplitStack(h, a, b[..n]);
      StackPush(h, a + b[..n], b[n]);
    }
  }

  lemma {:induction false} StackMember(h: Heap, s: seq<Entry>, q: nat)
    ensures q in StackWords(h, s) <==> exists e | e in s :: q in Positions(h, e)
    decreases |s|
  {
    if s != [] {
      var n := |s| - 1;
      StackMember(h, s[..n], q);
      assert s == s[..n] + [s[n]];
      assert forall e | e in s :: e in s[..n] || e == s[n];
    }
  }

  /** What GC_return_mark_stack appends becomes pending on the global stack. */
  lemma GivenBack(h: Heap, s: State, entries: seq<Entry>)
    requires |s.global| + |entries| <= s.size
    ensures GlobalWords(h, GiveBack(s, entries).global) == GlobalWords(h, s.global) + StackWords(h, entries)
  {
    hide MarkModel.Positions, MarkModel.StackWords;
    var g := GiveBack(s, entries).global;
    forall q | q in GlobalWords(h, g) ensures q in GlobalWords(h, s.global) + StackWords(h, entries) {
      var j :| 0 <= j < |g| && g[j].Some? && q in Positions(h, g[j].value);
      if j < |s.global| {
        assert g[j] == s.global[j];
      } else {
        assert g[j].value == entries[j - |s.global|];
        StackMember(h, entries, q);
      }
    }
    forall q | q in GlobalWords(h, s.global) + StackWords(h, entries) ensures q in GlobalWords(h, g) {
      if q in GlobalWords(h, s.global) {
        var j :| 0 <= j < |s.global| && s.global[j].Some? && q in Positions(h, s.global[j].value);
        assert g[j] == s.global[j];
      } else {
        StackMember(h, entries, q);
        var k :| 0 <= k < |entries| && q in Positions(h, entries[k]);
        assert g[|s.global| + k] == Some(entries[k]);
      }
    }
  }

  lemma GivenHeld(h: Heap, t: Thread, t': Thread, k: nat)
    requires k <= |t.local| && t' == t.(pc := t'.pc, local := t.local[k..])
    ensures Held(h, t) == Held(h, t') + StackWords(h, t.local[..k])
  {
    assert t.local[..k] + t.local[k..] == t.local;
    SplitStack(h, t.local[..k], t.local[k..]);
  }

  lemma GiveBackKeepsMarks(h: Heap, seeds: set<nat>, duty: set<nat>, s: State, i: nat, a: Action)
    requires WellFormed(h) && s.marked <= h.home.Keys && MarksOk(h, seeds, duty, s)
    requires Enabled(h, s, i, a) && (a.GiveBackAll? || a.GiveBackHalf?)
    ensures MarksOk(h, seeds, duty, Do(h, s, i, a))
  {
    hide MarkModel.Exact, Kept, MarkModel.StackWords, MarkModel.Positions, MarkModel.WellFormed, GlobalWords,
         HeldWords, Held;
    var t, s' := s.threads[i], Do(h, s, i, a);
    var k := if a.GiveBackAll? then |t.local| else (|t.local| - 1) / 2;
    assert a.GiveBackAll? ==> t.local[..k] == t.local && t.local[k..] == [];
    GivenHeld(h, t, s'.threads[i], k);
    HeldUpdate(h, s.threads, i, s'.threads[i]);
    if |s.global| + k <= s.size {
      GivenBack(h, s, t.local[..k]);
    }
    Transfer(h, seeds, duty, s.marked, Pending(h, s), Pending(h, s'), s'.valid);
  }

  // ----- Every step keeps the invariant -----

  predicate IsControl(a: Action) {
    !a.StealLoad? && !a.StealStore? && !a.Take? && !a.Share? && !a.SetMark? && !a.Push? && !a.GiveBackAll? && !a.GiveBackHalf?
  }

  lemma ControlKeepsMarks(h: Heap, seeds: set<nat>, duty: set<nat>, s: State, i: nat, a: Action)
    requires WellFormed(h) && s.marked <= h.home.Keys && MarksOk(h, seeds, duty, s)
    requires Enabled(h, s, i, a) && ThreadOk(h, s, s.threads[i]) && IsControl(a)
    ensures MarksOk(h, seeds, duty, Do(h, s, i, a))
  {
    hide MarkModel.WellFormed, MarkModel.Exact, Kept, MarkModel.StackWords, MarkModel.Positions, MarksOk;
    SameHeld(h, seeds, duty, s, Do(h, s, i, a), i);
  }

  lemma StepKeepsMarks(h: Heap, seeds: set<nat>, duty: set<nat>, s: State, i: nat, a: Action)
    requires WellFormed(h) && Inv(h, seeds, duty, s) && Enabled(h, s, i, a)
    ensures Do(h, s, i, a).marked <= h.home.Keys && s.marked <= Do(h, s, i, a).marked
    ensures MarksOk(h, seeds, duty, Do(h, s, i, a))
  {
    hide MarkModel.WellFormed, MarksOk;
    assert ThreadOk(h, s, s.threads[i]);
    match a
    case StealLoad => StealKeepsMarks(h, seeds, duty, s, i, a);
    case StealStore => StealKeepsMarks(h, seeds, duty, s, i, a);
    case Take => TakeKeepsMarks(h, seeds, duty, s, i, a);
    case Share => TakeKeepsMarks(h, seeds, duty, s, i, a);
    case SetMark => MarkKeepsMarks(h, seeds, duty, s, i, a);
    case Push => PushKeepsMarks(h, seeds, duty, s, i, a);
    case GiveBackAll => GiveBackKeepsMarks(h, seeds, duty, s, i, a);
    case GiveBackHalf => GiveBackKeepsMarks(h, seeds, duty, s, i, a);
    case _ => ControlKeepsMarks(h, seeds, duty, s, i, a);
  }

  /** Slots are only emptied or added, so what holds of a thread keeps holding while others step. */
  lemma OthersOk(h: Heap, s: State, s': State, t: Thread)
    requires WellFormed(h) && ThreadOk(h, s, t) && s.marked <= s'.marked
    requires |s.global| <= |s'.global|
    requires forall j | 0 <= j < |s.global| :: s'.global[j] in {None, s.global[j]}
    ensures ThreadOk(h, s', t)
  {
  }

  lemma StepSlots(h: Heap, s: State, i: nat, a: Action)
    requires WellFormed(h) && Structure(h, s) && Enabled(h, s, i, a)
    ensures i < |s.threads| && ThreadOk(h, s, s.threads[i])
    ensures var s' := Do(h, s, i, a);
      && |s'.threads| == |s.threads| && s'.threads == s.threads[i := s'.threads[i]]
      && s.marked <= s'.marked && |s.global| <= |s'.global|
      && (forall j | 0 <= j < |s.global| :: s'.global[j] in {None, s.global[j]})
  {
    hide MarkModel.WellFormed, MarkModel.Positions, MarkModel.StackWords, Quiet, Count, Halves, TakeTop;
    assert ThreadOk(h, s, s.threads[i]);
  }

  /** Steps that touch a thread's mark stack leave it in order. */
  lemma StepWorker(h: Heap, s: State, i: nat, a: Action)
    requires WellFormed(h) && Enabled(h, s, i, a) && ThreadOk(h, s, s.threads[i]) && !IsControl(a)
    ensures ThreadOk(h, Do(h, s, i, a), Do(h, s, i, a).threads[i])
  {
    hide Do, ThreadOk, Enabled, MarkModel.WellFormed;
    if a.GiveBackAll? || a.GiveBackHalf? || a.Push? {
      StepShared(h, s, i, a);
    } else if a.StealLoad? || a.StealStore? {
      StepSteal(h, s, i, a);
    } else {
      StepOwn(h, s, i, a);
    }
  }

  lemma StepShared(h: Heap, s: State, i: nat, a: Action)
    requires WellFormed(h) && Enabled(h, s, i, a) && ThreadOk(h, s, s.threads[i]) && (a.GiveBackAll? || a.GiveBackHalf? || a.Push?)
    ensures ThreadOk(h, Do(h, s, i, a), Do(h, s, i, a).threads[i])
  {
    hide MarkModel.WellFormed, MarkModel.Positions, MarkModel.StackWords;
    if a.GiveBackAll? {
      assert Do(h, s, i, a).threads[i] == Rest(Do(h, s, i, a).threads[i]);
    }
  }

  lemma StepSteal(h: Heap, s: State, i: nat, a: Action)
    requires WellFormed(h) && Enabled(h, s, i, a) && ThreadOk(h, s, s.threads[i]) && (a.StealLoad? || a.StealStore?)
    ensures ThreadOk(h, Do(h, s, i, a), Do(h, s, i, a).threads[i])
  {
    hide MarkModel.WellFormed, MarkModel.Positions, MarkModel.StackWords;
  }

  lemma StepOwn(h: Heap, s: State, i: nat, a: Action)
    requires WellFormed(h) && Enabled(h, s, i, a) && ThreadOk(h, s, s.threads[i]) && (a.Take? || a.Share? || a.SetMark?)
    ensures ThreadOk(h, Do(h, s, i, a), Do(h, s, i, a).threads[i])
  {
    hide MarkModel.WellFormed, MarkModel.Positions, MarkModel.StackWords;
  }

  lemma StepControl(h: Heap, s: State, i: nat, a: Action)
    requires WellFormed(h) && Enabled(h, s, i, a) && ThreadOk(h, s, s.threads[i]) && ZeroBelow(s, s.firstNonempty)
    requires IsControl(a)
    ensures ThreadOk(h, Do(h, s, i, a), Do(h, s, i, a).threads[i])
  {
    hide Do, Enabled, ThreadOk, ZeroBelow, MarkModel.WellFormed;
    if a.Look? || a.LocalDone? || a.StealDone? || a.StopHelp? || a.Finish? || a.HelperReturn? {
      StepLocal(h, s, i, a);
    } else {
      StepJoining(h, s, i, a);
    }
  }

  lemma StepLocal(h: Heap, s: State, i: nat, a: Action)
    requires WellFormed(h) && Enabled(h, s, i, a) && ThreadOk(h, s, s.threads[i])
    requires a.Look? || a.LocalDone? || a.StealDone? || a.StopHelp? || a.Finish? || a.HelperReturn?
    ensures ThreadOk(h, Do(h, s, i, a), Do(h, s, i, a).threads[i])
  {
    hide MarkModel.WellFormed, MarkModel.Positions, MarkModel.StackWords;
  }

  /** The steps that take a thread to the global stack. */
  lemma StepJoining(h: Heap, s: State, i: nat, a: Action)
    requires WellFormed(h) && Enabled(h, s, i, a) && ThreadOk(h, s, s.threads[i]) && ZeroBelow(s, s.firstNonempty)
    requires IsControl(a)
    requires !a.Look? && !a.LocalDone? && !a.StealDone? && !a.StopHelp? && !a.Finish? && !a.HelperReturn?
    ensures ThreadOk(h, Do(h, s, i, a), Do(h, s, i, a).threads[i])
  {
    hide MarkModel.WellFormed, MarkModel.Positions, MarkModel.StackWords, MarkModel.Target;
  }

  /** Only leaving brings a thread past its work. */
  lemma StepPast(h: Heap, s: State, i: nat, a: Action)
    requires WellFormed(h) && Enabled(h, s, i, a)
    ensures var s' := Do(h, s, i, a);
      && (PastWork(s'.threads[i].pc) ==> a.Leave? || PastWork(s.threads[i].pc))
      && (i > 0 && !PastWork(s.threads[i].pc) ==> !s'.threads[i].pc.WaitHelpers? && !s'.threads[i].pc.Returned?)
      && (i > 0 && s.threads[i].pc.Exited? ==> s'.threads[i].pc.Idle?)
      && (a.Start? ==> !PastWork(s'.threads[i].pc) && i == 0)
      && (s'.threads[i].pc.Idle? ==> 0 < i) && (s'.helpWanted ==> s.helpWanted || a.Start?)
      && HelpersLeave(s, s', i)
  {
    hide Do, Enabled, MarkModel.WellFormed;
    if IsControl(a) {
      ControlPast(h, s, i, a);
    } else {
      WorkerDeltas(h, s, i, a);
      WorkerPast(h, s, i, a);
    }
  }

  lemma ControlPast(h: Heap, s: State, i: nat, a: Action)
    requires WellFormed(h) && Enabled(h, s, i, a) && IsControl(a)
    ensures var s' := Do(h, s, i, a);
      && |s'.threads| == |s.threads|
      && (PastWork(s'.threads[i].pc) ==> a.Leave? || PastWork(s.threads[i].pc))
      && (i > 0 && !PastWork(s.threads[i].pc) ==> !s'.threads[i].pc.WaitHelpers? && !s'.threads[i].pc.Returned?)
      && (i > 0 && s.threads[i].pc.Exited? ==> s'.threads[i].pc.Idle?)
      && (a.Start? ==> !PastWork(s'.threads[i].pc) && i == 0)
      && (s'.threads[i].pc.Idle? ==> 0 < i) && (s'.helpWanted ==> s.helpWanted || a.Start?)
      && HelpersLeave(s, s', i)
  {
    hide MarkModel.WellFormed, MarkModel.Target;
  }

  /** How helpers and the wish for them come and go. */
  predicate HelpersLeave(s: State, s': State, i: nat)
    requires i < |s.threads| && |s'.threads| == |s.threads|
  {
    && s'.markers == s.markers
    && (s'.helpers <= s.helpers || (s.helpWanted && s.helpers < s.markers && s'.helpers == s.helpers + 1) || s'.helpers == 1)
    && (s.helpers < s'.helpers ==> s.helpWanted || i == 0)
    && (s'.threads[i].pc.WaitHelpers? ==> !s'.helpWanted)
    && (s'.threads[i].pc.Returned? ==> s.threads[i].pc.WaitHelpers? && s.helpers == 0 && s'.helpers == 0)
    && !s.threads[i].pc.Returned?
  }

  lemma WorkerPast(h: Heap, s: State, i: nat, a: Action)
    requires WellFormed(h) && Enabled(h, s, i, a) && !IsControl(a)
    ensures var s' := Do(h, s, i, a);
      IsActive(s.threads[i].pc) && s'.helpWanted == s.helpWanted && s'.helpers == s.helpers && s'.markers == s.markers
  {
    hide MarkModel.WellFormed, MarkModel.Target, TakeTop, Halves;
  }

  function One(b: bool): nat {
    if b then 1 else 0
  }

  /** The lock-protected counters move with the thread that takes the step. */
  lemma StepDeltas(h: Heap, s: State, i: nat, a: Action)
    requires WellFormed(h) && Enabled(h, s, i, a)
    requires IsActive(s.threads[i].pc) ==> 0 < s.active
    requires IsHelping(s.threads[i].pc) ==> 0 < s.helpers
    ensures var s' := Do(h, s, i, a);
      && |s'.threads| == |s.threads| && s'.threads == s.threads[i := s'.threads[i]]
      && s'.active + One(IsActive(s.threads[i].pc)) == s.active + One(IsActive(s'.threads[i].pc))
      && s'.helpers + One(IsHelping(s.threads[i].pc)) == s.helpers + One(IsHelping(s'.threads[i].pc))
  {
    hide Do, Enabled, MarkModel.WellFormed, IsActive, IsHelping;
    if a.Start? || a.Join? || a.Enter? || a.CheckUnderLock? || a.Leave? || a.Resume? {
      CountedDeltas(h, s, i, a);
    } else {
      OtherDeltas(h, s, i, a);
    }
  }

  /** The steps that change the counters. */
  lemma CountedDeltas(h: Heap, s: State, i: nat, a: Action)
    requires WellFormed(h) && Enabled(h, s, i, a)
    requires a.Start? || a.Join? || a.Enter? || a.CheckUnderLock? || a.Leave? || a.Resume?
    requires IsActive(s.threads[i].pc) ==> 0 < s.active
    requires IsHelping(s.threads[i].pc) ==> 0 < s.helpers
    ensures var s' := Do(h, s, i, a);
      && |s'.threads| == |s.threads| && s'.threads == s.threads[i := s'.threads[i]]
      && s'.active + One(IsActive(s.threads[i].pc)) == s.active + One(IsActive(s'.threads[i].pc))
      && s'.helpers + One(IsHelping(s.threads[i].pc)) == s.helpers + One(IsHelping(s'.threads[i].pc))
  {
    hide MarkModel.WellFormed;
  }

  /** The others neither change them nor bring a thread into or out of the parts that they count. */
  lemma OtherDeltas(h: Heap, s: State, i: nat, a: Action)
    requires WellFormed(h) && Enabled(h, s, i, a)
    requires !a.Start? && !a.Join? && !a.Enter? && !a.CheckUnderLock? && !a.Leave? && !a.Resume?
    ensures var s' := Do(h, s, i, a);
      && |s'.threads| == |s.threads| && s'.threads == s.threads[i := s'.threads[i]]
      && s'.active == s.active && s'.helpers == s.helpers
      && IsActive(s'.threads[i].pc) == IsActive(s.threads[i].pc) && IsHelping(s'.threads[i].pc) == IsHelping(s.threads[i].pc)
  {
    hide Do, Enabled, MarkModel.WellFormed, IsActive, IsHelping;
    if IsControl(a) {
      ControlDeltas(h, s, i, a);
    } else {
      WorkerDeltas(h, s, i, a);
    }
  }

  lemma ControlDeltas(h: Heap, s: State, i: nat, a: Action)
    requires WellFormed(h) && Enabled(h, s, i, a) && IsControl(a)
    requires !a.Start? && !a.Join? && !a.Enter? && !a.CheckUnderLock? && !a.Leave? && !a.Resume?
    ensures var s' := Do(h, s, i, a);
      && |s'.threads| == |s.threads| && s'.threads == s.threads[i := s'.threads[i]] && s'.active == s.active &&
          s'.helpers == s.helpers
      && IsActive(s'.threads[i].pc) == IsActive(s.threads[i].pc) && IsHelping(s'.threads[i].pc) == IsHelping(s.threads[i].pc)
  {
    hide MarkModel.WellFormed, MarkModel.Target;
  }

  lemma TopTaken(h: Heap, t: Thread)
    requires t.local != []
    ensures TakeTop(h, t).pc == t.pc
  {
  }

  lemma GivesBack(s: State, entries: seq<Entry>)
    ensures var s' := GiveBack(s, entries); s' == s.(global := s'.global, valid := s'.valid)
  {
  }

  lemma PushesLocal(s: State, i: nat, e: Entry)
    requires i < |s.threads|
    ensures var s' := PushLocal(s, i, e);
      && s' == s.(valid := s'.valid, threads := s'.threads) && |s'.threads| == |s.threads|
      && s'.threads == s.threads[i := s'.threads[i]] && s'.threads[i].pc == s.threads[i].pc
  {
  }

  lemma WorkerDeltas(h: Heap, s: State, i: nat, a: Action)
    requires WellFormed(h) && Enabled(h, s, i, a) && !IsControl(a)
    ensures var s' := Do(h, s, i, a);
      && |s'.threads| == |s.threads| && s'.threads == s.threads[i := s'.threads[i]] && s'.active == s.active &&
          s'.helpers == s.helpers
      && IsActive(s'.threads[i].pc) == IsActive(s.threads[i].pc) && IsHelping(s'.threads[i].pc) == IsHelping(s.threads[i].pc)
  {
    hide MarkModel.WellFormed, MarkModel.Target, MarkModel.ObjEntry, MarkModel.Positions, MarkModel.StackWords,
         MarkModel.Simple;
    hide CanShare, HalfUnits, Halves, StealCost, TakeTop, GiveBack, PushLocal;
    if a.Take? {
      TopTaken(h, s.threads[i]);
    } else if a.GiveBackAll? || a.GiveBackHalf? {
      GivesBack(s, if a.GiveBackAll? then s.threads[i].local else s.threads[i].local[..(|s.threads[i].local| - 1) / 2]);
    } else if a.Push? {
      PushesLocal(s, i, ObjEntry(h, s.threads[i].toPush.value));
    }
  }

  lemma StepCounts(h: Heap, s: State, i: nat, a: Action)
    requires WellFormed(h) && Structure(h, s) && Enabled(h, s, i, a)
    ensures var s' := Do(h, s, i, a);
      s'.active == Count(s'.threads, IsActive) && s'.helpers == Count(s'.threads, IsHelping)
  {
    hide MarkModel.WellFormed, ThreadOk, ZeroBelow, Quiet, Count, Do, Enabled, IsActive, IsHelping;
    StepSlots(h, s, i, a);
    var t, t' := s.threads[i], Do(h, s, i, a).threads[i];
    if IsActive(t.pc) {
      CountZero(s.threads, i, IsActive);
    }
    if IsHelping(t.pc) {
      CountZero(s.threads, i, IsHelping);
    }
    StepDeltas(h, s, i, a);
    CountUpdate(s.threads, i, t', IsActive);
    CountUpdate(s.threads, i, t', IsHelping);
  }

  lemma StepFirst(h: Heap, s: State, i: nat, a: Action)
    requires WellFormed(h) && Structure(h, s) && Enabled(h, s, i, a) && ThreadOk(h, s, s.threads[i])
    ensures ZeroBelow(Do(h, s, i, a), Do(h, s, i, a).firstNonempty)
  {
    hide MarkModel.WellFormed, MarkModel.Target, MarkModel.Positions, MarkModel.StackWords, Quiet, Count, TakeTop,
         Halves;
    hide MarkModel.ObjEntry, StealCost, HalfUnits;
  }

  /** A thread that sees no active thread and an exhausted stack sees that no work is left anywhere. */
  lemma DrainedIsQuiet(h: Heap, s: State)
    requires WellFormed(h) && Structure(h, s) && Drained(s)
    ensures Quiet(s)
  {
    hide MarkModel.WellFormed;
    forall t | t in s.threads ensures t == Rest(t) {
      var i :| 0 <= i < |s.threads| && s.threads[i] == t;
      if IsActive(t.pc) {
        CountZero(s.threads, i, IsActive);
      }
      assert ThreadOk(h, s, t);
    }
  }

  lemma QuietControl(h: Heap, s: State, i: nat, a: Action)
    requires WellFormed(h) && Enabled(h, s, i, a) && ThreadOk(h, s, s.threads[i]) && s.threads[i] == Rest(s.threads[i])
    requires |s.global| <= s.firstNonempty && IsControl(a) && !a.Start?
    ensures var s' := Do(h, s, i, a);
      && s'.global == s.global && |s.global| <= s'.firstNonempty && |s'.threads| == |s.threads|
      && s'.threads == s.threads[i := s'.threads[i]] && s'.threads[i] == Rest(s'.threads[i])
  {
    hide MarkModel.WellFormed, MarkModel.Positions, MarkModel.Target;
  }

  /** The only thing a thread without entries can do with its stack is to look for one, in vain. */
  lemma QuietWorker(h: Heap, s: State, i: nat, a: Action)
    requires WellFormed(h) && Enabled(h, s, i, a) && s.threads[i] == Rest(s.threads[i]) && !IsControl(a)
    requires forall j | 0 <= j < |s.global| :: s.global[j].None?
    ensures var s' := Do(h, s, i, a);
      && s'.global == s.global && s'.firstNonempty == s.firstNonempty && |s'.threads| == |s.threads|
      && s'.threads == s.threads[i := s'.threads[i]] && s'.threads[i] == Rest(s'.threads[i])
  {
    hide MarkModel.WellFormed, MarkModel.Positions, MarkModel.Target, TakeTop, Halves;
  }

  /** Once there is no work left, no step makes any. */
  lemma QuietStays(h: Heap, s: State, i: nat, a: Action)
    requires WellFormed(h) && Structure(h, s) && Enabled(h, s, i, a) && Quiet(s) && ThreadOk(h, s, s.threads[i])
    requires !a.Start?
    ensures Quiet(Do(h, s, i, a))
  {
    hide MarkModel.WellFormed, Do, Enabled, Count, ThreadOk;
    EnabledIndex(h, s, i, a);
    var s' := Do(h, s, i, a);
    assert s.threads[i] in s.threads;
    assert s.threads[i] == Rest(s.threads[i]);
    if IsControl(a) {
      QuietControl(h, s, i, a);
    } else {
      QuietWorker(h, s, i, a);
    }
    assert forall t | t in s'.threads :: t in s.threads || t == s'.threads[i];
  }

  lemma StepKeepsStructure(h: Heap, s: State, i: nat, a: Action)
    requires WellFormed(h) && Structure(h, s) && Enabled(h, s, i, a)
    ensures ThreadOk(h, s, s.threads[i]) && Structure(h, Do(h, s, i, a))
  {
    hide MarkModel.WellFormed, ThreadOk, ZeroBelow, Do, Count, Quiet, Enabled;
    assert i < |s.threads| by { EnabledIndex(h, s, i, a); }
    StepSlots(h, s, i, a);
    var s' := Do(h, s, i, a);
    if IsControl(a) {
      StepControl(h, s, i, a);
    } else {
      StepWorker(h, s, i, a);
    }
    StepCounts(h, s, i, a);
    StepFirst(h, s, i, a);
    forall t | t in s'.threads ensures ThreadOk(h, s', t) {
      if t != s'.threads[i] {
        assert t in s.threads;
        OthersOk(h, s, s', t);
      }
    }
    StepPast(h, s, i, a);
    if a.Leave? {
      assert Drained(s) by { EnabledIndex(h, s, i, a); }
      DrainedIsQuiet(h, s);
    }
    if PastWork(s'.threads[0].pc) {
      QuietStays(h, s, i, a);
    }
  }

  lemma EnabledIndex(h: Heap, s: State, i: nat, a: Action)
    requires WellFormed(h) && Enabled(h, s, i, a)
    ensures i < |s.threads| && (a.Leave? ==> Drained(s))
  {
  }

  // ----- Whole runs -----

  /** The state in which GC_do_parallel_mark is called: the stack holds all the work. */
  ghost predicate Initial(h: Heap, seeds: set<nat>, duty: set<nat>, s: State)
    requires WellFormed(h)
  {
    && 0 < |s.threads| && s.valid && s.marked <= h.home.Keys
    && s.firstNonempty == 0 && s.active == 0 && s.helpers == 0 && !s.helpWanted
    && (forall t | t in s.threads :: t.pc.Idle? && t == Rest(t))
    && Kept(h, s.marked, GlobalWords(h, s.global), duty)
    && Exact(h, seeds, s.marked, GlobalWords(h, s.global))
  }

  /** A finite run: each state follows from the one before by a step of some thread. */
  ghost predicate Run(h: Heap, seeds: set<nat>, duty: set<nat>, run: seq<State>)
    requires WellFormed(h)
  {
    0 < |run| && Initial(h, seeds, duty, run[0]) && Steps(h, run)
  }

  ghost predicate Steps(h: Heap, run: seq<State>)
    requires WellFormed(h)
  {
    forall k | 0 < k < |run| :: Next(h, run[k - 1], run[k])
  }

  ghost predicate Next(h: Heap, s: State, s': State)
    requires WellFormed(h)
  {
    exists i: nat, a :: Takes(h, s, i, a, s')
  }

  ghost predicate Takes(h: Heap, s: State, i: nat, a: Action, s': State)
    requires WellFormed(h)
  {
    Enabled(h, s, i, a) && s' == Do(h, s, i, a)
  }

  lemma {:induction false} InvAlways(h: Heap, seeds: set<nat>, duty: set<nat>, run: seq<State>)
    requires WellFormed(h) && Run(h, seeds, duty, run)
    ensures Inv(h, seeds, duty, run[|run| - 1])
    decreases |run|
  {
    hide MarkModel.WellFormed, Structure, MarksOk;
    var n := |run| - 1;
    if n == 0 {
      InitialInv(h, seeds, duty, run[0]);
    } else {
      InvAlways(h, seeds, duty, run[..n]);
      assert Next(h, run[n - 1], run[n]);
      var i: nat, a :| Takes(h, run[n - 1], i, a, run[n]);
      StepKeepsStructure(h, run[n - 1], i, a);
      StepKeepsMarks(h, seeds, duty, run[n - 1], i, a);
    }
  }

  lemma InitialInv(h: Heap, seeds: set<nat>, duty: set<nat>, s: State)
    requires WellFormed(h) && Initial(h, seeds, duty, s)
    ensures Inv(h, seeds, duty, s)
  {
    hide MarkModel.WellFormed, MarkModel.Exact, Kept;
    NoneCounted(s.threads, IsActive);
    NoneCounted(s.threads, IsHelping);
    assert forall i | 0 <= i < |s.threads| :: s.threads[i] in s.threads;
    assert HeldWords(h, s.threads) == {};
    assert Pending(h, s) == GlobalWords(h, s.global);
  }

  lemma {:induction false} NoneCounted(ts: seq<Thread>, p: Pc -> bool)
    requires forall t | t in ts :: !p(t.pc)
    ensures Count(ts, p) == 0
    decreases |ts|
  {
    if ts != [] {
      NoneCounted(ts[..|ts| - 1], p);
    }
  }

  /** The two ways in which entries are lost: a thread pushes onto a full local stack, or it returns more entries than
      the global stack has room for. */
  ghost predicate Overflows(h: Heap, s: State, i: nat, a: Action)
    requires WellFormed(h) && Enabled(h, s, i, a)
  {
    var n := |s.threads[i].local|;
    match a
    case Push => ObjEntry(h, s.threads[i].toPush.value).descr != Length(0) && LOCAL_MARK_STACK_SIZE <= n
    case GiveBackAll => s.size < |s.global| + n
    case GiveBackHalf => s.size < |s.global| + (n - 1) / 2
    case _ => false
  }

  /** Nothing else makes the marks invalid, and nothing makes them valid again. */
  lemma StepValid(h: Heap, s: State, i: nat, a: Action)
    requires WellFormed(h) && Enabled(h, s, i, a)
    ensures Do(h, s, i, a).valid <==> s.valid && !Overflows(h, s, i, a)
  {
    hide MarkModel.WellFormed, MarkModel.Positions, MarkModel.Target, TakeTop, Halves, HalfUnits, StealCost;
  }

  ghost predicate StepFits(h: Heap, s: State, s': State)
    requires WellFormed(h)
  {
    exists i: nat, a :: Takes(h, s, i, a, s') && !Overflows(h, s, i, a)
  }

  /** Every step of the run can be taken without an overflow. */
  ghost predicate NoOverflow(h: Heap, run: seq<State>)
    requires WellFormed(h)
  {
    forall k | 0 < k < |run| :: StepFits(h, run[k - 1], run[k])
  }

  /** The marks are valid exactly as long as there has been no overflow. */
  lemma {:induction false} ValidIff(h: Heap, seeds: set<nat>, duty: set<nat>, run: seq<State>)
    requires WellFormed(h) && Run(h, seeds, duty, run)
    ensures run[|run| - 1].valid <==> NoOverflow(h, run)
    decreases |run|
  {
    hide MarkModel.WellFormed, Overflows, Enabled, Do, Kept, MarkModel.Exact;
    var n := |run| - 1;
    if n > 0 {
      ValidIff(h, seeds, duty, run[..n]);
      assert Next(h, run[n - 1], run[n]);
      var i: nat, a :| Takes(h, run[n - 1], i, a, run[n]);
      StepValid(h, run[n - 1], i, a);
      if StepFits(h, run[n - 1], run[n]) {
        var j: nat, b :| Takes(h, run[n - 1], j, b, run[n]) && !Overflows(h, run[n - 1], j, b);
        StepValid(h, run[n - 1], j, b);
      }
    }
  }

  /** A thread that goes stealing has at least one slot to look at, takes one entry if fewer than ten slots are left and
      five otherwise, and gets on: the next time it looks further up. */
  lemma StealStarts(h: Heap, s: State, i: nat, a: Action)
    requires WellFormed(h) && Structure(h, s) && Enabled(h, s, i, a) && (a.LoadTop? || a.CheckUnderLock?)
    ensures var t, t' := s.threads[i], Do(h, s, i, a).threads[i];
      if t'.pc.Stealing? then
        && t.first < |s.global| && t'.pc.p == t.first && t'.pc.high == |s.global| - 1 && t'.pc.got == 0
        && t'.pc.max == if |s.global| < t.first + 10 then 1 else 5
      else t.first == |s.global|
  {
    hide MarkModel.WellFormed;
    assert ThreadOk(h, s, s.threads[i]);
  }

  lemma StealAdvances(h: Heap, s: State, i: nat)
    requires WellFormed(h) && Structure(h, s) && Enabled(h, s, i, StealDone)
    ensures s.threads[i].first < Do(h, s, i, StealDone).threads[i].first
    ensures |s.threads[i].local| <= s.threads[i].pc.max + 1 <= 6
  {
    hide MarkModel.WellFormed;
    assert ThreadOk(h, s, s.threads[i]);
  }

  /** What is left of a steal, and of the entry that a thread marks from. */
  function StealLeft(t: Thread): int
    requires t.pc.Stealing?
  {
    2 * (t.pc.high + 1 - t.pc.p) + (if t.loaded.None? then 1 else 0)
  }

  function HandLeft(t: Thread): nat {
    2 * |t.hand| + (if t.candidate.None? then 1 else 0)
  }

  /** No step that steals, looks or takes is in vain. */
  lemma StealUsesUp(h: Heap, s: State, i: nat, a: Action)
    requires WellFormed(h) && Enabled(h, s, i, a) && ThreadOk(h, s, s.threads[i]) && (a.StealLoad? || a.StealStore?)
    ensures var t, t' := s.threads[i], Do(h, s, i, a).threads[i];
      t.pc.Stealing? && t'.pc.Stealing? && 0 <= StealLeft(t') < StealLeft(t)
  {
    hide MarkModel.WellFormed, MarkModel.Positions, MarkModel.StackWords, StealCost, ZeroBelow;
  }

  lemma LookUsesUp(h: Heap, s: State, i: nat, a: Action)
    requires WellFormed(h) && Enabled(h, s, i, a) && ThreadOk(h, s, s.threads[i]) && (a.Look? || a.SetMark?)
    ensures HandLeft(Do(h, s, i, a).threads[i]) < HandLeft(s.threads[i])
  {
    hide MarkModel.WellFormed, MarkModel.Positions, MarkModel.StackWords;
    var t := s.threads[i];
    if a.SetMark? {
      assert |t.hand - {t.candidate.value}| == |t.hand| - 1;
    } else {
      assert |t.hand - {a.q}| == |t.hand| - 1;
    }
  }

  lemma TakeUsesUp(h: Heap, s: State, i: nat)
    requires WellFormed(h) && Enabled(h, s, i, Take)
    ensures StackWork(h, Do(h, s, i, Take).threads[i].local) < StackWork(h, s.threads[i].local)
  {
    hide MarkModel.StackWork, TakeTop;
    TakenWork(h, s.threads[i]);
  }

  lemma TakenWork(h: Heap, t: Thread)
    requires 1 <= h.wordUnits && t.local != []
    ensures StackWork(h, TakeTop(h, t).local) < StackWork(h, t.local)
  {
    var n := |t.local| - 1;
    assert t.local == t.local[..n] + [t.local[n]];
    StackPush(h, t.local[..n], t.local[n]);
    var left := TakeTop(h, t).local;
    if left != t.local[..n] {
      StackPush(h, t.local[..n], left[n]);
    }
  }

  /** The mark phase gets the next number when it is finished, and not before. */
  lemma {:induction false} PhaseNumber(h: Heap, seeds: set<nat>, duty: set<nat>, run: seq<State>)
    requires WellFormed(h) && Run(h, seeds, duty, run)
    ensures var s := run[|run| - 1];
      s.threads != [] && s.markNo == run[0].markNo + (if s.threads[0].pc.Returned? then 1 else 0)
    decreases |run|
  {
    hide MarkModel.WellFormed, Kept, MarkModel.Exact, Structure, Do, Enabled;
    var n := |run| - 1;
    if n == 0 {
      assert run[0].threads[0] in run[0].threads;
    } else {
      PhaseNumber(h, seeds, duty, run[..n]);
      InvAlways(h, seeds, duty, run[..n]);
      assert Next(h, run[n - 1], run[n]);
      var i: nat, a :| Takes(h, run[n - 1], i, a, run[n]);
      StepNumber(h, run[n - 1], i, a);
    }
  }

  lemma StepNumber(h: Heap, s: State, i: nat, a: Action)
    requires WellFormed(h) && Enabled(h, s, i, a) && s.threads != []
    ensures var s' := Do(h, s, i, a);
      && s'.threads != [] && s'.markNo == s.markNo + (if a.Finish? then 1 else 0)
      && (s'.threads[0].pc.Returned? <==> s.threads[0].pc.Returned? || a.Finish?)
      && (a.Finish? ==> !s.threads[0].pc.Returned?)
  {
    hide MarkModel.WellFormed, MarkModel.Positions, MarkModel.StackWords, MarkModel.Target, MarkModel.ObjEntry;
    hide Halves, HalfUnits, StealCost;
  }

  /** An entry counts for one when it is stolen, and a range for one more for each 256 units. */
  lemma StealCostIs(e: Entry)
    ensures e.descr.Length? ==> 256 * (StealCost(e) - 1) <= e.descr.n < 256 * StealCost(e)
    ensures !e.descr.Length? ==> StealCost(e) == 1
  {
  }

  /** What makes a thread wait no longer, return entries, share a range, or help. */
  lemma StepsHaveReasons(h: Heap, s: State, i: nat, a: Action)
    requires WellFormed(h) && Enabled(h, s, i, a)
    ensures var n := |s.threads[i].local|;
      && (a.Leave? ==> s.active == 0 && |s.global| <= s.firstNonempty)
      && (a.Resume? ==> 0 < s.active || s.firstNonempty < |s.global|)
      && (a.GiveBackAll? ==> 2048 < n)
      && (a.GiveBackHalf? ==> 0 < (n - 1) / 2 < n - (n - 1) / 2)
      && (a.Share? ==> n < 4096 && 256 * h.wordUnits < s.threads[i].local[n - 1].descr.n)
      && (a.Join? ==> 0 < i && s.helpWanted && s.helpers < s.markers && s.threads[i].wanted == s.markNo)
      && (a.Finish? ==> s.helpers == 0)
  {
  }

  /** Every other thread can help when it is asked and there is room, and can go once it has left. */
  lemma HelpersComeAndGo(h: Heap, s: State, i: nat)
    requires WellFormed(h) && 0 < i < |s.threads|
    ensures var t := s.threads[i];
      && (t.pc.Idle? && s.helpWanted && s.helpers < s.markers && t.wanted == s.markNo ==> Enabled(h, s, i, Join))
      && (t.pc.Exited? ==> Enabled(h, s, i, HelperReturn))
  {
  }

  /** In every interleaving: while any thread still works it is counted active, slots below
      GC_first_nonempty are empty, and no entry is lost while the marks are valid. */
  lemma RunSafety(h: Heap, seeds: set<nat>, duty: set<nat>, run: seq<State>)
    requires WellFormed(h) && Run(h, seeds, duty, run)
    ensures var s := run[|run| - 1];
      && (forall t | t in s.threads && t != Rest(t) :: 0 < s.active && IsActive(t.pc))
      && ZeroBelow(s, s.firstNonempty)
      && (NoOverflow(h, run) ==> s.marked <= h.home.Keys && Kept(h, s.marked, Pending(h, s), duty))
  {
    hide MarkModel.WellFormed, Kept, MarkModel.Exact;
    InvAlways(h, seeds, duty, run);
    ValidIff(h, seeds, duty, run);
    hide NoOverflow;
    var s := run[|run| - 1];
    forall t | t in s.threads && t != Rest(t) ensures 0 < s.active && IsActive(t.pc) {
      var i :| 0 <= i < |s.threads| && s.threads[i] == t;
      assert ThreadOk(h, s, t);
      CountZero(s.threads, i, IsActive);
    }
  }

  /** When the initiator returns there is no entry left anywhere and, if no stack overflowed, no pointer is left to
      follow: exactly the reachable objects are marked, if the seeds were marked or pointed to from what had been
      pushed. */
  lemma ReturnIsSafe(h: Heap, seeds: set<nat>, duty: set<nat>, run: seq<State>)
    requires WellFormed(h) && Run(h, seeds, duty, run)
    requires run[|run| - 1].threads != [] && run[|run| - 1].threads[0].pc.Returned?
    ensures var s := run[|run| - 1];
      && Quiet(s) && (forall t | t in s.threads :: !IsHelping(t.pc)) && !s.helpWanted
      && run[0].marked <= s.marked <= h.home.Keys && Exact(h, seeds, s.marked, {})
      && (s.valid <==> NoOverflow(h, run)) && (NoOverflow(h, run) ==> Kept(h, s.marked, {}, duty))
      && (NoOverflow(h, run) && NoneWritten(h) && seeds <= run[0].marked + Targets(h, duty) ==> forall o :: o in s.marked <==>
          Reach(h, seeds, o))
  {
    hide MarkModel.WellFormed, MarkModel.Exact, MarkModel.ObjInv, MarkModel.Reach;
    InvAlways(h, seeds, duty, run);
    var s := run[|run| - 1];
    assert Pending(h, s) == {} by { QuietHasNothing(h, s); }
    forall t | t in s.threads ensures !IsHelping(t.pc) {
      var i :| 0 <= i < |s.threads| && s.threads[i] == t;
      if IsHelping(t.pc) {
        CountZero(s.threads, i, IsHelping);
      }
    }
    MarksGrow(h, seeds, duty, run);
    ValidIff(h, seeds, duty, run);
    hide NoOverflow;
    if s.valid && NoneWritten(h) && seeds <= run[0].marked + Targets(h, duty) {
      ClosedMarks(h, seeds, s.marked);
    }
  }

  /** A step that takes a waiting thread out of its wait only to wait again. */
  predicate Idles(s: State, a: Action) {
    a.Resume? && |s.global| <= s.firstNonempty
  }

  ghost predicate CanStep(h: Heap, s: State, i: nat, a: Action)
    requires WellFormed(h)
  {
    Enabled(h, s, i, a) && !Idles(s, a)
  }

  ghost predicate GoesOn(h: Heap, s: State)
    requires WellFormed(h)
  {
    exists i: nat, a :: CanStep(h, s, i, a)
  }

  /** In every interleaving: until the initiator has returned some thread can take a step that is more than waiting. */
  lemma NeverStuck(h: Heap, seeds: set<nat>, duty: set<nat>, run: seq<State>)
    requires WellFormed(h) && Run(h, seeds, duty, run)
    requires run[|run| - 1].threads != [] && !run[|run| - 1].threads[0].pc.Returned?
    ensures GoesOn(h, run[|run| - 1])
  {
    hide MarkModel.WellFormed, ThreadOk, Count, ZeroBelow, Enabled, MarksOk;
    InvAlways(h, seeds, duty, run);
    var s := run[|run| - 1];
    if i :| 0 <= i < |s.threads| && IsActive(s.threads[i].pc) {
      ActiveSteps(h, s, i);
    } else {
      NoneCounted(s.threads, IsActive);
      RestingSteps(h, s);
    }
  }

  /** An active thread is never held up by others. */
  lemma ActiveSteps(h: Heap, s: State, i: nat)
    requires WellFormed(h) && i < |s.threads| && ThreadOk(h, s, s.threads[i]) && s.marked <= h.home.Keys
    requires IsActive(s.threads[i].pc)
    ensures exists a :: CanStep(h, s, i, a)
  {
    hide MarkModel.WellFormed, MarkModel.Target, CanShare;
    var t := s.threads[i];
    match t.pc
    case Head => assert CanStep(h, s, i, LoadFirst);
    case Cas(_) => assert CanStep(h, s, i, CompareAndSwap);
    case ReadTop => assert CanStep(h, s, i, LoadTop);
    case CheckEmpty => assert CanStep(h, s, i, CheckUnderLock);
    case Stealing(_, _, _, _) =>
      assert CanStep(h, s, i, StealLoad) || CanStep(h, s, i, StealStore) || CanStep(h, s, i, StealDone);
    case Marking =>
      if t.candidate.Some? {
        assert CanStep(h, s, i, SetMark);
      } else if t.toPush.Some? {
        assert CanStep(h, s, i, Push);
      } else if q :| q in t.hand {
        assert CanStep(h, s, i, Look(q));
      } else {
        assert CanStep(h, s, i, Take) || CanStep(h, s, i, LocalDone);
      }
  }

  /** With no thread active, one joins, leaves or starts again, or the initiator goes on. */
  lemma RestingSteps(h: Heap, s: State)
    requires WellFormed(h) && Structure(h, s) && s.active == 0 && !s.threads[0].pc.Returned?
    requires forall t | t in s.threads :: !IsActive(t.pc)
    ensures GoesOn(h, s)
  {
    hide MarkModel.WellFormed, ThreadOk, Count, ZeroBelow, Quiet;
    if i :| 0 <= i < |s.threads| && s.threads[i].pc.Joined? {
      assert CanStep(h, s, i, Enter);
    } else if i :| 0 <= i < |s.threads| && s.threads[i].pc.Waiting? {
      assert CanStep(h, s, i, Leave) || CanStep(h, s, i, Resume);
    } else {
      assert forall t | t in s.threads :: !IsHelping(t.pc);
      NoneCounted(s.threads, IsHelping);
      assert s.threads[0] in s.threads;
      assert CanStep(h, s, 0, Start) || CanStep(h, s, 0, StopHelp) || CanStep(h, s, 0, Finish);
    }
  }

  lemma QuietHasNothing(h: Heap, s: State)
    requires Quiet(s)
    ensures Pending(h, s) == {}
  {
    assert forall i | 0 <= i < |s.threads| :: s.threads[i] in s.threads;
    assert forall t | t in s.threads :: Held(h, t) == {};
  }

  lemma {:induction false} MarksGrow(h: Heap, seeds: set<nat>, duty: set<nat>, run: seq<State>)
    requires WellFormed(h) && Run(h, seeds, duty, run)
    ensures run[0].marked <= run[|run| - 1].marked
    decreases |run|
  {
    hide MarkModel.WellFormed, Structure, MarksOk;
    var n := |run| - 1;
    if n > 0 {
      MarksGrow(h, seeds, duty, run[..n]);
      InvAlways(h, seeds, duty, run[..n]);
      assert Next(h, run[n - 1], run[n]);
      var i: nat, a :| Takes(h, run[n - 1], i, a, run[n]);
      StepKeepsMarks(h, seeds, duty, run[n - 1], i, a);
    }
  }
}
