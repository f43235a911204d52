/** Stopping and starting the world on Darwin: threads are suspended until a whole pass over the thread list
    finds no new one. The kernel, and what the other threads do between two kernel calls, are part of the state:
    they create threads, quit, and suspend and resume each other. The exception handler does none of that to others,
    and while the world is being stopped no thread is set running that the collector has found suspended already:
    the collector does not record such a thread, so that it would not stop it for certain, nor start it again. */
module StopWorld {
  import opened Collections

  const THREAD_TABLE_SZ: nat := 256

  /** What the other threads do: a running one creates a thread or suspends or resumes one, one quits, or the
      collector's turn comes. */
  datatype Move = Spawn(parent: nat, t: nat) | Quit(t: nat) | Suspend(who: nat, t: nat) | Resume(who: nat, t: nat) | Yield

  /** An entry of GC_mach_threads. */
  datatype Entry = Entry(thread: nat, alreadySuspended: nat)

  type Counts = map<nat, nat>      // the live threads with their suspend counts

  /** The caller, and the exception handler thread if there is one: the collector leaves them alone. In a calm
      setting the other threads do not suspend or resume each other. */
  datatype Setting = Setting(me: nat, handler: nat, useHandler: bool, calm: bool)
  {
    predicate Has(t: nat) {
      t == me || (useHandler && t == handler)
    }
  }

  /** The threads at some time: their suspend counts, what the program has made of those, the threads there have been,
      those that the collector has found suspended, and the number of moves to come. */
  datatype Moment = Moment(live: Counts, due: Counts, used: set<nat>, skipped: set<nat>, moves: nat)
  {
    ghost predicate Ok() {
      due.Keys == live.Keys <= used
    }
  }

  /** No thread runs that could do anything to others. */
  ghost predicate Quiet(x: Setting, live: Counts) {
    forall t | t in live && !x.Has(t) :: 0 < live[t]
  }

  /** Thread t does not run until the collector lets it: it is gone or exempt, the collector has suspended it, or it has
      been found suspended. */
  ghost predicate Stuck(x: Setting, a: Moment, t: nat) {
    x.Has(t) || t !in a.live || (t in a.due && a.due[t] < a.live[t]) || (t in a.skipped && 0 < a.live[t])
  }

  /** How the threads can change while the collector waits for the kernel. */
  ghost predicate Evolved(x: Setting, a: Moment, b: Moment) {
    && a.Ok() && b.Ok() && a.used <= b.used && b.skipped == a.skipped
    && b.moves <= a.moves && |b.used| + b.moves <= |a.used| + a.moves
    && (forall t | t in b.live && t in a.used :: t in a.live && b.live[t] + a.due[t] == a.live[t] + b.due[t])
    && (forall t | t in b.live && t !in a.used :: b.live[t] == b.due[t] && (x.calm ==> b.due[t] == 0))
    && (x.calm ==> forall t | t in b.live && t in a.live :: b.due[t] == a.due[t])
    && (forall t | t in a.live && (a.due[t] < a.live[t] || t == x.me) :: t in b.live)
    && (forall t | t in a.live && t in a.skipped && 0 < a.live[t] :: t in b.live && 0 < b.live[t])
    && (Quiet(x, a.live) ==> b.live.Keys <= a.live.Keys && forall t | t in b.live :: b.live[t] == a.live[t])
    && (b.moves == a.moves ==> b.live.Keys <= a.live.Keys)
  }

  lemma EvolvedTrans(x: Setting, a: Moment, b: Moment, c: Moment)
    requires Evolved(x, a, b) && Evolved(x, b, c)
    ensures Evolved(x, a, c)
  {
  }

  class World {
    const x: Setting
    var live: Counts
    var due: Counts                // the counts as the program alone has made them
    var used: set<nat>             // threads that exist or have existed
    var skipped: set<nat>          // threads found suspended while the world is being stopped
    var script: seq<Move>          // what the other threads will do; any script stands for an interleaving
    var table: seq<Entry>          // GC_mach_threads

    constructor (x: Setting, live: Counts, script: seq<Move>)
      requires x.me in live && |live.Keys| + |script| <= THREAD_TABLE_SZ && (x.calm ==> IsCalm(script))
      ensures Valid() && this.x == x && this.live == this.due == live && this.script == script
    {
      this.x, this.live, this.due, this.script, used, skipped, table := x, live, live, script, live.Keys, {}, [];
    }

    ghost function Now(): Moment
      reads this
    {
      Moment(live, due, used, skipped, |script|)
    }

    ghost predicate Valid()
      reads this
    {
      Now().Ok() && |used| + |script| <= THREAD_TABLE_SZ && x.me in live && (x.calm ==> IsCalm(script))
    }

    // ----- The kernel -----

    /** Does thread t run, and is it not exempt? */
    predicate Runs(t: nat)
      reads this
    {
      t in live && live[t] == 0 && !x.Has(t)
    }

    /** The other threads run until it is the collector's turn. */
    method Others()
      requires Valid()
      modifies this`live, this`due, this`used, this`script
      ensures Valid() && Evolved(x, old(Now()), Now())
    {
      while script != []
        invariant Valid() && Evolved(x, old(Now()), Now())
        decreases |script|
      {
        hide Evolved;
        ghost var before := Now();
        var m := script[0];
        script := script[1..];
        if m.Yield? {
          Waits(x, before, Now());
          EvolvedTrans(x, old(Now()), before, Now());
          return;
        }
        Perform(m, before);
        EvolvedTrans(x, old(Now()), before, Now());
      }
    }

    /** One move, if it can be made; before is the moment before it was taken from the script. */
    method Perform(m: Move, ghost before: Moment)
      requires Valid() && before == Now().(moves := |script| + 1) && |used| + |script| < THREAD_TABLE_SZ
      requires x.calm ==> !m.Suspend? && !m.Resume?
      modifies this`live, this`due, this`used
      ensures Valid() && Evolved(x, before, Now())
      // The others can suspend and resume whom they like, but for the exempt and those found suspended.
      ensures m.Suspend? && old(Runs(m.who)) && m.t in old(live) && !x.Has(m.t) ==>
        live == old(live)[m.t := old(live)[m.t] + 1] && m.t in old(due) && due == old(due)[m.t := old(due)[m.t] + 1]
      ensures (&& m.Resume? && old(Runs(m.who)) && m.t in old(live) && !x.Has(m.t)
               && m.t in old(due) && 0 < old(due)[m.t]
               && (1 < old(live)[m.t] || (0 < old(live)[m.t] && m.t !in skipped))) ==>
        live == old(live)[m.t := old(live)[m.t] - 1] && due == old(due)[m.t := old(due)[m.t] - 1]
    {
      hide Evolved;
      Waits(x, before, Now());
      match m
      case Spawn(parent, t) =>
        if Runs(parent) && t !in used {
          live, due, used := live[t := 0], due[t := 0], used + {t};
          Spawned(x, before, Now(), parent, t);
        }
      case Quit(t) =>
        if t in live && live[t] == 0 && t != x.me {
          live, due := live - {t}, due - {t};
          Left(x, before, Now(), t);
        }
      case Suspend(who, t) =>
        if Runs(who) && t in live && !x.Has(t) {
          live, due := live[t := live[t] + 1], due[t := due[t] + 1];
          Suspended(x, before, Now(), who, t);
        }
      case Resume(who, t) =>
        if Runs(who) && t in live && !x.Has(t) && 0 < due[t] && 0 < live[t] && (t in skipped ==> 1 < live[t]) {
          live, due := live[t := live[t] - 1], due[t := due[t] - 1];
          Released(x, before, Now(), who, t);
        }
      case Yield =>
    }

    /** task_threads. */
    method TaskThreads() returns (list: seq<nat>)
      requires Valid()
      modifies this`live, this`due, this`used, this`script
      ensures Valid() && Evolved(x, old(Now()), Now())
      ensures NoDup(list) && forall t :: t in list <==> t in live
    {
      hide Evolved;
      Others();
      var rest := live.Keys;
      list := [];
      while rest != {}
        invariant rest <= live.Keys && NoDup(list) && forall t :: t in list <==> t in live && t !in rest
        decreases |rest|
      {
        var t :| t in rest;
        rest := rest - {t};
        list := list + [t];
      }
    }

    /** thread_info: the suspend count, unless the thread has quit. */
    method ThreadInfo(t: nat) returns (ok: bool, count: nat)
      requires Valid()
      modifies this`live, this`due, this`used, this`script
      ensures Valid() && Evolved(x, old(Now()), Now())
      ensures ok == (t in live) && (ok ==> count == live[t])
    {
      hide Evolved;
      Others();
      ok := t in live;
      count := if ok then live[t] else 0;
    }

    /** thread_suspend; b is the moment right before the kernel does it. */
    method ThreadSuspend(t: nat) returns (ok: bool, ghost b: Moment)
      requires Valid()
      modifies this`live, this`due, this`used, this`script
      ensures Valid() && Evolved(x, old(Now()), b)
      ensures ok == (t in b.live) && Now() == if ok then b.(live := b.live[t := b.live[t] + 1]) else b
    {
      hide Evolved;
      Others();
      b := Now();
      ok := t in live;
      if ok {
        live := live[t := live[t] + 1];
      }
    }

    /** thread_resume. */
    method ThreadResume(t: nat) returns (ok: bool, ghost b: Moment)
      requires Valid()
      modifies this`live, this`due, this`used, this`script
      ensures Valid() && Evolved(x, old(Now()), b)
      ensures ok == (t in b.live && 0 < b.live[t]) && Now() == if ok then b.(live := b.live[t := b.live[t] - 1]) else b
    {
      hide Evolved;
      Others();
      b := Now();
      ok := t in live && 0 < live[t];
      if ok {
        live := live[t := live[t] - 1];
      }
    }

    // ----- The collector -----

    /** What holds between kernel calls while the world is being stopped; c0 are the threads from before. */
    ghost predicate Stopping(c0: Counts)
      reads this
    {
      Valid() && Consistent(x, c0, Now(), table)
    }

    /** One thread of the list: record it if it is new, and suspend it unless it is suspended already. */
    method SuspendOne(t: nat, found: bool, ghost c0: Counts)
      requires Stopping(c0) && t in used && (!found ==> !Listed(table, t)) && (found ==> Stuck(x, Now(), t))
      modifies this
      ensures Stopping(c0) && Grown(x, old(Now()), Now()) && Stuck(x, Now(), t)
      ensures forall s | Listed(table, s) :: Listed(old(table), s) || s == t
      // A new thread gets an entry, unless it has been found suspended: one that says whether it is to be resumed.
      ensures found ==> table == old(table)
      ensures !found && x.Has(t) ==> table == old(table) + [Entry(t, 0)]
      ensures !found && !x.Has(t) ==> Recorded(x, Now(), old(table), table, t)
    {
      hide Consistent, Grown, Evolved, Stuck, Listed;
      ghost var a := Now();
      assert !found ==> |table| < THREAD_TABLE_SZ by {
        if !found {
          RoomFor(x, c0, a, table, t);
        }
      }
      var already := 0;
      if !x.Has(t) {
        var ok, count := ThreadInfo(t);
        AfterCall(x, c0, a, Now(), table);
        if !ok {
          GoneStuck(x, Now(), t);
          if !found {
            ListNew(x, c0, Now(), table, Entry(t, 1));
            table := table + [Entry(t, 1)];
          }
          return;
        }
        if !found {
          already := count;
        }
        if count != 0 {
          ghost var b := Now();
          skipped := skipped + {t};      // a new entry is given up again
          NowSkipped(x, c0, a, b, Now(), table, t);
          return;
        }
        ghost var b := Now();
        NotStuck(x, a, b, t);
        SuspendRunning(t, c0);      // found does not hold
        GrownTrans(x, a, b, Now());
        return;
      }
      GrownSelf(x, a);
      ExemptStuck(x, a, t);
      if !found {
        ListNew(x, c0, a, table, Entry(t, already));
        table := table + [Entry(t, already)];
      }
    }

    /** The rest of it, for a thread that has been found running. It is new and not recorded yet. */
    method SuspendRunning(t: nat, ghost c0: Counts)
      requires Stopping(c0) && !x.Has(t) && t in used && !Listed(table, t) && |table| < THREAD_TABLE_SZ
      modifies this
      ensures Stopping(c0) && Grown(x, old(Now()), Now()) && Stuck(x, Now(), t)
      ensures forall s | Listed(table, s) :: Listed(old(table), s) || s == t
      ensures Recorded(x, Now(), old(table), table, t)
    {
      hide Consistent, Grown, Evolved, Stuck, Listed;
      ghost var a := Now();
      var ok;
      ghost var b;
      ok, b := ThreadSuspend(t);
      AfterCall(x, c0, a, b, table);
      if !ok {
        GoneStuck(x, b, t);
        ListNew(x, c0, Now(), table, Entry(t, 1));
        table := table + [Entry(t, 1)];
        return;
      }
      SuspendedNew(x, c0, b, table, t);
      GrownTrans(x, a, b, Now());
      table := table + [Entry(t, 0)];
    }

    /** GC_suspend_thread_list. */
    method SuspendThreadList(list: seq<nat>, prev: seq<nat>, ghost c0: Counts) returns (changed: bool)
      requires Stopping(c0) && NoDup(list) && (forall t :: t in live <==> t in list)
      requires forall t | t in list :: t in used && (Listed(table, t) ==> t in prev)
      requires forall t | t in prev :: t in used && Stuck(x, Now(), t)
      modifies this
      ensures Stopping(c0) && Grown(x, old(Now()), Now())
      ensures changed <==> exists t :: t in list && t !in prev
      ensures forall t | t in list :: t in used && Stuck(x, Now(), t)
      ensures forall t | Listed(table, t) :: Listed(old(table), t) || t in list
    {
      hide Consistent, Grown, Evolved, NoDup, Listed, Stuck, Stopping;
      GrownSelf(x, Now());
      changed := false;
      var i := 0;
      while i < |list|
        invariant i <= |list| && Stopping(c0) && Grown(x, old(Now()), Now())
        invariant forall t | t in list || t in prev :: t in used
        invariant changed <==> exists k :: 0 <= k < i && list[k] !in prev
        invariant forall k | 0 <= k < i :: Stuck(x, Now(), list[k])
        invariant forall t | t in prev :: Stuck(x, Now(), t)
        invariant forall t | Listed(table, t) :: Listed(old(table), t) || t in list[..i]
      {
        ghost var a := Now();
        var thread := list[i];
        NotEarlier(list, i);
        var found := Find(prev, thread);
        if !found {
          changed := true;
        }
        SuspendOne(thread, found, c0);
        StuckStill(x, a, Now());
        GrownTrans(x, old(Now()), a, Now());
        i := i + 1;
      }
      assert list[..i] == list;
    }

    /** The search in the old list. */
    method Find(list: seq<nat>, t: nat) returns (found: bool)
      ensures found <==> t in list
    {
      var j := 0;
      while j < |list|
        invariant j <= |list| && t !in list[..j]
      {
        if list[j] == t {
          return true;
        }
        j := j + 1;
      }
      found := false;
    }

    /** GC_stop_world: afterwards no thread but the caller and the handler runs, and every suspension the
        collector has made is recorded. */
    method StopWorld()
      requires Valid() && live == due
      modifies this
      ensures Stopping(old(live)) && Quiet(x, live)
      // That is: everyone but the caller and the handler; those two have not been touched.
      ensures forall t | t in live && t != x.me && !(x.useHandler && t == x.handler) :: 0 < live[t]
      ensures x.me in live && live[x.me] == due[x.me]
      ensures x.useHandler && x.handler in live ==> live[x.handler] == due[x.handler]
    {
      hide Consistent, Grown, Evolved, Quiet, Stuck;
      ghost var c0 := live;
      table, skipped := [], {};
      NothingListed(x, Now());
      var prev: seq<nat> := [];
      var changes := true;
      ghost var seen := |script| + 1;      // moves to come when prev was taken
      while changes
        invariant Stopping(c0) && |script| <= seen && (|script| == seen ==> forall t | t in live :: t in prev)
        invariant forall t | t in prev :: t in used && Stuck(x, Now(), t)
        invariant forall t | t in live && Listed(table, t) :: t in prev
        invariant !changes ==> Quiet(x, live)
        decreases seen, changes
      {
        ghost var a := Now();
        ListedUsed(x, c0, a, table);
        var list := TaskThreads();
        AfterCall(x, c0, a, Now(), table);
        StuckStill(x, a, Now());
        ghost var b := Now();
        ListedUsed(x, c0, b, table);
        changes := SuspendThreadList(list, prev, c0);
        StuckStill(x, b, Now());
        if !changes {
          NowQuiet(x, b, Now(), prev);
        }
        seen := b.moves;
        prev := list;
      }
      Spared(x, c0, Now(), table);
    }

    /** GC_start_world: every surviving thread gets back the suspend count that it would have had without the collector,
        which is the one from before if the others leave each other alone. The result stands for the aborts on failing
        kernel calls, which do not happen. */
    method StartWorld(ghost c0: Counts) returns (aborted: bool)
      requires Stopping(c0) && Quiet(x, live)
      modifies this`live, this`due, this`used, this`script, this`skipped
      ensures Valid() && !aborted && live == due && (x.calm ==> forall t | t in live :: live[t] == Was(c0, t))
    {
      hide Consistent, Evolved, Sound, Resuming;
      ghost var a := Now();
      skipped := {};
      WithoutSkipped(x, c0, a, Now(), table);
      ghost var b := Now();
      var list := TaskThreads();
      StartResuming(x, c0, b, Now(), table, list);
      var i := 0;
      while i < |list|
        invariant i <= |list| && Valid() && Resuming(x, c0, Now(), table, list, i)
      {
        aborted := ResumeThread(list[i], list, i, c0);
        i := i + 1;
      }
      AllResumed(x, c0, Now(), table, list);
      aborted := false;
    }

    /** The kernel calls that resume a thread, which is entry j of the table. */
    method ResumeEntry(thread: nat, ghost list: seq<nat>, ghost i: nat, ghost j: nat, ghost c0: Counts)
      returns (aborted: bool)
      requires Valid() && Resuming(x, c0, Now(), table, list, i) && i < |list| && list[i] == thread && !x.Has(thread)
      requires j < |table| && table[j].thread == thread && table[j].alreadySuspended == 0
      modifies this`live, this`due, this`used, this`script
      ensures Valid() && !aborted && Resuming(x, c0, Now(), table, list, i + 1)
    {
      hide Resuming, Evolved;
      ghost var a := Now();
      var ok, count := ThreadInfo(thread);
      ResumeWaits(x, c0, a, Now(), table, list, i);
      ResumeSound(x, c0, Now(), table, list, i, j);
      if !ok {
        return true;
      }
      ghost var b, b2 := Now(), Now();
      ok, b2 := ThreadResume(thread);
      ResumeWaits(x, c0, b, b2, table, list, i);
      ResumeSound(x, c0, b2, table, list, i, j);
      if !ok {
        return true;
      }
      Resumed(x, c0, b2, table, list, i, j);
      aborted := false;
    }

    /** One thread of the list: resume it if the table says that the collector has suspended it. */
    method ResumeThread(thread: nat, ghost list: seq<nat>, ghost i: nat, ghost c0: Counts) returns (aborted: bool)
      requires Valid() && Resuming(x, c0, Now(), table, list, i) && i < |list| && list[i] == thread
      modifies this`live, this`due, this`used, this`script
      ensures Valid() && !aborted && Resuming(x, c0, Now(), table, list, i + 1)
    {
      hide Resuming, Evolved;
      if x.Has(thread) {
        SkipResume(x, c0, Now(), table, list, i);
        return false;
      }
      var j := 0;
      ghost var done := false;
      while j < |table|
        invariant j <= |table| && Valid() && (done ==> exists k :: 0 <= k < j && table[k].thread == thread)
        invariant Resuming(x, c0, Now(), table, list, if done then i + 1 else i)
        invariant !done ==> forall k | 0 <= k < j :: table[k].thread != thread
      {
        if thread == table[j].thread {
          OneEntry(x, c0, Now(), table, list, if done then i + 1 else i);
          if table[j].alreadySuspended == 0 {
            aborted := ResumeEntry(thread, list, i, j, c0);
            if aborted {
              return;
            }
            done := true;
          } else {
            ResumeSound(x, c0, Now(), table, list, i, j);
          }
        }
        j := j + 1;
      }
      if !done {
        SkipResume(x, c0, Now(), table, list, i);
      }
      aborted := false;
    }
  }

  predicate IsCalm(script: seq<Move>) {
    forall m | m in script :: !m.Suspend? && !m.Resume?
  }

  /** Letting some time pass. */
  lemma Waits(x: Setting, a: Moment, b: Moment)
    requires a.Ok() && b == a.(moves := b.moves) && b.moves <= a.moves
    ensures Evolved(x, a, b)
  {
  }

  lemma Spawned(x: Setting, a: Moment, b: Moment, parent: nat, t: nat)
    requires a.Ok() && parent in a.live && a.live[parent] == 0 && !x.Has(parent) && t !in a.used && b.moves < a.moves
    requires b == a.(live := a.live[t := 0], due := a.due[t := 0], used := a.used + {t}, moves := b.moves)
    ensures Evolved(x, a, b)
  {
  }

  lemma Left(x: Setting, a: Moment, b: Moment, t: nat)
    requires a.Ok() && t in a.live && a.live[t] == 0 && t != x.me && b.moves < a.moves
    requires b == a.(live := a.live - {t}, due := a.due - {t}, moves := b.moves)
    ensures Evolved(x, a, b)
  {
  }

  lemma Suspended(x: Setting, a: Moment, b: Moment, who: nat, t: nat)
    requires a.Ok() && who in a.live && a.live[who] == 0 && !x.Has(who) && t in a.live && b.moves < a.moves && !x.calm
    requires b == a.(live := a.live[t := a.live[t] + 1], due := a.due[t := a.due[t] + 1], moves := b.moves)
    ensures Evolved(x, a, b)
  {
  }

  lemma Released(x: Setting, a: Moment, b: Moment, who: nat, t: nat)
    requires a.Ok() && who in a.live && a.live[who] == 0 && !x.Has(who) && t in a.live && b.moves < a.moves && !x.calm
    requires 0 < a.due[t] && 0 < a.live[t] && (t in a.skipped ==> 1 < a.live[t])
    requires b == a.(live := a.live[t := a.live[t] - 1], due := a.due[t := a.due[t] - 1], moves := b.moves)
    ensures Evolved(x, a, b)
  {
  }

  /** The suspend count a thread had before the world was stopped; threads created since had 0. */
  function Was(c0: Counts, t: nat): nat {
    if t in c0 then c0[t] else 0
  }

  /** What becomes of a new thread: it has quit, and is not to be resumed; it was suspended before, and is not
      recorded; or the collector has suspended it. */
  ghost predicate Recorded(x: Setting, a: Moment, table: seq<Entry>, table': seq<Entry>, t: nat) {
    || (t !in a.live && table' == table + [Entry(t, 1)])
    || (t in a.live && t in a.skipped && 0 < a.live[t] && table' == table)
    || (t in a.live && t in a.due && a.live[t] == a.due[t] + 1 && table' == table + [Entry(t, 0)])
  }

  ghost predicate Listed(table: seq<Entry>, t: nat) {
    exists j :: 0 <= j < |table| && table[j].thread == t
  }

  /** Thread t has the count that the program has given it, or 1 more and an entry that says so. */
  ghost predicate Sound(x: Setting, a: Moment, table: seq<Entry>, t: nat)
    requires a.Ok() && t in a.live
  {
    if !x.Has(t) && Listed(table, t) then
      a.live[t] == a.due[t] + 1 && forall j | 0 <= j < |table| && table[j].thread == t :: table[j].alreadySuspended == 0
    else a.live[t] == a.due[t]
  }

  /** Without foreign suspensions the program's counts are the ones from before. */
  ghost predicate Undisturbed(x: Setting, c0: Counts, a: Moment) {
    c0.Keys <= a.used && (x.calm ==> forall t | t in a.due :: a.due[t] == Was(c0, t))
  }

  ghost predicate Entries(a: Moment, table: seq<Entry>) {
    && (forall i, j | 0 <= i < j < |table| :: table[i].thread != table[j].thread)
    && (forall j | 0 <= j < |table| :: table[j].thread in a.used)
  }

  ghost predicate Consistent(x: Setting, c0: Counts, a: Moment, table: seq<Entry>) {
    a.Ok() && Undisturbed(x, c0, a) && Entries(a, table) && forall t | t in a.live :: Sound(x, a, table, t)
  }

  /** What a stretch of stopping does to the threads. */
  ghost predicate Grown(x: Setting, a: Moment, b: Moment) {
    && a.used <= b.used && b.moves <= a.moves
    && (forall t | t in b.live && t in a.used :: t in a.live)
    && (forall t | t in a.used && Stuck(x, a, t) :: Stuck(x, b, t))
    && (Quiet(x, a.live) ==> b.live.Keys <= a.live.Keys && Quiet(x, b.live))
    && (b.moves == a.moves ==> b.live.Keys <= a.live.Keys)
  }

  lemma GrownSelf(x: Setting, a: Moment)
    ensures Grown(x, a, a)
  {
  }

  lemma GrownTrans(x: Setting, a: Moment, b: Moment, c: Moment)
    requires Grown(x, a, b) && Grown(x, b, c)
    ensures Grown(x, a, c)
  {
  }

  /** While the collector waits, nothing recorded becomes wrong, and threads that are stuck stay so. */
  lemma AfterCall(x: Setting, c0: Counts, a: Moment, b: Moment, table: seq<Entry>)
    requires Consistent(x, c0, a, table) && Evolved(x, a, b)
    ensures Consistent(x, c0, b, table) && Grown(x, a, b)
  {
    forall t | t in b.live ensures Sound(x, b, table, t) {
      assert t in a.live ==> Sound(x, a, table, t);
    }
  }

  /** Suspending a thread that runs although it has been found before, and so is not recorded now, would lose it: it has
      one suspension too many, and no entry that makes GC_start_world take it back. */
  lemma FoundRunningIsLost(x: Setting, c0: Counts, a: Moment, table: seq<Entry>, t: nat)
    requires Consistent(x, c0, a, table) && t in a.live && !x.Has(t) && a.live[t] == 0
    ensures !Listed(table, t) && !Consistent(x, c0, a.(live := a.live[t := 1]), table)
  {
    var b := a.(live := a.live[t := 1]);
    assert Sound(x, a, table, t);
    assert b.Ok() ==> !Sound(x, b, table, t);
  }

  /** A stuck thread cannot have been found running. */
  lemma NotStuck(x: Setting, a: Moment, b: Moment, t: nat)
    requires Grown(x, a, b) && t in a.used && t in b.live && b.live[t] == 0 && !x.Has(t)
    ensures !Stuck(x, a, t)
  {
  }

  lemma ExemptStuck(x: Setting, a: Moment, t: nat)
    requires x.Has(t)
    ensures Stuck(x, a, t)
  {
  }

  lemma GoneStuck(x: Setting, a: Moment, t: nat)
    requires t !in a.live
    ensures Stuck(x, a, t)
  {
  }

  lemma NowSkipped(x: Setting, c0: Counts, a: Moment, b: Moment, b': Moment, table: seq<Entry>, t: nat)
    requires Consistent(x, c0, b, table) && Grown(x, a, b) && b' == b.(skipped := b.skipped + {t}) && t in b.live
    requires 0 < b.live[t]
    ensures Consistent(x, c0, b', table) && Grown(x, a, b') && Stuck(x, b', t)
  {
    forall s | s in b'.live ensures Sound(x, b', table, s) {
      assert Sound(x, b, table, s);
    }
  }

  lemma ListNew(x: Setting, c0: Counts, a: Moment, table: seq<Entry>, e: Entry)
    requires Consistent(x, c0, a, table) && e.thread in a.used && !Listed(table, e.thread)
    requires e.thread !in a.live || x.Has(e.thread)
    ensures Consistent(x, c0, a, table + [e]) && Listing(table, e)
  {
    ListingIs(table, e);
    forall t | t in a.live ensures Sound(x, a, table + [e], t) {
      assert Sound(x, a, table, t);
    }
  }

  ghost predicate Listing(table: seq<Entry>, e: Entry) {
    forall s :: Listed(table + [e], s) <==> Listed(table, s) || s == e.thread
  }

  lemma ListingIs(table: seq<Entry>, e: Entry)
    ensures Listing(table, e)
  {
    var w := table + [e];
    forall s ensures Listed(w, s) <==> Listed(table, s) || s == e.thread {
      if j :| 0 <= j < |table| && table[j].thread == s {
        assert w[j].thread == s;
      }
      assert w[|table|].thread == e.thread;
      if j :| 0 <= j < |w| && w[j].thread == s {
        assert j < |table| ==> table[j].thread == s;
      }
    }
  }

  lemma SuspendedNew(x: Setting, c0: Counts, b: Moment, table: seq<Entry>, t: nat)
    requires Consistent(x, c0, b, table) && t in b.live && !x.Has(t) && !Listed(table, t)
    ensures t in b.due && b.live[t] == b.due[t]
    ensures var b' := b.(live := b.live[t := b.live[t] + 1]);
      Consistent(x, c0, b', table + [Entry(t, 0)]) && Listing(table, Entry(t, 0)) && Grown(x, b, b') && Stuck(x, b', t)
  {
    ListingIs(table, Entry(t, 0));
    assert Sound(x, b, table, t);
    var b', w := b.(live := b.live[t := b.live[t] + 1]), table + [Entry(t, 0)];
    assert forall j | 0 <= j < |table| :: table[j].thread != t;
    forall s | s in b'.live ensures Sound(x, b', w, s) {
      assert Sound(x, b, table, s);
    }
  }

  ghost function Threads(table: seq<Entry>): set<nat> {
    set j | 0 <= j < |table| :: table[j].thread
  }

  lemma {:induction false} DistinctCount(table: seq<Entry>)
    requires forall i, j | 0 <= i < j < |table| :: table[i].thread != table[j].thread
    ensures |Threads(table)| == |table|
    decreases |table|
  {
    if table != [] {
      var n := |table| - 1;
      DistinctCount(table[..n]);
      assert Threads(table) == Threads(table[..n]) + {table[n].thread};
    }
  }

  lemma SmallerSet(s: set<nat>, t: set<nat>)
    requires s <= t
    ensures |s| <= |t|
  {
    assert t == s + (t - s);
  }

  lemma NotEarlier(list: seq<nat>, i: nat)
    requires NoDup(list) && i < |list|
    ensures list[i] !in list[..i] && list[..i + 1] == list[..i] + [list[i]]
  {
  }

  /** The table has room as long as there are no more threads than it has entries. */
  lemma RoomFor(x: Setting, c0: Counts, a: Moment, table: seq<Entry>, t: nat)
    requires Consistent(x, c0, a, table) && t in a.used && !Listed(table, t)
    ensures |table| < |a.used|
  {
    DistinctCount(table);
    SmallerSet(Threads(table) + {t}, a.used);
  }

  lemma NothingListed(x: Setting, a: Moment)
    requires a.Ok() && a.live == a.due
    ensures Consistent(x, a.live, a, []) && forall t :: !Listed([], t)
  {
  }

  lemma ListedUsed(x: Setting, c0: Counts, a: Moment, table: seq<Entry>)
    requires Consistent(x, c0, a, table)
    ensures a.live.Keys <= a.used && forall t | Listed(table, t) :: t in a.used
  {
  }

  lemma StuckStill(x: Setting, a: Moment, b: Moment)
    requires Grown(x, a, b)
    ensures a.used <= b.used && b.moves <= a.moves && (b.moves == a.moves ==> b.live.Keys <= a.live.Keys)
    ensures forall t | t in b.live && t in a.used :: t in a.live
    ensures forall t | t in a.used && Stuck(x, a, t) :: Stuck(x, b, t)
  {
  }

  /** If all threads there were had been seen before, none runs that could do anything to others. */
  lemma NowQuiet(x: Setting, a: Moment, b: Moment, prev: seq<nat>)
    requires Grown(x, a, b) && forall t | t in a.live :: t in prev && Stuck(x, a, t)
    ensures Quiet(x, b.live)
  {
  }

  lemma Spared(x: Setting, c0: Counts, a: Moment, table: seq<Entry>)
    requires Consistent(x, c0, a, table) && Quiet(x, a.live)
    ensures forall t | t in a.live && t != x.me && !(x.useHandler && t == x.handler) :: 0 < a.live[t]
    ensures forall t | t in a.live && (t == x.me || (x.useHandler && t == x.handler)) ::
      t in a.due && a.live[t] == a.due[t]
  {
    forall t | t in a.live && (t == x.me || (x.useHandler && t == x.handler))
      ensures t in a.due && a.live[t] == a.due[t]
    {
      assert Sound(x, a, table, t);
    }
  }

  // ----- Resuming -----

  /** The threads of the list from place i on are as the stop has left them; the others are as the program has made
      them. */
  ghost predicate Resuming(x: Setting, c0: Counts, a: Moment, table: seq<Entry>, list: seq<nat>, i: nat) {
    && NoDup(list) && i <= |list| && a.Ok() && a.skipped == {} && Undisturbed(x, c0, a) && Entries(a, table)
    && (forall k | 0 <= k < |list| :: list[k] in a.used)
    && (forall k | i <= k < |list| :: (!x.Has(list[k]) && Listed(table, list[k]) ==> list[k] in a.live)
                                      && (list[k] in a.live ==> Sound(x, a, table, list[k])))
    && (forall t | t in a.live && t !in list[i..] :: a.live[t] == a.due[t])
  }

  /** Suspended threads can be resumed by others again. */
  lemma WithoutSkipped(x: Setting, c0: Counts, a: Moment, b: Moment, table: seq<Entry>)
    requires Consistent(x, c0, a, table) && b == a.(skipped := {})
    ensures Consistent(x, c0, b, table)
  {
    forall t | t in b.live ensures Sound(x, b, table, t) {
      assert Sound(x, a, table, t);
    }
  }

  lemma StartResuming(x: Setting, c0: Counts, a: Moment, b: Moment, table: seq<Entry>, list: seq<nat>)
    requires Consistent(x, c0, a, table) && Evolved(x, a, b) && a.skipped == {}
    requires NoDup(list) && forall t :: t in list <==> t in b.live
    ensures Resuming(x, c0, b, table, list, 0)
  {
    AfterCall(x, c0, a, b, table);
  }

  lemma OneEntry(x: Setting, c0: Counts, a: Moment, table: seq<Entry>, list: seq<nat>, i: nat)
    requires Resuming(x, c0, a, table, list, i)
    ensures forall p, q | 0 <= p < q < |table| :: table[p].thread != table[q].thread
  {
  }

  lemma AllResumed(x: Setting, c0: Counts, a: Moment, table: seq<Entry>, list: seq<nat>)
    requires Resuming(x, c0, a, table, list, |list|)
    ensures a.live == a.due && (x.calm ==> forall t | t in a.live :: a.live[t] == Was(c0, t))
  {
  }

  /** A thread of the list that the collector has not suspended is as it should be. */
  lemma SkipResume(x: Setting, c0: Counts, a: Moment, table: seq<Entry>, list: seq<nat>, i: nat)
    requires Resuming(x, c0, a, table, list, i) && i < |list| && (x.Has(list[i]) || !Listed(table, list[i]))
    ensures Resuming(x, c0, a, table, list, i + 1)
  {
  }

  lemma ResumeSound(x: Setting, c0: Counts, a: Moment, table: seq<Entry>, list: seq<nat>, i: nat, j: nat)
    requires Resuming(x, c0, a, table, list, i) && i < |list| && !x.Has(list[i]) && j < |table|
    requires table[j].thread == list[i]
    ensures list[i] in a.live && 0 < a.live[list[i]] && table[j].alreadySuspended == 0
  {
    assert Listed(table, list[i]);
  }

  /** While the collector waits, the threads it has suspended stay. */
  lemma ResumeWaits(x: Setting, c0: Counts, a: Moment, b: Moment, table: seq<Entry>, list: seq<nat>, i: nat)
    requires Resuming(x, c0, a, table, list, i) && Evolved(x, a, b)
    ensures Resuming(x, c0, b, table, list, i)
  {
  }

  lemma Resumed(x: Setting, c0: Counts, a: Moment, table: seq<Entry>, list: seq<nat>, i: nat, j: nat)
    requires Resuming(x, c0, a, table, list, i) && i < |list| && !x.Has(list[i]) && list[i] in a.live
    requires 0 < a.live[list[i]]
    requires j < |table| && table[j].thread == list[i] && table[j].alreadySuspended == 0
    ensures Resuming(x, c0, a.(live := a.live[list[i] := a.live[list[i]] - 1]), table, list, i + 1)
  {
    assert Listed(table, list[i]);
  }
}
