/** Foreign calls that must run in the original place: the shared queue, the places that call, withdraw and
    call again, and the original place that takes, runs and finishes. Each step is a critical section, or
    what one thread does between two of them. */
module OrigPlaceQueue {
  import opened Collections

  // ----- The doubly linked queue -----

  /** orig_place_calls and orig_place_calls_tail, with the links of the requests; 0 is the null pointer. */
  datatype Queue = Queue(head: nat, tail: nat, next: map<nat, nat>, prev: map<nat, nat>)

  /** The queue holds the requests s, front to back. */
  ghost predicate Linked(q: Queue, s: seq<nat>) {
    && NoDup(s) && 0 !in s && q.head == At(s, 0) && q.tail == At(s, |s| - 1)
    && (forall i | 0 <= i < |s| :: s[i] in q.next && s[i] in q.prev)
    && (forall i {:trigger q.next[s[i]]} | 0 <= i < |s| :: q.next[s[i]] == At(s, i + 1))
    && (forall i {:trigger q.prev[s[i]]} | 0 <= i < |s| :: q.prev[s[i]] == At(s, i - 1))
  }

  /** ffi_call_in_orig_place puts a request at the front. */
  function PushFront(q: Queue, n: nat): Queue {
    var next, prev := q.next[n := q.head], q.prev[n := 0];
    if q.head != 0 then Queue(n, q.tail, next, prev[q.head := n]) else Queue(n, n, next, prev)
  }

  /** check_foreign_work takes the request at the back. */
  function PopTail(q: Queue): Queue
    requires q.tail in q.prev
  {
    var p := q.prev[q.tail];
    if p != 0 then Queue(q.head, p, q.next[p := 0], q.prev) else Queue(0, p, q.next, q.prev)
  }

  /** ffi_call_in_orig_place takes its request back, from wherever it is by now. */
  function Withdraw(q: Queue, n: nat): Queue
    requires n in q.next && n in q.prev
  {
    var (x, p) := (q.next[n], q.prev[n]);
    var next := if p != 0 then q.next[p := x] else q.next;
    var prev := if x != 0 then q.prev[x := p] else q.prev;
    Queue(if p != 0 then q.head else x, if x != 0 then q.tail else p, next, prev)
  }

  predicate LinkedAt(q: Queue, s: seq<nat>, i: nat)
    requires i < |s|
  {
    s[i] in q.next && s[i] in q.prev && q.next[s[i]] == At(s, i + 1) && q.prev[s[i]] == At(s, i - 1)
  }

  lemma Assemble(q: Queue, s: seq<nat>)
    requires NoDup(s) && 0 !in s && q.head == At(s, 0) && q.tail == At(s, |s| - 1)
    requires forall i | 0 <= i < |s| :: LinkedAt(q, s, i)
    ensures Linked(q, s)
  {
    hide At;
    forall i | 0 <= i < |s|
      ensures s[i] in q.next && s[i] in q.prev && q.next[s[i]] == At(s, i + 1) && q.prev[s[i]] == At(s, i - 1)
    {
      assert LinkedAt(q, s, i);
    }
  }

  lemma PushLinked(q: Queue, s: seq<nat>, n: nat)
    requires Linked(q, s) && n != 0 && n !in s
    ensures Linked(PushFront(q, n), [n] + s)
  {
  }

  lemma PopLinked(q: Queue, s: seq<nat>)
    requires Linked(q, s) && s != []
    ensures q.tail == s[|s| - 1] && q.tail in q.prev && q.tail != 0 && Linked(PopTail(q), s[..|s| - 1])
  {
  }

  lemma WithoutAt(s: seq<nat>, k: nat)
    requires k < |s| && NoDup(s) && 0 !in s
    ensures var w := Without(s, k);
      && NoDup(w) && 0 !in w && |w| == |s| - 1 && s[k] !in w
      && (forall i | 0 <= i < |w| :: w[i] == if i < k then s[i] else s[i + 1])
      && (forall x :: x in w <==> x in s && x != s[k])
  {
  }

  lemma WithdrawLinked(q: Queue, s: seq<nat>, k: nat)
    requires Linked(q, s) && k < |s|
    ensures s[k] in q.next && s[k] in q.prev && Linked(Withdraw(q, s[k]), Without(s, k))
  {
    WithdrawEnds(q, s, k);
    hide Linked, Without, Withdraw, At;
    WithoutIs(q, s, k);
    var w, d := Without(s, k), Withdraw(q, s[k]);
    forall i | 0 <= i < |w| ensures LinkedAt(d, w, i) {
      WithdrawnAt(q, s, k, i);
    }
    Assemble(d, w);
  }

  lemma WithoutIs(q: Queue, s: seq<nat>, k: nat)
    requires Linked(q, s) && k < |s|
    ensures NoDup(Without(s, k)) && 0 !in Without(s, k) && |Without(s, k)| == |s| - 1
  {
  }

  lemma WithdrawEnds(q: Queue, s: seq<nat>, k: nat)
    requires Linked(q, s) && k < |s|
    ensures s[k] in q.next && s[k] in q.prev
    ensures var w, d := Without(s, k), Withdraw(q, s[k]); d.head == At(w, 0) && d.tail == At(w, |w| - 1)
  {
  }

  lemma Around(q: Queue, s: seq<nat>, k: nat, j: nat)
    requires Linked(q, s) && k < |s| && j < |s| && j != k
    ensures s[j] in q.next && s[j] in q.prev && s[j] != 0 && s[k] != 0
    ensures q.next[s[j]] == At(s, j + 1) && q.prev[s[j]] == At(s, j - 1)
    ensures s[k] in q.next && s[k] in q.prev && q.next[s[k]] == At(s, k + 1) && q.prev[s[k]] == At(s, k - 1)
    ensures (s[j] == At(s, k - 1) <==> j == k - 1) && (s[j] == At(s, k + 1) <==> j == k + 1)
  {
  }

  lemma WithdrawnAt(q: Queue, s: seq<nat>, k: nat, i: nat)
    requires Linked(q, s) && k < |s| && i < |s| - 1 && s[k] in q.next && s[k] in q.prev
    ensures var w, d := Without(s, k), Withdraw(q, s[k]);
      i < |w| && LinkedAt(d, w, i)
  {
    hide Linked;
    Around(q, s, k, if i < k then i else i + 1);
  }

  // ----- The protocol -----

  /** Where a call of ffi_call_in_orig_place is: about to write its arguments, to queue (or requeue) the
      request, to look whether it is done, to give the request up; or back at its caller. */
  datatype Pc = Filling | Queueing | Checking | Releasing | Returned

  /** FFI_Orig_Place_Call: the call whose arguments it holds; done when signal_handle is null. */
  datatype Request = Request(needsQueue: bool, done: bool, call: nat)

  datatype Caller = Caller(place: nat, req: nat, pc: Pc)

  /** A request that the original place has taken, before or after the function has been called. */
  datatype Serving = Serving(req: nat, ran: bool)

  datatype State = State(q: Queue, reqs: map<nat, Request>, calls: map<nat, Caller>,
                         cached: map<nat, nat>,        // cached_orig_place_todo, by place
                         serving: seq<Serving>,        // nested when a callback checks for foreign work
                         log: seq<nat>)                // the calls executed

  datatype Action = Begin(c: nat, place: nat, spare: nat) | Fill(c: nat) | Enqueue(c: nat) | Check(c: nat) | Release(c: nat)
                  | Take | Execute | Finish

  predicate IsAt(st: State, c: nat, pc: Pc) {
    c in st.calls && st.calls[c].pc == pc && st.calls[c].req in st.reqs
  }

  predicate Enabled(st: State, a: Action) {
    match a
    case Begin(c, place, spare) => c !in st.calls && spare != 0 && spare !in st.reqs &&
        (place in st.cached ==> st.cached[place] in st.reqs)
    case Fill(c) => IsAt(st, c, Filling)
    case Enqueue(c) => IsAt(st, c, Queueing)
    case Check(c) => IsAt(st, c, Checking) &&
      (st.reqs[st.calls[c].req].needsQueue ==> st.calls[c].req in st.q.next && st.calls[c].req in st.q.prev)
    case Release(c) => IsAt(st, c, Releasing)
    case Take => st.q.tail != 0 && st.q.tail in st.q.prev && st.q.tail in st.reqs &&
        (st.serving != [] ==> st.serving[|st.serving| - 1].ran)
    case Execute => st.serving != [] && !st.serving[|st.serving| - 1].ran && st.serving[|st.serving| - 1].req in st.reqs
    case Finish => st.serving != [] && st.serving[|st.serving| - 1].ran && st.serving[|st.serving| - 1].req in st.reqs
  }

  function Goto(st: State, c: nat, pc: Pc): State
    requires c in st.calls
  {
    st.(calls := st.calls[c := st.calls[c].(pc := pc)])
  }

  function Do(st: State, a: Action): State
    requires Enabled(st, a)
  {
    match a
    case Begin(c, place, spare) =>
      var r := if place in st.cached then st.cached[place] else spare;
      var call := if place in st.cached then st.reqs[r].call else 0;
      st.(cached := st.cached - {place}, reqs := st.reqs[r := Request(true, false, call)],
          calls := st.calls[c := Caller(place, r, Filling)])
    case Fill(c) =>
      var r := st.calls[c].req;
      Goto(st, c, Queueing).(reqs := st.reqs[r := st.reqs[r].(call := c)])
    case Enqueue(c) =>
      var r := st.calls[c].req;
      Goto(st, c, Checking).(q := if st.reqs[r].needsQueue then PushFront(st.q, r) else st.q)
    case Check(c) =>
      var r := st.calls[c].req;
      if st.reqs[r].done then Goto(st, c, Releasing)
      else Goto(st, c, Filling).(q := if st.reqs[r].needsQueue then Withdraw(st.q, r) else st.q)
    case Release(c) =>
      var r, place := st.calls[c].req, st.calls[c].place;
      if place !in st.cached then Goto(st, c, Returned).(cached := st.cached[place := r])
      else Goto(st, c, Returned).(reqs := st.reqs - {r})
    case Take =>
      var r := st.q.tail;
      st.(q := PopTail(st.q), reqs := st.reqs[r := st.reqs[r].(needsQueue := false)], serving := st.serving + [Serving(r, false)])
    case Execute =>
      var r := st.serving[|st.serving| - 1].req;
      st.(serving := st.serving[|st.serving| - 1 := Serving(r, true)], log := st.log + [st.reqs[r].call])
    case Finish =>
      var r := st.serving[|st.serving| - 1].req;
      st.(serving := st.serving[..|st.serving| - 1], reqs := st.reqs[r := st.reqs[r].(done := true)])
  }

  // ----- What every step keeps. s is what the queue holds. -----

  predicate Owns(st: State, c: nat, r: nat) {
    c in st.calls && st.calls[c].req == r && st.calls[c].pc != Returned
  }

  /** Where the request of call c is, and how often the call has been executed. */
  ghost predicate RequestOk(st: State, s: seq<nat>, c: nat, pc: Pc, r: nat) {
    && r != 0 && r in st.reqs && (forall p | p in st.cached :: st.cached[p] != r)
    && ((pc == Filling && st.reqs[r].needsQueue) || st.reqs[r].call == c)
    && if st.reqs[r].needsQueue then
         && !st.reqs[r].done && pc != Releasing && (r in s <==> pc == Checking)
         && Serving(r, false) !in st.serving && Serving(r, true) !in st.serving && c !in st.log
       else if !st.reqs[r].done then
         && r !in s && pc != Releasing
         && (Serving(r, false) in st.serving || Serving(r, true) in st.serving)
         && (Serving(r, true) in st.serving <==> c in st.log)
       else
         r !in s && Serving(r, false) !in st.serving && Serving(r, true) !in st.serving && c in st.log
  }

  ghost predicate CallOk(st: State, s: seq<nat>, c: nat)
    requires c in st.calls
  {
    && (st.calls[c].pc == Returned ==> c in st.log)
    && (st.calls[c].pc != Returned ==> RequestOk(st, s, c, st.calls[c].pc, st.calls[c].req))
    && (st.calls[c].pc == Releasing ==> st.calls[c].req in st.reqs && st.reqs[st.calls[c].req].done)
  }

  ghost predicate CallsOk(st: State, s: seq<nat>) {
    && (forall c | c in st.calls :: CallOk(st, s, c))
    && (forall c, d, r | Owns(st, c, r) && Owns(st, d, r) :: c == d)
  }

  ghost predicate QueueOk(st: State, s: seq<nat>) {
    Linked(st.q, s) && forall r | r in s :: r in st.reqs && st.reqs[r].needsQueue && Owns(st, st.reqs[r].call, r)
  }

  ghost predicate ServingOk(st: State) {
    && (forall e | e in st.serving :: e.req in st.reqs && !st.reqs[e.req].needsQueue && Owns(st, st.reqs[e.req].call, e.req))
    && (forall i, j | 0 <= i < j < |st.serving| :: st.serving[i].req != st.serving[j].req)
  }

  ghost predicate CacheOk(st: State) {
    && (forall p | p in st.cached :: st.cached[p] != 0 && st.cached[p] in st.reqs && forall c :: !Owns(st, c, st.cached[p]))
    && (forall p, p' | p in st.cached && p' in st.cached && p != p' :: st.cached[p] != st.cached[p'])
  }

  ghost predicate LogOk(st: State) {
    NoDup(st.log) && forall c | c in st.log :: c in st.calls
  }

  ghost predicate Inv(st: State, s: seq<nat>) {
    CallsOk(st, s) && QueueOk(st, s) && ServingOk(st) && CacheOk(st) && LogOk(st)
  }

  /** Only call c and its request r are touched. */
  ghost predicate Local(st: State, s: seq<nat>, st': State, s': seq<nat>, c: nat, r: nat) {
    && st'.calls.Keys == st.calls.Keys + {c} && (forall d | d in st.calls && d != c :: st'.calls[d] == st.calls[d])
    && (forall x | x != r :: (x in st.reqs <==> x in st'.reqs) && (x in st.reqs ==> st'.reqs[x] == st.reqs[x]))
    && (forall x | x != r :: x in s <==> x in s')
    && (forall x, b | x != r :: Serving(x, b) in st.serving <==> Serving(x, b) in st'.serving)
    && (forall d | d != c :: d in st.log <==> d in st'.log)
    && (forall p | p in st'.cached && st'.cached[p] != r :: p in st.cached && st.cached[p] == st'.cached[p])
  }

  /** The other calls do not notice. */
  lemma Others(st: State, s: seq<nat>, st': State, s': seq<nat>, c: nat, r: nat)
    requires CallsOk(st, s) && Local(st, s, st', s', c, r) && forall d | d in st.calls && d != c :: !Owns(st, d, r)
    requires c in st'.calls && st'.calls[c].req == r && CallOk(st', s', c)
    ensures CallsOk(st', s')
  {
    forall d | d in st'.calls ensures CallOk(st', s', d) {
      if d != c {
        assert d in st.calls && CallOk(st, s, d) && st'.calls[d] == st.calls[d];
        assert st.calls[d].pc != Returned ==> Owns(st, d, st.calls[d].req);
      }
    }
    forall d, e, x | Owns(st', d, x) && Owns(st', e, x) ensures d == e {
      assert d != c ==> Owns(st, d, x);
      assert e != c ==> Owns(st, e, x);
    }
  }

  lemma NotOthers(st: State, s: seq<nat>, c: nat)
    requires CallsOk(st, s) && c in st.calls && st.calls[c].pc != Returned
    ensures forall d | d in st.calls && d != c :: !Owns(st, d, st.calls[c].req)
    ensures CallOk(st, s, c)
  {
    assert Owns(st, c, st.calls[c].req);
  }

  /** The parts of the invariant that say who owns queued, served and cached requests survive a step that
      touches only call c and its request r, if they hold of r itself. */
  lemma OwnersKept(st: State, s: seq<nat>, st': State, s': seq<nat>, c: nat, r: nat)
    requires Inv(st, s) && Local(st, s, st', s', c, r) && forall d | d in st.calls && d != c :: !Owns(st, d, r)
    requires c in st'.calls && st'.calls[c].req == r && (c in st.calls ==> st.calls[c].req == r)
    requires r in s' ==> r in st'.reqs && st'.reqs[r].needsQueue && Owns(st', st'.reqs[r].call, r)
    requires forall b | Serving(r, b) in st'.serving ::
      r in st'.reqs && !st'.reqs[r].needsQueue && Owns(st', st'.reqs[r].call, r)
    ensures forall x | x in s' :: x in st'.reqs && st'.reqs[x].needsQueue && Owns(st', st'.reqs[x].call, x)
    ensures forall e | e in st'.serving ::
      e.req in st'.reqs && !st'.reqs[e.req].needsQueue && Owns(st', st'.reqs[e.req].call, e.req)
    ensures forall p | p in st'.cached && st'.cached[p] != r ::
      st'.cached[p] != 0 && st'.cached[p] in st'.reqs && forall d :: !Owns(st', d, st'.cached[p])
  {
    hide Linked;
    forall x | x in s' && x != r ensures x in st'.reqs && st'.reqs[x].needsQueue && Owns(st', st'.reqs[x].call, x) {
      assert Owns(st, st.reqs[x].call, x);
    }
    forall e | e in st'.serving && e.req != r
      ensures e.req in st'.reqs && !st'.reqs[e.req].needsQueue && Owns(st', st'.reqs[e.req].call, e.req)
    {
      assert e == Serving(e.req, e.ran);
      assert Owns(st, st.reqs[e.req].call, e.req);
    }
    forall p, d | p in st'.cached && st'.cached[p] != r ensures !Owns(st', d, st'.cached[p]) {
      assert !Owns(st, d, st.cached[p]);
    }
  }

  lemma BeginKeeps(st: State, s: seq<nat>, c: nat, place: nat, spare: nat)
    requires Inv(st, s) && Enabled(st, Begin(c, place, spare))
    ensures Inv(Do(st, Begin(c, place, spare)), s)
  {
    hide Linked, CallsOk, NoDup;
    var st' := Do(st, Begin(c, place, spare));
    var r := st'.calls[c].req;
    NotYetOwned(st, s, r);
    assert r !in s;
    Others(st, s, st', s, c, r);
    OwnersKept(st, s, st', s, c, r);
  }

  lemma NotYetOwned(st: State, s: seq<nat>, r: nat)
    requires CallsOk(st, s) && (r in st.reqs ==> exists p :: p in st.cached && st.cached[p] == r)
    ensures forall d | d in st.calls :: !Owns(st, d, r)
  {
    forall d | d in st.calls ensures !Owns(st, d, r) {
      assert CallOk(st, s, d);
    }
  }

  lemma FillKeeps(st: State, s: seq<nat>, c: nat)
    requires Inv(st, s) && Enabled(st, Fill(c))
    ensures Inv(Do(st, Fill(c)), s)
    ensures !st.reqs[st.calls[c].req].needsQueue ==> Do(st, Fill(c)).reqs == st.reqs
  {
    hide Linked, CallsOk, NoDup;
    var st', r := Do(st, Fill(c)), st.calls[c].req;
    NotOthers(st, s, c);
    Others(st, s, st', s, c, r);
    OwnersKept(st, s, st', s, c, r);
  }

  lemma EnqueueKeeps(st: State, s: seq<nat>, c: nat) returns (s': seq<nat>)
    requires Inv(st, s) && Enabled(st, Enqueue(c))
    ensures Inv(Do(st, Enqueue(c)), s')
  {
    hide PushFront, CallsOk, NoDup;
    var st', r := Do(st, Enqueue(c)), st.calls[c].req;
    NotOthers(st, s, c);
    s' := if st.reqs[r].needsQueue then [r] + s else s;
    if st.reqs[r].needsQueue {
      PushLinked(st.q, s, r);
    }
    hide Linked, CallsOk, NoDup;
    Others(st, s, st', s', c, r);
    OwnersKept(st, s, st', s', c, r);
  }

  lemma CheckKeeps(st: State, s: seq<nat>, c: nat) returns (s': seq<nat>)
    requires Inv(st, s) && Enabled(st, Check(c))
    ensures Inv(Do(st, Check(c)), s')
  {
    hide Withdraw, Linked, Local, CallsOk, NoDup;
    var st', r := Do(st, Check(c)), st.calls[c].req;
    NotOthers(st, s, c);
    s' := s;
    if st.reqs[r].needsQueue {
      s' := Withdrawn(st.q, s, r);
    }
    CheckLocal(st, s, s', c);
    Others(st, s, st', s', c, r);
    OwnersKept(st, s, st', s', c, r);
  }

  lemma CheckLocal(st: State, s: seq<nat>, s': seq<nat>, c: nat)
    requires Enabled(st, Check(c)) && forall x | x != st.calls[c].req :: x in s <==> x in s'
    ensures Local(st, s, Do(st, Check(c)), s', c, st.calls[c].req)
  {
  }

  lemma Withdrawn(q: Queue, s: seq<nat>, r: nat) returns (s': seq<nat>)
    requires Linked(q, s) && r in s
    ensures r in q.next && r in q.prev && Linked(Withdraw(q, r), s') && forall x :: x in s' <==> x in s && x != r
  {
    var k :| 0 <= k < |s| && s[k] == r;
    WithdrawLinked(q, s, k);
    WithoutAt(s, k);
    s' := Without(s, k);
  }

  lemma ReleaseKeeps(st: State, s: seq<nat>, c: nat)
    requires Inv(st, s) && Enabled(st, Release(c))
    ensures Inv(Do(st, Release(c)), s)
  {
    hide Linked, Local, CallsOk, NoDup;
    var st', r := Do(st, Release(c)), st.calls[c].req;
    NotOthers(st, s, c);
    assert r !in s;
    ReleaseLocal(st, s, c);
    Others(st, s, st', s, c, r);
    OwnersKept(st, s, st', s, c, r);
    Disowned(st, st', c, r);
  }

  lemma ReleaseLocal(st: State, s: seq<nat>, c: nat)
    requires Enabled(st, Release(c))
    ensures Local(st, s, Do(st, Release(c)), s, c, st.calls[c].req)
  {
  }

  lemma Disowned(st: State, st': State, c: nat, r: nat)
    requires c in st'.calls && st'.calls[c].pc == Returned && st'.calls.Keys == st.calls.Keys
    requires forall d | d in st.calls && d != c :: st'.calls[d] == st.calls[d] && !Owns(st, d, r)
    ensures forall d :: !Owns(st', d, r)
  {
  }

  lemma TakeKeeps(st: State, s: seq<nat>) returns (s': seq<nat>)
    requires Inv(st, s) && Enabled(st, Take)
    ensures Inv(Do(st, Take), s')
  {
    hide PopTail, Linked, CallsOk, NoDup;
    var st', r := Do(st, Take), st.q.tail;
    s' := Popped(st.q, s);
    var c := st.reqs[r].call;
    NotOthers(st, s, c);
    TakenServing(st.serving, r);
    Others(st, s, st', s', c, r);
    OwnersKept(st, s, st', s', c, r);
    forall i, j | 0 <= i < j < |st'.serving| ensures st'.serving[i].req != st'.serving[j].req {
      if j == |st.serving| {
        assert st.serving[i] in st.serving && st.serving[i] == Serving(st.serving[i].req, st.serving[i].ran);
      }
    }
  }

  lemma Popped(q: Queue, s: seq<nat>) returns (s': seq<nat>)
    requires Linked(q, s) && q.tail != 0
    ensures q.tail in q.prev && q.tail in s && Linked(PopTail(q), s') && forall x :: x in s' <==> x in s && x != q.tail
  {
    PopLinked(q, s);
    assert s[|s| - 1] in s;
    LastOnly(s);
    s' := s[..|s| - 1];
  }

  lemma LastOnly(s: seq<nat>)
    requires NoDup(s) && s != []
    ensures forall x :: x in s[..|s| - 1] <==> x in s && x != s[|s| - 1]
  {
  }

  lemma TakenServing(s: seq<Serving>, r: nat)
    ensures forall e :: e in s + [Serving(r, false)] <==> e in s || e == Serving(r, false)
  {
  }

  lemma ExecuteKeeps(st: State, s: seq<nat>)
    requires Inv(st, s) && Enabled(st, Execute)
    ensures Inv(Do(st, Execute), s)
  {
    hide Linked, CallsOk;
    var st', e := Do(st, Execute), st.serving[|st.serving| - 1];
    var r := e.req;
    var c := st.reqs[r].call;
    assert e in st.serving && e == Serving(r, false);
    NotOthers(st, s, c);
    RanServing(st.serving, r);
    assert c !in st.log;
    Others(st, s, st', s, c, r);
    OwnersKept(st, s, st', s, c, r);
  }

  lemma RanServing(s: seq<Serving>, r: nat)
    requires s != [] && s[|s| - 1] == Serving(r, false) && forall i, j | 0 <= i < j < |s| :: s[i].req != s[j].req
    ensures var s' := s[|s| - 1 := Serving(r, true)];
      && (forall e :: e in s' <==> (e in s && e.req != r) || e == Serving(r, true))
      && (forall i, j | 0 <= i < j < |s'| :: s'[i].req != s'[j].req)
    ensures Serving(r, true) !in s
  {
    var s' := s[|s| - 1 := Serving(r, true)];
    forall e | e in s && e.req != r ensures e in s' {
      var i :| 0 <= i < |s| && s[i] == e;
      assert s'[i] == e;
    }
    assert s'[|s| - 1] == Serving(r, true);
  }

  lemma FinishKeeps(st: State, s: seq<nat>)
    requires Inv(st, s) && Enabled(st, Finish)
    ensures Inv(Do(st, Finish), s)
  {
    hide Linked, CallsOk, NoDup;
    var st', e := Do(st, Finish), st.serving[|st.serving| - 1];
    var r := e.req;
    var c := st.reqs[r].call;
    assert e in st.serving && e == Serving(r, true);
    NotOthers(st, s, c);
    FinishedServing(st.serving, r);
    Others(st, s, st', s, c, r);
    OwnersKept(st, s, st', s, c, r);
  }

  lemma FinishedServing(s: seq<Serving>, r: nat)
    requires s != [] && s[|s| - 1] == Serving(r, true) && forall i, j | 0 <= i < j < |s| :: s[i].req != s[j].req
    ensures forall e :: e in s[..|s| - 1] <==> e in s && e.req != r
  {
  }

  lemma StepKeeps(st: State, s: seq<nat>, a: Action) returns (s': seq<nat>)
    requires Inv(st, s) && Enabled(st, a)
    ensures Inv(Do(st, a), s')
  {
    hide Inv;
    s' := s;
    match a
    case Begin(c, place, spare) => BeginKeeps(st, s, c, place, spare);
    case Fill(c) => FillKeeps(st, s, c);
    case Enqueue(c) => s' := EnqueueKeeps(st, s, c);
    case Check(c) => s' := CheckKeeps(st, s, c);
    case Release(c) => ReleaseKeeps(st, s, c);
    case Take => s' := TakeKeeps(st, s);
    case Execute => ExecuteKeeps(st, s);
    case Finish => FinishKeeps(st, s);
  }

  // ----- Whole runs -----

  predicate Initial(st: State) {
    st == State(Queue(0, 0, map[], map[]), map[], map[], map[], [], [])
  }

  ghost predicate Run(run: seq<State>) {
    && 0 < |run| && Initial(run[0])
    && forall k | 0 < k < |run| :: Next(run[k - 1], run[k])
  }

  ghost predicate Next(st: State, st': State) {
    exists a :: Takes(st, a, st')
  }

  predicate Takes(st: State, a: Action, st': State) {
    Enabled(st, a) && st' == Do(st, a)
  }

  lemma {:induction false} InvAlways(run: seq<State>) returns (s: seq<nat>)
    requires Run(run)
    ensures Inv(run[|run| - 1], s)
    decreases |run|
  {
    hide Inv;
    if |run| == 1 {
      s := [];
      InvAtFirst(run[0]);
    } else {
      var before := run[..|run| - 1];
      assert before[0] == run[0] && forall k | 0 <= k < |before| :: before[k] == run[k];
      s := InvAlways(before);
      assert Next(run[|run| - 2], run[|run| - 1]);
      var a :| Takes(run[|run| - 2], a, run[|run| - 1]);
      s := StepKeeps(run[|run| - 2], s, a);
    }
  }

  lemma InvAtFirst(st: State)
    requires Initial(st)
    ensures Inv(st, [])
  {
  }

  /** In every interleaving: no call is executed twice, one that has returned has been executed, and a queued
      request is allocated, waits for its caller and is not up for reuse. */
  lemma RunSafety(run: seq<State>) returns (s: seq<nat>)
    requires Run(run)
    ensures var st := run[|run| - 1];
      && Linked(st.q, s)
      && NoDup(st.log)
      && (forall c | c in st.calls && st.calls[c].pc == Returned :: c in st.log)
      && (forall r | r in s :: r in st.reqs && (forall p | p in st.cached :: st.cached[p] != r)
                               && Owns(st, st.reqs[r].call, r) && st.reqs[r].call !in st.log)
      && (forall e | e in st.serving :: e.req in st.reqs && Owns(st, st.reqs[e.req].call, e.req))
  {
    hide Linked;
    s := InvAlways(run);
    var st := run[|run| - 1];
    forall r | r in s ensures st.reqs[r].call !in st.log && forall p | p in st.cached :: st.cached[p] != r {
      assert Owns(st, st.reqs[r].call, r);
      assert CallOk(st, s, st.reqs[r].call);
    }
  }

  /** Every allocated request belongs to a call under way or is cached for the next one of its place. */
  ghost predicate NoLeak(st: State) {
    forall r | r in st.reqs :: IsCached(st, r) || IsOwned(st, r)
  }

  ghost predicate IsCached(st: State, r: nat) {
    exists p :: p in st.cached && st.cached[p] == r
  }

  ghost predicate IsOwned(st: State, r: nat) {
    exists c :: Owns(st, c, r)
  }

  lemma NoLeakStays(st: State, a: Action)
    requires NoLeak(st) && Enabled(st, a)
    ensures NoLeak(Do(st, a))
  {
    hide PushFront, PopTail, Withdraw;
    var st' := Do(st, a);
    forall r | r in st'.reqs ensures IsCached(st', r) || IsOwned(st', r) {
      if r in st.reqs && IsCached(st, r) {
        var p :| p in st.cached && st.cached[p] == r;
        if p in st'.cached {
          assert st'.cached[p] == r;
        } else {
          assert a.Begin? && Owns(st', a.c, r);
        }
      } else if r in st.reqs {
        var c :| Owns(st, c, r);
        if !Owns(st', c, r) {
          assert a.Release? && a.c == c && st'.cached[st.calls[c].place] == r;
        }
      } else {
        assert a.Begin? && Owns(st', a.c, r);
      }
    }
  }

  /** Nothing is leaked, in any interleaving. */
  lemma {:induction false} NothingLeaks(run: seq<State>)
    requires Run(run)
    ensures NoLeak(run[|run| - 1])
    decreases |run|
  {
    hide NoLeak, Do, Enabled;
    var n := |run| - 1;
    if n == 0 {
      NoneAtFirst(run[0]);
    } else {
      NothingLeaks(run[..n]);
      assert Next(run[n - 1], run[n]);
      var a :| Takes(run[n - 1], a, run[n]);
      NoLeakStays(run[n - 1], a);
    }
  }

  lemma NoneAtFirst(st: State)
    requires Initial(st)
    ensures NoLeak(st)
  {
  }

  /** A place that has made a call has a request for its next one. */
  lemma ReleaseCaches(st: State, c: nat)
    requires Enabled(st, Release(c))
    ensures st.calls[c].place in Do(st, Release(c)).cached
  {
  }

  /** The code never finds a request missing or a link broken: whatever a caller's program counter says it
      does next, and whatever the original place has at hand, the step is enabled. */
  lemma NeverStuck(run: seq<State>)
    requires Run(run)
    ensures CallersGoOn(run[|run| - 1]) && ServerGoesOn(run[|run| - 1])
  {
    hide Linked, CallersGoOn, ServerGoesOn, Inv;
    var s := InvAlways(run);
    EveryCallerGoesOn(run[|run| - 1], s);
    TheServerGoesOn(run[|run| - 1], s);
  }

  ghost predicate CallersGoOn(st: State) {
    forall c | c in st.calls :: CanGoOn(st, c)
  }

  predicate ServerGoesOn(st: State) {
    if st.serving != [] && !st.serving[|st.serving| - 1].ran then Enabled(st, Execute)
    else (st.serving != [] ==> Enabled(st, Finish)) && (st.q.tail != 0 ==> Enabled(st, Take))
  }

  lemma EveryCallerGoesOn(st: State, s: seq<nat>)
    requires Inv(st, s)
    ensures CallersGoOn(st)
  {
  }

  lemma TheServerGoesOn(st: State, s: seq<nat>)
    requires Inv(st, s)
    ensures ServerGoesOn(st)
  {
  }

  predicate CanGoOn(st: State, c: nat)
    requires c in st.calls
  {
    match st.calls[c].pc
    case Filling => Enabled(st, Fill(c))
    case Queueing => Enabled(st, Enqueue(c))
    case Checking => Enabled(st, Check(c))
    case Releasing => Enabled(st, Release(c))
    case Returned => true
  }
}
