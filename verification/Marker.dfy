/** The sequential marker: a state machine over a bounded mark stack that may
    overflow, drop entries, and recover by rescanning the heap. */
module Marker {
  import opened Collections
  import opened MarkModel
  import opened Units

  const PROC_BYTES: int := 100

  /** The number of marks, the height of the stack and the state of the marker at some time. */
  datatype Snapshot = Snapshot(marks: nat, height: nat, state: MarkState, tooSmall: bool)

  /** What a stretch of marking makes of them: every newly marked object has been pushed at most once, and the state has
      been lost only if those did not all fit; the stack is known to be too small then. */
  ghost predicate Earned(a: Snapshot, b: Snapshot, limit: nat) {
    && a.marks <= b.marks && b.height + a.marks <= a.height + b.marks
    && (|| (b.state == a.state && b.tooSmall == a.tooSmall)
        || (b.state == Invalid && b.tooSmall && limit + a.marks < a.height + b.marks))
  }

  /** What considering an entry with this descriptor costs. */
  function Cost(h: Heap, d: Descr): int {
    match d
    case Length(n) => if SPLIT_RANGE_WORDS * h.wordUnits <= n then SPLIT_RANGE_WORDS * h.wordUnits - 1 else n
    case Bitmap(_) => 32 * h.wordUnits
    case Proc(_) => PROC_BYTES
    case PerObject => 0
  }

  /** What is left of the entry on the stack: a long range but for its first 127 words. */
  function Remainder(h: Heap, e: Entry): seq<Entry> {
    match Simple(h, e)
    case Length(n) =>
      if n < 128 * h.wordUnits then [] else [Entry(e.start + 127 * h.wordUnits, Length(n - 127 * h.wordUnits))]
    case _ => []
  }

  lemma EarnedSelf(a: Snapshot, limit: nat)
    ensures Earned(a, a, limit)
  {
  }

  lemma EarnedTrans(a: Snapshot, b: Snapshot, c: Snapshot, limit: nat)
    requires Earned(a, b, limit) && Earned(b, c, limit)
    ensures Earned(a, c, limit)
  {
  }

  /** With a lower stack there is no less room. */
  lemma EarnedLower(a: Snapshot, a': Snapshot, b: Snapshot, limit: nat)
    requires Earned(a', b, limit) && a' == a.(height := a'.height) && a'.height <= a.height
    ensures Earned(a, b, limit)
  {
  }

  class Marker {
    var h: Heap
    ghost var seeds: set<nat>     // where the current cycle's marks may come from
    ghost var duty: set<nat>      // the static data that need not be looked at again, unless the marks become invalid
    ghost var still: bool         // the program has not run since the dirty bits were last read
    var marked: set<nat>          // the mark bits
    var state: MarkState
    var scan: nat                 // scan_ptr
    var objectsAreMarked: bool
    var stack: seq<Entry>         // the entries in use; the last one is the top
    var limit: nat                // how many entries fit
    var tooSmall: bool

    /** The state after GC_mark_init: nothing marked, an empty stack. */
    constructor (h: Heap)
      requires WellFormed(h)
      ensures this.h == h && Shape() && marked == {} && stack == [] && state == MsNone
      ensures limit == INITIAL_MARK_STACK_SIZE && scan == 0 && !objectsAreMarked && !tooSmall
    {
      this.h, seeds, duty, still, marked, state, scan, objectsAreMarked, stack, limit, tooSmall :=
        h, {}, {}, false, {}, MsNone, 0, false, [], INITIAL_MARK_STACK_SIZE, false;
    }

    ghost predicate Shape()
      reads this`h, this`limit, this`stack, this`marked
    {
      && WellFormed(h)
      && INITIAL_MARK_STACK_SIZE <= limit && |stack| <= limit
      && (forall e | e in stack :: EntryOk(h, e))
      && marked <= h.home.Keys
    }

    ghost function Now(): Snapshot
      reads this`marked, this`stack, this`state, this`tooSmall
    {
      Snapshot(|marked|, |stack|, state, tooSmall)
    }

    /** The marking invariant with the heap scan taken to be in state st at address at;
        extra holds locations that have left the stack but are still being considered. */
    ghost predicate Holds(st: MarkState, at: nat, extra: set<nat>)
      reads this`h, this`limit, this`stack, this`marked, this`seeds, this`duty, this`state
    {
      && Shape()
      && Exact(h, seeds, marked, StackWords(h, stack) + extra)
      && (state != Invalid ==> Keeps(st, at, StackWords(h, stack) + extra))
    }

    /** Every pointer of a marked object in scope, and of the static data done with, is pending or fine. */
    ghost predicate Keeps(st: MarkState, at: nat, pend: set<nat>)
      reads this`h, this`marked, this`duty
      requires WellFormed(h) && marked <= h.home.Keys
    {
      ObjInv(h, st, at, marked, pend) && Owed(h, marked, pend, duty)
    }

    ghost predicate Valid()
      reads this
    {
      && Holds(state, scan, {})
      && RootTargets(h) <= seeds
      && (still ==> NoneWritten(h))
      && (state == MsNone || state == RootsPushed ==> QuietWords(h) <= duty && (still ==> StackFine(h, marked, h.stackWords)))
      && (state == PushRescuers ==> CleanWords(h) <= duty)
      && (state == MsNone ==> stack == [])
      && (state == PartiallyInvalid ==> scan != 0 && objectsAreMarked)
      && (state == RootsPushed ==> scan == 0 && objectsAreMarked)
      && (state == Invalid && !objectsAreMarked ==> scan == 0 && OnlyUncollectableMarked())
    }

    /** Marked objects are uncollectable or contain no pointers. */
    ghost predicate OnlyUncollectableMarked()
      reads this
      requires WellFormed(h) && marked <= h.home.Keys
    {
      forall o | o in marked :: IsUncollectable(h.blocks[h.home[o]].kind)
    }

    // ----- The termination measure -----

    ghost function Unmarked(m: set<nat>): nat
      reads this`h
    {
      |h.home.Keys - m|
    }

    ghost function Phase(): nat
      reads this
    {
      match state
      case Invalid => if !objectsAreMarked then 6 else if scan != 0 then 4 else 3
      case PushUncollectable => 5
      case PushRescuers => 5
      case PartiallyInvalid => 2
      case RootsPushed => 1
      case MsNone => 0
    }

    ghost function BlocksLeft(): nat
      reads this
    {
      |BlocksFrom(h, scan)|
    }

    ghost function BytesOnStack(): nat
      reads this`h, this`stack
    {
      StackWork(h, stack)
    }

    // ----- Pushing -----

    /** PUSH_OBJ: push an entry; on overflow discard the topmost entries and invalidate the marks. */
    method PushObj(e: Entry)
      requires Shape() && EntryOk(h, e)
      modifies this`state, this`tooSmall, this`stack
      ensures Shape()
      ensures |old(stack)| < limit ==>
        stack == old(stack) + [e] && state == old(state) && tooSmall == old(tooSmall)
      ensures |old(stack)| == limit ==>
        stack == old(stack)[..limit - MARK_STACK_DISCARDS] + [e] && state == Invalid && tooSmall
    {
      var top := |stack|;
      if top >= limit {
        top := SignalOverflow(top);
      }
      stack := stack[..top] + [e];
    }

    /** GC_signal_mark_stack_overflow. */
    method SignalOverflow(msp: int) returns (newTop: int)
      modifies this`state, this`tooSmall
      ensures state == Invalid && tooSmall && newTop == msp - MARK_STACK_DISCARDS
    {
      state := Invalid;
      tooSmall := true;
      newTop := msp - MARK_STACK_DISCARDS;
    }

    /** PUSH_CONTENTS: mark and push the object that value v points into, unless it is already marked. */
    method PushContents(v: nat, ghost st: MarkState, ghost at: nat, ghost extra: set<nat>)
      requires Holds(st, at, extra)
      requires Resolve(h, v).Some? ==> Reach(h, seeds, Resolve(h, v).value)
      modifies this`marked, this`state, this`tooSmall, this`stack
      ensures Holds(st, at, extra)
      ensures marked == old(marked) + (if Resolve(h, v).Some? then {Resolve(h, v).value} else {})
      ensures state == old(state) || state == Invalid
      ensures marked == old(marked) ==> stack == old(stack) && state == old(state) && tooSmall == old(tooSmall)
      ensures marked != old(marked) ==> Pushes(ObjEntry(h, Resolve(h, v).value), old(stack), old(state), old(tooSmall))
      ensures Earned(old(Now()), Now(), limit)
    {
      hide MarkModel.Exact, MarkModel.ObjInv, MarkModel.Owed, MarkModel.Reach, MarkModel.StackWords,
           MarkModel.Positions, Pushes;
      if v !in h.resolve {
        return;
      }
      var t := h.resolve[v];
      if t in marked {
        return;
      }
      ghost var before, a, m := stack, Now(), marked;
      MarkAndPush(t, st, at, extra);
      PushEarns(ObjEntry(h, t), before, a, m, t);
    }

    /** What pushing e onto the stack s in state st comes to: nothing if e is empty, the discarding of the topmost
        entries and an invalid state if the stack is full. */
    ghost predicate Pushes(e: Entry, s: seq<Entry>, st: MarkState, small: bool)
      reads this`stack, this`state, this`limit, this`tooSmall
    {
      if e.descr == Length(0) then stack == s && state == st && tooSmall == small
      else if |s| < limit then stack == s + [e] && state == st && tooSmall == small
      else state == Invalid && tooSmall && MARK_STACK_DISCARDS <= limit <= |s| && stack == s[..limit - MARK_STACK_DISCARDS] + [e]
    }

    /** The rest of it, for an unmarked object. */
    method MarkAndPush(t: nat, ghost st: MarkState, ghost at: nat, ghost extra: set<nat>)
      requires Holds(st, at, extra) && t in h.home && t !in marked && Reach(h, seeds, t)
      modifies this`marked, this`state, this`tooSmall, this`stack
      ensures Holds(st, at, extra) && marked == old(marked) + {t}
      ensures state == old(state) || state == Invalid
      ensures Pushes(ObjEntry(h, t), old(stack), old(state), old(tooSmall))
    {
      hide MarkModel.Exact, MarkModel.ObjInv, MarkModel.Owed, MarkModel.StackWords, MarkModel.Reach,
           MarkModel.WellFormed, MarkModel.Positions;
      ghost var before := stack;
      MarkedOne(t, st, at, extra);
      ObjOk(t);
      marked := marked + {t};
      var e := Entry(t, h.blocks[h.home[t]].descr);
      if e.descr != Length(0) {
        PushObj(e);
        if state == Invalid {
          PushedSubset(before, stack, e);
          DropSome(marked, StackWords(h, before) + Positions(h, e) + extra, StackWords(h, stack) + extra);
        } else {
          StackPush(h, before, e);
        }
      } else {
        NoWords(e);
        assert StackWords(h, before) + Positions(h, e) + extra == StackWords(h, before) + extra;
      }
    }

    /** One more mark, and one more entry if there is room. */
    lemma PushEarns(e: Entry, s: seq<Entry>, a: Snapshot, m: set<nat>, t: nat)
      requires Pushes(e, s, a.state, a.tooSmall) && a.height == |s| <= limit && a.marks == |m| && t !in m
      requires marked == m + {t}
      ensures Earned(a, Now(), limit)
    {
    }

    lemma ObjOk(t: nat)
      requires WellFormed(h) && t in h.home
      ensures h.home[t] < |h.blocks| && (h.blocks[h.home[t]].descr != Length(0) ==> EntryOk(h, ObjEntry(h, t)))
    {
      assert h.blocks[h.home[t]] in h.blocks;
    }

    /** What MarkOne says of this marker. */
    lemma MarkedOne(t: nat, st: MarkState, at: nat, extra: set<nat>)
      requires Holds(st, at, extra) && t in h.home && Reach(h, seeds, t)
      ensures var m, pend := marked + {t}, StackWords(h, stack) + Positions(h, ObjEntry(h, t)) + extra;
        && Exact(h, seeds, m, pend)
        && (state != Invalid ==> ObjInv(h, st, at, m, pend) && Owed(h, m, pend, duty))
    {
      hide MarkModel.Exact, MarkModel.ObjInv, MarkModel.Owed, MarkModel.Reach, MarkModel.StackWords,
           MarkModel.Positions;
      MarkOne(h, seeds, st, at, marked, StackWords(h, stack) + extra, t, duty);
      assert (StackWords(h, stack) + extra) + Positions(h, ObjEntry(h, t)) == StackWords(h, stack) + Positions(h,
          ObjEntry(h, t)) + extra;
    }

    lemma PushedSubset(before: seq<Entry>, after: seq<Entry>, e: Entry)
      requires after == before + [e] || exists k :: 0 <= k <= |before| && after == before[..k] + [e]
      ensures StackWords(h, after) <= StackWords(h, before) + Positions(h, e)
    {
      if after == before + [e] {
        StackPush(h, before, e);
      } else {
        var k :| 0 <= k <= |before| && after == before[..k] + [e];
        StackPush(h, before[..k], e);
        StackPrefix(h, before, k);
      }
    }

    /** Dropping pending locations keeps the marks sound, though not the invariant. */
    lemma DropSome(m: set<nat>, pend: set<nat>, pend': set<nat>)
      requires WellFormed(h) && pend' <= pend
      ensures Exact(h, seeds, m, pend) ==> Exact(h, seeds, m, pend')
    {
    }

    predicate Plausible(v: nat)
      reads this`h
    {
      h.leastHa <= v < h.greatestHa
    }

    /** Consider the word at q, which leaves the extra locations, if it has not done so before. */
    method Consider(q: nat, ghost st: MarkState, ghost at: nat, ghost extra: set<nat>, ghost extra': set<nat>)
      requires Holds(st, at, extra) && (q in extra || Fine(h, marked, q)) && extra' == extra - {q}
      modifies this`marked, this`state, this`tooSmall, this`stack
      ensures Holds(st, at, extra') && Fine(h, marked, q)
      ensures old(marked) <= marked && (state == old(state) || state == Invalid)
      ensures Earned(old(Now()), Now(), limit)
      ensures marked == old(marked) ==> stack == old(stack) && state == old(state) && tooSmall == old(tooSmall)
    {
      hide Pushes;
      var v := Read(h, q);
      assert q in extra ==> q in StackWords(h, stack) + extra;
      if Plausible(v) {
        PushContents(v, st, at, extra);
      }
      assert Fine(h, marked, q);
      NotPending(q, st, at, extra, extra');
    }

    lemma NotPending(q: nat, st: MarkState, at: nat, extra: set<nat>, extra': set<nat>)
      requires Holds(st, at, extra) && extra' == extra - {q} && Fine(h, marked, q)
      ensures Holds(st, at, extra')
    {
      hide MarkModel.Exact, MarkModel.ObjInv, MarkModel.Owed, MarkModel.StackWords, MarkModel.WellFormed,
           MarkModel.Fine;
      DropFine(h, seeds, st, at, marked, StackWords(h, stack) + extra, StackWords(h, stack) + extra', duty);
    }

    /** The inner loop of GC_mark_from over the locations cur..limit: the last plausible word is
        remembered and considered at the end, the others in address order before it. */
    method ScanRange(start: nat, last: int, ghost st: MarkState, ghost at: nat) returns (ghost seen: seq<nat>)
      requires start <= last && Holds(st, at, Range(start, last))
      modifies this`marked, this`state, this`tooSmall, this`stack
      ensures Holds(st, at, {})
      ensures Ascending(seen)
      ensures forall q: nat :: q in seen <==> start <= q <= last && Plausible(Read(h, q))
      ensures old(marked) <= marked && (state == old(state) || state == Invalid)
      ensures Earned(old(Now()), Now(), this.limit)
      ensures marked == old(marked) ==> stack == old(stack) && state == old(state) && tooSmall == old(tooSmall)
    {
      hide Holds, Read, Ascending, Plausible, Earned, Now;
      EarnedSelf(Now(), this.limit);
      seen := [];
      NoneAscending();
      var cur: nat, limit: int := start, last;
      while true
        invariant cur <= limit <= last
        invariant Holds(st, at, Range(cur, limit)) && marked == old(marked) && stack == old(stack)
        invariant state == old(state) && tooSmall == old(tooSmall) && Now() == old(Now())
        invariant forall q | limit < q <= last :: !Plausible(Read(h, q))
        decreases limit
        modifies {}
      {
        var deferred := Read(h, limit);
        limit := limit - 1;
        if Plausible(deferred) {
          break;
        }
        DropLocation(limit + 1, st, at, Range(cur, limit + 1), Range(cur, limit));
        if cur > limit {
          assert Range(cur, limit) == {};
          return;
        }
        deferred := Read(h, limit);
        limit := limit - 1;
        if Plausible(deferred) {
          break;
        }
        DropLocation(limit + 1, st, at, Range(cur, limit + 1), Range(cur, limit));
        if cur > limit {
          assert Range(cur, limit) == {};
          return;
        }
      }
      seen := ScanAscending(cur, limit, last, st, at);
    }

    /** The rest of the loop: the words from start to limit in address order, then the deferred one after them. */
    method ScanAscending(start: nat, limit: int, ghost last: int, ghost st: MarkState, ghost at: nat)
      returns (ghost seen: seq<nat>)
      requires start <= limit + 1 <= last && Holds(st, at, Range(start, limit + 1))
      requires Plausible(Read(h, limit + 1)) && forall q | limit + 1 < q <= last :: !Plausible(Read(h, q))
      modifies this`marked, this`state, this`tooSmall, this`stack
      ensures Holds(st, at, {})
      ensures Ascending(seen)
      ensures forall q: nat :: q in seen <==> start <= q <= last && Plausible(Read(h, q))
      ensures old(marked) <= marked && (state == old(state) || state == Invalid)
      ensures Earned(old(Now()), Now(), this.limit)
      ensures marked == old(marked) ==> stack == old(stack) && state == old(state) && tooSmall == old(tooSmall)
    {
      hide Holds, Read, Ascending, Plausible, Earned, Now;
      EarnedSelf(Now(), this.limit);
      seen := [];
      NoneAscending();
      var cur: nat := start;
      while cur <= limit
        invariant start <= cur <= limit + 1 <= last
        invariant Holds(st, at, Range(cur, limit + 1))
        invariant Ascending(seen)
        invariant forall q: nat :: q in seen <==> start <= q < cur && Plausible(Read(h, q))
        invariant forall q | limit + 1 < q <= last :: !Plausible(Read(h, q))
        invariant Plausible(Read(h, limit + 1))
        invariant old(marked) <= marked && (state == old(state) || state == Invalid)
        invariant Earned(old(Now()), Now(), this.limit)
        invariant marked == old(marked) ==> stack == old(stack) && state == old(state) && tooSmall == old(tooSmall)
      {
        ghost var was := Now();
        Consider(cur, st, at, Range(cur, limit + 1), Range(cur + 1, limit + 1));
        EarnedTrans(old(Now()), was, Now(), this.limit);
        if Plausible(Read(h, cur)) {
          AscendingAppend(seen, cur);
          seen := seen + [cur];
        }
        cur := cur + 1;
      }
      ghost var was := Now();
      Consider(limit + 1, st, at, Range(cur, limit + 1), {});
      EarnedTrans(old(Now()), was, Now(), this.limit);
      AscendingAppend(seen, limit + 1);
      seen := seen + [limit + 1];
    }

    static lemma NoneAscending()
      ensures Ascending([])
    {
    }

    lemma DropLocation(q: nat, st: MarkState, at: nat, extra: set<nat>, extra': set<nat>)
      requires Holds(st, at, extra) && extra' == extra - {q} && !Plausible(Read(h, q))
      ensures Holds(st, at, extra')
    {
      assert Fine(h, marked, q);
      NotPending(q, st, at, extra, extra');
    }

    /** The bitmap loop of GC_mark_from. */
    method ScanBits(start: nat, map0: seq<bool>, ghost st: MarkState, ghost at: nat)
      requires Holds(st, at, BitPositions(h.wordUnits, start, map0))
      modifies this`marked, this`state, this`tooSmall, this`stack
      ensures Holds(st, at, {})
      ensures old(marked) <= marked && (state == old(state) || state == Invalid)
      ensures Earned(old(Now()), Now(), limit)
      ensures marked == old(marked) ==> stack == old(stack) && state == old(state) && tooSmall == old(tooSmall)
    {
      hide MarkModel.Exact, MarkModel.ObjInv, MarkModel.Owed, MarkModel.StackWords, Holds, Earned, Now;
      EarnedSelf(Now(), limit);
      UnitsPositive(st, at, BitPositions(h.wordUnits, start, map0));
      var cur: nat, bits := start, map0;
      while bits != []
        invariant Holds(st, at, BitPositions(h.wordUnits, cur, bits))
        invariant old(marked) <= marked && (state == old(state) || state == Invalid)
        invariant Earned(old(Now()), Now(), limit)
        invariant marked == old(marked) ==> stack == old(stack) && state == old(state) && tooSmall == old(tooSmall)
        decreases bits
      {
        ghost var rest := BitPositions(h.wordUnits, cur + h.wordUnits, bits[1..]);
        if bits[0] {
          BitsAbove(h.wordUnits, cur + h.wordUnits, bits[1..]);
          ghost var was := Now();
          Consider(cur, st, at, BitPositions(h.wordUnits, cur, bits), rest);
          EarnedTrans(old(Now()), was, Now(), limit);
        } else {
          assert BitPositions(h.wordUnits, cur, bits) == rest;
        }
        cur, bits := cur + h.wordUnits, bits[1..];
      }
    }

    lemma UnitsPositive(st: MarkState, at: nat, extra: set<nat>)
      requires Holds(st, at, extra)
      ensures 1 <= h.wordUnits
    {
    }

    /** A mark procedure: mark from the words it is meant to mark from, in its order. */
    method ScanProc(start: nat, offsets: seq<nat>, ghost st: MarkState, ghost at: nat)
      requires Holds(st, at, OffsetPositions(start, offsets))
      modifies this`marked, this`state, this`tooSmall, this`stack
      ensures Holds(st, at, {})
      ensures old(marked) <= marked && (state == old(state) || state == Invalid)
      ensures Earned(old(Now()), Now(), limit)
      ensures marked == old(marked) ==> stack == old(stack) && state == old(state) && tooSmall == old(tooSmall)
    {
      hide Holds, Earned, Now;
      EarnedSelf(Now(), limit);
      ghost var left := OffsetPositions(start, offsets);
      var k := 0;
      while k < |offsets|
        invariant k <= |offsets| && Holds(st, at, left)
        invariant forall d | d in offsets :: start + d in left || Fine(h, marked, start + d)
        invariant forall q | q in left :: exists j :: k <= j < |offsets| && start + offsets[j] == q
        invariant old(marked) <= marked && (state == old(state) || state == Invalid)
        invariant Earned(old(Now()), Now(), limit)
        invariant marked == old(marked) ==> stack == old(stack) && state == old(state) && tooSmall == old(tooSmall)
      {
        ghost var q := start + offsets[k];
        assert offsets[k] in offsets;
        ghost var was := Now();
        Consider(start + offsets[k], st, at, left, left - {q});
        EarnedTrans(old(Now()), was, Now(), limit);
        left := left - {q};
        k := k + 1;
      }
      assert left == {};
    }

    static lemma {:induction false} BitsAbove(w: nat, p: nat, bits: seq<bool>)
      ensures forall q | q in BitPositions(w, p, bits) :: p <= q
      decreases bits
    {
      if bits != [] {
        BitsAbove(w, p + w, bits[1..]);
      }
    }

    /** One round of GC_mark_from: take the top entry and consider its locations, or the first
        SPLIT_RANGE_WORDS - 1 words of a long range whose remainder stays on the stack. */
    method MarkEntry(ghost st: MarkState, ghost at: nat) returns (cost: int)
      requires Holds(st, at, {}) && stack != []
      modifies this`marked, this`state, this`tooSmall, this`stack
      ensures Holds(st, at, {})
      ensures old(marked) <= marked && (state == old(state) || state == Invalid)
      ensures Earned(old(Now()), Now(), limit)
      ensures marked == old(marked) ==> state == old(state) && BytesOnStack() < old(BytesOnStack())
      ensures var e := old(stack)[|old(stack)| - 1];
        && cost == Cost(h, Simple(h, e)) && (marked == old(marked) ==> stack == old(stack)[..|old(stack)| - 1] + Remainder(h, e))
    {
      hide MarkModel.Exact, MarkModel.ObjInv, MarkModel.Owed, MarkModel.StackWords, MarkModel.StackWork,
           MarkModel.WellFormed, MarkModel.BitPositions, MarkModel.Positions, Holds, Earned;
      var below, e := stack[..|stack| - 1], stack[|stack| - 1];
      var descr := if e.descr.PerObject? then Simple(h, e) else e.descr;
      TopOk(st, at);
      assert below + [] == below;
      if descr.Length? && SPLIT_RANGE_WORDS * h.wordUnits <= descr.n {
        cost := MarkLongEntry(below, e, descr.n, st, at);
      } else {
        cost := MarkWholeEntry(below, e, descr, st, at);
      }
    }

    lemma TopOk(st: MarkState, at: nat)
      requires Holds(st, at, {}) && stack != []
      ensures var e := stack[|stack| - 1]; WellFormed(h) && EntryOk(h, e) && DescrOk(h, Simple(h, e)) && 1 <= h.wordUnits
    {
      SimpleOk(h, stack[|stack| - 1]);
    }

    /** An entry that is considered at once. */
    method MarkWholeEntry(below: seq<Entry>, e: Entry, descr: Descr, ghost st: MarkState, ghost at: nat)
      returns (cost: int)
      requires Holds(st, at, {}) && stack == below + [e] && DescrOk(h, descr) && 1 <= h.wordUnits
      requires descr == Simple(h, e) && (descr.Length? ==> descr.n < SPLIT_RANGE_WORDS * h.wordUnits)
      modifies this`marked, this`state, this`tooSmall, this`stack
      ensures Holds(st, at, {}) && cost == Cost(h, descr)
      ensures old(marked) <= marked && (state == old(state) || state == Invalid)
      ensures Earned(old(Now()), Now(), limit)
      ensures marked == old(marked) ==> state == old(state) && BytesOnStack() < old(BytesOnStack()) && stack == below
    {
      hide MarkModel.Exact, MarkModel.ObjInv, MarkModel.Owed, MarkModel.StackWords, MarkModel.StackWork,
           MarkModel.WellFormed, MarkModel.BitPositions, MarkModel.Positions, Keeps, Earned, Holds,
           MarkModel.Simple, MarkModel.EntryOk, MarkModel.Work, MarkModel.OffsetPositions, MarkModel.Range;
      Popped(st, at, below, e);
      WordsOf(e);
      stack := below;
      PoppedHolds(st, at, e);
      ghost var was := Now();
      EarnedSelf(was, limit);
      if descr == Length(0) {
        cost := 0;
      } else if descr.Bitmap? {
        ScanBits(e.start, descr.bits, st, at);
        cost := h.wordUnits * 32;
      } else if descr.Proc? {
        ScanProc(e.start, descr.offsets, st, at);
        cost := PROC_BYTES;
      } else {
        var seen := ScanRange(e.start, e.start + descr.n - h.wordUnits, st, at);
        cost := descr.n;
      }
      EarnedLower(old(Now()), was, Now(), limit);
    }

    /** The locations that the scans of an entry are given. */
    lemma WordsOf(e: Entry)
      requires 1 <= h.wordUnits
      ensures Positions(h, e) == match Simple(h, e) {
          case Length(n) => if n == 0 then {} else Range(e.start, e.start + n - h.wordUnits)
          case Bitmap(bits) => BitPositions(h.wordUnits, e.start, bits)
          case Proc(offsets) => OffsetPositions(e.start, offsets)
          case PerObject => {}
        }
    {
    }

    /** The splitting of a long range. */
    method MarkLongEntry(below: seq<Entry>, e: Entry, n: nat, ghost st: MarkState, ghost at: nat) returns (cost: int)
      requires Holds(st, at, {}) && stack == below + [e]
      requires Simple(h, e) == Length(n) && SPLIT_RANGE_WORDS * h.wordUnits <= n
      modifies this`marked, this`state, this`tooSmall, this`stack
      ensures Holds(st, at, {}) && cost == Cost(h, Length(n))
      ensures old(marked) <= marked && (state == old(state) || state == Invalid)
      ensures Earned(old(Now()), Now(), limit)
      ensures marked == old(marked) ==>
        state == old(state) && BytesOnStack() < old(BytesOnStack()) && stack == below + Remainder(h, e)
    {
      hide MarkModel.Exact, MarkModel.ObjInv, MarkModel.Owed, MarkModel.StackWords, MarkModel.StackWork,
           MarkModel.WellFormed, MarkModel.BitPositions, Earned, Holds;
      var cut := (SPLIT_RANGE_WORDS - 1) * h.wordUnits;
      TopOk(st, at);
      Popped(st, at, below, e);
      stack := below + [Entry(e.start + cut, Length(n - cut))];
      Shortened(st, at, below, e, n);
      ghost var was := Now();
      var seen := ScanRange(e.start, e.start + cut - 1, st, at);
      EarnedLower(old(Now()), was, Now(), limit);
      cost := cut + h.wordUnits - 1;
    }

    lemma Shortened(st: MarkState, at: nat, below: seq<Entry>, e: Entry, n: nat)
      requires WellFormed(h) && marked <= h.home.Keys && INITIAL_MARK_STACK_SIZE <= limit && |below| < limit
      requires EntryOk(h, e) && 1 <= h.wordUnits && (forall x | x in below :: EntryOk(h, x))
      requires Simple(h, e) == Length(n) && SPLIT_RANGE_WORDS * h.wordUnits <= n
      requires var cut := (SPLIT_RANGE_WORDS - 1) * h.wordUnits; stack == below + [Entry(e.start + cut, Length(n - cut))]
      requires Exact(h, seeds, marked, StackWords(h, below) + Positions(h, e))
      requires state != Invalid ==> Keeps(st, at, StackWords(h, below) + Positions(h, e))
      ensures var cut := (SPLIT_RANGE_WORDS - 1) * h.wordUnits;
        && Holds(st, at, Range(e.start, e.start + cut - 1))
        && StackWork(h, stack) < StackWork(h, below) + Work(h, e)
    {
      hide MarkModel.StackWords, MarkModel.StackWork, MarkModel.Positions, MarkModel.Work, MarkModel.Exact,
           MarkModel.WellFormed, MarkModel.EntryOk, MarkModel.Simple, MarkModel.Range, Keeps, Holds;
      var cut := (SPLIT_RANGE_WORDS - 1) * h.wordUnits;
      var rest := Entry(e.start + cut, Length(n - cut));
      ShortenedWords(e, n);
      StackPush(h, below, rest);
      Regrouped(StackWords(h, below), Positions(h, rest), Range(e.start, e.start + cut - 1));
      assert forall x | x in stack :: x in below || x == rest;
      HoldsBy(st, at, Range(e.start, e.start + cut - 1), StackWords(h, below) + Positions(h, e));
    }

    static lemma Regrouped(a: set<nat>, b: set<nat>, c: set<nat>)
      ensures a + (b + c) == a + b + c
    {
    }

    lemma HoldsIs(st: MarkState, at: nat, pend: set<nat>)
      requires Holds(st, at, {}) && pend == StackWords(h, stack) + {}
      ensures Shape() && Exact(h, seeds, marked, pend) && (state != Invalid ==> Keeps(st, at, pend))
    {
    }

    lemma HoldsBy(st: MarkState, at: nat, extra: set<nat>, pend: set<nat>)
      requires Shape() && pend == StackWords(h, stack) + extra
      requires Exact(h, seeds, marked, pend) && (state != Invalid ==> Keeps(st, at, pend))
      ensures Holds(st, at, extra)
    {
    }

    lemma ShortenedWords(e: Entry, n: nat)
      requires WellFormed(h) && EntryOk(h, e) && Simple(h, e) == Length(n) && SPLIT_RANGE_WORDS * h.wordUnits <= n
      ensures var cut := (SPLIT_RANGE_WORDS - 1) * h.wordUnits; var rest := Entry(e.start + cut, Length(n - cut));
        && Positions(h, e) == Positions(h, rest) + Range(e.start, e.start + cut - 1) && Work(h, rest) < Work(h, e)
        && EntryOk(h, rest)
    {
    }

    /** GC_mark_from on the global stack: mark until it is empty or enough work has been done. */
    method MarkFrom(ghost st: MarkState, ghost at: nat) returns (ghost spent: int, ghost last: int)
      requires Holds(st, at, {}) && stack != []
      modifies this`marked, this`state, this`tooSmall, this`objectsAreMarked, this`stack
      ensures Holds(st, at, {}) && objectsAreMarked
      ensures old(marked) <= marked && (state == old(state) || state == Invalid)
      ensures Earned(old(Now()), Now(), limit)
      ensures marked == old(marked) ==> state == old(state) && BytesOnStack() < old(BytesOnStack())
      // It goes on until the entries considered, of which the last costs last, come to more than a heap block.
      ensures spent - last <= HBLKSIZE && (stack == [] || HBLKSIZE < spent)
    {
      hide Holds, Unmarked, BytesOnStack, Earned, Cost, Remainder;
      EarnedSelf(Now(), limit);
      spent, last := 0, 0;
      var credit: int := HBLKSIZE;
      objectsAreMarked := true;
      ghost var started := false;
      while stack != [] && 0 <= credit
        invariant Holds(st, at, {}) && objectsAreMarked
        invariant old(marked) <= marked && (state == old(state) || state == Invalid)
        invariant Earned(old(Now()), Now(), limit)
        invariant credit == HBLKSIZE - spent && spent - last <= HBLKSIZE
        invariant !started ==> credit == HBLKSIZE && stack == old(stack) && marked == old(marked) && state == old(state)
        invariant started && marked == old(marked) ==> state == old(state) && BytesOnStack() < old(BytesOnStack())
        decreases Unmarked(marked), BytesOnStack()
      {
        ghost var m, was := marked, Now();
        var cost := MarkEntry(st, at);
        EarnedTrans(old(Now()), was, Now(), limit);
        credit := credit - cost;
        spent, last := spent + cost, cost;
        started := true;
        if marked != m {
          InHeap(st, at);
          FewerUnmarked(m);
        }
      }
    }

    lemma InHeap(st: MarkState, at: nat)
      requires Holds(st, at, {})
      ensures marked <= h.home.Keys
    {
    }

    /** Taking e off the stack leaves its locations to be considered. */
    lemma Popped(st: MarkState, at: nat, below: seq<Entry>, e: Entry)
      requires Holds(st, at, {}) && stack == below + [e]
      ensures Exact(h, seeds, marked, StackWords(h, below) + Positions(h, e))
      ensures state != Invalid ==> Keeps(st, at, StackWords(h, below) + Positions(h, e))
      ensures StackWork(h, below) < StackWork(h, stack) == StackWork(h, below) + Work(h, e)
      ensures WellFormed(h) && marked <= h.home.Keys && INITIAL_MARK_STACK_SIZE <= limit && |below| < limit
      ensures forall x | x in below :: EntryOk(h, x)
    {
    }

    lemma PoppedHolds(st: MarkState, at: nat, e: Entry)
      requires WellFormed(h) && marked <= h.home.Keys && INITIAL_MARK_STACK_SIZE <= limit && |stack| < limit
      requires forall x | x in stack :: EntryOk(h, x)
      requires Exact(h, seeds, marked, StackWords(h, stack) + Positions(h, e))
      requires state != Invalid ==> Keeps(st, at, StackWords(h, stack) + Positions(h, e))
      ensures Holds(st, at, Positions(h, e))
    {
    }

    static ghost predicate Ascending(s: seq<nat>) {
      forall i, j | 0 <= i < j < |s| :: s[i] < s[j]
    }

    static lemma AscendingAppend(s: seq<nat>, x: nat)
      requires Ascending(s) && forall q | q in s :: q < x
      ensures Ascending(s + [x])
    {
      assert forall i | 0 <= i < |s| :: s[i] in s;
    }

    // ----- Scanning the heap for marked objects -----

    /** GC_push_marked: push every marked object of block i, without marking anything. */
    method PushMarked(i: nat, ghost st: MarkState, ghost at: nat)
      requires Holds(st, at, {}) && i < |h.blocks| && |stack| + |h.blocks[i].objs| <= limit
      modifies this`state, this`tooSmall, this`objectsAreMarked, this`stack
      ensures Holds(st, at, {}) && state == old(state) && tooSmall == old(tooSmall)
      ensures forall o | o in h.blocks[i].objs && o in marked :: Covered(h, marked, StackWords(h, stack), o)
      ensures old(objectsAreMarked) ==> objectsAreMarked
      ensures stack != old(stack) ==> objectsAreMarked
      ensures h.blocks[i].descr == Length(0) ==> stack == old(stack) && objectsAreMarked == old(objectsAreMarked)
      ensures h.blocks[i].descr != Length(0) ==>
        stack == old(stack) + MarkedEntries(h.blocks[i].objs, h.blocks[i].descr)
      ensures h.blocks[i].descr != Length(0) ==>
        (objectsAreMarked <==> old(objectsAreMarked) || exists o :: o in h.blocks[i].objs && o in marked)
    {
      hide MarkModel.Exact, MarkModel.StackWords, MarkModel.Covered, MarkModel.Reach, MarkModel.Positions,
           MarkModel.WellFormed, MarkModel.EntryOk, MarkModel.InScope, Keeps, MarkedEntries;
      NoEntries(h.blocks[i].descr);
      var b := h.blocks[i];
      EntriesOk(i);
      if b.descr == Length(0) {
        PointerFree(i);
        return;
      }
      if forall o <- b.objs :: o !in marked {
        NoneMarked(b.objs, b.descr);
        return;
      }
      objectsAreMarked := true;
      var k := 0;
      while k < |b.objs|
        invariant k <= |b.objs| && |stack| + |b.objs| - k <= limit
        invariant stack == old(stack) + MarkedEntries(b.objs[..k], b.descr)
        invariant Holds(st, at, {}) && state == old(state) && tooSmall == old(tooSmall) && objectsAreMarked
        invariant forall o | o in b.objs[..k] && o in marked :: Covered(h, marked, StackWords(h, stack), o)
      {
        var o := b.objs[k];
        NextEntry(b.objs, k, b.descr);
        if o in marked {
          ghost var before := stack;
          PushObj(Entry(o, b.descr));
          PushedMarked(before, st, at, o);
        }
        k := k + 1;
      }
      assert b.objs[..k] == b.objs;
    }

    /** The entries for those of the objects that are marked, in order. */
    function MarkedEntries(objs: seq<nat>, descr: Descr): seq<Entry>
      reads this`marked
    {
      if objs == [] then []
      else
        var n := |objs| - 1;
        MarkedEntries(objs[..n], descr) + (if objs[n] in marked then [Entry(objs[n], descr)] else [])
    }

    lemma NoEntries(descr: Descr)
      ensures MarkedEntries([], descr) == []
    {
    }

    lemma NextEntry(objs: seq<nat>, k: nat, descr: Descr)
      requires k < |objs|
      ensures objs[..k + 1] == objs[..k] + [objs[k]]
      ensures MarkedEntries(objs[..k + 1], descr) ==
        MarkedEntries(objs[..k], descr) + (if objs[k] in marked then [Entry(objs[k], descr)] else [])
    {
      assert objs[..k + 1][..k] == objs[..k];
    }

    lemma {:induction false} NoneMarked(objs: seq<nat>, descr: Descr)
      requires forall o <- objs :: o !in marked
      ensures MarkedEntries(objs, descr) == []
      decreases |objs|
    {
      if objs != [] {
        NoneMarked(objs[..|objs| - 1], descr);
      }
    }

    lemma EntriesOk(i: nat)
      requires WellFormed(h) && i < |h.blocks|
      ensures forall o | o in h.blocks[i].objs :: o in h.home && ObjEntry(h, o) == Entry(o, h.blocks[i].descr)
      ensures h.blocks[i].descr != Length(0) ==> forall o: nat :: EntryOk(h, Entry(o, h.blocks[i].descr))
    {
      assert BlockOk(h, h.blocks[i]);
    }

    /** Pushing a marked object only adds to what is covered. */
    lemma PushedMarked(before: seq<Entry>, st: MarkState, at: nat, o: nat)
      requires Shape() && o in marked && stack == before + [ObjEntry(h, o)]
      requires Exact(h, seeds, marked, StackWords(h, before) + {})
      requires state != Invalid ==> Keeps(st, at, StackWords(h, before) + {})
      ensures Holds(st, at, {}) && Covered(h, marked, StackWords(h, stack), o)
      ensures forall x | x in marked && Covered(h, marked, StackWords(h, before), x) ::
        Covered(h, marked, StackWords(h, stack), x)
    {
      hide MarkModel.StackWords, MarkModel.Reach, MarkModel.Positions;
      StackPush(h, before, ObjEntry(h, o));
      PendingReachable(h, seeds, o);
    }

    lemma PointerFree(i: nat)
      requires Shape() && i < |h.blocks| && h.blocks[i].descr == Length(0)
      ensures forall o, pend | o in h.blocks[i].objs && o in marked :: Covered(h, marked, pend, o)
    {
    }

    /** The common end of the three scans: push block i, which is the first one at or after p with work to do. */
    method PushBlock(p: nat, i: nat) returns (next: nat)
      requires Holds(state, p, {}) && i < |h.blocks| && p <= h.blocks[i].start
      requires |stack| + MAX_OBJS_PER_BLOCK <= limit
      requires Scans(state) && Skipped(p, h.blocks[i].start)
      modifies this`state, this`tooSmall, this`objectsAreMarked, this`stack
      ensures state == old(state) && tooSmall == old(tooSmall)
      ensures Holds(state, next, {}) && 0 < next && |BlocksFrom(h, next)| < |BlocksFrom(h, p)|
      ensures old(objectsAreMarked) ==> objectsAreMarked
      ensures stack != old(stack) ==> objectsAreMarked
    {
      hide MarkModel.Exact, MarkModel.ObjInv, MarkModel.Owed, MarkModel.StackWords, MarkModel.Covered,
           MarkModel.BlocksFrom;
      assert BlockOk(h, h.blocks[i]);
      next := h.blocks[i].start + h.blocks[i].size;
      PushMarked(i, state, p);
      BlocksFromShrink(h, p, next, i);
      assert StackWords(h, stack) + {} == StackWords(h, stack);
      if state != Invalid {
        Advance(h, state, p, next, marked, StackWords(h, stack) + {}, i);
      }
    }

    static predicate Scans(st: MarkState) {
      st.PushRescuers? || st.PushUncollectable? || st.PartiallyInvalid? || st.Invalid?
    }

    /** The blocks from p to before p' hold nothing for the current scan. */
    ghost predicate Skipped(p: nat, p': nat)
      reads this
    {
      forall j | 0 <= j < |h.blocks| && p <= h.blocks[j].start < p' :: Skippable(state, h.blocks[j])
    }

    /** Ending a scan that found nothing more. */
    lemma ScanDone(p: nat, p': nat)
      requires Holds(state, p, {}) && Scans(state) && Skipped(p, p')
      requires forall j | 0 <= j < |h.blocks| && p' <= h.blocks[j].start :: h.blocks[j].free
      ensures Holds(RootsPushed, 0, {})
    {
    }

    lemma LocateSkips(p: nat)
      requires WellFormed(h)
      ensures var r := Locate(h, p);
        && (r < |h.blocks| ==> forall j | 0 <= j < |h.blocks| && p <= h.blocks[j].start < h.blocks[r].start :: h.blocks[j].free)
        && (r == |h.blocks| ==> forall j | 0 <= j < |h.blocks| && p <= h.blocks[j].start :: h.blocks[j].free)
    {
    }

    /** Going past a block that the current scan has nothing to push from. */
    lemma SkipBlock(p: nat, q: nat, i: nat)
      requires WellFormed(h) && i == Locate(h, q) && i < |h.blocks| && p <= q && Skipped(p, q)
      requires Skippable(state, h.blocks[i])
      ensures var q' := h.blocks[i].start + h.blocks[i].size;
        q <= q' && Skipped(p, q') && |BlocksFrom(h, q')| < |BlocksFrom(h, q)|
    {
      hide MarkModel.BlocksFrom;
      var q' := h.blocks[i].start + h.blocks[i].size;
      assert BlockOk(h, h.blocks[i]);
      LocateSkips(q);
      BlocksFromShrink(h, q, q', i);
      assert forall j | i < j < |h.blocks| :: q' <= h.blocks[j].start;
    }

    /** GC_push_next_marked. */
    method PushNextMarked(p: nat) returns (next: nat)
      requires Holds(state, p, {}) && (state == Invalid || state == PartiallyInvalid)
      requires |stack| + MAX_OBJS_PER_BLOCK <= limit
      modifies this`state, this`tooSmall, this`objectsAreMarked, this`stack
      ensures state == old(state) && tooSmall == old(tooSmall)
      ensures next == 0 ==> Holds(RootsPushed, 0, {}) && stack == old(stack)
      ensures next != 0 ==> Holds(state, next, {}) && |BlocksFrom(h, next)| < |BlocksFrom(h, p)|
      ensures old(objectsAreMarked) ==> objectsAreMarked
    {
      hide MarkModel.Exact, MarkModel.ObjInv, MarkModel.Owed, MarkModel.StackWords, MarkModel.BlocksFrom;
      var i := Locate(h, p);
      LocateSkips(p);
      if i == |h.blocks| {
        ScanDone(p, p);
        return 0;
      }
      next := PushBlock(p, i);
    }

    lemma SkippedNone(p: nat)
      ensures Skipped(p, p)
    {
    }

    lemma SkippedTo(p: nat, q: nat, i: nat)
      requires WellFormed(h) && Skipped(p, q) && i == Locate(h, q) && i < |h.blocks|
      ensures Skipped(p, h.blocks[i].start)
    {
    }

    /** GC_push_next_marked_dirty. */
    method PushNextMarkedDirty(p: nat) returns (next: nat)
      requires Holds(state, p, {}) && state == PushRescuers
      requires |stack| + MAX_OBJS_PER_BLOCK <= limit
      modifies this`state, this`tooSmall, this`objectsAreMarked, this`stack
      ensures state == old(state) && tooSmall == old(tooSmall)
      ensures next == 0 ==> Holds(RootsPushed, 0, {}) && stack == old(stack)
      ensures next != 0 ==> Holds(state, next, {}) && |BlocksFrom(h, next)| < |BlocksFrom(h, p)|
      ensures old(objectsAreMarked) ==> objectsAreMarked
    {
      hide MarkModel.Exact, MarkModel.ObjInv, MarkModel.Owed, MarkModel.StackWords, MarkModel.BlocksFrom,
           MarkModel.WellFormed, MarkModel.Locate, MarkModel.EntryOk, Skipped;
      var q, i := p, Locate(h, p);
      SkippedNone(p);
      while i < |h.blocks| && !h.blocks[i].dirty
        invariant p <= q && i == Locate(h, q) && Skipped(p, q)
        decreases |BlocksFrom(h, q)|
        modifies {}
      {
        SkipBlock(p, q, i);
        q := h.blocks[i].start + h.blocks[i].size;
        i := Locate(h, q);
      }
      LocateSkips(q);
      if i == |h.blocks| {
        ScanDone(p, q);
        return 0;
      }
      SkippedTo(p, q, i);
      next := PushBlock(p, i);
    }

    /** GC_push_next_marked_uncollectable. */
    method PushNextMarkedUncollectable(p: nat) returns (next: nat)
      requires Holds(state, p, {}) && state == PushUncollectable
      requires |stack| + MAX_OBJS_PER_BLOCK <= limit
      modifies this`state, this`tooSmall, this`objectsAreMarked, this`stack
      ensures state == old(state) && tooSmall == old(tooSmall)
      ensures next == 0 ==> Holds(RootsPushed, 0, {}) && stack == old(stack)
      ensures next != 0 ==> Holds(state, next, {}) && |BlocksFrom(h, next)| < |BlocksFrom(h, p)|
      ensures old(objectsAreMarked) ==> objectsAreMarked
    {
      hide MarkModel.Exact, MarkModel.ObjInv, MarkModel.Owed, MarkModel.StackWords, MarkModel.BlocksFrom,
           MarkModel.WellFormed, MarkModel.Locate, MarkModel.EntryOk, Skipped;
      var q, i := p, Locate(h, p);
      SkippedNone(p);
      while i < |h.blocks| && h.blocks[i].kind != Uncollectable
        invariant p <= q && i == Locate(h, q) && Skipped(p, q)
        decreases |BlocksFrom(h, q)|
        modifies {}
      {
        SkipBlock(p, q, i);
        q := h.blocks[i].start + h.blocks[i].size;
        i := Locate(h, q);
      }
      LocateSkips(q);
      if i == |h.blocks| {
        ScanDone(p, q);
        return 0;
      }
      SkippedTo(p, q, i);
      next := PushBlock(p, i);
    }

    // ----- Roots -----

    /** GC_push_all of a range of static data: its words become pending; nothing is marked yet. */
    method PushRange(r: RootRange)
      requires Holds(RootsPushed, 0, {}) && RootTargets(h) <= seeds && r in h.roots && |stack| < limit
      modifies this`stack, this`duty
      ensures Holds(RootsPushed, 0, {}) && duty == old(duty) + Positions(h, RootEntry(r)) && |stack| <= old(|stack|) + 1
      ensures stack == if r.n == 0 then old(stack) else old(stack) + [RootEntry(r)]
    {
      hide MarkModel.Exact, MarkModel.ObjInv, MarkModel.Owed, MarkModel.StackWords, MarkModel.Positions;
      var e := Entry(r.start, Length(r.n));
      if r.n == 0 {
        NoWords(e);
        assert old(duty) + {} == old(duty);
        return;
      }
      ghost var before, d := stack, duty;
      stack := stack + [e];
      duty := duty + Positions(h, e);
      PushedRange(before, d, r);
    }

    lemma PushedRange(before: seq<Entry>, d: set<nat>, r: RootRange)
      requires Shape() && RootTargets(h) <= seeds && r in h.roots && stack == before + [RootEntry(r)]
      requires duty == d + Positions(h, RootEntry(r))
      requires Exact(h, seeds, marked, StackWords(h, before) + {})
      requires state != Invalid ==>
        ObjInv(h, RootsPushed, 0, marked, StackWords(h, before) + {}) && Owed(h, marked, StackWords(h, before) + {}, d)
      ensures Holds(RootsPushed, 0, {})
    {
      hide MarkModel.StackWords, MarkModel.Reach, MarkModel.Positions;
      StackPush(h, before, RootEntry(r));
      RangeReachable(r);
    }

    lemma NoWords(e: Entry)
      requires WellFormed(h) && e.descr == Length(0)
      ensures Positions(h, e) == {}
    {
    }

    lemma RangeReachable(r: RootRange)
      requires WellFormed(h) && RootTargets(h) <= seeds && r in h.roots
      ensures forall q | q in Positions(h, RootEntry(r)) && Target(h, q).Some? :: Reach(h, seeds, Target(h, q).value)
    {
      forall q | q in Positions(h, RootEntry(r)) && Target(h, q).Some? ensures Reach(h, seeds, Target(h, q).value) {
        assert q in StaticWords(h);
        ReachSeed(h, seeds, Target(h, q).value);
      }
    }

    /** GC_push_roots: push all static data, or only what is dirty, as it is; then mark and push from thread stacks. */
    method PushRoots(all: bool)
      requires Holds(RootsPushed, 0, {}) && RootTargets(h) <= seeds && |stack| + |h.roots| <= limit
      requires all || CleanWords(h) <= duty
      modifies this`marked, this`state, this`tooSmall, this`stack, this`duty
      ensures Holds(RootsPushed, 0, {}) && old(marked) <= marked
      ensures QuietWords(h) <= duty && StackFine(h, marked, h.stackWords)
      ensures state == old(state) || state == Invalid
      ensures marked == old(marked) ==> state == old(state)
      ensures Earned(old(Now()).(height := old(|stack|) + |h.roots|), Now(), limit)
    {
      hide MarkModel.QuietWords, MarkModel.CleanWords, MarkModel.Reach, MarkModel.RootTargets, MarkModel.StackFine,
           Holds, Earned, Pushes;
      PushStatic(all);
      ghost var start := old(Now()).(height := old(|stack|) + |h.roots|);
      EarnedSelf(Now(), limit);
      EarnedLower(start, Now(), Now(), limit);
      NoneFineYet();
      var k := 0;
      while k < |h.stackWords|
        invariant k <= |h.stackWords|
        invariant Holds(RootsPushed, 0, {}) && old(marked) <= marked
        invariant QuietWords(h) <= duty && StackFine(h, marked, h.stackWords[..k])
        invariant state == old(state) || state == Invalid
        invariant marked == old(marked) ==> state == old(state)
        invariant Earned(start, Now(), limit)
      {
        ghost var m, was := marked, Now();
        EarnedSelf(was, limit);
        var v := h.stackWords[k];
        if Plausible(v) {
          StackWordReachable(v);
          PushContents(v, RootsPushed, 0, {});
        }
        EarnedTrans(start, was, Now(), limit);
        NowFine(k, m);
        k := k + 1;
      }
      assert h.stackWords[..k] == h.stackWords;
    }

    lemma StackWordReachable(v: nat)
      requires WellFormed(h) && RootTargets(h) <= seeds && v in h.stackWords
      ensures Resolve(h, v).Some? ==> Reach(h, seeds, Resolve(h, v).value)
    {
      if Resolve(h, v).Some? {
        assert Resolve(h, v).value in RootTargets(h);
        ReachSeed(h, seeds, Resolve(h, v).value);
      }
    }

    lemma NoneFineYet()
      requires Holds(RootsPushed, 0, {})
      ensures WellFormed(h) && StackFine(h, marked, h.stackWords[..0])
    {
    }

    lemma NowFine(k: nat, m: set<nat>)
      requires WellFormed(h) && k < |h.stackWords| && StackFine(h, m, h.stackWords[..k]) && m <= marked
      requires Plausible(h.stackWords[k]) && Resolve(h, h.stackWords[k]).Some? ==>
        Resolve(h, h.stackWords[k]).value in marked
      ensures StackFine(h, marked, h.stackWords[..k + 1])
    {
      assert h.stackWords[..k + 1] == h.stackWords[..k] + [h.stackWords[k]];
    }

    /** The loop over the root sets in GC_push_roots. */
    method PushStatic(all: bool)
      requires Holds(RootsPushed, 0, {}) && RootTargets(h) <= seeds && |stack| + |h.roots| <= limit
      requires all || CleanWords(h) <= duty
      modifies this`stack, this`duty
      ensures Holds(RootsPushed, 0, {}) && QuietWords(h) <= duty
      ensures |stack| <= old(|stack|) + |h.roots| && stack == old(stack) + StaticEntries(h.roots, all)
    {
      hide MarkModel.Exact, MarkModel.ObjInv, MarkModel.StackWords, MarkModel.Reach, MarkModel.Positions,
           StaticEntries;
      assert StaticEntries([], all) == [] by { NoRanges(all); }
      var k := 0;
      while k < |h.roots|
        invariant k <= |h.roots| && |stack| <= old(|stack|) + k
        invariant stack == old(stack) + StaticEntries(h.roots[..k], all)
        invariant Holds(RootsPushed, 0, {}) && old(duty) <= duty
        invariant forall r | r in h.roots[..k] && !r.written :: Positions(h, RootEntry(r)) <= duty
      {
        var r := h.roots[k];
        if all || r.dirty {
          PushRange(r);
        } else if !r.written {
          assert Positions(h, RootEntry(r)) <= CleanWords(h);
        }
        NextRange(h.roots, k, all);
        k := k + 1;
      }
      assert h.roots[..k] == h.roots;
    }

    static lemma NoRanges(all: bool)
      ensures StaticEntries([], all) == []
    {
    }

    static lemma NextRange(roots: seq<RootRange>, k: nat, all: bool)
      requires k < |roots|
      ensures roots[..k + 1] == roots[..k] + [roots[k]]
      ensures StaticEntries(roots[..k + 1], all) == StaticEntries(roots[..k], all)
        + (if (all || roots[k].dirty) && roots[k].n != 0 then [RootEntry(roots[k])] else [])
    {
      assert roots[..k + 1][..k] == roots[..k];
    }

    /** The entries for static data: for all ranges or for those that are dirty, empty ones left out. */
    static function StaticEntries(roots: seq<RootRange>, all: bool): seq<Entry> {
      if roots == [] then []
      else
        var n := |roots| - 1;
        StaticEntries(roots[..n], all)
        + (if (all || roots[n].dirty) && roots[n].n != 0 then [RootEntry(roots[n])] else [])
    }

    /** alloc_mark_stack: room for n entries if memory allows; the old stack is kept otherwise. */
    method AllocMarkStack(n: nat, canGrow: bool)
      requires Shape() && stack == [] && limit <= n
      modifies this`limit, this`stack, this`tooSmall
      ensures Shape() && stack == [] && !tooSmall && limit == if canGrow then n else old(limit)
    {
      tooSmall := false;
      if canGrow {
        limit := n;
      }
      stack := [];
    }

    // ----- The state machine -----

    /** One unit of progress since a state given by its measure. */
    ghost predicate Smaller(unmarked: nat, phase: nat, blocks: nat, bytes: nat)
      reads this
    {
      || Unmarked(marked) < unmarked
      || (Unmarked(marked) == unmarked && Phase() < phase)
      || (Unmarked(marked) == unmarked && Phase() == phase && BlocksLeft() < blocks)
      || (Unmarked(marked) == unmarked && Phase() == phase && BlocksLeft() == blocks && BytesOnStack() < bytes)
    }

    /** GC_mark_from_mark_stack, within any state of the machine. */
    method MarkFromMarkStack()
      requires Valid() && stack != [] && (state == Invalid ==> objectsAreMarked)
      modifies this`marked, this`state, this`tooSmall, this`objectsAreMarked, this`stack
      ensures Valid() && old(marked) <= marked && state != MsNone && objectsAreMarked
      ensures Earned(old(Now()), Now(), limit)
      ensures Smaller(old(Unmarked(marked)), old(Phase()), old(BlocksLeft()), old(BytesOnStack()))
    {
      hide MarkModel.Exact, MarkModel.ObjInv, MarkModel.Owed, MarkModel.StackWords, MarkModel.StackWork,
           MarkModel.WellFormed, MarkModel.EntryOk;
      hide OnlyUncollectableMarked, Unmarked;
      ghost var st, m := state, marked;
      ghost var spent, last := MarkFrom(state, scan);
      if marked != m {
        FewerUnmarked(m);
      }
      StackStaysFine(m);
    }

    lemma FewerUnmarked(m: set<nat>)
      requires m < marked <= h.home.Keys
      ensures Unmarked(marked) < Unmarked(m)
    {
      assert h.home.Keys - marked < h.home.Keys - m;
      SubsetSmaller(h.home.Keys - marked, h.home.Keys - m);
    }

    lemma StackStaysFine(m: set<nat>)
      requires m <= marked
      ensures StackFine(h, m, h.stackWords) ==> StackFine(h, marked, h.stackWords)
    {
    }

    /** The end of every heap scan in GC_mark_some: push the roots and, unless that overflowed, go on to RootsPushed. */
    method PushRootsAndAdvance(all: bool)
      requires Holds(RootsPushed, 0, {}) && RootTargets(h) <= seeds
      requires scan == 0 && state != MsNone && state != Invalid
      requires |stack| + |h.roots| <= limit && (all || CleanWords(h) <= duty) && (still ==> NoneWritten(h))
      modifies this`marked, this`state, this`tooSmall, this`objectsAreMarked, this`stack, this`duty
      ensures Valid() && old(marked) <= marked && objectsAreMarked
      ensures state == RootsPushed || state == Invalid
      ensures if marked == old(marked) then state == RootsPushed else Unmarked(marked) < old(Unmarked(marked))
      ensures state == Invalid ==> tooSmall && limit + old(|marked|) < old(|stack|) + |h.roots| + |marked|
      ensures state != Invalid ==> tooSmall == old(tooSmall)
    {
      hide MarkModel.Exact, MarkModel.ObjInv, MarkModel.Owed, MarkModel.StackWords, MarkModel.StackWork,
           MarkModel.WellFormed, MarkModel.EntryOk, MarkModel.StackFine, MarkModel.RootTargets, MarkModel.QuietWords,
           MarkModel.CleanWords, Unmarked, Valid, Holds, Keeps;
      ghost var m := marked;
      PushRoots(all);
      ghost var pend := StackWords(h, stack) + {};
      HoldsIs(RootsPushed, 0, pend);
      if marked != m {
        FewerUnmarked(m);
      }
      objectsAreMarked := true;
      if state != Invalid {
        state := RootsPushed;
      }
      AllPushed(pend);
    }

    /** Everything the invariant asks for once the roots have been pushed. */
    lemma AllPushed(pend: set<nat>)
      requires Shape() && pend == StackWords(h, stack) + {} && Exact(h, seeds, marked, pend)
      requires state == Invalid || (state == RootsPushed && Keeps(RootsPushed, 0, pend))
      requires RootTargets(h) <= seeds && (still ==> NoneWritten(h)) && scan == 0 && objectsAreMarked
      requires QuietWords(h) <= duty && StackFine(h, marked, h.stackWords)
      ensures Valid()
    {
      hide MarkModel.Exact, MarkModel.QuietWords, MarkModel.StackFine, MarkModel.RootTargets, MarkModel.WellFormed,
           Keeps;
    }

    /** What the invariant says on entering a state whose scan has not begun, or after the last one. */
    lemma EnterState(st: MarkState, at: nat, st': MarkState)
      requires Shape() && (state == st' || state == MsNone)
      requires Exact(h, seeds, marked, StackWords(h, stack) + {})
      requires st == RootsPushed ==> Keeps(st, at, StackWords(h, stack) + {})
      requires match st' {
        case MsNone => st == RootsPushed
        case PushUncollectable => at == 0 && OnlyUncollectableMarked() && duty == {}
        case PartiallyInvalid => at == 0 && duty == {}
        case _ => false }
      ensures Holds(st', at, {})
    {
    }

    /** There is room for the static data whenever it is pushed. */
    lemma RootsFit()
      requires Shape()
      ensures |h.roots| <= INITIAL_MARK_STACK_SIZE / 2 <= limit / 2
    {
    }

    /** The MS_PUSH_RESCUERS arm of GC_mark_some. */
    method RescueStep()
      requires Valid() && state == PushRescuers
      modifies this`marked, this`state, this`scan, this`objectsAreMarked, this`stack, this`limit, this`tooSmall
      modifies this`duty
      ensures Valid() && old(marked) <= marked
      ensures state != MsNone
      ensures Smaller(old(Unmarked(marked)), old(Phase()), old(BlocksLeft()), old(BytesOnStack()))
      // A stack that is nearly full is drained first; otherwise the scan goes on.
      ensures if old(|stack|) - 1 >= limit - 2048 then tooSmall && scan == old(scan) && state != RootsPushed
              else scan != old(scan) || state != PushRescuers
      ensures limit == old(limit)
      ensures old(|stack|) - 1 < limit - 2048 ==> Lost(old(state), old(|marked|), old(|stack|), old(tooSmall))
      ensures state == Invalid ==> limit + old(|marked|) < old(|stack|) + |h.roots| + |marked|
    {
      hide MarkModel.Exact, MarkModel.ObjInv, MarkModel.Owed, MarkModel.StackWords, MarkModel.StackWork,
           MarkModel.WellFormed, MarkModel.EntryOk, MarkModel.StackFine, MarkModel.RootTargets, MarkModel.QuietWords,
           MarkModel.CleanWords, MarkModel.BlocksFrom, Unmarked;
      if |stack| - 1 >= limit - INITIAL_MARK_STACK_SIZE / 2 {
        tooSmall := true;
        MarkFromMarkStack();
      } else {
        scan := PushNextMarkedDirty(scan);
        if scan == 0 {
          RootsFit();
          PushRootsAndAdvance(false);
        }
      }
    }

    /** The MS_PUSH_UNCOLLECTABLE arm of GC_mark_some. */
    method UncollectableStep()
      requires Valid() && state == PushUncollectable
      modifies this`marked, this`state, this`scan, this`objectsAreMarked, this`stack, this`limit, this`tooSmall
      modifies this`duty
      ensures Valid() && old(marked) <= marked
      ensures state != MsNone
      ensures Smaller(old(Unmarked(marked)), old(Phase()), old(BlocksLeft()), old(BytesOnStack()))
      ensures if old(|stack|) - 1 >= limit / 4 then scan == old(scan) && state != RootsPushed
              else scan != old(scan) || state != PushUncollectable
      ensures limit == old(limit)
      ensures Lost(old(state), old(|marked|), old(|stack|), old(tooSmall))
    {
      hide MarkModel.Exact, MarkModel.ObjInv, MarkModel.Owed, MarkModel.StackWords, MarkModel.StackWork,
           MarkModel.WellFormed, MarkModel.EntryOk, MarkModel.StackFine, MarkModel.RootTargets, MarkModel.QuietWords,
           MarkModel.CleanWords, MarkModel.BlocksFrom, Unmarked;
      if |stack| - 1 >= limit / 4 {
        MarkFromMarkStack();
      } else {
        scan := PushNextMarkedUncollectable(scan);
        if scan == 0 {
          RootsFit();
          PushRootsAndAdvance(true);
        }
      }
    }

    /** The MS_ROOTS_PUSHED arm of GC_mark_some; the cycle is over once the stack is empty. */
    method DrainStep(canGrow: bool) returns (done: bool)
      requires Valid() && state == RootsPushed
      modifies this`marked, this`state, this`scan, this`objectsAreMarked, this`stack, this`limit, this`tooSmall
      modifies this`duty
      ensures Valid() && old(marked) <= marked
      ensures done <==> state == MsNone
      ensures Smaller(old(Unmarked(marked)), old(Phase()), old(BlocksLeft()), old(BytesOnStack()))
      ensures limit == if canGrow && old(tooSmall) && old(stack) == [] then 2 * old(limit) else old(limit)
      ensures old(stack) == [] ==> !tooSmall && marked == old(marked)
      ensures state == Invalid ==> Lost(old(state), old(|marked|), old(|stack|), old(tooSmall))
    {
      hide MarkModel.Exact, MarkModel.ObjInv, MarkModel.Owed, MarkModel.StackWords, MarkModel.StackWork,
           MarkModel.WellFormed, MarkModel.EntryOk, MarkModel.StackFine, MarkModel.RootTargets, MarkModel.QuietWords,
           MarkModel.CleanWords, MarkModel.BlocksFrom, Unmarked;
      if stack != [] {
        MarkFromMarkStack();
        done := false;
      } else {
        state := MsNone;
        EnterState(RootsPushed, scan, MsNone);
        if tooSmall {
          AllocMarkStack(2 * limit, canGrow);
        }
        done := true;
      }
    }

    /** The MS_INVALID and MS_PARTIALLY_INVALID arm of GC_mark_some. */
    method HeapScanStep(canGrow: bool)
      requires Valid() && (state == Invalid || state == PartiallyInvalid)
      modifies this`marked, this`state, this`scan, this`objectsAreMarked, this`stack, this`limit, this`tooSmall
      modifies this`duty
      ensures Valid() && old(marked) <= marked
      ensures state != MsNone
      ensures Smaller(old(Unmarked(marked)), old(Phase()), old(BlocksLeft()), old(BytesOnStack()))
      ensures limit == if canGrow && old(tooSmall) && old(stack) == [] && old(state) == Invalid && old(scan) == 0 &&
          old(objectsAreMarked)
                       then 2 * old(limit) else old(limit)
      ensures state == Invalid && old(state) != Invalid ==>
        tooSmall && limit + old(|marked|) < old(|stack|) + |h.roots| + |marked|
      ensures old(state) == PartiallyInvalid && state != Invalid ==> tooSmall == old(tooSmall)
    {
      hide MarkModel.Exact, MarkModel.ObjInv, MarkModel.Owed, MarkModel.StackWords, MarkModel.StackWork,
           MarkModel.WellFormed, MarkModel.EntryOk, MarkModel.StackFine, MarkModel.RootTargets, MarkModel.QuietWords,
           MarkModel.CleanWords, MarkModel.BlocksFrom, Unmarked;
      if !objectsAreMarked {
        state := PushUncollectable;
        duty := {};
        EnterState(Invalid, scan, PushUncollectable);
      } else if stack != [] {
        MarkFromMarkStack();
      } else {
        RescanStep(canGrow);
      }
    }

    /** The scan of the whole heap for marked objects, with an empty stack. */
    method RescanStep(canGrow: bool)
      requires Valid() && (state == Invalid || state == PartiallyInvalid) && objectsAreMarked && stack == []
      modifies this`marked, this`state, this`scan, this`objectsAreMarked, this`stack, this`limit, this`tooSmall
      modifies this`duty
      ensures Valid() && old(marked) <= marked
      ensures state != MsNone
      ensures Smaller(old(Unmarked(marked)), old(Phase()), old(BlocksLeft()), old(BytesOnStack()))
      ensures limit == if canGrow && old(tooSmall) && old(stack) == [] && old(state) == Invalid && old(scan) == 0 &&
          old(objectsAreMarked)
                       then 2 * old(limit) else old(limit)
      ensures state == Invalid && old(state) != Invalid ==> tooSmall && limit + old(|marked|) < |h.roots| + |marked|
      ensures old(state) == PartiallyInvalid && state != Invalid ==> tooSmall == old(tooSmall)
    {
      hide MarkModel.Exact, MarkModel.ObjInv, MarkModel.Owed, MarkModel.StackWords, MarkModel.StackWork,
           MarkModel.WellFormed, MarkModel.EntryOk, MarkModel.StackFine, MarkModel.RootTargets, MarkModel.QuietWords,
           MarkModel.CleanWords, MarkModel.BlocksFrom, Unmarked;
      if scan == 0 && state == Invalid {
        if tooSmall {
          AllocMarkStack(2 * limit, canGrow);
        }
        state := PartiallyInvalid;
        duty := {};
        EnterState(Invalid, scan, PartiallyInvalid);
      }
      RescanBlock();
    }

    /** One block of it; after the last one the roots are pushed. */
    method RescanBlock()
      requires Holds(state, scan, {}) && RootTargets(h) <= seeds && (still ==> NoneWritten(h)) && objectsAreMarked
      requires stack == []
      requires state == PartiallyInvalid || (state == Invalid && scan != 0)
      modifies this`marked, this`state, this`scan, this`objectsAreMarked, this`stack, this`tooSmall, this`duty
      ensures Valid() && old(marked) <= marked && state != MsNone && objectsAreMarked
      ensures
        || Unmarked(marked) < old(Unmarked(marked))
        || (marked == old(marked) && if scan == 0 then (if old(state) == Invalid then state == Invalid else state == RootsPushed)
                                     else state == old(state) && BlocksLeft() < old(BlocksLeft()))
      ensures Lost(old(state), old(|marked|), 0, old(tooSmall))
    {
      hide MarkModel.Exact, MarkModel.ObjInv, MarkModel.Owed, MarkModel.StackWords, MarkModel.StackWork,
           MarkModel.WellFormed, MarkModel.EntryOk, MarkModel.StackFine, MarkModel.RootTargets, MarkModel.QuietWords,
           MarkModel.CleanWords, MarkModel.BlocksFrom, Unmarked;
      scan := PushNextMarked(scan);
      if scan == 0 && state == PartiallyInvalid {
        RootsFit();
        PushRootsAndAdvance(true);
      }
    }

    /** The state is lost only if what is marked and pushed did not fit on the stack, and the stack is known to be too
        small then. The other way round, it is taken to be too small for no other reason. */
    ghost predicate Lost(st: MarkState, marks: nat, height: nat, small: bool)
      reads this`state, this`marked, this`limit, this`tooSmall, this`h
    {
      if state == Invalid && st != Invalid then tooSmall && limit + marks < height + |h.roots| + |marked| else tooSmall == small
    }

    /** GC_mark_some: do a little marking; true when a mark phase has just been completed. */
    method MarkSome(canGrow: bool) returns (done: bool)
      requires Valid()
      modifies this`marked, this`state, this`scan, this`objectsAreMarked, this`stack, this`limit, this`tooSmall
      modifies this`duty
      ensures Valid() && old(marked) <= marked
      ensures done ==> old(state) == RootsPushed && state == MsNone
      ensures old(state) != MsNone && !done ==>
        state != MsNone && Smaller(old(Unmarked(marked)), old(Phase()), old(BlocksLeft()), old(BytesOnStack()))
      // Only an overflow makes the state invalid, and then the stack grows as soon as it is empty, if there is memory.
      ensures state == Invalid && old(state) != Invalid ==>
        tooSmall && limit + old(|marked|) < old(|stack|) + |h.roots| + |marked|
      ensures limit == if canGrow && old(tooSmall) && old(stack) == [] && (old(state) == RootsPushed ||
                          (old(state) == Invalid && old(objectsAreMarked) && old(scan) == 0))
                       then 2 * old(limit) else old(limit)
      ensures state != Invalid && (old(state) == PushUncollectable || old(state) == PartiallyInvalid ||
                                   (old(state) == PushRescuers && old(|stack|) - 1 < limit - 2048)) ==>
        tooSmall == old(tooSmall)
    {
      hide Valid, Smaller;
      done := false;
      match state
      case MsNone =>
      case PushRescuers => RescueStep();
      case PushUncollectable => UncollectableStep();
      case RootsPushed => done := DrainStep(canGrow);
      case _ => HeapScanStep(canGrow);
    }

    // ----- Whole collections -----

    /** GC_invalidate_mark_state. */
    method InvalidateMarkState()
      requires Shape()
      modifies this`state, this`stack
      ensures Shape() && state == Invalid && stack == []
    {
      state := Invalid;
      stack := [];
    }

    /** GC_clear_marks: forget every mark outside uncollectable blocks. */
    method ClearMarks()
      requires Shape() && stack == []
      modifies this`marked, this`state, this`scan, this`objectsAreMarked, this`seeds, this`still
      ensures Valid() && state == Invalid
      ensures forall o :: o in marked <==>
        o in old(marked) && (h.blocks[h.home[o]].kind == Uncollectable || h.blocks[h.home[o]].kind == AUncollectable)
      ensures marked == UncollectableAmong(h, old(marked))
      ensures seeds == marked + RootTargets(h)
    {
      hide MarkModel.RootTargets, MarkModel.WellFormed, MarkModel.EntryOk, MarkModel.DescrOk, Holds, Valid;
      BlockObjects();
      var i := 0;
      while i < |h.blocks|
        invariant i <= |h.blocks|
        invariant marked <= old(marked)
        invariant forall o | o in old(marked) ::
          o in marked <==> i <= h.home[o] || IsUncollectable(h.blocks[h.home[o]].kind)
      {
        if !IsUncollectable(h.blocks[i].kind) {
          marked := marked - (set o | o in h.blocks[i].objs);
        }
        i := i + 1;
      }
      objectsAreMarked := false;
      state := Invalid;
      scan := 0;
      seeds := marked + RootTargets(h);
      still := false;
      FullStarts();
    }

    lemma BlockObjects()
      requires WellFormed(h)
      ensures forall o | o in h.home :: h.home[o] < |h.blocks|
      ensures forall o, i | o in h.home && 0 <= i < |h.blocks| :: o in h.blocks[i].objs <==> h.home[o] == i
    {
    }

    lemma FullStarts()
      requires Shape() && state == Invalid && scan == 0 && stack == [] && !objectsAreMarked && OnlyUncollectableMarked()
      requires seeds == marked + RootTargets(h) && !still
      ensures Valid()
    {
      hide MarkModel.RootTargets, MarkModel.Exact, MarkModel.WellFormed;
      MarkedAreSeeds();
      assert StackWords(h, stack) + {} == {};
    }

    lemma MarkedAreSeeds()
      requires WellFormed(h) && marked <= seeds
      ensures Exact(h, seeds, marked, {})
    {
      forall o | o in marked ensures Reach(h, seeds, o) {
        ReachSeed(h, seeds, o);
      }
    }

    /** GC_read_dirty. */
    method ReadDirty()
      requires Shape()
      modifies this`h, this`still
      ensures Shape() && h == DirtyRead(old(h)) && still && NoneWritten(h)
    {
      DirtyReadOk(h);
      OnlyUnits(h, DirtyRead(h));
      h := DirtyRead(h);
      still := true;
    }

    /** Whether an entry is in order depends on the word size only. */
    static lemma OnlyUnits(h: Heap, h': Heap)
      requires h'.wordUnits == h.wordUnits
      ensures forall e :: EntryOk(h', e) == EntryOk(h, e)
    {
    }

    /** GC_initiate_gc: the heap may have changed since the last cycle, as long as the barrier has seen it. */
    method InitiateGc()
      requires state == MsNone || state == Invalid
      requires if state == MsNone then Shape() && stack == [] && BarrierKept() else Valid()
      modifies this`h, this`still, this`state, this`scan, this`seeds, this`duty
      ensures Valid() && scan == 0 && still && h == DirtyRead(old(h))
      ensures old(state) == Invalid ==> state == Invalid && seeds == old(seeds)
      ensures old(state) == MsNone ==> state == PushRescuers && seeds == marked + RootTargets(h)
    {
      hide MarkModel.RootTargets, MarkModel.QuietWords, MarkModel.CleanWords, MarkModel.Exact, MarkModel.WellFormed,
           MarkModel.Positions;
      hide MarkModel.DirtyRead, MarkModel.StackWords, MarkModel.Barrier;
      ghost var h0 := h;
      ReadDirty();
      if state == MsNone {
        state := PushRescuers;
        seeds := marked + RootTargets(h);
        duty := CleanWords(h);
        scan := 0;
        RescueStarts(h0);
      } else {
        FullGoesOn(h0);
        scan := 0;
      }
    }

    /** Before the scan for dirty blocks has begun, clean blocks and clean static data are in scope. */
    lemma RescueStarts(h0: Heap)
      requires Shape() && state == PushRescuers && scan == 0 && stack == [] && WellFormed(h0) && h == DirtyRead(h0)
      requires Barrier(h0, marked) && duty == CleanWords(h) && seeds == marked + RootTargets(h)
      ensures Valid()
    {
      hide MarkModel.RootTargets, MarkModel.CleanWords, MarkModel.QuietWords, MarkModel.Exact, MarkModel.ObjInv,
           MarkModel.Owed, MarkModel.DirtyRead, MarkModel.Barrier, MarkModel.WellFormed;
      MarkedAreSeeds();
      DirtyReadOk(h0);
      BarrierRead(h0, marked);
      assert StackWords(h, stack) + {} == {};
    }

    /** A full collection has nothing to do with dirty bits. */
    lemma FullGoesOn(h0: Heap)
      requires Shape() && state == Invalid && WellFormed(h0) && h == DirtyRead(h0) && NoneWritten(h)
      requires marked <= h0.home.Keys
      requires Exact(h0, seeds, marked, StackWords(h0, stack) + {}) && RootTargets(h0) <= seeds
      requires !objectsAreMarked ==> forall o | o in marked :: IsUncollectable(h0.blocks[h0.home[o]].kind)
      ensures Holds(Invalid, 0, {}) && RootTargets(h) <= seeds && (!objectsAreMarked ==> OnlyUncollectableMarked())
    {
      hide MarkModel.RootTargets, MarkModel.QuietWords, MarkModel.CleanWords, MarkModel.StackWords,
           MarkModel.Positions, MarkModel.Reach;
      DirtyReadOk(h0);
      DirtyReadSame(h0, stack);
      forall o ensures Reach(h, seeds, o) <==> Reach(h0, seeds, o) {
        DirtyReadReach(h0, seeds, o);
      }
    }

    /** Every pointer from a marked to an unmarked object lies in a block or in static data that has been written to,
        or on a stack. */
    ghost predicate BarrierKept()
      reads this
      requires WellFormed(h) && marked <= h.home.Keys
    {
      Barrier(h, marked)
    }

    /** The loop of GC_stopped_mark: unless it is told to stop it ends, and then exactly the reachable objects are
        marked. */
    method MarkUntil(ghost kept: set<nat>, stop: nat -> bool, canGrow: bool) returns (done: bool, polls: nat)
      requires Valid() && still && state != MsNone && kept <= marked && seeds == kept + RootTargets(h)
      modifies this`marked, this`state, this`scan, this`objectsAreMarked, this`stack, this`limit, this`tooSmall
      modifies this`duty
      ensures Valid() && old(marked) <= marked && (done <==> state == MsNone)
      ensures done ==> forall o :: o in marked <==> Reach(h, kept + RootTargets(h), o)
      ensures (forall i | 0 <= i < polls :: !stop(i)) && (!done ==> stop(polls))
    {
      hide MarkModel.Reach, MarkModel.RootTargets, Valid, Phase, BlocksLeft, BytesOnStack, Unmarked;
      done, polls := false, 0;
      while !done
        invariant Valid() && old(marked) <= marked
        invariant forall i | 0 <= i < polls :: !stop(i)
        invariant if done then state == MsNone else state != MsNone
        decreases !done, Unmarked(marked), Phase(), BlocksLeft(), BytesOnStack()
      {
        if stop(polls) {
          return;
        }
        done := MarkSome(canGrow);
        polls := polls + 1;
      }
      AllMarked(kept);
    }

    lemma AllMarked(kept: set<nat>)
      requires Valid() && still && state == MsNone && kept <= marked && seeds == kept + RootTargets(h)
      ensures forall o :: o in marked <==> Reach(h, kept + RootTargets(h), o)
    {
      hide MarkModel.Reach, MarkModel.RootTargets, MarkModel.WellFormed, MarkModel.Exact, MarkModel.ObjInv,
           MarkModel.Owed;
      assert StackWords(h, stack) + {} == {};
      NoneIsClosed();
      MarksAreReachable(h, kept, marked);
    }

    /** After a collection with the world stopped no pointer leads from a marked to an unmarked object. */
    lemma NoneIsClosed()
      requires Valid() && state == MsNone && still
      ensures ObjInv(h, RootsPushed, 0, marked, {}) && Owed(h, marked, {}, StaticWords(h))
      ensures StackFine(h, marked, h.stackWords)
      ensures NoneWritten(h)
    {
      hide MarkModel.Positions;
      assert StackWords(h, stack) + {} == {};
      assert StaticWords(h) == QuietWords(h);
      assert forall o | o in marked && InScope(h, RootsPushed, 0, o) :: InScope(h, MsNone, scan, o);
    }

    /** GC_stopped_mark: mark with the world stopped; false if that was abandoned, and then it can be gone on with. */
    method StoppedMark(stop: nat -> bool, canGrow: bool) returns (done: bool, polls: nat)
      requires state == MsNone || state == Invalid
      requires if state == MsNone then Shape() && stack == [] && BarrierKept()
        else Valid() && seeds == marked + RootTargets(h)
      modifies this
      ensures Valid() && still && h == DirtyRead(old(h)) && old(marked) <= marked && (done <==> state == MsNone)
      ensures done ==> forall o :: o in marked <==> Reach(h, old(marked) + RootTargets(h), o)
      ensures (forall i | 0 <= i < polls :: !stop(i)) && (!done ==> stop(polls))
    {
      hide MarkModel.Exact, MarkModel.StackWords, MarkModel.Reach, MarkModel.WellFormed, MarkModel.DirtyRead,
           MarkModel.RootTargets, Valid;
      SameRoots();
      InitiateGc();
      done, polls := MarkUntil(marked, stop, canGrow);
    }

    lemma SameRoots()
      ensures RootTargets(DirtyRead(h)) == RootTargets(h)
    {
      DirtyReadSame(h, []);
    }

    /** A full collection's mark phase, whatever state an earlier one was left in. */
    method FullMark(canGrow: bool)
      requires Shape()
      modifies this
      ensures Valid() && state == MsNone && still && h == DirtyRead(old(h))
      ensures forall o :: o in marked <==>
        Reach(h, UncollectableAmong(old(h), old(marked)) + RootTargets(h), o)
      // Uncollectable objects of both kinds stay marked, reachable or not.
      ensures forall o | o in UncollectableAmong(old(h), old(marked)) :: o in marked
    {
      hide MarkModel.Exact, MarkModel.StackWords, MarkModel.Reach, MarkModel.WellFormed, MarkModel.DirtyRead,
           MarkModel.RootTargets, Valid;
      InvalidateMarkState();
      ClearMarks();
      var done, polls := StoppedMark(i => false, canGrow);
    }

    /** The finish of an incremental cycle: marks of the earlier cycle are kept. */
    method IncrementalFinish(canGrow: bool)
      requires Shape() && state == MsNone && stack == [] && BarrierKept()
      modifies this
      ensures Valid() && state == MsNone && still && old(marked) <= marked && h == DirtyRead(old(h))
      ensures forall o :: o in marked <==> Reach(h, old(marked) + RootTargets(h), o)
    {
      hide MarkModel.Reach, MarkModel.DirtyRead, MarkModel.RootTargets, MarkModel.Barrier, Valid;
      var done, polls := StoppedMark(i => false, canGrow);
    }

    // ----- Collections while the program runs -----

    /** The program runs for a while, in whatever state the collector is. */
    method Mutate(heap: Heap)
      requires Valid() && Writes(h, heap, marked, stack)
      modifies this`h, this`seeds, this`duty, this`still
      ensures Valid() && h == heap
    {
      hide MarkModel.Writes, MarkModel.Exact, MarkModel.WellFormed, MarkModel.RootTargets, MarkModel.QuietWords;
      ghost var h0, d0 := h, duty;
      h := heap;
      seeds := marked + RootTargets(h) + Targets(h, StackWords(h, stack));
      duty := duty * QuietWords(h);
      still := false;
      AfterWrites(h0, d0);
    }

    lemma AfterWrites(h0: Heap, d0: set<nat>)
      requires WellFormed(h0) && marked <= h0.home.Keys && Writes(h0, h, marked, stack)
      requires duty == d0 * QuietWords(h) && !still
      requires INITIAL_MARK_STACK_SIZE <= limit && |stack| <= limit && forall e | e in stack :: EntryOk(h0, e)
      requires seeds == marked + RootTargets(h) + Targets(h, StackWords(h, stack))
      requires state != Invalid ==>
        ObjInv(h0, state, scan, marked, StackWords(h0, stack) + {}) && Owed(h0, marked, StackWords(h0, stack) + {}, d0)
      requires state == MsNone || state == RootsPushed ==> QuietWords(h0) <= d0
      requires state == PushRescuers ==> CleanWords(h0) <= d0
      ensures Holds(state, scan, {}) && RootTargets(h) <= seeds
      ensures state == MsNone || state == RootsPushed ==> QuietWords(h) <= duty
      ensures state == PushRescuers ==> CleanWords(h) <= duty
      ensures (forall o | o in marked :: IsUncollectable(h0.blocks[h0.home[o]].kind)) ==> OnlyUncollectableMarked()
    {
      hide MarkModel.StackWords, MarkModel.Positions, MarkModel.QuietWords, MarkModel.CleanWords,
           MarkModel.RootTargets, MarkModel.Reach;
      OnlyUnits(h0, h);
      WritesKeep(h0, h, state, scan, marked, stack, d0, duty);
      assert StackWords(h0, stack) + {} == StackWords(h0, stack);
      assert StackWords(h, stack) + {} == StackWords(h, stack);
      CleanIsQuiet();
      forall o | o in seeds ensures Reach(h, seeds, o) {
        ReachSeed(h, seeds, o);
      }
    }

    lemma CleanIsQuiet()
      ensures CleanWords(h) <= QuietWords(h)
    {
    }

    /** Between collections the barrier is kept, and so another one can start. */
    lemma ReadyAgain()
      requires Valid() && state == MsNone
      ensures Shape() && stack == [] && BarrierKept()
    {
      hide MarkModel.Positions, MarkModel.QuietWords;
      assert StackWords(h, stack) + {} == {};
      forall o | o in marked && !h.blocks[h.home[o]].written ensures Covered(h, marked, {}, o) {
        assert InScope(h, MsNone, scan, o);
      }
    }

    /** One more incremental collection, after the program has run for a while. */
    method NextCycle(heap: Heap, canGrow: bool)
      requires Valid() && state == MsNone && Writes(h, heap, marked, stack)
      modifies this
      ensures Valid() && state == MsNone && old(marked) <= marked && h == DirtyRead(heap)
      ensures forall o :: o in marked <==> Reach(h, old(marked) + RootTargets(h), o)
    {
      hide MarkModel.Writes, MarkModel.Barrier, MarkModel.DirtyRead, MarkModel.RootTargets, Valid;
      Mutate(heap);
      ReadyAgain();
      IncrementalFinish(canGrow);
    }

    /** A program whose writes set the dirty bits, whenever it runs and whatever the collector has done so far. */
    static ghost predicate Honest(program: (nat, Heap, set<nat>, seq<Entry>) -> Heap) {
      forall k: nat, heap: Heap, m: set<nat>, s: seq<Entry> | WellFormed(heap) && m <= heap.home.Keys ::
        Writes(heap, program(k, heap, m, s), m, s)
    }

    /** GC_collect_a_little, with a collection in progress: mark a little at a time while the program runs in between,
        and finish with the world stopped. If that is not abandoned, exactly what roots and earlier marks reach is
        marked. */
    method CollectALittle(budget: nat, program: (nat, Heap, set<nat>, seq<Entry>) -> Heap, stop: nat -> bool,
                          canGrow: bool)
      returns (done: bool, finish: bool, calls: nat, ghost kept: set<nat>)
      requires Valid() && state != MsNone && Honest(program)
      modifies this
      ensures Valid() && (done <==> state == MsNone) && old(marked) <= kept <= marked
      ensures done ==> still && forall o :: o in marked <==> Reach(h, kept + RootTargets(h), o)
      // Unless a finish is due before, it marks as often as the budget says.
      ensures calls <= budget && (done ==> finish) && (!finish ==> calls == budget)
    {
      hide MarkModel.Reach, MarkModel.DirtyRead, MarkModel.RootTargets, MarkModel.Barrier, MarkModel.Writes, Valid,
           Honest;
      done, finish, calls := false, false, 0;
      while calls < budget
        invariant Valid() && state != MsNone && !done && !finish && old(marked) <= marked && calls <= budget
      {
        Mutate(NextHeap(program, calls));
        finish := MarkSome(canGrow);
        calls := calls + 1;
        if finish {
          Mutate(NextHeap(program, calls));
          ReadyAgain();
          kept := marked;
          var polls;
          done, polls := StoppedMark(stop, canGrow);
          return;
        }
      }
      kept := marked;
    }

    /** What the program makes of the heap. */
    function NextHeap(program: (nat, Heap, set<nat>, seq<Entry>) -> Heap, k: nat): (heap: Heap)
      requires Valid() && Honest(program)
      reads this
      ensures Writes(h, heap, marked, stack)
    {
      program(k, h, marked, stack)
    }
  }
}
