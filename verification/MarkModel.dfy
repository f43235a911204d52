/** The heap as the marker sees it, and the invariants that marking keeps.

    Addresses are counted in units of the pointer alignment, so every candidate
    pointer location is a natural number and a word occupies `wordUnits` of them. */
module MarkModel {
  import opened Collections

  const SPLIT_RANGE_WORDS: nat := 128
  const INITIAL_MARK_STACK_SIZE: nat := 4096
  const MARK_STACK_DISCARDS: nat := 512
  const MAX_OBJS_PER_BLOCK: nat := 512

  /** A mark descriptor: a length, a bitmap of words, a procedure that marks from the words at the given offsets,
      or "look inside the object". */
  datatype Descr = Length(n: nat) | Bitmap(bits: seq<bool>) | Proc(offsets: seq<nat>) | PerObject

  /** A mark stack entry: words of [start, ...) that are still to be considered. */
  datatype Entry = Entry(start: nat, descr: Descr)

  datatype Kind = PtrFree | Normal | Uncollectable | AUncollectable

  predicate IsUncollectable(k: Kind) {
    k == Uncollectable || k == AUncollectable
  }

  /** A heap block; a free one holds no objects. Of the two dirty bits, `written` is set when the program writes to the
      block, and `dirty` is what GC_read_dirty has last found there. */
  datatype Block = Block(start: nat, size: nat, free: bool, kind: Kind, descr: Descr, objs: seq<nat>, dirty: bool, written: bool)

  /** A range of static data. */
  datatype RootRange = RootRange(start: nat, n: nat, dirty: bool, written: bool)

  datatype Heap = Heap(
    wordUnits: nat,
    mem: map<nat, nat>,          // word contents; other locations read as 0
    resolve: map<nat, nat>,      // valid (possibly interior) pointer values to object bases
    leastHa: nat, greatestHa: nat,
    blocks: seq<Block>,          // in ascending address order
    home: map<nat, nat>,         // object base to index of its block
    inObject: map<nat, Descr>,   // descriptors stored in objects
    roots: seq<RootRange>,       // pushed as they are, their contents to be considered later
    stackWords: seq<nat>)        // thread stacks and registers, considered at once

  predicate DescrOk(h: Heap, d: Descr) {
    match d
    case Length(n) => n == 0 || h.wordUnits <= n
    case PerObject => false
    case _ => true
  }

  ghost predicate WellFormed(h: Heap) {
    && 1 <= h.wordUnits
    && (forall v <- h.resolve :: h.leastHa <= v < h.greatestHa && h.resolve[v] in h.home)
    && (forall o <- h.home :: h.home[o] < |h.blocks| && o in h.blocks[h.home[o]].objs)
    && (forall i, o | 0 <= i < |h.blocks| && o in h.blocks[i].objs :: o in h.home && h.home[o] == i)
    && (forall i | 0 <= i < |h.blocks| :: BlockOk(h, h.blocks[i]))
    && (forall i, j | 0 <= i < j < |h.blocks| :: h.blocks[i].start + h.blocks[i].size <= h.blocks[j].start)
    && (forall o <- h.inObject :: DescrOk(h, h.inObject[o]))
    && |h.roots| <= INITIAL_MARK_STACK_SIZE / 2 && (forall r | r in h.roots :: DescrOk(h, Length(r.n)))
  }

  predicate BlockOk(h: Heap, b: Block) {
    && 0 < b.start && 0 < b.size
    && (b.free ==> b.objs == [])
    && |b.objs| <= MAX_OBJS_PER_BLOCK
    && (b.descr.PerObject? || DescrOk(h, b.descr))
    && (b.kind.PtrFree? || b.kind.AUncollectable? ==> b.descr == Length(0))
  }

  function Read(h: Heap, q: nat): nat {
    if q in h.mem then h.mem[q] else 0
  }

  function Resolve(h: Heap, v: nat): Option<nat> {
    if v in h.resolve then Some(h.resolve[v]) else None
  }

  /** The object that the word at q points into, if any. */
  function Target(h: Heap, q: nat): Option<nat> {
    Resolve(h, Read(h, q))
  }

  function Simple(h: Heap, e: Entry): Descr {
    if !e.descr.PerObject? then e.descr
    else if e.start in h.inObject then h.inObject[e.start]
    else Length(0)
  }

  function BitPositions(w: nat, p: nat, bits: seq<bool>): set<nat>
    decreases bits
  {
    if bits == [] then {}
    else (if bits[0] then {p} else {}) + BitPositions(w, p + w, bits[1..])
  }

  function OffsetPositions(p: nat, offsets: seq<nat>): set<nat> {
    set d | d in offsets :: p + d
  }

  /** All locations from lo to hi, both included; empty when hi < lo. */
  function Range(lo: nat, hi: int): (r: set<nat>)
    ensures forall q :: q in r <==> lo <= q <= hi
    decreases hi - lo
  {
    if hi < lo then {} else Range(lo, hi - 1) + {hi}
  }

  /** The locations an entry asks the marker to consider. */
  function Positions(h: Heap, e: Entry): set<nat> {
    match Simple(h, e)
    case Length(n) => Range(e.start, e.start + n - h.wordUnits)
    case Bitmap(bits) => BitPositions(h.wordUnits, e.start, bits)
    case Proc(offsets) => OffsetPositions(e.start, offsets)
    case PerObject => {}
  }

  /** In plain terms: the words that lie wholly inside a range, those whose bit is set, or those at the offsets. */
  lemma PositionsAre(h: Heap, e: Entry, q: nat)
    requires 1 <= h.wordUnits
    ensures match Simple(h, e)
      case Length(n) => q in Positions(h, e) <==> e.start <= q && q + h.wordUnits <= e.start + n
      case Bitmap(bits) => q in Positions(h, e) <==> exists i :: 0 <= i < |bits| && BitAt(bits, i, e.start, h.wordUnits, q)
      case Proc(offsets) => q in Positions(h, e) <==> exists d :: d in offsets && q == e.start + d
      case PerObject => q !in Positions(h, e)
  {
    if Simple(h, e).Bitmap? {
      BitsAre(h.wordUnits, e.start, Simple(h, e).bits, q);
    }
  }

  /** Bit i is set and stands for the word at q. */
  predicate BitAt(bits: seq<bool>, i: nat, start: nat, w: nat, q: nat)
    requires i < |bits|
  {
    bits[i] && q == start + i * w
  }

  lemma {:induction false} BitsAre(w: nat, p: nat, bits: seq<bool>, q: nat)
    ensures q in BitPositions(w, p, bits) <==> exists i :: 0 <= i < |bits| && BitAt(bits, i, p, w, q)
    decreases bits
  {
    if bits != [] {
      var rest, p' := bits[1..], p + w;
      BitsAre(w, p', rest, q);
      assert BitAt(bits, 0, p, w, q) <==> bits[0] && q == p;
      if i :| 0 <= i < |rest| && BitAt(rest, i, p', w, q) {
        NextMultiple(i, w);
        assert BitAt(bits, i + 1, p, w, q);
      }
      if i :| 0 < i < |bits| && BitAt(bits, i, p, w, q) {
        NextMultiple(i - 1, w);
        assert BitAt(rest, i - 1, p', w, q);
      }
    }
  }

  lemma NextMultiple(i: nat, w: nat)
    ensures (i + 1) * w == i * w + w
  {
  }

  predicate EntryOk(h: Heap, e: Entry) {
    && e.descr != Length(0)
    && (e.descr.PerObject? || DescrOk(h, e.descr))
  }

  lemma SimpleOk(h: Heap, e: Entry)
    requires WellFormed(h) && EntryOk(h, e)
    ensures DescrOk(h, Simple(h, e)) && 1 <= h.wordUnits
  {
  }

  function ObjEntry(h: Heap, o: nat): Entry
    requires WellFormed(h) && o in h.home
  {
    Entry(o, h.blocks[h.home[o]].descr)
  }

  function StackWords(h: Heap, s: seq<Entry>): set<nat> {
    if s == [] then {}
    else StackWords(h, s[..|s| - 1]) + Positions(h, s[|s| - 1])
  }

  /** Upper bound on the steps an entry can still cause: the "bytes on the stack". */
  function Work(h: Heap, e: Entry): nat {
    1 + match Simple(h, e) {
      case Length(n) => n
      case Bitmap(bits) => |bits|
      case Proc(offsets) => |offsets|
      case PerObject => 0
    }
  }

  function StackWork(h: Heap, s: seq<Entry>): nat {
    if s == [] then 0
    else StackWork(h, s[..|s| - 1]) + Work(h, s[|s| - 1])
  }

  lemma StackPush(h: Heap, s: seq<Entry>, e: Entry)
    ensures StackWords(h, s + [e]) == StackWords(h, s) + Positions(h, e)
    ensures StackWork(h, s + [e]) == StackWork(h, s) + Work(h, e)
  {
  }

  lemma {:induction false} StackPrefix(h: Heap, s: seq<Entry>, k: nat)
    requires k <= |s|
    ensures StackWords(h, s[..k]) <= StackWords(h, s)
    decreases |s|
  {
    if k < |s| {
      StackPrefix(h, s[..|s| - 1], k);
      assert s[..|s| - 1][..k] == s[..k];
    } else {
      assert s[..k] == s;
    }
  }

  /** Cutting a long range as the marker does neither loses nor repeats a location. */
  lemma SplitRange(h: Heap, p: nat, n: nat)
    requires 1 <= h.wordUnits && SPLIT_RANGE_WORDS * h.wordUnits <= n
    ensures var cut := (SPLIT_RANGE_WORDS - 1) * h.wordUnits;
      && Positions(h, Entry(p, Length(n))) == Range(p, p + cut - 1) + Positions(h, Entry(p + cut, Length(n - cut)))
      && Range(p, p + cut - 1) !! Positions(h, Entry(p + cut, Length(n - cut)))
      && h.wordUnits <= n - cut
  {
  }

  // ----- Reachability -----

  ghost predicate Edge(h: Heap, o: nat, t: nat)
    requires WellFormed(h)
  {
    o in h.home && exists q :: q in Positions(h, ObjEntry(h, o)) && Target(h, q) == Some(t)
  }

  ghost predicate IsPath(h: Heap, p: seq<nat>)
    requires WellFormed(h)
  {
    0 < |p| && forall i | 0 < i < |p| :: Edge(h, p[i - 1], p[i])
  }

  ghost predicate Path(h: Heap, seeds: set<nat>, p: seq<nat>, o: nat)
    requires WellFormed(h)
  {
    IsPath(h, p) && p[0] in seeds && p[|p| - 1] == o
  }

  /** o can be reached from a seed by following zero or more pointers. */
  ghost predicate Reach(h: Heap, seeds: set<nat>, o: nat)
    requires WellFormed(h)
  {
    exists p :: Path(h, seeds, p, o)
  }

  lemma ReachSeed(h: Heap, seeds: set<nat>, o: nat)
    requires WellFormed(h) && o in seeds
    ensures Reach(h, seeds, o)
  {
    assert Path(h, seeds, [o], o);
  }

  lemma ReachStep(h: Heap, seeds: set<nat>, o: nat, t: nat)
    requires WellFormed(h) && Reach(h, seeds, o) && Edge(h, o, t)
    ensures Reach(h, seeds, t)
  {
    var p :| Path(h, seeds, p, o);
    assert Path(h, seeds, p + [t], t);
  }

  lemma {:induction false} ClosedContainsPath(h: Heap, seeds: set<nat>, s: set<nat>, p: seq<nat>)
    requires WellFormed(h) && IsPath(h, p) && p[0] in seeds && seeds <= s
    requires forall o, t | o in s && Edge(h, o, t) :: t in s
    ensures p[|p| - 1] in s
    decreases |p|
  {
    if |p| > 1 {
      ClosedContainsPath(h, seeds, s, p[..|p| - 1]);
      assert Edge(h, p[|p| - 2], p[|p| - 1]);
    }
  }

  function RootEntry(r: RootRange): Entry {
    Entry(r.start, Length(r.n))
  }

  /** The locations of all static data. */
  function StaticWords(h: Heap): set<nat> {
    set r, q | r in h.roots && q in Positions(h, RootEntry(r)) :: q
  }

  /** Those that have not been written since the dirty bits were last read. */
  function QuietWords(h: Heap): set<nat> {
    set r, q | r in h.roots && !r.written && q in Positions(h, RootEntry(r)) :: q
  }

  /** Those that have not been written since the time before that either. */
  function CleanWords(h: Heap): set<nat> {
    set r, q | r in h.roots && !r.dirty && !r.written && q in Positions(h, RootEntry(r)) :: q
  }

  /** The objects that these locations point into. */
  function Targets(h: Heap, words: set<nat>): set<nat> {
    set q | q in words && Target(h, q).Some? :: Target(h, q).value
  }

  function RootTargets(h: Heap): set<nat> {
    Targets(h, StaticWords(h)) + set v | v in h.stackWords && Resolve(h, v).Some? :: Resolve(h, v).value
  }

  // ----- Marking invariants -----

  datatype MarkState = MsNone | PushRescuers | PushUncollectable | RootsPushed | Invalid | PartiallyInvalid

  /** Nothing is left to do for location q. */
  predicate Fine(h: Heap, marked: set<nat>, q: nat) {
    Target(h, q).Some? ==> Target(h, q).value in marked
  }

  /** Does the invariant in state st, with the block scan at address scan, speak about object o? Objects that the
      program has written to meanwhile are left to the next collection. */
  predicate InScope(h: Heap, st: MarkState, scan: nat, o: nat)
    requires o in h.home && h.home[o] < |h.blocks|
  {
    var b := h.blocks[h.home[o]];
    !b.written && match st
    case MsNone => true
    case RootsPushed => true
    case PushRescuers => b.start < scan || !b.dirty
    case PushUncollectable => b.start < scan || b.kind != Uncollectable
    case PartiallyInvalid => b.start < scan
    case Invalid => false
  }

  /** The program has not written to the heap or to static data since the dirty bits were last read. */
  ghost predicate NoneWritten(h: Heap) {
    (forall b | b in h.blocks :: !b.written) && (forall r | r in h.roots :: !r.written)
  }

  ghost predicate Covered(h: Heap, marked: set<nat>, pend: set<nat>, o: nat)
    requires WellFormed(h) && o in h.home
  {
    forall q | q in Positions(h, ObjEntry(h, o)) :: Fine(h, marked, q) || q in pend
  }

  /** Every marked object in scope has each pointer either pending or leading to a marked object. */
  ghost predicate ObjInv(h: Heap, st: MarkState, scan: nat, marked: set<nat>, pend: set<nat>)
    requires WellFormed(h) && marked <= h.home.Keys
  {
    forall o | o in marked && InScope(h, st, scan, o) :: Covered(h, marked, pend, o)
  }

  /** Only reachable objects are marked or about to be. */
  ghost predicate Exact(h: Heap, seeds: set<nat>, marked: set<nat>, pend: set<nat>)
    requires WellFormed(h)
  {
    && (forall o | o in marked :: Reach(h, seeds, o))
    && (forall q | q in pend && Target(h, q).Some? :: Reach(h, seeds, Target(h, q).value))
  }

  /** Each of these locations is pending or leads to a marked object. */
  ghost predicate Owed(h: Heap, marked: set<nat>, pend: set<nat>, words: set<nat>) {
    forall q | q in words :: Fine(h, marked, q) || q in pend
  }

  /** Everything that thread stacks and registers point to is marked. */
  ghost predicate StackFine(h: Heap, marked: set<nat>, words: seq<nat>) {
    forall v | v in words && Resolve(h, v).Some? :: Resolve(h, v).value in marked
  }

  /** What the write barrier owes an incremental collection: every pointer from a marked to an unmarked object lies
      in a block or in static data that has been written to, or on a stack. */
  ghost predicate Barrier(h: Heap, marked: set<nat>)
    requires WellFormed(h) && marked <= h.home.Keys
  {
    && (forall o | o in marked && !h.blocks[h.home[o]].written :: Covered(h, marked, {}, o))
    && Owed(h, marked, {}, QuietWords(h))
  }

  // ----- The program -----

  /** The locations in marked objects and static data that have not been written to. */
  ghost function UnwrittenWords(h: Heap, marked: set<nat>): set<nat>
    requires WellFormed(h) && marked <= h.home.Keys
  {
    QuietWords(h) + set o, q | o in marked && !h.blocks[h.home[o]].written && q in Positions(h, ObjEntry(h, o)) :: q
  }

  /** A block can have become written, and objects may have been allocated in it. */
  predicate SameBlock(b: Block, b': Block) {
    b'.start == b.start && b'.kind == b.kind && b'.dirty == b.dirty && (b.written ==> b'.written)
  }

  /** What a running program can do to the heap, given the marks and the stack of the collector: anything, as long as
      marked objects stay allocated and writes to them and to static data set the dirty bit. */
  ghost predicate Writes(h: Heap, h': Heap, marked: set<nat>, stack: seq<Entry>)
    requires WellFormed(h) && marked <= h.home.Keys
  {
    && WellFormed(h') && marked <= h'.home.Keys && h'.wordUnits == h.wordUnits
    && (forall o | o in marked :: SameBlock(h.blocks[h.home[o]], h'.blocks[h'.home[o]]))
    && (forall o | o in marked && !h'.blocks[h'.home[o]].written :: Positions(h', ObjEntry(h', o)) <= Positions(h, ObjEntry(h, o)))
    && (forall r | r in h'.roots && !r.written :: r in h.roots)
    && (forall q | q in UnwrittenWords(h', marked) ::
          Target(h', q) == Target(h, q) && (q in StackWords(h, stack) ==> q in StackWords(h', stack)))
  }

  lemma WritesNothing(h: Heap, marked: set<nat>, stack: seq<Entry>)
    requires WellFormed(h) && marked <= h.home.Keys
    ensures Writes(h, h, marked, stack)
  {
  }

  lemma MarkedAtHome(h: Heap, marked: set<nat>)
    requires WellFormed(h) && marked <= h.home.Keys
    ensures forall o | o in marked :: o in h.home && h.home[o] < |h.blocks|
  {
  }

  /** A program can do one thing after another. */
  lemma WritesTrans(h: Heap, h1: Heap, h2: Heap, marked: set<nat>, stack: seq<Entry>)
    requires WellFormed(h) && marked <= h.home.Keys && Writes(h, h1, marked, stack) && Writes(h1, h2, marked, stack)
    ensures Writes(h, h2, marked, stack)
  {
    hide StackWords, Positions, WellFormed, Target, QuietWords, CleanWords;
    RangesKeep(h1, h2, marked, stack);
    MarkedAtHome(h, marked);
    MarkedAtHome(h1, marked);
    MarkedAtHome(h2, marked);
    forall q | q in UnwrittenWords(h2, marked) ensures q in UnwrittenWords(h1, marked) {
      if q !in QuietWords(h2) {
        var o :| o in marked && !h2.blocks[h2.home[o]].written && q in Positions(h2, ObjEntry(h2, o));
        assert SameBlock(h1.blocks[h1.home[o]], h2.blocks[h2.home[o]]);
      }
    }
  }

  /** A store of v at location q of block i, which sets its dirty bit. */
  function Store(h: Heap, i: nat, q: nat, v: nat): Heap
    requires i < |h.blocks|
  {
    h.(mem := h.mem[q := v], blocks := h.blocks[i := h.blocks[i].(written := true)])
  }

  /** Such a store is one of the things a program can do if q lies in no other block and not in static data. */
  lemma StoreWrites(h: Heap, i: nat, q: nat, v: nat, marked: set<nat>, stack: seq<Entry>)
    requires WellFormed(h) && marked <= h.home.Keys && i < |h.blocks| && q !in StaticWords(h)
    requires forall o | o in h.home && h.home[o] != i :: q !in Positions(h, ObjEntry(h, o))
    ensures Writes(h, Store(h, i, q, v), marked, stack)
  {
    hide Positions, WellFormed, StackWords, StaticWords, QuietWords;
    var h' := Store(h, i, q, v);
    StoreOk(h, i, q, v);
    SamePositions(h, h');
    SameStackWords(h, h', stack);
    forall x | x in QuietWords(h') ensures x in StaticWords(h) {
      WordsAre(h', x);
      WordsAre(h, x);
    }
    forall x | x in UnwrittenWords(h', marked) ensures x != q {
      if x !in QuietWords(h') {
        var o :| o in marked && !h'.blocks[h'.home[o]].written && x in Positions(h', ObjEntry(h', o));
        assert ObjEntry(h', o) == ObjEntry(h, o);
      }
    }
  }

  lemma StoreOk(h: Heap, i: nat, q: nat, v: nat)
    requires WellFormed(h) && i < |h.blocks|
    ensures var h' := Store(h, i, q, v); WellFormed(h') && h'.home == h.home && forall o | o in h.home ::
      h.home[o] < |h.blocks|
  {
    OnlyBits(h, Store(h, i, q, v));
  }

  /** Two blocks that differ in their dirty bits only. */
  predicate SameButBits(b: Block, b': Block) {
    b' == b.(dirty := b'.dirty, written := b'.written)
  }

  /** Dirty bits and memory contents do not matter for the form of the heap. */
  lemma OnlyBits(h: Heap, h': Heap)
    requires WellFormed(h) && |h'.blocks| == |h.blocks| && |h'.roots| == |h.roots|
    requires h' == h.(mem := h'.mem, blocks := h'.blocks, roots := h'.roots)
    requires forall i | 0 <= i < |h.blocks| :: SameButBits(h.blocks[i], h'.blocks[i])
    requires forall i | 0 <= i < |h.roots| :: h'.roots[i].n == h.roots[i].n
    ensures WellFormed(h')
  {
    hide BlockOk, DescrOk, SameButBits;
    forall i | 0 <= i < |h.blocks|
      ensures BlockOk(h', h'.blocks[i]) && h'.blocks[i].objs == h.blocks[i].objs
      ensures h'.blocks[i].start == h.blocks[i].start && h'.blocks[i].size == h.blocks[i].size
    {
      BitsDoNotMatter(h, h', h.blocks[i], h'.blocks[i]);
    }
    forall d ensures DescrOk(h', d) == DescrOk(h, d) {
      SameDescrs(h, h', d);
    }
    forall r | r in h'.roots ensures DescrOk(h', Length(r.n)) {
      var i :| 0 <= i < |h'.roots| && h'.roots[i] == r;
      assert DescrOk(h, Length(h.roots[i].n));
    }
  }

  lemma BitsDoNotMatter(h: Heap, h': Heap, b: Block, b': Block)
    requires BlockOk(h, b) && h'.wordUnits == h.wordUnits && SameButBits(b, b')
    ensures BlockOk(h', b') && b'.objs == b.objs && b'.start == b.start && b'.size == b.size
  {
  }

  lemma SameDescrs(h: Heap, h': Heap, d: Descr)
    requires h'.wordUnits == h.wordUnits
    ensures DescrOk(h', d) == DescrOk(h, d)
  {
  }

  /** Only the word size and the descriptors in objects decide which locations an entry stands for. */
  lemma SamePositions(h: Heap, h': Heap)
    requires h'.wordUnits == h.wordUnits && h'.inObject == h.inObject
    ensures forall e :: Positions(h', e) == Positions(h, e)
  {
  }

  lemma {:induction false} SameStackWords(h: Heap, h': Heap, s: seq<Entry>)
    requires forall e | e in s :: Positions(h', e) == Positions(h, e)
    ensures StackWords(h', s) == StackWords(h, s)
    decreases |s|
  {
    if s != [] {
      SameStackWords(h, h', s[..|s| - 1]);
    }
  }

  /** The marking invariant outlives what the program does. */
  lemma WritesKeep(h: Heap, h': Heap, st: MarkState, scan: nat, marked: set<nat>, stack: seq<Entry>, words: set<nat>,
                   words': set<nat>)
    requires WellFormed(h) && marked <= h.home.Keys && Writes(h, h', marked, stack)
    requires words * QuietWords(h') == words'
    ensures ObjInv(h, st, scan, marked, StackWords(h, stack)) ==> ObjInv(h', st, scan, marked, StackWords(h', stack))
    ensures Owed(h, marked, StackWords(h, stack), words) ==> Owed(h', marked, StackWords(h', stack), words')
    ensures QuietWords(h') <= QuietWords(h) && CleanWords(h') <= CleanWords(h)
  {
    hide StackWords;
    RangesKeep(h, h', marked, stack);
    if ObjInv(h, st, scan, marked, StackWords(h, stack)) {
      forall o | o in marked && InScope(h', st, scan, o) ensures Covered(h', marked, StackWords(h', stack), o) {
        assert Covered(h, marked, StackWords(h, stack), o);
        assert forall q | q in Positions(h', ObjEntry(h', o)) :: q in UnwrittenWords(h', marked);
      }
    }
  }

  /** After a complete collection, and ever since, setting the dirty bits is enough. */
  lemma BarrierFromWrites(h: Heap, h': Heap, marked: set<nat>)
    requires WellFormed(h) && marked <= h.home.Keys && Barrier(h, marked) && Writes(h, h', marked, [])
    ensures Barrier(h', marked)
  {
    RangesKeep(h, h', marked, []);
    WritesKeep(h, h', MsNone, 0, marked, [], QuietWords(h), QuietWords(h'));
  }

  lemma RangesKeep(h: Heap, h': Heap, marked: set<nat>, stack: seq<Entry>)
    requires WellFormed(h) && marked <= h.home.Keys && Writes(h, h', marked, stack)
    ensures QuietWords(h') <= QuietWords(h) && CleanWords(h') <= CleanWords(h)
  {
    assert forall r: RootRange :: Positions(h', RootEntry(r)) == Positions(h, RootEntry(r));
  }

  /** GC_read_dirty: what has been written is dirty now, and nothing has been written since. */
  function DirtyRead(h: Heap): Heap {
    h.(blocks := seq(|h.blocks|, i requires 0 <= i < |h.blocks| => h.blocks[i].(dirty := h.blocks[i].written, written := false)),
       roots := seq(|h.roots|, i requires 0 <= i < |h.roots| => h.roots[i].(dirty := h.roots[i].written, written := false)))
  }

  lemma DirtyReadOk(h: Heap)
    requires WellFormed(h)
    ensures WellFormed(DirtyRead(h)) && NoneWritten(DirtyRead(h))
    ensures DirtyRead(h).home == h.home
    ensures forall o | o in h.home :: ObjEntry(DirtyRead(h), o) == ObjEntry(h, o)
  {
    OnlyBits(h, DirtyRead(h));
  }

  /** Reading the dirty bits changes no pointers. */
  lemma DirtyReadSame(h: Heap, stack: seq<Entry>)
    ensures var h' := DirtyRead(h);
      && StaticWords(h') == StaticWords(h) && RootTargets(h') == RootTargets(h)
      && CleanWords(h') == QuietWords(h) && StackWords(h', stack) == StackWords(h, stack)
      && forall q :: Target(h', q) == Target(h, q)
  {
    hide StaticWords, CleanWords, QuietWords, StackWords, Positions;
    var h' := DirtyRead(h);
    SamePositions(h, h');
    SameStackWords(h, h', stack);
    forall q ensures (q in StaticWords(h') <==> q in StaticWords(h)) && (q in CleanWords(h') <==> q in QuietWords(h)) {
      WordsAre(h, q);
      WordsAre(h', q);
      assert forall i | 0 <= i < |h.roots| :: RootEntry(h'.roots[i]) == RootEntry(h.roots[i]);
    }
  }

  lemma QuietAreStatic(h: Heap)
    ensures QuietWords(h) <= StaticWords(h)
  {
  }

  /** Membership in the static data by the number of its range. */
  lemma WordsAre(h: Heap, q: nat)
    ensures q in StaticWords(h) <==> exists i :: 0 <= i < |h.roots| && q in Positions(h, RootEntry(h.roots[i]))
    ensures q in QuietWords(h) <==>
      exists i :: 0 <= i < |h.roots| && !h.roots[i].written && q in Positions(h, RootEntry(h.roots[i]))
    ensures q in CleanWords(h) <==>
      exists i :: 0 <= i < |h.roots| && !h.roots[i].dirty && !h.roots[i].written && q in Positions(h, RootEntry(h.roots[i]))
  {
    hide Positions;
  }

  /** What the barrier has kept is where the scan for dirty blocks starts. */
  lemma BarrierRead(h: Heap, marked: set<nat>)
    requires WellFormed(h) && marked <= h.home.Keys && Barrier(h, marked)
    ensures var h' := DirtyRead(h);
      WellFormed(h') && marked <= h'.home.Keys && ObjInv(h', PushRescuers, 0, marked, {}) && Owed(h', marked, {}, CleanWords(h'))
  {
    hide CleanWords, QuietWords, Positions;
    var h' := DirtyRead(h);
    DirtyReadOk(h);
    DirtyReadSame(h, []);
    SamePositions(h, h');
    forall o | o in marked && InScope(h', PushRescuers, 0, o) ensures Covered(h', marked, {}, o) {
      assert Covered(h, marked, {}, o);
    }
  }

  lemma DirtyReadReach(h: Heap, seeds: set<nat>, o: nat)
    requires WellFormed(h) && WellFormed(DirtyRead(h))
    ensures Reach(DirtyRead(h), seeds, o) <==> Reach(h, seeds, o)
  {
    hide Positions, WellFormed;
    var h' := DirtyRead(h);
    SamePositions(h, h');
    DirtyReadOk(h);
    assert forall x, t :: Edge(h', x, t) <==> Edge(h, x, t);
    assert forall p :: Path(h', seeds, p, o) <==> Path(h, seeds, p, o);
  }

  /** Two objects, 8 in a block that has been written to and 5000 in another; the first points to the second. */
  function DirtyExample(): Heap {
    Heap(1, map[8 := 5000], map[8 := 8, 5000 := 5000], 1, 9000,
         [Block(1, 4096, false, Normal, Length(1), [8], false, true),
             Block(4097, 4096, false, Normal, Length(1), [5000], false, false)],
         map[8 := 0, 5000 := 1], map[], [], [])
  }

  /** The barrier does not say that marked objects point to marked objects only. */
  lemma BarrierAllowsUnmarked()
    ensures var h := DirtyExample(); WellFormed(h) && {8} <= h.home.Keys && Barrier(h, {8}) && Edge(h, 8, 5000)
  {
    DirtyExampleOk();
    hide WellFormed;
    var h := DirtyExample();
    assert 8 in Positions(h, ObjEntry(h, 8)) && Target(h, 8) == Some(5000);
    assert QuietWords(h) == {};
  }

  lemma DirtyExampleOk()
    ensures WellFormed(DirtyExample())
  {
    hide Positions;
  }

  /** A location whose target is marked can leave the pending set. */
  lemma DropFine(h: Heap, seeds: set<nat>, st: MarkState, scan: nat, marked: set<nat>, pend: set<nat>, pend': set<nat>,
                 words: set<nat>)
    requires WellFormed(h) && marked <= h.home.Keys
    requires pend' <= pend && forall q | q in pend && q !in pend' :: Fine(h, marked, q)
    ensures ObjInv(h, st, scan, marked, pend) ==> ObjInv(h, st, scan, marked, pend')
    ensures Exact(h, seeds, marked, pend) ==> Exact(h, seeds, marked, pend')
    ensures Owed(h, marked, pend, words) ==> Owed(h, marked, pend', words)
  {
  }

  /** Marking t and making its contents pending keeps the invariants. */
  lemma MarkOne(h: Heap, seeds: set<nat>, st: MarkState, scan: nat, marked: set<nat>, pend: set<nat>, t: nat,
                words: set<nat>)
    requires WellFormed(h) && marked <= h.home.Keys && t in h.home
    requires Reach(h, seeds, t)
    ensures ObjInv(h, st, scan, marked, pend) ==> ObjInv(h, st, scan, marked + {t}, pend + Positions(h, ObjEntry(h, t)))
    ensures Exact(h, seeds, marked, pend) ==> Exact(h, seeds, marked + {t}, pend + Positions(h, ObjEntry(h, t)))
    ensures Owed(h, marked, pend, words) ==> Owed(h, marked + {t}, pend + Positions(h, ObjEntry(h, t)), words)
  {
    if ObjInv(h, st, scan, marked, pend) {
      forall o | o in marked + {t} && InScope(h, st, scan, o)
        ensures Covered(h, marked + {t}, pend + Positions(h, ObjEntry(h, t)), o)
      {
        if o != t {
          assert Covered(h, marked, pend, o);
        }
      }
    }
    PendingReachable(h, seeds, t);
  }

  /** Everything that a reachable object points to is reachable. */
  lemma PendingReachable(h: Heap, seeds: set<nat>, o: nat)
    requires WellFormed(h) && o in h.home && Reach(h, seeds, o)
    ensures forall q | q in Positions(h, ObjEntry(h, o)) && Target(h, q).Some? :: Reach(h, seeds, Target(h, q).value)
  {
    forall q | q in Positions(h, ObjEntry(h, o)) && Target(h, q).Some?
      ensures Reach(h, seeds, Target(h, q).value)
    {
      assert Edge(h, o, Target(h, q).value);
      ReachStep(h, seeds, o, Target(h, q).value);
    }
  }

  /** The scan of state st has nothing to push from block b. */
  predicate Skippable(st: MarkState, b: Block) {
    || b.free
    || (st == PushRescuers && !b.dirty)
    || (st == PushUncollectable && b.kind != Uncollectable)
  }

  /** The scan may move to scan' once the marked objects of every block it passes are pending. */
  lemma Advance(h: Heap, st: MarkState, scan: nat, scan': nat, marked: set<nat>, pend: set<nat>, i: nat)
    requires WellFormed(h) && marked <= h.home.Keys && i <= |h.blocks|
    requires st.PushRescuers? || st.PushUncollectable? || st.PartiallyInvalid?
    requires forall j | 0 <= j < |h.blocks| && scan <= h.blocks[j].start < scan' && j != i :: Skippable(st, h.blocks[j])
    requires i < |h.blocks| ==> forall o | o in h.blocks[i].objs && o in marked :: Covered(h, marked, pend, o)
    ensures ObjInv(h, st, scan, marked, pend) ==> ObjInv(h, st, scan', marked, pend)
  {
    if ObjInv(h, st, scan, marked, pend) {
      forall o | o in marked && InScope(h, st, scan', o) ensures Covered(h, marked, pend, o) {
        var j := h.home[o];
        assert o in h.blocks[j].objs;
      }
    }
  }

  /** With nothing pending, a set of marks that contains the seeds is what they reach. */
  lemma ClosedMarks(h: Heap, seeds: set<nat>, marked: set<nat>)
    requires WellFormed(h) && NoneWritten(h) && marked <= h.home.Keys && seeds <= marked
    requires ObjInv(h, RootsPushed, 0, marked, {}) && Exact(h, seeds, marked, {})
    ensures forall o :: o in marked <==> Reach(h, seeds, o)
  {
    forall o, t | o in marked && Edge(h, o, t) ensures t in marked {
      assert Covered(h, marked, {}, o);
      var q :| q in Positions(h, ObjEntry(h, o)) && Target(h, q) == Some(t);
      assert Fine(h, marked, q);
    }
    forall o | Reach(h, seeds, o) ensures o in marked {
      var p :| Path(h, seeds, p, o);
      ClosedContainsPath(h, seeds, marked, p);
    }
  }

  /** With nothing pending and all roots considered, the marks are exactly the reachable objects. */
  lemma MarksAreReachable(h: Heap, kept: set<nat>, marked: set<nat>)
    requires WellFormed(h) && NoneWritten(h) && marked <= h.home.Keys && kept <= marked
    requires ObjInv(h, RootsPushed, 0, marked, {}) && Owed(h, marked, {}, StaticWords(h))
    requires StackFine(h, marked, h.stackWords)
    requires Exact(h, kept + RootTargets(h), marked, {})
    ensures forall o :: o in marked <==> Reach(h, kept + RootTargets(h), o)
  {
    assert RootTargets(h) <= marked;
    ClosedMarks(h, kept + RootTargets(h), marked);
  }

  /** The marked objects that the program, and not the collector, decides about. */
  ghost function UncollectableAmong(h: Heap, marked: set<nat>): (kept: set<nat>)
    requires WellFormed(h) && marked <= h.home.Keys
    ensures forall o :: o in kept <==>
      o in marked && (h.blocks[h.home[o]].kind == Uncollectable || h.blocks[h.home[o]].kind == AUncollectable)
  {
    set o | o in marked && IsUncollectable(h.blocks[h.home[o]].kind)
  }

  // ----- The block scan -----

  /** Index of the block that starts at p or, failing that, of the first used block after p. */
  function Locate(h: Heap, p: nat, i: nat := 0): (r: nat)
    requires i <= |h.blocks|
    ensures i <= r <= |h.blocks|
    ensures r < |h.blocks| ==> p <= h.blocks[r].start && (h.blocks[r].free ==> h.blocks[r].start == p)
    ensures forall j | i <= j < r :: h.blocks[j].start < p || h.blocks[j].free
    decreases |h.blocks| - i
  {
    if i == |h.blocks| then i
    else if h.blocks[i].start == p || (p < h.blocks[i].start && !h.blocks[i].free) then i
    else Locate(h, p, i + 1)
  }

  function BlocksFrom(h: Heap, p: nat): set<nat> {
    set i: nat | i < |h.blocks| && p <= h.blocks[i].start
  }

  lemma BlocksFromShrink(h: Heap, p: nat, p': nat, i: nat)
    requires i < |h.blocks| && p <= h.blocks[i].start < p'
    ensures |BlocksFrom(h, p')| < |BlocksFrom(h, p)|
  {
    assert i in BlocksFrom(h, p) && i !in BlocksFrom(h, p');
    SubsetSmaller(BlocksFrom(h, p'), BlocksFrom(h, p));
  }

  lemma SubsetSmaller(a: set<nat>, b: set<nat>)
    requires a < b
    ensures |a| < |b|
  {
    var x :| x in b && x !in a;
    SubsetCard(a, b - {x});
  }

  lemma {:induction false} SubsetCard(a: set<nat>, b: set<nat>)
    requires a <= b
    ensures |a| <= |b|
    decreases a
  {
    if a != {} {
      var x :| x in a;
      SubsetCard(a - {x}, b - {x});
    }
  }
}
