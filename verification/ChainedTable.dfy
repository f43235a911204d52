/** The chained hash tables of finalize.c: chains of items, placed by their hashed key. */
module ChainedTable {
  import opened Collections
  import opened Units

  type Addr = nat

  datatype Item<T> = Item(key: Addr, val: T)

  type Chains<T> = seq<seq<Item<T>>>

  function Pow2(n: nat): (p: nat)
    ensures 0 < p
  {
    if n == 0 then 1 else 2 * Pow2(n - 1)
  }

  /** The low-order word of a, shifted right by n. */
  function ShiftRight(a: Addr, n: nat): bv64 {
    ((a % WORD_RANGE) / Pow2(n) % WORD_RANGE) as bv64
  }

  /** HASH2; taking the remainder by a power of two is masking. */
  function Hash(a: Addr, log: nat): (h: nat)
    ensures h < Pow2(log)
  {
    (ShiftRight(a, 3) ^ ShiftRight(a, 3 + log)) as nat % Pow2(log)
  }

  function Size(log: int): nat {
    if log < 0 then 0 else Pow2(log)
  }

  ghost function Contents<T>(chains: Chains<T>): set<Item<T>> {
    set i, j | 0 <= i < |chains| && 0 <= j < |chains[i]| :: chains[i][j]
  }

  ghost predicate DistinctKeys<T>(chain: seq<Item<T>>) {
    forall i, j | 0 <= i < j < |chain| :: chain[i].key != chain[j].key
  }

  /** Every item is on the chain for its key, and no key occurs twice. */
  ghost predicate Placed<T>(log: int, chains: Chains<T>) {
    && -1 <= log && |chains| == Size(log)
    && (forall i, j | 0 <= i < |chains| && 0 <= j < |chains[i]| :: Hash(chains[i][j].key, log) == i)
    && (forall i | 0 <= i < |chains| :: DistinctKeys(chains[i]))
  }

  /** A table with its entry counter. */
  ghost predicate TableOk<T>(log: int, chains: Chains<T>, entries: nat) {
    Placed(log, chains) && entries == |Contents(chains)|
  }

  lemma OneItem<T>(log: int, chains: Chains<T>, x: Item<T>, y: Item<T>)
    requires Placed(log, chains) && x in Contents(chains) && y in Contents(chains) && x.key == y.key
    ensures x == y
  {
    hide Hash;
    var i, j :| 0 <= i < |chains| && 0 <= j < |chains[i]| && chains[i][j] == x;
    var k, l :| 0 <= k < |chains| && 0 <= l < |chains[k]| && chains[k][l] == y;
  }

  /** A key that is not on its own chain is nowhere in the table. */
  lemma NotOnChain<T>(log: int, chains: Chains<T>, key: Addr)
    requires Placed(log, chains) && 0 <= log
    requires forall j | 0 <= j < |chains[Hash(key, log)]| :: chains[Hash(key, log)][j].key != key
    ensures forall it | it in Contents(chains) :: it.key != key
  {
  }

  predicate At<T(==)>(chains: Chains<T>, a: int, b: int, it: Item<T>) {
    0 <= a < |chains| && 0 <= b < |chains[a]| && chains[a][b] == it
  }

  lemma MemberAt<T>(chains: Chains<T>)
    ensures forall it | it in Contents(chains) :: exists i, j :: At(chains, i, j, it)
    ensures forall i, j, it | At(chains, i, j, it) :: it in Contents(chains)
    ensures forall i, j | 0 <= i < |chains| && 0 <= j < |chains[i]| :: chains[i][j] in Contents(chains)
  {
    forall it | it in Contents(chains) ensures exists i, j :: At(chains, i, j, it) {
      var i, j :| 0 <= i < |chains| && 0 <= j < |chains[i]| && chains[i][j] == it;
      assert At(chains, i, j, it);
    }
  }

  /** Two tables whose items correspond, but for one that is dropped and one that is gained. */
  lemma Correspond<T>(chains: Chains<T>, chains': Chains<T>, drop: set<Item<T>>, gain: set<Item<T>>)
    requires forall it | it in Contents(chains) && it !in drop :: it in Contents(chains')
    requires forall it | it in gain :: it in Contents(chains')
    requires forall it | it in Contents(chains') :: it in gain || (it in Contents(chains) && it !in drop)
    ensures Contents(chains') == Contents(chains) - drop + gain
  {
  }

  lemma WithoutOne<T>(chain: seq<Item<T>>, j: nat)
    requires j < |chain| && DistinctKeys(chain)
    ensures var w := Without(chain, j);
      && DistinctKeys(w) && |w| == |chain| - 1
      && (forall l | 0 <= l < j :: w[l] == chain[l]) && (forall l | j <= l < |w| :: w[l] == chain[l + 1])
      && (forall l | j < l < |chain| :: w[l - 1] == chain[l])
  {
  }

  lemma Removed<T>(log: int, chains: Chains<T>, i: nat, j: nat)
    requires Placed(log, chains) && i < |chains| && j < |chains[i]|
    ensures var chains' := chains[i := Without(chains[i], j)];
      Placed(log, chains') && Contents(chains') == Contents(chains) - {chains[i][j]}
    ensures chains[i][j] in Contents(chains)
  {
    hide Hash, Contents, Without, DistinctKeys;
    var w := Without(chains[i], j);
    var chains' := chains[i := w];
    WithoutOne(chains[i], j);
    MemberAt(chains);
    MemberAt(chains');
    forall it | it in Contents(chains) && it != chains[i][j] ensures it in Contents(chains') {
      var a, b :| At(chains, a, b, it);
      assert At(chains', a, if a == i && j < b then b - 1 else b, it);
    }
    forall it | it in Contents(chains') ensures it in Contents(chains) && it != chains[i][j] {
      var a, b :| At(chains', a, b, it);
      var b' := if a == i && j <= b then b + 1 else b;
      assert At(chains, a, b', it);
      OnePlaceEach(log, chains, a, b', i, j);
    }
    Correspond(chains, chains', {chains[i][j]}, {});
  }

  lemma OnePlaceEach<T>(log: int, chains: Chains<T>, a: nat, b: nat, i: nat, j: nat)
    requires Placed(log, chains) && a < |chains| && i < |chains| && b < |chains[a]| && j < |chains[i]| && (a != i || b != j)
    ensures chains[a][b] != chains[i][j]
  {
  }

  lemma Added<T>(log: int, chains: Chains<T>, it: Item<T>)
    requires Placed(log, chains) && 0 <= log && forall x | x in Contents(chains) :: x.key != it.key
    ensures var i := Hash(it.key, log); var chains' := chains[i := [it] + chains[i]];
      Placed(log, chains') && Contents(chains') == Contents(chains) + {it}
  {
    hide Hash, Contents;
    var i := Hash(it.key, log);
    var w := [it] + chains[i];
    var chains' := chains[i := w];
    MemberAt(chains);
    MemberAt(chains');
    assert forall l | 0 < l < |w| :: w[l] == chains[i][l - 1];
    assert At(chains', i, 0, it);
    forall x | x in Contents(chains) ensures x in Contents(chains') {
      var a, b :| At(chains, a, b, x);
      assert At(chains', a, if a == i then b + 1 else b, x);
    }
    forall x | x in Contents(chains') && x != it ensures x in Contents(chains) {
      var a, b :| At(chains', a, b, x);
      assert At(chains, a, if a == i then b - 1 else b, x);
    }
    Correspond(chains, chains', {}, {it});
  }

  lemma Changed<T>(log: int, chains: Chains<T>, i: nat, j: nat, val: T)
    requires Placed(log, chains) && i < |chains| && j < |chains[i]|
    ensures var it := Item(chains[i][j].key, val); var chains' := chains[i := chains[i][j := it]];
      Placed(log, chains') && Contents(chains') == Contents(chains) - {chains[i][j]} + {it}
    ensures chains[i][j] in Contents(chains)
  {
    hide Hash, Contents;
    var it := Item(chains[i][j].key, val);
    var chains' := chains[i := chains[i][j := it]];
    MemberAt(chains);
    MemberAt(chains');
    assert At(chains', i, j, it);
    forall x | x in Contents(chains) && x != chains[i][j] ensures x in Contents(chains') {
      var a, b :| At(chains, a, b, x);
      assert At(chains', a, b, x);
    }
    forall x | x in Contents(chains') && x != it ensures x in Contents(chains) && x != chains[i][j] {
      var a, b :| At(chains', a, b, x);
      assert At(chains, a, b, x);
    }
    Correspond(chains, chains', {chains[i][j]}, {it});
  }

  /** The items of the first i chains and of the first j places of chain i. */
  ghost predicate Before<T>(chains: Chains<T>, i: nat, j: nat, it: Item<T>) {
    exists a, b :: 0 <= a < |chains| && 0 <= b < |chains[a]| && chains[a][b] == it && (a < i || (a == i && b < j))
  }

  /** GC_grow_table: every item moves to the front of its chain in a table of twice the size. */
  method Grow<T>(chains: Chains<T>, log: int) returns (chains': Chains<T>, log': int)
    requires Placed(log, chains)
    ensures log' == log + 1 && Placed(log', chains') && Contents(chains') == Contents(chains)
    ensures |chains'| == if log == -1 then 1 else 2 * |chains|
  {
    hide Hash, Contents, Before, Placed;
    SizeIs(log, chains);
    log' := log + 1;
    chains' := seq(Pow2(log'), _ => []);
    EmptyTable<T>(log');
    Moved0(chains, chains');
    var i := 0;
    while i < |chains|
      invariant i <= |chains| && Placed(log', chains') && Moved(chains, chains', i, 0)
    {
      var j := 0;
      while j < |chains[i]|
        invariant j <= |chains[i]| && Placed(log', chains') && Moved(chains, chains', i, j)
      {
        var p := chains[i][j];
        MovedKeys(log, chains, chains', i, j);
        Added(log', chains', p);
        SizeIs(log', chains');
        var newHash := Hash(p.key, log');
        ghost var was := chains';
        chains' := chains'[newHash := [p] + chains'[newHash]];
        MovedOne(chains, was, chains', i, j);
        j := j + 1;
      }
      MovedChain(chains, chains', i);
      i := i + 1;
    }
    MovedAll(chains, chains');
    SizeIs(log', chains');
    assert log != -1 ==> Pow2(log') == 2 * Pow2(log);
  }

  /** The new table holds the items before place j of chain i. */
  ghost predicate Moved<T>(chains: Chains<T>, chains': Chains<T>, i: nat, j: nat) {
    && (forall it | it in Contents(chains') :: Before(chains, i, j, it))
    && (forall a, b | 0 <= a < |chains| && 0 <= b < |chains[a]| && (a < i || (a == i && b < j)) ::
        chains[a][b] in Contents(chains'))
  }

  lemma Moved0<T>(chains: Chains<T>, chains': Chains<T>)
    requires Contents(chains') == {}
    ensures Moved(chains, chains', 0, 0)
  {
  }

  lemma MovedKeys<T>(log: int, chains: Chains<T>, chains': Chains<T>, i: nat, j: nat)
    requires Placed(log, chains) && i < |chains| && j < |chains[i]| && Moved(chains, chains', i, j)
    ensures forall x | x in Contents(chains') :: x.key != chains[i][j].key
  {
  }

  lemma MovedOne<T>(chains: Chains<T>, was: Chains<T>, now: Chains<T>, i: nat, j: nat)
    requires i < |chains| && j < |chains[i]| && Moved(chains, was, i, j)
    requires Contents(now) == Contents(was) + {chains[i][j]}
    ensures Moved(chains, now, i, j + 1)
  {
  }

  lemma MovedChain<T>(chains: Chains<T>, chains': Chains<T>, i: nat)
    requires i < |chains| && Moved(chains, chains', i, |chains[i]|)
    ensures Moved(chains, chains', i + 1, 0)
  {
  }

  lemma MovedAll<T>(chains: Chains<T>, chains': Chains<T>)
    requires Moved(chains, chains', |chains|, 0)
    ensures Contents(chains') == Contents(chains)
  {
  }

  lemma EmptyTable<T>(log: nat)
    ensures Placed<T>(log, seq(Pow2(log), _ => [])) && Contents<T>(seq(Pow2(log), _ => [])) == {}
  {
  }

  lemma SizeIs<T>(log: int, chains: Chains<T>)
    requires Placed(log, chains)
    ensures -1 <= log && |chains| == Size(log)
  {
  }

  /** Look a key up on its chain. */
  method Find<T>(chains: Chains<T>, log: int, ghost entries: nat, key: Addr) returns (found: bool, index: nat, j: nat)
    requires TableOk(log, chains, entries) && 0 <= log
    ensures index < |chains| && (found <==> HasKey(Contents(chains), key))
    ensures found ==> j < |chains[index]| && chains[index][j].key == key && chains[index][j] in Contents(chains)
    ensures !found ==> index == Hash(key, log)
  {
    hide Hash, Contents;
    index := Hash(key, log);
    MemberAt(chains);
    j := 0;
    while j < |chains[index]|
      invariant j <= |chains[index]| && forall k | 0 <= k < j :: chains[index][k].key != key
    {
      if chains[index][j].key == key {
        return true, index, j;
      }
      j := j + 1;
    }
    NotOnChain(log, chains, key);
    found := false;
  }

  // ----- Sweeps: loops that visit every item and unlink some -----

  ghost function KeysOf<T>(s: set<Item<T>>): set<Addr> {
    set it | it in s :: it.key
  }

  /** In the table now, the items in gone, all of which meet p, have been unlinked from c. */
  ghost predicate Sweeping<T>(c: Chains<T>, now: Chains<T>, gone: set<Item<T>>, p: Item<T> -> bool) {
    && Contents(now) == Contents(c) - gone && gone <= Contents(c)
    && (forall it | it in gone :: p(it))
    && (forall x, y | x in Contents(c) && y in Contents(c) && x.key == y.key :: x == y)
  }

  /** No item before place j of chain i meets p. */
  ghost predicate SweptTo<T>(now: Chains<T>, i: nat, j: nat, p: Item<T> -> bool) {
    && (forall a, b | 0 <= a < i && a < |now| && 0 <= b < |now[a]| :: !p(now[a][b]))
    && (i < |now| ==> forall b | 0 <= b < j && b < |now[i]| :: !p(now[i][b]))
  }

  lemma SweepStart<T>(log: int, c: Chains<T>, p: Item<T> -> bool)
    requires Placed(log, c)
    ensures Sweeping(c, c, {}, p) && SweptTo(c, 0, 0, p)
  {
    hide Contents, Placed;
    forall x, y | x in Contents(c) && y in Contents(c) && x.key == y.key ensures x == y {
      OneItem(log, c, x, y);
    }
  }

  lemma SweepHere<T>(c: Chains<T>, now: Chains<T>, gone: set<Item<T>>, p: Item<T> -> bool, i: nat, j: nat)
    requires Sweeping(c, now, gone, p) && i < |now| && j < |now[i]|
    ensures now[i][j] in Contents(c) && now[i][j] !in gone && now[i][j].key !in KeysOf(gone)
  {
  }

  /** Unlinking the item at place j of chain i. */
  lemma SweepDrop<T>(log: int, c: Chains<T>, now: Chains<T>, gone: set<Item<T>>, p: Item<T> -> bool, i: nat, j: nat)
    requires Placed(log, now) && Sweeping(c, now, gone, p) && SweptTo(now, i, j, p) && i < |now| && j < |now[i]|
    requires p(now[i][j])
    ensures var now' := now[i := Without(now[i], j)]; var gone' := gone + {now[i][j]};
      && |now'[i]| == |now[i]| - 1
      && Placed(log, now') && Sweeping(c, now', gone', p) && SweptTo(now', i, j, p)
      && |Contents(now')| == |Contents(now)| - 1 && KeysOf(gone') == KeysOf(gone) + {now[i][j].key}
  {
    hide Contents, Placed;
    Removed(log, now, i, j);
    SweepHere(c, now, gone, p, i, j);
    var now' := now[i := Without(now[i], j)];
    assert Contents(now) == Contents(now') + {now[i][j]};
  }

  lemma SweepKeep<T>(now: Chains<T>, p: Item<T> -> bool, i: nat, j: nat)
    requires SweptTo(now, i, j, p) && i < |now| && j < |now[i]| && !p(now[i][j])
    ensures SweptTo(now, i, j + 1, p)
  {
  }

  lemma SweepChain<T>(now: Chains<T>, p: Item<T> -> bool, i: nat)
    requires i < |now| && SweptTo(now, i, |now[i]|, p)
    ensures SweptTo(now, i + 1, 0, p)
  {
  }

  /** A finished sweep has unlinked exactly the items that meet p. */
  lemma SweepEnd<T>(c: Chains<T>, now: Chains<T>, gone: set<Item<T>>, p: Item<T> -> bool)
    requires Sweeping(c, now, gone, p) && SweptTo(now, |now|, 0, p)
    ensures forall it :: it in gone <==> it in Contents(c) && p(it)
    ensures forall it :: it in Contents(now) <==> it in Contents(c) && !p(it)
  {
    hide Contents;
    MemberAt(now);
    forall it | it in Contents(now) ensures !p(it) {
      var a, b :| At(now, a, b, it);
    }
  }

  // ----- Tables with their counters -----

  ghost predicate HasKey<T>(s: set<Item<T>>, key: Addr) {
    exists it :: it in s && it.key == key
  }

  /** Make the table bigger if it has become full; without memory a table that is there stays as it is, and without
      any table the source aborts, for which ok is false. */
  method MakeRoom<T>(chains: Chains<T>, log: int, entries: nat, memory: bool)
    returns (chains': Chains<T>, log': int, ok: bool)
    requires TableOk(log, chains, entries)
    ensures TableOk(log', chains', entries) && Contents(chains') == Contents(chains)
    ensures ok <==> memory || 0 <= log
    ensures ok ==> 0 <= log'
    ensures log' == if memory && (log == -1 || Size(log) < entries) then log + 1 else log
  {
    hide Placed, Contents, Pow2;
    chains', log', ok := chains, log, true;
    SizeIs(log, chains);
    if log == -1 || entries > Size(log) {
      if memory {
        chains', log' := Grow(chains, log);
      } else {
        ok := log != -1;
      }
    }
  }

  lemma TableAdd<T>(log: int, chains: Chains<T>, entries: nat, it: Item<T>)
    requires TableOk(log, chains, entries) && 0 <= log && !HasKey(Contents(chains), it.key)
    ensures Hash(it.key, log) < |chains|
    ensures var i := Hash(it.key, log); var chains' := chains[i := [it] + chains[i]];
      TableOk(log, chains', entries + 1) && Contents(chains') == Contents(chains) + {it}
  {
    hide Placed, Contents, Hash;
    SizeIs(log, chains);
    assert forall x | x in Contents(chains) :: x.key != it.key;
    Added(log, chains, it);
  }

  lemma TableDrop<T>(log: int, chains: Chains<T>, entries: nat, i: nat, j: nat)
    requires TableOk(log, chains, entries) && i < |chains| && j < |chains[i]|
    ensures var chains' := chains[i := Without(chains[i], j)];
      0 < entries && TableOk(log, chains', entries - 1) && Contents(chains') == Contents(chains) - {chains[i][j]}
  {
    hide Placed, Contents, Without;
    Removed(log, chains, i, j);
  }

  lemma TableSet<T>(log: int, chains: Chains<T>, entries: nat, i: nat, j: nat, val: T)
    requires TableOk(log, chains, entries) && i < |chains| && j < |chains[i]|
    ensures var it := Item(chains[i][j].key, val); var chains' := chains[i := chains[i][j := it]];
      TableOk(log, chains', entries) && Contents(chains') == Contents(chains) - {chains[i][j]} + {it}
  {
    hide Placed, Contents;
    Changed(log, chains, i, j, val);
    var it := Item(chains[i][j].key, val);
    if it in Contents(chains) {
      OneItem(log, chains, it, chains[i][j]);
    }
  }

  lemma EmptyOk<T>()
    ensures TableOk<T>(-1, [], 0) && Contents<T>([]) == {}
  {
  }
}
