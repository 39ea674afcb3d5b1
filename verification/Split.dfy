/** The counting passes: unconflicted and conflicted state, and the auth difference. */
module Split {
  import opened Orders
  import opened Events

  // ---------------------------------------------------------------- specification

  /** The pair is in every state map. */
  ghost predicate Everywhere(maps: set<StateMap>, k: Key, v: EventId) {
    forall m :: m in maps ==> k in m && m[k] == v
  }

  ghost predicate Somewhere(maps: set<StateMap>, k: Key, v: EventId) {
    exists m :: m in maps && k in m && m[k] == v
  }

  ghost function KeysOf(maps: set<StateMap>): set<Key> {
    set m, k | m in maps && k in m.Keys :: k
  }

  ghost function ValuesAt(maps: set<StateMap>, k: Key): set<EventId> {
    set m | m in maps && k in m :: m[k]
  }

  /** `u` holds exactly the pairs that every state map has. */
  ghost predicate IsUnconflicted(maps: set<StateMap>, u: StateMap) {
    && (forall k :: k in u ==> Somewhere(maps, k, u[k]) && Everywhere(maps, k, u[k]))
    && (forall k, v :: Somewhere(maps, k, v) && Everywhere(maps, k, v) ==> k in u && u[k] == v)
  }

  /** `c` lists every other value under its key, and no key without such a value. */
  ghost predicate IsConflicted(maps: set<StateMap>, c: map<Key, set<EventId>>) {
    && (forall k, v :: k in c && v in c[k] <==> Somewhere(maps, k, v) && !Everywhere(maps, k, v))
    && (forall k :: k in c ==> c[k] != {})
  }

  lemma UnconflictedUnique(maps: set<StateMap>, u: StateMap, w: StateMap)
    requires IsUnconflicted(maps, u) && IsUnconflicted(maps, w)
    ensures u == w
  {
  }

  lemma ConflictedUnique(maps: set<StateMap>, c: map<Key, set<EventId>>, e: map<Key, set<EventId>>)
    requires IsConflicted(maps, c) && IsConflicted(maps, e)
    ensures c == e
  {
    forall k | k in c ensures k in e && c[k] == e[k] { ConflictedIncludes(maps, c, e, k); }
    forall k | k in e ensures k in c { ConflictedIncludes(maps, e, c, k); }
  }

  lemma ConflictedIncludes(maps: set<StateMap>, c: map<Key, set<EventId>>, e: map<Key, set<EventId>>, k: Key)
    requires IsConflicted(maps, c) && IsConflicted(maps, e) && k in c
    ensures k in e && c[k] == e[k]
  {
  }

  ghost predicate Unanimous(maps: set<StateMap>, k: Key) {
    exists v :: Somewhere(maps, k, v) && Everywhere(maps, k, v)
  }

  /** The unconflicted state map of a set of state maps. */
  ghost function Unconflicted(maps: set<StateMap>): (u: StateMap)
    ensures IsUnconflicted(maps, u)
  {
    assert forall k, v :: Somewhere(maps, k, v) ==> k in KeysOf(maps);
    map k | k in KeysOf(maps) && Unanimous(maps, k) :: var v :| Somewhere(maps, k, v) && Everywhere(maps, k, v); v
  }

  /** The conflicted state set of a set of state maps. */
  ghost function Conflicted(maps: set<StateMap>): (c: map<Key, set<EventId>>)
    ensures IsConflicted(maps, c)
  {
    var c := map k | k in KeysOf(maps) && !Unanimous(maps, k) :: ValuesAt(maps, k);
    assert IsConflicted(maps, c) by { ConflictedIsConflicted(maps, c); }
    c
  }

  lemma ConflictedIsConflicted(maps: set<StateMap>, c: map<Key, set<EventId>>)
    requires c == map k | k in KeysOf(maps) && !Unanimous(maps, k) :: ValuesAt(maps, k)
    ensures IsConflicted(maps, c)
  {
    forall k, v ensures k in c && v in c[k] <==> Somewhere(maps, k, v) && !Everywhere(maps, k, v) {
      if Somewhere(maps, k, v) {
        assert k in KeysOf(maps) && v in ValuesAt(maps, k);
        if w :| Somewhere(maps, k, w) && Everywhere(maps, k, w) { assert w == v; }
      }
    }
    forall k | k in c ensures c[k] != {} {
      var m :| m in maps && k in m;
      assert m[k] in ValuesAt(maps, k);
    }
  }

  /** The events that are in some auth chain but not in all of them. */
  ghost function AuthDifference(chains: set<set<EventId>>): set<EventId> {
    set c, id | c in chains && id in c && !InAll(chains, id) :: id
  }

  ghost predicate InAll(chains: set<set<EventId>>, id: EventId) {
    forall c :: c in chains ==> id in c
  }

  ghost predicate InSome(chains: set<set<EventId>>, id: EventId) {
    exists c :: c in chains && id in c
  }

  // ---------------------------------------------------------------- counting

  /** How many of the first `n` maps have the pair. */
  function Count(maps: seq<StateMap>, k: Key, v: EventId): nat {
    if maps == [] then 0
    else
      var m := maps[|maps| - 1];
      Count(maps[..|maps| - 1], k, v) + (if k in m && m[k] == v then 1 else 0)
  }

  lemma {:induction false} CountMeans(maps: seq<StateMap>, k: Key, v: EventId)
    ensures Count(maps, k, v) <= |maps|
    ensures Count(maps, k, v) > 0 <==> Somewhere(Elems(maps), k, v)
    ensures Count(maps, k, v) == |maps| <==> Everywhere(Elems(maps), k, v)
    decreases |maps|
  {
    if maps != [] {
      var front, m := maps[..|maps| - 1], maps[|maps| - 1];
      assert maps == front + [m];
      ElemsAppend(front, m);
      CountMeans(front, k, v);
      assert m in Elems(maps);
    }
  }

  type Occurrences = map<Key, map<EventId, nat>>

  function Times(occ: Occurrences, k: Key, v: EventId): nat {
    if k in occ && v in occ[k] then occ[k][v] else 0
  }

  /** The table counts every pair of the maps, and lists no pair that does not occur. */
  ghost predicate Counts(maps: seq<StateMap>, occ: Occurrences) {
    && (forall k, v :: Times(occ, k, v) == Count(maps, k, v))
    && (forall k, v :: k in occ && v in occ[k] ==> occ[k][v] > 0)
  }

  /** Count the pairs of one more map, in any order. */
  method CountMap(occ: Occurrences, m: StateMap) returns (r: Occurrences)
    requires forall k, v :: k in occ && v in occ[k] ==> occ[k][v] > 0
    ensures forall k, v :: Times(r, k, v) == Times(occ, k, v) + (if k in m && m[k] == v then 1 else 0)
    ensures forall k, v :: k in r && v in r[k] ==> r[k][v] > 0
  {
    r := occ;
    var todo := m.Keys;
    while todo != {}
      invariant todo <= m.Keys
      invariant forall k, v :: Times(r, k, v) == Times(occ, k, v) + (if k in m && k !in todo && m[k] == v then 1 else 0)
      invariant forall k, v :: k in r && v in r[k] ==> r[k][v] > 0
      decreases todo
    {
      var k :| k in todo;
      todo := todo - {k};
      var v := m[k];
      var row: map<EventId, nat> := if k in r then r[k] else map[];
      r := r[k := row[v := (if v in row then row[v] else 0) + 1]];
    }
  }

  method CountMaps(maps: seq<StateMap>) returns (occ: Occurrences)
    ensures Counts(maps, occ)
  {
    occ := map[];
    for i := 0 to |maps|
      invariant Counts(maps[..i], occ)
    {
      assert maps[..i + 1][..i] == maps[..i];
      occ := CountMap(occ, maps[i]);
    }
    assert maps[..|maps|] == maps;
  }

  /** The values of the row counted `n` times, or the others. */
  function Full(row: map<EventId, nat>, n: nat): set<EventId> {
    set v | v in row && row[v] == n
  }

  function Partial(row: map<EventId, nat>, n: nat): set<EventId> {
    set v | v in row && row[v] != n
  }

  /** The outputs are right for the keys of `done`, and silent about other keys. */
  ghost predicate Sorted(occ: Occurrences, n: nat, done: set<Key>, u: StateMap, c: map<Key, seq<EventId>>) {
    && u.Keys + c.Keys <= done <= occ.Keys
    && (forall k :: k in u ==> u[k] in Full(occ[k], n))
    && (forall k :: k in done && Full(occ[k], n) != {} ==> k in u)
    && (forall k :: k in c ==> Distinct(c[k]) && Elems(c[k]) == Partial(occ[k], n) && c[k] != [])
    && (forall k :: k in done && Partial(occ[k], n) != {} ==> k in c)
  }

  /** One key: its unanimous value, if any, and the list of its other values. */
  method SortRow(row: map<EventId, nat>, n: nat) returns (unanimous: Option<EventId>, others: seq<EventId>)
    ensures unanimous.Some? <==> Full(row, n) != {}
    ensures unanimous.Some? ==> unanimous.value in Full(row, n)
    ensures Distinct(others) && Elems(others) == Partial(row, n)
  {
    unanimous, others := None, [];
    var todo := row.Keys;
    while todo != {}
      invariant todo <= row.Keys
      invariant unanimous.Some? <==> Full(row, n) - todo != {}
      invariant unanimous.Some? ==> unanimous.value in Full(row, n)
      invariant Distinct(others) && Elems(others) == Partial(row, n) - todo
      decreases todo
    {
      var v :| v in todo;
      assert v !in Elems(others);
      todo := todo - {v};
      if row[v] == n {
        unanimous := Some(v);
        assert v in Full(row, n) - todo;
      } else {
        ElemsAppend(others, v);
        others := others + [v];
      }
    }
  }

  method SplitConflicted(maps: seq<StateMap>) returns (u: StateMap, c: map<Key, seq<EventId>>)
    ensures IsUnconflicted(Elems(maps), u)
    ensures IsConflicted(Elems(maps), map k | k in c :: Elems(c[k]))
    ensures forall k :: k in c ==> Distinct(c[k])
  {
    var occ := CountMaps(maps);
    u, c := map[], map[];
    var todo := occ.Keys;
    while todo != {}
      invariant todo <= occ.Keys && Sorted(occ, |maps|, occ.Keys - todo, u, c)
      decreases todo
    {
      var k :| k in todo;
      todo := todo - {k};
      var unanimous, others := SortRow(occ[k], |maps|);
      ElemsEmpty(others);
      if unanimous.Some? { u := u[k := unanimous.value]; }
      if others != [] { c := c[k := others]; }
    }
    SplitMeetsSpec(maps, occ, u, c);
  }

  lemma SplitMeetsSpec(maps: seq<StateMap>, occ: Occurrences, u: StateMap, c: map<Key, seq<EventId>>)
    requires Counts(maps, occ) && Sorted(occ, |maps|, occ.Keys, u, c)
    ensures IsUnconflicted(Elems(maps), u)
    ensures IsConflicted(Elems(maps), map k | k in c :: Elems(c[k]))
  {
    var all, n, e := Elems(maps), |maps|, map k | k in c :: Elems(c[k]);
    forall k, v
      ensures k in occ && v in Full(occ[k], n) <==> Somewhere(all, k, v) && Everywhere(all, k, v)
      ensures k in occ && v in Partial(occ[k], n) <==> Somewhere(all, k, v) && !Everywhere(all, k, v)
    {
      CountMeans(maps, k, v);
      assert Times(occ, k, v) == Count(maps, k, v);
    }
    forall k, v | Somewhere(all, k, v) && Everywhere(all, k, v) ensures k in u && u[k] == v {
      assert v in Full(occ[k], n);
      assert u[k] in Full(occ[k], n);
      assert Everywhere(all, k, u[k]);
    }
    forall k, v ensures k in e && v in e[k] <==> Somewhere(all, k, v) && !Everywhere(all, k, v) {
      if k in occ && v in Partial(occ[k], n) { assert k in c; }
    }
    forall k | k in e ensures e[k] != {} { ElemsEmpty(c[k]); }
  }

  // ---------------------------------------------------------------- auth difference

  function ChainCount(chains: seq<set<EventId>>, id: EventId): nat {
    if chains == [] then 0
    else ChainCount(chains[..|chains| - 1], id) + (if id in chains[|chains| - 1] then 1 else 0)
  }

  lemma {:induction false} ChainCountMeans(chains: seq<set<EventId>>, id: EventId)
    ensures ChainCount(chains, id) <= |chains|
    ensures ChainCount(chains, id) > 0 <==> InSome(Elems(chains), id)
    ensures ChainCount(chains, id) == |chains| <==> InAll(Elems(chains), id)
    decreases |chains|
  {
    if chains != [] {
      var front, c := chains[..|chains| - 1], chains[|chains| - 1];
      assert chains == front + [c];
      ElemsAppend(front, c);
      ChainCountMeans(front, id);
      OneMoreChain(Elems(front), c, id);
    }
  }

  lemma OneMoreChain(chains: set<set<EventId>>, c: set<EventId>, id: EventId)
    ensures InSome(chains + {c}, id) <==> InSome(chains, id) || id in c
    ensures InAll(chains + {c}, id) <==> InAll(chains, id) && id in c
  {
  }

  ghost predicate ChainCounts(chains: seq<set<EventId>>, counts: map<EventId, nat>) {
    && (forall id :: id in counts ==> counts[id] == ChainCount(chains, id) > 0)
    && (forall id :: ChainCount(chains, id) > 0 ==> id in counts)
  }

  method CountChain(counts: map<EventId, nat>, chain: set<EventId>) returns (r: map<EventId, nat>)
    ensures r.Keys == counts.Keys + chain
    ensures forall id :: id in r ==>
      r[id] == (if id in counts then counts[id] else 0) + (if id in chain then 1 else 0)
  {
    r := counts;
    var todo := chain;
    while todo != {}
      invariant todo <= chain && r.Keys == counts.Keys + (chain - todo)
      invariant forall id :: id in r ==>
        r[id] == (if id in counts then counts[id] else 0) + (if id in chain && id !in todo then 1 else 0)
      decreases todo
    {
      var id :| id in todo;
      todo := todo - {id};
      r := r[id := (if id in r then r[id] else 0) + 1];
    }
  }

  method AuthDiff(chains: seq<set<EventId>>) returns (r: set<EventId>)
    ensures r == AuthDifference(Elems(chains))
  {
    var counts: map<EventId, nat> := map[];
    for i := 0 to |chains|
      invariant ChainCounts(chains[..i], counts)
    {
      assert chains[..i + 1][..i] == chains[..i];
      counts := CountChain(counts, chains[i]);
    }
    assert chains[..|chains|] == chains;
    r := set id | id in counts && counts[id] < |chains|;
    forall id ensures id in r <==> id in AuthDifference(Elems(chains)) {
      ChainCountMeans(chains, id);
    }
  }

  // ---------------------------------------------------------------- copies of one state

  /** Copies of one state map have no conflict, and agree on all of it. */
  lemma OneMapUnanimous(m: StateMap, u: StateMap, c: map<Key, set<EventId>>)
    requires IsUnconflicted({m}, u) && IsConflicted({m}, c)
    ensures u == m && c == map[]
  {
    forall k | k in m ensures k in u && u[k] == m[k] {
      assert Somewhere({m}, k, m[k]) && Everywhere({m}, k, m[k]);
    }
    forall k | k in u ensures k in m { assert Somewhere({m}, k, u[k]); }
    forall k, v | Somewhere({m}, k, v) ensures Everywhere({m}, k, v) {
    }
  }
}
