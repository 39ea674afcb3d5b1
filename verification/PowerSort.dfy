/**
 * The reverse topological power ordering: Kahn's algorithm over the auth-event graph, always
 * taking the smallest candidate.
 */
module PowerSort {
  import opened Orders
  import opened Events

  /** Each event of the graph with the auth events it depends on. */
  type Graph = map<EventId, set<EventId>>

  datatype Detail = Detail(level: UserPowerLevel, ts: nat)

  /** The tie-breaking data of the events it is known for. */
  type Details = map<EventId, Detail>

  datatype TieBreaker = TieBreaker(level: UserPowerLevel, ts: nat, id: EventId) {
    /** The power level comparison is backwards: greater power sorts first. */
    function Cmp(other: TieBreaker): Ordering {
      CmpLevel(other.level, level).Then(CmpInt(ts, other.ts)).Then(CmpString(id, other.id))
    }
  }

  /** An event without details never reaches the heap; it gets a fixed level to keep this total. */
  function Tie(d: Details, id: EventId): TieBreaker {
    if id in d then TieBreaker(d[id].level, d[id].ts, id) else TieBreaker(Int(0), 0, id)
  }

  predicate Before(d: Details, x: EventId, y: EventId) {
    Tie(d, x).Cmp(Tie(d, y)) == Less
  }

  /** The relation of the Matrix specification: greater power level, then earlier timestamp, then smaller event ID. */
  ghost predicate SpecifiedBefore(d: Details, x: EventId, y: EventId) {
    var a := if x in d then d[x] else Detail(Int(0), 0);
    var b := if y in d then d[y] else Detail(Int(0), 0);
    || HigherLevel(a.level, b.level)
    || (a.level == b.level && a.ts < b.ts)
    || (a.level == b.level && a.ts == b.ts && StringBefore(x, y))
  }

  lemma BeforeIsTheSpecifiedRelation(d: Details, x: EventId, y: EventId)
    ensures Before(d, x, y) <==> SpecifiedBefore(d, x, y)
  {
    CmpLevelMeans(Tie(d, x).level, Tie(d, y).level);
    CmpStringMeans(x, y);
  }

  lemma BeforeStrictTotal(d: Details)
    ensures StrictTotal((x, y) => Before(d, x, y))
  {
    forall x, y ensures !Before(d, x, x) && (x == y || Before(d, x, y) || Before(d, y, x)) {
      BeforeConnected(d, x, y);
    }
    forall x, y, z | Before(d, x, y) && Before(d, y, z) ensures Before(d, x, z) {
      BeforeTransitive(d, x, y, z);
    }
  }

  lemma BeforeConnected(d: Details, x: EventId, y: EventId)
    ensures !Before(d, x, x)
    ensures x == y || Before(d, x, y) || Before(d, y, x)
  {
    CmpStringEqual(x, x);
    CmpStringEqual(x, y);
    CmpStringFlip(y, x);
  }

  lemma BeforeTransitive(d: Details, x: EventId, y: EventId, z: EventId)
    requires Before(d, x, y) && Before(d, y, z)
    ensures Before(d, x, z)
  {
    if CmpString(x, y) == Less && CmpString(y, z) == Less {
      CmpStringTransitive(x, y, z);
    }
  }

  // ---------------------------------------------------------------- specification

  /** The candidates: events not yet placed whose auth events are all placed. */
  ghost function Ready(g: Graph, done: set<EventId>): set<EventId> {
    set v | v in g && v !in done && g[v] <= done
  }

  ghost predicate IsLeast(d: Details, among: set<EventId>, m: EventId) {
    m in among && forall x :: x in among && x != m ==> Before(d, m, x)
  }

  lemma {:induction false} LeastExists(d: Details, among: set<EventId>)
    requires among != {}
    ensures exists m :: IsLeast(d, among, m)
    decreases among
  {
    var x :| x in among;
    if among == {x} {
      assert IsLeast(d, among, x);
    } else {
      LeastExists(d, among - {x});
      var m :| IsLeast(d, among - {x}, m);
      if Before(d, x, m) {
        forall y | y in among && y != x ensures Before(d, x, y) {
          if y != m { BeforeTransitive(d, x, m, y); }
        }
        assert IsLeast(d, among, x);
      } else {
        BeforeConnected(d, x, m);
        assert IsLeast(d, among, m);
      }
    }
  }

  lemma LeastUnique(d: Details, among: set<EventId>, m: EventId, n: EventId)
    requires IsLeast(d, among, m) && IsLeast(d, among, n)
    ensures m == n
  {
    if m != n {
      BeforeTransitive(d, m, n, m);
      BeforeConnected(d, m, n);
    }
  }

  ghost function Least(d: Details, among: set<EventId>): (m: EventId)
    requires among != {}
    ensures IsLeast(d, among, m)
  {
    LeastExists(d, among);
    var m :| IsLeast(d, among, m);
    m
  }

  /** Place candidates smallest first, from the prefix `done` until none is left. */
  ghost function KahnFrom(g: Graph, d: Details, done: seq<EventId>): seq<EventId>
    decreases |g.Keys - Elems(done)|
  {
    var ready := Ready(g, Elems(done));
    if ready == {} then done
    else
      var next := Least(d, ready);
      ElemsAppend(done, next);
      assert g.Keys - Elems(done + [next]) == g.Keys - Elems(done) - {next};
      KahnFrom(g, d, done + [next])
  }

  ghost function KahnOrder(g: Graph, d: Details): seq<EventId> {
    KahnFrom(g, d, [])
  }

  /** A path follows edges: each event but the last is in the graph and depends on the next one. */
  ghost predicate IsPath(g: Graph, p: seq<EventId>) {
    p != [] && forall i :: 0 <= i < |p| - 1 ==> p[i] in g && p[i + 1] in g[p[i]]
  }

  /** A cycle, or an event missing from the graph, can be reached from `v`. */
  ghost predicate Blocked(g: Graph, v: EventId) {
    exists p :: IsPath(g, p) && p[0] == v && (p[|p| - 1] !in g || !Distinct(p))
  }

  /** Every event of `s` comes after all the events it depends on. */
  ghost predicate DependenciesFirst(g: Graph, s: seq<EventId>) {
    Elems(s) <= g.Keys && forall i :: 0 <= i < |s| ==> g[s[i]] <= Elems(s[..i])
  }

  ghost predicate IsTopological(g: Graph, s: seq<EventId>) {
    Distinct(s) && Elems(s) == g.Keys && DependenciesFirst(g, s)
  }

  /** `s` is `t`, or comes before it at the first place where they differ. */
  ghost predicate LexAtMost(d: Details, s: seq<EventId>, t: seq<EventId>) {
    s == t || exists i :: 0 <= i < |s| && i < |t| && s[..i] == t[..i] && SpecifiedBefore(d, s[i], t[i])
  }

  /** The ordering the Matrix specification asks for. */
  ghost predicate IsReverseTopologicalPowerOrdering(g: Graph, d: Details, s: seq<EventId>) {
    IsTopological(g, s) && forall t :: IsTopological(g, t) ==> LexAtMost(d, s, t)
  }

  // ---------------------------------------------------------------- properties of KahnOrder

  /** What every prefix that Kahn's algorithm builds satisfies. */
  ghost predicate Greedy(g: Graph, d: Details, s: seq<EventId>) {
    forall i :: 0 <= i < |s| ==> IsLeast(d, Ready(g, Elems(s[..i])), s[i])
  }

  lemma GreedyAppend(g: Graph, d: Details, s: seq<EventId>, x: EventId)
    requires Greedy(g, d, s) && IsLeast(d, Ready(g, Elems(s)), x)
    ensures Greedy(g, d, s + [x])
  {
    var t := s + [x];
    forall i | 0 <= i < |t| ensures IsLeast(d, Ready(g, Elems(t[..i])), t[i]) {
      if i < |s| { assert t[..i] == s[..i]; } else { assert t[..i] == s; }
    }
  }

  lemma {:induction false} KahnFromIsGreedy(g: Graph, d: Details, done: seq<EventId>)
    requires Greedy(g, d, done)
    ensures Greedy(g, d, KahnFrom(g, d, done))
    ensures Ready(g, Elems(KahnFrom(g, d, done))) == {}
    decreases |g.Keys - Elems(done)|
  {
    var ready := Ready(g, Elems(done));
    if ready != {} {
      var next := Least(d, ready);
      GreedyAppend(g, d, done, next);
      ElemsAppend(done, next);
      assert g.Keys - Elems(done + [next]) == g.Keys - Elems(done) - {next};
      KahnFromIsGreedy(g, d, done + [next]);
    }
  }

  lemma GreedyOrders(g: Graph, d: Details, s: seq<EventId>)
    requires Greedy(g, d, s)
    ensures Distinct(s) && DependenciesFirst(g, s)
  {
  }

  /** From a placed event every path stays among placed events and runs strictly backwards. */
  lemma {:induction false} PathRunsBackwards(g: Graph, s: seq<EventId>, p: seq<EventId>, at: nat)
    requires Distinct(s) && DependenciesFirst(g, s) && IsPath(g, p) && at < |s| && s[at] == p[0]
    ensures Distinct(p) && p[|p| - 1] in g
    ensures forall k :: 0 < k < |p| ==> p[k] in Elems(s[..at])
    decreases |p|
  {
    if |p| > 1 {
      assert p[1] in g[p[0]];
      var next :| 0 <= next < at && s[..at][next] == p[1];
      PathRunsBackwards(g, s, p[1..], next);
      forall k | 0 < k < |p| ensures p[k] in Elems(s[..at]) {
        if k > 1 {
          assert p[1..][k - 1] in Elems(s[..next]);
          assert s[..next] == s[..at][..next];
        }
      }
      assert p == [p[0]] + p[1..];
      assert p[0] !in s[..at];
    }
  }

  /** An event that is never placed starts a path as long as one likes, unless it leaves the graph. */
  lemma {:induction false} StuckPath(g: Graph, placed: set<EventId>, v: EventId, n: nat) returns (p: seq<EventId>)
    requires Ready(g, placed) == {} && v in g && v !in placed
    ensures IsPath(g, p) && p[0] == v
    ensures p[|p| - 1] !in g || (|p| == n + 1 && Elems(p) <= g.Keys)
    decreases n
  {
    p := [v];
    if n > 0 {
      assert v !in Ready(g, placed);
      var u :| u in g[v] && u !in placed;
      if u in g {
        var rest := StuckPath(g, placed, u, n - 1);
        p := [v] + rest;
      } else {
        p := [v, u];
      }
    }
  }

  lemma PlacedIsUnblocked(g: Graph, s: seq<EventId>, v: EventId)
    requires Distinct(s) && DependenciesFirst(g, s) && v in s
    ensures !Blocked(g, v)
  {
    var at :| 0 <= at < |s| && s[at] == v;
    forall p | IsPath(g, p) && p[0] == v ensures p[|p| - 1] in g && Distinct(p) {
      PathRunsBackwards(g, s, p, at);
    }
  }

  lemma UnplacedIsBlocked(g: Graph, placed: set<EventId>, v: EventId)
    requires Ready(g, placed) == {} && v in g && v !in placed
    ensures Blocked(g, v)
  {
    var p := StuckPath(g, placed, v, |g.Keys|);
    if p[|p| - 1] in g { Pigeonhole(p, g.Keys); }
  }

  /** Each event is placed exactly when no cycle and no missing event can be reached from it. */
  lemma KahnPlacesExactlyTheUnblocked(g: Graph, d: Details)
    ensures Distinct(KahnOrder(g, d)) && DependenciesFirst(g, KahnOrder(g, d))
    ensures Elems(KahnOrder(g, d)) == set v | v in g && !Blocked(g, v)
  {
    var s := KahnOrder(g, d);
    KahnFromIsGreedy(g, d, []);
    GreedyOrders(g, d, s);
    forall v | v in g ensures v in Elems(s) <==> !Blocked(g, v) {
      if v in s { PlacedIsUnblocked(g, s, v); } else { UnplacedIsBlocked(g, Elems(s), v); }
    }
  }

  /** On a closed acyclic graph Kahn's algorithm gives the lexicographically smallest order. */
  lemma KahnIsTheSpecifiedOrdering(g: Graph, d: Details)
    requires forall v :: v in g ==> !Blocked(g, v)
    ensures IsReverseTopologicalPowerOrdering(g, d, KahnOrder(g, d))
  {
    var s := KahnOrder(g, d);
    KahnPlacesExactlyTheUnblocked(g, d);
    KahnFromIsGreedy(g, d, []);
    forall t | IsTopological(g, t) ensures LexAtMost(d, s, t) {
      GreedyAtMost(g, d, s, t, 0);
    }
  }

  lemma SameLength(g: Graph, s: seq<EventId>, t: seq<EventId>)
    requires IsTopological(g, s) && IsTopological(g, t)
    ensures |s| == |t|
  {
    DistinctSize(s);
    DistinctSize(t);
  }

  lemma {:induction false} GreedyAtMost(g: Graph, d: Details, s: seq<EventId>, t: seq<EventId>, i: nat)
    requires Greedy(g, d, s) && IsTopological(g, s) && IsTopological(g, t)
    requires i <= |s| && i <= |t| && s[..i] == t[..i]
    ensures LexAtMost(d, s, t)
    decreases |s| - i
  {
    SameLength(g, s, t);
    if i == |s| {
      assert s == s[..i] && t == t[..i];
    } else if s[i] == t[i] {
      assert s[..i + 1] == s[..i] + [s[i]] && t[..i + 1] == t[..i] + [t[i]];
      GreedyAtMost(g, d, s, t, i + 1);
    } else {
      FirstChoice(g, d, s, t, i);
      BeforeIsTheSpecifiedRelation(d, s[i], t[i]);
    }
  }

  /** Where the two first differ the greedy order took the least of what was ready. */
  lemma FirstChoice(g: Graph, d: Details, s: seq<EventId>, t: seq<EventId>, i: nat)
    requires Greedy(g, d, s) && IsTopological(g, t)
    requires i < |s| && i < |t| && s[..i] == t[..i] && s[i] != t[i]
    ensures Before(d, s[i], t[i])
  {
  }

  /** There is only one such order, so the order hash maps are iterated in cannot show. */
  lemma SpecifiedOrderingUnique(g: Graph, d: Details, s: seq<EventId>, t: seq<EventId>)
    requires IsReverseTopologicalPowerOrdering(g, d, s) && IsReverseTopologicalPowerOrdering(g, d, t)
    ensures s == t
  {
    if s != t {
      var i :| 0 <= i < |s| && i < |t| && s[..i] == t[..i] && SpecifiedBefore(d, s[i], t[i]);
      var j :| 0 <= j < |t| && j < |s| && t[..j] == s[..j] && SpecifiedBefore(d, t[j], s[j]);
      BeforeIsTheSpecifiedRelation(d, s[i], t[i]);
      BeforeIsTheSpecifiedRelation(d, t[j], s[j]);
      BeforeConnected(d, s[i], t[i]);
      BeforeConnected(d, t[j], s[j]);
      SameFirstDifference(s, t, i, j);
      BeforeTransitive(d, s[i], t[i], s[i]);
    }
  }

  lemma SameFirstDifference(s: seq<EventId>, t: seq<EventId>, i: nat, j: nat)
    requires i < |s| && i < |t| && s[..i] == t[..i] && s[i] != t[i]
    requires j < |s| && j < |t| && s[..j] == t[..j] && s[j] != t[j]
    ensures i == j
  {
  }

  /** The order depends on the details only through the events still to be placed. */
  lemma {:induction false} KahnAgrees(g: Graph, d: Details, e: Details, done: seq<EventId>)
    requires forall v :: v in g && v !in done ==> Tie(d, v) == Tie(e, v)
    ensures KahnFrom(g, d, done) == KahnFrom(g, e, done)
    decreases |g.Keys - Elems(done)|
  {
    var ready := Ready(g, Elems(done));
    if ready != {} {
      var next := Least(d, ready);
      assert IsLeast(e, ready, next);
      LeastUnique(e, ready, next, Least(e, ready));
      ElemsAppend(done, next);
      assert g.Keys - Elems(done + [next]) == g.Keys - Elems(done) - {next};
      KahnAgrees(g, d, e, done + [next]);
    }
  }

  /** An event that all others depend on comes first, whatever its own details are. */
  lemma KahnIgnoresTheRoot(g: Graph, d: Details, e: Details, root: EventId)
    requires root in g && g[root] == {}
    requires forall v :: v in g && v != root ==> root in g[v] && Tie(d, v) == Tie(e, v)
    ensures KahnOrder(g, d) == KahnOrder(g, e)
  {
    assert Elems<EventId>([]) == {};
    var ready := Ready(g, {});
    assert ready == {root};
    assert Least(d, ready) == root && Least(e, ready) == root;
    KahnAgrees(g, d, e, [root]);
    assert [] + [root] == [root];
  }

  /** An event without edges that no event depends on can be left out: the order of the others stays. */
  lemma KahnIgnoresTheIsolated(g: Graph, d: Details, x: EventId)
    requires x !in g && forall v :: v in g ==> x !in g[v]
    ensures Minus(KahnOrder(g[x := {}], d), x) == KahnOrder(g, d)
  {
    KahnFromIgnoresTheIsolated(g, d, x, []);
  }

  lemma {:induction false} KahnFromIgnoresTheIsolated(g: Graph, d: Details, x: EventId, done: seq<EventId>)
    requires x !in g && forall v :: v in g ==> x !in g[v]
    ensures Minus(KahnFrom(g[x := {}], d, done), x) == KahnFrom(g, d, Minus(done, x))
    decreases |g[x := {}].Keys - Elems(done)|
  {
    var h := g[x := {}];
    var ready := Ready(h, Elems(done));
    IsolatedReady(g, x, done);
    if ready != {} {
      var next := Least(d, ready);
      ElemsAppend(done, next);
      assert h.Keys - Elems(done + [next]) == h.Keys - Elems(done) - {next};
      MinusAppend(done, x, next);
      KahnFromIgnoresTheIsolated(g, d, x, done + [next]);
      if next == x {
        assert Minus(done, x) + [] == Minus(done, x);
      } else {
        assert IsLeast(d, Ready(g, Elems(Minus(done, x))), next);
        LeastUnique(d, Ready(g, Elems(Minus(done, x))), next, Least(d, Ready(g, Elems(Minus(done, x)))));
      }
    }
  }

  lemma IsolatedReady(g: Graph, x: EventId, done: seq<EventId>)
    requires x !in g && forall v :: v in g ==> x !in g[v]
    ensures Ready(g[x := {}], Elems(done)) == Ready(g, Elems(Minus(done, x))) + (if x in Elems(done) then {} else {x})
  {
    MinusElems(done, x);
  }

  // ---------------------------------------------------------------- the algorithm

  lemma {:induction false} ReadyIsPlaced(g: Graph, d: Details, done: seq<EventId>, v: EventId)
    requires v in Ready(g, Elems(done)) || v in done
    ensures v in KahnFrom(g, d, done)
    decreases |g.Keys - Elems(done)|
  {
    var ready := Ready(g, Elems(done));
    if ready != {} {
      var next := Least(d, ready);
      ElemsAppend(done, next);
      assert g.Keys - Elems(done + [next]) == g.Keys - Elems(done) - {next};
      ReadyIsPlaced(g, d, done + [next], v);
    }
  }

  /** The heap holds exactly the given candidates, each with its own tie-breaking data. */
  ghost predicate HeapHolds(d: Details, heap: set<TieBreaker>, ids: set<EventId>) {
    && ids <= d.Keys
    && (forall t :: t in heap ==> t.id in ids && t == Tie(d, t.id))
    && (forall v :: v in ids ==> Tie(d, v) in heap)
  }

  /** The events of `among` that depend on `u`. */
  ghost function Dependents(g: Graph, among: set<EventId>, u: EventId): set<EventId> {
    set v | v in among && v in g && u in g[v]
  }

  function Edges(m: Graph, id: EventId): set<EventId> {
    if id in m then m[id] else {}
  }

  /** The map of incoming edges gives the dependents, among `seen`, of every event. */
  ghost predicate IncomingHolds(g: Graph, incoming: Graph, seen: set<EventId>) {
    forall u :: Edges(incoming, u) == Dependents(g, seen, u)
  }

  /** Take the smallest element off the heap. */
  method PopLeast(d: Details, heap: set<TieBreaker>, ghost ids: set<EventId>)
    returns (top: TieBreaker, rest: set<TieBreaker>)
    requires heap != {} && HeapHolds(d, heap, ids)
    ensures IsLeast(d, ids, top.id) && HeapHolds(d, rest, ids - {top.id})
  {
    top :| top in heap;
    var todo := heap - {top};
    while todo != {}
      invariant top in heap && todo <= heap - {top}
      invariant forall t :: t in heap && t !in todo && t != top ==> Before(d, top.id, t.id)
      decreases todo
    {
      var t :| t in todo;
      BeforeConnected(d, t.id, top.id);
      if t.Cmp(top) == Less {
        forall u | u in heap && u !in todo && u != top ensures Before(d, t.id, u.id) {
          BeforeTransitive(d, t.id, top.id, u.id);
        }
        top := t;
      }
      todo := todo - {t};
    }
    rest := heap - {top};
    forall v | v in ids && v != top.id ensures Before(d, top.id, v) && Tie(d, v) in rest {
      assert Tie(d, v) in heap;
    }
  }

  /** Record `id` as a dependent of each of its edges. */
  method AddIncoming(incoming: Graph, id: EventId, edges: set<EventId>) returns (r: Graph)
    ensures forall u :: Edges(r, u) == Edges(incoming, u) + (if u in edges then {id} else {})
  {
    r := incoming;
    var todo := edges;
    while todo != {}
      invariant todo <= edges
      invariant forall u :: Edges(r, u) == Edges(incoming, u) + (if u in edges && u !in todo then {id} else {})
      decreases todo
    {
      var u :| u in todo;
      r := r[u := Edges(r, u) + {id}];
      todo := todo - {u};
    }
  }

  /** The map of outgoing edges lists `live` events, each with its edges outside `done`. */
  ghost predicate OutgoingHolds(g: Graph, outgoing: Graph, live: set<EventId>, done: set<EventId>) {
    outgoing.Keys == live <= g.Keys && forall v :: v in live ==> outgoing[v] == g[v] - done
  }

  /** Events that are neither placed nor candidates. */
  ghost function Waiting(g: Graph, done: set<EventId>): set<EventId> {
    g.Keys - done - Ready(g, done)
  }

  /** `x` is placed next after `done`, which has all it depends on. */
  ghost predicate Placing(g: Graph, done: set<EventId>, x: EventId) {
    x in Ready(g, done) && forall v :: v in done ==> v in g && g[v] <= done
  }

  /** The events among these that wait for nothing once `done` is placed. */
  ghost function Freed(g: Graph, done: set<EventId>, among: set<EventId>): set<EventId> {
    set v | v in among && v in g && g[v] <= done
  }

  /** The edges to `x` have been removed from the dependents in `seen`, and from no other event. */
  ghost predicate ReleaseState(g: Graph, d: Details, done: set<EventId>, x: EventId, seen: set<EventId>,
                               out: Graph, heap: set<TieBreaker>) {
    && out.Keys == Waiting(g, done) - Freed(g, done + {x}, seen)
    && (forall v :: v in out ==> v in g && out[v] == g[v] - (if v in seen then done + {x} else done))
    && HeapHolds(d, heap, Ready(g, done) - {x} + Freed(g, done + {x}, seen))
  }

  /**
   * The event `x` has just been placed after `done`: remove its edges, and move each dependent
   * without edges left to the heap.
   */
  method Release(g: Graph, d: Details, ghost done: set<EventId>, x: EventId, dependents: set<EventId>,
                 outgoing: Graph, heap: set<TieBreaker>)
    returns (r: Result<(Graph, set<TieBreaker>), StateError>)
    requires Placing(g, done, x) && dependents == Dependents(g, g.Keys, x)
    requires OutgoingHolds(g, outgoing, Waiting(g, done), done)
    requires HeapHolds(d, heap, Ready(g, done) - {x})
    ensures r.Err? ==> r.error.NotFound? && r.error.id in Ready(g, done + {x}) - d.Keys
    ensures r.Ok? ==> OutgoingHolds(g, r.value.0, Waiting(g, done + {x}), done + {x})
    ensures r.Ok? ==> HeapHolds(d, r.value.1, Ready(g, done + {x}))
  {
    var out, hp := outgoing, heap;
    var todo := dependents;
    ghost var seen: set<EventId> := {};
    NothingReleased(g, d, done, x, out, hp);
    while todo != {}
      invariant seen !! todo && seen + todo == dependents && ReleaseState(g, d, done, x, seen, out, hp)
      decreases todo
    {
      var parent :| parent in todo;
      var next := ReleaseOne(g, d, done, x, parent, seen, out, hp);
      if next.Err? { return Err(next.error); }
      out, hp := next.value.0, next.value.1;
      todo, seen := todo - {parent}, seen + {parent};
    }
    assert seen == dependents;
    AllReleased(g, d, done, x, out, hp);
    r := Ok((out, hp));
  }

  lemma NothingReleased(g: Graph, d: Details, done: set<EventId>, x: EventId, out: Graph, heap: set<TieBreaker>)
    requires OutgoingHolds(g, out, Waiting(g, done), done) && HeapHolds(d, heap, Ready(g, done) - {x})
    ensures ReleaseState(g, d, done, x, {}, out, heap)
  {
  }

  lemma AllReleased(g: Graph, d: Details, done: set<EventId>, x: EventId, out: Graph, heap: set<TieBreaker>)
    requires Placing(g, done, x) && ReleaseState(g, d, done, x, Dependents(g, g.Keys, x), out, heap)
    ensures OutgoingHolds(g, out, Waiting(g, done + {x}), done + {x})
    ensures HeapHolds(d, heap, Ready(g, done + {x}))
  {
  }

  /** Remove the edge from one dependent to `x`; without edges left it moves to the heap. */
  method ReleaseOne(g: Graph, d: Details, ghost done: set<EventId>, x: EventId, parent: EventId, ghost seen: set<EventId>,
                    outgoing: Graph, heap: set<TieBreaker>)
    returns (r: Result<(Graph, set<TieBreaker>), StateError>)
    requires Placing(g, done, x) && parent in Dependents(g, g.Keys, x) - seen
    requires ReleaseState(g, d, done, x, seen, outgoing, heap)
    ensures r.Err? ==> r.error == NotFound(parent) && parent in Ready(g, done + {x}) - d.Keys
    ensures r.Ok? ==> ReleaseState(g, d, done, x, seen + {parent}, r.value.0, r.value.1)
  {
    assert parent in outgoing;  // the first `expect`
    var left := outgoing[parent] - {x};
    var out := outgoing[parent := left];
    if left == {} {
      assert Freed(g, done + {x}, seen + {parent}) == Freed(g, done + {x}, seen) + {parent};
      if parent !in d { return Err(NotFound(parent)); }
      r := Ok((out - {parent}, heap + {Tie(d, parent)}));
    } else {
      assert Freed(g, done + {x}, seen + {parent}) == Freed(g, done + {x}, seen);
      r := Ok((out, heap));
    }
  }

  /** The edge maps and the first candidates, read off the graph. */
  method Populate(g: Graph, d: Details)
    returns (r: Result<(Graph, Graph, set<TieBreaker>), StateError>)
    ensures r.Err? ==> r.error.NotFound? && r.error.id in Ready(g, {}) - d.Keys
    ensures r.Ok? ==> OutgoingHolds(g, r.value.0, Waiting(g, {}), {})
    ensures r.Ok? ==> IncomingHolds(g, r.value.1, g.Keys)
    ensures r.Ok? ==> HeapHolds(d, r.value.2, Ready(g, {}))
  {
    var outgoing, incoming, heap: set<TieBreaker> := map[], map[], {};
    var todo := g.Keys;
    while todo != {}
      invariant todo <= g.Keys
      invariant OutgoingHolds(g, outgoing, Waiting(g, {}) - todo, {})
      invariant IncomingHolds(g, incoming, g.Keys - todo)
      invariant HeapHolds(d, heap, Ready(g, {}) - todo)
      decreases todo
    {
      var id :| id in todo;
      todo := todo - {id};
      if g[id] == {} {
        if id !in d { return Err(NotFound(id)); }
        heap := heap + {Tie(d, id)};
      } else {
        incoming := AddIncoming(incoming, id, g[id]);
        outgoing := outgoing[id := g[id]];
      }
    }
    r := Ok((outgoing, incoming, heap));
  }

  /** The loop invariant: `sorted` is a prefix of the result, the heap and the edges fit it. */
  ghost predicate KahnState(g: Graph, d: Details, sorted: seq<EventId>, outgoing: Graph, heap: set<TieBreaker>) {
    && Greedy(g, d, sorted)
    && KahnFrom(g, d, sorted) == KahnOrder(g, d)
    && Elems(sorted) <= d.Keys
    && HeapHolds(d, heap, Ready(g, Elems(sorted)))
    && OutgoingHolds(g, outgoing, Waiting(g, Elems(sorted)), Elems(sorted))
  }

  /** One round of the loop: place the smallest candidate. */
  method PlaceNext(g: Graph, d: Details, incoming: Graph, sorted: seq<EventId>, outgoing: Graph, heap: set<TieBreaker>)
    returns (r: Result<(EventId, Graph, set<TieBreaker>), StateError>)
    requires heap != {} && KahnState(g, d, sorted, outgoing, heap)
    requires IncomingHolds(g, incoming, g.Keys)
    ensures r.Err? ==> r.error.NotFound? && r.error.id in Elems(KahnOrder(g, d)) - d.Keys
    ensures r.Ok? ==> KahnState(g, d, sorted + [r.value.0], r.value.1, r.value.2)
    ensures r.Ok? ==> |g.Keys - Elems(sorted + [r.value.0])| < |g.Keys - Elems(sorted)|
  {
    ghost var done := Elems(sorted);
    var top, rest := PopLeast(d, heap, Ready(g, done));
    PlacedAreClosed(g, d, sorted);
    var released := Release(g, d, done, top.id, Edges(incoming, top.id), outgoing, rest);
    KahnStep(g, d, sorted, top.id);
    if released.Err? {
      ReadyIsPlaced(g, d, sorted + [top.id], released.error.id);
      return Err(released.error);
    }
    r := Ok((top.id, released.value.0, released.value.1));
  }

  /** Kahn's algorithm with a heap, whatever order the maps and sets are iterated in. */
  method ReverseTopologicalPowerSort(g: Graph, d: Details) returns (r: Result<seq<EventId>, StateError>)
    ensures r.Ok? <==> Elems(KahnOrder(g, d)) <= d.Keys
    ensures r.Ok? ==> r.value == KahnOrder(g, d)
    ensures r.Err? ==> r.error.NotFound? && r.error.id in Elems(KahnOrder(g, d)) - d.Keys
  {
    var start := Populate(g, d);
    if start.Err? {
      ReadyIsPlaced(g, d, [], start.error.id);
      return Err(start.error);
    }
    var (outgoing, incoming, heap) := start.value;
    var sorted := [];
    KahnStart(g, d, outgoing, heap);
    while heap != {}
      invariant KahnState(g, d, sorted, outgoing, heap)
      decreases |g.Keys - Elems(sorted)|
    {
      var placed := PlaceNext(g, d, incoming, sorted, outgoing, heap);
      if placed.Err? { return Err(placed.error); }
      sorted, outgoing, heap := sorted + [placed.value.0], placed.value.1, placed.value.2;
    }
    KahnEnd(g, d, sorted, outgoing);
    r := Ok(sorted);
  }

  lemma KahnStart(g: Graph, d: Details, outgoing: Graph, heap: set<TieBreaker>)
    requires OutgoingHolds(g, outgoing, Waiting(g, {}), {}) && HeapHolds(d, heap, Ready(g, {}))
    ensures KahnState(g, d, [], outgoing, heap)
  {
    assert Elems<EventId>([]) == {};
  }

  lemma KahnEnd(g: Graph, d: Details, sorted: seq<EventId>, outgoing: Graph)
    requires KahnState(g, d, sorted, outgoing, {})
    ensures sorted == KahnOrder(g, d) && Elems(sorted) <= d.Keys
  {
  }

  lemma KahnStep(g: Graph, d: Details, s: seq<EventId>, x: EventId)
    requires Greedy(g, d, s) && IsLeast(d, Ready(g, Elems(s)), x)
    ensures Greedy(g, d, s + [x]) && KahnFrom(g, d, s + [x]) == KahnFrom(g, d, s)
    ensures Elems(s + [x]) == Elems(s) + {x}
    ensures |g.Keys - Elems(s + [x])| < |g.Keys - Elems(s)|
  {
    LeastUnique(d, Ready(g, Elems(s)), x, Least(d, Ready(g, Elems(s))));
    GreedyAppend(g, d, s, x);
    ElemsAppend(s, x);
    assert g.Keys - Elems(s + [x]) == g.Keys - Elems(s) - {x};
  }

  lemma PlacedAreClosed(g: Graph, d: Details, s: seq<EventId>)
    requires Greedy(g, d, s)
    ensures forall v :: v in Elems(s) ==> v in g && g[v] <= Elems(s)
  {
  }
}
