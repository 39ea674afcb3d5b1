/** The graph of power events: the stack walk through auth events inside the conflicted set. */
module AuthGraph {
  import opened Orders
  import opened Events
  import opened PowerSort

  function Inside(ids: seq<EventId>, conflicted: set<EventId>): set<EventId> {
    set a | a in ids && a in conflicted
  }

  /** The auth events of an event that are in the full conflicted set. */
  function AuthEdges(store: Store, conflicted: set<EventId>, id: EventId): set<EventId> {
    if id in store then Inside(store[id].authEvents, conflicted) else {}
  }

  ghost predicate IsAuthPath(store: Store, conflicted: set<EventId>, p: seq<EventId>) {
    p != [] && forall i :: 0 <= i < |p| - 1 ==> p[i + 1] in AuthEdges(store, conflicted, p[i])
  }

  /** `to` is in the auth chain of `from` (or is `from`), going through the conflicted set only. */
  ghost predicate Reaches(store: Store, conflicted: set<EventId>, from: EventId, to: EventId) {
    exists p :: IsAuthPath(store, conflicted, p) && p[0] == from && p[|p| - 1] == to
  }

  lemma ReachesSelf(store: Store, conflicted: set<EventId>, id: EventId)
    ensures Reaches(store, conflicted, id, id)
  {
    assert IsAuthPath(store, conflicted, [id]);
  }

  lemma ReachesStep(store: Store, conflicted: set<EventId>, from: EventId, via: EventId, to: EventId)
    requires Reaches(store, conflicted, from, via) && to in AuthEdges(store, conflicted, via)
    ensures Reaches(store, conflicted, from, to)
  {
    var p :| IsAuthPath(store, conflicted, p) && p[0] == from && p[|p| - 1] == via;
    assert IsAuthPath(store, conflicted, p + [to]);
  }

  /** Every listed event has its true edges, and they stay inside the graph. */
  ghost predicate Closed(store: Store, conflicted: set<EventId>, g: Graph) {
    forall v :: v in g ==> g[v] == AuthEdges(store, conflicted, v) && g[v] <= g.Keys
  }

  lemma {:induction false} ClosedContainsReachable(store: Store, conflicted: set<EventId>, g: Graph, p: seq<EventId>)
    requires Closed(store, conflicted, g) && IsAuthPath(store, conflicted, p) && p[0] in g
    ensures p[|p| - 1] in g
    decreases |p|
  {
    if |p| > 1 {
      assert p[1] in AuthEdges(store, conflicted, p[0]);
      ClosedContainsReachable(store, conflicted, g, p[1..]);
    }
  }

  /** The graph to sort: the roots and what they reach, each with its edges. */
  ghost function PowerGraph(store: Store, conflicted: set<EventId>, roots: set<EventId>): Graph {
    map v | v in conflicted + roots && (exists r :: r in roots && Reaches(store, conflicted, r, v)) ::
      AuthEdges(store, conflicted, v)
  }

  /** Push the unvisited auth events inside the conflicted set, and record all of them as edges of `id`. */
  method ScanAuthEvents(authEvents: seq<EventId>, conflicted: set<EventId>, graph: Graph, id: EventId)
    returns (g: Graph, pushed: seq<EventId>)
    requires id in graph
    ensures g == graph[id := graph[id] + Inside(authEvents, conflicted)]
    ensures Elems(pushed) == Inside(authEvents, conflicted) - graph.Keys
  {
    g, pushed := graph, [];
    for k := 0 to |authEvents|
      invariant g.Keys == graph.Keys && g[id] == graph[id] + Inside(authEvents[..k], conflicted)
      invariant forall v :: v in graph && v != id ==> g[v] == graph[v]
      invariant Elems(pushed) == Inside(authEvents[..k], conflicted) - graph.Keys
    {
      var a := authEvents[k];
      assert authEvents[..k + 1] == authEvents[..k] + [a];
      if a in conflicted {
        assert Inside(authEvents[..k + 1], conflicted) == Inside(authEvents[..k], conflicted) + {a};
        if a !in g {
          ElemsAppend(pushed, a);
          pushed := pushed + [a];
        }
        g := g[id := g[id] + {a}];
      } else {
        assert Inside(authEvents[..k + 1], conflicted) == Inside(authEvents[..k], conflicted);
      }
    }
    assert authEvents[..|authEvents|] == authEvents;
  }

  /** Put `x` in the graph with its edges; `pushed` are those still to visit. */
  method Visit(store: Store, conflicted: set<EventId>, graph: Graph, x: EventId) returns (g: Graph, pushed: seq<EventId>)
    requires x in graph ==> graph[x] == AuthEdges(store, conflicted, x)
    ensures g == graph[x := AuthEdges(store, conflicted, x)]
    ensures Elems(pushed) == g[x] - g.Keys
  {
    g, pushed := graph, [];
    if x !in g { g := g[x := {}]; }
    if x in store { g, pushed := ScanAuthEvents(store[x].authEvents, conflicted, g, x); }
    assert g[x] == AuthEdges(store, conflicted, x);
  }

  /**
   * Nothing is forgotten: an auth event of a visited event is visited or waits on the stack, and
   * above every leftover copy of that event.
   */
  ghost predicate WalkState(store: Store, conflicted: set<EventId>, g: Graph, stack: seq<EventId>) {
    && (forall v :: v in g ==> g[v] == AuthEdges(store, conflicted, v))
    && (forall v, a :: v in g && a in g[v] ==> a in g || a in stack)
    && (forall i, a :: 0 <= i < |stack| && stack[i] in g && a in g[stack[i]] ==> a in g || a in stack[i + 1..])
  }

  /** Only events of the given graph and events reachable from `id`, are visited or waiting. */
  ghost predicate OnlyReachable(store: Store, conflicted: set<EventId>, graph: Graph, id: EventId,
                                g: Graph, stack: seq<EventId>) {
    && (forall v :: v in g ==> v in graph || Reaches(store, conflicted, id, v))
    && (forall v :: v in stack ==> Reaches(store, conflicted, id, v) && v in conflicted + {id})
    && graph.Keys <= g.Keys
    && (id in g || id in stack)
  }

  /** One round of the walk: pop an event and visit it. */
  method PopAndVisit(store: Store, conflicted: set<EventId>, ghost graph: Graph, ghost id: EventId,
                     g: Graph, stack: seq<EventId>)
    returns (h: Graph, next: seq<EventId>)
    requires stack != [] && WalkState(store, conflicted, g, stack)
    requires OnlyReachable(store, conflicted, graph, id, g, stack)
    ensures WalkState(store, conflicted, h, next) && OnlyReachable(store, conflicted, graph, id, h, next)
    ensures |conflicted + {id} - h.Keys| < |conflicted + {id} - g.Keys| || (h.Keys == g.Keys && |next| < |stack|)
  {
    var x, rest := stack[|stack| - 1], stack[..|stack| - 1];
    assert stack == rest + [x] && x in stack;
    var pushed;
    h, pushed := Visit(store, conflicted, g, x);
    next := rest + pushed;
    WalkStep(store, conflicted, g, rest, x, h, pushed);
    ReachStep(store, conflicted, graph, id, g, rest, x, h, pushed);
    MeasureStep(conflicted + {id}, g, x, h);
  }

  method AddEventAndAuthChain(graph: Graph, id: EventId, conflicted: set<EventId>, store: Store)
    returns (g: Graph)
    requires Closed(store, conflicted, graph)
    ensures Closed(store, conflicted, g)
    ensures forall v :: v in g <==> v in graph || Reaches(store, conflicted, id, v)
  {
    g := graph;
    var stack := [id];
    WalkStart(store, conflicted, graph, id);
    while stack != []
      invariant WalkState(store, conflicted, g, stack)
      invariant OnlyReachable(store, conflicted, graph, id, g, stack)
      decreases |conflicted + {id} - g.Keys|, |stack|
    {
      g, stack := PopAndVisit(store, conflicted, graph, id, g, stack);
    }
    WalkEnd(store, conflicted, graph, id, g);
  }

  lemma WalkStart(store: Store, conflicted: set<EventId>, graph: Graph, id: EventId)
    requires Closed(store, conflicted, graph)
    ensures WalkState(store, conflicted, graph, [id]) && OnlyReachable(store, conflicted, graph, id, graph, [id])
  {
  }

  lemma WalkEnd(store: Store, conflicted: set<EventId>, graph: Graph, id: EventId, g: Graph)
    requires WalkState(store, conflicted, g, []) && OnlyReachable(store, conflicted, graph, id, g, [])
    ensures Closed(store, conflicted, g)
    ensures forall v :: v in g <==> v in graph || Reaches(store, conflicted, id, v)
  {
    forall v | Reaches(store, conflicted, id, v) ensures v in g {
      var p :| IsAuthPath(store, conflicted, p) && p[0] == id && p[|p| - 1] == v;
      ClosedContainsReachable(store, conflicted, g, p);
    }
  }

  lemma MeasureStep(all: set<EventId>, before: Graph, x: EventId, g: Graph)
    requires x in all && g.Keys == before.Keys + {x}
    ensures if x in before then g.Keys == before.Keys else |all - g.Keys| < |all - before.Keys|
  {
    if x !in before { assert all - g.Keys == all - before.Keys - {x}; }
  }

  lemma ReachStep(store: Store, conflicted: set<EventId>, graph: Graph, id: EventId,
                  before: Graph, rest: seq<EventId>, x: EventId, g: Graph, pushed: seq<EventId>)
    requires OnlyReachable(store, conflicted, graph, id, before, rest + [x])
    requires g.Keys == before.Keys + {x} && Elems(pushed) <= AuthEdges(store, conflicted, x)
    ensures OnlyReachable(store, conflicted, graph, id, g, rest + pushed)
  {
    assert x in rest + [x];
    forall a | a in rest + pushed ensures Reaches(store, conflicted, id, a) && a in conflicted + {id} {
      if a in rest {
        assert a in rest + [x];
      } else {
        assert a in Elems(pushed);
        ReachesStep(store, conflicted, id, x, a);
      }
    }
  }

  lemma WalkStep(store: Store, conflicted: set<EventId>, before: Graph, rest: seq<EventId>, x: EventId,
                 g: Graph, pushed: seq<EventId>)
    requires WalkState(store, conflicted, before, rest + [x])
    requires g == before[x := AuthEdges(store, conflicted, x)]
    requires Elems(pushed) == g[x] - g.Keys
    ensures WalkState(store, conflicted, g, rest + pushed)
    ensures x in before ==> pushed == []
  {
    var stack, next := rest + [x], rest + pushed;
    forall i, a | 0 <= i < |next| && next[i] in g && a in g[next[i]] && a !in g
      ensures a in next[i + 1..]
    {
      assert forall j :: 0 <= j < |pushed| ==> pushed[j] in Elems(pushed);
      assert next[i + 1..] == rest[i + 1..] + pushed;
      if next[i] == x {
        assert a in Elems(pushed);
      } else {
        assert stack[i] in before;
        assert stack[i + 1..] == rest[i + 1..] + [x];
      }
    }
    forall v, a | v in g && a in g[v] && a !in g ensures a in next {
      if v == x { assert a in Elems(pushed); } else { assert a in stack; }
    }
    if x in before {
      assert stack[|rest|] == x && stack[|rest| + 1..] == [];
      ElemsEmpty(pushed);
    }
  }

  /** The graph is filled from the power events in any order, with repetitions or not. */
  method FillGraph(roots: seq<EventId>, conflicted: set<EventId>, store: Store) returns (g: Graph)
    ensures g == PowerGraph(store, conflicted, Elems(roots)) && Closed(store, conflicted, g)
  {
    g := map[];
    for k := 0 to |roots|
      invariant Closed(store, conflicted, g)
      invariant forall v :: v in g <==> exists r :: r in roots[..k] && Reaches(store, conflicted, r, v)
    {
      ghost var before := g;
      g := AddEventAndAuthChain(g, roots[k], conflicted, store);
      assert roots[..k + 1] == roots[..k] + [roots[k]];
    }
    assert roots[..|roots|] == roots;
    forall r, v | r in roots && Reaches(store, conflicted, r, v) ensures v in conflicted + Elems(roots) {
      ReachableIsConflicted(store, conflicted, r, v);
    }
  }

  lemma ReachableIsConflicted(store: Store, conflicted: set<EventId>, r: EventId, v: EventId)
    requires Reaches(store, conflicted, r, v)
    ensures v == r || v in conflicted
  {
    var p :| IsAuthPath(store, conflicted, p) && p[0] == r && p[|p| - 1] == v;
    if |p| > 1 { assert p[|p| - 2 + 1] in AuthEdges(store, conflicted, p[|p| - 2]); }
  }

  lemma PowerGraphClosed(store: Store, conflicted: set<EventId>, roots: set<EventId>)
    requires roots <= conflicted
    ensures Closed(store, conflicted, PowerGraph(store, conflicted, roots))
    ensures roots <= PowerGraph(store, conflicted, roots).Keys <= conflicted
  {
    var g := PowerGraph(store, conflicted, roots);
    forall v, a | v in g && a in g[v] ensures a in g {
      var r :| r in roots && Reaches(store, conflicted, r, v);
      ReachesStep(store, conflicted, r, v, a);
    }
    forall r | r in roots ensures r in g { ReachesSelf(store, conflicted, r); }
  }

  lemma ReachesTransitive(store: Store, conflicted: set<EventId>, from: EventId, via: EventId, to: EventId)
    requires Reaches(store, conflicted, from, via) && Reaches(store, conflicted, via, to)
    ensures Reaches(store, conflicted, from, to)
  {
    var p :| IsAuthPath(store, conflicted, p) && p[0] == from && p[|p| - 1] == via;
    var q :| IsAuthPath(store, conflicted, q) && q[0] == via && q[|q| - 1] == to;
    var t := p + q[1..];
    forall i | 0 <= i < |t| - 1 ensures t[i + 1] in AuthEdges(store, conflicted, t[i]) {
      assert t[i] == if i < |p| then p[i] else q[i - |p| + 1];
      assert i >= |p| - 1 ==> t[i] == q[i - |p| + 1];
    }
    assert IsAuthPath(store, conflicted, t);
  }

  ghost predicate ReachedFrom(store: Store, conflicted: set<EventId>, roots: set<EventId>, v: EventId) {
    exists r :: r in roots && Reaches(store, conflicted, r, v)
  }

  ghost predicate AllReachedFrom(store: Store, conflicted: set<EventId>, roots: set<EventId>, events: set<EventId>) {
    forall x :: x in events ==> ReachedFrom(store, conflicted, roots, x)
  }

  lemma ReachedOnward(store: Store, conflicted: set<EventId>, a: set<EventId>, b: set<EventId>, v: EventId)
    requires ReachedFrom(store, conflicted, a, v) && AllReachedFrom(store, conflicted, b, a - b)
    ensures ReachedFrom(store, conflicted, b, v)
  {
    var x :| x in a && Reaches(store, conflicted, x, v);
    if x !in b {
      assert ReachedFrom(store, conflicted, b, x);
      var r :| r in b && Reaches(store, conflicted, r, x);
      ReachesTransitive(store, conflicted, r, x, v);
    }
  }

  /** Two sets of roots give the same graph if and only if each root of one only is reached from the other. */
  lemma SameGraphIff(store: Store, conflicted: set<EventId>, a: set<EventId>, b: set<EventId>)
    requires a <= conflicted && b <= conflicted
    ensures PowerGraph(store, conflicted, a) == PowerGraph(store, conflicted, b) <==>
      AllReachedFrom(store, conflicted, b, a - b) && AllReachedFrom(store, conflicted, a, b - a)
  {
    if AllReachedFrom(store, conflicted, b, a - b) && AllReachedFrom(store, conflicted, a, b - a) {
      GraphGrows(store, conflicted, a, b);
      GraphGrows(store, conflicted, b, a);
    }
    if PowerGraph(store, conflicted, a) == PowerGraph(store, conflicted, b) {
      RootsReached(store, conflicted, a, b);
      RootsReached(store, conflicted, b, a);
    }
  }

  lemma GraphGrows(store: Store, conflicted: set<EventId>, a: set<EventId>, b: set<EventId>)
    requires a <= conflicted && b <= conflicted && AllReachedFrom(store, conflicted, b, a - b)
    ensures var g, h := PowerGraph(store, conflicted, a), PowerGraph(store, conflicted, b);
      g.Keys <= h.Keys && forall v :: v in g ==> g[v] == h[v]
  {
    forall v | v in PowerGraph(store, conflicted, a) ensures v in PowerGraph(store, conflicted, b) {
      assert ReachedFrom(store, conflicted, a, v);
      ReachedOnward(store, conflicted, a, b, v);
    }
  }

  lemma RootsReached(store: Store, conflicted: set<EventId>, a: set<EventId>, b: set<EventId>)
    requires a <= conflicted && b <= conflicted && PowerGraph(store, conflicted, a) == PowerGraph(store, conflicted, b)
    ensures AllReachedFrom(store, conflicted, b, a - b)
  {
    forall x | x in a - b ensures ReachedFrom(store, conflicted, b, x) {
      ReachesSelf(store, conflicted, x);
      assert x in PowerGraph(store, conflicted, a);
    }
  }

  /** With no event its own ancestor, nothing in the graph is blocked, so the sort places all of it. */
  lemma ClosedGraphUnblocked(store: Store, conflicted: set<EventId>, g: Graph, v: EventId)
    requires Acyclic(store) && conflicted <= store.Keys
    requires Closed(store, conflicted, g) && v in g && g.Keys <= conflicted
    ensures !Blocked(g, v)
  {
    var rank :| Ranks(store, rank);
    forall p | IsPath(g, p) && p[0] == v ensures p[|p| - 1] in g && Distinct(p) {
      PathDescends(store, conflicted, rank, g, p);
    }
  }

  lemma {:induction false} PathDescends(store: Store, conflicted: set<EventId>, rank: map<EventId, nat>,
                                        g: Graph, p: seq<EventId>)
    requires Ranks(store, rank) && conflicted <= store.Keys
    requires Closed(store, conflicted, g) && g.Keys <= conflicted && IsPath(g, p) && p[0] in g
    ensures p[|p| - 1] in g && Distinct(p)
    ensures forall k :: 0 < k < |p| ==> p[k] in store && rank[p[k]] < rank[p[0]]
    decreases |p|
  {
    if |p| > 1 {
      assert p[0] in g && p[1] in g[p[0]];
      PathDescends(store, conflicted, rank, g, p[1..]);
      forall k | 0 < k < |p| ensures p[k] in store && rank[p[k]] < rank[p[0]] {
        if k > 1 { assert p[k] == p[1..][k - 1]; }
      }
      assert p == [p[0]] + p[1..];
    }
  }

  /** So the sort of the graph is the ordering the specification asks for, of the whole graph. */
  lemma PowerGraphSorts(store: Store, conflicted: set<EventId>, roots: set<EventId>, d: Details)
    requires Acyclic(store) && conflicted <= store.Keys && roots <= conflicted
    ensures var g := PowerGraph(store, conflicted, roots); IsReverseTopologicalPowerOrdering(g, d, KahnOrder(g, d))
  {
    var g := PowerGraph(store, conflicted, roots);
    PowerGraphClosed(store, conflicted, roots);
    forall v | v in g ensures !Blocked(g, v) { ClosedGraphUnblocked(store, conflicted, g, v); }
    KahnIsTheSpecifiedOrdering(g, d);
  }
}
