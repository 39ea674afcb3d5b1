/** State resolution as computed against state resolution as the Matrix specification words it. */
module Conformance {
  import opened Orders
  import opened Events
  import opened PowerSort
  import opened AuthGraph
  import opened SenderPower
  import opened IterativeAuth
  import opened Mainline
  import opened Split
  import opened Resolve

  // ---------------------------------------------------------------- the two notions of a power event

  /** The power events of the full conflicted set by the specification's definition. */
  ghost function SpecifiedPowerEventsOf(store: Store, full: set<EventId>): set<EventId> {
    set id | id in full && id in store && IsSpecifiedPowerEvent(store[id])
  }

  /** Step 1 sorts the same events by either definition. */
  ghost predicate SameStepOne(store: Store, full: set<EventId>) {
    PowerGraph(store, full, PowerEventsOf(store, full)) == PowerGraph(store, full, SpecifiedPowerEventsOf(store, full))
  }

  /** On any set: each power event by one definition only rests on, or is cited below, one by the other. */
  lemma SameStepOneIff(store: Store, full: set<EventId>)
    ensures var code, spec := PowerEventsOf(store, full), SpecifiedPowerEventsOf(store, full);
      SameStepOne(store, full) <==>
        AllReachedFrom(store, full, spec, code - spec) && AllReachedFrom(store, full, code, spec - code)
  {
    SameGraphIff(store, full, PowerEventsOf(store, full), SpecifiedPowerEventsOf(store, full));
  }

  /** All events are state events, and power levels, join rules and create events have the empty state key. */
  ghost predicate OrdinaryKeys(store: Store, full: set<EventId>) {
    forall id :: id in full && id in store ==>
      && store[id].stateKey.Some?
      && (store[id].kind in {RoomPowerLevels, RoomJoinRules, RoomCreate} ==> store[id].stateKey == Some(""))
  }

  ghost function CreatesOf(store: Store, full: set<EventId>): set<EventId> {
    set id | id in full && IsCreate(store, id)
  }

  /** With ordinary state keys the definitions differ in create events, and in nothing else. */
  lemma OnlyCreatesDiffer(store: Store, full: set<EventId>)
    requires OrdinaryKeys(store, full)
    ensures SpecifiedPowerEventsOf(store, full) !! CreatesOf(store, full)
    ensures PowerEventsOf(store, full) == SpecifiedPowerEventsOf(store, full) + CreatesOf(store, full)
  {
  }

  /** Then step 1 is the same if and only if every create event is reached from a specified power event. */
  lemma SameStepOneIffCreatesReached(store: Store, full: set<EventId>)
    requires OrdinaryKeys(store, full)
    ensures SameStepOne(store, full) <==>
      AllReachedFrom(store, full, SpecifiedPowerEventsOf(store, full), CreatesOf(store, full))
  {
    OnlyCreatesDiffer(store, full);
    SameStepOneIff(store, full);
    var code, spec := PowerEventsOf(store, full), SpecifiedPowerEventsOf(store, full);
    assert code - spec == CreatesOf(store, full) && spec - code == {};
  }

  /**
   * Before version 12, for a set of one room with one create event: the same if and only if that
   * event is not in the set, or a power event by the specification is.
   */
  lemma SameStepOneBeforeVersion12(store: Store, rules: Rules, full: set<EventId>, c: EventId)
    requires !rules.createIdAsRoomId && OrdinaryKeys(store, full)
    requires forall id :: id in full ==> InRoom(store, rules, c, id) && (IsCreate(store, id) ==> id == c)
    ensures SameStepOne(store, full) <==> c !in full || SpecifiedPowerEventsOf(store, full) != {}
  {
    SameStepOneIffCreatesReached(store, full);
    var spec := SpecifiedPowerEventsOf(store, full);
    if c in full && spec != {} {
      var r :| r in spec;
      ReachesSelf(store, full, r);
      ReachesStep(store, full, r, r, c);
    }
    if c in full { assert c in CreatesOf(store, full); }
  }

  /** From version 12, where create events are not cited: the same if and only if there is none in the set. */
  lemma SameStepOneFromVersion12(store: Store, full: set<EventId>)
    requires OrdinaryKeys(store, full)
    requires forall id, a :: id in full && id in store && a in store[id].authEvents ==> !IsCreate(store, a)
    ensures SameStepOne(store, full) <==> CreatesOf(store, full) == {}
  {
    SameStepOneIffCreatesReached(store, full);
    OnlyCreatesDiffer(store, full);
    forall c | c in CreatesOf(store, full) ensures !ReachedFrom(store, full, SpecifiedPowerEventsOf(store, full), c) {
      if ReachedFrom(store, full, SpecifiedPowerEventsOf(store, full), c) {
        var r :| r in SpecifiedPowerEventsOf(store, full) && Reaches(store, full, r, c);
        ReachedIsCited(store, full, r, c);
      }
    }
  }

  lemma ReachedIsCited(store: Store, full: set<EventId>, r: EventId, x: EventId)
    requires r in full && r != x && Reaches(store, full, r, x)
    ensures exists v :: v in full && x in AuthEdges(store, full, v)
  {
    var p :| IsAuthPath(store, full, p) && p[0] == r && p[|p| - 1] == x;
    var k := |p| - 2;
    assert p[k + 1] in AuthEdges(store, full, p[k]);
    if k > 0 { assert p[k - 1 + 1] in AuthEdges(store, full, p[k - 1]); }
  }

  function LoneCreate(): Event {
    Event("$c", None, "@a", 0, RoomCreate, Some(""), [], false, Content(None, Some({"@a"}), Some(map[]), Some(0)))
  }

  /** A set where step 1 differs: the create event alone is sorted by the code and left for step 3 by the specification. */
  lemma CreateAloneChangesStepOne()
    ensures var store, full: set<EventId> := map["$c" := LoneCreate()], {"$c"};
      && PowerGraph(store, full, SpecifiedPowerEventsOf(store, full)) == map[]
      && PowerGraph(store, full, PowerEventsOf(store, full)) == map["$c" := {}]
      && !SameStepOne(store, full)
  {
    var store, full: set<EventId> := map["$c" := LoneCreate()], {"$c"};
    assert SpecifiedPowerEventsOf(store, full) == {} && PowerEventsOf(store, full) == full;
    LoneEventGraphs(store, "$c");
    assert "$c" in PowerGraph(store, full, full) && "$c" !in PowerGraph(store, full, {});
  }

  lemma LoneEventGraphs(store: Store, c: EventId)
    requires c in store && store[c].authEvents == []
    ensures PowerGraph(store, {c}, {}) == map[] && PowerGraph(store, {c}, {c}) == map[c := {}]
  {
    ReachesSelf(store, {c}, c);
    assert AuthEdges(store, {c}, c) == {};
    var g := PowerGraph(store, {c}, {c});
    assert c in g;
    forall v | v in g ensures v == c && g[v] == {} {
    }
  }

  // ---------------------------------------------------------------- the specified steps

  /** Each event of the graph goes by its sender's level and its own timestamp. */
  ghost predicate IsDetails(room: Room, g: Graph, d: Details) {
    d.Keys == g.Keys && forall v :: v in g ==>
      v in room.store && FreshLevel(room.store, room.auth.rules, v) == Ok(d[v].level) && d[v].ts == room.store[v].ts
  }

  /** Step 1: the power events and what they rest on, in reverse topological power order. */
  ghost predicate IsSpecifiedPower(room: Room, full: set<EventId>, roots: set<EventId>, power: seq<EventId>) {
    var g := PowerGraph(room.store, full, roots);
    exists d :: IsDetails(room, g, d) && IsReverseTopologicalPowerOrdering(g, d, power)
  }

  lemma DetailsAreFresh(room: Room, g: Graph, d: Details)
    requires g.Keys <= room.store.Keys
    ensures IsDetails(room, g, d) <==>
      (forall v :: v in g ==> FreshLevel(room.store, room.auth.rules, v).Ok?) && d == FreshDetails(room.store, room.auth.rules, g)
  {
    var e := FreshDetails(room.store, room.auth.rules, g);
    if IsDetails(room, g, d) {
      assert forall v :: v in g ==> FreshLevel(room.store, room.auth.rules, v).Ok?;
      assert e.Keys == d.Keys && forall v :: v in e ==> e[v] == d[v];
    }
  }

  /** Steps 1 to 4 as the Matrix specification words them, for a given set of power events. */
  ghost predicate FollowsSpecification(room: Room, u: StateMap, full: set<EventId>, roots: set<EventId>, t: Trace)
    requires Acyclic(room.store)
  {
    && IsSpecifiedPower(room, full, roots, t.power)
    && Replay(room.store, room.auth, t.power, StartOf(room, u)) == Ok(t.partial)
    && IsMainlineList(room.store, LevelsEntry(t.partial), full - Elems(t.power), t.rest)
    && Replay(room.store, room.auth, t.rest, t.partial) == Ok(t.last)
  }

  /** The sort of the graph of any roots is the one list specified for them. */
  lemma PowerOrderIsSpecified(room: Room, full: set<EventId>, roots: set<EventId>, power: seq<EventId>)
    requires Acyclic(room.store) && roots <= full <= room.store.Keys
    ensures PowerOrder(room.store, room.auth.rules, PowerGraph(room.store, full, roots)) == Some(power)
       <==> IsSpecifiedPower(room, full, roots, power)
  {
    var g := PowerGraph(room.store, full, roots);
    var d := FreshDetails(room.store, room.auth.rules, g);
    PowerGraphClosed(room.store, full, roots);
    PowerGraphSorts(room.store, full, roots, d);
    DetailsAreFresh(room, g, d);
    if IsSpecifiedPower(room, full, roots, power) {
      var e :| IsDetails(room, g, e) && IsReverseTopologicalPowerOrdering(g, e, power);
      DetailsAreFresh(room, g, e);
      SpecifiedOrderingUnique(g, d, power, KahnOrder(g, d));
    }
  }

  /** One list of step 1 serves both definitions only where step 1 agrees: a list shows the set it sorts. */
  lemma SharedListMeansSameStepOne(room: Room, full: set<EventId>, power: seq<EventId>)
    requires IsSpecifiedPower(room, full, PowerEventsOf(room.store, full), power)
    requires IsSpecifiedPower(room, full, SpecifiedPowerEventsOf(room.store, full), power)
    ensures SameStepOne(room.store, full)
  {
    var g := PowerGraph(room.store, full, PowerEventsOf(room.store, full));
    var h := PowerGraph(room.store, full, SpecifiedPowerEventsOf(room.store, full));
    assert g.Keys == Elems(power) == h.Keys;
    assert forall v :: v in g ==> g[v] == h[v];
  }

  /** After steps 1 and 2 the code's list of the other events is the specified one. */
  lemma RestIsSpecified(room: Room, u: StateMap, full: set<EventId>, power: seq<EventId>, partial: StateMap, rest: seq<EventId>)
    requires Acyclic(room.store) && full <= room.store.Keys && WellKeyed(room.store, u)
    requires PowerList(room, full) == Some(power)
    requires Replay(room.store, room.auth, power, StartOf(room, u)) == Ok(partial)
    ensures WalkList(room.store, LevelsEntry(partial), full - Elems(power)) == Ok(rest)
       <==> IsMainlineList(room.store, LevelsEntry(partial), full - Elems(power), rest)
  {
    var g := PowerGraph(room.store, full, PowerEventsOf(room.store, full));
    PowerOrderTakesAll(room.store, full, g, power, FreshDetails(room.store, room.auth.rules, g));
    ReplayWellKeyed(room.store, room.auth, power, StartOf(room, u));
    if MainlineOf(room.store, LevelsEntry(partial)).Ok? {
      RemainingOffMainline(room.store, full, Elems(power), partial);
    }
    WalkListIsMainlineList(room.store, LevelsEntry(partial), full - Elems(power), rest);
  }

  /** The code's steps are the specified ones for the code's power events. */
  lemma StepsFollowSpecification(room: Room, u: StateMap, full: set<EventId>, t: Trace)
    requires Acyclic(room.store) && full <= room.store.Keys && WellKeyed(room.store, u)
    ensures Steps(room, u, full) == Some(t) <==> FollowsSpecification(room, u, full, PowerEventsOf(room.store, full), t)
  {
    PowerOrderIsSpecified(room, full, PowerEventsOf(room.store, full), t.power);
    if PowerList(room, full) == Some(t.power)
       && Replay(room.store, room.auth, t.power, StartOf(room, u)) == Ok(t.partial)
    {
      RestIsSpecified(room, u, full, t.power, t.partial, t.rest);
    }
  }

  /** The code's trace is the specification's own if and only if step 1 sorts the same graph, on any set. */
  lemma StepsMeetSpecification(room: Room, u: StateMap, full: set<EventId>, t: Trace)
    requires Acyclic(room.store) && full <= room.store.Keys && WellKeyed(room.store, u)
    ensures SameStepOne(room.store, full) ==>
      (Steps(room, u, full) == Some(t) <==> FollowsSpecification(room, u, full, SpecifiedPowerEventsOf(room.store, full), t))
    ensures Steps(room, u, full) == Some(t) && FollowsSpecification(room, u, full, SpecifiedPowerEventsOf(room.store, full), t) ==>
      SameStepOne(room.store, full)
  {
    StepsFollowSpecification(room, u, full, t);
    if Steps(room, u, full) == Some(t) && FollowsSpecification(room, u, full, SpecifiedPowerEventsOf(room.store, full), t) {
      SharedListMeansSameStepOne(room, full, t.power);
    }
  }

  /** The resolved state of the specification, all five steps. */
  ghost predicate IsSpecifiedState(room: Room, maps: set<StateMap>, chains: set<set<EventId>>, state: StateMap)
    requires Acyclic(room.store)
  {
    var u, full := Unconflicted(maps), FullSet(room, maps, chains);
    if Conflicted(maps) == map[] then state == u
    else
      && SubgraphOf(room, Conflicted(maps)).Some?
      && exists t :: FollowsSpecification(room, u, full, SpecifiedPowerEventsOf(room.store, full), t) && state == t.last + u
  }

  /** For state maps that file events under their own keys, the resolution is the specified state where step 1 agrees. */
  lemma ResolutionMeetsSpecification(room: Room, maps: set<StateMap>, chains: set<set<EventId>>, state: StateMap)
    requires Acyclic(room.store) && forall m :: m in maps ==> WellKeyed(room.store, m)
    requires SameStepOne(room.store, FullSet(room, maps, chains))
    ensures Resolution(room, maps, chains) == Some(state) <==> IsSpecifiedState(room, maps, chains, state)
  {
    var u, full := Unconflicted(maps), FullSet(room, maps, chains);
    UnconflictedWellKeyed(room.store, maps);
    forall t ensures Steps(room, u, full) == Some(t)
                <==> FollowsSpecification(room, u, full, SpecifiedPowerEventsOf(room.store, full), t)
    {
      StepsMeetSpecification(room, u, full, t);
    }
  }
}
