/** State resolution, version 2 and its room version 12 variant: the five steps put together. */
module Resolve {
  import opened Orders
  import opened Events
  import opened PowerSort
  import opened AuthGraph
  import opened SenderPower
  import opened IterativeAuth
  import opened Mainline
  import opened Split

  /** The tweaks of the room version: both on from room version 12, both off before. */
  datatype StateRules = StateRules(emptyStart: bool, useSubgraph: bool)

  /** What resolution is given besides the states: the events, the rules, the subgraph fetch. */
  datatype Room = Room(
    store: Store,
    auth: Authorizer,
    stateRules: StateRules,
    subgraph: map<Key, set<EventId>> -> Option<set<EventId>>)

  // ---------------------------------------------------------------- specification

  ghost predicate InConflict(c: map<Key, set<EventId>>, id: EventId) {
    exists k :: k in c && id in c[k]
  }

  /** The subgraph to add, `None` where fetching it fails. */
  function SubgraphOf(room: Room, c: map<Key, set<EventId>>): Option<set<EventId>> {
    if room.stateRules.useSubgraph then room.subgraph(c) else Some({})
  }

  /** Conflicted state, auth difference and subgraph, restricted to the events that can be fetched. */
  ghost function FullConflictedSet(room: Room, c: map<Key, set<EventId>>, chains: set<set<EventId>>, sub: set<EventId>): set<EventId> {
    set id | id in room.store.Keys && (id in AuthDifference(chains) || InConflict(c, id) || id in sub)
  }

  ghost function PowerEventsOf(store: Store, full: set<EventId>): set<EventId> {
    set id | id in full && id in store && IsPowerEvent(store[id])
  }

  function LevelsEntry(state: StateMap): Option<EventId> {
    if Key(RoomPowerLevels, "") in state then Some(state[Key(RoomPowerLevels, "")]) else None
  }

  /** The power events and what they rest on. */
  ghost function StepOneGraph(room: Room, full: set<EventId>): Graph {
    PowerGraph(room.store, full, PowerEventsOf(room.store, full))
  }

  /** Step 1: the graph in reverse topological power order. */
  ghost function PowerList(room: Room, full: set<EventId>): Option<seq<EventId>> {
    PowerOrder(room.store, room.auth.rules, StepOneGraph(room, full))
  }

  /** Step 1 on any input, given the order the senders' levels are looked up in. */
  ghost function PowerListAt(room: Room, full: set<EventId>, order: seq<EventId>): Option<seq<EventId>> {
    OrderAt(room.store, room.auth.rules, StepOneGraph(room, full), order)
  }

  ghost function StartOf(room: Room, u: StateMap): StateMap {
    if room.stateRules.emptyStart then map[] else u
  }

  /** The lists and states of one resolution: steps 1 and 2, then steps 3 and 4. */
  datatype Trace = Trace(power: seq<EventId>, partial: StateMap, rest: seq<EventId>, last: StateMap)

  /** Steps 2 to 4 after a list of step 1; `None` where one of them meets an error. */
  ghost function StepsAfter(room: Room, u: StateMap, full: set<EventId>, power: Option<seq<EventId>>): Option<Trace>
    requires Acyclic(room.store)
  {
    if power.None? then None else
    var partial := Replay(room.store, room.auth, power.value, StartOf(room, u));
    if partial.Err? then None else
    var rest := WalkList(room.store, LevelsEntry(partial.value), full - Elems(power.value));
    if rest.Err? then None else
    var last := Replay(room.store, room.auth, rest.value, partial.value);
    if last.Err? then None else Some(Trace(power.value, partial.value, rest.value, last.value))
  }

  /** Steps 1 to 4 on a full conflicted set. */
  ghost function Steps(room: Room, u: StateMap, full: set<EventId>): Option<Trace>
    requires Acyclic(room.store)
  {
    StepsAfter(room, u, full, PowerList(room, full))
  }

  ghost function FullSet(room: Room, maps: set<StateMap>, chains: set<set<EventId>>): set<EventId> {
    var c := Conflicted(maps);
    if SubgraphOf(room, c).None? then {} else FullConflictedSet(room, c, chains, SubgraphOf(room, c).value)
  }

  /** The resolved state after a list of step 1. */
  ghost function ResolutionAfter(room: Room, maps: set<StateMap>, chains: set<set<EventId>>, power: Option<seq<EventId>>): Option<StateMap>
    requires Acyclic(room.store)
  {
    var u, c := Unconflicted(maps), Conflicted(maps);
    if c == map[] then Some(u)
    else if SubgraphOf(room, c).None? then None
    else
      var t := StepsAfter(room, u, FullSet(room, maps, chains), power);
      if t.None? then None else Some(t.value.last + u)
  }

  /**
   * The resolved state as a function of the set of state maps and the set of auth chains:
   * neither their order nor how often one occurs is an input.
   */
  ghost function Resolution(room: Room, maps: set<StateMap>, chains: set<set<EventId>>): Option<StateMap>
    requires Acyclic(room.store)
  {
    ResolutionAfter(room, maps, chains, PowerList(room, FullSet(room, maps, chains)))
  }

  /** The power events to sort and what they rest on all belong to the room of `create`. */
  ghost predicate OneRoom(room: Room, full: set<EventId>, create: EventId) {
    GraphInRoom(room.store, room.auth.rules, create, StepOneGraph(room, full))
  }

  ghost predicate IsVisit(room: Room, full: set<EventId>, order: seq<EventId>) {
    IsOrderOf(order, StepOneGraph(room, full).Keys)
  }

  /** All orders of looking them up give the senders the same levels. */
  ghost predicate LevelsSettled(room: Room, full: set<EventId>) {
    forall o, p :: IsVisit(room, full, o) && IsVisit(room, full, p) ==>
      Run(room.store, room.auth.rules, o).0 == Run(room.store, room.auth.rules, p).0
  }

  // ---------------------------------------------------------------- the steps

  lemma UnconflictedWellKeyed(store: Store, maps: set<StateMap>)
    requires forall m :: m in maps ==> WellKeyed(store, m)
    ensures WellKeyed(store, Unconflicted(maps))
  {
  }

  lemma ReplayWellKeyed(store: Store, auth: Authorizer, events: seq<EventId>, initial: StateMap)
    requires WellKeyed(store, initial) && Replay(store, auth, events, initial).Ok?
    ensures WellKeyed(store, Replay(store, auth, events, initial).value)
  {
  }

  lemma {:induction false} ChainIsPowerLevels(store: Store, id: EventId, x: EventId)
    requires Acyclic(store) && Chain(store, id).Ok? && x in Chain(store, id).value
    ensures x in store && (x == id || IsPowerLevels(store, x))
    decreases Height(store, id)
  {
    if x != id { ChainIsPowerLevels(store, NextLevels(store, store[id].authEvents).value.value, x); }
  }

  /** Every power levels event was taken in step 1, so what remains is off the mainline. */
  lemma RemainingOffMainline(store: Store, full: set<EventId>, taken: set<EventId>, partial: StateMap)
    requires Acyclic(store) && WellKeyed(store, partial) && PowerEventsOf(store, full) <= taken
    requires MainlineOf(store, LevelsEntry(partial)).Ok?
    ensures full - taken !! Elems(MainlineOf(store, LevelsEntry(partial)).value)
  {
    forall x | x in MainlineOf(store, LevelsEntry(partial)).value ensures x !in full - taken {
      var p := LevelsEntry(partial).value;
      ChainIsPowerLevels(store, p, x);
      assert IsPowerLevels(store, x);
      assert IsPowerEvent(store[x]);
    }
  }

  /** The sort keeps every event of the graph: all power events and what they rest on in the set. */
  lemma PowerOrderTakesAll(store: Store, full: set<EventId>, g: Graph, s: seq<EventId>, d: Details)
    requires Acyclic(store) && full <= store.Keys && g == PowerGraph(store, full, PowerEventsOf(store, full))
    requires s == KahnOrder(g, d)
    ensures IsTopological(g, s) && PowerEventsOf(store, full) <= Elems(s) == g.Keys <= full
  {
    var roots := PowerEventsOf(store, full);
    PowerGraphClosed(store, full, roots);
    PowerGraphSorts(store, full, roots, d);
    assert IsTopological(g, s);
  }

  method SelectPowerEvents(store: Store, full: set<EventId>) returns (power: seq<EventId>)
    ensures Elems(power) == PowerEventsOf(store, full)
  {
    power := [];
    var todo := full;
    while todo != {}
      invariant todo <= full && Elems(power) == PowerEventsOf(store, full - todo)
      decreases todo
    {
      var id :| id in todo;
      todo := todo - {id};
      if id in store && IsPowerEvent(store[id]) {
        ElemsAppend(power, id);
        power := power + [id];
      }
    }
    assert full - todo == full;
  }

  method CollectRemaining(full: set<EventId>, taken: seq<EventId>) returns (remaining: seq<EventId>)
    ensures Elems(remaining) == full - Elems(taken)
  {
    remaining := [];
    var todo := full;
    while todo != {}
      invariant todo <= full && Elems(remaining) == full - todo - Elems(taken)
      decreases todo
    {
      var id :| id in todo;
      todo := todo - {id};
      if id !in taken {
        ElemsAppend(remaining, id);
        remaining := remaining + [id];
      }
    }
  }

  /** What every run of the steps leaves behind, on any input. */
  ghost predicate IsTrace(room: Room, u: StateMap, full: set<EventId>, t: Trace)
    requires Acyclic(room.store)
  {
    && IsTopological(StepOneGraph(room, full), t.power) && PowerEventsOf(room.store, full) <= Elems(t.power) <= full
    && Replay(room.store, room.auth, t.power, StartOf(room, u)) == Ok(t.partial)
    && WalkList(room.store, LevelsEntry(t.partial), full - Elems(t.power)) == Ok(t.rest)
    && Replay(room.store, room.auth, t.rest, t.partial) == Ok(t.last)
  }

  /** Step 1. */
  method SortPower(room: Room, full: set<EventId>) returns (r: Result<seq<EventId>, StateError>, ghost order: seq<EventId>)
    requires Acyclic(room.store) && full <= room.store.Keys
    ensures IsVisit(room, full, order) && Matches(r, PowerListAt(room, full, order))
    ensures r.Ok? ==> IsTopological(StepOneGraph(room, full), r.value)
    ensures r.Ok? ==> PowerEventsOf(room.store, full) <= Elems(r.value) <= full
  {
    var roots := SelectPowerEvents(room.store, full);
    r, order := SortPowerEvents(roots, full, room.auth.rules, room.store);
    if r.Ok? {
      ghost var g := StepOneGraph(room, full);
      ghost var d :| r.value == KahnOrder(g, d);
      PowerOrderTakesAll(room.store, full, g, r.value, d);
    }
  }

  /** Steps 1 and 2. */
  method ResolvePower(room: Room, u: StateMap, full: set<EventId>)
    returns (r: Result<(seq<EventId>, StateMap), StateError>, ghost order: seq<EventId>)
    requires Acyclic(room.store) && full <= room.store.Keys
    ensures IsVisit(room, full, order)
    ensures var power := PowerListAt(room, full, order);
      && (r.Ok? <==> power.Some? && Replay(room.store, room.auth, power.value, StartOf(room, u)).Ok?)
      && (r.Ok? ==> power == Some(r.value.0) && Replay(room.store, room.auth, r.value.0, StartOf(room, u)) == Ok(r.value.1))
    ensures r.Ok? ==> IsTopological(StepOneGraph(room, full), r.value.0)
    ensures r.Ok? ==> PowerEventsOf(room.store, full) <= Elems(r.value.0) <= full
  {
    var sorted;
    sorted, order := SortPower(room, full);
    if sorted.Err? { return Err(sorted.error), order; }
    var start := if room.stateRules.emptyStart then map[] else u;
    var partial := IterativeAuthCheck(room.auth, sorted.value, start, room.store);
    if partial.Err? { return Err(partial.error), order; }
    r := Ok((sorted.value, partial.value));
  }

  /** Steps 3 and 4. */
  method ResolveRest(room: Room, full: set<EventId>, taken: seq<EventId>, partial: StateMap)
    returns (r: Result<(seq<EventId>, StateMap), StateError>)
    requires Acyclic(room.store)
    ensures var rest := WalkList(room.store, LevelsEntry(partial), full - Elems(taken));
      && (r.Ok? <==> rest.Ok? && Replay(room.store, room.auth, rest.value, partial).Ok?)
      && (r.Ok? ==> rest == Ok(r.value.0) && Replay(room.store, room.auth, r.value.0, partial) == Ok(r.value.1))
  {
    var remaining := CollectRemaining(full, taken);
    var rest := MainlineSort(remaining, LevelsEntry(partial), room.store);
    if rest.Err? { return Err(rest.error); }
    var last := IterativeAuthCheck(room.auth, rest.value, partial, room.store);
    if last.Err? { return Err(last.error); }
    r := Ok((rest.value, last.value));
  }

  /** Steps 1 to 4. */
  method ApplySteps(room: Room, u: StateMap, full: set<EventId>)
    returns (r: Result<Trace, StateError>, ghost order: seq<EventId>)
    requires Acyclic(room.store) && full <= room.store.Keys
    ensures IsVisit(room, full, order) && Matches(r, StepsAfter(room, u, full, PowerListAt(room, full, order)))
    ensures r.Ok? ==> IsTrace(room, u, full, r.value)
  {
    var power;
    power, order := ResolvePower(room, u, full);
    if power.Err? { return Err(power.error), order; }
    var (sorted, partial) := power.value;
    var rest := ResolveRest(room, full, sorted, partial);
    if rest.Err? { return Err(rest.error), order; }
    r := Ok(Trace(sorted, partial, rest.value.0, rest.value.1));
  }

  /** Chain the three sources of the full conflicted set and drop what cannot be fetched. */
  method CollectFull(room: Room, c: map<Key, seq<EventId>>, chains: seq<set<EventId>>, sub: set<EventId>)
    returns (full: set<EventId>)
    ensures full == FullConflictedSet(room, map k | k in c :: Elems(c[k]), Elems(chains), sub)
  {
    var ids := AuthDiff(chains);
    ghost var diff := ids;
    ids := ids + sub;
    var todo := c.Keys;
    while todo != {}
      invariant todo <= c.Keys
      invariant forall id :: id in ids <==> id in diff || id in sub || exists k :: k in c && k !in todo && id in Elems(c[k])
      decreases todo
    {
      var k :| k in todo;
      ids := ids + Elems(c[k]);
      todo := todo - {k};
    }
    full := set id | id in ids && id in room.store;
    ghost var e := map k | k in c :: Elems(c[k]);
    forall id ensures InConflict(e, id) <==> exists k :: k in c && id in Elems(c[k]) {
      if InConflict(e, id) {
        var k :| k in e && id in e[k];
        assert id in Elems(c[k]);
      }
      if k :| k in c && id in Elems(c[k]) { assert id in e[k]; }
    }
  }

  /** The split and the full conflicted set; `None` where there is no conflict. */
  method Prepare(room: Room, maps: seq<StateMap>, chains: seq<set<EventId>>)
    returns (u: StateMap, full: Option<Result<set<EventId>, StateError>>)
    ensures u == Unconflicted(Elems(maps))
    ensures full.None? <==> Conflicted(Elems(maps)) == map[]
    ensures full.Some? ==> (full.value.Ok? <==> SubgraphOf(room, Conflicted(Elems(maps))).Some?)
    ensures full.Some? && full.value.Err? ==> full.value.error == SubgraphFailed
    ensures full.Some? && full.value.Ok? ==> full.value.value == FullSet(room, Elems(maps), Elems(chains))
  {
    var c;
    u, c := SplitConflicted(maps);
    UnconflictedUnique(Elems(maps), u, Unconflicted(Elems(maps)));
    var sets := map k | k in c :: Elems(c[k]);
    ConflictedUnique(Elems(maps), sets, Conflicted(Elems(maps)));
    assert c.Keys == sets.Keys;
    if c == map[] { return u, None; }
    var sub := SubgraphOf(room, sets);
    if sub.None? { return u, Some(Err(SubgraphFailed)); }
    var ids := CollectFull(room, c, chains, sub.value);
    full := Some(Ok(ids));
  }

  /**
   * The whole algorithm on any input: a function of the sets and of the order the senders' levels
   * are looked up in, which shows neither in one room nor where the levels are settled. Unanimous
   * pairs survive, states without conflict are returned as they are,
   * and the steps leave a trace.
   */
  method ResolveState(room: Room, maps: seq<StateMap>, chains: seq<set<EventId>>) returns (r: Result<StateMap, StateError>)
    requires Acyclic(room.store)
    ensures exists order :: IsVisit(room, FullSet(room, Elems(maps), Elems(chains)), order) && GivenBy(r, room, Elems(maps), Elems(chains), order)
    ensures LevelsSettled(room, FullSet(room, Elems(maps), Elems(chains))) ==>
      forall order :: IsVisit(room, FullSet(room, Elems(maps), Elems(chains)), order) ==> GivenBy(r, room, Elems(maps), Elems(chains), order)
    ensures forall create :: OneRoom(room, FullSet(room, Elems(maps), Elems(chains)), create) ==>
      Matches(r, Resolution(room, Elems(maps), Elems(chains)))
    ensures r.Ok? ==> KeepsUnanimous(Elems(maps), r.value)
    ensures Conflicted(Elems(maps)) == map[] ==> r == Ok(Unconflicted(Elems(maps)))
    ensures forall m :: Elems(maps) == {m} ==> r == Ok(m)
    ensures Conflicted(Elems(maps)) != map[] && room.stateRules.useSubgraph && room.subgraph(Conflicted(Elems(maps))).None? ==>
      r == Err(SubgraphFailed)
    ensures r.Ok? && Conflicted(Elems(maps)) != map[] ==>
      exists t :: IsTrace(room, Unconflicted(Elems(maps)), FullSet(room, Elems(maps), Elems(chains)), t)
               && ChecksTheDispute(room, Elems(maps), Elems(chains), t)
               && r.value == t.last + Unconflicted(Elems(maps))
  {
    ghost var order := SomeOrder(StepOneGraph(room, FullSet(room, Elems(maps), Elems(chains))).Keys);
    var u, full := Prepare(room, maps, chains);
    forall m | Elems(maps) == {m} ensures u == m && full.None? {
      OneMapUnanimous(m, Unconflicted({m}), Conflicted({m}));
    }
    if full.None? {
      r := Ok(u);
    } else if full.value.Err? {
      r := Err(full.value.error);
    } else {
      var resolved;
      resolved, order := ApplySteps(room, u, full.value.value);
      if resolved.Ok? { TraceChecksTheDispute(room, Elems(maps), Elems(chains), resolved.value); }
      r := if resolved.Ok? then Ok(resolved.value.last + u) else Err(resolved.error);
    }
    assert GivenBy(r, room, Elems(maps), Elems(chains), order);
    AnyVisit(r, room, Elems(maps), Elems(chains), order);
  }

  lemma AnyVisit(r: Result<StateMap, StateError>, room: Room, maps: set<StateMap>, chains: set<set<EventId>>, order: seq<EventId>)
    requires Acyclic(room.store) && IsVisit(room, FullSet(room, maps, chains), order) && GivenBy(r, room, maps, chains, order)
    ensures LevelsSettled(room, FullSet(room, maps, chains)) ==>
      forall o :: IsVisit(room, FullSet(room, maps, chains), o) ==> GivenBy(r, room, maps, chains, o)
    ensures forall create :: OneRoom(room, FullSet(room, maps, chains), create) ==> Matches(r, Resolution(room, maps, chains))
  {
    forall create | OneRoom(room, FullSet(room, maps, chains), create) ensures Matches(r, Resolution(room, maps, chains)) {
      OneRoomIsDeterministic(r, room, maps, chains, order, create);
    }
    if LevelsSettled(room, FullSet(room, maps, chains)) {
      forall o | IsVisit(room, FullSet(room, maps, chains), o) ensures GivenBy(r, room, maps, chains, o) {
        SettledLevelsAreDeterministic(r, room, maps, chains, order, o);
      }
    }
  }

  /** The result is the resolution after the list of step 1 that this order of looking levels up gives. */
  ghost predicate GivenBy(r: Result<StateMap, StateError>, room: Room, maps: set<StateMap>, chains: set<set<EventId>>, order: seq<EventId>)
    requires Acyclic(room.store)
  {
    Matches(r, ResolutionAfter(room, maps, chains, PowerListAt(room, FullSet(room, maps, chains), order)))
  }

  /** For the events of one room no order shows: the result is the resolution. */
  lemma OneRoomIsDeterministic(r: Result<StateMap, StateError>, room: Room, maps: set<StateMap>, chains: set<set<EventId>>,
                               order: seq<EventId>, create: EventId)
    requires Acyclic(room.store) && OneRoom(room, FullSet(room, maps, chains), create)
    requires IsVisit(room, FullSet(room, maps, chains), order) && GivenBy(r, room, maps, chains, order)
    ensures Matches(r, Resolution(room, maps, chains))
  {
    var full := FullSet(room, maps, chains);
    PowerGraphClosed(room.store, full, PowerEventsOf(room.store, full));
    OrderAtInRoom(room.store, room.auth.rules, full, create, StepOneGraph(room, full), order);
  }

  /** Nor does it in any set of events where the levels are settled. */
  lemma SettledLevelsAreDeterministic(r: Result<StateMap, StateError>, room: Room, maps: set<StateMap>, chains: set<set<EventId>>,
                                      o: seq<EventId>, p: seq<EventId>)
    requires Acyclic(room.store) && LevelsSettled(room, FullSet(room, maps, chains))
    requires IsVisit(room, FullSet(room, maps, chains), o) && IsVisit(room, FullSet(room, maps, chains), p)
    requires GivenBy(r, room, maps, chains, o)
    ensures GivenBy(r, room, maps, chains, p)
  {
  }

  /** Every pair that all state maps have is in the state. */
  ghost predicate KeepsUnanimous(maps: set<StateMap>, state: StateMap) {
    forall k, v :: Somewhere(maps, k, v) && Everywhere(maps, k, v) ==> k in state && state[k] == v
  }

  // ---------------------------------------------------------------- what is put to the checks

  /**
   * The event can be fetched, and is in dispute: in some but not all auth chains, the value of some
   * key in some but not all states, or in the subgraph, for the room versions that ask for it.
   */
  ghost predicate Disputed(room: Room, maps: set<StateMap>, chains: set<set<EventId>>, id: EventId) {
    && id in room.store
    && (|| (exists a, b :: a in chains && b in chains && id in a && id !in b)
        || (exists k :: Somewhere(maps, k, id) && !Everywhere(maps, k, id))
        || (room.stateRules.useSubgraph && InSubgraph(room.subgraph(Conflicted(maps)), id)))
  }

  predicate InSubgraph(sub: Option<set<EventId>>, id: EventId) {
    sub.Some? && id in sub.value
  }

  lemma FullSetIsDisputed(room: Room, maps: set<StateMap>, chains: set<set<EventId>>, id: EventId)
    requires SubgraphOf(room, Conflicted(maps)).Some?
    ensures id in FullSet(room, maps, chains) <==> Disputed(room, maps, chains, id)
  {
    var c := Conflicted(maps);
    assert id in AuthDifference(chains) <==> exists a, b :: a in chains && b in chains && id in a && id !in b;
    if InConflict(c, id) {
      var k :| k in c && id in c[k];
      assert Somewhere(maps, k, id) && !Everywhere(maps, k, id);
    }
    if k :| Somewhere(maps, k, id) && !Everywhere(maps, k, id) { assert k in c && id in c[k]; }
  }

  /** A power event in dispute, then each time an event in dispute that the one before cites. */
  ghost predicate IsCitationPath(room: Room, maps: set<StateMap>, chains: set<set<EventId>>, p: seq<EventId>) {
    && p != [] && (forall x :: x in p ==> Disputed(room, maps, chains, x))
    && p[0] in room.store && IsPowerEvent(room.store[p[0]])
    && forall i :: 0 <= i < |p| - 1 ==> Cites(room.store, p[i], p[i + 1])
  }

  predicate Cites(store: Store, id: EventId, a: EventId) {
    id in store && a in store[id].authEvents
  }

  /** The event is a power event in dispute, or one such an event rests on. */
  ghost predicate UnderPower(room: Room, maps: set<StateMap>, chains: set<set<EventId>>, id: EventId) {
    exists p :: IsCitationPath(room, maps, chains, p) && p[|p| - 1] == id
  }

  lemma StepOneIsUnderPower(room: Room, maps: set<StateMap>, chains: set<set<EventId>>, id: EventId)
    requires SubgraphOf(room, Conflicted(maps)).Some?
    ensures id in StepOneGraph(room, FullSet(room, maps, chains)) <==> UnderPower(room, maps, chains, id)
  {
    var full := FullSet(room, maps, chains);
    forall x ensures x in full <==> Disputed(room, maps, chains, x) { FullSetIsDisputed(room, maps, chains, x); }
    if id in StepOneGraph(room, full) {
      var r :| r in PowerEventsOf(room.store, full) && Reaches(room.store, full, r, id);
      var p :| IsAuthPath(room.store, full, p) && p[0] == r && p[|p| - 1] == id;
      PathInDispute(room, full, p);
      assert IsCitationPath(room, maps, chains, p);
    }
    if UnderPower(room, maps, chains, id) {
      var p :| IsCitationPath(room, maps, chains, p) && p[|p| - 1] == id;
      assert IsAuthPath(room.store, full, p);
      assert p[0] in PowerEventsOf(room.store, full) && p[|p| - 1] in full;
    }
  }

  lemma PathInDispute(room: Room, full: set<EventId>, p: seq<EventId>)
    requires full <= room.store.Keys && IsAuthPath(room.store, full, p) && p[0] in full
    ensures forall x :: x in p ==> x in full
    ensures forall i :: 0 <= i < |p| - 1 ==> Cites(room.store, p[i], p[i + 1])
  {
    forall i | 0 <= i < |p| ensures p[i] in full {
      if i > 0 { assert p[i - 1 + 1] in AuthEdges(room.store, full, p[i - 1]); }
    }
  }

  /**
   * What a trace puts to the checks, and in what order: first the power events in dispute and what
   * they rest on, each after those it cites; then what is left and has a chain, by the mainline of
   * the power levels event resolved so far. Steps 1 and 2 start from nothing or from the agreed state.
   */
  ghost predicate ChecksTheDispute(room: Room, maps: set<StateMap>, chains: set<set<EventId>>, t: Trace) {
    && Distinct(t.power) && (forall id :: id in t.power <==> UnderPower(room, maps, chains, id))
    && (forall i, a :: 0 <= i < |t.power| && a in t.power && Cites(room.store, t.power[i], a) ==> a in t.power[..i])
    && Replay(room.store, room.auth, t.power, if room.stateRules.emptyStart then map[] else Unconflicted(maps)) == Ok(t.partial)
    && (forall id :: id in t.rest <==>
          Disputed(room, maps, chains, id) && !UnderPower(room, maps, chains, id) && exists s :: IsChain(room.store, id, s))
    && (t.rest != [] ==> exists mainline :: IsMainlineOf(room.store, t.partial, mainline) && Ascending(WalkLess(room.store, mainline), t.rest))
    && Replay(room.store, room.auth, t.rest, t.partial) == Ok(t.last)
  }

  /** The chain of the state's power levels event, or nothing where it has none. */
  ghost predicate IsMainlineOf(store: Store, state: StateMap, mainline: seq<EventId>) {
    if Key(RoomPowerLevels, "") in state then IsChain(store, state[Key(RoomPowerLevels, "")], mainline) else mainline == []
  }

  lemma TraceChecksTheDispute(room: Room, maps: set<StateMap>, chains: set<set<EventId>>, t: Trace)
    requires Acyclic(room.store) && SubgraphOf(room, Conflicted(maps)).Some?
    requires IsTrace(room, Unconflicted(maps), FullSet(room, maps, chains), t)
    ensures ChecksTheDispute(room, maps, chains, t)
  {
    var full := FullSet(room, maps, chains);
    forall id ensures id in t.power <==> UnderPower(room, maps, chains, id) {
      StepOneIsUnderPower(room, maps, chains, id);
      assert id in t.power <==> id in Elems(t.power);
    }
    forall id ensures id in t.rest <==>
      Disputed(room, maps, chains, id) && !UnderPower(room, maps, chains, id) && exists s :: IsChain(room.store, id, s)
    {
      RestIsDisputed(room, maps, chains, t, id);
    }
    CitedComeFirst(room, full, t.power);
    if t.rest != [] { RestByMainline(room, full, t); }
  }

  lemma RestIsDisputed(room: Room, maps: set<StateMap>, chains: set<set<EventId>>, t: Trace, id: EventId)
    requires Acyclic(room.store) && SubgraphOf(room, Conflicted(maps)).Some?
    requires IsTrace(room, Unconflicted(maps), FullSet(room, maps, chains), t)
    ensures id in t.rest <==>
      Disputed(room, maps, chains, id) && !UnderPower(room, maps, chains, id) && exists s :: IsChain(room.store, id, s)
  {
    var full := FullSet(room, maps, chains);
    RestListPlaces(room, full, t);
    assert id in t.rest <==> id in Elems(t.rest);
    FullSetIsDisputed(room, maps, chains, id);
    StepOneIsUnderPower(room, maps, chains, id);
    if Chain(room.store, id).Ok? { ChainIs(room.store, id); }
    if s :| IsChain(room.store, id, s) { ChainIff(room.store, id, s); }
  }

  lemma CitedComeFirst(room: Room, full: set<EventId>, power: seq<EventId>)
    requires full <= room.store.Keys && IsTopological(StepOneGraph(room, full), power) && Elems(power) <= full
    ensures forall i, a :: 0 <= i < |power| && a in power && Cites(room.store, power[i], a) ==> a in power[..i]
  {
    var g := StepOneGraph(room, full);
    forall i, a | 0 <= i < |power| && a in power && Cites(room.store, power[i], a) ensures a in power[..i] {
      assert power[i] in Elems(power) && a in Elems(power);
      assert a in g[power[i]];
    }
  }

  lemma RestByMainline(room: Room, full: set<EventId>, t: Trace)
    requires Acyclic(room.store) && t.rest != []
    requires WalkList(room.store, LevelsEntry(t.partial), full - Elems(t.power)) == Ok(t.rest)
    ensures exists mainline :: IsMainlineOf(room.store, t.partial, mainline) && Ascending(WalkLess(room.store, mainline), t.rest)
  {
    var mainline := MainlineOf(room.store, LevelsEntry(t.partial)).value;
    if LevelsEntry(t.partial).Some? { ChainIs(room.store, LevelsEntry(t.partial).value); }
    assert IsMainlineOf(room.store, t.partial, mainline) && Ascending(WalkLess(room.store, mainline), t.rest);
  }

  // ---------------------------------------------------------------- what the steps leave

  /** The event at `k` passed, as the last one of its key, in step 4 or, no other passing there, in step 2. */
  ghost predicate PassedLast(room: Room, u: StateMap, t: Trace, k: Key, id: EventId) {
    || (exists i: nat :: LastWithKey(room.store, room.auth, t.rest, t.partial, i, k) && t.rest[i] == id)
    || (NoneWithKey(room.store, room.auth, t.rest, t.partial, k)
        && exists i: nat :: LastWithKey(room.store, room.auth, t.power, StartOf(room, u), i, k) && t.power[i] == id)
  }

  ghost predicate NonePassed(room: Room, u: StateMap, t: Trace, k: Key) {
    && NoneWithKey(room.store, room.auth, t.rest, t.partial, k)
    && NoneWithKey(room.store, room.auth, t.power, StartOf(room, u), k)
  }

  /** Each key ends with the last event of that key that passed its check, or with what it started with. */
  lemma EntriesPassed(room: Room, u: StateMap, full: set<EventId>, t: Trace, k: Key)
    requires Acyclic(room.store) && IsTrace(room, u, full, t)
    ensures (k in t.last && PassedLast(room, u, t, k, t.last[k]))
         || (NonePassed(room, u, t, k) && SameEntry(t.last, if room.stateRules.emptyStart then map[] else u, k))
  {
    ReplayKeepsLastPassing(room.store, room.auth, t.rest, t.partial, k);
    ReplayKeepsLastPassing(room.store, room.auth, t.power, StartOf(room, u), k);
  }

  /** So every entry is unanimous, or an event of the full conflicted set under its own key. */
  lemma EntriesAreConflicted(room: Room, u: StateMap, full: set<EventId>, t: Trace, k: Key)
    requires Acyclic(room.store) && IsTrace(room, u, full, t) && k in t.last
    ensures || (k in u && t.last[k] == u[k])
            || (t.last[k] in full && t.last[k] in room.store && IsTypeAndKey(room.store[t.last[k]], k.kind, k.stateKey))
  {
    RestListPlaces(room, full, t);
    assert forall e :: e in t.rest ==> e in Elems(t.rest);
    assert forall e :: e in t.power ==> e in Elems(t.power);
    ReplayProvenance(room.store, room.auth, t.rest, t.partial);
    ReplayProvenance(room.store, room.auth, t.power, StartOf(room, u));
  }

  /** Where every chain can be followed, the two lists hold each conflicted event exactly once. */
  lemma ListsPartitionConflicts(room: Room, u: StateMap, full: set<EventId>, t: Trace)
    requires Acyclic(room.store) && IsTrace(room, u, full, t)
    requires forall id :: id in full ==> Chain(room.store, id).Ok?
    ensures Distinct(t.power + t.rest) && Elems(t.power + t.rest) == full
  {
    assert Placeable(room.store, full - Elems(t.power)) == full - Elems(t.power);
    RestListPlaces(room, full, t);
    DisjointAppend(t.power, t.rest);
  }

  lemma RestListPlaces(room: Room, full: set<EventId>, t: Trace)
    requires Acyclic(room.store)
    requires WalkList(room.store, LevelsEntry(t.partial), full - Elems(t.power)) == Ok(t.rest)
    ensures Distinct(t.rest) && Elems(t.rest) == Placeable(room.store, full - Elems(t.power))
  {
    if full - Elems(t.power) != {} {
      var mainline := MainlineOf(room.store, LevelsEntry(t.partial)).value;
      ByPositionStrictTotal(room.store, OwnPositions(room.store, mainline));
      AscendingDistinct(WalkLess(room.store, mainline), t.rest);
    } else {
      ElemsEmpty(t.rest);
    }
  }

  /**
   * When resolution succeeds: every sender level can be read, every event put to the rules has the
   * keys it needs, and the mainline can be followed if there is anything to order by it.
   */
  lemma StepsSucceedIff(room: Room, u: StateMap, full: set<EventId>)
    requires Acyclic(room.store) && full <= room.store.Keys
    ensures Steps(room, u, full).Some? <==>
      && PowerList(room, full).Some?
      && var power := PowerList(room, full).value;
      && AllCheckable(room.store, room.auth, Elems(power))
      && (Replay(room.store, room.auth, power, StartOf(room, u)).Ok? ==>
            RestSucceeds(room, Replay(room.store, room.auth, power, StartOf(room, u)).value, full - Elems(power)))
  {
    if PowerList(room, full).Some? {
      var power := PowerList(room, full).value;
      ReplaySucceedsIff(room.store, room.auth, power, StartOf(room, u));
      if Replay(room.store, room.auth, power, StartOf(room, u)).Ok? {
        RestSucceedsIff(room, Replay(room.store, room.auth, power, StartOf(room, u)).value, full - Elems(power));
      }
    }
  }

  ghost predicate RestSucceeds(room: Room, partial: StateMap, remaining: set<EventId>)
    requires Acyclic(room.store)
  {
    && (remaining == {} || MainlineOf(room.store, LevelsEntry(partial)).Ok?)
    && AllCheckable(room.store, room.auth, Placeable(room.store, remaining))
  }

  lemma RestSucceedsIff(room: Room, partial: StateMap, remaining: set<EventId>)
    requires Acyclic(room.store)
    ensures RestSucceeds(room, partial, remaining) <==>
      && WalkList(room.store, LevelsEntry(partial), remaining).Ok?
      && Replay(room.store, room.auth, WalkList(room.store, LevelsEntry(partial), remaining).value, partial).Ok?
  {
    var rest := WalkList(room.store, LevelsEntry(partial), remaining);
    if rest.Ok? {
      ReplaySucceedsIff(room.store, room.auth, rest.value, partial);
      assert Elems(rest.value) == Placeable(room.store, remaining);
    }
  }
}
