/**
 * Where the code sorts the create event in step 1 and the specification leaves it for step 3, the
 * lists differ and the resolved state does not: every event of the room sees the create event anyway.
 */
module CreateEvent {
  import opened Orders
  import opened Events
  import opened PowerSort
  import opened AuthGraph
  import opened SenderPower
  import opened IterativeAuth
  import opened Mainline
  import opened Split
  import opened Resolve
  import opened Conformance

  const CREATE_KEY := Key(RoomCreate, "")

  /**
   * The set is of a room with one create event `c`, which cites nothing and is checked against
   * nothing; state keys are ordinary.
   */
  ghost predicate OneCreate(room: Room, full: set<EventId>, c: EventId) {
    && full <= room.store.Keys && OrdinaryKeys(room.store, full)
    && (forall id :: IsCreate(room.store, id) ==> id == c)
    && (forall id :: id in full ==> InRoom(room.store, room.auth.rules, c, id))
    && (c in full ==>
          && IsCreate(room.store, c)
          && room.store[c].authEvents == []
          && room.auth.authTypes(room.store[c]) == Some([]))
  }

  // ---------------------------------------------------------------- verdicts

  /** The states have the same entries but for the create event. */
  ghost predicate AgreeButCreate(s: StateMap, t: StateMap) {
    forall k :: k != CREATE_KEY ==> SameEntry(s, t, k)
  }

  /** The state has no other create event that can be fetched. */
  ghost predicate CreateIs(store: Store, c: EventId, s: StateMap) {
    CREATE_KEY in s && s[CREATE_KEY] in store ==> s[CREATE_KEY] == c
  }

  lemma AgreeAfterPut(s: StateMap, t: StateMap, k: Key, v: EventId)
    requires AgreeButCreate(s, t)
    ensures AgreeButCreate(s[k := v], t[k := v]) && AgreeButCreate(s[CREATE_KEY := v], t)
  {
    var a, b, d := s[k := v], t[k := v], s[CREATE_KEY := v];
    forall j | j != CREATE_KEY ensures SameEntry(a, b, j) { assert SameEntry(s, t, j); }
    forall j | j != CREATE_KEY ensures SameEntry(d, t, j) { assert SameEntry(s, t, j); }
  }

  lemma AgreementIsMutual(s: StateMap, t: StateMap)
    requires AgreeButCreate(s, t)
    ensures AgreeButCreate(t, s) && LevelsEntry(s) == LevelsEntry(t)
  {
    forall k | k != CREATE_KEY ensures SameEntry(t, s, k) { assert SameEntry(s, t, k); }
    assert SameEntry(s, t, Key(RoomPowerLevels, ""));
  }

  lemma OtherKeys(room: Room, full: set<EventId>, c: EventId, e: EventId)
    requires OneCreate(room, full, c) && e in full && e != c
    ensures room.store[e].kind != RoomCreate && room.store[e].stateKey.Some? && KeyOf(room.store[e]) != CREATE_KEY
  {
    assert !IsCreate(room.store, e);
  }

  /** An event of the room is checked against the create event whatever the state, unless that is rejected. */
  lemma BackgroundHasCreate(room: Room, full: set<EventId>, c: EventId, e: EventId)
    requires OneCreate(room, full, c) && {c, e} <= full && e != c && !room.store[c].rejected
    requires Background(room.store, room.auth, room.store[e]).Ok?
    ensures var found := Background(room.store, room.auth, room.store[e]).value;
      CREATE_KEY in found && found[CREATE_KEY] == room.store[c]
  {
    var event := room.store[e];
    BackgroundAt(room.store, room.auth, event, CREATE_KEY);
    if !room.auth.rules.createIdAsRoomId {
      CitedIsLastAccepted(room.store, event.authEvents, CREATE_KEY);
      var i :| 0 <= i < |event.authEvents| && event.authEvents[i] == c;
      assert CitedWithKey(room.store, event.authEvents, i, CREATE_KEY);
      var j: nat :| LastCited(room.store, event.authEvents, j, CREATE_KEY)
                    && Cited(room.store, event.authEvents).value[CREATE_KEY] == room.store[event.authEvents[j]];
      assert IsCreate(room.store, event.authEvents[j]);
    } else {
      OtherKeys(room, full, c, e);
    }
  }

  /** So its verdict is the same in states that differ in the create event only. */
  lemma VerdictIgnoresCreate(room: Room, full: set<EventId>, c: EventId, e: EventId, s: StateMap, t: StateMap)
    requires OneCreate(room, full, c) && {c, e} <= full && e != c
    requires AgreeButCreate(s, t) && CreateIs(room.store, c, s) && CreateIs(room.store, c, t)
    requires Background(room.store, room.auth, room.store[e]).Ok?
    ensures var background := Background(room.store, room.auth, room.store[e]).value;
      Accepts(room.store, room.auth, room.store[e], background, s)
      == Accepts(room.store, room.auth, room.store[e], background, t)
  {
    var background := Background(room.store, room.auth, room.store[e]).value;
    match room.auth.authTypes(room.store[e])
    case None =>
    case Some(keys) =>
      var f, g := Overlay(room.store, s, keys, background), Overlay(room.store, t, keys, background);
      forall k ensures (k in f <==> k in g) && (k in f ==> f[k] == g[k]) {
        OverlayAt(room.store, s, keys, background, k);
        OverlayAt(room.store, t, keys, background, k);
        if k == CREATE_KEY {
          if !room.store[c].rejected { BackgroundHasCreate(room, full, c, e); }
        } else {
          assert SameEntry(s, t, k);
        }
      }
      assert f == g;
  }

  // ---------------------------------------------------------------- replays

  predicate CreateAllowed(room: Room, c: EventId)
    requires c in room.store
  {
    room.auth.allows(room.store[c], map[])
  }

  /** The create event is put to the rules with nothing to check it against, whatever the state. */
  lemma CreateStep(room: Room, full: set<EventId>, c: EventId, state: StateMap)
    requires OneCreate(room, full, c) && c in full
    ensures Step(room.store, room.auth, state, c) == Ok(if CreateAllowed(room, c) then state[CREATE_KEY := c] else state)
  {
    assert Cited(room.store, room.store[c].authEvents) == Ok(map[]);
    assert Overlay(room.store, state, [], map[]) == map[];
  }

  /** Any other event leaves the create event alone, and does the same whether it is there or not. */
  lemma OtherStep(room: Room, full: set<EventId>, c: EventId, e: EventId, s: StateMap, t: StateMap)
    requires OneCreate(room, full, c) && {c, e} <= full && e != c
    requires AgreeButCreate(s, t) && CreateIs(room.store, c, s) && CreateIs(room.store, c, t)
    ensures var x, y := Step(room.store, room.auth, s, e), Step(room.store, room.auth, t, e);
      && (x.Ok? <==> y.Ok?)
      && (x.Ok? ==> AgreeButCreate(x.value, y.value) && SameEntry(x.value, s, CREATE_KEY) && SameEntry(y.value, t, CREATE_KEY))
  {
    OtherKeys(room, full, c, e);
    if Background(room.store, room.auth, room.store[e]).Ok? {
      VerdictIgnoresCreate(room, full, c, e, s, t);
      AgreeAfterPut(s, t, KeyOf(room.store[e]), e);
    }
  }

  /** Leaving the create event out of a list changes nothing but its own entry. */
  lemma {:induction false} ReplayWithoutCreate(room: Room, full: set<EventId>, c: EventId, l: seq<EventId>, s: StateMap, t: StateMap)
    requires OneCreate(room, full, c) && c in full && Elems(l) <= full
    requires AgreeButCreate(s, t) && CreateIs(room.store, c, s) && CreateIs(room.store, c, t)
    ensures var x, y := Replay(room.store, room.auth, l, s), Replay(room.store, room.auth, Minus(l, c), t);
      && (x.Ok? <==> y.Ok?)
      && (x.Ok? ==> AgreeButCreate(x.value, y.value) && CreateIs(room.store, c, x.value) && CreateIs(room.store, c, y.value))
    decreases |l|
  {
    if l != [] {
      var front, last := l[..|l| - 1], l[|l| - 1];
      assert last in Elems(l) && Elems(front) <= Elems(l);
      ReplayWithoutCreate(room, full, c, front, s, t);
      var x, y := Replay(room.store, room.auth, front, s), Replay(room.store, room.auth, Minus(front, c), t);
      if last == c {
        assert Minus(l, c) == Minus(front, c);
        if x.Ok? {
          CreateStep(room, full, c, x.value);
          AgreeAfterPut(x.value, y.value, CREATE_KEY, c);
        }
      } else {
        var m := Minus(l, c);
        assert m == Minus(front, c) + [last] && m[..|m| - 1] == Minus(front, c);
        if x.Ok? { OtherStep(room, full, c, last, x.value, y.value); }
      }
    }
  }

  /** What a replay makes of the create entry. */
  lemma {:induction false} CreateEntry(room: Room, full: set<EventId>, c: EventId, l: seq<EventId>, s: StateMap)
    requires OneCreate(room, full, c) && c in full && Elems(l) <= full && CreateIs(room.store, c, s)
    requires Replay(room.store, room.auth, l, s).Ok?
    ensures var f := Replay(room.store, room.auth, l, s).value;
      && CreateIs(room.store, c, f)
      && (if c in l && CreateAllowed(room, c) then CREATE_KEY in f && f[CREATE_KEY] == c else SameEntry(f, s, CREATE_KEY))
    decreases |l|
  {
    if l != [] {
      var front, last := l[..|l| - 1], l[|l| - 1];
      assert last in Elems(l) && Elems(front) <= Elems(l) && l == front + [last];
      CreateEntry(room, full, c, front, s);
      var f := Replay(room.store, room.auth, front, s).value;
      if last == c { CreateStep(room, full, c, f); } else { OtherStep(room, full, c, last, f, f); }
    }
  }

  // ---------------------------------------------------------------- the lists

  /** The create event is in the set, and no power event of the specification rests on it. */
  ghost predicate CreateApart(room: Room, full: set<EventId>, c: EventId) {
    c in full && !ReachedFrom(room.store, full, SpecifiedPowerEventsOf(room.store, full), c)
  }

  /** In a room step 1 differs in this case only. */
  lemma ApartIff(room: Room, full: set<EventId>, c: EventId)
    requires OneCreate(room, full, c)
    ensures SameStepOne(room.store, full) <==> !CreateApart(room, full, c)
  {
    SameStepOneIffCreatesReached(room.store, full);
    assert c in full ==> c in CreatesOf(room.store, full);
  }

  ghost function SpecifiedGraph(room: Room, full: set<EventId>): Graph {
    PowerGraph(room.store, full, SpecifiedPowerEventsOf(room.store, full))
  }

  /** Then nothing of the specification's graph is linked to the create event. */
  lemma ApartUnlinked(room: Room, full: set<EventId>, c: EventId)
    requires OneCreate(room, full, c) && CreateApart(room, full, c)
    ensures var g := SpecifiedGraph(room, full);
      c !in g && g.Keys <= full && forall v :: v in g ==> c !in g[v]
  {
    PowerGraphClosed(room.store, full, SpecifiedPowerEventsOf(room.store, full));
  }

  /** And the code's graph is that graph and the create event. */
  lemma ApartGraph(room: Room, full: set<EventId>, c: EventId)
    requires OneCreate(room, full, c) && CreateApart(room, full, c)
    ensures PowerGraph(room.store, full, PowerEventsOf(room.store, full)) == SpecifiedGraph(room, full)[c := {}]
  {
    OnlyCreatesDiffer(room.store, full);
    assert CreatesOf(room.store, full) == {c};
    GraphWithLeaf(room.store, full, SpecifiedPowerEventsOf(room.store, full), c);
  }

  lemma GraphWithLeaf(store: Store, full: set<EventId>, roots: set<EventId>, c: EventId)
    requires roots <= full && c in full && c in store && store[c].authEvents == []
    ensures PowerGraph(store, full, roots + {c}) == PowerGraph(store, full, roots)[c := {}]
  {
    var g, h := PowerGraph(store, full, roots), PowerGraph(store, full, roots + {c});
    ReachesSelf(store, full, c);
    assert AuthEdges(store, full, c) == {};
    forall v | v in h && v != c ensures v in g {
      var r :| r in roots + {c} && Reaches(store, full, r, v);
      if r == c { NothingBelow(store, full, c, v); }
    }
    assert h.Keys == g.Keys + {c};
  }

  /** An event that cites nothing reaches itself only. */
  lemma NothingBelow(store: Store, full: set<EventId>, c: EventId, v: EventId)
    requires c in store && store[c].authEvents == [] && Reaches(store, full, c, v)
    ensures v == c
  {
    var p :| IsAuthPath(store, full, p) && p[0] == c && p[|p| - 1] == v;
    ClosedContainsReachable(store, full, map[c := {}], p);
  }

  ghost function SpecifiedList(room: Room, full: set<EventId>): Option<seq<EventId>> {
    PowerOrder(room.store, room.auth.rules, SpecifiedGraph(room, full))
  }

  /** The code's list is the specified one with the create event put in somewhere, if its sender's level can be read. */
  lemma ApartLists(room: Room, full: set<EventId>, c: EventId)
    requires Acyclic(room.store) && OneCreate(room, full, c) && CreateApart(room, full, c)
    ensures PowerList(room, full).Some? <==>
      SpecifiedList(room, full).Some? && FreshLevel(room.store, room.auth.rules, c).Ok?
    ensures PowerList(room, full).Some? ==>
      && Minus(PowerList(room, full).value, c) == SpecifiedList(room, full).value
      && c in PowerList(room, full).value && Elems(PowerList(room, full).value) <= full
  {
    ApartGraph(room, full, c);
    ApartUnlinked(room, full, c);
    OrderWithIsolated(room.store, room.auth.rules, SpecifiedGraph(room, full), c);
    if PowerList(room, full).Some? {
      var h := SpecifiedGraph(room, full)[c := {}];
      PowerOrderTakesAll(room.store, full, h, PowerList(room, full).value, FreshDetails(room.store, room.auth.rules, h));
      assert c in Elems(PowerList(room, full).value);
    }
  }

  lemma OrderWithIsolated(store: Store, rules: Rules, g: Graph, c: EventId)
    requires c !in g && forall v :: v in g ==> c !in g[v]
    ensures var x, y := PowerOrder(store, rules, g[c := {}]), PowerOrder(store, rules, g);
      && (x.Some? <==> y.Some? && FreshLevel(store, rules, c).Ok?)
      && (x.Some? ==> Minus(x.value, c) == y.value)
  {
    var d, e := FreshDetails(store, rules, g[c := {}]), FreshDetails(store, rules, g);
    KahnIgnoresTheIsolated(g, d, c);
    KahnAgrees(g, d, e, []);
    assert forall v :: v in g ==> v in g[c := {}];
    assert c in g[c := {}];
  }

  /** The mainline list of a set with the create event, that left out, is the mainline list of the set without it. */
  lemma MainlineListWithoutCreate(store: Store, power: Option<EventId>, events: set<EventId>, c: EventId, s: seq<EventId>)
    requires Acyclic(store) && c in store && store[c].authEvents == [] && c !in events
    requires IsMainlineList(store, power, events + {c}, s)
    ensures MainlineOf(store, power).Ok? && c in s && IsMainlineList(store, power, events, Minus(s, c))
  {
    var mainline := MainlineOf(store, power).value;
    assert Chain(store, c) == Ok([c]);
    assert Placeable(store, events + {c}) == Placeable(store, events) + {c};
    assert c in Elems(s);
    MinusElems(s, c);
    MinusAscending(MainlineLess(store, mainline), s, c);
  }

  // ---------------------------------------------------------------- the states

  ghost predicate Setting(room: Room, u: StateMap, full: set<EventId>, c: EventId) {
    Acyclic(room.store) && WellKeyed(room.store, u) && OneCreate(room, full, c) && CreateApart(room, full, c)
  }

  lemma StartHasNoOtherCreate(room: Room, u: StateMap, full: set<EventId>, c: EventId)
    requires Setting(room, u, full, c)
    ensures CreateIs(room.store, c, StartOf(room, u)) && AgreeButCreate(StartOf(room, u), StartOf(room, u))
  {
    var s := StartOf(room, u);
    if CREATE_KEY in s && s[CREATE_KEY] in room.store { assert IsCreate(room.store, s[CREATE_KEY]); }
  }

  /** What is left after step 1: for the specification the create event too. */
  lemma Remaining(room: Room, full: set<EventId>, c: EventId, power: seq<EventId>)
    requires c in power && c in full
    ensures full - Elems(Minus(power, c)) == (full - Elems(power)) + {c} && c !in full - Elems(power)
  {
    MinusElems(power, c);
  }

  /** Steps 1 and 2 agree but for the create event. */
  lemma PartialsAgree(room: Room, u: StateMap, full: set<EventId>, c: EventId, power: seq<EventId>)
    requires Setting(room, u, full, c) && Elems(power) <= full
    ensures var x := Replay(room.store, room.auth, power, StartOf(room, u));
      var y := Replay(room.store, room.auth, Minus(power, c), StartOf(room, u));
      && (x.Ok? <==> y.Ok?)
      && (x.Ok? ==> SameButCreate(room.store, c, y.value, x.value))
  {
    StartHasNoOtherCreate(room, u, full, c);
    var start := StartOf(room, u);
    ReplayWithoutCreate(room, full, c, power, start, start);
    var x, y := Replay(room.store, room.auth, power, start), Replay(room.store, room.auth, Minus(power, c), start);
    if x.Ok? { AgreementIsMutual(x.value, y.value); }
  }

  /** Two states of one room that differ in the create entry at most. */
  ghost predicate SameButCreate(store: Store, c: EventId, s: StateMap, t: StateMap) {
    AgreeButCreate(s, t) && CreateIs(store, c, s) && CreateIs(store, c, t) && LevelsEntry(s) == LevelsEntry(t)
  }

  /** Steps 3 and 4 too, for lists that differ in the create event. */
  lemma RestsAgree(room: Room, full: set<EventId>, c: EventId, rest: seq<EventId>, x: StateMap, y: StateMap)
    requires OneCreate(room, full, c) && c in full && Elems(rest) <= full && SameButCreate(room.store, c, y, x)
    ensures var a, b := Replay(room.store, room.auth, Minus(rest, c), x), Replay(room.store, room.auth, rest, y);
      && (a.Ok? <==> b.Ok?)
      && (a.Ok? ==> AgreeButCreate(b.value, a.value))
  {
    ReplayWithoutCreate(room, full, c, rest, y, x);
  }

  /** Both lists of one side hold the create event once, so its entry is the same on both sides. */
  lemma CreateEntriesAgree(room: Room, u: StateMap, full: set<EventId>, c: EventId, t: Trace, w: Trace)
    requires Setting(room, u, full, c)
    requires Elems(t.power) + Elems(t.rest) + Elems(w.power) + Elems(w.rest) <= full
    requires c in t.power && c !in t.rest && c !in w.power && c in w.rest
    requires Replay(room.store, room.auth, t.power, StartOf(room, u)) == Ok(t.partial)
    requires Replay(room.store, room.auth, t.rest, t.partial) == Ok(t.last)
    requires Replay(room.store, room.auth, w.power, StartOf(room, u)) == Ok(w.partial)
    requires Replay(room.store, room.auth, w.rest, w.partial) == Ok(w.last)
    ensures SameEntry(t.last, w.last, CREATE_KEY)
  {
    StartHasNoOtherCreate(room, u, full, c);
    CreateEntry(room, full, c, t.power, StartOf(room, u));
    CreateEntry(room, full, c, t.rest, t.partial);
    CreateEntry(room, full, c, w.power, StartOf(room, u));
    CreateEntry(room, full, c, w.rest, w.partial);
  }

  /** The power lists of the two sides. */
  lemma PowersSideBySide(room: Room, full: set<EventId>, c: EventId, power: seq<EventId>, specified: seq<EventId>)
    requires Acyclic(room.store) && OneCreate(room, full, c) && CreateApart(room, full, c)
    requires PowerList(room, full) == Some(power)
    ensures IsSpecifiedPower(room, full, SpecifiedPowerEventsOf(room.store, full), specified) <==> specified == Minus(power, c)
    ensures c in power && Elems(power) <= full
  {
    ApartLists(room, full, c);
    PowerOrderIsSpecified(room, full, SpecifiedPowerEventsOf(room.store, full), specified);
  }

  /** The code's list of step 3 is the specified one without the create event, and the latter needs the mainline. */
  lemma RestsSideBySide(room: Room, u: StateMap, full: set<EventId>, c: EventId, power: seq<EventId>, partial: StateMap, rest: seq<EventId>)
    requires Setting(room, u, full, c) && PowerList(room, full) == Some(power) && c in power
    requires Replay(room.store, room.auth, power, StartOf(room, u)) == Ok(partial)
    requires IsMainlineList(room.store, LevelsEntry(partial), full - Elems(Minus(power, c)), rest)
    ensures MainlineOf(room.store, LevelsEntry(partial)).Ok? && c in rest && Elems(rest) <= full
    ensures WalkList(room.store, LevelsEntry(partial), full - Elems(power)) == Ok(Minus(rest, c))
  {
    Remaining(room, full, c, power);
    MainlineListWithoutCreate(room.store, LevelsEntry(partial), full - Elems(power), c, rest);
    RestIsSpecified(room, u, full, power, partial, Minus(rest, c));
  }

  /** The code's states and list of steps 2 to 4, from those of the specification. */
  lemma CodeAfter(room: Room, u: StateMap, full: set<EventId>, c: EventId, power: seq<EventId>, specified: StateMap, rest: seq<EventId>)
    returns (partial: StateMap)
    requires Setting(room, u, full, c) && PowerList(room, full) == Some(power) && c in power && Elems(power) <= full
    requires Replay(room.store, room.auth, Minus(power, c), StartOf(room, u)) == Ok(specified)
    requires IsMainlineList(room.store, LevelsEntry(specified), full - Elems(Minus(power, c)), rest)
    ensures Replay(room.store, room.auth, power, StartOf(room, u)) == Ok(partial)
    ensures MainlineOf(room.store, LevelsEntry(partial)).Ok? && c in rest && Elems(rest) <= full
    ensures WalkList(room.store, LevelsEntry(partial), full - Elems(power)) == Ok(Minus(rest, c))
    ensures var a, b := Replay(room.store, room.auth, Minus(rest, c), partial), Replay(room.store, room.auth, rest, specified);
      (a.Ok? <==> b.Ok?) && (a.Ok? ==> AgreeButCreate(b.value, a.value))
  {
    PartialsAgree(room, u, full, c, power);
    partial := Replay(room.store, room.auth, power, StartOf(room, u)).value;
    RestsSideBySide(room, u, full, c, power, partial, rest);
    RestsAgree(room, full, c, rest, partial, specified);
  }

  /** The code and the specification never end in different states, and the specification needs the mainline. */
  lemma LastStatesAgree(room: Room, u: StateMap, full: set<EventId>, c: EventId, t: Trace, w: Trace)
    requires Setting(room, u, full, c) && Steps(room, u, full) == Some(t)
    requires FollowsSpecification(room, u, full, SpecifiedPowerEventsOf(room.store, full), w)
    ensures t.last == w.last && MainlineOf(room.store, LevelsEntry(t.partial)).Ok?
  {
    PowersSideBySide(room, full, c, t.power, w.power);
    var partial := CodeAfter(room, u, full, c, t.power, w.partial, w.rest);
    TracesAgree(room, u, full, c, t, w);
  }

  lemma TracesAgree(room: Room, u: StateMap, full: set<EventId>, c: EventId, t: Trace, w: Trace)
    requires Setting(room, u, full, c) && c in t.power && c in w.rest && Elems(t.power) + Elems(w.rest) <= full
    requires w.power == Minus(t.power, c) && t.rest == Minus(w.rest, c)
    requires Replay(room.store, room.auth, t.power, StartOf(room, u)) == Ok(t.partial)
    requires Replay(room.store, room.auth, t.rest, t.partial) == Ok(t.last)
    requires Replay(room.store, room.auth, w.power, StartOf(room, u)) == Ok(w.partial)
    requires Replay(room.store, room.auth, w.rest, w.partial) == Ok(w.last)
    requires AgreeButCreate(w.last, t.last)
    ensures t.last == w.last
  {
    MinusElems(w.rest, c);
    MinusElems(t.power, c);
    assert c !in Elems(t.rest) && c !in Elems(w.power);
    CreateEntriesAgree(room, u, full, c, t, w);
    SameStates(t.last, w.last);
  }

  lemma SameStates(s: StateMap, t: StateMap)
    requires AgreeButCreate(t, s) && SameEntry(s, t, CREATE_KEY)
    ensures s == t
  {
    forall k ensures SameEntry(s, t, k) {
      if k != CREATE_KEY { assert SameEntry(t, s, k); }
    }
    assert forall k :: k in s ==> SameEntry(s, t, k);
    assert forall k :: k in t ==> SameEntry(s, t, k);
  }

  /** Where the code succeeds and the mainline can be built, the steps of the specification can be done. */
  lemma SpecifiedTrace(room: Room, u: StateMap, full: set<EventId>, c: EventId, t: Trace) returns (w: Trace)
    requires Setting(room, u, full, c) && Steps(room, u, full) == Some(t)
    requires MainlineOf(room.store, LevelsEntry(t.partial)).Ok?
    ensures FollowsSpecification(room, u, full, SpecifiedPowerEventsOf(room.store, full), w)
  {
    var power := Minus(t.power, c);
    PowersSideBySide(room, full, c, t.power, power);
    PartialsAgree(room, u, full, c, t.power);
    var partial := Replay(room.store, room.auth, power, StartOf(room, u)).value;
    var rest := SpecifiedRest(room.store, LevelsEntry(t.partial), full - Elems(power));
    RestsSideBySide(room, u, full, c, t.power, t.partial, rest);
    RestsAgree(room, full, c, rest, t.partial, partial);
    w := Trace(power, partial, rest, Replay(room.store, room.auth, rest, partial).value);
  }

  lemma SpecifiedRest(store: Store, power: Option<EventId>, events: set<EventId>) returns (rest: seq<EventId>)
    requires Acyclic(store) && MainlineOf(store, power).Ok?
    ensures IsMainlineList(store, power, events, rest)
  {
    var mainline := MainlineOf(store, power).value;
    ByPositionStrictTotal(store, SpecPositions(store, mainline));
    rest := Sorting(MainlineLess(store, mainline), Placeable(store, events));
  }

  /** Where the steps of the specification can be done, the code succeeds if and only if it can read the create event's level. */
  lemma CodeIffLevel(room: Room, u: StateMap, full: set<EventId>, c: EventId, w: Trace)
    requires Setting(room, u, full, c)
    requires FollowsSpecification(room, u, full, SpecifiedPowerEventsOf(room.store, full), w)
    ensures Steps(room, u, full).Some? <==> FreshLevel(room.store, room.auth.rules, c).Ok?
  {
    ApartLists(room, full, c);
    PowerOrderIsSpecified(room, full, SpecifiedPowerEventsOf(room.store, full), w.power);
    if PowerList(room, full).Some? { CodeSucceeds(room, u, full, c, w, PowerList(room, full).value); }
  }

  lemma CodeSucceeds(room: Room, u: StateMap, full: set<EventId>, c: EventId, w: Trace, power: seq<EventId>)
    requires Setting(room, u, full, c) && PowerList(room, full) == Some(power)
    requires FollowsSpecification(room, u, full, SpecifiedPowerEventsOf(room.store, full), w)
    ensures Steps(room, u, full).Some?
  {
    PowersSideBySide(room, full, c, power, w.power);
    var partial := CodeAfter(room, u, full, c, power, w.partial, w.rest);
  }

  // ---------------------------------------------------------------- all five steps

  /** The code can read the level of the create event's sender, where it needs it and the specification does not. */
  ghost predicate LevelReadable(room: Room, full: set<EventId>, c: EventId) {
    CreateApart(room, full, c) ==> FreshLevel(room.store, room.auth.rules, c).Ok?
  }

  /** The mainline can be built, where the specification needs it and the code does not. */
  ghost predicate MainlineBuildable(room: Room, u: StateMap, full: set<EventId>, c: EventId)
    requires Acyclic(room.store)
  {
    CreateApart(room, full, c) && Steps(room, u, full).Some? ==>
      MainlineOf(room.store, LevelsEntry(Steps(room, u, full).value.partial)).Ok?
  }

  /**
   * In a room, whether or not step 1 sorts the same events, the resolution is the specified state
   * and no other. Where one of the two exists the other does too, with two exact exceptions: the
   * create event's level cannot be read, or the mainline cannot be built to place it.
   */
  lemma RoomResolutionIsSpecified(room: Room, maps: set<StateMap>, chains: set<set<EventId>>, c: EventId, state: StateMap)
    requires Acyclic(room.store) && (forall m :: m in maps ==> WellKeyed(room.store, m))
    requires OneCreate(room, FullSet(room, maps, chains), c)
    ensures Resolution(room, maps, chains).Some? && IsSpecifiedState(room, maps, chains, state) ==>
      Resolution(room, maps, chains) == Some(state)
    ensures Resolution(room, maps, chains) == Some(state) ==>
      (IsSpecifiedState(room, maps, chains, state) <==>
        Conflicted(maps) == map[] || MainlineBuildable(room, Unconflicted(maps), FullSet(room, maps, chains), c))
    ensures IsSpecifiedState(room, maps, chains, state) ==>
      (Resolution(room, maps, chains) == Some(state) <==>
        Conflicted(maps) == map[] || LevelReadable(room, FullSet(room, maps, chains), c))
  {
    var u, full := Unconflicted(maps), FullSet(room, maps, chains);
    ApartIff(room, full, c);
    if SameStepOne(room.store, full) {
      ResolutionMeetsSpecification(room, maps, chains, state);
    } else {
      UnconflictedWellKeyed(room.store, maps);
      ApartResolution(room, maps, chains, c, state);
    }
  }

  lemma ApartResolution(room: Room, maps: set<StateMap>, chains: set<set<EventId>>, c: EventId, state: StateMap)
    requires Setting(room, Unconflicted(maps), FullSet(room, maps, chains), c)
    ensures Resolution(room, maps, chains).Some? && IsSpecifiedState(room, maps, chains, state) ==>
      Resolution(room, maps, chains) == Some(state)
    ensures Resolution(room, maps, chains) == Some(state) ==>
      (IsSpecifiedState(room, maps, chains, state) <==>
        Conflicted(maps) == map[] || MainlineBuildable(room, Unconflicted(maps), FullSet(room, maps, chains), c))
    ensures IsSpecifiedState(room, maps, chains, state) ==>
      (Resolution(room, maps, chains) == Some(state) <==>
        Conflicted(maps) == map[] || LevelReadable(room, FullSet(room, maps, chains), c))
  {
    var u, full := Unconflicted(maps), FullSet(room, maps, chains);
    var spec := SpecifiedPowerEventsOf(room.store, full);
    forall w | FollowsSpecification(room, u, full, spec, w)
      ensures Steps(room, u, full).Some? <==> FreshLevel(room.store, room.auth.rules, c).Ok?
      ensures Steps(room, u, full).Some? ==>
        Steps(room, u, full).value.last == w.last && MainlineBuildable(room, u, full, c)
    {
      CodeIffLevel(room, u, full, c, w);
      if Steps(room, u, full).Some? { LastStatesAgree(room, u, full, c, Steps(room, u, full).value, w); }
    }
    if Steps(room, u, full).Some? && MainlineBuildable(room, u, full, c) {
      var w := SpecifiedTrace(room, u, full, c, Steps(room, u, full).value);
    }
  }
}
