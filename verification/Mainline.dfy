/** The mainline of a power levels event, mainline positions, and the mainline ordering. */
module Mainline {
  import opened Orders
  import opened Events

  type ChainResult = Result<seq<EventId>, StateError>

  /** The first power levels event cited; an auth event before it that cannot be fetched is an error. */
  function NextLevels(store: Store, auth: seq<EventId>): (r: Result<Option<EventId>, StateError>)
    ensures r.Ok? && r.value.Some? ==> r.value.value in auth && IsPowerLevels(store, r.value.value)
  {
    if auth == [] then Ok(None)
    else if auth[0] !in store then Err(NotFound(auth[0]))
    else if IsPowerLevels(store, auth[0]) then Ok(Some(auth[0]))
    else NextLevels(store, auth[1..])
  }

  /** The auth events up to `i` can be fetched and none of them is a power levels event. */
  ghost predicate NoLevelsBefore(store: Store, auth: seq<EventId>, i: nat)
    requires i <= |auth|
  {
    forall j :: 0 <= j < i ==> auth[j] in store && !IsPowerLevels(store, auth[j])
  }

  /** The first auth event that is a power levels event, or that cannot be fetched, or none. */
  ghost predicate IsNextLevels(store: Store, auth: seq<EventId>, r: Result<Option<EventId>, StateError>) {
    match r
    case Ok(None) => NoLevelsBefore(store, auth, |auth|)
    case Ok(Some(p)) => IsPowerLevels(store, p) && exists i: nat :: i < |auth| && auth[i] == p && NoLevelsBefore(store, auth, i)
    case Err(NotFound(id)) => id !in store && exists i: nat :: i < |auth| && auth[i] == id && NoLevelsBefore(store, auth, i)
    case Err(_) => false
  }

  lemma {:induction false} NextLevelsIs(store: Store, auth: seq<EventId>)
    ensures IsNextLevels(store, auth, NextLevels(store, auth))
    decreases |auth|
  {
    if auth != [] {
      if auth[0] !in store || IsPowerLevels(store, auth[0]) {
        assert NoLevelsBefore(store, auth, 0);
      } else {
        NextLevelsIs(store, auth[1..]);
        forall i: nat | i < |auth| && NoLevelsBefore(store, auth[1..], i) ensures NoLevelsBefore(store, auth, i + 1) {
          assert forall j :: 0 < j < i + 1 ==> auth[j] == auth[1..][j - 1];
        }
      }
    }
  }

  /** There is only one such result. */
  lemma NextLevelsIff(store: Store, auth: seq<EventId>, r: Result<Option<EventId>, StateError>)
    ensures NextLevels(store, auth) == r <==> IsNextLevels(store, auth, r)
  {
    NextLevelsIs(store, auth);
  }

  method FindLevels(store: Store, auth: seq<EventId>) returns (r: Result<Option<EventId>, StateError>)
    ensures r == NextLevels(store, auth) && IsNextLevels(store, auth, r)
  {
    NextLevelsIs(store, auth);
    for k := 0 to |auth|
      invariant NextLevels(store, auth) == NextLevels(store, auth[k..])
    {
      if auth[k] !in store { return Err(NotFound(auth[k])); }
      if IsPowerLevels(store, auth[k]) { return Ok(Some(auth[k])); }
    }
    r := Ok(None);
  }

  /** Each event is the first power levels event that the one before it cites. */
  ghost predicate Links(store: Store, s: seq<EventId>) {
    s != [] && forall i :: 0 <= i < |s| - 1 ==>
      s[i] in store && IsNextLevels(store, store[s[i]].authEvents, Ok(Some(s[i + 1])))
  }

  lemma LinksTail(store: Store, s: seq<EventId>)
    requires Links(store, s) && |s| > 1
    ensures Links(store, s[1..])
  {
    var t := s[1..];
    forall i | 0 <= i < |t| - 1 ensures t[i] in store && IsNextLevels(store, store[t[i]].authEvents, Ok(Some(t[i + 1]))) {
      var k := i + 1;
      assert t[i] == s[k] && t[i + 1] == s[k + 1];
    }
  }

  /** From `id` on, up to an event that cites no power levels event. */
  ghost predicate IsChain(store: Store, id: EventId, s: seq<EventId>) {
    Links(store, s) && s[0] == id && s[|s| - 1] in store && IsNextLevels(store, store[s[|s| - 1]].authEvents, Ok(None))
  }

  lemma LinksCons(store: Store, id: EventId, s: seq<EventId>)
    requires Links(store, s) && id in store && IsNextLevels(store, store[id].authEvents, Ok(Some(s[0])))
    ensures Links(store, [id] + s)
  {
    var t := [id] + s;
    forall i | 0 <= i < |t| - 1 ensures t[i] in store && IsNextLevels(store, store[t[i]].authEvents, Ok(Some(t[i + 1]))) {
      if i > 0 { assert t[i] == s[i - 1] && t[i + 1] == s[i - 1 + 1]; }
    }
  }

  // ---------------------------------------------------------------- specification

  /** The event, the power levels event it cites, the one that cites, and so on to the end. */
  ghost function Chain(store: Store, id: EventId): (r: ChainResult)
    requires Acyclic(store)
    ensures r.Ok? ==> r.value != [] && r.value[0] == id
    decreases Height(store, id)
  {
    if id !in store then Err(NotFound(id))
    else
      var next := NextLevels(store, store[id].authEvents);
      if next.Err? then Err(next.error)
      else if next.value.None? then Ok([id])
      else
        var rest := Chain(store, next.value.value);
        if rest.Err? then rest else Ok([id] + rest.value)
  }

  lemma {:induction false} ChainIs(store: Store, id: EventId)
    requires Acyclic(store) && Chain(store, id).Ok?
    ensures IsChain(store, id, Chain(store, id).value)
    decreases Height(store, id)
  {
    var next := NextLevels(store, store[id].authEvents);
    NextLevelsIs(store, store[id].authEvents);
    if next.value.Some? {
      ChainIs(store, next.value.value);
      LinksCons(store, id, Chain(store, next.value.value).value);
    }
  }

  lemma {:induction false} ChainIsFound(store: Store, id: EventId, s: seq<EventId>)
    requires Acyclic(store) && IsChain(store, id, s)
    ensures Chain(store, id) == Ok(s)
    decreases |s|
  {
    if |s| == 1 {
      NextLevelsIff(store, store[id].authEvents, Ok(None));
      assert s == [id];
    } else {
      assert s[0] in store && IsNextLevels(store, store[s[0]].authEvents, Ok(Some(s[0 + 1])));
      NextLevelsIff(store, store[id].authEvents, Ok(Some(s[1])));
      LinksTail(store, s);
      ChainIsFound(store, s[1], s[1..]);
      assert s == [s[0]] + s[1..];
    }
  }

  /** The chain of an event is the one list of such links, and an error where there is none. */
  lemma ChainIff(store: Store, id: EventId, s: seq<EventId>)
    requires Acyclic(store)
    ensures Chain(store, id) == Ok(s) <==> IsChain(store, id, s)
  {
    if Chain(store, id).Ok? { ChainIs(store, id); }
    if IsChain(store, id, s) { ChainIsFound(store, id, s); }
  }

  /** The mainline of an optional power levels event. */
  ghost function MainlineOf(store: Store, power: Option<EventId>): ChainResult
    requires Acyclic(store)
  {
    if power.None? then Ok([]) else Chain(store, power.value)
  }

  /** The index in the mainline of the first listed event that is on it; `None` stands for infinity. */
  function SpecPosition(mainline: seq<EventId>, listed: seq<EventId>): (p: Option<nat>)
    ensures p.Some? ==> p.value < |mainline|
  {
    if listed == [] then None
    else if listed[0] in mainline then Some(IndexOf(mainline, listed[0]))
    else SpecPosition(mainline, listed[1..])
  }

  /** The place in the mainline of the first listed event that is on it. */
  ghost predicate IsPosition(mainline: seq<EventId>, listed: seq<EventId>, p: Option<nat>) {
    match p
    case None => forall x :: x in listed ==> x !in mainline
    case Some(i) => i < |mainline| && mainline[i] !in mainline[..i] && IsFirstOn(mainline, listed, mainline[i])
  }

  ghost predicate IsFirstOn(mainline: seq<EventId>, listed: seq<EventId>, id: EventId) {
    exists j: nat :: j < |listed| && listed[j] == id && forall x :: x in listed[..j] ==> x !in mainline
  }

  lemma {:induction false} SpecPositionIs(mainline: seq<EventId>, listed: seq<EventId>)
    ensures IsPosition(mainline, listed, SpecPosition(mainline, listed))
    decreases |listed|
  {
    if listed != [] {
      if listed[0] in mainline {
        assert forall x :: x in listed[..0] ==> x !in mainline;
      } else {
        SpecPositionIs(mainline, listed[1..]);
        var p := SpecPosition(mainline, listed[1..]);
        if p.Some? {
          var j: nat :| j < |listed[1..]| && listed[1..][j] == mainline[p.value] && forall x :: x in listed[1..][..j] ==> x !in mainline;
          assert listed[..j + 1] == [listed[0]] + listed[1..][..j];
          assert listed[j + 1] == mainline[p.value];
        }
      }
    }
  }

  /** The mainline position of an event: its own place in its chain does not count. */
  ghost function PositionOf(store: Store, mainline: seq<EventId>, id: EventId): Option<nat> {
    if Acyclic(store) && Chain(store, id).Ok? then SpecPosition(mainline, Chain(store, id).value[1..]) else None
  }

  /** The position as the code looks for it: an event on the mainline is found itself. */
  ghost function OwnPositionOf(store: Store, mainline: seq<EventId>, id: EventId): Option<nat> {
    if Acyclic(store) && Chain(store, id).Ok? then SpecPosition(mainline, Chain(store, id).value) else None
  }

  function Timestamp(store: Store, id: EventId): nat {
    if id in store then store[id].ts else 0
  }

  /** The comparison relation of the Matrix specification, for given positions. */
  ghost predicate Precedes(store: Store, position: EventId -> Option<nat>, x: EventId, y: EventId) {
    var p, q := position(x), position(y);
    var t, u := if x in store then store[x].ts else 0, if y in store then store[y].ts else 0;
    || (q.Some? && (p.None? || p.value > q.value))
    || (p == q && t < u)
    || (p == q && t == u && StringBefore(x, y))
  }

  ghost function ByPosition(store: Store, position: EventId -> Option<nat>): (EventId, EventId) -> bool {
    (x, y) => Precedes(store, position, x, y)
  }

  lemma ByPositionStrictTotal(store: Store, position: EventId -> Option<nat>)
    ensures StrictTotal(ByPosition(store, position))
  {
    var less := ByPosition(store, position);
    forall x, y ensures !less(x, x) && (x == y || less(x, y) || less(y, x)) {
      StringBeforeConnected(x, y);
    }
    forall x, y, z | less(x, y) && less(y, z) ensures less(x, z) {
      if StringBefore(x, y) && StringBefore(y, z) { StringBeforeTransitive(x, y, z); }
    }
  }

  ghost function SpecPositions(store: Store, mainline: seq<EventId>): EventId -> Option<nat> {
    id => PositionOf(store, mainline, id)
  }

  ghost function OwnPositions(store: Store, mainline: seq<EventId>): EventId -> Option<nat> {
    id => OwnPositionOf(store, mainline, id)
  }

  /** By the specification's positions. */
  ghost function MainlineLess(store: Store, mainline: seq<EventId>): (EventId, EventId) -> bool {
    ByPosition(store, SpecPositions(store, mainline))
  }

  /** By the positions the code finds. */
  ghost function WalkLess(store: Store, mainline: seq<EventId>): (EventId, EventId) -> bool {
    ByPosition(store, OwnPositions(store, mainline))
  }

  /** The events whose chain can be followed to its end. */
  ghost function Placeable(store: Store, events: set<EventId>): set<EventId>
    requires Acyclic(store)
  {
    set e | e in events && Chain(store, e).Ok?
  }

  ghost predicate IsMainlineOrdering(store: Store, mainline: seq<EventId>, events: set<EventId>, s: seq<EventId>) {
    IsSorting(MainlineLess(store, mainline), events, s)
  }

  lemma MainlineOrderingUnique(store: Store, mainline: seq<EventId>, events: set<EventId>, s: seq<EventId>, t: seq<EventId>)
    requires IsMainlineOrdering(store, mainline, events, s) && IsMainlineOrdering(store, mainline, events, t)
    ensures s == t
  {
    ByPositionStrictTotal(store, SpecPositions(store, mainline));
    AscendingUnique(MainlineLess(store, mainline), s, t);
  }

  /** The specified list: the events whose chain can be followed, in the mainline ordering. */
  ghost predicate IsMainlineList(store: Store, power: Option<EventId>, events: set<EventId>, s: seq<EventId>)
    requires Acyclic(store)
  {
    var mainline := MainlineOf(store, power);
    if mainline.Ok? then IsMainlineOrdering(store, mainline.value, Placeable(store, events), s)
    else events == {} && s == []
  }

  /** The events in the order of the positions the code finds, on the mainline or off it. */
  ghost function WalkOrder(store: Store, mainline: seq<EventId>, events: set<EventId>): (s: seq<EventId>)
    ensures IsSorting(WalkLess(store, mainline), events, s)
  {
    ByPositionStrictTotal(store, OwnPositions(store, mainline));
    Sorting(WalkLess(store, mainline), events)
  }

  /** What the code lists, a function of the set of events and the power levels event. */
  ghost function WalkList(store: Store, power: Option<EventId>, events: set<EventId>): ChainResult
    requires Acyclic(store)
  {
    var mainline := MainlineOf(store, power);
    if events == {} then Ok([])
    else if mainline.Err? then mainline
    else Ok(WalkOrder(store, mainline.value, Placeable(store, events)))
  }

  /** For events off the mainline the code's list is the specified one: looking at the event itself finds nothing. */
  lemma WalkListIsMainlineList(store: Store, power: Option<EventId>, events: set<EventId>, s: seq<EventId>)
    requires Acyclic(store) && (MainlineOf(store, power).Ok? ==> events !! Elems(MainlineOf(store, power).value))
    ensures WalkList(store, power, events) == Ok(s) <==> IsMainlineList(store, power, events, s)
  {
    if MainlineOf(store, power).Ok? {
      var mainline, placed := MainlineOf(store, power).value, Placeable(store, events);
      var w := WalkOrder(store, mainline, placed);
      WalkOrderOffMainline(store, mainline, placed, w);
      if IsMainlineOrdering(store, mainline, placed, s) { MainlineOrderingUnique(store, mainline, placed, s, w); }
      ElemsEmpty(w);
    }
  }

  lemma WalkOrderOffMainline(store: Store, mainline: seq<EventId>, events: set<EventId>, s: seq<EventId>)
    requires events !! Elems(mainline) && IsSorting(WalkLess(store, mainline), events, s)
    ensures IsMainlineOrdering(store, mainline, events, s)
  {
    forall i, j | 0 <= i < j < |s| ensures MainlineLess(store, mainline)(s[i], s[j]) {
      assert WalkLess(store, mainline)(s[i], s[j]);
      assert s[i] in Elems(s) && s[j] in Elems(s);
      OwnPlaceIsOff(store, mainline, s[i]);
      OwnPlaceIsOff(store, mainline, s[j]);
    }
  }

  lemma OwnPlaceIsOff(store: Store, mainline: seq<EventId>, id: EventId)
    requires id !in Elems(mainline)
    ensures OwnPositionOf(store, mainline, id) == PositionOf(store, mainline, id)
  {
  }

  // ---------------------------------------------------------------- the walks

  ghost function Prepend(front: seq<EventId>, rest: ChainResult): ChainResult {
    if rest.Ok? then Ok(front + rest.value) else rest
  }

  lemma PrependOne(front: seq<EventId>, id: EventId, rest: ChainResult)
    ensures Prepend([], rest) == rest
    ensures Prepend(front, Prepend([id], rest)) == Prepend(front + [id], rest)
  {
    if rest.Ok? {
      assert [] + rest.value == rest.value;
      assert front + ([id] + rest.value) == front + [id] + rest.value;
    }
  }

  /** The power levels event, the first one it cites, and so on; an error where there is no such chain. */
  method BuildMainline(store: Store, power: Option<EventId>) returns (r: ChainResult)
    requires Acyclic(store)
    ensures r == MainlineOf(store, power)
    ensures power.None? ==> r == Ok([])
    ensures power.Some? ==> forall s :: r == Ok(s) <==> IsChain(store, power.value, s)
  {
    r := FollowLevels(store, power);
    if power.Some? {
      forall s ensures r == Ok(s) <==> IsChain(store, power.value, s) { ChainIff(store, power.value, s); }
    }
  }

  method FollowLevels(store: Store, power: Option<EventId>) returns (r: ChainResult)
    requires Acyclic(store)
    ensures r == MainlineOf(store, power)
  {
    var mainline: seq<EventId>, current := [], power;
    PrependOne([], "", MainlineOf(store, power));
    while current.Some?
      invariant MainlineOf(store, power) == Prepend(mainline, MainlineOf(store, current))
      decreases if current.Some? then Height(store, current.value) + 1 else 0
    {
      var id := current.value;
      ghost var before := mainline;
      mainline := mainline + [id];
      if id !in store { return Err(NotFound(id)); }
      var next := FindLevels(store, store[id].authEvents);
      if next.Err? { return Err(next.error); }
      current := next.value;
      assert [id] + [] == [id];
      assert Chain(store, id) == Prepend([id], MainlineOf(store, current));
      PrependOne(before, id, MainlineOf(store, current));
    }
    assert mainline + [] == mainline;
    r := Ok(mainline);
  }

  /** Positions count from the deep end: 1 is the oldest mainline event, N the current one. */
  ghost predicate Numbers(positions: map<EventId, nat>, mainline: seq<EventId>) {
    && positions.Keys == Elems(mainline)
    && forall id :: id in mainline ==> positions[id] == |mainline| - IndexOf(mainline, id)
  }

  method NumberMainline(mainline: seq<EventId>) returns (positions: map<EventId, nat>)
    ensures Numbers(positions, mainline)
  {
    positions := map[];
    var k := |mainline|;
    while k > 0
      invariant 0 <= k <= |mainline| && Numbers(positions, mainline[k..])
    {
      k := k - 1;
      assert mainline[k..] == [mainline[k]] + mainline[k + 1..];
      positions := positions[mainline[k] := |mainline| - k];
    }
    assert mainline[0..] == mainline;
  }

  /** The walk up the chain of `id`, starting with `id` itself. */
  ghost function WalkPosition(store: Store, positions: map<EventId, nat>, id: EventId): Result<Option<nat>, StateError>
    requires Acyclic(store)
    decreases Height(store, id)
  {
    if id in positions then Ok(Some(positions[id]))
    else if id !in store then Err(NotFound(id))
    else
      var next := NextLevels(store, store[id].authEvents);
      if next.Err? then Err(next.error)
      else if next.value.None? then Ok(None)
      else WalkPosition(store, positions, next.value.value)
  }

  /** How a walk up the chain may end: at a numbered event, at the end of the chain, or at an event that cannot be fetched. */
  ghost predicate EndsWalk(store: Store, positions: map<EventId, nat>, x: EventId, r: Result<Option<nat>, StateError>) {
    if x in positions then r == Ok(Some(positions[x]))
    else if x !in store then r == Err(NotFound(x))
    else
      match r
      case Ok(Some(_)) => false
      case Ok(None) => IsNextLevels(store, store[x].authEvents, Ok(None))
      case Err(e) => IsNextLevels(store, store[x].authEvents, Err(e))
  }

  ghost predicate IsWalk(store: Store, positions: map<EventId, nat>, id: EventId, s: seq<EventId>, r: Result<Option<nat>, StateError>) {
    && Links(store, s) && s[0] == id && (forall x :: x in s[..|s| - 1] ==> x !in positions)
    && EndsWalk(store, positions, s[|s| - 1], r)
  }

  lemma {:induction false} WalkPositionIs(store: Store, positions: map<EventId, nat>, id: EventId) returns (s: seq<EventId>)
    requires Acyclic(store)
    ensures IsWalk(store, positions, id, s, WalkPosition(store, positions, id))
    decreases Height(store, id)
  {
    s := [id];
    if id !in positions && id in store {
      var next := NextLevels(store, store[id].authEvents);
      NextLevelsIs(store, store[id].authEvents);
      if next.Ok? && next.value.Some? {
        var rest := WalkPositionIs(store, positions, next.value.value);
        LinksCons(store, id, rest);
        s := [id] + rest;
        assert s[..|s| - 1] == [id] + rest[..|rest| - 1];
      }
    }
  }

  /** The number of the first event of the chain that has one. */
  method MainlinePosition(store: Store, positions: map<EventId, nat>, id: EventId)
    returns (r: Result<Option<nat>, StateError>)
    requires Acyclic(store) && id in store
    ensures r == WalkPosition(store, positions, id)
    ensures exists s :: IsWalk(store, positions, id, s, r)
  {
    ghost var walked := WalkPositionIs(store, positions, id);
    var current := Some(id);
    while current.Some?
      invariant current.Some? ==> current.value in store && WalkPosition(store, positions, id) == WalkPosition(store, positions, current.value)
      invariant current.None? ==> WalkPosition(store, positions, id) == Ok(None)
      decreases if current.Some? then Height(store, current.value) + 1 else 0
    {
      var x := current.value;
      if x in positions { return Ok(Some(positions[x])); }
      current := None;
      var next := FindLevels(store, store[x].authEvents);
      if next.Err? { return Err(next.error); }
      current := next.value;
    }
    r := Ok(None);
  }

  // ---------------------------------------------------------------- positions agree

  lemma {:induction false} ChainOfMember(store: Store, id: EventId, x: EventId)
    requires Acyclic(store) && Chain(store, id).Ok? && x in Chain(store, id).value
    ensures Chain(store, x).Ok?
    decreases Height(store, id)
  {
    if x != id {
      var next := NextLevels(store, store[id].authEvents).value.value;
      ChainOfMember(store, next, x);
    }
  }

  /** Position p of the walk is index N - p of the specification, and `None` is infinity. */
  function Reversed(n: nat, p: Option<nat>): Option<nat>
    requires p.Some? ==> p.value <= n
  {
    match p
    case None => None
    case Some(i) => Some(n - i)
  }

  ghost predicate WalkAgrees(store: Store, mainline: seq<EventId>, positions: map<EventId, nat>, id: EventId)
    requires Acyclic(store)
  {
    && (WalkPosition(store, positions, id).Ok? <==> Chain(store, id).Ok?)
    && (Chain(store, id).Ok? ==>
          WalkPosition(store, positions, id).value == Reversed(|mainline|, SpecPosition(mainline, Chain(store, id).value)))
  }

  lemma {:induction false} WalkFindsPosition(store: Store, power: Option<EventId>, mainline: seq<EventId>,
                                             positions: map<EventId, nat>, id: EventId)
    requires Acyclic(store) && MainlineOf(store, power) == Ok(mainline) && Numbers(positions, mainline)
    ensures WalkAgrees(store, mainline, positions, id)
    decreases Height(store, id)
  {
    if id in mainline {
      ChainOfMember(store, power.value, id);
      WalkStops(store, mainline, positions, id);
    } else if id in store && NextLevels(store, store[id].authEvents).Ok? && NextLevels(store, store[id].authEvents).value.Some? {
      var next := NextLevels(store, store[id].authEvents).value.value;
      WalkFindsPosition(store, power, mainline, positions, next);
      WalkStep(store, mainline, positions, id, next);
    } else {
      WalkStops(store, mainline, positions, id);
    }
  }

  lemma {:induction false} WalkStops(store: Store, mainline: seq<EventId>, positions: map<EventId, nat>, id: EventId)
    requires Acyclic(store) && Numbers(positions, mainline)
    requires if id in mainline then Chain(store, id).Ok? else
      id in store && NextLevels(store, store[id].authEvents).Ok? ==> NextLevels(store, store[id].authEvents).value.None?
    ensures WalkAgrees(store, mainline, positions, id)
  {
    assert id in Elems(mainline) <==> id in mainline;
    if id in mainline {
      assert SpecPosition(mainline, Chain(store, id).value) == Some(IndexOf(mainline, id));
    } else if Chain(store, id).Ok? {
      assert Chain(store, id).value == [id] && [id][1..] == [];
    }
  }

  lemma WalkStep(store: Store, mainline: seq<EventId>, positions: map<EventId, nat>, id: EventId, next: EventId)
    requires Acyclic(store) && id in store && id !in mainline && Numbers(positions, mainline)
    requires NextLevels(store, store[id].authEvents) == Ok(Some(next)) && WalkAgrees(store, mainline, positions, next)
    ensures WalkAgrees(store, mainline, positions, id)
  {
  }

  // ---------------------------------------------------------------- sorting

  /** The sort key: reversed position first, none before any, then timestamp, then ID. */
  datatype SortKey = SortKey(position: Option<nat>, ts: nat, id: EventId)

  function CmpPosition(p: Option<nat>, q: Option<nat>): Ordering {
    match (p, q)
    case (None, None) => Equal
    case (None, Some(_)) => Less
    case (Some(_), None) => Greater
    case (Some(i), Some(j)) => CmpInt(i, j)
  }

  function CmpKey(a: SortKey, b: SortKey): Ordering {
    CmpPosition(a.position, b.position).Then(CmpInt(a.ts, b.ts)).Then(CmpString(a.id, b.id))
  }

  function KeyOrDefault(order: map<EventId, SortKey>, id: EventId): SortKey {
    if id in order then order[id] else SortKey(None, 0, id)
  }

  function KeyLess(order: map<EventId, SortKey>): (EventId, EventId) -> bool {
    (x, y) => CmpKey(KeyOrDefault(order, x), KeyOrDefault(order, y)) == Less
  }

  ghost predicate KeyedByOwnId(order: map<EventId, SortKey>) {
    forall id :: id in order ==> order[id].id == id
  }

  lemma KeyLessStrictTotal(order: map<EventId, SortKey>)
    requires KeyedByOwnId(order)
    ensures StrictTotal(KeyLess(order))
  {
    var less := KeyLess(order);
    forall x, y ensures !less(x, x) && (x == y || less(x, y) || less(y, x)) {
      CmpStringEqual(x, x);
      CmpStringEqual(x, y);
      CmpStringFlip(y, x);
    }
    forall x, y, z | less(x, y) && less(y, z) ensures less(x, z) {
      if CmpString(x, y) == Less && CmpString(y, z) == Less { CmpStringTransitive(x, y, z); }
    }
  }

  /** The keys of the map, whatever order it is iterated in, sorted by their values. */
  method SortedKeys(order: map<EventId, SortKey>) returns (s: seq<EventId>)
    requires KeyedByOwnId(order)
    ensures Elems(s) == order.Keys && Ascending(KeyLess(order), s)
  {
    s := [];
    var todo := order.Keys;
    KeyLessStrictTotal(order);
    while todo != {}
      invariant todo <= order.Keys && Elems(s) == order.Keys - todo && Ascending(KeyLess(order), s)
      decreases todo
    {
      var id :| id in todo;
      todo := todo - {id};
      assert id !in Elems(s);
      InsertByAscending(KeyLess(order), s, id);
      s := InsertBy(KeyLess(order), s, id);
    }
  }

  /** The keys that the events get: every event whose position can be computed, and no other. */
  ghost predicate OrderHolds(store: Store, positions: map<EventId, nat>, events: set<EventId>, order: map<EventId, SortKey>)
    requires Acyclic(store)
  {
    && (forall e :: e in order <==> e in events && e in store && WalkPosition(store, positions, e).Ok?)
    && (forall e :: e in order ==> order[e] == SortKey(WalkPosition(store, positions, e).value, Timestamp(store, e), e))
  }

  method KeyEvents(store: Store, positions: map<EventId, nat>, events: seq<EventId>) returns (order: map<EventId, SortKey>)
    requires Acyclic(store)
    ensures OrderHolds(store, positions, Elems(events), order)
  {
    order := map[];
    for k := 0 to |events|
      invariant OrderHolds(store, positions, Elems(events[..k]), order)
    {
      var e := events[k];
      assert events[..k + 1] == events[..k] + [e];
      ElemsAppend(events[..k], e);
      if e in store {
        var position := MainlinePosition(store, positions, e);
        if position.Ok? {
          order := order[e := SortKey(position.value, store[e].ts, e)];
        }
      }
    }
    assert events[..|events|] == events;
  }

  /** Ascending by key is ascending by the positions found: reversing them reverses their comparison. */
  lemma KeyOrderIsWalkOrder(store: Store, power: Option<EventId>, positions: map<EventId, nat>,
                            events: set<EventId>, order: map<EventId, SortKey>, x: EventId, y: EventId)
    requires Acyclic(store) && MainlineOf(store, power).Ok? && Numbers(positions, MainlineOf(store, power).value)
    requires OrderHolds(store, positions, events, order) && x in order && y in order
    ensures KeyLess(order)(x, y) <==> WalkLess(store, MainlineOf(store, power).value)(x, y)
  {
    var mainline := MainlineOf(store, power).value;
    WalkFindsPosition(store, power, mainline, positions, x);
    WalkFindsPosition(store, power, mainline, positions, y);
    CmpStringMeans(x, y);
    ReversalReverses(|mainline|, OwnPositionOf(store, mainline, x), OwnPositionOf(store, mainline, y));
  }

  lemma ReversalReverses(n: nat, p: Option<nat>, q: Option<nat>)
    requires (p.Some? ==> p.value < n) && (q.Some? ==> q.value < n)
    ensures CmpPosition(Reversed(n, p), Reversed(n, q)) == Less <==> q.Some? && (p.None? || p.value > q.value)
    ensures CmpPosition(Reversed(n, p), Reversed(n, q)) == Equal <==> p == q
  {
  }

  /** The list is a function of the set of events, whatever order the map is iterated in. */
  method MainlineSort(events: seq<EventId>, power: Option<EventId>, store: Store) returns (r: ChainResult)
    requires Acyclic(store)
    ensures r == WalkList(store, power, Elems(events))
  {
    ElemsEmpty(events);
    if events == [] { return Ok([]); }
    var mainline := BuildMainline(store, power);
    if mainline.Err? { return mainline; }
    var positions := NumberMainline(mainline.value);
    var order := KeyEvents(store, positions, events);
    var sorted := SortedKeys(order);
    KeysAreTheWalkOrder(store, power, positions, Elems(events), order, sorted);
    r := Ok(sorted);
  }

  lemma KeysAreTheWalkOrder(store: Store, power: Option<EventId>, positions: map<EventId, nat>, events: set<EventId>,
                            order: map<EventId, SortKey>, s: seq<EventId>)
    requires Acyclic(store) && MainlineOf(store, power).Ok? && Numbers(positions, MainlineOf(store, power).value)
    requires OrderHolds(store, positions, events, order) && IsSorting(KeyLess(order), order.Keys, s)
    ensures s == WalkOrder(store, MainlineOf(store, power).value, Placeable(store, events))
  {
    var mainline := MainlineOf(store, power).value;
    forall e ensures e in order <==> e in events && Chain(store, e).Ok? {
      WalkFindsPosition(store, power, mainline, positions, e);
    }
    assert order.Keys == Placeable(store, events);
    forall i, j | 0 <= i < j < |s| ensures WalkLess(store, mainline)(s[i], s[j]) {
      assert KeyLess(order)(s[i], s[j]);
      assert s[i] in Elems(s) && s[j] in Elems(s);
      KeyOrderIsWalkOrder(store, power, positions, events, order, s[i], s[j]);
    }
    ByPositionStrictTotal(store, OwnPositions(store, mainline));
    SortingUnique(WalkLess(store, mainline), Placeable(store, events), s);
  }
}
