/**
 * The power level of an event's sender, with the creators of the room cached across lookups, and
 * the sort of the power events that uses it.
 */
module SenderPower {
  import opened Orders
  import opened Events
  import opened PowerSort
  import opened AuthGraph

  /** The authorization rules of the room version, as far as state resolution reads them. */
  datatype Rules = Rules(createIdAsRoomId: bool, privilegeCreators: bool)

  const DEFAULT_CREATOR_POWER_LEVEL := 100

  type Cache = Option<set<UserId>>
  type LevelResult = Result<UserPowerLevel, StateError>

  function OrMalformed(level: Option<int>): LevelResult {
    match level
    case Some(n) => Ok(Int(n))
    case None => Err(Malformed)
  }

  /** A user's level under an optional power levels event, knowing the creators. */
  function UserLevel(levels: Option<Content>, user: UserId, creators: set<UserId>, rules: Rules): LevelResult {
    if rules.privilegeCreators && user in creators then Ok(Infinite)
    else if levels.Some? then
      match levels.value.users
      case None => Err(Malformed)
      case Some(users) => if user in users then Ok(Int(users[user])) else OrMalformed(levels.value.usersDefault)
    else Ok(Int(if user in creators then DEFAULT_CREATOR_POWER_LEVEL else 0))
  }

  function DefaultLevel(levels: Option<Content>): LevelResult {
    if levels.Some? then OrMalformed(levels.value.usersDefault) else Ok(Int(0))
  }

  /** What the scan of the auth events has found: a power levels event and a create event. */
  datatype Found = Found(levels: Option<EventId>, create: Option<EventId>)

  /** One auth event: `cached` tells whether the creators are already known. */
  function Note(store: Store, rules: Rules, cached: bool, found: Found, a: EventId): Found {
    if IsPowerLevels(store, a) then found.(levels := Some(a))
    else if !rules.createIdAsRoomId && !cached && IsCreate(store, a) then found.(create := Some(a))
    else found
  }

  predicate Enough(rules: Rules, cached: bool, found: Found) {
    found.levels.Some? && (rules.createIdAsRoomId || cached || found.create.Some?)
  }

  /** The scan stops at the first fetched auth event after which enough is known. */
  function Scan(store: Store, rules: Rules, cached: bool, found: Found, auth: seq<EventId>): Found
    decreases |auth|
  {
    if auth == [] then found
    else if auth[0] !in store then Scan(store, rules, cached, found, auth[1..])
    else
      var next := Note(store, rules, cached, found, auth[0]);
      if Enough(rules, cached, next) then next else Scan(store, rules, cached, next, auth[1..])
  }

  function StartOfScan(store: Store, rules: Rules, cached: bool, event: Event): Found {
    var id := event.roomCreateId;
    Found(None, if rules.createIdAsRoomId && !cached && id.Some? && id.value in store then id else None)
  }

  function Contents(store: Store, id: Option<EventId>): Option<Content> {
    if id.Some? && id.value in store then Some(store[id.value].content) else None
  }

  /** The level found with the given cache, and the cache afterwards. */
  function Lookup(store: Store, rules: Rules, id: EventId, cache: Cache): (LevelResult, Cache) {
    if id !in store then (Ok(Int(0)), cache)
    else
      var event := store[id];
      var found := Scan(store, rules, cache.Some?, StartOfScan(store, rules, cache.Some?, event), event.authEvents);
      var levels, create := Contents(store, found.levels), Contents(store, found.create);
      if cache.Some? then (UserLevel(levels, event.sender, cache.value, rules), cache)
      else if create.None? then (DefaultLevel(levels), None)
      else if create.value.creators.None? then (Err(Malformed), None)
      else (UserLevel(levels, event.sender, create.value.creators.value, rules), create.value.creators)
  }

  /** The level of an event's sender looking only at that event's own auth events. */
  function FreshLevel(store: Store, rules: Rules, id: EventId): LevelResult {
    Lookup(store, rules, id, None).0
  }

  /** The level a user has, in values: by being a privileged creator, by the power levels event, or without one. */
  ghost predicate IsLevelOf(levels: Option<Content>, user: UserId, creators: set<UserId>, rules: Rules, r: LevelResult) {
    if rules.privilegeCreators && user in creators then r == Ok(Infinite)
    else
      match levels
      case None => r == Ok(Int(if user in creators then 100 else 0))
      case Some(content) =>
        if content.users == None then r == Err(Malformed)
        else if user in content.users.value then r == Ok(Int(content.users.value[user]))
        else if content.usersDefault == None then r == Err(Malformed)
        else r == Ok(Int(content.usersDefault.value))
  }

  /** The last power levels event, or none. */
  ghost predicate IsLastLevels(store: Store, auth: seq<EventId>, p: Option<EventId>) {
    match p
    case None => forall a :: a in auth ==> !IsPowerLevels(store, a)
    case Some(id) => exists i :: IsLastAt(auth, i, id) && IsPowerLevels(store, id)
                              && forall j :: i < j < |auth| ==> !IsPowerLevels(store, auth[j])
  }

  ghost predicate IsLastAt(auth: seq<EventId>, i: int, id: EventId) {
    0 <= i < |auth| && auth[i] == id
  }

  /** The last create event, or none. */
  ghost predicate IsLastCreate(store: Store, auth: seq<EventId>, c: Option<EventId>) {
    match c
    case None => forall a :: a in auth ==> !IsCreate(store, a)
    case Some(id) => exists i :: IsLastAt(auth, i, id) && IsCreate(store, id)
                              && forall j :: i < j < |auth| ==> !IsCreate(store, auth[j])
  }

  /** Enough has been read: power levels, and the creators are known or can be read. */
  ghost predicate HasEnough(store: Store, rules: Rules, cached: bool, auth: seq<EventId>) {
    && (exists a :: a in auth && IsPowerLevels(store, a))
    && (rules.createIdAsRoomId || cached || exists a :: a in auth && IsCreate(store, a))
  }

  /** The scan goes on until enough has been read, or to the end. */
  ghost predicate StopsAt(store: Store, rules: Rules, cached: bool, auth: seq<EventId>, n: nat)
    requires n <= |auth|
  {
    && (n == |auth| || HasEnough(store, rules, cached, auth[..n]))
    && forall m :: 0 <= m < n ==> !HasEnough(store, rules, cached, auth[..m])
  }

  /** The create event named by the room ID, if it can be fetched. */
  function FetchedCreate(store: Store, event: Event): Option<EventId> {
    if event.roomCreateId.Some? && event.roomCreateId.value in store then event.roomCreateId else None
  }

  /** What the scan of these auth events has found: the last power levels event, and the create event. */
  ghost predicate IsFoundIn(store: Store, rules: Rules, cached: bool, event: Event, auth: seq<EventId>, found: Found) {
    && IsLastLevels(store, auth, found.levels)
    && (if cached then found.create == None
        else if rules.createIdAsRoomId then found.create == FetchedCreate(store, event)
        else IsLastCreate(store, auth, found.create))
  }

  lemma NoteKeepsFound(store: Store, rules: Rules, cached: bool, event: Event, auth: seq<EventId>, a: EventId, found: Found)
    requires IsFoundIn(store, rules, cached, event, auth, found)
    ensures IsFoundIn(store, rules, cached, event, auth + [a], if a in store then Note(store, rules, cached, found, a) else found)
  {
    var t := auth + [a];
    assert forall x :: x in t <==> x in auth || x == a;
    assert IsLastAt(t, |auth|, a);
    if found.levels.Some? {
      var i :| IsLastAt(auth, i, found.levels.value) && forall j :: i < j < |auth| ==> !IsPowerLevels(store, auth[j]);
      assert IsLastAt(t, i, found.levels.value);
    }
    if !rules.createIdAsRoomId && !cached && found.create.Some? {
      var i :| IsLastAt(auth, i, found.create.value) && forall j :: i < j < |auth| ==> !IsCreate(store, auth[j]);
      assert IsLastAt(t, i, found.create.value);
    }
  }

  lemma EnoughIff(store: Store, rules: Rules, cached: bool, event: Event, auth: seq<EventId>, found: Found)
    requires IsFoundIn(store, rules, cached, event, auth, found)
    ensures Enough(rules, cached, found) <==> HasEnough(store, rules, cached, auth)
  {
  }

  /** Where the scan stops, and what it has found there. */
  lemma {:induction false} ScanReads(store: Store, rules: Rules, cached: bool, event: Event, k: nat, found: Found) returns (n: nat)
    requires k <= |event.authEvents| && IsFoundIn(store, rules, cached, event, event.authEvents[..k], found)
    requires forall m :: 0 <= m <= k ==> !HasEnough(store, rules, cached, event.authEvents[..m])
    ensures n <= |event.authEvents| && StopsAt(store, rules, cached, event.authEvents, n)
    ensures IsFoundIn(store, rules, cached, event, event.authEvents[..n], Scan(store, rules, cached, found, event.authEvents[k..]))
    decreases |event.authEvents| - k
  {
    var auth := event.authEvents;
    if k == |auth| {
      return k;
    }
    var next := if auth[k] in store then Note(store, rules, cached, found, auth[k]) else found;
    NoteKeepsFound(store, rules, cached, event, auth[..k], auth[k], found);
    assert auth[..k + 1] == auth[..k] + [auth[k]];
    EnoughIff(store, rules, cached, event, auth[..k], found);
    EnoughIff(store, rules, cached, event, auth[..k + 1], next);
    assert auth[k..][0] == auth[k] && auth[k..][1..] == auth[k + 1..];
    if Enough(rules, cached, next) {
      return k + 1;
    }
    n := ScanReads(store, rules, cached, event, k + 1, next);
  }

  /**
   * What a lookup on any input gives: the level by the last power levels event read, and by the
   * creators known, or those of the create event found, which are then known.
   */
  ghost predicate IsLookup(store: Store, rules: Rules, id: EventId, cache: Cache, level: LevelResult, after: Cache) {
    if id !in store then level == Ok(Int(0)) && after == cache
    else exists n: nat, found ::
      && n <= |store[id].authEvents| && StopsAt(store, rules, cache.Some?, store[id].authEvents, n)
      && IsFoundIn(store, rules, cache.Some?, store[id], store[id].authEvents[..n], found)
      && IsRead(store, rules, store[id].sender, cache, found, level, after)
  }

  ghost predicate IsRead(store: Store, rules: Rules, user: UserId, cache: Cache, found: Found, level: LevelResult, after: Cache) {
    var levels := if found.levels.Some? && found.levels.value in store then Some(store[found.levels.value].content) else None;
    if cache.Some? then after == cache && IsLevelOf(levels, user, cache.value, rules, level)
    else if found.create.None? || found.create.value !in store then
      after == None && (if levels.None? then level == Ok(Int(0)) else IsDefaultOf(levels.value, level))
    else if store[found.create.value].content.creators == None then after == None && level == Err(Malformed)
    else
      && after == store[found.create.value].content.creators
      && IsLevelOf(levels, user, after.value, rules, level)
  }

  lemma LookupReads(store: Store, rules: Rules, id: EventId, cache: Cache)
    ensures IsLookup(store, rules, id, cache, Lookup(store, rules, id, cache).0, Lookup(store, rules, id, cache).1)
  {
    if id in store {
      var event, start := store[id], StartOfScan(store, rules, cache.Some?, store[id]);
      assert event.authEvents[..0] == [] && event.authEvents[0..] == event.authEvents;
      var n := ScanReads(store, rules, cache.Some?, event, 0, start);
      var found := Scan(store, rules, cache.Some?, start, event.authEvents);
      assert IsRead(store, rules, event.sender, cache, found, Lookup(store, rules, id, cache).0, Lookup(store, rules, id, cache).1);
    }
  }

  method PowerLevelForSender(id: EventId, rules: Rules, cache: Cache, store: Store)
    returns (level: LevelResult, after: Cache)
    ensures (level, after) == Lookup(store, rules, id, cache) && IsLookup(store, rules, id, cache, level, after)
  {
    LookupReads(store, rules, id, cache);
    if id !in store { return Ok(Int(0)), cache; }
    var event := store[id];
    var found := StartOfScan(store, rules, cache.Some?, event);
    var k := 0;
    while k < |event.authEvents|
      invariant 0 <= k <= |event.authEvents|
      invariant Scan(store, rules, cache.Some?, StartOfScan(store, rules, cache.Some?, event), event.authEvents)
             == Scan(store, rules, cache.Some?, found, event.authEvents[k..])
    {
      var a := event.authEvents[k];
      k := k + 1;
      if a in store {
        found := Note(store, rules, cache.Some?, found, a);
        if Enough(rules, cache.Some?, found) {
          assert Scan(store, rules, cache.Some?, StartOfScan(store, rules, cache.Some?, event), event.authEvents) == found;
          break;
        }
      }
    }
    var levels, create := Contents(store, found.levels), Contents(store, found.create);
    if cache.Some? {
      return UserLevel(levels, event.sender, cache.value, rules), cache;
    } else if create.None? {
      return DefaultLevel(levels), None;
    } else if create.value.creators.None? {
      return Err(Malformed), None;
    }
    after := create.value.creators;
    level := UserLevel(levels, event.sender, after.value, rules);
  }

  // ---------------------------------------------------------------- the cache does not show

  /**
   * The event belongs to the room created by `c`. From room version 12 its room ID names `c`.
   * Before, the create event cites nothing, and any other event cites `c`, no other create event,
   * and at most one power levels event; events received with other citations are rejected.
   */
  ghost predicate InRoom(store: Store, rules: Rules, c: EventId, id: EventId) {
    id in store &&
    if rules.createIdAsRoomId then store[id].roomCreateId == Some(c)
    else if id == c then IsCreate(store, c) && store[c].authEvents == []
    else
      && IsCreate(store, c)
      && c in store[id].authEvents
      && (forall a :: a in store[id].authEvents && IsCreate(store, a) ==> a == c)
      && OneLevelsEvent(store, store[id].authEvents)
  }

  ghost predicate OneLevelsEvent(store: Store, auth: seq<EventId>) {
    forall a, b :: a in auth && b in auth && IsPowerLevels(store, a) && IsPowerLevels(store, b) ==> a == b
  }

  lemma {:induction false} ScanFindsLevels(store: Store, rules: Rules, cached: bool, found: Found,
                                           auth: seq<EventId>, p: Option<EventId>)
    requires forall a :: a in auth && IsPowerLevels(store, a) ==> p == Some(a)
    requires p.Some? ==> IsPowerLevels(store, p.value) && (found.levels == p || p.value in auth)
    requires found.levels == None || found.levels == p
    ensures Scan(store, rules, cached, found, auth).levels == p
    decreases |auth|
  {
    if auth != [] {
      var next := if auth[0] in store then Note(store, rules, cached, found, auth[0]) else found;
      ScanFindsLevels(store, rules, cached, next, auth[1..], p);
    }
  }

  lemma {:induction false} ScanFindsCreate(store: Store, rules: Rules, found: Found, auth: seq<EventId>, c: EventId)
    requires !rules.createIdAsRoomId && IsCreate(store, c)
    requires forall a :: a in auth && IsCreate(store, a) ==> a == c
    requires found.create == Some(c) || (found.create == None && c in auth)
    ensures Scan(store, rules, false, found, auth).create == Some(c)
    decreases |auth|
  {
    if auth != [] {
      var next := if auth[0] in store then Note(store, rules, false, found, auth[0]) else found;
      ScanFindsCreate(store, rules, next, auth[1..], c);
    }
  }

  /** From room version 12 the scan stops at the first power levels event, cache or not. */
  lemma {:induction false} ScanIgnoresCache(store: Store, rules: Rules, f: Found, g: Found, auth: seq<EventId>)
    requires rules.createIdAsRoomId && f.levels == g.levels
    ensures Scan(store, rules, true, f, auth).levels == Scan(store, rules, false, g, auth).levels
    ensures Scan(store, rules, false, g, auth).create == g.create
    decreases |auth|
  {
    if auth != [] {
      var f', g' := Note(store, rules, true, f, auth[0]), Note(store, rules, false, g, auth[0]);
      if auth[0] in store {
        ScanIgnoresCache(store, rules, f', g', auth[1..]);
      } else {
        ScanIgnoresCache(store, rules, f, g, auth[1..]);
      }
    }
  }

  /**
   * For an event of the room, a fresh lookup can only cache the creators of `c`, and a lookup
   * that finds them cached gives the fresh level, except before version 12 for `c` itself.
   */
  lemma CacheAgrees(store: Store, rules: Rules, c: EventId, id: EventId, creators: set<UserId>)
    requires InRoom(store, rules, c, id) && c in store && store[c].content.creators == Some(creators)
    ensures Lookup(store, rules, id, None).1 in {None, Some(creators)}
    ensures rules.createIdAsRoomId || id != c ==>
      Lookup(store, rules, id, Some(creators)).0 == FreshLevel(store, rules, id)
  {
    var auth := store[id].authEvents;
    var f := Found(None, None);
    if rules.createIdAsRoomId {
      ScanIgnoresCache(store, rules, f, Found(None, Some(c)), auth);
    } else if id != c {
      ScanFindsCreate(store, rules, f, auth, c);
      var p := if exists a :: a in auth && IsPowerLevels(store, a)
        then var a :| a in auth && IsPowerLevels(store, a); Some(a) else None;
      ScanFindsLevels(store, rules, true, f, auth, p);
      ScanFindsLevels(store, rules, false, f, auth, p);
    }
  }

  /** The first power levels event cited that can be fetched, if there is one. */
  ghost predicate IsFirstLevels(store: Store, auth: seq<EventId>, p: Option<EventId>) {
    match p
    case None => forall a :: a in auth ==> !IsPowerLevels(store, a)
    case Some(id) => exists i :: 0 <= i < |auth| && auth[i] == id && IsPowerLevels(store, id)
                              && forall j :: 0 <= j < i ==> !IsPowerLevels(store, auth[j])
  }

  /** From version 12 the scan stops at the first power levels event. */
  lemma {:induction false} ScanFindsFirstLevels(store: Store, rules: Rules, found: Found, auth: seq<EventId>, p: Option<EventId>)
    requires rules.createIdAsRoomId && found.levels == None && IsFirstLevels(store, auth, p)
    ensures Scan(store, rules, false, found, auth) == found.(levels := p)
    decreases |auth|
  {
    if auth != [] && !IsPowerLevels(store, auth[0]) {
      if p.Some? {
        var i :| 0 <= i < |auth| && auth[i] == p.value && forall j :: 0 <= j < i ==> !IsPowerLevels(store, auth[j]);
        assert auth[1..][i - 1] == p.value;
      }
      ScanFindsFirstLevels(store, rules, found, auth[1..], p);
    }
  }

  /**
   * The scan, wherever it stops, reads what it should: the level of an event's sender is the one
   * given by the first power levels event it cites, if any, and the room's creators.
   */
  lemma LevelFromCitedEvents(store: Store, rules: Rules, c: EventId, id: EventId, p: Option<EventId>)
    requires (rules.createIdAsRoomId || id != c) && InRoom(store, rules, c, id)
    requires c in store && store[c].content.creators.Some? && IsFirstLevels(store, store[id].authEvents, p)
    ensures p.Some? ==> p.value in store
    ensures IsLevelOf(if p.Some? then Some(store[p.value].content) else None, store[id].sender,
                      store[c].content.creators.value, rules, FreshLevel(store, rules, id))
  {
    var auth := store[id].authEvents;
    if rules.createIdAsRoomId {
      ScanFindsFirstLevels(store, rules, Found(None, Some(c)), auth, p);
    } else {
      ScanFindsCreate(store, rules, Found(None, None), auth, c);
      ScanFindsLevels(store, rules, false, Found(None, None), auth, p);
    }
  }

  ghost predicate IsDefaultOf(content: Content, r: LevelResult) {
    match content.usersDefault
    case None => r == Err(Malformed)
    case Some(n) => r == Ok(Int(n))
  }

  /** Where the room's create event cannot be read the level is a default, or an error. */
  lemma LevelWithoutCreators(store: Store, rules: Rules, c: EventId, id: EventId, p: Option<EventId>)
    requires id in store && IsFirstLevels(store, store[id].authEvents, p)
    requires rules.createIdAsRoomId && store[id].roomCreateId == Some(c)
    ensures c in store && store[c].content.creators == None ==> FreshLevel(store, rules, id) == Err(Malformed)
    ensures c !in store && p.None? ==> FreshLevel(store, rules, id) == Ok(Int(0))
    ensures c !in store && p.Some? ==> p.value in store && IsDefaultOf(store[p.value].content, FreshLevel(store, rules, id))
  {
    ScanFindsFirstLevels(store, rules, StartOfScan(store, rules, false, store[id]), store[id].authEvents, p);
  }

  /** From version 12 a creator's events come before anyone else's, whatever power levels they cite. */
  lemma CreatorsOutrank(store: Store, rules: Rules, c: EventId, x: EventId, y: EventId)
    requires rules.createIdAsRoomId && rules.privilegeCreators && c in store && store[c].content.creators.Some?
    requires InRoom(store, rules, c, x) && InRoom(store, rules, c, y)
    requires store[x].sender in store[c].content.creators.value && store[y].sender !in store[c].content.creators.value
    requires FreshLevel(store, rules, y).Ok?
    ensures FreshLevel(store, rules, x) == Ok(Infinite)
    ensures CmpLevel(FreshLevel(store, rules, x).value, FreshLevel(store, rules, y).value) == Greater
  {
    var found := Found(None, Some(c));
    ScanIgnoresCache(store, rules, found, found, store[x].authEvents);
    ScanIgnoresCache(store, rules, found, found, store[y].authEvents);
  }

  // ---------------------------------------------------------------- looking up a whole graph

  type Levels = map<EventId, UserPowerLevel>

  /** Look the events up in the given order, sharing the cache; stop at the first error. */
  ghost function Run(store: Store, rules: Rules, order: seq<EventId>): (Result<Levels, StateError>, Cache) {
    if order == [] then (Ok(map[]), None)
    else
      var last := order[|order| - 1];
      var (levels, cache) := Run(store, rules, order[..|order| - 1]);
      if levels.Err? then (levels, cache)
      else
        var (level, after) := Lookup(store, rules, last, cache);
        (if level.Ok? then Ok(levels.value[last := level.value]) else Err(level.error), after)
  }

  lemma {:induction false} ErrorSticks(store: Store, rules: Rules, order: seq<EventId>, more: seq<EventId>)
    requires Run(store, rules, order).0.Err?
    ensures Run(store, rules, order + more).0 == Run(store, rules, order).0
    decreases |more|
  {
    if more == [] {
      assert order + more == order;
    } else {
      ErrorSticks(store, rules, order, more[..|more| - 1]);
      assert (order + more)[..|order + more| - 1] == order + more[..|more| - 1];
    }
  }

  lemma {:induction false} SomeOrder(ids: set<EventId>) returns (order: seq<EventId>)
    ensures Distinct(order) && Elems(order) == ids
    decreases ids
  {
    order := [];
    if x :| x in ids {
      var rest := SomeOrder(ids - {x});
      order := rest + [x];
      ElemsAppend(rest, x);
    }
  }

  /** The levels of all senders, the events visited in whatever order the map is iterated in. */
  method SenderLevels(ids: set<EventId>, rules: Rules, store: Store)
    returns (r: Result<Levels, StateError>, ghost order: seq<EventId>)
    ensures IsOrderOf(order, ids) && r == Run(store, rules, order).0
    ensures r.Ok? ==> r.value.Keys == ids
    ensures exists o :: IsOrderOf(o, ids) && r == Run(store, rules, o).0
  {
    var levels: Levels, cache: Cache, todo := map[], None, ids;
    order := [];
    while todo != {}
      invariant todo <= ids && IsOrderOf(order, ids - todo) && levels.Keys == ids - todo
      invariant Run(store, rules, order) == (Ok(levels), cache)
      decreases todo
    {
      var id :| id in todo;
      todo := todo - {id};
      var level, after := PowerLevelForSender(id, rules, cache, store);
      OneMoreVisited(store, rules, order, id);
      order := order + [id];
      if level.Err? {
        order := RestOfOrder(store, rules, order, todo);
        return Err(level.error), order;
      }
      levels, cache := levels[id := level.value], after;
    }
    r := Ok(levels);
  }

  lemma OneMoreVisited(store: Store, rules: Rules, order: seq<EventId>, id: EventId)
    requires Distinct(order) && id !in Elems(order) && Run(store, rules, order).0.Ok?
    ensures IsOrderOf(order + [id], Elems(order) + {id})
    ensures var (levels, cache) := Run(store, rules, order);
      var (level, after) := Lookup(store, rules, id, cache);
      Run(store, rules, order + [id])
        == (if level.Ok? then Ok(levels.value[id := level.value]) else Err(level.error), after)
  {
    ElemsAppend(order, id);
    assert (order + [id])[..|order|] == order;
  }

  /** After an error the events not visited change nothing, in whatever order they would come. */
  lemma RestOfOrder(store: Store, rules: Rules, order: seq<EventId>, todo: set<EventId>) returns (all: seq<EventId>)
    requires Distinct(order) && Elems(order) !! todo && Run(store, rules, order).0.Err?
    ensures IsOrderOf(all, Elems(order) + todo) && Run(store, rules, all).0 == Run(store, rules, order).0
  {
    var more := SomeOrder(todo);
    ErrorSticks(store, rules, order, more);
    DisjointAppend(order, more);
    all := order + more;
  }

  /**
   * In a room, a run succeeds exactly when every fresh lookup does, and then gives every sender
   * its fresh level, except possibly, before version 12, the sender of the create event.
   */
  lemma {:induction false} RunGivesFreshLevels(store: Store, rules: Rules, c: EventId, order: seq<EventId>)
    requires forall id :: id in order ==> InRoom(store, rules, c, id)
    ensures Run(store, rules, order).0.Ok? <==> forall id :: id in order ==> FreshLevel(store, rules, id).Ok?
    ensures Run(store, rules, order).0.Ok? ==>
      && var levels := Run(store, rules, order).0.value;
      && levels.Keys == Elems(order)
      && (forall id :: id in order && (rules.createIdAsRoomId || id != c) ==> levels[id] == FreshLevel(store, rules, id).value)
      && Run(store, rules, order).1 in {None, if c in store then store[c].content.creators else None}
    decreases |order|
  {
    if order != [] {
      var last, front := order[|order| - 1], order[..|order| - 1];
      RunGivesFreshLevels(store, rules, c, front);
      assert order == front + [last];
      ElemsAppend(front, last);
      if Run(store, rules, front).0.Ok? {
        LookupInRoom(store, rules, c, last, Run(store, rules, front).1);
      }
    }
  }

  lemma LookupInRoom(store: Store, rules: Rules, c: EventId, id: EventId, cache: Cache)
    requires InRoom(store, rules, c, id) && cache in {None, if c in store then store[c].content.creators else None}
    ensures Lookup(store, rules, id, cache).0.Ok? <==> FreshLevel(store, rules, id).Ok?
    ensures Lookup(store, rules, id, cache).1 in {None, if c in store then store[c].content.creators else None}
    ensures rules.createIdAsRoomId || id != c ==> Lookup(store, rules, id, cache).0 == FreshLevel(store, rules, id)
  {
    if c in store && store[c].content.creators.Some? {
      CacheAgrees(store, rules, c, id, store[c].content.creators.value);
    } else if rules.createIdAsRoomId {
      ScanIgnoresCache(store, rules, Found(None, None), StartOfScan(store, rules, false, store[id]), store[id].authEvents);
    } else if id != c {
      ScanFindsCreate(store, rules, Found(None, None), store[id].authEvents, c);
    }
  }

  /** In a successful run an event's level is the one looked up with the cache at its turn. */
  lemma {:induction false} RunAt(store: Store, rules: Rules, order: seq<EventId>, i: nat)
    requires Distinct(order) && i < |order| && Run(store, rules, order).0.Ok?
    ensures Run(store, rules, order[..i]).0.Ok? && order[i] in Run(store, rules, order).0.value
    ensures Lookup(store, rules, order[i], Run(store, rules, order[..i]).1).0
         == Ok(Run(store, rules, order).0.value[order[i]])
    decreases |order|
  {
    var front := order[..|order| - 1];
    if i < |front| {
      RunAt(store, rules, front, i);
      assert front[..i] == order[..i] && front[i] == order[i];
    }
  }

  ghost predicate IsOrderOf(order: seq<EventId>, ids: set<EventId>) {
    Distinct(order) && Elems(order) == ids
  }

  /** All events are in the room of `c` and every fresh lookup succeeds. */
  ghost predicate AllFresh(store: Store, rules: Rules, c: EventId, ids: set<EventId>) {
    c in store && forall id :: id in ids ==> InRoom(store, rules, c, id) && FreshLevel(store, rules, id).Ok?
  }

  /** The create event cites nothing, so its sender's level rests on the cache alone. */
  lemma CreateLookup(store: Store, rules: Rules, c: EventId, creators: set<UserId>)
    requires !rules.createIdAsRoomId && InRoom(store, rules, c, c)
    ensures FreshLevel(store, rules, c) == Ok(Int(0))
    ensures Lookup(store, rules, c, Some(creators)).0 == UserLevel(None, store[c].sender, creators, rules)
  {
  }

  lemma RunSucceeds(store: Store, rules: Rules, c: EventId, ids: set<EventId>, o: seq<EventId>)
    requires AllFresh(store, rules, c, ids) && IsOrderOf(o, ids)
    ensures Run(store, rules, o).0.Ok? && Run(store, rules, o).0.value.Keys == ids
    ensures forall id :: id in ids && (rules.createIdAsRoomId || id != c) ==>
      Run(store, rules, o).0.value[id] == FreshLevel(store, rules, id).value
  {
    assert forall id :: id in o <==> id in Elems(o);
    RunGivesFreshLevels(store, rules, c, o);
  }

  lemma CreatorsOrderDependent(store: Store, rules: Rules, c: EventId, ids: set<EventId>, other: EventId,
                               creators: set<UserId>, rest: seq<EventId>)
    requires !rules.createIdAsRoomId && {c, other} <= ids && c != other && AllFresh(store, rules, c, ids)
    requires Lookup(store, rules, other, None).1 == Some(creators) && store[c].sender in creators
    requires IsOrderOf(rest, ids - {c, other})
    ensures IsOrderOf([c, other] + rest, ids) && IsOrderOf([other, c] + rest, ids)
    ensures Run(store, rules, [c, other] + rest).0 != Run(store, rules, [other, c] + rest).0
  {
    var o, p := [c, other] + rest, [other, c] + rest;
    DisjointAppend([c, other], rest);
    DisjointAppend([other, c], rest);
    CreateVisitedFirst(store, rules, c, ids, o);
    CreateVisitedSecond(store, rules, c, ids, p, creators);
  }

  lemma CreateVisitedFirst(store: Store, rules: Rules, c: EventId, ids: set<EventId>, o: seq<EventId>)
    requires !rules.createIdAsRoomId && c in ids && AllFresh(store, rules, c, ids) && IsOrderOf(o, ids) && o != [] && o[0] == c
    ensures Run(store, rules, o).0.Ok? && c in Run(store, rules, o).0.value
    ensures Run(store, rules, o).0.value[c] == Int(0)
  {
    RunSucceeds(store, rules, c, ids, o);
    RunAt(store, rules, o, 0);
    assert o[..0] == [];
    CreateLookup(store, rules, c, {});
  }

  lemma CreateVisitedSecond(store: Store, rules: Rules, c: EventId, ids: set<EventId>, o: seq<EventId>, creators: set<UserId>)
    requires !rules.createIdAsRoomId && c in ids && AllFresh(store, rules, c, ids) && IsOrderOf(o, ids)
    requires |o| > 1 && o[1] == c && Lookup(store, rules, o[0], None).1 == Some(creators)
    ensures Run(store, rules, o).0.Ok? && c in Run(store, rules, o).0.value
    ensures Ok(Run(store, rules, o).0.value[c]) == UserLevel(None, store[c].sender, creators, rules)
  {
    RunSucceeds(store, rules, c, ids, o);
    RunAt(store, rules, o, 1);
    assert o[..1] == [o[0]];
    OneLookup(store, rules, o[0]);
    CreateLookup(store, rules, c, creators);
  }

  lemma OneLookup(store: Store, rules: Rules, id: EventId)
    ensures Run(store, rules, [id]).1 == Lookup(store, rules, id, None).1
  {
  }

  lemma {:induction false} NonCreatorsOrderIndependent(store: Store, rules: Rules, c: EventId, ids: set<EventId>, o: seq<EventId>)
    requires !rules.createIdAsRoomId && IsOrderOf(o, ids) && c in ids && AllFresh(store, rules, c, ids)
    requires store[c].content.creators.Some? && store[c].sender !in store[c].content.creators.value
    ensures Run(store, rules, o).0 == Ok(map id | id in ids :: FreshLevel(store, rules, id).value)
  {
    RunSucceeds(store, rules, c, ids, o);
    assert c in Elems(o);
    var i :| 0 <= i < |o| && o[i] == c;
    RunAt(store, rules, o, i);
    RunGivesFreshLevels(store, rules, c, o[..i]);
    CreateLookup(store, rules, c, store[c].content.creators.value);
    var levels := Run(store, rules, o).0.value;
    assert levels[c] == Int(0);
    assert levels == map id | id in ids :: FreshLevel(store, rules, id).value;
  }

  /**
   * Before version 12, when the create event is looked up beside another event, the levels are
   * the same for every visiting order if and only if its sender is not one of the creators.
   */
  lemma LevelsOrderIndependentIff(store: Store, rules: Rules, c: EventId, ids: set<EventId>, other: EventId)
    requires !rules.createIdAsRoomId && {c, other} <= ids && c != other && AllFresh(store, rules, c, ids)
    ensures store[c].content.creators.Some?
    ensures (forall o, p :: IsOrderOf(o, ids) && IsOrderOf(p, ids) ==>
              Run(store, rules, o).0 == Run(store, rules, p).0)
       <==> store[c].sender !in store[c].content.creators.value
  {
    CreatorsKnown(store, rules, c, other);
    if store[c].sender in store[c].content.creators.value {
      var rest := SomeOrder(ids - {c, other});
      CreatorsOrderDependent(store, rules, c, ids, other, store[c].content.creators.value, rest);
    } else {
      forall o, p | IsOrderOf(o, ids) && IsOrderOf(p, ids)
        ensures Run(store, rules, o).0 == Run(store, rules, p).0
      {
        NonCreatorsOrderIndependent(store, rules, c, ids, o);
        NonCreatorsOrderIndependent(store, rules, c, ids, p);
      }
    }
  }

  lemma CreatorsKnown(store: Store, rules: Rules, c: EventId, other: EventId)
    requires !rules.createIdAsRoomId && c != other && c in store
    requires InRoom(store, rules, c, other) && FreshLevel(store, rules, other).Ok?
    ensures store[c].content.creators.Some?
    ensures Lookup(store, rules, other, None).1 == store[c].content.creators
  {
    ScanFindsCreate(store, rules, Found(None, None), store[other].authEvents, c);
  }

  /** A room of two events: the creator's own create event and a join. */
  function JoinedRoom(): Store {
    var content := Content(None, Some({"@a"}), Some(map[]), Some(0));
    map["$c" := Event("$c", None, "@a", 0, RoomCreate, Some(""), [], false, content),
        "$j" := Event("$j", None, "@a", 1, RoomMember, Some("@a"), ["$c"], false, content)]
  }

  lemma JoinedRoomIsFresh()
    ensures AllFresh(JoinedRoom(), Rules(false, false), "$c", {"$c", "$j"})
  {
    var store, rules := JoinedRoom(), Rules(false, false);
    assert InRoom(store, rules, "$c", "$c") && InRoom(store, rules, "$c", "$j");
    CreateLookup(store, rules, "$c", {});
    LevelFromCitedEvents(store, rules, "$c", "$j", None);
  }

  /** There the visiting order shows. */
  lemma CreateEventLevelDependsOnOrder()
    ensures var store, rules, ids := JoinedRoom(), Rules(false, false), {"$c", "$j"};
      && AllFresh(store, rules, "$c", ids)
      && exists o, p :: IsOrderOf(o, ids) && IsOrderOf(p, ids) && Run(store, rules, o).0 != Run(store, rules, p).0
  {
    JoinedRoomIsFresh();
    LevelsOrderIndependentIff(JoinedRoom(), Rules(false, false), "$c", {"$c", "$j"}, "$j");
  }

  // ---------------------------------------------------------------- sorting the power events

  /** Tie-breaking data with every sender's fresh level. */
  ghost function FreshDetails(store: Store, rules: Rules, g: Graph): Details {
    map v | v in g && v in store && FreshLevel(store, rules, v).Ok? ::
      Detail(FreshLevel(store, rules, v).value, store[v].ts)
  }

  /** The sorted list of a graph with fresh levels; `None` where one of them cannot be read. */
  ghost function PowerOrder(store: Store, rules: Rules, g: Graph): Option<seq<EventId>> {
    if forall v :: v in g ==> FreshLevel(store, rules, v).Ok?
    then Some(KahnOrder(g, FreshDetails(store, rules, g))) else None
  }

  ghost predicate GraphInRoom(store: Store, rules: Rules, c: EventId, g: Graph) {
    forall v :: v in g ==> InRoom(store, rules, c, v)
  }

  /**
   * Even where the create event's level depends on the visiting order, the sorted list does not:
   * every other event cites the create event, so it comes first whatever its level.
   */
  lemma SortIgnoresVisitingOrder(store: Store, rules: Rules, conflicted: set<EventId>, c: EventId,
                                 g: Graph, order: seq<EventId>)
    requires Closed(store, conflicted, g) && g.Keys <= conflicted && GraphInRoom(store, rules, c, g)
    requires IsOrderOf(order, g.Keys) && Run(store, rules, order).0.Ok?
    ensures KahnOrder(g, Measured(store, g, Run(store, rules, order).0.value)) == KahnOrder(g, FreshDetails(store, rules, g))
  {
    assert forall id :: id in order <==> id in Elems(order);
    RunGivesFreshLevels(store, rules, c, order);
    var d, e := Measured(store, g, Run(store, rules, order).0.value), FreshDetails(store, rules, g);
    if !rules.createIdAsRoomId && c in g {
      assert g[c] == {};
      KahnIgnoresTheRoot(g, d, e, c);
    } else {
      KahnAgrees(g, d, e, []);
    }
  }

  /** What the sort asks for each event: the level looked up, and the event's timestamp. */
  function Measured(store: Store, g: Graph, levels: Levels): Details {
    map v | v in g && v in levels && v in store :: Detail(levels[v], store[v].ts)
  }

  /** The list, a function of the graph and of the order its events are visited in. */
  ghost function OrderAt(store: Store, rules: Rules, g: Graph, order: seq<EventId>): Option<seq<EventId>> {
    var levels := Run(store, rules, order).0;
    if levels.Err? then None
    else
      var d := Measured(store, g, levels.value);
      if Elems(KahnOrder(g, d)) <= d.Keys then Some(KahnOrder(g, d)) else None
  }

  /** For the events of one room it is the sort with fresh levels, whatever the order. */
  lemma OrderAtInRoom(store: Store, rules: Rules, conflicted: set<EventId>, c: EventId, g: Graph, order: seq<EventId>)
    requires Closed(store, conflicted, g) && g.Keys <= conflicted && GraphInRoom(store, rules, c, g)
    requires IsOrderOf(order, g.Keys)
    ensures OrderAt(store, rules, g, order) == PowerOrder(store, rules, g)
  {
    assert forall id :: id in order <==> id in Elems(order);
    RunGivesFreshLevels(store, rules, c, order);
    if Run(store, rules, order).0.Ok? {
      SortIgnoresVisitingOrder(store, rules, conflicted, c, g, order);
      KahnPlacesExactlyTheUnblocked(g, Measured(store, g, Run(store, rules, order).0.value));
    }
  }

  /** The order the levels are looked up in is all that can show of the iteration of maps. */
  method SortPowerEvents(roots: seq<EventId>, conflicted: set<EventId>, rules: Rules, store: Store)
    returns (r: Result<seq<EventId>, StateError>, ghost order: seq<EventId>)
    ensures IsOrderOf(order, PowerGraph(store, conflicted, Elems(roots)).Keys)
    ensures Matches(r, OrderAt(store, rules, PowerGraph(store, conflicted, Elems(roots)), order))
    ensures r.Ok? ==> exists d :: r.value == KahnOrder(PowerGraph(store, conflicted, Elems(roots)), d)
    ensures Elems(roots) <= conflicted ==> forall c :: GraphInRoom(store, rules, c, PowerGraph(store, conflicted, Elems(roots))) ==>
      Matches(r, PowerOrder(store, rules, PowerGraph(store, conflicted, Elems(roots))))
  {
    var g := FillGraph(roots, conflicted, store);
    var levels;
    levels, order := SenderLevels(g.Keys, rules, store);
    if Elems(roots) <= conflicted {
      PowerGraphClosed(store, conflicted, Elems(roots));
      forall c | GraphInRoom(store, rules, c, g) ensures OrderAt(store, rules, g, order) == PowerOrder(store, rules, g) {
        OrderAtInRoom(store, rules, conflicted, c, g, order);
      }
    }
    if levels.Err? { return Err(levels.error), order; }
    r := ReverseTopologicalPowerSort(g, Measured(store, g, levels.value));
  }
}
