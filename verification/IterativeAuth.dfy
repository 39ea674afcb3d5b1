/** The iterative auth checks: replay a list of events over a room state. */
module IterativeAuth {
  import opened Orders
  import opened Events
  import opened SenderPower

  /**
   * The authorization rules of the room version: the keys an event is checked against, where its
   * content is well formed, and the verdict given the events found under those keys.
   */
  datatype Authorizer = Authorizer(
    rules: Rules,
    authTypes: Event -> Option<seq<Key>>,
    allows: (Event, map<Key, Event>) -> bool)

  type AuthMap = map<Key, Event>
  type StateResult = Result<StateMap, StateError>

  function KeyOf(event: Event): Key
    requires event.stateKey.Some?
  {
    Key(event.kind, event.stateKey.value)
  }

  /** The accepted auth events the event cites, by key; a later one replaces an earlier one. */
  function Cited(store: Store, auth: seq<EventId>): Result<AuthMap, StateError> {
    if auth == [] then Ok(map[])
    else
      var cited := Cited(store, auth[..|auth| - 1]);
      var a := auth[|auth| - 1];
      if cited.Err? || a !in store || store[a].rejected then cited
      else if store[a].stateKey.None? then Err(MissingStateKey)
      else Ok(cited.value[KeyOf(store[a]) := store[a]])
  }

  /** From room version 12 the create event is not cited; it is found through the room ID. */
  function AddCreate(store: Store, rules: Rules, event: Event, cited: AuthMap): Result<AuthMap, StateError> {
    if rules.createIdAsRoomId && event.kind != RoomCreate && event.roomCreateId.Some? then
      if event.roomCreateId.value in store
      then Ok(cited[Key(RoomCreate, "") := store[event.roomCreateId.value]])
      else Err(NotFound(event.roomCreateId.value))
    else Ok(cited)
  }

  /** Accepted entries of the current state replace what is cited, at the given keys. */
  function Overlay(store: Store, state: StateMap, keys: seq<Key>, cited: AuthMap): AuthMap {
    if keys == [] then cited
    else
      var under := Overlay(store, state, keys[..|keys| - 1], cited);
      var k := keys[|keys| - 1];
      if k in state && state[k] in store && !store[state[k]].rejected then under[k := store[state[k]]] else under
  }

  /** What the event is checked against apart from the current state. */
  function Background(store: Store, auth: Authorizer, event: Event): Result<AuthMap, StateError> {
    var cited := Cited(store, event.authEvents);
    if cited.Err? then cited else AddCreate(store, auth.rules, event, cited.value)
  }

  /** Malformed events are passed over; others are put to the rules. */
  predicate Accepts(store: Store, auth: Authorizer, event: Event, background: AuthMap, state: StateMap) {
    match auth.authTypes(event)
    case None => false
    case Some(keys) => auth.allows(event, Overlay(store, state, keys, background))
  }

  function Step(store: Store, auth: Authorizer, state: StateMap, id: EventId): StateResult {
    if id !in store then Err(NotFound(id))
    else if store[id].stateKey.None? then Err(MissingStateKey)
    else
      var background := Background(store, auth, store[id]);
      if background.Err? then Err(background.error)
      else if Accepts(store, auth, store[id], background.value, state) then Ok(state[KeyOf(store[id]) := id])
      else Ok(state)
  }

  /** The whole replay, one event after the other; the first error ends it. */
  function Replay(store: Store, auth: Authorizer, events: seq<EventId>, state: StateMap): StateResult {
    if events == [] then Ok(state)
    else
      var before := Replay(store, auth, events[..|events| - 1], state);
      if before.Err? then before else Step(store, auth, before.value, events[|events| - 1])
  }

  // ---------------------------------------------------------------- the loops

  method CollectCited(store: Store, auth: seq<EventId>) returns (r: Result<AuthMap, StateError>)
    ensures r == Cited(store, auth)
  {
    var found: AuthMap := map[];
    for k := 0 to |auth|
      invariant Cited(store, auth[..k]) == Ok(found)
    {
      assert auth[..k + 1][..k] == auth[..k];
      var a := auth[k];
      if a in store && !store[a].rejected {
        if store[a].stateKey.None? {
          CitedErrorSticks(store, auth, k + 1);
          return Err(MissingStateKey);
        }
        found := found[KeyOf(store[a]) := store[a]];
      }
    }
    assert auth[..|auth|] == auth;
    r := Ok(found);
  }

  lemma {:induction false} CitedErrorSticks(store: Store, auth: seq<EventId>, k: nat)
    requires k <= |auth| && Cited(store, auth[..k]).Err?
    ensures Cited(store, auth) == Cited(store, auth[..k])
    decreases |auth|
  {
    if k < |auth| {
      assert auth[..|auth| - 1][..k] == auth[..k];
      CitedErrorSticks(store, auth[..|auth| - 1], k);
    } else {
      assert auth[..k] == auth;
    }
  }

  method LookUpAuthTypes(store: Store, state: StateMap, keys: seq<Key>, background: AuthMap) returns (r: AuthMap)
    ensures r == Overlay(store, state, keys, background)
  {
    r := background;
    for k := 0 to |keys|
      invariant r == Overlay(store, state, keys[..k], background)
    {
      assert keys[..k + 1][..k] == keys[..k];
      var key := keys[k];
      if key in state && state[key] in store && !store[state[key]].rejected {
        r := r[key := store[state[key]]];
      }
    }
    assert keys[..|keys|] == keys;
  }

  method IterativeAuthCheck(auth: Authorizer, events: seq<EventId>, initial: StateMap, store: Store)
    returns (r: StateResult)
    ensures r == Replay(store, auth, events, initial)
  {
    var state := initial;
    for k := 0 to |events|
      invariant Replay(store, auth, events[..k], initial) == Ok(state)
    {
      assert events[..k + 1][..k] == events[..k];
      var next := CheckEvent(auth, events[k], state, store);
      if next.Err? {
        ReplayErrorSticks(store, auth, events, initial, k + 1);
        return next;
      }
      state := next.value;
    }
    assert events[..|events|] == events;
    r := Ok(state);
  }

  /** One event of the list: stored if the rules allow it given what is found for it, an error if it cannot be checked. */
  method CheckEvent(auth: Authorizer, id: EventId, state: StateMap, store: Store) returns (r: StateResult)
    ensures r == Step(store, auth, state, id) && IsStep(store, auth, state, id, r)
  {
    StepIs(store, auth, state, id);
    if id !in store { return Err(NotFound(id)); }
    var event := store[id];
    if event.stateKey.None? { return Err(MissingStateKey); }
    var cited := CollectCited(store, event.authEvents);
    if cited.Err? { return Err(cited.error); }
    var background := AddCreate(store, auth.rules, event, cited.value);
    if background.Err? { return Err(background.error); }
    var types := auth.authTypes(event);
    if types.None? { return Ok(state); }
    var found := LookUpAuthTypes(store, state, types.value, background.value);
    if auth.allows(event, found) {
      return Ok(state[KeyOf(event) := id]);
    }
    r := Ok(state);
  }

  lemma {:induction false} ReplayErrorSticks(store: Store, auth: Authorizer, events: seq<EventId>, initial: StateMap, k: nat)
    requires k <= |events| && Replay(store, auth, events[..k], initial).Err?
    ensures Replay(store, auth, events, initial) == Replay(store, auth, events[..k], initial)
    decreases |events|
  {
    if k < |events| {
      assert events[..|events| - 1][..k] == events[..k];
      ReplayErrorSticks(store, auth, events[..|events| - 1], initial, k);
    } else {
      assert events[..k] == events;
    }
  }

  // ---------------------------------------------------------------- what one check looks at

  /** The auth event at `i` is fetched, accepted, and has key `k`. */
  ghost predicate CitedWithKey(store: Store, auth: seq<EventId>, i: nat, k: Key) {
    && i < |auth| && auth[i] in store && !store[auth[i]].rejected
    && store[auth[i]].stateKey.Some? && KeyOf(store[auth[i]]) == k
  }

  ghost predicate LastCited(store: Store, auth: seq<EventId>, i: nat, k: Key) {
    CitedWithKey(store, auth, i, k) && forall j: nat :: i < j < |auth| ==> !CitedWithKey(store, auth, j, k)
  }

  /** What an event cites under a key is the last accepted auth event of that key, if there is one. */
  lemma {:induction false} CitedIsLastAccepted(store: Store, auth: seq<EventId>, k: Key)
    requires Cited(store, auth).Ok?
    ensures k in Cited(store, auth).value ==>
      exists i: nat :: LastCited(store, auth, i, k) && Cited(store, auth).value[k] == store[auth[i]]
    ensures k !in Cited(store, auth).value ==> forall i: nat :: i < |auth| ==> !CitedWithKey(store, auth, i, k)
    decreases |auth|
  {
    if auth != [] {
      var last := |auth| - 1;
      var front := auth[..last];
      CitedIsLastAccepted(store, front, k);
      assert forall i: nat :: i < last ==> (CitedWithKey(store, auth, i, k) <==> CitedWithKey(store, front, i, k));
      if CitedWithKey(store, auth, last, k) {
        assert LastCited(store, auth, last, k);
      } else if k in Cited(store, auth).value {
        var i: nat :| LastCited(store, front, i, k) && Cited(store, front).value[k] == store[front[i]];
        assert LastCited(store, auth, i, k);
      }
    }
  }

  /**
   * Apart from the state, an event is checked against what it cites; from room version 12 the
   * create event named by its room ID stands in for whatever it cites as one.
   */
  lemma BackgroundAt(store: Store, auth: Authorizer, event: Event, k: Key)
    requires Background(store, auth, event).Ok?
    ensures Cited(store, event.authEvents).Ok?
    ensures var found, cited := Background(store, auth, event).value, Cited(store, event.authEvents).value;
      if k == Key(RoomCreate, "") && auth.rules.createIdAsRoomId && event.kind != RoomCreate && event.roomCreateId.Some?
      then event.roomCreateId.value in store && k in found && found[k] == store[event.roomCreateId.value]
      else (k in found <==> k in cited) && (k in found ==> found[k] == cited[k])
  {
  }

  /** At each key asked for, an accepted state entry overrides what is cited; other keys are untouched. */
  lemma {:induction false} OverlayAt(store: Store, state: StateMap, keys: seq<Key>, cited: AuthMap, k: Key)
    ensures var found := Overlay(store, state, keys, cited);
      if k in keys && k in state && state[k] in store && !store[state[k]].rejected
      then k in found && found[k] == store[state[k]]
      else (k in found <==> k in cited) && (k in found ==> found[k] == cited[k])
    decreases |keys|
  {
    if keys != [] {
      OverlayAt(store, state, keys[..|keys| - 1], cited, k);
      assert keys == keys[..|keys| - 1] + [keys[|keys| - 1]];
    }
  }

  /** The current state has an accepted entry for one of the keys asked for. */
  ghost predicate StateSays(store: Store, state: StateMap, keys: seq<Key>, k: Key) {
    k in keys && k in state && state[k] in store && !store[state[k]].rejected
  }

  /** From version 12 the room ID names the create event. */
  predicate NamesCreate(auth: Authorizer, event: Event, k: Key) {
    k == Key(RoomCreate, "") && auth.rules.createIdAsRoomId && event.kind != RoomCreate && event.roomCreateId.Some?
  }

  /** What is found for a key: the state's entry, else the create event of the room ID, else the last accepted citation. */
  ghost predicate IsFoundAt(store: Store, auth: Authorizer, event: Event, state: StateMap, keys: seq<Key>, found: AuthMap, k: Key) {
    if StateSays(store, state, keys, k) then k in found && found[k] == store[state[k]]
    else if NamesCreate(auth, event, k) then
      event.roomCreateId.value in store && k in found && found[k] == store[event.roomCreateId.value]
    else if k in found then exists i: nat :: LastCited(store, event.authEvents, i, k) && found[k] == store[event.authEvents[i]]
    else forall i: nat :: i < |event.authEvents| ==> !CitedWithKey(store, event.authEvents, i, k)
  }

  ghost predicate IsFound(store: Store, auth: Authorizer, event: Event, state: StateMap, keys: seq<Key>, found: AuthMap) {
    forall k :: IsFoundAt(store, auth, event, state, keys, found, k)
  }

  /** The rules allow the event given what is found for it. */
  ghost predicate Approved(store: Store, auth: Authorizer, state: StateMap, event: Event) {
    auth.authTypes(event).Some? &&
    exists found :: IsFound(store, auth, event, state, auth.authTypes(event).value, found) && auth.allows(event, found)
  }

  lemma OverlayIsFound(store: Store, auth: Authorizer, event: Event, state: StateMap, keys: seq<Key>)
    requires Background(store, auth, event).Ok?
    ensures IsFound(store, auth, event, state, keys, Overlay(store, state, keys, Background(store, auth, event).value))
  {
    var background := Background(store, auth, event).value;
    forall k ensures IsFoundAt(store, auth, event, state, keys, Overlay(store, state, keys, background), k) {
      OverlayAt(store, state, keys, background, k);
      BackgroundAt(store, auth, event, k);
      CitedIsLastAccepted(store, event.authEvents, k);
    }
  }

  /** There is only one map that has what is found. */
  lemma FoundUnique(store: Store, auth: Authorizer, event: Event, state: StateMap, keys: seq<Key>, f: AuthMap, g: AuthMap)
    requires IsFound(store, auth, event, state, keys, f) && IsFound(store, auth, event, state, keys, g)
    ensures f == g
  {
    forall k ensures (k in f <==> k in g) && (k in f ==> f[k] == g[k]) {
      assert IsFoundAt(store, auth, event, state, keys, f, k) && IsFoundAt(store, auth, event, state, keys, g, k);
    }
  }

  lemma AcceptsIff(store: Store, auth: Authorizer, event: Event, state: StateMap)
    requires Background(store, auth, event).Ok?
    ensures Accepts(store, auth, event, Background(store, auth, event).value, state) <==> Approved(store, auth, state, event)
  {
    if auth.authTypes(event).Some? {
      var keys := auth.authTypes(event).value;
      var f := Overlay(store, state, keys, Background(store, auth, event).value);
      OverlayIsFound(store, auth, event, state, keys);
      if Approved(store, auth, state, event) {
        var g :| IsFound(store, auth, event, state, keys, g) && auth.allows(event, g);
        FoundUnique(store, auth, event, state, keys, f, g);
      }
    }
  }

  /** The event cites an accepted event that has no state key. */
  ghost predicate CitesUnkeyed(store: Store, event: Event) {
    exists a :: a in event.authEvents && a in store && !store[a].rejected && store[a].stateKey.None?
  }

  lemma {:induction false} CitedFailsIff(store: Store, auth: seq<EventId>)
    ensures Cited(store, auth).Err? <==> exists a :: a in auth && a in store && !store[a].rejected && store[a].stateKey.None?
    ensures Cited(store, auth).Err? ==> Cited(store, auth).error == MissingStateKey
    decreases |auth|
  {
    if auth != [] {
      var front, last := auth[..|auth| - 1], auth[|auth| - 1];
      CitedFailsIff(store, front);
      assert auth == front + [last];
      assert forall a :: a in auth <==> a in front || a == last;
    }
  }

  /** Why an event cannot be checked. */
  ghost predicate IsCheckError(store: Store, auth: Authorizer, id: EventId, e: StateError) {
    if id !in store then e == NotFound(id)
    else if store[id].stateKey.None? || CitesUnkeyed(store, store[id]) then e == MissingStateKey
    else
      && NamesCreate(auth, store[id], Key(RoomCreate, ""))
      && store[id].roomCreateId.value !in store && e == NotFound(store[id].roomCreateId.value)
  }

  /** The event can be put to the rules: it and the accepted events it cites have state keys, and a create event named is known. */
  ghost predicate Checkable(store: Store, auth: Authorizer, id: EventId) {
    && id in store && store[id].stateKey.Some? && !CitesUnkeyed(store, store[id])
    && (NamesCreate(auth, store[id], Key(RoomCreate, "")) ==> store[id].roomCreateId.value in store)
  }

  ghost predicate IsStep(store: Store, auth: Authorizer, state: StateMap, id: EventId, r: StateResult) {
    match r
    case Err(e) => IsCheckError(store, auth, id, e)
    case Ok(after) => Checkable(store, auth, id) && IsAfter(store, auth, state, id, after)
  }

  /** The event is stored under its own key if the rules allow it, and the state is left alone otherwise. */
  ghost predicate IsAfter(store: Store, auth: Authorizer, state: StateMap, id: EventId, after: StateMap)
    requires id in store && store[id].stateKey.Some?
  {
    after == if Approved(store, auth, state, store[id]) then state[Key(store[id].kind, store[id].stateKey.value) := id] else state
  }

  lemma BackgroundSucceedsIff(store: Store, auth: Authorizer, id: EventId)
    requires id in store && store[id].stateKey.Some?
    ensures Background(store, auth, store[id]).Ok? <==> Checkable(store, auth, id)
    ensures Background(store, auth, store[id]).Err? ==> IsCheckError(store, auth, id, Background(store, auth, store[id]).error)
  {
    CitedFailsIff(store, store[id].authEvents);
  }

  lemma StepIs(store: Store, auth: Authorizer, state: StateMap, id: EventId)
    ensures IsStep(store, auth, state, id, Step(store, auth, state, id))
  {
    if id in store && store[id].stateKey.Some? {
      BackgroundSucceedsIff(store, auth, id);
      if Background(store, auth, store[id]).Ok? { AcceptsIff(store, auth, store[id], state); }
    }
  }

  // ---------------------------------------------------------------- what the replay computes

  /** In a successful replay, the event at `i` passed its check against the state at its turn. */
  ghost predicate PassesAt(store: Store, auth: Authorizer, events: seq<EventId>, initial: StateMap, i: nat) {
    && i < |events|
    && events[i] in store
    && store[events[i]].stateKey.Some?
    && Background(store, auth, store[events[i]]).Ok?
    && Replay(store, auth, events[..i], initial).Ok?
    && Approved(store, auth, Replay(store, auth, events[..i], initial).value, store[events[i]])
  }

  ghost predicate PassesWithKey(store: Store, auth: Authorizer, events: seq<EventId>, initial: StateMap, i: nat, k: Key) {
    PassesAt(store, auth, events, initial, i) && KeyOf(store[events[i]]) == k
  }

  /** The event at `i` is the last one of key `k` that passes. */
  ghost predicate LastWithKey(store: Store, auth: Authorizer, events: seq<EventId>, initial: StateMap, i: nat, k: Key) {
    && PassesWithKey(store, auth, events, initial, i, k)
    && forall j: nat :: i < j < |events| ==> !PassesWithKey(store, auth, events, initial, j, k)
  }

  ghost predicate NoneWithKey(store: Store, auth: Authorizer, events: seq<EventId>, initial: StateMap, k: Key) {
    forall j: nat :: j < |events| ==> !PassesWithKey(store, auth, events, initial, j, k)
  }

  ghost predicate SameEntry(s: StateMap, t: StateMap, k: Key) {
    (k in s <==> k in t) && (k in s ==> s[k] == t[k])
  }

  /** `final` at `k` is the last event of that key that passed, or the initial entry if none did. */
  ghost predicate LastPassing(store: Store, auth: Authorizer, events: seq<EventId>, initial: StateMap,
                              final: StateMap, k: Key) {
    || (exists i: nat :: LastWithKey(store, auth, events, initial, i, k) && k in final && final[k] == events[i])
    || (NoneWithKey(store, auth, events, initial, k) && SameEntry(final, initial, k))
  }

  lemma PassesInFront(store: Store, auth: Authorizer, events: seq<EventId>, initial: StateMap, i: nat, k: Key)
    requires i < |events| - 1
    ensures PassesWithKey(store, auth, events, initial, i, k)
       <==> PassesWithKey(store, auth, events[..|events| - 1], initial, i, k)
  {
    assert events[..|events| - 1][..i] == events[..i];
  }

  lemma {:induction false} ReplayKeepsLastPassing(store: Store, auth: Authorizer, events: seq<EventId>,
                                                  initial: StateMap, k: Key)
    requires Replay(store, auth, events, initial).Ok?
    ensures LastPassing(store, auth, events, initial, Replay(store, auth, events, initial).value, k)
    decreases |events|
  {
    if events != [] {
      ReplayKeepsLastPassing(store, auth, events[..|events| - 1], initial, k);
      LastStepApproves(store, auth, events, initial);
      if PassesWithKey(store, auth, events, initial, |events| - 1, k) {
        assert LastWithKey(store, auth, events, initial, |events| - 1, k);
      } else {
        LastStepSkips(store, auth, events, initial, k);
        SkippedKeepsLast(store, auth, events, initial, Replay(store, auth, events[..|events| - 1], initial).value,
                         Replay(store, auth, events, initial).value, k);
      }
    }
  }

  lemma SkippedKeepsLast(store: Store, auth: Authorizer, events: seq<EventId>, initial: StateMap,
                                            before: StateMap, final: StateMap, k: Key)
    requires events != [] && LastPassing(store, auth, events[..|events| - 1], initial, before, k)
    requires !PassesWithKey(store, auth, events, initial, |events| - 1, k) && SameEntry(final, before, k)
    ensures LastPassing(store, auth, events, initial, final, k)
  {
    var last, front := |events| - 1, events[..|events| - 1];
    forall i: nat | i < last
      ensures PassesWithKey(store, auth, events, initial, i, k) <==> PassesWithKey(store, auth, front, initial, i, k)
    {
      PassesInFront(store, auth, events, initial, i, k);
    }
    if i: nat :| LastWithKey(store, auth, front, initial, i, k) && k in before && before[k] == front[i] {
      assert LastWithKey(store, auth, events, initial, i, k);
    } else {
      assert NoneWithKey(store, auth, events, initial, k);
    }
  }

  /** The last step stores its event exactly if it is approved at its turn. */
  lemma LastStepApproves(store: Store, auth: Authorizer, events: seq<EventId>, initial: StateMap)
    requires events != [] && Replay(store, auth, events, initial).Ok?
    ensures var last := |events| - 1; var before := Replay(store, auth, events[..last], initial);
      && before.Ok? && events[last] in store && store[events[last]].stateKey.Some? && Background(store, auth, store[events[last]]).Ok?
      && Replay(store, auth, events, initial).value
           == if PassesAt(store, auth, events, initial, last) then before.value[KeyOf(store[events[last]]) := events[last]] else before.value
  {
    var last := |events| - 1;
    var before := Replay(store, auth, events[..last], initial).value;
    AcceptsIff(store, auth, store[events[last]], before);
  }

  lemma LastStepSkips(store: Store, auth: Authorizer, events: seq<EventId>, initial: StateMap, k: Key)
    requires events != [] && Replay(store, auth, events, initial).Ok?
    requires !PassesWithKey(store, auth, events, initial, |events| - 1, k)
    ensures SameEntry(Replay(store, auth, events, initial).value,
                      Replay(store, auth, events[..|events| - 1], initial).value, k)
  {
    LastStepApproves(store, auth, events, initial);
  }

  /** No key is lost, and every entry is an initial one or a listed event under its own key. */
  lemma ReplayProvenance(store: Store, auth: Authorizer, events: seq<EventId>, initial: StateMap)
    requires Replay(store, auth, events, initial).Ok?
    ensures var final := Replay(store, auth, events, initial).value;
      && initial.Keys <= final.Keys
      && forall k :: k in final ==>
        || (k in initial && final[k] == initial[k])
        || (final[k] in events && final[k] in store && IsTypeAndKey(store[final[k]], k.kind, k.stateKey))
  {
    var final := Replay(store, auth, events, initial).value;
    forall k ensures LastPassing(store, auth, events, initial, final, k) {
      ReplayKeepsLastPassing(store, auth, events, initial, k);
    }
    forall k | k in initial ensures k in final {
      assert LastPassing(store, auth, events, initial, final, k);
    }
    forall k | k in final
      ensures (k in initial && final[k] == initial[k])
        || (final[k] in events && final[k] in store && IsTypeAndKey(store[final[k]], k.kind, k.stateKey))
    {
      assert LastPassing(store, auth, events, initial, final, k);
    }
  }

  /** The two states have the same entry, or both none, at each of the keys. */
  ghost predicate AgreeOn(s: StateMap, t: StateMap, keys: seq<Key>) {
    forall k :: k in keys ==> SameEntry(s, t, k)
  }

  /** A verdict depends on the current state only at the event's auth types. */
  lemma VerdictIsLocal(store: Store, auth: Authorizer, event: Event, background: AuthMap, s: StateMap, t: StateMap)
    requires auth.authTypes(event).Some? ==> AgreeOn(s, t, auth.authTypes(event).value)
    ensures Accepts(store, auth, event, background, s) == Accepts(store, auth, event, background, t)
  {
    match auth.authTypes(event)
    case None =>
    case Some(keys) =>
      var f, g := Overlay(store, s, keys, background), Overlay(store, t, keys, background);
      forall k ensures (k in f <==> k in g) && (k in f ==> f[k] == g[k]) {
        OverlayAt(store, s, keys, background, k);
        OverlayAt(store, t, keys, background, k);
      }
      assert f == g;
  }

  ghost predicate AllCheckable(store: Store, auth: Authorizer, events: set<EventId>) {
    forall e :: e in events ==> Checkable(store, auth, e)
  }

  /** Whether a replay succeeds depends on the listed events alone, not on the state or the verdicts. */
  lemma {:induction false} ReplaySucceedsIff(store: Store, auth: Authorizer, events: seq<EventId>, initial: StateMap)
    ensures Replay(store, auth, events, initial).Ok? <==> AllCheckable(store, auth, Elems(events))
    decreases |events|
  {
    if events != [] {
      var front, last := events[..|events| - 1], events[|events| - 1];
      assert events == front + [last];
      ElemsAppend(front, last);
      ReplaySucceedsIff(store, auth, front, initial);
      if last in store && store[last].stateKey.Some? { BackgroundSucceedsIff(store, auth, last); }
    }
  }
}
