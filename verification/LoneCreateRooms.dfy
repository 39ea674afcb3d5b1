/** Rooms where the code and the specification of state resolution part: only one of the two succeeds. */
module LoneCreateRooms {
  import opened Orders
  import opened Events
  import opened PowerSort
  import opened AuthGraph
  import opened SenderPower
  import opened IterativeAuth
  import opened Mainline
  import opened Split
  import opened Resolve
  import opened Conformance
  import opened CreateEvent

  /** A room of which only the create event is known. */
  function LoneRoom(create: Event, version12: bool): Room {
    Room(map["$c" := create],
         Authorizer(Rules(version12, version12), (e: Event) => Some([]), (e: Event, m: map<Key, Event>) => true),
         StateRules(version12, version12),
         (c: map<Key, set<EventId>>) => Some({}))
  }

  function CreateBy(creators: Option<set<UserId>>): Event {
    Event("$c", Some("$c"), "@a", 0, RoomCreate, Some(""), [], false, Content(None, creators, Some(map[]), Some(0)))
  }

  lemma LoneRoomSetting(creators: Option<set<UserId>>, version12: bool, u: StateMap)
    requires "$c" !in u.Values
    ensures Setting(LoneRoom(CreateBy(creators), version12), u, {"$c"}, "$c")
    ensures SpecifiedPowerEventsOf(LoneRoom(CreateBy(creators), version12).store, {"$c"}) == {}
  {
    var room := LoneRoom(CreateBy(creators), version12);
    assert Ranks(room.store, map["$c" := 0]);
    assert forall k :: k in u ==> u[k] in u.Values;
    assert SpecifiedPowerEventsOf(room.store, {"$c"}) == {};
  }

  /** The specification's steps for that room: the create event is all there is to place. */
  lemma LoneRoomTrace(creators: Option<set<UserId>>) returns (w: Trace)
    ensures Setting(LoneRoom(CreateBy(creators), true), map[], {"$c"}, "$c")
    ensures FollowsSpecification(LoneRoom(CreateBy(creators), true), map[], {"$c"}, {}, w)
  {
    var room := LoneRoom(CreateBy(creators), true);
    LoneRoomSetting(creators, true, map[]);
    LoneEventGraphs(room.store, "$c");
    assert PowerOrder(room.store, room.auth.rules, map[]) == Some([]);
    PowerOrderIsSpecified(room, {"$c"}, {}, []);
    assert {"$c"} - Elems<EventId>([]) == {"$c"};
    var rest := SpecifiedRest(room.store, None, {"$c"});
    MainlineListWithoutCreate(room.store, None, {}, "$c", rest);
    ReplaySucceedsIff(room.store, room.auth, rest, map[]);
    w := Trace([], map[], rest, Replay(room.store, room.auth, rest, map[]).value);
  }

  /** From version 12 a create event with unreadable creators stops the code and not the specification. */
  lemma UnreadableLevelStopsTheCode()
    ensures var room := LoneRoom(CreateBy(None), true);
      && Setting(room, map[], {"$c"}, "$c")
      && Steps(room, map[], {"$c"}).None?
      && exists w :: FollowsSpecification(room, map[], {"$c"}, SpecifiedPowerEventsOf(room.store, {"$c"}), w)
  {
    var room := LoneRoom(CreateBy(None), true);
    LoneRoomSetting(None, true, map[]);
    var w := LoneRoomTrace(None);
    CodeIffLevel(room, map[], {"$c"}, "$c", w);
    assert FreshLevel(room.store, room.auth.rules, "$c").Err?;
  }

  /** With power levels that cannot be fetched the code succeeds, having nothing left to place, and the specification does not. */
  lemma MissingMainlineStopsTheSpecification()
    ensures var room, u := LoneRoom(CreateBy(Some({"@a"})), false), map[Key(RoomPowerLevels, "") := "$p"];
      && Setting(room, u, {"$c"}, "$c")
      && Steps(room, u, {"$c"}).Some?
      && !exists w :: FollowsSpecification(room, u, {"$c"}, SpecifiedPowerEventsOf(room.store, {"$c"}), w)
  {
    var room, u := LoneRoom(CreateBy(Some({"@a"})), false), map[Key(RoomPowerLevels, "") := "$p"];
    LoneRoomSetting(Some({"@a"}), false, u);
    var power := LoneRoomPower(room, u);
    PartialsAgree(room, u, {"$c"}, "$c", power);
    MinusElems(power, "$c");
    ElemsEmpty(Minus(power, "$c"));
    var partial := Replay(room.store, room.auth, power, u).value;
    assert LevelsEntry(partial) == Some("$p");
    assert {"$c"} - Elems(power) == {};
    assert Steps(room, u, {"$c"}) == Some(Trace(power, partial, [], partial));
    forall w | FollowsSpecification(room, u, {"$c"}, SpecifiedPowerEventsOf(room.store, {"$c"}), w) ensures false {
      LastStatesAgree(room, u, {"$c"}, "$c", Trace(power, partial, [], partial), w);
    }
  }

  lemma LoneRoomPower(room: Room, u: StateMap) returns (power: seq<EventId>)
    requires room == LoneRoom(CreateBy(Some({"@a"})), false) && Setting(room, u, {"$c"}, "$c")
    requires SpecifiedPowerEventsOf(room.store, {"$c"}) == {}
    ensures PowerList(room, {"$c"}) == Some(power) && Elems(power) == {"$c"}
  {
    ApartLists(room, {"$c"}, "$c");
    LoneEventGraphs(room.store, "$c");
    assert PowerOrder(room.store, room.auth.rules, map[]) == Some([]);
    CreateLookup(room.store, room.auth.rules, "$c", {});
    power := PowerList(room, {"$c"}).value;
    assert "$c" in Elems(power);
  }
}
