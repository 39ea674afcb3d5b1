/** Room events as state resolution sees them, and the store they are fetched from. */
module Events {
  import opened Orders

  type EventId = string
  type UserId = string

  datatype EventType =
    | RoomCreate
    | RoomPowerLevels
    | RoomJoinRules
    | RoomMember
    | OtherType(name: string)

  /** The (event type, state key) pair that indexes a room state. */
  datatype Key = Key(kind: EventType, stateKey: string)

  type StateMap = map<Key, EventId>

  datatype Membership = Join | Invite | Knock | Leave | Ban

  datatype StateError =
    | NotFound(id: EventId)
    | MissingStateKey
    | SubgraphFailed
    | Malformed

  /**
   * The parts of an event's content that state resolution reads. `None` stands for a field that
   * does not deserialize; an absent `users` is the empty map and an absent `users_default` is 0.
   */
  datatype Content = Content(
    membership: Option<Membership>,
    creators: Option<set<UserId>>,
    users: Option<map<UserId, int>>,
    usersDefault: Option<int>)

  /** `roomCreateId` is the create event's ID computed from the room ID, where that parses. */
  datatype Event = Event(
    id: EventId,
    roomCreateId: Option<EventId>,
    sender: UserId,
    ts: nat,
    kind: EventType,
    stateKey: Option<string>,
    authEvents: seq<EventId>,
    rejected: bool,
    content: Content)

  /** The events that can be fetched, by ID. */
  type Store = map<EventId, Event>

  predicate IsTypeAndKey(event: Event, kind: EventType, stateKey: string) {
    event.kind == kind && event.stateKey == Some(stateKey)
  }

  predicate IsPowerLevels(store: Store, id: EventId) {
    id in store && IsTypeAndKey(store[id], RoomPowerLevels, "")
  }

  predicate IsCreate(store: Store, id: EventId) {
    id in store && IsTypeAndKey(store[id], RoomCreate, "")
  }

  /** A power event as the code has it. */
  predicate IsPowerEvent(event: Event) {
    match event.kind
    case RoomPowerLevels | RoomJoinRules | RoomCreate => event.stateKey == Some("")
    case RoomMember =>
      && event.content.membership in {Some(Leave), Some(Ban)}
      && event.stateKey != Some(event.sender)
    case OtherType(_) => false
  }

  /** A power event as the Matrix specification defines it. */
  predicate IsSpecifiedPowerEvent(event: Event) {
    event.stateKey.Some? &&
    match event.kind
    case RoomPowerLevels | RoomJoinRules => true
    case RoomMember => event.content.membership in {Some(Leave), Some(Ban)} && event.stateKey.value != event.sender
    case _ => false
  }

  /** Each stored event ranks above the stored events it cites: no event is its own ancestor. */
  ghost predicate Ranks(store: Store, rank: map<EventId, nat>) {
    && store.Keys <= rank.Keys
    && forall id, a :: id in store && a in store[id].authEvents && a in store ==> rank[a] < rank[id]
  }

  ghost predicate Acyclic(store: Store) {
    exists rank :: Ranks(store, rank)
  }

  ghost function RankOf(store: Store): (rank: map<EventId, nat>)
    requires Acyclic(store)
    ensures Ranks(store, rank)
  {
    var rank :| Ranks(store, rank);
    rank
  }

  /** A measure that decreases from an event to the events it cites. */
  ghost function Height(store: Store, id: EventId): nat
    requires Acyclic(store)
  {
    if id in store then RankOf(store)[id] + 1 else 0
  }

  /** A state map files every event it lists under that event's own type and state key. */
  ghost predicate WellKeyed(store: Store, state: StateMap) {
    forall k :: k in state && state[k] in store ==> IsTypeAndKey(store[state[k]], k.kind, k.stateKey)
  }

  /** A user's power level: creators may be above every integer. */
  datatype UserPowerLevel = Infinite | Int(level: int)

  function CmpLevel(a: UserPowerLevel, b: UserPowerLevel): Ordering {
    match (a, b)
    case (Infinite, Infinite) => Equal
    case (Infinite, Int(_)) => Greater
    case (Int(_), Infinite) => Less
    case (Int(x), Int(y)) => CmpInt(x, y)
  }

  /** Infinite is above every integer, and integers are compared as numbers. */
  predicate HigherLevel(a: UserPowerLevel, b: UserPowerLevel) {
    match (a, b)
    case (Infinite, Int(_)) => true
    case (Int(m), Int(n)) => m > n
    case (_, Infinite) => false
  }

  lemma CmpLevelMeans(a: UserPowerLevel, b: UserPowerLevel)
    ensures CmpLevel(a, b) == Greater <==> HigherLevel(a, b)
    ensures CmpLevel(a, b) == Less <==> HigherLevel(b, a)
    ensures CmpLevel(a, b) == Equal <==> a == b
  {
  }
}
