# A verified model of palpo's core algorithms

[palpo](https://github.com/palpo-im/palpo) is a Matrix homeserver. This project models the parts of it
whose correctness is hardest to see from the code, in Dafny 4.11, and proves what they promise.
`dafny verify dfyconfig.toml` checks the whole project.

**State resolution** (`Orders`, `Events`, `Split`, `AuthGraph`, `PowerSort`, `SenderPower`, `IterativeAuth`,
`Mainline`, `Resolve`, `Conformance`, `CreateEvent`, `LoneCreateRooms`). When servers disagree about a room, each must compute the same merged state, while the
code iterates over hash maps. Every loop over a map or set picks its next element arbitrarily in the model, and
each method is proved against a function of the *sets* involved, so that no iteration order can show. The lists
are then proved to be the ones that the "State resolution" section of Matrix room version 2 defines: the
lexicographically smallest topological order for the power events, the mainline ordering for the others. The
room version 12 variant (empty start, conflicted subgraph, privileged creators, create event ID as room ID) is
part of the model through the same rule flags as in the code.

**The HTML tree** (`HtmlForest`, `HtmlStream`, `HtmlTree`). Nodes are objects with a parent link and a child
list that are changed in place. `HtmlTree.Snapshot` reads the links of a set of nodes as a value; each method is
proved to act on it as an operation of `HtmlForest`, where preservation of links, absence of cycles and the
effect of a rename on the serialized stream are proved.

**The rate limiter** (`RateLimiter`). A class with the bucket map, proved to answer by a law about windows of
time that does not mention buckets.

**Smaller cores**: LIKE escaping against a LIKE matcher (`LikePattern`), quoted strings of HTTP headers
(`QuotedString`), the signing-key record over runs of updates (`SigningKeys`), paging through the room directory
(`Directory`).

## What the model takes for granted

- `fetch_event` is a finite map from event ID to event, stored under its own ID; an ID not in it is one that
  cannot be fetched. `async` is dropped. The answer of the authorization rules, the auth types of an event and
  the conflicted subgraph are function values, so they depend on their arguments only.
- `Acyclic`: no event is its own ancestor through auth events. The graph walk and the Kahn loop do without it.
- One room, as the source asks of its callers: the power events to sort, and what they rest on, are of one room.
  Before room version 12 that means: they cite its create event, no other one, and at most one power levels event.
  Without it the result is a function of the sets and of the order in which the senders' levels are looked up.
- Only for conformance to the specification do state maps also have to file events under their own type and state key.
  `CreateEvent` further takes one create event, which cites nothing and, as crates/core/src/state/event_auth.rs:46-49 has it, is checked
  against no state.
- Errors are modelled wherever the code returns one. Which of several errors comes first may depend on hash
  iteration, so `ResolveState` fixes when it fails and not with which error.
- Limiter arithmetic is over `real`, the configuration is fixed, and the clock does not run backwards. Header
  bytes are characters. `usize` has 64 bits.

## Where the code differs from what one would expect

- **Power events.** crates/core/src/state.rs:1074-1091 counts `m.room.create` as a power event, which the
  specification does not. It also counts power levels and join rules only with an empty state key, and membership
  events even without a state key. `SameStepOneIff` says on any set when step 1 sorts the same events all the same, the
  lemmas after it what that comes to in a room, and `CreateAloneChangesStepOne` gives a set where it does not.
  In a room the difference never reaches the state: `RoomResolutionIsSpecified` needs no agreement in step 1. All that is
  left of it are two cases where only one side fails (`UnreadableLevelStopsTheCode`,
  `MissingMainlineStopsTheSpecification`).
- **The creators cache shows.** Before room version 12, with the create event in the graph, its sender's level
  depends on the order in which the graph's map is iterated: for a creator it is 0 if the create event
  is visited first, 100 otherwise. `LevelsOrderIndependentIff` gives the exact condition, `CreateEventLevelDependsOnOrder` a room of two
  events. `SortIgnoresVisitingOrder` proves that the sorted list is the same all the same.
- **Paging with limit 0 never ends**: each page announces itself as the next one (`PagingEndsIff`).
- **Withdrawn keys can come back.** A trusted server or a storage merge that still lists a key the origin has
  withdrawn makes it current again, until the next refresh from the origin, and it is then accepted after its expiry
  (`WithdrawnAcceptedIff`, `RelistedKeyOutlivesItsExpiry`).
- **Two look-ups of a signing key differ** exactly when an ID is both current and old with different keys
  (`LookupsAgreeIff`; `LookupsDiffer` is a run that leads there), and the merged look-up never checks expiry
  (`MergedLookupIgnoresExpiryIff`).

## Model

| member | source | states |
|---|---|---|
| `Split.SplitConflicted` | crates/core/src/state.rs:260-296 | For any state maps: a pair is unconflicted exactly when every map has it, and every other value of some map is listed under its key as conflicted, exactly once. |
| `Split.CountMeans` | crates/core/src/state.rs:266-295 | A pair's count is never above the number of maps, is positive iff some map has the pair, and is the number of maps iff all have it. |
| `Split.CountMap` | crates/core/src/state.rs:269-277 | One more map raises the count of exactly its own pairs by one, in whatever order its entries come. |
| `Split.SortRow` | crates/core/src/state.rs:282-293 | Of one key's values, the full-count one becomes the unanimous value and all others are listed, each once. |
| `Split.UnconflictedUnique` | crates/core/src/state.rs:240-259 | The definition of the unconflicted state map admits one map only. |
| `Split.ConflictedUnique` | crates/core/src/state.rs:240-259 | The definition of the conflicted state set admits one set per key only. |
| `Split.AuthDiff` | crates/core/src/state.rs:314-328 | The counting pass computes the union of the chains minus their intersection. |
| `Split.ChainCountMeans` | crates/core/src/state.rs:318-327 | A chain count equals the number of chains iff the event is in all of them, and is positive iff it is in one. |
| `Split.OneMapUnanimous` | crates/core/src/state.rs:260-296 | Copies of one map have that map as unconflicted state and no conflict. |
| `AuthGraph.AddEventAndAuthChain` | crates/core/src/state.rs:1004-1045 | The stack walk ends, also on cyclic citations and with repeated stack entries, and adds exactly the events reachable through the conflicted set, each with its auth events inside that set; the graph stays closed. |
| `AuthGraph.PopAndVisit` | crates/core/src/state.rs:1017-1044 | One round keeps the walk's invariant and lowers its measure: a new event enters the graph, or the stack shrinks. |
| `AuthGraph.ScanAuthEvents` | crates/core/src/state.rs:1023-1043 | All auth events inside the conflicted set become edges; those not yet in the graph are pushed. |
| `AuthGraph.FillGraph` | crates/core/src/state.rs:360-373 | Filling from the power events, in any order, gives the graph of everything reachable from them, closed. |
| `AuthGraph.PowerGraphClosed` | crates/core/src/state.rs:365-367 | The graph of power events inside the conflicted set is closed and contains them all. |
| `AuthGraph.ClosedGraphUnblocked` | crates/core/src/state.rs:410-441 | When no event is its own ancestor, no event of a closed graph reaches a cycle or a missing event. |
| `AuthGraph.PowerGraphSorts` | crates/core/src/state.rs:347-408 | So the sort of that graph is the specified ordering of the whole graph. |
| `PowerSort.BeforeStrictTotal` | crates/core/src/state.rs:458-467 | That relation is a strict total order on event IDs. |
| `PowerSort.BeforeIsTheSpecifiedRelation` | crates/core/src/state.rs:458-467 | The comparator is the specification's relation, in numbers and characters: infinite or the larger integer first, then the earlier timestamp, then the ID with the smaller character at the first difference, or the proper prefix. |
| `Orders.CmpStringMeans` | crates/core/src/state.rs:458-467 | Comparing IDs is comparing the characters where they first differ; a proper prefix is smaller. |
| `PowerSort.ReverseTopologicalPowerSort` | crates/core/src/state.rs:443-557 | On any finite graph the heap loop ends, neither `expect` fires, and it returns the greedy order, whatever order maps are iterated in; it fails exactly when an event it would place has no level or timestamp. |
| `PowerSort.KahnPlacesExactlyTheUnblocked` | crates/core/src/state.rs:489-556 | On an arbitrary graph the list has, each once and after its dependencies, exactly the events from which no cycle and no missing event is reachable. |
| `PowerSort.KahnIsTheSpecifiedOrdering` | crates/core/src/state.rs:410-441 | On a closed acyclic graph the list is topological and lexicographically smallest among all topological orders. |
| `PowerSort.SpecifiedOrderingUnique` | crates/core/src/state.rs:410-441 | At most one list meets that definition. |
| `PowerSort.Populate` | crates/core/src/state.rs:489-517 | The edge maps and the first heap hold exactly what the graph says, or an event without edges has no level. |
| `PowerSort.ReleaseOne` | crates/core/src/state.rs:526-551 | Removing one edge keeps the maps exact; the dependent moves to the heap iff that was its last edge. |
| `PowerSort.Release` | crates/core/src/state.rs:526-551 | After an event is placed, the heap holds exactly the events that became ready and the edge map the rest. |
| `PowerSort.PlaceNext` | crates/core/src/state.rs:523-554 | Each round extends the greedy order by its next event and keeps the loop invariant. |
| `PowerSort.KahnIgnoresTheRoot` | crates/core/src/state.rs:443-557 | An event all others depend on comes first whatever its level, so its level never shows in the list. |
| `PowerSort.KahnIgnoresTheIsolated` | crates/core/src/state.rs:443-557 | An event linked to no other can be left out: the order of the others stays. |
| `SenderPower.PowerLevelForSender` | crates/core/src/state.rs:582-656 | One lookup for every cache and input: how far the auth events are read, and the level given by the last power levels event and the create event read or the creators known, in values, with the cache afterwards. |
| `SenderPower.LevelFromCitedEvents` | crates/core/src/state.rs:582-656 | In every room version, wherever the scan stops early, in values: infinite for a privileged creator; else, by the first power levels event cited, the sender's entry in `users` or `users_default`, or the error; else 100 for a creator and 0 for anyone else. Before version 12 for events other than the create event. |
| `SenderPower.LevelWithoutCreators` | crates/core/src/state.rs:582-656 | From version 12, with unreadable creators it is an error; with no create event to be found it is the `users_default` of the power levels event cited, or 0. |
| `SenderPower.CreatorsOutrank` | crates/core/src/state.rs:582-656 | From version 12 a creator's event sorts before any other sender's, whatever power levels the two cite. |
| `SenderPower.CacheAgrees` | crates/core/src/state.rs:582-656 | For an event of the room a lookup with the creators cached gives the level of a fresh lookup, and a fresh lookup can cache only the create event's creators; before version 12 the create event itself is excepted. |
| `SenderPower.SenderLevels` | crates/core/src/state.rs:375-395 | The loop over the graph computes the run of lookups in the order the map happens to be iterated in. |
| `SenderPower.RunGivesFreshLevels` | crates/core/src/state.rs:375-395 | In a room a run succeeds iff every fresh lookup does, and then gives the fresh levels, before version 12 except for the create event. |
| `SenderPower.LevelsOrderIndependentIff` | crates/core/src/state.rs:375-395 | Before version 12, with the create event in the graph beside another event: the levels are the same for all visiting orders iff the create event's sender is not one of the creators. |
| `SenderPower.CreateEventLevelDependsOnOrder` | crates/core/src/state.rs:375-395 | A room of two events, all lookups succeeding, where two orders of visiting them give different levels. |
| `SenderPower.SortIgnoresVisitingOrder` | crates/core/src/state.rs:397-408 | Even there the sorted list is the one for fresh levels, as every other event cites the create event. |
| `SenderPower.OrderAtInRoom` | crates/core/src/state.rs:375-408 | In one room every visiting order gives the sort with fresh levels, failures included. |
| `SenderPower.SortPowerEvents` | crates/core/src/state.rs:347-408 | On any input the list, or the failure, is a function of the graph and of the order its events are visited in; in one room it is the sort with fresh levels, or an error iff one of them cannot be read. |
| `IterativeAuth.IterativeAuthCheck` | crates/core/src/state.rs:684-804 | The nested loops are a fold of single checks over the list; the first error ends it. |
| `IterativeAuth.CheckEvent` | crates/core/src/state.rs:699-796 | Stores the event under its own key iff its auth types are known and the rules allow it given one map: at each auth type the accepted entry of the state, elsewhere the create event of the room ID or the last accepted citation. Fails iff the event is missing, it or an accepted citation has no state key, or the create event named is missing, with that error. |
| `IterativeAuth.AcceptsIff` | crates/core/src/state.rs:748-796 | The verdict computed is the rules' verdict on that map. |
| `IterativeAuth.FoundUnique` | crates/core/src/state.rs:704-774 | There is only one such map. |
| `IterativeAuth.CitedFailsIff` | crates/core/src/state.rs:704-720 | Collecting citations fails iff a citation fetched and not rejected has no state key. |
| `IterativeAuth.ReplayKeepsLastPassing` | crates/core/src/state.rs:699-803 | After a replay each key holds the last listed event of that key that passed against the state at its turn, or its initial entry if none passed. |
| `IterativeAuth.ReplayProvenance` | crates/core/src/state.rs:699-803 | No key is lost, and each entry is an initial one or a listed event under its own type and state key. |
| `IterativeAuth.CitedIsLastAccepted` | crates/core/src/state.rs:704-720 | What is cited under a key is the last fetched, not rejected auth event of that key; none if there is none. |
| `IterativeAuth.OverlayAt` | crates/core/src/state.rs:763-774 | At each auth type an accepted state entry overrides the cited event; all else is as cited. |
| `IterativeAuth.VerdictIsLocal` | crates/core/src/state.rs:749-796 | A verdict depends on the current state only at the event's auth types. |
| `IterativeAuth.ReplaySucceedsIff` | crates/core/src/state.rs:699-803 | Whether a replay fails depends on the listed events alone, never on states or verdicts. |
| `Mainline.BuildMainline` | crates/core/src/state.rs:851-873 | The one list that starts with the given event, in which each event is followed by the first power levels event it cites, and whose last event cites none; an error where there is no such list. |
| `Mainline.NextLevelsIff` | crates/core/src/state.rs:860-868 | The search through auth events gives the first power levels event if all before it can be fetched, none if all can and none is one, and otherwise the first that cannot be fetched. |
| `Mainline.ChainIff` | crates/core/src/state.rs:924-945 | The chain of an event is the one list of such links. |
| `Mainline.MainlinePosition` | crates/core/src/state.rs:963-1000 | The walk follows such links to the first event that has a number and gives that number, or finds the end of the chain and gives none, or meets an event that cannot be fetched and gives that error. |
| `Mainline.SpecPositionIs` | crates/core/src/state.rs:946-953 | A position is the place in the mainline of the first listed event that is on it, or none if none is. |
| `Mainline.WalkFindsPosition` | crates/core/src/state.rs:924-1000 | That number is the reversed specification position for every event off the mainline; an event on it is found itself. |
| `Mainline.KeyOrderIsWalkOrder` | crates/core/src/state.rs:874-919 | Ascending by (reversed position, timestamp, ID), none first, is descending by position, none last, on any events. |
| `Mainline.WalkListIsMainlineList` | crates/core/src/state.rs:806-832 | For events off the mainline the code's list is the one list in the specification's mainline ordering. |
| `Mainline.MainlineSort` | crates/core/src/state.rs:833-922 | The list is one function of the set of events and the power levels event, whatever order the map is iterated in: an error where the mainline cannot be built, else the events whose chain can be followed, by the positions the walk finds, on the mainline or off it. |
| `Mainline.MainlineOrderingUnique` | crates/core/src/state.rs:806-832 | The specified mainline ordering of a set of events is one list. |
| `Resolve.ResolveState` | crates/core/src/state.rs:83-238 | On any input the result is a function of the set of maps, the set of chains and the order the senders' levels are looked up in. Where all orders give the same levels no order shows, nor does it where the power events to sort are of one room. Unanimous pairs survive, maps without conflict give their common state, copies of one map give that map, a subgraph that cannot be fetched is an error, and a success leaves a trace of steps 1 to 4 that checks what is in dispute. |
| `Resolve.TraceChecksTheDispute` | crates/core/src/state.rs:134-227 | Step 1 lists exactly the power events in dispute and what they rest on in dispute, each once and after those it cites. Step 2 starts from nothing or from the agreed state, as the room version says. Step 3 lists exactly the rest that has a chain, by the mainline of the state's power levels event. |
| `Resolve.FullSetIsDisputed` | crates/core/src/state.rs:134-152 | In dispute is what can be fetched and is in some but not all auth chains, or the value of some key in some but not all states, or in the subgraph where the room version asks for it. |
| `Resolve.StepOneIsUnderPower` | crates/core/src/state.rs:157-171 | The graph of step 1 is what a path of citations in dispute leads to from a power event in dispute. |
| `Resolve.EntriesPassed` | crates/core/src/state.rs:164-227 | On any input each key ends with the last event of that key that passed its check in step 4, else with the last that passed in step 2, else with what it started with. |
| `Resolve.EntriesAreConflicted` | crates/core/src/state.rs:134-237 | On any input every resolved entry is unanimous or an event of the full conflicted set under its own type and state key. |
| `Resolve.RemainingOffMainline` | crates/core/src/state.rs:201-217 | No event left to step 3 is on the mainline: every power levels event was taken in step 1. |
| `Resolve.ListsPartitionConflicts` | crates/core/src/state.rs:157-217 | On any input where all chains can be followed, the two lists together hold each conflicted event exactly once. |
| `Resolve.PowerOrderTakesAll` | crates/core/src/state.rs:157-171 | The step 1 list has all power events of the conflicted set and nothing outside that set. |
| `Resolve.StepsSucceedIff` | crates/core/src/state.rs:164-227 | Exactly when steps 1 to 4 succeed: sender levels readable, listed events checkable, mainline buildable if needed. |
| `Conformance.SameStepOneIff` | crates/core/src/state.rs:1066-1091 | On any set: step 1 sorts the same graph by the code's and by the specification's definition of a power event iff each event that is one by only one of them is reached from one by the other. |
| `Conformance.SameStepOneIffCreatesReached` | crates/core/src/state.rs:1066-1091 | With ordinary state keys: iff every create event of the set is reached from a power event of the specification. |
| `Conformance.SameStepOneBeforeVersion12` | crates/core/src/state.rs:1066-1091 | Before version 12, for one room with one create event: iff that event is not in the set or the set has a power event of the specification. |
| `Conformance.SameStepOneFromVersion12` | crates/core/src/state.rs:1066-1091 | Where create events are not cited: iff the set has none. |
| `Conformance.CreateAloneChangesStepOne` | crates/core/src/state.rs:1066-1091 | A set where step 1 differs: a create event alone. |
| `Conformance.SharedListMeansSameStepOne` | crates/core/src/state.rs:157-171 | One list meets both definitions of step 1 only where the two sort the same graph. |
| `Conformance.StepsFollowSpecification` | crates/core/src/state.rs:154-227 | For well-keyed unconflicted state, the code's lists and states are the specification's for the code's power events, and no others are. |
| `Conformance.StepsMeetSpecification` | crates/core/src/state.rs:154-227 | On any set the code's lists and states are the specification's own, for its own power events, exactly where step 1 sorts the same graph. |
| `Conformance.ResolutionMeetsSpecification` | crates/core/src/state.rs:83-238 | On any set where step 1 sorts the same graph, one room or not, the resolution of all five steps is the one state the specification defines. |
| `CreateEvent.RoomResolutionIsSpecified` | crates/core/src/state.rs:83-238 | In one room, whether or not step 1 sorts the same graph, the resolution is the state the specification defines and never another. One exists where the other does, with two exact exceptions: the create event's level cannot be read, or the mainline that would place it cannot be built. |
| `CreateEvent.LastStatesAgree` | crates/core/src/state.rs:154-227 | Where the create event is sorted by the code in step 1 and by the specification in step 3, any two traces end in the same state. |
| `CreateEvent.BackgroundHasCreate` | crates/core/src/state.rs:704-747 | Every event of the room is checked against the create event whatever the state holds, through its citations or its room ID. |
| `CreateEvent.VerdictIgnoresCreate` | crates/core/src/state.rs:748-796 | So its verdict is the same in states that differ in the create entry only. |
| `CreateEvent.ReplayWithoutCreate` | crates/core/src/state.rs:684-804 | Leaving the create event out of a replay changes success and every entry but its own in nothing. |
| `CreateEvent.ApartLists` | crates/core/src/state.rs:347-408 | The code's list of step 1 is then the specified one with the create event put in somewhere, and exists where that does and the create event's level can be read. |
| `CreateEvent.MainlineListWithoutCreate` | crates/core/src/state.rs:806-832 | The mainline list of a set with the create event, that left out, is the mainline list of the rest. |
| `LoneCreateRooms.UnreadableLevelStopsTheCode` | crates/core/src/state.rs:582-656 | A room where the code fails and the specification does not: a create event with unreadable creators alone. |
| `LoneCreateRooms.MissingMainlineStopsTheSpecification` | crates/core/src/state.rs:843-848 | A room where the code succeeds, having nothing to order, and the specification has a mainline that cannot be fetched. |
| `Resolve.CollectFull` | crates/core/src/state.rs:134-152 | The conflicted state, the auth difference and the subgraph, restricted to events that can be fetched. |
| `Resolve.SelectPowerEvents` | crates/core/src/state.rs:157-162 | The power events of the conflicted set, whatever order it is iterated in. |
| `Resolve.ResolvePower` | crates/core/src/state.rs:164-195 | Steps 1 and 2: the specified list and its replay, with all power events taken. |
| `Resolve.ResolveRest` | crates/core/src/state.rs:201-227 | Steps 3 and 4: the replay of the mainline list of what is left. |
| `HtmlTree.Node.ParentAndIndex` | crates/core/src/html.rs:415-425 | With a well-linked parent the `expect` cannot fire; the index is the node's place among its siblings. |
| `HtmlTree.Node.Detach` | crates/core/src/html.rs:397-402 | The links of all nodes are those of the abstract detach. |
| `HtmlTree.Node.AppendChild` | crates/core/src/html.rs:407-412 | The links of all nodes are those of the abstract append, also when the child already was a child. |
| `HtmlTree.Node.InsertBeforeSibling` | crates/core/src/html.rs:430-439 | The links of all nodes are those of the abstract insertion; in a linked tree the node is directly before the sibling, under its parent, and every list is otherwise as before, without the node. |
| `HtmlForest.InsertBeforePlaces` | crates/core/src/html.rs:430-439 | The abstract insertion puts the node directly before the sibling and into no other list. |
| `HtmlForest.AppendPlacesLast` | crates/core/src/html.rs:407-412 | The abstract append puts the child last and into no other list; all else keeps its order. |
| `HtmlForest.DetachTakesOut` | crates/core/src/html.rs:397-402 | The abstract detach takes the node out of its list and changes nothing else. |
| `HtmlTree.Node.ReplaceWithElementName` | crates/core/src/html.rs:445-459 | The new element has the same attributes, the old node's place and all its children in order; the old node is left alone; no other link changes. |
| `HtmlTree.MoveChildren` | crates/core/src/html.rs:451-453 | Every child is moved, in order, although the iterator walks the list being emptied. |
| `HtmlTree.Children.Next` | crates/core/src/html.rs:582-590 | The iterator gives the node it holds and holds that node's next sibling, read before the caller can move it. |
| `HtmlTree.Node.NextSibling` | crates/core/src/html.rs:493-497 | The next node in the parent's list, if any. |
| `HtmlTree.ReparentChildren` | crates/core/src/html.rs:262-267 | All children go to the end of the new parent's list, in order, also when the two nodes are one. |
| `HtmlTree.Serialize` | crates/core/src/html.rs:532-564 | The recursion ends on a well-formed tree and writes its event stream. |
| `HtmlForest.StepWellFormed` | crates/core/src/html.rs:262-459 | Each operation keeps the forest well linked and free of cycles. |
| `HtmlForest.Run` | crates/core/src/html.rs:262-459 | So does every legal run of operations. |
| `HtmlForest.RunsKeepTreesLinked` | crates/core/src/html.rs:397-459 | After any legal run each node is listed once by the parent it points to and by no other node. |
| `HtmlForest.AppendWellFormed` | crates/core/src/html.rs:404-412 | Appending a child that may be moved gives a forest free of cycles, with ranks that show it. |
| `HtmlForest.AppendIff` | crates/core/src/html.rs:404-412 | Appending leaves the forest well formed iff the child is neither the new parent nor above it. |
| `HtmlForest.InsertBeforeIff` | crates/core/src/html.rs:427-439 | Inserting before a sibling does iff the node is neither the sibling's parent nor above it. |
| `HtmlForest.ReparentIff` | crates/core/src/html.rs:262-267 | Moving all children does iff none of them is the new parent or above it. |
| `HtmlForest.ReplaceWellFormed` | crates/core/src/html.rs:445-459 | Replacing a node keeps a forest well linked and free of cycles, for any node and new name. |
| `HtmlForest.ReplaceCompletes` | crates/core/src/html.rs:451-456 | Moving the children, inserting before the old node and detaching it is replacing it in place. |
| `HtmlStream.RenameChangesOnlyItsTags` | crates/core/src/html.rs:445-459 | The event stream of every subtree changes in nothing but the renamed element's start and end tag names. |
| `HtmlStream.StreamReadsBack` | crates/core/src/html.rs:532-564 | Start and end tags match, and reading the stream of any subtree gives back its elements, attributes and text as an algebraic tree. |
| `RateLimiter.Limiter.Check` | crates/server/src/hoops.rs:65-90 | Accepts exactly when one more request fits every window from an earlier check of that address; records the check; leaves all other addresses alone; a disabled limiter changes nothing. |
| `RateLimiter.BucketIsLeastSlack` | crates/server/src/hoops.rs:77-83 | After any history the bucket holds at least x exactly when every window has slack x and x fits the burst. |
| `RateLimiter.BucketDecidesByTheLaw` | crates/server/src/hoops.rs:77-83 | A check finds a whole token exactly when the window law allows one more request. |
| `RateLimiter.NoWindowExceedsAllowance` | crates/server/src/hoops.rs:65-90 | In no interval of time, starting and ending anywhere, do the accepted requests of a history the limiter answered exceed burst plus rate times length. |
| `RateLimiter.VisitsFitAllowance` | crates/server/src/hoops.rs:65-90 | Between any two checks of that history they fit the length from the one to the other. |
| `RateLimiter.RejectedVisitsDoNotCount` | crates/server/src/hoops.rs:65-90 | Striking rejected checks from a history changes no later decision. |
| `RateLimiter.Consume` | crates/server/src/hoops.rs:73-89 | One refill and try on a bucket answers by the law and leaves the bucket its history calls for. |
| `LikePattern.EscapeLikePattern` | crates/data/src/user.rs:824-835 | The loop escapes percent, underscore and backslash and nothing else. |
| `LikePattern.EscapedMatchesLiterally` | crates/data/src/user.rs:824-835 | Followed by any pattern, an escaped name matches exactly the strings that start with the name and go on with that pattern. |
| `LikePattern.PatternMatchesContaining` | crates/data/src/user.rs:843-848 | The pattern matches exactly the strings that contain the name as it is. |
| `LikePattern.FilterMatchesContaining` | crates/data/src/user.rs:843-848 | The same up to case folding, also where folding changes the length of the string, and the pattern is never an error to the database. |
| `QuotedString.UnescapeString` | crates/core/src/http_headers.rs:104-113 | The loop drops each backslash that is not itself escaped. |
| `QuotedString.UnescapeMeans` | crates/core/src/http_headers.rs:104-113 | Exactly the backslashes are dropped that an even number of backslashes comes before. |
| `QuotedString.ChainedReplacesAreOnePass` | crates/core/src/http_headers.rs:94-101 | The two chained replacements are one pass of escaping. |
| `QuotedString.UnescapeUndoesEscape` | crates/core/src/http_headers.rs:94-113 | Unescaping what was escaped gives back every string. |
| `QuotedString.ClosingQuoteIsFirst` | crates/core/src/http_headers/content_disposition.rs:288-315 | The first quote not escaped is the closing one, whatever follows. |
| `QuotedString.ParseParamValue` | crates/core/src/http_headers/content_disposition.rs:280-339 | The scanner computes the value, whether it was quoted and where reading goes on, or the error. |
| `QuotedString.QuotedValueEnds` | crates/core/src/http_headers/content_disposition.rs:288-320 | A quoted value ends at the first quote that an even number of backslashes comes before, or with the text. |
| `QuotedString.PlainValueEnds` | crates/core/src/http_headers/content_disposition.rs:299-315 | Another value ends before the first space or semicolon, or with the text. |
| `QuotedString.AfterValueMeans` | crates/core/src/http_headers/content_disposition.rs:322-336 | After spaces comes the end or a semicolon; anything else is an error. |
| `QuotedString.UnclosedValueReadsToTheEnd` | crates/core/src/http_headers/content_disposition.rs:299-320 | A quote never closed is closed by the end of the text. |
| `QuotedString.MissingSeparatorStops` | crates/core/src/http_headers/content_disposition.rs:322-336 | Without a separator after it a value is lost, and reading stops. |
| `QuotedString.LeadingSpacesAreSkipped` | crates/core/src/http_headers/content_disposition.rs:216-224 | Spaces before a value are skipped; with nothing after them there is no value. |
| `QuotedString.QuotedValueReadsBack` | crates/core/src/http_headers.rs:94-113 | Every string, quoted if required and followed by the end or a separator, is read back as it was. |
| `QuotedString.SanitizedQuoteIsWellFormed` | crates/core/src/http_headers.rs:74-101 | A sanitized value is written as a token or as a quoted string of section 5.6.4 of RFC 9110. |
| `QuotedString.SanitizedIsQuotable` | crates/core/src/http_headers.rs:74-85 | Sanitizing leaves only characters a quoted string may hold, and changes nothing if they all were. |
| `QuotedString.SanitizeMeans` | crates/core/src/http_headers.rs:74-85 | Sanitizing keeps tabs, spaces and visible characters, in order, and nothing else. |
| `QuotedString.QuotedOnlyIfRequired` | crates/core/src/http_headers.rs:94-101 | A value is left as it is iff it is a token and not empty; otherwise it is put in quotes. |
| `QuotedString.TcharMeans` | crates/core/src/http_headers.rs:16-35 | The token characters are the visible characters that section 5.6.2 of RFC 9110 does not list as delimiters. |
| `SigningKeys.AddFromOrigin` | crates/server/src/global.rs:295-329 | The loop moves each current key the origin no longer lists to the old keys, then takes over the origin's. |
| `SigningKeys.MergeForStorage` | crates/server/src/server_key.rs:28-44 | Keys and signatures of both records together; the later validity bound. |
| `SigningKeys.FirstRecordIsAsReceived` | crates/server/src/global.rs:275-329 | The first record of a server is stored as received, wherever it comes from. |
| `SigningKeys.KnownStaysKnown` | crates/server/src/server_key.rs:141-143 | Over any run of updates a known key ID stays known. |
| `SigningKeys.EveryKeyWasPublished` | crates/server/src/global.rs:275-329 | Every key of the record was published under its ID by some update of the run. |
| `SigningKeys.OriginDecidesCurrentKeys` | crates/server/src/global.rs:295-329 | After any run that ends in a refresh from the origin, the current keys and the validity bound are the origin's. |
| `SigningKeys.WithdrawnStaysRetired` | crates/server/src/global.rs:310-321 | A key the origin withdraws is retired at the previous validity bound, or when the origin says. Over any run it keeps an entry with the expiry recorded last, and is current again iff it is relisted. |
| `SigningKeys.WithdrawnAcceptedIff` | crates/server/src/global.rs:361-395 | After any run a withdrawn key is accepted for a time iff the record is usable then and the time is before the expiry recorded last, or the key was relisted. |
| `SigningKeys.WithdrawnAcceptedOnlyBeforeExpiry` | crates/server/src/global.rs:361-395 | After any run it is accepted only before that expiry iff it was not relisted or the record runs out by then. |
| `SigningKeys.RelistedKeyOutlivesItsExpiry` | crates/server/src/global.rs:275-293 | A run where a trusted server relists a withdrawn key, which is then accepted after its recorded expiry. |
| `SigningKeys.UnlistedKeepsLatest` | crates/server/src/global.rs:275-329 | While no update lists the key as current, the expiry recorded is the one supplied last. |
| `SigningKeys.CurrentAgainIff` | crates/server/src/global.rs:275-329 | A key that is not current becomes so again iff some update, from whatever source, lists it and no later refresh from the origin leaves it out. |
| `SigningKeys.CurrentKeyIsLatestListed` | crates/server/src/global.rs:275-329 | Over any run, the current key under an ID is the one listed as current most recently, whoever listed it. |
| `SigningKeys.ValidSinceLastRefresh` | crates/server/src/server_key.rs:28-44 | After any run the record is valid until the largest bound seen since a server last refreshed it. |
| `SigningKeys.LookupsDiffer` | crates/server/src/server_key.rs:122-139 | A run after which the two look-ups of one ID give different keys: a withdrawn key is listed again with another value. |
| `SigningKeys.StorageKeepsSignatures` | crates/server/src/server_key.rs:28-44 | Over any run no signature is dropped, and each is the one a storage merge supplied last. |
| `SigningKeys.StorageAddsSignatures` | crates/server/src/server_key.rs:28-44 | A storage merge takes over every signature it is given, and the record stays that of its server. |
| `Directory.GetLocalPublicRooms` | crates/server/src/directory.rs:43-174 | The page for a request: token parsing and its errors, the matching rooms sorted, the slice, the tokens. |
| `Directory.CollectedIff` | crates/server/src/directory.rs:74-145 | A room is collected exactly when it is one of the public rooms, can be described and matches the search. |
| `Directory.CollectedConcat` | crates/server/src/directory.rs:74-145 | Each room is described and matched on its own, and the order of the listing is kept. |
| `Directory.TokenReadsBack` | crates/server/src/directory.rs:49-68 | Each token is read back as the number it was written for, a `p` token less the limit. |
| `Directory.SinceIsRefusedIff` | crates/server/src/directory.rs:49-68 | A request is refused iff its token is not `n` or `p` and a 64-bit numeral. |
| `Directory.PageMeans` | crates/server/src/directory.rs:149-174 | Which rooms a page shows, when it has a previous and a next token, and the total. |
| `Directory.TokensCarryTheWalk` | crates/server/src/directory.rs:149-174 | Following tokens is the walk by start numbers. |
| `Directory.PagingEndsIff` | crates/server/src/directory.rs:149-174 | Following next tokens ends iff the limit is at least 1, and then the pages together are the list. |
| `Directory.PagesAreTheSortedDirectory` | crates/server/src/directory.rs:147-174 | The pages together have every room once, most members first, ties in the order they were listed. |
| `Directory.PrevUndoesNext` | crates/server/src/directory.rs:157-167 | The previous token of the page a next token leads to leads back to the same page. |
| `Directory.SortIsStable` | crates/server/src/directory.rs:147 | Rooms with equal member counts keep their order. |

## Left out

- Conformance.StepsMeetSpecification: leaves out, as the code does, events whose chain of power levels events cannot be fetched, which the specification does not consider.
- Resolve.ResolveState: does not fix which error is returned when several events are bad, because that depends on hash iteration in the code.
- RateLimiter.Limiter.Check: does not model `f64` rounding, a configuration that changes between checks, or the mutex, under which checks happen one after the other.
- LikePattern.FilterMatchesContaining: case folding goes character by character, so foldings that look at the characters around are not covered.
- HtmlTree.Node.InsertBeforeSibling: requires a sibling that is another node and has a parent, as the code panics otherwise; a node inserted before itself is detached first and then has no parent.
- HtmlTree.Node.ReplaceWithElementName: requires an element with a parent, as the code panics otherwise.
- HtmlForest.StepWellFormed: requires that a node is not moved below itself, which the code does not check either; `AppendIff`, `InsertBeforeIff` and `ReparentIff` say that this is exactly what it takes.
- HtmlTree.Serialize: writes the stream of events; escaping text is the serializer's.
- Weak parent links and the freeing of nodes: the model's nodes live for ever.
- The rest of the HTML parser's tree sink (merging of adjacent text, doctypes, foster parenting) and the sanitizer.
- The bodies of the authorization rules, event signatures and canonical JSON.
- `SigningKeys`: `extend`-only updates are functions; the database rows they are read from and written to are left out.
- Building a directory entry for a room and matching it with a search term: any function and any predicate.
- Parameter names, disposition types and RFC 8187 values of the Content-Disposition header.
- Database queries, HTTP routing, federation requests, configuration, push rules, media, identifier validation: plumbing, or easy to settle by reading.
