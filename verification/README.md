# Session registry of taillachat, in Dafny

This project models the session registry of `chat/map.go`. The registry is a
shared table from session ids to chat sessions. Matchmaking and monitoring read
three derived views of it:

- the ids of the sessions that are ready to chat;
- the same ids restricted to one region;
- the number of ready sessions and of chatting sessions, the chatting ones
  being those that hold a room.

In Go, every call is a closure handed to a worker pool. `Action` runs it under
the write lock and `RAction` under the read lock, and the caller blocks until
it has run. Taken one call at a time, that is plain function application, so
the model is sequential:

- `wrappers.dfy`: `Option`, standing in for a pointer that may be nil.
- `session.dfy`: the `Session` record, reduced to the four fields the registry
  reads: `ID`, `Region`, `IsReady` and `Room`. `Room` is modelled as an optional
  opaque name.
- `chat_map.dfy` (module `ChatMap`): the table `map<string, Session>` with pure
  `Set`, `Get` and `Close`. The queries are specified as set comprehensions.
  The Go range loops are methods, and their loop invariants prove that they
  compute exactly those sets and counts.
- `chat_map_properties.dfy` (module `ChatMapProperties`): how the operations
  relate to each other. Last write wins, `Close` undoes `Set`, and the queries
  collect each session's `ID` field, not its key. The relation between the ready
  count and the ready-id set therefore holds only under the invariant
  `KeyedById`: every stored session's `ID` equals its key.
- `chat_actions.dfy` (module `ChatActions`): each public call becomes an
  operation tagged `Exclusive` (through `Action`) or `Shared` (through
  `RAction`). A history of completed calls is a sequence of operations applied
  in order. It proves that shared calls never change the table, that last
  writer wins over any history, and the matchmaking scenario (A and B in "uk",
  C in "us").

A stored value is always a present session. A missing key is what a nil
`*Session` means to `Get`.

## Model

| member | source | states |
|---|---|---|
| ChatMap.Empty | chat/map.go:18-22 | a new registry holds no session: Get of every id is absent |
| ChatMap.Set | chat/map.go:36-40 | after Set(id, s), Get(id) is s; every other id reads as before; the key set gains id |
| ChatMap.Get | chat/map.go:43-48 | Get yields a session exactly when the id is stored, and then the stored one; absent (nil) otherwise |
| ChatMap.Close | chat/map.go:98-102 | after Close(id), Get(id) is absent and every other id reads as before; closing an absent id leaves the table exactly as it was; the size drops by one only when id was stored |
| ChatMap.GetReadyIds | chat/map.go:66-78 | the one-pass traversal returns an id exactly when some stored session is ready and has that ID |
| ChatMap.GetReadyIdsByRegion | chat/map.go:51-63 | the traversal returns an id exactly when some stored session of that region is ready and has that ID |
| ChatMap.GetNumberOfReadyAndChatting | chat/map.go:81-95 | one pass yields the number of ready sessions and the number holding a room; both are at most the table's size |
| ChatMapProperties.SetLastWriteWins | chat/map.go:36-40 | of two Sets to one id, the later one alone determines the table (Get after Set itself is part of Set's contract) |
| ChatMapProperties.WritesToDistinctIdsCommute | chat/map.go:36-40 | Sets to different ids commute, and so do a Set and a Close of different ids |
| ChatMapProperties.CloseUndoesSet | chat/map.go:98-102 | Close after Set of the same id leaves what Close alone leaves, and restores the table when id was absent before |
| ChatMapProperties.CloseIdempotent | chat/map.go:98-102 | closing an id twice is the same as closing it once |
| ChatMapProperties.WritesKeepKeyedById | chat/map.go:36-40 | Set of a session under its own ID, and any Close, preserve the invariant that every stored ID equals its key |
| ChatMapProperties.KeyedReadyIdsAreKeys | chat/map.go:66-78 | under the key/ID invariant the collected ready ids are exactly the keys of the ready sessions |
| ChatMapProperties.KeyedRegionIdsAreKeys | chat/map.go:51-63 | under the key/ID invariant the ready ids of a region are exactly the keys of its ready sessions |
| ChatMapProperties.ReadyCountMatchesReadyIds | chat/map.go:81-95 | the ready count is never below the number of ready ids, and equals it under the key/ID invariant |
| ChatMapProperties.ReadyCountExceedsIdsWhenKeysDiffer | chat/map.go:70-74 | without the invariant, two keys holding sessions with one ID give ready count 2 but only one ready id |
| ChatMapProperties.ReadyIdsInRegionSubset | chat/map.go:51-63 | the ready ids of any region are a subset of all ready ids |
| ChatMapProperties.ReadyIdsCoveredByRegions | chat/map.go:54-74 | every ready id is returned by the regional query of some region |
| ChatMapProperties.RegionsDisjoint | chat/map.go:51-63 | under the key/ID invariant, the ready ids of two different regions are disjoint |
| ChatMapProperties.CloseLowersReadyCount | chat/map.go:98-102 | for every table, Close(id) removes exactly id from the ready keys, and lowers the ready count by one exactly when id was stored and ready |
| ChatMapProperties.CloseRemovesFromReadyIds | chat/map.go:98-102 | under the key/ID invariant Close(id) removes exactly id from the ready ids and nothing else |
| ChatMapProperties.SetUpdatesReadyIds | chat/map.go:36-40 | under the key/ID invariant, Set of a session under its ID replaces only that id's membership in the ready ids, following the session's IsReady |
| ChatActions.Apply | chat/map.go:104-128 | a call run through RAction (every query) returns the table unchanged; a call leaves every id it does not write reading as before; only writes reply with nothing |
| ChatActions.LastWrite | chat/map.go:36-102 | finds a write to id in the history with no later write to id after it, or reports that the history never writes id |
| ChatActions.WritesAreTheExclusiveCalls | chat/map.go:104-128 | a call is in the writes of a history exactly when it is in the history and goes through Action (is exclusive) |
| ChatActions.LastWriterWins | chat/map.go:36-102 | after any history, Get(id) is the latest Set to id, absent if the latest write was Close, and the starting value if the history never wrote id |
| ChatActions.ReadsDoNotChangeTable | chat/map.go:117-128 | a history has the same effect on the table as its writes alone |
| ChatActions.RunKeepsKeyedById | chat/map.go:36-102 | a history whose Sets store each session under its own ID keeps the key/ID invariant |
| ChatActions.ScenarioReadyIds | chat/map.go:51-78 | with A (uk, ready), B (uk, not ready) and C (us, ready) registered, the "uk" ready ids are {A} and all ready ids are {A, C} |
| ChatActions.ScenarioPairedCounts | chat/map.go:81-95 | once A holds a room, two sessions are ready and one is chatting |
| ChatActions.ScenarioClosed | chat/map.go:98-102 | after Close("A"), Get("A") is absent and the ready ids are {C} |

## Left out

- The worker pool, the action channel and the read/write lock of `NewMap`, `Action` and `RAction` (chat/map.go:18-33, chat/map.go:104-128) are not modelled. Their purpose is concurrency, and sequentially each call is one atomic function application. `ChatActions` keeps only the exclusive/shared tag of each call.
- The number of workers (`runtime.NumCPU`) is not modelled. It affects only scheduling.
- Go map iteration order is not modelled. The loop methods visit keys in an arbitrary order, and every result is a set or a count.
- Sessions are immutable values. In Go, a collaborator holding a `*Session` can change `IsReady` or `Room` outside the lock. In the model, such a change has to be a new `Set`.
- `Set(id, nil)` is not modelled. Go would store the nil, and the next traversal would dereference it and crash. The model stores only present sessions.
- `Set` does not require the session's `ID` to equal `id`, because the Go code does not check it. Properties that depend on this carry `KeyedById` as an explicit hypothesis.
- The queries return Go `map[string]bool` values whose entries are all `true`. They are modelled as `set<string>`.
- The counts are Go `int`, modelled as unbounded `nat`. Both are at most the table's size, so 64-bit wrap-around cannot occur.
- The `Session` and `Room` types are declared outside chat/map.go and are not part of this model beyond the four fields the registry reads.
- api/index.go is not modelled. It is an HTTP handler rendering templates: I/O and presentation only.
