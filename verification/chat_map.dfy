/**
 The session registry of chat/map.go, stripped of its worker pool, channel and
 read/write lock: a finite map from session ids to sessions, with pure
 functions for Set, Get and Close and the three read-only traversals.

 A stored value is always a present session: absence from the map is what a
 nil `*Session` means to Get, and a stored nil would crash every traversal.
 */
module ChatMap {
  import opened Wrappers
  import opened Sessions

  /** The `Sessions` table of the Go `Map`. */
  type Registry = map<string, Session>

  /** The table NewMap starts with. */
  function Empty(): (r: Registry)
    ensures forall id :: Get(r, id) == None
  {
    map[]
  }

  /** Inserts or replaces the session stored under `id`. */
  function Set(m: Registry, id: string, s: Session): (r: Registry)
    ensures Get(r, id) == Some(s)
    ensures forall k :: k != id ==> Get(r, k) == Get(m, k)
    ensures r.Keys == m.Keys + {id}
  {
    m[id := s]
  }

  /** Looks `id` up; `None` is the nil pointer a Go map yields for a missing key. */
  function Get(m: Registry, id: string): (r: Option<Session>)
    ensures r.Some? <==> id in m
    ensures r.Some? ==> r.value == m[id]
  {
    if id in m then Some(m[id]) else None
  }

  /** Deletes the session stored under `id`; a no-op when there is none. */
  function Close(m: Registry, id: string): (r: Registry)
    ensures Get(r, id) == None
    ensures forall k :: k != id ==> Get(r, k) == Get(m, k)
    ensures id !in m ==> r == m
    ensures |r| == if id in m then |m| - 1 else |m|
  {
    var r := m - {id};
    assert r.Keys == m.Keys - {id};
    r
  }

  // ---------------------------------------------------------------------------
  // Specification of the traversals: which keys each one selects, and the set
  // of `ID` fields it collects from the selected sessions.

  /** Keys among `keys` whose session is ready. */
  function ReadyAmong(m: Registry, keys: set<string>): set<string>
    requires keys <= m.Keys
  {
    set k | k in keys && m[k].isReady
  }

  /** Keys among `keys` whose session is ready and lives in `region`. */
  function RegionReadyAmong(m: Registry, keys: set<string>, region: string): set<string>
    requires keys <= m.Keys
  {
    set k | k in keys && m[k].region == region && m[k].isReady
  }

  /** Keys among `keys` whose session holds a room. */
  function ChattingAmong(m: Registry, keys: set<string>): set<string>
    requires keys <= m.Keys
  {
    set k | k in keys && m[k].IsChatting()
  }

  /** The `ID` fields of the sessions stored under `keys` (not the keys). */
  function IdsOf(m: Registry, keys: set<string>): set<string>
    requires keys <= m.Keys
  {
    set k | k in keys :: m[k].id
  }

  /** Ids of all ready sessions. */
  function ReadyIds(m: Registry): set<string> {
    IdsOf(m, ReadyAmong(m, m.Keys))
  }

  /** Ids of the ready sessions of one region. */
  function ReadyIdsInRegion(m: Registry, region: string): set<string> {
    IdsOf(m, RegionReadyAmong(m, m.Keys, region))
  }

  /** Number of stored sessions that are ready. */
  function ReadyCount(m: Registry): (n: nat)
    ensures n <= |m|
  {
    SubsetCard(ReadyAmong(m, m.Keys), m.Keys);
    |ReadyAmong(m, m.Keys)|
  }

  /** Number of stored sessions that hold a room. */
  function ChattingCount(m: Registry): (n: nat)
    ensures n <= |m|
  {
    SubsetCard(ChattingAmong(m, m.Keys), m.Keys);
    |ChattingAmong(m, m.Keys)|
  }

  /** Every stored session's `ID` equals the key it is stored under. */
  predicate KeyedById(m: Registry) {
    forall k :: k in m ==> m[k].id == k
  }

  lemma {:induction false} SubsetCard(a: set<string>, b: set<string>)
    requires a <= b
    ensures |a| <= |b|
    decreases b
  {
    if b != {} {
      var x :| x in b;
      SubsetCard(a - {x}, b - {x});
    }
  }

  // ---------------------------------------------------------------------------
  // The traversals as written: one pass over the keys in unspecified (Go map)
  // order, reading the session under each key.

  // One step of a traversal: visiting a fresh key grows each filter by that
  // key exactly when its session passes the filter.

  lemma ReadyStep(m: Registry, seen: set<string>, k: string)
    requires seen <= m.Keys && k in m && k !in seen
    ensures ReadyAmong(m, seen + {k}) == ReadyAmong(m, seen) + (if m[k].isReady then {k} else {})
    ensures k !in ReadyAmong(m, seen)
  {
  }

  lemma RegionReadyStep(m: Registry, seen: set<string>, k: string, region: string)
    requires seen <= m.Keys && k in m && k !in seen
    ensures RegionReadyAmong(m, seen + {k}, region)
         == RegionReadyAmong(m, seen, region) + (if m[k].region == region && m[k].isReady then {k} else {})
  {
  }

  lemma ChattingStep(m: Registry, seen: set<string>, k: string)
    requires seen <= m.Keys && k in m && k !in seen
    ensures ChattingAmong(m, seen + {k}) == ChattingAmong(m, seen) + (if m[k].IsChatting() then {k} else {})
    ensures k !in ChattingAmong(m, seen)
  {
  }

  /** GetReadyIds: the ids of exactly the ready sessions. */
  method GetReadyIds(m: Registry) returns (ids: set<string>)
    ensures forall id :: id in ids <==> exists k :: k in m && m[k].isReady && m[k].id == id
    ensures ids == ReadyIds(m)
  {
    ids := {};
    var todo := m.Keys;
    while todo != {}
      invariant todo <= m.Keys
      invariant ids == IdsOf(m, ReadyAmong(m, m.Keys - todo))
      decreases todo
    {
      var k :| k in todo;
      ReadyStep(m, m.Keys - todo, k);
      assert m.Keys - (todo - {k}) == (m.Keys - todo) + {k};
      if m[k].isReady {
        ids := ids + {m[k].id};
      }
      todo := todo - {k};
    }
    assert m.Keys - todo == m.Keys;
  }

  /** GetReadyIdsByRegion: the ids of exactly the ready sessions of `region`. */
  method GetReadyIdsByRegion(m: Registry, region: string) returns (ids: set<string>)
    ensures forall id :: id in ids <==>
      exists k :: k in m && m[k].region == region && m[k].isReady && m[k].id == id
    ensures ids == ReadyIdsInRegion(m, region)
  {
    ids := {};
    var todo := m.Keys;
    while todo != {}
      invariant todo <= m.Keys
      invariant ids == IdsOf(m, RegionReadyAmong(m, m.Keys - todo, region))
      decreases todo
    {
      var k :| k in todo;
      RegionReadyStep(m, m.Keys - todo, k, region);
      assert m.Keys - (todo - {k}) == (m.Keys - todo) + {k};
      if m[k].region == region && m[k].isReady {
        ids := ids + {m[k].id};
      }
      todo := todo - {k};
    }
    assert m.Keys - todo == m.Keys;
  }

  /** GetNumberOfReadyAndChatting: both counts in one pass over one snapshot. */
  method GetNumberOfReadyAndChatting(m: Registry) returns (ready: nat, chatting: nat)
    ensures ready == |set k | k in m && m[k].isReady|
    ensures chatting == |set k | k in m && m[k].IsChatting()|
    ensures ready == ReadyCount(m) && chatting == ChattingCount(m)
    ensures ready <= |m| && chatting <= |m|
  {
    ready, chatting := 0, 0;
    var todo := m.Keys;
    while todo != {}
      invariant todo <= m.Keys
      invariant ready == |ReadyAmong(m, m.Keys - todo)|
      invariant chatting == |ChattingAmong(m, m.Keys - todo)|
      decreases todo
    {
      var k :| k in todo;
      ReadyStep(m, m.Keys - todo, k);
      ChattingStep(m, m.Keys - todo, k);
      assert m.Keys - (todo - {k}) == (m.Keys - todo) + {k};
      if m[k].isReady {
        ready := ready + 1;
      }
      if m[k].IsChatting() {
        chatting := chatting + 1;
      }
      todo := todo - {k};
    }
    assert m.Keys - todo == m.Keys;
  }
}
