/**
 Properties relating the registry's operations to each other: last write wins,
 Close undoes Set, and the consequences of the queries collecting each
 session's `ID` field rather than its key.
 */
module ChatMapProperties {
  import opened Wrappers
  import opened Sessions
  import opened ChatMap

  /** Of two Sets to one id, the later one wins outright. */
  lemma SetLastWriteWins(m: Registry, id: string, a: Session, b: Session)
    ensures Set(Set(m, id, a), id, b) == Set(m, id, b)
  {
  }

  /** Writes to different ids commute. */
  lemma WritesToDistinctIdsCommute(m: Registry, a: string, b: string, s: Session, t: Session)
    requires a != b
    ensures Set(Set(m, a, s), b, t) == Set(Set(m, b, t), a, s)
    ensures Close(Set(m, a, s), b) == Set(Close(m, b), a, s)
  {
  }

  /** Close after Set restores the table exactly when the id was absent. */
  lemma CloseUndoesSet(m: Registry, id: string, s: Session)
    ensures Close(Set(m, id, s), id) == Close(m, id)
    ensures id !in m ==> Close(Set(m, id, s), id) == m
  {
  }

  /** Closing twice is the same as closing once. */
  lemma CloseIdempotent(m: Registry, id: string)
    ensures Close(Close(m, id), id) == Close(m, id)
  {
  }

  /** Set keeps the key/ID invariant when the session carries the id it is
      stored under; Close always keeps it. */
  lemma WritesKeepKeyedById(m: Registry, id: string, s: Session)
    requires KeyedById(m)
    ensures s.id == id ==> KeyedById(Set(m, id, s))
    ensures KeyedById(Close(m, id))
  {
  }

  /** Under the invariant the ready ids are exactly the ready keys. */
  lemma KeyedReadyIdsAreKeys(m: Registry)
    requires KeyedById(m)
    ensures ReadyIds(m) == ReadyAmong(m, m.Keys)
  {
    IdsOfKeyed(m, ReadyAmong(m, m.Keys));
  }

  /** Under the invariant the ready ids of a region are exactly its ready keys. */
  lemma KeyedRegionIdsAreKeys(m: Registry, region: string)
    requires KeyedById(m)
    ensures ReadyIdsInRegion(m, region) == RegionReadyAmong(m, m.Keys, region)
  {
    IdsOfKeyed(m, RegionReadyAmong(m, m.Keys, region));
  }

  lemma IdsOfKeyed(m: Registry, keys: set<string>)
    requires KeyedById(m) && keys <= m.Keys
    ensures IdsOf(m, keys) == keys
  {
    forall k | k in keys ensures k in IdsOf(m, keys) {
      assert m[k].id == k;
    }
  }

  /** Collecting ids never yields more ids than keys visited. */
  lemma {:induction false} IdsOfCard(m: Registry, keys: set<string>)
    requires keys <= m.Keys
    ensures |IdsOf(m, keys)| <= |keys|
    decreases keys
  {
    if keys != {} {
      var k :| k in keys;
      var rest := keys - {k};
      IdsOfCard(m, rest);
      assert IdsOf(m, keys) == IdsOf(m, rest) + {m[k].id};
    }
  }

  /** The ready count bounds the number of ready ids, and matches it under the
      key/ID invariant. */
  lemma ReadyCountMatchesReadyIds(m: Registry)
    ensures |ReadyIds(m)| <= ReadyCount(m)
    ensures KeyedById(m) ==> |ReadyIds(m)| == ReadyCount(m)
  {
    IdsOfCard(m, ReadyAmong(m, m.Keys));
    if KeyedById(m) {
      KeyedReadyIdsAreKeys(m);
    }
  }

  /** Without the invariant the equality fails: two keys holding sessions with
      one `ID` are counted twice but collected once. */
  lemma ReadyCountExceedsIdsWhenKeysDiffer()
    ensures var s := Session("x", "uk", true, None);
            var m := map["a" := s, "b" := s];
            !KeyedById(m) && ReadyCount(m) == 2 && |ReadyIds(m)| == 1
  {
    var s := Session("x", "uk", true, None);
    var m := map["a" := s, "b" := s];
    assert ReadyAmong(m, m.Keys) == {"a", "b"};
    assert ReadyIds(m) == {"x"};
  }

  /** A regional query never returns an id the global query would not. */
  lemma ReadyIdsInRegionSubset(m: Registry, region: string)
    ensures ReadyIdsInRegion(m, region) <= ReadyIds(m)
  {
  }

  /** Every ready id belongs to the regional query of some region. */
  lemma ReadyIdsCoveredByRegions(m: Registry, id: string)
    requires id in ReadyIds(m)
    ensures exists region :: id in ReadyIdsInRegion(m, region)
  {
    var k :| k in ReadyAmong(m, m.Keys) && m[k].id == id;
    assert k in RegionReadyAmong(m, m.Keys, m[k].region);
    assert id in ReadyIdsInRegion(m, m[k].region);
  }

  /** Under the invariant, the regional queries of different regions never
      share an id. */
  lemma RegionsDisjoint(m: Registry, r1: string, r2: string)
    requires KeyedById(m) && r1 != r2
    ensures ReadyIdsInRegion(m, r1) !! ReadyIdsInRegion(m, r2)
  {
    KeyedRegionIdsAreKeys(m, r1);
    KeyedRegionIdsAreKeys(m, r2);
  }

  /** Close drops the closed key from the ready keys, so the ready count
      falls by one exactly when that key held a ready session. */
  lemma CloseLowersReadyCount(m: Registry, id: string)
    ensures ReadyAmong(Close(m, id), Close(m, id).Keys) == ReadyAmong(m, m.Keys) - {id}
    ensures ReadyCount(Close(m, id)) == if id in m && m[id].isReady then ReadyCount(m) - 1 else ReadyCount(m)
  {
    var c := Close(m, id);
    assert c == m - {id} && c.Keys == m.Keys - {id};
    assert ReadyAmong(c, c.Keys) == ReadyAmong(m, m.Keys) - {id};
  }

  /** Under the invariant a closed id disappears from the ready ids and
      nothing else does. */
  lemma CloseRemovesFromReadyIds(m: Registry, id: string)
    requires KeyedById(m)
    ensures ReadyIds(Close(m, id)) == ReadyIds(m) - {id}
  {
    var c := Close(m, id);
    WritesKeepKeyedById(m, id, Session(id, "", false, None));
    KeyedReadyIdsAreKeys(m);
    KeyedReadyIdsAreKeys(c);
    CloseLowersReadyCount(m, id);
  }

  /** The ready keys after a Set: the written key's membership is replaced. */
  lemma SetUpdatesReadyKeys(m: Registry, id: string, s: Session)
    ensures ReadyAmong(m[id := s], m.Keys + {id})
         == (ReadyAmong(m, m.Keys) - {id}) + (if s.isReady then {id} else {})
  {
  }

  /** Under the invariant a Set of a session carrying its own id replaces
      exactly that id's membership in the ready ids. */
  lemma SetUpdatesReadyIds(m: Registry, s: Session)
    requires KeyedById(m)
    ensures ReadyIds(Set(m, s.id, s)) == (ReadyIds(m) - {s.id}) + (if s.isReady then {s.id} else {})
  {
    var u := Set(m, s.id, s);
    assert u == m[s.id := s] && u.Keys == m.Keys + {s.id};
    WritesKeepKeyedById(m, s.id, s);
    KeyedReadyIdsAreKeys(m);
    KeyedReadyIdsAreKeys(u);
    SetUpdatesReadyKeys(m, s.id, s);
  }
}
