/**
 The registry's public calls as units of work. In chat/map.go every call hands
 a closure to Action (exclusive lock) or RAction (shared lock) and blocks until
 it has run; sequentially that is plain function application, so a history of
 completed calls is a sequence of operations applied in order.
 */
module ChatActions {
  import opened Wrappers
  import opened Sessions
  import opened ChatMap
  import opened ChatMapProperties

  /** One public call of the registry, with its arguments. */
  datatype Op =
    | SetOp(key: string, session: Session)
    | CloseOp(key: string)
    | GetOp(key: string)
    | ReadyIdsOp
    | ReadyIdsByRegionOp(region: string)
    | CountOp

  /** Which submission primitive a call goes through. */
  datatype Access = Exclusive | Shared

  /** What a call hands back to its caller. */
  datatype Reply =
    | Done
    | Found(session: Option<Session>)
    | Ids(ids: set<string>)
    | Counts(ready: nat, chatting: nat)

  /** Set and Close submit through Action; every query through RAction. */
  function AccessOf(op: Op): Access {
    match op
    case SetOp(_, _) => Exclusive
    case CloseOp(_) => Exclusive
    case _ => Shared
  }

  /** True when `op` is a write to `id`. */
  predicate WritesKey(op: Op, id: string) {
    (op.SetOp? || op.CloseOp?) && op.key == id
  }

  /** Runs one call against the table: the table afterwards and the reply. */
  function Apply(m: Registry, op: Op): (res: (Registry, Reply))
    ensures AccessOf(op) == Shared ==> res.0 == m
    ensures forall id :: !WritesKey(op, id) ==> Get(res.0, id) == Get(m, id)
    ensures res.1.Done? <==> AccessOf(op) == Exclusive
  {
    match op
    case SetOp(id, s) => (Set(m, id, s), Done)
    case CloseOp(id) => (Close(m, id), Done)
    case GetOp(id) => (m, Found(Get(m, id)))
    case ReadyIdsOp => (m, Ids(ReadyIds(m)))
    case ReadyIdsByRegionOp(region) => (m, Ids(ReadyIdsInRegion(m, region)))
    case CountOp => (m, Counts(ReadyCount(m), ChattingCount(m)))
  }

  /** The table after a history of completed calls, oldest first. */
  function Run(m: Registry, ops: seq<Op>): Registry
    decreases |ops|
  {
    if ops == [] then m else Apply(Run(m, ops[..|ops| - 1]), ops[|ops| - 1]).0
  }

  /** The latest write to `id` in a history, if any. */
  function LastWrite(ops: seq<Op>, id: string): (w: Option<Op>)
    ensures w.Some? ==> w.value in ops && WritesKey(w.value, id)
    ensures w.Some? ==> exists i :: 0 <= i < |ops| && ops[i] == w.value &&
                          forall j :: i < j < |ops| ==> !WritesKey(ops[j], id)
    ensures w.None? ==> forall i :: 0 <= i < |ops| ==> !WritesKey(ops[i], id)
    decreases |ops|
  {
    if ops == [] then None
    else if WritesKey(ops[|ops| - 1], id) then Some(ops[|ops| - 1])
    else LastWrite(ops[..|ops| - 1], id)
  }

  /** The history with its shared (read-only) calls dropped. */
  function Writes(ops: seq<Op>): (w: seq<Op>)
    ensures |w| <= |ops|
    ensures forall i :: 0 <= i < |w| ==> AccessOf(w[i]) == Exclusive
    decreases |ops|
  {
    if ops == [] then []
    else if AccessOf(ops[|ops| - 1]) == Exclusive then Writes(ops[..|ops| - 1]) + [ops[|ops| - 1]]
    else Writes(ops[..|ops| - 1])
  }

  /** The writes of a history are exactly its exclusive calls. */
  lemma {:induction false} WritesAreTheExclusiveCalls(ops: seq<Op>)
    ensures forall op :: op in Writes(ops) <==> op in ops && AccessOf(op) == Exclusive
    decreases |ops|
  {
    if ops != [] {
      var init := ops[..|ops| - 1];
      var last := ops[|ops| - 1];
      WritesAreTheExclusiveCalls(init);
      assert ops == init + [last];
    }
  }

  /** Last writer wins: a Get after a history sees the latest Set or Close to
      its id, or the starting table when the history never wrote that id. */
  lemma {:induction false} LastWriterWins(m: Registry, ops: seq<Op>, id: string)
    ensures LastWrite(ops, id).None? ==> Get(Run(m, ops), id) == Get(m, id)
    ensures LastWrite(ops, id).Some? && LastWrite(ops, id).value.SetOp? ==>
              Get(Run(m, ops), id) == Some(LastWrite(ops, id).value.session)
    ensures LastWrite(ops, id).Some? && LastWrite(ops, id).value.CloseOp? ==>
              Get(Run(m, ops), id) == None
    decreases |ops|
  {
    if ops != [] {
      var init := ops[..|ops| - 1];
      var last := ops[|ops| - 1];
      if !WritesKey(last, id) {
        LastWriterWins(m, init, id);
      }
    }
  }

  /** Read-only calls never change the table: a history has the same effect
      as its writes alone. */
  lemma {:induction false} ReadsDoNotChangeTable(m: Registry, ops: seq<Op>)
    ensures Run(m, ops) == Run(m, Writes(ops))
    decreases |ops|
  {
    if ops != [] {
      var init := ops[..|ops| - 1];
      var last := ops[|ops| - 1];
      ReadsDoNotChangeTable(m, init);
      if AccessOf(last) == Exclusive {
        var w := Writes(init) + [last];
        assert w[..|w| - 1] == Writes(init);
      }
    }
  }

  /** A history whose Sets store each session under its own id keeps the
      key/ID invariant. */
  lemma {:induction false} RunKeepsKeyedById(m: Registry, ops: seq<Op>)
    requires KeyedById(m)
    requires forall i :: 0 <= i < |ops| && ops[i].SetOp? ==> ops[i].session.id == ops[i].key
    ensures KeyedById(Run(m, ops))
    decreases |ops|
  {
    if ops != [] {
      var init := ops[..|ops| - 1];
      var last := ops[|ops| - 1];
      assert forall i :: 0 <= i < |init| ==> init[i] == ops[i];
      RunKeepsKeyedById(m, init);
      var before := Run(m, init);
      match last
      case SetOp(id, s) =>
        WritesKeepKeyedById(before, id, s);
      case CloseOp(id) =>
        WritesKeepKeyedById(before, id, Session(id, "", false, None));
      case _ =>
    }
  }

  // The matchmaking scenario: A (uk, ready), B (uk, not ready) and C (us,
  // ready) are registered, then A pairs into a room, or A is closed.

  function ScenarioA(): Session { Session("A", "uk", true, None) }
  function ScenarioB(): Session { Session("B", "uk", false, None) }
  function ScenarioC(): Session { Session("C", "us", true, None) }

  function ScenarioOps(): seq<Op> {
    [SetOp("A", ScenarioA()), SetOp("B", ScenarioB()), SetOp("C", ScenarioC())]
  }

  /** Registering the three sessions yields the three-entry table. */
  lemma ScenarioRegistered()
    ensures Run(Empty(), ScenarioOps()) == map["A" := ScenarioA(), "B" := ScenarioB(), "C" := ScenarioC()]
  {
    var ops := ScenarioOps();
    var one := ops[..1];
    var two := ops[..2];
    assert one[..0] == [] && two[..1] == one && ops[..2] == two;
    assert Run(Empty(), one) == Apply(Empty(), SetOp("A", ScenarioA())).0;
    assert Run(Empty(), two) == Apply(Run(Empty(), one), SetOp("B", ScenarioB())).0;
    assert Run(Empty(), ops) == Apply(Run(Empty(), two), SetOp("C", ScenarioC())).0;
  }

  /** The regional and global ready ids of the registered table. */
  lemma ScenarioReadyIds()
    ensures var m := Run(Empty(), ScenarioOps());
            ReadyIdsInRegion(m, "uk") == {"A"} && ReadyIds(m) == {"A", "C"}
  {
    ScenarioRegistered();
    var m := Run(Empty(), ScenarioOps());
    KeyedReadyIdsAreKeys(m);
    KeyedRegionIdsAreKeys(m, "uk");
    assert ReadyAmong(m, m.Keys) == {"A", "C"};
    assert RegionReadyAmong(m, m.Keys, "uk") == {"A"};
  }

  /** Once A holds a room, two sessions are ready and one is chatting. */
  lemma ScenarioPairedCounts()
    ensures var m := Run(Empty(), ScenarioOps());
            var paired := Set(m, "A", ScenarioA().(room := Some(Room("r1"))));
            ReadyCount(paired) == 2 && ChattingCount(paired) == 1
  {
    ScenarioRegistered();
    var m := Run(Empty(), ScenarioOps());
    var paired := Set(m, "A", ScenarioA().(room := Some(Room("r1"))));
    assert ReadyAmong(paired, paired.Keys) == {"A", "C"};
    assert ChattingAmong(paired, paired.Keys) == {"A"};
  }

  /** Closing A removes it from Get and from the ready ids. */
  lemma ScenarioClosed()
    ensures var closed := Close(Run(Empty(), ScenarioOps()), "A");
            Get(closed, "A") == None && ReadyIds(closed) == {"C"}
  {
    ScenarioRegistered();
    var m := Run(Empty(), ScenarioOps());
    var closed := Close(m, "A");
    assert closed == map["B" := ScenarioB(), "C" := ScenarioC()];
    KeyedReadyIdsAreKeys(closed);
    assert ReadyAmong(closed, closed.Keys) == {"C"};
  }
}
