/** Registrations enqueued by transactions that overlap.

    A BIGSERIAL id is drawn before the insert that uses it, the insert waits while
    another open transaction holds the same dedup_key, and a rollback takes its
    rows with it and leaves gaps. Rows therefore become visible out of id order.
    What survives is what the drain needs: a committed edge has both its node rows
    committed under smaller ids.
 */
module OutboxOrder {
  import opened Sums
  import opened KeyRegistry
  import opened KeyRegistryService

  type TxId = nat

  datatype Status = Open | Committed | Aborted

  /** todo is what the transaction's triggers enqueue; ticket is an id drawn and not yet used. */
  datatype Tx = Tx(todo: seq<Op>, done: nat, ticket: Option<nat>, status: Status)

  datatype Placed = Placed(id: nat, op: Op, writer: TxId)

  datatype World = World(rows: set<Placed>, txs: seq<Tx>, next: nat)

  // ── What a transaction enqueues ────────────────────────────────────────────

  predicate Earlier(todo: seq<Op>, k: nat, op: Op)
    requires k <= |todo|
  {
    exists j :: 0 <= j < k && todo[j] == op
  }

  predicate NodesFirst(todo: seq<Op>) {
    forall k | 0 <= k < |todo| && todo[k].SignsFor? ::
      Earlier(todo, k, Node(KeyName(todo[k].key))) && Earlier(todo, k, Node(PialName(todo[k].owner)))
  }

  /** The trigger's three enqueues. */
  function TriggerOps(pial: Uuid, key: Uuid): seq<Op> {
    [Node(PialName(pial)), Node(KeyName(key)), SignsFor(key, pial)]
  }

  /** Those are the trigger's statements on a queue nobody else writes. */
  lemma {:induction false} TriggerEnqueuesThese(q: Queue, pial: Uuid, key: Uuid)
    ensures EnqueueAll(q, TriggerOps(pial, key)) == RegisterKey(q, pial, key)
  {
    var todo := TriggerOps(pial, key);
    assert todo[..2][..1] == todo[..1] && todo[..1][..0] == [];
    assert EnqueueAll(q, todo[..1]) == Enqueue(q, Node(PialName(pial)));
    assert EnqueueAll(q, todo[..2]) == Enqueue(EnqueueAll(q, todo[..1]), Node(KeyName(key)));
  }

  /** The key trigger asks for both ends before the edge. */
  lemma {:induction false} TriggerAsksNodesFirst(pial: Uuid, key: Uuid)
    ensures NodesFirst(TriggerOps(pial, key))
  {
    var todo := TriggerOps(pial, key);
    assert todo[0] == Node(PialName(pial)) && todo[1] == Node(KeyName(key));
  }

  /** So does the backfill, whatever order its SELECTs return. */
  lemma {:induction false} BackfillAsksNodesFirst(s: Store, identities: seq<Op>, owners: seq<Op>, keyNodes: seq<Op>,
      edges: seq<Op>)
    requires Lists(identities, IdentityRows(s)) && Lists(owners, OwnerRows(s))
    requires Lists(keyNodes, KeyRows(s)) && Lists(edges, EdgeRows(s))
    ensures NodesFirst(identities + owners + keyNodes + edges)
  {
    var nodes := identities + owners + keyNodes;
    var todo := nodes + edges;
    forall k | 0 <= k < |todo| && todo[k].SignsFor?
      ensures Earlier(todo, k, Node(KeyName(todo[k].key))) && Earlier(todo, k, Node(PialName(todo[k].owner)))
    {
      NodesAreNodes(s, identities, owners, keyNodes);
      assert k >= |nodes| && todo[k] == edges[k - |nodes|];
      assert todo[k] in edges;
      var slot :| slot in s.keys && todo[k] == SignsFor(s.keys[slot].keyId, slot.1);
      assert Node(PialName(slot.1)) in OwnerRows(s) && Node(KeyName(s.keys[slot].keyId)) in KeyRows(s);
      var i :| 0 <= i < |owners| && owners[i] == Node(PialName(slot.1));
      var j :| 0 <= j < |keyNodes| && keyNodes[j] == Node(KeyName(s.keys[slot].keyId));
      assert todo[|identities| + i] == owners[i];
      assert todo[|identities| + |owners| + j] == keyNodes[j];
    }
  }

  lemma {:induction false} NodesAreNodes(s: Store, identities: seq<Op>, owners: seq<Op>, keyNodes: seq<Op>)
    requires Lists(identities, IdentityRows(s)) && Lists(owners, OwnerRows(s)) && Lists(keyNodes, KeyRows(s))
    ensures forall k :: 0 <= k < |identities + owners + keyNodes| ==> (identities + owners + keyNodes)[k].Node?
  {
    forall k | 0 <= k < |identities + owners + keyNodes|
      ensures (identities + owners + keyNodes)[k].Node?
    {
      var op := (identities + owners + keyNodes)[k];
      assert op in identities || op in owners || op in keyNodes;
    }
  }

  // ── Steps ──────────────────────────────────────────────────────────────────

  predicate IsOpen(w: World, t: TxId) {
    t < |w.txs| && w.txs[t].status == Open
  }

  predicate Busy(w: World, t: TxId) {
    IsOpen(w, t) && w.txs[t].done < |w.txs[t].todo|
  }

  function Current(w: World, t: TxId): Op
    requires Busy(w, t)
  {
    w.txs[t].todo[w.txs[t].done]
  }

  /** A row that a conflict check by t reports: committed, or t's own. */
  predicate Seen(w: World, t: TxId, r: Placed) {
    r in w.rows && (r.writer == t || (r.writer < |w.txs| && w.txs[r.writer].status == Committed))
  }

  predicate Conflicts(w: World, t: TxId, op: Op) {
    exists r :: r in w.rows && r.op == op && Seen(w, t, r)
  }

  predicate Taken(w: World, op: Op) {
    exists r :: r in w.rows && r.op == op
  }

  datatype Step =
    | Begin(todo: seq<Op>)
    | Draw(t: TxId)
    | Insert(t: TxId)
    | Commit(t: TxId)
    | Abort(t: TxId)

  predicate Enabled(w: World, s: Step) {
    match s
    case Begin(todo) => NodesFirst(todo)
    case Draw(t) => Busy(w, t) && w.txs[t].ticket == None
    case Insert(t) => Busy(w, t) && w.txs[t].ticket.Some? && (Taken(w, Current(w, t)) ==> Conflicts(w, t, Current(w, t)))
    case Commit(t) => IsOpen(w, t) && w.txs[t].done == |w.txs[t].todo|
    case Abort(t) => IsOpen(w, t)
  }

  function Next(w: World, s: Step): World
    requires Enabled(w, s)
  {
    match s
    case Begin(todo) => w.(txs := w.txs + [Tx(todo, 0, None, Open)])
    case Draw(t) => World(w.rows, w.txs[t := w.txs[t].(ticket := Some(w.next))], w.next + 1)
    case Insert(t) =>
      var tx := w.txs[t];
      var row := Placed(tx.ticket.value, Current(w, t), t);
      World(if Taken(w, Current(w, t)) then w.rows else w.rows + {row},
            w.txs[t := tx.(done := tx.done + 1, ticket := None)], w.next)
    case Commit(t) => w.(txs := w.txs[t := w.txs[t].(status := Committed)])
    case Abort(t) =>
      World((set r | r in w.rows && r.writer != t), w.txs[t := w.txs[t].(status := Aborted)], w.next)
  }

  // ── The invariant ──────────────────────────────────────────────────────────

  /** Some row for op, visible to t, has an id below bound. */
  predicate Backed(w: World, t: TxId, op: Op, bound: nat) {
    exists r :: r in w.rows && r.op == op && r.id < bound && Seen(w, t, r)
  }

  predicate RowFits(w: World, r: Placed) {
    r.id < w.next && r.writer < |w.txs| && w.txs[r.writer].status != Aborted
  }

  predicate EdgeBacked(w: World, r: Placed) {
    r.op.SignsFor? ==>
      Backed(w, r.writer, Node(KeyName(r.op.key)), r.id) && Backed(w, r.writer, Node(PialName(r.op.owner)), r.id)
  }

  predicate RowsSound(w: World) {
    && (forall r :: r in w.rows ==> RowFits(w, r))
    && (forall r :: r in w.rows ==> EdgeBacked(w, r))
  }

  predicate Unique(w: World) {
    forall a, b :: a in w.rows && b in w.rows && (a.id == b.id || a.op == b.op) ==> a == b
  }

  function Horizon(w: World, t: TxId): nat
    requires t < |w.txs|
  {
    if w.txs[t].ticket.Some? then w.txs[t].ticket.value else w.next
  }

  predicate TicketsFresh(w: World) {
    && (forall t, r :: 0 <= t < |w.txs| && w.txs[t].ticket.Some? && r in w.rows ==> r.id != w.txs[t].ticket.value)
    && (forall t, u :: 0 <= t < u < |w.txs| && w.txs[t].ticket.Some? ==> w.txs[u].ticket != w.txs[t].ticket)
    && (forall t :: 0 <= t < |w.txs| && w.txs[t].ticket.Some? ==> w.txs[t].ticket.value < w.next)
  }

  /** Everything t has enqueued is visible to it, under an id below its next one. */
  predicate WorkBacked(w: World, t: TxId)
    requires t < |w.txs|
  {
    w.txs[t].done <= |w.txs[t].todo| && NodesFirst(w.txs[t].todo)
    && forall k :: 0 <= k < w.txs[t].done ==> Backed(w, t, w.txs[t].todo[k], Horizon(w, t))
  }

  predicate AllWorkBacked(w: World) {
    forall t :: 0 <= t < |w.txs| && w.txs[t].status != Aborted ==> WorkBacked(w, t)
  }

  predicate Inv(w: World) {
    RowsSound(w) && Unique(w) && TicketsFresh(w) && AllWorkBacked(w)
  }

  const EMPTY: World := World({}, [], 1)

  // ── Steps keep it ──────────────────────────────────────────────────────────

  /** What t could see it still sees, unless t itself rolled back. */
  lemma {:induction false} StillBacked(w: World, s: Step, t: TxId, op: Op, bound: nat)
    requires Inv(w) && Enabled(w, s)
    requires s != Abort(t) && Backed(w, t, op, bound)
    ensures Backed(Next(w, s), t, op, bound)
  {
  }

  lemma {:induction false} FurtherBound(w: World, t: TxId, op: Op, bound: nat, further: nat)
    requires bound <= further && Backed(w, t, op, bound)
    ensures Backed(w, t, op, further)
  {
  }

  /** The row an insert leaves behind, its own or the one it ran into. */
  lemma {:induction false} InsertIsBacked(w: World, t: TxId)
    requires Inv(w) && Enabled(w, Insert(t))
    ensures Backed(Next(w, Insert(t)), t, Current(w, t), w.next)
  {
  }

  /** An edge that goes in goes in above both of its ends. */
  lemma {:induction false} NewEdgeIsBacked(w: World, t: TxId)
    requires Inv(w) && Enabled(w, Insert(t)) && Current(w, t).SignsFor?
    ensures var op := Current(w, t);
            var id := w.txs[t].ticket.value;
            Backed(w, t, Node(KeyName(op.key)), id) && Backed(w, t, Node(PialName(op.owner)), id)
  {
  }

  lemma {:induction false} StepKeepsRows(w: World, s: Step)
    requires Inv(w) && Enabled(w, s)
    ensures RowsSound(Next(w, s))
  {
    var after := Next(w, s);
    forall r | r in after.rows
      ensures EdgeBacked(after, r)
    {
      if r.op.SignsFor? {
        if r in w.rows {
          assert EdgeBacked(w, r);
        } else {
          NewEdgeIsBacked(w, s.t);
        }
        StillBacked(w, s, r.writer, Node(KeyName(r.op.key)), r.id);
        StillBacked(w, s, r.writer, Node(PialName(r.op.owner)), r.id);
      }
    }
  }

  lemma {:induction false} StepKeepsWork(w: World, s: Step, t: TxId)
    requires Inv(w) && Enabled(w, s)
    requires t < |Next(w, s).txs| && Next(w, s).txs[t].status != Aborted
    ensures WorkBacked(Next(w, s), t)
  {
    var after := Next(w, s);
    if t < |w.txs| {
      assert WorkBacked(w, t);
      forall k | 0 <= k < after.txs[t].done
        ensures Backed(after, t, after.txs[t].todo[k], Horizon(after, t))
      {
        var op := after.txs[t].todo[k];
        if k < w.txs[t].done {
          StillBacked(w, s, t, op, Horizon(w, t));
          FurtherBound(after, t, op, Horizon(w, t), Horizon(after, t));
        } else {
          InsertIsBacked(w, t);
        }
      }
    }
  }

  lemma {:induction false} StepKeepsInv(w: World, s: Step)
    requires Inv(w) && Enabled(w, s)
    ensures Inv(Next(w, s))
  {
    StepKeepsRows(w, s);
    StepKeepsIds(w, s);
    forall t | 0 <= t < |Next(w, s).txs| && Next(w, s).txs[t].status != Aborted
      ensures WorkBacked(Next(w, s), t)
    {
      StepKeepsWork(w, s, t);
    }
  }

  lemma {:induction false} StepKeepsIds(w: World, s: Step)
    requires Inv(w) && Enabled(w, s)
    ensures Unique(Next(w, s)) && TicketsFresh(Next(w, s))
  {
  }

  // ── Every reachable outbox ─────────────────────────────────────────────────

  predicate Follows(w: World, steps: seq<Step>, end: World)
    decreases |steps|
  {
    if steps == [] then end == w
    else Enabled(w, steps[0]) && Follows(Next(w, steps[0]), steps[1..], end)
  }

  lemma {:induction false} RunKeepsInv(w: World, steps: seq<Step>, end: World)
    requires Inv(w) && Follows(w, steps, end)
    ensures Inv(end)
    decreases |steps|
  {
    if steps != [] {
      StepKeepsInv(w, steps[0]);
      RunKeepsInv(Next(w, steps[0]), steps[1..], end);
    }
  }

  predicate InTable(w: World, r: Placed) {
    r in w.rows && r.writer < |w.txs| && w.txs[r.writer].status == Committed
  }

  predicate CommittedBelow(w: World, op: Op, bound: nat) {
    exists r :: r in w.rows && InTable(w, r) && r.op == op && r.id < bound
  }

  lemma {:induction false} VisibleEdgeIsBacked(w: World, edge: Placed)
    requires Inv(w) && InTable(w, edge) && edge.op.SignsFor?
    ensures CommittedBelow(w, Node(KeyName(edge.op.key)), edge.id)
    ensures CommittedBelow(w, Node(PialName(edge.op.owner)), edge.id)
  {
    assert EdgeBacked(w, edge);
    var k :| k in w.rows && k.op == Node(KeyName(edge.op.key)) && k.id < edge.id && Seen(w, edge.writer, k);
    var p :| p in w.rows && p.op == Node(PialName(edge.op.owner)) && p.id < edge.id && Seen(w, edge.writer, p);
    assert InTable(w, k) && InTable(w, p);
  }

  /** However registrations overlap and roll back, a reader who sees an edge row sees
      both of its node rows, under smaller ids.
   */
  lemma {:induction false} CommittedEdgesFollowTheirEnds(steps: seq<Step>, w: World, edge: Placed)
    requires Follows(EMPTY, steps, w)
    requires InTable(w, edge) && edge.op.SignsFor?
    ensures CommittedBelow(w, Node(KeyName(edge.op.key)), edge.id)
    ensures CommittedBelow(w, Node(PialName(edge.op.owner)), edge.id)
  {
    RunKeepsInv(EMPTY, steps, w);
    VisibleEdgeIsBacked(w, edge);
  }

  /** A transaction commits only when it has nothing left to enqueue. */
  predicate CommittedIsDone(w: World) {
    forall t :: 0 <= t < |w.txs| && w.txs[t].status == Committed ==> w.txs[t].done == |w.txs[t].todo|
  }

  lemma {:induction false} RunKeepsDone(w: World, steps: seq<Step>, end: World)
    requires CommittedIsDone(w) && Follows(w, steps, end)
    ensures CommittedIsDone(end)
    decreases |steps|
  {
    if steps != [] {
      RunKeepsDone(Next(w, steps[0]), steps[1..], end);
    }
  }

  /** Nothing is lost: whatever a committed transaction asked for is on file, its own row or
      the one it waited for, however many others asked for the same or rolled back.
   */
  lemma {:induction false} CommittedWorkIsOnFile(steps: seq<Step>, w: World, t: TxId, k: nat)
    requires Follows(EMPTY, steps, w)
    requires t < |w.txs| && w.txs[t].status == Committed && k < |w.txs[t].todo|
    ensures exists r :: r in w.rows && InTable(w, r) && r.op == w.txs[t].todo[k]
  {
    RunKeepsInv(EMPTY, steps, w);
    RunKeepsDone(EMPTY, steps, w);
    assert WorkBacked(w, t);
    assert Backed(w, t, w.txs[t].todo[k], Horizon(w, t));
    var r :| r in w.rows && r.op == w.txs[t].todo[k] && r.id < Horizon(w, t) && Seen(w, t, r);
    assert InTable(w, r);
  }

  /** And nothing else is: a row on file was asked for by a committed transaction. */
  predicate AskedByWriter(w: World, r: Placed) {
    r.writer < |w.txs| && r.op in w.txs[r.writer].todo
  }

  lemma {:induction false} RunKeepsAsked(w: World, steps: seq<Step>, end: World)
    requires (forall r :: r in w.rows ==> AskedByWriter(w, r)) && Follows(w, steps, end)
    ensures forall r :: r in end.rows ==> AskedByWriter(end, r)
    decreases |steps|
  {
    if steps != [] {
      var next := Next(w, steps[0]);
      forall r | r in next.rows
        ensures AskedByWriter(next, r)
      {
        if r in w.rows {
          assert AskedByWriter(w, r);
        }
      }
      RunKeepsAsked(next, steps[1..], end);
    }
  }

  lemma {:induction false} OnFileWasAskedFor(steps: seq<Step>, w: World, r: Placed)
    requires Follows(EMPTY, steps, w) && InTable(w, r)
    ensures w.txs[r.writer].status == Committed && r.op in w.txs[r.writer].todo
  {
    RunKeepsAsked(EMPTY, steps, w);
    assert AskedByWriter(w, r);
  }

  /** An insert waits exactly while another open transaction has inserted the same
      registration; one that goes ahead adds its row unless there is one already.
   */
  lemma {:induction false} WaitsExactly(w: World, t: TxId)
    requires Inv(w) && Busy(w, t) && w.txs[t].ticket.Some?
    ensures !Enabled(w, Insert(t)) <==>
              exists r :: r in w.rows && r.op == Current(w, t) && r.writer != t && IsOpen(w, r.writer)
    ensures Enabled(w, Insert(t)) ==>
              Next(w, Insert(t)).rows ==
                if Taken(w, Current(w, t)) then w.rows else w.rows + {Placed(w.txs[t].ticket.value, Current(w, t), t)}
  {
    forall r | r in w.rows && r.op == Current(w, t)
      ensures Seen(w, t, r) || (r.writer != t && IsOpen(w, r.writer))
    {
      assert RowFits(w, r);
    }
  }

  /** Only a commit shows rows, its own, and nothing ever hides one. */
  lemma {:induction false} OnlyCommitsShow(w: World, s: Step, r: Placed)
    requires Inv(w) && Enabled(w, s)
    ensures InTable(Next(w, s), r) <==> InTable(w, r) || (s.Commit? && r in w.rows && r.writer == s.t)
  {
  }

  /** No registration is ever on file twice, and no id names two rows. */
  lemma {:induction false} NothingIsQueuedTwice(steps: seq<Step>, w: World, a: Placed, b: Placed)
    requires Follows(EMPTY, steps, w)
    requires InTable(w, a) && InTable(w, b) && (a.op == b.op || a.id == b.id)
    ensures a == b
  {
    RunKeepsInv(EMPTY, steps, w);
  }

  lemma {:induction false} OneMoreStep(w: World, steps: seq<Step>, mid: World, s: Step)
    requires Follows(w, steps, mid) && Enabled(mid, s)
    ensures Follows(w, steps + [s], Next(mid, s))
    decreases |steps|
  {
    if steps == [] {
      assert steps + [s] == [s] && [s][1..] == [];
    } else {
      OneMoreStep(Next(w, steps[0]), steps[1..], mid, s);
      assert (steps + [s])[1..] == steps[1..] + [s];
    }
  }

  /** A registration of one identity, up to its insert. */
  lemma {:induction false} Inserted(steps: seq<Step>, w: World, pial: Uuid) returns (more: seq<Step>, after: World)
    requires Follows(EMPTY, steps, w) && !Taken(w, Node(PialName(pial)))
    ensures Follows(EMPTY, more, after)
    ensures after == World(w.rows + {Placed(w.next, Node(PialName(pial)), |w.txs|)},
                           w.txs + [Tx([Node(PialName(pial))], 1, None, Open)], w.next + 1)
  {
    var t: TxId := |w.txs|;
    var begun := Next(w, Begin([Node(PialName(pial))]));
    OneMoreStep(EMPTY, steps, w, Begin([Node(PialName(pial))]));
    var drawn := Next(begun, Draw(t));
    OneMoreStep(EMPTY, steps + [Begin([Node(PialName(pial))])], begun, Draw(t));
    more := steps + [Begin([Node(PialName(pial))])] + [Draw(t)] + [Insert(t)];
    OneMoreStep(EMPTY, steps + [Begin([Node(PialName(pial))])] + [Draw(t)], drawn, Insert(t));
    after := Next(drawn, Insert(t));
  }

  /** Ids are not commit order: a row may become visible after rows with larger ids. */
  lemma {:induction false} LaterIdMayCommitFirst(first: Uuid, second: Uuid) returns (steps: seq<Step>, w: World)
    requires first != second
    ensures Follows(EMPTY, steps, w)
    ensures InTable(w, Placed(2, Node(PialName(second)), 1))
    ensures Placed(1, Node(PialName(first)), 0) in w.rows && IsOpen(w, 0)
  {
    var one, w1 := Inserted([], EMPTY, first);
    var two, w2 := Inserted(one, w1, second);
    OneMoreStep(EMPTY, two, w2, Commit(1));
    steps, w := two + [Commit(1)], Next(w2, Commit(1));
  }
}
