/** The outbox end to end: registrations that overlap, wait and roll back on one side,
    the drain and the naming plane on the other.

    A drain row stands for each id ever drawn, at the id's place, and is hidden until
    the transaction that inserted it commits. That a visible edge has both its ends
    visible before it, which the drain relies on, follows from how registrations are
    enqueued; nothing is assumed of it here.
 */
module OutboxWhole {
  import opened Sums
  import Keys = KeyRegistry
  import Order = OutboxOrder
  import opened OutboxDrain

  datatype Whole = Whole(order: Order.World, drain: World)

  datatype Action =
    | Registering(step: Order.Step, due: Time)
    | Draining(move: Step)

  /** Some committed row has the id. */
  predicate Published(o: Order.World, id: nat) {
    exists r :: r in o.rows && Order.InTable(o, r) && r.id == id
  }

  /** The rows of transaction t become visible. */
  function Revealed(items: seq<Item>, rows: set<Order.Placed>, t: Order.TxId, due: Time): (r: seq<Item>)
    ensures |r| == |items|
    ensures forall k :: 0 <= k < |r| ==>
              r[k] == if HasRow(rows, t, k + 1) then Item(items[k].op, Waiting, 0, due) else items[k]
  {
    if items == [] then []
    else
      var n := |items| - 1;
      Revealed(items[..n], rows, t, due)
        + [if HasRow(rows, t, n + 1) then Item(items[n].op, Waiting, 0, due) else items[n]]
  }

  predicate HasRow(rows: set<Order.Placed>, t: Order.TxId, id: nat) {
    exists r :: r in rows && r.writer == t && r.id == id
  }

  ghost predicate Can(w: Whole, a: Action) {
    match a
    case Registering(step, _) => Order.Enabled(w.order, step)
    case Draining(step) => (step.Others? || step.Drained? || step.Unblocked?) && Enabled(w.drain, step)
  }

  function After(w: Whole, a: Action): Whole
    requires Can(w, a)
  {
    match a
    case Registering(step, due) =>
      var items := w.drain.items;
      var next := match step
        case Draw(t) => items + [Item(Order.Current(w.order, t), Hidden, 0, 0)]
        case Commit(t) => Revealed(items, w.order.rows, t, due)
        case _ => items;
      Whole(Order.Next(w.order, step), w.drain.(items := next))
    case Draining(step) => Whole(w.order, Next(w.drain, step))
  }

  const START: Whole := Whole(Order.EMPTY, EMPTY)

  // ── The two halves agree ───────────────────────────────────────────────────

  /** Every drawn id has its place, with the operation it was drawn for. */
  predicate PlacesMatch(o: Order.World, items: seq<Item>) {
    && |items| == o.next - 1
    && (forall r :: r in o.rows ==> 1 <= r.id <= |items| && items[r.id - 1].op == r.op)
    && (forall t :: 0 <= t < |o.txs| && o.txs[t].ticket.Some? && o.txs[t].status == Order.Open ==>
          && o.txs[t].done < |o.txs[t].todo| && 1 <= o.txs[t].ticket.value <= |items|
          && items[o.txs[t].ticket.value - 1].op == o.txs[t].todo[o.txs[t].done])
  }

  predicate VisibilityMatches(o: Order.World, items: seq<Item>) {
    forall k :: 0 <= k < |items| ==> (Visible(items, k) <==> Published(o, k + 1))
  }

  predicate Agree(w: Whole) {
    && Order.Inv(w.order) && PlacesMatch(w.order, w.drain.items) && VisibilityMatches(w.order, w.drain.items)
    && NoDanglingEdges(w.drain.plane)
    && forall k :: 0 <= k < |w.drain.items| ==> TrueIfDelivered(w.drain, k)
  }

  lemma {:induction false} EndIsVisible(w: Whole, k: nat, bound: nat, n: Keys.Name)
    requires Agree(w) && bound == k + 1 && k < |w.drain.items|
    requires Order.CommittedBelow(w.order, Keys.Node(n), bound)
    ensures NodeVisibleBelow(w.drain.items, k, n)
  {
    var r :| r in w.order.rows && Order.InTable(w.order, r) && r.op == Keys.Node(n) && r.id < bound;
    assert Published(w.order, r.id);
    assert Visible(w.drain.items, r.id - 1) && w.drain.items[r.id - 1].op == Keys.Node(n);
  }

  /** A visible edge has both its ends visible before it. */
  lemma {:induction false} AgreeingEndsAreVisible(w: Whole, k: nat)
    requires Agree(w) && k < |w.drain.items| && Visible(w.drain.items, k)
    ensures EndsVisible(w.drain.items, k)
  {
    assert Published(w.order, k + 1);
    var edge :| edge in w.order.rows && Order.InTable(w.order, edge) && edge.id == k + 1;
    if edge.op.SignsFor? {
      Order.VisibleEdgeIsBacked(w.order, edge);
      EndIsVisible(w, k, edge.id, Keys.KeyName(edge.op.key));
      EndIsVisible(w, k, edge.id, Keys.PialName(edge.op.owner));
    }
  }

  /** So the drain's own invariant holds. */
  lemma {:induction false} AgreeingDrainIsSound(w: Whole)
    requires Agree(w)
    ensures Inv(w.drain)
  {
    forall k | 0 <= k < |w.drain.items| && Visible(w.drain.items, k)
      ensures EndsVisible(w.drain.items, k)
    {
      AgreeingEndsAreVisible(w, k);
    }
  }

  // ── Registering keeps the halves in agreement ──────────────────────────────

  lemma {:induction false} PublishedAfter(o: Order.World, step: Order.Step, id: nat)
    requires Order.Inv(o) && Order.Enabled(o, step)
    ensures Published(Order.Next(o, step), id) <==> Published(o, id) || (step.Commit? && HasRow(o.rows, step.t, id))
  {
    var after := Order.Next(o, step);
    if Published(o, id) {
      var r :| r in o.rows && Order.InTable(o, r) && r.id == id;
      assert r in after.rows && Order.InTable(after, r);
    }
    if step.Commit? && HasRow(o.rows, step.t, id) {
      var r :| r in o.rows && r.writer == step.t && r.id == id;
      assert r in after.rows && Order.InTable(after, r);
    }
    if Published(after, id) {
      var r :| r in after.rows && Order.InTable(after, r) && r.id == id;
      assert r in o.rows;
    }
  }

  lemma {:induction false} RegisteringKeepsPlaces(w: Whole, step: Order.Step, due: Time)
    requires Agree(w) && Order.Enabled(w.order, step)
    ensures var after := After(w, Registering(step, due)); PlacesMatch(after.order, after.drain.items)
  {
  }

  lemma {:induction false} RegisteringKeepsVisibility(w: Whole, step: Order.Step, due: Time)
    requires Agree(w) && Order.Enabled(w.order, step)
    ensures var after := After(w, Registering(step, due)); VisibilityMatches(after.order, after.drain.items)
  {
    var after := After(w, Registering(step, due));
    forall k | 0 <= k < |after.drain.items|
      ensures Visible(after.drain.items, k) <==> Published(after.order, k + 1)
    {
      PublishedAfter(w.order, step, k + 1);
      if k < |w.drain.items| {
        assert Visible(w.drain.items, k) <==> Published(w.order, k + 1);
      } else {
        NothingPublishedAhead(w, k + 1);
      }
    }
  }

  lemma {:induction false} NothingPublishedAhead(w: Whole, id: nat)
    requires Agree(w) && id > |w.drain.items|
    ensures !Published(w.order, id)
  {
  }

  lemma {:induction false} RegisteringKeepsTruth(w: Whole, step: Order.Step, due: Time, k: nat)
    requires Agree(w) && Order.Enabled(w.order, step) && k < |After(w, Registering(step, due)).drain.items|
    ensures TrueIfDelivered(After(w, Registering(step, due)).drain, k)
  {
    if k < |w.drain.items| {
      assert TrueIfDelivered(w.drain, k);
    }
  }

  lemma {:induction false} StepKeepsAgreement(w: Whole, a: Action)
    requires Agree(w) && Can(w, a)
    ensures Agree(After(w, a))
  {
    match a
    case Registering(step, due) =>
      Order.StepKeepsInv(w.order, step);
      RegisteringKeepsPlaces(w, step, due);
      RegisteringKeepsVisibility(w, step, due);
      forall k | 0 <= k < |After(w, a).drain.items|
        ensures TrueIfDelivered(After(w, a).drain, k)
      {
        RegisteringKeepsTruth(w, step, due, k);
      }
    case Draining(step) =>
      AgreeingDrainIsSound(w);
      StepKeepsInv(w.drain, step);
      DrainingKeepsRows(w.drain, step);
  }

  /** The drain neither hides nor reveals a row, nor changes what it asks. */
  lemma {:induction false} DrainingKeepsRows(w: World, step: Step)
    requires Inv(w) && Enabled(w, step) && (step.Others? || step.Drained? || step.Unblocked?)
    ensures |Next(w, step).items| == |w.items|
    ensures forall k :: 0 <= k < |w.items| ==>
              Next(w, step).items[k].op == w.items[k].op && (Visible(Next(w, step).items, k) <==> Visible(w.items, k))
  {
    if step.Drained? {
      forall k | 0 <= k < |w.items|
        ensures Next(w, step).items[k].op == w.items[k].op
        ensures Visible(Next(w, step).items, k) <==> Visible(w.items, k)
      {
        assert TrueIfDelivered(w, k);
        DrainKeeps(w, step.now, step.at, step.moods, step.answer, k);
      }
    }
  }

  ghost predicate Reaches(w: Whole, actions: seq<Action>, end: Whole)
    decreases |actions|
  {
    if actions == [] then end == w
    else Can(w, actions[0]) && Reaches(After(w, actions[0]), actions[1..], end)
  }

  lemma {:induction false} RunKeepsAgreement(w: Whole, actions: seq<Action>, end: Whole)
    requires Agree(w) && Reaches(w, actions, end)
    ensures Agree(end)
    decreases |actions|
  {
    if actions != [] {
      StepKeepsAgreement(w, actions[0]);
      RunKeepsAgreement(After(w, actions[0]), actions[1..], end);
    }
  }

  /** However registrations overlap, wait and roll back, and whatever becomes of their
      delivery: every edge row a drain can read has both node rows before it, the graph
      never has a dangling edge, and every row marked delivered is in it.
   */
  lemma {:induction false} WholeRunDeliversTruth(actions: seq<Action>, w: Whole, k: nat)
    requires Reaches(START, actions, w) && k < |w.drain.items|
    ensures NoDanglingEdges(w.drain.plane)
    ensures Visible(w.drain.items, k) ==> EndsVisible(w.drain.items, k)
    ensures w.drain.items[k].state == Delivered ==> Holds(w.drain.plane, w.drain.items[k].op)
  {
    RunKeepsAgreement(START, actions, w);
    AgreeingDrainIsSound(w);
    assert TrueIfDelivered(w.drain, k);
  }
}
