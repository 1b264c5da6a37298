/** The key registry as it runs: upserts that overwrite key rows in place, the
    triggers' enqueues, and the boot-time backfill.
 */
module KeyRegistryService {
  import opened KeyRegistry

  // ── What the backfill's four SELECTs return ────────────────────────────────

  function IdentityRows(s: Store): set<Op> {
    set p | p in s.pials :: Node(PialName(p))
  }

  function OwnerRows(s: Store): set<Op> {
    set slot | slot in s.keys :: Node(PialName(slot.1))
  }

  function KeyRows(s: Store): set<Op> {
    set slot | slot in s.keys :: Node(KeyName(s.keys[slot].keyId))
  }

  function EdgeRows(s: Store): set<Op> {
    set slot | slot in s.keys :: SignsFor(s.keys[slot].keyId, slot.1)
  }

  /** A SELECT without ORDER BY: these rows, in any order, perhaps with repeats. */
  ghost predicate Lists(ops: seq<Op>, rows: set<Op>) {
    forall op :: op in ops <==> op in rows
  }

  function Everything(s: Store): set<Op> {
    IdentityRows(s) + OwnerRows(s) + KeyRows(s) + EdgeRows(s)
  }

  function EnqueueAll(q: Queue, ops: seq<Op>): Queue
    decreases |ops|
  {
    if ops == [] then q else Enqueue(EnqueueAll(q, ops[..|ops| - 1]), ops[|ops| - 1])
  }

  ghost predicate Feasible(q: Queue, ops: seq<Op>) {
    && (forall op :: op in ops && op.SignsFor? ==>
          Has(q, Node(KeyName(op.key))) && Has(q, Node(PialName(op.owner))) && Unclaimed(q, op.key, op.owner))
    && (forall a, b | a in ops && b in ops && a.SignsFor? && b.SignsFor? :: a.key == b.key ==> a == b)
  }

  lemma {:induction false} EnqueueAllAdds(q: Queue, ops: seq<Op>, rows: set<Op>)
    requires Sound(q) && Feasible(q, ops)
    requires rows == set op | op in ops
    ensures Sound(EnqueueAll(q, ops))
    ensures Extends(q, EnqueueAll(q, ops), rows)
    decreases |ops|
  {
    if ops != [] {
      var init, last := ops[..|ops| - 1], ops[|ops| - 1];
      var fewer := set op | op in init;
      assert forall op :: op in ops <==> op in init || op == last;
      EnqueueAllAdds(q, init, fewer);
      EnqueueExtends(EnqueueAll(q, init), last);
      EnqueueKeepsSound(EnqueueAll(q, init), last);
      assert rows == fewer + {last};
      ExtendsChain(q, EnqueueAll(q, init), EnqueueAll(q, ops), fewer, {last});
    }
  }

  /** Tables as an upgrade finds them: rows, and an outbox nothing has been put in. */
  predicate Upgrading(s: Store) {
    s.queue.rows == [] && NoSharedIds(s.keys)
  }

  function BackfillQueue(q: Queue, identities: seq<Op>, owners: seq<Op>, keyNodes: seq<Op>, edges: seq<Op>): Queue {
    EnqueueAll(EnqueueAll(EnqueueAll(EnqueueAll(q, identities), owners), keyNodes), edges)
  }

  lemma {:induction false} NodesAreFeasible(q: Queue, ops: seq<Op>, rows: set<Op>)
    requires Lists(ops, rows) && forall op :: op in rows ==> op.Node?
    ensures Feasible(q, ops) && rows == set op | op in ops
  {
  }

  lemma {:induction false} EdgesAreFeasible(s: Store, q: Queue, edges: seq<Op>)
    requires NoSharedIds(s.keys) && Lists(edges, EdgeRows(s))
    requires forall op :: Has(q, op) <==> op in IdentityRows(s) + OwnerRows(s) + KeyRows(s)
    ensures Feasible(q, edges) && EdgeRows(s) == set op | op in edges
  {
  }

  /** Whatever order the SELECTs return, the backfill queues every identity and key
      on file, and nothing else, with each edge after its ends.
   */
  lemma {:induction false} BackfillEstablishesInv(s: Store, identities: seq<Op>, owners: seq<Op>, keyNodes: seq<Op>,
      edges: seq<Op>)
    requires Upgrading(s)
    requires Lists(identities, IdentityRows(s)) && Lists(owners, OwnerRows(s))
    requires Lists(keyNodes, KeyRows(s)) && Lists(edges, EdgeRows(s))
    ensures var q := BackfillQueue(s.queue, identities, owners, keyNodes, edges);
            Inv(s.(queue := q)) && forall op :: Has(q, op) <==> op in Everything(s)
  {
    var a := EnqueueAll(s.queue, identities);
    var b := EnqueueAll(a, owners);
    var c := EnqueueAll(b, keyNodes);
    NodesAreFeasible(s.queue, identities, IdentityRows(s));
    EnqueueAllAdds(s.queue, identities, IdentityRows(s));
    NodesAreFeasible(a, owners, OwnerRows(s));
    EnqueueAllAdds(a, owners, OwnerRows(s));
    NodesAreFeasible(b, keyNodes, KeyRows(s));
    EnqueueAllAdds(b, keyNodes, KeyRows(s));
    EdgesAreFeasible(s, c, edges);
    EnqueueAllAdds(c, edges, EdgeRows(s));
    EverythingIsQueued(s, EnqueueAll(c, edges));
  }

  lemma {:induction false} EverythingIsQueued(s: Store, q: Queue)
    requires forall op :: op in Everything(s) ==> Has(q, op)
    ensures KeysQueued(s.(queue := q)) && IdentitiesQueued(s.(queue := q))
  {
  }

  // ── The database ───────────────────────────────────────────────────────────

  class KeyDb {
    var pials: set<Uuid>
    var keys: map<(Use, Uuid), Held>
    var outbox: seq<Row>
    var nextId: nat

    ghost function Rows(): Queue
      reads this
    {
      Queue(outbox, nextId)
    }

    ghost function Model(): Store
      reads this
    {
      Store(pials, keys, Rows())
    }

    ghost predicate Valid()
      reads this
    {
      Inv(Model())
    }

    constructor ()
      ensures Valid() && Model() == Store({}, map[], Queue([], 1))
    {
      pials, keys, outbox, nextId := {}, map[], [], 1;
    }

    /** manhattan_enqueue. */
    method EnqueueOp(op: Op)
      modifies `outbox, `nextId
      ensures Rows() == Enqueue(old(Rows()), op)
    {
      var id := nextId;
      nextId := nextId + 1;
      if !(exists k :: 0 <= k < |outbox| && outbox[k].op == op) {
        outbox := outbox + [Row(id, op)];
      }
    }

    /** Trigger manhattan_register_key. */
    method RegisterKeyTrigger(pial: Uuid, key: Uuid)
      modifies `outbox, `nextId
      ensures Rows() == RegisterKey(old(Rows()), pial, key)
    {
      EnqueueOp(Node(PialName(pial)));
      EnqueueOp(Node(KeyName(key)));
      EnqueueOp(SignsFor(key, pial));
    }

    method BootstrapPial(pial: Uuid) returns (created: bool)
      requires Valid()
      modifies this
      ensures Model() == Bootstrap(old(Model()), pial) && Valid()
      ensures created == (pial !in old(pials))
    {
      BootstrapKeepsInv(Model(), pial);
      created := pial !in pials;
      if created {
        pials := pials + {pial};
        EnqueueOp(Node(PialName(pial)));
      }
    }

    /** INSERT … ON CONFLICT (pial_id) DO UPDATE, then the row's trigger. */
    method UpsertKey(use: Use, pial: Uuid, material: string, drawn: Uuid)
      requires Valid() && NeverDrawn(Model(), drawn)
      modifies this
      ensures Model() == Upsert(old(Model()), use, pial, material, drawn) && Valid()
    {
      UpsertKeepsInv(Model(), use, pial, material, drawn);
      var key := drawn;
      if (use, pial) in keys {
        var row := keys[(use, pial)];
        if row.material == material {
          key := row.keyId;
        }
      }
      keys := keys[(use, pial) := Held(key, material)];
      RegisterKeyTrigger(pial, key);
    }

    /** INSERT INTO manhattan_outbox SELECT … ON CONFLICT (dedup_key) DO NOTHING. */
    method InsertSelected(ops: seq<Op>)
      modifies `outbox, `nextId
      ensures Rows() == EnqueueAll(old(Rows()), ops)
    {
      for k := 0 to |ops|
        invariant Rows() == EnqueueAll(old(Rows()), ops[..k])
      {
        assert ops[..k + 1][..k] == ops[..k];
        EnqueueOp(ops[k]);
      }
      assert ops[..|ops|] == ops;
    }

    /** The backfill, guarded on an empty outbox. */
    method Backfill(identities: seq<Op>, owners: seq<Op>, keyNodes: seq<Op>, edges: seq<Op>)
      requires Valid() || Upgrading(Model())
      requires Lists(identities, IdentityRows(Model())) && Lists(owners, OwnerRows(Model()))
      requires Lists(keyNodes, KeyRows(Model())) && Lists(edges, EdgeRows(Model()))
      modifies `outbox, `nextId
      ensures Valid()
      ensures old(outbox) != [] ==> Rows() == old(Rows())
      ensures old(outbox) == [] ==> forall op :: Has(Rows(), op) <==> op in Everything(old(Model()))
    {
      if outbox != [] {
        return;
      }
      BackfillEstablishesInv(Model(), identities, owners, keyNodes, edges);
      InsertSelected(identities);
      InsertSelected(owners);
      InsertSelected(keyNodes);
      InsertSelected(edges);
    }
  }
}
