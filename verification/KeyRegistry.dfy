/** Identities, the keys that sign for them, and the outbox rows their triggers
    write in the same transaction.

    A key is a node of its own with one signs_for edge to its identity. Its id
    names the key material: new material mints a new id, the same material keeps
    the id it has.
 */
module KeyRegistry {

  type Uuid = int

  /** "pial:<uuid>" and "uuid:<uuid>", the names a payload carries. */
  datatype Name = PialName(pial: Uuid) | KeyName(key: Uuid)

  /** One registration. The payload and the dedup_key are both printed from these
      names, so two rows have the same dedup_key exactly when their ops are equal.
   */
  datatype Op = Node(name: Name) | SignsFor(key: Uuid, owner: Uuid)

  // ── The outbox ─────────────────────────────────────────────────────────────

  datatype Row = Row(id: nat, op: Op)

  /** next is the BIGSERIAL's next value. */
  datatype Queue = Queue(rows: seq<Row>, next: nat)

  predicate HasBefore(rows: seq<Row>, n: int, op: Op)
    requires n <= |rows|
  {
    exists k :: 0 <= k < n && rows[k].op == op
  }

  predicate Has(q: Queue, op: Op) {
    HasBefore(q.rows, |q.rows|, op)
  }

  /** manhattan_enqueue: INSERT … ON CONFLICT (dedup_key) DO NOTHING. The id is
      drawn before the conflict is seen, so a refused row leaves a gap.
   */
  function Enqueue(q: Queue, op: Op): Queue {
    if Has(q, op) then q.(next := q.next + 1)
    else Queue(q.rows + [Row(q.next, op)], q.next + 1)
  }

  /** manhattan_register_key: identity, key, edge. */
  function RegisterKey(q: Queue, pial: Uuid, key: Uuid): Queue {
    Enqueue(Enqueue(Enqueue(q, Node(PialName(pial))), Node(KeyName(key))), SignsFor(key, pial))
  }

  predicate IdsAscend(q: Queue) {
    && (forall k :: 0 <= k < |q.rows| ==> q.rows[k].id < q.next)
    && (forall j, k :: 0 <= j < k < |q.rows| ==> q.rows[j].id < q.rows[k].id)
  }

  predicate NoRepeats(q: Queue) {
    forall j, k :: 0 <= j < k < |q.rows| ==> q.rows[j].op != q.rows[k].op
  }

  predicate BothEndsBefore(rows: seq<Row>, k: int)
    requires 0 <= k < |rows|
  {
    rows[k].op.SignsFor? ==>
      HasBefore(rows, k, Node(KeyName(rows[k].op.key))) && HasBefore(rows, k, Node(PialName(rows[k].op.owner)))
  }

  /** Both node rows of every edge come before it. */
  predicate EndsFirst(q: Queue) {
    forall k :: 0 <= k < |q.rows| ==> BothEndsBefore(q.rows, k)
  }

  predicate OneOwner(q: Queue) {
    forall j, k | 0 <= j < |q.rows| && 0 <= k < |q.rows| && q.rows[j].op.SignsFor? && q.rows[k].op.SignsFor? ::
      q.rows[j].op.key == q.rows[k].op.key ==> q.rows[j].op.owner == q.rows[k].op.owner
  }

  predicate Sound(q: Queue) {
    IdsAscend(q) && NoRepeats(q) && EndsFirst(q) && OneOwner(q)
  }

  /** after is before with exactly the registrations in ops added, appended. */
  ghost predicate Extends(before: Queue, after: Queue, ops: set<Op>) {
    && before.rows <= after.rows
    && (forall op :: Has(after, op) <==> Has(before, op) || op in ops)
  }

  lemma {:induction false} EnqueueExtends(q: Queue, op: Op)
    ensures Extends(q, Enqueue(q, op), {op})
  {
    var after := Enqueue(q, op);
    if !Has(q, op) {
      assert after.rows[|q.rows|].op == op;
      forall other | Has(q, other)
        ensures Has(after, other)
      {
        var k :| 0 <= k < |q.rows| && q.rows[k].op == other;
        assert after.rows[k].op == other;
      }
    }
  }

  lemma {:induction false} ExtendsChain(a: Queue, b: Queue, c: Queue, first: set<Op>, second: set<Op>)
    requires Extends(a, b, first) && Extends(b, c, second)
    ensures Extends(a, c, first + second)
  {
  }

  /** No edge of this key names another identity. */
  ghost predicate Unclaimed(q: Queue, key: Uuid, owner: Uuid) {
    forall o :: Has(q, SignsFor(key, o)) ==> o == owner
  }

  lemma {:induction false} OldRowsStillBacked(q: Queue, row: Row, k: int)
    requires 0 <= k < |q.rows| && BothEndsBefore(q.rows, k)
    ensures BothEndsBefore(q.rows + [row], k)
  {
    var rows := q.rows + [row];
    forall op | HasBefore(q.rows, k, op)
      ensures HasBefore(rows, k, op)
    {
      var j :| 0 <= j < k && q.rows[j].op == op;
      assert rows[j].op == op;
    }
  }

  lemma {:induction false} EnqueueKeepsSound(q: Queue, op: Op)
    requires Sound(q)
    requires op.SignsFor? ==> Has(q, Node(KeyName(op.key))) && Has(q, Node(PialName(op.owner))) && Unclaimed(q, op.key, op.owner)
    ensures Sound(Enqueue(q, op))
  {
    if !Has(q, op) {
      var row := Row(q.next, op);
      var after := Enqueue(q, op);
      forall k | 0 <= k < |after.rows|
        ensures BothEndsBefore(after.rows, k)
      {
        if k < |q.rows| {
          OldRowsStillBacked(q, row, k);
        } else if op.SignsFor? {
          LastRowBacked(q, op);
        }
      }
      forall k | 0 <= k < |q.rows| && op.SignsFor? && q.rows[k].op.SignsFor? && q.rows[k].op.key == op.key
        ensures false
      {
        assert Has(q, SignsFor(op.key, q.rows[k].op.owner));
      }
    }
  }

  lemma {:induction false} LastRowBacked(q: Queue, op: Op)
    requires op.SignsFor? && Has(q, Node(KeyName(op.key))) && Has(q, Node(PialName(op.owner)))
    ensures BothEndsBefore(q.rows + [Row(q.next, op)], |q.rows|)
  {
    var rows := q.rows + [Row(q.next, op)];
    var j :| 0 <= j < |q.rows| && q.rows[j].op == Node(KeyName(op.key));
    var k :| 0 <= k < |q.rows| && q.rows[k].op == Node(PialName(op.owner));
    assert rows[j].op == Node(KeyName(op.key)) && rows[k].op == Node(PialName(op.owner));
  }

  function KeyOps(pial: Uuid, key: Uuid): set<Op> {
    {Node(PialName(pial)), Node(KeyName(key)), SignsFor(key, pial)}
  }

  lemma {:induction false} RegisterKeyAdds(q: Queue, pial: Uuid, key: Uuid)
    requires Sound(q) && Unclaimed(q, key, pial)
    ensures Sound(RegisterKey(q, pial, key))
    ensures Extends(q, RegisterKey(q, pial, key), KeyOps(pial, key))
  {
    var first := Enqueue(q, Node(PialName(pial)));
    var second := Enqueue(first, Node(KeyName(key)));
    EnqueueExtends(q, Node(PialName(pial)));
    EnqueueExtends(first, Node(KeyName(key)));
    EnqueueExtends(second, SignsFor(key, pial));
    EnqueueKeepsSound(q, Node(PialName(pial)));
    EnqueueKeepsSound(first, Node(KeyName(key)));
    EnqueueKeepsSound(second, SignsFor(key, pial));
  }

  /** The rows appended are those of the three that were missing, in this order, each under
      the id its place in the order draws; every attempt draws one.
   */
  lemma {:induction false} RegisterKeyRows(q: Queue, pial: Uuid, key: Uuid)
    ensures var identity, material, edge := Node(PialName(pial)), Node(KeyName(key)), SignsFor(key, pial);
            RegisterKey(q, pial, key) ==
              Queue(q.rows + (if Has(q, identity) then [] else [Row(q.next, identity)])
                           + (if Has(q, material) then [] else [Row(q.next + 1, material)])
                           + (if Has(q, edge) then [] else [Row(q.next + 2, edge)]),
                    q.next + 3)
  {
    var first := Enqueue(q, Node(PialName(pial)));
    EnqueueExtends(q, Node(PialName(pial)));
    EnqueueExtends(first, Node(KeyName(key)));
  }

  // ── The tables ─────────────────────────────────────────────────────────────

  datatype Use = Signing | Ecdh

  /** One row of pial_signing_keys or pial_ecdh_keys. */
  datatype Held = Held(keyId: Uuid, material: string)

  datatype Store = Store(pials: set<Uuid>, keys: map<(Use, Uuid), Held>, queue: Queue)

  /** pial_bootstrap: the conflict branch touches updated_at alone, so the
      UPDATE OF pial_id trigger does not fire.
   */
  function Bootstrap(s: Store, pial: Uuid): Store {
    if pial in s.pials then s
    else s.(pials := s.pials + {pial}, queue := Enqueue(s.queue, Node(PialName(pial))))
  }

  /** The key_id an upsert leaves in the row; drawn is gen_random_uuid(). */
  function KeyIdAfter(s: Store, use: Use, pial: Uuid, material: string, drawn: Uuid): Uuid {
    if (use, pial) in s.keys && s.keys[(use, pial)].material == material then s.keys[(use, pial)].keyId
    else drawn
  }

  /** upsert_signing_key and upsert_ecdh_key. The conflict branch assigns key_id,
      so the trigger fires whether or not the id changed.
   */
  function Upsert(s: Store, use: Use, pial: Uuid, material: string, drawn: Uuid): Store {
    var key := KeyIdAfter(s, use, pial, material, drawn);
    s.(keys := s.keys[(use, pial) := Held(key, material)], queue := RegisterKey(s.queue, pial, key))
  }

  /** A drawn id is new: no row has ever named it. */
  predicate NeverDrawn(s: Store, key: Uuid) {
    !Has(s.queue, Node(KeyName(key)))
  }

  predicate KeysQueued(s: Store) {
    forall slot :: slot in s.keys ==> Has(s.queue, SignsFor(s.keys[slot].keyId, slot.1))
  }

  predicate IdentitiesQueued(s: Store) {
    forall p :: p in s.pials ==> Has(s.queue, Node(PialName(p)))
  }

  predicate NoSharedIds(keys: map<(Use, Uuid), Held>) {
    forall a, b :: a in keys && b in keys && keys[a].keyId == keys[b].keyId ==> a == b
  }

  predicate Inv(s: Store) {
    Sound(s.queue) && KeysQueued(s) && IdentitiesQueued(s) && NoSharedIds(s.keys)
  }

  /** A key's edge comes with its node, so an id never drawn has no edge either. */
  lemma {:induction false} EdgeMeansDrawn(q: Queue, key: Uuid, owner: Uuid)
    requires Sound(q) && Has(q, SignsFor(key, owner))
    ensures Has(q, Node(KeyName(key))) && Has(q, Node(PialName(owner)))
    ensures Unclaimed(q, key, owner)
  {
    var k :| 0 <= k < |q.rows| && q.rows[k].op == SignsFor(key, owner);
    assert BothEndsBefore(q.rows, k);
  }

  lemma {:induction false} BootstrapKeepsInv(s: Store, pial: Uuid)
    requires Inv(s)
    ensures Inv(Bootstrap(s, pial))
  {
    EnqueueKeepsSound(s.queue, Node(PialName(pial)));
    EnqueueExtends(s.queue, Node(PialName(pial)));
  }

  lemma {:induction false} UpsertClaims(s: Store, use: Use, pial: Uuid, material: string, drawn: Uuid)
    requires Inv(s) && NeverDrawn(s, drawn)
    ensures var key := KeyIdAfter(s, use, pial, material, drawn);
            && Unclaimed(s.queue, key, pial)
            && (forall slot :: slot in s.keys && s.keys[slot].keyId == key ==> slot == (use, pial))
  {
    forall slot | slot in s.keys
      ensures s.keys[slot].keyId != drawn
    {
      EdgeMeansDrawn(s.queue, s.keys[slot].keyId, slot.1);
    }
    forall o | Has(s.queue, SignsFor(drawn, o))
      ensures false
    {
      EdgeMeansDrawn(s.queue, drawn, o);
    }
    if KeyIdAfter(s, use, pial, material, drawn) != drawn {
      EdgeMeansDrawn(s.queue, s.keys[(use, pial)].keyId, pial);
    }
  }

  lemma {:induction false} UpsertKeepsInv(s: Store, use: Use, pial: Uuid, material: string, drawn: Uuid)
    requires Inv(s) && NeverDrawn(s, drawn)
    ensures Inv(Upsert(s, use, pial, material, drawn))
  {
    UpsertClaims(s, use, pial, material, drawn);
    var key := KeyIdAfter(s, use, pial, material, drawn);
    RegisterKeyAdds(s.queue, pial, key);
    assert SignsFor(key, pial) in KeyOps(pial, key);
    StillQueued(s, Upsert(s, use, pial, material, drawn), (use, pial));
  }

  /** Changing one slot and queueing its edge leaves everything on file queued. */
  lemma {:induction false} StillQueued(s: Store, after: Store, slot: (Use, Uuid))
    requires KeysQueued(s) && IdentitiesQueued(s) && after.pials == s.pials
    requires slot in after.keys && after.keys == s.keys[slot := after.keys[slot]]
    requires forall op :: Has(s.queue, op) ==> Has(after.queue, op)
    requires Has(after.queue, SignsFor(after.keys[slot].keyId, slot.1))
    ensures KeysQueued(after) && IdentitiesQueued(after)
  {
  }

  // ── Runs ───────────────────────────────────────────────────────────────────

  datatype Action =
    | Boot(pial: Uuid)
    | Put(use: Use, pial: Uuid, material: string, drawn: Uuid)

  predicate Legal(s: Store, a: Action) {
    a.Put? ==> NeverDrawn(s, a.drawn)
  }

  function Next(s: Store, a: Action): Store {
    match a
    case Boot(pial) => Bootstrap(s, pial)
    case Put(use, pial, material, drawn) => Upsert(s, use, pial, material, drawn)
  }

  function Run(s: Store, actions: seq<Action>): Store
    decreases |actions|
  {
    if actions == [] then s else Run(Next(s, actions[0]), actions[1..])
  }

  predicate LegalRun(s: Store, actions: seq<Action>)
    decreases |actions|
  {
    actions == [] || (Legal(s, actions[0]) && LegalRun(Next(s, actions[0]), actions[1..]))
  }

  lemma {:induction false} StepKeepsInv(s: Store, a: Action)
    requires Inv(s) && Legal(s, a)
    ensures Inv(Next(s, a))
  {
    match a
    case Boot(pial) => BootstrapKeepsInv(s, pial);
    case Put(use, pial, material, drawn) => UpsertKeepsInv(s, use, pial, material, drawn);
  }

  /** In every reachable outbox both node rows of an edge precede it, no registration
      repeats, and every identity and key on file is queued.
   */
  lemma {:induction false} RunKeepsInv(s: Store, actions: seq<Action>)
    requires Inv(s) && LegalRun(s, actions)
    ensures Inv(Run(s, actions))
    decreases |actions|
  {
    if actions != [] {
      StepKeepsInv(s, actions[0]);
      RunKeepsInv(Next(s, actions[0]), actions[1..]);
    }
  }

  /** The outbox only grows, and rows already in it never change. */
  lemma {:induction false} StepExtends(s: Store, a: Action)
    requires Inv(s) && Legal(s, a)
    ensures s.queue.rows <= Next(s, a).queue.rows
    ensures forall op :: Has(s.queue, op) ==> Has(Next(s, a).queue, op)
  {
  }

  /** A new id is minted exactly when the material changes; the same material adds no row. */
  lemma {:induction false} MintsExactlyOnNewMaterial(s: Store, use: Use, pial: Uuid, material: string, drawn: Uuid)
    requires Inv(s) && NeverDrawn(s, drawn)
    ensures var known := (use, pial) in s.keys && s.keys[(use, pial)].material == material;
            var after := Upsert(s, use, pial, material, drawn);
            && (known <==> after.queue.rows == s.queue.rows)
            && (known <==> after.keys == s.keys)
            && (!known ==> after.keys[(use, pial)].keyId == drawn && Has(after.queue, SignsFor(drawn, pial)))
  {
    UpsertClaims(s, use, pial, material, drawn);
    var key := KeyIdAfter(s, use, pial, material, drawn);
    RegisterKeyAdds(s.queue, pial, key);
    assert SignsFor(key, pial) in KeyOps(pial, key);
    if (use, pial) in s.keys {
      EdgeMeansDrawn(s.queue, s.keys[(use, pial)].keyId, pial);
    }
    assert Node(KeyName(key)) in KeyOps(pial, key);
  }

  /** An upsert leaves the material it was given in its slot and no other slot changed; the
      id is the old one for the same material and the drawn one otherwise, and what is
      queued besides is the identity, that id and the edge between them.
   */
  lemma {:induction false} UpsertExactly(s: Store, use: Use, pial: Uuid, material: string, drawn: Uuid)
    requires Inv(s) && NeverDrawn(s, drawn)
    ensures var slot := (use, pial);
            var same := slot in s.keys && s.keys[slot].material == material;
            var id := if same then s.keys[slot].keyId else drawn;
            var after := Upsert(s, use, pial, material, drawn);
            && after.pials == s.pials && after.keys == s.keys[slot := Held(id, material)]
            && s.queue.rows <= after.queue.rows && after.queue.next == s.queue.next + 3
            && forall op :: Has(after.queue, op) <==>
                 Has(s.queue, op) || op in {Node(PialName(pial)), Node(KeyName(id)), SignsFor(id, pial)}
  {
    UpsertClaims(s, use, pial, material, drawn);
    RegisterKeyAdds(s.queue, pial, KeyIdAfter(s, use, pial, material, drawn));
  }

  /** A bootstrap adds the identity and its row, and a second one changes nothing. */
  lemma {:induction false} BootstrapExactly(s: Store, pial: Uuid)
    requires Inv(s)
    ensures var after := Bootstrap(s, pial);
            && after.pials == s.pials + {pial} && after.keys == s.keys && s.queue.rows <= after.queue.rows
            && (forall op :: Has(after.queue, op) <==> Has(s.queue, op) || op == Node(PialName(pial)))
            && Bootstrap(after, pial) == after
            && (pial in s.pials ==> after == s)
  {
    EnqueueExtends(s.queue, Node(PialName(pial)));
    assert pial in s.pials ==> s.pials + {pial} == s.pials && Has(s.queue, Node(PialName(pial)));
  }

  /** A run is its actions one after the other. */
  lemma {:induction false} RunOfMore(s: Store, actions: seq<Action>, a: Action)
    ensures Run(s, []) == s && Run(s, actions + [a]) == Next(Run(s, actions), a)
    decreases |actions|
  {
    if actions == [] {
      assert [a][1..] == [] && [] + [a] == [a];
    } else {
      RunOfMore(Next(s, actions[0]), actions[1..], a);
      assert (actions + [a])[1..] == actions[1..] + [a];
    }
  }

  const BLANK: Store := Store({}, map[], Queue([], 1))

  /** From an empty database on, an edge's row has both its node rows before it under
      smaller ids, and no two rows share an id or a registration.
   */
  lemma {:induction false} EdgeRowsFollowTheirEnds(actions: seq<Action>, k: nat)
    requires LegalRun(BLANK, actions) && k < |Run(BLANK, actions).queue.rows|
    ensures var rows := Run(BLANK, actions).queue.rows;
            && (forall j :: 0 <= j < k ==> rows[j].id < rows[k].id && rows[j].op != rows[k].op)
            && (rows[k].op.SignsFor? ==>
                  && (exists j :: 0 <= j < k && rows[j].op == Node(KeyName(rows[k].op.key)))
                  && (exists j :: 0 <= j < k && rows[j].op == Node(PialName(rows[k].op.owner))))
  {
    RunKeepsInv(BLANK, actions);
    assert BothEndsBefore(Run(BLANK, actions).queue.rows, k);
  }

  lemma {:induction false} StepNeverRevives(s: Store, a: Action, key: Uuid)
    requires Legal(s, a) && Has(s.queue, Node(KeyName(key)))
    requires forall slot :: slot in s.keys ==> s.keys[slot].keyId != key
    ensures forall slot :: slot in Next(s, a).keys ==> Next(s, a).keys[slot].keyId != key
  {
  }

  /** Once drawn and in nobody's slot, an id never comes back. */
  lemma {:induction false} ReplacedIdsStayGone(s: Store, actions: seq<Action>, key: Uuid)
    requires Inv(s) && LegalRun(s, actions)
    requires Has(s.queue, Node(KeyName(key)))
    requires forall slot :: slot in s.keys ==> s.keys[slot].keyId != key
    ensures forall slot :: slot in Run(s, actions).keys ==> Run(s, actions).keys[slot].keyId != key
    decreases |actions|
  {
    if actions != [] {
      StepKeepsInv(s, actions[0]);
      StepExtends(s, actions[0]);
      StepNeverRevives(s, actions[0], key);
      ReplacedIdsStayGone(Next(s, actions[0]), actions[1..], key);
    }
  }

  /** One step either leaves a slot's key alone or takes its id out of use. */
  lemma {:induction false} StepKeepsOrRetires(s: Store, a: Action, slot: (Use, Uuid))
    requires Inv(s) && Legal(s, a) && slot in s.keys
    ensures slot in Next(s, a).keys
    ensures Next(s, a).keys[slot] == s.keys[slot]
            || forall other :: other in Next(s, a).keys ==> Next(s, a).keys[other].keyId != s.keys[slot].keyId
  {
    EdgeMeansDrawn(s.queue, s.keys[slot].keyId, slot.1);
  }

  /** key_id names the material: an id seen twice, however far apart, is the same
      key of the same identity for the same use.
   */
  lemma {:induction false} KeyIdNamesItsMaterial(s: Store, actions: seq<Action>, slot: (Use, Uuid), later: (Use, Uuid))
    requires Inv(s) && LegalRun(s, actions)
    requires slot in s.keys && later in Run(s, actions).keys
    requires s.keys[slot].keyId == Run(s, actions).keys[later].keyId
    ensures slot == later && s.keys[slot] == Run(s, actions).keys[later]
    decreases |actions|
  {
    if actions != [] {
      var key := s.keys[slot].keyId;
      StepKeepsInv(s, actions[0]);
      StepKeepsOrRetires(s, actions[0], slot);
      if Next(s, actions[0]).keys[slot] == s.keys[slot] {
        KeyIdNamesItsMaterial(Next(s, actions[0]), actions[1..], slot, later);
      } else {
        StepExtends(s, actions[0]);
        EdgeMeansDrawn(s.queue, key, slot.1);
        ReplacedIdsStayGone(Next(s, actions[0]), actions[1..], key);
      }
    }
  }

  /** Every key id ever drawn signs for exactly one identity, for good: its edge row
      is in the outbox of every later state and no other edge of that key ever is.
   */
  lemma {:induction false} SignsForOneIdentity(s: Store, actions: seq<Action>, key: Uuid, owner: Uuid, other: Uuid)
    requires Inv(s) && LegalRun(s, actions)
    requires Has(s.queue, SignsFor(key, owner))
    ensures Has(Run(s, actions).queue, SignsFor(key, owner))
    ensures Has(Run(s, actions).queue, SignsFor(key, other)) ==> other == owner
    decreases |actions|
  {
    if actions == [] {
      EdgeMeansDrawn(s.queue, key, owner);
    } else {
      StepKeepsInv(s, actions[0]);
      StepExtends(s, actions[0]);
      SignsForOneIdentity(Next(s, actions[0]), actions[1..], key, owner, other);
    }
  }
}
