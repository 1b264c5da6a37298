/** What delivering past a backed-off row can cost: a run in which an edge is given
    up on although the row it needs was never refused and never counted.
 */
module OutboxStarvation {
  import opened KeyRegistry
  import opened OutboxDrain

  /** One key's three rows: the identity still waiting, never yet counted. */
  function OneKey(pial: Uuid, key: Uuid, due: Time, keyRow: Item, edge: Item): seq<Item> {
    [Item(Node(PialName(pial)), Waiting, 0, due), keyRow, edge]
  }

  function EdgeItem(pial: Uuid, key: Uuid, attempts: nat, due: Time): Item {
    Item(SignsFor(key, pial), if attempts < MAX_ATTEMPTS then Waiting else Blocked, attempts, due)
  }

  /** The key is registered; the edge has been sent back some number of times. */
  function Stuck(pial: Uuid, key: Uuid, attempts: nat, dueNode: Time, dueEdge: Time): World {
    World(OneKey(pial, key, dueNode, Item(Node(KeyName(key)), Delivered, 0, 0), EdgeItem(pial, key, attempts, dueEdge)),
          Plane(map[KeyName(key) := 0], {}, ["key"], {}))
  }

  /** All three rows committed and due, before any was sent. */
  function Fresh(pial: Uuid, key: Uuid): World {
    World(OneKey(pial, key, 0, Item(Node(KeyName(key)), Waiting, 0, 0), EdgeItem(pial, key, 0, 0)), EMPTY.plane)
  }

  function ReadyAt(items: seq<Item>, now: Time, i: nat): seq<nat>
    requires i < |items|
  {
    if Ready(items[i], now) then [i] else []
  }

  lemma {:induction false} OneMoreReady(items: seq<Item>, now: Time, n: nat)
    requires n < |items|
    ensures ReadyBelow(items, now, n + 1) == ReadyBelow(items, now, n) + ReadyAt(items, now, n)
  {
  }

  lemma {:induction false} BatchOfThree(items: seq<Item>, now: Time)
    requires |items| == 3
    ensures Batch(items, now) == ReadyAt(items, now, 0) + ReadyAt(items, now, 1) + ReadyAt(items, now, 2)
  {
    OneMoreReady(items, now, 0);
    OneMoreReady(items, now, 1);
    OneMoreReady(items, now, 2);
  }

  lemma {:induction false} WalkOne(p: Plane, ask: Ask)
    ensures var (q, o) := ApplyOne(p, ask); Walk(p, [ask]) == Walked(q, [o], o.Retry? || o.Error?)
  {
  }

  /** A batch whose first row meets a fault: that row is held and nothing else changes. */
  lemma {:induction false} FaultHoldsTheHead(w: World, now: Time, at: Time, moods: seq<Mood>)
    requires |moods| == |Batch(w.items, now)| > 0 && moods[0] == Faulty
    ensures DrainBatch(w, now, at, moods, Heard(1)).items ==
            w.items[Batch(w.items, now)[0] := Hold(w.items[Batch(w.items, now)[0]], at)]
    ensures DrainBatch(w, now, at, moods, Heard(1)).plane == w.plane
  {
    var b := Batch(w.items, now);
    var asks := Asks(w.items, b, moods);
    VerdictAt(w.plane, asks, 0);
    assert Act(w.items, b, Walk(w.plane, asks).outcomes, 0, at) == (w.items, true);
    FaultFreezes(w.plane, asks);
  }

  lemma {:induction false} FaultFreezes(p: Plane, asks: seq<Ask>)
    requires asks != [] && asks[0].mood == Faulty
    ensures Walk(p, asks).plane == p && Walk(p, asks).halted
    decreases |asks|
  {
    if |asks| > 1 {
      FaultFreezes(p, asks[..|asks| - 1]);
    } else {
      assert asks[..0] == [];
    }
  }

  /** A batch of one row that the plane sends back. */
  lemma {:induction false} OnlyRowSentBack(w: World, now: Time, i: nat)
    requires Batch(w.items, now) == [i] && i < |w.items|
    requires ApplyOne(w.plane, Ask(w.items[i].op, Fine)) == (w.plane, Retry)
    ensures DrainBatch(w, now, now, [Fine], Heard(1)) == World(w.items[i := SendBack(w.items[i], now)], w.plane)
  {
    var ask := Ask(w.items[i].op, Fine);
    assert Asks(w.items, [i], [Fine]) == [ask];
    WalkOne(w.plane, ask);
    assert Act(w.items, [i], [Retry], 0, now) == (w.items, true);
  }

  lemma {:induction false} OnlyTheEdgeIsReady(pial: Uuid, key: Uuid, attempts: nat, dueNode: Time, dueEdge: Time,
      now: Time)
    requires attempts < MAX_ATTEMPTS && dueEdge <= now < dueNode
    ensures Batch(Stuck(pial, key, attempts, dueNode, dueEdge).items, now) == [2]
  {
    BatchOfThree(Stuck(pial, key, attempts, dueNode, dueEdge).items, now);
  }

  lemma {:induction false} SentBackOnceMore(pial: Uuid, key: Uuid, attempts: nat, due: Time, now: Time)
    requires attempts < MAX_ATTEMPTS
    ensures SendBack(EdgeItem(pial, key, attempts, due), now)
            == EdgeItem(pial, key, attempts + 1, now + BackoffSeconds(attempts) * SECOND)
  {
  }

  /** The edge read on its own, because the held row is not due yet, is sent back. */
  lemma {:induction false} LoneEdgeIsSentBack(pial: Uuid, key: Uuid, attempts: nat, dueNode: Time, dueEdge: Time,
      now: Time)
    requires attempts < MAX_ATTEMPTS && dueEdge <= now < dueNode
    ensures Answerable(Batch(Stuck(pial, key, attempts, dueNode, dueEdge).items, now), [Fine], Heard(1))
    ensures DrainBatch(Stuck(pial, key, attempts, dueNode, dueEdge), now, now, [Fine], Heard(1))
            == Stuck(pial, key, attempts + 1, dueNode, now + BackoffSeconds(attempts) * SECOND)
  {
    var w := Stuck(pial, key, attempts, dueNode, dueEdge);
    var after := Stuck(pial, key, attempts + 1, dueNode, now + BackoffSeconds(attempts) * SECOND);
    OnlyTheEdgeIsReady(pial, key, attempts, dueNode, dueEdge, now);
    OnlyRowSentBack(w, now, 2);
    SentBackOnceMore(pial, key, attempts, dueEdge, now);
    assert w.items[2 := SendBack(w.items[2], now)] == after.items;
  }

  /** A fault on the identity's row holds it for an interval counted from when the verdict is acted on. */
  lemma {:induction false} FaultHoldsTheIdentity(pial: Uuid, key: Uuid, attempts: nat, dueNode: Time, dueEdge: Time,
      now: Time)
    requires attempts < MAX_ATTEMPTS && dueNode <= now && dueEdge <= now
    ensures Answerable(Batch(Stuck(pial, key, attempts, dueNode, dueEdge).items, now), [Faulty, Fine], Heard(1))
    ensures DrainBatch(Stuck(pial, key, attempts, dueNode, dueEdge), now, now + 1, [Faulty, Fine], Heard(1))
            == Stuck(pial, key, attempts, now + 1 + DRAIN_INTERVAL, dueEdge)
  {
    var w := Stuck(pial, key, attempts, dueNode, dueEdge);
    BatchOfThree(w.items, now);
    assert Batch(w.items, now) == [0, 2];
    FaultHoldsTheHead(w, now, now + 1, [Faulty, Fine]);
    assert w.items[0 := Hold(w.items[0], now + 1)] == Stuck(pial, key, attempts, now + 1 + DRAIN_INTERVAL, dueEdge).items;
  }

  lemma {:induction false} IdentityHeldAgain(w: World, steps: seq<Step>, pial: Uuid, key: Uuid, attempts: nat,
      dueNode: Time, dueEdge: Time, now: Time)
    requires attempts < MAX_ATTEMPTS && dueNode <= now && dueEdge <= now
    requires Follows(w, steps, Stuck(pial, key, attempts, dueNode, dueEdge))
    ensures Follows(w, steps + [Drained(now, now + 1, [Faulty, Fine], Heard(1))],
                    Stuck(pial, key, attempts, now + 1 + DRAIN_INTERVAL, dueEdge))
  {
    FaultHoldsTheIdentity(pial, key, attempts, dueNode, dueEdge, now);
    OneMoreStep(w, steps, Stuck(pial, key, attempts, dueNode, dueEdge), Drained(now, now + 1, [Faulty, Fine], Heard(1)));
  }

  lemma {:induction false} EdgeSentBackAgain(w: World, steps: seq<Step>, pial: Uuid, key: Uuid, attempts: nat,
      dueNode: Time, dueEdge: Time, now: Time)
    requires attempts < MAX_ATTEMPTS && dueEdge <= now < dueNode
    requires Follows(w, steps, Stuck(pial, key, attempts, dueNode, dueEdge))
    ensures Follows(w, steps + [Drained(now, now, [Fine], Heard(1))],
                    Stuck(pial, key, attempts + 1, dueNode, now + BackoffSeconds(attempts) * SECOND))
  {
    LoneEdgeIsSentBack(pial, key, attempts, dueNode, dueEdge, now);
    OneMoreStep(w, steps, Stuck(pial, key, attempts, dueNode, dueEdge), Drained(now, now, [Fine], Heard(1)));
  }

  /** Two ticks: the second comes an interval after the first read, and so finds the
      edge due and the identity not.
   */
  lemma {:induction false} StuckRound(w: World, steps: seq<Step>, pial: Uuid, key: Uuid, attempts: nat,
      dueNode: Time, dueEdge: Time)
    returns (more: seq<Step>, later: Time, next: Time)
    requires attempts < MAX_ATTEMPTS && Follows(w, steps, Stuck(pial, key, attempts, dueNode, dueEdge))
    ensures Follows(w, more, Stuck(pial, key, attempts + 1, later, next))
  {
    var now := if dueNode <= dueEdge then dueEdge else dueNode;
    IdentityHeldAgain(w, steps, pial, key, attempts, dueNode, dueEdge, now);
    later, more := now + 1 + DRAIN_INTERVAL, steps + [Drained(now, now + 1, [Faulty, Fine], Heard(1))];
    var tick := now + DRAIN_INTERVAL;
    EdgeSentBackAgain(w, more, pial, key, attempts, later, dueEdge, tick);
    next, more := tick + BackoffSeconds(attempts) * SECOND, more + [Drained(tick, tick, [Fine], Heard(1))];
  }

  lemma {:induction false} StuckRounds(w: World, steps: seq<Step>, pial: Uuid, key: Uuid, attempts: nat,
      dueNode: Time, dueEdge: Time)
    returns (more: seq<Step>, later: Time, next: Time)
    requires attempts <= MAX_ATTEMPTS && Follows(w, steps, Stuck(pial, key, attempts, dueNode, dueEdge))
    ensures Follows(w, more, Stuck(pial, key, MAX_ATTEMPTS, later, next))
    decreases MAX_ATTEMPTS - attempts
  {
    more, later, next := steps, dueNode, dueEdge;
    if attempts < MAX_ATTEMPTS {
      more, later, next := StuckRound(w, steps, pial, key, attempts, dueNode, dueEdge);
      more, later, next := StuckRounds(w, more, pial, key, attempts + 1, later, next);
    }
  }

  /** Three rows of one registration, committed and due. */
  lemma {:induction false} Registered3(pial: Uuid, key: Uuid) returns (steps: seq<Step>)
    ensures Follows(EMPTY, steps, Fresh(pial, key))
  {
    var a, b, c := Item(Node(PialName(pial)), Hidden, 0, 0), Item(Node(KeyName(key)), Hidden, 0, 0), Item(SignsFor(key, pial), Hidden, 0, 0);
    var p := EMPTY.plane;
    OneMoreStep(EMPTY, [], EMPTY, Queued(a.op));
    assert [] + [a] == [a];
    OneMoreStep(EMPTY, [] + [Queued(a.op)], World([a], p), Queued(b.op));
    assert [a] + [b] == [a, b];
    OneMoreStep(EMPTY, [] + [Queued(a.op)] + [Queued(b.op)], World([a, b], p), Queued(c.op));
    assert [a, b] + [c] == [a, b, c];
    steps := CommitThree([] + [Queued(a.op)] + [Queued(b.op)] + [Queued(c.op)], pial, key);
  }

  lemma {:induction false} CommitThree(steps: seq<Step>, pial: Uuid, key: Uuid) returns (more: seq<Step>)
    requires Follows(EMPTY, steps, World([Item(Node(PialName(pial)), Hidden, 0, 0), Item(Node(KeyName(key)), Hidden, 0, 0),
                                          Item(SignsFor(key, pial), Hidden, 0, 0)], EMPTY.plane))
    ensures Follows(EMPTY, more, Fresh(pial, key))
  {
    var p := EMPTY.plane;
    var all := Fresh(pial, key).items;
    var b, c := Item(Node(KeyName(key)), Hidden, 0, 0), Item(SignsFor(key, pial), Hidden, 0, 0);
    var none := [Item(Node(PialName(pial)), Hidden, 0, 0), b, c];
    var one, two := [all[0], b, c], [all[0], all[1], c];
    OneMoreStep(EMPTY, steps, World(none, p), Committed(0, 0));
    assert none[0 := all[0]] == one;
    OneMoreStep(EMPTY, steps + [Committed(0, 0)], World(one, p), Committed(1, 0));
    assert one[1 := all[1]] == two;
    assert Visible(two, 0) && Visible(two, 1);
    OneMoreStep(EMPTY, steps + [Committed(0, 0)] + [Committed(1, 0)], World(two, p), Committed(2, 0));
    assert two[2 := all[2]] == all;
    more := steps + [Committed(0, 0)] + [Committed(1, 0)] + [Committed(2, 0)];
  }

  /** The first two ticks: the identity meets a fault, then the key lands and the
      edge, alone with it, is sent back once.
   */
  lemma {:induction false} FirstRound(pial: Uuid, key: Uuid)
    ensures Answerable(Batch(Fresh(pial, key).items, 0), [Faulty, Fine, Fine], Heard(1))
    ensures var held := DrainBatch(Fresh(pial, key), 0, 1, [Faulty, Fine, Fine], Heard(1));
            && Answerable(Batch(held.items, DRAIN_INTERVAL), [Fine, Fine], Heard(2))
            && DrainBatch(held, DRAIN_INTERVAL, DRAIN_INTERVAL, [Fine, Fine], Heard(2))
               == Stuck(pial, key, 1, 1 + DRAIN_INTERVAL, DRAIN_INTERVAL + SECOND)
  {
    var w := Fresh(pial, key);
    BatchOfThree(w.items, 0);
    assert Batch(w.items, 0) == [0, 1, 2];
    FaultHoldsTheHead(w, 0, 1, [Faulty, Fine, Fine]);
    var held := DrainBatch(w, 0, 1, [Faulty, Fine, Fine], Heard(1));
    assert held.items == OneKey(pial, key, 1 + DRAIN_INTERVAL, w.items[1], w.items[2]);
    BatchOfThree(held.items, DRAIN_INTERVAL);
    KeyLandsEdgeWaits(pial, key, held);
  }

  lemma {:induction false} KeyLandsEdgeWaits(pial: Uuid, key: Uuid, w: World)
    requires w == World(OneKey(pial, key, 1 + DRAIN_INTERVAL, Item(Node(KeyName(key)), Waiting, 0, 0), EdgeItem(pial, key, 0, 0)), EMPTY.plane)
    requires Batch(w.items, DRAIN_INTERVAL) == [1, 2]
    ensures DrainBatch(w, DRAIN_INTERVAL, DRAIN_INTERVAL, [Fine, Fine], Heard(2))
            == Stuck(pial, key, 1, 1 + DRAIN_INTERVAL, DRAIN_INTERVAL + SECOND)
  {
    var after := Stuck(pial, key, 1, 1 + DRAIN_INTERVAL, DRAIN_INTERVAL + SECOND);
    var asks := Asks(w.items, [1, 2], [Fine, Fine]);
    assert asks[..1] == [Ask(Node(KeyName(key)), Fine)];
    WalkOne(w.plane, asks[0]);
    assert Walk(w.plane, asks[..1]) == Walked(after.plane, [Applied], false);
    assert Walk(w.plane, asks) == Walked(after.plane, [Applied, Retry], true);
    assert Act(w.items, [1, 2], [Applied, Retry], 0, DRAIN_INTERVAL) == (w.items, true);
    assert Act(w.items, [1, 2], [Applied, Retry], 1, DRAIN_INTERVAL) == (w.items[1 := after.items[1]], true);
    assert Act(w.items, [1, 2], [Applied, Retry], 2, DRAIN_INTERVAL).0 == after.items;
  }

  /** Because backed-off rows are passed over, an edge can be quarantined for want of
      an identity whose row is merely held: faults are never counted against it.
   */
  lemma {:induction false} EdgeQuarantinedBehindAHeldNode(pial: Uuid, key: Uuid) returns (steps: seq<Step>, w: World)
    ensures Follows(EMPTY, steps, w) && |w.items| == 3
    ensures w.items[0].op == Node(PialName(pial)) && w.items[0].state == Waiting && w.items[0].attempts == 0
    ensures w.items[2].op == SignsFor(key, pial) && w.items[2].state == Blocked
  {
    var registered := Registered3(pial, key);
    FirstRound(pial, key);
    var first := Drained(0, 1, [Faulty, Fine, Fine], Heard(1));
    OneMoreStep(EMPTY, registered, Fresh(pial, key), first);
    var second := Drained(DRAIN_INTERVAL, DRAIN_INTERVAL, [Fine, Fine], Heard(2));
    OneMoreStep(EMPTY, registered + [first], OutboxDrain.Next(Fresh(pial, key), first), second);
    var later, next;
    steps, later, next := StuckRounds(EMPTY, registered + [first] + [second], pial, key, 1, 1 + DRAIN_INTERVAL, DRAIN_INTERVAL + SECOND);
    w := Stuck(pial, key, MAX_ATTEMPTS, later, next);
  }
}
