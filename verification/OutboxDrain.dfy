/** The drain that delivers the outbox to the naming plane, batch by batch.

    A tick reads the rows that are due, sends them in id order, and acts on one
    verdict per row. The plane runs the operations in order and stops at the first
    that must hold its place. Rows that were sent back are due again later, and
    the read skips rows that are not due.
 */
module OutboxDrain {
  import opened KeyRegistry

  /** TIMESTAMPTZ, in microseconds. */
  type Time = int

  const SECOND: int := 1000000
  const DRAIN_INTERVAL: int := 10 * SECOND
  const DRAIN_BATCH: nat := 200
  const MAX_ATTEMPTS: nat := 12

  // ── The plane ──────────────────────────────────────────────────────────────

  type NodeId = nat

  /** kinds[n] is the kind of node n. bound records every name ever bound, whose row
      stays for good; a revoked name no longer resolves, and in the pial and uuid
      namespaces it is never bound again.
   */
  datatype Plane = Plane(bound: map<Name, NodeId>, revoked: set<Name>, kinds: seq<string>, edges: set<(NodeId, NodeId)>)

  predicate Resolves(p: Plane, n: Name) {
    n in p.bound && n !in p.revoked
  }

  datatype Outcome = Applied | Already | Refused | Retry | Error | Skipped

  /** What the plane's other rules, and its health, make of an operation: nothing,
      a refusal for good, a not-yet, or a fault of its own.
   */
  datatype Mood = Fine | Hopeless | Unready | Faulty

  datatype Ask = Ask(op: Op, mood: Mood)

  predicate NoDanglingEdges(p: Plane) {
    && (forall n :: n in p.bound ==> p.bound[n] < |p.kinds|)
    && (forall e :: e in p.edges ==> e.0 < |p.kinds| && e.1 < |p.kinds| && e.0 != e.1)
  }

  function KindOf(n: Name): string {
    if n.PialName? then "identity" else "key"
  }

  predicate Registered(p: Plane, n: Name) {
    n in p.bound && p.bound[n] < |p.kinds| && p.kinds[p.bound[n]] == KindOf(n)
  }

  /** The graph says what the row asked it to say, of the nodes that its names were bound to. */
  predicate Holds(p: Plane, op: Op) {
    match op
    case Node(n) => Registered(p, n)
    case SignsFor(key, owner) =>
      KeyName(key) in p.bound && PialName(owner) in p.bound && (p.bound[KeyName(key)], p.bound[PialName(owner)]) in p.edges
  }

  function ApplyNode(p: Plane, n: Name): (Plane, Outcome) {
    if n in p.revoked then (p, Refused)
    else if n in p.bound then (p, if Registered(p, n) then Already else Retry)
    else (Plane(p.bound[n := |p.kinds|], p.revoked, p.kinds + [KindOf(n)], p.edges), Applied)
  }

  function ApplyEdge(p: Plane, key: Uuid, owner: Uuid, mood: Mood): (Plane, Outcome) {
    if !Resolves(p, KeyName(key)) || !Resolves(p, PialName(owner)) then (p, Retry)
    else if mood == Unready then (p, Retry)
    else if mood == Hopeless then (p, Refused)
    else
      var edge := (p.bound[KeyName(key)], p.bound[PialName(owner)]);
      if edge.0 == edge.1 then (p, Refused)
      else if edge in p.edges then (p, Already)
      else (p.(edges := p.edges + {edge}), Applied)
  }

  function ApplyOne(p: Plane, ask: Ask): (Plane, Outcome) {
    if ask.mood == Faulty then (p, Error)
    else
      match ask.op
      case Node(n) =>
        if ask.mood == Hopeless then (p, Refused)
        else if ask.mood == Unready then (p, Retry)
        else ApplyNode(p, n)
      case SignsFor(key, owner) => ApplyEdge(p, key, owner, ask.mood)
  }

  /** The plane's answer to one operation, guard by guard, and what an applied one adds: a
      node under the kind its name says, bound to that name, or one edge.
   */
  lemma {:induction false} PlaneAnswersExactly(p: Plane, ask: Ask)
    requires NoDanglingEdges(p)
    ensures var (q, o) := ApplyOne(p, ask);
            match ask.op
            case Node(n) =>
              var kind := if n.PialName? then "identity" else "key";
              && o == (if ask.mood == Faulty then Error
                       else if ask.mood == Hopeless then Refused
                       else if ask.mood == Unready then Retry
                       else if n in p.revoked then Refused
                       else if n !in p.bound then Applied
                       else if p.kinds[p.bound[n]] == kind then Already else Retry)
              && q == (if o == Applied then Plane(p.bound[n := |p.kinds|], p.revoked, p.kinds + [kind], p.edges) else p)
            case SignsFor(key, owner) =>
              var there := forall n :: n in {KeyName(key), PialName(owner)} ==> n in p.bound && n !in p.revoked;
              && (o == Error <==> ask.mood == Faulty)
              && (o == Retry <==> ask.mood != Faulty && (!there || ask.mood == Unready))
              && (there && ask.mood in {Hopeless, Fine} ==>
                    var edge := (p.bound[KeyName(key)], p.bound[PialName(owner)]);
                    && o == (if ask.mood == Hopeless || edge.0 == edge.1 then Refused
                             else if edge in p.edges then Already else Applied)
                    && q == (if o == Applied then p.(edges := p.edges + {edge}) else p))
              && (o != Applied ==> q == p)
  {
  }

  datatype Walked = Walked(plane: Plane, outcomes: seq<Outcome>, halted: bool)

  /** apply_ops: one at a time, and everything after the first retry or error is skipped. */
  function Walk(p: Plane, asks: seq<Ask>): (w: Walked)
    ensures |w.outcomes| == |asks|
    decreases |asks|
  {
    if asks == [] then Walked(p, [], false)
    else
      var w := Walk(p, asks[..|asks| - 1]);
      if w.halted then w.(outcomes := w.outcomes + [Skipped])
      else
        var (q, o) := ApplyOne(w.plane, asks[|asks| - 1]);
        Walked(q, w.outcomes + [o], o.Retry? || o.Error?)
  }

  /** What anyone may do to the plane: bind and revoke names, add nodes, add edges between them. */
  ghost predicate Grows(p: Plane, q: Plane) {
    && (forall n :: n in p.bound ==> n in q.bound && q.bound[n] == p.bound[n])
    && p.revoked <= q.revoked
    && p.kinds <= q.kinds
    && p.edges <= q.edges
  }

  lemma {:induction false} GrowingKeeps(p: Plane, q: Plane, op: Op)
    requires Grows(p, q) && Holds(p, op)
    ensures Holds(q, op)
  {
  }

  /** An accepted operation is in the graph, an edge only between nodes that exist. */
  lemma {:induction false} ApplyOneIsTruthful(p: Plane, ask: Ask)
    requires NoDanglingEdges(p)
    ensures var (q, o) := ApplyOne(p, ask);
            && NoDanglingEdges(q) && Grows(p, q)
            && (o.Applied? || o.Already? ==> Holds(q, ask.op))
            && (!o.Applied? ==> q == p)
  {
  }

  predicate NamesResolve(p: Plane, op: Op) {
    match op
    case Node(n) => Resolves(p, n)
    case SignsFor(key, owner) => Resolves(p, KeyName(key)) && Resolves(p, PialName(owner))
  }

  /** A request whose answer was lost may be sent again, whatever others did in between:
      it changes nothing, and is answered Already exactly when nothing stands in its way
      and none of its names has been revoked since.
   */
  lemma {:induction false} ReplayIsSafe(p: Plane, ask: Ask, later: Plane, mood: Mood)
    requires NoDanglingEdges(p) && NoDanglingEdges(later)
    requires ApplyOne(p, ask).1.Applied? || ApplyOne(p, ask).1.Already?
    requires Grows(ApplyOne(p, ask).0, later)
    ensures ApplyOne(later, Ask(ask.op, mood)).0 == later
    ensures ApplyOne(later, Ask(ask.op, mood)).1.Already? <==> mood == Fine && NamesResolve(later, ask.op)
  {
    ApplyOneIsTruthful(p, ask);
    GrowingKeeps(ApplyOne(p, ask).0, later, ask.op);
  }

  lemma {:induction false} WalkIsTruthful(p: Plane, asks: seq<Ask>)
    requires NoDanglingEdges(p)
    ensures var w := Walk(p, asks);
            && NoDanglingEdges(w.plane) && Grows(p, w.plane)
            && forall m :: 0 <= m < |asks| && (w.outcomes[m].Applied? || w.outcomes[m].Already?) ==> Holds(w.plane, asks[m].op)
    decreases |asks|
  {
    if asks != [] {
      var init := asks[..|asks| - 1];
      WalkIsTruthful(p, init);
      var w := Walk(p, init);
      if !w.halted {
        ApplyOneIsTruthful(w.plane, asks[|asks| - 1]);
        forall m | 0 <= m < |init| && (w.outcomes[m].Applied? || w.outcomes[m].Already?)
          ensures Holds(Walk(p, asks).plane, asks[m].op)
        {
          assert init[m] == asks[m];
          GrowingKeeps(w.plane, Walk(p, asks).plane, asks[m].op);
        }
      }
    }
  }

  /** The verdict at m is what the plane says after the first m, none of which held. */
  lemma {:induction false} VerdictAt(p: Plane, asks: seq<Ask>, m: nat)
    requires m < |asks|
    ensures var before := Walk(p, asks[..m]);
            && (Walk(p, asks).outcomes[m] == if before.halted then Skipped else ApplyOne(before.plane, asks[m]).1)
            && (forall i :: 0 <= i < m ==> Walk(p, asks).outcomes[i] == before.outcomes[i])
    decreases |asks|
  {
    var init := asks[..|asks| - 1];
    if m < |init| {
      VerdictAt(p, init, m);
      assert init[..m] == asks[..m] && init[m] == asks[m];
    } else {
      assert init == asks[..m];
    }
  }

  // ── The queue ──────────────────────────────────────────────────────────────

  /** Hidden rows belong to a transaction that has not committed. */
  datatype State = Hidden | Waiting | Delivered | Blocked

  /** Rows stand in id order. */
  datatype Item = Item(op: Op, state: State, attempts: nat, due: Time)

  predicate Ready(item: Item, now: Time) {
    item.state == Waiting && item.due <= now
  }

  function ReadyBelow(items: seq<Item>, now: Time, n: nat): (found: seq<nat>)
    requires n <= |items|
    ensures forall m :: 0 <= m < |found| ==> found[m] < n
  {
    if n == 0 then []
    else if Ready(items[n - 1], now) then ReadyBelow(items, now, n - 1) + [n - 1]
    else ReadyBelow(items, now, n - 1)
  }

  /** The drain's read: due, neither delivered nor blocked, oldest first, at most DRAIN_BATCH. */
  function Batch(items: seq<Item>, now: Time): (b: seq<nat>)
    ensures forall m :: 0 <= m < |b| ==> b[m] < |items|
  {
    var all := ReadyBelow(items, now, |items|);
    if |all| <= DRAIN_BATCH then all else all[..DRAIN_BATCH]
  }

  predicate Ascending(b: seq<nat>) {
    forall x, y :: 0 <= x < y < |b| ==> b[x] < b[y]
  }

  predicate AllReady(items: seq<Item>, b: seq<nat>, now: Time) {
    forall m :: 0 <= m < |b| ==> b[m] < |items| && Ready(items[b[m]], now)
  }

  lemma {:induction false} ReadyBelowFacts(items: seq<Item>, now: Time, n: nat)
    requires n <= |items|
    ensures var found := ReadyBelow(items, now, n);
            Ascending(found) && AllReady(items, found, now) && forall i: nat :: i < n && Ready(items[i], now) ==> i in found
  {
    if n != 0 {
      ReadyBelowFacts(items, now, n - 1);
    }
  }

  lemma {:induction false} BatchFacts(items: seq<Item>, now: Time)
    ensures Ascending(Batch(items, now)) && AllReady(items, Batch(items, now), now)
  {
    ReadyBelowFacts(items, now, |items|);
  }

  /** A read takes every due row, or the 200 oldest of them when there are more. */
  lemma {:induction false} BatchExactly(items: seq<Item>, now: Time, i: nat)
    requires i < |items|
    ensures var b := Batch(items, now);
            && |b| <= 200
            && (i in b ==> items[i].state == Waiting && items[i].due <= now)
            && (items[i].state == Waiting && items[i].due <= now ==>
                  i in b || (|b| == 200 && forall m :: 0 <= m < 200 ==> b[m] < i))
  {
    var all := ReadyBelow(items, now, |items|);
    ReadyBelowFacts(items, now, |items|);
    if Ready(items[i], now) {
      var j :| 0 <= j < |all| && all[j] == i;
    }
  }

  /** A due row before one that was read was read too, and earlier. */
  lemma {:induction false} EarlierReadyIsRead(items: seq<Item>, now: Time, m: nat, i: nat) returns (j: nat)
    requires m < |Batch(items, now)| && i < Batch(items, now)[m] && Ready(items[i], now)
    ensures j < m && Batch(items, now)[j] == i
  {
    var all := ReadyBelow(items, now, |items|);
    ReadyBelowFacts(items, now, |items|);
    j :| 0 <= j < |all| && all[j] == i;
  }

  function Power2(n: nat): nat {
    if n == 0 then 1 else 2 * Power2(n - 1)
  }

  /** 1 << attempts.clamp(0, 11), at most an hour. */
  function BackoffSeconds(attempts: nat): nat {
    var b := Power2(if attempts <= 11 then attempts else 11);
    if b <= 3600 then b else 3600
  }

  /** hold: the plane did not answer about this row, so the attempt is not counted. */
  function Hold(item: Item, at: Time): Item {
    item.(due := at + DRAIN_INTERVAL)
  }

  /** retry: counted, backed off, and blocked at MAX_ATTEMPTS. */
  function SendBack(item: Item, at: Time): Item {
    Item(item.op, if item.attempts + 1 < MAX_ATTEMPTS then Waiting else Blocked,
         item.attempts + 1, at + BackoffSeconds(item.attempts) * SECOND)
  }

  function Acted(item: Item, o: Outcome, at: Time): Item {
    match o
    case Applied => item.(state := Delivered)
    case Already => item.(state := Delivered)
    case Refused => item.(attempts := item.attempts + 1, state := Blocked)
    case Retry => SendBack(item, at)
    case Error => Hold(item, at)
    case Skipped => item
  }

  /** The rows after verdicts on b[..n] have been acted on, until one still waits. */
  function Act(items: seq<Item>, b: seq<nat>, outcomes: seq<Outcome>, n: nat, at: Time): (r: (seq<Item>, bool))
    requires n <= |b| <= |outcomes| && forall m :: 0 <= m < |b| ==> b[m] < |items|
    ensures |r.0| == |items|
  {
    if n == 0 then (items, true)
    else
      var r := Act(items, b, outcomes, n - 1, at);
      if !r.1 then r
      else
        var i := b[n - 1];
        var item := Acted(r.0[i], outcomes[n - 1], at);
        (r.0[i := item], item.state != Waiting)
  }

  /** How a batch's request ended: its verdicts arrived and the drain acted on the
      first few before anything went wrong on its side, or no answer came and the
      plane had run the first few operations.
   */
  datatype Answer = Heard(acted: nat) | Lost(applied: nat)

  datatype World = World(items: seq<Item>, plane: Plane)

  function Asks(items: seq<Item>, b: seq<nat>, moods: seq<Mood>): (asks: seq<Ask>)
    requires |moods| == |b| && forall m :: 0 <= m < |b| ==> b[m] < |items|
    ensures |asks| == |b|
    ensures forall m :: 0 <= m < |b| ==> asks[m] == Ask(items[b[m]].op, moods[m])
  {
    if b == [] then []
    else Asks(items, b[..|b| - 1], moods[..|b| - 1]) + [Ask(items[b[|b| - 1]].op, moods[|b| - 1])]
  }

  predicate Answerable(b: seq<nat>, moods: seq<Mood>, answer: Answer) {
    |moods| == |b| && b != [] && (if answer.Heard? then answer.acted else answer.applied) <= |b|
  }

  /** drain_batch: read at now, act at a later instant. */
  function DrainBatch(w: World, now: Time, at: Time, moods: seq<Mood>, answer: Answer): World
    requires Answerable(Batch(w.items, now), moods, answer)
  {
    var b := Batch(w.items, now);
    var asks := Asks(w.items, b, moods);
    match answer
    case Heard(acted) =>
      var walked := Walk(w.plane, asks);
      World(Act(w.items, b, walked.outcomes, acted, at).0, walked.plane)
    case Lost(applied) =>
      World(w.items[b[0] := Hold(w.items[b[0]], at)], Walk(w.plane, asks[..applied]).plane)
  }

  // ── Order ──────────────────────────────────────────────────────────────────

  predicate Settled(item: Item) {
    item.state == Delivered || item.state == Blocked
  }

  predicate Fits(items: seq<Item>, b: seq<nat>) {
    Ascending(b) && forall m :: 0 <= m < |b| ==> b[m] < |items| && items[b[m]].state == Waiting
  }

  lemma {:induction false} BatchFits(items: seq<Item>, now: Time)
    ensures Fits(items, Batch(items, now))
  {
    BatchFacts(items, now);
  }

  /** Acting touches the rows of the batch and nothing else, and asks them nothing new. */
  lemma {:induction false} ActTouches(items: seq<Item>, b: seq<nat>, outcomes: seq<Outcome>, n: nat, at: Time, i: nat)
    requires n <= |b| <= |outcomes| && Fits(items, b) && i < |items|
    ensures var after := Act(items, b, outcomes, n, at).0;
            && after[i].op == items[i].op
            && (i !in b[..n] ==> after[i] == items[i])
            && (items[i].state != Hidden ==> after[i].state != Hidden)
  {
    if n != 0 {
      ActTouches(items, b, outcomes, n - 1, at, i);
      assert b[..n] == b[..n - 1] + [b[n - 1]];
    }
  }

  lemma {:induction false} ActLeavesLater(items: seq<Item>, b: seq<nat>, outcomes: seq<Outcome>, n: nat, at: Time,
      m: nat)
    requires n <= m < |b| <= |outcomes| && Fits(items, b)
    ensures Act(items, b, outcomes, n, at).0[b[m]] == items[b[m]]
  {
    if n != 0 {
      ActLeavesLater(items, b, outcomes, n - 1, at, m);
    }
  }

  /** A row that is delivered was accepted, and every row read before it is settled. */
  lemma {:induction false} ActInOrder(items: seq<Item>, b: seq<nat>, outcomes: seq<Outcome>, n: nat, at: Time, m: nat)
    requires m < n <= |b| <= |outcomes| && Fits(items, b)
    ensures var (after, going) := Act(items, b, outcomes, n, at);
            && (going ==> Settled(after[b[m]]))
            && (after[b[m]].state == Delivered ==> outcomes[m].Applied? || outcomes[m].Already?)
            && (Settled(after[b[m]]) ==> forall j :: 0 <= j < m ==> Settled(after[b[j]]))
    decreases n, m
  {
    var before := Act(items, b, outcomes, n - 1, at);
    forall j | 0 <= j < m
      ensures Settled(Act(items, b, outcomes, n, at).0[b[m]]) ==> Settled(Act(items, b, outcomes, n, at).0[b[j]])
    {
      if m < n - 1 {
        ActInOrder(items, b, outcomes, n - 1, at, m);
      } else {
        ActInOrder(items, b, outcomes, n - 1, at, j);
        ActLeavesLater(items, b, outcomes, n - 1, at, m);
      }
    }
    if m < n - 1 {
      ActInOrder(items, b, outcomes, n - 1, at, m);
    } else {
      ActLeavesLater(items, b, outcomes, n - 1, at, m);
    }
  }

  predicate HoldsPlace(o: Outcome) {
    o.Retry? || o.Error? || o.Skipped?
  }

  /** Once an operation holds, everything after it is skipped. */
  predicate SkipsAfterHold(outcomes: seq<Outcome>) {
    forall i, j :: 0 <= i < j < |outcomes| && HoldsPlace(outcomes[i]) ==> outcomes[j] == Skipped
  }

  lemma {:induction false} WalkSkipsAfterHold(p: Plane, asks: seq<Ask>)
    ensures SkipsAfterHold(Walk(p, asks).outcomes)
    ensures Walk(p, asks).halted <==> exists i :: 0 <= i < |asks| && HoldsPlace(Walk(p, asks).outcomes[i])
    decreases |asks|
  {
    if asks != [] {
      WalkSkipsAfterHold(p, asks[..|asks| - 1]);
      var w := Walk(p, asks[..|asks| - 1]);
      var o := Walk(p, asks).outcomes;
      assert forall i :: 0 <= i < |asks| - 1 ==> o[i] == w.outcomes[i];
      assert o[|asks| - 1].Skipped? ==> w.halted;
    }
  }

  /** The drain stops acting at the first row that still waits, and loses nothing by
      it: every row whose verdict it got to ends as that verdict alone would leave it.
   */
  lemma {:induction false} EachVerdictIsActedOn(items: seq<Item>, b: seq<nat>, outcomes: seq<Outcome>, n: nat,
      at: Time, m: nat)
    requires m < n <= |b| <= |outcomes| && Fits(items, b) && SkipsAfterHold(outcomes)
    ensures Act(items, b, outcomes, n, at).0[b[m]] == Acted(items[b[m]], outcomes[m], at)
    ensures Act(items, b, outcomes, n, at).1 || HoldsPlace(outcomes[n - 1])
    decreases n, m
  {
    if n > 1 {
      EachVerdictIsActedOn(items, b, outcomes, n - 1, at, if m < n - 1 then m else n - 2);
    }
    ActLeavesLater(items, b, outcomes, n - 1, at, n - 1);
  }

  /** A verdict changes a row's state, attempts and next time, never what it asks for: a fault
      puts it off by ten seconds, a not-yet by its backoff.
   */
  lemma {:induction false} ActedExactly(item: Item, o: Outcome, at: Time)
    ensures var after := Acted(item, o, at);
            && after.op == item.op
            && after.attempts == item.attempts + (if o.Retry? || o.Refused? then 1 else 0)
            && after.due == (if o.Retry? then at + 1_000_000 * BackoffSeconds(item.attempts)
                             else if o.Error? then at + 10_000_000 else item.due)
            && after.state == (if o.Applied? || o.Already? then Delivered
                               else if o.Refused? || (o.Retry? && item.attempts >= 11) then Blocked
                               else if o.Retry? then Waiting else item.state)
  {
  }

  predicate MovedBy(o: Outcome, before: Item, after: Item, at: Time) {
    && after == Acted(before, o, at)
    && after.attempts == before.attempts + (if o.Retry? || o.Refused? then 1 else 0)
    && (after.state == Blocked <==> o.Refused? || (o.Retry? && before.attempts + 1 >= 12))
    && (after.state == Delivered <==> o.Applied? || o.Already?)
    && (after.state == Waiting && after != before ==> after.due > at)
  }

  /** What one batch does to a row it acted on: an attempt is counted exactly when the
      plane answered not-yet or never, a fault counts nothing, and the row is
      quarantined exactly when it was refused or this was its twelfth not-yet.
   */
  lemma {:induction false} CountedAndQuarantinedExactly(w: World, now: Time, at: Time, moods: seq<Mood>, acted: nat,
      m: nat)
    requires Answerable(Batch(w.items, now), moods, Heard(acted)) && m < acted
    ensures var b := Batch(w.items, now);
            var o := Walk(w.plane, Asks(w.items, b, moods)).outcomes[m];
            MovedBy(o, w.items[b[m]], DrainBatch(w, now, at, moods, Heard(acted)).items[b[m]], at)
  {
    var b := Batch(w.items, now);
    var asks := Asks(w.items, b, moods);
    BatchFits(w.items, now);
    WalkSkipsAfterHold(w.plane, asks);
    EachVerdictIsActedOn(w.items, b, Walk(w.plane, asks).outcomes, acted, at, m);
    BackoffIsBounded(w.items[b[m]].attempts);
  }

  /** The wait is a second and doubles with every attempt up to 2048 seconds; the bound of an hour is never met. */
  lemma {:induction false} BackoffDoubles(attempts: nat)
    ensures BackoffSeconds(0) == 1
    ensures attempts < 11 ==> BackoffSeconds(attempts + 1) == 2 * BackoffSeconds(attempts)
    ensures attempts >= 11 ==> BackoffSeconds(attempts) == 2048
  {
    PowersGrow(if attempts <= 11 then attempts else 11);
    PowersGrow(if attempts < 11 then attempts + 1 else 11);
  }

  lemma {:induction false} BackoffIsBounded(attempts: nat)
    ensures 1 <= BackoffSeconds(attempts) <= 2048
  {
    PowersGrow(if attempts <= 11 then attempts else 11);
  }

  lemma {:induction false} PowersGrow(n: nat)
    requires n <= 11
    ensures 1 <= Power2(n) && Power2(n) * Power2(11 - n) == 2048 && 1 <= Power2(11 - n)
    decreases 11 - n
  {
    if n < 11 {
      PowersGrow(n + 1);
    }
  }

  /** Where in the batch a row delivered by it stood. */
  lemma {:induction false} DeliveredWasRead(w: World, now: Time, at: Time, moods: seq<Mood>, answer: Answer,
      k: nat) returns (m: nat)
    requires Answerable(Batch(w.items, now), moods, answer) && k < |w.items|
    requires w.items[k].state != Delivered && DrainBatch(w, now, at, moods, answer).items[k].state == Delivered
    ensures answer.Heard? && m < answer.acted && Batch(w.items, now)[m] == k
  {
    BatchFits(w.items, now);
    var b := Batch(w.items, now);
    assert answer.Heard?;
    var walked := Walk(w.plane, Asks(w.items, b, moods));
    ActTouches(w.items, b, walked.outcomes, answer.acted, at, k);
    m :| 0 <= m < answer.acted && b[m] == k;
  }

  /** The drain delivers past an earlier row exactly when that row was not due at the
      read. The documented strict id order therefore holds of a batch just when no
      row before a delivered one was backed off.
   */
  lemma {:induction false} OvertakesExactlyBackedOff(w: World, now: Time, at: Time, moods: seq<Mood>, answer: Answer,
      earlier: nat, k: nat)
    requires Answerable(Batch(w.items, now), moods, answer)
    requires earlier < k < |w.items|
    requires w.items[earlier].state == Waiting && w.items[k].state == Waiting
    requires DrainBatch(w, now, at, moods, answer).items[k].state == Delivered
    ensures DrainBatch(w, now, at, moods, answer).items[earlier].state == Waiting <==> w.items[earlier].due > now
  {
    var m := DeliveredWasRead(w, now, at, moods, answer, k);
    BatchFits(w.items, now);
    BatchFacts(w.items, now);
    var b := Batch(w.items, now);
    var outcomes := Walk(w.plane, Asks(w.items, b, moods)).outcomes;
    if Ready(w.items[earlier], now) {
      var j := EarlierReadyIsRead(w.items, now, m, earlier);
      ActInOrder(w.items, b, outcomes, answer.acted, at, m);
    } else {
      ActTouches(w.items, b, outcomes, answer.acted, at, earlier);
    }
  }

  /** A batch whose answer never came: its first row waits another ten seconds, no attempt
      is counted and no other row changes, whatever the plane had done by then.
   */
  lemma {:induction false} LostAnswerHoldsTheHead(w: World, now: Time, at: Time, moods: seq<Mood>, applied: nat, i: nat)
    requires Answerable(Batch(w.items, now), moods, Lost(applied)) && i < |w.items|
    ensures var b := Batch(w.items, now);
            var after := DrainBatch(w, now, at, moods, Lost(applied));
            && after.items[i] == (if i == b[0] then w.items[i].(due := at + 10_000_000) else w.items[i])
            && after.plane == Walk(w.plane, Asks(w.items, b, moods)[..applied]).plane
  {
  }

  // ── Runs ───────────────────────────────────────────────────────────────────

  predicate Visible(items: seq<Item>, i: int) {
    0 <= i < |items| && items[i].state != Hidden
  }

  predicate NodeVisibleBelow(items: seq<Item>, k: nat, n: Name)
    requires k <= |items|
  {
    exists i :: 0 <= i < k && Visible(items, i) && items[i].op == Node(n)
  }

  /** What overlapping registrations guarantee of every row a reader can see. */
  predicate EndsVisible(items: seq<Item>, k: nat)
    requires k < |items|
  {
    items[k].op.SignsFor? ==>
      NodeVisibleBelow(items, k, KeyName(items[k].op.key)) && NodeVisibleBelow(items, k, PialName(items[k].op.owner))
  }

  datatype Step =
    | Queued(op: Op)
    | Committed(k: nat, due: Time)
    | Others(plane: Plane)
    | Drained(now: Time, at: Time, moods: seq<Mood>, answer: Answer)
    | Unblocked(k: nat, due: Time)

  ghost predicate Enabled(w: World, s: Step) {
    match s
    case Queued(_) => true
    case Committed(k, _) => k < |w.items| && w.items[k].state == Hidden && EndsVisible(w.items, k)
    case Others(plane) => Grows(w.plane, plane) && NoDanglingEdges(plane)
    case Drained(now, at, moods, answer) => now <= at && Answerable(Batch(w.items, now), moods, answer)
    case Unblocked(k, _) => k < |w.items| && w.items[k].state == Blocked
  }

  function Next(w: World, s: Step): World
    requires Enabled(w, s)
  {
    match s
    case Queued(op) => w.(items := w.items + [Item(op, Hidden, 0, 0)])
    case Committed(k, due) => w.(items := w.items[k := Item(w.items[k].op, Waiting, 0, due)])
    case Others(plane) => w.(plane := plane)
    case Drained(now, at, moods, answer) => DrainBatch(w, now, at, moods, answer)
    case Unblocked(k, due) => w.(items := w.items[k := Item(w.items[k].op, Waiting, 0, due)])
  }

  predicate TrueIfDelivered(w: World, k: nat)
    requires k < |w.items|
  {
    w.items[k].state == Delivered ==> Holds(w.plane, w.items[k].op)
  }

  predicate Inv(w: World) {
    && NoDanglingEdges(w.plane)
    && (forall k :: 0 <= k < |w.items| && Visible(w.items, k) ==> EndsVisible(w.items, k))
    && (forall k :: 0 <= k < |w.items| ==> TrueIfDelivered(w, k))
  }

  const EMPTY: World := World([], Plane(map[], {}, [], {}))

  /** Besides the drain's own batches: a commit shows a row and an operator's release takes
      one out of quarantine, both due then and with no attempt counted; another writer
      changes the plane alone.
   */
  lemma {:induction false} OtherStepsExactly(w: World, s: Step, i: nat)
    requires Enabled(w, s) && !s.Drained? && i < |w.items|
    ensures var after := Next(w, s);
            && after.items[i].op == w.items[i].op && |after.items| == |w.items| + (if s.Queued? then 1 else 0)
            && after.plane == (if s.Others? then s.plane else w.plane)
            && (if (s.Committed? || s.Unblocked?) && s.k == i then
                  after.items[i].state == Waiting && after.items[i].attempts == 0 && after.items[i].due == s.due
                else after.items[i] == w.items[i])
  {
  }

  /** What a batch does to one row and to the plane. */
  lemma {:induction false} DrainKeeps(w: World, now: Time, at: Time, moods: seq<Mood>, answer: Answer, k: nat)
    requires NoDanglingEdges(w.plane) && Answerable(Batch(w.items, now), moods, answer)
    requires k < |w.items| && TrueIfDelivered(w, k)
    ensures var after := DrainBatch(w, now, at, moods, answer);
            && |after.items| == |w.items| && after.items[k].op == w.items[k].op
            && NoDanglingEdges(after.plane) && Grows(w.plane, after.plane)
            && (Visible(after.items, k) <==> Visible(w.items, k))
            && TrueIfDelivered(after, k)
  {
    BatchFits(w.items, now);
    var b := Batch(w.items, now);
    var asks := Asks(w.items, b, moods);
    var after := DrainBatch(w, now, at, moods, answer);
    match answer
    case Heard(acted) =>
      var walked := Walk(w.plane, asks);
      WalkIsTruthful(w.plane, asks);
      ActTouches(w.items, b, walked.outcomes, acted, at, k);
      if after.items[k].state == Delivered {
        if w.items[k].state == Delivered {
          GrowingKeeps(w.plane, after.plane, w.items[k].op);
        } else {
          var m := DeliveredWasRead(w, now, at, moods, answer, k);
          ActInOrder(w.items, b, walked.outcomes, acted, at, m);
          assert Holds(walked.plane, asks[m].op);
        }
      }
    case Lost(applied) =>
      WalkIsTruthful(w.plane, asks[..applied]);
      if w.items[k].state == Delivered {
        GrowingKeeps(w.plane, after.plane, w.items[k].op);
      }
  }

  lemma {:induction false} DrainKeepsPlane(w: World, now: Time, at: Time, moods: seq<Mood>, answer: Answer)
    requires NoDanglingEdges(w.plane) && Answerable(Batch(w.items, now), moods, answer)
    ensures NoDanglingEdges(DrainBatch(w, now, at, moods, answer).plane)
  {
    var asks := Asks(w.items, Batch(w.items, now), moods);
    WalkIsTruthful(w.plane, asks);
    if answer.Lost? {
      WalkIsTruthful(w.plane, asks[..answer.applied]);
    }
  }

  /** Rows that keep their operations and stay visible keep every edge's ends visible. */
  lemma {:induction false} EndsStayVisible(items: seq<Item>, after: seq<Item>, k: nat)
    requires k < |items| <= |after| && EndsVisible(items, k)
    requires forall i :: 0 <= i < |items| ==> after[i].op == items[i].op && (Visible(items, i) ==> Visible(after, i))
    ensures EndsVisible(after, k)
  {
  }

  lemma {:induction false} DrainKeepsInv(w: World, now: Time, at: Time, moods: seq<Mood>, answer: Answer)
    requires Inv(w) && Answerable(Batch(w.items, now), moods, answer)
    ensures Inv(DrainBatch(w, now, at, moods, answer))
  {
    var after := DrainBatch(w, now, at, moods, answer);
    DrainKeepsPlane(w, now, at, moods, answer);
    forall k | 0 <= k < |w.items|
      ensures after.items[k].op == w.items[k].op && TrueIfDelivered(after, k)
      ensures Visible(after.items, k) <==> Visible(w.items, k)
    {
      DrainKeeps(w, now, at, moods, answer, k);
    }
    forall k | 0 <= k < |w.items| && Visible(after.items, k)
      ensures EndsVisible(after.items, k)
    {
      EndsStayVisible(w.items, after.items, k);
    }
  }

  lemma {:induction false} StepKeepsInv(w: World, s: Step)
    requires Inv(w) && Enabled(w, s)
    ensures Inv(Next(w, s))
  {
    if s.Drained? {
      DrainKeepsInv(w, s.now, s.at, s.moods, s.answer);
    } else {
      var after := Next(w, s);
      forall k | 0 <= k < |after.items|
        ensures TrueIfDelivered(after, k)
        ensures Visible(after.items, k) ==> EndsVisible(after.items, k)
      {
        if k < |w.items| {
          if Visible(after.items, k) {
            EndsStayVisible(w.items, after.items, k);
          }
          assert TrueIfDelivered(w, k);
          if w.items[k].state == Delivered {
            GrowingKeeps(w.plane, after.plane, w.items[k].op);
          }
        }
      }
    }
  }

  ghost predicate Follows(w: World, steps: seq<Step>, end: World)
    decreases |steps|
  {
    if steps == [] then end == w
    else Enabled(w, steps[0]) && Follows(Next(w, steps[0]), steps[1..], end)
  }

  lemma {:induction false} RunKeepsInv(w: World, steps: seq<Step>, end: World)
    requires Inv(w) && Follows(w, steps, end)
    ensures Inv(end)
    decreases |steps|
  {
    if steps != [] {
      StepKeepsInv(w, steps[0]);
      RunKeepsInv(Next(w, steps[0]), steps[1..], end);
    }
  }

  /** Whatever is lost, retried, quarantined or overtaken, and whatever other brains
      write or revoke meanwhile: the graph has no dangling edge, and a row marked
      delivered is in it, an identity as an identity and a key signing for its identity.
   */
  lemma {:induction false} DeliveredIsTrue(steps: seq<Step>, w: World, k: nat)
    requires Follows(EMPTY, steps, w)
    requires k < |w.items| && w.items[k].state == Delivered
    ensures NoDanglingEdges(w.plane) && Holds(w.plane, w.items[k].op)
  {
    RunKeepsInv(EMPTY, steps, w);
    assert TrueIfDelivered(w, k);
  }

  // ── What order buys ────────────────────────────────────────────────────────

  /** The first n operations asked for the node and were not refused it. */
  predicate AskedFor(asks: seq<Ask>, outcomes: seq<Outcome>, n: nat, name: Name)
    requires n <= |asks| == |outcomes|
  {
    exists j :: 0 <= j < n && asks[j].op == Node(name) && !outcomes[j].Refused?
  }

  lemma {:induction false} OneMoreAsked(p: Plane, asks: seq<Ask>, name: Name)
    requires asks != []
    ensures var w, init := Walk(p, asks), Walk(p, asks[..|asks| - 1]);
            AskedFor(asks, w.outcomes, |asks|, name) <==>
              AskedFor(asks[..|asks| - 1], init.outcomes, |asks| - 1, name)
              || (asks[|asks| - 1].op == Node(name) && !w.outcomes[|asks| - 1].Refused?)
  {
    var n := |asks| - 1;
    var w, init := Walk(p, asks), Walk(p, asks[..n]);
    assert forall j :: 0 <= j < n ==> w.outcomes[j] == init.outcomes[j] && asks[j] == asks[..n][j];
  }

  /** After operations none of which held, a name resolves exactly when it did before or
      was asked for and not refused.
   */
  lemma {:induction false} ResolvesAfterExactly(p: Plane, asks: seq<Ask>, name: Name)
    requires !Walk(p, asks).halted
    ensures Resolves(Walk(p, asks).plane, name) <==>
              Resolves(p, name) || AskedFor(asks, Walk(p, asks).outcomes, |asks|, name)
    decreases |asks|
  {
    if asks != [] {
      ResolvesAfterExactly(p, asks[..|asks| - 1], name);
      OneMoreAsked(p, asks, name);
    }
  }

  lemma {:induction false} AskedInPrefix(p: Plane, asks: seq<Ask>, m: nat, name: Name)
    requires m < |asks|
    ensures AskedFor(asks[..m], Walk(p, asks[..m]).outcomes, m, name) <==> AskedFor(asks, Walk(p, asks).outcomes, m, name)
  {
    VerdictAt(p, asks, m);
  }

  /** An edge that the batch gets to, and that nothing else stands against, is sent back
      exactly when one of its ends neither resolves at the start nor is asked for before
      it without being refused.
   */
  lemma {:induction false} EdgeSentBackExactly(p: Plane, asks: seq<Ask>, m: nat)
    requires m < |asks| && asks[m].op.SignsFor? && asks[m].mood == Fine && !Walk(p, asks[..m]).halted
    ensures var o := Walk(p, asks).outcomes;
            var key, owner := KeyName(asks[m].op.key), PialName(asks[m].op.owner);
            o[m].Retry? <==>
              || !(Resolves(p, key) || AskedFor(asks, o, m, key))
              || !(Resolves(p, owner) || AskedFor(asks, o, m, owner))
  {
    VerdictAt(p, asks, m);
    var key, owner := KeyName(asks[m].op.key), PialName(asks[m].op.owner);
    ResolvesAfterExactly(p, asks[..m], key);
    ResolvesAfterExactly(p, asks[..m], owner);
    AskedInPrefix(p, asks, m, key);
    AskedInPrefix(p, asks, m, owner);
  }

  /** No row before k is quarantined or backed off at the read. */
  predicate NothingHeldBack(items: seq<Item>, k: nat, now: Time)
    requires k <= |items|
  {
    forall i :: 0 <= i < k ==> items[i].state == Hidden || items[i].state == Delivered || Ready(items[i], now)
  }

  lemma {:induction false} EndIsThere(w: World, now: Time, moods: seq<Mood>, m: nat, n: Name)
    requires Inv(w) && |moods| == |Batch(w.items, now)| && m < |moods|
    requires NothingHeldBack(w.items, Batch(w.items, now)[m], now)
    requires NodeVisibleBelow(w.items, Batch(w.items, now)[m], n)
    requires var asks := Asks(w.items, Batch(w.items, now), moods);
             forall j :: 0 <= j < m ==> !Walk(w.plane, asks).outcomes[j].Refused?
    ensures var asks := Asks(w.items, Batch(w.items, now), moods);
            n in w.plane.bound || AskedFor(asks, Walk(w.plane, asks).outcomes, m, n)
  {
    var i: nat :| i < Batch(w.items, now)[m] && Visible(w.items, i) && w.items[i].op == Node(n);
    if w.items[i].state == Delivered {
      assert TrueIfDelivered(w, i);
    } else {
      var j := EarlierReadyIsRead(w.items, now, m, i);
      assert Asks(w.items, Batch(w.items, now), moods)[j].op == Node(n);
    }
  }

  lemma {:induction false} SkippedIsNotSentBack(p: Plane, asks: seq<Ask>, m: nat)
    requires m < |asks| && Walk(p, asks[..m]).halted
    ensures Walk(p, asks).outcomes[m] == Skipped
  {
    VerdictAt(p, asks, m);
  }

  /** So delivered in order, with nothing before it quarantined, backed off or refused and
      neither end revoked, an edge is never sent back for want of an end.
   */
  lemma {:induction false} InOrderEdgesFindTheirEnds(w: World, now: Time, moods: seq<Mood>, m: nat)
    requires Inv(w) && |moods| == |Batch(w.items, now)| && m < |moods| && moods[m] == Fine
    requires var op := w.items[Batch(w.items, now)[m]].op;
             op.SignsFor? && KeyName(op.key) !in w.plane.revoked && PialName(op.owner) !in w.plane.revoked
    requires NothingHeldBack(w.items, Batch(w.items, now)[m], now)
    requires forall j :: 0 <= j < m ==> !Walk(w.plane, Asks(w.items, Batch(w.items, now), moods)).outcomes[j].Refused?
    ensures !Walk(w.plane, Asks(w.items, Batch(w.items, now), moods)).outcomes[m].Retry?
  {
    var asks := Asks(w.items, Batch(w.items, now), moods);
    var k := Batch(w.items, now)[m];
    if Walk(w.plane, asks[..m]).halted {
      SkippedIsNotSentBack(w.plane, asks, m);
    } else {
      BatchFacts(w.items, now);
      assert EndsVisible(w.items, k);
      EndIsThere(w, now, moods, m, KeyName(w.items[k].op.key));
      EndIsThere(w, now, moods, m, PialName(w.items[k].op.owner));
      EdgeSentBackExactly(w.plane, asks, m);
    }
  }

  lemma {:induction false} OneMoreStep(w: World, steps: seq<Step>, mid: World, s: Step)
    requires Follows(w, steps, mid) && Enabled(mid, s)
    ensures Follows(w, steps + [s], Next(mid, s))
    decreases |steps|
  {
    if steps == [] {
      assert steps + [s] == [s] && [s][1..] == [];
    } else {
      OneMoreStep(Next(w, steps[0]), steps[1..], mid, s);
      assert (steps + [s])[1..] == steps[1..] + [s];
    }
  }
}
