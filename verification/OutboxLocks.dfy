/** Concurrent settlements and the outbox's unique key.

    Inserting a ledger event enqueues both counterparties into manhattan_outbox
    inside the same transaction. INSERT … ON CONFLICT (dedup_key) DO NOTHING
    waits while another open transaction has inserted the same key. The trigger
    enqueues the two in UUID order so that these waits never form a cycle.
 */
module OutboxLocks {
  import opened Sums

  type Pial = int
  type TxId = int

  /** The nil UUID, which the enqueue helper skips. */
  const TREASURY: Pial := 0

  /** manhattan_enqueue_identity: NULL and the treasury enqueue nothing. */
  function Enqueued(p: Option<Pial>): seq<Pial> {
    if p.None? || p.value == TREASURY then [] else [p.value]
  }

  /** manhattan_register_settlement: the keys in the order the trigger asks for them. */
  function TriggerKeys(from: Option<Pial>, to: Option<Pial>): seq<Pial> {
    if from.Some? && to.Some? && to.value < from.value then Enqueued(to) + Enqueued(from)
    else Enqueued(from) + Enqueued(to)
  }

  predicate Ascending(keys: seq<Pial>) {
    forall i, j :: 0 <= i < j < |keys| ==> keys[i] <= keys[j]
  }

  /** The trigger enqueues both counterparties that are people, and nobody else, in ascending order. */
  lemma {:induction false} TriggerKeysAreSorted(from: Option<Pial>, to: Option<Pial>)
    ensures Ascending(TriggerKeys(from, to))
    ensures forall p :: p in TriggerKeys(from, to) <==> p != 0 && (from == Some(p) || to == Some(p))
  {
  }

  // ── The protocol ───────────────────────────────────────────────────────────

  datatype Tx = Tx(todo: seq<Pial>, held: set<Pial>, done: bool)

  /** A settlement that has opened its transaction and inserted its event. */
  function Opened(from: Option<Pial>, to: Option<Pial>): Tx {
    Tx(TriggerKeys(from, to), {}, false)
  }

  datatype World = World(committed: set<Pial>, txs: map<TxId, Tx>)

  predicate Active(w: World, t: TxId) {
    t in w.txs && !w.txs[t].done
  }

  predicate Pending(w: World, t: TxId) {
    Active(w, t) && w.txs[t].todo != []
  }

  /** t is about to insert a key that u has inserted and not committed. */
  predicate WaitsFor(w: World, t: TxId, u: TxId) {
    Pending(w, t) && t != u && Active(w, u) && w.txs[t].todo[0] in w.txs[u].held
  }

  predicate CanStep(w: World, t: TxId) {
    Active(w, t) && forall u :: u in w.txs ==> !WaitsFor(w, t, u)
  }

  /** Insert the next key, or commit when there is none. A key already in the table inserts nothing. */
  function Stepped(w: World, t: TxId): World
    requires Active(w, t)
  {
    var tx := w.txs[t];
    if tx.todo == [] then World(w.committed + tx.held, w.txs[t := Tx([], {}, true)])
    else
      var held := if tx.todo[0] in w.committed then tx.held else tx.held + {tx.todo[0]};
      w.(txs := w.txs[t := Tx(tx.todo[1..], held, false)])
  }

  /** A settlement may fail at any time; its rollback takes its inserts with it. */
  function Aborted(w: World, t: TxId): World
    requires Active(w, t)
  {
    w.(txs := w.txs[t := Tx([], {}, true)])
  }

  // ── Invariant ──────────────────────────────────────────────────────────────

  predicate TxSound(tx: Tx) {
    && Ascending(tx.todo)
    && (forall k, j :: k in tx.held && 0 <= j < |tx.todo| ==> k <= tx.todo[j])
    && (tx.done ==> tx.held == {} && tx.todo == [])
  }

  predicate Inv(w: World) {
    && (forall t :: t in w.txs ==> TxSound(w.txs[t]))
    && (forall t, u, k :: t in w.txs && u in w.txs && t != u && k in w.txs[t].held ==> k !in w.txs[u].held)
  }

  lemma {:induction false} OpenedIsSound(w: World)
    requires forall t :: t in w.txs ==> exists from, to :: w.txs[t] == Opened(from, to)
    ensures Inv(w)
  {
  }

  lemma {:induction false} StepKeepsInv(w: World, t: TxId)
    requires Inv(w) && Active(w, t)
    ensures CanStep(w, t) ==> Inv(Stepped(w, t))
    ensures Inv(Aborted(w, t))
  {
  }

  // ── No cycle, and somebody can always go on ────────────────────────────────

  /** Whoever is waited for waits, if at all, for a larger key. */
  lemma {:induction false} WaitsClimb(w: World, t: TxId, u: TxId, v: TxId)
    requires Inv(w) && WaitsFor(w, t, u) && WaitsFor(w, u, v)
    ensures w.txs[t].todo[0] < w.txs[u].todo[0]
  {
  }

  predicate WaitChain(w: World, chain: seq<TxId>) {
    forall i :: 0 <= i < |chain| - 1 ==> WaitsFor(w, chain[i], chain[i + 1])
  }

  lemma {:induction false} ChainClimbs(w: World, chain: seq<TxId>, i: nat, j: nat)
    requires Inv(w) && WaitChain(w, chain) && i < j < |chain| - 1
    ensures Pending(w, chain[i]) && Pending(w, chain[j]) && w.txs[chain[i]].todo[0] < w.txs[chain[j]].todo[0]
    decreases j - i
  {
    assert WaitsFor(w, chain[i], chain[i + 1]) && WaitsFor(w, chain[j - 1], chain[j]);
    assert WaitsFor(w, chain[j], chain[j + 1]);
    WaitsClimb(w, chain[j - 1], chain[j], chain[j + 1]);
    if i < j - 1 {
      ChainClimbs(w, chain, i, j - 1);
    }
  }

  /** The wait-for graph is acyclic: no chain of waits comes back to where it began. */
  lemma {:induction false} NoCycle(w: World, chain: seq<TxId>)
    requires Inv(w) && |chain| > 1 && WaitChain(w, chain)
    ensures chain[0] != chain[|chain| - 1]
  {
    var last := |chain| - 1;
    if chain[0] == chain[last] {
      assert WaitsFor(w, chain[0], chain[1]) && WaitsFor(w, chain[last - 1], chain[last]);
      WaitsClimb(w, chain[last - 1], chain[last], chain[1]);
      if last > 1 {
        ChainClimbs(w, chain, 0, last - 1);
      }
    }
  }

  function Above(w: World, k: Pial): set<TxId> {
    set t | t in w.txs && Pending(w, t) && w.txs[t].todo[0] > k
  }

  /** Following waits from any active transaction ends at one that can go on. */
  lemma {:induction false} SomebodyGoesOn(w: World, t: TxId) returns (r: TxId)
    requires Inv(w) && Active(w, t)
    ensures CanStep(w, r)
    decreases if w.txs[t].todo == [] then {} else Above(w, w.txs[t].todo[0]), |w.txs[t].todo|
  {
    r := t;
    if !CanStep(w, t) {
      var u :| u in w.txs && WaitsFor(w, t, u);
      if CanStep(w, u) {
        r := u;
      } else {
        var v :| v in w.txs && WaitsFor(w, u, v);
        WaitsClimb(w, t, u, v);
        assert u in Above(w, w.txs[t].todo[0]) && u !in Above(w, w.txs[u].todo[0]);
        r := SomebodyGoesOn(w, u);
      }
    }
  }

  // ── Every schedule finishes ────────────────────────────────────────────────

  function Left(tx: Tx): nat {
    if tx.done then 0 else |tx.todo| + 1
  }

  function WorkLeft(w: World): map<TxId, int> {
    map t | t in w.txs :: Left(w.txs[t])
  }

  /** A transaction takes its step, or is rolled back. */
  datatype Move = Go(t: TxId) | GiveUp(t: TxId)

  predicate Can(w: World, m: Move) {
    match m
    case Go(t) => CanStep(w, t)
    case GiveUp(t) => Active(w, t)
  }

  function Moved(w: World, m: Move): World
    requires Can(w, m)
  {
    match m
    case Go(t) => Stepped(w, t)
    case GiveUp(t) => Aborted(w, t)
  }

  lemma {:induction false} MoveDoesWork(w: World, m: Move)
    requires Can(w, m)
    ensures Total(WorkLeft(Moved(w, m))) <= Total(WorkLeft(w)) - 1
  {
    var left := Left(Moved(w, m).txs[m.t]);
    assert WorkLeft(Moved(w, m)) == WorkLeft(w)[m.t := left];
    TotalUpdate(WorkLeft(w), m.t, left);
  }

  /** Each transaction in the schedule could take its step when its turn came; any may be rolled back at any time. */
  predicate Runs(w: World, schedule: seq<Move>)
    decreases |schedule|
  {
    schedule == [] || (Can(w, schedule[0]) && Runs(Moved(w, schedule[0]), schedule[1..]))
  }

  function After(w: World, schedule: seq<Move>): World
    requires Runs(w, schedule)
    decreases |schedule|
  {
    if schedule == [] then w else After(Moved(w, schedule[0]), schedule[1..])
  }

  lemma {:induction false} WorkIsNonNegative(w: World)
    ensures Total(WorkLeft(w)) >= 0
  {
    var left := WorkLeft(w);
    forall t | t in left
      ensures left[t] >= 0
    {
    }
    TotalBounds(left);
  }

  /** From any sound state every schedule, rollbacks included, is finite, and one after
      which nobody can step has finished every transaction: nobody is ever left waiting. */
  lemma {:induction false} EveryScheduleFinishes(w: World, schedule: seq<Move>)
    requires Inv(w) && Runs(w, schedule)
    ensures |schedule| <= Total(WorkLeft(w))
    ensures Inv(After(w, schedule))
    ensures (forall t :: !CanStep(After(w, schedule), t)) ==> forall t :: !Active(After(w, schedule), t)
    decreases |schedule|
  {
    if schedule == [] {
      WorkIsNonNegative(w);
      if t :| Active(w, t) {
        var r := SomebodyGoesOn(w, t);
      }
    } else {
      StepKeepsInv(w, schedule[0].t);
      MoveDoesWork(w, schedule[0]);
      EveryScheduleFinishes(Moved(w, schedule[0]), schedule[1..]);
    }
  }

  // ── What the schedules leave behind ────────────────────────────────────────

  predicate AllFinished(w: World) {
    forall t :: t in w.txs ==> w.txs[t].done
  }

  function GivenUp(schedule: seq<Move>): set<TxId> {
    set m | m in schedule && m.GiveUp? :: m.t
  }

  predicate Claims(tx: Tx, k: Pial) {
    k in tx.held || k in tx.todo
  }

  /** The key is in the table, or some transaction other than the losers will put it there. */
  predicate Destined(w: World, losers: set<TxId>, k: Pial) {
    k in w.committed || exists t :: t in w.txs && t !in losers && Claims(w.txs[t], k)
  }

  /** A finished transaction is never rolled back. */
  lemma {:induction false} DoneIsNotGivenUp(w: World, schedule: seq<Move>, t: TxId)
    requires Runs(w, schedule) && t in w.txs && w.txs[t].done
    ensures t !in GivenUp(schedule)
    decreases |schedule|
  {
    if schedule != [] {
      DoneIsNotGivenUp(Moved(w, schedule[0]), schedule[1..], t);
      assert schedule == [schedule[0]] + schedule[1..];
    }
  }

  lemma {:induction false} GoKeepsDestined(w: World, t: TxId, losers: set<TxId>, k: Pial)
    requires Inv(w) && CanStep(w, t) && (w.txs[t].todo == [] ==> t !in losers)
    ensures Destined(Stepped(w, t), losers, k) <==> Destined(w, losers, k)
  {
    var next := Stepped(w, t);
    var tx := w.txs[t];
    forall u | u in w.txs
      ensures u != t ==> next.txs[u] == w.txs[u]
      ensures u == t && tx.todo != [] ==>
                (Claims(next.txs[t], k) || k in w.committed <==> Claims(tx, k) || k in w.committed)
    {
      if u == t && tx.todo != [] {
        assert tx.todo == [tx.todo[0]] + tx.todo[1..];
      }
    }
    if Destined(w, losers, k) && k !in w.committed {
      var u :| u in w.txs && u !in losers && Claims(w.txs[u], k);
      assert u in next.txs;
    }
  }

  lemma {:induction false} GiveUpKeepsDestined(w: World, t: TxId, before: set<TxId>, after: set<TxId>, k: Pial)
    requires Active(w, t) && before == after + {t}
    ensures Destined(Aborted(w, t), after, k) <==> Destined(w, before, k)
  {
    if Destined(w, before, k) && k !in w.committed {
      var u :| u in w.txs && u !in before && Claims(w.txs[u], k);
      assert Aborted(w, t).txs[u] == w.txs[u];
    }
  }

  /** Once nobody is left, the table holds exactly what was there and the keys of every
      transaction that was not rolled back, however they waited for and overtook each other.
   */
  lemma {:induction false} CommittedInTheEnd(w: World, schedule: seq<Move>, k: Pial)
    requires Inv(w) && Runs(w, schedule) && AllFinished(After(w, schedule))
    ensures k in After(w, schedule).committed <==> Destined(w, GivenUp(schedule), k)
    decreases |schedule|
  {
    if schedule == [] {
      assert After(w, schedule) == w;
      assert forall t :: t in w.txs ==> TxSound(w.txs[t]) && !Claims(w.txs[t], k);
    } else {
      var m, rest := schedule[0], schedule[1..];
      StepKeepsInv(w, m.t);
      CommittedInTheEnd(Moved(w, m), rest, k);
      assert schedule == [m] + rest;
      if m.Go? {
        if w.txs[m.t].todo == [] {
          DoneIsNotGivenUp(Moved(w, m), rest, m.t);
        }
        assert GivenUp(schedule) == GivenUp(rest);
        GoKeepsDestined(w, m.t, GivenUp(rest), k);
      } else {
        assert GivenUp(schedule) == GivenUp(rest) + {m.t};
        GiveUpKeepsDestined(w, m.t, GivenUp(schedule), GivenUp(rest), k);
      }
    }
  }

  /** So any number of settlements, run to the end in any order, register exactly the
      people among the parties of those that were not rolled back.
   */
  lemma {:induction false} SettlementsRegisterTheirParties(w: World, parties: map<TxId, (Option<Pial>, Option<Pial>)>,
      schedule: seq<Move>, k: Pial)
    requires w.txs.Keys == parties.Keys && forall t :: t in parties ==> w.txs[t] == Opened(parties[t].0, parties[t].1)
    requires Runs(w, schedule) && AllFinished(After(w, schedule))
    ensures k in After(w, schedule).committed <==>
              || k in w.committed
              || (k != 0 && exists t :: t in parties && t !in GivenUp(schedule)
                                        && (parties[t].0 == Some(k) || parties[t].1 == Some(k)))
  {
    OpenedIsSound(w);
    CommittedInTheEnd(w, schedule, k);
    forall t | t in parties
      ensures Claims(w.txs[t], k) <==> k != 0 && (parties[t].0 == Some(k) || parties[t].1 == Some(k))
    {
      TriggerKeysAreSorted(parties[t].0, parties[t].1);
    }
  }

  /** What is in the table is in nobody's hands. */
  predicate HeldIsNew(w: World) {
    forall t, k :: t in w.txs && k in w.txs[t].held ==> k !in w.committed
  }

  lemma {:induction false} ScheduleKeepsHeldNew(w: World, schedule: seq<Move>)
    requires Inv(w) && HeldIsNew(w) && Runs(w, schedule)
    ensures HeldIsNew(After(w, schedule))
    decreases |schedule|
  {
    if schedule != [] {
      StepKeepsInv(w, schedule[0].t);
      ScheduleKeepsHeldNew(Moved(w, schedule[0]), schedule[1..]);
    }
  }

  lemma {:induction false} OpenedHoldNothing(w: World)
    requires forall t :: t in w.txs ==> exists from, to :: w.txs[t] == Opened(from, to)
    ensures HeldIsNew(w)
  {
  }

  lemma {:induction false} WaitIsForNew(w: World, t: TxId, u: TxId)
    requires HeldIsNew(w) && WaitsFor(w, t, u)
    ensures w.txs[t].todo[0] !in w.committed
  {
    var k := w.txs[t].todo[0];
    assert Active(w, u) && u in w.txs && k in w.txs[u].held;
  }

  /** From opened settlements on, a key that is in the table never makes one wait. */
  lemma {:induction false} NobodyWaitsForTheTable(w: World, schedule: seq<Move>, t: TxId, u: TxId)
    requires Inv(w) && HeldIsNew(w) && Runs(w, schedule) && WaitsFor(After(w, schedule), t, u)
    ensures After(w, schedule).txs[t].todo[0] !in After(w, schedule).committed
  {
    ScheduleKeepsHeldNew(w, schedule);
    WaitIsForNew(After(w, schedule), t, u);
  }

  // ── The order is what does it ──────────────────────────────────────────────

  function SenderFirst(from: Pial, to: Pial): Tx {
    Tx(Enqueued(Some(from)) + Enqueued(Some(to)), {}, false)
  }

  /** Enqueueing sender before receiver, two opposite transfers between any two
      new identities can each insert one key and then wait for the other forever. */
  lemma {:induction false} SenderFirstDeadlocks(a: Pial, b: Pial)
    requires a != b && a != TREASURY && b != TREASURY
    ensures var w := World({}, map[1 := SenderFirst(a, b), 2 := SenderFirst(b, a)]);
            && Active(w, 1) && CanStep(w, 1) && Active(Stepped(w, 1), 2) && CanStep(Stepped(w, 1), 2)
            && var stuck := Stepped(Stepped(w, 1), 2);
               WaitsFor(stuck, 1, 2) && WaitsFor(stuck, 2, 1) && forall t :: !CanStep(stuck, t)
  {
  }
}
