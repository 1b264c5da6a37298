/** The ledger's block sealer as a protocol: seal_block is a sequence of
    separate database statements, so settlements, other sealers and crashes may
    come between any two of them. The facts below hold for every interleaving
    of any number of sealers.
 */
module Sealer {
  import opened Sums
  import opened Merkle

  type BlockId = int
  type SealerId = int
  type Digest = int

  /** The text of 64 zeros: the genesis prev_hash, and the root of an empty tree. */
  const ZEROS: Digest := 0

  datatype Hashing = Hashing(pair: (Digest, Digest) -> Digest, leaf: int -> Digest,
                             block: (int, Digest, Digest, int, int, int) -> Digest)

  /** The columns of an event the sealer reads. */
  datatype Entry = Entry(id: int, created: int, amount: int, fee: int)

  datatype EventRow = EventRow(entry: Entry, block: Option<BlockId>)

  /** A ledger_blocks row. */
  datatype Block = Block(id: BlockId, number: int, prevHash: Digest, hash: Digest, root: Digest,
                         eventCount: int, volume: int, fees: int, history: History)

  /** What happened while the block was sealed; not stored, kept to state what the row may be relied on for. */
  datatype History = History(counted: nat, leaves: nat, landed: nat, taken: nat,
                             hashRead: bool, idsRead: bool, sealedAt: int)

  datatype Pc = Idle | Counted | Numbered | Linked | Assigned | Summed | Rooted {
    function Rank(): nat {
      match this
      case Idle => 0 case Counted => 1 case Numbered => 2 case Linked => 3
      case Assigned => 4 case Summed => 5 case Rooted => 6
    }
  }

  /** A sealer's local variables. */
  datatype Local = Local(pc: Pc, count: nat, number: int, prev: Digest, hashRead: bool, id: BlockId,
                         volume: int, fees: int, root: Digest, leaves: nat, idsRead: bool, landed: nat, taken: nat) {
    /** Between counting the pending events and assigning them. */
    predicate InWindow() {
      1 <= pc.Rank() <= 3
    }

    predicate HasId() {
      pc.Rank() >= 3
    }
  }

  const RESTING: Local := Local(Idle, 0, 0, ZEROS, false, 0, 0, 0, ZEROS, 0, false, 0, 0)

  datatype World = World(events: seq<EventRow>, blocks: seq<Block>, sealers: map<SealerId, Local>)

  // ── Queries ────────────────────────────────────────────────────────────────

  /** The entries of the rows whose block_id is b, in log order; None selects the pending ones. */
  function EntriesIn(events: seq<EventRow>, b: Option<BlockId>): seq<Entry> {
    if events == [] then []
    else
      var last := events[|events| - 1];
      EntriesIn(events[..|events| - 1], b) + if last.block == b then [last.entry] else []
  }

  function Amounts(entries: seq<Entry>): int {
    if entries == [] then 0 else Amounts(entries[..|entries| - 1]) + entries[|entries| - 1].amount
  }

  function FeesOf(entries: seq<Entry>): int {
    if entries == [] then 0 else FeesOf(entries[..|entries| - 1]) + entries[|entries| - 1].fee
  }

  /** UPDATE … SET block_id = id WHERE block_id IS NULL. */
  function AssignedTo(events: seq<EventRow>, id: BlockId): (r: seq<EventRow>)
    ensures |r| == |events|
    ensures forall i :: 0 <= i < |r| ==>
              r[i] == if events[i].block.None? then events[i].(block := Some(id)) else events[i]
  {
    if events == [] then []
    else
      var last := events[|events| - 1];
      AssignedTo(events[..|events| - 1], id) + [if last.block.None? then last.(block := Some(id)) else last]
  }

  /** COALESCE(MAX(block_number), 0). */
  function MaxNumber(blocks: seq<Block>): int {
    if blocks == [] then 0
    else
      var rest, last := MaxNumber(blocks[..|blocks| - 1]), blocks[|blocks| - 1].number;
      if last > rest then last else rest
  }

  predicate NumberTaken(blocks: seq<Block>, number: int) {
    exists i :: 0 <= i < |blocks| && blocks[i].number == number
  }

  /** The hash of the block with the highest number, if there is one. */
  function HeadHash(blocks: seq<Block>): Digest {
    if blocks == [] then ZEROS
    else if blocks[|blocks| - 1].number >= MaxNumber(blocks) then blocks[|blocks| - 1].hash
    else HeadHash(blocks[..|blocks| - 1])
  }

  // ── ORDER BY created_at, id, and the root over it ──────────────────────────

  predicate Before(a: Entry, b: Entry) {
    a.created < b.created || (a.created == b.created && a.id <= b.id)
  }

  function Inserted(e: Entry, sorted: seq<Entry>): seq<Entry> {
    if sorted == [] || Before(e, sorted[0]) then [e] + sorted else [sorted[0]] + Inserted(e, sorted[1..])
  }

  function Ordered(entries: seq<Entry>): seq<Entry> {
    if entries == [] then [] else Inserted(entries[0], Ordered(entries[1..]))
  }

  function Leaves(h: Hashing, entries: seq<Entry>): (leaves: seq<Digest>)
    ensures |leaves| == |entries|
  {
    if entries == [] then [] else [h.leaf(entries[0].id)] + Leaves(h, entries[1..])
  }

  function RootOf(h: Hashing, entries: seq<Entry>): Digest {
    Root(h.pair, ZEROS, Leaves(h, Ordered(entries)))
  }

  // ── Steps ──────────────────────────────────────────────────────────────────

  /** `count as i32`. */
  function AsI32(x: int): int {
    var m := x % 0x1_0000_0000;
    if m >= 0x8000_0000 then m - 0x1_0000_0000 else m
  }

  datatype Step =
    | Settle(entry: Entry)
    | Count(s: SealerId)
    | ReadNumber(s: SealerId, ok: bool)
    | ReadHash(s: SealerId, ok: bool, id: BlockId)
    | Assign(s: SealerId)
    | Sum(s: SealerId)
    | ReadIds(s: SealerId, ok: bool)
    | Insert(s: SealerId, now: int)
    | Fail(s: SealerId)

  /** A random UUID that nothing in the database or in a running sealer carries. */
  predicate Fresh(w: World, id: BlockId) {
    && (forall i :: 0 <= i < |w.events| ==> w.events[i].block != Some(id))
    && (forall i :: 0 <= i < |w.blocks| ==> w.blocks[i].id != id)
    && (forall s :: s in w.sealers && w.sealers[s].HasId() ==> w.sealers[s].id != id)
  }

  function Landed(sealers: map<SealerId, Local>): map<SealerId, Local> {
    map s | s in sealers :: if sealers[s].InWindow() then sealers[s].(landed := sealers[s].landed + 1) else sealers[s]
  }

  function Taken(sealers: map<SealerId, Local>, taker: SealerId, n: nat): map<SealerId, Local> {
    map s | s in sealers ::
      if s != taker && sealers[s].InWindow() then sealers[s].(taken := sealers[s].taken + n) else sealers[s]
  }

  /** The sealer's next statement, its effect on its own variables. A statement
      whose error the source swallows leaves its default behind instead. */
  function Advanced(h: Hashing, w: World, l: Local, step: Step): Local {
    match step
    case Count(s) =>
      var c := |EntriesIn(w.events, None)|;
      if l.pc != Idle || c == 0 then l else RESTING.(pc := Counted, count := c)
    case ReadNumber(s, ok) =>
      if l.pc != Counted then l else l.(pc := Numbered, number := if ok then MaxNumber(w.blocks) + 1 else 1)
    case ReadHash(s, ok, id) =>
      if l.pc != Numbered || !Fresh(w, id) then l
      else l.(pc := Linked, prev := if ok then HeadHash(w.blocks) else ZEROS, hashRead := ok, id := id)
    case Assign(s) =>
      if l.pc != Linked then l else l.(pc := Assigned)
    case Sum(s) =>
      var entries := EntriesIn(w.events, Some(l.id));
      if l.pc != Assigned then l else l.(pc := Summed, volume := Amounts(entries), fees := FeesOf(entries))
    case ReadIds(s, ok) =>
      var entries := if ok then EntriesIn(w.events, Some(l.id)) else [];
      if l.pc != Summed then l
      else l.(pc := Rooted, leaves := |entries|, root := RootOf(h, entries), idsRead := ok)
    case Insert(s, now) =>
      if l.pc != Rooted then l else RESTING
    case Fail(s) => RESTING
    case Settle(_) => l
  }

  function SealedBlock(h: Hashing, l: Local, now: int): Block {
    Block(l.id, l.number, l.prev, h.block(l.number, l.prev, l.root, l.count, l.volume, now), l.root,
          AsI32(l.count), l.volume, l.fees,
          History(l.count, l.leaves, l.landed, l.taken, l.hashRead, l.idsRead, now))
  }

  function Next(h: Hashing, w: World, step: Step): World {
    if step.Settle? then
      World(w.events + [EventRow(step.entry, None)], w.blocks, Landed(w.sealers))
    else if step.s !in w.sealers then w
    else
      var l := w.sealers[step.s];
      var moved := w.sealers[step.s := Advanced(h, w, l, step)];
      match step
      case Assign(s) =>
        if l.pc != Linked then w
        else World(AssignedTo(w.events, l.id), w.blocks, Taken(moved, s, |EntriesIn(w.events, None)|))
      case Insert(s, now) =>
        // UNIQUE (block_number) refuses a number that is already there
        if l.pc != Rooted || NumberTaken(w.blocks, l.number) then w.(sealers := moved)
        else World(w.events, w.blocks + [SealedBlock(h, l, now)], moved)
      case _ => w.(sealers := moved)
  }

  function Run(h: Hashing, w: World, steps: seq<Step>): World
    decreases |steps|
  {
    if steps == [] then w else Run(h, Next(h, w, steps[0]), steps[1..])
  }

  // ── Invariants ─────────────────────────────────────────────────────────────

  /** What a sealer's variables say about the chain. */
  predicate LocalChain(blocks: seq<Block>, l: Local) {
    && (l.pc.Rank() >= 2 ==> 1 <= l.number <= |blocks| + 1)
    && (l.HasId() ==> forall i :: 0 <= i < |blocks| ==> blocks[i].id != l.id)
    && (l.HasId() && l.number == |blocks| + 1 ==>
          l.prev == if l.hashRead && |blocks| > 0 then blocks[|blocks| - 1].hash else ZEROS)
  }

  /** What they say about the event rows. */
  predicate LocalRows(h: Hashing, events: seq<EventRow>, l: Local) {
    var own := EntriesIn(events, Some(l.id));
    && (l.pc == Linked ==> own == [])
    && (l.InWindow() ==> |EntriesIn(events, None)| + l.taken == l.count + l.landed)
    && (l.pc.Rank() >= 4 ==> |own| + l.taken == l.count + l.landed)
    && (l.pc.Rank() >= 5 ==> l.volume == Amounts(own) && l.fees == FeesOf(own))
    && (l.pc.Rank() >= 6 ==> var read := if l.idsRead then own else []; l.leaves == |read| && l.root == RootOf(h, read))
  }

  predicate BlockChain(h: Hashing, blocks: seq<Block>, i: nat)
    requires i < |blocks|
  {
    var b := blocks[i];
    && b.number == i + 1
    && b.prevHash == (if i > 0 && b.history.hashRead then blocks[i - 1].hash else ZEROS)
    && b.hash == h.block(b.number, b.prevHash, b.root, b.history.counted, b.volume, b.history.sealedAt)
  }

  predicate BlockRows(h: Hashing, events: seq<EventRow>, b: Block) {
    var own := EntriesIn(events, Some(b.id));
    var read := if b.history.idsRead then own else [];
    && b.volume == Amounts(own) && b.fees == FeesOf(own)
    && b.root == RootOf(h, read) && b.history.leaves == |read|
    && |own| + b.history.taken == b.history.counted + b.history.landed
    && b.eventCount == AsI32(b.history.counted)
  }

  predicate IdsDistinct(w: World) {
    && (forall i, j :: 0 <= i < j < |w.blocks| ==> w.blocks[i].id != w.blocks[j].id)
    && (forall s, t :: s in w.sealers && t in w.sealers && s != t && w.sealers[s].HasId() && w.sealers[t].HasId() ==>
          w.sealers[s].id != w.sealers[t].id)
  }

  predicate Inv(h: Hashing, w: World) {
    && IdsDistinct(w)
    && (forall s :: s in w.sealers ==> LocalChain(w.blocks, w.sealers[s]) && LocalRows(h, w.events, w.sealers[s]))
    && (forall i :: 0 <= i < |w.blocks| ==> BlockChain(h, w.blocks, i) && BlockRows(h, w.events, w.blocks[i]))
  }

  // ── Queries under the three writes ─────────────────────────────────────────

  lemma {:induction false} EntriesAppend(events: seq<EventRow>, row: EventRow, b: Option<BlockId>)
    ensures row.block == b ==> EntriesIn(events + [row], b) == EntriesIn(events, b) + [row.entry]
    ensures row.block != b ==> EntriesIn(events + [row], b) == EntriesIn(events, b)
  {
  }

  /** Assignment moves exactly the pending entries into the new block and touches no other block. */
  lemma {:induction false} EntriesAssigned(events: seq<EventRow>, id: BlockId, b: BlockId)
    ensures EntriesIn(AssignedTo(events, id), None) == []
    ensures b != id ==> EntriesIn(AssignedTo(events, id), Some(b)) == EntriesIn(events, Some(b))
    ensures EntriesIn(events, Some(id)) == [] ==> EntriesIn(AssignedTo(events, id), Some(id)) == EntriesIn(events, None)
    decreases |events|
  {
    if events != [] {
      var front, last := events[..|events| - 1], events[|events| - 1];
      EntriesAssigned(front, id, b);
      EntriesAppend(AssignedTo(front, id), if last.block.None? then last.(block := Some(id)) else last, None);
      EntriesAppend(AssignedTo(front, id), if last.block.None? then last.(block := Some(id)) else last, Some(b));
      EntriesAppend(AssignedTo(front, id), if last.block.None? then last.(block := Some(id)) else last, Some(id));
    }
  }

  lemma {:induction false} NothingInFreshBlock(events: seq<EventRow>, id: BlockId)
    requires forall i :: 0 <= i < |events| ==> events[i].block != Some(id)
    ensures EntriesIn(events, Some(id)) == []
    decreases |events|
  {
    if events != [] {
      NothingInFreshBlock(events[..|events| - 1], id);
    }
  }

  predicate Contiguous(blocks: seq<Block>) {
    forall i :: 0 <= i < |blocks| ==> blocks[i].number == i + 1
  }

  lemma {:induction false} HeadOfContiguous(blocks: seq<Block>)
    requires Contiguous(blocks)
    ensures MaxNumber(blocks) == |blocks|
    ensures HeadHash(blocks) == if blocks == [] then ZEROS else blocks[|blocks| - 1].hash
    decreases |blocks|
  {
    if blocks != [] {
      HeadOfContiguous(blocks[..|blocks| - 1]);
    }
  }

  // ── Every step keeps the invariant ─────────────────────────────────────────

  lemma {:induction false} SettleKeepsRows(h: Hashing, events: seq<EventRow>, entry: Entry, l: Local)
    requires LocalRows(h, events, l)
    ensures LocalRows(h, events + [EventRow(entry, None)], if l.InWindow() then l.(landed := l.landed + 1) else l)
  {
    EntriesAppend(events, EventRow(entry, None), None);
    EntriesAppend(events, EventRow(entry, None), Some(l.id));
  }

  lemma {:induction false} SettleKeepsBlock(h: Hashing, events: seq<EventRow>, entry: Entry, b: Block)
    requires BlockRows(h, events, b)
    ensures BlockRows(h, events + [EventRow(entry, None)], b)
  {
    EntriesAppend(events, EventRow(entry, None), Some(b.id));
  }

  lemma {:induction false} SettleKeepsInv(h: Hashing, w: World, entry: Entry)
    requires Inv(h, w)
    ensures Inv(h, Next(h, w, Settle(entry)))
  {
    var next := Next(h, w, Settle(entry));
    forall s | s in next.sealers
      ensures LocalRows(h, next.events, next.sealers[s])
    {
      SettleKeepsRows(h, w.events, entry, w.sealers[s]);
    }
    forall i | 0 <= i < |next.blocks|
      ensures BlockRows(h, next.events, next.blocks[i])
    {
      SettleKeepsBlock(h, w.events, entry, w.blocks[i]);
    }
  }

  lemma {:induction false} AssignKeepsRows(h: Hashing, events: seq<EventRow>, l: Local, id: BlockId, n: nat)
    requires LocalRows(h, events, l) && n == |EntriesIn(events, None)|
    requires l.HasId() ==> l.id != id
    ensures LocalRows(h, AssignedTo(events, id), if l.InWindow() then l.(taken := l.taken + n) else l)
  {
    EntriesAssigned(events, id, l.id);
  }

  lemma {:induction false} AssignFillsOwnRows(h: Hashing, events: seq<EventRow>, l: Local)
    requires LocalRows(h, events, l) && l.pc == Linked
    ensures LocalRows(h, AssignedTo(events, l.id), l.(pc := Assigned))
  {
    EntriesAssigned(events, l.id, l.id);
  }

  lemma {:induction false} AssignKeepsLocals(h: Hashing, w: World, s: SealerId, t: SealerId)
    requires Inv(h, w) && s in w.sealers && w.sealers[s].pc == Linked && t in w.sealers
    ensures LocalRows(h, AssignedTo(w.events, w.sealers[s].id), Next(h, w, Assign(s)).sealers[t])
  {
    var l := w.sealers[s];
    assert LocalRows(h, w.events, w.sealers[t]);
    if t == s {
      AssignFillsOwnRows(h, w.events, l);
    } else {
      AssignKeepsRows(h, w.events, w.sealers[t], l.id, |EntriesIn(w.events, None)|);
    }
  }

  lemma {:induction false} AssignKeepsBlocks(h: Hashing, w: World, s: SealerId, i: nat)
    requires Inv(h, w) && s in w.sealers && w.sealers[s].pc == Linked && i < |w.blocks|
    ensures BlockRows(h, AssignedTo(w.events, w.sealers[s].id), w.blocks[i])
  {
    assert LocalChain(w.blocks, w.sealers[s]) && BlockRows(h, w.events, w.blocks[i]);
    EntriesAssigned(w.events, w.sealers[s].id, w.blocks[i].id);
  }

  /** Assignment changes no other sealer's id, number or link. */
  lemma {:induction false} AssignKeepsChain(h: Hashing, w: World, s: SealerId, t: SealerId)
    requires s in w.sealers && w.sealers[s].pc == Linked && t in w.sealers
    ensures t in Next(h, w, Assign(s)).sealers
    ensures var l := Next(h, w, Assign(s)).sealers[t];
            l.id == w.sealers[t].id && l.HasId() == w.sealers[t].HasId()
            && (LocalChain(w.blocks, w.sealers[t]) ==> LocalChain(w.blocks, l))
  {
  }

  lemma {:induction false} AssignKeepsInv(h: Hashing, w: World, s: SealerId)
    requires Inv(h, w) && s in w.sealers && w.sealers[s].pc == Linked
    ensures Inv(h, Next(h, w, Assign(s)))
  {
    var next := Next(h, w, Assign(s));
    forall t | t in w.sealers
      ensures t in next.sealers && next.sealers[t].id == w.sealers[t].id
      ensures next.sealers[t].HasId() == w.sealers[t].HasId()
      ensures LocalChain(w.blocks, next.sealers[t]) && LocalRows(h, next.events, next.sealers[t])
    {
      assert LocalChain(w.blocks, w.sealers[t]);
      AssignKeepsChain(h, w, s, t);
      AssignKeepsLocals(h, w, s, t);
    }
    forall i | 0 <= i < |w.blocks|
      ensures BlockRows(h, next.events, w.blocks[i])
    {
      AssignKeepsBlocks(h, w, s, i);
    }
    assert next.sealers.Keys == w.sealers.Keys;
    assert IdsDistinct(next);
  }

  lemma {:induction false} UsedNumbers(h: Hashing, blocks: seq<Block>, number: int)
    requires forall i :: 0 <= i < |blocks| ==> BlockChain(h, blocks, i)
    ensures 1 <= number <= |blocks| ==> NumberTaken(blocks, number)
  {
    if 1 <= number <= |blocks| {
      assert BlockChain(h, blocks, number - 1);
    }
  }

  lemma {:induction false} InsertKeepsChain(h: Hashing, blocks: seq<Block>, l: Local, now: int)
    requires forall i :: 0 <= i < |blocks| ==> BlockChain(h, blocks, i)
    requires LocalChain(blocks, l) && l.pc == Rooted && !NumberTaken(blocks, l.number)
    ensures l.number == |blocks| + 1
    ensures forall i :: 0 <= i <= |blocks| ==> BlockChain(h, blocks + [SealedBlock(h, l, now)], i)
  {
    var longer := blocks + [SealedBlock(h, l, now)];
    UsedNumbers(h, blocks, l.number);
    forall i | 0 <= i <= |blocks|
      ensures BlockChain(h, longer, i)
    {
      assert i < |blocks| ==> BlockChain(h, blocks, i);
    }
  }

  lemma {:induction false} InsertKeepsOthers(blocks: seq<Block>, l: Local, b: Block)
    requires LocalChain(blocks, l) && b.number == |blocks| + 1 && (l.HasId() ==> l.id != b.id)
    ensures LocalChain(blocks + [b], l)
  {
  }

  lemma {:induction false} AppendedBlockKeepsInv(h: Hashing, w: World, s: SealerId, now: int)
    requires Inv(h, w) && s in w.sealers && w.sealers[s].pc == Rooted && !NumberTaken(w.blocks, w.sealers[s].number)
    ensures Inv(h, World(w.events, w.blocks + [SealedBlock(h, w.sealers[s], now)], w.sealers[s := RESTING]))
  {
    var l := w.sealers[s];
    var b := SealedBlock(h, l, now);
    assert LocalChain(w.blocks, l) && LocalRows(h, w.events, l);
    InsertKeepsChain(h, w.blocks, l, now);
    forall t | t in w.sealers && t != s
      ensures LocalChain(w.blocks + [b], w.sealers[t])
    {
      InsertKeepsOthers(w.blocks, w.sealers[t], b);
    }
    assert BlockRows(h, w.events, b);
  }

  lemma {:induction false} InsertKeepsInv(h: Hashing, w: World, s: SealerId, now: int)
    requires Inv(h, w) && s in w.sealers && w.sealers[s].pc == Rooted
    ensures Inv(h, Next(h, w, Insert(s, now)))
  {
    if NumberTaken(w.blocks, w.sealers[s].number) {
      LocalMoveKeepsInv(h, w, s, RESTING);
    } else {
      AppendedBlockKeepsInv(h, w, s, now);
    }
  }

  lemma {:induction false} InvContiguous(h: Hashing, w: World)
    requires Inv(h, w)
    ensures Contiguous(w.blocks)
  {
  }

  lemma {:induction false} NumberKeepsChain(blocks: seq<Block>, l: Local, ok: bool)
    requires Contiguous(blocks)
    ensures LocalChain(blocks, l.(pc := Numbered, number := if ok then MaxNumber(blocks) + 1 else 1))
  {
    HeadOfContiguous(blocks);
  }

  lemma {:induction false} LinkKeepsChain(blocks: seq<Block>, l: Local, ok: bool, id: BlockId)
    requires Contiguous(blocks) && LocalChain(blocks, l) && l.pc == Numbered
    requires forall i :: 0 <= i < |blocks| ==> blocks[i].id != id
    ensures LocalChain(blocks, l.(pc := Linked, prev := if ok then HeadHash(blocks) else ZEROS, hashRead := ok, id := id))
  {
    HeadOfContiguous(blocks);
  }

  /** The statements that only read the database. */
  lemma {:induction false} ReadKeepsChain(h: Hashing, w: World, s: SealerId, step: Step)
    requires Inv(h, w) && !step.Settle? && !step.Assign? && !step.Insert? && step.s == s && s in w.sealers
    ensures LocalChain(w.blocks, Advanced(h, w, w.sealers[s], step))
  {
    var l := w.sealers[s];
    assert LocalChain(w.blocks, l);
    InvContiguous(h, w);
    match step
    case ReadNumber(_, ok) => NumberKeepsChain(w.blocks, l, ok);
    case ReadHash(_, ok, id) =>
      if l.pc == Numbered && Fresh(w, id) {
        LinkKeepsChain(w.blocks, l, ok, id);
      }
    case _ =>
  }

  lemma {:induction false} ReadKeepsRows(h: Hashing, w: World, s: SealerId, step: Step)
    requires Inv(h, w) && !step.Settle? && !step.Assign? && !step.Insert? && step.s == s && s in w.sealers
    ensures LocalRows(h, w.events, Advanced(h, w, w.sealers[s], step))
  {
    assert LocalRows(h, w.events, w.sealers[s]);
    if step.ReadHash? && Fresh(w, step.id) {
      NothingInFreshBlock(w.events, step.id);
    }
  }

  lemma {:induction false} ReadKeepsIds(h: Hashing, w: World, s: SealerId, t: SealerId, step: Step)
    requires !step.Settle? && step.s == s && s in w.sealers && t in w.sealers && t != s
    requires w.sealers[t].HasId() && Advanced(h, w, w.sealers[s], step).HasId()
    requires w.sealers[s].HasId() ==> w.sealers[s].id != w.sealers[t].id
    ensures Advanced(h, w, w.sealers[s], step).id != w.sealers[t].id
  {
  }

  /** A sealer that only changes its own variables keeps the invariant if they stay sound. */
  lemma {:induction false} LocalMoveKeepsInv(h: Hashing, w: World, s: SealerId, l: Local)
    requires Inv(h, w) && s in w.sealers && LocalChain(w.blocks, l) && LocalRows(h, w.events, l)
    requires forall t :: t in w.sealers && t != s && w.sealers[t].HasId() && l.HasId() ==> l.id != w.sealers[t].id
    ensures Inv(h, w.(sealers := w.sealers[s := l]))
  {
  }

  lemma {:induction false} ReadKeepsInv(h: Hashing, w: World, step: Step)
    requires Inv(h, w) && !step.Settle? && !step.Assign? && !step.Insert? && step.s in w.sealers
    ensures Inv(h, Next(h, w, step))
  {
    var l := Advanced(h, w, w.sealers[step.s], step);
    ReadKeepsChain(h, w, step.s, step);
    ReadKeepsRows(h, w, step.s, step);
    forall t | t in w.sealers && t != step.s && w.sealers[t].HasId() && l.HasId()
      ensures l.id != w.sealers[t].id
    {
      ReadKeepsIds(h, w, step.s, t, step);
    }
    LocalMoveKeepsInv(h, w, step.s, l);
    assert Next(h, w, step) == w.(sealers := w.sealers[step.s := l]);
  }

  lemma {:induction false} StepKeepsInv(h: Hashing, w: World, step: Step)
    requires Inv(h, w)
    ensures Inv(h, Next(h, w, step))
  {
    if step.Settle? {
      SettleKeepsInv(h, w, step.entry);
    } else if step.s in w.sealers {
      if step.Assign? && w.sealers[step.s].pc == Linked {
        AssignKeepsInv(h, w, step.s);
      } else if step.Insert? && w.sealers[step.s].pc == Rooted {
        InsertKeepsInv(h, w, step.s, step.now);
      } else if step.Assign? || step.Insert? {
        assert w.sealers[step.s := w.sealers[step.s]] == w.sealers;
      } else {
        ReadKeepsInv(h, w, step);
      }
    }
  }

  predicate Start(w: World) {
    w.events == [] && w.blocks == [] && forall s :: s in w.sealers ==> w.sealers[s] == RESTING
  }

  lemma {:induction false} StartIsSound(h: Hashing, w: World)
    requires Start(w)
    ensures Inv(h, w)
  {
  }

  /** In every reachable state, whatever was interleaved, however many sealers
      run, and whichever statements failed: block numbers are 1, 2, 3, …, each
      prev_hash is the previous block's hash (zeros only for the first block or
      after a failed read of the head), each hash covers its row, and volume,
      fees and Merkle root are those of the events the block still holds. */
  lemma {:induction false} RunKeepsInv(h: Hashing, w: World, steps: seq<Step>)
    requires Inv(h, w)
    ensures Inv(h, Run(h, w, steps))
    decreases |steps|
  {
    if steps != [] {
      StepKeepsInv(h, w, steps[0]);
      RunKeepsInv(h, Next(h, w, steps[0]), steps[1..]);
    }
  }

  /** Exactly when a block links to the one before it: its sealer's read of the
      head did not fail (or the previous hash happens to be the zeros a failed read leaves). */
  lemma {:induction false} ChainLinkedExactly(h: Hashing, w: World, steps: seq<Step>, i: nat)
    requires Start(w) && 0 < i < |Run(h, w, steps).blocks|
    ensures var blocks := Run(h, w, steps).blocks;
            && blocks[i].number == blocks[i - 1].number + 1 == i + 1
            && (blocks[i].prevHash == blocks[i - 1].hash <==> blocks[i].history.hashRead || blocks[i - 1].hash == ZEROS)
  {
    StartIsSound(h, w);
    RunKeepsInv(h, w, steps);
    var blocks := Run(h, w, steps).blocks;
    assert BlockChain(h, blocks, i) && BlockChain(h, blocks, i - 1);
  }

  // ── Conservation between blocks and log ────────────────────────────────────

  predicate InBlock(row: EventRow, blocks: seq<Block>) {
    exists i :: 0 <= i < |blocks| && row.block == Some(blocks[i].id)
  }

  lemma {:induction false} InBlockAppend(row: EventRow, blocks: seq<Block>, b: Block)
    ensures InBlock(row, blocks + [b]) <==> InBlock(row, blocks) || row.block == Some(b.id)
  {
    var longer := blocks + [b];
    assert longer[|blocks|] == b;
    assert forall i :: 0 <= i < |blocks| ==> longer[i] == blocks[i];
  }

  /** The entries of rows that are in no inserted block: pending ones, and those a sealer took and lost. */
  function Unsealed(events: seq<EventRow>, blocks: seq<Block>): seq<Entry> {
    if events == [] then []
    else
      var last := events[|events| - 1];
      Unsealed(events[..|events| - 1], blocks)
        + if InBlock(last, blocks) then [] else [last.entry]
  }

  function AllEntries(events: seq<EventRow>): seq<Entry> {
    if events == [] then [] else AllEntries(events[..|events| - 1]) + [events[|events| - 1].entry]
  }

  function VolumeOf(blocks: seq<Block>): int {
    if blocks == [] then 0 else VolumeOf(blocks[..|blocks| - 1]) + blocks[|blocks| - 1].volume
  }

  function CollectedBy(blocks: seq<Block>): int {
    if blocks == [] then 0 else CollectedBy(blocks[..|blocks| - 1]) + blocks[|blocks| - 1].fees
  }

  lemma {:induction false} SumsAppend(entries: seq<Entry>, e: Entry)
    ensures Amounts(entries + [e]) == Amounts(entries) + e.amount
    ensures FeesOf(entries + [e]) == FeesOf(entries) + e.fee
  {
  }

  lemma {:induction false} UnsealedSums(events: seq<EventRow>, blocks: seq<Block>)
    requires events != []
    ensures var front, last := Unsealed(events[..|events| - 1], blocks), events[|events| - 1];
            && Amounts(Unsealed(events, blocks)) == Amounts(front) + (if InBlock(last, blocks) then 0 else last.entry.amount)
            && FeesOf(Unsealed(events, blocks)) == FeesOf(front) + (if InBlock(last, blocks) then 0 else last.entry.fee)
  {
    SumsAppend(Unsealed(events[..|events| - 1], blocks), events[|events| - 1].entry);
    assert Unsealed(events[..|events| - 1], blocks) + [] == Unsealed(events[..|events| - 1], blocks);
  }

  lemma {:induction false} EntriesSums(events: seq<EventRow>, b: Option<BlockId>)
    requires events != []
    ensures var front, last := EntriesIn(events[..|events| - 1], b), events[|events| - 1];
            && Amounts(EntriesIn(events, b)) == Amounts(front) + (if last.block == b then last.entry.amount else 0)
            && FeesOf(EntriesIn(events, b)) == FeesOf(front) + (if last.block == b then last.entry.fee else 0)
  {
    SumsAppend(EntriesIn(events[..|events| - 1], b), events[|events| - 1].entry);
    assert EntriesIn(events[..|events| - 1], b) + [] == EntriesIn(events[..|events| - 1], b);
  }

  /** Sealing one more block moves exactly its own entries out of the unsealed ones. */
  lemma {:induction false} UnsealedShrinks(events: seq<EventRow>, blocks: seq<Block>, b: Block)
    requires forall i :: 0 <= i < |blocks| ==> blocks[i].id != b.id
    ensures Amounts(Unsealed(events, blocks)) == Amounts(Unsealed(events, blocks + [b])) + Amounts(EntriesIn(events, Some(b.id)))
    ensures FeesOf(Unsealed(events, blocks)) == FeesOf(Unsealed(events, blocks + [b])) + FeesOf(EntriesIn(events, Some(b.id)))
    decreases |events|
  {
    if events != [] {
      UnsealedShrinks(events[..|events| - 1], blocks, b);
      UnsealedSums(events, blocks);
      UnsealedSums(events, blocks + [b]);
      EntriesSums(events, Some(b.id));
      InBlockAppend(events[|events| - 1], blocks, b);
    }
  }

  lemma {:induction false} NothingSealedYet(events: seq<EventRow>)
    ensures Unsealed(events, []) == AllEntries(events)
    decreases |events|
  {
    if events != [] {
      NothingSealedYet(events[..|events| - 1]);
    }
  }

  lemma {:induction false} BlocksAccountForRows(events: seq<EventRow>, blocks: seq<Block>)
    requires forall i, j :: 0 <= i < j < |blocks| ==> blocks[i].id != blocks[j].id
    requires forall i :: 0 <= i < |blocks| ==>
               var own := EntriesIn(events, Some(blocks[i].id));
               blocks[i].volume == Amounts(own) && blocks[i].fees == FeesOf(own)
    ensures VolumeOf(blocks) + Amounts(Unsealed(events, blocks)) == Amounts(AllEntries(events))
    ensures CollectedBy(blocks) + FeesOf(Unsealed(events, blocks)) == FeesOf(AllEntries(events))
    decreases |blocks|
  {
    if blocks == [] {
      NothingSealedYet(events);
    } else {
      var front, last := blocks[..|blocks| - 1], blocks[|blocks| - 1];
      BlocksAccountForRows(events, front);
      UnsealedShrinks(events, front, last);
      assert front + [last] == blocks;
    }
  }

  /** Stored volumes and fees, plus those of events in no inserted block, equal
      the whole log's, in every reachable state. */
  lemma {:induction false} VolumesAreConserved(h: Hashing, w: World, steps: seq<Step>)
    requires Start(w)
    ensures var end := Run(h, w, steps);
            VolumeOf(end.blocks) + Amounts(Unsealed(end.events, end.blocks)) == Amounts(AllEntries(end.events))
            && CollectedBy(end.blocks) + FeesOf(Unsealed(end.events, end.blocks)) == FeesOf(AllEntries(end.events))
  {
    StartIsSound(h, w);
    RunKeepsInv(h, w, steps);
    var end := Run(h, w, steps);
    forall i | 0 <= i < |end.blocks|
      ensures var own := EntriesIn(end.events, Some(end.blocks[i].id));
              end.blocks[i].volume == Amounts(own) && end.blocks[i].fees == FeesOf(own)
    {
      assert BlockRows(h, end.events, end.blocks[i]);
    }
    BlocksAccountForRows(end.events, end.blocks);
  }

  // ── An event's block never changes ─────────────────────────────────────────

  /** No event ever leaves the log, changes, or moves from one block to another. */
  predicate Extends(before: seq<EventRow>, after: seq<EventRow>) {
    && |before| <= |after|
    && forall i :: 0 <= i < |before| ==>
         after[i].entry == before[i].entry && (before[i].block.Some? ==> after[i].block == before[i].block)
  }

  lemma {:induction false} StepExtends(h: Hashing, w: World, step: Step)
    ensures Extends(w.events, Next(h, w, step).events)
  {
  }

  lemma {:induction false} EventStaysInItsBlock(h: Hashing, w: World, steps: seq<Step>)
    ensures Extends(w.events, Run(h, w, steps).events)
    decreases |steps|
  {
    if steps != [] {
      StepExtends(h, w, steps[0]);
      EventStaysInItsBlock(h, Next(h, w, steps[0]), steps[1..]);
    }
  }

  // ── event_count against the Merkle leaves ──────────────────────────────────

  /** With one sealer nobody else assigns what it counted. */
  predicate NobodyTakes(w: World) {
    && (forall s :: s in w.sealers ==> w.sealers[s].taken == 0)
    && (forall i :: 0 <= i < |w.blocks| ==> w.blocks[i].history.taken == 0)
  }

  predicate OneSealer(w: World) {
    forall s, t :: s in w.sealers && t in w.sealers ==> s == t
  }

  lemma {:induction false} StepOfOneSealer(h: Hashing, w: World, step: Step)
    requires OneSealer(w) && NobodyTakes(w)
    ensures OneSealer(Next(h, w, step)) && NobodyTakes(Next(h, w, step))
  {
  }

  lemma {:induction false} RunOfOneSealer(h: Hashing, w: World, steps: seq<Step>)
    requires OneSealer(w) && NobodyTakes(w)
    ensures NobodyTakes(Run(h, w, steps))
    decreases |steps|
  {
    if steps != [] {
      StepOfOneSealer(h, w, steps[0]);
      RunOfOneSealer(h, Next(h, w, steps[0]), steps[1..]);
    }
  }

  /** A sealer goes on only when it counted something. */
  predicate CountsPositive(w: World) {
    && (forall s :: s in w.sealers && w.sealers[s].pc != Idle ==> w.sealers[s].count > 0)
    && (forall i :: 0 <= i < |w.blocks| ==> w.blocks[i].history.counted > 0)
  }

  lemma {:induction false} StepCountsPositive(h: Hashing, w: World, step: Step)
    requires CountsPositive(w)
    ensures CountsPositive(Next(h, w, step))
  {
  }

  lemma {:induction false} RunCountsPositive(h: Hashing, w: World, steps: seq<Step>)
    requires CountsPositive(w)
    ensures CountsPositive(Run(h, w, steps))
    decreases |steps|
  {
    if steps != [] {
      StepCountsPositive(h, w, steps[0]);
      RunCountsPositive(h, Next(h, w, steps[0]), steps[1..]);
    }
  }

  /** What a run leaves true of a block that its count and its leaves follow from. */
  lemma {:induction false} BlockCounts(h: Hashing, w: World, steps: seq<Step>, i: nat)
    requires Start(w) && i < |Run(h, w, steps).blocks|
    ensures var b := Run(h, w, steps).blocks[i];
            && BlockRows(h, Run(h, w, steps).events, b) && b.history.counted > 0
            && (OneSealer(w) ==> b.history.taken == 0)
  {
    StartIsSound(h, w);
    RunKeepsInv(h, w, steps);
    RunCountsPositive(h, w, steps);
    if OneSealer(w) {
      RunOfOneSealer(h, w, steps);
    }
  }

  /** When the ids were read, the leaves are what was counted, plus what landed before
      the assignment, less what another sealer assigned meanwhile; a failed read of the
      ids leaves no leaves and the zero root. So event_count is at most the number of
      leaves exactly when the ids were read and no more was taken than landed; with one
      sealer, exactly when the ids were read, with equality exactly when besides nothing
      landed between count and assignment.
   */
  lemma {:induction false} EventCountLaw(h: Hashing, w: World, steps: seq<Step>, i: nat)
    requires Start(w) && i < |Run(h, w, steps).blocks|
    ensures var b := Run(h, w, steps).blocks[i];
            && (b.history.idsRead ==> b.history.leaves + b.history.taken == b.history.counted + b.history.landed)
            && (!b.history.idsRead ==> b.history.leaves == 0 && b.root == ZEROS)
            && (b.history.counted < 0x8000_0000 ==>
                  (b.eventCount <= b.history.leaves <==> b.history.idsRead && b.history.taken <= b.history.landed))
            && (OneSealer(w) && b.history.counted < 0x8000_0000 ==>
                  && (b.eventCount <= b.history.leaves <==> b.history.idsRead)
                  && (b.eventCount == b.history.leaves <==> b.history.idsRead && b.history.landed == 0))
  {
    BlockCounts(h, w, steps, i);
    var b := Run(h, w, steps).blocks[i];
    assert b.eventCount == AsI32(b.history.counted);
    if !b.history.idsRead {
      assert b.root == RootOf(h, []);
    }
  }

  /** A count beyond 32 bits is stored modulo 2^32, possibly negative. */
  lemma {:induction false} EventCountWraps(h: Hashing, w: World, steps: seq<Step>, i: nat) returns (turns: int)
    requires Start(w) && i < |Run(h, w, steps).blocks|
    ensures var b := Run(h, w, steps).blocks[i];
            b.history.counted == b.eventCount + turns * 0x1_0000_0000 && -0x8000_0000 <= b.eventCount < 0x8000_0000
  {
    BlockCounts(h, w, steps, i);
    var counted := Run(h, w, steps).blocks[i].history.counted;
    turns := counted / 0x1_0000_0000 + if counted % 0x1_0000_0000 >= 0x8000_0000 then 1 else 0;
  }

  lemma {:induction false} FirstAssignerTakesAll(h: Hashing, w: World, s: SealerId, t: SealerId)
    requires Inv(h, w) && s != t && s in w.sealers && t in w.sealers
    requires w.sealers[s].pc == Linked && w.sealers[t].pc == Linked
    ensures var middle := Next(h, w, Assign(s));
            && t in middle.sealers && middle.sealers[t].pc == Linked
            && middle.sealers[t].id == w.sealers[t].id && middle.sealers[t].count == w.sealers[t].count
            && EntriesIn(middle.events, None) == [] && EntriesIn(middle.events, Some(w.sealers[t].id)) == []
  {
    assert LocalRows(h, w.events, w.sealers[t]);
    EntriesAssigned(w.events, w.sealers[s].id, w.sealers[t].id);
  }

  /** Two sealers can break the bound: of two that counted and linked, whichever
      assigns second keeps its count over a block that holds no event at all. */
  lemma {:induction false} SecondAssignerGetsNothing(h: Hashing, w: World, s: SealerId, t: SealerId)
    requires Inv(h, w) && s != t && s in w.sealers && t in w.sealers
    requires w.sealers[s].pc == Linked && w.sealers[t].pc == Linked
    ensures var end := Next(h, Next(h, w, Assign(s)), Assign(t));
            t in end.sealers && end.sealers[t].pc == Assigned && end.sealers[t].count == w.sealers[t].count
            && EntriesIn(end.events, Some(w.sealers[t].id)) == []
  {
    FirstAssignerTakesAll(h, w, s, t);
    var middle := Next(h, w, Assign(s));
    EntriesAssigned(middle.events, w.sealers[t].id, w.sealers[t].id);
    assert Next(h, middle, Assign(t)).events == AssignedTo(middle.events, w.sealers[t].id);
  }

  // ── A sealing nothing comes between ────────────────────────────────────────

  /** What one undisturbed sealing leaves: every pending event in the new block, and the
      block's row after the head, unless a failed read of the number made it 1 where
      that is taken.
   */
  ghost predicate SealsAlone(h: Hashing, events: seq<EventRow>, blocks: seq<Block>, id: BlockId, now: int,
      numberRead: bool, hashRead: bool, idsRead: bool, eventsAfter: seq<EventRow>, blocksAfter: seq<Block>)
  {
    var pending := EntriesIn(events, None);
    if pending == [] then eventsAfter == events && blocksAfter == blocks
    else
      var number := |blocks| + 1;
      var prev := if hashRead && blocks != [] then blocks[|blocks| - 1].hash else 0;
      var read := if idsRead then pending else [];
      var root := RootOf(h, read);
      var hash := h.block(number, prev, root, |pending|, Amounts(pending), now);
      && |eventsAfter| == |events|
      && (forall i :: 0 <= i < |events| ==>
            eventsAfter[i].entry == events[i].entry
            && eventsAfter[i].block == if events[i].block == None then Some(id) else events[i].block)
      && blocksAfter == blocks +
           if numberRead || blocks == [] then
             [Block(id, number, prev, hash, root, AsI32(|pending|), Amounts(pending), FeesOf(pending),
                    History(|pending|, |read|, 0, 0, hashRead, idsRead, now))]
           else []
  }

  function SealingSteps(s: SealerId, id: BlockId, now: int, numberRead: bool, hashRead: bool, idsRead: bool): seq<Step> {
    [Count(s), ReadNumber(s, numberRead), ReadHash(s, hashRead, id), Assign(s), Sum(s), ReadIds(s, idsRead), Insert(s, now)]
  }

  lemma {:induction false} RunOn(h: Hashing, w: World, steps: seq<Step>, k: nat)
    requires k < |steps|
    ensures Run(h, w, steps[k..]) == Run(h, Next(h, w, steps[k]), steps[k + 1..])
  {
    assert steps[k..][0] == steps[k] && steps[k..][1..] == steps[k + 1..];
  }

  /** The statements of a sealing before its assignment, with nothing in between. */
  lemma {:induction false} ReadsAlone(h: Hashing, w: World, s: SealerId, id: BlockId, numberRead: bool, hashRead: bool)
    requires Contiguous(w.blocks) && s in w.sealers && w.sealers[s].pc == Idle && Fresh(w, id)
    requires EntriesIn(w.events, None) != []
    ensures var l := LinkedAlone(w.events, w.blocks, id, numberRead, hashRead);
            Next(h, Next(h, Next(h, w, Count(s)), ReadNumber(s, numberRead)), ReadHash(s, hashRead, id))
              == w.(sealers := w.sealers[s := l])
  {
    HeadOfContiguous(w.blocks);
    var counted := RESTING.(pc := Counted, count := |EntriesIn(w.events, None)|);
    var w1 := w.(sealers := w.sealers[s := counted]);
    assert Next(h, w, Count(s)) == w1;
    var numbered := counted.(pc := Numbered, number := if numberRead then |w.blocks| + 1 else 1);
    assert w1.sealers[s := numbered] == w.sealers[s := numbered];
    var w2 := w.(sealers := w.sealers[s := numbered]);
    assert Next(h, w1, ReadNumber(s, numberRead)) == w2;
    assert Fresh(w2, id);
    var l := numbered.(pc := Linked, prev := if hashRead then HeadHash(w.blocks) else ZEROS, hashRead := hashRead, id := id);
    assert w2.sealers[s := l] == w.sealers[s := l];
  }

  /** A statement of s changes s's variables as `Advanced` says; only the assignment writes events. */
  lemma {:induction false} OwnStep(h: Hashing, w: World, s: SealerId, step: Step)
    requires s in w.sealers && !step.Settle? && !step.Insert? && step.s == s
    ensures var next := Next(h, w, step);
            && s in next.sealers && next.sealers[s] == Advanced(h, w, w.sealers[s], step) && next.blocks == w.blocks
            && next.events == if step.Assign? && w.sealers[s].pc == Linked then AssignedTo(w.events, w.sealers[s].id) else w.events
  {
  }

  lemma {:induction false} OwnInsert(h: Hashing, w: World, s: SealerId, now: int)
    requires s in w.sealers && w.sealers[s].pc == Rooted
    ensures var next := Next(h, w, Insert(s, now));
            && next.events == w.events
            && next.blocks == w.blocks + if NumberTaken(w.blocks, w.sealers[s].number) then [] else [SealedBlock(h, w.sealers[s], now)]
  {
  }

  lemma {:induction false} SealsAfterReads(h: Hashing, w: World, s: SealerId, now: int, idsRead: bool, steps: seq<Step>)
    requires s in w.sealers && w.sealers[s].pc == Linked && EntriesIn(w.events, Some(w.sealers[s].id)) == []
    requires steps == [Assign(s), Sum(s), ReadIds(s, idsRead), Insert(s, now)]
    ensures var l, pending := w.sealers[s], EntriesIn(w.events, None);
            var read := if idsRead then pending else [];
            var rooted := l.(pc := Rooted, volume := Amounts(pending), fees := FeesOf(pending),
                             leaves := |read|, root := RootOf(h, read), idsRead := idsRead);
            && Run(h, w, steps).events == AssignedTo(w.events, l.id)
            && Run(h, w, steps).blocks ==
                 w.blocks + if NumberTaken(w.blocks, l.number) then [] else [SealedBlock(h, rooted, now)]
  {
    EntriesAssigned(w.events, w.sealers[s].id, w.sealers[s].id);
    OwnStep(h, w, s, steps[0]);
    var w1 := Next(h, w, steps[0]);
    OwnStep(h, w1, s, steps[1]);
    var w2 := Next(h, w1, steps[1]);
    OwnStep(h, w2, s, steps[2]);
    var w3 := Next(h, w2, steps[2]);
    OwnInsert(h, w3, s, now);
    assert steps[0..] == steps && steps[4..] == [];
    RunOn(h, w, steps, 0);
    RunOn(h, w1, steps, 1);
    RunOn(h, w2, steps, 2);
    RunOn(h, w3, steps, 3);
  }

  lemma {:induction false} ReadsRun(h: Hashing, w: World, s: SealerId, id: BlockId, numberRead: bool, hashRead: bool,
      steps: seq<Step>)
    requires Contiguous(w.blocks) && s in w.sealers && w.sealers[s].pc == Idle && Fresh(w, id)
    requires EntriesIn(w.events, None) != []
    requires |steps| > 3 && steps[..3] == [Count(s), ReadNumber(s, numberRead), ReadHash(s, hashRead, id)]
    ensures var l := LinkedAlone(w.events, w.blocks, id, numberRead, hashRead);
            Run(h, w, steps) == Run(h, w.(sealers := w.sealers[s := l]), steps[3..])
  {
    assert steps[0] == steps[..3][0] && steps[1] == steps[..3][1] && steps[2] == steps[..3][2];
    ReadsAlone(h, w, s, id, numberRead, hashRead);
    var counted := Next(h, w, steps[0]);
    var numbered := Next(h, counted, steps[1]);
    assert steps[0..] == steps;
    RunOn(h, w, steps, 0);
    RunOn(h, counted, steps, 1);
    RunOn(h, numbered, steps, 2);
  }

  /** The variables of a sealer that has read number and head with nothing in between. */
  function LinkedAlone(events: seq<EventRow>, blocks: seq<Block>, id: BlockId, numberRead: bool, hashRead: bool): Local {
    RESTING.(pc := Linked, count := |EntriesIn(events, None)|, number := if numberRead then |blocks| + 1 else 1,
             prev := if hashRead && blocks != [] then blocks[|blocks| - 1].hash else ZEROS, hashRead := hashRead, id := id)
  }

  lemma {:induction false} RowsSealedAlone(h: Hashing, events: seq<EventRow>, blocks: seq<Block>, id: BlockId, now: int,
      numberRead: bool, hashRead: bool, idsRead: bool, eventsAfter: seq<EventRow>, blocksAfter: seq<Block>)
    requires Contiguous(blocks) && EntriesIn(events, None) != [] && eventsAfter == AssignedTo(events, id)
    requires var l, pending := LinkedAlone(events, blocks, id, numberRead, hashRead), EntriesIn(events, None);
             var read := if idsRead then pending else [];
             var rooted := l.(pc := Rooted, volume := Amounts(pending), fees := FeesOf(pending),
                              leaves := |read|, root := RootOf(h, read), idsRead := idsRead);
             blocksAfter == blocks + if NumberTaken(blocks, l.number) then [] else [SealedBlock(h, rooted, now)]
    ensures SealsAlone(h, events, blocks, id, now, numberRead, hashRead, idsRead, eventsAfter, blocksAfter)
  {
    if blocks != [] {
      assert blocks[0].number == 1;
    }
  }

  /** A sealer that nobody comes between does what the handler read from top to bottom does. */
  lemma {:induction false} UndisturbedSealing(h: Hashing, w: World, s: SealerId, id: BlockId, now: int,
      numberRead: bool, hashRead: bool, idsRead: bool)
    requires Contiguous(w.blocks) && s in w.sealers && w.sealers[s].pc == Idle && Fresh(w, id)
    requires EntriesIn(w.events, None) != []
    ensures var end := Run(h, w, SealingSteps(s, id, now, numberRead, hashRead, idsRead));
            SealsAlone(h, w.events, w.blocks, id, now, numberRead, hashRead, idsRead, end.events, end.blocks)
  {
    var steps := SealingSteps(s, id, now, numberRead, hashRead, idsRead);
    ReadsRun(h, w, s, id, numberRead, hashRead, steps);
    NothingInFreshBlock(w.events, id);
    var linked := w.(sealers := w.sealers[s := LinkedAlone(w.events, w.blocks, id, numberRead, hashRead)]);
    SealsAfterReads(h, linked, s, now, idsRead, steps[3..]);
    var end := Run(h, linked, steps[3..]);
    RowsSealedAlone(h, w.events, w.blocks, id, now, numberRead, hashRead, idsRead, end.events, end.blocks);
  }

  // ── Events that no block will ever hold ────────────────────────────────────

  /** Some row was assigned the id, and neither a block nor a running sealer has it. */
  predicate Stranded(w: World, id: BlockId) {
    && (exists i :: 0 <= i < |w.events| && w.events[i].block == Some(id))
    && (forall i :: 0 <= i < |w.blocks| ==> w.blocks[i].id != id)
    && (forall s :: s in w.sealers && w.sealers[s].HasId() ==> w.sealers[s].id != id)
  }

  lemma {:induction false} StepKeepsStranded(h: Hashing, w: World, step: Step, id: BlockId)
    requires Stranded(w, id)
    ensures Stranded(Next(h, w, step), id)
  {
    var i :| 0 <= i < |w.events| && w.events[i].block == Some(id);
    StepExtends(h, w, step);
    assert Next(h, w, step).events[i].block == Some(id);
  }

  /** Stranded events stay so along every run: the sealer never looks at them again, and
      no block ever accounts for them.
   */
  lemma {:induction false} StrandedForGood(h: Hashing, w: World, steps: seq<Step>, id: BlockId)
    requires Stranded(w, id)
    ensures Stranded(Run(h, w, steps), id)
    decreases |steps|
  {
    if steps != [] {
      StepKeepsStranded(h, w, steps[0], id);
      StrandedForGood(h, Next(h, w, steps[0]), steps[1..], id);
    }
  }

  /** The step ends s's sealing without its block: an error, or a number another sealer took first. */
  predicate LosesBlock(w: World, s: SealerId, step: Step)
    requires s in w.sealers
  {
    step == Fail(s)
    || (step.Insert? && step.s == s && w.sealers[s].pc == Rooted && NumberTaken(w.blocks, w.sealers[s].number))
  }

  lemma {:induction false} OwnRowExists(events: seq<EventRow>, id: BlockId)
    requires EntriesIn(events, Some(id)) != []
    ensures exists i :: 0 <= i < |events| && events[i].block == Some(id)
  {
    if forall i :: 0 <= i < |events| ==> events[i].block != Some(id) {
      NothingInFreshBlock(events, id);
    }
  }

  /** A step that ends a sealing after its assignment strands the block's events exactly
      when it took some and the step loses the block.
   */
  lemma {:induction false} StrandsExactly(h: Hashing, w: World, s: SealerId, step: Step)
    requires Inv(h, w) && s in w.sealers && w.sealers[s].pc.Rank() >= 4
    requires step == Fail(s) || (step.Insert? && step.s == s && w.sealers[s].pc == Rooted)
    ensures Stranded(Next(h, w, step), w.sealers[s].id) <==>
              LosesBlock(w, s, step) && EntriesIn(w.events, Some(w.sealers[s].id)) != []
  {
    var id := w.sealers[s].id;
    var next := Next(h, w, step);
    assert LocalChain(w.blocks, w.sealers[s]);
    assert next.events == w.events;
    if EntriesIn(w.events, Some(id)) == [] {
      NoRowOfEmptyBlock(w.events, id);
    } else {
      OwnRowExists(w.events, id);
    }
    if !LosesBlock(w, s, step) {
      assert next.blocks[|w.blocks|].id == id;
    }
  }

  lemma {:induction false} NoRowOfEmptyBlock(events: seq<EventRow>, id: BlockId)
    requires EntriesIn(events, Some(id)) == []
    ensures forall i :: 0 <= i < |events| ==> events[i].block != Some(id)
    decreases |events|
  {
    if events != [] {
      NoRowOfEmptyBlock(events[..|events| - 1], id);
    }
  }

  // ── What a stored root proves ──────────────────────────────────────────────

  predicate DistinctIds(entries: seq<Entry>) {
    forall i, j :: 0 <= i < j < |entries| ==> entries[i].id != entries[j].id
  }

  predicate InOrder(entries: seq<Entry>) {
    forall i, j :: 0 <= i < j < |entries| ==> Before(entries[i], entries[j])
  }

  lemma {:induction false} InsertedIsOrdered(e: Entry, sorted: seq<Entry>)
    requires InOrder(sorted)
    ensures InOrder(Inserted(e, sorted)) && multiset(Inserted(e, sorted)) == multiset{e} + multiset(sorted)
    decreases |sorted|
  {
    if sorted != [] {
      assert sorted == [sorted[0]] + sorted[1..];
      if !Before(e, sorted[0]) {
        InsertedIsOrdered(e, sorted[1..]);
        var rest := Inserted(e, sorted[1..]);
        forall j | 0 <= j < |rest|
          ensures Before(sorted[0], rest[j])
        {
          assert rest[j] in multiset(rest);
          assert rest[j] == e || rest[j] in sorted[1..];
        }
      }
    }
  }

  lemma {:induction false} OrderedIsASort(entries: seq<Entry>)
    ensures InOrder(Ordered(entries)) && multiset(Ordered(entries)) == multiset(entries)
    decreases |entries|
  {
    if entries != [] {
      assert entries == [entries[0]] + entries[1..];
      OrderedIsASort(entries[1..]);
      InsertedIsOrdered(entries[0], Ordered(entries[1..]));
    }
  }

  /** Oldest first, ties by id: the order the leaves are taken in. */
  lemma {:induction false} OldestFirst(entries: seq<Entry>, i: nat, j: nat)
    requires i < j < |entries|
    ensures |Ordered(entries)| == |entries|
    ensures var x, y := Ordered(entries)[i], Ordered(entries)[j];
            x.created < y.created || (x.created == y.created && x.id <= y.id)
  {
    OrderedIsASort(entries);
    assert |multiset(Ordered(entries))| == |multiset(entries)|;
  }

  /** How many of the entries come before e by time and then by id. */
  function Rank(entries: seq<Entry>, e: Entry): nat {
    |set x | x in entries && (x.created < e.created || (x.created == e.created && x.id < e.id))|
  }

  function Elements(entries: seq<Entry>): set<Entry> {
    set x | x in entries
  }

  lemma {:induction false} PrefixHasDistinct(entries: seq<Entry>, k: nat)
    requires DistinctIds(entries) && k <= |entries|
    ensures |Elements(entries[..k])| == k
  {
    if k > 0 {
      PrefixHasDistinct(entries, k - 1);
      assert entries[..k] == entries[..k - 1] + [entries[k - 1]];
      assert Elements(entries[..k]) == Elements(entries[..k - 1]) + {entries[k - 1]};
    }
  }

  lemma {:induction false} SameIdsAfterSort(a: seq<Entry>, b: seq<Entry>)
    requires multiset(a) == multiset(b) && DistinctIds(a)
    ensures |a| == |b| && DistinctIds(b) && forall x :: x in a <==> x in b
  {
    assert |multiset(a)| == |a| && |multiset(b)| == |b|;
    forall x
      ensures x in a <==> x in b
    {
      assert x in multiset(a) <==> x in multiset(b);
    }
    forall i, j | 0 <= i < j < |b|
      ensures b[i].id != b[j].id
    {
      TwiceMeansTwo(b, i, j);
      assert b[i] in a && b[j] in a;
      if b[i] == b[j] {
        OnceOnly(a, b[i]);
      }
    }
  }

  lemma {:induction false} TwiceMeansTwo(entries: seq<Entry>, i: nat, j: nat)
    requires i < j < |entries|
    ensures entries[i] == entries[j] ==> multiset(entries)[entries[i]] >= 2
  {
    assert entries == entries[..i] + [entries[i]] + entries[i + 1..j] + [entries[j]] + entries[j + 1..];
  }

  lemma {:induction false} OnceOnly(entries: seq<Entry>, e: Entry)
    requires DistinctIds(entries)
    ensures multiset(entries)[e] <= 1
  {
    if entries != [] {
      var front, last := entries[..|entries| - 1], entries[|entries| - 1];
      OnceOnly(front, e);
      assert entries == front + [last];
      if last == e {
        assert e !in front;
      }
    }
  }

  /** With distinct ids the entry with k before it stands at place k. */
  lemma {:induction false} RankIsPlace(entries: seq<Entry>, k: nat)
    requires DistinctIds(entries) && k < |entries|
    ensures |Ordered(entries)| == |entries|
    ensures Ordered(entries)[k] in entries && Rank(entries, Ordered(entries)[k]) == k
  {
    OrderedIsASort(entries);
    var sorted := Ordered(entries);
    SameIdsAfterSort(entries, sorted);
    var e := sorted[k];
    forall x
      ensures x in entries && (x.created < e.created || (x.created == e.created && x.id < e.id)) <==> x in sorted[..k]
    {
      if x in sorted {
        var i :| 0 <= i < |sorted| && sorted[i] == x;
        if i < k {
          OldestFirst(entries, i, k);
          assert x in sorted[..k];
        } else {
          if i > k {
            OldestFirst(entries, k, i);
          }
          assert x !in sorted[..k];
        }
      }
    }
    assert (set x | x in entries && (x.created < e.created || (x.created == e.created && x.id < e.id)))
        == Elements(sorted[..k]);
    PrefixHasDistinct(sorted, k);
  }

  ghost predicate OneEntryPerId(entries: multiset<Entry>) {
    forall x, y :: x in entries && y in entries && x.id == y.id ==> x == y
  }

  lemma {:induction false} SameFirst(a: seq<Entry>, b: seq<Entry>)
    requires InOrder(a) && InOrder(b) && multiset(a) == multiset(b) && OneEntryPerId(multiset(a))
    requires a != [] && b != []
    ensures a[0] == b[0]
  {
    assert a[0] in multiset(b) && b[0] in multiset(a);
    assert Before(a[0], b[0]) && Before(b[0], a[0]);
  }

  lemma {:induction false} WithoutFirst(a: seq<Entry>)
    requires a != [] && InOrder(a) && OneEntryPerId(multiset(a))
    ensures InOrder(a[1..]) && OneEntryPerId(multiset(a[1..])) && multiset(a[1..]) == multiset(a) - multiset{a[0]}
  {
    assert a == [a[0]] + a[1..];
  }

  lemma {:induction false} Peeled(a: seq<Entry>, b: seq<Entry>)
    requires InOrder(a) && InOrder(b) && multiset(a) == multiset(b) && OneEntryPerId(multiset(a))
    requires a != [] && b != []
    ensures a[0] == b[0] && InOrder(a[1..]) && InOrder(b[1..])
    ensures multiset(a[1..]) == multiset(b[1..]) && OneEntryPerId(multiset(a[1..]))
  {
    SameFirst(a, b);
    WithoutFirst(a);
    WithoutFirst(b);
  }

  lemma {:induction false} SameFromFirst(a: seq<Entry>, b: seq<Entry>)
    requires |a| == |b| > 0 && a[0] == b[0] && a[1..] == b[1..]
    ensures a == b
  {
  }

  /** Entries with different ids have only one order. */
  lemma {:induction false} OnlyOneOrder(a: seq<Entry>, b: seq<Entry>)
    requires |a| == |b| && InOrder(a) && InOrder(b) && multiset(a) == multiset(b) && OneEntryPerId(multiset(a))
    ensures a == b
    decreases |a|
  {
    if a != [] {
      Peeled(a, b);
      OnlyOneOrder(a[1..], b[1..]);
      SameFromFirst(a, b);
    }
  }

  /** Whatever order the rows come back in, the recomputed root is the stored one. */
  lemma {:induction false} RootIgnoresRowOrder(h: Hashing, a: seq<Entry>, b: seq<Entry>)
    requires multiset(a) == multiset(b) && DistinctIds(a)
    ensures RootOf(h, a) == RootOf(h, b)
  {
    OrderedIsASort(a);
    OrderedIsASort(b);
    forall x, y | x in multiset(a) && y in multiset(a) && x.id == y.id
      ensures x == y
    {
      assert x in a && y in a;
    }
    assert |Ordered(a)| == |multiset(a)| == |multiset(b)| == |Ordered(b)|;
    OnlyOneOrder(Ordered(a), Ordered(b));
  }

  lemma {:induction false} LeafAt(h: Hashing, entries: seq<Entry>, k: nat)
    requires k < |entries|
    ensures Leaves(h, entries)[k] == h.leaf(entries[k].id)
    decreases |entries|
  {
    if k > 0 {
      LeafAt(h, entries[1..], k - 1);
    }
  }

  lemma {:induction false} PlaceOf(entries: seq<Entry>, e: Entry) returns (k: nat)
    requires e in entries
    ensures |Ordered(entries)| == |entries| && k < |entries| && Ordered(entries)[k] == e
    ensures DistinctIds(entries) ==> k == Rank(entries, e)
  {
    OrderedIsASort(entries);
    assert e in multiset(Ordered(entries));
    assert |multiset(entries)| == |entries| == |Ordered(entries)|;
    k :| 0 <= k < |Ordered(entries)| && Ordered(entries)[k] == e;
    if DistinctIds(entries) {
      RankIsPlace(entries, k);
    }
  }

  /** The root a block stores is taken over one leaf per event, each at the place given by
      how many events of the block are older, or as old with a smaller id.
   */
  lemma {:induction false} SealedLeavesExactly(h: Hashing, w: World, steps: seq<Step>, i: nat) returns (leaves: seq<Digest>)
    requires Start(w) && i < |Run(h, w, steps).blocks| && Run(h, w, steps).blocks[i].history.idsRead
    requires DistinctIds(EntriesIn(Run(h, w, steps).events, Some(Run(h, w, steps).blocks[i].id)))
    ensures var b := Run(h, w, steps).blocks[i];
            var own := EntriesIn(Run(h, w, steps).events, Some(b.id));
            && |leaves| == |own| && Root(h.pair, ZEROS, leaves) == b.root
            && forall e :: e in own ==> Rank(own, e) < |own| && leaves[Rank(own, e)] == h.leaf(e.id)
  {
    StartIsSound(h, w);
    RunKeepsInv(h, w, steps);
    var end := Run(h, w, steps);
    var own := EntriesIn(end.events, Some(end.blocks[i].id));
    assert BlockRows(h, end.events, end.blocks[i]);
    leaves := Leaves(h, Ordered(own));
    OrderedIsASort(own);
    assert |multiset(own)| == |own| == |Ordered(own)|;
    forall e | e in own
      ensures Rank(own, e) < |own| && leaves[Rank(own, e)] == h.leaf(e.id)
    {
      var k := PlaceOf(own, e);
      LeafAt(h, Ordered(own), k);
    }
  }

  /** Every event of a sealed block has an inclusion proof: an index and
      ceil(log2 n) siblings that fold its id's hash to the root the block stores. */
  lemma {:induction false} SealedEventIsProvable(h: Hashing, w: World, steps: seq<Step>, i: nat,
      e: Entry) returns (k: nat, path: Path<Digest>)
    requires Start(w) && i < |Run(h, w, steps).blocks| && Run(h, w, steps).blocks[i].history.idsRead
    requires e in EntriesIn(Run(h, w, steps).events, Some(Run(h, w, steps).blocks[i].id))
    ensures var b := Run(h, w, steps).blocks[i];
            var own := EntriesIn(Run(h, w, steps).events, Some(b.id));
            && Fold(h.pair, h.leaf(e.id), k, path) == b.root && path.Length() == Height(b.history.leaves)
            && (DistinctIds(own) ==> k == Rank(own, e))
  {
    StartIsSound(h, w);
    RunKeepsInv(h, w, steps);
    var end := Run(h, w, steps);
    var b := end.blocks[i];
    assert BlockRows(h, end.events, b);
    var own := EntriesIn(end.events, Some(b.id));
    k := PlaceOf(own, e);
    LeafAt(h, Ordered(own), k);
    path := SiblingPath(h.pair, Leaves(h, Ordered(own)), k);
    PathFoldsToRoot(h.pair, ZEROS, Leaves(h, Ordered(own)), k);
  }

  /** An inclusion proof of the event against the root the block stores. */
  ghost predicate HasProof(h: Hashing, b: Block, e: Entry) {
    exists k: nat, path: Path<Digest> ::
      path.Length() == Height(b.history.leaves) && Fold(h.pair, h.leaf(e.id), k, path) == b.root
  }

  /** An event of a sealed block has a proof exactly when the block's ids were read, save
      that an id hashing to the zeros of a failed read proves itself.
   */
  lemma {:induction false} EventIsProvableExactly(h: Hashing, w: World, steps: seq<Step>, i: nat, e: Entry)
    requires Start(w) && i < |Run(h, w, steps).blocks|
    requires e in EntriesIn(Run(h, w, steps).events, Some(Run(h, w, steps).blocks[i].id))
    ensures var b := Run(h, w, steps).blocks[i];
            HasProof(h, b, e) <==> b.history.idsRead || h.leaf(e.id) == ZEROS
  {
    var b := Run(h, w, steps).blocks[i];
    EventCountLaw(h, w, steps, i);
    if b.history.idsRead {
      var k, path := SealedEventIsProvable(h, w, steps, i, e);
    } else if h.leaf(e.id) == ZEROS {
      assert Path<Digest>.Top.Length() == 0 && Fold(h.pair, h.leaf(e.id), 0, Top) == ZEROS;
    }
  }
}
