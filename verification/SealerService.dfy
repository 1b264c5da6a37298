/** seal_block as it runs when nothing comes between its statements: the loops
    the database performs over its rows, and the row that results.
 */
module SealerService {
  import opened Sums
  import opened Merkle
  import opened Sealer

  class ChainDb {
    var events: seq<EventRow>
    var blocks: seq<Block>

    constructor ()
      ensures events == [] && blocks == []
    {
      events, blocks := [], [];
    }

    /** SELECT COUNT(*) … WHERE block_id IS NULL. */
    method CountPending() returns (count: nat)
      ensures count == |EntriesIn(events, None)|
    {
      count := 0;
      for i := 0 to |events|
        invariant count == |EntriesIn(events[..i], None)|
      {
        EntriesAppend(events[..i], events[i], None);
        assert events[..i + 1] == events[..i] + [events[i]];
        if events[i].block.None? {
          count := count + 1;
        }
      }
      assert events[..|events|] == events;
    }

    /** SELECT COALESCE(MAX(block_number), 0) + 1, or 1 when the query fails. */
    method NextBlockNumber(ok: bool) returns (number: int)
      requires Contiguous(blocks)
      ensures number == if ok then |blocks| + 1 else 1
    {
      if !ok {
        return 1;
      }
      var max := 0;
      for i := 0 to |blocks|
        invariant max == i
      {
        if blocks[i].number > max {
          max := blocks[i].number;
        }
      }
      return max + 1;
    }

    /** SELECT block_hash … ORDER BY block_number DESC LIMIT 1, zeros when there is none or the query fails. */
    method PrevBlockHash(ok: bool) returns (hash: Digest)
      requires Contiguous(blocks)
      ensures hash == if ok && blocks != [] then blocks[|blocks| - 1].hash else ZEROS
    {
      hash := ZEROS;
      if ok {
        HeadOfContiguous(blocks);
        hash := HeadHash(blocks);
      }
    }

    /** UPDATE … SET block_id = id WHERE block_id IS NULL, row by row. */
    method AssignPending(id: BlockId)
      modifies `events
      ensures events == AssignedTo(old(events), id)
    {
      var i := 0;
      while i < |events|
        invariant 0 <= i <= |events| == |old(events)|
        invariant forall k :: 0 <= k < |events| ==>
                    events[k] == if k < i then AssignedTo(old(events), id)[k] else old(events)[k]
      {
        if events[i].block.None? {
          events := events[i := events[i].(block := Some(id))];
        }
        i := i + 1;
      }
    }

    /** SELECT SUM(amount_uaet), SUM(fee_uaet) … WHERE block_id = id. */
    method BlockStats(id: BlockId) returns (volume: int, fees: int)
      ensures volume == Amounts(EntriesIn(events, Some(id)))
      ensures fees == FeesOf(EntriesIn(events, Some(id)))
    {
      volume, fees := 0, 0;
      for i := 0 to |events|
        invariant volume == Amounts(EntriesIn(events[..i], Some(id)))
        invariant fees == FeesOf(EntriesIn(events[..i], Some(id)))
      {
        EntriesAppend(events[..i], events[i], Some(id));
        SumsAppend(EntriesIn(events[..i], Some(id)), events[i].entry);
        assert events[..i + 1] == events[..i] + [events[i]];
        if events[i].block == Some(id) {
          volume := volume + events[i].entry.amount;
          fees := fees + events[i].entry.fee;
        }
      }
      assert events[..|events|] == events;
    }

    /** The ids in created_at, id order, hashed into leaves and folded to a root; none when the query fails. */
    method EventsRoot(h: Hashing, id: BlockId, ok: bool) returns (root: Digest, leaves: nat)
      ensures var read := if ok then EntriesIn(events, Some(id)) else [];
              root == RootOf(h, read) && leaves == |read|
    {
      var read := if ok then EntriesIn(events, Some(id)) else [];
      var ids := Ordered(read);
      OrderedIsASort(read);
      assert |multiset(ids)| == |ids| && |multiset(read)| == |read|;
      root := MerkleRoot(h.pair, ZEROS, Leaves(h, ids));
      leaves := |ids|;
    }

    /** INSERT INTO ledger_blocks, which UNIQUE (block_number) may refuse. */
    method InsertBlock(b: Block)
      requires Contiguous(blocks) && 1 <= b.number <= |blocks| + 1
      modifies `blocks
      ensures blocks == old(blocks) + if b.number == |old(blocks)| + 1 then [b] else []
      ensures Contiguous(blocks)
    {
      if b.number <= |blocks| {
        assert blocks[b.number - 1].number == b.number;
      }
      if !NumberTaken(blocks, b.number) {
        blocks := blocks + [b];
      }
    }

    /** seal_block. The flags say which of the reads whose errors are swallowed succeed. */
    method SealBlock(h: Hashing, id: BlockId, now: int, numberRead: bool, hashRead: bool, idsRead: bool)
      requires Contiguous(blocks)
      requires forall i :: 0 <= i < |events| ==> events[i].block != Some(id)
      modifies this
      ensures Contiguous(blocks)
      ensures SealsAlone(h, old(events), old(blocks), id, now, numberRead, hashRead, idsRead, events, blocks)
    {
      var count := CountPending();
      if count == 0 {
        return;
      }
      var blockNum := NextBlockNumber(numberRead);
      var prevHash := PrevBlockHash(hashRead);
      NothingInFreshBlock(events, id);
      EntriesAssigned(events, id, id);
      AssignPending(id);
      var volume, fees := BlockStats(id);
      var root, leaves := EventsRoot(h, id, idsRead);
      InsertBlock(SealedBlock(h, Local(Rooted, count, blockNum, prevHash, hashRead, id, volume, fees,
                                       root, leaves, idsRead, 0, 0), now));
    }
  }
}
