/**
 * The bridge indexer: two tables that grow with each accepted block and shrink again when a
 * re-org shows. Hashes identify blocks; the id of a block row is its hash.
 */
module ChainIndexer {
  import opened Outcomes

  type Hash = string
  type Chain = string

  datatype Event = Event(id: string, payload: string)

  datatype Block = Block(number: int, hash: Hash, parentHash: Hash, events: seq<Event>)

  datatype BlockRow = BlockRow(chain: Chain, number: int, hash: Hash, parentHash: Hash, rolledBack: bool)

  datatype EventRow = EventRow(number: int, blockHash: Hash, payload: string)

  type EventTable = map<(Chain, string), EventRow>

  datatype Db = Db(blocks: seq<BlockRow>, events: EventTable)

  datatype Reply = InvalidChain | Reorg | Processed(events: nat)

  // ----- what the queries and updates do

  predicate IsLive(r: BlockRow, chain: Chain) {
    r.chain == chain && !r.rolledBack
  }

  function Live(rows: seq<BlockRow>, chain: Chain): seq<BlockRow> {
    if rows == [] then []
    else Live(rows[..|rows| - 1], chain) + (if IsLive(rows[|rows| - 1], chain) then [rows[|rows| - 1]] else [])
  }

  /** The live row with the highest number; the first of them if there were several. */
  function Highest(rows: seq<BlockRow>, chain: Chain): Option<BlockRow> {
    if rows == [] then
      None
    else
      var h, r := Highest(rows[..|rows| - 1], chain), rows[|rows| - 1];
      if IsLive(r, chain) && (h.None? || r.number > h.value.number) then Some(r) else h
  }

  predicate Doomed(r: BlockRow, chain: Chain, fork: int) {
    IsLive(r, chain) && r.number >= fork
  }

  function Mark(rows: seq<BlockRow>, chain: Chain, fork: int): (marked: seq<BlockRow>)
    ensures |marked| == |rows|
  {
    if rows == [] then []
    else
      var r := rows[|rows| - 1];
      Mark(rows[..|rows| - 1], chain, fork) + [if Doomed(r, chain, fork) then r.(rolledBack := true) else r]
  }

  function DoomedHashes(rows: seq<BlockRow>, chain: Chain, fork: int): set<Hash> {
    set i | 0 <= i < |rows| && Doomed(rows[i], chain, fork) :: rows[i].hash
  }

  function Rollback(db: Db, chain: Chain, fork: int): Db {
    var doomed := DoomedHashes(db.blocks, chain, fork);
    Db(Mark(db.blocks, chain, fork), map k | k in db.events && db.events[k].blockHash !in doomed :: db.events[k])
  }

  predicate HasRow(rows: seq<BlockRow>, hash: Hash) {
    exists i :: 0 <= i < |rows| && rows[i].hash == hash
  }

  function RowOf(chain: Chain, b: Block): BlockRow {
    BlockRow(chain, b.number, b.hash, b.parentHash, false)
  }

  /** Events already known keep their row; the others get one that names this block. */
  function AddEvents(events: EventTable, chain: Chain, b: Block, n: nat): EventTable
    requires n <= |b.events|
  {
    if n == 0 then events else
      var before := AddEvents(events, chain, b, n - 1);
      var k := (chain, b.events[n - 1].id);
      if k in before then before else before[k := EventRow(b.number, b.hash, b.events[n - 1].payload)]
  }

  function Append(db: Db, chain: Chain, b: Block): Db {
    Db(if HasRow(db.blocks, b.hash) then db.blocks else db.blocks + [RowOf(chain, b)],
       AddEvents(db.events, chain, b, |b.events|))
  }

  predicate ValidChain(chain: Chain) {
    chain == "STELLAR" || chain == "EVM"
  }

  function Handle(db: Db, chain: Chain, b: Block): (Db, Reply) {
    if !ValidChain(chain) then
      (db, InvalidChain)
    else
      var last := Highest(db.blocks, chain);
      if last.Some? && b.parentHash != last.value.hash then (Rollback(db, chain, b.number - 1), Reorg)
      else (Append(db, chain, b), Processed(|b.events|))
  }

  class ChainIndexerEngine {
    var blocks: seq<BlockRow>
    var events: EventTable

    constructor ()
      ensures blocks == [] && events == map[]
    {
      blocks, events := [], map[];
    }

    method GetLastProcessedBlock(chain: Chain) returns (last: Option<BlockRow>)
      ensures last == Highest(blocks, chain)
    {
      last := None;
      for i := 0 to |blocks|
        invariant last == Highest(blocks[..i], chain)
      {
        assert blocks[..i + 1][..i] == blocks[..i];
        if IsLive(blocks[i], chain) && (last.None? || blocks[i].number > last.value.number) {
          last := Some(blocks[i]);
        }
      }
      assert blocks[..|blocks|] == blocks;
    }

    method ExecuteRollback(chain: Chain, fork: int)
      modifies this
      ensures Db(blocks, events) == Rollback(old(Db(blocks, events)), chain, fork)
    {
      ghost var before := blocks;
      var marked: seq<BlockRow> := [];
      var ids: set<Hash> := {};
      for i := 0 to |blocks|
        invariant blocks == before && events == old(events)
        invariant marked == Mark(blocks[..i], chain, fork)
        invariant ids == DoomedHashes(blocks[..i], chain, fork)
      {
        assert blocks[..i + 1][..i] == blocks[..i];
        assert DoomedHashes(blocks[..i + 1], chain, fork) ==
               DoomedHashes(blocks[..i], chain, fork) + if Doomed(blocks[i], chain, fork) then {blocks[i].hash} else {};
        if Doomed(blocks[i], chain, fork) {
          ids := ids + {blocks[i].hash};
          marked := marked + [blocks[i].(rolledBack := true)];
        } else {
          marked := marked + [blocks[i]];
        }
      }
      assert blocks[..|blocks|] == blocks;
      events := map k | k in events && events[k].blockHash !in ids :: events[k];
      blocks := marked;
    }

    method ProcessEventIdempotent(chain: Chain, number: int, hash: Hash, e: Event)
      modifies this`events
      ensures events == if (chain, e.id) in old(events) then old(events)
                        else old(events)[(chain, e.id) := EventRow(number, hash, e.payload)]
    {
      if (chain, e.id) !in events {
        events := events[(chain, e.id) := EventRow(number, hash, e.payload)];
      }
    }

    method ProcessBlockWithEvents(chain: Chain, b: Block) returns (reply: Reply)
      modifies this
      ensures Db(blocks, events) == Append(old(Db(blocks, events)), chain, b)
      ensures reply == Processed(|b.events|)
    {
      if !exists i :: 0 <= i < |blocks| && blocks[i].hash == b.hash {
        blocks := blocks + [RowOf(chain, b)];
      }
      var count := 0;
      for n := 0 to |b.events|
        invariant blocks == Append(old(Db(blocks, events)), chain, b).blocks
        invariant events == AddEvents(old(events), chain, b, n) && count == n
      {
        ProcessEventIdempotent(chain, b.number, b.hash, b.events[n]);
        count := count + 1;
      }
      reply := Processed(count);
    }

    method HandleIncomingBlock(chain: Chain, b: Block) returns (reply: Reply)
      modifies this
      ensures (Db(blocks, events), reply) == Handle(old(Db(blocks, events)), chain, b)
      ensures reply.InvalidChain? <==> chain != "STELLAR" && chain != "EVM"
    {
      if chain != "STELLAR" && chain != "EVM" {
        return InvalidChain;
      }
      var last := GetLastProcessedBlock(chain);
      if last.Some? && b.parentHash != last.value.hash {
        ExecuteRollback(chain, b.number - 1);
        return Reorg;
      }
      reply := ProcessBlockWithEvents(chain, b);
    }
  }
}
