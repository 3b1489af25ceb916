/**
 * What the event table holds, row by row: after any run each stored event is the first one with
 * its id in the earliest live block that has one, and every event id of a live block is stored.
 */
module ChainEvents {
  import opened Outcomes
  import opened ChainIndexer
  import opened ChainReplay

  /** The i-th event of the block is its first with this id. */
  predicate FirstIn(b: Block, i: nat, id: string) {
    i < |b.events| && b.events[i].id == id && forall k :: 0 <= k < i ==> b.events[k].id != id
  }

  predicate Holds(b: Block, id: string) {
    exists i :: 0 <= i < |b.events| && b.events[i].id == id
  }

  /** The j-th live block is the earliest that holds the id, and the event is the i-th in it. */
  predicate Earliest(live: seq<BlockRow>, book: Book, j: nat, i: nat, id: string)
    requires Known(live, book)
  {
    && j < |live| && FirstIn(book[live[j].hash].1, i, id)
    && forall m :: 0 <= m < j ==> !Holds(book[live[m].hash].1, id)
  }

  // ----- one block

  /** The first event with the id, if the m-th has it. */
  lemma {:induction false} FirstOf(b: Block, m: nat, id: string) returns (i: nat)
    requires m < |b.events| && b.events[m].id == id
    ensures FirstIn(b, i, id)
    decreases m
  {
    i := m;
    if k :| 0 <= k < m && b.events[k].id == id {
      i := FirstOf(b, k, id);
    }
  }

  lemma {:induction false} AddAbsent(e: EventTable, chain: Chain, b: Block, n: nat, id: string)
    requires n <= |b.events| && forall k :: 0 <= k < n ==> b.events[k].id != id
    ensures SameRow(AddEvents(e, chain, b, n), e, (chain, id))
  {
    if n > 0 {
      AddAbsent(e, chain, b, n - 1, id);
    }
  }

  lemma {:induction false} AddFirst(e: EventTable, chain: Chain, b: Block, n: nat, i: nat, id: string)
    requires i < n <= |b.events| && FirstIn(b, i, id) && (chain, id) !in e
    ensures (chain, id) in AddEvents(e, chain, b, n)
    ensures AddEvents(e, chain, b, n)[(chain, id)] == EventRow(b.number, b.hash, b.events[i].payload)
  {
    if i == n - 1 {
      AddAbsent(e, chain, b, n - 1, id);
    } else {
      AddFirst(e, chain, b, n - 1, i, id);
    }
  }

  // ----- the live blocks

  lemma {:induction false} ReplayAbsent(live: seq<BlockRow>, chain: Chain, book: Book, id: string)
    requires Known(live, book) && forall m :: 0 <= m < |live| ==> !Holds(book[live[m].hash].1, id)
    ensures (chain, id) !in Replay(live, chain, book)
  {
    if live != [] {
      var n := |live| - 1;
      var b := book[live[n].hash].1;
      ReplayAbsent(live[..n], chain, book, id);
      AddAbsent(Replay(live[..n], chain, book), chain, b, |b.events|, id);
    }
  }

  lemma {:induction false} ReplayEarliest(
      live: seq<BlockRow>, chain: Chain, book: Book, j: nat, i: nat, id: string)
    requires Known(live, book) && Earliest(live, book, j, i, id)
    ensures var b := book[live[j].hash].1;
            && (chain, id) in Replay(live, chain, book)
            && Replay(live, chain, book)[(chain, id)] == EventRow(b.number, live[j].hash, b.events[i].payload)
  {
    var n := |live| - 1;
    var b := book[live[n].hash].1;
    if j == n {
      ReplayAbsent(live[..n], chain, book, id);
      AddFirst(Replay(live[..n], chain, book), chain, b, |b.events|, i, id);
    } else {
      ReplayEarliest(live[..n], chain, book, j, i, id);
      AddOwner(Replay(live[..n], chain, book), chain, b, |b.events|, (chain, id));
    }
  }

  /** The earliest block that holds the id, if one does. */
  lemma {:induction false} EarliestOf(live: seq<BlockRow>, book: Book, m: nat, id: string) returns (j: nat, i: nat)
    requires Known(live, book) && m < |live| && Holds(book[live[m].hash].1, id)
    ensures Earliest(live, book, j, i, id)
    decreases m
  {
    if k :| 0 <= k < m && Holds(book[live[k].hash].1, id) {
      j, i := EarliestOf(live, book, k, id);
    } else {
      j := m;
      var k :| 0 <= k < |book[live[m].hash].1.events| && book[live[m].hash].1.events[k].id == id;
      i := FirstOf(book[live[m].hash].1, k, id);
    }
  }

  // ----- main theorems

  /**
   * After every legal run an event is stored exactly if a live block of its chain holds it, and the
   * row is its first event in the earliest such block: that block's number and hash, and its payload.
   */
  lemma {:induction false} StoredExactly(book: Book, run: seq<Delivery>, chain: Chain, id: string)
    requires GoodBook(book) && LegalRun(EMPTY, book, run)
    ensures var (live, events) := (Live(After(EMPTY, run).blocks, chain), After(EMPTY, run).events);
            && Known(live, book)
            && ((chain, id) in events <==> exists m :: 0 <= m < |live| && Holds(book[live[m].hash].1, id))
            && forall j: nat, i: nat :: Earliest(live, book, j, i, id) ==>
                 events[(chain, id)] == EventRow(book[live[j].hash].1.number, live[j].hash,
                                                 book[live[j].hash].1.events[i].payload)
  {
    IncrementalIsReplay(book, run, chain);
    var (live, events) := (Live(After(EMPTY, run).blocks, chain), After(EMPTY, run).events);
    assert SameRow(events, Replay(live, chain, book), (chain, id));
    if m :| 0 <= m < |live| && Holds(book[live[m].hash].1, id) {
      var j, i := EarliestOf(live, book, m, id);
      ReplayEarliest(live, chain, book, j, i, id);
    } else {
      ReplayAbsent(live, chain, book, id);
    }
    forall j: nat, i: nat | Earliest(live, book, j, i, id)
      ensures (chain, id) in events && events[(chain, id)] ==
              EventRow(book[live[j].hash].1.number, live[j].hash, book[live[j].hash].1.events[i].payload)
    {
      ReplayEarliest(live, chain, book, j, i, id);
    }
  }

  /** So every stored row has a live owner, and tells its number and one of its payloads. */
  lemma {:induction false} RowsAreOwned(book: Book, run: seq<Delivery>, chain: Chain, id: string)
    requires GoodBook(book) && LegalRun(EMPTY, book, run) && (chain, id) in After(EMPTY, run).events
    ensures var (live, row) := (Live(After(EMPTY, run).blocks, chain), After(EMPTY, run).events[(chain, id)]);
            && Among(live, 0, |live|, row.blockHash) && row.blockHash in book
            && row.number == book[row.blockHash].1.number
            && exists i: nat :: FirstIn(book[row.blockHash].1, i, id)
                           && row.payload == book[row.blockHash].1.events[i].payload
  {
    StoredExactly(book, run, chain, id);
    var live := Live(After(EMPTY, run).blocks, chain);
    var m :| 0 <= m < |live| && Holds(book[live[m].hash].1, id);
    var j, i := EarliestOf(live, book, m, id);
    assert live[j].hash == After(EMPTY, run).events[(chain, id)].blockHash;
  }
}
