/**
 * What a re-org takes for good. A rolled-back row never becomes live again, and a block that
 * competes with the tip rolls back its own parent too: it can only ever be live as a first block.
 */
module ChainStranded {
  import opened Outcomes
  import opened ChainIndexer
  import opened ChainReplay

  predicate DistinctRows(rows: seq<BlockRow>) {
    forall i, j :: 0 <= i < j < |rows| ==> rows[i].hash != rows[j].hash
  }

  lemma {:induction false} MarkForgetsNothing(db: Db, chain: Chain, fork: int, hash: Hash)
    requires DistinctRows(db.blocks)
    ensures DistinctRows(Rollback(db, chain, fork).blocks)
    ensures RolledBackRow(db, hash) ==> RolledBackRow(Rollback(db, chain, fork), hash)
  {
    var rows, marked := db.blocks, Mark(db.blocks, chain, fork);
    forall i | 0 <= i < |rows|
      ensures marked[i].hash == rows[i].hash && (rows[i].rolledBack ==> marked[i].rolledBack)
    {
      MarkAt(rows, chain, fork, i);
    }
    if RolledBackRow(db, hash) {
      var i :| 0 <= i < |rows| && rows[i].hash == hash && rows[i].rolledBack;
      assert marked[i].hash == hash && marked[i].rolledBack;
    }
  }

  lemma {:induction false} AppendForgetsNothing(db: Db, chain: Chain, b: Block, hash: Hash)
    requires DistinctRows(db.blocks)
    ensures DistinctRows(Append(db, chain, b).blocks)
    ensures RolledBackRow(db, hash) ==> RolledBackRow(Append(db, chain, b), hash)
  {
    if RolledBackRow(db, hash) {
      var i :| 0 <= i < |db.blocks| && db.blocks[i].hash == hash && db.blocks[i].rolledBack;
      assert Append(db, chain, b).blocks[i] == db.blocks[i];
    }
  }

  /** Whatever is delivered later, legal or not, the row stays rolled back. */
  lemma {:induction false} StaysRolledBack(db: Db, run: seq<Delivery>, hash: Hash)
    requires DistinctRows(db.blocks) && RolledBackRow(db, hash)
    ensures DistinctRows(After(db, run).blocks) && RolledBackRow(After(db, run), hash)
    decreases |run|
  {
    if run != [] {
      var (chain, b) := run[0];
      MarkForgetsNothing(db, chain, b.number - 1, hash);
      AppendForgetsNothing(db, chain, b, hash);
      StaysRolledBack(Handle(db, chain, b).0, run[1..], hash);
    }
  }

  /** So a block that was rolled back is never live again, on any chain, after any deliveries. */
  lemma {:induction false} NeverLiveAgain(db: Db, run: seq<Delivery>, hash: Hash, chain: Chain, j: nat)
    requires DistinctRows(db.blocks) && RolledBackRow(db, hash)
    requires j < |Live(After(db, run).blocks, chain)|
    ensures Live(After(db, run).blocks, chain)[j].hash != hash
  {
    StaysRolledBack(db, run, hash);
    var rows := After(db, run).blocks;
    LiveMember(rows, chain, j);
    var i :| 0 <= i < |rows| && rows[i] == Live(rows, chain)[j];
    var k :| 0 <= k < |rows| && rows[k].hash == hash && rows[k].rolledBack;
    assert rows[i].hash == rows[k].hash ==> i == k;
  }

  /** A child of a rolled-back block can be live only at the bottom of its chain. */
  lemma {:induction false} ChildrenAreStranded(db: Db, book: Book, run: seq<Delivery>, chain: Chain, h: Hash, j: nat)
    requires GoodBook(book) && Inv(db, book) && LegalRun(db, book, run)
    requires h in book && RolledBackRow(db, book[h].1.parentHash)
    requires j < |Live(After(db, run).blocks, chain)| && Live(After(db, run).blocks, chain)[j].hash == h
    ensures j == 0
  {
    RunKeeps(db, book, run);
    var rows := After(db, run).blocks;
    var live := Live(rows, chain);
    assert ChainOk(After(db, run), book, chain);
    LiveMember(rows, chain, j);
    if j > 0 {
      LinkedNumbers(live, j);
      LinkedPrefix(live, j + 1);
      NeverLiveAgain(db, run, book[h].1.parentHash, chain, j - 1);
    }
  }

  // ----- a block that is refused

  /** Delivered now, the block is taken for a re-org. */
  predicate Refused(db: Db, chain: Chain, b: Block) {
    ValidChain(chain) && Highest(db.blocks, chain).Some? && b.parentHash != Highest(db.blocks, chain).value.hash
  }

  /** A rollback leaves every row of the chain from the fork on rolled back, whether it was live or not. */
  lemma {:induction false} ForkLeavesRolledBack(db: Db, book: Book, chain: Chain, fork: int, h: Hash)
    requires RowsOk(db.blocks, book) && h in book && book[h].0 == chain && book[h].1.number >= fork
    ensures RolledBackRow(Rollback(db, chain, fork), h) <==> HasRow(db.blocks, h)
  {
    var rows, marked := db.blocks, Rollback(db, chain, fork).blocks;
    if HasRow(rows, h) {
      var i :| 0 <= i < |rows| && rows[i].hash == h;
      MarkAt(rows, chain, fork, i);
      assert marked[i].hash == h && marked[i].rolledBack;
    }
    if RolledBackRow(Rollback(db, chain, fork), h) {
      var i :| 0 <= i < |marked| && marked[i].hash == h && marked[i].rolledBack;
      MarkAt(rows, chain, fork, i);
      assert rows[i].hash == h;
    }
  }

  /**
   * A refused block takes its parent with it, at whatever depth that is, and itself: afterwards each
   * has a rolled-back row exactly if it had a row before.
   */
  lemma {:induction false} RefusedTakesParent(db: Db, book: Book, chain: Chain, b: Block)
    requires GoodBook(book) && Inv(db, book) && b.hash in book && book[b.hash] == (chain, b) && Refused(db, chain, b)
    ensures var (db', reply) := Handle(db, chain, b);
            && reply == Reorg && Inv(db', book)
            && (RolledBackRow(db', b.parentHash) <==> HasRow(db.blocks, b.parentHash))
            && (RolledBackRow(db', b.hash) <==> HasRow(db.blocks, b.hash))
  {
    RollbackKeeps(db, book, chain, b.number - 1);
    ForkLeavesRolledBack(db, book, chain, b.number - 1, b.hash);
    if b.parentHash in book {
      ForkLeavesRolledBack(db, book, chain, b.number - 1, b.parentHash);
    } else {
      NoRowOutsideBook(db, book, b.parentHash);
      NoRowOutsideBook(Rollback(db, chain, b.number - 1), book, b.parentHash);
    }
  }

  lemma {:induction false} NoRowOutsideBook(db: Db, book: Book, h: Hash)
    requires RowsOk(db.blocks, book) && h !in book
    ensures !HasRow(db.blocks, h) && !RolledBackRow(db, h)
  {
  }

  /** So if the parent had a row, no legal run makes the block live except as the first block of an emptied chain. */
  lemma {:induction false} RefusedIsStranded(
      db: Db, book: Book, chain: Chain, b: Block, run: seq<Delivery>, j: nat)
    requires GoodBook(book) && Inv(db, book) && b.hash in book && book[b.hash] == (chain, b) && Refused(db, chain, b)
    requires HasRow(db.blocks, b.parentHash) && LegalRun(Handle(db, chain, b).0, book, run)
    requires var live := Live(After(Handle(db, chain, b).0, run).blocks, chain); j < |live| && live[j].hash == b.hash
    ensures j == 0
  {
    RefusedTakesParent(db, book, chain, b);
    ChildrenAreStranded(Handle(db, chain, b).0, book, run, chain, b.hash, j);
  }

  /** The hash is live on top of another block. */
  predicate LiveAbove(db: Db, chain: Chain, h: Hash) {
    exists j :: 0 < j < |Live(db.blocks, chain)| && Live(db.blocks, chain)[j].hash == h
  }

  /** Some legal run brings the hash there. */
  ghost predicate ComesBack(db: Db, book: Book, chain: Chain, h: Hash) {
    exists run: seq<Delivery> :: LegalRun(db, book, run) && LiveAbove(After(db, run), chain, h)
  }

  /**
   * Where the parent links to what the refusal leaves, the block can come to be live on top of it
   * exactly if neither of the two had a row when it was refused.
   */
  lemma {:induction false} ComesBackExactly(db: Db, book: Book, chain: Chain, b: Block, p: Block)
    requires GoodBook(book) && Inv(db, book) && b.hash in book && book[b.hash] == (chain, b) && Refused(db, chain, b)
    requires p.hash == b.parentHash && p.hash in book && book[p.hash] == (chain, p)
    requires var last := Highest(Handle(db, chain, b).0.blocks, chain); last.None? || p.parentHash == last.value.hash
    ensures ComesBack(Handle(db, chain, b).0, book, chain, b.hash) <==>
            !HasRow(db.blocks, b.hash) && !HasRow(db.blocks, b.parentHash)
  {
    var db' := Handle(db, chain, b).0;
    RefusedTakesParent(db, book, chain, b);
    if !HasRow(db.blocks, b.hash) && !HasRow(db.blocks, b.parentHash) {
      TwoMore(db', book, chain, p, b);
    }
    if ComesBack(db', book, chain, b.hash) {
      var run: seq<Delivery> :| LegalRun(db', book, run) && LiveAbove(After(db', run), chain, b.hash);
      var live := Live(After(db', run).blocks, chain);
      var j :| 0 < j < |live| && live[j].hash == b.hash;
      if HasRow(db.blocks, b.hash) {
        NeverLiveAgain(db', run, b.hash, chain, j);
      } else if HasRow(db.blocks, b.parentHash) {
        RefusedIsStranded(db, book, chain, b, run, j);
      }
    }
  }

  lemma {:induction false} NotRolledBackIsDeliverable(db: Db, book: Book, chain: Chain, b: Block)
    requires b.hash in book && book[b.hash] == (chain, b) && !RolledBackRow(db, b.hash)
    ensures Deliverable(db, book, chain, b)
  {
  }

  lemma {:induction false} AppendRollsBackNothing(db: Db, chain: Chain, b: Block, h: Hash)
    requires !RolledBackRow(db, h)
    ensures !RolledBackRow(Append(db, chain, b), h)
  {
  }

  /** One accepted block becomes the tip. */
  lemma {:induction false} AcceptedIsTip(db: Db, book: Book, chain: Chain, b: Block)
    requires GoodBook(book) && Inv(db, book) && ValidChain(chain)
    requires b.hash in book && book[b.hash] == (chain, b) && !RolledBackRow(db, b.hash)
    requires var last := Highest(db.blocks, chain); last.None? || b.parentHash == last.value.hash
    ensures Deliverable(db, book, chain, b)
    ensures var db' := Handle(db, chain, b).0;
            && db' == Append(db, chain, b) && Inv(db', book)
            && Live(db'.blocks, chain) == Live(db.blocks, chain) + [RowOf(chain, b)]
            && Highest(db'.blocks, chain) == Some(RowOf(chain, b))
  {
    NotRolledBackIsDeliverable(db, book, chain, b);
    AppendKeeps(db, book, chain, b);
    TipOf(Append(db, chain, b), book, chain);
  }

  lemma {:induction false} TwoMore(db: Db, book: Book, chain: Chain, p: Block, b: Block)
    requires GoodBook(book) && Inv(db, book) && ValidChain(chain) && b.parentHash == p.hash
    requires b.hash in book && book[b.hash] == (chain, b) && p.hash in book && book[p.hash] == (chain, p)
    requires !RolledBackRow(db, p.hash) && !RolledBackRow(db, b.hash)
    requires var last := Highest(db.blocks, chain); last.None? || p.parentHash == last.value.hash
    ensures ComesBack(db, book, chain, b.hash)
  {
    var one := Handle(db, chain, p).0;
    AcceptedIsTip(db, book, chain, p);
    AppendRollsBackNothing(db, chain, p, b.hash);
    var two := Handle(one, chain, b).0;
    AcceptedIsTip(one, book, chain, b);
    RunFirst(one, book, (chain, b), []);
    RunFirst(db, book, (chain, p), [(chain, b)] + []);
    var run := [(chain, p)] + ([(chain, b)] + []);
    var live := Live(two.blocks, chain);
    assert live[|live| - 1].hash == b.hash && |live| >= 2;
    assert LiveAbove(After(db, run), chain, b.hash);
  }

  // ----- a block that competes with the tip

  lemma {:induction false} MarkedIsRolledBack(db: Db, chain: Chain, fork: int, j: nat)
    requires j < |Live(db.blocks, chain)| && Live(db.blocks, chain)[j].number >= fork
    ensures RolledBackRow(Rollback(db, chain, fork), Live(db.blocks, chain)[j].hash)
  {
    var r := Live(db.blocks, chain)[j];
    LiveMember(db.blocks, chain, j);
    var i :| 0 <= i < |db.blocks| && db.blocks[i] == r;
    MarkAt(db.blocks, chain, fork, i);
    assert Rollback(db, chain, fork).blocks[i].hash == r.hash && Rollback(db, chain, fork).blocks[i].rolledBack;
  }

  predicate Competes(db: Db, chain: Chain, b: Block) {
    var live := Live(db.blocks, chain);
    |live| >= 2 && b.parentHash == live[|live| - 2].hash
  }

  lemma {:induction false} CompetitorFacts(db: Db, book: Book, chain: Chain, b: Block)
    requires GoodBook(book) && Inv(db, book) && b.hash in book && book[b.hash] == (chain, b) && Competes(db, chain, b)
    ensures var live := Live(db.blocks, chain);
            && Highest(db.blocks, chain) == Some(live[|live| - 1]) && b.parentHash != live[|live| - 1].hash
            && live[|live| - 2].number == b.number - 1 && live[|live| - 1].number == b.number
            && Kept(live, b.number - 1) == |live| - 2
  {
    var live := Live(db.blocks, chain);
    assert ChainOk(db, book, chain);
    HighestIsTip(db.blocks, chain);
    LiveDistinct(db.blocks, book, chain);
    LiveMember(db.blocks, chain, |live| - 2);
    LinkedNumbers(live, |live| - 2);
    LinkedNumbers(live, |live| - 1);
  }

  /**
   * A block whose parent is the one below the tip, be it a sibling of the tip or the tip itself
   * delivered again: it is refused, and the tip and that parent are both rolled back.
   */
  lemma {:induction false} SiblingTakesParent(db: Db, book: Book, chain: Chain, b: Block)
    requires GoodBook(book) && Inv(db, book) && ValidChain(chain) && b.hash in book && book[b.hash] == (chain, b)
    requires Competes(db, chain, b)
    ensures var live := Live(db.blocks, chain);
            var (db', reply) := Handle(db, chain, b);
            && reply == Reorg && Inv(db', book) && Live(db'.blocks, chain) == live[..|live| - 2]
            && RolledBackRow(db', live[|live| - 2].hash) && RolledBackRow(db', live[|live| - 1].hash)
  {
    CompetitorFacts(db, book, chain, b);
    RollbackKeeps(db, book, chain, b.number - 1);
    MarkedIsRolledBack(db, chain, b.number - 1, |Live(db.blocks, chain)| - 2);
    MarkedIsRolledBack(db, chain, b.number - 1, |Live(db.blocks, chain)| - 1);
  }

  /** After that no legal run makes the block live, except as the first block of an emptied chain. */
  lemma {:induction false} SiblingIsStranded(db: Db, book: Book, chain: Chain, b: Block, run: seq<Delivery>, j: nat)
    requires GoodBook(book) && Inv(db, book) && ValidChain(chain) && b.hash in book && book[b.hash] == (chain, b)
    requires Competes(db, chain, b)
    requires LegalRun(Handle(db, chain, b).0, book, run)
    requires var live := Live(After(Handle(db, chain, b).0, run).blocks, chain); j < |live| && live[j].hash == b.hash
    ensures j == 0
  {
    CompetitorFacts(db, book, chain, b);
    LiveMember(db.blocks, chain, |Live(db.blocks, chain)| - 2);
    RefusedIsStranded(db, book, chain, b, run, j);
  }

  // ----- reached from empty tables

  predicate NoneRolledBack(db: Db) {
    forall i :: 0 <= i < |db.blocks| ==> !db.blocks[i].rolledBack
  }

  /** Tables kept by the invariant that nothing was rolled back in, and the live chain. */
  ghost predicate Grown(db: Db, book: Book, chain: Chain, live: seq<BlockRow>) {
    Inv(db, book) && NoneRolledBack(db) && Live(db.blocks, chain) == live
  }

  lemma {:induction false} EmptyGrown(book: Book, chain: Chain)
    ensures Grown(EMPTY, book, chain, [])
  {
  }

  lemma {:induction false} ChildIsAppended(db: Db, book: Book, chain: Chain, b: Block, live: seq<BlockRow>)
    requires Grown(db, book, chain, live) && ValidChain(chain) && (live == [] || b.parentHash == live[|live| - 1].hash)
    ensures var last := Highest(db.blocks, chain); last.None? || b.parentHash == last.value.hash
    ensures Handle(db, chain, b).0 == Append(db, chain, b)
  {
    TipOf(db, book, chain);
  }

  lemma {:induction false} AppendRollsNothingBack(db: Db, chain: Chain, b: Block)
    requires NoneRolledBack(db)
    ensures NoneRolledBack(Append(db, chain, b))
  {
  }

  lemma {:induction false} Accept(db: Db, book: Book, chain: Chain, b: Block, live: seq<BlockRow>)
    requires GoodBook(book) && Grown(db, book, chain, live) && ValidChain(chain)
    requires b.hash in book && book[b.hash] == (chain, b)
    requires live == [] || b.parentHash == live[|live| - 1].hash
    ensures Deliverable(db, book, chain, b)
    ensures Grown(Handle(db, chain, b).0, book, chain, live + [RowOf(chain, b)])
  {
    NoneIsRolledBack(db, book, chain, b);
    ChildIsAppended(db, book, chain, b, live);
    AppendKeeps(db, book, chain, b);
    AppendRollsNothingBack(db, chain, b);
  }

  lemma {:induction false} RunFirst(db: Db, book: Book, d: Delivery, rest: seq<Delivery>)
    requires Deliverable(db, book, d.0, d.1) && LegalRun(Handle(db, d.0, d.1).0, book, rest)
    ensures LegalRun(db, book, [d] + rest)
    ensures After(db, [d] + rest) == After(Handle(db, d.0, d.1).0, rest)
  {
    assert ([d] + rest)[1..] == rest;
  }

  function Four(chain: Chain, a: Block, b: Block, c: Block, d: Block): seq<Delivery> {
    [(chain, a)] + ([(chain, b)] + ([(chain, c)] + ([(chain, d)] + [])))
  }

  lemma {:induction false} FourSteps(
      db: Db, book: Book, chain: Chain, a: Block, b: Block, c: Block, d: Block, one: Db, two: Db, three: Db)
    requires one == Handle(db, chain, a).0 && two == Handle(one, chain, b).0 && three == Handle(two, chain, c).0
    requires Deliverable(db, book, chain, a) && Deliverable(one, book, chain, b)
    requires Deliverable(two, book, chain, c) && Deliverable(three, book, chain, d)
    ensures LegalRun(db, book, Four(chain, a, b, c, d))
    ensures After(db, Four(chain, a, b, c, d)) == Handle(three, chain, d).0
  {
    RunFirst(three, book, (chain, d), []);
    RunFirst(two, book, (chain, c), [(chain, d)] + []);
    RunFirst(one, book, (chain, b), [(chain, c)] + ([(chain, d)] + []));
    RunFirst(db, book, (chain, a), [(chain, b)] + ([(chain, c)] + ([(chain, d)] + [])));
  }

  /** A block, its child and a grandchild. */
  lemma {:induction false} ThreeAccepted(book: Book, chain: Chain, g: Block, p: Block, t: Block)
    returns (one: Db, two: Db, three: Db)
    requires GoodBook(book) && ValidChain(chain)
    requires forall b :: b in {g, p, t} ==> b.hash in book && book[b.hash] == (chain, b)
    requires p.parentHash == g.hash && t.parentHash == p.hash
    ensures one == Handle(EMPTY, chain, g).0 && two == Handle(one, chain, p).0 && three == Handle(two, chain, t).0
    ensures Deliverable(EMPTY, book, chain, g) && Deliverable(one, book, chain, p) && Deliverable(two, book, chain, t)
    ensures Grown(three, book, chain, [RowOf(chain, g), RowOf(chain, p), RowOf(chain, t)])
  {
    EmptyGrown(book, chain);
    Accept(EMPTY, book, chain, g, []);
    one := Handle(EMPTY, chain, g).0;
    Accept(one, book, chain, p, [RowOf(chain, g)]);
    two := Handle(one, chain, p).0;
    Accept(two, book, chain, t, [RowOf(chain, g), RowOf(chain, p)]);
    three := Handle(two, chain, t).0;
  }

  /** And then a sibling of the grandchild: the child links to the tip again, but is rolled back. */
  lemma {:induction false} StrandingIsReached(book: Book, chain: Chain, g: Block, p: Block, t: Block, u: Block)
    requires GoodBook(book) && ValidChain(chain)
    requires forall b :: b in {g, p, t, u} ==> b.hash in book && book[b.hash] == (chain, b)
    requires p.parentHash == g.hash && t.parentHash == p.hash && u.parentHash == p.hash
    ensures var db := After(EMPTY, Four(chain, g, p, t, u));
            && LegalRun(EMPTY, book, Four(chain, g, p, t, u)) && Inv(db, book)
            && Live(db.blocks, chain) == [RowOf(chain, g)] && RolledBackRow(db, p.hash)
            && Highest(db.blocks, chain) == Some(RowOf(chain, g))
  {
    var one, two, three := ThreeAccepted(book, chain, g, p, t);
    NoneIsRolledBack(three, book, chain, u);
    FourSteps(EMPTY, book, chain, g, p, t, u, one, two, three);
    BottomIsLeft(three, book, chain, g, p, t, u);
  }

  lemma {:induction false} BottomIsLeft(db: Db, book: Book, chain: Chain, g: Block, p: Block, t: Block, u: Block)
    requires GoodBook(book) && Inv(db, book) && ValidChain(chain) && u.hash in book && book[u.hash] == (chain, u)
    requires Live(db.blocks, chain) == [RowOf(chain, g), RowOf(chain, p), RowOf(chain, t)] && u.parentHash == p.hash
    ensures var db' := Handle(db, chain, u).0;
            && Inv(db', book) && Live(db'.blocks, chain) == [RowOf(chain, g)] && RolledBackRow(db', p.hash)
            && Highest(db'.blocks, chain) == Some(RowOf(chain, g))
  {
    SiblingTakesParent(db, book, chain, u);
    TipOf(Handle(db, chain, u).0, book, chain);
  }

  lemma {:induction false} TipOf(db: Db, book: Book, chain: Chain)
    requires Inv(db, book)
    ensures var live := Live(db.blocks, chain);
            Highest(db.blocks, chain) == if live == [] then None else Some(live[|live| - 1])
  {
    assert ChainOk(db, book, chain);
    HighestIsTip(db.blocks, chain);
  }

  lemma {:induction false} NoneIsRolledBack(db: Db, book: Book, chain: Chain, b: Block)
    requires NoneRolledBack(db) && b.hash in book && book[b.hash] == (chain, b)
    ensures Deliverable(db, book, chain, b)
  {
  }
}
