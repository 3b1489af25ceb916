/**
 * After any run of appends and re-orgs the tables are what replaying the live blocks from empty
 * gives, and the live blocks of each chain are linked by parent hash and number.
 */
module ChainReplay {
  import opened Outcomes
  import opened ChainIndexer

  /** All blocks there are: a hash fixes its chain and its block. */
  type Book = map<Hash, (Chain, Block)>

  predicate GoodBook(book: Book) {
    forall h :: h in book ==>
      && book[h].1.hash == h
      && (book[h].1.parentHash in book ==>
            && book[book[h].1.parentHash].0 == book[h].0
            && book[h].1.number == book[book[h].1.parentHash].1.number + 1)
  }

  predicate RowsOk(rows: seq<BlockRow>, book: Book) {
    && (forall i, j :: 0 <= i < j < |rows| ==> rows[i].hash != rows[j].hash)
    && (forall i :: 0 <= i < |rows| ==>
          && rows[i].hash in book
          && rows[i].(rolledBack := false) == RowOf(book[rows[i].hash].0, book[rows[i].hash].1))
  }

  /** Each block names the one before it as its parent and has the next number. */
  predicate Linked(live: seq<BlockRow>) {
    |live| <= 1 ||
    var tip, below := live[|live| - 1], live[|live| - 2];
    Linked(live[..|live| - 1]) && tip.parentHash == below.hash && tip.number == below.number + 1
  }

  /** Processing these blocks, in order, from an empty event table. */
  function Replay(live: seq<BlockRow>, chain: Chain, book: Book): EventTable
    requires forall i :: 0 <= i < |live| ==> live[i].hash in book
  {
    if live == [] then map[]
    else
      var b := book[live[|live| - 1].hash].1;
      AddEvents(Replay(live[..|live| - 1], chain, book), chain, b, |b.events|)
  }

  /** The two tables hold the same rows of one chain. */
  ghost predicate Agree(e: EventTable, e': EventTable, chain: Chain) {
    forall id :: ((chain, id) in e <==> (chain, id) in e') && ((chain, id) in e ==> e[(chain, id)] == e'[(chain, id)])
  }

  ghost predicate ChainOk(db: Db, book: Book, chain: Chain) {
    Replayed(Live(db.blocks, chain), db.events, book, chain)
  }

  ghost predicate Replayed(live: seq<BlockRow>, events: EventTable, book: Book, chain: Chain) {
    && Linked(live)
    && (forall i :: 0 <= i < |live| ==> live[i].hash in book)
    && Agree(events, Replay(live, chain, book), chain)
  }

  ghost predicate Inv(db: Db, book: Book) {
    RowsOk(db.blocks, book) && forall chain :: ChainOk(db, book, chain)
  }

  /** A delivery of a block of the book, not one that was rolled back before. */
  predicate Deliverable(db: Db, book: Book, chain: Chain, b: Block) {
    && b.hash in book && book[b.hash] == (chain, b)
    && forall i :: 0 <= i < |db.blocks| && db.blocks[i].hash == b.hash ==> !db.blocks[i].rolledBack
  }

  // ----- the live rows

  lemma {:induction false} LiveMember(rows: seq<BlockRow>, chain: Chain, j: nat)
    requires j < |Live(rows, chain)|
    ensures IsLive(Live(rows, chain)[j], chain)
    ensures exists i :: 0 <= i < |rows| && rows[i] == Live(rows, chain)[j]
  {
    var n := |rows| - 1;
    if j < |Live(rows[..n], chain)| {
      LiveMember(rows[..n], chain, j);
      var i :| 0 <= i < n && rows[..n][i] == Live(rows, chain)[j];
      assert rows[i] == Live(rows, chain)[j];
    } else {
      assert rows[n] == Live(rows, chain)[j];
    }
  }

  lemma {:induction false} LiveIndex(rows: seq<BlockRow>, chain: Chain, i: nat)
    requires i < |rows| && IsLive(rows[i], chain)
    ensures exists j :: 0 <= j < |Live(rows, chain)| && Live(rows, chain)[j] == rows[i]
  {
    var n := |rows| - 1;
    if i < n {
      LiveIndex(rows[..n], chain, i);
      var j :| 0 <= j < |Live(rows[..n], chain)| && Live(rows[..n], chain)[j] == rows[i];
      assert Live(rows, chain)[j] == rows[i];
    } else {
      assert Live(rows, chain)[|Live(rows, chain)| - 1] == rows[i];
    }
  }

  lemma {:induction false} LinkedNumbers(live: seq<BlockRow>, i: nat)
    requires Linked(live) && i < |live|
    ensures live[i].number == live[0].number + i
    ensures i > 0 ==> live[i].parentHash == live[i - 1].hash
  {
    if |live| > 1 {
      LinkedNumbers(live[..|live| - 1], if i < |live| - 1 then i else i - 1);
    }
  }

  lemma {:induction false} LinkedPrefix(live: seq<BlockRow>, m: nat)
    requires Linked(live) && m <= |live|
    ensures Linked(live[..m])
    decreases |live| - m
  {
    if m < |live| {
      LinkedPrefix(live, m + 1);
      assert live[..m + 1][..m] == live[..m];
    } else {
      assert live[..m] == live;
    }
  }

  /** The row found as the last processed block is the tip of the live chain. */
  lemma {:induction false} HighestIsTip(rows: seq<BlockRow>, chain: Chain)
    requires Linked(Live(rows, chain))
    ensures var live := Live(rows, chain);
            Highest(rows, chain) == if live == [] then None else Some(live[|live| - 1])
  {
    if rows != [] {
      var n := |rows| - 1;
      var live, below := Live(rows, chain), Live(rows[..n], chain);
      LinkedPrefix(live, |below|);
      assert live[..|below|] == below;
      HighestIsTip(rows[..n], chain);
    }
  }

  // ----- the event table

  lemma {:induction false} AddAgree(e: EventTable, e': EventTable, chain: Chain, b: Block, n: nat)
    requires n <= |b.events| && Agree(e, e', chain)
    ensures Agree(AddEvents(e, chain, b, n), AddEvents(e', chain, b, n), chain)
  {
    if n > 0 {
      AddAgree(e, e', chain, b, n - 1);
    }
  }

  lemma {:induction false} AddOther(e: EventTable, chain: Chain, b: Block, n: nat, other: Chain)
    requires n <= |b.events| && chain != other
    ensures Agree(AddEvents(e, chain, b, n), e, other)
  {
    if n > 0 {
      AddOther(e, chain, b, n - 1, other);
    }
  }

  /** A row added by a block is owned by it; a row that was there stays. */
  lemma {:induction false} AddOwner(e: EventTable, chain: Chain, b: Block, n: nat, k: (Chain, string))
    requires n <= |b.events|
    ensures k in e ==> k in AddEvents(e, chain, b, n) && AddEvents(e, chain, b, n)[k] == e[k]
    ensures k in AddEvents(e, chain, b, n) && k !in e ==> AddEvents(e, chain, b, n)[k].blockHash == b.hash
  {
    if n > 0 {
      AddOwner(e, chain, b, n - 1, k);
    }
  }

  predicate Known(live: seq<BlockRow>, book: Book) {
    forall i :: 0 <= i < |live| ==> live[i].hash in book && book[live[i].hash].1.hash == live[i].hash
  }

  /** One of the blocks from m on, n excluded, has the hash. */
  predicate Among(live: seq<BlockRow>, m: nat, n: nat, hash: Hash)
    requires n <= |live|
  {
    exists i :: m <= i < n && live[i].hash == hash
  }

  lemma {:induction false} AmongLonger(live: seq<BlockRow>, m: nat, n: nat, hash: Hash)
    requires n < |live| && Among(live[..n], m, n, hash)
    ensures Among(live, m, |live|, hash)
  {
    var i :| m <= i < n && live[..n][i].hash == hash;
    assert live[i].hash == hash;
  }

  /** What the last block adds to a replay. */
  lemma {:induction false} ReplayLast(live: seq<BlockRow>, chain: Chain, book: Book, k: (Chain, string))
    requires Known(live, book) && live != []
    ensures var (before, after) := (Replay(live[..|live| - 1], chain, book), Replay(live, chain, book));
            && (k in before ==> k in after && after[k] == before[k])
            && (k in after && k !in before ==> after[k].blockHash == live[|live| - 1].hash)
  {
    var b := book[live[|live| - 1].hash].1;
    AddOwner(Replay(live[..|live| - 1], chain, book), chain, b, |b.events|, k);
  }

  /** Every row is owned by one of the blocks. */
  lemma {:induction false} ReplayOwner(live: seq<BlockRow>, chain: Chain, book: Book, k: (Chain, string))
    requires Known(live, book) && k in Replay(live, chain, book)
    ensures Among(live, 0, |live|, Replay(live, chain, book)[k].blockHash)
  {
    var n := |live| - 1;
    ReplayLast(live, chain, book, k);
    if k in Replay(live[..n], chain, book) {
      ReplayOwner(live[..n], chain, book, k);
      AmongLonger(live, 0, n, Replay(live, chain, book)[k].blockHash);
    } else {
      assert live[n].hash == Replay(live, chain, book)[k].blockHash;
    }
  }

  /** A longer replay keeps the rows of a shorter one, and its blocks own the others. */
  lemma {:induction false} ReplayGrows(live: seq<BlockRow>, chain: Chain, book: Book, m: nat, k: (Chain, string))
    requires Known(live, book) && m <= |live|
    ensures var (before, after) := (Replay(live[..m], chain, book), Replay(live, chain, book));
            && (k in before ==> k in after && after[k] == before[k])
            && (k in after && k !in before ==> Among(live, m, |live|, after[k].blockHash))
  {
    var n := |live| - 1;
    if m == |live| {
      assert live[..m] == live;
    } else {
      ReplayGrows(live[..n], chain, book, m, k);
      assert live[..n][..m] == live[..m];
      ReplayLast(live, chain, book, k);
      if k in Replay(live, chain, book) && k !in Replay(live[..m], chain, book) {
        if k in Replay(live[..n], chain, book) {
          AmongLonger(live, m, n, Replay(live, chain, book)[k].blockHash);
        } else {
          assert live[n].hash == Replay(live, chain, book)[k].blockHash;
        }
      }
    }
  }

  /** The rows of a longer replay that the shorter one has are exactly those its blocks own. */
  lemma {:induction false} ReplayPrefix(live: seq<BlockRow>, chain: Chain, book: Book, m: nat, k: (Chain, string))
    requires Known(live, book) && m <= |live|
    ensures var (before, after) := (Replay(live[..m], chain, book), Replay(live, chain, book));
            && (k in before ==> k in after && after[k] == before[k] && Among(live, 0, m, after[k].blockHash))
            && (k in after && k !in before ==> Among(live, m, |live|, after[k].blockHash))
  {
    ReplayGrows(live, chain, book, m, k);
    if k in Replay(live[..m], chain, book) {
      ReplayOwner(live[..m], chain, book, k);
      var i :| 0 <= i < m && live[..m][i].hash == Replay(live, chain, book)[k].blockHash;
      assert live[i].hash == Replay(live, chain, book)[k].blockHash;
    }
  }

  // ----- one accepted block

  lemma {:induction false} LiveAppend(rows: seq<BlockRow>, r: BlockRow, chain: Chain)
    ensures Live(rows + [r], chain) == Live(rows, chain) + (if IsLive(r, chain) then [r] else [])
  {
    assert (rows + [r])[..|rows|] == rows;
  }

  /** A delivered block that is linked to the tip has no row yet. */
  lemma {:induction false} NewHash(db: Db, book: Book, chain: Chain, b: Block)
    requires GoodBook(book) && Inv(db, book) && Deliverable(db, book, chain, b)
    requires var last := Highest(db.blocks, chain); last.None? || b.parentHash == last.value.hash
    ensures !HasRow(db.blocks, b.hash)
  {
    assert ChainOk(db, book, chain);
    var live := Live(db.blocks, chain);
    HighestIsTip(db.blocks, chain);
    if live != [] {
      LiveMember(db.blocks, chain, |live| - 1);
      LinkedNumbers(live, |live| - 1);
      assert b.number == live[|live| - 1].number + 1;
    }
    if HasRow(db.blocks, b.hash) {
      var i :| 0 <= i < |db.blocks| && db.blocks[i].hash == b.hash;
      LiveIndex(db.blocks, chain, i);
      var j :| 0 <= j < |live| && live[j] == db.blocks[i];
      LinkedNumbers(live, j);
    }
  }

  lemma {:induction false} AppendedOther(db: Db, book: Book, chain: Chain, b: Block, c: Chain)
    requires ChainOk(db, book, c) && c != chain && !HasRow(db.blocks, b.hash)
    ensures ChainOk(Append(db, chain, b), book, c)
  {
    LiveAppend(db.blocks, RowOf(chain, b), c);
    AddOther(db.events, chain, b, |b.events|, c);
    assert Live(Append(db, chain, b).blocks, c) == Live(db.blocks, c);
  }

  lemma {:induction false} AppendedRows(db: Db, book: Book, chain: Chain, b: Block)
    requires RowsOk(db.blocks, book) && !HasRow(db.blocks, b.hash) && b.hash in book && book[b.hash] == (chain, b)
    ensures RowsOk(Append(db, chain, b).blocks, book)
  {
  }

  lemma {:induction false} AppendKeeps(db: Db, book: Book, chain: Chain, b: Block)
    requires GoodBook(book) && Inv(db, book) && Deliverable(db, book, chain, b)
    requires var last := Highest(db.blocks, chain); last.None? || b.parentHash == last.value.hash
    ensures Inv(Append(db, chain, b), book)
    ensures Live(Append(db, chain, b).blocks, chain) == Live(db.blocks, chain) + [RowOf(chain, b)]
  {
    NewHash(db, book, chain, b);
    LiveAppend(db.blocks, RowOf(chain, b), chain);
    AppendedRows(db, book, chain, b);
    forall c ensures ChainOk(Append(db, chain, b), book, c) {
      assert ChainOk(db, book, c);
      if c == chain {
        AppendedChain(db, book, chain, b);
      } else {
        AppendedOther(db, book, chain, b, c);
      }
    }
  }

  lemma {:induction false} AppendedChain(db: Db, book: Book, chain: Chain, b: Block)
    requires GoodBook(book) && RowsOk(db.blocks, book) && ChainOk(db, book, chain)
    requires b.hash in book && book[b.hash] == (chain, b) && !HasRow(db.blocks, b.hash)
    requires var last := Highest(db.blocks, chain); last.None? || b.parentHash == last.value.hash
    ensures ChainOk(Append(db, chain, b), book, chain)
  {
    var live, r := Live(db.blocks, chain), RowOf(chain, b);
    LiveAppend(db.blocks, r, chain);
    HighestIsTip(db.blocks, chain);
    if live != [] {
      LiveMember(db.blocks, chain, |live| - 1);
    }
    ReplayedSnoc(live, db.events, book, chain, r);
  }

  lemma {:induction false} ReplayedSnoc(live: seq<BlockRow>, events: EventTable, book: Book, chain: Chain, r: BlockRow)
    requires Replayed(live, events, book, chain) && r.hash in book
    requires live == [] || (r.parentHash == live[|live| - 1].hash && r.number == live[|live| - 1].number + 1)
    ensures var b := book[r.hash].1;
            Replayed(live + [r], AddEvents(events, chain, b, |b.events|), book, chain)
  {
    var b := book[r.hash].1;
    LinkedSnoc(live, r);
    AppendedEvents(events, live, r, chain, book);
    forall i | 0 <= i < |live + [r]| ensures (live + [r])[i].hash in book {
    }
    ReplayedParts(live + [r], AddEvents(events, chain, b, |b.events|), book, chain);
  }

  lemma {:induction false} ReplayedParts(live: seq<BlockRow>, events: EventTable, book: Book, chain: Chain)
    requires Linked(live) && forall i :: 0 <= i < |live| ==> live[i].hash in book
    requires Agree(events, Replay(live, chain, book), chain)
    ensures Replayed(live, events, book, chain)
  {
  }

  lemma {:induction false} AppendedEvents(
      events: EventTable, live: seq<BlockRow>, r: BlockRow, chain: Chain, book: Book)
    requires r.hash in book && forall i :: 0 <= i < |live| ==> live[i].hash in book
    requires Agree(events, Replay(live, chain, book), chain)
    ensures var b := book[r.hash].1;
            Agree(AddEvents(events, chain, b, |b.events|), Replay(live + [r], chain, book), chain)
  {
    var b := book[r.hash].1;
    ReplaySnoc(live, r, chain, book);
    AddAgree(events, Replay(live, chain, book), chain, b, |b.events|);
  }

  lemma {:induction false} LinkedSnoc(live: seq<BlockRow>, r: BlockRow)
    requires Linked(live)
    requires live == [] || (r.parentHash == live[|live| - 1].hash && r.number == live[|live| - 1].number + 1)
    ensures Linked(live + [r])
  {
    assert (live + [r])[..|live|] == live;
  }

  lemma {:induction false} ReplaySnoc(live: seq<BlockRow>, r: BlockRow, chain: Chain, book: Book)
    requires r.hash in book && forall i :: 0 <= i < |live| ==> live[i].hash in book
    ensures Replay(live + [r], chain, book) ==
            AddEvents(Replay(live, chain, book), chain, book[r.hash].1, |book[r.hash].1.events|)
  {
    assert (live + [r])[..|live|] == live;
  }

  // ----- one rollback

  function Below(live: seq<BlockRow>, fork: int): seq<BlockRow> {
    if live == [] then []
    else Below(live[..|live| - 1], fork) + (if live[|live| - 1].number < fork then [live[|live| - 1]] else [])
  }

  lemma {:induction false} LiveMark(rows: seq<BlockRow>, chain: Chain, fork: int)
    ensures Live(Mark(rows, chain, fork), chain) == Below(Live(rows, chain), fork)
  {
    if rows != [] {
      var n := |rows| - 1;
      var r := if Doomed(rows[n], chain, fork) then rows[n].(rolledBack := true) else rows[n];
      LiveMark(rows[..n], chain, fork);
      LiveAppend(Mark(rows[..n], chain, fork), r, chain);
      BelowSnoc(Live(rows[..n], chain), rows[n], fork);
      assert Mark(rows, chain, fork) == Mark(rows[..n], chain, fork) + [r];
      if IsLive(rows[n], chain) {
        assert Live(rows, chain) == Live(rows[..n], chain) + [rows[n]];
        assert rows[n].number >= fork ==> Below(Live(rows, chain), fork) == Below(Live(rows[..n], chain), fork);
      } else {
        assert Live(rows, chain) == Live(rows[..n], chain);
      }
    }
  }

  lemma {:induction false} BelowSnoc(live: seq<BlockRow>, r: BlockRow, fork: int)
    ensures Below(live + [r], fork) == Below(live, fork) + (if r.number < fork then [r] else [])
  {
    assert (live + [r])[..|live|] == live;
  }

  lemma {:induction false} LiveMarkOther(rows: seq<BlockRow>, chain: Chain, fork: int, other: Chain)
    requires other != chain
    ensures Live(Mark(rows, chain, fork), other) == Live(rows, other)
  {
    if rows != [] {
      var n := |rows| - 1;
      var r := if Doomed(rows[n], chain, fork) then rows[n].(rolledBack := true) else rows[n];
      LiveMarkOther(rows[..n], chain, fork, other);
      LiveAppend(Mark(rows[..n], chain, fork), r, other);
      assert Mark(rows, chain, fork) == Mark(rows[..n], chain, fork) + [r];
    }
  }

  lemma {:induction false} MarkAt(rows: seq<BlockRow>, chain: Chain, fork: int, i: nat)
    requires i < |rows|
    ensures Mark(rows, chain, fork)[i] == if Doomed(rows[i], chain, fork) then rows[i].(rolledBack := true) else rows[i]
  {
    if |rows| > 1 {
      MarkAt(rows[..|rows| - 1], chain, fork, if i < |rows| - 1 then i else 0);
    }
  }

  /** How many blocks of a linked chain stay below the fork. */
  function Kept(live: seq<BlockRow>, fork: int): nat {
    if live == [] || fork <= live[0].number then 0
    else if fork - live[0].number >= |live| then |live|
    else fork - live[0].number
  }

  lemma {:induction false} KeptNext(live: seq<BlockRow>, fork: int)
    requires Linked(live) && live != []
    ensures var n := |live| - 1;
            Kept(live, fork) == if live[n].number < fork then |live| else Kept(live[..n], fork)
  {
    LinkedNumbers(live, |live| - 1);
  }

  lemma {:induction false} KeptAll(live: seq<BlockRow>, fork: int)
    requires Linked(live) && live != [] && live[|live| - 1].number < fork
    ensures Kept(live[..|live| - 1], fork) == |live| - 1
  {
    LinkedNumbers(live, |live| - 1);
  }

  lemma {:induction false} BelowIsPrefix(live: seq<BlockRow>, fork: int)
    requires Linked(live)
    ensures Below(live, fork) == live[..Kept(live, fork)]
  {
    if live != [] {
      var init, tip := live[..|live| - 1], live[|live| - 1];
      LinkedPrefix(live, |live| - 1);
      BelowIsPrefix(init, fork);
      KeptNext(live, fork);
      if tip.number < fork {
        KeptAll(live, fork);
        assert init[..|init|] + [tip] == live[..|live|];
      } else {
        assert init[..Kept(init, fork)] == live[..Kept(init, fork)];
      }
    }
  }

  /** A live row's hash is among the doomed ones exactly if its number reaches the fork. */
  lemma {:induction false} DoomedLive(rows: seq<BlockRow>, book: Book, chain: Chain, fork: int, c: Chain, j: nat)
    requires RowsOk(rows, book) && j < |Live(rows, c)|
    ensures Live(rows, c)[j].hash in DoomedHashes(rows, chain, fork) <==>
            c == chain && Live(rows, c)[j].number >= fork
  {
    var r := Live(rows, c)[j];
    LiveMember(rows, c, j);
    var i :| 0 <= i < |rows| && rows[i] == r;
    if r.hash in DoomedHashes(rows, chain, fork) {
      var i' :| 0 <= i' < |rows| && Doomed(rows[i'], chain, fork) && rows[i'].hash == r.hash;
      assert i' == i;
    } else {
      assert !Doomed(rows[i], chain, fork);
    }
  }

  lemma {:induction false} LiveDistinct(rows: seq<BlockRow>, book: Book, chain: Chain)
    requires RowsOk(rows, book) && Linked(Live(rows, chain))
    ensures Known(Live(rows, chain), book) || !GoodBook(book)
    ensures forall i, j :: 0 <= i < j < |Live(rows, chain)| ==> Live(rows, chain)[i].hash != Live(rows, chain)[j].hash
  {
    var live := Live(rows, chain);
    forall i | 0 <= i < |live|
      ensures live[i].hash in book && (GoodBook(book) ==> book[live[i].hash].1.hash == live[i].hash)
    {
      LiveMember(rows, chain, i);
    }
    forall i, j | 0 <= i < j < |live| ensures live[i].hash != live[j].hash {
      LiveMember(rows, chain, i);
      LiveMember(rows, chain, j);
      LinkedNumbers(live, i);
      LinkedNumbers(live, j);
    }
  }

  lemma {:induction false} RollbackKeeps(db: Db, book: Book, chain: Chain, fork: int)
    requires GoodBook(book) && Inv(db, book)
    ensures Inv(Rollback(db, chain, fork), book)
    ensures Live(Rollback(db, chain, fork).blocks, chain) ==
            Live(db.blocks, chain)[..Kept(Live(db.blocks, chain), fork)]
  {
    var db' := Rollback(db, chain, fork);
    assert ChainOk(db, book, chain);
    LiveMark(db.blocks, chain, fork);
    BelowIsPrefix(Live(db.blocks, chain), fork);
    MarkedRows(db.blocks, book, chain, fork);
    forall c ensures ChainOk(db', book, c) {
      assert ChainOk(db, book, c);
      if c == chain {
        RolledBackChain(db, book, chain, fork);
      } else {
        OtherChain(db, book, chain, fork, c);
      }
    }
  }

  lemma {:induction false} MarkedRows(rows: seq<BlockRow>, book: Book, chain: Chain, fork: int)
    requires RowsOk(rows, book)
    ensures RowsOk(Mark(rows, chain, fork), book)
  {
    LiveMark(rows, chain, fork);
    forall i | 0 <= i < |rows|
      ensures Mark(rows, chain, fork)[i].(rolledBack := false) == rows[i].(rolledBack := false)
    {
      MarkAt(rows, chain, fork, i);
    }
    var m := Mark(rows, chain, fork);
    assert forall i :: 0 <= i < |rows| ==> m[i].hash == m[i].(rolledBack := false).hash == rows[i].hash;
  }

  lemma {:induction false} RolledBackChain(db: Db, book: Book, chain: Chain, fork: int)
    requires GoodBook(book) && RowsOk(db.blocks, book) && ChainOk(db, book, chain)
    ensures ChainOk(Rollback(db, chain, fork), book, chain)
  {
    var live := Live(db.blocks, chain);
    var m, doomed := Kept(live, fork), DoomedHashes(db.blocks, chain, fork);
    LiveMark(db.blocks, chain, fork);
    BelowIsPrefix(live, fork);
    LiveDistinct(db.blocks, book, chain);
    forall i | 0 <= i < |live| ensures live[i].hash in doomed <==> i >= m {
      DoomedLive(db.blocks, book, chain, fork, chain, i);
      LinkedNumbers(live, i);
    }
    ReplayedPrefix(live, db.events, book, chain, m, doomed);
  }

  function Without(events: EventTable, doomed: set<Hash>): EventTable {
    map k | k in events && events[k].blockHash !in doomed :: events[k]
  }

  lemma {:induction false} ReplayedPrefix(
      live: seq<BlockRow>, events: EventTable, book: Book, chain: Chain, m: nat, doomed: set<Hash>)
    requires Replayed(live, events, book, chain) && Known(live, book) && m <= |live|
    requires forall i, j :: 0 <= i < j < |live| ==> live[i].hash != live[j].hash
    requires forall i :: 0 <= i < |live| ==> (live[i].hash in doomed <==> i >= m)
    ensures Replayed(live[..m], Without(events, doomed), book, chain)
  {
    LinkedPrefix(live, m);
    forall id ensures SameRow(Without(events, doomed), Replay(live[..m], chain, book), (chain, id)) {
      KeptRow(events, live, chain, book, m, doomed, id);
    }
  }

  predicate SameRow(e: EventTable, e': EventTable, k: (Chain, string)) {
    (k in e <==> k in e') && (k in e ==> e[k] == e'[k])
  }

  lemma {:induction false} KeptRow(
      events: EventTable, live: seq<BlockRow>, chain: Chain, book: Book, m: nat, doomed: set<Hash>, id: string)
    requires Known(live, book) && m <= |live|
    requires forall i, j :: 0 <= i < j < |live| ==> live[i].hash != live[j].hash
    requires forall i :: 0 <= i < |live| ==> (live[i].hash in doomed <==> i >= m)
    requires Agree(events, Replay(live, chain, book), chain)
    ensures SameRow(Without(events, doomed), Replay(live[..m], chain, book), (chain, id))
  {
    ReplayPrefix(live, chain, book, m, (chain, id));
  }

  lemma {:induction false} OtherChain(db: Db, book: Book, chain: Chain, fork: int, c: Chain)
    requires GoodBook(book) && RowsOk(db.blocks, book) && ChainOk(db, book, c) && c != chain
    ensures ChainOk(Rollback(db, chain, fork), book, c)
  {
    LiveMarkOther(db.blocks, chain, fork, c);
    forall id | (c, id) in db.events ensures db.events[(c, id)].blockHash !in DoomedHashes(db.blocks, chain, fork) {
      OtherOwner(db, book, chain, fork, c, id);
    }
  }

  lemma {:induction false} OtherOwner(db: Db, book: Book, chain: Chain, fork: int, c: Chain, id: string)
    requires GoodBook(book) && RowsOk(db.blocks, book) && ChainOk(db, book, c) && c != chain
    requires (c, id) in db.events
    ensures db.events[(c, id)].blockHash !in DoomedHashes(db.blocks, chain, fork)
  {
    var live := Live(db.blocks, c);
    LiveDistinct(db.blocks, book, c);
    var i := OwnerIndex(live, c, book, (c, id));
    DoomedLive(db.blocks, book, chain, fork, c, i);
  }

  lemma {:induction false} OwnerIndex(
      live: seq<BlockRow>, chain: Chain, book: Book, k: (Chain, string))
    returns (i: nat)
    requires Known(live, book) && k in Replay(live, chain, book)
    requires forall i, j :: 0 <= i < j < |live| ==> live[i].hash != live[j].hash
    ensures i < |live| && live[i].hash == Replay(live, chain, book)[k].blockHash
  {
    ReplayOwner(live, chain, book, k);
    i :| 0 <= i < |live| && live[i].hash == Replay(live, chain, book)[k].blockHash;
  }

  // ----- runs

  type Delivery = (Chain, Block)

  predicate LegalRun(db: Db, book: Book, run: seq<Delivery>)
    decreases |run|
  {
    run == [] ||
    (Deliverable(db, book, run[0].0, run[0].1) && LegalRun(Handle(db, run[0].0, run[0].1).0, book, run[1..]))
  }

  function After(db: Db, run: seq<Delivery>): Db
    decreases |run|
  {
    if run == [] then db else After(Handle(db, run[0].0, run[0].1).0, run[1..])
  }

  lemma {:induction false} HandleKeeps(db: Db, book: Book, chain: Chain, b: Block)
    requires GoodBook(book) && Inv(db, book) && Deliverable(db, book, chain, b)
    ensures Inv(Handle(db, chain, b).0, book)
  {
    var last := Highest(db.blocks, chain);
    if ValidChain(chain) {
      if last.Some? && b.parentHash != last.value.hash {
        RollbackKeeps(db, book, chain, b.number - 1);
      } else {
        AppendKeeps(db, book, chain, b);
      }
    }
  }

  lemma {:induction false} RunKeeps(db: Db, book: Book, run: seq<Delivery>)
    requires GoodBook(book) && Inv(db, book) && LegalRun(db, book, run)
    ensures Inv(After(db, run), book)
    decreases |run|
  {
    if run != [] {
      HandleKeeps(db, book, run[0].0, run[0].1);
      RunKeeps(Handle(db, run[0].0, run[0].1).0, book, run[1..]);
    }
  }

  const EMPTY := Db([], map[])

  /**
   * From empty tables, whatever is delivered: the live blocks of every chain are linked, and the
   * event table is the one that replaying just those blocks in order gives, owners included.
   */
  lemma {:induction false} IncrementalIsReplay(book: Book, run: seq<Delivery>, chain: Chain)
    requires GoodBook(book) && LegalRun(EMPTY, book, run)
    ensures var db := After(EMPTY, run);
            var live := Live(db.blocks, chain);
            && Linked(live)
            && (forall i :: 0 <= i < |live| ==> live[i].hash in book && live[i] == RowOf(chain, book[live[i].hash].1))
            && Agree(db.events, Replay(live, chain, book), chain)
  {
    RunKeeps(EMPTY, book, run);
    var db := After(EMPTY, run);
    assert ChainOk(db, book, chain);
    var live := Live(db.blocks, chain);
    forall i | 0 <= i < |live| ensures live[i].hash in book && live[i] == RowOf(chain, book[live[i].hash].1) {
      LiveMember(db.blocks, chain, i);
    }
  }

  // ----- a rolled-back block that comes again

  lemma {:induction false} AddNothing(e: EventTable, chain: Chain, b: Block, n: nat)
    requires n <= |b.events|
    ensures AddEvents(e, chain, b, n) == e <==> forall i :: 0 <= i < n ==> (chain, b.events[i].id) in e
  {
    if n > 0 {
      AddNothing(e, chain, b, n - 1);
      var k := (chain, b.events[n - 1].id);
      AddOwner(e, chain, b, n, k);
      if AddEvents(e, chain, b, n - 1) != e && AddEvents(e, chain, b, n) == e {
        var i :| 0 <= i < n - 1 && (chain, b.events[i].id) !in e;
        AddedKey(e, chain, b, n, i);
      }
    }
  }

  lemma {:induction false} AddedKey(e: EventTable, chain: Chain, b: Block, n: nat, i: nat)
    requires i < n <= |b.events|
    ensures (chain, b.events[i].id) in AddEvents(e, chain, b, n)
  {
    if i < n - 1 {
      AddedKey(e, chain, b, n - 1, i);
    }
  }

  /** The upsert of a hash with such a row leaves it rolled back. */
  predicate RolledBackRow(db: Db, hash: Hash) {
    exists i :: 0 <= i < |db.blocks| && db.blocks[i].hash == hash && db.blocks[i].rolledBack
  }

  /**
   * A block that links to the tip extends the live chain exactly if its hash was not rolled back
   * before; and then only does the tables' agreement with the replay survive in every case: for a
   * rolled-back hash it survives exactly if all its events are in the table already.
   */
  lemma {:induction false} OnlyNewHashesExtend(db: Db, book: Book, chain: Chain, b: Block)
    requires GoodBook(book) && Inv(db, book) && ValidChain(chain)
    requires b.hash in book && book[b.hash] == (chain, b)
    requires var last := Highest(db.blocks, chain); last.None? || b.parentHash == last.value.hash
    ensures Handle(db, chain, b).1.Processed?
    ensures Live(Handle(db, chain, b).0.blocks, chain) == Live(db.blocks, chain) + [RowOf(chain, b)]
            <==> !RolledBackRow(db, b.hash)
    ensures Inv(Handle(db, chain, b).0, book) <==>
            !RolledBackRow(db, b.hash) || forall i :: 0 <= i < |b.events| ==> (chain, b.events[i].id) in db.events
  {
    if RolledBackRow(db, b.hash) {
      var db' := Append(db, chain, b);
      assert db'.blocks == db.blocks;
      AddNothing(db.events, chain, b, |b.events|);
      assert ChainOk(db, book, chain);
      if Inv(db', book) {
        assert ChainOk(db', book, chain);
        forall k | k in db'.events ensures k in db.events {
          AddOwner(db.events, chain, b, |b.events|, k);
          if k.0 != chain {
            AddOther(db.events, chain, b, |b.events|, k.0);
          }
        }
        forall i | 0 <= i < |b.events| ensures (chain, b.events[i].id) in db.events {
          AddedKey(db.events, chain, b, |b.events|, i);
        }
      }
    } else {
      AppendKeeps(db, book, chain, b);
    }
  }
}
