/**
 * Re-org convergence: a feeder that always offers the canonical block just above the live tip is
 * rejected once for each block above the common ancestor, and accepted ever after.
 */
module ChainConverge {
  import opened Outcomes
  import opened ChainIndexer
  import opened ChainReplay
  import opened ChainStranded

  predicate LinkAt(canon: seq<Block>, i: nat)
    requires 0 < i < |canon|
  {
    canon[i].parentHash == canon[i - 1].hash
  }

  predicate Canonical(canon: seq<Block>, book: Book, chain: Chain) {
    && |canon| > 0
    && (forall i :: 0 <= i < |canon| ==> canon[i].hash in book && book[canon[i].hash] == (chain, canon[i]))
    && (forall i :: 0 < i < |canon| ==> LinkAt(canon, i))
  }

  /** How many blocks the live chain and the canonical one share from the start. */
  function Common(live: seq<BlockRow>, canon: seq<Block>): (k: nat)
    ensures k <= |live| && k <= |canon|
  {
    if live == [] || canon == [] || live[0].hash != canon[0].hash then 0 else 1 + Common(live[1..], canon[1..])
  }

  /** Both chains start at the same height. */
  ghost predicate Startable(db: Db, book: Book, chain: Chain, canon: seq<Block>) {
    && GoodBook(book) && Inv(db, book) && ValidChain(chain) && Canonical(canon, book, chain)
    && (Live(db.blocks, chain) != [] ==> Live(db.blocks, chain)[0].number == canon[0].number)
  }

  /** And no canonical block was rolled back so far. */
  ghost predicate Feedable(db: Db, book: Book, chain: Chain, canon: seq<Block>) {
    Startable(db, book, chain, canon) && forall i :: 0 <= i < |canon| ==> !RolledBackRow(db, canon[i].hash)
  }

  function Feed(db: Db, chain: Chain, canon: seq<Block>, n: nat): (Db, seq<Reply>)
    decreases n
  {
    if n == 0 || |Live(db.blocks, chain)| >= |canon| then
      (db, [])
    else
      var (db', reply) := Handle(db, chain, canon[|Live(db.blocks, chain)|]);
      var (end, replies) := Feed(db', chain, canon, n - 1);
      (end, [reply] + replies)
  }

  lemma {:induction false} CommonAt(live: seq<BlockRow>, canon: seq<Block>, i: nat)
    requires i <= Common(live, canon)
    ensures i < Common(live, canon) ==> live[i].hash == canon[i].hash
    ensures i == Common(live, canon) && i < |live| && i < |canon| ==> live[i].hash != canon[i].hash
  {
    if live != [] && canon != [] && live[0].hash == canon[0].hash {
      CommonAt(live[1..], canon[1..], if i == 0 then 0 else i - 1);
    }
  }

  lemma {:induction false} CommonUnique(live: seq<BlockRow>, canon: seq<Block>, k: nat)
    requires k <= |live| && k <= |canon|
    requires forall i :: 0 <= i < k ==> live[i].hash == canon[i].hash
    requires k < |live| && k < |canon| ==> live[k].hash != canon[k].hash
    ensures Common(live, canon) == k
  {
    if k > 0 {
      CommonUnique(live[1..], canon[1..], k - 1);
    }
  }

  lemma {:induction false} CanonNumbers(canon: seq<Block>, book: Book, chain: Chain, i: nat)
    requires GoodBook(book) && Canonical(canon, book, chain) && i < |canon|
    ensures canon[i].number == canon[0].number + i
  {
    if i > 0 {
      CanonNumbers(canon, book, chain, i - 1);
      assert LinkAt(canon, i);
      assert book[canon[i].hash].1.parentHash in book;
    }
  }

  /** Agreement on one block forces agreement on all blocks below it. */
  lemma {:induction false} AgreeBelow(db: Db, book: Book, chain: Chain, canon: seq<Block>, i: nat, j: nat)
    requires Feedable(db, book, chain, canon)
    requires j <= i < |Live(db.blocks, chain)| && i < |canon|
    requires Live(db.blocks, chain)[i].hash == canon[i].hash
    ensures Live(db.blocks, chain)[j].hash == canon[j].hash
    decreases i
  {
    if j < i {
      var live := Live(db.blocks, chain);
      assert ChainOk(db, book, chain);
      LiveMember(db.blocks, chain, i);
      LinkedNumbers(live, i);
      assert LinkAt(canon, i);
      AgreeBelow(db, book, chain, canon, i - 1, j);
    }
  }

  lemma {:induction false} CommonDrop(live: seq<BlockRow>, canon: seq<Block>)
    requires Common(live, canon) < |live| <= |canon|
    ensures Common(live[..|live| - 1], canon) == Common(live, canon)
  {
    var k := Common(live, canon);
    forall i | 0 <= i < k ensures live[i].hash == canon[i].hash {
      CommonAt(live, canon, i);
    }
    CommonAt(live, canon, k);
    CommonUnique(live[..|live| - 1], canon, k);
  }

  lemma {:induction false} CommonGrow(live: seq<BlockRow>, canon: seq<Block>, r: BlockRow)
    requires Common(live, canon) == |live| < |canon| && r.hash == canon[|live|].hash
    ensures Common(live + [r], canon) == |live| + 1
  {
    forall i | 0 <= i < |live| ensures live[i].hash == canon[i].hash {
      CommonAt(live, canon, i);
    }
    CommonUnique(live + [r], canon, |live| + 1);
  }

  /** The offer is the block above the tip's height, but not a child of the tip. */
  lemma {:induction false} OfferDiffers(db: Db, book: Book, chain: Chain, canon: seq<Block>)
    requires Feedable(db, book, chain, canon)
    requires Common(Live(db.blocks, chain), canon) < |Live(db.blocks, chain)| < |canon|
    ensures var live := Live(db.blocks, chain);
            && Highest(db.blocks, chain) == Some(live[|live| - 1])
            && canon[|live|].parentHash != live[|live| - 1].hash
            && canon[|live|].number == live[0].number + |live|
  {
    assert ChainOk(db, book, chain);
    HighestIsTip(db.blocks, chain);
    TipDiffers(db, book, chain, canon);
    assert LinkAt(canon, |Live(db.blocks, chain)|);
    CanonNumbers(canon, book, chain, |Live(db.blocks, chain)|);
  }

  lemma {:induction false} RejectedReply(db: Db, book: Book, chain: Chain, canon: seq<Block>)
    requires Feedable(db, book, chain, canon)
    requires Common(Live(db.blocks, chain), canon) < |Live(db.blocks, chain)| < |canon|
    ensures var live := Live(db.blocks, chain);
            var fork := canon[|live|].number - 1;
            && Handle(db, chain, canon[|live|]) == (Rollback(db, chain, fork), Reorg)
            && Kept(live, fork) == |live| - 1
  {
    OfferDiffers(db, book, chain, canon);
  }

  /** Above the common ancestor the offer is rejected and takes exactly the tip away. */
  lemma {:induction false} OfferRejected(db: Db, book: Book, chain: Chain, canon: seq<Block>)
    requires Feedable(db, book, chain, canon)
    requires Common(Live(db.blocks, chain), canon) < |Live(db.blocks, chain)| < |canon|
    ensures var live := Live(db.blocks, chain);
            var (db', reply) := Handle(db, chain, canon[|live|]);
            && reply == Reorg && Feedable(db', book, chain, canon)
            && Live(db'.blocks, chain) == live[..|live| - 1]
            && Common(Live(db'.blocks, chain), canon) == Common(live, canon)
  {
    var live := Live(db.blocks, chain);
    var fork := canon[|live|].number - 1;
    RejectedReply(db, book, chain, canon);
    RollbackKeeps(db, book, chain, fork);
    CommonDrop(live, canon);
    forall i | 0 <= i < |canon| ensures !RolledBackRow(Rollback(db, chain, fork), canon[i].hash) {
      CanonicalSurvives(db, book, chain, canon, i);
    }
  }

  lemma {:induction false} TipDiffers(db: Db, book: Book, chain: Chain, canon: seq<Block>)
    requires Feedable(db, book, chain, canon)
    requires Common(Live(db.blocks, chain), canon) < |Live(db.blocks, chain)| <= |canon|
    ensures var live := Live(db.blocks, chain); live[|live| - 1].hash != canon[|live| - 1].hash
  {
    var live := Live(db.blocks, chain);
    var k := Common(live, canon);
    CommonAt(live, canon, k);
    if live[|live| - 1].hash == canon[|live| - 1].hash {
      AgreeBelow(db, book, chain, canon, |live| - 1, k);
    }
  }

  /** The block that goes is not a canonical one. */
  lemma {:induction false} CanonicalSurvives(db: Db, book: Book, chain: Chain, canon: seq<Block>, i: nat)
    requires Feedable(db, book, chain, canon) && i < |canon|
    requires Common(Live(db.blocks, chain), canon) < |Live(db.blocks, chain)| < |canon|
    ensures !RolledBackRow(Rollback(db, chain, canon[|Live(db.blocks, chain)|].number - 1), canon[i].hash)
  {
    var live := Live(db.blocks, chain);
    var fork := canon[|live|].number - 1;
    CanonNumbers(canon, book, chain, |live|);
    CanonNumbers(canon, book, chain, i);
    forall r | 0 <= r < |db.blocks| && db.blocks[r].hash == canon[i].hash
      ensures !Mark(db.blocks, chain, fork)[r].rolledBack
    {
      MarkAt(db.blocks, chain, fork, r);
      if Doomed(db.blocks[r], chain, fork) {
        DoomedIsTip(db, book, chain, canon, r);
        TipDiffers(db, book, chain, canon);
      }
    }
    forall r | 0 <= r < |db.blocks| ensures Mark(db.blocks, chain, fork)[r].hash == db.blocks[r].hash {
      MarkAt(db.blocks, chain, fork, r);
    }
  }

  lemma {:induction false} DoomedIsTip(db: Db, book: Book, chain: Chain, canon: seq<Block>, r: nat)
    requires Feedable(db, book, chain, canon) && r < |db.blocks|
    requires 0 < |Live(db.blocks, chain)| < |canon|
    requires Doomed(db.blocks[r], chain, canon[|Live(db.blocks, chain)|].number - 1)
    ensures var live := Live(db.blocks, chain);
            db.blocks[r] == live[|live| - 1] && db.blocks[r].number == canon[0].number + |live| - 1
  {
    var live := Live(db.blocks, chain);
    assert ChainOk(db, book, chain);
    CanonNumbers(canon, book, chain, |live|);
    LiveIndex(db.blocks, chain, r);
    var j :| 0 <= j < |live| && live[j] == db.blocks[r];
    LinkedNumbers(live, j);
  }

  /** At the common ancestor the offer is accepted. */
  lemma {:induction false} OfferAccepted(db: Db, book: Book, chain: Chain, canon: seq<Block>)
    requires Feedable(db, book, chain, canon)
    requires Common(Live(db.blocks, chain), canon) == |Live(db.blocks, chain)| < |canon|
    ensures var live := Live(db.blocks, chain);
            var (db', reply) := Handle(db, chain, canon[|live|]);
            && reply.Processed? && Feedable(db', book, chain, canon)
            && Live(db'.blocks, chain) == live + [RowOf(chain, canon[|live|])]
            && Common(Live(db'.blocks, chain), canon) == |live| + 1
  {
    var live := Live(db.blocks, chain);
    var b := canon[|live|];
    AcceptedReply(db, book, chain, canon);
    AppendKeeps(db, book, chain, b);
    CommonGrow(live, canon, RowOf(chain, b));
    forall i | 0 <= i < |canon| ensures !RolledBackRow(Append(db, chain, b), canon[i].hash) {
      AppendRollsBackNothing(db, chain, b, canon[i].hash);
    }
  }

  /** The offer is a child of the tip, if there is one. */
  lemma {:induction false} OfferLinks(db: Db, book: Book, chain: Chain, canon: seq<Block>)
    requires Feedable(db, book, chain, canon)
    requires Common(Live(db.blocks, chain), canon) == |Live(db.blocks, chain)| < |canon|
    ensures var last := Highest(db.blocks, chain);
            last.None? || canon[|Live(db.blocks, chain)|].parentHash == last.value.hash
  {
    var live := Live(db.blocks, chain);
    assert ChainOk(db, book, chain);
    HighestIsTip(db.blocks, chain);
    if |live| > 0 {
      CommonAt(live, canon, |live| - 1);
      assert LinkAt(canon, |live|);
    }
  }

  lemma {:induction false} OfferDeliverable(db: Db, book: Book, chain: Chain, canon: seq<Block>, i: nat)
    requires Feedable(db, book, chain, canon) && i < |canon|
    ensures Deliverable(db, book, chain, canon[i])
  {
    assert !RolledBackRow(db, canon[i].hash);
  }

  lemma {:induction false} AcceptedReply(db: Db, book: Book, chain: Chain, canon: seq<Block>)
    requires Feedable(db, book, chain, canon)
    requires Common(Live(db.blocks, chain), canon) == |Live(db.blocks, chain)| < |canon|
    ensures var b := canon[|Live(db.blocks, chain)|];
            && Handle(db, chain, b) == (Append(db, chain, b), Processed(|b.events|))
            && Deliverable(db, book, chain, b)
            && var last := Highest(db.blocks, chain); last.None? || b.parentHash == last.value.hash
  {
    var b := canon[|Live(db.blocks, chain)|];
    OfferLinks(db, book, chain, canon);
    OfferDeliverable(db, book, chain, canon, |Live(db.blocks, chain)|);
    LinkedIsAppended(db, chain, b);
  }

  lemma {:induction false} LinkedIsAppended(db: Db, chain: Chain, b: Block)
    requires ValidChain(chain)
    requires var last := Highest(db.blocks, chain); last.None? || b.parentHash == last.value.hash
    ensures Handle(db, chain, b) == (Append(db, chain, b), Processed(|b.events|))
  {
  }

  /** Lengths of the live chain and of its common part after n offers, from lengths l and k. */
  function LengthAfter(l: nat, k: nat, n: nat): nat
    requires k <= l
  {
    if n <= l - k then l - n else k + (n - (l - k))
  }

  function CommonAfter(l: nat, k: nat, n: nat): nat
    requires k <= l
  {
    if n <= l - k then k else k + (n - (l - k))
  }

  /**
   * What n offers lead to from a live chain of length l sharing k blocks: first l - k rejections,
   * then acceptances only.
   */
  ghost predicate Outcome(
      end: Db, replies: seq<Reply>, book: Book, chain: Chain, canon: seq<Block>, l: nat, k: nat, n: nat)
    requires k <= l
  {
    && Feedable(end, book, chain, canon)
    && |replies| == n && (forall i :: 0 <= i < n ==> (replies[i] == Reorg <==> i < l - k))
    && |Live(end.blocks, chain)| == LengthAfter(l, k, n)
    && Common(Live(end.blocks, chain), canon) == CommonAfter(l, k, n)
  }

  lemma {:induction false} OutcomeOfRejection(
      end: Db, replies: seq<Reply>, book: Book, chain: Chain, canon: seq<Block>, l: nat, k: nat, n: nat)
    requires k < l && n > 0 && Outcome(end, replies, book, chain, canon, l - 1, k, n - 1)
    ensures Outcome(end, [Reorg] + replies, book, chain, canon, l, k, n)
  {
  }

  lemma {:induction false} OutcomeOfAcceptance(
      end: Db, reply: Reply, replies: seq<Reply>, book: Book, chain: Chain, canon: seq<Block>, k: nat, n: nat)
    requires reply != Reorg && n > 0 && Outcome(end, replies, book, chain, canon, k + 1, k + 1, n - 1)
    ensures Outcome(end, [reply] + replies, book, chain, canon, k, k, n)
  {
  }

  /** What n offers to these tables lead to. */
  ghost predicate Fed(db: Db, book: Book, chain: Chain, canon: seq<Block>, n: nat) {
    var live := Live(db.blocks, chain);
    var (end, replies) := Feed(db, chain, canon, n);
    Outcome(end, replies, book, chain, canon, |live|, Common(live, canon), n)
  }

  /** The first of n offers, and the rest. */
  lemma {:induction false} FeedStep(db: Db, chain: Chain, canon: seq<Block>, n: nat)
    requires n > 0 && |Live(db.blocks, chain)| < |canon|
    ensures var (db', reply) := Handle(db, chain, canon[|Live(db.blocks, chain)|]);
            var (end, replies) := Feed(db', chain, canon, n - 1);
            Feed(db, chain, canon, n) == (end, [reply] + replies)
  {
  }

  lemma {:induction false} FedByRejection(db: Db, book: Book, chain: Chain, canon: seq<Block>, n: nat)
    requires Feedable(db, book, chain, canon) && n > 0
    requires Common(Live(db.blocks, chain), canon) < |Live(db.blocks, chain)| < |canon|
    requires Fed(Handle(db, chain, canon[|Live(db.blocks, chain)|]).0, book, chain, canon, n - 1)
    ensures Fed(db, book, chain, canon, n)
  {
    OfferRejected(db, book, chain, canon);
    FeedStep(db, chain, canon, n);
    RejectionThenRest(db, Handle(db, chain, canon[|Live(db.blocks, chain)|]).0, book, chain, canon, n);
  }

  lemma {:induction false} RejectionThenRest(db: Db, db': Db, book: Book, chain: Chain, canon: seq<Block>, n: nat)
    requires n > 0 && Fed(db', book, chain, canon, n - 1)
    requires |Live(db'.blocks, chain)| + 1 == |Live(db.blocks, chain)|
    requires Common(Live(db'.blocks, chain), canon) == Common(Live(db.blocks, chain), canon) < |Live(db.blocks, chain)|
    requires var (end, replies) := Feed(db', chain, canon, n - 1); Feed(db, chain, canon, n) == (end, [Reorg] + replies)
    ensures Fed(db, book, chain, canon, n)
  {
    var live := Live(db.blocks, chain);
    var (end, replies) := Feed(db', chain, canon, n - 1);
    OutcomeOfRejection(end, replies, book, chain, canon, |live|, Common(live, canon), n);
  }

  lemma {:induction false} FedByAcceptance(db: Db, book: Book, chain: Chain, canon: seq<Block>, n: nat)
    requires Feedable(db, book, chain, canon) && n > 0
    requires Common(Live(db.blocks, chain), canon) == |Live(db.blocks, chain)| < |canon|
    requires Fed(Handle(db, chain, canon[|Live(db.blocks, chain)|]).0, book, chain, canon, n - 1)
    ensures Fed(db, book, chain, canon, n)
  {
    var (db', reply) := Handle(db, chain, canon[|Live(db.blocks, chain)|]);
    OfferAccepted(db, book, chain, canon);
    FeedStep(db, chain, canon, n);
    AcceptanceThenRest(db, db', reply, book, chain, canon, n);
  }

  lemma {:induction false} AcceptanceThenRest(
      db: Db, db': Db, reply: Reply, book: Book, chain: Chain, canon: seq<Block>, n: nat)
    requires n > 0 && reply != Reorg && Fed(db', book, chain, canon, n - 1)
    requires |Live(db'.blocks, chain)| == |Live(db.blocks, chain)| + 1 == Common(Live(db'.blocks, chain), canon)
    requires Common(Live(db.blocks, chain), canon) == |Live(db.blocks, chain)|
    requires var (end, replies) := Feed(db', chain, canon, n - 1); Feed(db, chain, canon, n) == (end, [reply] + replies)
    ensures Fed(db, book, chain, canon, n)
  {
    var (end, replies) := Feed(db', chain, canon, n - 1);
    OutcomeOfAcceptance(end, reply, replies, book, chain, canon, |Live(db.blocks, chain)|, n);
  }

  lemma {:induction false} FedNothing(db: Db, book: Book, chain: Chain, canon: seq<Block>)
    requires Feedable(db, book, chain, canon)
    ensures Fed(db, book, chain, canon, 0)
  {
  }

  /** Not more offers than it takes. */
  predicate Room(live: nat, common: nat, canon: nat, n: nat) {
    (n > 0 ==> live < canon) && n <= live - common + (canon - common)
  }

  lemma {:induction false} FeedConverges(db: Db, book: Book, chain: Chain, canon: seq<Block>, n: nat)
    requires Feedable(db, book, chain, canon)
    requires var live := Live(db.blocks, chain); Room(|live|, Common(live, canon), |canon|, n)
    ensures Fed(db, book, chain, canon, n)
    decreases n
  {
    var live := Live(db.blocks, chain);
    if n == 0 {
      FedNothing(db, book, chain, canon);
    } else {
      var db' := Handle(db, chain, canon[|live|]).0;
      OneOffer(db, book, chain, canon, n, db');
      FeedConverges(db', book, chain, canon, n - 1);
      if Common(live, canon) < |live| {
        FedByRejection(db, book, chain, canon, n);
      } else {
        FedByAcceptance(db, book, chain, canon, n);
      }
    }
  }

  /** After one offer the rest can be made. */
  lemma {:induction false} OneOffer(db: Db, book: Book, chain: Chain, canon: seq<Block>, n: nat, db': Db)
    requires Feedable(db, book, chain, canon) && n > 0
    requires var live := Live(db.blocks, chain);
             Room(|live|, Common(live, canon), |canon|, n) && db' == Handle(db, chain, canon[|live|]).0
    ensures Feedable(db', book, chain, canon)
    ensures var live := Live(db'.blocks, chain); Room(|live|, Common(live, canon), |canon|, n - 1)
  {
    if Common(Live(db.blocks, chain), canon) < |Live(db.blocks, chain)| {
      OfferRejected(db, book, chain, canon);
    } else {
      OfferAccepted(db, book, chain, canon);
    }
  }

  /** So after (tip - ancestor) rejections and as many acceptances as it takes, the chains are the same. */
  lemma {:induction false} FeederReachesCanonicalChain(db: Db, book: Book, chain: Chain, canon: seq<Block>, n: nat)
    requires Feedable(db, book, chain, canon) && |Live(db.blocks, chain)| < |canon|
    requires n == |Live(db.blocks, chain)| + |canon| - 2 * Common(Live(db.blocks, chain), canon)
    ensures var live := Live(db.blocks, chain);
            var (end, replies) := Feed(db, chain, canon, n);
            && |Live(end.blocks, chain)| == |canon|
            && (forall i :: 0 <= i < |canon| ==> Live(end.blocks, chain)[i] == RowOf(chain, canon[i]))
            && |replies| == n
            && (forall i :: 0 <= i < n ==> (replies[i] == Reorg <==> i < |live| - Common(live, canon)))
  {
    FeedConverges(db, book, chain, canon, n);
    SameChain(Feed(db, chain, canon, n).0, book, chain, canon);
  }

  lemma {:induction false} SameChain(db: Db, book: Book, chain: Chain, canon: seq<Block>)
    requires Feedable(db, book, chain, canon)
    requires |Live(db.blocks, chain)| == |canon| == Common(Live(db.blocks, chain), canon)
    ensures forall i :: 0 <= i < |canon| ==> Live(db.blocks, chain)[i] == RowOf(chain, canon[i])
  {
    forall i | 0 <= i < |canon| ensures Live(db.blocks, chain)[i] == RowOf(chain, canon[i]) {
      CommonAt(Live(db.blocks, chain), canon, i);
      LiveMember(db.blocks, chain, i);
    }
  }

  // ----- when it converges

  predicate SameAs(db: Db, chain: Chain, canon: seq<Block>) {
    && |Live(db.blocks, chain)| == |canon|
    && forall i :: 0 <= i < |canon| ==> Live(db.blocks, chain)[i] == RowOf(chain, canon[i])
  }

  /** A canonical block that was rolled back is missing for good, whatever is delivered. */
  lemma {:induction false} RolledBackIsMissing(
      db: Db, book: Book, chain: Chain, canon: seq<Block>, i: nat, run: seq<Delivery>)
    requires RowsOk(db.blocks, book) && i < |canon| && RolledBackRow(db, canon[i].hash)
    ensures !SameAs(After(db, run), chain, canon)
  {
    if SameAs(After(db, run), chain, canon) {
      NeverLiveAgain(db, run, canon[i].hash, chain, i);
    }
  }

  /** The offers of a feeder as a run. */
  lemma {:induction false} FeedIsRun(db: Db, chain: Chain, canon: seq<Block>, n: nat) returns (run: seq<Delivery>)
    ensures Feed(db, chain, canon, n).0 == After(db, run)
    decreases n
  {
    if n == 0 || |Live(db.blocks, chain)| >= |canon| {
      run := [];
    } else {
      var b := canon[|Live(db.blocks, chain)|];
      var rest := FeedIsRun(Handle(db, chain, b).0, chain, canon, n - 1);
      run := [(chain, b)] + rest;
      assert run[1..] == rest;
    }
  }

  /** Some number of offers makes the live chain the canonical one. */
  ghost predicate Converges(db: Db, chain: Chain, canon: seq<Block>) {
    exists n: nat :: SameAs(Feed(db, chain, canon, n).0, chain, canon)
  }

  /** The feeder converges exactly if no canonical block has a rolled-back row. */
  lemma {:induction false} ConvergesExactly(db: Db, book: Book, chain: Chain, canon: seq<Block>)
    requires Startable(db, book, chain, canon) && |Live(db.blocks, chain)| < |canon|
    ensures Converges(db, chain, canon) <==> forall i :: 0 <= i < |canon| ==> !RolledBackRow(db, canon[i].hash)
  {
    if forall i :: 0 <= i < |canon| ==> !RolledBackRow(db, canon[i].hash) {
      var n: nat := |Live(db.blocks, chain)| + |canon| - 2 * Common(Live(db.blocks, chain), canon);
      FeederReachesCanonicalChain(db, book, chain, canon, n);
      assert SameAs(Feed(db, chain, canon, n).0, chain, canon);
    } else if Converges(db, chain, canon) {
      var i :| 0 <= i < |canon| && RolledBackRow(db, canon[i].hash);
      var n: nat :| SameAs(Feed(db, chain, canon, n).0, chain, canon);
      var run := FeedIsRun(db, chain, canon, n);
      RolledBackIsMissing(db, book, chain, canon, i, run);
    }
  }

  /**
   * One canonical block that is delivered too early, when its parent has a row but is not the tip,
   * prevents it for good.
   */
  lemma {:induction false} EarlyDeliveryPreventsConvergence(
      db: Db, book: Book, chain: Chain, canon: seq<Block>, i: nat, run: seq<Delivery>)
    requires GoodBook(book) && Inv(db, book) && Canonical(canon, book, chain) && 0 < i < |canon|
    requires Refused(db, chain, canon[i]) && HasRow(db.blocks, canon[i].parentHash)
    ensures !SameAs(After(Handle(db, chain, canon[i]).0, run), chain, canon)
  {
    assert LinkAt(canon, i);
    RefusedTakesParent(db, book, chain, canon[i]);
    RolledBackIsMissing(Handle(db, chain, canon[i]).0, book, chain, canon, i - 1, run);
  }
}
