/**
 * The Soroban ingestion loop: a persisted cursor, an event table keyed by event id, and polls that
 * may be cut short between any two of their effects.
 */
module Poller {
  import opened Outcomes

  const U32_MAX := 0xFFFF_FFFF

  datatype Event = Event(id: string, ledger: nat, body: string)

  /** The events of ledger n at index n; the last index is the latest ledger. */
  type Ledgers = seq<seq<Event>>

  /** Ids are unique, and an event carries the number of its ledger. */
  predicate GoodLedgers(chain: Ledgers) {
    && 0 < |chain| <= U32_MAX
    && (forall n, i :: 0 <= n < |chain| && 0 <= i < |chain[n]| ==> chain[n][i].ledger == n)
    && (forall n, i, m, j ::
          (0 <= n < |chain| && 0 <= i < |chain[n]| && 0 <= m < |chain| && 0 <= j < |chain[m]| &&
           chain[n][i].id == chain[m][j].id) ==>
            n == m && i == j)
  }

  function Latest(chain: Ledgers): nat
    requires |chain| > 0
  {
    |chain| - 1
  }

  /** The events of ledgers first to last, both included, in order. */
  function Range(chain: Ledgers, first: nat, last: nat): seq<Event>
    requires last < |chain|
    decreases last
  {
    if first > last then []
    else if last == 0 then chain[0]
    else Range(chain, first, last - 1) + chain[last]
  }

  /** getEvents answers at most `limit` events; the poller asks for no second page. */
  function GetEvents(chain: Ledgers, first: nat, last: nat, limit: nat): seq<Event>
    requires last < |chain|
  {
    var all := Range(chain, first, last);
    if |all| <= limit then all else all[..limit]
  }

  type Table = map<string, Event>

  /** INSERT OR IGNORE, row by row. */
  function InsertAll(table: Table, events: seq<Event>): Table {
    if events == [] then table
    else
      var before, e := InsertAll(table, events[..|events| - 1]), events[|events| - 1];
      if e.id in before then before else before[e.id := e]
  }

  datatype Store = Store(cursor: Option<nat>, table: Table, sent: seq<Event>)

  function Cursor(s: Store): nat {
    match s.cursor case None => 0 case Some(n) => n
  }

  /**
   * Where a poll is cut short by an error or a crash: before anything is stored, also while it reads
   * the cursor or asks for the latest ledger; after the insert; or at a cursor write that did happen.
   */
  datatype Cut = Never | BeforeInsert | AfterInsert(sent: nat) | LostReply

  datatype PollStep = Advanced(processed: nat, next: nat) | Idle(next: nat) | Failed

  /** `last.saturating_add(batch).min(latest)` on 32-bit numbers. */
  function EndOf(last: nat, batch: nat, latest: nat): nat {
    var saturated := if last + batch > U32_MAX then U32_MAX else last + batch;
    if saturated < latest then saturated else latest
  }

  function End(s: Store, chain: Ledgers, batch: nat): nat
    requires |chain| > 0
  {
    EndOf(Cursor(s), batch, Latest(chain))
  }

  function Fetched(s: Store, chain: Ledgers, batch: nat): seq<Event>
    requires |chain| > 0
  {
    GetEvents(chain, Cursor(s) + 1, End(s, chain, batch), batch)
  }

  function PollOnce(s: Store, chain: Ledgers, batch: nat, cut: Cut): (Store, PollStep)
    requires |chain| > 0
  {
    if cut.BeforeInsert? then
      (s, Failed)
    else if Cursor(s) + 1 > Latest(chain) then
      (s, Idle(Latest(chain) + 1))
    else
      var end, events := End(s, chain, batch), Fetched(s, chain, batch);
      var stored := Store(s.cursor, InsertAll(s.table, events), s.sent + events[..SentCount(cut, |events|)]);
      match cut
      case AfterInsert(_) => (stored, Failed)
      case LostReply => (stored.(cursor := Some(end)), Failed)
      case Never => (stored.(cursor := Some(end)), Advanced(|events|, end + 1))
  }

  /** The store once the events are in the table and some of them were sent. */
  function Persisted(s: Store, events: seq<Event>, sending: nat): Store
    requires sending <= |events|
  {
    Store(s.cursor, InsertAll(s.table, events), s.sent + events[..sending])
  }

  lemma {:induction false} PollStages(s: Store, chain: Ledgers, batch: nat, cut: Cut)
    requires |chain| > 0 && Cursor(s) + 1 <= Latest(chain)
    ensures var events, end := Fetched(s, chain, batch), End(s, chain, batch);
            var stored := Persisted(s, events, SentCount(cut, |events|));
            PollOnce(s, chain, batch, cut) ==
            if cut.BeforeInsert? then (s, Failed)
            else if cut.AfterInsert? then (stored, Failed)
            else (Store(Some(end), stored.table, stored.sent),
                  if cut.LostReply? then Failed else Advanced(|events|, end + 1))
  {
  }

  lemma {:induction false} PollStops(s: Store, chain: Ledgers, batch: nat, cut: Cut)
    requires |chain| > 0
    ensures cut.BeforeInsert? ==> PollOnce(s, chain, batch, cut) == (s, Failed)
    ensures !cut.BeforeInsert? && Cursor(s) + 1 > Latest(chain) ==>
              PollOnce(s, chain, batch, cut) == (s, Idle(Latest(chain) + 1))
  {
  }

  /** How many of n events reach the subscribers before the cut. */
  function SentCount(cut: Cut, n: nat): (k: nat)
    ensures k <= n
  {
    if cut.AfterInsert? && cut.sent <= n then cut.sent else n
  }

  function BackoffAfter(backoff: nat, step: PollStep): (b: nat)
    requires 2 <= backoff <= 60
    ensures 2 <= b <= 60
  {
    match step
    case Advanced(_, _) => 2
    case Idle(_) => backoff
    case Failed => if backoff * 2 < 60 then backoff * 2 else 60
  }

  /** What the loop meets on its successive polls: the chain then, and where the poll is cut. */
  type Weather = seq<(Ledgers, Cut)>

  function AfterPolls(s: Store, batch: nat, w: Weather): Store
    requires forall i :: 0 <= i < |w| ==> |w[i].0| > 0
  {
    if w == [] then s else PollOnce(AfterPolls(s, batch, w[..|w| - 1]), w[|w| - 1].0, batch, w[|w| - 1].1).0
  }

  /** The pause the loop would make after a failure that comes next: each failed poll doubles it, up to a minute. */
  function Backoff(s: Store, batch: nat, w: Weather): (b: nat)
    requires forall i :: 0 <= i < |w| ==> |w[i].0| > 0
    ensures 2 <= b <= 60
  {
    if w == [] then 2
    else
      var before, last := w[..|w| - 1], w[|w| - 1];
      BackoffAfter(Backoff(s, batch, before), PollOnce(AfterPolls(s, batch, before), last.0, batch, last.1).1)
  }

  /** The process; a restart keeps the database and drops nothing else that matters. */
  class PollerProcess {
    const batch: nat
    var cursor: Option<nat>
    var table: Table
    var sent: seq<Event>

    constructor (batch: nat)
      ensures this.batch == batch && cursor == None && table == map[] && sent == []
    {
      this.batch := batch;
      cursor, table, sent := None, map[], [];
    }

    function State(): Store
      reads this
    {
      Store(cursor, table, sent)
    }

    method InsertEvents(events: seq<Event>)
      modifies this`table
      ensures table == InsertAll(old(table), events)
    {
      for i := 0 to |events|
        invariant table == InsertAll(old(table), events[..i])
      {
        assert events[..i + 1][..i] == events[..i];
        if events[i].id !in table {
          table := table[events[i].id := events[i]];
        }
      }
      assert events[..|events|] == events;
    }

    method SendEvents(events: seq<Event>, count: nat)
      requires count <= |events|
      modifies this`sent
      ensures sent == old(sent) + events[..count]
    {
      for i := 0 to count
        invariant sent == old(sent) + events[..i]
      {
        sent := sent + [events[i]];
      }
    }

    method Persist(events: seq<Event>, sending: nat)
      requires sending <= |events|
      modifies this`table, this`sent
      ensures State() == Persisted(old(State()), events, sending)
    {
      if |events| > 0 {
        InsertEvents(events);
        SendEvents(events, sending);
      } else {
        assert sent + events[..sending] == sent;
      }
    }

    method StoreCursor(end: nat)
      modifies this`cursor
      ensures State() == Store(Some(end), old(table), old(sent))
    {
      cursor := Some(end);
    }

    /** The part of a poll that has ledgers to fetch. */
    method Ingest(chain: Ledgers, end: nat, events: seq<Event>, cut: Cut) returns (step: PollStep)
      requires |chain| > 0 && Cursor(State()) + 1 <= Latest(chain) && !cut.BeforeInsert?
      requires end == End(State(), chain, batch) && events == Fetched(State(), chain, batch)
      modifies this
      ensures (State(), step) == PollOnce(old(State()), chain, batch, cut)
    {
      PollStages(State(), chain, batch, cut);
      Persist(events, SentCount(cut, |events|));
      if cut.AfterInsert? {
        return Failed;
      }
      StoreCursor(end);
      step := if cut.LostReply? then Failed else Advanced(|events|, end + 1);
    }

    method Poll(chain: Ledgers, cut: Cut) returns (step: PollStep)
      requires |chain| > 0
      modifies this
      ensures (State(), step) == PollOnce(old(State()), chain, batch, cut)
    {
      PollStops(State(), chain, batch, cut);
      if cut.BeforeInsert? {
        return Failed;
      }
      var last := if cursor.Some? then cursor.value else 0;
      var latest := |chain| - 1;
      assert last == Cursor(State()) && latest == Latest(chain);
      if last + 1 > latest {
        return Idle(latest + 1);
      }
      var end := EndOf(last, batch, latest);
      var events := GetEvents(chain, last + 1, end, batch);
      step := Ingest(chain, end, events, cut);
    }

    method Run(w: Weather) returns (backoff: nat)
      requires forall i :: 0 <= i < |w| ==> |w[i].0| > 0
      modifies this
      ensures State() == AfterPolls(old(State()), batch, w)
      ensures backoff == Backoff(old(State()), batch, w)
    {
      backoff := 2;
      for i := 0 to |w|
        invariant State() == AfterPolls(old(State()), batch, w[..i])
        invariant backoff == Backoff(old(State()), batch, w[..i])
      {
        assert w[..i + 1][..i] == w[..i];
        var step := Poll(w[i].0, w[i].1);
        match step {
          case Advanced(_, _) => backoff := 2;
          case Idle(_) =>
          case Failed =>
            backoff := backoff * 2;
            if backoff > 60 {
              backoff := 60;
            }
        }
      }
      assert w[..|w|] == w;
    }
  }

  // ----- crash safety

  /** The event is stored as itself and was sent. */
  predicate Kept(s: Store, e: Event) {
    e.id in s.table && s.table[e.id] == e && e in s.sent
  }

  /** Stored and sent, for every event of the ledgers after start up to the cursor. */
  predicate Complete(s: Store, chain: Ledgers, start: nat)
    requires Cursor(s) < |chain|
  {
    forall e :: e in Range(chain, start + 1, Cursor(s)) ==> Kept(s, e)
  }

  /** Nothing is stored but events of the chain, each under its own id. */
  predicate Sound(s: Store, chain: Ledgers) {
    forall id :: id in s.table ==>
      s.table[id].id == id && s.table[id].ledger < |chain| && s.table[id] in chain[s.table[id].ledger]
  }

  predicate Inv(s: Store, chain: Ledgers, start: nat) {
    && GoodLedgers(chain) && start <= Cursor(s) < |chain|
    && Sound(s, chain) && Complete(s, chain, start)
  }

  lemma {:induction false} RangeMember(chain: Ledgers, first: nat, last: nat, e: Event)
    requires GoodLedgers(chain) && last < |chain|
    ensures e in Range(chain, first, last) <==> first <= e.ledger <= last && e in chain[e.ledger]
    decreases last
  {
    if first <= last {
      LedgerOf(chain, last, e);
      if last > 0 {
        RangeMember(chain, first, last - 1, e);
        assert e in Range(chain, first, last) <==> e in Range(chain, first, last - 1) || e in chain[last];
      }
    }
  }

  lemma {:induction false} LedgerOf(chain: Ledgers, n: nat, e: Event)
    requires GoodLedgers(chain) && n < |chain|
    ensures e in chain[n] ==> e.ledger == n
  {
    if e in chain[n] {
      var i :| 0 <= i < |chain[n]| && chain[n][i] == e;
    }
  }

  lemma {:induction false} InsertKeeps(table: Table, events: seq<Event>, id: string)
    requires id in table
    ensures id in InsertAll(table, events) && InsertAll(table, events)[id] == table[id]
  {
    if events != [] {
      InsertKeeps(table, events[..|events| - 1], id);
    }
  }

  lemma {:induction false} InsertAdds(table: Table, events: seq<Event>, i: nat)
    requires i < |events|
    ensures events[i].id in InsertAll(table, events)
  {
    if i < |events| - 1 {
      InsertAdds(table, events[..|events| - 1], i);
    }
  }

  lemma {:induction false} InsertOnly(table: Table, events: seq<Event>, id: string)
    requires id in InsertAll(table, events)
    ensures (id in table && InsertAll(table, events)[id] == table[id]) ||
            (InsertAll(table, events)[id] in events && InsertAll(table, events)[id].id == id)
  {
    if events != [] && id in InsertAll(table, events[..|events| - 1]) {
      InsertOnly(table, events[..|events| - 1], id);
    }
  }

  lemma {:induction false} SoundInsert(s: Store, chain: Ledgers, events: seq<Event>)
    requires GoodLedgers(chain) && Sound(s, chain)
    requires forall e :: e in events ==> e.ledger < |chain| && e in chain[e.ledger]
    ensures Sound(s.(table := InsertAll(s.table, events)), chain)
  {
    forall id | id in InsertAll(s.table, events)
      ensures var e := InsertAll(s.table, events)[id]; e.id == id && e.ledger < |chain| && e in chain[e.ledger]
    {
      InsertOnly(s.table, events, id);
    }
  }

  /** After an insert every chain event under a stored id is the one stored. */
  lemma {:induction false} StoredIsItself(s: Store, chain: Ledgers, e: Event)
    requires GoodLedgers(chain) && Sound(s, chain)
    requires e.ledger < |chain| && e in chain[e.ledger] && e.id in s.table
    ensures s.table[e.id] == e
  {
    var x := s.table[e.id];
    var i :| 0 <= i < |chain[x.ledger]| && chain[x.ledger][i] == x;
    var j :| 0 <= j < |chain[e.ledger]| && chain[e.ledger][j] == e;
  }

  lemma {:induction false} FetchedFacts(s: Store, chain: Ledgers, batch: nat, e: Event)
    requires GoodLedgers(chain) && Cursor(s) < Latest(chain)
    ensures Cursor(s) <= End(s, chain, batch) <= Latest(chain) && (batch > 0 ==> Cursor(s) < End(s, chain, batch))
    ensures e in Fetched(s, chain, batch) ==> e.ledger < |chain| && e in chain[e.ledger]
  {
    RangeMember(chain, Cursor(s) + 1, End(s, chain, batch), e);
  }

  /** Does the fetched range fit on one page? */
  predicate Fits(s: Store, chain: Ledgers, batch: nat)
    requires |chain| > 0
  {
    |Range(chain, Cursor(s) + 1, End(s, chain, batch))| <= batch
  }

  lemma {:induction false} InsertedSound(s: Store, chain: Ledgers, batch: nat)
    requires GoodLedgers(chain) && Sound(s, chain) && Cursor(s) < Latest(chain)
    ensures Sound(s.(table := InsertAll(s.table, Fetched(s, chain, batch))), chain)
  {
    var events := Fetched(s, chain, batch);
    forall e | e in events ensures e.ledger < |chain| && e in chain[e.ledger] {
      FetchedFacts(s, chain, batch, e);
    }
    SoundInsert(s, chain, events);
  }

  lemma {:induction false} NewlyStored(s: Store, chain: Ledgers, batch: nat, e: Event)
    requires GoodLedgers(chain) && Sound(s, chain) && Cursor(s) < Latest(chain)
    requires e in Fetched(s, chain, batch)
    ensures var table := InsertAll(s.table, Fetched(s, chain, batch)); e.id in table && table[e.id] == e
  {
    var events := Fetched(s, chain, batch);
    var i :| 0 <= i < |events| && events[i] == e;
    InsertAdds(s.table, events, i);
    InsertedSound(s, chain, batch);
    FetchedFacts(s, chain, batch, e);
    StoredIsItself(s.(table := InsertAll(s.table, events)), chain, e);
  }

  lemma {:induction false} FinishedPoll(s: Store, chain: Ledgers, batch: nat)
    requires |chain| > 0 && Cursor(s) < Latest(chain)
    ensures var s', events := PollOnce(s, chain, batch, Never).0, Fetched(s, chain, batch);
            && s'.table == InsertAll(s.table, events) && s'.sent == s.sent + events
            && s'.cursor == Some(End(s, chain, batch))
  {
    var events := Fetched(s, chain, batch);
    assert events[..|events|] == events;
  }

  lemma {:induction false} KeptStaysKept(s: Store, chain: Ledgers, batch: nat, e: Event)
    requires |chain| > 0 && Cursor(s) < Latest(chain) && Kept(s, e)
    ensures Kept(PollOnce(s, chain, batch, Never).0, e)
  {
    FinishedPoll(s, chain, batch);
    InsertKeeps(s.table, Fetched(s, chain, batch), e.id);
  }

  lemma {:induction false} FetchedIsKept(s: Store, chain: Ledgers, batch: nat, e: Event)
    requires GoodLedgers(chain) && Sound(s, chain) && Cursor(s) < Latest(chain) && e in Fetched(s, chain, batch)
    ensures Kept(PollOnce(s, chain, batch, Never).0, e)
  {
    FinishedPoll(s, chain, batch);
    NewlyStored(s, chain, batch, e);
  }

  lemma {:induction false} OldEventIsKept(s: Store, chain: Ledgers, start: nat, batch: nat, e: Event)
    requires Inv(s, chain, start) && Cursor(s) < Latest(chain)
    requires start < e.ledger <= Cursor(s) && e in chain[e.ledger]
    ensures Kept(PollOnce(s, chain, batch, Never).0, e)
  {
    RangeMember(chain, start + 1, Cursor(s), e);
    KeptStaysKept(s, chain, batch, e);
  }

  lemma {:induction false} NewEventIsKept(s: Store, chain: Ledgers, batch: nat, e: Event)
    requires GoodLedgers(chain) && Sound(s, chain) && Cursor(s) < Latest(chain) && Fits(s, chain, batch)
    requires Cursor(s) < e.ledger <= End(s, chain, batch) && e in chain[e.ledger]
    ensures Kept(PollOnce(s, chain, batch, Never).0, e)
  {
    RangeMember(chain, Cursor(s) + 1, End(s, chain, batch), e);
    FetchedIsKept(s, chain, batch, e);
  }

  lemma {:induction false} PollCompletes(s: Store, chain: Ledgers, start: nat, batch: nat, e: Event)
    requires Inv(s, chain, start) && batch > 0 && Cursor(s) < Latest(chain) && Fits(s, chain, batch)
    requires e in Range(chain, start + 1, End(s, chain, batch))
    ensures Kept(PollOnce(s, chain, batch, Never).0, e)
  {
    RangeMember(chain, start + 1, End(s, chain, batch), e);
    if e.ledger <= Cursor(s) {
      OldEventIsKept(s, chain, start, batch, e);
    } else {
      NewEventIsKept(s, chain, batch, e);
    }
  }

  /** Whether a poll with this cut stores the cursor. */
  predicate Moves(s: Store, chain: Ledgers, cut: Cut)
    requires |chain| > 0
  {
    Cursor(s) < Latest(chain) && (cut.Never? || cut.LostReply?)
  }

  /**
   * A poll moves the cursor neither back nor past the tip, and one that is not cut moves it by a
   * batch or to the tip.
   */
  lemma {:induction false} PollProgress(s: Store, chain: Ledgers, batch: nat, cut: Cut)
    requires GoodLedgers(chain) && Cursor(s) <= Latest(chain)
    ensures var c := Cursor(PollOnce(s, chain, batch, cut).0);
            && Cursor(s) <= c <= Latest(chain)
            && (!Moves(s, chain, cut) ==> c == Cursor(s))
            && (cut.Never? || Moves(s, chain, cut) ==>
                  c == if Cursor(s) + batch < Latest(chain) then Cursor(s) + batch else Latest(chain))
  {
  }

  lemma {:induction false} UnmovedKeeps(s: Store, chain: Ledgers, start: nat, batch: nat, cut: Cut)
    requires Inv(s, chain, start) && Cursor(s) < Latest(chain) && cut.AfterInsert?
    ensures Inv(PollOnce(s, chain, batch, cut).0, chain, start)
  {
    var s' := PollOnce(s, chain, batch, cut).0;
    InsertedSound(s, chain, batch);
    forall e | e in Range(chain, start + 1, Cursor(s)) ensures Kept(s', e) {
      assert Kept(s, e);
      InsertKeeps(s.table, Fetched(s, chain, batch), e.id);
    }
  }

  lemma {:induction false} MovedKeeps(s: Store, chain: Ledgers, start: nat, batch: nat)
    requires Inv(s, chain, start) && batch > 0 && Cursor(s) < Latest(chain) && Fits(s, chain, batch)
    ensures Inv(PollOnce(s, chain, batch, Never).0, chain, start)
  {
    var s' := PollOnce(s, chain, batch, Never).0;
    FinishedPoll(s, chain, batch);
    InsertedSound(s, chain, batch);
    FetchedFacts(s, chain, batch, Event("", 0, ""));
    forall e | e in Range(chain, start + 1, Cursor(s')) ensures Kept(s', e) {
      PollCompletes(s, chain, start, batch, e);
    }
  }

  /**
   * A poll cut anywhere, or not at all, keeps the invariant if it does not move the cursor or its
   * range fits on a page.
   */
  lemma {:induction false} PollKeeps(s: Store, chain: Ledgers, start: nat, batch: nat, cut: Cut)
    requires Inv(s, chain, start) && batch > 0
    requires Moves(s, chain, cut) ==> Fits(s, chain, batch)
    ensures Inv(PollOnce(s, chain, batch, cut).0, chain, start)
  {
    if Moves(s, chain, cut) {
      MovedKeeps(s, chain, start, batch);
      assert PollOnce(s, chain, batch, cut).0 == PollOnce(s, chain, batch, Never).0;
    } else if Cursor(s) < Latest(chain) && cut.AfterInsert? {
      UnmovedKeeps(s, chain, start, batch, cut);
    }
  }

  // ----- whole runs

  function Seen(chain: Ledgers, w: Weather): Ledgers {
    if w == [] then chain else w[|w| - 1].0
  }

  /** Ledgers are only added to the chain. */
  predicate Growing(chain: Ledgers, w: Weather) {
    w == [] ||
    (Growing(chain, w[..|w| - 1]) && Seen(chain, w[..|w| - 1]) <= w[|w| - 1].0 && GoodLedgers(w[|w| - 1].0))
  }

  lemma {:induction false} GrowingFacts(chain: Ledgers, w: Weather)
    requires Growing(chain, w) && GoodLedgers(chain)
    ensures forall i :: 0 <= i < |w| ==> |w[i].0| > 0
    ensures GoodLedgers(Seen(chain, w)) && chain <= Seen(chain, w)
  {
    if w != [] {
      GrowingFacts(chain, w[..|w| - 1]);
    }
  }

  /** Every range that a poll went past fitted on one page. */
  predicate AllFit(s: Store, batch: nat, w: Weather)
    requires forall i :: 0 <= i < |w| ==> |w[i].0| > 0
  {
    w == [] ||
    var before, last := w[..|w| - 1], w[|w| - 1];
    && AllFit(s, batch, before)
    && (Moves(AfterPolls(s, batch, before), last.0, last.1) ==> Fits(AfterPolls(s, batch, before), last.0, batch))
  }

  lemma {:induction false} InvGrows(s: Store, chain: Ledgers, later: Ledgers, start: nat)
    requires Inv(s, chain, start) && chain <= later && GoodLedgers(later)
    ensures Inv(s, later, start)
  {
    forall e | e in Range(later, start + 1, Cursor(s)) ensures Kept(s, e) {
      RangeMember(later, start + 1, Cursor(s), e);
      RangeMember(chain, start + 1, Cursor(s), e);
    }
  }

  /**
   * Over every run of polls, each cut anywhere: all events of the ledgers up to the cursor are
   * stored under their own id and were sent, nothing else is stored, and the cursor is on the chain.
   */
  lemma {:induction false} CrashSafe(s: Store, chain: Ledgers, start: nat, batch: nat, w: Weather)
    requires Inv(s, chain, start) && batch > 0 && Growing(chain, w)
    requires (forall i :: 0 <= i < |w| ==> |w[i].0| > 0) && AllFit(s, batch, w)
    ensures Inv(AfterPolls(s, batch, w), Seen(chain, w), start)
  {
    if w != [] {
      var before := w[..|w| - 1];
      CrashSafe(s, chain, start, batch, before);
      InvGrows(AfterPolls(s, batch, before), Seen(chain, before), w[|w| - 1].0, start);
      PollKeeps(AfterPolls(s, batch, before), w[|w| - 1].0, start, batch, w[|w| - 1].1);
    }
  }

  /** Whatever is cut and whatever fits: over every run the cursor only grows, and never past the latest ledger. */
  lemma {:induction false} CursorNeverDecreases(s: Store, chain: Ledgers, batch: nat, w: Weather, n: nat)
    requires GoodLedgers(chain) && Cursor(s) <= Latest(chain) && Growing(chain, w) && n <= |w|
    requires forall i :: 0 <= i < |w| ==> |w[i].0| > 0
    ensures Cursor(AfterPolls(s, batch, w[..n])) <= Cursor(AfterPolls(s, batch, w))
    ensures Cursor(AfterPolls(s, batch, w)) < |Seen(chain, w)|
    decreases |w|
  {
    if w != [] {
      var before, last := w[..|w| - 1], w[|w| - 1];
      CursorNeverDecreases(s, chain, batch, before, if n == |w| then n - 1 else n);
      PollProgress(AfterPolls(s, batch, before), last.0, batch, last.1);
      assert w[..|w|] == w;
      if n < |w| {
        assert before[..n] == w[..n];
      }
    }
  }

  // ----- the page limit, exactly

  lemma {:induction false} RangeDistinct(chain: Ledgers, first: nat, last: nat, i: nat, j: nat)
    requires GoodLedgers(chain) && last < |chain| && i < j < |Range(chain, first, last)|
    ensures Range(chain, first, last)[i].id != Range(chain, first, last)[j].id
    decreases last
  {
    if last > 0 && first <= last {
      var below := Range(chain, first, last - 1);
      if j < |below| {
        RangeDistinct(chain, first, last - 1, i, j);
      } else if i < |below| {
        var e, e' := below[i], chain[last][j - |below|];
        RangeMember(chain, first, last - 1, e);
        var k :| 0 <= k < |chain[e.ledger]| && chain[e.ledger][k] == e;
        assert chain[last][j - |below|].id == chain[e.ledger][k].id ==> e.ledger == last;
      }
    }
  }

  /** What a crash before the cursor write left stored beyond the cursor: events of the page that will be fetched. */
  predicate Ahead(s: Store, chain: Ledgers, batch: nat)
    requires |chain| > 0
  {
    forall id :: id in s.table && s.table[id].ledger > Cursor(s) ==>
      Cursor(s) < Latest(chain) && s.table[id] in Fetched(s, chain, batch)
  }

  /** What every run keeps, whether ranges fit or not. */
  predicate Reached(s: Store, chain: Ledgers, batch: nat) {
    GoodLedgers(chain) && Cursor(s) < |chain| && Sound(s, chain) && Ahead(s, chain, batch)
  }

  const FIRST_START := Store(None, map[], [])

  lemma {:induction false} FirstStartIsGood(chain: Ledgers)
    requires GoodLedgers(chain)
    ensures Inv(FIRST_START, chain, 0) && forall batch :: Reached(FIRST_START, chain, batch)
  {
    assert Range(chain, 1, 0) == [];
  }

  lemma {:induction false} RangeSame(chain: Ledgers, later: Ledgers, first: nat, last: nat)
    requires chain <= later && last < |chain|
    ensures Range(chain, first, last) == Range(later, first, last)
    decreases last
  {
    if first <= last && last > 0 {
      RangeSame(chain, later, first, last - 1);
    }
  }

  lemma {:induction false} RangeExtends(chain: Ledgers, first: nat, last: nat, end: nat)
    requires last <= end < |chain|
    ensures Range(chain, first, last) <= Range(chain, first, end)
    decreases end
  {
    if end > last && first <= end {
      RangeExtends(chain, first, last, end - 1);
    }
  }

  lemma {:induction false} FetchedGrows(s: Store, chain: Ledgers, later: Ledgers, batch: nat)
    requires 0 < |chain| && chain <= later && Cursor(s) < Latest(chain)
    ensures Fetched(s, chain, batch) <= Fetched(s, later, batch)
  {
    RangeSame(chain, later, Cursor(s) + 1, End(s, chain, batch));
    RangeExtends(later, Cursor(s) + 1, End(s, chain, batch), End(s, later, batch));
  }

  lemma {:induction false} SoundGrows(s: Store, chain: Ledgers, later: Ledgers)
    requires Sound(s, chain) && chain <= later
    ensures Sound(s, later)
  {
  }

  lemma {:induction false} ReachedGrows(s: Store, chain: Ledgers, later: Ledgers, batch: nat)
    requires Reached(s, chain, batch) && chain <= later && GoodLedgers(later)
    ensures Reached(s, later, batch)
  {
    SoundGrows(s, chain, later);
    if Cursor(s) < Latest(chain) {
      FetchedGrows(s, chain, later, batch);
    }
  }

  lemma {:induction false} FetchedIsInRange(s: Store, chain: Ledgers, batch: nat, e: Event)
    requires GoodLedgers(chain) && Cursor(s) < Latest(chain) && e in Fetched(s, chain, batch)
    ensures Cursor(s) < e.ledger <= End(s, chain, batch) && e in chain[e.ledger]
  {
    RangeMember(chain, Cursor(s) + 1, End(s, chain, batch), e);
  }

  lemma {:induction false} ReachedKept(s: Store, chain: Ledgers, batch: nat, cut: Cut)
    requires Reached(s, chain, batch)
    ensures Reached(PollOnce(s, chain, batch, cut).0, chain, batch)
  {
    if Cursor(s) < Latest(chain) && !cut.BeforeInsert? {
      var s', events := PollOnce(s, chain, batch, cut).0, Fetched(s, chain, batch);
      InsertedSound(s, chain, batch);
      PollProgress(s, chain, batch, cut);
      forall id | id in s'.table && s'.table[id].ledger > Cursor(s')
        ensures cut.AfterInsert? && s'.table[id] in events
      {
        InsertOnly(s.table, events, id);
        FetchedIsInRange(s, chain, batch, s'.table[id]);
      }
    }
  }

  /** An event that the cursor went past and that was not kept never will be. */
  lemma {:induction false} NotKeptStays(s: Store, chain: Ledgers, batch: nat, cut: Cut, e: Event)
    requires Reached(s, chain, batch) && e.ledger <= Cursor(s) && e in chain[e.ledger] && !Kept(s, e)
    ensures !Kept(PollOnce(s, chain, batch, cut).0, e)
  {
    if Cursor(s) < Latest(chain) && !cut.BeforeInsert? {
      var events := Fetched(s, chain, batch);
      if e in events {
        FetchedIsInRange(s, chain, batch, e);
      }
      if e.id in InsertAll(s.table, events) {
        InsertOnly(s.table, events, e.id);
      }
    }
  }

  /** The event just beyond the page. */
  function FirstDropped(s: Store, chain: Ledgers, batch: nat): Event
    requires |chain| > 0 && !Fits(s, chain, batch)
  {
    Range(chain, Cursor(s) + 1, End(s, chain, batch))[batch]
  }

  lemma {:induction false} DroppedIsNotFetched(s: Store, chain: Ledgers, batch: nat)
    requires GoodLedgers(chain) && Cursor(s) < Latest(chain) && !Fits(s, chain, batch)
    ensures var e := FirstDropped(s, chain, batch);
            e !in Fetched(s, chain, batch) && Cursor(s) < e.ledger <= End(s, chain, batch) && e in chain[e.ledger]
  {
    var all, events := Range(chain, Cursor(s) + 1, End(s, chain, batch)), Fetched(s, chain, batch);
    var e := FirstDropped(s, chain, batch);
    assert e in all;
    RangeMember(chain, Cursor(s) + 1, End(s, chain, batch), e);
    if e in events {
      var i :| 0 <= i < |events| && events[i] == e;
      RangeDistinct(chain, Cursor(s) + 1, End(s, chain, batch), i, batch);
    }
  }

  /** An event beyond the cursor that the page lacks is not stored by this poll. */
  lemma {:induction false} NotFetchedNotStored(s: Store, chain: Ledgers, batch: nat, e: Event)
    requires Reached(s, chain, batch) && Cursor(s) < Latest(chain)
    requires Cursor(s) < e.ledger < |chain| && e in chain[e.ledger] && e !in Fetched(s, chain, batch)
    ensures !Kept(PollOnce(s, chain, batch, Never).0, e)
  {
    FinishedPoll(s, chain, batch);
    if e.id in s.table {
      StoredIsItself(s, chain, e);
    }
    if e.id in InsertAll(s.table, Fetched(s, chain, batch)) {
      InsertOnly(s.table, Fetched(s, chain, batch), e.id);
    }
  }

  lemma {:induction false} DroppedIsLost(s: Store, chain: Ledgers, start: nat, batch: nat)
    requires Reached(s, chain, batch) && start <= Cursor(s) < Latest(chain) && batch > 0 && !Fits(s, chain, batch)
    ensures !Kept(PollOnce(s, chain, batch, Never).0, FirstDropped(s, chain, batch))
    ensures Cursor(PollOnce(s, chain, batch, Never).0) < |chain|
    ensures !Complete(PollOnce(s, chain, batch, Never).0, chain, start)
  {
    var e, s' := FirstDropped(s, chain, batch), PollOnce(s, chain, batch, Never).0;
    DroppedIsNotFetched(s, chain, batch);
    NotFetchedNotStored(s, chain, batch, e);
    FinishedPoll(s, chain, batch);
    NotKeptIncomplete(s', chain, start, e);
  }

  lemma {:induction false} NotKeptIncomplete(s: Store, chain: Ledgers, start: nat, e: Event)
    requires GoodLedgers(chain) && start < e.ledger <= Cursor(s) < |chain| && e in chain[e.ledger] && !Kept(s, e)
    ensures !Complete(s, chain, start)
  {
    RangeMember(chain, start + 1, Cursor(s), e);
  }

  lemma {:induction false} IncompleteStays(s: Store, chain: Ledgers, start: nat, batch: nat, cut: Cut)
    requires Reached(s, chain, batch) && start <= Cursor(s) && !Complete(s, chain, start)
    ensures Cursor(PollOnce(s, chain, batch, cut).0) < |chain|
    ensures !Complete(PollOnce(s, chain, batch, cut).0, chain, start)
  {
    PollProgress(s, chain, batch, cut);
    var e :| e in Range(chain, start + 1, Cursor(s)) && !Kept(s, e);
    RangeMember(chain, start + 1, Cursor(s), e);
    NotKeptStays(s, chain, batch, cut, e);
    NotKeptIncomplete(PollOnce(s, chain, batch, cut).0, chain, start, e);
  }

  /**
   * One poll: a complete store stays so exactly if the poll does not move the cursor or the range
   * fits; an incomplete one stays incomplete.
   */
  lemma {:induction false} CompleteAfterPoll(s: Store, chain: Ledgers, start: nat, batch: nat, cut: Cut)
    requires Reached(s, chain, batch) && start <= Cursor(s) && batch > 0
    ensures Cursor(PollOnce(s, chain, batch, cut).0) < |chain|
    ensures Complete(PollOnce(s, chain, batch, cut).0, chain, start) <==>
            Complete(s, chain, start) && (Moves(s, chain, cut) ==> Fits(s, chain, batch))
  {
    PollProgress(s, chain, batch, cut);
    if !Complete(s, chain, start) {
      IncompleteStays(s, chain, start, batch, cut);
    } else if Moves(s, chain, cut) ==> Fits(s, chain, batch) {
      PollKeeps(s, chain, start, batch, cut);
    } else {
      DroppedIsLost(s, chain, start, batch);
      assert PollOnce(s, chain, batch, cut).0 == PollOnce(s, chain, batch, Never).0;
    }
  }

  lemma {:induction false} CompleteGrows(s: Store, chain: Ledgers, later: Ledgers, start: nat)
    requires GoodLedgers(chain) && GoodLedgers(later) && chain <= later && Cursor(s) < |chain|
    ensures Complete(s, later, start) <==> Complete(s, chain, start)
  {
    RangeSame(chain, later, start + 1, Cursor(s));
  }

  lemma {:induction false} ReachedAfter(s: Store, chain: Ledgers, batch: nat, w: Weather)
    requires Reached(s, chain, batch) && Growing(chain, w)
    requires forall i :: 0 <= i < |w| ==> |w[i].0| > 0
    ensures Reached(AfterPolls(s, batch, w), Seen(chain, w), batch)
    ensures Cursor(s) <= Cursor(AfterPolls(s, batch, w))
  {
    if w != [] {
      var before, last := w[..|w| - 1], w[|w| - 1];
      ReachedAfter(s, chain, batch, before);
      ReachedGrows(AfterPolls(s, batch, before), Seen(chain, before), last.0, batch);
      ReachedKept(AfterPolls(s, batch, before), last.0, batch, last.1);
      PollProgress(AfterPolls(s, batch, before), last.0, batch, last.1);
    }
  }

  /**
   * Over every run, with crashes anywhere: what the cursor went past is complete exactly if every
   * range it went past had at most `batch` events; no later poll makes up for one that had more.
   */
  lemma {:induction false} CompleteExactlyIfRangesFit(s: Store, chain: Ledgers, start: nat, batch: nat, w: Weather)
    requires Reached(s, chain, batch) && start <= Cursor(s) && Complete(s, chain, start)
    requires batch > 0 && Growing(chain, w)
    requires forall i :: 0 <= i < |w| ==> |w[i].0| > 0
    ensures Cursor(AfterPolls(s, batch, w)) < |Seen(chain, w)|
    ensures Complete(AfterPolls(s, batch, w), Seen(chain, w), start) <==> AllFit(s, batch, w)
  {
    ReachedAfter(s, chain, batch, w);
    if w != [] {
      var before, last := w[..|w| - 1], w[|w| - 1];
      var mid := AfterPolls(s, batch, before);
      CompleteExactlyIfRangesFit(s, chain, start, batch, before);
      ReachedAfter(s, chain, batch, before);
      ReachedGrows(mid, Seen(chain, before), last.0, batch);
      CompleteGrows(mid, Seen(chain, before), last.0, start);
      CompleteAfterPoll(mid, last.0, start, batch, last.1);
    }
  }

  /** Already at the first start: a ledger with more events than a page holds loses the one after the page. */
  lemma {:induction false} FirstPollCanLose(chain: Ledgers, batch: nat)
    requires GoodLedgers(chain) && |chain| == 2 && chain[0] == [] && |chain[1]| > batch > 0
    ensures var s := PollOnce(FIRST_START, chain, batch, Never).0;
            s.cursor == Some(1) && !Complete(s, chain, 0) && !Kept(s, chain[1][batch])
  {
    FirstStartIsGood(chain);
    FirstRange(chain);
    DroppedIsLost(FIRST_START, chain, 0, batch);
  }

  lemma {:induction false} FirstRange(chain: Ledgers)
    requires |chain| == 2 && chain[0] == []
    ensures Range(chain, 1, 1) == chain[1]
  {
    assert Range(chain, 1, 0) == [];
  }

  // ----- catching up

  function Times(n: nat, batch: nat): nat {
    n * batch
  }

  lemma {:induction false} TimesNext(n: nat, batch: nat)
    requires n > 0
    ensures Times(n, batch) == Times(n - 1, batch) + batch
  {
    assert n * batch == (n - 1) * batch + batch;
  }

  /** How many polls of the run are not cut. */
  function Uncut(w: Weather): nat {
    if w == [] then 0 else Uncut(w[..|w| - 1]) + if w[|w| - 1].1.Never? then 1 else 0
  }

  /** The ledgers that the uncut polls of the run can take. */
  function Gain(w: Weather, batch: nat): nat {
    if w == [] then 0 else Gain(w[..|w| - 1], batch) + if w[|w| - 1].1.Never? then batch else 0
  }

  lemma {:induction false} GainIsBatches(w: Weather, batch: nat)
    ensures Gain(w, batch) == Times(Uncut(w), batch)
  {
    if w != [] {
      GainIsBatches(w[..|w| - 1], batch);
      if w[|w| - 1].1.Never? {
        TimesNext(Uncut(w), batch);
      }
    }
  }

  lemma {:induction false} CatchesUpBy(s: Store, chain: Ledgers, batch: nat, w: Weather)
    requires GoodLedgers(chain) && Cursor(s) <= Latest(chain) && Growing(chain, w)
    requires forall i :: 0 <= i < |w| ==> |w[i].0| > 0
    ensures var c := Cursor(AfterPolls(s, batch, w));
            (c >= Cursor(s) + Gain(w, batch) || c >= Latest(chain)) && c < |Seen(chain, w)|
  {
    GrowingFacts(chain, w);
    if w != [] {
      var before, last := w[..|w| - 1], w[|w| - 1];
      CatchesUpBy(s, chain, batch, before);
      PollProgress(AfterPolls(s, batch, before), last.0, batch, last.1);
      NextGoal(Cursor(s) + Gain(before, batch), Cursor(AfterPolls(s, batch, before)),
               Cursor(AfterPolls(s, batch, w)), batch, Latest(chain), Latest(last.0), last.1.Never?);
    }
  }

  /**
   * Whatever is cut in between and however the chain grows: each uncut poll takes a batch off the
   * distance to the ledger that was the latest at the start, and no cut poll gives any back.
   */
  lemma {:induction false} CatchesUp(s: Store, chain: Ledgers, batch: nat, w: Weather)
    requires GoodLedgers(chain) && Cursor(s) <= Latest(chain) && Growing(chain, w)
    requires forall i :: 0 <= i < |w| ==> |w[i].0| > 0
    ensures var goal := Cursor(s) + Times(Uncut(w), batch);
            Cursor(AfterPolls(s, batch, w)) >= if goal < Latest(chain) then goal else Latest(chain)
  {
    CatchesUpBy(s, chain, batch, w);
    GainIsBatches(w, batch);
  }

  lemma {:induction false} NextGoal(goal: nat, c: nat, c': nat, batch: nat, first: nat, latest: nat, uncut: bool)
    requires (c >= goal || c >= first) && c <= c' && first <= latest
    requires uncut ==> c' == if c + batch < latest then c + batch else latest
    ensures c' >= first || c' >= goal + if uncut then batch else 0
  {
  }

  /** On a chain that does not move n undisturbed polls take exactly n batches, or reach the tip. */
  lemma {:induction false} CatchesUpExactly(s: Store, chain: Ledgers, batch: nat, w: Weather)
    requires GoodLedgers(chain) && Cursor(s) <= Latest(chain)
    requires |chain| > 0 && forall i :: 0 <= i < |w| ==> w[i] == (chain, Never)
    ensures var goal := Cursor(s) + Times(|w|, batch);
            Cursor(AfterPolls(s, batch, w)) == if goal < Latest(chain) then goal else Latest(chain)
  {
    if w != [] {
      CatchesUpExactly(s, chain, batch, w[..|w| - 1]);
      PollProgress(AfterPolls(s, batch, w[..|w| - 1]), chain, batch, Never);
      TimesNext(|w|, batch);
    }
  }

  // ----- the backoff

  /** Failed polls since the last that advanced; idle ones do not count and do not reset. */
  function FailuresInARow(s: Store, batch: nat, w: Weather): nat
    requires forall i :: 0 <= i < |w| ==> |w[i].0| > 0
  {
    if w == [] then 0
    else
      var before, last := w[..|w| - 1], w[|w| - 1];
      match PollOnce(AfterPolls(s, batch, before), last.0, batch, last.1).1
      case Advanced(_, _) => 0
      case Idle(_) => FailuresInARow(s, batch, before)
      case Failed => FailuresInARow(s, batch, before) + 1
  }

  /** Two seconds doubled for each of them, up to a minute. */
  lemma {:induction false} BackoffDoubles(s: Store, batch: nat, w: Weather)
    requires forall i :: 0 <= i < |w| ==> |w[i].0| > 0
    ensures Backoff(s, batch, w) ==
            match FailuresInARow(s, batch, w)
            case 0 => 2
            case 1 => 4
            case 2 => 8
            case 3 => 16
            case 4 => 32
            case _ => 60
  {
    if w != [] {
      BackoffDoubles(s, batch, w[..|w| - 1]);
    }
  }

  // ----- one poll, written out

  lemma {:induction false} RangeOne(chain: Ledgers, n: nat)
    requires n < |chain|
    ensures Range(chain, n, n) == chain[n]
  {
    if n > 0 {
      var none := Range(chain, n, n - 1);
      assert none == [] && none + chain[n] == chain[n];
    }
  }

  lemma {:induction false} RangeNext(chain: Ledgers, first: nat, last: nat)
    requires first < last < |chain|
    ensures Range(chain, first, last) == Range(chain, first, last - 1) + chain[last]
  {
  }

  lemma {:induction false} Splice(
      whole: seq<Event>, init: seq<Event>, a: seq<Event>, b: seq<Event>, rest: seq<Event>, c: seq<Event>)
    requires whole == init + c && init == a + rest && b == rest + c
    ensures whole == a + b
  {
  }

  /** The range is its ledgers up to the middle, then the rest. */
  predicate InTwo(chain: Ledgers, first: nat, mid: nat, last: nat)
    requires first <= mid < last < |chain|
  {
    Range(chain, first, last) == Range(chain, first, mid) + Range(chain, mid + 1, last)
  }

  lemma {:induction false} InTwoNext(chain: Ledgers, first: nat, mid: nat, last: nat)
    requires first <= mid < last < |chain| - 1 && InTwo(chain, first, mid, last)
    ensures InTwo(chain, first, mid, last + 1)
  {
    RangeNext(chain, first, last + 1);
    RangeNext(chain, mid + 1, last + 1);
    Splice(Range(chain, first, last + 1), Range(chain, first, last), Range(chain, first, mid),
           Range(chain, mid + 1, last + 1), Range(chain, mid + 1, last), chain[last + 1]);
  }

  lemma {:induction false} InTwoFirst(chain: Ledgers, first: nat, mid: nat)
    requires first <= mid < |chain| - 1
    ensures InTwo(chain, first, mid, mid + 1)
  {
    RangeNext(chain, first, mid + 1);
    RangeOne(chain, mid + 1);
  }

  /** The events of a range are those of its first ledgers followed by those of the rest. */
  lemma {:induction false} RangeParts(chain: Ledgers, first: nat, mid: nat, last: nat)
    requires first <= mid < last < |chain|
    ensures InTwo(chain, first, mid, last)
    decreases last
  {
    if mid + 1 == last {
      InTwoFirst(chain, first, mid);
    } else {
      RangeParts(chain, first, mid, last - 1);
      InTwoNext(chain, first, mid, last - 1);
    }
  }

  /** Rows that are there stay, and of several new events with one id the first is stored. */
  lemma {:induction false} InsertExactly(table: Table, events: seq<Event>, id: string)
    ensures id in InsertAll(table, events) <==> id in table || exists i :: 0 <= i < |events| && events[i].id == id
    ensures id in table ==> InsertAll(table, events)[id] == table[id]
    ensures forall i :: 0 <= i < |events| && FirstWith(events, i, id) && id !in table ==>
                          InsertAll(table, events)[id] == events[i]
  {
    if events != [] {
      var n := |events| - 1;
      InsertExactly(table, events[..n], id);
      forall i | 0 <= i < n ensures FirstWith(events, i, id) == FirstWith(events[..n], i, id) {
      }
      if i :| 0 <= i < |events| && events[i].id == id {
        assert i < n ==> events[..n][i].id == id;
      }
    }
  }

  predicate FirstWith(events: seq<Event>, i: nat, id: string)
    requires i < |events|
  {
    events[i].id == id && forall k :: 0 <= k < i ==> events[k].id != id
  }

  /** A poll stored these events, after the first `sending` of them were sent, and moved the cursor there. */
  ghost predicate Polled(s: Store, s': Store, events: seq<Event>, sending: nat, cursor: Option<nat>) {
    && s'.cursor == cursor && sending <= |events| && s'.sent == s.sent + events[..sending]
    && s'.table.Keys == s.table.Keys + (set e | e in events :: e.id)
    && (forall id :: id in s.table ==> s'.table[id] == s.table[id])
    && forall i :: 0 <= i < |events| && FirstWith(events, i, events[i].id) && events[i].id !in s.table ==>
                     s'.table[events[i].id] == events[i]
  }

  lemma {:induction false} PolledInsert(s: Store, s': Store, events: seq<Event>, sending: nat)
    requires sending <= |events| && s'.sent == s.sent + events[..sending] && s'.table == InsertAll(s.table, events)
    ensures Polled(s, s', events, sending, s'.cursor)
  {
    forall id ensures id in s'.table <==> id in s.table || exists e :: e in events && e.id == id {
      InsertExactly(s.table, events, id);
    }
    forall id | id in s.table ensures s'.table[id] == s.table[id] {
      InsertExactly(s.table, events, id);
    }
    forall i | 0 <= i < |events| && FirstWith(events, i, events[i].id) && events[i].id !in s.table
      ensures s'.table[events[i].id] == events[i]
    {
      InsertExactly(s.table, events, events[i].id);
    }
  }

  lemma {:induction false} PageExactly(s: Store, chain: Ledgers, batch: nat)
    requires 1 <= |chain| <= U32_MAX && Cursor(s) < |chain| - 1
    ensures End(s, chain, batch) == if Cursor(s) + batch < |chain| - 1 then Cursor(s) + batch else |chain| - 1
    ensures var all := Range(chain, Cursor(s) + 1, End(s, chain, batch));
            Fetched(s, chain, batch) <= all && |Fetched(s, chain, batch)| == if |all| < batch then |all| else batch
  {
  }

  lemma {:induction false} PollEffect(s: Store, chain: Ledgers, batch: nat, cut: Cut)
    requires |chain| > 0 && Cursor(s) < |chain| - 1
    ensures var (events, end) := (Fetched(s, chain, batch), End(s, chain, batch));
            var (s', step) := PollOnce(s, chain, batch, cut);
            match cut
            case Never => Polled(s, s', events, |events|, Some(end)) && step == Advanced(|events|, end + 1)
            case LostReply => Polled(s, s', events, |events|, Some(end)) && step == Failed
            case AfterInsert(k) =>
              Polled(s, s', events, if k < |events| then k else |events|, s.cursor) && step == Failed
            case BeforeInsert => s' == s && step == Failed
  {
    PollStages(s, chain, batch, cut);
    if !cut.BeforeInsert? {
      var events := Fetched(s, chain, batch);
      PolledInsert(s, PollOnce(s, chain, batch, cut).0, events, SentCount(cut, |events|));
    }
  }

  /**
   * A poll with ledgers to fetch asks for the next `batch` of them, or those up to the tip; it gets the
   * first `batch` events of these, stores and sends them, and puts the cursor at the end of the range.
   * Cut before that it stores the events, and sends some; a lost reply is reported but changes nothing.
   */
  lemma {:induction false} PollExactly(s: Store, chain: Ledgers, batch: nat, cut: Cut) returns (events: seq<Event>)
    requires 1 <= |chain| <= U32_MAX && Cursor(s) < |chain| - 1
    ensures var end := if Cursor(s) + batch < |chain| - 1 then Cursor(s) + batch else |chain| - 1;
            var (all, n) := (Range(chain, Cursor(s) + 1, end), |events|);
            var (s', step) := PollOnce(s, chain, batch, cut);
            && events <= all && n == (if |all| < batch then |all| else batch)
            && match cut
               case Never => Polled(s, s', events, n, Some(end)) && step == Advanced(n, end + 1)
               case LostReply => Polled(s, s', events, n, Some(end)) && step == Failed
               case AfterInsert(k) => Polled(s, s', events, if k < n then k else n, s.cursor) && step == Failed
               case BeforeInsert => s' == s && step == Failed
  {
    events := Fetched(s, chain, batch);
    PageExactly(s, chain, batch);
    PollEffect(s, chain, batch, cut);
  }

  /** With no ledger beyond the cursor an uncut poll changes nothing and is idle, and only then. */
  lemma {:induction false} IdleExactly(s: Store, chain: Ledgers, batch: nat, cut: Cut)
    requires |chain| > 0
    ensures PollOnce(s, chain, batch, cut).1.Idle? <==> !cut.BeforeInsert? && Cursor(s) + 1 >= |chain|
    ensures PollOnce(s, chain, batch, cut).1.Idle? ==> PollOnce(s, chain, batch, cut) == (s, Idle(|chain|))
  {
    if Cursor(s) + 1 <= Latest(chain) {
      PollStages(s, chain, batch, cut);
    } else {
      PollStops(s, chain, batch, cut);
    }
  }
}
