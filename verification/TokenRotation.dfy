/**
 * Rotations interleaved step by step, by any number of calls on any number of pods. The lock of a
 * family is held until its holder releases it or dies; Redis replies may fail or be lost.
 */
module TokenRotation {
  import opened Outcomes
  import opened TokenFamily

  const ATTEMPTS := 5
  const REVOKE_ATTEMPTS := 3

  /** Where a call stands between two awaits. */
  datatype Phase =
    | Locking(attempt: nat)
    | Unlocked(now: int)                  // no lock after all attempts: about to look once
    | Holding(now: int)                   // lock taken: about to read the family
    | Writing(next: Family, pair: Pair)   // current token: about to store its successor
    | RevokeReading(attempt: nat)
    | RevokeWriting(family: Family, attempt: nat)
    | Deleting                            // all attempts to revoke failed: about to delete the family
    | Releasing(result: Result<Pair>)
    | Joined(call: nat)                   // waiting for the call in flight on the same pod
    | Done(result: Result<Pair>)

  datatype Call = Call(pod: nat, token: Token, phase: Phase)

  /**
   * Calls are numbered; the number is also the unique lock value. `exchanges` is the history of all
   * stored successors: (family, token id, its successor); `owners` the user of every family ever
   * logged in.
   */
  datatype World = World(
    families: Families,
    owners: map<Id, Id>,
    locks: map<Id, nat>,
    calls: map<nat, Call>,
    inFlight: map<(nat, Id, Id), nat>,
    drawn: set<Id>,
    exchanges: set<(Id, Id, Id)>)

  /** What a write meets: it is done, done although the call reports a failure, or not done. */
  datatype Reply = Stored | StoredButLost | Refused

  datatype Step =
    | Login(userId: Id, familyId: Id, newId: Id)
    | Start(p: nat, pod: nat, token: Token)
    | TryLock(p: nat, now: int, refused: bool)
    | LookUnlocked(p: nat)
    | Read(p: nat, newId: Id)
    | Write(p: nat, replyLost: bool)
    | ReadForRevoke(p: nat, failed: bool)
    | WriteRevoked(p: nat, reply: Reply)
    | DeleteFamily(p: nat, refused: bool)
    | Fail(p: nat)
    | Release(p: nat)
    | Await(p: nat)
    | Forget(p: nat)
    | Die(p: nat)

  function FamilyOf(s: World, p: nat): Id
    requires p in s.calls
  {
    s.calls[p].token.familyId
  }

  function Move(s: World, p: nat, phase: Phase): World
    requires p in s.calls
  {
    s.(calls := s.calls[p := s.calls[p].(phase := phase)])
  }

  predicate Critical(phase: Phase) {
    phase.Holding? || phase.Writing? || phase.RevokeReading? || phase.RevokeWriting? ||
    phase.Deleting? || phase.Releasing?
  }

  function Unlock(s: World, p: nat): World
    requires p in s.calls
  {
    var f := FamilyOf(s, p);
    if f in s.locks && s.locks[f] == p then s.(locks := s.locks - {f}) else s
  }

  predicate Enabled(s: World, step: Step) {
    match step
    case Login(_, id, newId) => id !in s.owners && newId !in s.drawn
    case Start(p, _, _) => p !in s.calls
    case TryLock(p, _, _) => p in s.calls && s.calls[p].phase.Locking?
    case LookUnlocked(p) => p in s.calls && s.calls[p].phase.Unlocked?
    case Read(p, newId) => p in s.calls && s.calls[p].phase.Holding? && newId !in s.drawn
    case Write(p, _) => p in s.calls && s.calls[p].phase.Writing?
    case ReadForRevoke(p, _) => p in s.calls && s.calls[p].phase.RevokeReading?
    case WriteRevoked(p, _) => p in s.calls && s.calls[p].phase.RevokeWriting?
    case DeleteFamily(p, _) => p in s.calls && s.calls[p].phase.Deleting?
    case Fail(p) => p in s.calls && (s.calls[p].phase.Holding? || s.calls[p].phase.Writing?)
    case Release(p) => p in s.calls && s.calls[p].phase.Releasing?
    case Await(p) =>
      p in s.calls && s.calls[p].phase.Joined? &&
      s.calls[p].phase.call in s.calls && s.calls[s.calls[p].phase.call].phase.Done?
    case Forget(p) => p in s.calls && s.calls[p].phase.Done?
    case Die(p) => p in s.calls && !s.calls[p].phase.Done?
  }

  function InFlightKey(c: Call): (nat, Id, Id) {
    (c.pod, c.token.familyId, c.token.tokenId)
  }

  /** The verdict of the single unlocked look: only a grace reply, never a write. */
  function UnlockedVerdict(fs: Families, t: Token, now: int): Result<Pair> {
    if Usable(fs, t) && InGrace(fs[t.familyId], t.tokenId, now) && CachedPair(fs[t.familyId], now).Some? then
      Ok(CachedPair(fs[t.familyId], now).value)
    else
      Err(REJECTED)
  }

  /** A revocation is tried again; after the last attempt the family is deleted instead. */
  function TryAgain(attempt: nat): Phase {
    if attempt + 1 < REVOKE_ATTEMPTS then RevokeReading(attempt + 1) else Deleting
  }

  function Apply(s: World, step: Step): World
    requires Enabled(s, step)
  {
    match step
    case Login(user, id, newId) =>
      s.(families := s.families[id := NewFamily(user, newId)], owners := s.owners[id := user],
         drawn := s.drawn + {newId})
    case Start(p, pod, token) =>
      var key := (pod, token.familyId, token.tokenId);
      if key in s.inFlight then s.(calls := s.calls[p := Call(pod, token, Joined(s.inFlight[key]))])
      else s.(calls := s.calls[p := Call(pod, token, Locking(0))], inFlight := s.inFlight[key := p])
    case TryLock(p, now, refused) =>
      var f := FamilyOf(s, p);
      if f !in s.locks && !refused then Move(s.(locks := s.locks[f := p]), p, Holding(now))
      else if s.calls[p].phase.attempt + 1 < ATTEMPTS then Move(s, p, Locking(s.calls[p].phase.attempt + 1))
      else Move(s, p, Unlocked(now))
    case LookUnlocked(p) =>
      Move(s, p, Done(UnlockedVerdict(s.families, s.calls[p].token, s.calls[p].phase.now)))
    case Read(p, newId) => AfterRead(s, p, newId)
    case Write(p, lost) =>
      var f, next, pair := FamilyOf(s, p), s.calls[p].phase.next, s.calls[p].phase.pair;
      Move(s.(families := s.families[f := next],
              exchanges := s.exchanges + {(f, s.calls[p].token.tokenId, next.currentTokenId)}),
           p, Releasing(if lost then Err(REJECTED) else Ok(pair)))
    case ReadForRevoke(p, failed) =>
      var f, attempt := FamilyOf(s, p), s.calls[p].phase.attempt;
      Move(s, p, if failed then TryAgain(attempt) else RevokeWriting(Revoked(s.families, f)[f], attempt))
    case WriteRevoked(p, reply) =>
      var attempt, fam := s.calls[p].phase.attempt, s.calls[p].phase.family;
      Move(if reply.Refused? then s else s.(families := s.families[FamilyOf(s, p) := fam]),
           p, if reply.Stored? then Releasing(Err(REJECTED)) else TryAgain(attempt))
    case DeleteFamily(p, refused) =>
      Move(if refused then s else s.(families := s.families - {FamilyOf(s, p)}), p, Releasing(Err(REJECTED)))
    case Fail(p) => Move(s, p, Releasing(Err(REJECTED)))
    case Release(p) => Move(Unlock(s, p), p, Done(s.calls[p].phase.result))
    case Await(p) => Move(s, p, Done(s.calls[s.calls[p].phase.call].phase.result))
    case Forget(p) =>
      var key := InFlightKey(s.calls[p]);
      if key in s.inFlight && s.inFlight[key] == p then s.(inFlight := s.inFlight - {key}) else s
    case Die(p) => Move(Unlock(s, p), p, Done(Err(REJECTED)))
  }

  /** What the holder of the lock decides once it has read the family. */
  function AfterRead(s: World, p: nat, newId: Id): World
    requires p in s.calls && s.calls[p].phase.Holding?
  {
    var t, now := s.calls[p].token, s.calls[p].phase.now;
    if !Usable(s.families, t) then
      Move(s, p, Releasing(Err(REJECTED)))
    else
      var f := s.families[t.familyId];
      if t.tokenId == f.currentTokenId then
        Move(s.(drawn := s.drawn + {newId}), p,
             Writing(Next(f, t.familyId, now, newId),
                     Pair(AccessToken(f.userId, now), Token(f.userId, t.familyId, newId))))
      else if InGrace(f, t.tokenId, now) && CachedPair(f, now).Some? then
        Move(s, p, Releasing(Ok(CachedPair(f, now).value)))
      else
        Move(s, p, RevokeReading(0))
  }

  predicate Legal(s: World, steps: seq<Step>)
    decreases |steps|
  {
    steps == [] || (Enabled(s, steps[0]) && Legal(Apply(s, steps[0]), steps[1..]))
  }

  function After(s: World, steps: seq<Step>): World
    requires Legal(s, steps)
    decreases |steps|
  {
    if steps == [] then s else After(Apply(s, steps[0]), steps[1..])
  }

  const START := World(map[], map[], map[], map[], map[], {}, {})

  // ----- the invariant

  /** A handed-out pair carries the one stored successor of the token id it was given for. */
  predicate GoodPair(s: World, f: Id, id: Id, pair: Pair) {
    && f in s.owners
    && pair.refreshToken.userId == s.owners[f] && pair.refreshToken.familyId == f
    && (f, id, pair.refreshToken.tokenId) in s.exchanges
  }

  predicate GoodResult(s: World, f: Id, id: Id, r: Result<Pair>) {
    r.Ok? ==> GoodPair(s, f, id, r.value)
  }

  predicate FamilyOk(s: World, f: Id)
    requires f in s.families
  {
    var fam := s.families[f];
    && f in s.owners && fam.userId == s.owners[f] && fam.currentTokenId in s.drawn
    && (forall e :: e in s.exchanges ==> e.0 == f ==> e.1 != fam.currentTokenId)
    && (fam.previousTokenId.Some? ==>
          && (f, fam.previousTokenId.value, fam.currentTokenId) in s.exchanges
          && fam.lastRefreshToken == Some(Token(fam.userId, f, fam.currentTokenId)))
  }

  predicate ExchangesOk(s: World) {
    && (forall e :: e in s.exchanges ==> e.0 in s.owners && e.1 in s.drawn && e.2 in s.drawn)
    && (forall e, e' :: e in s.exchanges && e' in s.exchanges && e.0 == e'.0 && e.1 == e'.1 ==> e == e')
  }

  predicate CallOk(s: World, p: nat)
    requires p in s.calls
  {
    var c, f, id := s.calls[p], s.calls[p].token.familyId, s.calls[p].token.tokenId;
    && (Critical(c.phase) <==> f in s.locks && s.locks[f] == p)
    && (match c.phase
        case Writing(next, pair) =>
          && f in s.families && s.families[f].currentTokenId == id && !s.families[f].revoked
          && next.rotatedAt.Some? && next == Next(s.families[f], f, next.rotatedAt.value, next.currentTokenId)
          && pair.refreshToken == Token(s.families[f].userId, f, next.currentTokenId)
          && next.currentTokenId in s.drawn && next.currentTokenId != id
          && (forall e :: e in s.exchanges ==> e.0 == f ==> e.1 != next.currentTokenId)
        case RevokeReading(_) => f in s.families
        case RevokeWriting(fam, _) => f in s.families && fam == s.families[f].(revoked := true)
        case Releasing(r) => GoodResult(s, f, id, r)
        case Done(r) => GoodResult(s, f, id, r)
        case Joined(q) => q in s.calls && s.calls[q].token.familyId == f && s.calls[q].token.tokenId == id
        case _ => true)
  }

  predicate FamiliesOk(s: World) {
    forall f :: f in s.families ==> FamilyOk(s, f)
  }

  predicate CallsOk(s: World) {
    forall p :: p in s.calls ==> CallOk(s, p)
  }

  predicate LocksOk(s: World) {
    forall f :: f in s.locks ==> s.locks[f] in s.calls && FamilyOf(s, s.locks[f]) == f
  }

  predicate InFlightOk(s: World) {
    forall k :: k in s.inFlight ==> s.inFlight[k] in s.calls && InFlightKey(s.calls[s.inFlight[k]]) == k
  }

  predicate Inv(s: World) {
    FamiliesOk(s) && ExchangesOk(s) && CallsOk(s) && LocksOk(s) && InFlightOk(s)
  }

  lemma {:induction false} InvStart()
    ensures Inv(START)
  {
  }

  /** s' differs from s in the phase of call p, in locks of p, and in newly drawn ids only. */
  predicate OnlyMoves(s: World, s': World, p: nat) {
    && p in s.calls && s'.calls.Keys == s.calls.Keys
    && s'.calls[p].token == s.calls[p].token && s'.calls[p].pod == s.calls[p].pod
    && (forall q :: q in s.calls && q != p ==> s'.calls[q] == s.calls[q])
    && LocksOf(s, s', p)
    && s'.inFlight == s.inFlight && s'.owners == s.owners && s.drawn <= s'.drawn
  }

  predicate LocksOf(s: World, s': World, p: nat)
    requires p in s.calls
  {
    && (forall g :: g in s.locks && s.locks[g] != p ==> g in s'.locks && s'.locks[g] == s.locks[g])
    && (forall g :: g in s'.locks && s'.locks[g] != p ==> g in s.locks && s'.locks[g] == s.locks[g])
    && (forall g :: g in s'.locks && s'.locks[g] == p ==> g == FamilyOf(s, p))
  }

  lemma {:induction false} MoveKeeps(s: World, s': World, p: nat)
    requires Inv(s) && OnlyMoves(s, s', p) && s'.families == s.families && s'.exchanges == s.exchanges
    requires CallOk(s', p)
    ensures Inv(s')
  {
    forall q | q in s'.calls && q != p ensures CallOk(s', q) {
      assert CallOk(s, q);
    }
    SameFamilies(s, s');
    forall f | f in s'.locks ensures s'.locks[f] in s'.calls && FamilyOf(s', s'.locks[f]) == f {
    }
  }

  /** s' differs from s in what call p stores of the family it holds the lock of, besides its own moves. */
  predicate Stores(s: World, s': World, p: nat, fam: Family, added: set<(Id, Id, Id)>) {
    && p in s.calls && Critical(s.calls[p].phase) && FamilyOf(s, p) in s.families
    && OnlyMoves(s, s', p) && s'.families == s.families[FamilyOf(s, p) := fam]
    && fam.userId == s.families[FamilyOf(s, p)].userId
    && s'.exchanges == s.exchanges + added && forall e :: e in added ==> e.0 == FamilyOf(s, p)
  }

  lemma {:induction false} OtherCallKeeps(s: World, s': World, p: nat, fam: Family, added: set<(Id, Id, Id)>, q: nat)
    requires Stores(s, s', p, fam, added) && CallOk(s, p) && q in s.calls && q != p && CallOk(s, q)
    ensures CallOk(s', q)
  {
  }

  lemma {:induction false} OtherFamilyKeeps(s: World, s': World, p: nat, fam: Family, added: set<(Id, Id, Id)>, g: Id)
    requires Stores(s, s', p, fam, added) && g in s.families && g != FamilyOf(s, p) && FamilyOk(s, g)
    ensures FamilyOk(s', g)
  {
  }

  /** The holder of a lock stores a new record of its own family. */
  lemma {:induction false} StoreKeeps(s: World, s': World, p: nat, fam: Family, added: set<(Id, Id, Id)>)
    requires Inv(s) && Stores(s, s', p, fam, added)
    requires ExchangesOk(s') && FamilyOk(s', FamilyOf(s, p)) && CallOk(s', p)
    ensures Inv(s')
  {
    assert CallOk(s, p);
    forall q | q in s'.calls && q != p ensures CallOk(s', q) {
      OtherCallKeeps(s, s', p, fam, added, q);
    }
    forall g | g in s'.families && g != FamilyOf(s, p) ensures FamilyOk(s', g) {
      OtherFamilyKeeps(s, s', p, fam, added, g);
    }
    LocksKeep(s, s', p);
  }

  lemma {:induction false} LocksKeep(s: World, s': World, p: nat)
    requires LocksOk(s) && InFlightOk(s) && OnlyMoves(s, s', p)
    ensures LocksOk(s') && InFlightOk(s')
  {
  }

  lemma {:induction false} InvLogin(s: World, step: Step)
    requires Inv(s) && Enabled(s, step) && step.Login?
    ensures Inv(Apply(s, step))
  {
    var s' := Apply(s, step);
    forall q | q in s'.calls ensures CallOk(s', q) {
      assert CallOk(s, q);
    }
    forall g | g in s'.families ensures FamilyOk(s', g) {
      if g in s.families {
        assert FamilyOk(s, g);
      }
    }
  }

  /** Adding a call, or changing what is in flight, leaves what is known of the other calls. */
  lemma {:induction false} CallKeeps(s: World, s': World, q: nat)
    requires q in s.calls && CallOk(s, q) && q in s'.calls && s'.calls[q] == s.calls[q]
    requires s.calls.Keys <= s'.calls.Keys && forall r :: r in s.calls ==> s'.calls[r].token == s.calls[r].token
    requires s'.families == s.families && s'.owners == s.owners && s'.exchanges == s.exchanges
    requires s'.locks == s.locks && s'.drawn == s.drawn
    ensures CallOk(s', q)
  {
  }

  lemma {:induction false} SameFamilies(s: World, s': World)
    requires FamiliesOk(s) && ExchangesOk(s)
    requires s'.families == s.families && s'.owners == s.owners
    requires s'.exchanges == s.exchanges && s.drawn <= s'.drawn
    ensures FamiliesOk(s') && ExchangesOk(s')
  {
    forall g | g in s'.families ensures FamilyOk(s', g) {
      assert FamilyOk(s, g);
    }
  }

  lemma {:induction false} StartedOk(s: World, p: nat, pod: nat, token: Token)
    requires LocksOk(s) && InFlightOk(s) && p !in s.calls
    ensures var s' := Apply(s, Start(p, pod, token)); CallOk(s', p) && LocksOk(s') && InFlightOk(s')
  {
    assert token.familyId in s.locks ==> s.locks[token.familyId] != p;
  }

  lemma {:induction false} InvStartCall(s: World, p: nat, pod: nat, token: Token)
    requires Inv(s) && p !in s.calls
    ensures Inv(Apply(s, Start(p, pod, token)))
  {
    var s' := Apply(s, Start(p, pod, token));
    StartedOk(s, p, pod, token);
    SameFamilies(s, s');
    forall q | q in s'.calls ensures CallOk(s', q) {
      if q != p {
        CallKeeps(s, s', q);
      }
    }
  }

  lemma {:induction false} InvForget(s: World, step: Step)
    requires Inv(s) && Enabled(s, step) && step.Forget?
    ensures Inv(Apply(s, step))
  {
    var s' := Apply(s, step);
    forall q | q in s'.calls ensures CallOk(s', q) {
      CallKeeps(s, s', q);
    }
    SameFamilies(s, s');
  }

  /** The parts of the invariant that one call can see. */
  predicate Local(s: World, p: nat) {
    && p in s.calls && CallOk(s, p) && ExchangesOk(s)
    && (FamilyOf(s, p) in s.families ==> FamilyOk(s, FamilyOf(s, p)))
  }

  lemma {:induction false} InvLocal(s: World, p: nat)
    requires Inv(s) && p in s.calls
    ensures Local(s, p)
  {
  }

  lemma {:induction false} WriteOk(s: World, p: nat, lost: bool)
    requires Enabled(s, Write(p, lost)) && Local(s, p)
    ensures var s' := Apply(s, Write(p, lost));
            ExchangesOk(s') && FamilyOk(s', FamilyOf(s, p)) && CallOk(s', p)
  {
    var s' := Apply(s, Write(p, lost));
    var e := (FamilyOf(s, p), s.calls[p].token.tokenId, s.calls[p].phase.next.currentTokenId);
    assert e in s'.exchanges;
  }

  lemma {:induction false} InvWrite(s: World, p: nat, lost: bool)
    requires Inv(s) && Enabled(s, Write(p, lost))
    ensures Inv(Apply(s, Write(p, lost)))
  {
    InvLocal(s, p);
    WriteOk(s, p, lost);
    var next := s.calls[p].phase.next;
    StoreKeeps(s, Apply(s, Write(p, lost)), p, next, {(FamilyOf(s, p), s.calls[p].token.tokenId, next.currentTokenId)});
  }

  lemma {:induction false} InvWriteRevoked(s: World, step: Step)
    requires Inv(s) && Enabled(s, step) && step.WriteRevoked?
    ensures Inv(Apply(s, step))
  {
    var p, s' := step.p, Apply(s, step);
    InvLocal(s, p);
    RevokedOk(s, step);
    if step.reply.Refused? {
      MoveKeeps(s, s', p);
    } else {
      StoreKeeps(s, s', p, s.calls[p].phase.family, {});
    }
  }

  lemma {:induction false} RevokedOk(s: World, step: Step)
    requires Enabled(s, step) && step.WriteRevoked? && Local(s, step.p)
    requires forall f :: f in s.locks && s.locks[f] == step.p ==> f == FamilyOf(s, step.p)
    ensures var s' := Apply(s, step);
            && CallOk(s', step.p) && OnlyMoves(s, s', step.p) && ExchangesOk(s') && s'.exchanges == s.exchanges
            && FamilyOf(s, step.p) in s'.families && FamilyOk(s', FamilyOf(s, step.p))
  {
  }

  lemma {:induction false} InvDelete(s: World, step: Step)
    requires Inv(s) && Enabled(s, step) && step.DeleteFamily?
    ensures Inv(Apply(s, step))
  {
    InvLocal(s, step.p);
    DeletedOk(s, step);
    if step.refused {
      MoveKeeps(s, Apply(s, step), step.p);
    } else {
      DeleteKeeps(s, Apply(s, step), step.p);
    }
  }

  lemma {:induction false} DeletedOk(s: World, step: Step)
    requires Enabled(s, step) && step.DeleteFamily? && Local(s, step.p)
    requires forall f :: f in s.locks && s.locks[f] == step.p ==> f == FamilyOf(s, step.p)
    ensures var s' := Apply(s, step);
            && CallOk(s', step.p) && OnlyMoves(s, s', step.p) && s'.exchanges == s.exchanges
            && s'.families == if step.refused then s.families else s.families - {FamilyOf(s, step.p)}
  {
  }

  lemma {:induction false} DeleteKeeps(s: World, s': World, p: nat)
    requires Inv(s) && p in s.calls && Critical(s.calls[p].phase) && OnlyMoves(s, s', p) && CallOk(s', p)
    requires s'.families == s.families - {FamilyOf(s, p)} && s'.exchanges == s.exchanges
    ensures Inv(s')
  {
    assert CallOk(s, p);
    forall q | q in s'.calls && q != p ensures CallOk(s', q) {
      CallWithoutFamily(s, s', p, q);
    }
    forall g | g in s'.families ensures FamilyOk(s', g) {
      FamilyKeeps(s, s', g);
    }
    LocksKeep(s, s', p);
  }

  lemma {:induction false} FamilyKeeps(s: World, s': World, g: Id)
    requires g in s.families && FamilyOk(s, g) && g in s'.families && s'.families[g] == s.families[g]
    requires s'.exchanges == s.exchanges && s'.owners == s.owners && s.drawn <= s'.drawn
    ensures FamilyOk(s', g)
  {
  }

  /** What is known of another call does not depend on the family of the holder. */
  lemma {:induction false} CallWithoutFamily(s: World, s': World, p: nat, q: nat)
    requires p in s.calls && Critical(s.calls[p].phase) && CallOk(s, p)
    requires OnlyMoves(s, s', p) && s'.families == s.families - {FamilyOf(s, p)} && s'.exchanges == s.exchanges
    requires q in s.calls && q != p && CallOk(s, q)
    ensures CallOk(s', q)
  {
  }

  lemma {:induction false} ReadOk(s: World, p: nat, newId: Id)
    requires Local(s, p) && Enabled(s, Read(p, newId))
    requires forall f :: f in s.locks && s.locks[f] == p ==> f == FamilyOf(s, p)
    ensures var s' := AfterRead(s, p, newId);
            CallOk(s', p) && OnlyMoves(s, s', p) && s'.families == s.families && s'.exchanges == s.exchanges
  {
  }

  lemma {:induction false} InvRead(s: World, p: nat, newId: Id)
    requires Inv(s) && Enabled(s, Read(p, newId))
    ensures Inv(Apply(s, Read(p, newId)))
  {
    InvLocal(s, p);
    ReadOk(s, p, newId);
    MoveKeeps(s, AfterRead(s, p, newId), p);
  }

  /** Steps that only move the call, and steps that also take or give back its lock. */
  predicate Waits(step: Step) {
    step.LookUnlocked? || step.ReadForRevoke? || step.Fail? || step.Await?
  }

  predicate Locks(step: Step) {
    step.TryLock? || step.Release? || step.Die?
  }

  lemma {:induction false} WaitOk(s: World, step: Step)
    requires Enabled(s, step) && Waits(step) && Local(s, step.p)
    requires step.Await? ==> Local(s, s.calls[step.p].phase.call)
    requires forall f :: f in s.locks && s.locks[f] == step.p ==> f == FamilyOf(s, step.p)
    ensures var s' := Apply(s, step);
            CallOk(s', step.p) && OnlyMoves(s, s', step.p) && s'.families == s.families && s'.exchanges == s.exchanges
  {
  }

  /** A call that moves within its phases, or takes or gives back the lock of its family. */
  lemma {:induction false} MovesOnly(s: World, p: nat, phase: Phase, locks: map<Id, nat>)
    requires p in s.calls
    requires locks == s.locks || (FamilyOf(s, p) !in s.locks && locks == s.locks[FamilyOf(s, p) := p]) ||
             (FamilyOf(s, p) in s.locks && s.locks[FamilyOf(s, p)] == p && locks == s.locks - {FamilyOf(s, p)})
    requires forall f :: f in s.locks && s.locks[f] == p ==> f == FamilyOf(s, p)
    ensures OnlyMoves(s, Move(s.(locks := locks), p, phase), p)
  {
  }

  lemma {:induction false} TryLockOk(s: World, p: nat, now: int, refused: bool)
    requires Enabled(s, TryLock(p, now, refused)) && Local(s, p)
    requires forall f :: f in s.locks && s.locks[f] == p ==> f == FamilyOf(s, p)
    ensures var s' := Apply(s, TryLock(p, now, refused));
            CallOk(s', p) && OnlyMoves(s, s', p) && s'.families == s.families && s'.exchanges == s.exchanges
  {
    var s' := Apply(s, TryLock(p, now, refused));
    assert s' == Move(s.(locks := s'.locks), p, s'.calls[p].phase);
    MovesOnly(s, p, s'.calls[p].phase, s'.locks);
  }

  lemma {:induction false} UnlockOk(s: World, step: Step)
    requires Enabled(s, step) && (step.Release? || step.Die?) && Local(s, step.p)
    requires forall f :: f in s.locks && s.locks[f] == step.p ==> f == FamilyOf(s, step.p)
    ensures var s' := Apply(s, step);
            CallOk(s', step.p) && OnlyMoves(s, s', step.p) && s'.families == s.families && s'.exchanges == s.exchanges
  {
    var p, s' := step.p, Apply(s, step);
    assert s' == Move(s.(locks := s'.locks), p, s'.calls[p].phase);
    MovesOnly(s, p, s'.calls[p].phase, s'.locks);
  }

  lemma {:induction false} InvWait(s: World, step: Step)
    requires Inv(s) && Enabled(s, step) && (Waits(step) || Locks(step))
    ensures Inv(Apply(s, step))
  {
    InvLocal(s, step.p);
    if step.TryLock? {
      TryLockOk(s, step.p, step.now, step.refused);
    } else if Locks(step) {
      UnlockOk(s, step);
    } else {
      if step.Await? {
        assert CallOk(s, step.p);
        InvLocal(s, s.calls[step.p].phase.call);
      }
      WaitOk(s, step);
    }
    MoveKeeps(s, Apply(s, step), step.p);
  }

  lemma {:induction false} InvStep(s: World, step: Step)
    requires Inv(s) && Enabled(s, step)
    ensures Inv(Apply(s, step))
  {
    match step
    case Login(_, _, _) => InvLogin(s, step);
    case Start(p, pod, token) => InvStartCall(s, p, pod, token);
    case Forget(_) => InvForget(s, step);
    case Write(p, lost) => InvWrite(s, p, lost);
    case WriteRevoked(_, _) => InvWriteRevoked(s, step);
    case DeleteFamily(_, _) => InvDelete(s, step);
    case Read(p, newId) => InvRead(s, p, newId);
    case _ => InvWait(s, step);
  }

  // ----- main theorems, over every interleaving

  lemma {:induction false} InvAfter(s: World, steps: seq<Step>)
    requires Inv(s) && Legal(s, steps)
    ensures Inv(After(s, steps))
    decreases |steps|
  {
    if steps != [] {
      InvStep(s, steps[0]);
      InvAfter(Apply(s, steps[0]), steps[1..]);
    }
  }

  /** A token id is never exchanged for two different successors. */
  lemma {:induction false} NeverTwoSuccessors(steps: seq<Step>, f: Id, id: Id, n: Id, n': Id)
    requires Legal(START, steps)
    requires (f, id, n) in After(START, steps).exchanges && (f, id, n') in After(START, steps).exchanges
    ensures n == n'
  {
    InvStart();
    InvAfter(START, steps);
    assert ((f, id, n) == (f, id, n'));
  }

  /** All successful rotations of one token id, whether they wrote, looked or joined, return one refresh token. */
  lemma {:induction false} SameAnswer(steps: seq<Step>, p: nat, q: nat)
    requires Legal(START, steps)
    requires var s := After(START, steps);
             && p in s.calls && q in s.calls
             && s.calls[p].phase.Done? && s.calls[p].phase.result.Ok?
             && s.calls[q].phase.Done? && s.calls[q].phase.result.Ok?
             && s.calls[p].token.familyId == s.calls[q].token.familyId
             && s.calls[p].token.tokenId == s.calls[q].token.tokenId
    ensures var s := After(START, steps);
            s.calls[p].phase.result.value.refreshToken == s.calls[q].phase.result.value.refreshToken
  {
    InvStart();
    InvAfter(START, steps);
    var s := After(START, steps);
    assert CallOk(s, p) && CallOk(s, q);
    NeverTwoSuccessors(steps, FamilyOf(s, p), s.calls[p].token.tokenId,
                       s.calls[p].phase.result.value.refreshToken.tokenId,
                       s.calls[q].phase.result.value.refreshToken.tokenId);
  }

  /** Whoever changes a stored family holds that family's lock, and at most one call at a time does. */
  lemma {:induction false} OnlyTheHolderWrites(steps: seq<Step>, step: Step, f: Id)
    requires Legal(START, steps) && Enabled(After(START, steps), step)
    requires f in After(START, steps).families
    requires f !in Apply(After(START, steps), step).families ||
             Apply(After(START, steps), step).families[f] != After(START, steps).families[f]
    ensures var s := After(START, steps);
            && (step.Write? || step.WriteRevoked? || step.DeleteFamily?) && FamilyOf(s, step.p) == f
            && f in s.locks && s.locks[f] == step.p
            && forall q :: q in s.calls && Critical(s.calls[q].phase) && FamilyOf(s, q) == f ==> q == step.p
  {
    InvStart();
    InvAfter(START, steps);
    var s := After(START, steps);
    assert FamilyOk(s, f);
    WhoWrites(s, step, f);
    InvLocal(s, step.p);
    forall q | q in s.calls && Critical(s.calls[q].phase) && FamilyOf(s, q) == f ensures q == step.p {
      InvLocal(s, q);
    }
  }

  lemma {:induction false} WhoWrites(s: World, step: Step, f: Id)
    requires Enabled(s, step) && f in s.families && f in s.owners
    requires f !in Apply(s, step).families || Apply(s, step).families[f] != s.families[f]
    ensures (step.Write? || step.WriteRevoked? || step.DeleteFamily?) && FamilyOf(s, step.p) == f
  {
  }

  /** The family was revoked, or deleted because that could not be stored. */
  predicate Ended(s: World, f: Id) {
    f in s.owners && (f in s.families ==> s.families[f].revoked)
  }

  lemma {:induction false} EndedStep(s: World, step: Step, f: Id)
    requires Enabled(s, step) && Ended(s, f)
    requires step.Write? || step.WriteRevoked? ==> Local(s, step.p)
    ensures Ended(Apply(s, step), f)
    ensures forall e :: e in Apply(s, step).exchanges && e.0 == f ==> e in s.exchanges
  {
  }

  /** Among rotations, a family that was revoked or deleted stays so, and none of its tokens is exchanged again. */
  lemma {:induction false} RevokedStays(s: World, steps: seq<Step>, f: Id)
    requires Inv(s) && Legal(s, steps) && Ended(s, f)
    ensures Ended(After(s, steps), f)
    ensures forall e :: e in After(s, steps).exchanges && e.0 == f ==> e in s.exchanges
    decreases |steps|
  {
    if steps != [] {
      var step := steps[0];
      if step.Write? || step.WriteRevoked? {
        InvLocal(s, step.p);
      }
      EndedStep(s, step, f);
      InvStep(s, step);
      RevokedStays(Apply(s, step), steps[1..], f);
    }
  }

  // ----- what a call achieves, whatever the others do

  /** The call dies or loses its reply, or its pod cannot delete the family it failed to revoke. */
  predicate Spoils(step: Step, p: nat) {
    || step == Fail(p) || step == Die(p) || step == Write(p, true) || step == DeleteFamily(p, true)
  }

  predicate Unspoiled(steps: seq<Step>, p: nat) {
    forall i :: 0 <= i < |steps| ==> !Spoils(steps[i], p)
  }

  /** Once the call is done this is its result. */
  predicate EndsOnlyWith(s: World, p: nat, result: Result<Pair>) {
    p in s.calls && (s.calls[p].phase.Done? ==> s.calls[p].phase.result == result)
  }

  /** The call is done with this pair, the pair's token is current, and the family is not locked. */
  predicate Exchanged(s: World, p: nat, pair: Pair) {
    && p in s.calls && s.calls[p].phase == Done(Ok(pair))
    && IsCurrent(s.families, pair.refreshToken) && pair.refreshToken.familyId !in s.locks
  }

  /** How far a call is that read the current token. */
  predicate Exchanging(s: World, p: nat, pair: Pair) {
    p in s.calls &&
    var phase := s.calls[p].phase;
    (phase.Writing? && phase.pair == pair) || phase == Releasing(Ok(pair)) || phase == Done(Ok(pair))
  }

  /** The other calls' steps leave a call where it is. */
  lemma {:induction false} StepOfOther(s: World, step: Step, p: nat)
    requires p in s.calls && Enabled(s, step) && (step.Login? || step.p != p)
    ensures p in Apply(s, step).calls && Apply(s, step).calls[p] == s.calls[p]
  {
    if step.Read? {
      ReadOfOther(s, step, p);
    } else if step.ReadForRevoke? || step.WriteRevoked? || step.DeleteFamily? {
      RevocationOfOther(s, step, p);
    }
  }

  lemma {:induction false} ReadOfOther(s: World, step: Step, p: nat)
    requires step.Read? && p in s.calls && Enabled(s, step) && step.p != p
    ensures p in Apply(s, step).calls && Apply(s, step).calls[p] == s.calls[p]
  {
  }

  lemma {:induction false} RevocationOfOther(s: World, step: Step, p: nat)
    requires step.ReadForRevoke? || step.WriteRevoked? || step.DeleteFamily?
    requires p in s.calls && Enabled(s, step) && step.p != p
    ensures p in Apply(s, step).calls && Apply(s, step).calls[p] == s.calls[p]
  {
  }

  lemma {:induction false} ExchangingStep(s: World, step: Step, p: nat, pair: Pair)
    requires Enabled(s, step) && Exchanging(s, p, pair) && !Spoils(step, p)
    ensures Exchanging(Apply(s, step), p, pair)
  {
    if step.Login? || step.p != p {
      StepOfOther(s, step, p);
    } else {
      assert step.Write? || step.Release? || step.Forget?;
    }
  }

  lemma {:induction false} ExchangingStays(s: World, steps: seq<Step>, p: nat, pair: Pair)
    requires Legal(s, steps) && Exchanging(s, p, pair) && Unspoiled(steps, p)
    ensures Exchanging(After(s, steps), p, pair)
    decreases |steps|
  {
    if steps != [] {
      assert !Spoils(steps[0], p);
      ExchangingStep(s, steps[0], p, pair);
      ExchangingStays(Apply(s, steps[0]), steps[1..], p, pair);
    }
  }

  /**
   * A call that holds the lock and finds its token current ends, in every interleaving that does not
   * spoil it, with a pair for the family's user that carries the fresh token id.
   */
  lemma {:induction false} CurrentTokenIsExchanged(s: World, p: nat, newId: Id, steps: seq<Step>)
    requires Enabled(s, Read(p, newId)) && IsCurrent(s.families, s.calls[p].token)
    requires Legal(Apply(s, Read(p, newId)), steps) && Unspoiled(steps, p)
    ensures var t := s.calls[p].token;
            EndsOnlyWith(After(Apply(s, Read(p, newId)), steps), p,
                         Ok(Pair(AccessToken(t.userId, s.calls[p].phase.now), Token(t.userId, t.familyId, newId))))
  {
    var t := s.calls[p].token;
    ExchangingStays(Apply(s, Read(p, newId)), steps, p,
                    Pair(AccessToken(t.userId, s.calls[p].phase.now), Token(t.userId, t.familyId, newId)));
  }

  /** How far a call is that read a stale token. */
  predicate Revoking(s: World, p: nat) {
    p in s.calls &&
    var phase := s.calls[p].phase;
    || ((phase.RevokeReading? || phase.RevokeWriting? || phase.Deleting?) && FamilyOf(s, p) in s.owners)
    || ((phase == Releasing(Err(REJECTED)) || phase == Done(Err(REJECTED))) && Ended(s, FamilyOf(s, p)))
  }

  lemma {:induction false} RevokingStep(s: World, step: Step, p: nat)
    requires Inv(s) && Enabled(s, step) && Revoking(s, p) && !Spoils(step, p)
    ensures Revoking(Apply(s, step), p) && FamilyOf(Apply(s, step), p) == FamilyOf(s, p)
  {
    if step.Login? || step.p != p {
      StepOfOther(s, step, p);
      EndedOrOwned(s, step, FamilyOf(s, p));
    } else {
      RevokingOwnStep(s, step, p);
    }
  }

  lemma {:induction false} EndedOrOwned(s: World, step: Step, f: Id)
    requires Inv(s) && Enabled(s, step)
    ensures Ended(s, f) ==> Ended(Apply(s, step), f)
    ensures f in s.owners ==> f in Apply(s, step).owners
  {
    if Ended(s, f) {
      if step.Write? || step.WriteRevoked? {
        InvLocal(s, step.p);
      }
      EndedStep(s, step, f);
    }
  }

  lemma {:induction false} RevokingOwnStep(s: World, step: Step, p: nat)
    requires Inv(s) && Enabled(s, step) && Revoking(s, p) && !Spoils(step, p) && !step.Login? && step.p == p
    ensures Revoking(Apply(s, step), p) && FamilyOf(Apply(s, step), p) == FamilyOf(s, p)
  {
    assert CallOk(s, p);
    EndedOrOwned(s, step, FamilyOf(s, p));
    if step.ReadForRevoke? || step.WriteRevoked? {
      RevokingGoesOn(s, step, p);
    } else {
      assert step.DeleteFamily? || step.Release? || step.Forget?;
    }
  }

  lemma {:induction false} RevokingGoesOn(s: World, step: Step, p: nat)
    requires step.ReadForRevoke? || step.WriteRevoked?
    requires Enabled(s, step) && Revoking(s, p) && CallOk(s, p) && step.p == p
    ensures Revoking(Apply(s, step), p) && FamilyOf(Apply(s, step), p) == FamilyOf(s, p)
  {
  }

  lemma {:induction false} RevokingStays(s: World, steps: seq<Step>, p: nat)
    requires Inv(s) && Legal(s, steps) && Revoking(s, p) && Unspoiled(steps, p)
    ensures Revoking(After(s, steps), p) && FamilyOf(After(s, steps), p) == FamilyOf(s, p)
    decreases |steps|
  {
    if steps != [] {
      assert !Spoils(steps[0], p);
      RevokingStep(s, steps[0], p);
      InvStep(s, steps[0]);
      RevokingStays(Apply(s, steps[0]), steps[1..], p);
    }
  }

  /**
   * A call that holds the lock and finds its token stale is refused, and by then its family is
   * revoked, or gone if three attempts to revoke it failed, in every interleaving that does not
   * spoil it.
   */
  lemma {:induction false} StaleTokenEndsFamily(s: World, p: nat, newId: Id, steps: seq<Step>)
    requires Inv(s) && Enabled(s, Read(p, newId))
    requires var t := s.calls[p].token; Usable(s.families, t) && !Accepts(s.families, Some(t), s.calls[p].phase.now)
    requires Legal(Apply(s, Read(p, newId)), steps) && Unspoiled(steps, p)
    ensures var s' := After(Apply(s, Read(p, newId)), steps);
            p in s'.calls && (s'.calls[p].phase.Done? ==>
              s'.calls[p].phase.result == Err(REJECTED) && Ended(s', s.calls[p].token.familyId))
  {
    InvStep(s, Read(p, newId));
    RevokingStays(Apply(s, Read(p, newId)), steps, p);
  }

  /** In grace the one before is answered with the current refresh token, with the lock or without it. */
  lemma {:induction false} GraceIsAnswered(s: World, p: nat, step: Step)
    requires Inv(s) && Enabled(s, step) && (step == LookUnlocked(p) || (step.Read? && step.p == p))
    requires var t := s.calls[p].token;
             Usable(s.families, t) && InGrace(s.families[t.familyId], t.tokenId, s.calls[p].phase.now)
    requires s.calls[p].token.tokenId != s.families[s.calls[p].token.familyId].currentTokenId
    ensures var (t, phase) := (s.calls[p].token, Apply(s, step).calls[p].phase);
            && (phase.Releasing? || phase.Done?) && phase.result.Ok?
            && phase.result.value.refreshToken == Token(t.userId, t.familyId, s.families[t.familyId].currentTokenId)
  {
    assert FamilyOk(s, FamilyOf(s, p));
  }

  lemma {:induction false} RunOn(s: World, step: Step, rest: seq<Step>)
    requires Enabled(s, step) && Legal(Apply(s, step), rest)
    ensures Legal(s, [step] + rest) && After(s, [step] + rest) == After(Apply(s, step), rest)
  {
    assert ([step] + rest)[1..] == rest;
  }

  /** The steps of a call that is refused the lock some times and then meets no obstacle. */
  function Alone(p: nat, refusals: nat, now: int, newId: Id): seq<Step> {
    if refusals == 0 then [TryLock(p, now, false)] + ([Read(p, newId)] + ([Write(p, false)] + ([Release(p)] + [])))
    else [TryLock(p, now, true)] + Alone(p, refusals - 1, now, newId)
  }

  lemma {:induction false} AloneHolding(s: World, p: nat, now: int, newId: Id)
    requires p in s.calls && s.calls[p].phase == Holding(now) && newId !in s.drawn
    requires IsCurrent(s.families, s.calls[p].token) && FamilyOf(s, p) in s.locks && s.locks[FamilyOf(s, p)] == p
    ensures var (t, steps) := (s.calls[p].token, [Read(p, newId)] + ([Write(p, false)] + ([Release(p)] + [])));
            && Legal(s, steps)
            && Exchanged(After(s, steps), p, Pair(AccessToken(t.userId, now), Token(t.userId, t.familyId, newId)))
  {
    var s1 := Apply(s, Read(p, newId));
    var s2 := Apply(s1, Write(p, false));
    RunOn(s2, Release(p), []);
    RunOn(s1, Write(p, false), [Release(p)] + []);
    RunOn(s, Read(p, newId), [Write(p, false)] + ([Release(p)] + []));
  }

  lemma {:induction false} AloneFromLocking(s: World, p: nat, refusals: nat, now: int, newId: Id)
    requires p in s.calls && s.calls[p].phase.Locking? && s.calls[p].phase.attempt + refusals < 5
    requires IsCurrent(s.families, s.calls[p].token) && FamilyOf(s, p) !in s.locks && newId !in s.drawn
    ensures var (t, steps) := (s.calls[p].token, Alone(p, refusals, now, newId));
            && Legal(s, steps)
            && Exchanged(After(s, steps), p, Pair(AccessToken(t.userId, now), Token(t.userId, t.familyId, newId)))
    decreases refusals
  {
    if refusals == 0 {
      AloneHolding(Apply(s, TryLock(p, now, false)), p, now, newId);
      RunOn(s, TryLock(p, now, false), [Read(p, newId)] + ([Write(p, false)] + ([Release(p)] + [])));
    } else {
      AloneFromLocking(Apply(s, TryLock(p, now, true)), p, refusals - 1, now, newId);
      RunOn(s, TryLock(p, now, true), Alone(p, refusals - 1, now, newId));
    }
  }

  /**
   * Rotation is possible: whatever happened before, a new call with the current token of a family
   * that is not locked can run to a pair, even if it is refused the lock four times first; the new
   * token is then current and the lock free again.
   */
  lemma {:induction false} RotationIsPossible(
      s: World, p: nat, pod: nat, t: Token, refusals: nat, now: int, newId: Id)
    requires IsCurrent(s.families, t) && t.familyId !in s.locks && p !in s.calls && newId !in s.drawn
    requires (pod, t.familyId, t.tokenId) !in s.inFlight && refusals <= 4
    ensures var steps := [Start(p, pod, t)] + Alone(p, refusals, now, newId);
            && Legal(s, steps)
            && Exchanged(After(s, steps), p, Pair(AccessToken(t.userId, now), Token(t.userId, t.familyId, newId)))
  {
    AloneFromLocking(Apply(s, Start(p, pod, t)), p, refusals, now, newId);
    RunOn(s, Start(p, pod, t), Alone(p, refusals, now, newId));
  }

  function Repeat(step: Step, n: nat): seq<Step> {
    if n == 0 then [] else [step] + Repeat(step, n - 1)
  }

  /** The lock is asked for five times; after that the call looks at the family without it. */
  lemma {:induction false} FiveAttemptsToLock(s: World, p: nat, now: int, n: nat)
    requires p in s.calls && s.calls[p].phase.Locking?
    requires s.calls[p].phase.attempt + n <= 5 && s.calls[p].phase.attempt < 5
    ensures Legal(s, Repeat(TryLock(p, now, true), n)) && p in After(s, Repeat(TryLock(p, now, true), n)).calls
    ensures var k := s.calls[p].phase.attempt + n;
            n > 0 ==> After(s, Repeat(TryLock(p, now, true), n)).calls[p].phase
                      == if k < 5 then Locking(k) else Unlocked(now)
    ensures After(s, Repeat(TryLock(p, now, true), n)).families == s.families
    decreases n
  {
    if n > 0 {
      var next := Apply(s, TryLock(p, now, true));
      if n > 1 {
        FiveAttemptsToLock(next, p, now, n - 1);
      }
      RunOn(s, TryLock(p, now, true), Repeat(TryLock(p, now, true), n - 1));
    }
  }

  /** A revocation is tried three times; after that the family is to be deleted. */
  lemma {:induction false} ThreeAttemptsToRevoke(s: World, p: nat, n: nat)
    requires p in s.calls && s.calls[p].phase.RevokeReading? && s.calls[p].phase.attempt + n <= 3
    requires s.calls[p].phase.attempt < 3
    ensures Legal(s, Repeat(ReadForRevoke(p, true), n)) && p in After(s, Repeat(ReadForRevoke(p, true), n)).calls
    ensures var k := s.calls[p].phase.attempt + n;
            n > 0 ==> After(s, Repeat(ReadForRevoke(p, true), n)).calls[p].phase
                      == if k < 3 then RevokeReading(k) else Deleting
    decreases n
  {
    if n > 0 {
      var next := Apply(s, ReadForRevoke(p, true));
      if n > 1 {
        ThreeAttemptsToRevoke(next, p, n - 1);
      }
      RunOn(s, ReadForRevoke(p, true), Repeat(ReadForRevoke(p, true), n - 1));
    }
  }
}
