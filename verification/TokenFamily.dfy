/**
 * Refresh-token families with one call at a time. A token is the payload of a signed JWT; a
 * presented JWT that does not verify, or lacks a field, is None.
 */
module TokenFamily {
  import opened Outcomes

  type Id = string

  const GRACE_MS := 10_000
  const REJECTED := "Refresh token has been reused or revoked"

  datatype Token = Token(userId: Id, familyId: Id, tokenId: Id)

  datatype AccessToken = AccessToken(userId: Id, issuedAt: int)

  datatype Pair = Pair(accessToken: AccessToken, refreshToken: Token)

  datatype Family = Family(
    userId: Id, currentTokenId: Id, previousTokenId: Option<Id>, rotatedAt: Option<int>,
    lastAccessToken: Option<AccessToken>, lastRefreshToken: Option<Token>, revoked: bool)

  type Families = map<Id, Family>

  // ----- what the calls do

  function NewFamily(userId: Id, tokenId: Id): Family {
    Family(userId, tokenId, None, None, None, None, false)
  }

  predicate InGrace(f: Family, tokenId: Id, now: int) {
    f.previousTokenId == Some(tokenId)
    && now - (match f.rotatedAt case None => 0 case Some(t) => t) <= GRACE_MS
  }

  /** The stored record that both calls look at before they judge the token id. */
  predicate Usable(fs: Families, t: Token) {
    t.familyId in fs && !fs[t.familyId].revoked && fs[t.familyId].userId == t.userId
  }

  predicate Accepts(fs: Families, jwt: Option<Token>, now: int) {
    jwt.Some? && Usable(fs, jwt.value) &&
    var f, t := fs[jwt.value.familyId], jwt.value;
    t.tokenId == f.currentTokenId || InGrace(f, t.tokenId, now)
  }

  function Revoked(fs: Families, id: Id): Families {
    fs[id := if id in fs then fs[id].(revoked := true) else Family("", "", None, None, None, None, true)]
  }

  function VerifyResult(fs: Families, jwt: Option<Token>, now: int): (Families, Result<Token>) {
    if Accepts(fs, jwt, now) then (fs, Ok(jwt.value))
    else if jwt.Some? && Usable(fs, jwt.value) then (Revoked(fs, jwt.value.familyId), Err(REJECTED))
    else (fs, Err(REJECTED))
  }

  /** The family after its current token is exchanged. */
  function Next(f: Family, familyId: Id, now: int, newId: Id): Family {
    f.(previousTokenId := Some(f.currentTokenId), currentTokenId := newId, rotatedAt := Some(now),
       lastAccessToken := Some(AccessToken(f.userId, now)),
       lastRefreshToken := Some(Token(f.userId, familyId, newId)))
  }

  function CachedPair(f: Family, now: int): Option<Pair> {
    match f.lastRefreshToken
    case None => None
    case Some(refresh) =>
      Some(Pair(if f.lastAccessToken.Some? then f.lastAccessToken.value else AccessToken(f.userId, now), refresh))
  }

  function RotateResult(fs: Families, jwt: Option<Token>, now: int, newId: Id): (Families, Result<Pair>) {
    if jwt.None? || !Usable(fs, jwt.value) then (fs, Err(REJECTED)) else
      var t := jwt.value;
      var f := fs[t.familyId];
      if t.tokenId == f.currentTokenId then
        var g := Next(f, t.familyId, now, newId);
        (fs[t.familyId := g], Ok(Pair(AccessToken(f.userId, now), Token(f.userId, t.familyId, newId))))
      else if InGrace(f, t.tokenId, now) && CachedPair(f, now).Some? then
        (fs, Ok(CachedPair(f, now).value))
      else
        (Revoked(fs, t.familyId), Err(REJECTED))
  }

  /** The service over its Redis keys `rt:fam:*`. */
  class TokenService {
    var families: Families

    constructor ()
      ensures families == map[]
    {
      families := map[];
    }

    method GenerateRefreshToken(userId: Id, existingFamilyId: Option<Id>, payloadFamilyId: Option<Id>,
                                freshFamily: Id, freshToken: Id) returns (t: Token)
      modifies this
      ensures t == Token(userId, match existingFamilyId
                                 case Some(id) => id
                                 case None => match payloadFamilyId case Some(id) => id case None => freshFamily,
                         freshToken)
      ensures families == old(families)[t.familyId := NewFamily(userId, freshToken)]
    {
      var familyId := match existingFamilyId
        case Some(id) => id
        case None => match payloadFamilyId case Some(id) => id case None => freshFamily;
      t := Token(userId, familyId, freshToken);
      families := families[familyId := NewFamily(userId, freshToken)];
    }

    method RevokeFamily(familyId: Id)
      modifies this
      ensures families == Revoked(old(families), familyId)
    {
      var family := Family("", "", None, None, None, None, true);
      if familyId in families {
        family := families[familyId];
      }
      family := family.(revoked := true);
      families := families[familyId := family];
    }

    method VerifyRefreshToken(jwt: Option<Token>, now: int) returns (r: Result<Token>)
      modifies this
      ensures (families, r) == VerifyResult(old(families), jwt, now)
    {
      if jwt.None? {
        return Err(REJECTED);
      }
      var decoded := jwt.value;
      if decoded.familyId !in families {
        return Err(REJECTED);
      }
      var family := families[decoded.familyId];
      if family.revoked || family.userId != decoded.userId {
        return Err(REJECTED);
      }
      if decoded.tokenId == family.currentTokenId {
        return Ok(decoded);
      }
      if family.previousTokenId == Some(decoded.tokenId) {
        var timeSinceRotation := now - (if family.rotatedAt.Some? then family.rotatedAt.value else 0);
        if timeSinceRotation <= GRACE_MS {
          return Ok(decoded);
        }
      }
      RevokeFamily(decoded.familyId);
      r := Err(REJECTED);
    }

    method RotateRefreshToken(jwt: Option<Token>, now: int, newId: Id) returns (r: Result<Pair>)
      modifies this
      ensures (families, r) == RotateResult(old(families), jwt, now, newId)
    {
      if jwt.None? {
        return Err(REJECTED);
      }
      var decoded := jwt.value;
      if decoded.familyId !in families {
        return Err(REJECTED);
      }
      var family := families[decoded.familyId];
      if family.revoked || family.userId != decoded.userId {
        return Err(REJECTED);
      }
      if decoded.tokenId == family.currentTokenId {
        var accessToken := AccessToken(family.userId, now);
        var refreshToken := Token(family.userId, decoded.familyId, newId);
        family := family.(previousTokenId := Some(family.currentTokenId));
        family := family.(currentTokenId := newId);
        family := family.(rotatedAt := Some(now));
        family := family.(lastAccessToken := Some(accessToken));
        family := family.(lastRefreshToken := Some(refreshToken));
        families := families[decoded.familyId := family];
        return Ok(Pair(accessToken, refreshToken));
      }
      if family.previousTokenId == Some(decoded.tokenId) {
        var timeSinceRotation := now - (if family.rotatedAt.Some? then family.rotatedAt.value else 0);
        if timeSinceRotation <= GRACE_MS {
          var accessToken := if family.lastAccessToken.Some? then family.lastAccessToken.value
                             else AccessToken(family.userId, now);
          if family.lastRefreshToken.Some? {
            return Ok(Pair(accessToken, family.lastRefreshToken.value));
          }
        }
      }
      RevokeFamily(decoded.familyId);
      r := Err(REJECTED);
    }
  }

  // ----- runs of calls

  /** Expire is a key reaching its time to live. */
  datatype Call =
    | Generate(userId: Id, familyId: Id, newId: Id)
    | Verify(jwt: Option<Token>, now: int)
    | Rotate(jwt: Option<Token>, now: int, newId: Id)
    | Revoke(familyId: Id)
    | Expire(familyId: Id)

  /** The stored families, and every token id ever drawn. */
  datatype State = State(families: Families, drawn: set<Id>)

  /** A freshly drawn token id was never drawn before. */
  predicate Fresh(s: State, c: Call) {
    match c
    case Generate(_, _, newId) => newId !in s.drawn
    case Rotate(_, _, newId) => newId !in s.drawn
    case _ => true
  }

  function Apply(s: State, c: Call): State {
    match c
    case Generate(user, id, newId) => State(s.families[id := NewFamily(user, newId)], s.drawn + {newId})
    case Verify(jwt, now) => s.(families := VerifyResult(s.families, jwt, now).0)
    case Rotate(jwt, now, newId) => State(RotateResult(s.families, jwt, now, newId).0, s.drawn + {newId})
    case Revoke(id) => s.(families := Revoked(s.families, id))
    case Expire(id) => s.(families := s.families - {id})
  }

  predicate LegalRun(s: State, calls: seq<Call>)
    decreases |calls|
  {
    calls == [] || (Fresh(s, calls[0]) && LegalRun(Apply(s, calls[0]), calls[1..]))
  }

  function After(s: State, calls: seq<Call>): State
    decreases |calls|
  {
    if calls == [] then s else After(Apply(s, calls[0]), calls[1..])
  }

  const EMPTY := State(map[], {})

  /** A rotated family remembers the pair it handed out last: its user's, with its current token. */
  predicate Consistent(fs: Families) {
    forall id :: id in fs ==>
      && (fs[id].previousTokenId.Some? ==> fs[id].lastRefreshToken.Some?)
      && (fs[id].lastAccessToken.Some? ==> fs[id].lastAccessToken.value.userId == fs[id].userId)
      && (fs[id].lastRefreshToken.Some? ==>
            fs[id].lastRefreshToken.value == Token(fs[id].userId, id, fs[id].currentTokenId))
  }

  lemma {:induction false} ConsistentAlways(s: State, calls: seq<Call>)
    requires Consistent(s.families)
    ensures Consistent(After(s, calls).families)
    decreases |calls|
  {
    if calls != [] {
      ConsistentStep(s, calls[0]);
      ConsistentAlways(Apply(s, calls[0]), calls[1..]);
    }
  }

  lemma {:induction false} ConsistentStep(s: State, c: Call)
    requires Consistent(s.families)
    ensures Consistent(Apply(s, c).families)
  {
  }

  /** In every reachable state a token is accepted exactly when rotating it would return a pair. */
  lemma {:induction false} VerifyAgreesWithRotate(calls: seq<Call>, jwt: Option<Token>, now: int, newId: Id)
    ensures var fs := After(EMPTY, calls).families;
            VerifyResult(fs, jwt, now).1.Ok? <==> RotateResult(fs, jwt, now, newId).1.Ok?
    ensures var fs := After(EMPTY, calls).families;
            VerifyResult(fs, jwt, now).1.Err? ==> VerifyResult(fs, jwt, now).0 == RotateResult(fs, jwt, now, newId).0
  {
    ConsistentAlways(EMPTY, calls);
  }

  /** The refresh token a rotation hands out is the family's current one, in grace replies too. */
  lemma {:induction false} RotationReturnsCurrent(calls: seq<Call>, t: Token, now: int, newId: Id)
    ensures var (fs, r) := RotateResult(After(EMPTY, calls).families, Some(t), now, newId);
            r.Ok? ==>
              && t.familyId in fs && !fs[t.familyId].revoked
              && r.value.refreshToken == Token(t.userId, t.familyId, fs[t.familyId].currentTokenId)
              && fs[t.familyId].previousTokenId == Some(t.tokenId)
  {
    ConsistentAlways(EMPTY, calls);
  }

  /** Presenting a token again within the grace window returns the very same pair and changes nothing. */
  lemma {:induction false} RepeatedRotation(fs: Families, t: Token, now: int, later: int, newId: Id, other: Id)
    requires RotateResult(fs, Some(t), now, newId).1.Ok? && t.tokenId == fs[t.familyId].currentTokenId != newId
    ensures var (gs, r) := RotateResult(fs, Some(t), now, newId);
            RotateResult(gs, Some(t), later, other) ==
            if later - now <= 10_000 then (gs, r) else (Revoked(gs, t.familyId), Err(REJECTED))
  {
  }

  /** Who the answers are for: verifying returns the token presented, and a pair is for its user and family. */
  lemma {:induction false} AnswersNameTheUser(calls: seq<Call>, t: Token, now: int, newId: Id)
    ensures var fs := After(EMPTY, calls).families;
            var (verified, rotated) := (VerifyResult(fs, Some(t), now).1, RotateResult(fs, Some(t), now, newId).1);
            && (verified.Ok? ==> verified.value == t)
            && (rotated.Ok? ==>
                  && rotated.value.accessToken.userId == rotated.value.refreshToken.userId == t.userId
                  && rotated.value.refreshToken.familyId == t.familyId)
  {
    ConsistentAlways(EMPTY, calls);
  }

  // ----- what a login is good for

  /** The token is the current one of an active family of its user. */
  predicate IsCurrent(fs: Families, t: Token) {
    t.familyId in fs &&
    var f := fs[t.familyId]; !f.revoked && f.userId == t.userId && f.currentTokenId == t.tokenId
  }

  function FamilyOf(c: Call): Option<Id> {
    match c
    case Generate(_, id, _) => Some(id)
    case Verify(jwt, _) => if jwt.Some? then Some(jwt.value.familyId) else None
    case Rotate(jwt, _, _) => if jwt.Some? then Some(jwt.value.familyId) else None
    case Revoke(id) => Some(id)
    case Expire(id) => Some(id)
  }

  /** A token of the same user and family that is neither t nor the one before it in its grace window. */
  predicate Stale(fs: Families, t: Token, jwt: Token, now: int)
    requires t.familyId in fs
  {
    var f := fs[t.familyId];
    && jwt.userId == t.userId && jwt.tokenId != t.tokenId
    && (f.previousTokenId != Some(jwt.tokenId) || now - (if f.rotatedAt.Some? then f.rotatedAt.value else 0) > 10_000)
  }

  /** A login, a revocation or the expiry of t's family; its exchange, a stale token, or one whose reply is lost. */
  predicate Disturbs(fs: Families, t: Token, c: Call)
    requires t.familyId in fs
  {
    FamilyOf(c) == Some(t.familyId) &&
    match c
    case Verify(jwt, now) => Stale(fs, t, jwt.value, now)
    case Rotate(jwt, now, _) =>
      jwt.value == t || Stale(fs, t, jwt.value, now) || Unanswered(fs[t.familyId], jwt.value, t)
    case _ => true
  }

  /** A token in grace of a family that has no pair to repeat; no reachable family is like that. */
  predicate Unanswered(f: Family, jwt: Token, t: Token) {
    jwt.userId == t.userId && jwt.tokenId != t.tokenId && f.lastRefreshToken.None?
  }

  predicate Undisturbed(s: State, t: Token, calls: seq<Call>)
    decreases |calls|
  {
    calls == [] ||
    (t.familyId in s.families && !Disturbs(s.families, t, calls[0]) && Undisturbed(Apply(s, calls[0]), t, calls[1..]))
  }

  /** A call touches its own family only. */
  lemma {:induction false} OtherFamiliesStay(s: State, c: Call, id: Id)
    requires FamilyOf(c) != Some(id)
    ensures id in Apply(s, c).families <==> id in s.families
    ensures id in s.families ==> Apply(s, c).families[id] == s.families[id]
  {
  }

  /** One call leaves the current token current exactly if it does not disturb it. */
  lemma {:induction false} OneCall(s: State, t: Token, c: Call)
    requires IsCurrent(s.families, t) && t.tokenId in s.drawn && Fresh(s, c)
    ensures IsCurrent(Apply(s, c).families, t) <==> !Disturbs(s.families, t, c)
  {
    if FamilyOf(c) != Some(t.familyId) {
      OtherFamiliesStay(s, c, t.familyId);
    }
  }

  /** A token drawn before that is not current never becomes so again. */
  lemma {:induction false} NeverCurrentAgain(s: State, t: Token, calls: seq<Call>)
    requires !IsCurrent(s.families, t) && t.tokenId in s.drawn && LegalRun(s, calls)
    ensures !IsCurrent(After(s, calls).families, t)
    decreases |calls|
  {
    if calls != [] {
      NeverCurrentAgain(Apply(s, calls[0]), t, calls[1..]);
    }
  }

  /** Over any run the token stays current exactly if no call of the run disturbs it. */
  lemma {:induction false} StaysCurrentExactly(s: State, t: Token, calls: seq<Call>)
    requires IsCurrent(s.families, t) && t.tokenId in s.drawn && LegalRun(s, calls)
    ensures IsCurrent(After(s, calls).families, t) <==> Undisturbed(s, t, calls)
    decreases |calls|
  {
    if calls != [] {
      OneCall(s, t, calls[0]);
      if Disturbs(s.families, t, calls[0]) {
        NeverCurrentAgain(Apply(s, calls[0]), t, calls[1..]);
      } else {
        StaysCurrentExactly(Apply(s, calls[0]), t, calls[1..]);
      }
    }
  }

  /**
   * A login is good for use: until its token is disturbed it is accepted at every time, with no
   * effect; exchanging it returns a pair for its user; and the refresh token of that pair is
   * current in turn, so all of this holds of it too.
   */
  lemma {:induction false} LoginIsAccepted(
      s: State, userId: Id, familyId: Id, id: Id, calls: seq<Call>, now: int, newId: Id, later: int)
    requires var t := Token(userId, familyId, id);
             var login := Apply(s, Generate(userId, familyId, id));
             LegalRun(login, calls) && Undisturbed(login, t, calls)
    ensures var t := Token(userId, familyId, id);
            var fs := After(Apply(s, Generate(userId, familyId, id)), calls).families;
            var (gs, r) := RotateResult(fs, Some(t), now, newId);
            && VerifyResult(fs, Some(t), now) == (fs, Ok(t))
            && r == Ok(Pair(AccessToken(userId, now), Token(userId, familyId, newId)))
            && IsCurrent(gs, Token(userId, familyId, newId))
            && VerifyResult(gs, Some(Token(userId, familyId, newId)), later) == (gs, Ok(Token(userId, familyId, newId)))
  {
    StaysCurrentExactly(Apply(s, Generate(userId, familyId, id)), Token(userId, familyId, id), calls);
  }

  // ----- revocation

  /** None of these token ids can be accepted in the family. */
  predicate Dead(s: State, familyId: Id, ids: set<Id>) {
    ids <= s.drawn &&
    (familyId in s.families && !s.families[familyId].revoked ==>
       && s.families[familyId].currentTokenId !in ids
       && (s.families[familyId].previousTokenId.Some? ==> s.families[familyId].previousTokenId.value !in ids))
  }

  lemma {:induction false} DeadForever(s: State, familyId: Id, ids: set<Id>, calls: seq<Call>)
    requires Dead(s, familyId, ids) && LegalRun(s, calls)
    ensures Dead(After(s, calls), familyId, ids)
    decreases |calls|
  {
    if calls != [] {
      DeadForever(Apply(s, calls[0]), familyId, ids, calls[1..]);
    }
  }

  /**
   * A token of an active family that is neither current nor in grace kills the family: whichever
   * call sees it revokes, and no token id drawn so far is accepted in the family ever after, even
   * if the family id is used for a new login later.
   */
  lemma {:induction false} StaleTokenKillsFamily(
      s: State, t: Token, now: int, call: Call, calls: seq<Call>, jwt: Token, later: int)
    requires Usable(s.families, t) && !Accepts(s.families, Some(t), now)
    requires call == Verify(Some(t), now) || (call.Rotate? && call.jwt == Some(t) && call.now == now)
    requires LegalRun(Apply(s, call), calls)
    requires jwt.familyId == t.familyId && jwt.tokenId in s.drawn
    ensures Apply(s, call).families[t.familyId].revoked
    ensures !Accepts(After(Apply(s, call), calls).families, Some(jwt), later)
  {
    DeadForever(Apply(s, call), t.familyId, s.drawn, calls);
  }

  predicate NoLogin(calls: seq<Call>, familyId: Id) {
    forall i :: 0 <= i < |calls| && calls[i].Generate? ==> calls[i].familyId != familyId
  }

  /** Without a new login under the same family id, nothing at all is accepted after a revocation. */
  lemma {:induction false} RevocationIsPermanent(s: State, familyId: Id, calls: seq<Call>, jwt: Token, now: int)
    requires familyId in s.families ==> s.families[familyId].revoked
    requires NoLogin(calls, familyId) && jwt.familyId == familyId
    ensures !Accepts(After(s, calls).families, Some(jwt), now)
    decreases |calls|
  {
    if calls != [] {
      RevocationIsPermanent(Apply(s, calls[0]), familyId, calls[1..], jwt, now);
    }
  }

  /** Revoking leaves a revoked record, even where there was none, and so refuses every token of the family. */
  lemma {:induction false} RevokeRefusesAll(s: State, familyId: Id, calls: seq<Call>, jwt: Token, now: int, newId: Id)
    requires NoLogin(calls, familyId) && jwt.familyId == familyId
    ensures var t := Apply(s, Revoke(familyId));
            && familyId in t.families && t.families[familyId].revoked
            && VerifyResult(After(t, calls).families, Some(jwt), now).1 == Err(REJECTED)
            && RotateResult(After(t, calls).families, Some(jwt), now, newId).1 == Err(REJECTED)
  {
    RevocationIsPermanent(Apply(s, Revoke(familyId)), familyId, calls, jwt, now);
  }
}
