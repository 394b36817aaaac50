/** Refresh tokens: the domain rules on one token, and the table their families live in. */
module RefreshTokens {
  import opened Wrappers
  import opened Votes

  datatype TokenStatus = Active | Used | Revoked

  // Token values and hashes are not modelled: a token is known by its id.
  datatype Token = Token(
    family: string,
    owner: EntityRef,
    status: TokenStatus,
    usedAt: Option<int>,
    nextTokenId: Option<string>,
    expiresAt: int,
    createdAt: int,
    occ: nat)

  datatype TokenError = ExpireBeforeCreate | InvalidUsedAt | UsedBeforeCreate | InvalidNextTokenId

  datatype EligibilityError = TokenExpired | TokenRevoked | ReuseDetected

  const GRACE_PERIOD_SECONDS := 30
  const REFRESH_TOKEN_EXPIRY_DAYS := 30

  // Times are in milliseconds.
  function NewToken(family: string, owner: EntityRef, now: int): Token {
    Token(family, owner, Active, None, None, now + REFRESH_TOKEN_EXPIRY_DAYS * 24 * 60 * 60 * 1000, now, 0)
  }

  function Validate(t: Token): Result<Token, TokenError> {
    if t.expiresAt < t.createdAt then Err(ExpireBeforeCreate)
    else if t.status != Used then Ok(t)
    else if t.usedAt.None? then Err(InvalidUsedAt)
    else if t.usedAt.value < t.createdAt then Err(UsedBeforeCreate)
    else if t.nextTokenId.None? then Err(InvalidNextTokenId)
    else Ok(t)
  }

  function MarkAsUsed(t: Token, nextTokenId: string, now: int): Result<Token, TokenError> {
    Validate(t.(status := Used, usedAt := Some(now), nextTokenId := Some(nextTokenId)))
  }

  predicate WithinGracePeriod(t: Token, time: int) {
    t.status == Used && t.usedAt.Some? && time - t.usedAt.value <= GRACE_PERIOD_SECONDS * 1000
  }

  function CanBeRefreshed(t: Token, time: int): Result<(), EligibilityError> {
    if t.expiresAt < time then Err(TokenExpired)
    else if t.status == Revoked then Err(TokenRevoked)
    else if t.status == Used && !WithinGracePeriod(t, time) then Err(ReuseDetected)
    else Ok(())
  }

  // When a token may be refreshed: not after it expired, never once revoked, and for half a minute after its use.
  lemma RefreshExactly(t: Token, time: int)
    requires Validate(t).Ok?
    ensures CanBeRefreshed(t, time) ==
      if time > t.expiresAt then Err(TokenExpired)
      else match t.status
        case Active => Ok(())
        case Revoked => Err(TokenRevoked)
        case Used => if time > t.usedAt.value + 30_000 then Err(ReuseDetected) else Ok(())
  {
  }

  // A token as stored validates exactly if its times are in order and, once used, it says when and by what it was
  // replaced.
  lemma ValidateExactly(t: Token)
    ensures Validate(t).Ok? <==>
      && t.createdAt <= t.expiresAt
      && (t.status == Used ==> t.usedAt.Some? && t.usedAt.value >= t.createdAt && t.nextTokenId.Some?)
    ensures Validate(t).Ok? ==> Validate(t).value == t
  {
  }

  // A new token is its owner's, for thirty days.
  lemma NewTokenLives(family: string, owner: EntityRef, now: int, time: int)
    ensures var t := NewToken(family, owner, now);
      && t.family == family && t.owner == owner && t.createdAt == now
      && Validate(t) == Ok(t)
      && (CanBeRefreshed(t, time).Ok? <==> time <= now + 2_592_000_000)
  {
  }

  // Marking keeps whose token it is and how long it lives; it can fail only if the clock ran back past its creation.
  lemma MarkAsUsedExactly(t: Token, nextTokenId: string, now: int)
    requires Validate(t).Ok?
    ensures MarkAsUsed(t, nextTokenId, now) ==
      if now < t.createdAt then Err(UsedBeforeCreate)
      else Ok(Token(t.family, t.owner, Used, Some(now), Some(nextTokenId), t.expiresAt, t.createdAt, t.occ))
  {
  }

  // ---- The table ----

  // The rotation transaction: the old row is rewritten if its occ is still the expected one, and the new row added.
  function Rotated(rows: map<string, Token>, oldId: string, used: Token, occCheck: nat, newId: string, successor: Token)
    : Option<map<string, Token>>
  {
    if oldId in rows && rows[oldId].occ == occCheck
    then Some(rows[oldId := used.(occ := occCheck + 1)][newId := successor])
    else None
  }

  function FamilyRevoked(rows: map<string, Token>, family: string): map<string, Token> {
    map id | id in rows ::
      if rows[id].family == family then rows[id].(status := Revoked, occ := rows[id].occ + 1) else rows[id]
  }

  class RefreshTokenTable {
    var rows: map<string, Token>

    constructor ()
      ensures rows == map[]
    {
      rows := map[];
    }

    method CreateToken(id: string, token: Token) returns (created: bool)
      modifies this
      ensures created <==> id !in old(rows)
      ensures rows == if created then old(rows)[id := token] else old(rows)
    {
      created := id !in rows;
      if created {
        rows := rows[id := token];
      }
    }

    method PersistNewTokenUpdateOldToken(oldId: string, used: Token, occCheck: nat, newId: string, successor: Token)
      returns (committed: bool)
      modifies this
      ensures committed <==> oldId in old(rows) && old(rows)[oldId].occ == occCheck
      ensures !committed ==> rows == old(rows)
      ensures committed ==>
        && Rotated(old(rows), oldId, used, occCheck, newId, successor) == Some(rows)
        && rows.Keys == old(rows).Keys + {newId}
        && rows[newId] == successor
        && (oldId != newId ==> rows[oldId] == used.(occ := occCheck + 1))
        && forall id | id in rows && id != oldId && id != newId :: rows[id] == old(rows)[id]
    {
      committed := false;
      if oldId in rows && rows[oldId].occ == occCheck {
        rows := rows[oldId := used.(occ := rows[oldId].occ + 1)];
        rows := rows[newId := successor];
        committed := true;
      }
    }

    method RevokeFamily(family: string)
      modifies this
      ensures rows == FamilyRevoked(old(rows), family)
      ensures rows.Keys == old(rows).Keys
      ensures forall id | id in rows && old(rows)[id].family == family ::
        var was, now := old(rows)[id], rows[id];
        && now.status == Revoked && now.occ == was.occ + 1
        && now.family == was.family && now.owner == was.owner
        && now.expiresAt == was.expiresAt && now.createdAt == was.createdAt
        && now.usedAt == was.usedAt && now.nextTokenId == was.nextTokenId
      ensures forall id | id in rows && old(rows)[id].family != family :: rows[id] == old(rows)[id]
    {
      rows := map id | id in rows ::
        if rows[id].family == family then rows[id].(status := Revoked, occ := rows[id].occ + 1) else rows[id];
    }
  }
}
