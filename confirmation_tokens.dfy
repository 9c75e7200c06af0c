// Confirmation tokens: the one-use tokens mailed for email verification
// and password reset, and the check that consumes one. The token table is
// a class keyed by the token text (a random UUID).
module ConfirmationTokens {

  import opened Wrappers
  import opened Entities

  datatype TokenType = EMAIL_VERIFICATION | PASSWORD_RESET

  /** A token row; `user` is the owner's email and `confirmedAt` is
      `None` until the token is used. */
  datatype ConfirmationToken = ConfirmationToken(
    token: string,
    tokenType: TokenType,
    createdAt: Instant,
    expiresAt: Instant,
    confirmedAt: Option<Instant>,
    user: Email)

  /** How long a verification link and a password-reset link stay valid. */
  const VerificationLifetime: int := 30 * Minute
  const ResetLifetime: int := 15 * Minute

  /** Why `confirmToken` throws `InvalidTokenException`. */
  datatype TokenError = NotFound | AlreadyConfirmed | Expired

  /** The outcome of `confirmToken`: the confirmed row, or the exception. */
  datatype Confirmation = Confirmed(t: ConfirmationToken) | Invalid(error: TokenError)

  /** The checks of `confirmToken`, in order: the token must exist, must
      not have been used, and must not be past its expiry (a token is still
      good at the very instant it expires). */
  function ConfirmOutcome(found: Option<ConfirmationToken>, now: Instant): (c: Confirmation)
    ensures c.Confirmed? <==> found.Some? && found.value.confirmedAt.None? && now <= found.value.expiresAt
    ensures c.Confirmed? ==> c.t == found.value.(confirmedAt := Some(now))
    ensures c == Invalid(NotFound) <==> found.None?
    ensures c == Invalid(AlreadyConfirmed) <==> found.Some? && found.value.confirmedAt.Some?
  {
    if found.None? then Invalid(NotFound)
    else if found.value.confirmedAt.Some? then Invalid(AlreadyConfirmed)
    else if found.value.expiresAt < now then Invalid(Expired)
    else Confirmed(found.value.(confirmedAt := Some(now)))
  }

  /** A fresh token of `tokenType` created at `now` for `user`. */
  function NewToken(token: string, tokenType: TokenType, user: Email, now: Instant): (t: ConfirmationToken)
    ensures t.token == token && t.tokenType == tokenType && t.user == user
    ensures t.createdAt == now && t.confirmedAt.None?
    ensures t.expiresAt - t.createdAt == (if tokenType == EMAIL_VERIFICATION then VerificationLifetime else ResetLifetime)
  {
    var lifetime := if tokenType == EMAIL_VERIFICATION then VerificationLifetime else ResetLifetime;
    ConfirmationToken(token, tokenType, now, now + lifetime, None, user)
  }

  /** A fresh token can be confirmed exactly until its lifetime has passed:
      30 minutes for a verification link, 15 for a reset link. */
  lemma TokenLifetime(token: string, tokenType: TokenType, user: Email, created: Instant, now: Instant)
    ensures var lifetime := if tokenType == EMAIL_VERIFICATION then 30 * 60 else 15 * 60;
      (ConfirmOutcome(Some(NewToken(token, tokenType, user, created)), now).Confirmed?
       <==> now <= created + lifetime)
  {
  }

  /** A confirmed token cannot be confirmed again, at any time. */
  lemma ConfirmOnce(found: Option<ConfirmationToken>, now: Instant, later: Instant)
    requires ConfirmOutcome(found, now).Confirmed?
    ensures ConfirmOutcome(Some(ConfirmOutcome(found, now).t), later) == Invalid(AlreadyConfirmed)
  {
  }

  class TokenRepository {
    var tokens: map<string, ConfirmationToken>

    /** Every row is stored under its own token text. */
    ghost predicate Valid()
      reads this
    {
      forall s :: s in tokens ==> tokens[s].token == s
    }

    constructor ()
      ensures Valid() && tokens == map[]
    {
      tokens := map[];
    }

    method Save(t: ConfirmationToken)
      requires Valid()
      modifies this
      ensures Valid() && tokens == old(tokens)[t.token := t]
    {
      tokens := tokens[t.token := t];
    }

    method FindByToken(token: string) returns (r: Option<ConfirmationToken>)
      ensures r == if token in tokens then Some(tokens[token]) else None
    {
      r := if token in tokens then Some(tokens[token]) else None;
    }
  }

  class ConfirmationTokenService {
    const repo: TokenRepository

    constructor (repo: TokenRepository)
      ensures this.repo == repo
    {
      this.repo := repo;
    }

    /** `save`: stores the token and hands back the very same token. */
    method Save(t: ConfirmationToken) returns (r: ConfirmationToken)
      requires repo.Valid()
      modifies repo
      ensures repo.Valid() && repo.tokens == old(repo.tokens)[t.token := t]
      ensures r == t
    {
      repo.Save(t);
      r := t;
    }

    /** `confirmToken`: on success the row is marked used at `now` and
        stored; on any failure the table is left as it was. */
    method ConfirmToken(token: string, now: Instant) returns (c: Confirmation)
      requires repo.Valid()
      modifies repo
      ensures repo.Valid()
      ensures c == ConfirmOutcome(if token in old(repo.tokens) then Some(old(repo.tokens)[token]) else None, now)
      ensures c.Invalid? ==> repo.tokens == old(repo.tokens)
      ensures c.Confirmed? ==> repo.tokens == old(repo.tokens)[token := c.t]
      ensures c.Confirmed? ==> c.t.token == token && c.t.confirmedAt == Some(now)
    {
      var found := repo.FindByToken(token);
      if found.None? {
        return Invalid(NotFound);
      }
      var t := found.value;
      if t.confirmedAt.Some? {
        return Invalid(AlreadyConfirmed);
      }
      if t.expiresAt < now {
        return Invalid(Expired);
      }
      t := t.(confirmedAt := Some(now));
      repo.Save(t);
      c := Confirmed(t);
    }
  }
}
