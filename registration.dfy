// Local sign-up and password reset. `register` runs its checks in a fixed
// order, claims a slot on a gateway account with room for another user,
// adds the email to that account's enrollment include-list, stores the
// user and a verification token, and creates the user's default block
// rule. It runs in one transaction: when a later step throws, every local
// write is rolled back, while what the gateway already did stays done.
module Registration {

  import opened Wrappers
  import opened Entities
  import opened EmailValidator
  import opened ConfirmationTokens
  import opened AccountService
  import opened PolicyService

  /** A sign-up request; `email` is `None` for a null email. */
  datatype RegisterRequest = RegisterRequest(email: Option<string>, password: string)

  /** How `register` ends: the success message, one of its three error
      replies, or an exception out of a later step. */
  datatype RegisterResponse = Registered | EmailInvalid | EmailExists | NoMoreSlots | Aborted

  /** `createUser`: a local user of the account, not set up, with the
      encoded password; not locked and not yet enabled. */
  function NewUser(email: Email, encodedPassword: string, accountId: string): (u: User)
    ensures u.email == email && u.password == encodedPassword && u.accountId == accountId
    ensures u.role == USER && u.authProvider == LOCAL && !u.isSetUp
    ensures !u.locked && !u.enabled
  {
    User(email, encodedPassword, false, accountId, USER, false, false, LOCAL)
  }

  /** The part of the replies `register` reads that decides whether it
      gets through: the enrollment update and the default rule. */
  ghost predicate RegisterSucceeds(enrollCurrent: Remote<Option<seq<Include>>>, enrollPut: Remote<string>,
                                   before: map<string, Policy>, after: map<string, Policy>, user: User,
                                   uniqueId: string, post: Remote<string>, replies: AllowAllReplies)
    requires |uniqueId| == SuffixLength
  {
    enrollCurrent.Reply? && enrollPut.Reply?
    && Created(before, after, DefaultPolicy(), user, uniqueId, post, replies, Ok)
  }

  /** The local writes of a successful `register`: the user stored under
      its email, the account's user count one higher, and a verification
      token stored under its text. */
  ghost predicate Enrolled(usersBefore: map<Email, User>, usersAfter: map<Email, User>,
                           accountsBefore: map<string, Account>, accountsAfter: map<string, Account>,
                           tokensBefore: map<string, ConfirmationToken>, tokensAfter: map<string, ConfirmationToken>,
                           account: Account, user: User, token: string, now: Instant)
  {
    usersAfter == usersBefore[user.email := user]
    && accountsAfter == accountsBefore[account.accountId := account.(userNum := account.userNum + 1)]
    && tokensAfter == tokensBefore[token := NewToken(token, EMAIL_VERIFICATION, user.email, now)]
  }

  /** `register` only binds a user to an account below capacity, so no
      account ever holds more than `AccountCapacity` users. */
  lemma CapacityKept(usersBefore: map<Email, User>, usersAfter: map<Email, User>,
                     accountsBefore: map<string, Account>, accountsAfter: map<string, Account>,
                     tokensBefore: map<string, ConfirmationToken>, tokensAfter: map<string, ConfirmationToken>,
                     account: Account, user: User, token: string, now: Instant)
    requires Enrolled(usersBefore, usersAfter, accountsBefore, accountsAfter, tokensBefore, tokensAfter,
                      account, user, token, now)
    requires account.userNum < AccountCapacity
    requires forall id :: id in accountsBefore ==> accountsBefore[id].userNum <= AccountCapacity
    ensures forall id :: id in accountsAfter ==> accountsAfter[id].userNum <= AccountCapacity
    ensures user.email in usersAfter && usersAfter[user.email] == user
  {
  }

  class AuthenticationService {
    const users: UserRepository
    const accounts: AccountRepository
    const accountService: AccountService
    const policyService: PolicyService
    const tokens: ConfirmationTokenService

    constructor (users: UserRepository, accounts: AccountRepository, accountService: AccountService,
                 policyService: PolicyService, tokens: ConfirmationTokenService)
      ensures this.users == users && this.accounts == accounts && this.accountService == accountService
      ensures this.policyService == policyService && this.tokens == tokens
    {
      this.users := users;
      this.accounts := accounts;
      this.accountService := accountService;
      this.policyService := policyService;
      this.tokens := tokens;
    }

    /** `register`. `encoded` is what the password encoder makes of the
        request's password, `now` the clock,
        `token` the random token text and `uniqueId` the random rule-name
        suffix; the rest are the gateway's replies to the enrollment
        update and to the default rule's creation. `slot` is the account
        the user was bound to. */
    method Register(request: RegisterRequest, encoded: string, now: Instant, token: string,
                    enrollCurrent: Remote<Option<seq<Include>>>, enrollPut: Remote<string>,
                    uniqueId: string, post: Remote<string>, replies: AllowAllReplies)
      returns (response: RegisterResponse, ghost slot: Option<Account>)
      requires |uniqueId| == SuffixLength
      requires accountService.repo == accounts
      requires users.Valid() && accounts.Valid() && policyService.repo.Valid() && tokens.repo.Valid()
      modifies users, accounts, policyService.repo, tokens.repo
      ensures users.Valid() && accounts.Valid() && policyService.repo.Valid() && tokens.repo.Valid()
      ensures response == EmailInvalid <==> !Test(request.email)
      ensures response == EmailExists <==> Test(request.email) && request.email.value in old(users.users)
      ensures response == NoMoreSlots <==>
        Test(request.email) && request.email.value !in old(users.users)
        && forall id :: id in old(accounts.accounts) ==> old(accounts.accounts)[id].userNum >= AccountCapacity
      ensures response != Registered ==>
        users.users == old(users.users) && accounts.accounts == old(accounts.accounts)
        && policyService.repo.rows == old(policyService.repo.rows) && tokens.repo.tokens == old(tokens.repo.tokens)
      ensures response == Registered ==>
        slot.Some? && slot.value.accountId in old(accounts.accounts)
        && old(accounts.accounts)[slot.value.accountId] == slot.value
        && slot.value.userNum < AccountCapacity
        && var user := NewUser(request.email.value, encoded, slot.value.accountId);
        Enrolled(old(users.users), users.users, old(accounts.accounts), accounts.accounts,
                 old(tokens.repo.tokens), tokens.repo.tokens, slot.value, user, token, now)
        && RegisterSucceeds(enrollCurrent, enrollPut, old(policyService.repo.rows), policyService.repo.rows,
                            user, uniqueId, post, replies)
      ensures response == Aborted ==> slot.Some?
      ensures response == Aborted ==>
        !RegisterSucceeds(enrollCurrent, enrollPut, old(policyService.repo.rows), policyService.repo.rows,
                          NewUser(request.email.value, encoded, slot.value.accountId),
                          uniqueId, post, replies)
    {
      var refusal, found := Screen(request);
      if refusal.Some? {
        return refusal.value, None;
      }
      slot := found;
      var user := NewUser(request.email.value, encoded, found.value.accountId);
      var ok := Enroll(found.value, user, now, token, enrollCurrent, enrollPut, uniqueId, post, replies);
      response := if ok then Registered else Aborted;
    }

    /** The checks of `register`, in order: the email must pass the
        validator, must not be taken, and some account must have room for
        another user; `found` is the first such account. Nothing is written. */
    method Screen(request: RegisterRequest) returns (refusal: Option<RegisterResponse>, found: Option<Account>)
      requires users.Valid() && accounts.Valid()
      ensures refusal == Some(EmailInvalid) <==> !Test(request.email)
      ensures refusal == Some(EmailExists) <==> Test(request.email) && request.email.value in users.users
      ensures refusal == Some(NoMoreSlots) <==>
        Test(request.email) && request.email.value !in users.users
        && forall id :: id in accounts.accounts ==> accounts.accounts[id].userNum >= AccountCapacity
      ensures refusal.Some? ==> refusal.value != Registered && refusal.value != Aborted
      ensures refusal.None? <==> found.Some?
      ensures found.Some? ==>
        Test(request.email) && found.value.accountId in accounts.accounts
        && accounts.accounts[found.value.accountId] == found.value && found.value.userNum < AccountCapacity
    {
      found := None;
      if !Test(request.email) {
        return Some(EmailInvalid), found;
      }
      var existing := users.FindByEmail(request.email.value);
      if existing.Some? {
        return Some(EmailExists), found;
      }
      found := accounts.FindFirstByUserNumIsLessThan(AccountCapacity);
      refusal := if found.None? then Some(NoMoreSlots) else None;
    }

    /** The writing part of `register`, from the enrollment update on, as
        one transaction: either every step gets through, or nothing local
        has changed. */
    method Enroll(account: Account, user: User, now: Instant, token: string,
                  enrollCurrent: Remote<Option<seq<Include>>>, enrollPut: Remote<string>,
                  uniqueId: string, post: Remote<string>, replies: AllowAllReplies)
      returns (ok: bool)
      requires |uniqueId| == SuffixLength
      requires accountService.repo == accounts
      requires users.Valid() && accounts.Valid() && policyService.repo.Valid() && tokens.repo.Valid()
      modifies users, accounts, policyService.repo, tokens.repo
      ensures users.Valid() && accounts.Valid() && policyService.repo.Valid() && tokens.repo.Valid()
      ensures ok == RegisterSucceeds(enrollCurrent, enrollPut, old(policyService.repo.rows), policyService.repo.rows,
                                     user, uniqueId, post, replies)
      ensures !ok ==>
        users.users == old(users.users) && accounts.accounts == old(accounts.accounts)
        && policyService.repo.rows == old(policyService.repo.rows) && tokens.repo.tokens == old(tokens.repo.tokens)
      ensures ok ==>
        Enrolled(old(users.users), users.users, old(accounts.accounts), accounts.accounts,
                 old(tokens.repo.tokens), tokens.repo.tokens, account, user, token, now)
    {
      // the state the transaction rolls back to
      var usersBefore, accountsBefore := users.users, accounts.accounts;
      var rowsBefore, tokensBefore := policyService.repo.rows, tokens.repo.tokens;

      var added, calls := accountService.UpdateEnrollmentPolicyAddEmail(account, user.email, enrollCurrent, enrollPut);
      if added.None? {
        return false;
      }
      users.Save(user);
      var saved := tokens.Save(NewToken(token, EMAIL_VERIFICATION, user.email, now));
      // the verification mail is sent asynchronously and cannot make this call fail
      var outcome := policyService.CreateDefaultPolicy(user, uniqueId, post, replies);
      if outcome != Ok {
        // the exception rolls back every write of this transaction
        users.users := usersBefore;
        accounts.accounts := accountsBefore;
        policyService.repo.rows := rowsBefore;
        tokens.repo.tokens := tokensBefore;
        return false;
      }
      ok := true;
    }

    /** `forgotPassword`: a known email gets a password-reset token valid
        for 15 minutes; an unknown one changes nothing. */
    method ForgotPassword(email: Email, now: Instant, token: string)
      requires users.Valid() && tokens.repo.Valid()
      modifies tokens.repo
      ensures tokens.repo.Valid()
      ensures email !in users.users ==> tokens.repo.tokens == old(tokens.repo.tokens)
      ensures email in users.users ==>
        tokens.repo.tokens == old(tokens.repo.tokens)[token := NewToken(token, PASSWORD_RESET, email, now)]
    {
      var found := users.FindByEmail(email);
      if found.Some? {
        var saved := tokens.Save(NewToken(token, PASSWORD_RESET, found.value.email, now));
      }
    }
  }
}
