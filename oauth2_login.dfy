// Sign-in through an external identity provider (`loadUser`). A known
// email signs in unless its user is locked; an unknown one becomes a new
// user on an account with room, enrolled on the gateway and given the
// default block rule. None of this runs in a transaction: each write
// stays done when a later step throws.
module OAuth2Login {

  import opened Wrappers
  import opened Entities
  import opened AccountService
  import opened PolicyService

  /** The providers `loadUser` accepts, by client registration id. */
  function ProviderOf(registrationId: string): (p: Option<AuthProvider>)
    ensures p == Some(GOOGLE) <==> registrationId == "google"
    ensures p == Some(FACEBOOK) <==> registrationId == "facebook"
    ensures p.None? <==> registrationId != "google" && registrationId != "facebook"
  {
    if registrationId == "google" then Some(GOOGLE)
    else if registrationId == "facebook" then Some(FACEBOOK)
    else None
  }

  /** The user a first sign-in creates: enabled at once (the provider
      vouches for the email), not set up, not locked, and with the encoding
      of a random password that no one knows. */
  function NewSocialUser(email: Email, encodedRandom: string, accountId: string, provider: AuthProvider): (u: User)
    requires provider != LOCAL
    ensures u.email == email && u.password == encodedRandom && u.accountId == accountId
    ensures u.role == USER && u.authProvider == provider && u.authProvider != LOCAL
    ensures !u.isSetUp && u.enabled && !u.locked
  {
    User(email, encodedRandom, false, accountId, USER, false, true, provider)
  }

  /** Why `loadUser` throws `OAuth2AuthenticationException`; `GatewayFailure`
      stands for an exception out of the enrollment update or the default
      rule. */
  datatype LoginError = UnsupportedProvider | AccountLocked | NoMoreSlots | GatewayFailure

  /** The principal `loadUser` returns, or the exception. */
  datatype Login = SignedIn(user: User) | Refused(error: LoginError)

  /** The writes of a first sign-in, step by step. When the enrollment
      update fails nothing is written and no rule is attempted. Otherwise
      the account's count and the user stay written, whatever becomes of the
      default rule, whose creation `outcome` reports. */
  ghost predicate FirstSignIn(enrollCurrent: Remote<Option<seq<Include>>>, enrollPut: Remote<string>,
                              usersBefore: map<Email, User>, usersAfter: map<Email, User>,
                              accountsBefore: map<string, Account>, accountsAfter: map<string, Account>,
                              rowsBefore: map<string, Policy>, rowsAfter: map<string, Policy>,
                              account: Account, user: User, uniqueId: string, post: Remote<string>,
                              replies: AllowAllReplies, outcome: Option<Outcome>)
    requires |uniqueId| == SuffixLength
  {
    if enrollCurrent.Reply? && enrollPut.Reply? then
      usersAfter == usersBefore[user.email := user]
      && accountsAfter == accountsBefore[account.accountId := account.(userNum := account.userNum + 1)]
      && outcome.Some?
      && Created(rowsBefore, rowsAfter, DefaultPolicy(), user, uniqueId, post, replies, outcome.value)
    else
      outcome.None? && usersAfter == usersBefore && accountsAfter == accountsBefore && rowsAfter == rowsBefore
  }

  class OAuth2UserService {
    const users: UserRepository
    const accounts: AccountRepository
    const accountService: AccountService
    const policyService: PolicyService

    constructor (users: UserRepository, accounts: AccountRepository, accountService: AccountService,
                 policyService: PolicyService)
      ensures this.users == users && this.accounts == accounts
      ensures this.accountService == accountService && this.policyService == policyService
    {
      this.users := users;
      this.accounts := accounts;
      this.accountService := accountService;
      this.policyService := policyService;
    }

    /** `loadUser`. `email` is the provider's email attribute,
        `encodedRandom` the encoding of a random password, `uniqueId` the
        random rule-name suffix; the rest are the gateway's replies.
        `slot` is the account a new user is bound to and `outcome` what
        became of its default rule. */
    method LoadUser(registrationId: string, email: Email, encodedRandom: string,
                    enrollCurrent: Remote<Option<seq<Include>>>, enrollPut: Remote<string>,
                    uniqueId: string, post: Remote<string>, replies: AllowAllReplies)
      returns (r: Login, ghost slot: Option<Account>, ghost outcome: Option<Outcome>)
      requires |uniqueId| == SuffixLength
      requires accountService.repo == accounts
      requires users.Valid() && accounts.Valid() && policyService.repo.Valid()
      modifies users, accounts, policyService.repo
      ensures users.Valid() && accounts.Valid() && policyService.repo.Valid()
      ensures r == Refused(UnsupportedProvider) <==> ProviderOf(registrationId).None?
      ensures r == Refused(NoMoreSlots) <==>
        ProviderOf(registrationId).Some? && email !in old(users.users)
        && forall id :: id in old(accounts.accounts) ==> old(accounts.accounts)[id].userNum >= AccountCapacity
      ensures ProviderOf(registrationId).Some? && email in old(users.users) ==>
        r == (if old(users.users)[email].locked then Refused(AccountLocked) else SignedIn(old(users.users)[email]))
      ensures slot.None? ==>
        users.users == old(users.users) && accounts.accounts == old(accounts.accounts)
        && policyService.repo.rows == old(policyService.repo.rows)
      ensures slot.Some? <==>
        ProviderOf(registrationId).Some? && email !in old(users.users) && r != Refused(NoMoreSlots)
      ensures slot.Some? ==>
        slot.value.accountId in old(accounts.accounts) && old(accounts.accounts)[slot.value.accountId] == slot.value
        && slot.value.userNum < AccountCapacity
      ensures slot.Some? ==>
        var user := NewSocialUser(email, encodedRandom, slot.value.accountId, ProviderOf(registrationId).value);
        FirstSignIn(enrollCurrent, enrollPut, old(users.users), users.users, old(accounts.accounts), accounts.accounts,
                    old(policyService.repo.rows), policyService.repo.rows, slot.value, user, uniqueId, post,
                    replies, outcome)
        && (r == SignedIn(user) <==> outcome == Some(Ok))
        && (r != SignedIn(user) ==> r == Refused(GatewayFailure))
    {
      var refusal, known, found := Screen(registrationId, email);
      if refusal.Some? {
        assert refusal.value == NoMoreSlots || email in users.users || ProviderOf(registrationId).None?;
        return Refused(refusal.value), None, None;
      }
      if known.Some? {
        return SignedIn(known.value), None, None;
      }
      slot := found;
      var user := NewSocialUser(email, encodedRandom, found.value.accountId, ProviderOf(registrationId).value);
      var ok;
      ok, outcome := SignUp(found.value, user, enrollCurrent, enrollPut, uniqueId, post, replies);
      r := if ok then SignedIn(user) else Refused(GatewayFailure);
    }

    /** The checks of `loadUser`, in order: the provider must be supported,
        a known user must not be locked, and an unknown email needs an
        account with room. Nothing is written. */
    method Screen(registrationId: string, email: Email)
      returns (refusal: Option<LoginError>, known: Option<User>, found: Option<Account>)
      requires users.Valid() && accounts.Valid()
      ensures refusal == Some(UnsupportedProvider) <==> ProviderOf(registrationId).None?
      ensures refusal == Some(AccountLocked) <==>
        ProviderOf(registrationId).Some? && email in users.users && users.users[email].locked
      ensures refusal == Some(NoMoreSlots) <==>
        ProviderOf(registrationId).Some? && email !in users.users
        && forall id :: id in accounts.accounts ==> accounts.accounts[id].userNum >= AccountCapacity
      ensures refusal != Some(GatewayFailure)
      ensures known.Some? <==> refusal.None? && email in users.users
      ensures known.Some? ==> known.value == users.users[email]
      ensures found.Some? <==> refusal.None? && email !in users.users
      ensures found.Some? ==>
        found.value.accountId in accounts.accounts && accounts.accounts[found.value.accountId] == found.value
        && found.value.userNum < AccountCapacity
    {
      known, found := None, None;
      if ProviderOf(registrationId).None? {
        return Some(UnsupportedProvider), known, found;
      }
      var existing := users.FindByEmail(email);
      if existing.Some? {
        if existing.value.locked {
          return Some(AccountLocked), known, found;
        }
        return None, existing, found;
      }
      found := accounts.FindFirstByUserNumIsLessThan(AccountCapacity);
      refusal := if found.None? then Some(NoMoreSlots) else None;
    }

    /** The writing part of a first sign-in: the enrollment update, the
        user, then the default rule. */
    method SignUp(account: Account, user: User, enrollCurrent: Remote<Option<seq<Include>>>,
                  enrollPut: Remote<string>, uniqueId: string, post: Remote<string>, replies: AllowAllReplies)
      returns (ok: bool, ghost outcome: Option<Outcome>)
      requires |uniqueId| == SuffixLength
      requires accountService.repo == accounts
      requires users.Valid() && accounts.Valid() && policyService.repo.Valid()
      modifies users, accounts, policyService.repo
      ensures users.Valid() && accounts.Valid() && policyService.repo.Valid()
      ensures ok <==> outcome == Some(Ok)
      ensures FirstSignIn(enrollCurrent, enrollPut, old(users.users), users.users,
                          old(accounts.accounts), accounts.accounts,
                          old(policyService.repo.rows), policyService.repo.rows,
                          account, user, uniqueId, post, replies, outcome)
    {
      var added, calls := accountService.UpdateEnrollmentPolicyAddEmail(account, user.email, enrollCurrent, enrollPut);
      if added.None? {
        return false, None;
      }
      users.Save(user);
      var created := policyService.CreateDefaultPolicy(user, uniqueId, post, replies);
      ok, outcome := created == Ok, Some(created);
    }
  }
}
