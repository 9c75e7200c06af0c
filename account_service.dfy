// The account pool: registering a gateway account (idempotent, with a
// get-or-create lookup of its enrollment application and policy) and
// adding an email to the account's enrollment include-list, which counts
// one more user of the account. Each gateway reply the service reads is
// an input; the requests it issues are returned as a list of `Call`s.
module AccountService {

  import opened Wrappers
  import opened Entities

  /** A policy of an access application, with the two fields read
      (`asText`/`asInt` of a missing field give "" and 0). */
  datatype AccessPolicy = AccessPolicy(id: string, precedence: int)

  /** An access application of the account. */
  datatype App = App(id: string, appType: string, policies: seq<AccessPolicy>)

  /** The application listing: whether the status was exactly 200, and the
      applications of its `result`. */
  datatype Listing = Listing(statusOk: bool, apps: seq<App>)

  /** An entry of the enrollment policy's include-list: whether it has an
      `email` key, and the text at `email.email` ("" when missing). */
  datatype Include = Include(hasEmail: bool, email: string)

  /** The body of an enrollment-policy POST or PUT; `includes` lists the
      emails of its `{"email": {"email": e}}` entries, in order. */
  datatype PolicyBody = PolicyBody(name: string, decision: string, includes: seq<string>)

  /** The gateway requests the service issues. */
  datatype Call =
    | ListApps(accountId: string)
    | CreateApp(accountId: string, name: string, appType: string, sessionDuration: string)
    | CreatePolicy(accountId: string, appId: string, body: PolicyBody)
    | GetPolicy(accountId: string, appId: string, policyId: string)
    | PutPolicy(accountId: string, appId: string, policyId: string, body: PolicyBody)

  predicate IsWarp(a: App)
  {
    a.appType == "warp"
  }

  /** The index of the first warp application, `|apps|` when there is none. */
  function FirstWarp(apps: seq<App>): (k: nat)
    ensures k <= |apps|
    ensures forall j :: 0 <= j < k ==> !IsWarp(apps[j])
    ensures k < |apps| ==> IsWarp(apps[k])
  {
    if apps == [] then 0
    else if IsWarp(apps[0]) then 0
    else 1 + FirstWarp(apps[1..])
  }

  /** The index of the first policy of precedence 1, `|ps|` when there is none. */
  function FirstPrecedenceOne(ps: seq<AccessPolicy>): (m: nat)
    ensures m <= |ps|
    ensures forall j :: 0 <= j < m ==> ps[j].precedence != 1
    ensures m < |ps| ==> ps[m].precedence == 1
  {
    if ps == [] then 0
    else if ps[0].precedence == 1 then 0
    else 1 + FirstPrecedenceOne(ps[1..])
  }

  /** A warp application with a policy of precedence 1. */
  predicate Enrolls(a: App)
  {
    IsWarp(a) && FirstPrecedenceOne(a.policies) < |a.policies|
  }

  /** The index of the first application that `Enrolls`, `|apps|` when none does. */
  function FirstEnrolling(apps: seq<App>): (k: nat)
    ensures k <= |apps|
    ensures forall j :: 0 <= j < k ==> !Enrolls(apps[j])
    ensures k < |apps| ==> Enrolls(apps[k])
  {
    if apps == [] then 0
    else if Enrolls(apps[0]) then 0
    else 1 + FirstEnrolling(apps[1..])
  }

  /** `getWarpApplicationId`: the id of the first warp application of a
      200 listing, `None` (null) otherwise. */
  function WarpIdOf(l: Listing): (r: Option<string>)
    ensures r.None? <==> !l.statusOk || forall j :: 0 <= j < |l.apps| ==> !IsWarp(l.apps[j])
  {
    var k := FirstWarp(l.apps);
    if l.statusOk && k < |l.apps| then Some(l.apps[k].id) else None
  }

  /** `getEnrollmentPolicyId`: the id of the first precedence-1 policy of
      the first warp application that has one, in a 200 listing. */
  function EnrollmentPolicyIdOf(l: Listing): (r: Option<string>)
    ensures r.None? <==> !l.statusOk || forall j :: 0 <= j < |l.apps| ==> !Enrolls(l.apps[j])
  {
    var k := FirstEnrolling(l.apps);
    if l.statusOk && k < |l.apps| then
      Some(l.apps[k].policies[FirstPrecedenceOne(l.apps[k].policies)].id)
    else None
  }

  /** `buildPolicyRequestBody`: the body of a new enrollment policy. */
  function NewEnrollmentBody(email: string): (b: PolicyBody)
    ensures b.name == "Allow" && b.decision == "allow" && b.includes == [email]
  {
    PolicyBody("Allow", "allow", [email])
  }

  /** The emails of the include entries that have an `email` key, in order. */
  function EmailsOf(xs: seq<Include>): (es: seq<string>)
    ensures |es| <= |xs|
  {
    if xs == [] then []
    else EmailsOf(xs[..|xs| - 1]) + (if xs[|xs| - 1].hasEmail then [xs[|xs| - 1].email] else [])
  }

  /** The kept entries follow the order of the list: filtering a
      concatenation concatenates the filtered parts. */
  lemma {:induction false} EmailsOfAppend(xs: seq<Include>, ys: seq<Include>)
    ensures EmailsOf(xs + ys) == EmailsOf(xs) + EmailsOf(ys)
    decreases |ys|
  {
    if ys == [] {
      assert xs + ys == xs;
    } else {
      var zs := ys[..|ys| - 1];
      assert (xs + ys)[..|xs + ys| - 1] == xs + zs;
      assert (xs + ys)[|xs + ys| - 1] == ys[|ys| - 1];
      EmailsOfAppend(xs, zs);
    }
  }

  /** An email is kept exactly when some entry with an `email` key holds it. */
  lemma {:induction false} EmailsOfMember(xs: seq<Include>, e: string)
    ensures e in EmailsOf(xs) <==> exists i :: 0 <= i < |xs| && xs[i].hasEmail && xs[i].email == e
    decreases |xs|
  {
    if xs != [] {
      var p := xs[..|xs| - 1];
      EmailsOfMember(p, e);
      if exists i :: 0 <= i < |p| && p[i].hasEmail && p[i].email == e {
        var i :| 0 <= i < |p| && p[i].hasEmail && p[i].email == e;
        assert xs[i] == p[i];
      }
      if exists i :: 0 <= i < |xs| && xs[i].hasEmail && xs[i].email == e {
        var i :| 0 <= i < |xs| && xs[i].hasEmail && xs[i].email == e;
        if i < |p| {
          assert p[i] == xs[i];
        }
      }
    }
  }

  /** Every entry with an email is kept, none is merged: the list keeps
      one email per such entry. */
  lemma {:induction false} EmailsOfCount(xs: seq<Include>)
    ensures |EmailsOf(xs)| == |set i | 0 <= i < |xs| && xs[i].hasEmail|
    decreases |xs|
  {
    if xs != [] {
      var p := xs[..|xs| - 1];
      EmailsOfCount(p);
      var n := |xs| - 1;
      var before := set i | 0 <= i < |p| && p[i].hasEmail;
      var after := set i | 0 <= i < |xs| && xs[i].hasEmail;
      if xs[n].hasEmail {
        assert after == before + {n};
      } else {
        assert after == before;
      }
    }
  }

  /** The body of the PUT that adds `email`: the existing entries that
      have an email, in order, then the new one; no entry is merged. */
  function AddEmailBody(current: Option<seq<Include>>, email: string): (b: PolicyBody)
    ensures b.name == "Allow" && b.decision == "allow"
    ensures |b.includes| >= 1 && b.includes[|b.includes| - 1] == email
  {
    PolicyBody("Allow", "allow", (if current.Some? then EmailsOf(current.value) else []) + [email])
  }

  /** Every enrollment body the service sends is named "Allow" with
      decision "allow". */
  predicate AllowBodies(calls: seq<Call>)
  {
    forall c :: c in calls && (c.CreatePolicy? || c.PutPolicy?) ==>
      c.body.name == "Allow" && c.body.decision == "allow"
  }

  predicate CreatesApp(calls: seq<Call>)
  {
    exists c :: c in calls && c.CreateApp?
  }

  predicate CreatesPolicy(calls: seq<Call>)
  {
    exists c :: c in calls && c.CreatePolicy?
  }

  class AccountService {
    const repo: AccountRepository

    constructor (repo: AccountRepository)
      ensures this.repo == repo
    {
      this.repo := repo;
    }

    /** The loop of `getWarpApplicationId` over a listing already fetched. */
    method FindWarpApplicationId(l: Listing) returns (r: Option<string>)
      ensures r == WarpIdOf(l)
    {
      if !l.statusOk {
        return None;
      }
      var i := 0;
      while i < |l.apps|
        invariant i <= FirstWarp(l.apps)
      {
        if l.apps[i].appType == "warp" {
          return Some(l.apps[i].id);
        }
        i := i + 1;
      }
      return None;
    }

    /** The nested loop of `getEnrollmentPolicyId` over a listing already fetched. */
    method FindEnrollmentPolicyId(l: Listing) returns (r: Option<string>)
      ensures r == EnrollmentPolicyIdOf(l)
    {
      if !l.statusOk {
        return None;
      }
      var i := 0;
      while i < |l.apps|
        invariant i <= FirstEnrolling(l.apps)
      {
        var app := l.apps[i];
        if app.appType == "warp" {
          var j := 0;
          while j < |app.policies|
            invariant j <= FirstPrecedenceOne(app.policies)
          {
            if app.policies[j].precedence == 1 {
              return Some(app.policies[j].id);
            }
            j := j + 1;
          }
        }
        i := i + 1;
      }
      return None;
    }

    /** `createAccount`: an account already stored is left as it is, with
        no gateway request; otherwise the enrollment application and policy
        are looked up (or created when absent) and the account is saved with
        both ids and no users. `apps` and `policies` are the replies to the
        two listings, `appCreated` and `policyCreated` the ids the two
        POSTs return. Nothing is saved when a request throws. */
    method CreateAccount(account: Account, apps: Remote<Listing>, appCreated: Remote<string>,
                         policies: Remote<Listing>, policyCreated: Remote<string>)
      returns (r: Option<string>, calls: seq<Call>)
      requires repo.Valid()
      modifies repo
      ensures repo.Valid()
      ensures account.accountId in old(repo.accounts) ==>
        r == Some(account.accountId) && calls == [] && repo.accounts == old(repo.accounts)
      ensures r.None? ==> repo.accounts == old(repo.accounts)
      ensures r.Some? ==> r.value == account.accountId && account.accountId in repo.accounts
      ensures account.accountId !in old(repo.accounts) && r.Some? ==>
        var saved := repo.accounts[account.accountId];
        repo.accounts == old(repo.accounts)[account.accountId := saved]
        && saved == account.(enrollmentApplicationId := saved.enrollmentApplicationId,
                             enrollmentPolicyId := saved.enrollmentPolicyId, userNum := 0)
        && apps.Reply? && policies.Reply?
        && (if WarpIdOf(apps.body).Some? then saved.enrollmentApplicationId == WarpIdOf(apps.body).value
            else appCreated == Reply(saved.enrollmentApplicationId))
        && (if EnrollmentPolicyIdOf(policies.body).Some?
            then saved.enrollmentPolicyId == EnrollmentPolicyIdOf(policies.body).value
            else policyCreated == Reply(saved.enrollmentPolicyId))
      ensures CreatesApp(calls) ==> apps.Reply? && WarpIdOf(apps.body).None?
      ensures CreatesPolicy(calls) ==> policies.Reply? && EnrollmentPolicyIdOf(policies.body).None?
      ensures AllowBodies(calls)
    {
      var found := repo.FindByAccountId(account.accountId);
      if found.Some? {
        return Some(found.value.accountId), [];
      }
      var id := account.accountId;
      // getOrCreateEnrollmentApplication
      calls := [ListApps(id)];
      if apps.Failed? {
        return None, calls;
      }
      var appId := FindWarpApplicationId(apps.body);
      if appId.None? {
        calls := calls + [CreateApp(id, account.email, "warp", "24h")];
        if appCreated.Failed? {
          return None, calls;
        }
        appId := Some(appCreated.body);
      }
      var acc := account.(enrollmentApplicationId := appId.value);
      // getOrCreateEnrollmentPolicy
      calls := calls + [ListApps(id)];
      if policies.Failed? {
        return None, calls;
      }
      var policyId := FindEnrollmentPolicyId(policies.body);
      if policyId.None? {
        calls := calls + [CreatePolicy(id, acc.enrollmentApplicationId, NewEnrollmentBody(acc.email))];
        if policyCreated.Failed? {
          return None, calls;
        }
        policyId := Some(policyCreated.body);
      }
      acc := acc.(enrollmentPolicyId := policyId.value, userNum := 0);
      repo.Save(acc);
      r := Some(acc.accountId);
    }

    /** `updateEnrollmentPolicyAddEmail`: reads the account's enrollment
        policy, PUTs it back with `email` appended to its include-list, and
        only once the PUT has returned saves the account with one more
        user. `current` is the include array of the policy read (`None`
        when it is not an array) and `put` the body of the PUT's reply. */
    method UpdateEnrollmentPolicyAddEmail(acc: Account, email: string,
                                          current: Remote<Option<seq<Include>>>, put: Remote<string>)
      returns (r: Option<string>, calls: seq<Call>)
      requires repo.Valid()
      modifies repo
      ensures repo.Valid()
      ensures r.Some? <==> current.Reply? && put.Reply?
      ensures r.None? ==> repo.accounts == old(repo.accounts)
      ensures r.Some? ==>
        r.value == put.body
        && repo.accounts == old(repo.accounts)[acc.accountId := acc.(userNum := acc.userNum + 1)]
      ensures current.Reply? ==>
        calls == [GetPolicy(acc.accountId, acc.enrollmentApplicationId, acc.enrollmentPolicyId),
                  PutPolicy(acc.accountId, acc.enrollmentApplicationId, acc.enrollmentPolicyId,
                            AddEmailBody(current.body, email))]
      ensures AllowBodies(calls)
    {
      var body, c := UpdatePolicyWithEmail(acc, email, current);
      calls := c;
      if body.None? {
        return None, calls;
      }
      if put.Failed? {
        return None, calls;
      }
      repo.Save(acc.(userNum := acc.userNum + 1));
      r := Some(put.body);
    }

    /** The request part of `updatePolicyWithEmail`: the GET of the current
        policy, and the body of the PUT built by the include loop. */
    method UpdatePolicyWithEmail(acc: Account, email: string, current: Remote<Option<seq<Include>>>)
      returns (body: Option<PolicyBody>, calls: seq<Call>)
      ensures current.Failed? ==> body.None?
      ensures current.Reply? ==> body == Some(AddEmailBody(current.body, email))
      ensures calls == [GetPolicy(acc.accountId, acc.enrollmentApplicationId, acc.enrollmentPolicyId)]
                       + (if current.Reply? then [PutPolicy(acc.accountId, acc.enrollmentApplicationId,
                                                            acc.enrollmentPolicyId, body.value)]
                          else [])
    {
      calls := [GetPolicy(acc.accountId, acc.enrollmentApplicationId, acc.enrollmentPolicyId)];
      if current.Failed? {
        return None, calls;
      }
      var includeList: seq<string> := [];
      if current.body.Some? {
        var xs := current.body.value;
        var i := 0;
        while i < |xs|
          invariant i <= |xs|
          invariant includeList == EmailsOf(xs[..i])
        {
          assert xs[..i + 1][..i] == xs[..i];
          if xs[i].hasEmail {
            includeList := includeList + [xs[i].email];
          }
          i := i + 1;
        }
        assert xs[..i] == xs;
      }
      includeList := includeList + [email];
      var b := PolicyBody("Allow", "allow", includeList);
      body := Some(b);
      calls := calls + [PutPolicy(acc.accountId, acc.enrollmentApplicationId, acc.enrollmentPolicyId, b)];
    }
  }
}
