// The policy synchroniser: a user's block rules live on the gateway and are
// mirrored in the local policy table. Creating, updating and deleting a
// rule writes the mirror only after the gateway call returns, and each such
// change refreshes the user's derived allow-all rule.
//
// Every gateway call is an input: `Failed` when the call threw, otherwise
// the part of the reply the service reads (a new rule's id, a `success`
// flag, or the list of the account's rules). The current user is passed
// explicitly and is identified by email.
module PolicyService {

  import opened Wrappers
  import opened TrafficText
  import opened Entities
  import opened AllowAll

  /** The number of stored rules at which `createPolicy` refuses. */
  const PolicyLimit: nat := 10

  /** Length of the random suffix of a generated rule name. */
  const SuffixLength: nat := 8

  /** A rule as the gateway lists it. */
  datatype GatewayRule = GatewayRule(id: string, name: string, action: string, traffic: string)

  /** The gateway's answers to the calls of one allow-all refresh: the
      listing of the account's rules, the creation of a new allow-all rule,
      and the update of the allow-all rule (its `success` flag). */
  datatype AllowAllReplies = AllowAllReplies(
    list: Remote<seq<GatewayRule>>,
    create: Remote<string>,
    put: Remote<bool>)

  /** How an operation ends: normally, or with the exception it throws. */
  datatype Outcome = Ok | LimitReached | NotFound | Unauthorized | GatewayError | BadTraffic | NullReference

  /** The JSON body `buildPolicyRequestBody` sends for a rule: its action,
      name, traffic and schedule, always enabled, DNS only, and scoped to
      one identity by email. */
  datatype RuleBody = RuleBody(
    action: string,
    name: string,
    enabled: bool,
    identity: string,
    traffic: string,
    schedule: Option<Schedule>,
    filters: seq<string>)

  /** The identity selector `identity.email == "<email>"`; the email can be
      read back from between the quotes. */
  function IdentitySelector(email: Email): (s: string)
    ensures |s| == |email| + 20
    ensures s[19..|s| - 1] == email
  {
    assert forall e: Email :: ("identity.email == \"" + e + "\"")[19..|e| + 19] == e;
    "identity.email == \"" + email + "\""
  }

  /** `buildPolicyRequestBody`, with the email of the rule's user passed
      separately: `None` is a null user reference, on which the call
      throws. */
  function BuildPolicyRequestBody(p: Policy, owner: Option<Email>): (r: Option<RuleBody>)
    ensures r.None? <==> owner.None?
    ensures r.Some? ==> r.value.enabled && r.value.filters == ["dns"]
    ensures r.Some? ==> r.value.identity == IdentitySelector(owner.value)
    ensures r.Some? ==> (r.value.action, r.value.name, r.value.traffic, r.value.schedule)
                        == (p.action, p.name, p.traffic, p.schedule)
  {
    match owner
    case None => None
    case Some(email) =>
      Some(RuleBody(p.action, p.name, true, IdentitySelector(email), p.traffic, p.schedule, ["dns"]))
  }

  /** A `PUT` or `DELETE` whose reply must report `success`. */
  function Confirmed(reply: Remote<bool>): (o: Outcome)
    ensures o == Ok <==> reply == Reply(true)
    ensures o != Ok ==> o == GatewayError
  {
    if reply == Reply(true) then Ok else GatewayError
  }

  /** `generatePolicyName`: the owner's email, a dash, and a random suffix
      (the first eight characters of a UUID). */
  function GeneratePolicyName(email: Email, uniqueId: string): (name: string)
    requires |uniqueId| == SuffixLength
    ensures |name| == |email| + 1 + SuffixLength
    ensures name[..|email|] == email && name[|email|] == '-' && name[|email| + 1..] == uniqueId
  {
    email + "-" + uniqueId
  }

  /** The row `createPolicy(policy, user)` stores once the gateway answered
      with `id`: the request's rule, bound to the user and the user's
      account, renamed. */
  function Named(policy: Policy, user: User, uniqueId: string, id: string): (p: Policy)
    requires |uniqueId| == SuffixLength
  {
    policy.(id := id, user := user.email, cloudflareAccId := user.accountId,
            name := GeneratePolicyName(user.email, uniqueId))
  }

  /** The rule `createDefaultPolicy` submits: block the adult-themes and
      gambling content categories, at all times. */
  function DefaultPolicy(): (p: Policy)
  {
    Policy("", "", "block", DefaultTraffic, "", "", None, false)
  }

  /** `updatePolicy` copies exactly these four fields onto the stored rule. */
  function Edited(existing: Policy, updated: Policy): (p: Policy)
  {
    existing.(action := updated.action, name := updated.name,
              traffic := updated.traffic, schedule := updated.schedule)
  }

  /** An allow-all rule adopted from the gateway's listing. */
  function Adopted(rule: GatewayRule, user: User): (p: Policy)
  {
    Policy(rule.id, rule.name, rule.action, rule.traffic, user.accountId, user.email, None, true)
  }

  /** A new allow-all rule, as created on the gateway under id `id`. */
  function FreshAllowAll(id: string, user: User): (p: Policy)
  {
    Policy(id, user.email, "allow", "", user.accountId, user.email, None, true)
  }

  predicate HasAllowAll(rows: map<string, Policy>, u: Email)
  {
    exists id :: id in rows && rows[id].user == u && rows[id].isAllowAll
  }

  /** `k` is the first rule of the listing named `name`. */
  predicate FirstNamed(rules: seq<GatewayRule>, name: string, k: int)
  {
    0 <= k < |rules| && rules[k].name == name
    && forall j :: 0 <= j < k ==> rules[j].name != name
  }

  /** The effect of `ensureAllowAllPolicyExists` on the table and what it
      returns, tier by tier: a stored allow-all row of the user; else the
      first gateway rule named after the user, adopted; else a rule created
      on the gateway. A gateway failure ends it with nothing stored. */
  ghost predicate Ensured(before: map<string, Policy>, after: map<string, Policy>, user: User,
                          list: Remote<seq<GatewayRule>>, create: Remote<string>, r: Option<Policy>)
  {
    if HasAllowAll(before, user.email) then
      after == before && r.Some? && r.value.id in before && before[r.value.id] == r.value
      && r.value.user == user.email && r.value.isAllowAll
    else
      match list
      case Failed => after == before && r.None?
      case Reply(rules) =>
        if exists k :: 0 <= k < |rules| && rules[k].name == user.email then
          exists k :: FirstNamed(rules, user.email, k)
            && r == Some(Adopted(rules[k], user)) && after == before[rules[k].id := r.value]
        else
          match create
          case Failed => after == before && r.None?
          case Reply(id) => r == Some(FreshAllowAll(id, user)) && after == before[id := r.value]
  }

  /** The effect of `updateAllowAllPolicy`: the user's rules are read
      first, then the allow-all rule is ensured; its traffic is set to the
      composition of the ids blocked by the rules read, and stored, before
      the gateway is asked to update it. */
  ghost predicate AllowAllUpdated(before: map<string, Policy>, after: map<string, Policy>, user: User,
                                  replies: AllowAllReplies, outcome: Outcome)
  {
    exists mid, r :: Ensured(before, mid, user, replies.list, replies.create, r)
      && (r.None? ==> outcome == GatewayError && after == mid)
      && (r.Some? && !RowsParse(before, user.email) ==> outcome == BadTraffic && after == mid)
      && (r.Some? && RowsParse(before, user.email) ==>
            outcome == Confirmed(replies.put)
            && exists t :: AllowAllText(t, RowsBlockedAll(before, user.email))
                 && after == mid[r.value.id := r.value.(traffic := t)])
  }

  /** The effect of `createPolicy(policy, user)`: nothing when the POST
      fails; otherwise the named rule is stored under the returned id and
      the allow-all rule refreshed. */
  ghost predicate Created(before: map<string, Policy>, after: map<string, Policy>, policy: Policy,
                          user: User, uniqueId: string, post: Remote<string>,
                          replies: AllowAllReplies, outcome: Outcome)
    requires |uniqueId| == SuffixLength
  {
    match post
    case Failed => outcome == GatewayError && after == before
    case Reply(id) => AllowAllUpdated(before[id := Named(policy, user, uniqueId, id)], after, user, replies, outcome)
  }

  // ---------------------------------------------------------------------
  // Lemmas

  /** Every tier of `ensureAllowAllPolicyExists` yields an allow-all rule
      of the user that is stored; a failure stores nothing, and so does
      finding the rule locally. */
  lemma EnsuredFacts(before: map<string, Policy>, after: map<string, Policy>, user: User,
                     list: Remote<seq<GatewayRule>>, create: Remote<string>, r: Option<Policy>)
    requires Ensured(before, after, user, list, create, r)
    ensures r.Some? ==> r.value.isAllowAll && r.value.user == user.email
    ensures r.Some? ==> r.value.id in after && after[r.value.id] == r.value
    ensures r.None? || HasAllowAll(before, user.email) ==> after == before
    ensures r.Some? ==> forall id :: id != r.value.id ==>
      (id in after <==> id in before) && (id in before ==> after[id] == before[id])
  {
    if !HasAllowAll(before, user.email) && list.Reply? {
      var rules := list.body;
      if exists k :: 0 <= k < |rules| && rules[k].name == user.email {
        var k :| FirstNamed(rules, user.email, k)
          && r == Some(Adopted(rules[k], user)) && after == before[rules[k].id := r.value];
      }
    }
  }

  /** The ids blocked by a user's rules are 32-bit ints. */
  lemma RowsBlockedInt32(rows: map<string, Policy>, u: Email)
    ensures Int32Blocked(RowsBlockedAll(rows, u))
  {
    forall d, x | x in RowsBlocked(rows, u, d)
      ensures IsInt32(x)
    {
      var id :| id in rows && rows[id].user == u && !rows[id].isAllowAll
        && Extract(d, rows[id].traffic).Some? && x in Extract(d, rows[id].traffic).value;
      ExtractInt32(d, rows[id].traffic);
    }
  }

  /** Row `id` differs between the two tables. */
  ghost predicate Changed(before: map<string, Policy>, after: map<string, Policy>, id: string)
  {
    (id in after <==> id !in before) || (id in before && after[id] != before[id])
  }

  /** The intermediate table and the ensured rule of a refresh. */
  lemma UnpackUpdated(before: map<string, Policy>, after: map<string, Policy>, user: User,
                      replies: AllowAllReplies, outcome: Outcome)
    returns (mid: map<string, Policy>, r: Option<Policy>)
    requires AllowAllUpdated(before, after, user, replies, outcome)
    ensures r.Some? ==> r.value.isAllowAll && r.value.user == user.email
    ensures r.Some? ==> r.value.id in mid && mid[r.value.id] == r.value
    ensures r.None? || HasAllowAll(before, user.email) ==> mid == before
    ensures r.Some? ==> forall id :: id != r.value.id ==>
      (id in mid <==> id in before) && (id in before ==> mid[id] == before[id])
    ensures r.None? ==> outcome == GatewayError && after == mid
    ensures r.Some? && !RowsParse(before, user.email) ==> outcome == BadTraffic && after == mid
    ensures r.Some? && RowsParse(before, user.email) ==> outcome == Confirmed(replies.put)
    ensures r.Some? && RowsParse(before, user.email) ==>
      exists t :: AllowAllText(t, RowsBlockedAll(before, user.email))
        && after == mid[r.value.id := r.value.(traffic := t)]
  {
    mid, r :| Ensured(before, mid, user, replies.list, replies.create, r)
      && (r.None? ==> outcome == GatewayError && after == mid)
      && (r.Some? && !RowsParse(before, user.email) ==> outcome == BadTraffic && after == mid)
      && (r.Some? && RowsParse(before, user.email) ==>
            outcome == Confirmed(replies.put)
            && exists t :: AllowAllText(t, RowsBlockedAll(before, user.email))
                 && after == mid[r.value.id := r.value.(traffic := t)]);
    EnsuredFacts(before, mid, user, replies.list, replies.create, r);
  }

  /** An allow-all refresh changes at most one row, and that row is an
      allow-all row of the user, whatever the outcome. */
  lemma AllowAllUpdatedFrame(before: map<string, Policy>, after: map<string, Policy>, user: User,
                             replies: AllowAllReplies, outcome: Outcome)
    requires AllowAllUpdated(before, after, user, replies, outcome)
    ensures forall id :: Changed(before, after, id) ==>
      id in after && after[id].isAllowAll && after[id].user == user.email
    ensures forall id, id' :: Changed(before, after, id) && Changed(before, after, id') ==> id == id'
  {
    var mid, r := UnpackUpdated(before, after, user, replies, outcome);
    if r.Some? {
      var row := r.value;
      if RowsParse(before, user.email) {
        var t :| AllowAllText(t, RowsBlockedAll(before, user.email)) && after == mid[row.id := row.(traffic := t)];
        assert after[row.id] == row.(traffic := t);
      }
      assert row.id in after && after[row.id].isAllowAll && after[row.id].user == user.email;
      forall id | id != row.id
        ensures !Changed(before, after, id)
      {
        assert (id in after <==> id in mid) && (id in mid ==> after[id] == mid[id]);
      }
    }
  }

  /** A text composed for the user's blocked ids reads back those ids. */
  lemma AllowAllTextReadsBack(t: string, before: map<string, Policy>, u: Email)
    requires AllowAllText(t, RowsBlockedAll(before, u))
    ensures forall d :: Extract(d, t) == Some(RowsBlocked(before, u, d))
  {
    RowsBlockedInt32(before, u);
    forall d
      ensures Extract(d, t) == Some(RowsBlocked(before, u, d))
    {
      AllowAllRoundTrip(t, RowsBlockedAll(before, u), d);
    }
  }

  /** After a refresh that ends normally, the user's allow-all row reads
      back, in every kind, exactly the union of the ids blocked by the
      user's rules as they stood when the refresh began. */
  lemma AllowAllUpdatedOk(before: map<string, Policy>, after: map<string, Policy>, user: User,
                          replies: AllowAllReplies)
    requires AllowAllUpdated(before, after, user, replies, Ok)
    ensures replies.put == Reply(true) && RowsParse(before, user.email)
    ensures exists aid :: (aid in after && after[aid].isAllowAll && after[aid].user == user.email
      && forall d :: Extract(d, after[aid].traffic) == Some(RowsBlocked(before, user.email, d)))
  {
    var mid, r := UnpackUpdated(before, after, user, replies, Ok);
    var t :| AllowAllText(t, RowsBlockedAll(before, user.email))
      && after == mid[r.value.id := r.value.(traffic := t)];
    AllowAllTextReadsBack(t, before, user.email);
    var aid := r.value.id;
    assert after[aid].traffic == t;
  }

  /** The first rule of the gateway listing named `name`. */
  method FindRuleNamed(rules: seq<GatewayRule>, name: string) returns (r: Option<nat>)
    ensures r.Some? ==> FirstNamed(rules, name, r.value)
    ensures r.None? <==> forall j :: 0 <= j < |rules| ==> rules[j].name != name
  {
    var i := 0;
    while i < |rules|
      invariant 0 <= i <= |rules|
      invariant forall j :: 0 <= j < i ==> rules[j].name != name
    {
      if rules[i].name == name {
        return Some(i);
      }
      i := i + 1;
    }
    return None;
  }

  /** `findByUser(user).stream().filter(isAllowAll).findFirst()`. */
  method FirstAllowAll(ps: seq<Policy>) returns (r: Option<nat>)
    ensures r.Some? ==> r.value < |ps| && ps[r.value].isAllowAll
    ensures r.Some? ==> forall j :: 0 <= j < r.value ==> !ps[j].isAllowAll
    ensures r.None? <==> forall j :: 0 <= j < |ps| ==> !ps[j].isAllowAll
  {
    var i := 0;
    while i < |ps|
      invariant 0 <= i <= |ps|
      invariant forall j :: 0 <= j < i ==> !ps[j].isAllowAll
    {
      if ps[i].isAllowAll {
        return Some(i);
      }
      i := i + 1;
    }
    return None;
  }

  class PolicyService {
    const repo: PolicyRepository

    constructor (repo: PolicyRepository)
      ensures this.repo == repo
    {
      this.repo := repo;
    }

    /** `createPolicy(policy)`: refuses once the user stores ten rules
        (the allow-all rule counts), and otherwise creates the rule. */
    method CreatePolicy(policy: Policy, user: User, uniqueId: string, post: Remote<string>,
                        replies: AllowAllReplies) returns (outcome: Outcome)
      requires |uniqueId| == SuffixLength && repo.Valid()
      modifies repo
      ensures repo.Valid()
      ensures old(repo.CountByUser(user.email)) >= PolicyLimit ==>
        outcome == LimitReached && repo.rows == old(repo.rows)
      ensures old(repo.CountByUser(user.email)) < PolicyLimit ==>
        Created(old(repo.rows), repo.rows, policy, user, uniqueId, post, replies, outcome)
    {
      if repo.CountByUser(user.email) >= PolicyLimit {
        return LimitReached;
      }
      outcome := CreatePolicyFor(policy, user, uniqueId, post, replies);
    }

    /** `createPolicy(policy, user)`: no limit check. */
    method CreatePolicyFor(policy: Policy, user: User, uniqueId: string, post: Remote<string>,
                           replies: AllowAllReplies) returns (outcome: Outcome)
      requires |uniqueId| == SuffixLength && repo.Valid()
      modifies repo
      ensures repo.Valid()
      ensures Created(old(repo.rows), repo.rows, policy, user, uniqueId, post, replies, outcome)
    {
      match post
      case Failed =>
        return GatewayError;
      case Reply(id) =>
        repo.Save(Named(policy, user, uniqueId, id));
        outcome := UpdateAllowAllPolicy(user, replies);
    }

    /** `createDefaultPolicy`: the default block rule, created without the
        limit check. */
    method CreateDefaultPolicy(user: User, uniqueId: string, post: Remote<string>,
                               replies: AllowAllReplies) returns (outcome: Outcome)
      requires |uniqueId| == SuffixLength && repo.Valid()
      modifies repo
      ensures repo.Valid()
      ensures Created(old(repo.rows), repo.rows, DefaultPolicy(), user, uniqueId, post, replies, outcome)
    {
      outcome := CreatePolicyFor(DefaultPolicy(), user, uniqueId, post, replies);
    }

    /** `deletePolicy`: only the owner may delete, and the row goes only
        once the gateway reports success. */
    method DeletePolicy(id: string, user: User, delete: Remote<bool>, replies: AllowAllReplies)
      returns (outcome: Outcome)
      requires repo.Valid()
      modifies repo
      ensures repo.Valid()
      ensures id !in old(repo.rows) ==> outcome == NotFound && repo.rows == old(repo.rows)
      ensures id in old(repo.rows) && old(repo.rows)[id].user != user.email ==>
        outcome == Unauthorized && repo.rows == old(repo.rows)
      ensures id in old(repo.rows) && old(repo.rows)[id].user == user.email && delete != Reply(true) ==>
        outcome == GatewayError && repo.rows == old(repo.rows)
      ensures id in old(repo.rows) && old(repo.rows)[id].user == user.email && delete == Reply(true) ==>
        AllowAllUpdated(old(repo.rows) - {id}, repo.rows, user, replies, outcome)
    {
      var found := repo.FindById(id);
      if found.None? {
        return NotFound;
      }
      var policy := found.value;
      if policy.user != user.email {
        return Unauthorized;
      }
      if Confirmed(delete) != Ok {
        return GatewayError;
      }
      repo.Delete(policy);
      outcome := UpdateAllowAllPolicy(user, replies);
    }

    /** `updatePolicy`: only the owner may update, and the four copied
        fields are written only once the gateway reports success. The `PUT`
        body is built for the current user, who is the rule's owner; `body`
        is the body sent, `None` when no `PUT` is made. */
    method UpdatePolicy(id: string, updated: Policy, user: User, put: Remote<bool>, replies: AllowAllReplies)
      returns (outcome: Outcome, body: Option<RuleBody>)
      requires repo.Valid()
      modifies repo
      ensures repo.Valid()
      ensures body.Some? <==> id in old(repo.rows) && old(repo.rows)[id].user == user.email
      ensures body.Some? ==> body == BuildPolicyRequestBody(updated, Some(old(repo.rows)[id].user))
      ensures id !in old(repo.rows) ==> outcome == NotFound && repo.rows == old(repo.rows)
      ensures id in old(repo.rows) && old(repo.rows)[id].user != user.email ==>
        outcome == Unauthorized && repo.rows == old(repo.rows)
      ensures id in old(repo.rows) && old(repo.rows)[id].user == user.email && put != Reply(true) ==>
        outcome == GatewayError && repo.rows == old(repo.rows)
      ensures id in old(repo.rows) && old(repo.rows)[id].user == user.email && put == Reply(true) ==>
        AllowAllUpdated(old(repo.rows)[id := Edited(old(repo.rows)[id], updated)], repo.rows, user, replies, outcome)
    {
      body := None;
      var found := repo.FindById(id);
      if found.None? {
        return NotFound, body;
      }
      var existing := found.value;
      if existing.user != user.email {
        return Unauthorized, body;
      }
      body := BuildPolicyRequestBody(updated, Some(user.email));
      if Confirmed(put) != Ok {
        return GatewayError, body;
      }
      repo.Save(Edited(existing, updated));
      outcome := UpdateAllowAllPolicy(user, replies);
    }

    /** `updatePolicy` as written: the `PUT` body takes its identity from
        the submitted rule's own user (`submittedUser`). A rule read from a
        request body carries no user (`None`), so every update by the owner
        throws after the ownership checks and before the `PUT`, and nothing
        is written. */
    method UpdatePolicyAsWritten(id: string, updated: Policy, submittedUser: Option<Email>, user: User,
                                 put: Remote<bool>, replies: AllowAllReplies)
      returns (outcome: Outcome, body: Option<RuleBody>)
      requires repo.Valid()
      modifies repo
      ensures repo.Valid()
      ensures id !in old(repo.rows) ==> outcome == NotFound && body == None && repo.rows == old(repo.rows)
      ensures id in old(repo.rows) && old(repo.rows)[id].user != user.email ==>
        outcome == Unauthorized && body == None && repo.rows == old(repo.rows)
      ensures id in old(repo.rows) && old(repo.rows)[id].user == user.email && submittedUser.None? ==>
        outcome == NullReference && body == None && repo.rows == old(repo.rows)
      ensures id in old(repo.rows) && old(repo.rows)[id].user == user.email && submittedUser.Some? ==>
        body == BuildPolicyRequestBody(updated, submittedUser)
        && (put != Reply(true) ==> outcome == GatewayError && repo.rows == old(repo.rows))
        && (put == Reply(true) ==>
              AllowAllUpdated(old(repo.rows)[id := Edited(old(repo.rows)[id], updated)], repo.rows, user, replies, outcome))
    {
      body := None;
      var found := repo.FindById(id);
      if found.None? {
        return NotFound, body;
      }
      var existing := found.value;
      if existing.user != user.email {
        return Unauthorized, body;
      }
      body := BuildPolicyRequestBody(updated, submittedUser);
      if body.None? {
        return NullReference, body;
      }
      if Confirmed(put) != Ok {
        return GatewayError, body;
      }
      repo.Save(Edited(existing, updated));
      outcome := UpdateAllowAllPolicy(user, replies);
    }

    /** `ensureAllowAllPolicyExists`. */
    method EnsureAllowAllPolicyExists(user: User, list: Remote<seq<GatewayRule>>, create: Remote<string>)
      returns (r: Option<Policy>)
      requires repo.Valid()
      modifies repo
      ensures repo.Valid()
      ensures Ensured(old(repo.rows), repo.rows, user, list, create, r)
    {
      var ps := repo.FindByUser(user.email);
      var first := FirstAllowAll(ps);
      if first.Some? {
        return Some(ps[first.value]);
      }
      forall id | id in repo.rows && repo.rows[id].user == user.email
        ensures !repo.rows[id].isAllowAll
      {
        assert id in OwnedBy(repo.rows, user.email);
      }
      match list
      case Failed =>
        return None;
      case Reply(rules) =>
        var k := FindRuleNamed(rules, user.email);
        if k.Some? {
          var p := Adopted(rules[k.value], user);
          repo.Save(p);
          return Some(p);
        }
        match create
        case Failed =>
          return None;
        case Reply(id) =>
          var p := FreshAllowAll(id, user);
          repo.Save(p);
          return Some(p);
    }

    /** `updateAllowAllPolicy`. */
    method UpdateAllowAllPolicy(user: User, replies: AllowAllReplies) returns (outcome: Outcome)
      requires repo.Valid()
      modifies repo
      ensures repo.Valid()
      ensures AllowAllUpdated(old(repo.rows), repo.rows, user, replies, outcome)
    {
      var userPolicies := repo.FindByUser(user.email);
      ScanRows(userPolicies, repo.rows, user.email);
      var ensured := EnsureAllowAllPolicyExists(user, replies.list, replies.create);
      ghost var mid := repo.rows;
      if ensured.None? {
        return GatewayError;
      }
      var traffic := BuildAllowAllTrafficString(userPolicies);
      if traffic.None? {
        return BadTraffic;
      }
      repo.Save(ensured.value.(traffic := traffic.value));
      outcome := Confirmed(replies.put);
    }
  }
}
