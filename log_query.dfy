// The resolver-log query of the log service: the variable map sent with
// the GraphQL request, and the policy-id filter chosen for a user's query
// and for an account-wide query. The query text, the HTTP exchange and the
// mapping of the JSON reply to log records are not modelled.
module LogQuery {

  import opened Wrappers
  import opened Entities

  /** A value of the variable map: a string, an int, or a list of strings. */
  datatype Value = Text(text: string) | Number(number: int) | Texts(texts: seq<string>)

  /** A resolver-log record. `datetime` is the parsed instant of its
      timestamp text, `None` when that text does not parse. */
  datatype Log = Log(
    datetime: Option<Instant>,
    policyId: string,
    policyName: string,
    queryName: string,
    resolverDecision: int)

  /** The resolver decision of a query the gateway blocked. */
  const BlockedDecision: int := 9

  /** The variables of the query that `Variables` binds; `Name` gives the
      name each has in the request. */
  datatype Variable = AccountId | DatetimeGt | DatetimeLt | Limit | PolicyIdsIn | OrderBy | ResolverDecision

  function Name(x: Variable): string
  {
    match x
    case AccountId => "accountId"
    case DatetimeGt => "datetime_gt"
    case DatetimeLt => "datetime_lt"
    case Limit => "limit"
    case PolicyIdsIn => "policyIdsIn"
    case OrderBy => "orderBy"
    case ResolverDecision => "resolverDecision"
  }

  /** `buildGraphQLVariables`: the account, the window and the page size are
      always bound; the policy-id filter only for a non-empty id list; the
      decision filter only for a non-zero decision; and the upper bound of
      the window is the last row's time of the previous page when the
      caller passes both the last time and the last policy id. */
  function Variables(accountId: string, start: string, end: string, policyIds: seq<string>,
                     orderBy: seq<string>, lastDateTime: Option<string>, lastPolicyId: Option<string>,
                     limit: int, resolverDecision: int): (v: map<Variable, Value>)
    ensures AccountId in v && v[AccountId] == Text(accountId)
    ensures DatetimeGt in v && v[DatetimeGt] == Text(start)
    ensures Limit in v && v[Limit] == Number(limit)
    ensures OrderBy in v && v[OrderBy] == Texts(orderBy)
    ensures (PolicyIdsIn in v <==> policyIds != [])
      && (PolicyIdsIn in v ==> v[PolicyIdsIn] == Texts(policyIds))
    ensures (ResolverDecision in v <==> resolverDecision != 0)
      && (ResolverDecision in v ==> v[ResolverDecision] == Number(resolverDecision))
    ensures DatetimeLt in v
    ensures lastDateTime.Some? && lastPolicyId.Some? ==> v[DatetimeLt] == Text(lastDateTime.value)
    ensures lastDateTime.None? || lastPolicyId.None? ==> v[DatetimeLt] == Text(end)
  {
    var v0 := map[AccountId := Text(accountId), DatetimeGt := Text(start),
                  DatetimeLt := Text(end), Limit := Number(limit)];
    var v1 := if policyIds != [] then v0[PolicyIdsIn := Texts(policyIds)] else v0;
    var v2 := v1[OrderBy := Texts(orderBy)];
    var v3 := if resolverDecision != 0 then v2[ResolverDecision := Number(resolverDecision)] else v2;
    if lastDateTime.Some? && lastPolicyId.Some? then v3[DatetimeLt := Text(lastDateTime.value)] else v3
  }

  /** `ids` lists the keys of the rows owned by `u`, each once. */
  ghost predicate ListsIdsOf(ids: seq<string>, rows: map<string, Policy>, u: Email)
  {
    (set i | 0 <= i < |ids| :: ids[i]) == OwnedBy(rows, u)
    && forall i, j :: 0 <= i < j < |ids| ==> ids[i] != ids[j]
  }

  class LogService {
    const policies: PolicyRepository
    const accounts: AccountRepository

    constructor (policies: PolicyRepository, accounts: AccountRepository)
      ensures this.policies == policies && this.accounts == accounts
    {
      this.policies := policies;
      this.accounts := accounts;
    }

    /** `getLogsForUser`: the variables of a query over the current user's
        account, filtered to the ids of all of the user's rules (allow-all
        row included). A user without rules gets an unfiltered query. */
    method GetLogsForUser(user: User, start: string, end: string, orderBy: seq<string>,
                          lastDateTime: Option<string>, lastPolicyId: Option<string>,
                          pageSize: int, resolverDecision: int)
      returns (vars: map<Variable, Value>, ghost ids: seq<string>)
      requires policies.Valid()
      ensures ListsIdsOf(ids, policies.rows, user.email)
      ensures vars == Variables(user.accountId, start, end, ids, orderBy,
                                lastDateTime, lastPolicyId, pageSize, resolverDecision)
      ensures PolicyIdsIn in vars <==> OwnedBy(policies.rows, user.email) != {}
    {
      var ps := policies.FindByUser(user.email);
      var policyIds := IdsOf(ps);
      ids := policyIds;
      assert (set i | 0 <= i < |ids| :: ids[i]) == (set p | p in ps :: p.id) by {
        forall p | p in ps
          ensures p.id in (set i | 0 <= i < |ids| :: ids[i])
        {
          var k :| 0 <= k < |ps| && ps[k] == p;
          assert ids[k] == p.id;
        }
      }
      assert (set i | 0 <= i < |ids| :: ids[i]) == OwnedBy(policies.rows, user.email);
      if ids != [] {
        assert ids[0] in OwnedBy(policies.rows, user.email);
      }
      vars := Variables(user.accountId, start, end, policyIds, orderBy,
                        lastDateTime, lastPolicyId, pageSize, resolverDecision);
    }

    /** `getLogsForAccount`: the variables of an account-wide query, which
        never filters by rule; `None` when the account is not stored
        (`orElseThrow`). */
    method GetLogsForAccount(accountId: string, start: string, end: string, orderBy: seq<string>,
                             lastDateTime: Option<string>, lastPolicyId: Option<string>,
                             pageSize: int, resolverDecision: int)
      returns (vars: Option<map<Variable, Value>>)
      ensures vars.None? <==> accountId !in accounts.accounts
      ensures vars.Some? ==> vars.value == Variables(accountId, start, end, [], orderBy,
                                                     lastDateTime, lastPolicyId, pageSize, resolverDecision)
      ensures vars.Some? ==> PolicyIdsIn !in vars.value
    {
      var acc := accounts.FindByAccountId(accountId);
      if acc.None? {
        return None;
      }
      vars := Some(Variables(accountId, start, end, [], orderBy,
                             lastDateTime, lastPolicyId, pageSize, resolverDecision));
    }
  }
}
