// The persistent entities the services share (users, gateway accounts and
// block rules) and the three repositories that hold them. A repository is
// a class whose one field is the table, keyed by the entity's identifier;
// its methods are the queries and writes the services issue.
module Entities {

  import opened Wrappers

  /** Users are identified by their email address: registration and the
      social login both refuse a second user with the same address. */
  type Email = string

  datatype Role = USER | ADMIN

  datatype AuthProvider = LOCAL | GOOGLE | FACEBOOK

  /** A gateway account: the remote tenant that hosts users' devices and
      rules, with the ids of its enrollment application and policy and the
      number of users assigned to it. */
  datatype Account = Account(
    accountId: string,
    email: string,
    authorizationToken: string,
    enrollmentApplicationId: string,
    enrollmentPolicyId: string,
    userNum: int)

  /** `accountId` is the key of the account the user is bound to. */
  datatype User = User(
    email: Email,
    password: string,
    isSetUp: bool,
    accountId: string,
    role: Role,
    locked: bool,
    enabled: bool,
    authProvider: AuthProvider)

  /** The weekly schedule of a block rule, copied around unread. */
  datatype Schedule = Schedule(
    mon: string, tue: string, wed: string, thu: string,
    fri: string, sat: string, sun: string, timeZone: string)

  /** A block rule as mirrored locally. `user` is the owner's email and
      `isAllowAll` marks the one derived rule per user that allows
      everything the user's other rules do not block. */
  datatype Policy = Policy(
    id: string,
    name: string,
    action: string,
    traffic: string,
    cloudflareAccId: string,
    user: Email,
    schedule: Option<Schedule>,
    isAllowAll: bool)

  /** Instants are whole seconds since the epoch; parsing and printing
      ISO-8601 text is not modelled, parsed instants are inputs. */
  type Instant = int

  const Minute: int := 60
  const Hour: int := 60 * Minute
  const Day: int := 24 * Hour

  /** The `last_seen_at` text of a device: null or empty, ISO text that
      parses to an instant, or text the ISO parser rejects. */
  datatype LastSeen = Absent | Parsed(instant: Instant) | Malformed

  /** A physical device as the gateway lists it. A null serial number and
      an empty one are both `""` here, since every use treats them alike. */
  datatype Device = Device(
    id: string,
    manufacturer: string,
    model: string,
    lastSeen: LastSeen,
    email: Option<string>,
    serialNumber: string)

  /** `ps` lists, each exactly once and in some order, the rows of `rows`
      owned by `u`. */
  ghost predicate ListsRowsOf(ps: seq<Policy>, rows: map<string, Policy>, u: Email)
  {
    (forall i :: 0 <= i < |ps| ==> ps[i].id in rows && rows[ps[i].id] == ps[i] && ps[i].user == u)
    && (set p | p in ps :: p.id) == OwnedBy(rows, u)
    && (forall i, j :: 0 <= i < j < |ps| ==> ps[i].id != ps[j].id)
  }

  /** The ids of the listed rows, in order. */
  function IdsOf(ps: seq<Policy>): (ids: seq<string>)
    ensures |ids| == |ps| && forall i :: 0 <= i < |ps| ==> ids[i] == ps[i].id
  {
    if ps == [] then [] else IdsOf(ps[..|ps|-1]) + [ps[|ps|-1].id]
  }

  /** The keys of the rows owned by `u`. */
  function OwnedBy(rows: map<string, Policy>, u: Email): set<string>
  {
    set id | id in rows && rows[id].user == u
  }

  class PolicyRepository {
    var rows: map<string, Policy>

    /** Every row is stored under its own id. */
    ghost predicate Valid()
      reads this
    {
      forall id :: id in rows ==> rows[id].id == id
    }

    constructor ()
      ensures Valid() && rows == map[]
    {
      rows := map[];
    }

    /** `save`: inserts the row, or replaces the row with the same id. */
    method Save(p: Policy)
      requires Valid()
      modifies this
      ensures Valid() && rows == old(rows)[p.id := p]
    {
      rows := rows[p.id := p];
    }

    method Delete(p: Policy)
      requires Valid()
      modifies this
      ensures Valid() && rows == old(rows) - {p.id}
    {
      rows := rows - {p.id};
    }

    method FindById(id: string) returns (r: Option<Policy>)
      ensures r == if id in rows then Some(rows[id]) else None
    {
      r := if id in rows then Some(rows[id]) else None;
    }

    /** `countByUser`: the number of rows the user owns, allow-all row
        included. */
    function CountByUser(u: Email): (n: nat)
      reads this
      ensures n == |OwnedBy(rows, u)|
      ensures n == 0 <==> forall id :: id in rows ==> rows[id].user != u
    {
      var owned := OwnedBy(rows, u);
      assert forall id :: id in rows && rows[id].user == u ==> id in owned;
      |owned|
    }

    /** `findByUser`: the user's rows in an order the store chooses. */
    method FindByUser(u: Email) returns (ps: seq<Policy>)
      requires Valid()
      ensures ListsRowsOf(ps, rows, u)
    {
      var left := OwnedBy(rows, u);
      ps := [];
      while left != {}
        invariant left <= OwnedBy(rows, u)
        invariant forall i :: 0 <= i < |ps| ==> ps[i].id in rows && rows[ps[i].id] == ps[i] && ps[i].user == u
        invariant forall id :: id in OwnedBy(rows, u) ==> (id in left <==> id !in IdsOf(ps))
        invariant forall i, j :: 0 <= i < j < |ps| ==> ps[i].id != ps[j].id
        decreases |left|
      {
        var id :| id in left;
        ps := ps + [rows[id]];
        left := left - {id};
      }
      assert forall id :: id in IdsOf(ps) <==> id in (set p | p in ps :: p.id);
    }
  }

  class UserRepository {
    var users: map<Email, User>

    /** Every user is stored under their own email. */
    ghost predicate Valid()
      reads this
    {
      forall e :: e in users ==> users[e].email == e
    }

    constructor ()
      ensures Valid() && users == map[]
    {
      users := map[];
    }

    method Save(u: User)
      requires Valid()
      modifies this
      ensures Valid() && users == old(users)[u.email := u]
    {
      users := users[u.email := u];
    }

    method FindByEmail(e: Email) returns (r: Option<User>)
      ensures r == if e in users then Some(users[e]) else None
    {
      r := if e in users then Some(users[e]) else None;
    }
  }

  /** The most users an account takes: both sign-up paths look for an
      account with fewer users than this. */
  const AccountCapacity: int := 50

  class AccountRepository {
    var accounts: map<string, Account>

    /** Every account is stored under its own id. */
    ghost predicate Valid()
      reads this
    {
      forall id :: id in accounts ==> accounts[id].accountId == id
    }

    constructor ()
      ensures Valid() && accounts == map[]
    {
      accounts := map[];
    }

    method Save(a: Account)
      requires Valid()
      modifies this
      ensures Valid() && accounts == old(accounts)[a.accountId := a]
    {
      accounts := accounts[a.accountId := a];
    }

    method FindByAccountId(id: string) returns (r: Option<Account>)
      ensures r == if id in accounts then Some(accounts[id]) else None
    {
      r := if id in accounts then Some(accounts[id]) else None;
    }

    /** The ids of `findAll`: every stored account once, in an order the
        store chooses. */
    method FindAllIds() returns (ids: seq<string>)
      ensures forall id :: id in ids <==> id in accounts
      ensures forall i, j :: 0 <= i < j < |ids| ==> ids[i] != ids[j]
    {
      var left := accounts.Keys;
      ids := [];
      while left != {}
        invariant left <= accounts.Keys
        invariant forall id :: id in ids <==> id in accounts && id !in left
        invariant forall i, j :: 0 <= i < j < |ids| ==> ids[i] != ids[j]
        decreases |left|
      {
        var id :| id in left;
        ids := ids + [id];
        left := left - {id};
      }
    }

    /** `findFirstByUserNumIsLessThan(n)`: some account with fewer than `n`
        users (the query has no ordering), or none when every account is
        full. */
    method FindFirstByUserNumIsLessThan(n: int) returns (r: Option<Account>)
      requires Valid()
      ensures r.None? <==> forall id :: id in accounts ==> accounts[id].userNum >= n
      ensures r.Some? ==> r.value.accountId in accounts && accounts[r.value.accountId] == r.value
      ensures r.Some? ==> r.value.userNum < n
    {
      if id :| id in accounts && accounts[id].userNum < n {
        r := Some(accounts[id]);
      } else {
        r := None;
      }
    }
  }
}
