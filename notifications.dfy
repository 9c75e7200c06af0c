// The notification service: notices for devices that have not been seen
// for five days, the periodic sweep that turns blocked resolver queries
// into notices, and the user-facing reads, mark-as-seen and delete. The
// notification table is a class whose identity column is `nextId`.
module Notifications {

  import opened Wrappers
  import opened Entities
  import opened LogQuery

  datatype NotificationType = LOG | DEVICE

  /** The message of a notice, kept as the values its text is made of;
      `MessageText` renders it. */
  datatype Message = DeviceUnseen(manufacturer: string) | BlockedQuery(policyName: string, queryName: string)

  /** `user` is the owner's email. */
  datatype Notification = Notification(
    notificationId: nat,
    user: Email,
    message: Message,
    isSeen: bool,
    timestamp: Instant,
    kind: NotificationType,
    deviceId: Option<string>)

  datatype Outcome = Ok | NotFound | Unauthorized

  /** A device is reported once it has not been seen for this long. */
  const StaleAfter: int := 5 * Day
  /** The sweep looks at the resolver log of this trailing window. */
  const SweepWindow: int := 5 * Minute
  /** The page size of the sweep's log query. */
  const SweepPageSize: int := 1000
  const SweepOrder: seq<string> := ["datetime_DESC"]

  /** `markNotificationsAsSeen` in the table: the listed rows become seen,
      every other row and every other column stay as they were. */
  function SeenMarked(rows: map<nat, Notification>, ids: seq<nat>): (r: map<nat, Notification>)
    ensures r.Keys == rows.Keys
    ensures forall id :: id in r ==> r[id].isSeen == (rows[id].isSeen || id in ids)
    ensures forall id :: id in r ==> r[id].(isSeen := false) == rows[id].(isSeen := false)
  {
    map id | id in rows :: if id in ids then rows[id].(isSeen := true) else rows[id]
  }

  /** The ids of the unseen rows owned by `u`. */
  function UnseenOf(rows: map<nat, Notification>, u: Email): set<nat>
  {
    set id | id in rows && rows[id].user == u && !rows[id].isSeen
  }

  /** Some unseen row, of whichever user, names the device. */
  predicate HasUnseenFor(rows: map<nat, Notification>, deviceId: string)
  {
    exists id :: id in rows && !rows[id].isSeen && rows[id].deviceId == Some(deviceId)
  }

  /** `ns` lists, each exactly once, the unseen rows owned by `u`. */
  ghost predicate ListsUnseenOf(ns: seq<Notification>, rows: map<nat, Notification>, u: Email)
  {
    (forall i :: 0 <= i < |ns| ==> ns[i].notificationId in rows && rows[ns[i].notificationId] == ns[i]
                                   && ns[i].user == u && !ns[i].isSeen)
    && (set n | n in ns :: n.notificationId) == UnseenOf(rows, u)
    && (forall i, j :: 0 <= i < j < |ns| ==> ns[i].notificationId != ns[j].notificationId)
  }

  /** The rows of `before` are all in `after`, unchanged. */
  ghost predicate Keeps(before: map<nat, Notification>, after: map<nat, Notification>)
  {
    forall id :: id in before ==> id in after && after[id] == before[id]
  }

  /** The ids of the listed notices, in order. */
  function NotificationIds(ns: seq<Notification>): (ids: seq<nat>)
    ensures |ids| == |ns|
    ensures forall i :: 0 <= i < |ns| ==> ids[i] == ns[i].notificationId
  {
    if ns == [] then [] else NotificationIds(ns[..|ns| - 1]) + [ns[|ns| - 1].notificationId]
  }

  class NotificationRepository {
    var rows: map<nat, Notification>
    var nextId: nat

    /** Rows are stored under their own id, below the next identity. */
    ghost predicate Valid()
      reads this
    {
      forall id :: id in rows ==> id < nextId && rows[id].notificationId == id
    }

    constructor ()
      ensures Valid() && rows == map[] && nextId == 0
    {
      rows := map[];
      nextId := 0;
    }

    /** `save` of a new row: the identity column assigns the id. */
    method Save(n: Notification) returns (id: nat)
      requires Valid()
      modifies this
      ensures Valid() && id == old(nextId) && nextId == old(nextId) + 1
      ensures rows == old(rows)[id := n.(notificationId := id)]
    {
      id := nextId;
      rows := rows[id := n.(notificationId := id)];
      nextId := nextId + 1;
    }

    method Delete(id: nat)
      requires Valid()
      modifies this
      ensures Valid() && rows == old(rows) - {id} && nextId == old(nextId)
    {
      rows := rows - {id};
    }

    /** The bulk `UPDATE ... SET isSeen = true WHERE id IN :ids`. */
    method MarkSeen(ids: seq<nat>)
      requires Valid()
      modifies this
      ensures Valid() && rows == SeenMarked(old(rows), ids) && nextId == old(nextId)
    {
      rows := SeenMarked(rows, ids);
    }

    /** `existsByDeviceIdAndIsSeen(deviceId, false)`. */
    method ExistsUnseenForDevice(deviceId: string) returns (b: bool)
      ensures b == HasUnseenFor(rows, deviceId)
    {
      b := exists id | id in rows :: !rows[id].isSeen && rows[id].deviceId == Some(deviceId);
    }

    /** `findByUserAndIsSeen(u, false)`, in an order the store chooses. */
    method FindUnseenByUser(u: Email) returns (ns: seq<Notification>)
      requires Valid()
      ensures ListsUnseenOf(ns, rows, u)
    {
      var left := UnseenOf(rows, u);
      ns := [];
      while left != {}
        invariant left <= UnseenOf(rows, u)
        invariant forall i :: 0 <= i < |ns| ==> ns[i].notificationId in rows && rows[ns[i].notificationId] == ns[i]
                                                && ns[i].user == u && !ns[i].isSeen
        invariant forall id :: id in UnseenOf(rows, u) ==> (id in left <==> id !in NotificationIds(ns))
        invariant forall i, j :: 0 <= i < j < |ns| ==> ns[i].notificationId != ns[j].notificationId
        decreases |left|
      {
        var id :| id in left;
        ns := ns + [rows[id]];
        left := left - {id};
      }
      assert forall id :: id in NotificationIds(ns) <==> id in (set n | n in ns :: n.notificationId);
    }
  }

  /** A device is stale when its last-seen instant parses and lies more
      than five days before `now`. */
  predicate Stale(d: Device, now: Instant)
  {
    d.lastSeen.Parsed? && d.lastSeen.instant < now - StaleAfter
  }

  /** The index of the first device whose last-seen text `Instant.parse`
      rejects (null, empty or malformed), or the length when there is none. */
  function FirstUnparsed(devices: seq<Device>): (k: nat)
    ensures k <= |devices|
    ensures forall i :: 0 <= i < k ==> devices[i].lastSeen.Parsed?
    ensures k < |devices| ==> !devices[k].lastSeen.Parsed?
  {
    if devices == [] || !devices[0].lastSeen.Parsed? then 0 else 1 + FirstUnparsed(devices[1..])
  }

  /** The text shown for a message (in the service's own language). */
  function MessageText(m: Message): string
  {
    match m
    case DeviceUnseen(manufacturer) =>
      "Uredjaj " + manufacturer
      + " zadnji put vidjen pre vi\U{0161}e od 5 dana. Proverite 'Cloudflare One' aplikaciju na va\U{0161}im uredjajima"
    case BlockedQuery(policyName, queryName) =>
      "Poku\U{0161}aj pristupa zabranjenom sadr\U{017E}aju (pravilo: " + policyName + ": " + queryName + ")"
  }

  /** The notice a stale device gets (before the table assigns its id). */
  function DeviceNotice(d: Device, user: Email, now: Instant): (n: Notification)
    ensures n.kind == DEVICE && !n.isSeen && n.deviceId == Some(d.id) && n.user == user && n.timestamp == now
  {
    Notification(0, user, DeviceUnseen(d.manufacturer), false, now, DEVICE, Some(d.id))
  }

  /** A blocked query by a known rule notifies the rule's owner. */
  predicate Qualifies(l: Log, rules: map<string, Policy>)
  {
    l.resolverDecision == BlockedDecision && l.policyId in rules
  }

  /** The notice a qualifying, dated log record gets. */
  function LogNotice(l: Log, rules: map<string, Policy>): (n: Notification)
    requires Qualifies(l, rules) && l.datetime.Some?
    ensures n.kind == LOG && !n.isSeen && n.deviceId.None?
    ensures n.user == rules[l.policyId].user && n.timestamp == l.datetime.value
  {
    Notification(0, rules[l.policyId].user, BlockedQuery(rules[l.policyId].name, l.queryName),
                 false, l.datetime.value, LOG, None)
  }

  /** The index of the first qualifying log record whose time does not
      parse, or the length when there is none. */
  function FirstUndated(logs: seq<Log>, rules: map<string, Policy>): (k: nat)
    ensures k <= |logs|
    ensures forall i :: 0 <= i < k && Qualifies(logs[i], rules) ==> logs[i].datetime.Some?
    ensures k < |logs| ==> Qualifies(logs[k], rules) && logs[k].datetime.None?
  {
    if logs == [] then 0
    else if Qualifies(logs[0], rules) && logs[0].datetime.None? then 0
    else 1 + FirstUndated(logs[1..], rules)
  }

  /** The notices of the qualifying records, in log order. */
  function Notices(logs: seq<Log>, rules: map<string, Policy>): (ns: seq<Notification>)
    requires forall i :: 0 <= i < |logs| && Qualifies(logs[i], rules) ==> logs[i].datetime.Some?
    ensures |ns| <= |logs|
  {
    if logs == [] then []
    else
      var rest := Notices(logs[..|logs| - 1], rules);
      var l := logs[|logs| - 1];
      if Qualifies(l, rules) then rest + [LogNotice(l, rules)] else rest
  }

  /** Every notice comes from a qualifying record, and every qualifying
      record has its notice. */
  lemma {:induction false} NoticesExact(logs: seq<Log>, rules: map<string, Policy>, n: Notification)
    requires forall i :: 0 <= i < |logs| && Qualifies(logs[i], rules) ==> logs[i].datetime.Some?
    ensures n in Notices(logs, rules) <==>
      exists i :: 0 <= i < |logs| && Qualifies(logs[i], rules) && n == LogNotice(logs[i], rules)
  {
    if logs != [] {
      var front := logs[..|logs| - 1];
      NoticesExact(front, rules, n);
      if n in Notices(front, rules) {
        var i :| 0 <= i < |front| && Qualifies(front[i], rules) && n == LogNotice(front[i], rules);
        assert logs[i] == front[i];
      }
      if exists i :: 0 <= i < |logs| && Qualifies(logs[i], rules) && n == LogNotice(logs[i], rules) {
        var i :| 0 <= i < |logs| && Qualifies(logs[i], rules) && n == LogNotice(logs[i], rules);
        if i < |front| {
          assert front[i] == logs[i];
        }
      }
    }
  }

  /** One notice per qualifying record: a log without blocked queries by
      known rules notifies nobody. */
  lemma {:induction false} NoticesCount(logs: seq<Log>, rules: map<string, Policy>)
    requires forall i :: 0 <= i < |logs| && Qualifies(logs[i], rules) ==> logs[i].datetime.Some?
    ensures |Notices(logs, rules)| == |set i | 0 <= i < |logs| && Qualifies(logs[i], rules)|
  {
    if logs != [] {
      var front := logs[..|logs| - 1];
      NoticesCount(front, rules);
      var q := set i | 0 <= i < |front| && Qualifies(front[i], rules);
      var n := |logs| - 1;
      if Qualifies(logs[n], rules) {
        assert (set i | 0 <= i < |logs| && Qualifies(logs[i], rules)) == q + {n};
      } else {
        assert (set i | 0 <= i < |logs| && Qualifies(logs[i], rules)) == q;
      }
    }
  }

  /** The variables of the sweep's query for one account: the last five
      minutes up to `now`, blocked queries only, no rule filter. The
      account id is passed where the previous page's time belongs, which
      has no effect because no previous rule id is passed. */
  function SweepVariables(accountId: string, now: Instant, instantText: Instant -> string): (v: map<Variable, Value>)
    ensures AccountId in v && v[AccountId] == Text(accountId)
    ensures DatetimeGt in v && v[DatetimeGt] == Text(instantText(now - SweepWindow))
    ensures DatetimeLt in v && v[DatetimeLt] == Text(instantText(now))
    ensures ResolverDecision in v && v[ResolverDecision] == Number(BlockedDecision)
    ensures PolicyIdsIn !in v
  {
    Variables(accountId, instantText(now - SweepWindow), instantText(now), [], SweepOrder,
              Some(accountId), None, SweepPageSize, BlockedDecision)
  }


  /** The rows of `after` that `before` lacks all have ids from `first` on. */
  ghost predicate AddedFrom(before: map<nat, Notification>, after: map<nat, Notification>, first: nat)
  {
    forall id :: id in after && id !in before ==> first <= id
  }

  /** Every row added to `before` is the notice, under its own id, of a
      stale device among the first `n` that had no unseen notice in
      `before`. */
  ghost predicate OnlyStaleNotices(before: map<nat, Notification>, after: map<nat, Notification>,
                                   devices: seq<Device>, n: nat, user: Email, now: Instant)
    requires n <= |devices|
  {
    forall id :: id in after && id !in before ==>
      exists k :: 0 <= k < n && Stale(devices[k], now) && !HasUnseenFor(before, devices[k].id)
                  && after[id] == DeviceNotice(devices[k], user, now).(notificationId := id)
  }

  /** No two added rows name the same device. */
  ghost predicate OneNoticePerDevice(before: map<nat, Notification>, after: map<nat, Notification>)
  {
    forall id, id' :: id in after && id' in after && id !in before && id' !in before && id != id' ==>
      after[id].deviceId != after[id'].deviceId
  }

  /** Each stale device among the first `n` has an unseen notice. */
  ghost predicate StaleNoticed(rows: map<nat, Notification>, devices: seq<Device>, n: nat, now: Instant)
    requires n <= |devices|
  {
    forall k :: 0 <= k < n && Stale(devices[k], now) ==> HasUnseenFor(rows, devices[k].id)
  }

  /** The invariant of `createNotificationForDevices` after the first
      `i` devices, from the table `before` whose next identity was `first`. */
  ghost predicate DevicesNoticed(before: map<nat, Notification>, first: nat, rows: map<nat, Notification>,
                                 nextId: nat, devices: seq<Device>, i: nat, user: Email, now: Instant)
  {
    i <= |devices| && first <= nextId
    && Keeps(before, rows) && AddedFrom(before, rows, first)
    && OnlyStaleNotices(before, rows, devices, i, user, now)
    && OneNoticePerDevice(before, rows)
    && StaleNoticed(rows, devices, i, now)
    && (StaleNoticed(before, devices, |devices|, now) ==> rows == before)
  }

  /** The notices of the first `i` records of a page. */
  function PageNotices(logs: seq<Log>, i: nat, rules: map<string, Policy>): (ns: seq<Notification>)
    requires i <= FirstUndated(logs, rules)
    ensures |ns| <= i
  {
    assert forall k :: 0 <= k < i ==> logs[..i][k] == logs[k];
    Notices(logs[..i], rules)
  }

  /** The next record adds its notice, if it qualifies. */
  lemma PageNoticesSnoc(logs: seq<Log>, i: nat, rules: map<string, Policy>)
    requires i < FirstUndated(logs, rules)
    ensures PageNotices(logs, i + 1, rules) ==
      PageNotices(logs, i, rules) + (if Qualifies(logs[i], rules) then [LogNotice(logs[i], rules)] else [])
  {
    NoticesSnoc(logs, i, rules);
  }

  /** The notices of the first `i` records of a page are saved, numbered
      from `first` on top of `before`. */
  ghost predicate PageSoFar(before: map<nat, Notification>, first: nat, rows: map<nat, Notification>, nextId: nat,
                            logs: seq<Log>, i: nat, rules: map<string, Policy>)
  {
    i <= FirstUndated(logs, rules)
    && nextId == first + |PageNotices(logs, i, rules)|
    && rows == Numbered(before, first, PageNotices(logs, i, rules))
  }

  /** Saving the notice of device `i`, which had none unseen, keeps the
      invariant of `createNotificationForDevices`. */
  lemma DeviceNoticeSaved(before: map<nat, Notification>, mid: map<nat, Notification>, after: map<nat, Notification>,
                          devices: seq<Device>, i: nat, user: Email, now: Instant, id: nat)
    requires i < |devices| && Stale(devices[i], now) && !HasUnseenFor(mid, devices[i].id)
    requires Keeps(before, mid) && OnlyStaleNotices(before, mid, devices, i, user, now)
    requires OneNoticePerDevice(before, mid) && StaleNoticed(mid, devices, i, now)
    requires id !in mid && after == mid[id := DeviceNotice(devices[i], user, now).(notificationId := id)]
    ensures Keeps(before, after) && OnlyStaleNotices(before, after, devices, i + 1, user, now)
    ensures OneNoticePerDevice(before, after) && StaleNoticed(after, devices, i + 1, now)
    ensures !StaleNoticed(before, devices, |devices|, now)
  {
    SavedStaysNoticed(mid, after, devices, i, user, now, id);
    SavedDistinct(before, mid, after, devices[i], user, now, id);
  }

  lemma SavedStaysNoticed(mid: map<nat, Notification>, after: map<nat, Notification>,
                          devices: seq<Device>, i: nat, user: Email, now: Instant, id: nat)
    requires i < |devices| && StaleNoticed(mid, devices, i, now)
    requires id !in mid && after == mid[id := DeviceNotice(devices[i], user, now).(notificationId := id)]
    ensures StaleNoticed(after, devices, i + 1, now)
  {
    forall k | 0 <= k < i + 1 && Stale(devices[k], now)
      ensures HasUnseenFor(after, devices[k].id)
    {
      if k < i {
        var w :| w in mid && !mid[w].isSeen && mid[w].deviceId == Some(devices[k].id);
        assert after[w] == mid[w];
      } else {
        assert after[id].deviceId == Some(devices[i].id);
      }
    }
  }

  lemma SavedDistinct(before: map<nat, Notification>, mid: map<nat, Notification>, after: map<nat, Notification>,
                      d: Device, user: Email, now: Instant, id: nat)
    requires !HasUnseenFor(mid, d.id) && OneNoticePerDevice(before, mid)
    requires forall x :: x in mid && x !in before ==> !mid[x].isSeen
    requires id !in mid && after == mid[id := DeviceNotice(d, user, now).(notificationId := id)]
    ensures OneNoticePerDevice(before, after)
  {
    forall x, y | x in after && y in after && x !in before && y !in before && x != y
      ensures after[x].deviceId != after[y].deviceId
    {
      if x == id || y == id {
        var z := if x == id then y else x;
        assert z in mid && z !in before && !mid[z].isSeen;
      }
    }
  }

  /** `rows` with `ns` appended under consecutive ids from `first`. */
  function Numbered(rows: map<nat, Notification>, first: nat, ns: seq<Notification>): map<nat, Notification>
  {
    if ns == [] then rows
    else
      var n := |ns| - 1;
      Numbered(rows, first, ns[..n])[first + n := ns[n].(notificationId := first + n)]
  }

  lemma NumberedSnoc(rows: map<nat, Notification>, first: nat, ns: seq<Notification>, n: Notification)
    ensures Numbered(rows, first, ns + [n])
      == Numbered(rows, first, ns)[first + |ns| := n.(notificationId := first + |ns|)]
  {
    assert (ns + [n])[..|ns|] == ns;
  }

  /** `Numbered` keeps the old rows and adds exactly the ids from `first`
      on, each holding its notice. */
  lemma {:induction false} NumberedAt(rows: map<nat, Notification>, first: nat, ns: seq<Notification>, j: nat)
    requires forall id :: id in rows ==> id < first
    ensures j in Numbered(rows, first, ns) <==> j in rows || first <= j < first + |ns|
    ensures j in rows ==> Numbered(rows, first, ns)[j] == rows[j]
    ensures first <= j < first + |ns| ==> Numbered(rows, first, ns)[j] == ns[j - first].(notificationId := j)
  {
    if ns != [] {
      NumberedAt(rows, first, ns[..|ns| - 1], j);
    }
  }

  lemma NoticesSnoc(logs: seq<Log>, i: nat, rules: map<string, Policy>)
    requires i < |logs|
    requires forall k :: 0 <= k < i && Qualifies(logs[k], rules) ==> logs[k].datetime.Some?
    ensures Qualifies(logs[i], rules) && logs[i].datetime.Some? ==>
      Notices(logs[..i + 1], rules) == Notices(logs[..i], rules) + [LogNotice(logs[i], rules)]
    ensures !Qualifies(logs[i], rules) ==> Notices(logs[..i + 1], rules) == Notices(logs[..i], rules)
  {
    assert logs[..i + 1][..i] == logs[..i];
  }

  /** Below the first undated record, record `i` is undated exactly when
      it is that record. */
  lemma FirstUndatedAt(logs: seq<Log>, i: nat, rules: map<string, Policy>)
    requires i < |logs| && i <= FirstUndated(logs, rules)
    ensures i < FirstUndated(logs, rules) <==> !(Qualifies(logs[i], rules) && logs[i].datetime.None?)
  {
  }

  /** Handling a qualifying record below the first undated one saves its
      notice under the next id. */
  lemma PageStepSaved(before: map<nat, Notification>, first: nat, rows: map<nat, Notification>, nextId: nat,
                      logs: seq<Log>, i: nat, rules: map<string, Policy>)
    requires i < FirstUndated(logs, rules) && Qualifies(logs[i], rules)
    requires PageSoFar(before, first, rows, nextId, logs, i, rules)
    ensures PageSoFar(before, first, rows[nextId := LogNotice(logs[i], rules).(notificationId := nextId)], nextId + 1,
                      logs, i + 1, rules)
  {
    var ns, n := PageNotices(logs, i, rules), LogNotice(logs[i], rules);
    PageNoticesSnoc(logs, i, rules);
    NumberedSnoc(before, first, ns, n);
  }

  /** A record below the first undated one that does not qualify saves
      nothing. */
  lemma PageStepSkipped(before: map<nat, Notification>, first: nat, rows: map<nat, Notification>, nextId: nat,
                        logs: seq<Log>, i: nat, rules: map<string, Policy>)
    requires i < FirstUndated(logs, rules) && !Qualifies(logs[i], rules)
    requires PageSoFar(before, first, rows, nextId, logs, i, rules)
    ensures PageSoFar(before, first, rows, nextId, logs, i + 1, rules)
  {
    PageNoticesSnoc(logs, i, rules);
    assert PageNotices(logs, i + 1, rules) == PageNotices(logs, i, rules) + [] == PageNotices(logs, i, rules);
    assert rows == Numbered(before, first, PageNotices(logs, i + 1, rules));
  }

  /** The notice `n` is that of a qualifying, dated record of `logs`. */
  ghost predicate FromPage(n: Notification, logs: seq<Log>, rules: map<string, Policy>)
  {
    exists l :: l in logs && Qualifies(l, rules) && l.datetime.Some?
                && n == LogNotice(l, rules).(notificationId := n.notificationId)
  }

  /** What one page adds: only notices of its qualifying records, under
      new ids, leaving the old rows alone. */
  lemma PageSound(before: map<nat, Notification>, first: nat, logs: seq<Log>, rules: map<string, Policy>)
    requires forall id :: id in before ==> id < first
    ensures Keeps(before, Numbered(before, first, Notices(logs[..FirstUndated(logs, rules)], rules)))
    ensures forall id :: id in Numbered(before, first, Notices(logs[..FirstUndated(logs, rules)], rules))
                         && id !in before ==>
      first <= id && FromPage(Numbered(before, first, Notices(logs[..FirstUndated(logs, rules)], rules))[id], logs, rules)
  {
    var page := logs[..FirstUndated(logs, rules)];
    var ns := Notices(page, rules);
    var after := Numbered(before, first, ns);
    forall id | id in before
      ensures id in after && after[id] == before[id]
    {
      NumberedAt(before, first, ns, id);
    }
    forall id | id in after && id !in before
      ensures first <= id && FromPage(after[id], logs, rules)
    {
      NumberedAt(before, first, ns, id);
      NoticesExact(page, rules, ns[id - first]);
      var i :| 0 <= i < |page| && Qualifies(page[i], rules) && ns[id - first] == LogNotice(page[i], rules);
      assert page[i] in logs;
    }
  }

  /** A page read to its end gives every qualifying record its notice. */
  lemma PageComplete(before: map<nat, Notification>, first: nat, logs: seq<Log>, rules: map<string, Policy>, l: Log)
    requires forall id :: id in before ==> id < first
    requires FirstUndated(logs, rules) == |logs|
    requires l in logs && Qualifies(l, rules)
    ensures l.datetime.Some?
    ensures exists id :: id in Numbered(before, first, Notices(logs, rules)) && id !in before
                         && Numbered(before, first, Notices(logs, rules))[id] == LogNotice(l, rules).(notificationId := id)
  {
    var ns := Notices(logs, rules);
    var i :| 0 <= i < |logs| && logs[i] == l;
    assert logs[i].datetime.Some?;
    NoticesExact(logs, rules, LogNotice(l, rules));
    assert LogNotice(l, rules) in ns;
    var j :| 0 <= j < |ns| && ns[j] == LogNotice(l, rules);
    NumberedHas(before, first, ns, j);
  }

  /** The `j`-th notice is added under id `first + j`. */
  lemma NumberedHas(before: map<nat, Notification>, first: nat, ns: seq<Notification>, j: nat)
    requires forall id :: id in before ==> id < first
    requires j < |ns|
    ensures first + j in Numbered(before, first, ns) && first + j !in before
    ensures Numbered(before, first, ns)[first + j] == ns[j].(notificationId := first + j)
  {
    NumberedAt(before, first, ns, first + j);
  }

  /** A notice the sweep may create: the notice of a qualifying record of
      the page some stored account's query returned. */
  ghost predicate FromSweep(n: Notification, now: Instant, instantText: Instant -> string,
                            fetch: map<Variable, Value> -> Remote<seq<Log>>,
                            rules: map<string, Policy>, accounts: map<string, Account>)
  {
    exists a :: a in accounts && fetch(SweepVariables(a, now, instantText)).Reply?
                && FromPage(n, fetch(SweepVariables(a, now, instantText)).body, rules)
  }

  class NotificationService {
    const repo: NotificationRepository
    const policies: PolicyRepository
    const accounts: AccountRepository

    constructor (repo: NotificationRepository, policies: PolicyRepository, accounts: AccountRepository)
      ensures this.repo == repo && this.policies == policies && this.accounts == accounts
    {
      this.repo := repo;
      this.policies := policies;
      this.accounts := accounts;
    }

    /** `createNotificationForDevices`: every stale device that has no
        unseen notice yet gets exactly one, so a second call with the same
        devices adds nothing; the loop stops at the first device whose
        last-seen text does not parse, keeping what it saved. */
    method CreateNotificationForDevices(devices: seq<Device>, user: Email, now: Instant) returns (ok: bool)
      requires repo.Valid()
      modifies repo
      ensures repo.Valid() && old(repo.nextId) <= repo.nextId
      ensures ok <==> FirstUnparsed(devices) == |devices|
      ensures Keeps(old(repo.rows), repo.rows) && AddedFrom(old(repo.rows), repo.rows, old(repo.nextId))
      ensures OnlyStaleNotices(old(repo.rows), repo.rows, devices, FirstUnparsed(devices), user, now)
      ensures OneNoticePerDevice(old(repo.rows), repo.rows)
      ensures StaleNoticed(repo.rows, devices, FirstUnparsed(devices), now)
      ensures StaleNoticed(old(repo.rows), devices, |devices|, now) ==> repo.rows == old(repo.rows)
    {
      ghost var stop := FirstUnparsed(devices);
      var i := 0;
      while i < |devices|
        invariant 0 <= i <= stop
        invariant repo.Valid() && DevicesNoticed(old(repo.rows), old(repo.nextId), repo.rows, repo.nextId, devices, i, user, now)
      {
        var parsed := NoticeDevice(devices[i], user, now, devices, i, old(repo.rows), old(repo.nextId));
        if !parsed {
          return false;
        }
        i := i + 1;
      }
      ok := true;
    }

    /** One device of `createNotificationForDevices`: a stale device with
        no unseen notice gets one; a device whose last-seen text does not
        parse stops the loop. */
    method NoticeDevice(d: Device, user: Email, now: Instant, ghost devices: seq<Device>, ghost i: nat,
                        ghost before: map<nat, Notification>, ghost first: nat) returns (parsed: bool)
      requires i < |devices| && d == devices[i]
      requires repo.Valid() && DevicesNoticed(before, first, repo.rows, repo.nextId, devices, i, user, now)
      modifies repo
      ensures repo.Valid()
      ensures parsed <==> d.lastSeen.Parsed?
      ensures parsed ==> DevicesNoticed(before, first, repo.rows, repo.nextId, devices, i + 1, user, now)
      ensures !parsed ==> repo.rows == old(repo.rows) && repo.nextId == old(repo.nextId)
    {
      if !d.lastSeen.Parsed? {
        return false;
      }
      if d.lastSeen.instant < now - StaleAfter {
        var seen := repo.ExistsUnseenForDevice(d.id);
        if !seen {
          ghost var mid := repo.rows;
          var id := repo.Save(DeviceNotice(d, user, now));
          DeviceNoticeSaved(before, mid, repo.rows, devices, i, user, now, id);
        }
      }
      parsed := true;
    }

    /** `markNotificationsAsSeen`: all or nothing. If any listed notice
        belongs to another user nothing changes; ids that are not stored
        are ignored. */
    method MarkNotificationsAsSeen(ids: seq<nat>, current: Email) returns (outcome: Outcome)
      requires repo.Valid()
      modifies repo
      ensures repo.Valid() && repo.nextId == old(repo.nextId)
      ensures outcome == Ok || outcome == Unauthorized
      ensures outcome == Unauthorized <==>
        exists i :: 0 <= i < |ids| && ids[i] in old(repo.rows) && old(repo.rows)[ids[i]].user != current
      ensures outcome == Unauthorized ==> repo.rows == old(repo.rows)
      ensures outcome == Ok ==> repo.rows == SeenMarked(old(repo.rows), ids)
    {
      var i := 0;
      while i < |ids|
        invariant 0 <= i <= |ids|
        invariant forall k :: 0 <= k < i ==> ids[k] !in repo.rows || repo.rows[ids[k]].user == current
      {
        if ids[i] in repo.rows && repo.rows[ids[i]].user != current {
          return Unauthorized;
        }
        i := i + 1;
      }
      repo.MarkSeen(ids);
      outcome := Ok;
    }

    /** `deleteNotification`: exactly the named notice goes, and only for
        its owner. */
    method DeleteNotification(id: nat, current: Email) returns (outcome: Outcome)
      requires repo.Valid()
      modifies repo
      ensures repo.Valid() && repo.nextId == old(repo.nextId)
      ensures outcome == NotFound <==> id !in old(repo.rows)
      ensures outcome == Unauthorized <==> id in old(repo.rows) && old(repo.rows)[id].user != current
      ensures outcome != Ok ==> repo.rows == old(repo.rows)
      ensures outcome == Ok ==> repo.rows == old(repo.rows) - {id}
    {
      if id !in repo.rows {
        return NotFound;
      }
      if repo.rows[id].user != current {
        return Unauthorized;
      }
      repo.Delete(id);
      outcome := Ok;
    }

    /** `getUnseenNotificationsByUser`: returns the user's unseen notices
        as they were read, and marks exactly those as seen. */
    method GetUnseenNotificationsByUser(current: Email) returns (ns: seq<Notification>)
      requires repo.Valid()
      modifies repo
      ensures repo.Valid() && repo.nextId == old(repo.nextId)
      ensures ListsUnseenOf(ns, old(repo.rows), current)
      ensures repo.rows.Keys == old(repo.rows).Keys
      ensures forall id :: id in repo.rows ==>
        repo.rows[id] == if id in UnseenOf(old(repo.rows), current) then old(repo.rows)[id].(isSeen := true)
                         else old(repo.rows)[id]
    {
      ns := repo.FindUnseenByUser(current);
      var ids := NotificationIds(ns);
      assert forall id :: id in ids <==> id in UnseenOf(repo.rows, current) by {
        forall id
          ensures id in ids <==> id in (set n | n in ns :: n.notificationId)
        {
          if id in ids {
            var k :| 0 <= k < |ids| && ids[k] == id;
            assert ns[k] in ns;
          }
          if id in (set n | n in ns :: n.notificationId) {
            var n :| n in ns && n.notificationId == id;
            var k :| 0 <= k < |ns| && ns[k] == n;
            assert ids[k] == id;
          }
        }
      }
      var outcome := MarkNotificationsAsSeen(ids, current);
      assert outcome == Ok;
    }

    /** `checkBlockedContent`, one account's page: every blocked query by
        a stored rule notifies the rule's owner, in log order; the page
        stops at the first such record whose time does not parse, keeping
        what it saved. */
    method NotifyBlocked(logs: seq<Log>) returns (ok: bool)
      requires repo.Valid()
      modifies repo
      ensures repo.Valid()
      ensures ok <==> FirstUndated(logs, policies.rows) == |logs|
      ensures repo.nextId == old(repo.nextId) + |Notices(logs[..FirstUndated(logs, policies.rows)], policies.rows)|
      ensures repo.rows == Numbered(old(repo.rows), old(repo.nextId),
                                    Notices(logs[..FirstUndated(logs, policies.rows)], policies.rows))
    {
      ghost var rules := policies.rows;
      ghost var stop := FirstUndated(logs, rules);
      var i := 0;
      while i < |logs|
        invariant 0 <= i <= stop
        invariant policies.rows == rules
        invariant repo.Valid() && PageSoFar(old(repo.rows), old(repo.nextId), repo.rows, repo.nextId, logs, i, rules)
      {
        var dated := NotifyLog(logs[i], logs, i, old(repo.rows), old(repo.nextId));
        if !dated {
          return false;
        }
        i := i + 1;
      }
      assert logs[..i] == logs;
      ok := true;
    }

    /** One record of a page: a blocked query by a stored rule is saved
        as its owner's notice, unless its time does not parse. */
    method NotifyLog(l: Log, ghost logs: seq<Log>, ghost i: nat, ghost before: map<nat, Notification>,
                     ghost first: nat) returns (dated: bool)
      requires i < |logs| && l == logs[i] && i <= FirstUndated(logs, policies.rows)
      requires repo.Valid()
      requires PageSoFar(before, first, repo.rows, repo.nextId, logs, i, policies.rows)
      modifies repo
      ensures dated <==> i < FirstUndated(logs, policies.rows)
      ensures repo.Valid()
      ensures !dated ==> repo.rows == old(repo.rows) && repo.nextId == old(repo.nextId)
      ensures dated ==> PageSoFar(before, first, repo.rows, repo.nextId, logs, i + 1, policies.rows)
    {
      FirstUndatedAt(logs, i, policies.rows);
      var rule := None;
      if l.resolverDecision == BlockedDecision {
        rule := policies.FindById(l.policyId);
      }
      if rule.None? {
        PageStepSkipped(before, first, repo.rows, repo.nextId, logs, i, policies.rows);
        return true;
      }
      if l.datetime.None? {
        return false;
      }
      PageStepSaved(before, first, repo.rows, repo.nextId, logs, i, policies.rows);
      var id := repo.Save(LogNotice(l, policies.rows));
      dated := true;
    }

    /** `checkBlockedContent`: one query per stored account over the last
        five minutes, each page handled by `NotifyBlocked`. A failed query
        or a record whose time does not parse ends the sweep, keeping the
        notices already saved. `fetch` is the gateway's answer to a query. */
    method CheckBlockedContent(now: Instant, instantText: Instant -> string,
                               fetch: map<Variable, Value> -> Remote<seq<Log>>) returns (ok: bool)
      requires repo.Valid()
      modifies repo
      ensures repo.Valid() && old(repo.nextId) <= repo.nextId
      ensures Keeps(old(repo.rows), repo.rows) && AddedFrom(old(repo.rows), repo.rows, old(repo.nextId))
      ensures forall id :: id in repo.rows && id !in old(repo.rows) ==>
        FromSweep(repo.rows[id], now, instantText, fetch, policies.rows, accounts.accounts)
      ensures ok ==> forall a :: a in accounts.accounts ==> fetch(SweepVariables(a, now, instantText)).Reply?
    {
      var ids := accounts.FindAllIds();
      ghost var rules := policies.rows;
      ghost var accs := accounts.accounts;
      var k := 0;
      while k < |ids|
        invariant 0 <= k <= |ids|
        invariant policies.rows == rules && accounts.accounts == accs
        invariant repo.Valid() && old(repo.nextId) <= repo.nextId
        invariant SweptSoFar(old(repo.rows), old(repo.nextId), repo.rows, now, instantText, fetch, rules, accs)
        invariant forall a :: a in ids[..k] ==> fetch(SweepVariables(a, now, instantText)).Reply?
      {
        var reply := fetch(SweepVariables(ids[k], now, instantText));
        if reply.Failed? {
          return false;
        }
        ghost var before := repo.rows;
        ghost var first := repo.nextId;
        var pageOk := NotifyBlocked(reply.body);
        SweepStep(old(repo.rows), old(repo.nextId), before, first, repo.rows, reply.body, rules, ids[k],
                  now, instantText, fetch, accs);
        if !pageOk {
          return false;
        }
        assert ids[..k + 1] == ids[..k] + [ids[k]];
        k := k + 1;
      }
      assert ids[..k] == ids;
      ok := true;
    }
  }

  /** The invariant of the sweep: the rows `start` held are kept, and
      every row added since, under an id from `first`, is the notice of a
      record of some stored account's page. */
  ghost predicate SweptSoFar(start: map<nat, Notification>, first: nat, rows: map<nat, Notification>,
                             now: Instant, instantText: Instant -> string,
                             fetch: map<Variable, Value> -> Remote<seq<Log>>,
                             rules: map<string, Policy>, accounts: map<string, Account>)
  {
    Keeps(start, rows) && AddedFrom(start, rows, first)
    && forall id :: id in rows && id !in start ==> FromSweep(rows[id], now, instantText, fetch, rules, accounts)
  }

  /** One more page keeps the sweep's invariant: every notice added since
      the sweep began comes from some account's page. */
  lemma SweepStep(start: map<nat, Notification>, first0: nat, before: map<nat, Notification>, first: nat,
                  after: map<nat, Notification>, logs: seq<Log>, rules: map<string, Policy>, a: string,
                  now: Instant, instantText: Instant -> string,
                  fetch: map<Variable, Value> -> Remote<seq<Log>>, accounts: map<string, Account>)
    requires a in accounts && fetch(SweepVariables(a, now, instantText)) == Reply(logs)
    requires forall id :: id in before ==> id < first
    requires first0 <= first && SweptSoFar(start, first0, before, now, instantText, fetch, rules, accounts)
    requires after == Numbered(before, first, Notices(logs[..FirstUndated(logs, rules)], rules))
    ensures SweptSoFar(start, first0, after, now, instantText, fetch, rules, accounts)
  {
    PageSound(before, first, logs, rules);
    forall id | id in after && id !in start
      ensures FromSweep(after[id], now, instantText, fetch, rules, accounts)
    {
      if id in before {
        assert after[id] == before[id];
      }
    }
  }
}
