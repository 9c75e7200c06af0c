// The device service: listing the current user's physical devices, which
// de-duplicates the gateway's list by serial number (keeping the most
// recently seen device of each serial and asking the gateway to delete the
// others), marks the user as set up once they have both rules and a device,
// and raises stale-device notifications.
module DeviceService {

  import opened Wrappers
  import opened Entities
  import opened Notifications

  /** `Instant.MIN` in seconds: what a missing last-seen time counts as. */
  const InstantMin: Instant := -31557014167219200

  /** `parseLastSeen`: a missing time is the minimum instant, ISO text its
      instant; `None` stands for the parse exception. */
  function ParseLastSeen(s: LastSeen): (t: Option<Instant>)
    ensures t.None? <==> s.Malformed?
    ensures s.Parsed? ==> t == Some(s.instant)
  {
    match s
    case Absent => Some(InstantMin)
    case Parsed(t) => Some(t)
    case Malformed => None
  }

  /** `isNewerDevice`: strictly later last-seen time; a time that does not
      parse makes the comparison fail, which counts as "not newer". */
  predicate IsNewer(d: Device, e: Device)
  {
    var t, u := ParseLastSeen(d.lastSeen), ParseLastSeen(e.lastSeen);
    t.Some? && u.Some? && t.value > u.value
  }

  /** "Newer" is a strict order, so the kept device of a serial is well defined. */
  lemma IsNewerStrictOrder(a: Device, b: Device, c: Device)
    ensures !IsNewer(a, a)
    ensures IsNewer(a, b) ==> !IsNewer(b, a)
    ensures IsNewer(a, b) && IsNewer(b, c) ==> IsNewer(a, c)
  {
  }

  /** A device never seen is newer than none, and older than every device
      whose time parses to an instant after `Instant.MIN`. */
  lemma AbsentIsOldest(a: Device, b: Device)
    requires a.lastSeen.Absent?
    requires b.lastSeen.Parsed? ==> b.lastSeen.instant >= InstantMin
    ensures !IsNewer(a, b)
    ensures b.lastSeen.Parsed? && b.lastSeen.instant > InstantMin ==> IsNewer(b, a)
  {
  }

  /** The state of the de-duplication after some prefix of the listing:
      `keptAt` maps each serial seen so far to the index of the device kept
      for it; `deletes` are the ids whose deletion was requested, in order,
      and `deletedAt` the indices they came from. A record `None` is one
      whose mapping to a device threw, which the loop logs and skips. */
  datatype Dedup = Dedup(keptAt: map<string, nat>, deletes: seq<string>, deletedAt: seq<nat>)

  /** The map and the deletes `processDevices` has produced after `ds`. */
  function DedupOf(ds: seq<Option<Device>>): (r: Dedup)
    ensures forall s :: s in r.keptAt ==>
      r.keptAt[s] < |ds| && ds[r.keptAt[s]].Some? && ds[r.keptAt[s]].value.serialNumber == s
    ensures |r.deletes| == |r.deletedAt|
    ensures forall k :: 0 <= k < |r.deletedAt| ==>
      r.deletedAt[k] < |ds| && ds[r.deletedAt[k]].Some? && r.deletes[k] == ds[r.deletedAt[k]].value.id
    decreases |ds|
  {
    if ds == [] then Dedup(map[], [], [])
    else
      var r := DedupOf(ds[..|ds| - 1]);
      var i := |ds| - 1;
      match ds[i]
      case None => r
      case Some(d) =>
        if d.serialNumber == "" then r
        else if d.serialNumber !in r.keptAt then
          Dedup(r.keptAt[d.serialNumber := i], r.deletes, r.deletedAt)
        else
          var k := r.keptAt[d.serialNumber];
          if IsNewer(d, ds[k].value) then
            Dedup(r.keptAt[d.serialNumber := i], r.deletes + [ds[k].value.id], r.deletedAt + [k])
          else
            Dedup(r.keptAt, r.deletes + [d.id], r.deletedAt + [i])
  }

  /** Index `j` holds a device that maps and has serial `s`. */
  predicate HasSerial(ds: seq<Option<Device>>, j: int, s: string)
  {
    0 <= j < |ds| && ds[j].Some? && ds[j].value.serialNumber == s
  }

  /** The number of records that map to a device with a serial number. */
  function CountWithSerial(ds: seq<Option<Device>>): nat
  {
    if ds == [] then 0
    else
      var d := ds[|ds| - 1];
      CountWithSerial(ds[..|ds| - 1]) + if d.Some? && d.value.serialNumber != "" then 1 else 0
  }

  /** Exactly the non-empty serials that occur are kept. */
  lemma {:induction false} DedupKeys(ds: seq<Option<Device>>, s: string)
    ensures s in DedupOf(ds).keptAt <==> s != "" && exists j :: HasSerial(ds, j, s)
    decreases |ds|
  {
    if ds != [] {
      var p := ds[..|ds| - 1];
      DedupKeys(p, s);
      var r := DedupOf(p);
      if s in DedupOf(ds).keptAt && s !in r.keptAt {
        assert HasSerial(ds, |p|, s);
      }
      if s != "" && exists j :: HasSerial(p, j, s) {
        var j :| HasSerial(p, j, s);
        assert HasSerial(ds, j, s);
      }
      if s != "" && exists j :: HasSerial(ds, j, s) {
        var j :| HasSerial(ds, j, s);
        if j < |p| {
          assert HasSerial(p, j, s);
        } else {
          assert ds[|p|].Some? && ds[|p|].value.serialNumber == s;
          assert s in DedupOf(ds).keptAt;
        }
      }
    }
  }

  /** Every record with a serial produces exactly one entry of the result:
      it is kept, or one delete is issued for it. */
  lemma {:induction false} DedupCount(ds: seq<Option<Device>>)
    ensures |DedupOf(ds).deletes| + |DedupOf(ds).keptAt| == CountWithSerial(ds)
    decreases |ds|
  {
    if ds != [] {
      var p := ds[..|ds| - 1];
      DedupCount(p);
      var r := DedupOf(p);
      var d := ds[|ds| - 1];
      if d.Some? && d.value.serialNumber != "" && d.value.serialNumber in r.keptAt {
        assert DedupOf(ds).keptAt.Keys == r.keptAt.Keys;
      }
    }
  }

  /** No device listed after the kept one of its serial is newer than it
      (on a tie the first one stays). */
  lemma {:induction false} KeptNotOutdatedByLater(ds: seq<Option<Device>>, s: string, j: nat)
    requires s in DedupOf(ds).keptAt
    requires DedupOf(ds).keptAt[s] < j && HasSerial(ds, j, s)
    ensures !IsNewer(ds[j].value, ds[DedupOf(ds).keptAt[s]].value)
    decreases |ds|
  {
    var p := ds[..|ds| - 1];
    var r := DedupOf(p);
    DedupKeys(p, s);
    if j < |p| {
      assert HasSerial(p, j, s);
      KeptNotOutdatedByLater(p, s, j);
    } else {
      // the last device, not kept, so it was not newer than the kept one
      assert s in r.keptAt && DedupOf(ds).keptAt[s] == r.keptAt[s];
    }
  }

  /** The kept device of a serial is newer than every device of that
      serial listed before it, except one whose time does not parse. */
  lemma {:induction false} KeptNewerThanEarlier(ds: seq<Option<Device>>, s: string, j: nat)
    requires s in DedupOf(ds).keptAt
    requires j < DedupOf(ds).keptAt[s] && HasSerial(ds, j, s)
    ensures ds[j].value.lastSeen.Malformed? || IsNewer(ds[DedupOf(ds).keptAt[s]].value, ds[j].value)
    decreases |ds|
  {
    var p := ds[..|ds| - 1];
    var r := DedupOf(p);
    var i := |ds| - 1;
    var k := DedupOf(ds).keptAt[s];
    assert HasSerial(p, j, s);
    DedupKeys(p, s);
    if k == i {
      // the last device took over serial s from the one kept before it
      var k' := r.keptAt[s];
      var d, e := ds[i].value, ds[k'].value;
      assert IsNewer(d, e);
      if j < k' {
        KeptNewerThanEarlier(p, s, j);
        IsNewerStrictOrder(d, e, ds[j].value);
      } else if k' < j {
        KeptNotOutdatedByLater(p, s, j);
      }
    } else {
      KeptNewerThanEarlier(p, s, j);
    }
  }

  /** When every device of a serial has a readable time, the kept one is
      the first that is seen last: no other is later, and every earlier
      one is strictly earlier. */
  lemma KeptIsFirstLatest(ds: seq<Option<Device>>, s: string, j: nat)
    requires s in DedupOf(ds).keptAt && HasSerial(ds, j, s)
    requires forall i :: HasSerial(ds, i, s) ==> !ds[i].value.lastSeen.Malformed?
    ensures var t, u := ParseLastSeen(ds[j].value.lastSeen), ParseLastSeen(ds[DedupOf(ds).keptAt[s]].value.lastSeen);
      t.Some? && u.Some? && t.value <= u.value && (j < DedupOf(ds).keptAt[s] ==> t.value < u.value)
  {
    var k := DedupOf(ds).keptAt[s];
    assert HasSerial(ds, k, s);
    if j < k {
      KeptNewerThanEarlier(ds, s, j);
    } else if k < j {
      KeptNotOutdatedByLater(ds, s, j);
    }
  }

  /** The deletes name devices that are not kept, each listed record at
      most once. */
  lemma {:induction false} DeletedNotKept(ds: seq<Option<Device>>)
    ensures forall k :: 0 <= k < |DedupOf(ds).deletedAt| ==>
      DedupOf(ds).deletedAt[k] !in DedupOf(ds).keptAt.Values
    ensures forall k, l :: 0 <= k < l < |DedupOf(ds).deletedAt| ==>
      DedupOf(ds).deletedAt[k] != DedupOf(ds).deletedAt[l]
    decreases |ds|
  {
    if ds != [] {
      var p := ds[..|ds| - 1];
      DeletedNotKept(p);
      var r := DedupOf(p);
      var i := |ds| - 1;
      var r' := DedupOf(ds);
      if ds[i].Some? && ds[i].value.serialNumber != "" && ds[i].value.serialNumber in r.keptAt {
        var sn := ds[i].value.serialNumber;
        var k0 := r.keptAt[sn];
        if IsNewer(ds[i].value, ds[k0].value) {
          // the device kept so far is deleted and the last one takes its place
          assert r'.keptAt == r.keptAt[sn := i] && r'.deletedAt == r.deletedAt + [k0];
          forall s | s in r'.keptAt
            ensures r'.keptAt[s] != k0
          {
            if s != sn {
              assert r'.keptAt[s] == r.keptAt[s];
            }
          }
        } else {
          assert r'.keptAt == r.keptAt && r'.deletedAt == r.deletedAt + [i];
        }
      } else {
        assert r'.deletedAt == r.deletedAt;
      }
    }
  }

  /** `devices` is the de-duplicated listing of `ds`: every entry is the
      kept device of its serial, and every kept device occurs once. */
  ghost predicate Deduplicated(devices: seq<Device>, ds: seq<Option<Device>>)
  {
    var r := DedupOf(ds);
    (forall i :: 0 <= i < |devices| ==>
      devices[i].serialNumber in r.keptAt && devices[i] == ds[r.keptAt[devices[i].serialNumber]].value)
    && (set d | d in devices :: d.serialNumber) == r.keptAt.Keys
    && (forall i, j :: 0 <= i < j < |devices| ==> devices[i].serialNumber != devices[j].serialNumber)
  }

  /** The output has no device without a serial, and one per serial that
      occurs in the listing. */
  lemma DeduplicatedSerials(devices: seq<Device>, ds: seq<Option<Device>>, s: string)
    requires Deduplicated(devices, ds)
    ensures s in (set d | d in devices :: d.serialNumber) <==> s != "" && exists j :: HasSerial(ds, j, s)
  {
    DedupKeys(ds, s);
  }

  /** `processDevices`: the devices kept by serial, in the map's order, and
      the deletes issued for the others. */
  method ProcessDevices(ds: seq<Option<Device>>) returns (devices: seq<Device>, deletes: seq<string>)
    ensures Deduplicated(devices, ds)
    ensures deletes == DedupOf(ds).deletes
  {
    if ds == [] {
      return [], [];
    }
    var unique: map<string, Device> := map[];
    deletes := [];
    var i := 0;
    while i < |ds|
      invariant i <= |ds|
      invariant unique.Keys == DedupOf(ds[..i]).keptAt.Keys
      invariant forall s :: s in unique ==> unique[s] == ds[DedupOf(ds[..i]).keptAt[s]].value
      invariant deletes == DedupOf(ds[..i]).deletes
    {
      assert ds[..i + 1][..i] == ds[..i];
      if ds[i].Some? {
        var d := ds[i].value;
        if d.serialNumber != "" {
          if d.serialNumber in unique {
            var existing := unique[d.serialNumber];
            if IsNewer(d, existing) {
              deletes := deletes + [existing.id];
              unique := unique[d.serialNumber := d];
            } else {
              deletes := deletes + [d.id];
            }
          } else {
            unique := unique[d.serialNumber := d];
          }
        }
      }
      i := i + 1;
    }
    assert ds[..i] == ds;
    devices := Values(unique);
  }

  /** `new ArrayList<>(map.values())`: each value once, in some order. */
  method Values(m: map<string, Device>) returns (vs: seq<Device>)
    requires forall s :: s in m ==> m[s].serialNumber == s
    ensures forall i :: 0 <= i < |vs| ==> vs[i].serialNumber in m && vs[i] == m[vs[i].serialNumber]
    ensures (set d | d in vs :: d.serialNumber) == m.Keys
    ensures forall i, j :: 0 <= i < j < |vs| ==> vs[i].serialNumber != vs[j].serialNumber
  {
    var left := m.Keys;
    vs := [];
    while left != {}
      invariant left <= m.Keys
      invariant forall i :: 0 <= i < |vs| ==> vs[i].serialNumber in m && vs[i] == m[vs[i].serialNumber]
      invariant forall s :: s in m ==> (s in left <==> s !in (set d | d in vs :: d.serialNumber))
      invariant forall i, j :: 0 <= i < j < |vs| ==> vs[i].serialNumber != vs[j].serialNumber
      decreases left
    {
      var s :| s in left;
      vs := vs + [m[s]];
      left := left - {s};
    }
  }

  class DeviceService {
    const users: UserRepository
    const policies: PolicyRepository
    const notifications: NotificationService

    constructor (users: UserRepository, policies: PolicyRepository, notifications: NotificationService)
      ensures this.users == users && this.policies == policies && this.notifications == notifications
    {
      this.users := users;
      this.policies := policies;
      this.notifications := notifications;
    }

    /** `getDevicesByUser` for the signed-in user `current`, given the
        gateway's reply to the device listing (`Failed` for an exception,
        `None` for a reply without a `result` list). `ok` is false when the
        call throws; `devices` is the list it returns, and `deletes` the
        delete requests it issues. The `isSetUp` flag and the notifications
        are written before the notification step can throw, and stay. */
    method GetDevicesByUser(current: Email, reply: Remote<Option<seq<Option<Device>>>>, now: Instant)
      returns (ok: bool, devices: seq<Device>, deletes: seq<string>)
      requires users.Valid() && notifications.repo.Valid()
      modifies users, notifications.repo
      ensures users.Valid() && notifications.repo.Valid()
      ensures current !in old(users.users) || reply.Failed? || reply.body.None? ==>
        !ok && devices == [] && deletes == []
        && users.users == old(users.users) && notifications.repo.rows == old(notifications.repo.rows)
      ensures current in old(users.users) && reply.Reply? && reply.body.Some? ==>
        var u := old(users.users)[current];
        Deduplicated(devices, reply.body.value)
        && deletes == DedupOf(reply.body.value).deletes
        && users.users == (if !u.isSetUp && OwnedBy(policies.rows, current) != {} && devices != []
                           then old(users.users)[current := u.(isSetUp := true)]
                           else old(users.users))
        && (ok <==> FirstUnparsed(devices) == |devices|)
        && Keeps(old(notifications.repo.rows), notifications.repo.rows)
        && AddedFrom(old(notifications.repo.rows), notifications.repo.rows, old(notifications.repo.nextId))
        && OnlyStaleNotices(old(notifications.repo.rows), notifications.repo.rows, devices,
                            FirstUnparsed(devices), current, now)
        && StaleNoticed(notifications.repo.rows, devices, FirstUnparsed(devices), now)
    {
      var found := users.FindByEmail(current);
      if found.None? || reply.Failed? || reply.body.None? {
        return false, [], [];
      }
      var user := found.value;
      devices, deletes := ProcessDevices(reply.body.value);
      if !user.isSetUp && policies.CountByUser(user.email) > 0 && devices != [] {
        users.Save(user.(isSetUp := true));
      }
      ok := notifications.CreateNotificationForDevices(devices, user.email, now);
    }
  }
}
