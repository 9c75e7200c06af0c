// Support appointments: the half-hour slots offered for a day, the check a
// requested time must pass, and booking. Times are UTC date-times in whole
// seconds since the epoch; a date is a day number, day `d` starting at
// `d * Day`.
module Appointments {

  import opened Entities

  type DateTime = int
  type Date = int

  /** A booked call; `id` is assigned by the table. */
  datatype Appointment = Appointment(id: int, userEmail: Email, phoneNumber: string, at: DateTime)

  /** Working hours, slot length, the notice a booking needs and the margin
      that must stay free around it. */
  const OpeningTime: int := 8 * Hour
  const ClosingTime: int := 16 * Hour
  const SlotLength: int := 30 * Minute
  const LeadTime: int := 2 * Hour
  const Margin: int := 29 * Minute

  /** The last second `getAvailableSlots` asks about: 23:59:59. */
  const EndOfDay: int := 23 * Hour + 59 * Minute + 59

  /** `toLocalDate`: the day a date-time falls on. */
  function DateOf(t: DateTime): (d: Date)
    ensures d * Day <= t < d * Day + Day
  {
    t / Day
  }

  /** The `k`-th candidate slot of `date`. */
  function Candidate(date: Date, k: int): DateTime
  {
    date * Day + OpeningTime + k * SlotLength
  }

  predicate Increasing(s: seq<DateTime>)
  {
    forall i, j :: 0 <= i < j < |s| ==> s[i] < s[j]
  }

  /** `findByAppointmentDateTimeBetween(start, end)`, reduced to the times
      it yields: both bounds are included. */
  function TimesBetween(rows: map<int, Appointment>, start: DateTime, end: DateTime): (ts: set<DateTime>)
    ensures forall k :: k in rows && start <= rows[k].at <= end ==> rows[k].at in ts
    ensures forall t :: t in ts ==> start <= t <= end && exists k :: k in rows && rows[k].at == t
  {
    set k | k in rows && start <= rows[k].at <= end :: rows[k].at
  }

  /** A stream `filter`: the elements `keep` accepts, in their order. */
  function Filter(s: seq<DateTime>, keep: DateTime -> bool): (r: seq<DateTime>)
    ensures forall t :: t in r <==> t in s && keep(t)
    ensures |r| <= |s|
  {
    if s == [] then []
    else if keep(s[0]) then [s[0]] + Filter(s[1..], keep)
    else Filter(s[1..], keep)
  }

  /** Filtering keeps the order. */
  lemma {:induction false} FilterIncreasing(s: seq<DateTime>, keep: DateTime -> bool)
    requires Increasing(s)
    ensures Increasing(Filter(s, keep))
  {
    if s != [] {
      var rest := Filter(s[1..], keep);
      assert Increasing(s[1..]) by {
        forall i, j | 0 <= i < j < |s[1..]|
          ensures s[1..][i] < s[1..][j]
        {
          assert s[1..][i] == s[i + 1] && s[1..][j] == s[j + 1];
        }
      }
      FilterIncreasing(s[1..], keep);
      if keep(s[0]) {
        var r := [s[0]] + rest;
        forall i, j | 0 <= i < j < |r|
          ensures r[i] < r[j]
        {
          if i == 0 {
            assert r[j] == rest[j - 1] && rest[j - 1] in rest;
            var m :| 0 <= m < |s[1..]| && s[1..][m] == r[j];
            assert s[m + 1] == r[j];
          } else {
            assert r[i] == rest[i - 1] && r[j] == rest[j - 1];
          }
        }
      }
    }
  }

  /** Two increasing sequences with the same elements are the same
      sequence: membership and order pin a filtered list down. */
  lemma {:induction false} IncreasingSameElements(a: seq<DateTime>, b: seq<DateTime>)
    requires Increasing(a) && Increasing(b)
    requires forall t :: t in a <==> t in b
    ensures a == b
    decreases |a|
  {
    assert a != [] ==> a[0] in a && a[0] in b;
    assert b != [] ==> b[0] in b && b[0] in a;
    if a != [] && b != [] {
      assert a[0] in b && b[0] in a;
      assert a[0] == b[0];
      forall t
        ensures t in a[1..] <==> t in b[1..]
      {
        if t in a[1..] {
          assert t > a[0] && t in b;
        }
        if t in b[1..] {
          assert t > b[0] && t in a;
        }
      }
      IncreasingSameElements(a[1..], b[1..]);
      assert a == [a[0]] + a[1..] && b == [b[0]] + b[1..];
    }
  }

  /** The candidates fall on the date, from 08:00 to 15:30, half an hour
      apart. */
  lemma CandidatesWithinHours(date: Date, k: int)
    requires 0 <= k < 16
    ensures DateOf(Candidate(date, k)) == date
    ensures date * Day + OpeningTime <= Candidate(date, k) <= date * Day + 15 * Hour + 30 * Minute
    ensures Candidate(date, k) < date * Day + ClosingTime
    ensures k > 0 ==> Candidate(date, k) - Candidate(date, k - 1) == SlotLength
  {
  }

  /** `isSlotAvailable`: the time is at least two hours away, and no
      appointment lies within 29 minutes of it either side. */
  function Free(rows: map<int, Appointment>, t: DateTime, now: DateTime): (ok: bool)
    ensures ok <==> t >= now + LeadTime && forall k :: k in rows ==> !(t - Margin <= rows[k].at <= t + Margin)
  {
    if t < now + LeadTime then false
    else TimesBetween(rows, t - Margin, t + Margin) == {}
  }

  /** What `getAvailableSlots(date)` lists: a candidate slot of the date
      at which no appointment starts, and, when the date is today, more
      than two hours away. */
  ghost predicate Listed(rows: map<int, Appointment>, date: Date, now: DateTime, t: DateTime)
  {
    (exists k :: 0 <= k < 16 && t == Candidate(date, k))
    && (forall id :: id in rows ==> rows[id].at != t)
    && (date == DateOf(now) ==> t > now + LeadTime)
  }

  /** Stored appointments lie more than the margin apart. */
  ghost predicate Spaced(rows: map<int, Appointment>)
  {
    forall i, j :: i in rows && j in rows && i != j ==>
      rows[i].at - rows[j].at > Margin || rows[j].at - rows[i].at > Margin
  }

  /** No user has two appointments after `now`. */
  ghost predicate OneUpcoming(rows: map<int, Appointment>, now: DateTime)
  {
    forall i, j :: i in rows && j in rows && i != j && rows[i].userEmail == rows[j].userEmail
      ==> rows[i].at <= now || rows[j].at <= now
  }

  /** Whether `email` has an appointment after `now`
      (`existsByUserEmailAndAppointmentDateTimeAfter`). */
  predicate HasUpcoming(rows: map<int, Appointment>, email: Email, now: DateTime)
  {
    exists k :: k in rows && rows[k].userEmail == email && rows[k].at > now
  }

  /** A booking that passed `isSlotAvailable` keeps appointments spaced. */
  lemma BookingKeepsSpacing(rows: map<int, Appointment>, id: int, a: Appointment, now: DateTime)
    requires Spaced(rows) && id !in rows && Free(rows, a.at, now)
    ensures Spaced(rows[id := a])
  {
    var after := rows[id := a];
    forall i, j | i in after && j in after && i != j
      ensures after[i].at - after[j].at > Margin || after[j].at - after[i].at > Margin
    {
      if i == id {
        assert !(a.at - Margin <= rows[j].at <= a.at + Margin);
      } else if j == id {
        assert !(a.at - Margin <= rows[i].at <= a.at + Margin);
      }
    }
  }

  /** A booking made by a user with nothing upcoming leaves every user at
      most one upcoming appointment, now and at any later time. */
  lemma BookingKeepsOneUpcoming(rows: map<int, Appointment>, id: int, a: Appointment, now: DateTime, later: DateTime)
    requires OneUpcoming(rows, now) && id !in rows && !HasUpcoming(rows, a.userEmail, now)
    requires now <= later
    ensures OneUpcoming(rows[id := a], later)
  {
    var after := rows[id := a];
    forall i, j | i in after && j in after && i != j && after[i].userEmail == after[j].userEmail
      ensures after[i].at <= later || after[j].at <= later
    {
      if i == id {
        assert rows[j].userEmail == a.userEmail;
      } else if j == id {
        assert rows[i].userEmail == a.userEmail;
      }
    }
  }

  /** A listed slot can still be refused: the list drops only slots at
      which an appointment starts exactly, while the booking check keeps 29
      minutes clear either side. */
  lemma ListedYetRefused()
    ensures var rows := map[1 := Appointment(1, "a@b.cd", "", Day + 8 * Hour + 15 * Minute)];
      Listed(rows, 1, 0, Day + 8 * Hour) && !Free(rows, Day + 8 * Hour, 0)
  {
    var rows := map[1 := Appointment(1, "a@b.cd", "", Day + 8 * Hour + 15 * Minute)];
    assert Day + 8 * Hour == Candidate(1, 0);
    assert 1 in rows && Day + 8 * Hour - Margin <= rows[1].at <= Day + 8 * Hour + Margin;
  }

  class AppointmentRepository {
    var rows: map<int, Appointment>
    var nextId: int

    /** Every row is stored under its own id, and ids still to come are
        above every stored one. */
    ghost predicate Valid()
      reads this
    {
      forall k :: k in rows ==> rows[k].id == k && k < nextId
    }

    constructor ()
      ensures Valid() && rows == map[] && nextId == 1
    {
      rows := map[];
      nextId := 1;
    }

    /** `save` of a new appointment: it gets the next identity. */
    method Save(a: Appointment) returns (saved: Appointment)
      requires Valid()
      modifies this
      ensures Valid()
      ensures saved == a.(id := old(nextId)) && old(nextId) !in old(rows)
      ensures rows == old(rows)[saved.id := saved] && nextId == old(nextId) + 1
    {
      saved := a.(id := nextId);
      rows := rows[nextId := saved];
      nextId := nextId + 1;
    }

    /** `deleteById`. */
    method DeleteById(id: int)
      requires Valid()
      modifies this
      ensures Valid() && rows == old(rows) - {id} && nextId == old(nextId)
    {
      rows := rows - {id};
    }
  }

  /** Why `scheduleAppointment` throws. */
  datatype Booking = Booked(a: Appointment) | SlotUnavailable | AlreadyHasAppointment

  class SupportAppointmentService {
    const repo: AppointmentRepository

    constructor (repo: AppointmentRepository)
      ensures this.repo == repo
    {
      this.repo := repo;
    }

    /** The candidate slots of `date`: every half hour from 08:00 while
        strictly before 16:00. */
    method CandidateSlots(date: Date) returns (slots: seq<DateTime>)
      ensures |slots| == 16
      ensures forall k :: 0 <= k < |slots| ==> slots[k] == Candidate(date, k)
      ensures Increasing(slots)
    {
      slots := [];
      var current := date * Day + OpeningTime;
      while current < date * Day + ClosingTime
        invariant current == Candidate(date, |slots|)
        invariant |slots| <= 16
        invariant forall k :: 0 <= k < |slots| ==> slots[k] == Candidate(date, k)
        decreases date * Day + ClosingTime - current
      {
        slots := slots + [current];
        current := current + SlotLength;
      }
    }

    /** `getAvailableSlots(date)` at time `now`: the listed slots, in time
        order. */
    method GetAvailableSlots(date: Date, now: DateTime) returns (slots: seq<DateTime>)
      ensures Increasing(slots)
      ensures forall t :: t in slots <==> Listed(repo.rows, date, now, t)
    {
      var all := CandidateSlots(date);
      var booked := TimesBetween(repo.rows, date * Day, date * Day + EndOfDay);
      if date == DateOf(now) {
        FilterIncreasing(all, t => t > now + LeadTime);
        all := Filter(all, t => t > now + LeadTime);
      }
      FilterIncreasing(all, t => t !in booked);
      slots := Filter(all, t => t !in booked);
      forall t | t in slots
        ensures Listed(repo.rows, date, now, t)
      {
        var k :| 0 <= k < 16 && t == Candidate(date, k);
        CandidatesWithinHours(date, k);
      }
    }

    /** `scheduleAppointment` for the signed-in `current` user at `now`:
        the time must be free, then the user must have nothing upcoming;
        the appointment is stored under the user's email. */
    method ScheduleAppointment(appointment: Appointment, current: Email, now: DateTime) returns (r: Booking)
      requires repo.Valid()
      modifies repo
      ensures repo.Valid()
      ensures r == SlotUnavailable <==> !Free(old(repo.rows), appointment.at, now)
      ensures r == AlreadyHasAppointment <==>
        Free(old(repo.rows), appointment.at, now) && HasUpcoming(old(repo.rows), current, now)
      ensures !r.Booked? ==> repo.rows == old(repo.rows) && repo.nextId == old(repo.nextId)
      ensures r.Booked? ==>
        r.a == appointment.(id := old(repo.nextId), userEmail := current) && r.a.id !in old(repo.rows)
        && repo.rows == old(repo.rows)[r.a.id := r.a] && repo.nextId == old(repo.nextId) + 1
    {
      if !Free(repo.rows, appointment.at, now) {
        return SlotUnavailable;
      }
      if exists k :: k in repo.rows && repo.rows[k].userEmail == current && repo.rows[k].at > now {
        return AlreadyHasAppointment;
      }
      var saved := repo.Save(appointment.(userEmail := current));
      r := Booked(saved);
    }
  }
}
