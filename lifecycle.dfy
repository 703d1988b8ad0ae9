/**
 * The booking lifecycle of the component: the admission gate of `handleBooking`, the
 * status update of `handleApproval`, the owner's and the boss's deletes, the facility
 * cascade delete and the add-facility form, over a store that stands in for the
 * `bookings` and `facilities` tables; and the two list filters the views use.
 */
module Lifecycle {
  import opened Wrappers
  import opened JsText
  import opened TimeOfDay
  import opened Filtering
  import opened Availability

  /** A profile's role: 'boss', or anything else, which the component treats as a client. */
  datatype Role = Boss | Client

  function BookingId(b: Booking): int { b.id }

  function FacilityId(f: Facility): int { f.id }

  // ---------------------------------------------------------------------------------
  // What is in memory: `loadBookings`, `getUserBookings`, `getPendingBookings`
  // ---------------------------------------------------------------------------------

  function OwnedBy(user: string): Booking -> bool { (b: Booking) => b.user == user }

  function IsPending(b: Booking): bool { b.status == Pending }

  /** `getUserBookings`: the bookings of the signed-in account, in list order. */
  function UserBookings(user: string, bs: seq<Booking>): (r: seq<Booking>)
    ensures |r| <= |bs|
    ensures forall b :: b in r <==> b in bs && b.user == user
  {
    Filter(OwnedBy(user), bs)
  }

  /** `getPendingBookings`: nothing for a client; the pending bookings for the boss. */
  function PendingBookings(role: Role, bs: seq<Booking>): (r: seq<Booking>)
    ensures role == Client ==> r == []
    ensures forall b :: b in r <==> role == Boss && b in bs && b.status == Pending
  {
    if role != Boss then [] else Filter(IsPending, bs)
  }

  /**
   * The list `loadBookings(role)` leaves in memory: the whole table for the boss, only the
   * account's own bookings for anyone else. The availability check runs on this list.
   */
  function LoadedBookings(role: Role, user: string, table: seq<Booking>): (r: seq<Booking>)
    ensures forall b :: b in r ==> b in table
    ensures role == Boss ==> r == table
    ensures role == Client ==> forall b :: b in r <==> b in table && b.user == user
  {
    if role == Boss then table else UserBookings(user, table)
  }

  /** Filtering the user's bookings again changes nothing. */
  lemma UserBookingsIdempotent(user: string, bs: seq<Booking>)
    ensures UserBookings(user, UserBookings(user, bs)) == UserBookings(user, bs)
  {
    FilterOfFilter(OwnedBy(user), OwnedBy(user), bs);
  }

  /**
   * Another account's booking is invisible to a client's admission check: adding it to
   * the table, approved or not and whatever its period, leaves the client's verdict as it was.
   */
  lemma ClientVerdictIgnoresOtherAccounts(
    fs: seq<Facility>, table: seq<Booking>, other: Booking, user: string,
    facilityText: string, date: string, start: string, end: string)
    requires other.user != user
    ensures CheckFacilityCapacity(fs, LoadedBookings(Client, user, table + [other]), facilityText, date, start, end)
         == CheckFacilityCapacity(fs, LoadedBookings(Client, user, table), facilityText, date, start, end)
  {
    FilterConcat(OwnedBy(user), table, [other]);
    assert [other][1..] == [];
    assert Filter(OwnedBy(user), [other]) == [];
    assert table + [] == table;
    assert LoadedBookings(Client, user, table + [other]) == LoadedBookings(Client, user, table);
  }

  // ---------------------------------------------------------------------------------
  // The admission gate of `handleBooking`
  // ---------------------------------------------------------------------------------

  /** The outcome of a booking request, one case per exit of `handleBooking`. */
  datatype Decision =
    | Admitted
    | EndNotAfterStart
    | MissingField
    | FullyBooked(verdict: Verdict)
    | TimeConflict(verdict: Verdict)

  /**
   * The guard sequence of `handleBooking`, in its order: the raw time strings must be in
   * order, every field must be filled, the verdict must say available, and the verdict
   * must report no overlap at all.
   */
  function Admission(
    fs: seq<Facility>, loaded: seq<Booking>, facilityText: string,
    date: string, start: string, end: string): (d: Decision)
    ensures d == EndNotAfterStart <==> !StrLess(start, end)
    ensures d == MissingField <==>
      StrLess(start, end) && (facilityText == [] || date == [] || start == [] || end == [])
    ensures d.FullyBooked? <==>
      && StrLess(start, end) && facilityText != [] && date != [] && start != [] && end != []
      && !CheckFacilityCapacity(fs, loaded, facilityText, date, start, end).available
    ensures d.TimeConflict? <==>
      && StrLess(start, end) && facilityText != [] && date != [] && start != [] && end != []
      && CheckFacilityCapacity(fs, loaded, facilityText, date, start, end).available
      && CheckFacilityCapacity(fs, loaded, facilityText, date, start, end).timeOverlap
    ensures (d.FullyBooked? || d.TimeConflict?) ==>
      d.verdict == CheckFacilityCapacity(fs, loaded, facilityText, date, start, end)
    ensures d.FullyBooked? ==> !d.verdict.available
    ensures d.TimeConflict? ==> d.verdict.available && d.verdict.booked > 0
  {
    if !StrLess(start, end) then EndNotAfterStart
    else if facilityText == [] || date == [] || start == [] || end == [] then MissingField
    else
      var v := CheckFacilityCapacity(fs, loaded, facilityText, date, start, end);
      if !v.available then FullyBooked(v)
      else if v.timeOverlap then TimeConflict(v)
      else Admitted
  }

  /**
   * A request is admitted exactly when its times are in string order, every field is
   * filled, the facility exists with a capacity of at least one, and no approved booking
   * in memory for that facility and date overlaps it.
   */
  lemma AdmittedIff(
    fs: seq<Facility>, loaded: seq<Booking>, facilityText: string,
    date: string, start: string, end: string)
    ensures Admission(fs, loaded, facilityText, date, start, end) == Admitted <==>
      && StrLess(start, end)
      && facilityText != [] && date != [] && start != [] && end != []
      && Lookup(fs, facilityText).Some?
      && Lookup(fs, facilityText).value.capacity >= 1
      && forall b | b in loaded :: !Occupies(Lookup(fs, facilityText).value.id, date, start, end, b)
  {
  }

  /**
   * Any overlap with an approved booking blocks admission, even when capacity remains:
   * with units left the outcome is a time conflict, not admission.
   */
  lemma OverlapBlocksAdmission(
    fs: seq<Facility>, loaded: seq<Booking>, facilityText: string,
    date: string, start: string, end: string, b: Booking)
    requires Lookup(fs, facilityText).Some?
    requires b in loaded && Occupies(Lookup(fs, facilityText).value.id, date, start, end, b)
    ensures Admission(fs, loaded, facilityText, date, start, end) != Admitted
    ensures var v := CheckFacilityCapacity(fs, loaded, facilityText, date, start, end);
            StrLess(start, end) && facilityText != [] && date != [] && start != [] && v.available ==>
              Admission(fs, loaded, facilityText, date, start, end) == TimeConflict(v)
  {
  }

  /**
   * The gate compares the raw strings, the overlap test compares minutes; for "HH:MM"
   * inputs an admitted period starts strictly before it ends in minutes too.
   */
  lemma AdmittedPeriodIsOrdered(
    fs: seq<Facility>, loaded: seq<Booking>, facilityText: string,
    date: string, start: string, end: string)
    requires IsClock(start) && IsClock(end)
    requires Admission(fs, loaded, facilityText, date, start, end) == Admitted
    ensures TimeToMinutes(start).Some? && TimeToMinutes(end).Some?
    ensures TimeToMinutes(start).value < TimeToMinutes(end).value
  {
    ClockOrder(start, end);
    ClockMinutes(start);
    ClockMinutes(end);
  }

  /**
   * The time order is checked before the fields are: a request with both times empty is
   * refused as "end not after start", not as a missing field.
   */
  lemma EmptyTimesFailTheOrderCheck(
    fs: seq<Facility>, loaded: seq<Booking>, facilityText: string, date: string)
    ensures Admission(fs, loaded, facilityText, date, [], []) == EndNotAfterStart
  {
  }

  /**
   * The add-facility form accepts any number, and a facility whose capacity is zero or
   * negative can never be booked.
   */
  lemma NoCapacityNeverAdmits(
    fs: seq<Facility>, loaded: seq<Booking>, facilityText: string,
    date: string, start: string, end: string)
    requires Lookup(fs, facilityText).Some? && Lookup(fs, facilityText).value.capacity <= 0
    ensures Admission(fs, loaded, facilityText, date, start, end) != Admitted
  {
  }

  // ---------------------------------------------------------------------------------
  // The table updates of the handlers
  // ---------------------------------------------------------------------------------

  /** The update of `handleApproval`: `status` of every row with that id. */
  function WithStatus(bs: seq<Booking>, id: int, status: Status): (r: seq<Booking>)
    ensures |r| == |bs|
    ensures forall i | 0 <= i < |bs| :: r[i].id == bs[i].id && r[i].facility == bs[i].facility
    ensures forall b | b in r && b.id == id :: b.status == status
  {
    seq(|bs|, i requires 0 <= i < |bs| => if bs[i].id == id then bs[i].(status := status) else bs[i])
  }

  /**
   * Approval or rejection rewrites the status of the rows with that id and nothing else:
   * every other field of those rows, and every other row, is as it was.
   */
  lemma WithStatusChangesOnlyStatus(bs: seq<Booking>, id: int, status: Status)
    ensures var r := WithStatus(bs, id, status);
      forall i | 0 <= i < |bs| ::
        && r[i].(status := bs[i].status) == bs[i]
        && (bs[i].id == id ==> r[i].status == status)
        && (bs[i].id != id ==> r[i] == bs[i])
  {
  }

  lemma WithStatusKeepsIds(bs: seq<Booking>, id: int, status: Status)
    requires Distinct(BookingId, bs)
    ensures Distinct(BookingId, WithStatus(bs, id, status))
    ensures forall b | b in WithStatus(bs, id, status) :: exists c | c in bs :: c.id == b.id
  {
    var r := WithStatus(bs, id, status);
    forall b | b in r ensures exists c | c in bs :: c.id == b.id {
      var i :| 0 <= i < |r| && r[i] == b;
      assert bs[i].id == b.id;
    }
  }

  function KeepUnlessOwned(id: int, user: string): Booking -> bool
  {
    (b: Booking) => !(b.id == id && b.user == user)
  }

  /** The delete of `handleCancelBooking`: rows with that id AND owned by the account. */
  function CancelOwned(bs: seq<Booking>, id: int, user: string): (r: seq<Booking>)
    ensures forall b :: b in r <==> b in bs && !(b.id == id && b.user == user)
  {
    Filter(KeepUnlessOwned(id, user), bs)
  }

  /** An id the account does not own leaves the table as it was. */
  lemma CancelUnownedIsNoOp(bs: seq<Booking>, id: int, user: string)
    requires forall b | b in bs && b.id == id :: b.user != user
    ensures CancelOwned(bs, id, user) == bs
  {
    FilterKeepsAll(KeepUnlessOwned(id, user), bs);
  }

  /** With unique ids, cancelling an owned booking removes that row only, keeping order. */
  lemma CancelOwnedRemovesOne(bs: seq<Booking>, id: int, user: string, i: nat)
    requires Distinct(BookingId, bs)
    requires i < |bs| && bs[i].id == id && bs[i].user == user
    ensures CancelOwned(bs, id, user) == bs[..i] + bs[i + 1..]
  {
    forall j | 0 <= j < |bs| && j != i ensures KeepUnlessOwned(id, user)(bs[j]) {
      if j < i { assert BookingId(bs[j]) != BookingId(bs[i]); }
      else { assert BookingId(bs[i]) != BookingId(bs[j]); }
    }
    FilterRemovesOne(KeepUnlessOwned(id, user), bs, i);
  }

  function KeepUnlessId(id: int): Booking -> bool { (b: Booking) => b.id != id }

  /** The delete of `handleCancelBookingForBoss`: rows with that id, whoever owns them. */
  function DeleteBooking(bs: seq<Booking>, id: int): (r: seq<Booking>)
    ensures forall b :: b in r <==> b in bs && b.id != id
  {
    Filter(KeepUnlessId(id), bs)
  }

  /** With unique ids, the boss's delete removes that row only, whatever its owner or status. */
  lemma DeleteBookingRemovesOne(bs: seq<Booking>, id: int, i: nat)
    requires Distinct(BookingId, bs)
    requires i < |bs| && bs[i].id == id
    ensures DeleteBooking(bs, id) == bs[..i] + bs[i + 1..]
  {
    forall j | 0 <= j < |bs| && j != i ensures KeepUnlessId(id)(bs[j]) {
      if j < i { assert BookingId(bs[j]) != BookingId(bs[i]); }
      else { assert BookingId(bs[i]) != BookingId(bs[j]); }
    }
    FilterRemovesOne(KeepUnlessId(id), bs, i);
  }

  /** The owner's cancel is the boss's delete restricted to the owner's own rows. */
  lemma CancelOwnedIsDeleteWhenOwned(bs: seq<Booking>, id: int, user: string)
    requires forall b | b in bs && b.id == id :: b.user == user
    ensures CancelOwned(bs, id, user) == DeleteBooking(bs, id)
  {
    if bs != [] {
      CancelOwnedIsDeleteWhenOwned(bs[1..], id, user);
    }
  }

  function ForFacility(facilityId: int): Booking -> bool { (b: Booking) => RefersTo(b, facilityId) }

  function NotForFacility(facilityId: int): Booking -> bool { (b: Booking) => !RefersTo(b, facilityId) }

  function OtherFacility(facilityId: int): Facility -> bool { (f: Facility) => f.id != facilityId }

  /** First step of `handleDeleteFacility`: delete every booking of the facility. */
  function WithoutFacilityBookings(bs: seq<Booking>, facilityId: int): (r: seq<Booking>)
    ensures forall b :: b in r <==> b in bs && !RefersTo(b, facilityId)
  {
    Filter(NotForFacility(facilityId), bs)
  }

  /** Second step of `handleDeleteFacility`: delete the facility row. */
  function WithoutFacility(fs: seq<Facility>, facilityId: int): (r: seq<Facility>)
    ensures forall f :: f in r <==> f in fs && f.id != facilityId
  {
    Filter(OtherFacility(facilityId), fs)
  }

  lemma {:induction false} FindFacilityAfterDelete(fs: seq<Facility>, facilityId: int, id: int)
    requires id != facilityId
    ensures FindFacility(WithoutFacility(fs, facilityId), id) == FindFacility(fs, id)
  {
    if fs != [] {
      FindFacilityAfterDelete(fs[1..], facilityId, id);
      if fs[0].id != facilityId {
        assert WithoutFacility(fs, facilityId) == [fs[0]] + WithoutFacility(fs[1..], facilityId);
        assert ([fs[0]] + WithoutFacility(fs[1..], facilityId))[1..] == WithoutFacility(fs[1..], facilityId);
      } else {
        assert WithoutFacility(fs, facilityId) == WithoutFacility(fs[1..], facilityId);
      }
    }
  }

  lemma OccupyingAfterDelete(
    f: Facility, bs: seq<Booking>, facilityId: int, date: string, start: string, end: string)
    requires f.id != facilityId
    ensures Occupying(f, WithoutFacilityBookings(bs, facilityId), date, start, end)
         == Occupying(f, bs, date, start, end)
  {
    FilterOfFilter(OccupiesFn(f.id, date, start, end), NotForFacility(facilityId), bs);
  }

  /**
   * Deleting a facility and its bookings leaves every verdict about any other facility id
   * exactly as it was.
   */
  lemma DeleteFacilityKeepsOtherVerdicts(
    fs: seq<Facility>, bs: seq<Booking>, facilityId: int, facilityText: string,
    date: string, start: string, end: string)
    requires ParseInt(facilityText) != Some(facilityId)
    ensures CheckFacilityCapacity(WithoutFacility(fs, facilityId), WithoutFacilityBookings(bs, facilityId),
                                  facilityText, date, start, end)
         == CheckFacilityCapacity(fs, bs, facilityText, date, start, end)
  {
    if ParseInt(facilityText).Some? {
      var id := ParseInt(facilityText).value;
      FindFacilityAfterDelete(fs, facilityId, id);
      assert Lookup(WithoutFacility(fs, facilityId), facilityText) == Lookup(fs, facilityText);
      if Lookup(fs, facilityText).Some? {
        OccupyingAfterDelete(Lookup(fs, facilityText).value, bs, facilityId, date, start, end);
      }
    }
  }

  /** After the cascade the deleted facility is not found, so every request for it is refused. */
  lemma DeleteFacilityMakesItUnbookable(
    fs: seq<Facility>, bs: seq<Booking>, facilityId: int, facilityText: string,
    date: string, start: string, end: string)
    requires ParseInt(facilityText) == Some(facilityId)
    ensures CheckFacilityCapacity(WithoutFacility(fs, facilityId), WithoutFacilityBookings(bs, facilityId),
                                  facilityText, date, start, end)
         == NotFound
  {
  }

  /** A row whose id is above every id in the table keeps the ids distinct. */
  lemma AppendFreshBooking(bs: seq<Booking>, b: Booking)
    requires Distinct(BookingId, bs) && forall c | c in bs :: c.id < b.id
    ensures Distinct(BookingId, bs + [b]) && forall c | c in bs + [b] :: c.id < b.id + 1
  {
    var r := bs + [b];
    forall i, j | 0 <= i < j < |r| ensures BookingId(r[i]) != BookingId(r[j]) {
      if j == |bs| { assert r[i] in bs; }
    }
  }

  /** Every booking refers to a facility in the table: there are no orphaned bookings. */
  ghost predicate NoOrphans(fs: seq<Facility>, bs: seq<Booking>)
  {
    forall b | b in bs :: exists f | f in fs :: RefersTo(b, f.id)
  }

  /** Appending a booking of a facility in the table creates no orphan. */
  lemma AppendKeepsNoOrphans(fs: seq<Facility>, bs: seq<Booking>, f: Facility, b: Booking)
    requires NoOrphans(fs, bs) && f in fs && RefersTo(b, f.id)
    ensures NoOrphans(fs, bs + [b])
  {
  }

  /** The status update keeps every booking's facility, so it creates no orphan. */
  lemma WithStatusKeepsNoOrphans(fs: seq<Facility>, bs: seq<Booking>, id: int, status: Status)
    requires NoOrphans(fs, bs)
    ensures NoOrphans(fs, WithStatus(bs, id, status))
  {
    var r := WithStatus(bs, id, status);
    forall b | b in r ensures exists f | f in fs :: RefersTo(b, f.id) {
      var i :| 0 <= i < |r| && r[i] == b;
      assert bs[i] in bs;
      var f :| f in fs && RefersTo(bs[i], f.id);
      assert RefersTo(b, f.id);
    }
  }

  /** Deleting a facility together with its bookings creates no orphan. */
  lemma CascadeKeepsNoOrphans(fs: seq<Facility>, bs: seq<Booking>, facilityId: int)
    requires NoOrphans(fs, bs)
    ensures NoOrphans(WithoutFacility(fs, facilityId), WithoutFacilityBookings(bs, facilityId))
  {
    var fs', bs' := WithoutFacility(fs, facilityId), WithoutFacilityBookings(bs, facilityId);
    forall b | b in bs' ensures exists f | f in fs' :: RefersTo(b, f.id) {
      var f :| f in fs && RefersTo(b, f.id);
      assert f.id != facilityId;
      assert f in fs';
    }
  }

  /** Deleting only the facility, without its bookings, would orphan them. */
  lemma FacilityDeleteAloneOrphans(f: Facility, b: Booking)
    requires RefersTo(b, f.id)
    ensures NoOrphans([f], [b])
    ensures !NoOrphans(WithoutFacility([f], f.id), [b])
  {
    assert [f][1..] == [];
    assert WithoutFacility([f], f.id) == [];
    assert b in [b];
  }

  /** After the cascade, the bookings of every other facility are exactly as they were. */
  lemma DeleteFacilityKeepsOtherBookings(bs: seq<Booking>, facilityId: int, other: int)
    requires other != facilityId
    ensures Filter(ForFacility(other), WithoutFacilityBookings(bs, facilityId))
         == Filter(ForFacility(other), bs)
  {
    FilterOfFilter(ForFacility(other), NotForFacility(facilityId), bs);
  }

  /**
   * What the two tables keep between handler calls: ids are unique within each table and
   * below the next id to be handed out, and no booking is orphaned.
   */
  ghost predicate StoreInvariant(fs: seq<Facility>, bs: seq<Booking>, nextFacilityId: int, nextBookingId: int)
  {
    && Distinct(BookingId, bs)
    && Distinct(FacilityId, fs)
    && (forall b | b in bs :: b.id < nextBookingId)
    && (forall f | f in fs :: f.id < nextFacilityId)
    && NoOrphans(fs, bs)
  }

  /** Appending a booking with the next id, for a facility in the table, keeps the invariant. */
  lemma AdmitKeepsInvariant(
    fs: seq<Facility>, bs: seq<Booking>, nextFacilityId: int, nextBookingId: int, f: Facility, b: Booking)
    requires StoreInvariant(fs, bs, nextFacilityId, nextBookingId)
    requires f in fs && RefersTo(b, f.id) && b.id == nextBookingId
    ensures StoreInvariant(fs, bs + [b], nextFacilityId, nextBookingId + 1)
  {
    AppendFreshBooking(bs, b);
    AppendKeepsNoOrphans(fs, bs, f, b);
  }

  /** The outcome of the add-facility form. */
  datatype AddOutcome = FacilityAdded(id: int) | FacilityFieldMissing | CapacityNotANumber

  // ---------------------------------------------------------------------------------
  // The store: the two tables the handlers write, with the ids the database hands out
  // ---------------------------------------------------------------------------------

  class BookingStore {
    var facilities: seq<Facility>
    var bookings: seq<Booking>
    var nextFacilityId: int
    var nextBookingId: int

    /**
     * Ids are unique within each table and below the next id to be handed out, and every
     * booking refers to a facility in the table.
     */
    ghost predicate Valid()
      reads this
    {
      StoreInvariant(facilities, bookings, nextFacilityId, nextBookingId)
    }

    constructor ()
      ensures Valid()
      ensures facilities == [] && bookings == []
    {
      facilities, bookings := [], [];
      nextFacilityId, nextBookingId := 1, 1;
    }

    /**
     * `handleBooking`: run the guards against the bookings in memory for this account and,
     * only if all pass, insert one pending booking. Every refusal leaves both tables as they were.
     */
    method HandleBooking(
      role: Role, user: string, facilityText: string,
      date: string, start: string, end: string) returns (d: Decision)
      requires Valid()
      modifies this
      ensures Valid()
      ensures d == Admission(old(facilities), LoadedBookings(role, user, old(bookings)),
                             facilityText, date, start, end)
      ensures facilities == old(facilities) && nextFacilityId == old(nextFacilityId)
      ensures d == Admitted ==> ParseInt(facilityText).Some?
      ensures d == Admitted ==>
        bookings == old(bookings) +
          [Booking(old(nextBookingId), Num(ParseInt(facilityText).value), user, date, start, end, Pending)]
      ensures d != Admitted ==> bookings == old(bookings) && nextBookingId == old(nextBookingId)
    {
      if !StrLess(start, end) {
        return EndNotAfterStart;
      }
      if facilityText == [] || date == [] || start == [] || end == [] {
        return MissingField;
      }
      var v := CheckFacilityCapacity(facilities, LoadedBookings(role, user, bookings), facilityText, date, start, end);
      if !v.available {
        return FullyBooked(v);
      }
      if v.timeOverlap {
        return TimeConflict(v);
      }
      var facilityId := ParseInt(facilityText).value;
      var booking := Booking(nextBookingId, Num(facilityId), user, date, start, end, Pending);
      AdmitKeepsInvariant(facilities, bookings, nextFacilityId, nextBookingId,
                          Lookup(facilities, facilityText).value, booking);
      bookings := bookings + [booking];
      nextBookingId := nextBookingId + 1;
      d := Admitted;
    }

    /**
     * `handleApproval(bookingId, status)`: set the status of that booking. It is reachable
     * only from the boss's views, checks no role itself, and does not re-run the
     * availability check.
     */
    method HandleApproval(viewer: Role, bookingId: int, status: Status)
      requires viewer == Boss
      requires Valid()
      modifies this
      ensures Valid()
      ensures bookings == WithStatus(old(bookings), bookingId, status)
      ensures facilities == old(facilities)
      ensures nextBookingId == old(nextBookingId) && nextFacilityId == old(nextFacilityId)
    {
      WithStatusKeepsIds(bookings, bookingId, status);
      WithStatusKeepsNoOrphans(facilities, bookings, bookingId, status);
      bookings := WithStatus(bookings, bookingId, status);
    }

    /** `handleCancelBooking(bookingId)`: delete it only if the signed-in account owns it. */
    method HandleCancelBooking(user: string, bookingId: int)
      requires Valid()
      modifies this
      ensures Valid()
      ensures bookings == CancelOwned(old(bookings), bookingId, user)
      ensures facilities == old(facilities)
      ensures nextBookingId == old(nextBookingId) && nextFacilityId == old(nextFacilityId)
    {
      FilterDistinct(BookingId, KeepUnlessOwned(bookingId, user), bookings);
      bookings := CancelOwned(bookings, bookingId, user);
    }

    /** `handleCancelBookingForBoss(bookingId)`: delete it whoever owns it, whatever its status. */
    method HandleCancelBookingForBoss(viewer: Role, bookingId: int)
      requires viewer == Boss
      requires Valid()
      modifies this
      ensures Valid()
      ensures bookings == DeleteBooking(old(bookings), bookingId)
      ensures facilities == old(facilities)
      ensures nextBookingId == old(nextBookingId) && nextFacilityId == old(nextFacilityId)
    {
      FilterDistinct(BookingId, KeepUnlessId(bookingId), bookings);
      bookings := DeleteBooking(bookings, bookingId);
    }

    /**
     * `handleDeleteFacility(facilityId)`: first delete the facility's bookings, then the
     * facility. Afterwards no booking refers to it.
     */
    method HandleDeleteFacility(viewer: Role, facilityId: int)
      requires viewer == Boss
      requires Valid()
      modifies this
      ensures Valid()
      ensures bookings == WithoutFacilityBookings(old(bookings), facilityId)
      ensures facilities == WithoutFacility(old(facilities), facilityId)
      ensures forall b | b in bookings :: !RefersTo(b, facilityId)
      ensures FindFacility(facilities, facilityId).None?
      ensures nextBookingId == old(nextBookingId) && nextFacilityId == old(nextFacilityId)
    {
      CascadeKeepsNoOrphans(facilities, bookings, facilityId);
      FilterDistinct(BookingId, NotForFacility(facilityId), bookings);
      bookings := WithoutFacilityBookings(bookings, facilityId);
      FilterDistinct(FacilityId, OtherFacility(facilityId), facilities);
      facilities := WithoutFacility(facilities, facilityId);
    }

    /**
     * `handleAddFacility`: both fields must be non-empty; the capacity text goes through
     * `parseInt`, and no range is enforced. A capacity that is not a number is modelled as
     * an insert the database refuses.
     */
    method HandleAddFacility(viewer: Role, name: string, capacityText: string) returns (r: AddOutcome)
      requires viewer == Boss
      requires Valid()
      modifies this
      ensures Valid()
      ensures bookings == old(bookings) && nextBookingId == old(nextBookingId)
      ensures r == (if name == [] || capacityText == [] then FacilityFieldMissing
                    else if ParseInt(capacityText).None? then CapacityNotANumber
                    else FacilityAdded(old(nextFacilityId)))
      ensures r.FacilityAdded? ==>
        facilities == old(facilities) + [Facility(r.id, name, ParseInt(capacityText).value)]
      ensures !r.FacilityAdded? ==> facilities == old(facilities) && nextFacilityId == old(nextFacilityId)
    {
      if name == [] || capacityText == [] {
        return FacilityFieldMissing;
      }
      match ParseInt(capacityText)
      case None =>
        r := CapacityNotANumber;
      case Some(capacity) =>
        r := FacilityAdded(nextFacilityId);
        facilities := facilities + [Facility(nextFacilityId, name, capacity)];
        nextFacilityId := nextFacilityId + 1;
    }
  }
}
