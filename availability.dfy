/**
 * The availability engine of the booking component: the record shapes of the
 * `facilities` and `bookings` tables, and `checkFacilityCapacity`, which counts the
 * approved bookings of one facility on one date whose period overlaps a requested one
 * and reports what capacity is left.
 */
module Availability {
  import opened Wrappers
  import opened JsText
  import opened TimeOfDay
  import opened Filtering

  datatype Status = Pending | Approved | Rejected

  /**
   * A booking's `facility_id` as it may arrive: a number, or the decimal rendering of one
   * as a string. Other strings (such as "01") are not values the integer column returns.
   */
  datatype FacilityRef = Num(n: int) | Text(s: string)

  datatype Facility = Facility(id: int, name: string, capacity: int)

  /** One row of the `bookings` table; `user` is the owner's account id. */
  datatype Booking = Booking(
    id: int,
    facility: FacilityRef,
    user: string,
    date: string,
    start: string,
    end: string,
    status: Status)

  /** The record `checkFacilityCapacity` returns. */
  datatype Verdict = Verdict(
    available: bool,
    remaining: int,
    totalCapacity: int,
    booked: nat,
    timeOverlap: bool)

  /** The verdict for a facility id that is not in the facility list. */
  const NotFound := Verdict(false, 0, 0, 0, false)

  /** A booking's facility id as a number: strings go through `parseInt`. */
  function BookingFacility(b: Booking): (r: Option<int>)
    ensures b.facility.Num? ==> r == Some(b.facility.n)
    ensures forall n: nat {:trigger Decimal(n)} :: b.facility == Text(Decimal(n)) ==> r == Some(n)
  {
    ParseIntDecimalAll();
    match b.facility
    case Num(n) => Some(n)
    case Text(s) => ParseInt(s)
  }

  lemma ParseIntDecimalAll()
    ensures forall n: nat {:trigger Decimal(n)} :: ParseInt(Decimal(n)) == Some(n)
  {
    forall n: nat ensures ParseInt(Decimal(n)) == Some(n) {
      ParseIntDecimal(n);
    }
  }

  predicate RefersTo(b: Booking, facilityId: int)
  {
    BookingFacility(b) == Some(facilityId)
  }

  /** `facilities.find(f => f.id === id)`: the first facility with that id. */
  function FindFacility(fs: seq<Facility>, id: int): (r: Option<Facility>)
    ensures r.Some? ==> r.value in fs && r.value.id == id
    ensures r.None? <==> forall f | f in fs :: f.id != id
    ensures r.Some? ==> exists i | 0 <= i < |fs| :: fs[i] == r.value && forall j | 0 <= j < i :: fs[j].id != id
  {
    if fs == [] then None
    else if fs[0].id == id then Some(fs[0])
    else
      var r := FindFacility(fs[1..], id);
      assert forall f | f in fs[1..] :: f in fs;
      if r.Some? then
        var i :| 0 <= i < |fs[1..]| && fs[1..][i] == r.value && forall j | 0 <= j < i :: fs[1..][j].id != id;
        assert fs[i + 1] == r.value && forall j | 0 <= j < i + 1 :: fs[j].id != id;
        r
      else r
  }

  /** The facility a selected id string names: `parseInt` it, then find it. */
  function Lookup(fs: seq<Facility>, facilityText: string): (r: Option<Facility>)
    ensures r.Some? ==> r.value in fs && ParseInt(facilityText) == Some(r.value.id)
    ensures r.None? <==> ParseInt(facilityText).None? || forall f | f in fs :: Some(f.id) != ParseInt(facilityText)
  {
    match ParseInt(facilityText)
    case None => None
    case Some(id) => FindFacility(fs, id)
  }

  /**
   * Booking `b` takes one unit of facility `facilityId` during the requested period: it is
   * for that facility, on that date, approved, and its period overlaps the request.
   */
  predicate Occupies(facilityId: int, date: string, start: string, end: string, b: Booking)
    ensures Occupies(facilityId, date, start, end, b) ==>
      && b.status == Approved && b.date == date && BookingFacility(b) == Some(facilityId)
      && TimeToMinutes(start).Some? && TimeToMinutes(end).Some?
      && TimeToMinutes(b.start).Some? && TimeToMinutes(b.end).Some?
      && TimeToMinutes(start).value < TimeToMinutes(b.end).value
      && TimeToMinutes(b.start).value < TimeToMinutes(end).value
  {
    && RefersTo(b, facilityId)
    && b.date == date
    && b.status == Approved
    && Overlaps(start, end, b.start, b.end)
  }

  function OccupiesFn(facilityId: int, date: string, start: string, end: string): Booking -> bool
  {
    b => Occupies(facilityId, date, start, end, b)
  }

  /** The bookings that take a unit of the facility during the requested period. */
  function Occupying(f: Facility, bs: seq<Booking>, date: string, start: string, end: string): seq<Booking>
  {
    Filter(OccupiesFn(f.id, date, start, end), bs)
  }

  /**
   * `checkFacilityCapacity(facilityId, date, startTime, endTime)` over the in-memory
   * `facilities` and `bookings`.
   */
  function CheckFacilityCapacity(
    fs: seq<Facility>, bs: seq<Booking>, facilityText: string,
    date: string, start: string, end: string): (v: Verdict)
    ensures Lookup(fs, facilityText).None? ==> v == NotFound
    ensures Lookup(fs, facilityText).Some? ==> v.totalCapacity == Lookup(fs, facilityText).value.capacity
    ensures v.remaining == v.totalCapacity - v.booked
    ensures v.available <==> v.remaining > 0
    ensures v.timeOverlap <==> v.booked > 0
    ensures v.booked <= |bs|
    ensures v.timeOverlap <==>
      Lookup(fs, facilityText).Some? &&
      exists b | b in bs :: Occupies(Lookup(fs, facilityText).value.id, date, start, end, b)
  {
    match Lookup(fs, facilityText)
    case None => NotFound
    case Some(f) =>
      var overlapping := Occupying(f, bs, date, start, end);
      var booked := |overlapping|;
      assert booked > 0 ==> overlapping[0] in overlapping;
      Verdict(f.capacity - booked > 0, f.capacity - booked, f.capacity, booked, booked > 0)
  }

  /** Shuffling the bookings does not change the verdict. */
  lemma VerdictOrderIndependent(
    fs: seq<Facility>, bs: seq<Booking>, shuffled: seq<Booking>, facilityText: string,
    date: string, start: string, end: string)
    requires multiset(bs) == multiset(shuffled)
    ensures CheckFacilityCapacity(fs, bs, facilityText, date, start, end)
         == CheckFacilityCapacity(fs, shuffled, facilityText, date, start, end)
  {
    if Lookup(fs, facilityText).Some? {
      var f := Lookup(fs, facilityText).value;
      FilterCountPermutation(OccupiesFn(f.id, date, start, end), bs, shuffled);
    }
  }

  /**
   * Adding a booking anywhere in the list (or, read backwards, removing it) does not change
   * the verdict when it is pending or rejected, for another date, for another facility, or
   * for a period that does not overlap the request.
   */
  lemma VerdictIgnoresNonOccupying(
    fs: seq<Facility>, bs: seq<Booking>, i: nat, b: Booking, facilityText: string,
    date: string, start: string, end: string)
    requires i <= |bs|
    requires || b.status != Approved
             || b.date != date
             || !Overlaps(start, end, b.start, b.end)
             || (Lookup(fs, facilityText).Some? ==> !RefersTo(b, Lookup(fs, facilityText).value.id))
    ensures CheckFacilityCapacity(fs, bs[..i] + [b] + bs[i..], facilityText, date, start, end)
         == CheckFacilityCapacity(fs, bs, facilityText, date, start, end)
  {
    if Lookup(fs, facilityText).Some? {
      var f := Lookup(fs, facilityText).value;
      assert !Occupies(f.id, date, start, end, b);
      FilterSkips(OccupiesFn(f.id, date, start, end), bs[..i], b, bs[i..]);
      assert bs[..i] + bs[i..] == bs;
      assert Occupying(f, bs[..i] + [b] + bs[i..], date, start, end) == Occupying(f, bs, date, start, end);
    }
  }

  /** One more approved booking that overlaps the request takes exactly one more unit. */
  lemma VerdictCountsOccupying(
    fs: seq<Facility>, bs: seq<Booking>, b: Booking, facilityText: string,
    date: string, start: string, end: string)
    requires Lookup(fs, facilityText).Some?
    requires Occupies(Lookup(fs, facilityText).value.id, date, start, end, b)
    ensures var before := CheckFacilityCapacity(fs, bs, facilityText, date, start, end);
            var after := CheckFacilityCapacity(fs, bs + [b], facilityText, date, start, end);
            after.booked == before.booked + 1 && after.remaining == before.remaining - 1 && after.timeOverlap
  {
    var p := OccupiesFn(Lookup(fs, facilityText).value.id, date, start, end);
    FilterConcat(p, bs, [b]);
    assert [b][1..] == [];
  }

  /**
   * When no approved booking of the facility on that date overlaps the request (in
   * particular with no bookings at all) the whole capacity remains.
   */
  lemma VerdictWithNothingOccupying(
    fs: seq<Facility>, bs: seq<Booking>, facilityText: string,
    date: string, start: string, end: string)
    requires Lookup(fs, facilityText).Some?
    requires forall b | b in bs && b.status == Approved && b.date == date &&
                        RefersTo(b, Lookup(fs, facilityText).value.id) ::
               !Overlaps(start, end, b.start, b.end)
    ensures var c := Lookup(fs, facilityText).value.capacity;
            CheckFacilityCapacity(fs, bs, facilityText, date, start, end)
              == Verdict(c > 0, c, c, 0, false)
  {
  }
}
