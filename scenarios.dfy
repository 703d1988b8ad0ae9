/**
 * Concrete situations worked through the model: a free room, a full room, an overlap
 * with capacity left, back-to-back periods, the cascade delete, and two consequences of the code as written (a client's check sees
 * only the client's own bookings; approval never re-checks capacity).
 */
module Scenarios {
  import opened Wrappers
  import opened JsText
  import opened TimeOfDay
  import opened Filtering
  import opened Availability
  import opened Lifecycle

  /** The select box's value for facility 1 reads back as id 1. */
  lemma FacilityOneText()
    ensures ParseInt("1") == Some(1)
  {
    ParseIntDecimal(1);
    assert Decimal(1) == "1";
  }

  /** An "HH:MM" time and the minute it names, without unfolding the parser on a literal. */
  lemma ReadsAs(t: string, m: nat)
    requires IsClock(t) && ClockValue(t) == m
    ensures TimeToMinutes(t) == Some(m)
  {
    ClockMinutes(t);
  }

  function Room(capacity: int): Facility { Facility(1, "Room", capacity) }

  function ApprovedAt(id: int, user: string, start: string, end: string): Booking
  {
    Booking(id, Num(1), user, "2025-05-01", start, end, Availability.Approved)
  }

  lemma NineToTen(nine: string, ten: string)
    requires nine == "09:00" && ten == "10:00"
    ensures StrLess(nine, ten) && Overlaps(nine, ten, nine, ten)
  {
    ReadsAs(nine, 540);
    ReadsAs(ten, 600);
    ClockOrder(nine, ten);
  }

  lemma HalfHourLater(nine: string, ten: string, nineThirty: string, tenThirty: string)
    requires nine == "09:00" && ten == "10:00" && nineThirty == "09:30" && tenThirty == "10:30"
    ensures StrLess(nineThirty, tenThirty) && Overlaps(nineThirty, tenThirty, nine, ten)
  {
    ReadsAs(nine, 540);
    ReadsAs(ten, 600);
    ReadsAs(nineThirty, 570);
    ReadsAs(tenThirty, 630);
    ClockOrder(nineThirty, tenThirty);
  }

  lemma NextHour(nine: string, ten: string, eleven: string)
    requires nine == "09:00" && ten == "10:00" && eleven == "11:00"
    ensures StrLess(ten, eleven) && !Overlaps(ten, eleven, nine, ten)
  {
    ReadsAs(ten, 600);
    ReadsAs(eleven, 660);
    ClockOrder(ten, eleven);
  }

  /** Capacity 1, no bookings, 09:00-10:00: one unit remains and the request is admitted. */
  lemma EmptyFacilityAdmits(one: string, nine: string, ten: string)
    requires one == "1" && nine == "09:00" && ten == "10:00"
    ensures CheckFacilityCapacity([Room(1)], [], one, "2025-05-01", nine, ten)
         == Verdict(true, 1, 1, 0, false)
    ensures Admission([Room(1)], [], one, "2025-05-01", nine, ten) == Admitted
  {
    FacilityOneText();
    NineToTen(nine, ten);
  }

  /** Capacity 1, approved 09:00-10:00, request 09:30-10:30: overlap, nothing remains. */
  lemma FullFacilityRefuses(one: string, nine: string, ten: string, nineThirty: string, tenThirty: string)
    requires one == "1" && nine == "09:00" && ten == "10:00" && nineThirty == "09:30" && tenThirty == "10:30"
    ensures CheckFacilityCapacity([Room(1)], [ApprovedAt(7, "ann", nine, ten)], one, "2025-05-01", nineThirty, tenThirty)
         == Verdict(false, 0, 1, 1, true)
    ensures Admission([Room(1)], [ApprovedAt(7, "ann", nine, ten)], one, "2025-05-01", nineThirty, tenThirty)
         .FullyBooked?
  {
    FacilityOneText();
    HalfHourLater(nine, ten, nineThirty, tenThirty);
    var b := ApprovedAt(7, "ann", nine, ten);
    VerdictCountsOccupying([Room(1)], [], b, one, "2025-05-01", nineThirty, tenThirty);
    assert [] + [b] == [b];
  }

  lemma AfternoonOverlap(two: string, three: string, twoThirty: string, threeThirty: string)
    requires two == "14:00" && three == "15:00" && twoThirty == "14:30" && threeThirty == "15:30"
    ensures Overlaps(twoThirty, threeThirty, two, three) && StrLess(twoThirty, threeThirty)
  {
    ReadsAs(two, 840);
    ReadsAs(three, 900);
    ReadsAs(twoThirty, 870);
    ReadsAs(threeThirty, 930);
    ClockOrder(twoThirty, threeThirty);
  }

  /** Two occupying bookings take two units of the facility. */
  lemma TwoOccupying(fs: seq<Facility>, b1: Booking, b2: Booking, facilityText: string,
                     date: string, start: string, end: string)
    requires Lookup(fs, facilityText).Some?
    requires Occupies(Lookup(fs, facilityText).value.id, date, start, end, b1)
    requires Occupies(Lookup(fs, facilityText).value.id, date, start, end, b2)
    ensures var c := Lookup(fs, facilityText).value.capacity;
            CheckFacilityCapacity(fs, [b1, b2], facilityText, date, start, end)
              == Verdict(c - 2 > 0, c - 2, c, 2, true)
  {
    VerdictCountsOccupying(fs, [], b1, facilityText, date, start, end);
    VerdictCountsOccupying(fs, [b1], b2, facilityText, date, start, end);
    assert [] + [b1] == [b1] && [b1] + [b2] == [b1, b2];
  }

  /**
   * Capacity 3, two approved 14:00-15:00, request 14:30-15:30: one unit remains, yet the
   * request is refused for the overlap.
   */
  lemma OverlapRefusedDespiteCapacity(one: string, two: string, three: string, twoThirty: string, threeThirty: string)
    requires one == "1" && two == "14:00" && three == "15:00" && twoThirty == "14:30" && threeThirty == "15:30"
    ensures var bs := [ApprovedAt(7, "ann", two, three), ApprovedAt(8, "bo", two, three)];
            var v := CheckFacilityCapacity([Room(3)], bs, one, "2025-05-01", twoThirty, threeThirty);
            && v == Verdict(true, 1, 3, 2, true)
            && Admission([Room(3)], bs, one, "2025-05-01", twoThirty, threeThirty) == TimeConflict(v)
  {
    FacilityOneText();
    AfternoonOverlap(two, three, twoThirty, threeThirty);
    TwoOccupying([Room(3)], ApprovedAt(7, "ann", two, three), ApprovedAt(8, "bo", two, three),
                 one, "2025-05-01", twoThirty, threeThirty);
  }

  /** Back to back is not a conflict: 10:00-11:00 is admitted after an approved 09:00-10:00. */
  lemma AdjacentRequestAdmitted(one: string, nine: string, ten: string, eleven: string)
    requires one == "1" && nine == "09:00" && ten == "10:00" && eleven == "11:00"
    ensures Admission([Room(1)], [ApprovedAt(7, "ann", nine, ten)], one, "2025-05-01", ten, eleven) == Admitted
  {
    FacilityOneText();
    NextHour(nine, ten, eleven);
    var b := ApprovedAt(7, "ann", nine, ten);
    VerdictIgnoresNonOccupying([Room(1)], [], 0, b, one, "2025-05-01", ten, eleven);
    assert [][..0] + [b] + [][0..] == [b];
  }

  /**
   * As written, a client's check runs on the client's own bookings only: with capacity 1
   * and another account's approved booking for the same hour, the same check over the whole
   * table says fully booked while the client's request is admitted.
   */
  lemma ClientAdmittedOverOtherAccount(one: string, nine: string, ten: string)
    requires one == "1" && nine == "09:00" && ten == "10:00"
    ensures var table := [ApprovedAt(7, "ann", nine, ten)];
            && Admission([Room(1)], LoadedBookings(Client, "bo", table), one, "2025-05-01", nine, ten) == Admitted
            && Admission([Room(1)], LoadedBookings(Boss, "bo", table), one, "2025-05-01", nine, ten).FullyBooked?
  {
    FacilityOneText();
    NineToTen(nine, ten);
    var b := ApprovedAt(7, "ann", nine, ten);
    ClientVerdictIgnoresOtherAccounts([Room(1)], [], b, "bo", one, "2025-05-01", nine, ten);
    assert [] + [b] == [b];
    assert Filter(OwnedBy("bo"), []) == [];
    VerdictCountsOccupying([Room(1)], [], b, one, "2025-05-01", nine, ten);
  }

  /** Approving two distinct bookings one after the other. */
  lemma ApproveBoth(p1: Booking, p2: Booking)
    requires p1.id != p2.id
    ensures WithStatus(WithStatus([p1, p2], p1.id, Availability.Approved), p2.id, Availability.Approved)
         == [p1.(status := Availability.Approved), p2.(status := Availability.Approved)]
  {
    assert WithStatus([p1, p2], p1.id, Availability.Approved) == [p1.(status := Availability.Approved), p2];
  }

  function PendingAt(id: int, user: string, start: string, end: string): Booking
  {
    Booking(id, Num(1), user, "2025-05-01", start, end, Pending)
  }

  /** Pending bookings take no capacity: two pending requests leave the only unit free. */
  lemma PendingDoNotCount(one: string, nine: string, ten: string)
    requires one == "1" && nine == "09:00" && ten == "10:00"
    ensures CheckFacilityCapacity([Room(1)], [PendingAt(7, "ann", nine, ten), PendingAt(8, "bo", nine, ten)],
                                  one, "2025-05-01", nine, ten)
         == Verdict(true, 1, 1, 0, false)
  {
    FacilityOneText();
    NineToTen(nine, ten);
    var p1, p2 := PendingAt(7, "ann", nine, ten), PendingAt(8, "bo", nine, ten);
    VerdictIgnoresNonOccupying([Room(1)], [], 0, p1, one, "2025-05-01", nine, ten);
    VerdictIgnoresNonOccupying([Room(1)], [p1], 1, p2, one, "2025-05-01", nine, ten);
    assert [][..0] + [p1] + [][0..] == [p1];
    assert [p1][..1] + [p2] + [p1][1..] == [p1, p2];
  }

  /**
   * Approval re-checks nothing: the two pending requests above, both admissible, put the
   * room over capacity once both are approved.
   */
  lemma ApprovalCanOverfillFacility(one: string, nine: string, ten: string)
    requires one == "1" && nine == "09:00" && ten == "10:00"
    ensures var pending := [PendingAt(7, "ann", nine, ten), PendingAt(8, "bo", nine, ten)];
            var approved := WithStatus(WithStatus(pending, 7, Availability.Approved), 8, Availability.Approved);
            CheckFacilityCapacity([Room(1)], approved, one, "2025-05-01", nine, ten) == Verdict(false, -1, 1, 2, true)
  {
    FacilityOneText();
    NineToTen(nine, ten);
    ApproveBoth(PendingAt(7, "ann", nine, ten), PendingAt(8, "bo", nine, ten));
    TwoOccupying([Room(1)], ApprovedAt(7, "ann", nine, ten), ApprovedAt(8, "bo", nine, ten),
                 one, "2025-05-01", nine, ten);
  }

  /**
   * Deleting room 1, with bookings that name it by the number 1 and by the string "1",
   * removes all of those whatever their status or date, and keeps the booking of room 2.
   */
  lemma CascadeRemovesAllOfFacility(one: string, b1: Booking, b2: Booking, b3: Booking, b4: Booking)
    requires one == "1"
    requires b1.facility == Num(1) && b2.facility == Text(one) && b3.facility == Num(2) && b4.facility == Num(1)
    ensures WithoutFacilityBookings([b1, b2, b3, b4], 1) == [b3]
  {
    FacilityOneText();
    var p := NotForFacility(1);
    assert !p(b1) && !p(b2) && p(b3) && !p(b4);
    FilterKeepsThird(p, b1, b2, b3, b4);
  }

  lemma FilterKeepsThird<T(!new)>(p: T -> bool, b1: T, b2: T, b3: T, b4: T)
    requires !p(b1) && !p(b2) && p(b3) && !p(b4)
    ensures Filter(p, [b1, b2, b3, b4]) == [b3]
  {
    assert [b1, b2, b3, b4][1..] == [b2, b3, b4];
    assert [b2, b3, b4][1..] == [b3, b4];
    assert [b3, b4][1..] == [b4];
    assert [b4][1..] == [];
    assert Filter(p, [b4]) == [];
    assert Filter(p, [b3, b4]) == [b3];
  }
}
