# Facility booking: availability engine and booking lifecycle

A Dafny model of the booking component of `facility-booking-app` (`src/App.js`). The
component keeps two tables, `facilities` (id, name, capacity) and `bookings` (facility id,
owner, date, start and end time, status `pending` / `approved` / `rejected`), and lets two
kinds of account act on them:

- a **client** requests a booking, which is admitted only when the in-memory check
  `checkFacilityCapacity` finds capacity left and no overlapping approved booking, and may
  cancel their own bookings;
- the **boss** approves or rejects pending bookings, deletes any booking, adds facilities
  and deletes a facility together with all of its bookings.

The model is split as the component is:

| module | file | what it holds |
|---|---|---|
| `Wrappers`, `JsText` | `jstext.dfy` | `Option` (`None` stands for NaN); the JavaScript text operations the component relies on: `split`, `Number(field)`, `parseInt`, decimal rendering |
| `Filtering` | `filtering.dfy` | `Array.prototype.filter` and the facts about it the other modules use |
| `TimeOfDay` | `timeofday.dfy` | `timeToMinutes`, `checkTimeOverlap` and JavaScript's string `<`, which the admission gate uses on the raw time strings |
| `Availability` | `availability.dfy` | the table records and `checkFacilityCapacity` as a pure function of the in-memory lists |
| `Lifecycle` | `lifecycle.dfy` | the admission gate of `handleBooking`, the table updates of every handler as functions with their lemmas, the list filters of the views, and a class `BookingStore` whose methods are the handlers acting on the two tables |
| `Scenarios` | `scenarios.dfy` | concrete situations: the capacity and overlap examples, the cascade delete, and two consequences of the code as written |

Times stay strings, as in the component: `TimeToMinutes` splits at `':'` and reads the first
two pieces with `Number`. A time with no `':'`, or whose hour or minute piece is not all
digits, gives NaN, and every overlap comparison with it is false; a time whose pieces are
digits or empty gives a number however malformed (`":"` reads as 0, `"25:70"` as 1570). The admission gate compares the raw strings; `ClockOrder` proves that for
zero-padded `"HH:MM"` strings this agrees with the minute order, and
`UnpaddedOrderDisagrees` shows that it does not without padding.

Two behaviours of the code are modelled as written and made visible by lemmas:

- `loadBookings` keeps in memory every booking for the boss but only the account's own
  bookings for anyone else (App.js:354-356), and `handleBooking` checks availability on that
  list. A client's check therefore never sees other accounts' bookings
  (`ClientVerdictIgnoresOtherAccounts`, `ClientAdmittedOverOtherAccount`).
- `handleApproval` writes the new status without re-running the availability check, so two
  admissible pending requests for the last unit of a facility put it over capacity once both
  are approved (`ApprovalCanOverfillFacility`).

In four places the code is more permissive than one might expect, and the model follows the code:

- adding a facility checks only that both fields are non-empty; there is no `capacity >= 1`
  check, so a capacity typed as `"0"` or `"-3"` is stored as 0 or -3 (`ParseIntPrefix`), and `NoCapacityNeverAdmits` shows what a capacity of zero or less then means;
- no handler checks the caller's role; the boss-only handlers are reachable only from the
  boss's views (App.js:821, App.js:952), which the model states as `requires viewer == Boss`;
  there is no permission error;
- the owner's cancel deletes the row matching id and owner whatever its status (only the
  button is hidden for rejected bookings, App.js:1521);
- a facility id that is not found gives the verdict "not available, capacity 0" rather than a
  separate not-found error, and the gate reports it as fully booked.

The store keeps one invariant across all handlers, stated in `Lifecycle.StoreInvariant` and
required and ensured by every method of `BookingStore`: ids are unique in each table, and no
booking is orphaned (each refers to a facility in the table). Admission inserts only for a
facility that was found, the cascade removes a facility's bookings with it, and the other
updates only delete rows or change a status.

## Model

| member | source | states |
|---|---|---|
| JsText.NumberValue | facility-booking-app/src/App.js:98 | `Number(field)` is a number exactly when the field is all digits, and then it is the field's decimal value; the empty field reads as 0 |
| JsText.NumberValueDecimal | facility-booking-app/src/App.js:98 | `Number` reads back the decimal rendering of every natural number |
| JsText.ParseInt | facility-booking-app/src/App.js:114 | `parseInt`: text starting with a digit gives a non-negative number, all-digit text gives its decimal value, text starting with anything but a digit or a sign gives NaN, the empty text gives NaN (also used at lines 132, 301 and 609) |
| JsText.ParseIntPrefix | facility-booking-app/src/App.js:609 | `parseInt` stops at the first non-digit: a number followed by anything else ("1.5"), with or without a minus sign, reads as that number, negative numbers included |
| JsText.Split | facility-booking-app/src/App.js:98 | `split` gives at least one piece and no piece contains the separator; `JoinSplit` and `SplitJoin` make it the inverse of joining |
| JsText.ParseIntDecimal | facility-booking-app/src/App.js:114 | `parseInt` reads back the decimal rendering of every natural number, so a facility id survives the select box |
| JsText.JoinSplit | facility-booking-app/src/App.js:98 | joining the pieces of `split` with the separator gives the original string |
| JsText.SplitJoin | facility-booking-app/src/App.js:98 | splitting a join of separator-free pieces gives the pieces back |
| TimeOfDay.TimeToMinutes | facility-booking-app/src/App.js:97-100 | the result, when a number, is not negative; a time without ':' has no minutes piece and gives NaN; `ClockMinutes` gives its value on "HH:MM" |
| TimeOfDay.StrLess | facility-booking-app/src/App.js:273 | JavaScript's string `<`, whose negation is the `>=` of the gate: it never holds between equal strings or against the empty string; `ClockOrder` relates it to minutes |
| TimeOfDay.Overlaps | facility-booking-app/src/App.js:103-110 | an overlap needs all four times to be numbers (NaN makes it false) with each start before the other's end; `OverlapsIffSharedMinute` gives its meaning |
| TimeOfDay.ClockMinutes | facility-booking-app/src/App.js:97-100 | `timeToMinutes` reads a zero-padded "HH:MM" string as hours times 60 plus minutes |
| TimeOfDay.ClockWithSecondsMinutes | facility-booking-app/src/App.js:97-100 | the seconds of a database time "HH:MM:SS" are ignored: same minute as "HH:MM" |
| TimeOfDay.ClockOrder | facility-booking-app/src/App.js:273 | for zero-padded "HH:MM" strings, string `<` holds exactly when the minute values are in order |
| TimeOfDay.UnpaddedOrderDisagrees | facility-booking-app/src/App.js:273 | without padding the string order and the minute order disagree ("10:00" before "9:00", 600 after 540) |
| TimeOfDay.OverlapsIffSharedMinute | facility-booking-app/src/App.js:103-110 | two well-formed periods overlap exactly when some minute lies in both half-open periods |
| TimeOfDay.OverlapsSymmetric | facility-booking-app/src/App.js:103-110 | the overlap test does not depend on which period is given first |
| TimeOfDay.AdjacentPeriodsDoNotOverlap | facility-booking-app/src/App.js:103-110 | a period ending when the other starts does not overlap it |
| Filtering.Filter | facility-booking-app/src/App.js:131-139 | an element is kept exactly when it is in the input and satisfies the predicate; the result is no longer than the input |
| Availability.FindFacility | facility-booking-app/src/App.js:115 | the result is the first facility with that id, and there is none exactly when no facility has that id |
| Availability.BookingFacility | facility-booking-app/src/App.js:132 | a numeric `facility_id` is taken as it is; the decimal rendering of an id as a string reads as that id |
| Availability.Lookup | facility-booking-app/src/App.js:114-115 | the facility found is in the list and has the parsed id; none is found exactly when the text is NaN or no facility has that id |
| Availability.Occupies | facility-booking-app/src/App.js:131-139 | an occupying booking is approved, of that date, of that facility, and all four times are numbers with each start before the other's end |
| Availability.CheckFacilityCapacity | facility-booking-app/src/App.js:113-156 | an unknown id gives the not-found verdict; otherwise total is the capacity, remaining is total minus booked, available iff remaining > 0, overlap iff booked > 0 iff some approved booking of that facility and date overlaps the request |
| Availability.VerdictOrderIndependent | facility-booking-app/src/App.js:131-143 | the verdict depends only on the multiset of bookings, not on their order |
| Availability.VerdictIgnoresNonOccupying | facility-booking-app/src/App.js:131-139 | inserting a booking that is not approved, for another date, another facility or a non-overlapping period leaves the verdict unchanged |
| Availability.VerdictCountsOccupying | facility-booking-app/src/App.js:131-152 | one more approved overlapping booking of the facility raises booked by one, lowers remaining by one and sets the overlap flag |
| Availability.VerdictWithNothingOccupying | facility-booking-app/src/App.js:143-152 | with no approved overlapping booking the whole capacity remains and there is no overlap |
| Lifecycle.UserBookings | facility-booking-app/src/App.js:718-720 | exactly the bookings owned by the account |
| Lifecycle.UserBookingsIdempotent | facility-booking-app/src/App.js:718-720 | filtering the account's bookings again changes nothing |
| Lifecycle.PendingBookings | facility-booking-app/src/App.js:713-716 | nothing for a client; for the boss exactly the pending bookings |
| Lifecycle.LoadedBookings | facility-booking-app/src/App.js:354-356 | the boss has the whole table in memory; a client exactly the client's own bookings |
| Lifecycle.ClientVerdictIgnoresOtherAccounts | facility-booking-app/src/App.js:354-356 | a booking of another account, whatever its status or period, does not change a client's verdict |
| Lifecycle.Admission | facility-booking-app/src/App.js:273-292 | the guards in their order: "end not after start" exactly when the times are not in string order; "missing field" exactly when they are but a field is empty; "fully booked" exactly when both pass and the verdict is unavailable; "time conflict" exactly when it is available but reports an overlap; each refusal carries that verdict |
| Lifecycle.EmptyTimesFailTheOrderCheck | facility-booking-app/src/App.js:273-281 | two empty times are refused by the order check, before the empty-field check is reached |
| Lifecycle.AdmittedIff | facility-booking-app/src/App.js:273-292 | a request is admitted iff its times are in string order, every field is filled, the facility exists with capacity at least 1 and no approved booking in memory for it and that date overlaps |
| Lifecycle.OverlapBlocksAdmission | facility-booking-app/src/App.js:283-292 | any overlapping approved booking blocks admission; with capacity left the outcome is a time conflict |
| Lifecycle.AdmittedPeriodIsOrdered | facility-booking-app/src/App.js:273-276 | for "HH:MM" inputs an admitted period starts before it ends in minutes as well |
| Lifecycle.NoCapacityNeverAdmits | facility-booking-app/src/App.js:283-287 | a facility with capacity zero or less is never bookable |
| Lifecycle.WithStatus | facility-booking-app/src/App.js:574-577 | the update keeps the number of rows and every row's id and facility, and every row with that id has the new status; `WithStatusChangesOnlyStatus` states the rest |
| Lifecycle.WithStatusChangesOnlyStatus | facility-booking-app/src/App.js:574-577 | the status update sets the status of the rows with that id and changes no other field and no other row |
| Lifecycle.WithStatusKeepsIds | facility-booking-app/src/App.js:574-577 | the status update keeps ids unique and introduces no new id |
| Lifecycle.CancelOwned | facility-booking-app/src/App.js:238-242 | a row is kept exactly when it does not have that id or is not owned by the account |
| Lifecycle.CancelUnownedIsNoOp | facility-booking-app/src/App.js:238-242 | cancelling an id the account does not own leaves the table unchanged |
| Lifecycle.CancelOwnedRemovesOne | facility-booking-app/src/App.js:238-242 | with unique ids, cancelling an owned booking removes that row only and keeps the order of the rest |
| Lifecycle.DeleteBooking | facility-booking-app/src/App.js:680-684 | a row is kept exactly when its id differs, whoever owns it |
| Lifecycle.DeleteBookingRemovesOne | facility-booking-app/src/App.js:680-684 | with unique ids, the boss's delete removes that row only and keeps the order of the rest |
| Lifecycle.CancelOwnedIsDeleteWhenOwned | facility-booking-app/src/App.js:238-242 | on the account's own booking the owner's cancel equals the boss's delete |
| Lifecycle.WithoutFacilityBookings | facility-booking-app/src/App.js:642-645 | a booking is kept exactly when it does not refer to the deleted facility |
| Lifecycle.WithoutFacility | facility-booking-app/src/App.js:648-651 | a facility is kept exactly when its id differs |
| Lifecycle.FindFacilityAfterDelete | facility-booking-app/src/App.js:648-651 | every other facility id is still found, as the same facility |
| Lifecycle.OccupyingAfterDelete | facility-booking-app/src/App.js:642-645 | the bookings occupying another facility are unchanged by the cascade |
| Lifecycle.DeleteFacilityKeepsOtherVerdicts | facility-booking-app/src/App.js:642-651 | after the cascade every verdict about another facility id is as before |
| Lifecycle.DeleteFacilityMakesItUnbookable | facility-booking-app/src/App.js:642-651 | after the cascade the deleted facility's verdict is the not-found verdict |
| Lifecycle.CascadeKeepsNoOrphans | facility-booking-app/src/App.js:642-651 | deleting a facility's bookings and then the facility leaves no orphaned booking |
| Lifecycle.FacilityDeleteAloneOrphans | facility-booking-app/src/App.js:648-651 | deleting the facility without first deleting its bookings would orphan them |
| Lifecycle.WithStatusKeepsNoOrphans | facility-booking-app/src/App.js:574-577 | the status update creates no orphaned booking |
| Lifecycle.AdmitKeepsInvariant | facility-booking-app/src/App.js:297-306 | inserting one booking with the next id for a facility in the table keeps ids unique and creates no orphan |
| Lifecycle.DeleteFacilityKeepsOtherBookings | facility-booking-app/src/App.js:642-645 | the bookings of every other facility are exactly as before, in order |
| Lifecycle.BookingStore.HandleBooking | facility-booking-app/src/App.js:265-308 | the outcome is the admission decision on the bookings in memory; only on admission one pending booking with the parsed facility id is appended; otherwise both tables are unchanged; the store invariant (unique ids, no orphans) is kept |
| Lifecycle.BookingStore.HandleApproval | facility-booking-app/src/App.js:569-577 | the bookings become the status update of the old bookings, facilities unchanged, the store invariant is kept |
| Lifecycle.BookingStore.HandleCancelBooking | facility-booking-app/src/App.js:232-242 | the bookings become the owner's cancel of the old bookings, facilities unchanged |
| Lifecycle.BookingStore.HandleCancelBookingForBoss | facility-booking-app/src/App.js:671-684 | the bookings become the boss's delete of the old bookings, facilities unchanged |
| Lifecycle.BookingStore.HandleDeleteFacility | facility-booking-app/src/App.js:632-651 | the facility's bookings, then the facility, are deleted; afterwards no booking refers to it and it is not found |
| Lifecycle.BookingStore.HandleAddFacility | facility-booking-app/src/App.js:596-612 | an empty field is refused; a non-numeric capacity inserts nothing; otherwise one facility with the parsed capacity and a fresh id is appended; bookings unchanged |
| Scenarios.EmptyFacilityAdmits | facility-booking-app/src/App.js:113-156 | capacity 1, no bookings, 09:00-10:00: one unit remains and the request is admitted |
| Scenarios.FullFacilityRefuses | facility-booking-app/src/App.js:283-287 | capacity 1, approved 09:00-10:00, request 09:30-10:30: overlap, nothing remains, refused as fully booked |
| Scenarios.OverlapRefusedDespiteCapacity | facility-booking-app/src/App.js:283-292 | capacity 3, two approved 14:00-15:00, request 14:30-15:30: one unit remains, refused for the overlap |
| Scenarios.AdjacentRequestAdmitted | facility-booking-app/src/App.js:103-110 | 10:00-11:00 is admitted after an approved 09:00-10:00 |
| Scenarios.ClientAdmittedOverOtherAccount | facility-booking-app/src/App.js:354-356 | capacity 1 with another account's approved booking: the client's request is admitted, while the same check over the whole table says fully booked |
| Scenarios.PendingDoNotCount | facility-booking-app/src/App.js:133 | two pending requests for the only unit leave it free |
| Scenarios.ApprovalCanOverfillFacility | facility-booking-app/src/App.js:574-577 | approving both of those pending requests leaves remaining at -1 |
| Scenarios.CascadeRemovesAllOfFacility | facility-booking-app/src/App.js:642-645 | deleting room 1 removes its bookings named by number or by string, whatever their status, and keeps room 2's |

## Left out

- Sign-up, log-in, log-out, session handling and profile loading: they go through the
  authentication service and hold no booking logic.
- The fetching part of `loadBookings` and `loadFacilities` (ordering by the database, joining
  facility names and user e-mails for display): the model takes the loaded lists as given;
  `VerdictOrderIndependent` shows that the order of the list does not matter.
- `formatDate`, all rendering, `setTimeout` message clearing, `window.confirm` and `alert`
  prompts (a declined prompt simply leaves the tables unchanged), logging, and the
  `useEffect` that mirrors the check into the form.
- Asynchrony and concurrent sessions: each handler is one atomic step here; two sessions
  racing between their check and their insert are not modelled.
- Database failures: a failed insert, update or delete, and the non-atomic cascade in which
  the bookings delete fails but the facility delete goes ahead, are not modelled.
- The `created_at` timestamp and the database's own id generation: ids come from the counters
  `nextBookingId` and `nextFacilityId`.
- JsText.NumberValue: whitespace, signs, decimal points and other numeric forms `Number`
  accepts are not modelled; a time input produces only digits and `':'`.
- Availability.BookingFacility: a string `facility_id` stands for the decimal rendering of an
  integer id; other strings such as "01", which the integer column never returns, would be read
  by `parseInt` as 1, so the cascade of the model would also delete them.
- JsText.ParseInt: leading whitespace and radix prefixes are not modelled; facility ids come
  from a select box and capacities from a number input.
- Lifecycle.BookingStore.HandleAddFacility: the database's refusal of a NaN capacity is
  modelled as "nothing inserted"; what the real table does with it is not part of this model.
- Lifecycle.BookingStore.HandleApproval, HandleCancelBookingForBoss, HandleDeleteFacility and
  HandleAddFacility: the role is a precondition because only the boss's views call them; the
  handlers themselves check no role.
- `src/index.js` (mounting the component) is not part of this model.
