/**
 * Times of day as the booking component handles them: strings such as "09:30" (from
 * `<input type="time">`) or "09:30:00" (as the database returns a time column), turned
 * into minutes since midnight by `timeToMinutes` and compared as half-open periods by
 * `checkTimeOverlap`. The admission gate compares the raw strings instead, with
 * JavaScript's string `<`.
 */
module TimeOfDay {
  import opened Wrappers
  import opened JsText

  /**
   * `timeToMinutes`: split at ':', read the first two pieces with `Number`, and return
   * `hours * 60 + minutes`. A missing minutes piece is `undefined`, which makes the
   * result NaN (None), as does any piece that is not a number.
   */
  function TimeToMinutes(t: string): (r: Option<int>)
    ensures r.Some? ==> r.value >= 0
    ensures ':' !in t ==> r == None
  {
    SplitWithoutSeparator(t, ':');
    var parts := Split(t, ':');
    var hours := NumberValue(parts[0]);
    var minutes := if |parts| >= 2 then NumberValue(parts[1]) else None;
    if hours.Some? && minutes.Some? then Some(hours.value * 60 + minutes.value) else None
  }

  lemma SplitWithoutSeparator(t: string, sep: char)
    ensures sep !in t ==> Split(t, sep) == [t]
  {
    if sep !in t {
      SplitNoSeparatorPrefix(t, [], sep);
      assert t + [] == t;
    }
  }

  /** A zero-padded 24-hour "HH:MM" time, the only form a time input produces. */
  predicate IsClock(t: string)
  {
    && |t| == 5
    && IsDigit(t[0]) && IsDigit(t[1]) && t[2] == ':' && IsDigit(t[3]) && IsDigit(t[4])
    && 10 * DigitValue(t[0]) + DigitValue(t[1]) < 24
    && t[3] <= '5'
  }

  /** The minute of the day an "HH:MM" string names, read digit by digit. */
  function ClockValue(t: string): (m: nat)
    requires IsClock(t)
    ensures m < 24 * 60
  {
    (10 * DigitValue(t[0]) + DigitValue(t[1])) * 60 + 10 * DigitValue(t[3]) + DigitValue(t[4])
  }

  lemma TwoDigits(s: string)
    requires |s| == 2 && AllDigits(s)
    ensures DecimalValue(s) == 10 * DigitValue(s[0]) + DigitValue(s[1])
  {
    var first := s[..1];
    assert first[..0] == [] && first[0] == s[0] && s[..|s| - 1] == first;
    assert DecimalValue(first) == DigitValue(s[0]);
  }

  /** `timeToMinutes` reads an "HH:MM" string as the minute of the day it names. */
  lemma ClockMinutes(t: string)
    requires IsClock(t)
    ensures TimeToMinutes(t) == Some(ClockValue(t))
  {
    var h, m := t[..2], t[3..];
    assert t == Join([h, m], ':');
    SplitJoin([h, m], ':');
    TwoDigits(h);
    TwoDigits(m);
  }

  /** The seconds the database appends ("09:30:00") do not change the minute count. */
  lemma ClockWithSecondsMinutes(t: string)
    requires |t| == 8 && IsClock(t[..5]) && t[5] == ':' && AllDigits(t[6..])
    ensures TimeToMinutes(t) == Some(ClockValue(t[..5]))
  {
    var h, m, sec := t[..2], t[3..5], t[6..];
    assert Join([h, m, sec], ':') == h + [':'] + Join([m, sec], ':');
    assert Join([m, sec], ':') == m + [':'] + sec;
    assert t == h + [':'] + (m + [':'] + sec);
    SplitJoin([h, m, sec], ':');
    TwoDigits(h);
    TwoDigits(m);
  }

  /** JavaScript's `<` on strings: lexicographic order of the characters. */
  predicate StrLess(a: string, b: string)
    ensures StrLess(a, b) ==> a != b && b != []
  {
    if a == [] then b != []
    else if b == [] then false
    else if a[0] != b[0] then a[0] < b[0]
    else StrLess(a[1..], b[1..])
  }

  /**
   * For zero-padded "HH:MM" strings the string order used by the admission gate is the
   * order of the minutes used by the overlap test.
   */
  lemma ClockOrder(a: string, b: string)
    requires IsClock(a) && IsClock(b)
    ensures StrLess(a, b) <==> ClockValue(a) < ClockValue(b)
  {
    assert StrLess(a, b) == if a[0] != b[0] then a[0] < b[0] else StrLess(a[1..], b[1..]);
    assert StrLess(a[1..], b[1..]) == if a[1] != b[1] then a[1] < b[1] else StrLess(a[2..], b[2..]);
    assert a[1..][1..] == a[2..] && b[1..][1..] == b[2..];
    assert StrLess(a[2..], b[2..]) == StrLess(a[3..], b[3..]);
    assert a[2..][1..] == a[3..] && b[2..][1..] == b[3..];
    assert StrLess(a[3..], b[3..]) == if a[3] != b[3] then a[3] < b[3] else StrLess(a[4..], b[4..]);
    assert a[3..][1..] == a[4..] && b[3..][1..] == b[4..];
    assert StrLess(a[4..], b[4..]) == if a[4] != b[4] then a[4] < b[4] else StrLess(a[5..], b[5..]);
    assert a[4..][1..] == a[5..] && b[4..][1..] == b[5..];
    assert a[5..] == [] && b[5..] == [];
  }

  /** Without zero padding the two orders disagree: "10:00" sorts before "9:00". */
  lemma UnpaddedOrderDisagrees(ten: string, nine: string)
    requires ten == "10:00" && nine == "9:00"
    ensures StrLess(ten, nine)
    ensures TimeToMinutes(ten) == Some(600) && TimeToMinutes(nine) == Some(540)
  {
    assert ten[0] == '1' && nine[0] == '9';
    ClockMinutes(ten);
    UnpaddedNine(nine);
  }

  lemma UnpaddedNine(nine: string)
    requires nine == "9:00"
    ensures TimeToMinutes(nine) == Some(540)
  {
    var h, m := nine[..1], nine[2..];
    assert nine == Join([h, m], ':');
    SplitJoin([h, m], ':');
    TwoDigits(m);
    assert h[..0] == [];
  }

  /**
   * `checkTimeOverlap`: periods [start1, end1) and [start2, end2) intersect. A NaN on
   * any side makes every comparison false, and so the answer false.
   */
  predicate Overlaps(start1: string, end1: string, start2: string, end2: string)
    ensures Overlaps(start1, end1, start2, end2) ==>
      && TimeToMinutes(start1).Some? && TimeToMinutes(end1).Some?
      && TimeToMinutes(start2).Some? && TimeToMinutes(end2).Some?
      && TimeToMinutes(start1).value < TimeToMinutes(end2).value
      && TimeToMinutes(start2).value < TimeToMinutes(end1).value
  {
    match (TimeToMinutes(start1), TimeToMinutes(end1), TimeToMinutes(start2), TimeToMinutes(end2))
    case (Some(s1), Some(e1), Some(s2), Some(e2)) => s1 < e2 && e1 > s2
    case _ => false
  }

  /** Minute `m` lies in the half-open period [lo, hi). */
  predicate Within(m: int, lo: int, hi: int) { lo <= m < hi }

  /**
   * The overlap test agrees with its meaning: two well-formed periods overlap exactly when
   * some minute lies in both.
   */
  lemma OverlapsIffSharedMinute(start1: string, end1: string, start2: string, end2: string)
    requires TimeToMinutes(start1).Some? && TimeToMinutes(end1).Some?
    requires TimeToMinutes(start2).Some? && TimeToMinutes(end2).Some?
    requires TimeToMinutes(start1).value < TimeToMinutes(end1).value
    requires TimeToMinutes(start2).value < TimeToMinutes(end2).value
    ensures Overlaps(start1, end1, start2, end2) <==>
      exists m :: Within(m, TimeToMinutes(start1).value, TimeToMinutes(end1).value) &&
                  Within(m, TimeToMinutes(start2).value, TimeToMinutes(end2).value)
  {
    var s1, e1 := TimeToMinutes(start1).value, TimeToMinutes(end1).value;
    var s2, e2 := TimeToMinutes(start2).value, TimeToMinutes(end2).value;
    if Overlaps(start1, end1, start2, end2) {
      var m := if s1 < s2 then s2 else s1;
      assert Within(m, s1, e1) && Within(m, s2, e2);
    }
  }

  lemma OverlapsSymmetric(start1: string, end1: string, start2: string, end2: string)
    ensures Overlaps(start1, end1, start2, end2) == Overlaps(start2, end2, start1, end1)
  {
  }

  /** Back-to-back periods do not overlap: one ending when the other starts. */
  lemma AdjacentPeriodsDoNotOverlap(start1: string, end1: string, start2: string, end2: string)
    requires TimeToMinutes(end1) == TimeToMinutes(start2)
    ensures !Overlaps(start1, end1, start2, end2)
  {
  }
}
