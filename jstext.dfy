/** The single optional-value type of the model: `None` stands for a JavaScript NaN. */
module Wrappers {
  datatype Option<+T> = None | Some(value: T)
}

/**
 * The few pieces of JavaScript text handling the booking component relies on:
 * `String.prototype.split` on one separator character, `Number(text)` applied to a
 * field of an "HH:MM" string, and `parseInt(text)` applied to facility ids and to the
 * capacity typed into the "add facility" form.
 */
module JsText {
  import opened Wrappers

  predicate IsDigit(c: char) { '0' <= c <= '9' }

  function DigitValue(c: char): (d: nat)
    requires IsDigit(c)
    ensures d <= 9
  {
    c as int - '0' as int
  }

  function DigitChar(d: nat): (c: char)
    requires d <= 9
    ensures IsDigit(c) && DigitValue(c) == d
  {
    (d + '0' as int) as char
  }

  predicate AllDigits(s: string) { forall i | 0 <= i < |s| :: IsDigit(s[i]) }

  /** The value of a string of decimal digits, most significant digit first. */
  function DecimalValue(s: string): nat
    requires AllDigits(s)
    decreases |s|
  {
    if s == [] then 0 else 10 * DecimalValue(s[..|s| - 1]) + DigitValue(s[|s| - 1])
  }

  /** The decimal rendering of a natural number, as `String(n)` produces it. */
  function Decimal(n: nat): (s: string)
    ensures 1 <= |s| && AllDigits(s)
    ensures DecimalValue(s) == n
  {
    if n < 10 then [DigitChar(n)]
    else
      var prefix := Decimal(n / 10);
      var s := prefix + [DigitChar(n % 10)];
      assert s[..|s| - 1] == prefix;
      s
  }

  /**
   * `Number(field)`: the empty field reads as 0, a field of digits as its decimal value,
   * anything else as NaN (None). Only the forms an "HH:MM" input can produce are modelled.
   */
  function NumberValue(field: string): (r: Option<nat>)
    ensures r.Some? <==> AllDigits(field)
    ensures r.Some? ==> r.value == DecimalValue(field)
    ensures field == [] ==> r == Some(0)
  {
    if AllDigits(field) then Some(DecimalValue(field)) else None
  }

  /** `Number(String(n)) == n` for every natural number. */
  lemma NumberValueDecimal(n: nat)
    ensures NumberValue(Decimal(n)) == Some(n)
  {
  }

  /** The length of the run of decimal digits at the start of `s`. */
  function LeadingDigits(s: string): (k: nat)
    ensures k <= |s| && AllDigits(s[..k])
    ensures k < |s| ==> !IsDigit(s[k])
  {
    if s == [] || !IsDigit(s[0]) then 0
    else
      var k := 1 + LeadingDigits(s[1..]);
      assert s[..k] == [s[0]] + s[1..][..k - 1];
      k
  }

  /** `parseInt` without a sign: the leading digits, or NaN when there are none. */
  function UnsignedPrefix(s: string): (r: Option<nat>)
  {
    var k := LeadingDigits(s);
    if k == 0 then None else Some(DecimalValue(s[..k]))
  }

  /**
   * `parseInt(s)`: an optional sign, then the leading digits; the rest is ignored.
   * NaN (None) when no digit follows the sign.
   */
  function ParseInt(s: string): (r: Option<int>)
    ensures r.Some? ==> s != []
    ensures s != [] && IsDigit(s[0]) ==> r.Some? && r.value >= 0
    ensures s != [] && !IsDigit(s[0]) && s[0] != '-' && s[0] != '+' ==> r == None
    ensures s != [] && AllDigits(s) ==> r == Some(DecimalValue(s))
  {
    LeadingDigitsOfDigitsIf(s);
    if |s| > 0 && (s[0] == '-' || s[0] == '+') then
      match UnsignedPrefix(s[1..])
      case None => None
      case Some(n) =>
        var v: int := if s[0] == '-' then -(n as int) else n;
        Some(v)
    else
      match UnsignedPrefix(s)
      case None => None
      case Some(n) => Some(n)
  }

  lemma {:induction false} LeadingDigitsOfDigits(s: string)
    requires AllDigits(s)
    ensures LeadingDigits(s) == |s|
  {
    if s != [] {
      LeadingDigitsOfDigits(s[1..]);
    }
  }

  lemma LeadingDigitsOfDigitsIf(s: string)
    ensures AllDigits(s) ==> LeadingDigits(s) == |s| && s[..|s|] == s
  {
    if AllDigits(s) {
      LeadingDigitsOfDigits(s);
      assert s[..|s|] == s;
    }
  }

  lemma {:induction false} LeadingDigitsOfPrefix(s: string, rest: string)
    requires AllDigits(s) && (rest == [] || !IsDigit(rest[0]))
    ensures LeadingDigits(s + rest) == |s|
  {
    if s == [] {
      assert s + rest == rest;
    } else {
      assert (s + rest)[0] == s[0] && (s + rest)[1..] == s[1..] + rest;
      LeadingDigitsOfPrefix(s[1..], rest);
    }
  }

  /**
   * `parseInt` stops at the first character that is not a digit: a number followed by
   * anything else ("1.5", "12abc"), with or without a minus sign, reads as that number.
   */
  lemma ParseIntPrefix(n: nat, rest: string)
    requires rest == [] || !IsDigit(rest[0])
    ensures ParseInt(Decimal(n) + rest) == Some(n)
    ensures ParseInt(['-'] + Decimal(n) + rest) == Some(-(n as int))
  {
    var s := Decimal(n);
    LeadingDigitsOfPrefix(s, rest);
    assert (s + rest)[..|s|] == s;
    assert IsDigit((s + rest)[0]);
    assert (['-'] + s + rest)[1..] == s + rest;
  }

  /** Reading back the rendering of a facility id gives the id: `parseInt(String(n)) == n`. */
  lemma ParseIntDecimal(n: nat)
    ensures ParseInt(Decimal(n)) == Some(n)
  {
    var s := Decimal(n);
    LeadingDigitsOfDigits(s);
    assert s[..|s|] == s;
  }

  /** `s.split(sep)`: the pieces between separators, with empty pieces kept. */
  function Split(s: string, sep: char): (parts: seq<string>)
    ensures |parts| >= 1
    ensures forall p | p in parts :: sep !in p
  {
    if s == [] then [[]]
    else
      var rest := Split(s[1..], sep);
      if s[0] == sep then [[]] + rest
      else [[s[0]] + rest[0]] + rest[1..]
  }

  /** `parts.join(sep)`, the inverse of `Split`. */
  function Join(parts: seq<string>, sep: char): string
    requires |parts| >= 1
  {
    if |parts| == 1 then parts[0] else parts[0] + [sep] + Join(parts[1..], sep)
  }

  lemma {:induction false} JoinSplit(s: string, sep: char)
    ensures Join(Split(s, sep), sep) == s
  {
    if s != [] {
      JoinSplit(s[1..], sep);
      var rest := Split(s[1..], sep);
      if s[0] != sep && |rest| > 1 {
        assert Split(s, sep)[1..] == rest[1..];
      }
    }
  }

  lemma {:induction false} SplitNoSeparatorPrefix(a: string, t: string, sep: char)
    requires sep !in a
    ensures Split(a + t, sep) == [a + Split(t, sep)[0]] + Split(t, sep)[1..]
  {
    if a == [] {
      assert a + t == t && a + Split(t, sep)[0] == Split(t, sep)[0];
    } else {
      SplitNoSeparatorPrefix(a[1..], t, sep);
      assert (a + t)[0] == a[0] && a[0] != sep;
      assert (a + t)[1..] == a[1..] + t;
      var rest := Split(a[1..] + t, sep);
      assert rest[0] == a[1..] + Split(t, sep)[0];
      assert rest[1..] == Split(t, sep)[1..];
      assert Split(a + t, sep) == [[a[0]] + rest[0]] + rest[1..];
      assert [a[0]] + (a[1..] + Split(t, sep)[0]) == a + Split(t, sep)[0];
    }
  }

  lemma {:induction false} SplitJoin(parts: seq<string>, sep: char)
    requires |parts| >= 1
    requires forall p | p in parts :: sep !in p
    ensures Split(Join(parts, sep), sep) == parts
  {
    if |parts| == 1 {
      SplitNoSeparatorPrefix(parts[0], [], sep);
      assert parts[0] + [] == parts[0];
    } else {
      var rest := Join(parts[1..], sep);
      SplitJoin(parts[1..], sep);
      SplitNoSeparatorPrefix(parts[0], [sep] + rest, sep);
      assert ([sep] + rest)[1..] == rest;
      assert parts[0] + [sep] + rest == parts[0] + ([sep] + rest);
      assert parts[0] + [] == parts[0];
      assert [parts[0]] + parts[1..] == parts;
    }
  }
}
