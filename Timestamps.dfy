/**
 * Timestamps as text. The store stamps rows with the local time formatted
 * `MM/dd/yyyy HH:mm`; the list copy made after a save carries the decimal
 * text of the millisecond clock instead. The clock itself is injected: a
 * `DateTime` is the local calendar reading of `Date()`, and the
 * millisecond reading is a `nat`.
 *
 * `LexLess` is the order in which SQLite compares these texts (the BINARY
 * collation: byte-wise on UTF-8, which is code-point order).
 */
module Timestamps {

  // ---------------------------------------------------------------------
  // Decimal digits
  // ---------------------------------------------------------------------

  predicate IsDigit(c: char) {
    '0' <= c <= '9'
  }

  function Digit(d: nat): (c: char)
    requires d < 10
    ensures IsDigit(c)
  {
    ('0' as int + d) as char
  }

  function DigitValue(c: char): (d: nat)
    requires IsDigit(c)
    ensures d < 10 && Digit(d) == c
  {
    c as int - '0' as int
  }

  predicate AllDigits(s: string) {
    forall i :: 0 <= i < |s| ==> IsDigit(s[i])
  }

  /** The value a text of decimal digits denotes (most significant first). */
  function DigitsValue(s: string): nat
    requires AllDigits(s)
  {
    if s == [] then 0 else DigitsValue(s[..|s| - 1]) * 10 + DigitValue(s[|s| - 1])
  }

  /** `n.toString()` for a non-negative `n`: shortest decimal text, no leading zero. */
  function Decimal(n: nat): (r: string)
    ensures |r| >= 1 && AllDigits(r)
    ensures r[0] == '0' ==> n == 0
    decreases n
  {
    if n < 10 then [Digit(n)] else Decimal(n / 10) + [Digit(n % 10)]
  }

  /** Reading the decimal text back gives the number it was made from. */
  lemma {:induction false} DecimalRoundTrip(n: nat)
    ensures DigitsValue(Decimal(n)) == n
    decreases n
  {
    if n >= 10 {
      var r := Decimal(n);
      assert r[..|r| - 1] == Decimal(n / 10);
      DecimalRoundTrip(n / 10);
    }
  }

  function Power10(k: nat): (p: nat)
    ensures p >= 1
  {
    if k == 0 then 1 else 10 * Power10(k - 1)
  }

  /** A number below `10^k` has at most `k` digits (for `k >= 1`). */
  lemma {:induction false} DecimalLength(n: nat, k: nat)
    requires 1 <= k && n < Power10(k)
    ensures |Decimal(n)| <= k
    decreases k
  {
    if n >= 10 {
      assert Power10(0) == 1;
      assert k >= 2;
      DecimalLength(n / 10, k - 1);
    }
  }

  function Zeros(k: nat): (r: string)
    ensures |r| == k && forall i :: 0 <= i < k ==> r[i] == '0'
  {
    seq(k, _ => '0')
  }

  /**
   * A date-format number field of the given width: `Decimal(n)` left-padded
   * with zeros to at least `width` characters (`MM`, `dd`, `yyyy`, ...).
   */
  function Pad(n: nat, width: nat): (r: string)
    ensures AllDigits(r)
    ensures |r| == if |Decimal(n)| < width then width else |Decimal(n)|
  {
    var d := Decimal(n);
    if |d| < width then Zeros(width - |d|) + d else d
  }

  /** Padding changes the text but not the number it denotes. */
  lemma {:induction false} PadValue(n: nat, width: nat)
    ensures DigitsValue(Pad(n, width)) == n
  {
    DecimalRoundTrip(n);
    var d := Decimal(n);
    if |d| < width {
      var z := Zeros(width - |d|);
      assert Pad(n, width) == z + d;
      LeadingZerosValue(z, d);
    }
  }

  lemma {:induction false} LeadingZerosValue(z: string, d: string)
    requires AllDigits(d)
    requires forall i :: 0 <= i < |z| ==> z[i] == '0'
    ensures AllDigits(z + d) && DigitsValue(z + d) == DigitsValue(d)
    decreases |d|
  {
    var s := z + d;
    assert AllDigits(s) by {
      forall i | 0 <= i < |s| ensures IsDigit(s[i]) {
        if i < |z| { assert s[i] == z[i]; } else { assert s[i] == d[i - |z|]; }
      }
    }
    if d == [] {
      assert s == z;
      AllZerosValue(z);
    } else {
      assert s[..|s| - 1] == z + d[..|d| - 1];
      LeadingZerosValue(z, d[..|d| - 1]);
    }
  }

  lemma {:induction false} AllZerosValue(z: string)
    requires forall i :: 0 <= i < |z| ==> z[i] == '0'
    ensures AllDigits(z) && DigitsValue(z) == 0
    decreases |z|
  {
    if z != [] {
      AllZerosValue(z[..|z| - 1]);
    }
  }

  /** A two-digit field is its tens digit followed by its units digit. */
  lemma TwoDigitField(n: nat)
    requires n < 100
    ensures Pad(n, 2) == [Digit(n / 10), Digit(n % 10)]
  {
    if n >= 10 {
      assert Decimal(n) == Decimal(n / 10) + [Digit(n % 10)];
    } else {
      assert Zeros(1) == [Digit(0)];
    }
  }

  // ---------------------------------------------------------------------
  // The text order used by ORDER BY
  // ---------------------------------------------------------------------

  /** `a` sorts strictly before `b`: code point by code point, a proper prefix first. */
  predicate LexLess(a: string, b: string) {
    if a == [] then b != []
    else if b == [] then false
    else if a[0] != b[0] then a[0] < b[0]
    else LexLess(a[1..], b[1..])
  }

  lemma {:induction false} LexLessIrreflexive(a: string)
    ensures !LexLess(a, a)
    decreases |a|
  {
    if a != [] {
      LexLessIrreflexive(a[1..]);
    }
  }

  lemma {:induction false} LexLessAsymmetric(a: string, b: string)
    ensures LexLess(a, b) ==> !LexLess(b, a)
    decreases |a|
  {
    if a != [] && b != [] && a[0] == b[0] {
      LexLessAsymmetric(a[1..], b[1..]);
    }
  }

  lemma {:induction false} LexLessTransitive(a: string, b: string, c: string)
    requires LexLess(a, b) && LexLess(b, c)
    ensures LexLess(a, c)
    decreases |a|
  {
    if a != [] && a[0] == b[0] && b[0] == c[0] {
      LexLessTransitive(a[1..], b[1..], c[1..]);
    }
  }

  lemma {:induction false} LexLessTotal(a: string, b: string)
    ensures a == b || LexLess(a, b) || LexLess(b, a)
    decreases |a|
  {
    if a != [] && b != [] && a[0] == b[0] {
      LexLessTotal(a[1..], b[1..]);
      if a[1..] == b[1..] {
        assert a == [a[0]] + a[1..] && b == [b[0]] + b[1..];
      }
    }
  }

  /** "Not before" is transitive: the relation a non-increasing sort relies on. */
  lemma LexAtLeastTransitive(a: string, b: string, c: string)
    requires !LexLess(a, b) && !LexLess(b, c)
    ensures !LexLess(a, c)
  {
    LexLessTotal(a, b);
    LexLessTotal(b, c);
    if a != b && b != c {
      LexLessTransitive(c, b, a);
      LexLessAsymmetric(c, a);
    }
  }

  /** Comparing texts that start with equal-length fields compares the fields first. */
  lemma {:induction false} LexLessConcat(p: string, q: string, s: string, t: string)
    requires |p| == |q|
    ensures LexLess(p + s, q + t) <==> LexLess(p, q) || (p == q && LexLess(s, t))
    decreases |p|
  {
    if p != [] {
      assert (p + s)[0] == p[0] && (q + t)[0] == q[0];
      assert (p + s)[1..] == p[1..] + s && (q + t)[1..] == q[1..] + t;
      LexLessConcat(p[1..], q[1..], s, t);
      if p[0] == q[0] && p[1..] == q[1..] {
        assert p == q by { assert p == [p[0]] + p[1..] && q == [q[0]] + q[1..]; }
      }
      if p == q {
        assert p[1..] == q[1..];
      }
    } else {
      assert p + s == s && q + t == t;
    }
  }

  /** On two-digit fields the text order is the numeric order. */
  lemma TwoDigitOrder(m: nat, n: nat)
    requires m < 100 && n < 100
    ensures LexLess(Pad(m, 2), Pad(n, 2)) <==> m < n
    ensures Pad(m, 2) == Pad(n, 2) <==> m == n
  {
    TwoDigitField(m);
    TwoDigitField(n);
    var p, q := Pad(m, 2), Pad(n, 2);
    assert p[1..] == [Digit(m % 10)] && q[1..] == [Digit(n % 10)];
    assert LexLess([Digit(m % 10)], [Digit(n % 10)]) <==> Digit(m % 10) < Digit(n % 10) by {
      assert [Digit(m % 10)][1..] == [] && [Digit(n % 10)][1..] == [];
    }
    assert m == 10 * (m / 10) + m % 10 && n == 10 * (n / 10) + n % 10;
  }

  // ---------------------------------------------------------------------
  // getCurrentTimestamp
  // ---------------------------------------------------------------------

  /** A local calendar reading of the clock, as `SimpleDateFormat` sees it. */
  datatype DateTime = DateTime(year: nat, month: nat, day: nat, hour: nat, minute: nat)

  /**
   * Field ranges of a reading. Day-of-month validity per month is calendar
   * arithmetic and is not part of this model.
   */
  predicate ValidDateTime(t: DateTime) {
    t.year < 10000 && 1 <= t.month <= 12 && 1 <= t.day <= 31 && t.hour < 24 && t.minute < 60
  }

  /** `t` is strictly earlier than `u` in time. */
  predicate Before(t: DateTime, u: DateTime) {
    if t.year != u.year then t.year < u.year
    else if t.month != u.month then t.month < u.month
    else if t.day != u.day then t.day < u.day
    else if t.hour != u.hour then t.hour < u.hour
    else t.minute < u.minute
  }

  /** The time of day: `HH:mm`. */
  function TimeText(t: DateTime): string {
    Pad(t.hour, 2) + (":" + Pad(t.minute, 2))
  }

  /** The text after the day field: `/yyyy HH:mm`. */
  function YearAndTime(t: DateTime): string {
    ("/" + Pad(t.year, 4) + " ") + TimeText(t)
  }

  /** The text from the day field on: `dd/yyyy HH:mm`. */
  function DayOnward(t: DateTime): string {
    Pad(t.day, 2) + YearAndTime(t)
  }

  /** `getCurrentTimestamp()` at clock reading `t`: the pattern `MM/dd/yyyy HH:mm`. */
  function GetCurrentTimestamp(t: DateTime): string {
    Pad(t.month, 2) + ("/" + DayOnward(t))
  }

  /**
   * A timestamp of a valid reading is sixteen characters: digits, with `/`
   * at positions 2 and 5, a space at 10 and `:` at 13; and each field reads
   * back as the number it was made from.
   */
  lemma TimestampLayout(t: DateTime)
    requires ValidDateTime(t)
    ensures var s := GetCurrentTimestamp(t);
      && |s| == 16
      && s[2] == '/' && s[5] == '/' && s[10] == ' ' && s[13] == ':'
      && (forall i :: 0 <= i < 16 && i !in {2, 5, 10, 13} ==> IsDigit(s[i]))
      && s[0..2] == Pad(t.month, 2) && s[3..5] == Pad(t.day, 2) && s[6..10] == Pad(t.year, 4)
      && s[11..13] == Pad(t.hour, 2) && s[14..16] == Pad(t.minute, 2)
  {
    assert Power10(4) == 10000;
    DecimalLength(t.year, 4);
    TwoDigitField(t.month);
    TwoDigitField(t.day);
    TwoDigitField(t.hour);
    TwoDigitField(t.minute);
    FieldsLayout(Pad(t.month, 2), Pad(t.day, 2), Pad(t.year, 4), Pad(t.hour, 2), Pad(t.minute, 2));
  }

  /** The pattern `MM/dd/yyyy HH:mm` filled with fields of the right widths. */
  lemma FieldsLayout(mo: string, da: string, y: string, ho: string, mi: string)
    requires |mo| == |da| == |ho| == |mi| == 2 && |y| == 4
    requires AllDigits(mo) && AllDigits(da) && AllDigits(y) && AllDigits(ho) && AllDigits(mi)
    ensures var s := mo + ("/" + (da + ((("/" + y) + " ") + (ho + (":" + mi)))));
      && |s| == 16
      && s[2] == '/' && s[5] == '/' && s[10] == ' ' && s[13] == ':'
      && (forall i :: 0 <= i < 16 && i !in {2, 5, 10, 13} ==> IsDigit(s[i]))
      && s[0..2] == mo && s[3..5] == da && s[6..10] == y && s[11..13] == ho && s[14..16] == mi
  {
    var s := mo + ("/" + (da + ((("/" + y) + " ") + (ho + (":" + mi)))));
    var lit := [mo[0], mo[1], '/', da[0], da[1], '/', y[0], y[1], y[2], y[3], ' ', ho[0], ho[1], ':', mi[0], mi[1]];
    assert s == lit;
    assert lit[0..2] == mo && lit[3..5] == da && lit[6..10] == y && lit[11..13] == ho && lit[14..16] == mi;
  }

  /** Each field of a valid timestamp reads back as the number it was made from. */
  lemma TimestampFieldsReadBack(t: DateTime)
    requires ValidDateTime(t)
    ensures var s := GetCurrentTimestamp(t);
      |s| == 16 && AllDigits(s[0..2]) && AllDigits(s[3..5]) && AllDigits(s[6..10])
      && AllDigits(s[11..13]) && AllDigits(s[14..16])
      && DigitsValue(s[0..2]) == t.month && DigitsValue(s[3..5]) == t.day
      && DigitsValue(s[6..10]) == t.year
      && DigitsValue(s[11..13]) == t.hour && DigitsValue(s[14..16]) == t.minute
  {
    TimestampLayout(t);
    PadValue(t.month, 2);
    PadValue(t.day, 2);
    PadValue(t.year, 4);
    PadValue(t.hour, 2);
    PadValue(t.minute, 2);
  }

  /** A common prefix does not decide the order: the rest does. */
  lemma CommonPrefixOrder(c: string, s: string, t: string)
    ensures LexLess(c + s, c + t) <==> LexLess(s, t)
  {
    LexLessConcat(c, c, s, t);
    LexLessIrreflexive(c);
  }

  /** A two-digit field followed by more text compares the field first. */
  lemma FieldThenRest(m: nat, n: nat, s: string, t: string)
    requires m < 100 && n < 100
    ensures LexLess(Pad(m, 2) + s, Pad(n, 2) + t) <==> m < n || (m == n && LexLess(s, t))
  {
    TwoDigitField(m);
    TwoDigitField(n);
    TwoDigitOrder(m, n);
    LexLessConcat(Pad(m, 2), Pad(n, 2), s, t);
  }

  lemma TimeOrder(t: DateTime, u: DateTime)
    requires ValidDateTime(t) && ValidDateTime(u)
    ensures LexLess(TimeText(t), TimeText(u)) <==>
      t.hour < u.hour || (t.hour == u.hour && t.minute < u.minute)
  {
    CommonPrefixOrder(":", Pad(t.minute, 2), Pad(u.minute, 2));
    TwoDigitOrder(t.minute, u.minute);
    FieldThenRest(t.hour, u.hour, ":" + Pad(t.minute, 2), ":" + Pad(u.minute, 2));
  }

  lemma DayOnwardOrder(t: DateTime, u: DateTime)
    requires ValidDateTime(t) && ValidDateTime(u) && t.year == u.year
    ensures LexLess(DayOnward(t), DayOnward(u)) <==>
      t.day < u.day || (t.day == u.day && LexLess(TimeText(t), TimeText(u)))
  {
    var y := "/" + Pad(t.year, 4) + " ";
    assert YearAndTime(t) == y + TimeText(t) && YearAndTime(u) == y + TimeText(u);
    CommonPrefixOrder(y, TimeText(t), TimeText(u));
    FieldThenRest(t.day, u.day, YearAndTime(t), YearAndTime(u));
  }

  /**
   * Within one calendar year the text order of timestamps is the order in
   * time, so `ORDER BY timestamp DESC` lists the most recent first.
   */
  lemma SameYearTextOrderIsChronological(t: DateTime, u: DateTime)
    requires ValidDateTime(t) && ValidDateTime(u) && t.year == u.year
    ensures LexLess(GetCurrentTimestamp(t), GetCurrentTimestamp(u)) <==> Before(t, u)
  {
    TimeOrder(t, u);
    DayOnwardOrder(t, u);
    CommonPrefixOrder("/", DayOnward(t), DayOnward(u));
    FieldThenRest(t.month, u.month, "/" + DayOnward(t), "/" + DayOnward(u));
  }

  /**
   * Across a year boundary the text order is not the order in time: the
   * first minute of a year sorts before the last minute of the year before.
   */
  lemma NewYearSortsBeforeOldYear()
    ensures var t, u := DateTime(2023, 12, 31, 23, 59), DateTime(2024, 1, 1, 0, 0);
      ValidDateTime(t) && ValidDateTime(u) && Before(t, u)
      && LexLess(GetCurrentTimestamp(u), GetCurrentTimestamp(t))
  {
    var t, u := DateTime(2023, 12, 31, 23, 59), DateTime(2024, 1, 1, 0, 0);
    FieldThenRest(1, 12, "/" + DayOnward(u), "/" + DayOnward(t));
  }

  // ---------------------------------------------------------------------
  // System.currentTimeMillis().toString()
  // ---------------------------------------------------------------------

  /** The decimal text of the millisecond clock reading. */
  function MillisText(millis: nat): string {
    Decimal(millis)
  }

  /**
   * A millisecond text is never a store timestamp: it is all digits, while a
   * store timestamp has `/` at position 2.
   */
  lemma MillisTextIsNotStoreFormat(millis: nat, t: DateTime)
    requires ValidDateTime(t)
    ensures MillisText(millis) != GetCurrentTimestamp(t)
  {
    TimestampLayout(t);
    var m := MillisText(millis);
    if |m| == 16 {
      assert IsDigit(m[2]);
    }
  }
}
