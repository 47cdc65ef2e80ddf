/** `ms_to_iso`: milliseconds since the epoch as a Gregorian date and time. */
module Calendar {
  import opened Bytes

  // ----- The Gregorian calendar -----

  predicate Leap(y: nat) {
    (y % 4 == 0 && y % 100 != 0) || y % 400 == 0
  }

  function YearLength(y: nat): nat {
    if Leap(y) then 366 else 365
  }

  function MonthLength(y: nat, mo: nat): nat
    requires 1 <= mo <= 12
  {
    if mo == 2 then (if Leap(y) then 29 else 28)
    else if mo == 4 || mo == 6 || mo == 9 || mo == 11 then 30
    else 31
  }

  /** Days from 1970-01-01 to the first day of a year, by the leap-year rule in closed form. */
  function YearStart(y: nat): int
    requires y >= 1970
  {
    365 * (y - 1970) + (y - 1) / 4 - (y - 1) / 100 + (y - 1) / 400 - 477
  }

  lemma YearStartStep(y: nat)
    requires y >= 1970
    ensures YearStart(1970) == 0 && YearStart(y + 1) == YearStart(y) + YearLength(y)
  {
    assert y / 4 == (y - 1) / 4 + if y % 4 == 0 then 1 else 0;
    assert y / 100 == (y - 1) / 100 + if y % 100 == 0 then 1 else 0;
    assert y / 400 == (y - 1) / 400 + if y % 400 == 0 then 1 else 0;
    Multiples(y);
  }

  lemma Multiples(y: nat)
    ensures y % 400 == 0 ==> y % 100 == 0
    ensures y % 100 == 0 ==> y % 4 == 0
  {
    var q := y / 100;
    assert y == 100 * q + y % 100;
    assert y % 100 == 0 ==> y == 4 * (25 * q);
    var r := y / 400;
    assert y == 400 * r + y % 400;
    assert y % 400 == 0 ==> y == 100 * (4 * r);
  }

  /** Days from the first of January to the first of month `mo`; 13 stands for the next year. */
  function MonthStart(y: nat, mo: nat): nat
    requires 1 <= mo <= 13
  {
    if mo == 1 then 0 else MonthStart(y, mo - 1) + MonthLength(y, mo - 1)
  }

  lemma TwelveMonths(y: nat)
    ensures MonthStart(y, 13) == YearLength(y)
  {
    assert MonthStart(y, 3) == MonthStart(y, 1) + 31 + MonthLength(y, 2);
    assert MonthStart(y, 5) == MonthStart(y, 3) + 61;
    assert MonthStart(y, 7) == MonthStart(y, 5) + 61;
    assert MonthStart(y, 9) == MonthStart(y, 7) + 62;
    assert MonthStart(y, 11) == MonthStart(y, 9) + 61;
    assert MonthStart(y, 13) == MonthStart(y, 11) + 61;
  }

  datatype Stamp = Stamp(y: nat, mo: nat, day: nat, h: nat, m: nat, s: nat)

  predicate ValidStamp(t: Stamp) {
    && t.y >= 1970 && 1 <= t.mo <= 12 && 1 <= t.day <= MonthLength(t.y, t.mo)
    && t.h < 24 && t.m < 60 && t.s < 60
  }

  function DayNumber(t: Stamp): int
    requires ValidStamp(t)
  {
    YearStart(t.y) + MonthStart(t.y, t.mo) + t.day - 1
  }

  function Seconds(t: Stamp): int
    requires ValidStamp(t)
  {
    DayNumber(t) * 86400 + t.h * 3600 + t.m * 60 + t.s
  }

  // ----- Order -----

  predicate EarlierDay(a: Stamp, b: Stamp) {
    a.y < b.y || (a.y == b.y && (a.mo < b.mo || (a.mo == b.mo && a.day < b.day)))
  }

  predicate SameDay(a: Stamp, b: Stamp) {
    a.y == b.y && a.mo == b.mo && a.day == b.day
  }

  predicate Earlier(a: Stamp, b: Stamp) {
    EarlierDay(a, b) ||
    (SameDay(a, b) && (a.h < b.h || (a.h == b.h && (a.m < b.m || (a.m == b.m && a.s < b.s)))))
  }

  lemma {:induction false} MonthStartGrows(y: nat, a: nat, b: nat)
    requires 1 <= a < b <= 13
    ensures MonthStart(y, a) + MonthLength(y, a) <= MonthStart(y, b)
  {
    if a < b - 1 { MonthStartGrows(y, a, b - 1); }
  }

  lemma {:induction false} YearStartGrows(a: nat, b: nat)
    requires 1970 <= a < b
    ensures YearStart(a) + YearLength(a) <= YearStart(b)
  {
    hide YearStart, YearLength;
    YearStartStep(b - 1);
    YearStartStep(a);
    if a < b - 1 {
      YearStartGrows(a, b - 1);
    }
  }

  lemma DayNumberGrows(a: Stamp, b: Stamp)
    requires ValidStamp(a) && ValidStamp(b) && EarlierDay(a, b)
    ensures DayNumber(a) < DayNumber(b)
  {
    hide YearStart, MonthStart, MonthLength;
    MonthStartGrows(a.y, a.mo, 13);
    TwelveMonths(a.y);
    if a.y < b.y {
      YearStartGrows(a.y, b.y);
    } else if a.mo < b.mo {
      MonthStartGrows(a.y, a.mo, b.mo);
    }
  }

  /** The second count orders valid dates as the calendar does, and tells them apart. */
  lemma SecondsOrder(a: Stamp, b: Stamp)
    requires ValidStamp(a) && ValidStamp(b)
    ensures Seconds(a) < Seconds(b) <==> Earlier(a, b)
    ensures Seconds(a) == Seconds(b) <==> a == b
  {
    hide DayNumber, MonthLength;
    if EarlierDay(a, b) { DayNumberGrows(a, b); }
    else if EarlierDay(b, a) { DayNumberGrows(b, a); }
    else { assert SameDay(a, b) && DayNumber(a) == DayNumber(b) by { SameDayNumber(a, b); } }
  }

  lemma SameDayNumber(a: Stamp, b: Stamp)
    requires ValidStamp(a) && ValidStamp(b) && SameDay(a, b)
    ensures DayNumber(a) == DayNumber(b)
  {
  }

  // ----- Text -----

  function Pow10(w: nat): nat {
    if w == 0 then 1 else 10 * Pow10(w - 1)
  }

  /** The last `w` decimal digits. */
  function Digits(w: nat, n: nat): (t: Text)
    ensures |t| == w
    decreases w, n
  {
    if w == 0 then [] else Digits(w - 1, n / 10) + [0x30 + n % 10]
  }

  function Decimal(n: nat): Text {
    if n < 10 then [0x30 + n] else Decimal(n / 10) + [0x30 + n % 10]
  }

  /** `{:0w}`: padded with zeros, never cut. */
  function Padded(w: nat, n: nat): Text {
    if n < Pow10(w) then Digits(w, n) else Decimal(n)
  }

  function FromDigits(t: Text): int {
    if t == [] then 0 else FromDigits(t[..|t| - 1]) * 10 + t[|t| - 1] - 0x30
  }

  lemma {:induction false} DigitsReadBack(w: nat, n: nat)
    requires n < Pow10(w)
    ensures FromDigits(Digits(w, n)) == n
    ensures forall i | 0 <= i < w :: 0x30 <= Digits(w, n)[i] <= 0x39
  {
    if w > 0 {
      DigitsReadBack(w - 1, n / 10);
      var t := Digits(w, n);
      assert t[..|t| - 1] == Digits(w - 1, n / 10);
    }
  }

  lemma {:induction false} LessPrefix(p: Text, q: Text, x: Text, y: Text)
    requires |p| == |q|
    ensures Less(p + x, q + y) <==> Less(p, q) || (p == q && Less(x, y))
  {
    if p == [] {
      assert p + x == x && q + y == y;
    } else {
      LessPrefix(p[1..], q[1..], x, y);
      assert (p + x)[1..] == p[1..] + x && (q + y)[1..] == q[1..] + y;
      assert p == [p[0]] + p[1..] && q == [q[0]] + q[1..];
    }
  }

  lemma {:induction false} DigitsOrder(w: nat, a: nat, b: nat)
    requires a < Pow10(w) && b < Pow10(w)
    ensures Less(Digits(w, a), Digits(w, b)) <==> a < b
    ensures Digits(w, a) == Digits(w, b) <==> a == b
  {
    DigitsReadBack(w, a);
    DigitsReadBack(w, b);
    if w > 0 {
      hide Less, FromDigits;
      DigitsOrder(w - 1, a / 10, b / 10);
      LessPrefix(Digits(w - 1, a / 10), Digits(w - 1, b / 10), [0x30 + a % 10], [0x30 + b % 10]);
      OneDigit(a % 10, b % 10);
    }
  }

  lemma OneDigit(a: nat, b: nat)
    requires a < 10 && b < 10
    ensures Less([0x30 + a], [0x30 + b]) <==> a < b
  {
    assert !Less([], []);
  }

  /** The fields and the separator after each of them. */
  function Format(t: Stamp): Text {
    Padded(4, t.y) + [0x2d] + (Padded(2, t.mo) + [0x2d] + (Padded(2, t.day) + [0x54]
    + (Padded(2, t.h) + [0x3a] + (Padded(2, t.m) + [0x3a] + (Padded(2, t.s) + [0x5a])))))
  }

  /** Reads a 20-character timestamp back. */
  function Parse(t: Text): Option<Stamp> {
    if |t| != 20 then None
    else
      var y, mo, day, h, m, s :=
        FromDigits(t[..4]), FromDigits(t[5..7]), FromDigits(t[8..10]), FromDigits(t[11..13]), FromDigits(t[14..16]), FromDigits(t[17..19]);
      if y >= 0 && mo >= 0 && day >= 0 && h >= 0 && m >= 0 && s >= 0 then Some(Stamp(y, mo, day, h, m, s)) else None
  }

  /** The `date-time` shape of section 5.6 of RFC 3339 in UTC: digits, and these separators. */
  predicate Rfc3339(t: Text) {
    |t| == 20 && t[4] == 0x2d && t[7] == 0x2d && t[10] == 0x54 && t[13] == 0x3a && t[16] == 0x3a && t[19] == 0x5a
    && forall i | 0 <= i < 20 && i !in {4, 7, 10, 13, 16, 19} :: 0x30 <= t[i] <= 0x39
  }

  predicate FourDigitYear(t: Stamp) {
    ValidStamp(t) && t.y <= 9999
  }

  lemma Pow10Values()
    ensures Pow10(2) == 100 && Pow10(4) == 10000
  {
    assert Pow10(1) == 10 && Pow10(3) == 10 * Pow10(2);
  }

  lemma PaddedFields(t: Stamp)
    requires FourDigitYear(t)
    ensures Padded(4, t.y) == Digits(4, t.y) && Padded(2, t.mo) == Digits(2, t.mo) && Padded(2, t.day) == Digits(2, t.day)
    ensures Padded(2, t.h) == Digits(2, t.h) && Padded(2, t.m) == Digits(2, t.m) && Padded(2, t.s) == Digits(2, t.s)
    ensures t.y < Pow10(4) && t.mo < Pow10(2) && t.day < Pow10(2) && t.h < Pow10(2) && t.m < Pow10(2) && t.s < Pow10(2)
  {
    hide Digits, Pow10;
    Pow10Values();
  }

  /** Through year 9999 the text has the standard shape and reads back as the same instant. */
  lemma FormatReadsBack(t: Stamp)
    requires FourDigitYear(t)
    ensures Rfc3339(Format(t)) && Parse(Format(t)) == Some(t)
  {
    hide Digits, Pow10, Padded, FromDigits, ValidStamp;
    PaddedFields(t);
    DigitsReadBack(4, t.y);
    DigitsReadBack(2, t.mo);
    DigitsReadBack(2, t.day);
    DigitsReadBack(2, t.h);
    DigitsReadBack(2, t.m);
    DigitsReadBack(2, t.s);
    var f := Format(t);
    assert f[..4] == Digits(4, t.y) && f[5..7] == Digits(2, t.mo) && f[8..10] == Digits(2, t.day);
    assert f[11..13] == Digits(2, t.h) && f[14..16] == Digits(2, t.m) && f[17..19] == Digits(2, t.s);
  }

  lemma FieldOrder(w: nat, a: nat, b: nat, sep: byte, x: Text, y: Text)
    requires a < Pow10(w) && b < Pow10(w)
    ensures Less(Digits(w, a) + [sep] + x, Digits(w, b) + [sep] + y) <==> a < b || (a == b && Less(x, y))
  {
    hide Digits, Pow10, Less;
    DigitsOrder(w, a, b);
    LessPrefix(Digits(w, a) + [sep], Digits(w, b) + [sep], x, y);
    LessPrefix(Digits(w, a), Digits(w, b), [sep], [sep]);
    assert !Less([sep], [sep]) by { LessTrichotomy([sep], [sep]); }
    assert (Digits(w, a) + [sep])[..w] == Digits(w, a) && (Digits(w, b) + [sep])[..w] == Digits(w, b);
  }

  /** Through year 9999 comparing the texts is comparing the instants. */
  lemma TextOrder(a: Stamp, b: Stamp)
    requires FourDigitYear(a) && FourDigitYear(b)
    ensures Less(Format(a), Format(b)) <==> Seconds(a) < Seconds(b)
  {
    hide Digits, Pow10, Padded, Seconds, Less, MonthLength;
    PaddedFields(a);
    PaddedFields(b);
    SecondsOrder(a, b);
    FieldOrder(2, a.s, b.s, 0x5a, [], []);
    assert !Less([], []) by { LessTrichotomy([], []); }
    assert Digits(2, a.s) + [0x5a] + [] == Digits(2, a.s) + [0x5a] && Digits(2, b.s) + [0x5a] + [] == Digits(2, b.s) + [0x5a];
    var sa, sb := Digits(2, a.s) + [0x5a], Digits(2, b.s) + [0x5a];
    FieldOrder(2, a.m, b.m, 0x3a, sa, sb);
    var ma, mb := Digits(2, a.m) + [0x3a] + sa, Digits(2, b.m) + [0x3a] + sb;
    FieldOrder(2, a.h, b.h, 0x3a, ma, mb);
    var ha, hb := Digits(2, a.h) + [0x3a] + ma, Digits(2, b.h) + [0x3a] + mb;
    FieldOrder(2, a.day, b.day, 0x54, ha, hb);
    var da, db := Digits(2, a.day) + [0x54] + ha, Digits(2, b.day) + [0x54] + hb;
    FieldOrder(2, a.mo, b.mo, 0x2d, da, db);
    FieldOrder(4, a.y, b.y, 0x2d, Digits(2, a.mo) + [0x2d] + da, Digits(2, b.mo) + [0x2d] + db);
  }

  // ----- The conversion -----

  /** `ms_to_iso`: the date and time whose second count is exactly `ms / 1000`, and its text. */
  method MsToIso(ms: u64) returns (t: Stamp, text: Text)
    ensures ValidStamp(t) && Seconds(t) == ms / 1000 && text == Format(t)
  {
    hide YearStart, YearLength, MonthStart, MonthLength, Format;
    var secs: nat := ms / 1000;
    var s: nat, m: nat, h: nat := secs % 60, (secs / 60) % 60, (secs / 3600) % 24;
    var d: nat := secs / 86400;
    var y: nat := 1970;
    YearStartStep(1970);
    while true
      invariant y >= 1970 && YearStart(y) + d == secs / 86400
      decreases d
    {
      var dy := YearLength(y);
      if d < dy { break; }
      YearStartStep(y);
      YearPositive(y);
      d, y := d - dy, y + 1;
    }
    TwelveMonths(y);
    ghost var day := d;
    var mo: nat := 1;
    assert MonthStart(y, 1) == 0 by { January(y); }
    while mo <= 12
      invariant 1 <= mo <= 13 && MonthStart(y, mo) + d == day
      decreases 13 - mo
    {
      var x := MonthLength(y, mo);
      if d < x { break; }
      assert MonthStart(y, mo + 1) == MonthStart(y, mo) + x by { NextMonth(y, mo); }
      d, mo := d - x, mo + 1;
    }
    assert mo <= 12;
    t := Stamp(y, mo, d + 1, h, m, s);
    assert secs == (secs / 86400) * 86400 + h * 3600 + m * 60 + s by { ClockSplit(secs); }
    text := Format(t);
  }

  lemma YearPositive(y: nat)
    ensures YearLength(y) > 0
  {
  }

  lemma January(y: nat)
    ensures MonthStart(y, 1) == 0
  {
  }

  lemma NextMonth(y: nat, mo: nat)
    requires 1 <= mo <= 12
    ensures MonthStart(y, mo + 1) == MonthStart(y, mo) + MonthLength(y, mo)
  {
  }

  lemma ClockSplit(secs: nat)
    ensures secs == (secs / 86400) * 86400 + ((secs / 3600) % 24) * 3600 + ((secs / 60) % 60) * 60 + secs % 60
  {
    var minutes, hours := secs / 60, secs / 3600;
    assert hours == minutes / 60 && secs / 86400 == hours / 24;
    assert secs == minutes * 60 + secs % 60 && minutes == hours * 60 + minutes % 60;
    assert hours == (hours / 24) * 24 + hours % 24;
  }

  /** Every valid instant is reached: converting its own millisecond count gives it back. */
  lemma ConversionUnique(t: Stamp, r: Stamp, ms: u64)
    requires ValidStamp(t) && ValidStamp(r) && Seconds(r) == ms / 1000 && Seconds(t) == ms / 1000
    ensures r == t
  {
    hide Seconds;
    SecondsOrder(r, t);
  }
}
