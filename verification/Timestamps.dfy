/** Instants are stored as RFC 3339 text and compared as text in queries, but parsed and compared
    as instants elsewhere. The two orders agree. */
module Timestamps {
  import opened Common

  /** A UTC date and time as it is printed. */
  datatype DateTime = DateTime(
    year: nat, month: nat, day: nat, hour: nat, minute: nat, second: nat, nanos: nat)

  predicate IsLeap(year: nat) {
    year % 4 == 0 && (year % 100 != 0 || year % 400 == 0)
  }

  function DaysIn(year: nat, month: nat): nat {
    if month == 2 then (if IsLeap(year) then 29 else 28)
    else if month == 4 || month == 6 || month == 9 || month == 11 then 30 else 31
  }

  predicate Valid(t: DateTime) {
    && t.year <= 9999 && 1 <= t.month <= 12 && 1 <= t.day <= DaysIn(t.year, t.month)
    && t.hour < 24 && t.minute < 60 && t.second < 60 && t.nanos < 1_000_000_000
  }

  // ----- Instants -------------------------------------------------------------------

  function DaysBeforeMonth(year: nat, month: nat): nat {
    if month <= 1 then 0 else DaysBeforeMonth(year, month - 1) + DaysIn(year, month - 1)
  }

  function DaysBeforeYear(year: nat): nat {
    if year == 0 then 0 else DaysBeforeYear(year - 1) + DaysBeforeMonth(year - 1, 13)
  }

  function DayNumber(t: DateTime): int {
    DaysBeforeYear(t.year) + DaysBeforeMonth(t.year, t.month) + t.day - 1
  }

  /** Nanoseconds since the start of the year 0. */
  function Instant(t: DateTime): int {
    (((DayNumber(t) * 24 + t.hour) * 60 + t.minute) * 60 + t.second) * SECOND + t.nanos
  }

  /** The leap years before a year: every fourth, but only one of four centuries. */
  function LeapYears(year: nat): int {
    MultiplesBelow(year, 4) - MultiplesBelow(year, 100) + MultiplesBelow(year, 400)
  }

  function MultiplesBelow(x: nat, m: nat): nat
    requires m > 0
  {
    (x + m - 1) / m
  }

  /** The day number is that of the Gregorian calendar in closed form. */
  lemma DayNumberClosed(t: DateTime)
    requires Valid(t)
    ensures DayNumber(t) == 365 * t.year + LeapYears(t.year) + (367 * t.month - 362) / 12
                            - (if t.month <= 2 then 0 else if IsLeap(t.year) then 1 else 2) + t.day - 1
  {
    YearsClosed(t.year);
    MonthsClosed(t.year, t.month);
  }

  /** The Unix epoch is 719528 days of 86400 seconds of a billion nanoseconds after the start of year 0. */
  lemma UnixEpoch(t: DateTime)
    requires t == DateTime(1970, 1, 1, 0, 0, 0, 0)
    ensures Instant(t) == 719_528 * 86_400 * 1_000_000_000
  {
    hide DayNumber, DaysBeforeYear, DaysBeforeMonth;
    DayNumberClosed(t);
  }

  lemma MonthsClosed(year: nat, month: nat)
    requires 1 <= month <= 13
    ensures DaysBeforeMonth(year, month)
         == (367 * month - 362) / 12 - if month <= 2 then 0 else if IsLeap(year) then 1 else 2
  {
    if month > 1 {
      MonthsClosed(year, month - 1);
    }
  }

  lemma {:induction false} YearsClosed(year: nat)
    ensures DaysBeforeYear(year) == 365 * year + LeapYears(year)
  {
    hide IsLeap, DaysBeforeMonth;
    if year > 0 {
      hide LeapYears;
      YearsClosed(year - 1);
      MonthsClosed(year - 1, 13);
      LeapStep(year - 1);
    }
  }

  lemma LeapStep(y: nat)
    ensures LeapYears(y + 1) == LeapYears(y) + if IsLeap(y) then 1 else 0
  {
    hide MultiplesBelow;
    NextMultiple(y, 4);
    NextMultiple(y, 100);
    NextMultiple(y, 400);
    Factor(y, 100, 4);
    Factor(y, 4, 25);
  }

  lemma Factor(x: nat, m: nat, n: nat)
    requires m > 0 && n > 0 && m * n > 0
    ensures x % (m * n) == 0 ==> x % m == 0
  {
    if x % (m * n) == 0 {
      var q := x / (m * n);
      assert x == q * (m * n) == q * n * m;
      DivideUnique(x, m, q * n, 0);
    }
  }

  lemma NextMultiple(x: nat, m: nat)
    requires m > 0
    ensures MultiplesBelow(x + 1, m) == MultiplesBelow(x, m) + if x % m == 0 then 1 else 0
  {
    var q, r := x / m, x % m;
    assert (q + 1) * m == q * m + m;
    DivideUnique(x + m, m, q + 1, r);
    if r == 0 {
      DivideUnique(x + m - 1, m, q, m - 1);
    } else {
      DivideUnique(x + m - 1, m, q + 1, r - 1);
    }
  }

  // ----- Text -----------------------------------------------------------------------

  function Digit(d: nat): (c: char)
    requires d < 10
  {
    "0123456789"[d]
  }

  /** The last `width` decimal digits. */
  function Pad(n: nat, width: nat): (s: string)
    ensures |s| == width
  {
    if width == 0 then "" else Pad(n / 10, width - 1) + [Digit(n % 10)]
  }

  /** No fraction, or three, six or nine digits, whichever is shortest without loss. */
  function Fraction(nanos: nat): string {
    if nanos == 0 then ""
    else if nanos % 1_000_000 == 0 then "." + Pad(nanos / 1_000_000, 3)
    else if nanos % 1_000 == 0 then "." + Pad(nanos / 1_000, 6)
    else "." + Pad(nanos, 9)
  }

  const OFFSET := "+00:00"

  function Field(t: DateTime, i: nat): nat
    requires i < 6
  {
    match i
    case 0 => t.year case 1 => t.month case 2 => t.day
    case 3 => t.hour case 4 => t.minute case 5 => t.second
  }

  function Width(i: nat): nat { if i == 0 then 4 else 2 }

  function Separator(i: nat): string {
    if i <= 1 then "-" else if i == 2 then "T" else if i <= 4 then ":" else ""
  }

  /** The text from the `i`th field on. */
  function TextFrom(t: DateTime, i: nat): string
    requires i <= 6
    decreases 6 - i
  {
    if i == 6 then Fraction(t.nanos) + OFFSET
    else Pad(Field(t, i), Width(i)) + Separator(i) + TextFrom(t, i + 1)
  }

  function Text(t: DateTime): string {
    TextFrom(t, 0)
  }

  /** The number that a text of digits spells. */
  function Value(digits: string): int {
    if digits == "" then 0 else 10 * Value(digits[..|digits| - 1]) + (digits[|digits| - 1] as int - '0' as int)
  }

  lemma {:induction false} PadValue(n: nat, width: nat)
    requires n < Pow10(width)
    ensures Value(Pad(n, width)) == n
  {
    if width > 0 {
      PadValue(n / 10, width - 1);
      assert Pad(n, width)[..width - 1] == Pad(n / 10, width - 1);
      assert Digit(n % 10) as int - '0' as int == n % 10;
    }
  }

  /** Every field reads back from its place in the text, with the separators of RFC 3339 between. */
  lemma TextReadsBack(t: DateTime)
    requires Valid(t)
    ensures var s := Text(t);
            && |s| >= 25 && s[4] == s[7] == '-' && s[10] == 'T' && s[13] == s[16] == ':'
            && Value(s[..4]) == t.year && Value(s[5..7]) == t.month && Value(s[8..10]) == t.day
            && Value(s[11..13]) == t.hour && Value(s[14..16]) == t.minute && Value(s[17..19]) == t.second
            && s[|s| - 6..] == "+00:00"
  {
    hide TextFrom, Value;
    var s := Text(t);
    FieldReads(t, s, 0, 0);
    FieldReads(t, s, 1, 5);
    FieldReads(t, s, 2, 8);
    FieldReads(t, s, 3, 11);
    FieldReads(t, s, 4, 14);
    FieldReads(t, s, 5, 17);
    EndOfText(t, s);
  }

  lemma EndOfText(t: DateTime, s: string)
    requires |s| >= 19 && s[19..] == TextFrom(t, 6)
    ensures |s| >= 25 && s[|s| - 6..] == "+00:00"
  {
    hide Fraction;
    var rest := s[19..];
    assert rest[|rest| - 6..] == OFFSET;
    assert s[|s| - 6..] == rest[|rest| - 6..];
  }

  lemma FieldReads(t: DateTime, s: string, i: nat, at: nat)
    requires Valid(t) && i < 6 && at <= |s| && s[at..] == TextFrom(t, i)
    ensures var end := at + Width(i);
            && end + |Separator(i)| <= |s| && Value(s[at..end]) == Field(t, i)
            && (Separator(i) != "" ==> s[end] == Separator(i)[0])
            && s[end + |Separator(i)|..] == TextFrom(t, i + 1)
  {
    hide Pad, Value;
    FieldFits(t, i);
    PadValue(Field(t, i), Width(i));
    Cut(s, at, Pad(Field(t, i), Width(i)), Separator(i), TextFrom(t, i + 1));
  }

  lemma Cut(s: string, at: nat, piece: string, sep: string, rest: string)
    requires at <= |s| && s[at..] == piece + sep + rest
    ensures var end := at + |piece|;
            && end + |sep| <= |s| && s[at..end] == piece && (sep != "" ==> s[end] == sep[0])
            && s[end + |sep|..] == rest
  {
    assert s[at..][..|piece|] == piece && s[at..][|piece| + |sep|..] == rest;
  }

  // ----- Text order -----------------------------------------------------------------

  predicate Less(a: string, b: string) {
    if b == "" then false
    else if a == "" then true
    else a[0] < b[0] || (a[0] == b[0] && Less(a[1..], b[1..]))
  }

  lemma {:induction false} LessIrreflexive(a: string)
    ensures !Less(a, a)
  {
    if a != "" { LessIrreflexive(a[1..]); }
  }

  /** Heads of equal length decide before the tails do. */
  lemma {:induction false} LessAppend(x: string, y: string, p: string, q: string)
    requires |x| == |y|
    ensures Less(x + p, y + q) <==> Less(x, y) || (x == y && Less(p, q))
  {
    if x == "" {
      assert x + p == p && y + q == q;
    } else {
      assert (x + p)[1..] == x[1..] + p && (y + q)[1..] == y[1..] + q;
      LessAppend(x[1..], y[1..], p, q);
      assert x == [x[0]] + x[1..] && y == [y[0]] + y[1..];
    }
  }

  function Pow10(n: nat): nat {
    if n == 0 then 1 else 10 * Pow10(n - 1)
  }

  /** Padded numbers are ordered as numbers. */
  lemma {:induction false} PadOrder(m: nat, n: nat, width: nat)
    requires m < Pow10(width) && n < Pow10(width)
    ensures Less(Pad(m, width), Pad(n, width)) <==> m < n
    ensures Pad(m, width) == Pad(n, width) <==> m == n
  {
    if width > 0 {
      PadOrder(m / 10, n / 10, width - 1);
      DigitOrder(m % 10, n % 10);
      LessAppend(Pad(m / 10, width - 1), Pad(n / 10, width - 1), [Digit(m % 10)], [Digit(n % 10)]);
      assert Pad(m, width)[..width - 1] == Pad(m / 10, width - 1);
      assert Pad(n, width)[..width - 1] == Pad(n / 10, width - 1);
      assert Pad(m, width)[width - 1] == Digit(m % 10) && Pad(n, width)[width - 1] == Digit(n % 10);
    }
  }

  lemma DigitOrder(c: nat, d: nat)
    requires c < 10 && d < 10
    ensures Less([Digit(c)], [Digit(d)]) <==> c < d
    ensures Digit(c) == Digit(d) <==> c == d
    ensures '0' <= Digit(c) <= '9'
  {}

  lemma PadStarts(n: nat, width: nat)
    requires width > 0
    ensures '0' <= Pad(n, width)[0] <= '9'
  {
    if width > 1 {
      PadStarts(n / 10, width - 1);
    }
  }

  /** A number padded to `width + 3` is its thousands and its last three digits. */
  lemma PadThousands(n: nat, width: nat)
    ensures Pad(n, width + 3) == Pad(n / 1000, width) + Pad(n % 1000, 3)
  {
    ThousandDigits(n);
    var a := n / 10;
    var b := a / 10;
    var r := n % 1000;
    hide Digit;
    assert Pad(n, width + 3) == Pad(a, width + 2) + [Digit(n % 10)];
    assert Pad(a, width + 2) == Pad(b, width + 1) + [Digit(a % 10)];
    assert Pad(b, width + 1) == Pad(b / 10, width) + [Digit(b % 10)];
    assert Pad(r, 3) == Pad(r / 10, 2) + [Digit(r % 10)];
    assert Pad(r / 10, 2) == Pad(r / 10 / 10, 1) + [Digit(r / 10 % 10)];
    assert Pad(r / 10 / 10, 1) == Pad(r / 10 / 10 / 10, 0) + [Digit(r / 10 / 10 % 10)];
  }

  lemma ThousandDigits(n: nat)
    ensures var r := n % 1000;
            r % 10 == n % 10 && r / 10 % 10 == n / 10 % 10 && r / 10 / 10 % 10 == n / 10 / 10 % 10
    ensures n / 10 / 10 / 10 == n / 1000
  {
    var q, r := n / 1000, n % 1000;
    assert n / 10 == 100 * q + r / 10;
    assert n / 10 / 10 == 10 * q + r / 10 / 10;
  }

  // ----- The fraction ---------------------------------------------------------------

  /** Nanoseconds in three groups of three digits. */
  function Groups(n: nat): seq<nat> {
    [n / 1_000_000, n / 1000 % 1000, n % 1000]
  }

  predicate AllZero(gs: seq<nat>) {
    forall i :: 0 <= i < |gs| ==> gs[i] == 0
  }

  /** The digit groups up to the last that is not zero, then the offset. */
  function Tail(gs: seq<nat>): string {
    if AllZero(gs) then OFFSET else Pad(gs[0], 3) + Tail(gs[1..])
  }

  predicate GroupsLess(gs: seq<nat>, hs: seq<nat>)
    requires |gs| == |hs|
  {
    gs != [] && (gs[0] < hs[0] || (gs[0] == hs[0] && GroupsLess(gs[1..], hs[1..])))
  }

  lemma ZeroHead(gs: seq<nat>)
    requires gs != []
    ensures AllZero(gs) <==> gs[0] == 0 && AllZero(gs[1..])
  {
    assert gs == [gs[0]] + gs[1..];
  }

  lemma TailOfThree(g: nat, h: nat, k: nat)
    ensures Tail([g, h, k]) ==
            (if h == 0 && k == 0 then (if g == 0 then "" else Pad(g, 3))
             else if k == 0 then Pad(g, 3) + Pad(h, 3)
             else Pad(g, 3) + Pad(h, 3) + Pad(k, 3)) + OFFSET
  {
    hide Pad;
    var gs := [g, h, k];
    assert gs[1..] == [h, k] && [h, k][1..] == [k] && [k][1..] == [];
    ZeroHead(gs);
    ZeroHead([h, k]);
    ZeroHead([k]);
    assert Tail([k]) == (if k == 0 then "" else Pad(k, 3)) + OFFSET;
    assert Tail([h, k]) == if h == 0 && k == 0 then OFFSET else Pad(h, 3) + Tail([k]);
  }

  lemma FractionDigits(n: nat)
    requires n != 0
    ensures var gs := Groups(n);
            Fraction(n) == "." + (if gs[1] == 0 && gs[2] == 0 then Pad(gs[0], 3)
                                  else if gs[2] == 0 then Pad(gs[0], 3) + Pad(gs[1], 3)
                                  else Pad(gs[0], 3) + Pad(gs[1], 3) + Pad(gs[2], 3))
  {
    PadThousands(n / 1000, 3);
    PadThousands(n, 6);
    hide Pad;
    assert n / 1000 / 1000 == n / 1_000_000;
    assert n % 1_000_000 == n / 1000 % 1000 * 1000 + n % 1000;
  }

  lemma FractionIsTail(n: nat)
    ensures Fraction(n) + OFFSET == if n == 0 then OFFSET else "." + Tail(Groups(n))
  {
    if n != 0 {
      GroupsValue(n);
      FractionDigits(n);
      var gs := Groups(n);
      TailOfThree(gs[0], gs[1], gs[2]);
      hide Fraction, Pad, Tail, Groups;
      assert gs == [gs[0], gs[1], gs[2]];
    }
  }

  lemma {:induction false} ZeroGroups(gs: seq<nat>, hs: seq<nat>)
    requires |gs| == |hs|
    ensures AllZero(hs) ==> !GroupsLess(gs, hs)
    ensures AllZero(gs) && !AllZero(hs) ==> GroupsLess(gs, hs)
  {
    if gs != [] {
      ZeroGroups(gs[1..], hs[1..]);
      assert gs == [gs[0]] + gs[1..] && hs == [hs[0]] + hs[1..];
    }
  }

  /** Dropping trailing groups of zeros keeps the order, since `+` sorts before every digit. */
  lemma {:induction false} TailOrder(gs: seq<nat>, hs: seq<nat>)
    requires |gs| == |hs|
    requires forall i :: 0 <= i < |gs| ==> gs[i] < 1000 && hs[i] < 1000
    ensures Less(Tail(gs), Tail(hs)) <==> GroupsLess(gs, hs)
  {
    ZeroGroups(gs, hs);
    if AllZero(gs) && AllZero(hs) {
      LessIrreflexive(OFFSET);
    } else if AllZero(gs) {
      PadStarts(hs[0], 3);
    } else if AllZero(hs) {
      PadStarts(gs[0], 3);
    } else {
      TailOrder(gs[1..], hs[1..]);
      assert Pow10(3) == 1000 by { assert Pow10(1) == 10 && Pow10(2) == 100; }
      PadOrder(gs[0], hs[0], 3);
      LessAppend(Pad(gs[0], 3), Pad(hs[0], 3), Tail(gs[1..]), Tail(hs[1..]));
      hide Less;
    }
  }

  lemma GroupsValue(n: nat)
    ensures var gs := Groups(n);
            gs[1] < 1000 && gs[2] < 1000 && n == gs[0] * 1_000_000 + gs[1] * 1000 + gs[2]
    ensures n < 1_000_000_000 ==> Groups(n)[0] < 1000
  {
    assert n / 1000 / 1000 == n / 1_000_000;
  }

  lemma GroupsOrder(m: nat, n: nat)
    ensures GroupsLess(Groups(m), Groups(n)) <==> m < n
  {
    GroupsValue(m);
    GroupsValue(n);
    ThreeGroups(Groups(m), Groups(n));
    hide Groups;
  }

  lemma ThreeGroups(gs: seq<nat>, hs: seq<nat>)
    requires |gs| == 3 && |hs| == 3
    ensures GroupsLess(gs, hs) <==>
            || gs[0] < hs[0] || (gs[0] == hs[0] && gs[1] < hs[1])
            || (gs[0] == hs[0] && gs[1] == hs[1] && gs[2] < hs[2])
  {
    assert GroupsLess(gs[1..], hs[1..]) <==>
             gs[1] < hs[1] || (gs[1] == hs[1] && GroupsLess(gs[1..][1..], hs[1..][1..]));
    assert gs[1..][1..] == [gs[2]] && hs[1..][1..] == [hs[2]];
    assert GroupsLess([gs[2]], [hs[2]]) <==> gs[2] < hs[2] by { assert [gs[2]][1..] == []; }
  }

  lemma FractionOrder(m: nat, n: nat)
    requires m < 1_000_000_000 && n < 1_000_000_000
    ensures Less(Fraction(m) + OFFSET, Fraction(n) + OFFSET) <==> m < n
  {
    hide Fraction, Tail;
    FractionIsTail(m);
    FractionIsTail(n);
    if m == 0 && n == 0 {
      LessIrreflexive(OFFSET);
    } else if m > 0 && n > 0 {
      GroupsValue(m);
      GroupsValue(n);
      TailOrder(Groups(m), Groups(n));
      GroupsOrder(m, n);
      LessAppend(".", ".", Tail(Groups(m)), Tail(Groups(n)));
      LessIrreflexive(".");
    }
  }

  // ----- Field order ----------------------------------------------------------------

  predicate FieldsLess(a: DateTime, b: DateTime, i: nat)
    requires i <= 6
    decreases 6 - i
  {
    if i == 6 then a.nanos < b.nanos
    else Field(a, i) < Field(b, i) || (Field(a, i) == Field(b, i) && FieldsLess(a, b, i + 1))
  }

  lemma {:induction false} TextFromOrder(a: DateTime, b: DateTime, i: nat)
    requires Valid(a) && Valid(b) && i <= 6
    ensures Less(TextFrom(a, i), TextFrom(b, i)) <==> FieldsLess(a, b, i)
    decreases 6 - i
  {
    if i == 6 {
      FractionOrder(a.nanos, b.nanos);
    } else {
      hide Less, Pad;
      TextFromOrder(a, b, i + 1);
      FieldFits(a, i);
      FieldFits(b, i);
      PieceOrder(Field(a, i), Field(b, i), Width(i), Separator(i), TextFrom(a, i + 1), TextFrom(b, i + 1));
    }
  }

  lemma FieldFits(t: DateTime, i: nat)
    requires Valid(t) && i < 6
    ensures Field(t, i) < Pow10(Width(i))
  {
    assert Pow10(1) == 10 && Pow10(2) == 100 && Pow10(3) == 1000 && Pow10(4) == 10000;
  }

  /** A padded number and a separator decide before what follows them. */
  lemma PieceOrder(m: nat, n: nat, width: nat, sep: string, p: string, q: string)
    requires m < Pow10(width) && n < Pow10(width)
    ensures Less(Pad(m, width) + sep + p, Pad(n, width) + sep + q) <==> m < n || (m == n && Less(p, q))
  {
    hide Less, Pad;
    var x, y := Pad(m, width), Pad(n, width);
    PadOrder(m, n, width);
    LessAppend(x, y, sep + p, sep + q);
    LessAppend(sep, sep, p, q);
    LessIrreflexive(sep);
    assert x + sep + p == x + (sep + p) && y + sep + q == y + (sep + q);
  }

  // ----- Instant order --------------------------------------------------------------

  lemma {:induction false} MonthsAddUp(year: nat, m: nat, n: nat)
    requires 1 <= m < n
    ensures DaysBeforeMonth(year, m) + DaysIn(year, m) <= DaysBeforeMonth(year, n)
  {
    if m + 1 < n { MonthsAddUp(year, m, n - 1); }
  }

  lemma {:induction false} YearsAddUp(y: nat, z: nat)
    requires y < z
    ensures DaysBeforeYear(y) + DaysBeforeMonth(y, 13) <= DaysBeforeYear(z)
  {
    if y + 1 < z { YearsAddUp(y, z - 1); }
  }

  lemma LaterDate(a: DateTime, b: DateTime)
    requires Valid(a) && Valid(b)
    requires || a.year < b.year || (a.year == b.year && a.month < b.month)
             || (a.year == b.year && a.month == b.month && a.day < b.day)
    ensures DayNumber(a) < DayNumber(b)
  {
    if a.year < b.year {
      YearsAddUp(a.year, b.year);
      MonthsAddUp(a.year, a.month, 13);
    } else if a.month < b.month {
      MonthsAddUp(a.year, a.month, b.month);
    }
  }

  lemma FieldsLessUnfolds(a: DateTime, b: DateTime)
    ensures FieldsLess(a, b, 0) <==>
            || a.year < b.year || (a.year == b.year && (a.month < b.month
            || (a.month == b.month && (a.day < b.day || (a.day == b.day && TimeLess(a, b))))))
  {
    assert FieldsLess(a, b, 3) <==> TimeLess(a, b) by {
      assert FieldsLess(a, b, 5) <==> a.second < b.second || (a.second == b.second && FieldsLess(a, b, 6));
      assert FieldsLess(a, b, 4) <==> a.minute < b.minute || (a.minute == b.minute && FieldsLess(a, b, 5));
    }
    assert FieldsLess(a, b, 2) <==> a.day < b.day || (a.day == b.day && FieldsLess(a, b, 3));
    assert FieldsLess(a, b, 1) <==> a.month < b.month || (a.month == b.month && FieldsLess(a, b, 2));
  }

  predicate TimeLess(a: DateTime, b: DateTime) {
    || a.hour < b.hour || (a.hour == b.hour && (a.minute < b.minute
    || (a.minute == b.minute && (a.second < b.second || (a.second == b.second && a.nanos < b.nanos)))))
  }

  lemma EarlierInstant(a: DateTime, b: DateTime)
    requires Valid(a) && Valid(b) && FieldsLess(a, b, 0)
    ensures Instant(a) < Instant(b)
  {
    FieldsLessUnfolds(a, b);
    hide FieldsLess;
    if a.year != b.year || a.month != b.month || a.day != b.day {
      LaterDate(a, b);
    }
    hide DayNumber, DaysIn;
  }

  lemma FieldsTotal(a: DateTime, b: DateTime)
    ensures FieldsLess(a, b, 0) || FieldsLess(b, a, 0) || a == b
  {
    FieldsLessUnfolds(a, b);
    FieldsLessUnfolds(b, a);
    hide FieldsLess;
  }

  /** For all UTC instants of the years 0 to 9999, comparing the printed texts as the database does
      and comparing the instants give the same answer, whatever the number of fraction digits. */
  lemma TextOrderIsInstantOrder(a: DateTime, b: DateTime)
    requires Valid(a) && Valid(b)
    ensures Less(Text(a), Text(b)) <==> Instant(a) < Instant(b)
  {
    hide FieldsLess, Instant;
    TextFromOrder(a, b, 0);
    FieldsTotal(a, b);
    if FieldsLess(a, b, 0) {
      EarlierInstant(a, b);
    } else if FieldsLess(b, a, 0) {
      EarlierInstant(b, a);
    }
  }
}
