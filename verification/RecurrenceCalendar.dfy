/**
 Is a date one that a repeat rule describes? The weekday-ordinal and BYSETPOS arithmetic of
 `macos_apps_mcp/contracts.py`, checked against lists of the dates each position names.
 */
module RecurrenceCalendar {
  import opened Prelude
  import opened Recurrence
  import opened Sorting

  // ---------------------------------------------------------------- the calendar

  datatype Date = Date(y: int, m: int, d: int)

  predicate Exists(t: Date) { IsDate(t.y, t.m, t.d) }

  function YearSize(y: int): int { if IsLeap(y) then 366 else 365 }

  function DaysBeforeMonth(y: int, m: int): int {
    if m <= 1 then 0 else DaysBeforeMonth(y, m - 1) + MonthSize(y, m - 1)
  }

  function DaysBeforeYear(y: int): int {
    if y <= 1 then 0 else DaysBeforeYear(y - 1) + YearSize(y - 1)
  }

  /** `tm_yday` */
  function DayOfYear(t: Date): int { DaysBeforeMonth(t.y, t.m) + t.d }

  /** `toordinal`: 1 is Monday, January 1 of year 1. */
  function Ordinal(t: Date): int { DaysBeforeYear(t.y) + DayOfYear(t) }

  const FIRST := Date(1, 1, 1)
  const LAST := Date(9999, 12, 31)
  const MAX_ORDINAL := 3652059

  function Next(t: Date): Option<Date> {
    if t.d < MonthSize(t.y, t.m) then Some(Date(t.y, t.m, t.d + 1))
    else if t.m < 12 then Some(Date(t.y, t.m + 1, 1))
    else if t.y < 9999 then Some(Date(t.y + 1, 1, 1))
    else None
  }

  function Previous(t: Date): Date {
    if t.d > 1 then Date(t.y, t.m, t.d - 1)
    else if t.m > 1 then Date(t.y, t.m - 1, MonthSize(t.y, t.m - 1))
    else Date(t.y - 1, 12, 31)
  }

  /** `fromordinal`; None where Python raises. */
  function FromOrdinal(n: int): Option<Date> {
    if n < 1 then None
    else if n == 1 then Some(FIRST)
    else match FromOrdinal(n - 1)
      case None => None
      case Some(t) => Next(t)
  }

  /** `t + timedelta(days=n)` */
  function AddDays(t: Date, n: int): Option<Date> { FromOrdinal(Ordinal(t) + n) }

  /** `weekday()`: Monday is 0. */
  function WeekdayIndex(t: Date): int { (Ordinal(t) + 6) % 7 }

  function CodeAt(i: int): Weekday
    requires 0 <= i < 7
  {
    [SU, MO, TU, WE, TH, FR, SA][i]
  }

  function CodeOf(t: Date): Weekday { CodeAt((WeekdayIndex(t) + 1) % 7) }

  lemma {:induction false} YearIsItsMonths(y: int)
    ensures DaysBeforeMonth(y, 12) + MonthSize(y, 12) == YearSize(y)
  {
    assert DaysBeforeMonth(y, 1) == 0;
    assert DaysBeforeMonth(y, 3) == 31 + MonthSize(y, 2);
    assert DaysBeforeMonth(y, 5) == DaysBeforeMonth(y, 3) + 61;
    assert DaysBeforeMonth(y, 7) == DaysBeforeMonth(y, 5) + 61;
    assert DaysBeforeMonth(y, 9) == DaysBeforeMonth(y, 7) + 62;
    assert DaysBeforeMonth(y, 11) == DaysBeforeMonth(y, 9) + 61;
    assert DaysBeforeMonth(y, 12) == DaysBeforeMonth(y, 11) + 30;
  }

  /** The days before each month, as every calendar has them. */
  lemma MonthTable(y: int, m: int)
    requires 1 <= m <= 12
    ensures DaysBeforeMonth(y, m) == [0, 31, 59, 90, 120, 151, 181, 212, 243, 273, 304, 334][m - 1] + (if m > 2 && IsLeap(y) then 1 else 0)
  {
    if m > 1 { MonthTable(y, m - 1); }
  }

  lemma NextIsOneLater(t: Date)
    requires Exists(t)
    ensures Next(t).Some? ==> Exists(Next(t).value) && Ordinal(Next(t).value) == Ordinal(t) + 1
    ensures Next(t).None? <==> t == LAST
  {
    if t.d == MonthSize(t.y, t.m) {
      if t.m < 12 { MonthStep(t.y, t.m); } else { YearStep(t.y); }
    }
  }

  lemma MonthStep(y: int, m: int)
    requires 1 <= m < 12
    ensures DaysBeforeMonth(y, m + 1) == DaysBeforeMonth(y, m) + MonthSize(y, m)
  {
  }

  lemma YearStep(y: int)
    requires y >= 1
    ensures DaysBeforeYear(y + 1) + DaysBeforeMonth(y + 1, 1) == DaysBeforeYear(y) + DaysBeforeMonth(y, 12) + MonthSize(y, 12)
  {
    YearIsItsMonths(y);
    assert DaysBeforeMonth(y + 1, 1) == 0;
  }

  lemma PreviousUndoesNext(t: Date)
    requires Exists(t) && t != FIRST
    ensures Exists(Previous(t)) && Next(Previous(t)) == Some(t)
  {
  }

  lemma {:induction false} DaysBeforeMonthBounds(y: int, m: int)
    requires 1 <= m <= 12
    ensures 0 <= DaysBeforeMonth(y, m)
    ensures DaysBeforeMonth(y, m) + MonthSize(y, m) <= YearSize(y)
    decreases 12 - m
  {
    if m < 12 {
      DaysBeforeMonthBounds(y, m + 1);
    } else {
      YearIsItsMonths(y);
    }
    NonNegative(y, m);
  }

  lemma {:induction false} NonNegative(y: int, m: int)
    ensures 0 <= DaysBeforeMonth(y, m) && 0 <= DaysBeforeYear(y)
    decreases m, y
  {
    if m > 1 { NonNegative(y, m - 1); }
    if y > 1 { NonNegativeYear(y); }
  }

  lemma {:induction false} NonNegativeYear(y: int)
    ensures 0 <= DaysBeforeYear(y)
  {
    if y > 1 { NonNegativeYear(y - 1); }
  }

  lemma {:induction false} FromOrdinalOf(t: Date)
    requires Exists(t)
    ensures Ordinal(t) >= 1 && FromOrdinal(Ordinal(t)) == Some(t)
    decreases Ordinal(t)
  {
    NonNegative(t.y, t.m);
    if t != FIRST {
      PreviousUndoesNext(t);
      NextIsOneLater(Previous(t));
      NonNegative(Previous(t).y, Previous(t).m);
      FromOrdinalOf(Previous(t));
    }
  }

  lemma {:induction false} OrdinalOf(n: int)
    ensures FromOrdinal(n).Some? ==> Exists(FromOrdinal(n).value) && Ordinal(FromOrdinal(n).value) == n
    decreases n
  {
    if n > 1 {
      OrdinalOf(n - 1);
      if FromOrdinal(n - 1).Some? { NextIsOneLater(FromOrdinal(n - 1).value); }
    } else {
      assert DaysBeforeMonth(1, 1) == 0 && DaysBeforeYear(1) == 0;
    }
  }

  lemma {:induction false} OrdinalExistsBelow(n: int, k: int)
    requires 1 <= k <= n && FromOrdinal(n).Some?
    ensures FromOrdinal(k).Some?
    decreases n
  {
    if k < n { OrdinalExistsBelow(n - 1, k); }
  }

  lemma QuotientStep(n: nat, k: nat)
    requires n >= 1 && (k == 4 || k == 100 || k == 400)
    ensures n / k == (n - 1) / k + (if n % k == 0 then 1 else 0)
  {
  }

  lemma {:induction false} YearsInClosedForm(y: int)
    requires y >= 1
    ensures DaysBeforeYear(y) == 365 * (y - 1) + (y - 1) / 4 - (y - 1) / 100 + (y - 1) / 400
  {
    if y > 1 {
      YearsInClosedForm(y - 1);
      LeapStep(y - 1);
    }
  }

  lemma LeapStep(n: int)
    requires n >= 1
    ensures n / 4 - n / 100 + n / 400 == (n - 1) / 4 - (n - 1) / 100 + (n - 1) / 400 + (if IsLeap(n) then 1 else 0)
  {
    QuotientStep(n, 4);
    QuotientStep(n, 100);
    QuotientStep(n, 400);
    LeapDivisors(n);
  }

  lemma LeapDivisors(n: int)
    ensures n % 400 == 0 ==> n % 100 == 0
    ensures n % 100 == 0 ==> n % 4 == 0
  {
  }

  lemma LastOrdinal(t: Date)
    requires t == LAST
    ensures Ordinal(t) == MAX_ORDINAL
  {
    YearsInClosedForm(t.y);
    YearIsItsMonths(t.y);
  }

  lemma {:induction false} NoneBeyondLast(n: int, t: Date)
    requires Exists(t) && Next(t).None? && n > Ordinal(t)
    ensures FromOrdinal(n).None?
    decreases n
  {
    hide Ordinal, Next;
    FromOrdinalOf(t);
    FromOrdinalStep(n);
    if n > Ordinal(t) + 1 { NoneBeyondLast(n - 1, t); }
  }

  lemma FromOrdinalStep(n: int)
    requires n > 1
    ensures FromOrdinal(n) == match FromOrdinal(n - 1) case None => None case Some(t) => Next(t)
  {
  }

  /** Ordinals and dates are one to one: a date exists exactly from 1 to the last ordinal. */
  lemma DatesAreOrdinals(n: int, t: Date)
    requires t == LAST
    ensures FromOrdinal(n).Some? <==> 1 <= n <= MAX_ORDINAL
  {
    hide Ordinal;
    LastOrdinal(t);
    FromOrdinalOf(t);
    if 1 <= n <= Ordinal(t) {
      OrdinalExistsBelow(Ordinal(t), n);
    } else if n > Ordinal(t) {
      NoneBeyondLast(n, t);
    }
  }

  // ---------------------------------------------------------------- the source's tests

  predicate IsNth(n: int, size: int, wanted: seq<int>) { n in wanted || n - size - 1 in wanted }

  /** Position and size inside which a weekday ordinal counts. */
  function OrdinalFrame(r: Rule, t: Date): (int, int) {
    if OrdinalsInMonth(r) then (t.d, MonthSize(t.y, t.m)) else (DayOfYear(t), YearSize(t.y))
  }

  predicate DayMatches(item: WeekdayNum, t: Date, pos: int, size: int) {
    item.day == CodeOf(t)
    && (item.ordinal == 0 || item.ordinal == (pos - 1) / 7 + 1 || item.ordinal == -((size - pos) / 7 + 1))
  }

  /** `_passes_by_filters` */
  predicate Passes(r: Rule, t: Date) {
    && (r.bymonth == [] || t.m in r.bymonth)
    && (r.byyearday == [] || IsNth(DayOfYear(t), YearSize(t.y), r.byyearday))
    && (r.bymonthday == [] || IsNth(t.d, MonthSize(t.y, t.m), r.bymonthday))
    && (r.byday == [] || exists item :: item in r.byday && DayMatches(item, t, OrdinalFrame(r, t).0, OrdinalFrame(r, t).1))
  }

  /** `_period`: the half-open range BYSETPOS counts inside; None where Python raises. */
  function Period(f: Frequency, t: Date): Option<(Date, Date)> {
    match f
    case Daily => (match AddDays(t, 1) case None => None case Some(hi) => Some((t, hi)))
    case Weekly =>
      (match AddDays(t, -WeekdayIndex(t))
       case None => None
       case Some(lo) => match AddDays(lo, 7) case None => None case Some(hi) => Some((lo, hi)))
    case Monthly =>
      (var lo := t.(d := 1); match AddDays(lo, 32) case None => None case Some(x) => Some((lo, x.(d := 1))))
    case Yearly => if t.y + 1 > 9999 then None else Some((Date(t.y, 1, 1), Date(t.y + 1, 1, 1)))
  }

  /** The integers from `lo`, `n` of them, that satisfy `keep`. */
  function Select(lo: int, n: nat, keep: int -> bool): seq<int>
    decreases n
  {
    if n == 0 then [] else (if keep(lo) then [lo] else []) + Select(lo + 1, n - 1, keep)
  }

  predicate PassesAt(r: Rule, o: int) {
    match FromOrdinal(o) case None => false case Some(t) => Passes(r, t)
  }

  function Passing(r: Rule): int -> bool { o => PassesAt(r, o) }

  function Candidates(r: Rule, lo: Date, hi: Date): seq<int> {
    if Ordinal(hi) < Ordinal(lo) then [] else Select(Ordinal(lo), Ordinal(hi) - Ordinal(lo), Passing(r))
  }

  function Index(s: seq<int>, x: int): Option<nat> {
    if s == [] then None
    else if s[0] == x then Some(0)
    else match Index(s[1..], x) case None => None case Some(i) => Some(i + 1)
  }

  /** `dtstart_in_rule`; None where Python raises. */
  function DtstartInRule(r: Rule, t: Date): Option<bool> {
    if !Passes(r, t) then Some(false)
    else if r.bysetpos == [] then Some(true)
    else match Period(r.freq, t)
      case None => None
      case Some((lo, hi)) =>
        var cs := Candidates(r, lo, hi);
        match Index(cs, Ordinal(t))
        case None => None
        case Some(i) => Some(IsNth(i + 1, |cs|, r.bysetpos))
  }

  // ---------------------------------------------------------------- positions in a list

  /** `w` names `x` in the list: position w from the start, or -w from the end. */
  ghost predicate Names(s: seq<int>, w: int, x: int) {
    (0 < w <= |s| && s[w - 1] == x) || (w < 0 && -w <= |s| && s[|s| + w] == x)
  }

  lemma {:induction false} SelectSplit(lo: int, a: nat, b: nat, keep: int -> bool)
    ensures Select(lo, a + b, keep) == Select(lo, a, keep) + Select(lo + a, b, keep)
    decreases a
  {
    if a > 0 { SelectSplit(lo + 1, a - 1, b, keep); }
  }

  lemma {:induction false} SelectMembers(lo: int, n: nat, keep: int -> bool)
    ensures forall x :: x in Select(lo, n, keep) <==> lo <= x < lo + n && keep(x)
    decreases n
  {
    if n > 0 { SelectMembers(lo + 1, n - 1, keep); }
  }

  lemma {:induction false} IndexAfter(a: seq<int>, x: int, b: seq<int>)
    requires x !in a
    ensures Index(a + [x] + b, x) == Some(|a|)
  {
    var s := a + [x] + b;
    if a != [] {
      assert s[1..] == a[1..] + [x] + b;
      IndexAfter(a[1..], x, b);
    }
  }

  /** A kept element stands at one place of the selection; its two positions, and no others, name it. */
  lemma PlaceOf(lo: int, n: nat, keep: int -> bool, x: int) returns (p: nat)
    requires lo <= x < lo + n && keep(x)
    ensures p == |Select(lo, x - lo, keep)| + 1
    ensures |Select(lo, n, keep)| - p == |Select(x + 1, lo + n - x - 1, keep)|
    ensures var s := Select(lo, n, keep);
      && p <= |s| && Index(s, x) == Some(p - 1)
      && forall w :: Names(s, w, x) <==> w == p || w == p - |s| - 1
  {
    var a, b, s := Select(lo, x - lo, keep), Select(x + 1, lo + n - x - 1, keep), Select(lo, n, keep);
    SelectSplit(lo, x - lo, lo + n - x, keep);
    assert Select(x, lo + n - x, keep) == [x] + b;
    assert s == a + [x] + b;
    SelectMembers(lo, x - lo, keep);
    SelectMembers(x + 1, lo + n - x - 1, keep);
    IndexAfter(a, x, b);
    p := |a| + 1;
    OnlyPosition(a, x, b);
  }

  lemma OnlyPosition(a: seq<int>, x: int, b: seq<int>)
    requires x !in a && x !in b
    ensures var s := a + [x] + b;
      forall w :: Names(s, w, x) <==> w == |a| + 1 || w == |a| - |s|
  {
    var s := a + [x] + b;
    forall i | 0 <= i < |s| ensures s[i] == x <==> i == |a| {
      if i < |a| { assert s[i] in a; }
      if i > |a| { assert s[i] == b[i - |a| - 1] && s[i] in b; }
    }
  }

  const ANY: int -> bool := o => true

  lemma {:induction false} SelectAll(lo: int, n: nat)
    ensures |Select(lo, n, ANY)| == n
    decreases n
  {
    if n > 0 { SelectAll(lo + 1, n - 1); }
  }

  // ---------------------------------------------------------------- ordinals are exact

  function CodeIndex(c: Weekday): (i: int)
    ensures 0 <= i < 7
  {
    match c case SU => 0 case MO => 1 case TU => 2 case WE => 3 case TH => 4 case FR => 5 case SA => 6
  }

  function OnWeekday(c: Weekday): int -> bool { o => o % 7 == CodeIndex(c) }

  /** The dates of a month or a year (`size` days from ordinal `first`) on one weekday. */
  function WeekdayDates(first: int, size: nat, c: Weekday): seq<int> { Select(first, size, OnWeekday(c)) }

  /** How many of `n` days from ordinal `lo` fall on one weekday. */
  lemma {:induction false} WeekdayCount(lo: int, n: nat, c: Weekday)
    ensures |WeekdayDates(lo, n, c)| == (n + 6 - (CodeIndex(c) - lo) % 7) / 7
    decreases n
  {
    if n > 0 {
      WeekdayCount(lo + 1, n - 1, c);
      NextMatch(CodeIndex(c), lo);
      CountStep(n, (CodeIndex(c) - lo) % 7, (CodeIndex(c) - (lo + 1)) % 7);
    }
  }

  /** Days from `lo` until the next day of index `c`. */
  lemma NextMatch(c: int, lo: int)
    requires 0 <= c < 7
    ensures (c - lo) % 7 == if lo % 7 == c then 0 else (c - (lo + 1)) % 7 + 1
    ensures lo % 7 == c ==> (c - (lo + 1)) % 7 == 6
  {
  }

  lemma CountStep(n: nat, wait: int, waitNext: int)
    requires n > 0 && 0 <= wait < 7 && 0 <= waitNext < 7
    requires (wait == 0 && waitNext == 6) || wait == waitNext + 1
    ensures (n + 6 - wait) / 7 == (if wait == 0 then 1 else 0) + (n - 1 + 6 - waitNext) / 7
  {
  }

  /** The same weekday before and after a date, counted: the two weekday formulas. */
  lemma SameWeekdayAround(x: int, before: nat, after: nat, c: Weekday)
    requires x % 7 == CodeIndex(c)
    ensures |WeekdayDates(x - before, before, c)| == before / 7
    ensures |WeekdayDates(x + 1, after, c)| == after / 7
  {
    WeekdayCount(x - before, before, c);
    WeekdayCount(x + 1, after, c);
    SameResidue(CodeIndex(c), x, before);
    WaitingBack(before);
    WaitingOn(after);
  }

  lemma SameResidue(c: int, x: int, before: nat)
    requires x % 7 == c
    ensures (c - (x - before)) % 7 == before % 7 && (c - (x + 1)) % 7 == 6
  {
    var q := x / 7;
    assert c - (x - before) == before - 7 * q && c - (x + 1) == 6 - 7 * (q + 1);
  }

  lemma WaitingBack(before: nat)
    ensures (before + 6 - before % 7) / 7 == before / 7
  {
  }

  lemma WaitingOn(after: nat)
    ensures (after + 6 - 6) / 7 == after / 7
  {
  }

  lemma CodeIsOrdinal(t: Date, c: Weekday)
    ensures CodeOf(t) == c <==> Ordinal(t) % 7 == CodeIndex(c)
  {
    hide Ordinal;
    MondayBased(Ordinal(t));
    CodeAtIndex((WeekdayIndex(t) + 1) % 7, c);
  }

  lemma MondayBased(o: int)
    ensures ((o + 6) % 7 + 1) % 7 == o % 7
  {
  }

  lemma CodeAtIndex(i: int, c: Weekday)
    requires 0 <= i < 7
    ensures CodeAt(i) == c <==> i == CodeIndex(c)
  {
  }

  /** The weekday formulas: for the date at `pos` of `size` days, `nth` counts the same
      weekday from the start through it, `from_end` counts it back from the end, and an
      item matches exactly when its ordinal names that date among the period's dates on
      the item's weekday. */
  lemma OrdinalNamesTheDate(item: WeekdayNum, t: Date, pos: int, size: int)
    requires 1 <= pos <= size && item.ordinal != 0
    ensures DayMatches(item, t, pos, size)
      <==> Names(WeekdayDates(Ordinal(t) - pos + 1, size, item.day), item.ordinal, Ordinal(t))
  {
    CodeIsOrdinal(t, item.day);
    FormulasNameTheDate(Ordinal(t), pos, size, item);
  }

  lemma FormulasNameTheDate(x: int, pos: int, size: int, item: WeekdayNum)
    requires 1 <= pos <= size && item.ordinal != 0
    ensures x % 7 == CodeIndex(item.day) && (item.ordinal == (pos - 1) / 7 + 1 || item.ordinal == -((size - pos) / 7 + 1))
      <==> Names(WeekdayDates(x - pos + 1, size, item.day), item.ordinal, x)
  {
    hide Select;
    var first, keep := x - pos + 1, OnWeekday(item.day);
    SelectMembers(first, size, keep);
    if x % 7 == CodeIndex(item.day) {
      var p := PlaceOf(first, size, keep, x);
      SameWeekdayAround(x, pos - 1, size - pos, item.day);
    } else {
      assert x !in WeekdayDates(first, size, item.day);
    }
  }

  /** Ordinals past five never match inside a month, nor past 53 inside a year: the bounds the validator sets. */
  lemma OrdinalsStayInBounds(item: WeekdayNum, t: Date)
    requires Exists(t)
    ensures DayMatches(item, t, t.d, MonthSize(t.y, t.m)) ==> -5 <= item.ordinal <= 5
    ensures DayMatches(item, t, DayOfYear(t), YearSize(t.y)) ==> -53 <= item.ordinal <= 53
  {
    DaysBeforeMonthBounds(t.y, t.m);
  }

  /** A month's or a year's days: position n or -n names its n-th day from the start or the end. */
  lemma NthNamesTheDay(first: int, size: nat, pos: int, wanted: seq<int>)
    requires 1 <= pos <= size
    ensures IsNth(pos, size, wanted)
      <==> exists w :: w in wanted && Names(Select(first, size, ANY), w, first + pos - 1)
  {
    SelectAll(first, size);
    SelectAll(first, pos - 1);
    var p := PlaceOf(first, size, o => true, first + pos - 1);
  }

  // ---------------------------------------------------------------- the validator's bounds

  /** Some date is the `v`-th day of its month, or of its year, from the start or the end. */
  ghost predicate NamesSomeMonthDay(v: int) { exists t :: Exists(t) && IsNth(t.d, MonthSize(t.y, t.m), [v]) }
  ghost predicate NamesSomeYearDay(v: int) { exists t :: Exists(t) && IsNth(DayOfYear(t), YearSize(t.y), [v]) }
  ghost predicate NamesSomeMonth(v: int) { exists t :: Exists(t) && t.m == v }

  /** Some date is the `k`-th of its weekday in its month, or in its year. */
  ghost predicate NamesSomeWeekdayOfMonth(k: int) {
    exists t :: Exists(t) && DayMatches(WeekdayNum(k, CodeOf(t)), t, t.d, MonthSize(t.y, t.m))
  }

  ghost predicate NamesSomeWeekdayOfYear(k: int) {
    exists t :: Exists(t) && DayMatches(WeekdayNum(k, CodeOf(t)), t, DayOfYear(t), YearSize(t.y))
  }

  lemma MonthDayBoundIsExact(v: int)
    ensures NamesSomeMonthDay(v) <==> InRange(v, 31)
  {
    if InRange(v, 31) {
      var t := Date(2000, 1, if v > 0 then v else v + 32);
      assert Exists(t) && IsNth(t.d, MonthSize(t.y, t.m), [v]);
    }
  }

  lemma MonthBoundIsExact(v: int)
    ensures NamesSomeMonth(v) <==> 1 <= v <= 12
  {
    if 1 <= v <= 12 { assert Exists(Date(2000, v, 1)); }
  }

  /** The date at a given day of a year. */
  lemma {:induction false} DayOfYearExists(y: int, n: int) returns (t: Date)
    requires 1 <= y <= 9999 && 1 <= n <= YearSize(y)
    ensures Exists(t) && t.y == y && DayOfYear(t) == n
  {
    if n == 1 {
      t := Date(y, 1, 1);
    } else {
      var before := DayOfYearExists(y, n - 1);
      LaterInTheYear(before);
      t := Next(before).value;
    }
  }

  lemma LaterInTheYear(t: Date)
    requires Exists(t) && DayOfYear(t) < YearSize(t.y)
    ensures Next(t).Some? && var u := Next(t).value; Exists(u) && u.y == t.y && DayOfYear(u) == DayOfYear(t) + 1
  {
    YearIsItsMonths(t.y);
    if t.d == MonthSize(t.y, t.m) && t.m < 12 { MonthStep(t.y, t.m); }
  }

  lemma YearDayBoundIsExact(v: int)
    ensures NamesSomeYearDay(v) <==> InRange(v, 366)
  {
    if InRange(v, 366) {
      assert YearSize(2000) == 366;
      var t := DayOfYearExists(2000, if v > 0 then v else v + 367);
      assert IsNth(DayOfYear(t), YearSize(t.y), [v]);
    }
    forall t | Exists(t) && IsNth(DayOfYear(t), YearSize(t.y), [v]) ensures InRange(v, 366) {
      DaysBeforeMonthBounds(t.y, t.m);
    }
  }

  lemma MonthOrdinalBoundIsExact(k: int)
    ensures NamesSomeWeekdayOfMonth(k) <==> -5 <= k <= 5
  {
    if -5 <= k <= 5 {
      var t := Date(2000, 1, if k == 0 then 1 else if k > 0 then 7 * k - 6 else 38 + 7 * k);
      assert Exists(t) && DayMatches(WeekdayNum(k, CodeOf(t)), t, t.d, MonthSize(t.y, t.m)) by { hide CodeOf; }
    }
    forall t | Exists(t) && DayMatches(WeekdayNum(k, CodeOf(t)), t, t.d, MonthSize(t.y, t.m)) ensures -5 <= k <= 5 {
      OrdinalsStayInBounds(WeekdayNum(k, CodeOf(t)), t);
    }
  }

  lemma YearOrdinalBoundIsExact(k: int)
    ensures NamesSomeWeekdayOfYear(k) <==> -53 <= k <= 53
  {
    if -53 <= k <= 53 {
      assert YearSize(2001) == 365;
      var t := DayOfYearExists(2001, if k == 0 then 1 else if k > 0 then 7 * k - 6 else 372 + 7 * k);
      hide CodeOf, DayOfYear;
      assert DayMatches(WeekdayNum(k, CodeOf(t)), t, DayOfYear(t), YearSize(t.y));
    }
    forall t | Exists(t) && DayMatches(WeekdayNum(k, CodeOf(t)), t, DayOfYear(t), YearSize(t.y)) ensures -53 <= k <= 53 {
      OrdinalsStayInBounds(WeekdayNum(k, CodeOf(t)), t);
    }
  }

  /** What a rule's parts must satisfy, said of dates: every value names something in the
      calendar, and the combinations RFC 5545 bans do not occur. */
  ghost predicate PartsMakeSense(r: Rule) {
    && (forall v :: v in r.bymonthday ==> NamesSomeMonthDay(v))
    && (forall v :: v in r.byyearday ==> NamesSomeYearDay(v))
    && (forall v :: v in r.bymonth ==> NamesSomeMonth(v))
    && (forall v :: v in r.bysetpos ==> NamesSomeYearDay(v))
    && (forall d :: d in r.byday ==> NamesSomeWeekdayOfYear(d.ordinal))
    && (r.freq.Monthly? ==> forall d :: d in r.byday ==> NamesSomeWeekdayOfMonth(d.ordinal))
    && (r.freq.Yearly? && r.bymonth != [] ==> forall d :: d in r.byday ==> NamesSomeWeekdayOfMonth(d.ordinal))
    && (forall d :: d in r.byday && d.ordinal != 0 ==> r.freq.Monthly? || r.freq.Yearly?)
    && (r.bymonthday != [] ==> !r.freq.Weekly?) && (r.byyearday != [] ==> r.freq.Yearly?)
    && (r.bysetpos != [] ==> r.byday != [] || r.bymonthday != [] || r.bymonth != [] || r.byyearday != [])
  }

  /** The same, with the validator's numbers. */
  ghost predicate PartsInRange(r: Rule) {
    && (forall v :: v in r.bymonthday ==> InRange(v, 31))
    && (forall v :: v in r.byyearday ==> InRange(v, 366))
    && (forall v :: v in r.bymonth ==> 1 <= v <= 12)
    && (forall v :: v in r.bysetpos ==> InRange(v, 366))
    && (forall d :: d in r.byday ==> if OrdinalsInMonth(r) then -5 <= d.ordinal <= 5 else -53 <= d.ordinal <= 53)
    && (HasOrdinal(r) ==> r.freq.Monthly? || r.freq.Yearly?)
    && (r.bymonthday != [] ==> !r.freq.Weekly?) && (r.byyearday != [] ==> r.freq.Yearly?)
    && (r.bysetpos != [] ==> r.byday != [] || r.bymonthday != [] || r.bymonth != [] || r.byyearday != [])
  }

  lemma ValidatedExactly(r: Rule)
    ensures Validated(r).Fine? <==> PartsInRange(r)
    ensures Validated(r).Fine? ==> Validated(r).value == r
  {
  }

  lemma RangesAreTheCalendars(r: Rule)
    ensures PartsInRange(r) <==> PartsMakeSense(r)
  {
    hide NamesSomeMonthDay, NamesSomeYearDay, NamesSomeMonth, NamesSomeWeekdayOfMonth, NamesSomeWeekdayOfYear;
    forall v { MonthDayBoundIsExact(v); }
    forall v { YearDayBoundIsExact(v); }
    forall v { MonthBoundIsExact(v); }
    forall k { MonthOrdinalBoundIsExact(k); }
    forall k { YearOrdinalBoundIsExact(k); }
  }

  lemma SortingKeepsRanges(r: Rule)
    ensures PartsInRange(Canonical(r)) <==> PartsInRange(r)
  {
    KeysAreInjective();
    SameMembers(r.byday, DayKey);
    SameMembers(r.bymonthday, IntKey);
    SameMembers(r.bymonth, IntKey);
    SameMembers(r.byyearday, IntKey);
    SameMembers(r.bysetpos, IntKey);
    hide Canon, InRange;
  }

  lemma SameMembers<T(!new)>(s: seq<T>, key: T -> int)
    requires forall a, b :: key(a) == key(b) ==> a == b
    ensures (forall v :: v in Canon(s, key) <==> v in s) && (Canon(s, key) == [] <==> s == [])
  {
    CanonSorts(s, key);
    assert s != [] ==> s[0] in s;
    assert Canon(s, key) != [] ==> Canon(s, key)[0] in Canon(s, key);
  }

  /** The validator accepts a rule exactly when its COUNT, UNTIL and INTERVAL are sound and
      every value of its lists names something in the calendar, combinations allowed. */
  lemma ConstructExactly(r: Rule)
    ensures Construct(r).Fine? <==>
      && !(r.count.Some? && r.until.Some?) && r.interval >= 1 && (r.count.Some? ==> r.count.value >= 1) && PartsMakeSense(r)
    ensures Construct(r).Fine? ==> Construct(r).value == Canonical(r)
  {
    hide Validated, PartsInRange, PartsMakeSense, Canonical;
    ValidatedExactly(Canonical(r));
    SortingKeepsRanges(r);
    RangesAreTheCalendars(r);
  }

  function MonthStart(t: Date): int { Ordinal(t.(d := 1)) }
  function YearStart(t: Date): int { Ordinal(Date(t.y, 1, 1)) }

  /** One BYDAY item against a date that lies in the `size` days from ordinal `first`: its weekday
      is the item's, and an ordinal names it in the list of those days on that weekday. */
  ghost predicate NamesDate(item: WeekdayNum, first: int, size: nat, o: int) {
    o % 7 == CodeIndex(item.day) && (item.ordinal == 0 || Names(WeekdayDates(first, size, item.day), item.ordinal, o))
  }

  ghost predicate NamesInMonth(item: WeekdayNum, t: Date) { NamesDate(item, MonthStart(t), MonthSize(t.y, t.m), Ordinal(t)) }
  ghost predicate NamesInYear(item: WeekdayNum, t: Date) { NamesDate(item, YearStart(t), YearSize(t.y), Ordinal(t)) }

  lemma ItemExactly(item: WeekdayNum, t: Date)
    requires Exists(t)
    ensures DayMatches(item, t, t.d, MonthSize(t.y, t.m)) <==> NamesInMonth(item, t)
    ensures DayMatches(item, t, DayOfYear(t), YearSize(t.y)) <==> NamesInYear(item, t)
  {
    DaysBeforeMonthBounds(t.y, t.m);
    assert DaysBeforeMonth(t.y, 1) == 0;
    CodeIsOrdinal(t, item.day);
    if item.ordinal != 0 {
      OrdinalNamesTheDate(item, t, t.d, MonthSize(t.y, t.m));
      OrdinalNamesTheDate(item, t, DayOfYear(t), YearSize(t.y));
    }
  }

  /** What one BYDAY item asks of a date: its ordinal counts in the month for MONTHLY and for
      YEARLY narrowed by BYMONTH, and in the year otherwise. */
  ghost predicate Wants(r: Rule, item: WeekdayNum, t: Date) {
    match r.freq
    case Monthly => NamesInMonth(item, t)
    case Yearly => if r.bymonth == [] then NamesInYear(item, t) else NamesInMonth(item, t)
    case _ => NamesInYear(item, t)
  }

  /** The filters, all of them, in terms of the dates each value names. */
  ghost predicate Survives(r: Rule, t: Date) {
    && (r.bymonth == [] || t.m in r.bymonth)
    && (r.byyearday == [] || exists w :: w in r.byyearday && Names(Select(YearStart(t), YearSize(t.y), ANY), w, Ordinal(t)))
    && (r.bymonthday == [] || exists w :: w in r.bymonthday && Names(Select(MonthStart(t), MonthSize(t.y, t.m), ANY), w, Ordinal(t)))
    && (r.byday == [] || exists item :: item in r.byday && Wants(r, item, t))
  }

  lemma PassesExactly(r: Rule, t: Date)
    requires Exists(t)
    ensures Passes(r, t) <==> Survives(r, t)
  {
    hide NamesInMonth, NamesInYear, DayMatches, Names, IsNth, Select, Ordinal, DayOfYear, YearSize, MonthSize, MonthStart, YearStart;
    DaysExactly(t, r.byyearday, r.bymonthday);
    forall item { ItemExactly(item, t); }
  }

  lemma DaysExactly(t: Date, byYear: seq<int>, byMonth: seq<int>)
    requires Exists(t)
    ensures IsNth(DayOfYear(t), YearSize(t.y), byYear)
      <==> exists w :: w in byYear && Names(Select(YearStart(t), YearSize(t.y), ANY), w, Ordinal(t))
    ensures IsNth(t.d, MonthSize(t.y, t.m), byMonth)
      <==> exists w :: w in byMonth && Names(Select(MonthStart(t), MonthSize(t.y, t.m), ANY), w, Ordinal(t))
  {
    hide IsNth, Names, Select;
    DaysBeforeMonthBounds(t.y, t.m);
    assert DaysBeforeMonth(t.y, 1) == 0;
    NthNamesTheDay(YearStart(t), YearSize(t.y), DayOfYear(t), byYear);
    NthNamesTheDay(MonthStart(t), MonthSize(t.y, t.m), t.d, byMonth);
  }

  // ---------------------------------------------------------------- the period

  /** The last day of the date's period lies within the calendar, with a day after it. */
  ghost predicate PeriodFits(f: Frequency, t: Date) {
    match f
    case Daily => t != LAST
    case Weekly => Ordinal(t) - WeekdayIndex(t) + 7 <= MAX_ORDINAL
    case Monthly => !(t.y == 9999 && t.m == 12)
    case Yearly => t.y != 9999
  }

  lemma {:induction false} WithinMonth(t: Date, k: int)
    requires Exists(t) && 0 <= k && t.d + k <= MonthSize(t.y, t.m)
    ensures AddDays(t, k) == Some(t.(d := t.d + k))
  {
    FromOrdinalOf(t.(d := t.d + k));
  }

  lemma MonthLength(t: Date)
    requires Exists(t) && PeriodFits(Monthly, t)
    ensures var next := NextMonth(t);
      Exists(next) && Ordinal(next) == Ordinal(t.(d := 1)) + MonthSize(t.y, t.m)
  {
    NextIsOneLater(Date(t.y, t.m, MonthSize(t.y, t.m)));
  }

  function NextMonth(t: Date): Date { if t.m < 12 then Date(t.y, t.m + 1, 1) else Date(t.y + 1, 1, 1) }

  /** The first of a month plus 32 days is always in the next month. */
  lemma MonthPlus32(t: Date)
    requires Exists(t) && PeriodFits(Monthly, t)
    ensures var x := AddDays(t.(d := 1), 32); x.Some? && x.value.(d := 1) == NextMonth(t)
  {
    hide Ordinal, FromOrdinal;
    MonthLength(t);
    WithinMonth(NextMonth(t), 32 - MonthSize(t.y, t.m));
  }

  lemma LastMonthPlus32(t: Date)
    requires Exists(t) && !PeriodFits(Monthly, t)
    ensures AddDays(t.(d := 1), 32).None?
  {
    var last := t.(d := 31);
    NoneBeyondLast(Ordinal(t.(d := 1)) + 32, last);
  }

  lemma MondayIsInTheCalendar(o: int)
    requires o >= 1
    ensures 1 <= o - (o + 6) % 7 <= o && (o - (o + 6) % 7 + 6) % 7 == 0
  {
  }

  /** Ordinal 1 is a Monday, so a week never starts before the calendar. */
  lemma MondayOf(t: Date) returns (monday: int)
    requires Exists(t)
    ensures monday == Ordinal(t) - WeekdayIndex(t) >= 1 && (monday + 6) % 7 == 0
    ensures FromOrdinal(monday).Some?
    ensures FromOrdinal(monday + 7).Some? <==> PeriodFits(Weekly, t)
  {
    hide Ordinal, FromOrdinal;
    monday := Ordinal(t) - WeekdayIndex(t);
    FromOrdinalOf(t);
    MondayIsInTheCalendar(Ordinal(t));
    OrdinalExistsBelow(Ordinal(t), monday);
    DatesAreOrdinals(monday + 7, LAST);
  }

  lemma WeekSpansTheDate(t: Date)
    requires Exists(t)
    ensures Period(Weekly, t).Some? <==> PeriodFits(Weekly, t)
    ensures Period(Weekly, t).Some? ==>
      var (lo, hi) := Period(Weekly, t).value;
      && Exists(hi) && WeekdayIndex(lo) == 0
      && Ordinal(lo) <= Ordinal(t) < Ordinal(hi) == Ordinal(lo) + 7
  {
    hide Ordinal, FromOrdinal, PeriodFits;
    var monday := MondayOf(t);
    OrdinalOf(monday);
    OrdinalOf(monday + 7);
  }

  lemma DaySpansTheDate(t: Date)
    requires Exists(t)
    ensures Period(Daily, t).Some? <==> PeriodFits(Daily, t)
    ensures Period(Daily, t).Some? ==>
      var (lo, hi) := Period(Daily, t).value; lo == t && Exists(hi) && Ordinal(hi) == Ordinal(t) + 1
  {
    FromOrdinalOf(t);
    NextIsOneLater(t);
  }

  lemma MonthSpansTheDate(t: Date)
    requires Exists(t)
    ensures Period(Monthly, t).Some? <==> PeriodFits(Monthly, t)
    ensures Period(Monthly, t).Some? ==>
      var (lo, hi) := Period(Monthly, t).value;
      lo == t.(d := 1) && Exists(hi) && Ordinal(hi) == Ordinal(lo) + MonthSize(t.y, t.m)
  {
    if PeriodFits(Monthly, t) {
      MonthPlus32(t);
      MonthLength(t);
    } else {
      LastMonthPlus32(t);
    }
  }

  lemma YearSpansTheDate(t: Date)
    requires Exists(t)
    ensures Period(Yearly, t).Some? <==> PeriodFits(Yearly, t)
    ensures Period(Yearly, t).Some? ==>
      var (lo, hi) := Period(Yearly, t).value;
      lo == Date(t.y, 1, 1) && Exists(hi) && Ordinal(hi) == Ordinal(lo) + YearSize(t.y)
      && Ordinal(lo) <= Ordinal(t) < Ordinal(hi)
  {
    DaysBeforeMonthBounds(t.y, t.m);
    FirstOfYear(t.y);
    FirstOfYear(t.y + 1);
  }

  lemma FirstOfYear(y: int)
    requires y >= 1
    ensures Ordinal(Date(y, 1, 1)) == DaysBeforeYear(y) + 1
  {
    assert DaysBeforeMonth(y, 1) == 0;
  }

  /** `_period` is total but for the very end of the calendar, and always spans the date. */
  lemma PeriodSpansTheDate(f: Frequency, t: Date)
    requires Exists(t)
    ensures Period(f, t).Some? <==> PeriodFits(f, t)
    ensures Period(f, t).Some? ==>
      var (lo, hi) := Period(f, t).value;
      && Exists(hi) && Ordinal(lo) <= Ordinal(t) < Ordinal(hi)
      && Ordinal(hi) - Ordinal(lo) ==
           (match f case Daily => 1 case Weekly => 7 case Monthly => MonthSize(t.y, t.m) case Yearly => YearSize(t.y))
      && (f.Weekly? ==> WeekdayIndex(lo) == 0) && (f.Monthly? ==> lo == t.(d := 1)) && (f.Yearly? ==> lo == Date(t.y, 1, 1))
  {
    match f
    case Daily => DaySpansTheDate(t);
    case Weekly => WeekSpansTheDate(t);
    case Monthly => MonthSpansTheDate(t);
    case Yearly => YearSpansTheDate(t);
  }

  // ---------------------------------------------------------------- BYSETPOS is exact

  /** A passing date stands among the candidates of any range around it, at one position. */
  lemma CandidatePosition(r: Rule, t: Date, lo: Date, hi: Date)
    requires Exists(t) && Passes(r, t) && Ordinal(lo) <= Ordinal(t) < Ordinal(hi)
    ensures var cs := Candidates(r, lo, hi);
      && Index(cs, Ordinal(t)).Some?
      && (IsNth(Index(cs, Ordinal(t)).value + 1, |cs|, r.bysetpos)
          <==> exists w :: w in r.bysetpos && Names(cs, w, Ordinal(t)))
  {
    FromOrdinalOf(t);
    assert Passing(r)(Ordinal(t));
    var p := PlaceOf(Ordinal(lo), Ordinal(hi) - Ordinal(lo), Passing(r), Ordinal(t));
  }

  /** The first ordinal of the date's period, and its days; a week begins on Monday. */
  function PeriodStart(f: Frequency, t: Date): int {
    match f
    case Daily => Ordinal(t)
    case Weekly => Ordinal(t) - (Ordinal(t) - CodeIndex(MO)) % 7
    case Monthly => MonthStart(t)
    case Yearly => YearStart(t)
  }

  function PeriodDays(f: Frequency, t: Date): nat {
    match f case Daily => 1 case Weekly => 7 case Monthly => MonthSize(t.y, t.m) case Yearly => YearSize(t.y)
  }

  ghost predicate Ascending(s: seq<int>) { forall i, j :: 0 <= i < j < |s| ==> s[i] < s[j] }

  /** `s` lists, in order, the days of a stretch of the calendar that survive the filters. */
  ghost predicate ListsSurvivors(r: Rule, first: int, days: nat, s: seq<int>) {
    && Ascending(s)
    && forall o :: o in s <==> first <= o < first + days && exists t :: Exists(t) && Ordinal(t) == o && Survives(r, t)
  }

  lemma AscendsCons(x: int, rest: seq<int>)
    requires Ascending(rest) && forall y :: y in rest ==> x < y
    ensures Ascending([x] + rest)
  {
    var s := [x] + rest;
    forall i, j | 0 <= i < j < |s| ensures s[i] < s[j] {
      assert s[j] == rest[j - 1] && rest[j - 1] in rest;
      if i > 0 { assert s[i] == rest[i - 1]; }
    }
  }

  lemma {:induction false} SelectAscends(lo: int, n: nat, keep: int -> bool)
    ensures Ascending(Select(lo, n, keep))
    decreases n
  {
    if n > 0 {
      SelectAscends(lo + 1, n - 1, keep);
      SelectMembers(lo + 1, n - 1, keep);
      AscendsCons(lo, Select(lo + 1, n - 1, keep));
      assert [] + Select(lo + 1, n - 1, keep) == Select(lo + 1, n - 1, keep);
    }
  }

  lemma PassesAtExactly(r: Rule, o: int)
    ensures PassesAt(r, o) <==> exists t :: Exists(t) && Ordinal(t) == o && Survives(r, t)
  {
    hide Ordinal, FromOrdinal, Passes, Survives;
    OrdinalOf(o);
    if FromOrdinal(o).Some? { PassesExactly(r, FromOrdinal(o).value); }
    forall t | Exists(t) && Ordinal(t) == o ensures FromOrdinal(o) == Some(t) { FromOrdinalOf(t); }
  }

  lemma CandidatesExactly(r: Rule, lo: Date, hi: Date)
    requires Ordinal(lo) <= Ordinal(hi)
    ensures ListsSurvivors(r, Ordinal(lo), Ordinal(hi) - Ordinal(lo), Candidates(r, lo, hi))
  {
    hide Ordinal, PassesAt, Survives, Exists;
    var n := Ordinal(hi) - Ordinal(lo);
    SelectAscends(Ordinal(lo), n, Passing(r));
    SelectMembers(Ordinal(lo), n, Passing(r));
    forall o ensures Passing(r)(o) <==> exists t :: Exists(t) && Ordinal(t) == o && Survives(r, t) {
      PassesAtExactly(r, o);
    }
    assert Candidates(r, lo, hi) == Select(Ordinal(lo), n, Passing(r));
    forall o
      ensures o in Candidates(r, lo, hi) <==> Ordinal(lo) <= o < Ordinal(lo) + n && exists t :: Exists(t) && Ordinal(t) == o && Survives(r, t)
    {
    }
  }

  /** A date is in the rule exactly when it survives the filters and, with BYSETPOS, some listed
      position names it among the surviving days of its own period; the answer exists for every
      date but those whose period reaches past the end of the calendar. */
  lemma DtstartExactly(r: Rule, t: Date) returns (s: seq<int>)
    requires Exists(t)
    ensures DtstartInRule(r, t).None? <==> Survives(r, t) && r.bysetpos != [] && !PeriodFits(r.freq, t)
    ensures PeriodFits(r.freq, t) ==> ListsSurvivors(r, PeriodStart(r.freq, t), PeriodDays(r.freq, t), s)
    ensures DtstartInRule(r, t).Some? ==>
      (DtstartInRule(r, t).value <==> Survives(r, t) && (r.bysetpos == [] || exists w :: w in r.bysetpos && Names(s, w, Ordinal(t))))
  {
    hide Survives, Passes, PeriodFits, Ordinal, Names, Candidates, ListsSurvivors, Period;
    s := [];
    PassesExactly(r, t);
    PeriodSpansTheDate(r.freq, t);
    if PeriodFits(r.freq, t) {
      var (lo, hi) := Period(r.freq, t).value;
      s := Candidates(r, lo, hi);
      CandidatesExactly(r, lo, hi);
      StartExactly(r.freq, t, lo, hi);
      if Passes(r, t) { CandidatePosition(r, t, lo, hi); }
    }
  }

  lemma StartExactly(f: Frequency, t: Date, lo: Date, hi: Date)
    requires Exists(t) && PeriodFits(f, t) && Period(f, t) == Some((lo, hi))
    ensures Ordinal(lo) == PeriodStart(f, t) && Ordinal(hi) - Ordinal(lo) == PeriodDays(f, t)
  {
    hide Ordinal, PeriodFits, Period;
    PeriodSpansTheDate(f, t);
    if f.Weekly? { MondayBefore(Ordinal(t), Ordinal(lo)); }
  }

  lemma MondayBefore(o: int, monday: int)
    requires monday <= o < monday + 7 && (monday + 6) % 7 == 0
    ensures monday == o - (o - 1) % 7
  {
    assert (monday + 6) / 7 * 7 == monday + 6;
    assert o - 1 == (monday - 1) + (o - monday);
  }

  /** The raise happens: a daily rule with BYSETPOS on the calendar's last day. */
  lemma LastDayRaises() returns (r: Rule, t: Date)
    ensures Construct(r) == Fine(r) && t == LAST && Exists(t) && DtstartInRule(r, t).None?
  {
    r, t := Rule(Daily, 1, None, None, [], [], [12], [], [1]), Date(9999, 12, 31);
    DailyAtTheEnd(r, t);
    assert Canonical(r) == r;
    assert r.bymonth[0] == 12 && r.bysetpos[0] == 1;
  }

  lemma DailyAtTheEnd(r: Rule, t: Date)
    requires t == LAST && r.freq.Daily? && r.bymonth == [12] && r.bysetpos != []
    requires r.byday == [] && r.bymonthday == [] && r.byyearday == []
    ensures DtstartInRule(r, t).None?
  {
    assert r.bymonth[0] == 12;
    assert Passes(r, t);
    PassesExactly(r, t);
    var s := DtstartExactly(r, t);
  }
}
