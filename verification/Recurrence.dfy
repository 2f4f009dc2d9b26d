/**
 Repeat rules: the subset of section 3.3.10 of RFC 5545 that `macos_apps_mcp/contracts.py`
 parses and validates, and the text that `macos_apps_mcp/eventkit.py` prints for a stored rule.
 */
module Recurrence {
  import opened Prelude
  import opened Sorting
  import opened Strings

  datatype Frequency = Daily | Weekly | Monthly | Yearly
  datatype Weekday = SU | MO | TU | WE | TH | FR | SA

  /** A weekday with its ordinal; 0 means every such weekday. */
  datatype WeekdayNum = WeekdayNum(ordinal: int, day: Weekday)

  /** A naive local time: the day, and the second of that day. */
  datatype Moment = Moment(year: int, month: int, day: int, second: int)

  datatype Rule = Rule(
    freq: Frequency, interval: int, count: Option<int>, until: Option<Moment>,
    byday: seq<WeekdayNum>, bymonthday: seq<int>, bymonth: seq<int>, byyearday: seq<int>, bysetpos: seq<int>)

  datatype RuleError =
    | NotKeyValue | RefusedPart | UnsupportedPart | BadFrequency | NotAnInteger(part: string) | CountAndUntil
    | BadUntil | BadWeekday | BadInterval | BadCount | OutOfRange(part: string) | BadCombination(part: string)

  datatype Parsed<+T> = Fine(value: T) | Bad(error: RuleError) {
    predicate IsFailure() { Bad? }
    function PropagateFailure<U>(): Parsed<U> requires Bad? { Bad(error) }
    function Extract(): T requires Fine? { value }
  }

  // ---------------------------------------------------------------- sorted unique lists

  /** Weekday codes in the order Python sorts them, as text: FR, MO, SA, SU, TH, TU, WE. */
  function CodeRank(d: Weekday): int {
    match d case FR => 0 case MO => 1 case SA => 2 case SU => 3 case TH => 4 case TU => 5 case WE => 6
  }

  /** Order of `(ordinal, code)` pairs, as one number. */
  function DayKey(d: WeekdayNum): int { d.ordinal * 7 + CodeRank(d.day) }
  function IntKey(n: int): int { n }

  lemma KeysAreInjective()
    ensures forall a, b :: DayKey(a) == DayKey(b) ==> a == b
  {
  }

  predicate CodeBefore(a: string, b: string)
    requires |a| == 2 && |b| == 2
  {
    a[0] < b[0] || (a[0] == b[0] && a[1] < b[1])
  }

  /** The numbers order the pairs as Python does: by ordinal, then by the text of the code. */
  lemma KeysSortAsPairs(a: WeekdayNum, b: WeekdayNum)
    ensures DayKey(a) < DayKey(b)
      <==> a.ordinal < b.ordinal || (a.ordinal == b.ordinal && CodeBefore(WeekdayCode(a.day), WeekdayCode(b.day)))
  {
    CodesSortAsText(a.day, b.day);
    hide CodeBefore, WeekdayCode;
  }

  lemma CodesSortAsText(a: Weekday, b: Weekday)
    ensures CodeRank(a) < CodeRank(b) <==> CodeBefore(WeekdayCode(a), WeekdayCode(b))
  {
  }

  // ---------------------------------------------------------------- validation

  predicate InRange(v: int, limit: int) { v != 0 && -limit <= v <= limit }

  /** An ordinal counts inside the month for MONTHLY, and for YEARLY narrowed by BYMONTH. */
  predicate OrdinalsInMonth(r: Rule) { r.freq.Monthly? || (r.freq.Yearly? && r.bymonth != []) }

  predicate HasOrdinal(r: Rule) { exists d :: d in r.byday && d.ordinal != 0 }

  /** `_validate_by_parts`, checks in the source's order. */
  function Validated(r: Rule): Parsed<Rule> {
    if exists v :: v in r.bymonthday && !InRange(v, 31) then Bad(OutOfRange("BYMONTHDAY"))
    else if exists v :: v in r.byyearday && !InRange(v, 366) then Bad(OutOfRange("BYYEARDAY"))
    else if exists v :: v in r.bysetpos && !InRange(v, 366) then Bad(OutOfRange("BYSETPOS"))
    else if exists v :: v in r.bymonth && !(1 <= v <= 12) then Bad(OutOfRange("BYMONTH"))
    else if exists d :: d in r.byday && !(-53 <= d.ordinal <= 53) then Bad(OutOfRange("BYDAY"))
    else if HasOrdinal(r) && !(r.freq.Monthly? || r.freq.Yearly?) then Bad(BadCombination("BYDAY"))
    else if OrdinalsInMonth(r) && exists d :: d in r.byday && !(-5 <= d.ordinal <= 5) then Bad(OutOfRange("BYDAY"))
    else if r.bymonthday != [] && r.freq.Weekly? then Bad(BadCombination("BYMONTHDAY"))
    else if r.byyearday != [] && !r.freq.Yearly? then Bad(BadCombination("BYYEARDAY"))
    else if r.bysetpos != [] && r.byday == [] && r.bymonthday == [] && r.bymonth == [] && r.byyearday == []
    then Bad(BadCombination("BYSETPOS"))
    else Fine(r)
  }

  function Canonical(r: Rule): Rule {
    r.(byday := Canon(r.byday, DayKey), bymonthday := Canon(r.bymonthday, IntKey), bymonth := Canon(r.bymonth, IntKey),
       byyearday := Canon(r.byyearday, IntKey), bysetpos := Canon(r.bysetpos, IntKey))
  }

  /** Constructing a rule: `__post_init__`. */
  function Construct(r: Rule): Parsed<Rule> {
    if r.count.Some? && r.until.Some? then Bad(CountAndUntil)
    else if r.interval < 1 then Bad(BadInterval)
    else if r.count.Some? && r.count.value < 1 then Bad(BadCount)
    else Validated(Canonical(r))
  }

  ghost predicate SortedParts(r: Rule) {
    && StrictlySorted(r.byday, DayKey) && StrictlySorted(r.bymonthday, IntKey) && StrictlySorted(r.bymonth, IntKey)
    && StrictlySorted(r.byyearday, IntKey) && StrictlySorted(r.bysetpos, IntKey)
  }

  /** A rule some construction can produce. */
  ghost predicate Valid(r: Rule) { SortedParts(r) && Construct(r) == Fine(r) }

  lemma CanonicalIsSorted(r: Rule)
    ensures SortedParts(Canonical(r))
    ensures SortedParts(r) ==> Canonical(r) == r
  {
    KeysAreInjective();
    CanonSorts(r.byday, DayKey);
    CanonSorts(r.bymonthday, IntKey);
    CanonSorts(r.bymonth, IntKey);
    CanonSorts(r.byyearday, IntKey);
    CanonSorts(r.bysetpos, IntKey);
    if SortedParts(r) {
      SortedIsUnique(r.byday, Canon(r.byday, DayKey), DayKey);
      SortedIsUnique(r.bymonthday, Canon(r.bymonthday, IntKey), IntKey);
      SortedIsUnique(r.bymonth, Canon(r.bymonth, IntKey), IntKey);
      SortedIsUnique(r.byyearday, Canon(r.byyearday, IntKey), IntKey);
      SortedIsUnique(r.bysetpos, Canon(r.bysetpos, IntKey), IntKey);
    }
  }

  /** Construction is a projection: what it accepts is valid, and constructing it again changes nothing. */
  lemma ConstructIsIdempotent(r: Rule)
    ensures Construct(r).Fine? ==> Valid(Construct(r).value)
  {
    CanonicalIsSorted(r);
    CanonicalIsSorted(Canonical(r));
  }

  // ---------------------------------------------------------------- the parser

  const SUPPORTED: set<string> := {"FREQ", "INTERVAL", "COUNT", "UNTIL", "BYDAY", "BYMONTHDAY", "BYMONTH", "BYYEARDAY", "BYSETPOS"}
  const REJECTED: set<string> := {"BYWEEKNO", "BYHOUR", "BYMINUTE", "BYSECOND", "WKST"}

  /** One `KEY=VALUE` token put into the dictionary; a blank token is skipped, a repeated key overwrites. */
  function AddToken(token: string, fields: map<string, string>): Parsed<map<string, string>> {
    var t := Strip(token);
    if t == "" then Fine(fields)
    else match Partition(t, '=')
      case None => Bad(NotKeyValue)
      case Some((k, v)) => Fine(fields[Upper(Strip(k)) := Strip(v)])
  }

  function FieldsOf(tokens: seq<string>, fields: map<string, string>): Parsed<map<string, string>>
    decreases |tokens|
  {
    if tokens == [] then Fine(fields)
    else
      var next :- AddToken(tokens[0], fields);
      FieldsOf(tokens[1..], next)
  }

  method ParseFields(tokens: seq<string>) returns (r: Parsed<map<string, string>>)
    ensures r == FieldsOf(tokens, map[])
  {
    var fields: map<string, string> := map[];
    var i := 0;
    while i < |tokens|
      invariant 0 <= i <= |tokens|
      invariant FieldsOf(tokens, map[]) == FieldsOf(tokens[i..], fields)
    {
      var token := Strip(tokens[i]);
      assert tokens[i..][1..] == tokens[i + 1..];
      if token != "" {
        var kv := Partition(token, '=');
        if kv.None? {
          return Bad(NotKeyValue);
        }
        fields := fields[Upper(Strip(kv.value.0)) := Strip(kv.value.1)];
      }
      i := i + 1;
    }
    return Fine(fields);
  }

  function IntsOf(part: string, items: seq<string>): Parsed<seq<int>> {
    if items == [] then Fine([])
    else match ParseInt(items[0])
      case None => Bad(NotAnInteger(part))
      case Some(n) =>
        var rest :- IntsOf(part, items[1..]);
        Fine([n] + rest)
  }

  /** The list so far followed by the rest, unless the rest is bad. */
  function Prepend<T>(out: seq<T>, rest: Parsed<seq<T>>): (r: Parsed<seq<T>>)
    ensures out == [] ==> r == rest
  {
    assert rest.Fine? && out == [] ==> out + rest.value == rest.value;
    if rest.Fine? then Fine(out + rest.value) else rest
  }

  method ParseInts(part: string, value: string) returns (r: Parsed<seq<int>>)
    ensures r == IntsOf(part, Split(value, ','))
  {
    var items, out, i := Split(value, ','), [], 0;
    assert items[i..] == items;
    while i < |items|
      invariant 0 <= i <= |items|
      invariant IntsOf(part, items) == Prepend(out, IntsOf(part, items[i..]))
    {
      var n := ParseInt(items[i]);
      assert items[i..][1..] == items[i + 1..];
      if n.None? {
        return Bad(NotAnInteger(part));
      }
      ghost var rest := IntsOf(part, items[i + 1..]);
      assert rest.Fine? ==> out + ([n.value] + rest.value) == out + [n.value] + rest.value;
      out := out + [n.value];
      i := i + 1;
    }
    assert items[i..] == [] && out + [] == out;
    return Fine(out);
  }

  function WeekdayCode(d: Weekday): (c: string)
    ensures |c| == 2
  {
    match d case SU => "SU" case MO => "MO" case TU => "TU" case WE => "WE" case TH => "TH" case FR => "FR" case SA => "SA"
  }

  function WeekdayOfCode(c: string): Option<Weekday> {
    if c == "SU" then Some(SU) else if c == "MO" then Some(MO) else if c == "TU" then Some(TU)
    else if c == "WE" then Some(WE) else if c == "TH" then Some(TH) else if c == "FR" then Some(FR)
    else if c == "SA" then Some(SA) else None
  }

  /** An optional sign and at least one digit. */
  predicate IsSignedDigits(s: string) {
    var digits := if s != "" && (s[0] == '+' || s[0] == '-') then s[1..] else s;
    digits != "" && forall c :: c in digits ==> IsDigit(c)
  }

  /** One BYDAY item: an optional ordinal and two letters. */
  function DayOf(item: string): Parsed<WeekdayNum> {
    var s := Strip(item);
    if |s| < 2 then Bad(BadWeekday)
    else
      var (number, code) := (s[..|s| - 2], s[|s| - 2..]);
      if !IsLetter(code[0]) || !IsLetter(code[1]) || (number != "" && !IsSignedDigits(number)) then Bad(BadWeekday)
      else match WeekdayOfCode(Upper(code))
        case None => Bad(BadWeekday)
        case Some(d) =>
          if number == "" then Fine(WeekdayNum(0, d))
          else match ParseInt(number)
            case None => Bad(BadWeekday)
            case Some(n) => if n == 0 then Bad(BadWeekday) else Fine(WeekdayNum(n, d))
  }

  function DaysOf(items: seq<string>): Parsed<seq<WeekdayNum>> {
    if items == [] then Fine([])
    else
      var d :- DayOf(items[0]);
      var rest :- DaysOf(items[1..]);
      Fine([d] + rest)
  }

  method ParseByDay(value: string) returns (r: Parsed<seq<WeekdayNum>>)
    ensures r == DaysOf(Split(value, ','))
  {
    var items, out, i := Split(value, ','), [], 0;
    assert items[i..] == items;
    while i < |items|
      invariant 0 <= i <= |items|
      invariant DaysOf(items) == Prepend(out, DaysOf(items[i..]))
    {
      var d := DayOf(items[i]);
      assert items[i..][1..] == items[i + 1..];
      if d.Bad? {
        return Bad(d.error);
      }
      ghost var rest := DaysOf(items[i + 1..]);
      assert rest.Fine? ==> out + ([d.value] + rest.value) == out + [d.value] + rest.value;
      out := out + [d.value];
      i := i + 1;
    }
    assert items[i..] == [] && out + [] == out;
    return Fine(out);
  }

  predicate IsLeap(y: int) { y % 4 == 0 && (y % 100 != 0 || y % 400 == 0) }

  function MonthSize(y: int, m: int): int {
    if m == 2 then (if IsLeap(y) then 29 else 28) else if m == 4 || m == 6 || m == 9 || m == 11 then 30 else 31
  }

  predicate IsDate(y: int, m: int, d: int) { 1 <= y <= 9999 && 1 <= m <= 12 && 1 <= d <= MonthSize(y, m) }

  function Digits(s: string): Option<int> {
    if s != "" && forall c :: c in s ==> IsDigit(c) then ParseDigits(s, 0, false) else None
  }

  const END_OF_DAY: nat := 86399

  /** UNTIL as a date alone (`YYYYMMDD`): the last second of that day. */
  function UntilOf(value: string): Parsed<Moment> {
    var s := Strip(value);
    if |s| != 8 then Bad(BadUntil)
    else match (Digits(s[..4]), Digits(s[4..6]), Digits(s[6..]))
      case (Some(y), Some(m), Some(d)) => if IsDate(y, m, d) then Fine(Moment(y, m, d, END_OF_DAY)) else Bad(BadUntil)
      case _ => Bad(BadUntil)
  }

  function FrequencyOf(name: string): Option<Frequency> {
    var n := Upper(name);
    if n == "DAILY" then Some(Daily) else if n == "WEEKLY" then Some(Weekly)
    else if n == "MONTHLY" then Some(Monthly) else if n == "YEARLY" then Some(Yearly) else None
  }

  function IntField(fields: map<string, string>, part: string): Parsed<Option<int>> {
    if part !in fields then Fine(None)
    else match ParseInt(fields[part])
      case None => Bad(NotAnInteger(part))
      case Some(n) => Fine(Some(n))
  }

  function ByInts(fields: map<string, string>, part: string): Parsed<seq<int>> {
    if part in fields then IntsOf(part, Split(fields[part], ',')) else Fine([])
  }

  function ByDay(fields: map<string, string>): Parsed<seq<WeekdayNum>> {
    if "BYDAY" in fields then DaysOf(Split(fields["BYDAY"], ',')) else Fine([])
  }

  function UntilField(fields: map<string, string>): Parsed<Option<Moment>> {
    if "UNTIL" !in fields then Fine(None)
    else
      var u :- UntilOf(fields["UNTIL"]);
      Fine(Some(u))
  }

  /** The rule a dictionary of parts describes. */
  function RuleOf(fields: map<string, string>): Parsed<Rule> {
    if exists k :: k in fields && k in REJECTED then Bad(RefusedPart)
    else if exists k :: k in fields && k !in SUPPORTED then Bad(UnsupportedPart)
    else match FrequencyOf(if "FREQ" in fields then fields["FREQ"] else "")
      case None => Bad(BadFrequency)
      case Some(freq) =>
        var interval :- IntField(fields, "INTERVAL");
        if "COUNT" in fields && "UNTIL" in fields then Bad(CountAndUntil)
        else
          var count :- IntField(fields, "COUNT");
          var until :- UntilField(fields);
          var byday :- ByDay(fields);
          var bymonthday :- ByInts(fields, "BYMONTHDAY");
          var bymonth :- ByInts(fields, "BYMONTH");
          var byyearday :- ByInts(fields, "BYYEARDAY");
          var bysetpos :- ByInts(fields, "BYSETPOS");
          Construct(Rule(freq, if interval.Some? then interval.value else 1, count, until,
                         byday, bymonthday, bymonth, byyearday, bysetpos))
  }

  function Body(text: string): string {
    var s := Strip(text);
    if |s| >= 6 && Upper(s[..6]) == "RRULE:" then s[6..] else s
  }

  /** `Recurrence.from_rrule` */
  function FromRrule(text: string): Parsed<Rule> {
    var fields :- FieldsOf(Split(Body(text), ';'), map[]);
    RuleOf(fields)
  }

  method ByIntsField(fields: map<string, string>, part: string) returns (r: Parsed<seq<int>>)
    ensures r == ByInts(fields, part)
  {
    if part in fields {
      r := ParseInts(part, fields[part]);
    } else {
      r := Fine([]);
    }
  }

  /** `from_rrule`, loop by loop. */
  method ParseRrule(text: string) returns (r: Parsed<Rule>)
    ensures r == FromRrule(text)
  {
    var fields :- ParseFields(Split(Body(text), ';'));
    if (exists k :: k in fields && k in REJECTED) || (exists k :: k in fields && k !in SUPPORTED) {
      return RuleOf(fields);
    }
    var freq := FrequencyOf(if "FREQ" in fields then fields["FREQ"] else "");
    if freq.None? {
      return Bad(BadFrequency);
    }
    var interval :- IntField(fields, "INTERVAL");
    if "COUNT" in fields && "UNTIL" in fields {
      return Bad(CountAndUntil);
    }
    var count :- IntField(fields, "COUNT");
    var until :- UntilField(fields);
    var byday := [];
    if "BYDAY" in fields {
      byday :- ParseByDay(fields["BYDAY"]);
    }
    var bymonthday :- ByIntsField(fields, "BYMONTHDAY");
    var bymonth :- ByIntsField(fields, "BYMONTH");
    var byyearday :- ByIntsField(fields, "BYYEARDAY");
    var bysetpos :- ByIntsField(fields, "BYSETPOS");
    return Construct(Rule(freq.value, if interval.Some? then interval.value else 1, count, until,
                          byday, bymonthday, bymonth, byyearday, bysetpos));
  }

  // ---------------------------------------------------------------- the native rule and its text

  datatype NativeEnd = NoEnd | AfterCount(n: int) | OnDate(at: Moment)

  /** EventKit's rule: frequency 0 to 3, weekdays numbered from Sunday = 1. */
  datatype Native = Native(
    freq: nat, interval: int, days: seq<(nat, int)>, monthDays: seq<int>, months: seq<int>, yearDays: seq<int>,
    positions: seq<int>, end: NativeEnd)

  function FrequencyNumber(f: Frequency): nat {
    match f case Daily => 0 case Weekly => 1 case Monthly => 2 case Yearly => 3
  }

  function FrequencyName(n: nat): string
    requires n < 4
  {
    ["DAILY", "WEEKLY", "MONTHLY", "YEARLY"][n]
  }

  function WeekdayNumber(d: Weekday): nat {
    match d case SU => 1 case MO => 2 case TU => 3 case WE => 4 case TH => 5 case FR => 6 case SA => 7
  }

  function CodeOfNumber(n: nat): Weekday
    requires 1 <= n <= 7
  {
    [SU, MO, TU, WE, TH, FR, SA][n - 1]
  }

  function NativeDays(days: seq<WeekdayNum>): seq<(nat, int)> {
    seq(|days|, i requires 0 <= i < |days| => (WeekdayNumber(days[i].day), days[i].ordinal))
  }

  /** `to_recurrence_rule` */
  function ToNative(r: Rule): Native {
    Native(FrequencyNumber(r.freq), r.interval, NativeDays(r.byday), r.bymonthday, r.bymonth, r.byyearday, r.bysetpos,
           if r.count.Some? then AfterCount(r.count.value) else if r.until.Some? then OnDate(r.until.value) else NoEnd)
  }

  function DaysBack(days: seq<(nat, int)>): seq<WeekdayNum>
    requires forall d :: d in days ==> 1 <= d.0 <= 7
  {
    seq(|days|, i requires 0 <= i < |days| => assert days[i] in days; WeekdayNum(days[i].1, CodeOfNumber(days[i].0)))
  }

  function FourDigits(n: nat): string
    requires n < 10000
  {
    [DigitChar(n / 1000), DigitChar(n / 100 % 10), DigitChar(n / 10 % 10), DigitChar(n % 10)]
  }

  function TwoDigits(n: nat): string
    requires n < 100
  {
    [DigitChar(n / 10), DigitChar(n % 10)]
  }

  /** `strftime("%Y%m%d")` */
  function DateText(m: Moment): string
    requires 0 <= m.year < 10000 && 0 <= m.month < 100 && 0 <= m.day < 100
  {
    FourDigits(m.year) + TwoDigits(m.month) + TwoDigits(m.day)
  }

  function DayText(d: WeekdayNum): string {
    (if d.ordinal == 0 then "" else IntText(d.ordinal)) + WeekdayCode(d.day)
  }

  function DayTexts(days: seq<WeekdayNum>): (ts: seq<string>)
    ensures |ts| == |days| && forall i :: 0 <= i < |days| ==> ts[i] == DayText(days[i])
  {
    seq(|days|, i requires 0 <= i < |days| => DayText(days[i]))
  }

  function IntTexts(ns: seq<int>): (ts: seq<string>)
    ensures |ts| == |ns| && forall i :: 0 <= i < |ns| ==> ts[i] == IntText(ns[i])
  {
    seq(|ns|, i requires 0 <= i < |ns| => IntText(ns[i]))
  }

  predicate DatedWell(n: Native) { n.end.OnDate? ==> IsDate(n.end.at.year, n.end.at.month, n.end.at.day) }

  type Part = (string, string)

  /** One list part, left out when the list is empty; the list is printed sorted. */
  function ListPart(key: string, ns: seq<int>): seq<Part> {
    if ns == [] then [] else [(key, Join(IntTexts(Sort(ns, IntKey)), ','))]
  }

  function CountPart(end: NativeEnd): seq<Part> {
    if end.AfterCount? && end.n > 0 then [("COUNT", IntText(end.n))] else []
  }

  function UntilPart(end: NativeEnd): seq<Part>
    requires end.OnDate? ==> IsDate(end.at.year, end.at.month, end.at.day)
  {
    if end.OnDate? then [("UNTIL", DateText(end.at))] else []
  }

  /** The parts in the order `rrule_text` appends them, each list holding the part or nothing. */
  function Groups(n: Native): seq<seq<Part>>
    requires n.freq < 4 && (forall d :: d in n.days ==> 1 <= d.0 <= 7) && DatedWell(n)
  {
    [[("FREQ", FrequencyName(n.freq))], [("INTERVAL", IntText(n.interval))],
     if n.days == [] then [] else [("BYDAY", Join(DayTexts(Sort(DaysBack(n.days), DayKey)), ','))],
     ListPart("BYMONTHDAY", n.monthDays), ListPart("BYMONTH", n.months),
     ListPart("BYYEARDAY", n.yearDays), ListPart("BYSETPOS", n.positions), CountPart(n.end), UntilPart(n.end)]
  }

  function Concat(groups: seq<seq<Part>>): seq<Part> {
    if groups == [] then [] else groups[0] + Concat(groups[1..])
  }

  function PartTexts(ps: seq<Part>): (ts: seq<string>)
    ensures |ts| == |ps| && forall i :: 0 <= i < |ps| ==> ts[i] == ps[i].0 + "=" + ps[i].1
  {
    seq(|ps|, i requires 0 <= i < |ps| => ps[i].0 + "=" + ps[i].1)
  }

  /** `rrule_text` */
  function RruleText(n: Native): string
    requires n.freq < 4 && (forall d :: d in n.days ==> 1 <= d.0 <= 7) && DatedWell(n)
  {
    Join(PartTexts(Concat(Groups(n))), ';')
  }
}
