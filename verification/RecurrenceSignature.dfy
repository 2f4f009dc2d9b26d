/**
 Printing a stored rule, and the signatures `eventkit.py` compares after a write: a match
 means the stored rule is the one asked for, and its text parses back to it.
 */
module RecurrenceSignature {
  import opened Prelude
  import opened Sorting
  import opened Strings
  import opened Recurrence
  import opened RecurrenceRoundTrip

  /** Frequencies, weekdays and dates as EventKit gives them. */
  predicate Numbered(n: Native) { n.freq < 4 && (forall d :: d in n.days ==> 1 <= d.0 <= 7) && DatedWell(n) }

  // ---------------------------------------------------------------- the printing loop

  lemma PartTextsSnoc(ps: seq<Part>, p: Part)
    ensures PartTexts(ps + [p]) == PartTexts(ps) + [p.0 + "=" + p.1]
  {
  }

  lemma ConcatStep(groups: seq<seq<Part>>, k: nat)
    requires k < |groups|
    ensures Concat(groups[..k + 1]) == Concat(groups[..k]) + groups[k]
  {
    ConcatSplit(groups[..k + 1], k);
    assert groups[..k + 1][..k] == groups[..k] && groups[..k + 1][k + 1..] == [];
  }

  /** One part, if its group has one, put after the parts of the groups before it. */
  method AppendPart(parts: seq<string>, ghost groups: seq<seq<Part>>, ghost k: nat, key: string, value: string, there: bool) returns (out: seq<string>)
    requires k < |groups| && groups[k] == if there then [(key, value)] else []
    requires parts == PartTexts(Concat(groups[..k]))
    ensures out == PartTexts(Concat(groups[..k + 1]))
  {
    hide PartTexts, Concat;
    out := parts;
    ConcatStep(groups, k);
    assert Concat(groups[..k]) + [] == Concat(groups[..k]);
    if there {
      PartTextsSnoc(Concat(groups[..k]), (key, value));
      out := out + [key + "=" + value];
    }
  }

  lemma HeadParts(groups: seq<seq<Part>>, name: string, interval: string)
    requires |groups| >= 2 && groups[0] == [("FREQ", name)] && groups[1] == [("INTERVAL", interval)]
    ensures PartTexts(Concat(groups[..2])) == ["FREQ=" + name, "INTERVAL=" + interval]
  {
    ConcatStep(groups, 0);
    ConcatStep(groups, 1);
    assert groups[..0] == [];
    var ts := PartTexts([("FREQ", name)] + [("INTERVAL", interval)]);
    assert "FREQ" + "=" == "FREQ=" && "INTERVAL" + "=" == "INTERVAL=";
    assert |ts| == 2 && ts[0] == "FREQ" + "=" + name && ts[1] == "INTERVAL" + "=" + interval;
  }

  /** `rrule_text` */
  method PrintRrule(n: Native) returns (text: string)
    requires Numbered(n)
    ensures text == RruleText(n)
  {
    hide Join, Sort, DateText, IntText, DayTexts, IntTexts, Concat, PartTexts, DaysBack;
    ghost var groups := Groups(n);
    var parts := ["FREQ=" + FrequencyName(n.freq), "INTERVAL=" + IntText(n.interval)];
    HeadParts(groups, FrequencyName(n.freq), IntText(n.interval));
    parts := AppendPart(parts, groups, 2, "BYDAY", Join(DayTexts(Sort(DaysBack(n.days), DayKey)), ','), n.days != []);
    var lists := [("BYMONTHDAY", n.monthDays), ("BYMONTH", n.months), ("BYYEARDAY", n.yearDays), ("BYSETPOS", n.positions)];
    var i := 0;
    while i < |lists|
      invariant 0 <= i <= |lists| && parts == PartTexts(Concat(groups[..3 + i]))
    {
      var (key, ns) := lists[i];
      assert groups[3 + i] == ListPart(key, ns);
      parts := AppendPart(parts, groups, 3 + i, key, Join(IntTexts(Sort(ns, IntKey)), ','), ns != []);
      i := i + 1;
    }
    var counted := n.end.AfterCount? && n.end.n > 0;
    parts := AppendPart(parts, groups, 7, "COUNT", if counted then IntText(n.end.n) else "", counted);
    parts := AppendPart(parts, groups, 8, "UNTIL", if n.end.OnDate? then DateText(n.end.at) else "", n.end.OnDate?);
    assert groups[..9] == groups;
    text := Join(parts, ';');
  }

  // ---------------------------------------------------------------- signatures

  /** The comparable shape of a rule; `until` is a day, or None when days are not compared. */
  datatype Signature = Signature(
    freq: nat, interval: int, byday: seq<WeekdayNum>, bymonthday: seq<int>, bymonth: seq<int>, byyearday: seq<int>,
    bysetpos: seq<int>, count: int, until: Option<string>)

  /** `_canonical` */
  function Shape(freq: nat, interval: int, byday: seq<WeekdayNum>, bymonthday: seq<int>, bymonth: seq<int>,
                 byyearday: seq<int>, bysetpos: seq<int>, count: int, until: Option<string>): Signature
  {
    Signature(freq, interval, Sort(byday, DayKey), Sort(bymonthday, IntKey), Sort(bymonth, IntKey), Sort(byyearday, IntKey),
              Sort(bysetpos, IntKey), count, until)
  }

  /** `recurrence_signature` */
  function Requested(r: Rule, includeUntil: bool): Signature
    requires Dated(r)
  {
    Shape(FrequencyNumber(r.freq), r.interval, r.byday, r.bymonthday, r.bymonth, r.byyearday, r.bysetpos,
          if r.count.Some? then r.count.value else 0,
          if includeUntil && r.until.Some? then Some(DateText(r.until.value)) else None)
  }

  /** `persisted_recurrence_signature` of the first rule. */
  function Persisted(n: Native, includeUntil: bool): Signature
    requires Numbered(n)
  {
    Shape(n.freq, n.interval, DaysBack(n.days), n.monthDays, n.months, n.yearDays, n.positions,
          if n.end.AfterCount? then n.end.n else 0,
          if includeUntil && n.end.OnDate? then Some(DateText(n.end.at)) else None)
  }

  predicate SameDay(a: Moment, b: Moment) { a.year == b.year && a.month == b.month && a.day == b.day }

  /** The stored rule ends as the request asks, its end date to the day. */
  predicate EndsAlike(r: Rule, n: Native) {
    && (r.count.Some? <==> n.end.AfterCount? && n.end.n != 0) && (r.count.Some? ==> n.end.n == r.count.value)
    && (r.until.Some? <==> n.end.OnDate?) && (r.until.Some? ==> SameDay(r.until.value, n.end.at))
  }

  /** The stored lists are the requested ones, in any order. */
  ghost predicate ListsAlike(r: Rule, n: Native)
    requires Numbered(n)
  {
    && multiset(DaysBack(n.days)) == multiset(r.byday)
    && multiset(n.monthDays) == multiset(r.bymonthday) && multiset(n.months) == multiset(r.bymonth)
    && multiset(n.yearDays) == multiset(r.byyearday) && multiset(n.positions) == multiset(r.bysetpos)
  }

  lemma SortsAlike<T(!new)>(s: seq<T>, t: seq<T>, key: T -> int)
    requires StrictlySorted(t, key) && forall a, b :: key(a) == key(b) ==> a == b
    ensures Sort(s, key) == Sort(t, key) <==> multiset(s) == multiset(t)
  {
    SortSorts(s, key);
    SortSorts(t, key);
    SortedBack(t, t, key);
    if multiset(s) == multiset(t) { SortedBack(s, t, key); }
  }

  lemma ListsMatchExactly(r: Rule, n: Native)
    requires SortedParts(r) && Numbered(n)
    ensures ListsAlike(r, n) <==>
      && Sort(DaysBack(n.days), DayKey) == Sort(r.byday, DayKey) && Sort(n.monthDays, IntKey) == Sort(r.bymonthday, IntKey)
      && Sort(n.months, IntKey) == Sort(r.bymonth, IntKey) && Sort(n.yearDays, IntKey) == Sort(r.byyearday, IntKey)
      && Sort(n.positions, IntKey) == Sort(r.bysetpos, IntKey)
  {
    hide Sort, StrictlySorted;
    KeysAreInjective();
    SortsAlike(DaysBack(n.days), r.byday, DayKey);
    SortsAlike(n.monthDays, r.bymonthday, IntKey);
    SortsAlike(n.months, r.bymonth, IntKey);
    SortsAlike(n.yearDays, r.byyearday, IntKey);
    SortsAlike(n.positions, r.bysetpos, IntKey);
  }

  lemma SameTextSameDay(a: Moment, b: Moment)
    requires IsDate(a.year, a.month, a.day) && IsDate(b.year, b.month, b.day)
    ensures DateText(a) == DateText(b) <==> SameDay(a, b)
  {
    UntilRoundTrip(a);
    UntilRoundTrip(b);
    hide UntilOf;
    if SameDay(a, b) { assert DateText(a) == DateText(b); }
  }

  lemma ValidEnds(r: Rule)
    requires Valid(r)
    ensures !(r.count.Some? && r.until.Some?) && (r.count.Some? ==> r.count.value >= 1)
  {
  }

  /** The stored rule ends as the request asks, its end date compared only when days are. */
  predicate EndsCompared(r: Rule, n: Native, includeUntil: bool) {
    if includeUntil then EndsAlike(r, n)
    else (r.count.Some? <==> n.end.AfterCount? && n.end.n != 0) && (r.count.Some? ==> n.end.n == r.count.value)
  }

  lemma EndsMatchExactly(r: Rule, n: Native, includeUntil: bool)
    requires Valid(r) && Dated(r) && Numbered(n)
    ensures EndsCompared(r, n, includeUntil) <==>
      && Requested(r, includeUntil).count == Persisted(n, includeUntil).count
      && Requested(r, includeUntil).until == Persisted(n, includeUntil).until
  {
    ValidEnds(r);
    hide Sort, DateText, Valid;
    if r.until.Some? && n.end.OnDate? { SameTextSameDay(r.until.value, n.end.at); }
  }

  /** Verify-after-write is exact, with and without days: the signatures are equal if and only if
      the stored rule has the requested frequency, interval, lists in any order, and end. */
  lemma SignaturesMatchExactly(r: Rule, n: Native, includeUntil: bool)
    requires Valid(r) && Dated(r) && Numbered(n)
    ensures Requested(r, includeUntil) == Persisted(n, includeUntil)
      <==> n.freq == FrequencyNumber(r.freq) && n.interval == r.interval && ListsAlike(r, n) && EndsCompared(r, n, includeUntil)
  {
    hide Sort, DateText, SortedParts, Construct, ListsAlike, EndsCompared;
    ListsMatchExactly(r, n);
    EndsMatchExactly(r, n, includeUntil);
  }

  /** A verified write reads back: when the signatures match, the stored rule's text parses
      to the requested rule in every part, the end date to the day. */
  lemma MatchedRuleReadsBack(r: Rule, n: Native)
    requires Valid(r) && Dated(r) && Numbered(n) && Requested(r, true) == Persisted(n, true)
    ensures FromRrule(RruleText(n)) == Fine(ToTheDay(r))
  {
    hide FromRrule, RruleText, Requested, Persisted, Valid;
    SignaturesMatchExactly(r, n, true);
    var stored := n.(end := ToNative(r).end);
    EndPrintsAlike(r, n);
    PrintThenParse(r, stored);
  }

  lemma EndPrintsAlike(r: Rule, n: Native)
    requires Valid(r) && Dated(r) && Numbered(n) && EndsAlike(r, n)
    ensures Numbered(n.(end := ToNative(r).end)) && RruleText(n) == RruleText(n.(end := ToNative(r).end))
  {
    ValidEnds(r);
    hide Valid, Sort, Join, PartTexts, Concat;
    assert CountPart(n.end) == CountPart(ToNative(r).end) && UntilPart(n.end) == UntilPart(ToNative(r).end);
    assert Groups(n) == Groups(n.(end := ToNative(r).end));
  }
}
