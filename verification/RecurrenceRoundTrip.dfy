/** Printing a stored rule and parsing the text gives the rule back. */
module RecurrenceRoundTrip {
  import opened Prelude
  import opened Sorting
  import opened Strings
  import opened Recurrence

  /** The rule with its end date kept to the day, which is all the text carries. */
  function ToTheDay(r: Rule): Rule {
    if r.until.Some? then r.(until := Some(r.until.value.(second := END_OF_DAY))) else r
  }

  ghost predicate Dated(r: Rule) {
    r.until.Some? ==> IsDate(r.until.value.year, r.until.value.month, r.until.value.day)
  }

  /** `n` is the native rule built from `r`, its lists handed back in any order. */
  ghost predicate StoredAs(r: Rule, n: Native) {
    && n.freq == FrequencyNumber(r.freq) && n.interval == r.interval && n.end == ToNative(r).end
    && (forall d :: d in n.days ==> 1 <= d.0 <= 7)
    && multiset(DaysBack(n.days)) == multiset(r.byday)
    && multiset(n.monthDays) == multiset(r.bymonthday) && multiset(n.months) == multiset(r.bymonth)
    && multiset(n.yearDays) == multiset(r.byyearday) && multiset(n.positions) == multiset(r.bysetpos)
  }

  /** What `to_recurrence_rule` builds is stored as the rule it was built from. */
  lemma BuiltIsStored(r: Rule)
    ensures StoredAs(r, ToNative(r))
  {
    var days := NativeDays(r.byday);
    forall d | d in days ensures 1 <= d.0 <= 7 {
      var i :| 0 <= i < |days| && days[i] == d;
    }
    assert forall i :: 0 <= i < |r.byday| ==> DaysBack(days)[i] == r.byday[i];
    assert DaysBack(days) == r.byday;
  }

  // ---------------------------------------------------------------- one value at a time

  /** A value with nothing to strip and no separator of the rule text. */
  ghost predicate Plain(v: string) { v != "" && forall c :: c in v ==> !IsSpace(c) && c != ';' }

  lemma IntsOfStep(part: string, item: string, items: seq<string>, n: int, ns: seq<int>)
    requires ParseInt(item) == Some(n) && IntsOf(part, items) == Fine(ns)
    ensures IntsOf(part, [item] + items) == Fine([n] + ns)
  {
    assert ([item] + items)[1..] == items;
  }

  lemma {:induction false} IntsOfTexts(part: string, ns: seq<int>)
    ensures IntsOf(part, IntTexts(ns)) == Fine(ns)
  {
    if ns != [] {
      ParseIntText(ns[0]);
      IntsOfTexts(part, ns[1..]);
      IntsOfStep(part, IntText(ns[0]), IntTexts(ns[1..]), ns[0], ns[1..]);
      assert IntTexts(ns) == [IntText(ns[0])] + IntTexts(ns[1..]);
      assert ns == [ns[0]] + ns[1..];
    }
  }

  lemma IntListRoundTrip(part: string, ns: seq<int>)
    requires ns != []
    ensures var v := Join(IntTexts(ns), ','); Plain(v) && IntsOf(part, Split(v, ',')) == Fine(ns)
  {
    var ts := IntTexts(ns);
    forall t | t in ts ensures Plain(t) && ',' !in t {
      var i :| 0 <= i < |ts| && ts[i] == t;
      ParseIntText(ns[i]);
    }
    SplitJoin(ts, ',');
    JoinIsPlain(ts);
    IntsOfTexts(part, ns);
  }

  lemma JoinIsPlain(ts: seq<string>)
    requires ts != [] && forall t :: t in ts ==> Plain(t)
    ensures Plain(Join(ts, ','))
  {
    JoinMembers(ts, ',');
    assert ts[0] in ts;
  }

  lemma UpperIsIdentity(s: string)
    requires forall c :: c in s ==> !('a' <= c <= 'z')
    ensures Upper(s) == s
  {
    assert forall i :: 0 <= i < |s| ==> s[i] in s;
  }

  lemma CodeRoundTrip(d: Weekday)
    ensures var c := WeekdayCode(d); |c| == 2 && IsLetter(c[0]) && IsLetter(c[1]) && WeekdayOfCode(Upper(c)) == Some(d)
  {
    UpperIsIdentity(WeekdayCode(d));
  }

  /** A BYDAY item cut where the parser cuts it. */
  lemma DayOfCut(number: string, d: Weekday)
    requires number == "" || (IsSignedDigits(number) && !IsSpace(number[0]))
    ensures DayOf(number + WeekdayCode(d)) ==
      if number == "" then Fine(WeekdayNum(0, d))
      else if ParseInt(number).None? || ParseInt(number).value == 0 then Bad(BadWeekday)
      else Fine(WeekdayNum(ParseInt(number).value, d))
  {
    var code := WeekdayCode(d);
    var s := number + code;
    CodeRoundTrip(d);
    assert s[|s| - 1] == code[1] && (if number == "" then s[0] == code[0] else s[0] == number[0]);
    StripIsIdentity(s);
    assert s[..|s| - 2] == number && s[|s| - 2..] == code;
  }

  lemma OrdinalText(n: int)
    requires n != 0
    ensures IsSignedDigits(IntText(n)) && !IsSpace(IntText(n)[0])
  {
    var s := IntText(n);
    if n < 0 {
      assert s[1..] == NatText(-n);
    } else {
      assert s[0] in s;
    }
  }

  lemma DayRoundTrip(d: WeekdayNum)
    ensures Plain(DayText(d)) && ',' !in DayText(d) && DayOf(DayText(d)) == Fine(d)
  {
    var code := WeekdayCode(d.day);
    assert forall c :: c in code ==> 'A' <= c <= 'Z';
    if d.ordinal == 0 {
      DayOfCut("", d.day);
    } else {
      OrdinalText(d.ordinal);
      ParseIntText(d.ordinal);
      DayOfCut(IntText(d.ordinal), d.day);
    }
  }

  lemma DaysOfStep(item: string, items: seq<string>, d: WeekdayNum, ds: seq<WeekdayNum>)
    requires DayOf(item) == Fine(d) && DaysOf(items) == Fine(ds)
    ensures DaysOf([item] + items) == Fine([d] + ds)
  {
    assert ([item] + items)[1..] == items;
  }

  lemma DaysOfNone()
    ensures DaysOf(DayTexts([])) == Fine([])
  {
  }

  lemma {:induction false} DaysOfTexts(ds: seq<WeekdayNum>)
    ensures DaysOf(DayTexts(ds)) == Fine(ds)
  {
    hide DaysOf, DayOf, DayText;
    if ds == [] {
      DaysOfNone();
    } else {
      DayRoundTrip(ds[0]);
      DaysOfTexts(ds[1..]);
      DaysOfStep(DayText(ds[0]), DayTexts(ds[1..]), ds[0], ds[1..]);
      assert DayTexts(ds) == [DayText(ds[0])] + DayTexts(ds[1..]);
      assert ds == [ds[0]] + ds[1..];
    }
  }

  lemma DayListRoundTrip(ds: seq<WeekdayNum>)
    requires ds != []
    ensures var v := Join(DayTexts(ds), ','); Plain(v) && DaysOf(Split(v, ',')) == Fine(ds)
  {
    var ts := DayTexts(ds);
    forall t | t in ts ensures Plain(t) && ',' !in t {
      var i :| 0 <= i < |ts| && ts[i] == t;
      DayRoundTrip(ds[i]);
    }
    SplitJoin(ts, ',');
    JoinIsPlain(ts);
    DaysOfTexts(ds);
  }

  lemma FourDigitsRoundTrip(n: nat)
    requires n < 10000
    ensures Digits(FourDigits(n)) == Some(n)
  {
    var (a, b, c, d) := (n / 1000, n / 100 % 10, n / 10 % 10, n % 10);
    var none := "";
    assert FourDigits(n) == [DigitChar(a)] + ([DigitChar(b)] + ([DigitChar(c)] + ([DigitChar(d)] + none)));
    DigitStep(d, none, n / 10, true);
    DigitStep(c, [DigitChar(d)] + none, n / 100, true);
    DigitStep(b, [DigitChar(c)] + ([DigitChar(d)] + none), n / 1000, true);
    DigitStep(a, [DigitChar(b)] + ([DigitChar(c)] + ([DigitChar(d)] + none)), 0, false);
    DecimalSteps(n);
  }

  lemma DecimalSteps(n: nat)
    ensures n == n / 10 * 10 + n % 10
    ensures n / 10 == n / 100 * 10 + n / 10 % 10
    ensures n / 100 == n / 1000 * 10 + n / 100 % 10
  {
  }

  lemma DigitStep(d: int, rest: string, acc: int, prev: bool)
    requires 0 <= d < 10
    ensures ParseDigits([DigitChar(d)] + rest, acc, prev) == ParseDigits(rest, acc * 10 + d, true)
  {
    assert ([DigitChar(d)] + rest)[1..] == rest;
  }

  lemma TwoDigitsRoundTrip(n: nat)
    requires n < 100
    ensures Digits(TwoDigits(n)) == Some(n)
  {
    var none := "";
    assert TwoDigits(n) == [DigitChar(n / 10)] + ([DigitChar(n % 10)] + none);
    DigitStep(n % 10, none, n / 10, true);
    DigitStep(n / 10, [DigitChar(n % 10)] + none, 0, false);
    DecimalSteps(n);
  }

  lemma UntilRoundTrip(m: Moment)
    requires IsDate(m.year, m.month, m.day)
    ensures Plain(DateText(m)) && UntilOf(DateText(m)) == Fine(m.(second := END_OF_DAY))
  {
    var s := DateText(m);
    StripIsIdentity(s);
    assert s[..4] == FourDigits(m.year) && s[4..6] == TwoDigits(m.month) && s[6..] == TwoDigits(m.day);
    FourDigitsRoundTrip(m.year);
    TwoDigitsRoundTrip(m.month);
    TwoDigitsRoundTrip(m.day);
  }

  // ---------------------------------------------------------------- the dictionary

  ghost predicate PlainPart(p: Part) {
    p.0 != "" && (forall c :: c in p.0 ==> 'A' <= c <= 'Z') && Plain(p.1)
  }

  function MapOf(ps: seq<Part>): map<string, string> {
    if ps == [] then map[] else map[ps[0].0 := ps[0].1] + MapOf(ps[1..])
  }

  lemma {:induction false} MapOfConcat(a: seq<Part>, b: seq<Part>)
    ensures MapOf(a + b) == MapOf(a) + MapOf(b)
  {
    if a == [] {
      assert a + b == b;
    } else {
      MapOfConcat(a[1..], b);
      var c := a + b;
      assert c[0] == a[0] && c[1..] == a[1..] + b;
      MergeAssociates(map[a[0].0 := a[0].1], MapOf(a[1..]), MapOf(b));
    }
  }

  lemma MergeAssociates(a: map<string, string>, b: map<string, string>, c: map<string, string>)
    ensures a + (b + c) == (a + b) + c
  {
  }

  lemma TokenRoundTrip(p: Part, fields: map<string, string>)
    requires PlainPart(p)
    ensures AddToken(p.0 + "=" + p.1, fields) == Fine(fields[p.0 := p.1])
    ensures ';' !in p.0 + "=" + p.1 && Plain(p.0 + "=" + p.1)
  {
    var t := p.0 + "=" + p.1;
    assert p.0[0] in p.0 && p.0[|p.0| - 1] in p.0 && p.1[0] in p.1 && p.1[|p.1| - 1] in p.1;
    assert t[0] == p.0[0] && t[|t| - 1] == p.1[|p.1| - 1];
    StripIsIdentity(t);
    StripIsIdentity(p.0);
    StripIsIdentity(p.1);
    PartitionAtFirst(p.0, '=', p.1);
    assert p.0 + ['='] + p.1 == t;
    UpperIsIdentity(p.0);
  }

  lemma {:induction false} FieldsRoundTrip(ps: seq<Part>, fields: map<string, string>)
    requires forall p :: p in ps ==> PlainPart(p)
    ensures FieldsOf(PartTexts(ps), fields) == Fine(fields + MapOf(ps))
  {
    hide AddToken, PlainPart, Plain;
    if ps == [] {
      assert fields + MapOf(ps) == fields;
    } else {
      TokenRoundTrip(ps[0], fields);
      FieldsRoundTrip(ps[1..], fields[ps[0].0 := ps[0].1]);
      assert PartTexts(ps)[1..] == PartTexts(ps[1..]);
      assert fields[ps[0].0 := ps[0].1] + MapOf(ps[1..]) == fields + MapOf(ps);
    }
  }

  /** Text made of plain parts, the first of them FREQ, comes apart into those parts. */
  lemma TextRoundTrip(ps: seq<Part>)
    requires ps != [] && ps[0].0 == "FREQ" && forall p :: p in ps ==> PlainPart(p)
    ensures FieldsOf(Split(Body(Join(PartTexts(ps), ';')), ';'), map[]) == Fine(MapOf(ps))
  {
    hide FieldsOf, Body, Split, MapOf, AddToken, PlainPart;
    var ts := PartTexts(ps);
    var text := Join(ts, ';');
    forall t | t in ts ensures ';' !in t && Plain(t) {
      var i :| 0 <= i < |ts| && ts[i] == t;
      TokenRoundTrip(ps[i], map[]);
    }
    SplitJoin(ts, ';');
    JoinEnds(ts);
    BodyIsText(text);
    FieldsRoundTrip(ps, map[]);
    assert map[] + MapOf(ps) == MapOf(ps);
  }

  lemma BodyIsText(text: string)
    requires text != "" && text[0] == 'F' && !IsSpace(text[|text| - 1])
    ensures Body(text) == text
  {
    StripIsIdentity(text);
    assert |text| >= 6 ==> Upper(text[..6])[0] == 'F' != "RRULE:"[0];
  }

  lemma {:induction false} JoinEnds(ts: seq<string>)
    requires ts != [] && Plain(ts[0]) && forall t :: t in ts ==> Plain(t)
    ensures var text := Join(ts, ';'); text != "" && text[0] == ts[0][0] && !IsSpace(text[0]) && !IsSpace(text[|text| - 1])
  {
    assert ts[0] in ts && ts[0][0] in ts[0] && ts[0][|ts[0]| - 1] in ts[0];
    if |ts| > 1 {
      assert ts[1] in ts;
      JoinEnds(ts[1..]);
    }
  }

  // ---------------------------------------------------------------- the parts of a rule

  function IntPart(key: string, ns: seq<int>): seq<Part> {
    if ns == [] then [] else [(key, Join(IntTexts(ns), ','))]
  }

  function DayPart(ds: seq<WeekdayNum>): seq<Part> {
    if ds == [] then [] else [("BYDAY", Join(DayTexts(ds), ','))]
  }

  lemma SortedBack<T(!new)>(s: seq<T>, t: seq<T>, key: T -> int)
    requires StrictlySorted(t, key) && multiset(s) == multiset(t) && forall a, b :: key(a) == key(b) ==> a == b
    ensures Sort(s, key) == t
  {
    SortSorts(s, key);
    SortsBack(Sort(s, key), t, key);
  }

  function FreqPart(r: Rule): seq<Part> { [("FREQ", FrequencyName(FrequencyNumber(r.freq)))] }
  function IntervalPart(r: Rule): seq<Part> { [("INTERVAL", IntText(r.interval))] }

  /** The printed parts of a rule whose lists are sorted. */
  function RuleGroups(r: Rule): seq<seq<Part>>
    requires DatedWell(ToNative(r))
  {
    [FreqPart(r), IntervalPart(r), DayPart(r.byday),
     IntPart("BYMONTHDAY", r.bymonthday), IntPart("BYMONTH", r.bymonth), IntPart("BYYEARDAY", r.byyearday),
     IntPart("BYSETPOS", r.bysetpos), CountPart(ToNative(r).end), UntilPart(ToNative(r).end)]
  }

  /** Whatever order the store hands its lists back in, the printed parts are the rule's own. */
  lemma PartsOfStored(r: Rule, n: Native)
    requires Valid(r) && Dated(r) && StoredAs(r, n)
    ensures Groups(n) == RuleGroups(r)
  {
    KeysAreInjective();
    SortedBack(DaysBack(n.days), r.byday, DayKey);
    SortedBack(n.monthDays, r.bymonthday, IntKey);
    SortedBack(n.months, r.bymonth, IntKey);
    SortedBack(n.yearDays, r.byyearday, IntKey);
    SortedBack(n.positions, r.bysetpos, IntKey);
    SameEmptiness(DaysBack(n.days), r.byday);
    SameEmptiness(n.monthDays, r.bymonthday);
    SameEmptiness(n.months, r.bymonth);
    SameEmptiness(n.yearDays, r.byyearday);
    SameEmptiness(n.positions, r.bysetpos);
  }

  lemma SameEmptiness<T>(s: seq<T>, t: seq<T>)
    requires multiset(s) == multiset(t)
    ensures s == [] <==> t == []
  {
    assert |multiset(s)| == |s| && |multiset(t)| == |t|;
  }

  const KEYS: seq<string> := ["FREQ", "INTERVAL", "BYDAY", "BYMONTHDAY", "BYMONTH", "BYYEARDAY", "BYSETPOS", "COUNT", "UNTIL"]

  lemma KeysDiffer()
    ensures NoDup(KEYS)
  {
    assert KEYS[1][0] == 'I' && KEYS[6][0] == 'B' && KEYS[2][0] == 'B' && KEYS[7][0] == 'C' && KEYS[8][0] == 'U';
  }

  /** Does the dictionary hold exactly this list under `part`, or nothing when it is empty? */
  ghost predicate HoldsInts(fields: map<string, string>, part: string, ns: seq<int>) {
    (part in fields <==> ns != []) && (ns != [] ==> fields[part] == Join(IntTexts(ns), ','))
  }

  /** The dictionary a rule's text parses to. */
  ghost predicate FieldsOfRule(fields: map<string, string>, r: Rule)
    requires Dated(r)
  {
    && fields.Keys <= SUPPORTED
    && "FREQ" in fields && fields["FREQ"] == FrequencyName(FrequencyNumber(r.freq))
    && "INTERVAL" in fields && fields["INTERVAL"] == IntText(r.interval)
    && ("BYDAY" in fields <==> r.byday != []) && (r.byday != [] ==> fields["BYDAY"] == Join(DayTexts(r.byday), ','))
    && HoldsInts(fields, "BYMONTHDAY", r.bymonthday) && HoldsInts(fields, "BYMONTH", r.bymonth)
    && HoldsInts(fields, "BYYEARDAY", r.byyearday) && HoldsInts(fields, "BYSETPOS", r.bysetpos)
    && ("COUNT" in fields <==> r.count.Some?) && (r.count.Some? ==> fields["COUNT"] == IntText(r.count.value))
    && ("UNTIL" in fields <==> r.until.Some?) && (r.until.Some? ==> fields["UNTIL"] == DateText(r.until.value))
  }

  /** At most one part per key. */
  ghost predicate Single(ps: seq<Part>, key: string) {
    |ps| <= 1 && forall p :: p in ps ==> p.0 == key
  }

  /** Looking up one key among parts of other keys. */
  lemma LookUp(before: seq<Part>, own: seq<Part>, after: seq<Part>, key: string)
    requires Single(own, key)
    requires forall p :: p in before || p in after ==> p.0 != key
    ensures var fields := MapOf(before + own + after);
      (key in fields <==> own != []) && (own != [] ==> fields[key] == own[0].1)
  {
    MapOfConcat(before, own);
    MapOfConcat(before + own, after);
    MapOfKeys(before);
    MapOfKeys(after);
    if own != [] {
      assert own == [own[0]] && own[0] in own;
      assert own[1..] == [];
    }
  }

  lemma {:induction false} MapOfKeys(ps: seq<Part>)
    ensures forall k :: k in MapOf(ps) <==> exists p :: p in ps && p.0 == k
  {
    if ps != [] {
      MapOfKeys(ps[1..]);
      assert forall p :: p in ps <==> p == ps[0] || p in ps[1..];
    }
  }

  /** Nine groups of parts, group i holding only key i: each key looks up its own group. */
  lemma LookUpGroups(groups: seq<seq<Part>>, keys: seq<string>, i: nat)
    requires |groups| == |keys| && i < |keys| && NoDup(keys)
    requires forall j :: 0 <= j < |keys| ==> Single(groups[j], keys[j])
    ensures var fields := MapOf(Concat(groups));
      (keys[i] in fields <==> groups[i] != []) && (groups[i] != [] ==> fields[keys[i]] == groups[i][0].1)
  {
    ConcatSplit(groups, i);
    ConcatMembers(groups[..i]);
    ConcatMembers(groups[i + 1..]);
    LookUp(Concat(groups[..i]), groups[i], Concat(groups[i + 1..]), keys[i]);
  }

  lemma {:induction false} ConcatSplit(groups: seq<seq<Part>>, i: nat)
    requires i < |groups|
    ensures Concat(groups) == Concat(groups[..i]) + groups[i] + Concat(groups[i + 1..])
  {
    if i > 0 {
      ConcatSplit(groups[1..], i - 1);
      assert groups[1..][..i - 1] == groups[..i][1..] && groups[1..][i..] == groups[i + 1..];
    }
  }

  lemma {:induction false} ConcatMembers(groups: seq<seq<Part>>)
    ensures forall p :: p in Concat(groups) ==> exists j :: 0 <= j < |groups| && p in groups[j]
  {
    if groups != [] {
      ConcatMembers(groups[1..]);
      forall p | p in Concat(groups) ensures exists j :: 0 <= j < |groups| && p in groups[j] {
        if p !in groups[0] {
          assert p in Concat(groups[1..]);
          var j :| 0 <= j < |groups[1..]| && p in groups[1..][j];
          assert p in groups[j + 1];
        }
      }
    }
  }

  lemma {:induction false} MapOfWithin(ps: seq<Part>, keys: set<string>)
    requires forall p :: p in ps ==> p.0 in keys
    ensures MapOf(ps).Keys <= keys
  {
    if ps != [] { MapOfWithin(ps[1..], keys); }
  }

  /** Everything one group may hold: at most one plain part under its own key. */
  ghost predicate GoodGroup(g: seq<Part>, key: string) { Single(g, key) && forall p :: p in g ==> PlainPart(p) }

  lemma IntGroup(key: string, ns: seq<int>)
    requires key != "" && forall c :: c in key ==> 'A' <= c <= 'Z'
    ensures GoodGroup(IntPart(key, ns), key)
  {
    if ns != [] { IntListRoundTrip(key, ns); }
  }

  lemma OneGroup(key: string, value: string)
    requires key != "" && (forall c :: c in key ==> 'A' <= c <= 'Z') && Plain(value)
    ensures GoodGroup([(key, value)], key)
  {
  }

  lemma HeadGroups(r: Rule)
    ensures GoodGroup(FreqPart(r), "FREQ") && GoodGroup(IntervalPart(r), "INTERVAL")
    ensures GoodGroup(DayPart(r.byday), "BYDAY")
  {
    var name := FrequencyName(FrequencyNumber(r.freq));
    assert Plain(name);
    OneGroup("FREQ", name);
    ParseIntText(r.interval);
    OneGroup("INTERVAL", IntText(r.interval));
    if r.byday != [] {
      DayListRoundTrip(r.byday);
      OneGroup("BYDAY", Join(DayTexts(r.byday), ','));
    }
  }

  lemma EndGroups(r: Rule)
    requires Dated(r)
    ensures GoodGroup(CountPart(ToNative(r).end), "COUNT") && GoodGroup(UntilPart(ToNative(r).end), "UNTIL")
  {
    if r.count.Some? { ParseIntText(r.count.value); OneGroup("COUNT", IntText(r.count.value)); }
    if r.until.Some? { UntilRoundTrip(r.until.value); OneGroup("UNTIL", DateText(r.until.value)); }
  }

  ghost predicate AllGood(groups: seq<seq<Part>>, keys: seq<string>) {
    |groups| == |keys| && forall i :: 0 <= i < |keys| ==> GoodGroup(groups[i], keys[i])
  }

  lemma GroupsAreGood(r: Rule)
    requires Valid(r) && Dated(r)
    ensures AllGood(RuleGroups(r), KEYS)
  {
    hide GoodGroup, FreqPart, IntervalPart, DayPart, IntPart, CountPart, UntilPart;
    HeadGroups(r);
    IntGroup("BYMONTHDAY", r.bymonthday);
    IntGroup("BYMONTH", r.bymonth);
    IntGroup("BYYEARDAY", r.byyearday);
    IntGroup("BYSETPOS", r.bysetpos);
    EndGroups(r);
    forall i | 0 <= i < |KEYS| ensures GoodGroup(RuleGroups(r)[i], KEYS[i]) {}
  }

  lemma FieldsOfParts(r: Rule)
    requires Valid(r) && Dated(r)
    ensures FieldsOfRule(MapOf(Concat(RuleGroups(r))), r)
    ensures forall p :: p in Concat(RuleGroups(r)) ==> PlainPart(p)
  {
    var g := RuleGroups(r);
    GroupsAreGood(r);
    KeysDiffer();
    ConcatMembers(g);
    MapOfWithin(Concat(g), SUPPORTED);
    LookUpGroups(g, KEYS, 0);
    LookUpGroups(g, KEYS, 1);
    LookUpGroups(g, KEYS, 2);
    LookUpGroups(g, KEYS, 3);
    LookUpGroups(g, KEYS, 4);
    LookUpGroups(g, KEYS, 5);
    LookUpGroups(g, KEYS, 6);
    LookUpGroups(g, KEYS, 7);
    LookUpGroups(g, KEYS, 8);
  }

  lemma ByIntsBack(fields: map<string, string>, part: string, ns: seq<int>)
    requires HoldsInts(fields, part, ns)
    ensures ByInts(fields, part) == Fine(ns)
  {
    if ns != [] { IntListRoundTrip(part, ns); }
  }

  lemma FrequencyBack(f: Frequency)
    ensures FrequencyOf(FrequencyName(FrequencyNumber(f))) == Some(f)
  {
    UpperIsIdentity(FrequencyName(FrequencyNumber(f)));
    assert "WEEKLY"[0] == 'W' && "YEARLY"[0] == 'Y';
  }

  lemma EndBack(fields: map<string, string>, r: Rule)
    requires Valid(r) && Dated(r) && FieldsOfRule(fields, r)
    ensures IntField(fields, "COUNT") == Fine(r.count)
    ensures UntilField(fields) == Fine(ToTheDay(r).until)
  {
    if r.count.Some? { ParseIntText(r.count.value); }
    if r.until.Some? { UntilRoundTrip(r.until.value); }
  }

  lemma DaysBackFromText(fields: map<string, string>, r: Rule)
    requires Valid(r) && Dated(r) && FieldsOfRule(fields, r)
    ensures ByDay(fields) == Fine(r.byday)
  {
    if r.byday != [] { DayListRoundTrip(r.byday); }
  }

  lemma NoBadKeys(fields: map<string, string>)
    requires fields.Keys <= SUPPORTED
    ensures forall k :: k in fields ==> k in SUPPORTED && k !in REJECTED
  {
    SupportedIsNotRejected();
  }

  lemma RuleOfFields(fields: map<string, string>, r: Rule)
    requires Valid(r) && Dated(r) && FieldsOfRule(fields, r)
    ensures RuleOf(fields) == Fine(ToTheDay(r))
  {
    hide Valid, HoldsInts, FrequencyOf, FrequencyName, FrequencyNumber, IntField, UntilField, ByDay, ByInts, Construct;
    NoBadKeys(fields);
    FrequencyBack(r.freq);
    IntervalBack(fields, r);
    EndBack(fields, r);
    DaysBackFromText(fields, r);
    ByIntsBack(fields, "BYMONTHDAY", r.bymonthday);
    ByIntsBack(fields, "BYMONTH", r.bymonth);
    ByIntsBack(fields, "BYYEARDAY", r.byyearday);
    ByIntsBack(fields, "BYSETPOS", r.bysetpos);
    ToTheDayIsValid(r);
    NotBothEnds(r);
  }

  lemma IntervalBack(fields: map<string, string>, r: Rule)
    requires Dated(r) && FieldsOfRule(fields, r)
    ensures IntField(fields, "INTERVAL") == Fine(Some(r.interval))
  {
    ParseIntText(r.interval);
  }

  lemma NotBothEnds(r: Rule)
    requires Valid(r)
    ensures !(r.count.Some? && r.until.Some?)
  {
  }

  lemma ToTheDayIsValid(r: Rule)
    requires Valid(r)
    ensures Construct(ToTheDay(r)) == Fine(ToTheDay(r))
  {
    SortedIgnoresUntil(r);
    CanonicalIsSorted(r);
    CanonicalIsSorted(ToTheDay(r));
    hide SortedParts, Canonical;
    assert Validated(r) == Fine(r);
    ValidatedIgnoresUntil(r);
  }

  lemma SortedIgnoresUntil(r: Rule)
    ensures SortedParts(ToTheDay(r)) <==> SortedParts(r)
  {
  }

  lemma ValidatedIgnoresUntil(r: Rule)
    requires Validated(r) == Fine(r)
    ensures Validated(ToTheDay(r)) == Fine(ToTheDay(r))
  {
  }

  lemma SupportedIsNotRejected()
    ensures SUPPORTED !! REJECTED
  {
    assert "BYWEEKNO"[2] == 'W' && "BYSETPOS"[2] == 'S' && "INTERVAL"[2] == 'T' && "BYSECOND"[3] == 'E' && "BYSETPOS"[4] == 'T' && "BYSECOND"[4] == 'C';
    assert "WKST"[0] == 'W' && "FREQ"[0] == 'F';
  }

  /** Printing any stored form of a valid rule and parsing the text gives the same rule in
      every part, with UNTIL kept to the day. */
  lemma PrintThenParse(r: Rule, n: Native)
    requires Valid(r) && Dated(r) && StoredAs(r, n)
    ensures FromRrule(RruleText(n)) == Fine(ToTheDay(r))
  {
    PartsOfStored(r, n);
    FieldsOfParts(r);
    var ps := Concat(RuleGroups(r));
    assert ps[0] == FreqPart(r)[0];
    TextRoundTrip(ps);
    RuleOfFields(MapOf(ps), r);
  }
}
