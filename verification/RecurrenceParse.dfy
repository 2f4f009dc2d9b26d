/**
 What `Recurrence.from_rrule` (`macos_apps_mcp/contracts.py`) accepts, for every text and not
 only for printed ones: the dictionary its tokens make, the rule a dictionary asks for, and
 how the items of a list, the end day and the RRULE: prefix are read.
 */
module RecurrenceParse {
  import opened Prelude
  import opened Recurrence
  import RoundTrip = RecurrenceRoundTrip
  import opened Strings

  // ---------------------------------------------------------------- tokens

  /** The stripped token `t` has its first `=` at `i`, and puts `v` under `k`. */
  predicate SaysAt(t: string, i: int, k: string, v: string) {
    0 <= i < |t| && t[i] == '=' && '=' !in t[..i] && k == Upper(Strip(t[..i])) && v == Strip(t[i + 1..])
  }

  ghost predicate Says(token: string, k: string, v: string) { exists i :: SaysAt(Strip(token), i, k, v) }

  ghost predicate Mentions(token: string, k: string) { exists v :: Says(token, k, v) }

  /** The last token that mentions `k` says `v`. */
  ghost predicate LastSays(tokens: seq<string>, k: string, v: string) {
    exists i :: 0 <= i < |tokens| && Says(tokens[i], k, v) && SilentAfter(tokens, i, k)
  }

  ghost predicate SilentAfter(tokens: seq<string>, i: int, k: string) {
    forall j :: i < j < |tokens| ==> 0 <= j && !Mentions(tokens[j], k)
  }

  predicate Holds(fields: map<string, string>, k: string, v: string) { k in fields && fields[k] == v }

  predicate Readable(token: string) { Strip(token) == "" || '=' in Strip(token) }

  lemma TokenExactly(token: string, fields: map<string, string>)
    ensures AddToken(token, fields).Fine? <==> Readable(token)
    ensures AddToken(token, fields).Fine? ==>
      forall k, v :: Holds(AddToken(token, fields).value, k, v) <==> Says(token, k, v) || (!Mentions(token, k) && Holds(fields, k, v))
  {
    var t := Strip(token);
    PartitionExactly(t, '=');
    if Partition(t, '=').Some? {
      var (a, b) := Partition(t, '=').value;
      assert t[|a|] == '=' && t[..|a|] == a && t[|a| + 1..] == b;
      assert SaysAt(t, |a|, Upper(Strip(a)), Strip(b));
      forall i, k, v | SaysAt(t, i, k, v) ensures k == Upper(Strip(a)) && v == Strip(b) {
        assert forall j :: 0 <= j < |a| ==> a[j] in a && t[j] == a[j];
        assert forall j :: 0 <= j < i ==> t[..i][j] in t[..i] && t[..i][j] == t[j];
        assert i == |a|;
      }
      assert forall k, v :: Says(token, k, v) <==> k == Upper(Strip(a)) && v == Strip(b);
      assert forall k :: Mentions(token, k) <==> k == Upper(Strip(a)) by {
        assert Says(token, Upper(Strip(a)), Strip(b));
      }
    } else {
      forall i, k, v ensures !SaysAt(t, i, k, v) { assert 0 <= i < |t| ==> t[i] in t; }
    }
  }

  lemma LastSaysCons(tokens: seq<string>, k: string, v: string)
    requires tokens != []
    ensures LastSays(tokens, k, v) <==> LastSays(tokens[1..], k, v) || (Says(tokens[0], k, v) && SilentAfter(tokens, 0, k))
    ensures SilentAfter(tokens, -1, k) <==> !Mentions(tokens[0], k) && SilentAfter(tokens[1..], -1, k)
    ensures SilentAfter(tokens, 0, k) <==> SilentAfter(tokens[1..], -1, k)
  {
    hide Says, Mentions;
    var rest := tokens[1..];
    forall i | -1 <= i ensures SilentAfter(tokens, i + 1, k) <==> SilentAfter(rest, i, k) {
      forall j | i + 1 < j < |tokens| ensures tokens[j] == rest[j - 1] {}
      forall j | i < j < |rest| ensures rest[j] == tokens[j + 1] {}
    }
    if LastSays(rest, k, v) {
      var i :| 0 <= i < |rest| && Says(rest[i], k, v) && SilentAfter(rest, i, k);
      assert Says(tokens[i + 1], k, v) && SilentAfter(tokens, i + 1, k);
    }
    if LastSays(tokens, k, v) {
      var i :| 0 <= i < |tokens| && Says(tokens[i], k, v) && SilentAfter(tokens, i, k);
      if i > 0 { assert Says(rest[i - 1], k, v) && SilentAfter(rest, i - 1, k); }
    }
  }

  /** A token silent on `k` does not say anything of it. */
  lemma LastSaysMentions(tokens: seq<string>, k: string, v: string)
    requires LastSays(tokens, k, v)
    ensures !SilentAfter(tokens, -1, k)
  {
    var i :| 0 <= i < |tokens| && Says(tokens[i], k, v) && SilentAfter(tokens, i, k);
    assert Mentions(tokens[i], k);
  }

  /** The dictionary a list of tokens makes: blank tokens skipped, the last word on a key stands,
      what was there before stays if no token mentions it; a token without `=` spoils it. */
  lemma {:induction false} FieldsExactly(tokens: seq<string>, fields: map<string, string>)
    ensures FieldsOf(tokens, fields).Fine? <==> forall t :: t in tokens ==> Readable(t)
    ensures FieldsOf(tokens, fields).Fine? ==>
      forall k, v :: Holds(FieldsOf(tokens, fields).value, k, v) <==> LastSays(tokens, k, v) || (SilentAfter(tokens, -1, k) && Holds(fields, k, v))
    decreases |tokens|
  {
    hide AddToken, Holds, LastSays, SilentAfter, Says, Mentions, Readable;
    if tokens == [] {
      forall k, v ensures !LastSays(tokens, k, v) && SilentAfter(tokens, -1, k) { NothingSaid(k, v); }
    } else {
      assert forall t :: t in tokens <==> t == tokens[0] || t in tokens[1..];
      TokenExactly(tokens[0], fields);
      var next := AddToken(tokens[0], fields);
      if next.Fine? {
        FieldsExactly(tokens[1..], next.value);
        assert FieldsOf(tokens, fields) == FieldsOf(tokens[1..], next.value);
        if FieldsOf(tokens, fields).Fine? {
          var all := FieldsOf(tokens, fields).value;
          forall k, v
            ensures Holds(all, k, v) <==> LastSays(tokens, k, v) || (SilentAfter(tokens, -1, k) && Holds(fields, k, v))
          {
            LastSaysCons(tokens, k, v);
          }
        }
      }
    }
  }

  lemma NothingSaid(k: string, v: string)
    ensures !LastSays([], k, v) && SilentAfter([], -1, k)
  {
  }

  // ---------------------------------------------------------------- list items

  /** One list part: every item an integer, in order. */
  lemma {:induction false} IntsExactly(part: string, items: seq<string>, ns: seq<int>)
    ensures IntsOf(part, items) == Fine(ns) <==> |ns| == |items| && forall i :: 0 <= i < |items| ==> ParseInt(items[i]) == Some(ns[i])
  {
    hide ParseInt;
    if items != [] && ns != [] {
      IntsExactly(part, items[1..], ns[1..]);
      assert ns == [ns[0]] + ns[1..];
      if |ns| == |items| && forall i :: 0 <= i < |items[1..]| ==> ParseInt(items[1..][i]) == Some(ns[1..][i]) {
        forall i | 1 <= i < |items| ensures ParseInt(items[i]) == Some(ns[i]) {
          assert items[1..][i - 1] == items[i] && ns[1..][i - 1] == ns[i];
        }
      }
    }
  }

  /** Every item of a weekday list a weekday, in order. */
  lemma {:induction false} DaysExactly(items: seq<string>, ds: seq<WeekdayNum>)
    ensures DaysOf(items) == Fine(ds) <==> |ds| == |items| && forall i :: 0 <= i < |items| ==> DayOf(items[i]) == Fine(ds[i])
  {
    hide DayOf;
    if items != [] && ds != [] {
      DaysExactly(items[1..], ds[1..]);
      assert ds == [ds[0]] + ds[1..];
      if |ds| == |items| && forall i :: 0 <= i < |items[1..]| ==> DayOf(items[1..][i]) == Fine(ds[1..][i]) {
        forall i | 1 <= i < |items| ensures DayOf(items[i]) == Fine(ds[i]) {
          assert items[1..][i - 1] == items[i] && ds[1..][i - 1] == ds[i];
        }
      }
    }
  }

  /** A weekday item: two letters in any case, after nothing or after a signed number without
      underscores that is not zero. */
  ghost predicate DaySays(s: string, d: WeekdayNum) {
    && |s| >= 2 && Upper(s[|s| - 2..]) == WeekdayCode(d.day)
    && if |s| == 2 then d.ordinal == 0 else d.ordinal != 0 && '_' !in s[..|s| - 2] && ReadsAs(s[..|s| - 2], d.ordinal)
  }

  lemma DayExactly(item: string, d: WeekdayNum)
    ensures DayOf(item) == Fine(d) <==> DaySays(Strip(item), d)
  {
    var s := Strip(item);
    if |s| >= 2 {
      var (number, code) := (s[..|s| - 2], s[|s| - 2..]);
      CodeExactly(code, d.day);
      if number != "" { NumberExactly(number, d.ordinal); }
      hide Strip, ParseInt, ReadsAs, IsSignedDigits, Upper, WeekdayCode, WeekdayOfCode;
    }
  }

  lemma CodeExactly(code: string, d: Weekday)
    requires |code| == 2
    ensures IsLetter(code[0]) && IsLetter(code[1]) && WeekdayOfCode(Upper(code)) == Some(d) <==> Upper(code) == WeekdayCode(d)
  {
    assert Upper(code) == [UpperChar(code[0]), UpperChar(code[1])];
  }

  /** The regular expression's number is an integer's text without underscores. */
  lemma NumberExactly(number: string, n: int)
    requires number != ""
    ensures IsSignedDigits(number) && ParseInt(number) == Some(n) <==> '_' !in number && ReadsAs(number, n)
  {
    hide ParseInt, Decimal, Underscored, Strip, ReadsAs;
    var digits := if number[0] == '+' || number[0] == '-' then number[1..] else number;
    assert number == (if digits == number then "" else [number[0]]) + digits;
    PlainDigits(digits);
    SignedDigits(number, n);
    ParseIntExactly(number, n);
    if IsSignedDigits(number) {
      assert number[|number| - 1] == digits[|digits| - 1] && digits[|digits| - 1] in digits && digits[0] in digits;
      StripIsIdentity(number);
    }
  }

  lemma PlainDigits(digits: string)
    ensures digits != "" && (forall c :: c in digits ==> IsDigit(c)) <==> Underscored(digits) && '_' !in digits
  {
    if digits != "" { assert digits[|digits| - 1] in digits && digits[0] in digits; }
    forall i | 0 <= i < |digits| ensures digits[i] in digits {}
  }

  lemma SignedDigits(number: string, n: int)
    requires number != ""
    ensures var digits := if number[0] == '+' || number[0] == '-' then number[1..] else number;
      ReadsAs(number, n) <==> Underscored(digits) && n == if number[0] == '-' then -Decimal(digits) else Decimal(digits)
  {
    hide Decimal;
    assert number[0] in number;
  }

  // ---------------------------------------------------------------- the end day

  /** Four digits that read as a number are that number's four digits; two are its two. */
  lemma FourDigitsBack(s: string, n: int)
    requires |s| == 4 && Digits(s) == Some(n)
    ensures 0 <= n < 10000 && FourDigits(n) == s
  {
    DigitsBack(s);
    assert s[..3][..2] == s[..2];
    DigitsInit(s);
    DigitsInit(s[..3]);
    DigitsInit(s[..2]);
    DigitsInit(s[..1]);
    hide Decimal, ParseDigits;
    assert s[..2][..1] == s[..1];
    var (a, b, c) := (Decimal(s[..1]), Decimal(s[..2]), Decimal(s[..3]));
    assert n / 10 == c && c / 10 == b && b / 10 == a;
    assert n / 100 == b && n / 1000 == a;
  }

  lemma TwoDigitsBack(s: string, n: int)
    requires |s| == 2 && Digits(s) == Some(n)
    ensures 0 <= n < 100 && TwoDigits(n) == s
  {
    DigitsBack(s);
    DigitsInit(s);
    DigitsInit(s[..1]);
  }

  lemma DigitsInit(s: string)
    requires s != "" && forall c :: c in s ==> IsDigit(c)
    ensures IsDigit(s[|s| - 1]) && Decimal(s) == Decimal(s[..|s| - 1]) * 10 + (s[|s| - 1] as int - 48)
    ensures |s| == 1 ==> Decimal(s) == s[0] as int - 48
  {
    assert s[|s| - 1] in s;
  }

  /** Digits alone read as the number they write. */
  lemma DigitsBack(s: string)
    requires s != "" && forall c :: c in s ==> IsDigit(c)
    ensures Digits(s) == Some(Decimal(s))
  {
    ParseDigitsFrom("", s);
    assert "" + s == s;
    PlainDigits(s);
    assert '_' !in s;
  }

  /** UNTIL as a date alone: exactly the printed form of a real day, read as its last second. */
  lemma UntilExactly(value: string, m: Moment)
    ensures UntilOf(value) == Fine(m)
      <==> IsDate(m.year, m.month, m.day) && m.second == 86399 && Strip(value) == DateText(m)
  {
    var s := Strip(value);
    if IsDate(m.year, m.month, m.day) && s == DateText(m) {
      RoundTrip.UntilRoundTrip(m);
      StripIsIdentity(s);
    }
    if UntilOf(value) == Fine(m) {
      FourDigitsBack(s[..4], m.year);
      TwoDigitsBack(s[4..6], m.month);
      TwoDigitsBack(s[6..], m.day);
      assert s == s[..4] + s[4..6] + s[6..];
    }
  }

  // ---------------------------------------------------------------- the rule a dictionary asks for

  predicate IsPart(k: string) {
    || k == "FREQ" || k == "INTERVAL" || k == "COUNT" || k == "UNTIL" || k == "BYDAY"
    || k == "BYMONTHDAY" || k == "BYMONTH" || k == "BYYEARDAY" || k == "BYSETPOS"
  }

  predicate IsRefused(k: string) { k == "BYWEEKNO" || k == "BYHOUR" || k == "BYMINUTE" || k == "BYSECOND" || k == "WKST" }

  predicate NamesFrequency(name: string, f: Frequency) {
    match f
    case Daily => Upper(name) == "DAILY"
    case Weekly => Upper(name) == "WEEKLY"
    case Monthly => Upper(name) == "MONTHLY"
    case Yearly => Upper(name) == "YEARLY"
  }

  /** A list part says the numbers of its comma items; an absent one says none. */
  ghost predicate IntsAsked(fields: map<string, string>, part: string, ns: seq<int>) {
    if part in fields then IntsRead(Split(fields[part], ','), ns) else ns == []
  }

  ghost predicate IntsRead(items: seq<string>, ns: seq<int>) {
    |ns| == |items| && forall i :: 0 <= i < |items| ==> ParseInt(items[i]) == Some(ns[i])
  }

  ghost predicate DaysRead(items: seq<string>, ds: seq<WeekdayNum>) {
    |ds| == |items| && forall i :: 0 <= i < |items| ==> DaySays(Strip(items[i]), ds[i])
  }

  ghost predicate DaysAsked(fields: map<string, string>, ds: seq<WeekdayNum>) {
    if "BYDAY" in fields then DaysRead(Split(fields["BYDAY"], ','), ds) else ds == []
  }

  /** The dictionary asks for `q`: FREQ named, INTERVAL 1 unless given, COUNT and UNTIL as given
      and never both, every list as its items say. */
  ghost predicate Asks(fields: map<string, string>, q: Rule) {
    && "FREQ" in fields && NamesFrequency(fields["FREQ"], q.freq)
    && (if "INTERVAL" in fields then ParseInt(fields["INTERVAL"]) == Some(q.interval) else q.interval == 1)
    && !("COUNT" in fields && "UNTIL" in fields)
    && (if "COUNT" in fields then q.count.Some? && ParseInt(fields["COUNT"]) == q.count else q.count.None?)
    && (if "UNTIL" in fields then q.until.Some? && UntilOf(fields["UNTIL"]) == Fine(q.until.value) else q.until.None?)
    && DaysAsked(fields, q.byday)
    && IntsAsked(fields, "BYMONTHDAY", q.bymonthday) && IntsAsked(fields, "BYMONTH", q.bymonth)
    && IntsAsked(fields, "BYYEARDAY", q.byyearday) && IntsAsked(fields, "BYSETPOS", q.bysetpos)
  }

  lemma PartsExactly(fields: map<string, string>)
    ensures (exists k :: k in fields && k in REJECTED) <==> exists k :: k in fields && IsRefused(k)
    ensures (exists k :: k in fields && k !in SUPPORTED) <==> exists k :: k in fields && !IsPart(k)
  {
    forall k ensures (k in REJECTED <==> IsRefused(k)) && (k in SUPPORTED <==> IsPart(k)) {}
  }

  lemma FrequencyExactly(name: string, f: Frequency)
    ensures FrequencyOf(name) == Some(f) <==> NamesFrequency(name, f)
    ensures FrequencyOf("").None?
  {
    assert |Upper("")| == 0;
  }

  lemma ListExactly(fields: map<string, string>, part: string, ns: seq<int>)
    ensures ByInts(fields, part) == Fine(ns) <==> IntsAsked(fields, part, ns)
  {
    if part in fields { IntsExactly(part, Split(fields[part], ','), ns); }
  }

  lemma DaysReadExactly(items: seq<string>, ds: seq<WeekdayNum>)
    ensures DaysOf(items) == Fine(ds) <==> DaysRead(items, ds)
  {
    hide DayOf, DaySays, Strip, DaysOf;
    DaysExactly(items, ds);
    forall i | 0 <= i < |items| && i < |ds| ensures DayOf(items[i]) == Fine(ds[i]) <==> DaySays(Strip(items[i]), ds[i]) {
      DayExactly(items[i], ds[i]);
    }
  }

  lemma DayListExactly(fields: map<string, string>, ds: seq<WeekdayNum>)
    ensures ByDay(fields) == Fine(ds) <==> DaysAsked(fields, ds)
  {
    hide DaysRead, DaysOf;
    if "BYDAY" in fields { DaysReadExactly(Split(fields["BYDAY"], ','), ds); }
  }

  /** The parser's own steps, each of them taken and giving the part of `q` it reads. */
  ghost predicate Reads(fields: map<string, string>, q: Rule) {
    && FrequencyOf(if "FREQ" in fields then fields["FREQ"] else "") == Some(q.freq)
    && IntField(fields, "INTERVAL") == Fine(if "INTERVAL" in fields then Some(q.interval) else None)
    && ("INTERVAL" !in fields ==> q.interval == 1)
    && !("COUNT" in fields && "UNTIL" in fields)
    && IntField(fields, "COUNT") == Fine(q.count) && UntilField(fields) == Fine(q.until) && ByDay(fields) == Fine(q.byday)
    && ByInts(fields, "BYMONTHDAY") == Fine(q.bymonthday) && ByInts(fields, "BYMONTH") == Fine(q.bymonth)
    && ByInts(fields, "BYYEARDAY") == Fine(q.byyearday) && ByInts(fields, "BYSETPOS") == Fine(q.bysetpos)
  }

  lemma ReadsExactly(fields: map<string, string>, q: Rule)
    ensures Reads(fields, q) <==> Asks(fields, q)
  {
    hide FrequencyOf, NamesFrequency, ByInts, IntsAsked, ByDay, DaysAsked, ParseInt, UntilOf;
    FrequencyExactly(if "FREQ" in fields then fields["FREQ"] else "", q.freq);
    DayListExactly(fields, q.byday);
    ListExactly(fields, "BYMONTHDAY", q.bymonthday);
    ListExactly(fields, "BYMONTH", q.bymonth);
    ListExactly(fields, "BYYEARDAY", q.byyearday);
    ListExactly(fields, "BYSETPOS", q.bysetpos);
  }

  lemma ReadsThenConstructs(fields: map<string, string>, rule: Rule)
    requires forall k :: k in fields ==> k !in REJECTED && k in SUPPORTED
    ensures RuleOf(fields) == Fine(rule) <==> exists q :: Reads(fields, q) && Construct(q) == Fine(rule)
  {
    hide FrequencyOf, ByInts, ByDay, UntilField, IntField, Construct;
    if RuleOf(fields) == Fine(rule) {
      var interval := IntField(fields, "INTERVAL").value;
      var q := Rule(FrequencyOf(if "FREQ" in fields then fields["FREQ"] else "").value, if interval.Some? then interval.value else 1,
                    IntField(fields, "COUNT").value, UntilField(fields).value, ByDay(fields).value,
                    ByInts(fields, "BYMONTHDAY").value, ByInts(fields, "BYMONTH").value,
                    ByInts(fields, "BYYEARDAY").value, ByInts(fields, "BYSETPOS").value);
      GivenIffPresent(fields, "INTERVAL");
      assert Reads(fields, q);
    }
  }

  lemma GivenIffPresent(fields: map<string, string>, part: string)
    ensures IntField(fields, part).Fine? ==> (IntField(fields, part).value.Some? <==> part in fields)
  {
  }

  /** The parser over a dictionary: it gives a rule exactly when every key is a supported part,
      the dictionary asks for some rule, and that rule can be constructed. A refused part is an
      error by its own name, any other unsupported part an error too. */
  lemma RuleOfExactly(fields: map<string, string>, rule: Rule)
    ensures RuleOf(fields) == Fine(rule)
      <==> (forall k :: k in fields ==> IsPart(k)) && exists q :: Asks(fields, q) && Construct(q) == Fine(rule)
    ensures (exists k :: k in fields && IsRefused(k)) ==> RuleOf(fields) == Bad(RefusedPart)
    ensures (exists k :: k in fields && !IsPart(k)) && !(exists k :: k in fields && IsRefused(k)) ==> RuleOf(fields) == Bad(UnsupportedPart)
  {
    hide Asks, Reads, Construct, ByInts, ByDay, UntilField, IntField, FrequencyOf;
    PartsExactly(fields);
    forall q { ReadsExactly(fields, q); }
    if forall k :: k in fields ==> IsPart(k) { ReadsThenConstructs(fields, rule); }
  }

  // ---------------------------------------------------------------- the prefix

  /** Begins with RRULE: in any case, blanks before it aside. */
  predicate Prefixed(text: string) { |Strip(text)| >= 6 && Upper(Strip(text)[..6]) == "RRULE:" }

  lemma {:induction false} StripLead(c: char, s: string)
    requires IsSpace(c)
    ensures Strip([c] + s) == Strip(s)
  {
    assert ([c] + s)[1..] == s;
  }

  /** Blanks before the first token change nothing. */
  lemma FieldsLead(c: char, s: string, fields: map<string, string>)
    requires IsSpace(c)
    ensures FieldsOf(Split([c] + s, ';'), fields) == FieldsOf(Split(s, ';'), fields)
  {
    var t := [c] + s;
    assert t[1..] == s;
    var rest := Split(s, ';');
    assert Split(t, ';') == [[c] + rest[0]] + rest[1..];
    StripLead(c, rest[0]);
    assert Split(t, ';')[1..] == rest[1..];
  }

  lemma {:induction false} FieldsLeads(s: string, fields: map<string, string>)
    ensures FieldsOf(Split(LStrip(s), ';'), fields) == FieldsOf(Split(s, ';'), fields)
  {
    if s != "" && IsSpace(s[0]) {
      FieldsLeads(s[1..], fields);
      FieldsLead(s[0], s[1..], fields);
      assert s == [s[0]] + s[1..];
    }
  }

  /** Stripping one end and then the other, in either order. */
  lemma {:induction false} StripsCommute(s: string)
    ensures LStrip(RStrip(s)) == Strip(s)
  {
    if s != "" && IsSpace(s[|s| - 1]) {
      StripsCommute(s[..|s| - 1]);
      LStripInit(s);
    } else if s != "" {
      LStripEnds(s);
    }
  }

  lemma {:induction false} LStripInit(s: string)
    requires s != "" && IsSpace(s[|s| - 1])
    ensures RStrip(LStrip(s)) == RStrip(LStrip(s[..|s| - 1]))
  {
    if IsSpace(s[0]) && |s| > 1 {
      LStripInit(s[1..]);
      assert s[1..][..|s| - 2] == s[..|s| - 1][1..];
    }
  }

  lemma {:induction false} LStripEnds(s: string)
    requires s != "" && !IsSpace(s[|s| - 1])
    ensures LStrip(s) != "" && LStrip(s)[|LStrip(s)| - 1] == s[|s| - 1]
  {
    if IsSpace(s[0]) { LStripEnds(s[1..]); }
  }

  lemma {:induction false} RStripBehind(p: string, s: string)
    requires p != "" && !IsSpace(p[|p| - 1])
    ensures RStrip(p + s) == p + RStrip(s)
  {
    var t := p + s;
    if s == "" {
      assert t == p;
    } else if IsSpace(s[|s| - 1]) {
      assert t[..|t| - 1] == p + s[..|s| - 1];
      RStripBehind(p, s[..|s| - 1]);
    }
  }

  lemma PrefixCut(p: string, text: string)
    requires |p| == 6 && Upper(p) == "RRULE:"
    ensures Body(p + text) == RStrip(text)
  {
    UpperOf(p, 0, 'R');
    UpperOf(p, 5, ':');
    assert (p + text)[0] == p[0];
    RStripBehind(p, text);
    assert (p + RStrip(text))[..6] == p && (p + RStrip(text))[6..] == RStrip(text);
  }

  lemma UpperOf(p: string, i: nat, c: char)
    requires i < |p| && UpperChar(p[i]) == c && (c == ':' || 'A' <= c <= 'Z')
    ensures !IsSpace(p[i])
  {
  }

  /** The RRULE: prefix, in any case, changes nothing; only a second one does, and spoils the rule. */
  lemma PrefixExactly(p: string, text: string)
    requires |p| == 6 && Upper(p) == "RRULE:"
    ensures !Prefixed(text) ==> FromRrule(p + text) == FromRrule(text)
    ensures Prefixed(text) ==> FromRrule(p + text).Bad?
  {
    hide FieldsOf, Split, RuleOf, Upper;
    PrefixCut(p, text);
    StripsCommute(text);
    FieldsLeads(RStrip(text), map[]);
    hide LStrip, RStrip;
    if Prefixed(text) {
      var a, b := StripExactly(text);
      StripIsIdentity(Strip(text));
      SecondPrefix(Strip(text)[..6], Strip(text)[6..]);
      assert Strip(text) == Strip(text)[..6] + Strip(text)[6..];
    }
  }

  lemma {:induction false} SplitHead(a: string, s: string, c: char)
    requires c !in a
    ensures Split(a + s, c)[0] == a + Split(s, c)[0]
  {
    if a == "" {
      assert a + s == s;
    } else {
      assert (a + s)[1..] == a[1..] + s;
      SplitHead(a[1..], s, c);
      assert a == [a[0]] + a[1..];
    }
  }

  lemma {:induction false} MentionedIsLast(tokens: seq<string>, k: string)
    requires !SilentAfter(tokens, -1, k)
    ensures exists v :: LastSays(tokens, k, v)
  {
    hide LastSays, Says;
    if tokens == [] {
      NothingSaid(k, "");
    } else if SilentAfter(tokens[1..], -1, k) {
      LastSaysCons(tokens, k, "");
      var v :| Says(tokens[0], k, v);
      LastSaysCons(tokens, k, v);
    } else {
      MentionedIsLast(tokens[1..], k);
      var v :| LastSays(tokens[1..], k, v);
      LastSaysCons(tokens, k, v);
    }
  }

  lemma PrefixChars(a: string)
    requires |a| == 6 && Upper(a) == "RRULE:"
    ensures ';' !in a && '=' !in a && !IsSpace(a[0]) && !IsSpace(a[5])
  {
    UpperOf(a, 0, 'R');
    UpperOf(a, 5, ':');
    forall i | 0 <= i < 6 ensures a[i] != ';' && a[i] != '=' { assert UpperChar(a[i]) == "RRULE:"[i]; }
  }

  /** A text behind a prefix is stripped at its end only. */
  lemma StripBehind(a: string, x: string)
    requires |a| == 6 && Upper(a) == "RRULE:"
    ensures Strip(a + x) == a + RStrip(x)
  {
    PrefixChars(a);
    RStripBehind(a, x);
    assert (a + x)[0] == a[0];
  }

  lemma ColonIsNoPart(a: string, x: string)
    requires |a| == 6 && Upper(a) == "RRULE:"
    ensures !IsPart(Upper(a + x))
  {
    assert (a + x)[5] == a[5];
    assert Upper(a)[5] == ':';
    assert Upper(a + x)[5] == ':';
  }

  /** The token's key keeps the colon, so it is no part. */
  lemma PrefixedKey(a: string, x: string) returns (k: string)
    requires |a| == 6 && Upper(a) == "RRULE:" && Readable(a + x)
    ensures Mentions(a + x, k) && !IsPart(k)
  {
    hide LStrip, RStrip, Strip, Partition, IsSpace, IsPart;
    StripBehind(a, x);
    PrefixChars(a);
    var rest := RStrip(x);
    PartitionExactly(rest, '=');
    assert '=' in rest;
    var (y, z) := Partition(rest, '=').value;
    var t := a + rest;
    var i := 6 + |y|;
    assert t[..i] == a + y && t[i] == '=' && t[i + 1..] == z;
    StripBehind(a, y);
    k := Upper(a + RStrip(y));
    ColonIsNoPart(a, RStrip(y));
    assert SaysAt(t, i, k, Strip(z));
    assert Says(a + x, k, Strip(z));
  }

  lemma SecondPrefix(a: string, s: string)
    requires |a| == 6 && Upper(a) == "RRULE:"
    ensures var r := FieldsOf(Split(a + s, ';'), map[]); r.Bad? || RuleOf(r.value).Bad?
  {
    hide FieldsOf, RuleOf, Split, Upper, LastSays, Readable, Mentions, IsPart;
    var tokens := Split(a + s, ';');
    PrefixChars(a);
    SplitHead(a, s, ';');
    FieldsExactly(tokens, map[]);
    var r := FieldsOf(tokens, map[]);
    if r.Fine? {
      assert tokens[0] in tokens;
      var k := PrefixedKey(a, Split(s, ';')[0]);
      assert !SilentAfter(tokens, -1, k);
      MentionedIsLast(tokens, k);
      var v :| LastSays(tokens, k, v);
      assert Holds(r.value, k, v);
      RuleOfExactly(r.value, Rule(Daily, 1, None, None, [], [], [], [], []));
      assert k in r.value && !IsPart(k);
    }
  }
}
