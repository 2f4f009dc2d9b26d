/** The US/RS wire framing of `macos_apps_mcp/text.py`. */
module Framing {
  import opened Prelude
  import opened Strings

  const US: char := 31 as char
  const RS: char := 30 as char

  // ---------------------------------------------------------------- what the scripts send

  function Glue(parts: seq<string>): string { if parts == [] then "" else parts[0] + Glue(parts[1..]) }

  /** The AppleScript handler: cut at each separator and glue the pieces, RS first, then US. */
  function StripFraming(t: string): string { Glue(Split(Glue(Split(t, RS)), US)) }

  /** Records as the scripts emit them: fields joined with US, each record ended by RS. */
  function Encode(records: seq<seq<string>>): string {
    if records == [] then "" else Join(records[0], US) + [RS] + Encode(records[1..])
  }

  /** Every script strips each field before joining. */
  ghost predicate Stripped(f: string) { US !in f && RS !in f }

  ghost predicate Sendable(records: seq<seq<string>>) {
    forall r :: r in records ==> r != [] && forall f :: f in r ==> Stripped(f)
  }

  // ---------------------------------------------------------------- split_framed

  /** `split_framed`: blank records are dropped, and US itself counts as blank. */
  function SplitFramed(raw: string): seq<seq<string>> { Records(Split(raw, RS)) }

  function Records(pieces: seq<string>): seq<seq<string>> {
    if pieces == [] then []
    else (if Strip(pieces[0]) != "" then [Split(pieces[0], US)] else []) + Records(pieces[1..])
  }

  predicate HasText(r: seq<string>) { exists f :: f in r && exists c :: c in f && !IsSpace(c) }

  function WithText(records: seq<seq<string>>): seq<seq<string>> {
    if records == [] then [] else (if HasText(records[0]) then [records[0]] else []) + WithText(records[1..])
  }

  lemma {:induction false} LStripKeepsText(s: string)
    ensures LStrip(s) == "" <==> forall c :: c in s ==> IsSpace(c)
    ensures LStrip(s) != "" ==> !IsSpace(LStrip(s)[0])
  {
    if s != "" && IsSpace(s[0]) {
      LStripKeepsText(s[1..]);
      assert forall c :: c in s <==> c == s[0] || c in s[1..];
    } else if s != "" {
      assert s[0] in s;
    }
  }

  lemma {:induction false} RStripKeepsText(s: string)
    requires s != "" && !IsSpace(s[0])
    ensures RStrip(s) != ""
  {
    if IsSpace(s[|s| - 1]) { RStripKeepsText(s[..|s| - 1]); }
  }

  lemma StripBlank(s: string)
    ensures Strip(s) == "" <==> forall c :: c in s ==> IsSpace(c)
  {
    LStripKeepsText(s);
    if LStrip(s) != "" { RStripKeepsText(LStrip(s)); }
  }

  lemma {:induction false} JoinText(r: seq<string>, c: char)
    requires r != []
    ensures c in Join(r, US) <==> (exists f :: f in r && c in f) || (c == US && |r| > 1)
  {
    if |r| > 1 {
      JoinText(r[1..], c);
      assert forall f :: f in r <==> f == r[0] || f in r[1..];
    } else {
      assert r == [r[0]];
    }
  }

  /** A record survives exactly when some field has non-whitespace text. */
  lemma RecordIsBlankExactly(r: seq<string>)
    requires r != []
    ensures Strip(Join(r, US)) != "" <==> HasText(r)
  {
    StripBlank(Join(r, US));
    forall c ensures c in Join(r, US) <==> (exists f :: f in r && c in f) || (c == US && |r| > 1) { JoinText(r, c); }
  }

  lemma RecordHasNoRs(r: seq<string>)
    requires r != [] && forall f :: f in r ==> Stripped(f)
    ensures RS !in Join(r, US)
  {
    JoinText(r, RS);
  }

  /** Framing round trips: what comes back is every sent record that has text, unchanged and in order. */
  lemma {:induction false} FramingRoundTrip(records: seq<seq<string>>)
    requires Sendable(records)
    ensures SplitFramed(Encode(records)) == WithText(records)
  {
    if records == [] {
      assert Split("", RS) == [""] && Records([""]) == [] by { assert [""][1..] == []; }
    } else {
      var r, rest := records[0], Encode(records[1..]);
      assert r in records && forall x :: x in records[1..] ==> x in records;
      FramingRoundTrip(records[1..]);
      RecordHasNoRs(r);
      SplitAtFirst(Join(r, US), RS, rest);
      assert ([Join(r, US)] + Split(rest, RS))[1..] == Split(rest, RS);
      RecordIsBlankExactly(r);
      SplitJoin(r, US);
    }
  }

  // ---------------------------------------------------------------- the strip

  function Without(t: string, c: char): string {
    if t == "" then "" else (if t[0] == c then "" else [t[0]]) + Without(t[1..], c)
  }

  lemma {:induction false} GlueSplit(t: string, c: char)
    ensures Glue(Split(t, c)) == Without(t, c)
  {
    if t != "" {
      GlueSplit(t[1..], c);
      var rest := Split(t[1..], c);
      if t[0] == c {
        assert ([""] + rest)[1..] == rest;
      } else {
        assert ([[t[0]] + rest[0]] + rest[1..])[1..] == rest[1..];
        assert [t[0]] + (rest[0] + Glue(rest[1..])) == [t[0]] + rest[0] + Glue(rest[1..]);
      }
    }
  }

  lemma {:induction false} WithoutRemoves(t: string, c: char)
    ensures c !in Without(t, c) && forall x :: x in Without(t, c) ==> x in t
    ensures c !in t ==> Without(t, c) == t
  {
    if t != "" { WithoutRemoves(t[1..], c); }
  }

  /** The handler removes both separators, and changes no text that has neither. */
  lemma StripFramingRemovesSeparators(t: string)
    ensures Stripped(StripFraming(t)) && (31 as char) !in StripFraming(t) && (30 as char) !in StripFraming(t)
    ensures Stripped(t) ==> StripFraming(t) == t
  {
    GlueSplit(t, RS);
    GlueSplit(Without(t, RS), US);
    WithoutRemoves(t, RS);
    WithoutRemoves(Without(t, RS), US);
  }

  // ---------------------------------------------------------------- parse_framed

  datatype Field<V> = Field(name: string, coerce: string -> V, required: bool)
  /** `items` is None when no repeat spec was given. */
  datatype Parsed<V> = Parsed(head: map<string, V>, items: Option<seq<map<string, V>>>)

  predicate Missing(v: string) { Strip(v) == "" || Strip(v) == "missing value" }

  function ValueAt(values: seq<string>, i: nat): string { if i < |values| then values[i] else "" }

  /** `_build` from field `i` on. */
  function BuildFrom<V>(fields: seq<Field<V>>, values: seq<string>, i: nat, out: map<string, V>): Option<map<string, V>>
    decreases |fields| - i
  {
    if i >= |fields| then Some(out)
    else
      var (f, v) := (fields[i], ValueAt(values, i));
      if f.required && Missing(v) then None else BuildFrom(fields, values, i + 1, out[f.name := f.coerce(v)])
  }

  function BuildRecord<V>(fields: seq<Field<V>>, values: seq<string>): Option<map<string, V>> {
    BuildFrom(fields, values, 0, map[])
  }

  /** The wire holds nothing for field `i`: the record ends before it, it is blank, or it is
      AppleScript's own word for no value. */
  predicate Lacks(values: seq<string>, i: int) {
    0 <= i && (i >= |values| || Strip(values[i]) == "" || Strip(values[i]) == "missing value")
  }

  /** What field `i` reads: its value, or nothing past the end of the record. */
  ghost predicate HoldsField<V>(out: map<string, V>, fields: seq<Field<V>>, values: seq<string>, i: int)
    requires 0 <= i < |fields|
  {
    fields[i].name in out && out[fields[i].name] == fields[i].coerce(if i < |values| then values[i] else "")
  }

  /** No later field has the name of field `i`. */
  ghost predicate LastOfName<V>(fields: seq<Field<V>>, i: int)
    requires 0 <= i < |fields|
  {
    forall j :: i < j < |fields| ==> fields[j].name != fields[i].name
  }

  lemma {:induction false} BuildFromExactly<V>(fields: seq<Field<V>>, values: seq<string>, i: nat, out: map<string, V>)
    requires i <= |fields|
    ensures BuildFrom(fields, values, i, out).None? <==> exists j :: i <= j < |fields| && fields[j].required && Lacks(values, j)
    ensures BuildFrom(fields, values, i, out).Some? ==>
      var r := BuildFrom(fields, values, i, out).value;
      && (forall j :: i <= j < |fields| && LastOfName(fields, j) ==> HoldsField(r, fields, values, j))
      && (forall name :: name in r <==> name in out || exists j :: i <= j < |fields| && fields[j].name == name)
      && (forall name :: name in out && (forall j :: i <= j < |fields| ==> fields[j].name != name) ==> r[name] == out[name])
    decreases |fields| - i
  {
    hide Strip;
    if i < |fields| {
      var (f, v) := (fields[i], ValueAt(values, i));
      StripBlank("");
      if !(f.required && Missing(v)) { BuildFromExactly(fields, values, i + 1, out[f.name := f.coerce(v)]); }
    }
  }

  /** One record built: dropped exactly when a required field lacks its value; else it has the
      names of its fields and no other, and each name holds the coerced value of its last field. */
  lemma BuildRecordExactly<V>(fields: seq<Field<V>>, values: seq<string>)
    ensures BuildRecord(fields, values).None? <==> exists j :: 0 <= j < |fields| && fields[j].required && Lacks(values, j)
    ensures BuildRecord(fields, values).Some? ==>
      var r := BuildRecord(fields, values).value;
      && (forall name :: name in r <==> exists j :: 0 <= j < |fields| && fields[j].name == name)
      && (forall j :: 0 <= j < |fields| && LastOfName(fields, j) ==> HoldsField(r, fields, values, j))
  {
    BuildFromExactly(fields, values, 0, map[]);
  }

  method Build<V>(fields: seq<Field<V>>, values: seq<string>) returns (r: Option<map<string, V>>)
    ensures r == BuildRecord(fields, values)
  {
    var out: map<string, V> := map[];
    var i := 0;
    while i < |fields|
      invariant 0 <= i <= |fields|
      invariant BuildRecord(fields, values) == BuildFrom(fields, values, i, out)
    {
      var v := ValueAt(values, i);
      if fields[i].required && Missing(v) {
        return None;
      }
      out := out[fields[i].name := fields[i].coerce(v)];
      i := i + 1;
    }
    return Some(out);
  }

  function OptSeq<T>(o: Option<T>): seq<T> { if o.Some? then [o.value] else [] }

  /** The tuples of a record's tail, `n` values each; a partial last tuple is dropped. */
  function Items<V>(repeat: seq<Field<V>>, rest: seq<string>): seq<map<string, V>>
    requires repeat != []
    decreases |rest|
  {
    if |rest| < |repeat| then []
    else OptSeq(BuildRecord(repeat, rest[..|repeat|])) + Items(repeat, rest[|repeat|..])
  }

  function Drop(values: seq<string>, n: nat): seq<string> { if n <= |values| then values[n..] else [] }

  /** A repeat spec, when given, has at least one field. */
  predicate Steps<V>(repeat: Option<seq<Field<V>>>) { repeat.Some? ==> repeat.value != [] }

  function RestOf<V>(repeat: Option<seq<Field<V>>>, rest: seq<string>): Option<seq<map<string, V>>>
    requires Steps(repeat)
  {
    match repeat case None => None case Some(fs) => Some(Items(fs, rest))
  }

  /** One record; None when it is dropped. */
  function ParseRecord<V>(fields: seq<Field<V>>, need: nat, repeat: Option<seq<Field<V>>>, values: seq<string>): Option<Parsed<V>>
    requires Steps(repeat)
  {
    if |values| < need then None
    else match BuildRecord(fields, values)
      case None => None
      case Some(head) => Some(Parsed(head, RestOf(repeat, Drop(values, |fields|))))
  }

  function ParseRecords<V>(fields: seq<Field<V>>, need: nat, repeat: Option<seq<Field<V>>>, records: seq<seq<string>>): seq<Parsed<V>>
    requires Steps(repeat)
  {
    if records == [] then []
    else OptSeq(ParseRecord(fields, need, repeat, records[0])) + ParseRecords(fields, need, repeat, records[1..])
  }

  lemma ItemsUnfold<V>(repeat: seq<Field<V>>, first: seq<string>, rest: seq<string>)
    requires repeat != [] && |first| == |repeat|
    ensures Items(repeat, first + rest) == OptSeq(BuildRecord(repeat, first)) + Items(repeat, rest)
  {
    assert (first + rest)[..|repeat|] == first && (first + rest)[|repeat|..] == rest;
  }

  lemma Associative<T>(a: seq<T>, b: seq<T>, c: seq<T>)
    ensures a + (b + c) == a + b + c
  {
  }

  method ParseItems<V>(repeat: seq<Field<V>>, rest: seq<string>) returns (items: seq<map<string, V>>)
    requires repeat != []
    ensures items == Items(repeat, rest)
  {
    hide BuildRecord;
    var n, i := |repeat|, 0;
    items := [];
    assert rest[i..] == rest;
    while i < |rest| - (n - 1)
      invariant 0 <= i <= |rest|
      invariant Items(repeat, rest) == items + Items(repeat, rest[i..])
    {
      ghost var (first, tail) := (rest[i..i + n], rest[i + n..]);
      assert rest[i..] == first + tail;
      ItemsUnfold(repeat, first, tail);
      var item := Build(repeat, rest[i..i + n]);
      Associative(items, OptSeq(item), Items(repeat, tail));
      items := items + OptSeq(item);
      i := i + n;
    }
  }

  lemma RecordsStep<V>(fields: seq<Field<V>>, need: nat, repeat: Option<seq<Field<V>>>, records: seq<seq<string>>, i: nat, out: seq<Parsed<V>>)
    requires Steps(repeat) && i < |records|
    ensures out + ParseRecords(fields, need, repeat, records[i..])
      == out + OptSeq(ParseRecord(fields, need, repeat, records[i])) + ParseRecords(fields, need, repeat, records[i + 1..])
  {
    assert records[i..][0] == records[i] && records[i..][1..] == records[i + 1..];
  }

  function Need<V>(fields: seq<Field<V>>, minFields: Option<nat>): nat { if minFields.Some? then minFields.value else |fields| }

  /** One record of the loop below. */
  method ParseOne<V>(fields: seq<Field<V>>, need: nat, repeat: Option<seq<Field<V>>>, values: seq<string>) returns (r: Option<Parsed<V>>)
    requires Steps(repeat)
    ensures r == ParseRecord(fields, need, repeat, values)
  {
    if |values| < need {
      return None;
    }
    var head := Build(fields, values);
    if head.None? {
      return None;
    }
    if repeat.None? {
      return Some(Parsed(head.value, None));
    }
    var items := ParseItems(repeat.value, Drop(values, |fields|));
    r := Some(Parsed(head.value, Some(items)));
  }

  /** `parse_framed`, with and without `repeat`; `minFields` defaults to all of `fields`. */
  method ParseFramed<V>(raw: string, fields: seq<Field<V>>, minFields: Option<nat>, repeat: Option<seq<Field<V>>>) returns (out: seq<Parsed<V>>)
    requires Steps(repeat)
    ensures var need := if minFields.Some? then minFields.value else |fields|; out == ParseRecords(fields, need, repeat, SplitFramed(raw))
  {
    hide ParseRecord, SplitFramed, Steps;
    var need := Need(fields, minFields);
    var records, i := SplitFramed(raw), 0;
    out := [];
    assert records[i..] == records;
    while i < |records|
      invariant 0 <= i <= |records|
      invariant ParseRecords(fields, need, repeat, records) == out + ParseRecords(fields, need, repeat, records[i..])
    {
      RecordsStep(fields, need, repeat, records, i, out);
      var one := ParseOne(fields, need, repeat, records[i]);
      out := out + OptSeq(one);
      i := i + 1;
    }
  }

  function Flatten(tuples: seq<seq<string>>): seq<string> { if tuples == [] then [] else tuples[0] + Flatten(tuples[1..]) }

  function BuiltTuples<V>(repeat: seq<Field<V>>, tuples: seq<seq<string>>): seq<map<string, V>> {
    if tuples == [] then [] else OptSeq(BuildRecord(repeat, tuples[0])) + BuiltTuples(repeat, tuples[1..])
  }

  /** The items are the whole tuples, in order: only a partial tail and tuples missing a required field go. */
  lemma {:induction false} ItemsAreTheWholeTuples<V>(repeat: seq<Field<V>>, tuples: seq<seq<string>>, tail: seq<string>)
    requires repeat != [] && |tail| < |repeat| && forall t :: t in tuples ==> |t| == |repeat|
    ensures Items(repeat, Flatten(tuples) + tail) == BuiltTuples(repeat, tuples)
  {
    if tuples == [] {
      assert Flatten(tuples) + tail == tail;
    } else {
      var rest := Flatten(tuples[1..]) + tail;
      assert tuples[0] in tuples && forall t :: t in tuples[1..] ==> t in tuples;
      assert Flatten(tuples) + tail == tuples[0] + rest;
      ItemsUnfold(repeat, tuples[0], rest);
      ItemsAreTheWholeTuples(repeat, tuples[1..], tail);
    }
  }

  /** What a script sends for one record: a head, then tuples of the repeat spec and a cut-off
      tail; a head that is cut off itself has nothing after it. */
  datatype Sent = Sent(head: seq<string>, tuples: seq<seq<string>>, tail: seq<string>) {
    function Values(): seq<string> { head + (Flatten(tuples) + tail) }
  }

  ghost predicate WellSent<V>(fields: seq<Field<V>>, repeat: Option<seq<Field<V>>>, s: Sent) {
    && s.Values() != [] && (forall f :: f in s.Values() ==> Stripped(f))
    && (|s.head| == |fields| || (|s.head| < |fields| && s.tuples == [] && s.tail == []))
    && (repeat.Some? ==> |s.tail| < |repeat.value| && forall t :: t in s.tuples ==> |t| == |repeat.value|)
  }

  /** What its receiver gets: nothing for a blank record, one too short, or one that misses a
      required field; else its head and its whole tuples. */
  function Received<V>(fields: seq<Field<V>>, need: nat, repeat: Option<seq<Field<V>>>, s: Sent): seq<Parsed<V>> {
    if !HasText(s.Values()) || |s.Values()| < need then []
    else match BuildRecord(fields, s.Values())
      case None => []
      case Some(h) => [Parsed(h, match repeat case None => None case Some(fs) => Some(BuiltTuples(fs, s.tuples)))]
  }

  function ReceivedAll<V>(fields: seq<Field<V>>, need: nat, repeat: Option<seq<Field<V>>>, sent: seq<Sent>): seq<Parsed<V>> {
    if sent == [] then [] else Received(fields, need, repeat, sent[0]) + ReceivedAll(fields, need, repeat, sent[1..])
  }

  function Wire(sent: seq<Sent>): seq<seq<string>> { if sent == [] then [] else [sent[0].Values()] + Wire(sent[1..]) }

  lemma SentRecordIsParsed<V>(fields: seq<Field<V>>, need: nat, repeat: Option<seq<Field<V>>>, s: Sent)
    requires Steps(repeat) && WellSent(fields, repeat, s)
    ensures HasText(s.Values()) ==>
      OptSeq(ParseRecord(fields, need, repeat, s.Values())) == Received(fields, need, repeat, s)
  {
    if |s.head| == |fields| {
      assert Drop(s.Values(), |fields|) == Flatten(s.tuples) + s.tail;
    } else {
      assert s.Values() == s.head;
    }
    if repeat.Some? { ItemsAreTheWholeTuples(repeat.value, s.tuples, s.tail); }
  }

  lemma {:induction false} WireIsSendable<V>(fields: seq<Field<V>>, repeat: Option<seq<Field<V>>>, sent: seq<Sent>)
    requires forall s :: s in sent ==> WellSent(fields, repeat, s)
    ensures Sendable(Wire(sent))
  {
    hide Stripped;
    if sent != [] {
      assert sent[0] in sent && forall s :: s in sent[1..] ==> s in sent;
      WireIsSendable(fields, repeat, sent[1..]);
    }
  }

  lemma WithTextStep(r: seq<string>, rest: seq<seq<string>>)
    ensures WithText([r] + rest) == (if HasText(r) then [r] else []) + WithText(rest)
  {
    assert ([r] + rest)[1..] == rest;
  }

  lemma ParseRecordsStep<V>(fields: seq<Field<V>>, need: nat, repeat: Option<seq<Field<V>>>, r: seq<string>, rest: seq<seq<string>>)
    requires Steps(repeat)
    ensures ParseRecords(fields, need, repeat, [r] + rest) == OptSeq(ParseRecord(fields, need, repeat, r)) + ParseRecords(fields, need, repeat, rest)
  {
    hide ParseRecord;
    assert ([r] + rest)[1..] == rest;
  }

  lemma {:induction false} WithTextIsParsed<V>(fields: seq<Field<V>>, need: nat, repeat: Option<seq<Field<V>>>, sent: seq<Sent>)
    requires Steps(repeat) && forall s :: s in sent ==> WellSent(fields, repeat, s)
    ensures ParseRecords(fields, need, repeat, WithText(Wire(sent))) == ReceivedAll(fields, need, repeat, sent)
  {
    hide ParseRecord, WellSent, HasText, Steps;
    if sent != [] {
      assert sent[0] in sent && forall s :: s in sent[1..] ==> s in sent;
      WithTextIsParsed(fields, need, repeat, sent[1..]);
      var (r, rest) := (sent[0].Values(), WithText(Wire(sent[1..])));
      WithTextStep(r, Wire(sent[1..]));
      SentRecordIsParsed(fields, need, repeat, sent[0]);
      if HasText(r) {
        ParseRecordsStep(fields, need, repeat, r, rest);
      } else {
        assert [] + rest == rest;
        BlankIsDropped(fields, need, repeat, sent[0]);
      }
    }
  }

  lemma BlankIsDropped<V>(fields: seq<Field<V>>, need: nat, repeat: Option<seq<Field<V>>>, s: Sent)
    requires !HasText(s.Values())
    ensures Received(fields, need, repeat, s) == []
  {
  }

  /** A whole payload comes back record by record, in order: of each sent record its head and
      its whole tuples, dropped only when blank, too short or missing a required field. */
  lemma SentPayloadIsParsed<V>(fields: seq<Field<V>>, minFields: Option<nat>, repeat: Option<seq<Field<V>>>, sent: seq<Sent>)
    requires Steps(repeat) && forall s :: s in sent ==> WellSent(fields, repeat, s)
    ensures var need := if minFields.Some? then minFields.value else |fields|;
      ParseRecords(fields, need, repeat, SplitFramed(Encode(Wire(sent)))) == ReceivedAll(fields, need, repeat, sent)
  {
    hide Received, WellSent, ParseRecord, SplitFramed, Encode;
    WireIsSendable(fields, repeat, sent);
    WithTextIsParsed(fields, Need(fields, minFields), repeat, sent);
    FramingRoundTrip(Wire(sent));
  }
}
