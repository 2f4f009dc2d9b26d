/** The Python string operations the parsers use, with the facts that make them inverses. */
module Strings {
  import opened Prelude

  /** `str.isspace` of one character; note that U+001C to U+001F count as whitespace. */
  predicate IsSpace(c: char) {
    var n := c as int;
    9 <= n <= 13 || 28 <= n <= 32 || n == 133 || n == 160 || n == 0x1680 || 0x2000 <= n <= 0x200a
    || n == 0x2028 || n == 0x2029 || n == 0x202f || n == 0x205f || n == 0x3000
  }

  function LStrip(s: string): string {
    if s != "" && IsSpace(s[0]) then LStrip(s[1..]) else s
  }

  function RStrip(s: string): string {
    if s != "" && IsSpace(s[|s| - 1]) then RStrip(s[..|s| - 1]) else s
  }

  /** `s.strip()` */
  function Strip(s: string): string { RStrip(LStrip(s)) }

  predicate IsDigit(c: char) { '0' <= c <= '9' }
  predicate IsLetter(c: char) { 'A' <= c <= 'Z' || 'a' <= c <= 'z' }

  function UpperChar(c: char): char {
    if 'a' <= c <= 'z' then (c as int - 32) as char else c
  }

  /** `s.upper()`, on ASCII letters. */
  function Upper(s: string): (r: string)
    ensures |r| == |s| && forall i :: 0 <= i < |s| ==> r[i] == UpperChar(s[i])
  {
    seq(|s|, i requires 0 <= i < |s| => UpperChar(s[i]))
  }

  /** `s.split(c)` */
  function Split(s: string, c: char): (parts: seq<string>)
    ensures parts != []
  {
    if s == "" then [""] else
      var rest := Split(s[1..], c);
      if s[0] == c then [""] + rest else [[s[0]] + rest[0]] + rest[1..]
  }

  /** `c.join(parts)` */
  function Join(parts: seq<string>, c: char): string {
    if parts == [] then "" else if |parts| == 1 then parts[0] else parts[0] + [c] + Join(parts[1..], c)
  }

  /** The text before and after the first `c`, or None: `s.partition(c)`. */
  function Partition(s: string, c: char): Option<(string, string)> {
    if s == "" then None
    else if s[0] == c then Some(("", s[1..]))
    else match Partition(s[1..], c)
      case None => None
      case Some((a, b)) => Some(([s[0]] + a, b))
  }

  lemma {:induction false} SplitAtFirst(a: string, c: char, b: string)
    requires c !in a
    ensures Split(a, c) == [a]
    ensures Split(a + [c] + b, c) == [a] + Split(b, c)
  {
    var s := a + [c] + b;
    if a == "" {
      assert s[1..] == b;
    } else {
      assert s[1..] == a[1..] + [c] + b;
      SplitAtFirst(a[1..], c, b);
      assert [a[0]] + a[1..] == a;
    }
  }

  /** Splitting what was joined gives the parts back, if none of them holds the separator. */
  lemma {:induction false} SplitJoin(parts: seq<string>, c: char)
    requires parts != [] && forall p :: p in parts ==> c !in p
    ensures Split(Join(parts, c), c) == parts
  {
    SplitAtFirst(parts[0], c, Join(parts[1..], c));
    if |parts| > 1 {
      SplitJoin(parts[1..], c);
    }
  }

  lemma {:induction false} PartitionAtFirst(a: string, c: char, b: string)
    requires c !in a
    ensures Partition(a + [c] + b, c) == Some((a, b))
  {
    var s := a + [c] + b;
    if a == "" {
      assert s[1..] == b;
    } else {
      assert s[1..] == a[1..] + [c] + b;
      PartitionAtFirst(a[1..], c, b);
      assert [a[0]] + a[1..] == a;
    }
  }

  lemma {:induction false} JoinMembers(parts: seq<string>, c: char)
    ensures forall x :: x in Join(parts, c) ==> x == c || exists p :: p in parts && x in p
  {
    if |parts| > 1 {
      JoinMembers(parts[1..], c);
    }
  }

  lemma StripIsIdentity(s: string)
    requires s == "" || (!IsSpace(s[0]) && !IsSpace(s[|s| - 1]))
    ensures Strip(s) == s
  {
  }

  /** Only the parts between separators, and joining them gives the text back. */
  lemma {:induction false} SplitExactly(s: string, c: char)
    ensures Join(Split(s, c), c) == s && forall p :: p in Split(s, c) ==> c !in p
  {
    if s != "" {
      SplitExactly(s[1..], c);
      var rest := Split(s[1..], c);
      if s[0] == c {
        assert ([""] + rest)[1..] == rest;
      } else {
        assert ([[s[0]] + rest[0]] + rest[1..])[1..] == rest[1..];
        assert s == [s[0]] + s[1..];
      }
    }
  }

  /** A cut at the first separator, or no separator at all. */
  lemma {:induction false} PartitionExactly(s: string, c: char)
    ensures Partition(s, c).None? <==> c !in s
    ensures Partition(s, c).Some? ==> var (a, b) := Partition(s, c).value; s == a + [c] + b && c !in a
  {
    if s != "" && s[0] != c {
      PartitionExactly(s[1..], c);
      assert s == [s[0]] + s[1..];
    }
  }

  ghost predicate AllSpace(s: string) { forall c :: c in s ==> IsSpace(c) }

  /** What `strip` takes off is whitespace, and none is left at either end. */
  lemma StripExactly(s: string) returns (a: string, b: string)
    ensures s == a + Strip(s) + b && AllSpace(a) && AllSpace(b)
    ensures Strip(s) == "" || (!IsSpace(Strip(s)[0]) && !IsSpace(Strip(s)[|Strip(s)| - 1]))
  {
    a := LStripCuts(s);
    b := RStripCuts(LStrip(s));
    assert a + (Strip(s) + b) == a + Strip(s) + b;
  }

  lemma {:induction false} LStripCuts(s: string) returns (a: string)
    ensures s == a + LStrip(s) && AllSpace(a) && (LStrip(s) == "" || !IsSpace(LStrip(s)[0]))
  {
    a := "";
    if s != "" && IsSpace(s[0]) {
      var rest := LStripCuts(s[1..]);
      a := [s[0]] + rest;
      assert s == [s[0]] + s[1..];
    }
  }

  lemma {:induction false} RStripCuts(s: string) returns (b: string)
    ensures s == RStrip(s) + b && AllSpace(b) && (RStrip(s) == "" || !IsSpace(RStrip(s)[|RStrip(s)| - 1]))
    ensures RStrip(s) != "" ==> RStrip(s)[0] == s[0]
  {
    b := "";
    if s != "" && IsSpace(s[|s| - 1]) {
      var rest := RStripCuts(s[..|s| - 1]);
      b := rest + [s[|s| - 1]];
      assert s == s[..|s| - 1] + [s[|s| - 1]];
    }
  }

  // ---------------------------------------------------------------- integers as text

  function DigitChar(d: nat): char
    requires d < 10
  {
    ('0' as int + d) as char
  }

  function DigitValue(c: char): nat
    requires IsDigit(c)
  {
    c as int - '0' as int
  }

  function NatText(n: nat): (s: string)
    ensures s != "" && forall c :: c in s ==> IsDigit(c)
  {
    if n < 10 then [DigitChar(n)] else NatText(n / 10) + [DigitChar(n % 10)]
  }

  /** `str(n)` */
  function IntText(n: int): string {
    if n < 0 then "-" + NatText(-n) else NatText(n)
  }

  /** Digits with single underscores between them; `prev` says a digit was just read. */
  function ParseDigits(s: string, acc: int, prev: bool): Option<int> {
    if s == "" then (if prev then Some(acc) else None)
    else if IsDigit(s[0]) then ParseDigits(s[1..], acc * 10 + DigitValue(s[0]), true)
    else if s[0] == '_' && prev then ParseDigits(s[1..], acc, false)
    else None
  }

  /** `int(s)`, on ASCII digits. */
  function ParseInt(text: string): Option<int> {
    var s := Strip(text);
    if s == "" then None
    else
      var digits := if s[0] == '-' || s[0] == '+' then s[1..] else s;
      match ParseDigits(digits, 0, false)
      case None => None
      case Some(n) => Some(if s[0] == '-' then -n else n)
  }

  lemma {:induction false} ParseDigitsOfNat(n: nat, rest: string)
    ensures ParseDigits(NatText(n) + rest, 0, false) == ParseDigits(rest, n, true)
  {
    if n < 10 {
      var s := NatText(n) + rest;
      assert s[0] == DigitChar(n) && s[1..] == rest;
    } else {
      var last := [DigitChar(n % 10)];
      assert NatText(n) + rest == NatText(n / 10) + (last + rest);
      ParseDigitsOfNat(n / 10, last + rest);
      assert (last + rest)[1..] == rest;
    }
  }

  /** Every integer survives being printed and parsed. */
  lemma ParseIntText(n: int)
    ensures ParseInt(IntText(n)) == Some(n)
    ensures IntText(n) != "" && forall c :: c in IntText(n) ==> IsDigit(c) || c == '-'
  {
    var s := IntText(n);
    assert s[0] in s && s[|s| - 1] in s;
    StripIsIdentity(s);
    var digits := NatText(if n < 0 then -n else n);
    assert digits + "" == digits;
    ParseDigitsOfNat(if n < 0 then -n else n, "");
    if n < 0 {
      assert s[1..] == digits;
    } else {
      assert s[0] in digits;
    }
  }

  /** Digits, with single underscores between two of them. */
  ghost predicate Underscored(s: string) {
    && Open(s) && s != "" && s[|s| - 1] != '_'
  }

  /** How such a number may begin. */
  ghost predicate Open(s: string) {
    && (forall c :: c in s ==> IsDigit(c) || c == '_')
    && (s == "" || s[0] != '_')
    && forall i :: 0 <= i < |s| - 1 ==> s[i] != '_' || s[i + 1] != '_'
  }

  /** The number written, underscores aside. */
  ghost function Decimal(s: string): int {
    if s == "" then 0
    else
      var (before, last) := (s[..|s| - 1], s[|s| - 1]);
      if IsDigit(last) then Decimal(before) * 10 + (last as int - 48) else Decimal(before)
  }

  lemma OpenSnoc(p: string, c: char)
    requires Open(p)
    ensures Open(p + [c]) <==> IsDigit(c) || (c == '_' && p != "" && p[|p| - 1] != '_')
    ensures Decimal(p + [c]) == if IsDigit(c) then Decimal(p) * 10 + (c as int - 48) else Decimal(p)
  {
    var s := p + [c];
    assert s[..|s| - 1] == p && s[|s| - 1] == c && c in s;
    assert forall d :: d in s <==> d in p || d == c;
    if p != "" { assert s[|p| - 1] == p[|p| - 1] && s[|p| - 1 + 1] == c && s[0] == p[0]; } else { assert s[0] == c; }
  }

  lemma OpenPrefix(p: string, s: string)
    requires Open(p + s)
    ensures Open(p)
  {
    assert forall d :: d in p ==> d in p + s;
    if p != "" { assert (p + s)[0] == p[0]; }
    forall i | 0 <= i < |p| - 1 ensures p[i] != '_' || p[i + 1] != '_' { assert (p + s)[i] == p[i] && (p + s)[i + 1] == p[i + 1]; }
  }

  /** After the text `p` has been read, the rest is read as the end of the whole. */
  lemma {:induction false} ParseDigitsFrom(p: string, s: string)
    requires Open(p)
    ensures var prev := p != "" && p[|p| - 1] != '_';
      ParseDigits(s, Decimal(p), prev) == if Underscored(p + s) then Some(Decimal(p + s)) else None
    decreases |s|
  {
    hide Open, Decimal;
    if s == "" {
      assert p + s == p;
    } else {
      var next := p + [s[0]];
      assert next + s[1..] == p + s;
      OpenSnoc(p, s[0]);
      if Open(next) {
        ParseDigitsFrom(next, s[1..]);
      } else if Open(p + s) {
        OpenPrefix(next, s[1..]);
      }
    }
  }

  /** The text of an integer: an optional sign and digits, single underscores between them. */
  ghost predicate ReadsAs(s: string, n: int) {
    || (Underscored(s) && n == Decimal(s))
    || (s != "" && s[0] == '+' && Underscored(s[1..]) && n == Decimal(s[1..]))
    || (s != "" && s[0] == '-' && Underscored(s[1..]) && n == -Decimal(s[1..]))
  }

  /** `int(s)`: exactly the texts that write an integer, and the integer they write. */
  lemma ParseIntExactly(text: string, n: int)
    ensures ParseInt(text) == Some(n) <==> ReadsAs(Strip(text), n)
  {
    var s := Strip(text);
    if s != "" {
      var digits := if s[0] == '-' || s[0] == '+' then s[1..] else s;
      ParseDigitsFrom("", digits);
      assert "" + digits == digits;
      assert s[0] in s;
    }
    hide ParseDigits, Decimal, Strip;
  }
}
