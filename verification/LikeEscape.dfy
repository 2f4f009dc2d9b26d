/** LIKE patterns over escaped values (`like_escape` and its filters in `mail_index.py`). */
module LikeEscape {
  import opened Prelude
  import opened MailIndex
  import opened LabelGuard

  /** `s.replace(c, r)` for a one-character `c`. */
  function Replace(s: string, c: char, r: string): string {
    if s == "" then "" else (if s[0] == c then r else [s[0]]) + Replace(s[1..], c, r)
  }

  /** The three replacements, backslash first. */
  function Escape(v: string): string {
    Replace(Replace(Replace(v, '\\', "\\\\"), '%', "\\%"), '_', "\\_")
  }

  datatype Token = Any | One | Lit(c: char)

  /** A pattern under ESCAPE '\': the escaped character is literal, and a trailing escape matches nothing. */
  function Tokens(p: string): Option<seq<Token>> {
    if p == "" then Some([])
    else if p[0] == '\\' then
      if |p| == 1 then None
      else match Tokens(p[2..]) case None => None case Some(ts) => Some([Lit(p[1])] + ts)
    else match Tokens(p[1..])
      case None => None
      case Some(ts) => Some([if p[0] == '%' then Any else if p[0] == '_' then One else Lit(p[0])] + ts)
  }

  /** SQLite's LIKE folds the case of ASCII letters only. */
  function Fold(c: char): char { if 'A' <= c <= 'Z' then (c as int + 32) as char else c }

  function FoldAll(s: string): (r: string)
    ensures |r| == |s| && forall i :: 0 <= i < |s| ==> r[i] == Fold(s[i])
  {
    seq(|s|, i requires 0 <= i < |s| => Fold(s[i]))
  }

  predicate Matches(ts: seq<Token>, s: string)
    decreases |ts| + |s|
  {
    if ts == [] then s == ""
    else match ts[0]
      case Any => Matches(ts[1..], s) || (s != "" && Matches(ts, s[1..]))
      case One => s != "" && Matches(ts[1..], s[1..])
      case Lit(c) => s != "" && Fold(s[0]) == Fold(c) && Matches(ts[1..], s[1..])
  }

  /** `s LIKE p ESCAPE '\'` */
  predicate Like(s: string, p: string) {
    match Tokens(p) case None => false case Some(ts) => Matches(ts, s)
  }

  // ---------------------------------------------------------------- one character at a time

  function EscapeChar(c: char): string { if c == '\\' || c == '%' || c == '_' then ['\\', c] else [c] }

  function EscapeEach(v: string): string { if v == "" then "" else EscapeChar(v[0]) + EscapeEach(v[1..]) }

  lemma {:induction false} ReplaceConcat(a: string, b: string, c: char, r: string)
    ensures Replace(a + b, c, r) == Replace(a, c, r) + Replace(b, c, r)
  {
    if a == "" {
      assert a + b == b;
    } else {
      assert (a + b)[1..] == a[1..] + b;
      ReplaceConcat(a[1..], b, c, r);
    }
  }

  lemma ReplaceOne(c: char, x: char, r: string)
    ensures Replace([c], x, r) == if c == x then r else [c]
  {
    assert [c][1..] == "";
  }

  lemma ReplaceNone(c: char, d: char, x: char, r: string)
    requires c != x && d != x
    ensures Replace([c, d], x, r) == [c, d]
  {
    assert [c, d] == [c] + [d];
    ReplaceConcat([c], [d], x, r);
    ReplaceOne(c, x, r);
    ReplaceOne(d, x, r);
  }

  lemma EscapeOne(c: char)
    ensures Escape([c]) == EscapeChar(c)
  {
    ReplaceOne(c, '\\', "\\\\");
    ReplaceOne(c, '%', "\\%");
    ReplaceOne(c, '_', "\\_");
    if c == '\\' {
      assert Replace([c], '\\', "\\\\") == [c, c];
      ReplaceNone(c, c, '%', "\\%");
      ReplaceNone(c, c, '_', "\\_");
    } else if c == '%' {
      assert Replace([c], '%', "\\%") == ['\\', c];
      ReplaceNone('\\', c, '_', "\\_");
    }
  }

  lemma EscapeConcat(a: string, b: string)
    ensures Escape(a + b) == Escape(a) + Escape(b)
  {
    ReplaceConcat(a, b, '\\', "\\\\");
    var (a1, b1) := (Replace(a, '\\', "\\\\"), Replace(b, '\\', "\\\\"));
    ReplaceConcat(a1, b1, '%', "\\%");
    ReplaceConcat(Replace(a1, '%', "\\%"), Replace(b1, '%', "\\%"), '_', "\\_");
  }

  /** The three passes never touch each other's backslashes: they are one map over characters. */
  lemma {:induction false} ThreePassesAreOneMap(v: string)
    ensures Escape(v) == EscapeEach(v)
  {
    if v != "" {
      assert v == [v[0]] + v[1..];
      EscapeConcat([v[0]], v[1..]);
      EscapeOne(v[0]);
      ThreePassesAreOneMap(v[1..]);
    }
  }

  function Lits(v: string): (ts: seq<Token>)
    ensures |ts| == |v| && forall i :: 0 <= i < |v| ==> ts[i] == Lit(v[i])
  {
    seq(|v|, i requires 0 <= i < |v| => Lit(v[i]))
  }

  /** An escaped value reads as its own characters, whatever follows. */
  lemma {:induction false} EscapedIsLiteral(v: string, rest: string)
    requires Tokens(rest).Some?
    ensures Tokens(EscapeEach(v) + rest) == Some(Lits(v) + Tokens(rest).value)
  {
    if v == "" {
      assert EscapeEach(v) + rest == rest && Lits(v) + Tokens(rest).value == Tokens(rest).value;
    } else {
      EscapedIsLiteral(v[1..], rest);
      var tail := EscapeEach(v[1..]) + rest;
      assert EscapeEach(v) + rest == EscapeChar(v[0]) + tail;
      TokensOfChar(v[0], tail);
      LitsMore(v, Tokens(rest).value);
    }
  }

  lemma TokensOfChar(c: char, tail: string)
    requires Tokens(tail).Some?
    ensures Tokens(EscapeChar(c) + tail) == Some([Lit(c)] + Tokens(tail).value)
  {
    var p := EscapeChar(c) + tail;
    if c == '\\' || c == '%' || c == '_' {
      assert p[0] == '\\' && p[1] == c && p[2..] == tail;
    } else {
      assert p[0] == c && p[1..] == tail;
    }
  }

  lemma LitsMore(v: string, ts: seq<Token>)
    requires v != ""
    ensures [Lit(v[0])] + (Lits(v[1..]) + ts) == Lits(v) + ts
  {
    assert Lits(v) == [Lit(v[0])] + Lits(v[1..]);
  }

  // ---------------------------------------------------------------- matching

  /** `v` stands at place `i` of `s`, up to ASCII letter case. */
  predicate StandsAt(s: string, i: int, v: string) {
    0 <= i && i + |v| <= |s| && FoldAll(s[i..i + |v|]) == FoldAll(v)
  }

  /** One letter in either case, or one character. */
  predicate SameLetter(a: char, b: char) {
    || a == b
    || ('A' <= a <= 'Z' && 'a' <= b <= 'z' && b as int - 'a' as int == a as int - 'A' as int)
    || ('A' <= b <= 'Z' && 'a' <= a <= 'z' && a as int - 'a' as int == b as int - 'A' as int)
  }

  /** The same, character by character. */
  ghost predicate SpeltAt(s: string, i: int, v: string) {
    0 <= i && i + |v| <= |s| && forall j :: 0 <= j < |v| ==> SameLetter(s[i + j], v[j])
  }

  lemma SpeltExactly(s: string, i: int, v: string)
    ensures StandsAt(s, i, v) <==> SpeltAt(s, i, v)
  {
    forall a, b ensures Fold(a) == Fold(b) <==> SameLetter(a, b) {}
    hide Fold, SameLetter;
    if 0 <= i && i + |v| <= |s| {
      var part := s[i..i + |v|];
      forall j | 0 <= j < |v| ensures part[j] == s[i + j] {}
      if StandsAt(s, i, v) {
        forall j | 0 <= j < |v| ensures SameLetter(s[i + j], v[j]) { assert FoldAll(part)[j] == FoldAll(v)[j]; }
      }
      if SpeltAt(s, i, v) {
        forall j | 0 <= j < |v| ensures FoldAll(part)[j] == FoldAll(v)[j] { assert SameLetter(s[i + j], v[j]); }
        assert FoldAll(part) == FoldAll(v);
      }
    }
  }

  /** Unescaped, `_` stands for any one character. */
  lemma UnderscoreIsAnyCharacter(s: string)
    ensures Like(s, "_") <==> |s| == 1
  {
    var none: seq<Token> := [];
    assert "_"[1..] == "" && [One] + none == [One] && [One][1..] == none;
    assert Tokens("") == Some(none);
    assert Tokens("_") == Some([One]);
    assert Matches([One], s) <==> s != "" && Matches(none, s[1..]);
  }

  lemma {:induction false} AnyTail(s: string)
    ensures Matches([Any], s)
  {
    assert [Any][1..] == [];
    if s != "" { AnyTail(s[1..]); }
  }

  lemma {:induction false} LiteralsMatchAPrefix(v: string, s: string)
    ensures Matches(Lits(v) + [Any], s) <==> StandsAt(s, 0, v)
  {
    var ts := Lits(v) + [Any];
    if v == "" {
      assert ts == [Any];
      AnyTail(s);
    } else {
      assert ts[1..] == Lits(v[1..]) + [Any];
      if s != "" {
        LiteralsMatchAPrefix(v[1..], s[1..]);
        StandsAtStep(s, v);
      }
    }
  }

  lemma StandsAtStep(s: string, v: string)
    requires s != "" && v != ""
    ensures StandsAt(s, 0, v) <==> Fold(s[0]) == Fold(v[0]) && StandsAt(s[1..], 0, v[1..])
  {
    if |v| <= |s| {
      var (a, b) := (FoldAll(s[..|v|]), FoldAll(v));
      var (c, d) := (FoldAll(s[1..][..|v| - 1]), FoldAll(v[1..]));
      assert a == [Fold(s[0])] + c && b == [Fold(v[0])] + d;
      assert a[1..] == c && b[1..] == d;
    }
  }

  lemma StandsAtTail(s: string, i: int, v: string)
    requires s != "" && i >= 1
    ensures StandsAt(s, i, v) <==> StandsAt(s[1..], i - 1, v)
  {
    if i + |v| <= |s| {
      var (a, b) := (s[i..i + |v|], s[1..][i - 1..i - 1 + |v|]);
      assert a == b;
    }
  }

  lemma {:induction false} AnyFindsAPlace(v: string, s: string)
    ensures Matches([Any] + Lits(v) + [Any], s) <==> exists i :: StandsAt(s, i, v)
  {
    var ts := [Any] + Lits(v) + [Any];
    assert ts[1..] == Lits(v) + [Any];
    LiteralsMatchAPrefix(v, s);
    if s != "" {
      AnyFindsAPlace(v, s[1..]);
      forall i | i >= 1 ensures StandsAt(s, i, v) <==> StandsAt(s[1..], i - 1, v) { StandsAtTail(s, i, v); }
      if exists j :: StandsAt(s[1..], j, v) {
        var j :| StandsAt(s[1..], j, v);
        assert StandsAt(s, j + 1, v);
      }
    }
  }

  /** Escaping makes LIKE literal: the filter `%value%` matches exactly the texts that hold
      the value, wildcards and backslashes included, up to ASCII letter case. */
  lemma EscapedLikeIsSubstring(v: string, s: string)
    ensures Like(s, "%" + Escape(v) + "%") <==> exists i :: StandsAt(s, i, v)
    ensures Like(s, "%" + Escape(v) + "%") <==> exists i :: SpeltAt(s, i, v)
  {
    forall i { SpeltExactly(s, i, v); }
    ThreePassesAreOneMap(v);
    assert "%"[1..] == "";
    var none: seq<Token> := [];
    assert [Any] + none == [Any];
    assert Tokens("") == Some(none) && Tokens("%") == Some([Any]);
    EscapedIsLiteral(v, "%");
    var p := "%" + Escape(v) + "%";
    assert p[1..] == EscapeEach(v) + "%";
    assert [Any] + (Lits(v) + [Any]) == [Any] + Lits(v) + [Any];
    AnyFindsAPlace(v, s);
  }

  // ---------------------------------------------------------------- the account filter

  lemma {:induction false} EscapeLeavesPlain(v: string)
    requires '\\' !in v && '%' !in v && '_' !in v
    ensures EscapeEach(v) == v
  {
    if v != "" {
      EscapeLeavesPlain(v[1..]);
      assert v == [v[0]] + v[1..];
    }
  }

  lemma {:induction false} EscapeEachConcat(a: string, b: string)
    ensures EscapeEach(a + b) == EscapeEach(a) + EscapeEach(b)
  {
    if a == "" {
      assert a + b == b;
    } else {
      assert (a + b)[1..] == a[1..] + b;
      EscapeEachConcat(a[1..], b);
    }
  }

  /** `url || '/' LIKE '%://' || ? || '/%'` */
  predicate AccountFilter(url: string, value: string) { Like(url + "/", "%://" + Escape(value) + "/%") }

  /** The account filter looks for the value between `://` and a slash, anywhere in the url. */
  lemma AccountFilterIsASubstring(url: string, value: string)
    ensures AccountFilter(url, value) <==> exists i :: StandsAt(url + "/", i, "://" + value + "/")
  {
    var w := "://" + value + "/";
    ThreePassesAreOneMap(value);
    ThreePassesAreOneMap(w);
    EscapeLeavesPlain("://");
    EscapeLeavesPlain("/");
    EscapeEachConcat("://" + value, "/");
    EscapeEachConcat("://", value);
    assert "%" + Escape(w) + "%" == "%://" + Escape(value) + "/%";
    EscapedLikeIsSubstring(w, url + "/");
  }

  /** `://` stands in the url at one place only. */
  ghost predicate OneAuthority(url: string) {
    forall i, j :: At(url + "/", i, "://") && At(url + "/", j, "://") ==> i == j
  }

  lemma FoldKeepsPunctuation(c: char, d: char)
    requires c == '/' || c == ':'
    ensures Fold(d) == Fold(c) <==> d == c
  {
  }

  /** A place where the filter's text stands, cut into its three pieces. */
  lemma PlaceOfFilter(u: string, i: int, value: string)
    ensures StandsAt(u, i, "://" + value + "/") <==>
      At(u, i, "://") && i + 4 + |value| <= |u| && u[i + 3 + |value|] == '/'
      && FoldAll(u[i + 3..i + 3 + |value|]) == FoldAll(value)
  {
    var w := "://" + value + "/";
    if 0 <= i && i + |w| <= |u| {
      var piece := u[i..i + |w|];
      var middle := u[i + 3..i + 3 + |value|];
      assert piece == u[i..i + 3] + middle + [u[i + 3 + |value|]];
      var (a, b) := (FoldAll(piece), FoldAll(w));
      assert a[3..3 + |value|] == FoldAll(middle) && b[3..3 + |value|] == FoldAll(value);
      FoldKeepsPunctuation(':', piece[0]);
      FoldKeepsPunctuation('/', piece[1]);
      FoldKeepsPunctuation('/', piece[2]);
      FoldKeepsPunctuation('/', piece[3 + |value|]);
      if At(u, i, "://") && u[i + 3 + |value|] == '/' && FoldAll(middle) == FoldAll(value) {
        assert a == FoldAll(u[i..i + 3]) + FoldAll(middle) + [Fold('/')];
        assert b == FoldAll("://") + FoldAll(value) + [Fold('/')];
      }
    }
  }

  /** Where the url's one authority lies, and what follows it. */
  lemma AuthorityPlace(url: string)
    requires Parse(url).Some?
    ensures var (scheme, account, _) := Parse(url).value; var (u, k) := (url + "/", |scheme|);
      && '/' !in account && At(u, k, "://") && k + 3 + |account| < |u|
      && u[k + 3..k + 3 + |account|] == account && u[k + 3 + |account|] == '/'
  {
    var (scheme, account, _) := Parse(url).value;
    UrlParts(url);
    FindSpec(url, "://");
    AtPrefix(url, "/", |scheme|, "://");
  }

  lemma OwnAccountPasses(url: string, value: string)
    requires Parse(url).Some? && FoldAll(value) == FoldAll(Parse(url).value.1)
    ensures AccountFilter(url, value)
  {
    AuthorityPlace(url);
    StandsThere(url + "/", |Parse(url).value.0|, Parse(url).value.1, value);
    AccountFilterIsASubstring(url, value);
  }

  lemma StandsThere(u: string, k: nat, account: string, value: string)
    requires At(u, k, "://") && k + 3 + |account| < |u|
    requires u[k + 3..k + 3 + |account|] == account && u[k + 3 + |account|] == '/'
    requires FoldAll(value) == FoldAll(account)
    ensures StandsAt(u, k, "://" + value + "/")
  {
    assert |FoldAll(value)| == |value| && |FoldAll(account)| == |account|;
    PlaceOfFilter(u, k, value);
  }

  /** For a value that is one url segment and a url with one authority, the account filter
      holds exactly for the url's own account, up to ASCII letter case. */
  lemma AccountFilterIsExact(url: string, value: string)
    requires Parse(url).Some? && OneAuthority(url) && '/' !in value
    ensures AccountFilter(url, value) <==> FoldAll(value) == FoldAll(Parse(url).value.1)
  {
    hide Parse, AccountFilter, OneAuthority, FoldAll;
    var u, k, account := url + "/", |Parse(url).value.0|, Parse(url).value.1;
    if FoldAll(value) == FoldAll(account) {
      OwnAccountPasses(url, value);
    } else if AccountFilter(url, value) {
      AuthorityPlace(url);
      AccountFilterIsASubstring(url, value);
      var i :| StandsAt(u, i, "://" + value + "/");
      PlaceOfFilter(u, i, value);
      OnlyPlace(url, i, k);
      SameLengthSegment(u[k + 3..], account, value);
    }
  }

  lemma OnlyPlace(url: string, i: int, j: int)
    requires OneAuthority(url) && At(url + "/", i, "://") && At(url + "/", j, "://")
    ensures i == j
  {
  }

  /** Up to the first slash there is one segment. */
  lemma SameLengthSegment(rest: string, account: string, value: string)
    requires '/' !in account && '/' !in value
    requires |account| < |rest| && rest[..|account|] == account && rest[|account|] == '/'
    requires |value| < |rest| && rest[|value|] == '/' && FoldAll(rest[..|value|]) == FoldAll(value)
    ensures |account| == |value| && FoldAll(account) == FoldAll(value)
  {
    forall j | 0 <= j < |value| ensures rest[j] != '/' {
      FoldKeepsPunctuation('/', value[j]);
      FoldKeepsPunctuation('/', rest[j]);
      assert FoldAll(value)[j] == FoldAll(rest[..|value|])[j];
    }
    forall j | 0 <= j < |account| ensures rest[j] != '/' {
      assert rest[..|account|][j] == rest[j];
    }
  }

  /** Past one segment the filter is looser: an account and a folder of it, written together, match as if one account. */
  lemma AccountFilterTakesAPath(url: string, folder: string)
    requires Parse(url).Some? && url == Parse(url).value.0 + "://" + Parse(url).value.1 + "/" + folder
    ensures AccountFilter(url, Parse(url).value.1 + "/" + folder)
  {
    var (scheme, account, _) := Parse(url).value;
    hide AccountFilter, Parse, FoldAll;
    AccountFilterIsASubstring(url, account + "/" + folder);
    Regroup(scheme, "://", account, "/", folder);
    StandsAfter(scheme, "://" + (account + "/" + folder) + "/");
  }

  // ---------------------------------------------------------------- for which values the filter is exact

  /** On every url with one authority, the filter holds exactly for the url's own account. */
  ghost predicate NamesOneAccount(value: string) {
    forall url :: Parse(url).Some? && OneAuthority(url) ==> (AccountFilter(url, value) <==> FoldAll(value) == FoldAll(Parse(url).value.1))
  }

  ghost predicate HoldsAuthority(value: string) { exists i :: At(value + "/", i, "://") }

  lemma SlashesFoldAlike(a: string, b: string)
    requires FoldAll(a) == FoldAll(b)
    ensures '/' in a <==> '/' in b
  {
    forall j | 0 <= j < |a| ensures a[j] == '/' <==> b[j] == '/' {
      assert FoldAll(a)[j] == FoldAll(b)[j];
      FoldKeepsPunctuation('/', a[j]);
      FoldKeepsPunctuation('/', b[j]);
    }
    assert |FoldAll(a)| == |a| && |FoldAll(b)| == |b|;
  }

  lemma AuthorityHasASlash(value: string, i: int)
    requires At(value + "/", i, "://")
    ensures '/' in value
  {
    var u := value + "/";
    assert u[i..i + 3][1] == "://"[1] && u[i + 1] == value[i + 1];
  }

  /** A value with an authority of its own stands in no url that has just one. */
  lemma SecondAuthority(u: string, p: int, value: string, i: int)
    requires StandsAt(u, p, "://" + value + "/") && At(value + "/", i, "://")
    ensures At(u, p, "://") && At(u, p + 3 + i, "://")
  {
    PlaceOfFilter(u, p, value);
    var v := value + "/";
    forall j | i <= j < i + 3 ensures u[p + 3 + j] == v[j] {
      assert v[i..i + 3][j - i] == "://"[j - i];
      if j < |value| { FoldedAt(u[p + 3..p + 3 + |value|], value, j); }
    }
    assert u[p + 3 + i..p + 3 + i + 3] == v[i..i + 3];
  }

  lemma FoldedAt(a: string, b: string, j: int)
    requires FoldAll(a) == FoldAll(b) && 0 <= j < |b| && (b[j] == '/' || b[j] == ':')
    ensures |a| == |b| && a[j] == b[j]
  {
    assert |FoldAll(a)| == |a| && |FoldAll(b)| == |b|;
    assert FoldAll(a)[j] == FoldAll(b)[j];
    FoldKeepsPunctuation(b[j], a[j]);
  }

  lemma NoUrlHoldsIt(url: string, value: string)
    requires Parse(url).Some? && OneAuthority(url) && HoldsAuthority(value)
    ensures !AccountFilter(url, value) && FoldAll(value) != FoldAll(Parse(url).value.1)
  {
    var i :| At(value + "/", i, "://");
    AuthorityHasASlash(value, i);
    UrlParts(url);
    hide Parse, AccountFilter, FoldAll, At;
    if FoldAll(value) == FoldAll(Parse(url).value.1) { SlashesFoldAlike(value, Parse(url).value.1); }
    AccountFilterIsASubstring(url, value);
    if AccountFilter(url, value) {
      var p :| StandsAt(url + "/", p, "://" + value + "/");
      SecondAuthority(url + "/", p, value, i);
      AtIsNotNegative(value + "/", i, "://");
      OnlyPlace(url, p, p + 3 + i);
    }
  }

  lemma AtIsNotNegative(s: string, i: int, pat: string)
    requires At(s, i, pat)
    ensures i >= 0
  {
  }

  lemma MismatchedUrl(url: string, value: string, folder: string)
    requires Parse(url).Some? && OneAuthority(url) && value == Parse(url).value.1 + "/" + folder
    requires url == Parse(url).value.0 + "://" + Parse(url).value.1 + "/" + folder
    ensures !NamesOneAccount(value)
  {
    var account := Parse(url).value.1;
    UrlParts(url);
    hide Parse, AccountFilter, FoldAll, OneAuthority;
    AccountFilterTakesAPath(url, folder);
    assert value[|account|] == '/';
    if FoldAll(value) == FoldAll(account) { SlashesFoldAlike(value, account); }
  }

  lemma AuthorityMark(u: string, i: int)
    ensures At(u, i, "://") <==> 0 <= i && i + 3 <= |u| && u[i] == ':' && u[i + 1] == '/' && u[i + 2] == '/'
  {
    if 0 <= i && i + 3 <= |u| { assert u[i..i + 3] == [u[i], u[i + 1], u[i + 2]]; }
  }

  lemma MarksAfterScheme(v: string, i: int)
    ensures At("imap://" + v, i, "://") <==> i == 4 || At(v, i - 7, "://")
  {
    AuthorityMark("imap://" + v, i);
    AuthorityMark(v, i - 7);
  }

  /** The url written from a value without an authority: its scheme, its one mark, its account. */
  lemma UrlOfValue(value: string)
    requires !HoldsAuthority(value)
    ensures OneAuthority("imap://" + value) && Find("imap://" + value, "://") == Some(4)
  {
    var url := "imap://" + value;
    assert url + "/" == "imap://" + (value + "/");
    forall i ensures At(url + "/", i, "://") <==> i == 4 { MarksAfterScheme(value + "/", i); }
    forall i | i <= 4 ensures At(url, i, "://") <==> i == 4 { MarksAfterScheme(value, i); AuthorityMark(value, i - 7); }
    FindIs(url, 4, "://");
  }

  lemma ParseOfValue(value: string) returns (account: string, folder: string)
    requires !HoldsAuthority(value) && '/' in value
    ensures var p := Parse("imap://" + value); p.Some? && p.value.0 == "imap" && p.value.1 == account
    ensures value == account + "/" + folder && "imap://" + value == "imap" + "://" + account + "/" + folder
  {
    UrlOfValue(value);
    FirstSegment(value);
    var url := "imap://" + value;
    assert Drop(url, 7) == value && Take(url, 4) == "imap";
    var j := Find(value, "/").value;
    account, folder := value[..j], value[j + 1..];
    SplitAfter("imap", "://", account, "/", folder);
  }

  lemma SplitAfter(scheme: string, sep: string, account: string, slash: string, folder: string)
    ensures scheme + sep + (account + slash + folder) == scheme + sep + account + slash + folder
  {
    var head := scheme + sep;
    assert head + (account + slash + folder) == head + account + slash + folder;
  }

  /** A value with a slash and no authority of its own is matched by the url written from it. */
  lemma SomeUrlTakesIt(value: string)
    requires '/' in value && !HoldsAuthority(value)
    ensures !NamesOneAccount(value)
  {
    hide Parse, OneAuthority, Find;
    UrlOfValue(value);
    var account, folder := ParseOfValue(value);
    MismatchedUrl("imap://" + value, value, folder);
  }

  /** The values the filter is exact for, exactly: one url segment, which is what every caller
      resolves an account to, or a value that no url with one authority can hold. */
  lemma AccountFilterIsExactFor(value: string)
    ensures NamesOneAccount(value) <==> '/' !in value || HoldsAuthority(value)
  {
    if '/' !in value {
      forall url | Parse(url).Some? && OneAuthority(url)
        ensures AccountFilter(url, value) <==> FoldAll(value) == FoldAll(Parse(url).value.1)
      {
        AccountFilterIsExact(url, value);
      }
    } else if HoldsAuthority(value) {
      forall url | Parse(url).Some? && OneAuthority(url)
        ensures AccountFilter(url, value) <==> FoldAll(value) == FoldAll(Parse(url).value.1)
      {
        NoUrlHoldsIt(url, value);
      }
    } else {
      SomeUrlTakesIt(value);
    }
  }

  lemma Regroup(a: string, b: string, c: string, d: string, e: string)
    ensures a + b + c + d + e + d == a + (b + (c + d + e) + d)
  {
    assert a + b + c + d + e == a + (b + (c + d + e));
  }

  lemma StandsAfter(a: string, w: string)
    ensures StandsAt(a + w, |a|, w)
  {
  }
}
