/**
 The write guard (`is_label_mailbox`) against the logical reads: which mailboxes it refuses,
 compared with which mailboxes the membership query treats as label views.
 */
module LabelGuard {
  import opened Prelude
  import opened MailIndex
  import opened Strings

  /** Case folding and percent-decoding, which the guard's keys use; any functions will do. */
  datatype Text = Text(fold: string -> string, decode: string -> string)

  type Key = (string, string)

  /** A url as the guard takes it apart, blanks around it put aside. */
  function Named(url: string): Option<(string, string, string)> { Parse(Strip(url)) }

  /** `_label_key`: folded account and folded decoded path; None for a non-url. */
  function KeyOf(t: Text, url: string): Option<Key> {
    match Named(url)
    case None => None
    case Some((_, account, path)) => Some((t.fold(account), t.fold(t.decode(path))))
  }

  datatype LabelState = LabelState(sourced: set<Key>, accounts: set<string>, physical: set<Key>)

  function Sourced(t: Text, x: Index): set<Key> {
    set b | b in x.mailboxes && b.source.Some? && KeyOf(t, b.url).Some? :: KeyOf(t, b.url).value
  }

  /** One labels row whose message lives in the label's own account makes it a label account. */
  predicate LabelsAccount(t: Text, view: Mailbox, home: Mailbox) {
    KeyOf(t, view.url).Some? && KeyOf(t, home.url).Some? && KeyOf(t, view.url).value.0 == KeyOf(t, home.url).value.0
  }

  /** `SELECT DISTINCT l.mailbox_id, m.mailbox`: each label mailbox with its message's own. */
  function HomesOf(x: Index, l: Label): seq<(int, int)> {
    FlatMap(x.messages, (m: Message) => Emit(m.rowid == l.message, (l.mailbox, m.mailbox)))
  }

  function LabelHomes(x: Index): seq<(int, int)> { FlatMap(x.labels, (l: Label) => HomesOf(x, l)) }

  /** The mailbox rows of a (label, home) pair lie in account `a`. */
  ghost predicate PairIn(t: Text, x: Index, p: (int, int), a: string) {
    exists b, h :: b in x.mailboxes && b.rowid == p.0 && h in x.mailboxes && h.rowid == p.1
      && LabelsAccount(t, b, h) && KeyOf(t, b.url).value.0 == a
  }

  ghost predicate RowsMake(t: Text, x: Index, a: string) { exists p :: p in LabelHomes(x) && PairIn(t, x, p, a) }

  ghost predicate IsLabelAccount(t: Text, x: Index, account: string) {
    (exists k :: k in Sourced(t, x) && k.0 == account) || RowsMake(t, x, account)
  }

  function Physical(t: Text, x: Index): set<Key> {
    set b | b in x.mailboxes && b.rowid in StoredBoxes(x) && KeyOf(t, b.url).Some? :: KeyOf(t, b.url).value
  }

  /** The `keys` dictionary: ROWID to key, for the rows whose url parses. */
  function KeysByRow(t: Text, boxes: seq<Mailbox>): map<int, Key> {
    if boxes == [] then map[]
    else
      var rest := KeysByRow(t, boxes[1..]);
      match KeyOf(t, boxes[0].url)
      case None => rest
      case Some(k) => rest[boxes[0].rowid := k]
  }

  lemma {:induction false} KeysByRowExactly(t: Text, boxes: seq<Mailbox>)
    requires forall i, j :: 0 <= i < j < |boxes| ==> boxes[i].rowid != boxes[j].rowid
    ensures forall r :: r in KeysByRow(t, boxes) <==> exists b :: b in boxes && b.rowid == r && KeyOf(t, b.url).Some?
    ensures forall b :: b in boxes && KeyOf(t, b.url).Some? ==> KeysByRow(t, boxes)[b.rowid] == KeyOf(t, b.url).value
  {
    if boxes != [] {
      KeysByRowExactly(t, boxes[1..]);
      assert forall b :: b in boxes <==> b == boxes[0] || b in boxes[1..];
      forall b | b in boxes[1..] ensures b.rowid != boxes[0].rowid {
        var i :| 0 <= i < |boxes[1..]| && boxes[1..][i] == b;
        assert boxes[i + 1] == b;
      }
    }
  }

  /** The guard's verdict from its collected state. */
  predicate Refuses(t: Text, s: LabelState, url: string) {
    match KeyOf(t, url)
    case None => false
    case Some(k) => k in s.sourced || (k.0 in s.accounts && k !in s.physical)
  }

  ghost predicate StateOf(t: Text, x: Index, s: LabelState) {
    s.sourced == Sourced(t, x) && s.physical == Physical(t, x) && forall a :: a in s.accounts <==> IsLabelAccount(t, x, a)
  }

  /** The pair's two mailboxes lie in account `a`. */
  predicate Counts(keys: map<int, Key>, p: (int, int), a: string) {
    p.0 in keys && p.1 in keys && keys[p.0].0 == keys[p.1].0 == a
  }

  function Made(keys: map<int, Key>, pairs: seq<(int, int)>): set<string> {
    set p | p in pairs && p.0 in keys && p.1 in keys && keys[p.0].0 == keys[p.1].0 :: keys[p.0].0
  }

  lemma MadeSnoc(keys: map<int, Key>, pairs: seq<(int, int)>, p: (int, int))
    ensures Made(keys, pairs + [p])
      == if p.0 in keys && p.1 in keys && keys[p.0].0 == keys[p.1].0 then Made(keys, pairs) + {keys[p.0].0} else Made(keys, pairs)
  {
  }

  /** `_label_state`: the accounts set is filled in a loop over the label and home pairs. */
  method CollectLabelState(t: Text, x: Index) returns (s: LabelState)
    requires Valid(x)
    ensures StateOf(t, x, s)
  {
    var keys := KeysByRow(t, x.mailboxes);
    var pairs := LabelHomes(x);
    var accounts := set k | k in Sourced(t, x) :: k.0;
    ghost var start := accounts;
    var i := 0;
    while i < |pairs|
      invariant 0 <= i <= |pairs|
      invariant accounts == start + Made(keys, pairs[..i])
    {
      var p := pairs[i];
      assert pairs[..i + 1] == pairs[..i] + [p];
      MadeSnoc(keys, pairs[..i], p);
      if p.0 in keys && p.1 in keys && keys[p.0].0 == keys[p.1].0 {
        accounts := accounts + {keys[p.0].0};
      }
      i := i + 1;
    }
    assert pairs[..i] == pairs;
    forall p, a ensures PairIn(t, x, p, a) <==> Counts(keys, p, a) {
      PairsMake(t, x, p, a);
    }
    s := LabelState(Sourced(t, x), accounts, Physical(t, x));
  }

  lemma HomesOfExactly(x: Index, l: Label)
    ensures forall p :: p in HomesOf(x, l) <==> exists m :: m in x.messages && m.rowid == l.message && p == (l.mailbox, m.mailbox)
  {
    FlatMapMembers(x.messages, (m: Message) => Emit(m.rowid == l.message, (l.mailbox, m.mailbox)));
  }

  lemma LabelHomesExactly(x: Index, p: (int, int))
    ensures p in LabelHomes(x) <==> exists l, m :: l in x.labels && m in x.messages && m.rowid == l.message && p == (l.mailbox, m.mailbox)
  {
    forall l { HomesOfExactly(x, l); }
    FlatMapMembers(x.labels, (l: Label) => HomesOf(x, l));
  }

  /** A ROWID with a key is the row of one mailbox, whose url has that key. */
  lemma RowOfKey(t: Text, x: Index, r: int) returns (b: Mailbox)
    requires Valid(x) && r in KeysByRow(t, x.mailboxes)
    ensures b in x.mailboxes && b.rowid == r && KeyOf(t, b.url) == Some(KeysByRow(t, x.mailboxes)[r])
  {
    KeysByRowExactly(t, x.mailboxes);
    b :| b in x.mailboxes && b.rowid == r && KeyOf(t, b.url).Some?;
  }

  lemma KeyOfRow(t: Text, x: Index, b: Mailbox)
    requires Valid(x) && b in x.mailboxes && KeyOf(t, b.url).Some?
    ensures b.rowid in KeysByRow(t, x.mailboxes) && KeysByRow(t, x.mailboxes)[b.rowid] == KeyOf(t, b.url).value
  {
    KeysByRowExactly(t, x.mailboxes);
  }

  lemma PairsMake(t: Text, x: Index, p: (int, int), a: string)
    requires Valid(x)
    ensures PairIn(t, x, p, a) <==> Counts(KeysByRow(t, x.mailboxes), p, a)
  {
    if PairIn(t, x, p, a) {
      var b, h :| b in x.mailboxes && b.rowid == p.0 && h in x.mailboxes && h.rowid == p.1
        && LabelsAccount(t, b, h) && KeyOf(t, b.url).value.0 == a;
      KeyOfRow(t, x, b);
      KeyOfRow(t, x, h);
    }
    if Counts(KeysByRow(t, x.mailboxes), p, a) {
      var b := RowOfKey(t, x, p.0);
      var h := RowOfKey(t, x, p.1);
      assert LabelsAccount(t, b, h);
    }
  }

  // ---------------------------------------------------------------- accounts by text

  predicate At(s: string, i: int, pat: string) { 0 <= i && i + |pat| <= |s| && s[i..i + |pat|] == pat }

  lemma AtTail(s: string, i: int, pat: string)
    requires s != "" && i >= 1
    ensures At(s, i, pat) <==> At(s[1..], i - 1, pat)
  {
    if i + |pat| <= |s| {
      var (a, b) := (s[i..i + |pat|], s[1..][i - 1..i - 1 + |pat|]);
      assert a == b;
    }
  }

  lemma {:induction false} FindSpec(s: string, pat: string)
    ensures match Find(s, pat)
      case None => forall i :: !At(s, i, pat)
      case Some(k) => At(s, k, pat) && forall i :: i < k ==> !At(s, i, pat)
  {
    if s != "" && !(|pat| <= |s| && s[..|pat|] == pat) {
      FindSpec(s[1..], pat);
      assert !At(s, 0, pat);
      forall i | i >= 1 ensures At(s, i, pat) <==> At(s[1..], i - 1, pat) { AtTail(s, i, pat); }
    }
  }

  lemma FindIs(s: string, k: nat, pat: string)
    requires At(s, k, pat) && forall i :: i < k ==> !At(s, i, pat)
    ensures Find(s, pat) == Some(k)
  {
    FindSpec(s, pat);
  }

  lemma AtPrefix(s: string, t: string, i: int, pat: string)
    requires i + |pat| <= |s|
    ensures At(s + t, i, pat) <==> At(s, i, pat)
  {
    if 0 <= i { assert (s + t)[i..i + |pat|] == s[i..i + |pat|]; }
  }

  /** What comes after the first match cannot move it. */
  lemma FindPrefix(s: string, t: string, pat: string)
    requires Find(s, pat).Some?
    ensures Find(s + t, pat) == Find(s, pat)
  {
    FindSpec(s, pat);
    var k := Find(s, pat).value;
    forall i | i <= k ensures At(s + t, i, pat) <==> At(s, i, pat) { AtPrefix(s, t, i, pat); }
    FindIs(s + t, k, pat);
  }

  /** The first separator after a text without it. */
  lemma FindFirstSlash(a: string, t: string)
    requires '/' !in a
    ensures Find(a + "/" + t, "/") == Some(|a|)
  {
    var s := a + "/" + t;
    assert s[|a|..|a| + 1] == "/";
    forall i | i < |a| ensures !At(s, i, "/") {
      if 0 <= i { assert s[i..i + 1] == [a[i]]; }
    }
    FindIs(s, |a|, "/");
  }

  /** A text cut at its first slash, if any. */
  lemma FirstSegment(rest: string)
    ensures match Find(rest, "/")
      case None => '/' !in rest
      case Some(j) => j < |rest| && '/' !in rest[..j] && rest == rest[..j] + "/" + rest[j + 1..]
  {
    FindSpec(rest, "/");
    forall i ensures At(rest, i, "/") <==> 0 <= i < |rest| && rest[i] == '/' { SlashAt(rest, i); }
    if Find(rest, "/").Some? { CutOut(rest, Find(rest, "/").value, "/"); }
  }

  lemma SlashAt(s: string, i: int)
    ensures At(s, i, "/") <==> 0 <= i < |s| && s[i] == '/'
  {
    if 0 <= i < |s| { assert s[i..i + 1] == [s[i]]; }
  }

  lemma CutOut(s: string, i: nat, pat: string)
    requires At(s, i, pat)
    ensures s == s[..i] + pat + s[i + |pat|..]
  {
  }

  /** A url taken apart: the scheme, the account without slashes, and how the rest begins. */
  lemma UrlParts(url: string)
    requires Parse(url).Some?
    ensures var (scheme, account, _) := Parse(url).value;
      && '/' !in account && Find(url, "://") == Some(|scheme|)
      && scheme + "://" + account <= url
      && (url == scheme + "://" + account || scheme + "://" + account + "/" <= url)
  {
    FindSpec(url, "://");
    var i := Find(url, "://").value;
    var rest := url[i + 3..];
    CutOut(url, i, "://");
    FirstSegment(rest);
    hide Find, At;
    if Find(rest, "/").Some? { LongerPrefix(url[..i] + "://", Parse(url).value.1, "/", rest[|Parse(url).value.1| + 1..]); }
  }

  lemma LongerPrefix(a: string, b: string, c: string, d: string)
    ensures a + b <= a + (b + c + d) && a + b + c <= a + (b + c + d)
  {
    assert a + (b + c + d) == a + b + c + d;
  }

  lemma CutAuthority(u: string, scheme: string, account: string)
    requires '/' !in account && scheme + "://" + account + "/" <= u && Instr(u, "://") == |scheme| + 1
    ensures Take(u, |scheme| + 3 + Instr(Drop(u, |scheme| + 3), "/")) == scheme + "://" + account + "/"
  {
    var head := scheme + "://" + account + "/";
    var after := u[|head|..];
    assert u == head + after;
    assert Drop(u, |scheme| + 3) == account + "/" + after;
    FindFirstSlash(account, after);
  }

  /** The prefix the membership query compares is the scheme, the account and a slash. */
  lemma AuthorityIsSchemeAndAccount(url: string)
    requires Parse(url).Some?
    ensures var (scheme, account, _) := Parse(url).value; Authority(url) == scheme + "://" + account + "/"
  {
    var (scheme, account, _) := Parse(url).value;
    UrlParts(url);
    FindPrefix(url, "/", "://");
    var head := scheme + "://" + account;
    if url == head {
      assert url + "/" == head + "/";
    } else {
      assert head + "/" <= url <= url + "/";
    }
    CutAuthority(url + "/", scheme, account);
  }

  /** A prefix determines the scheme and account it was built from. */
  lemma AuthorityDetermines(url: string)
    requires Parse(url).Some?
    ensures Find(Authority(url), "://") == Some(|Parse(url).value.0|)
  {
    var (scheme, account, _) := Parse(url).value;
    AuthorityIsSchemeAndAccount(url);
    UrlParts(url);
    hide Find, Authority, Parse;
    AuthorityStarts(url, Authority(url), scheme, account, "://", "/");
  }

  lemma AuthorityStarts(url: string, authority: string, scheme: string, account: string, sep: string, slash: string)
    requires Find(url, sep) == Some(|scheme|) && scheme + sep + account <= url
    requires authority == scheme + sep + account + slash
    ensures Find(authority, sep) == Some(|scheme|)
  {
    hide Find;
    var head := scheme + sep;
    assert url == head + url[|head|..];
    FindWithin(head, url[|head|..], |scheme|, sep);
    FindPrefix(head, account + slash, sep);
    assert head + (account + slash) == authority;
  }

  /** A first match that lies within a prefix is the prefix's first match. */
  lemma FindWithin(head: string, tail: string, k: nat, pat: string)
    requires Find(head + tail, pat) == Some(k) && k + |pat| <= |head|
    ensures Find(head, pat) == Some(k)
  {
    FindSpec(head + tail, pat);
    hide Find;
    forall i | i <= k ensures At(head + tail, i, pat) <==> At(head, i, pat) { AtPrefix(head, tail, i, pat); }
    FindIs(head, k, pat);
  }

  lemma CutAccount(s: string, x: string, t: string, y: string)
    requires s + "://" + x + "/" == t + "://" + y + "/" && |s| == |t|
    ensures x == y
  {
    var a := s + "://" + x + "/";
    assert a[|s| + 3..|a| - 1] == x && (t + "://" + y + "/")[|t| + 3..|a| - 1] == y;
  }

  /** Mailboxes the query puts in one account have one account key. */
  lemma SameAuthoritySameAccount(a: string, b: string)
    requires Parse(a).Some? && Parse(b).Some? && Authority(a) == Authority(b)
    ensures Parse(a).value.1 == Parse(b).value.1
  {
    AuthorityIsSchemeAndAccount(a);
    AuthorityIsSchemeAndAccount(b);
    AuthorityDetermines(a);
    AuthorityDetermines(b);
    CutAccount(Parse(a).value.0, Parse(a).value.1, Parse(b).value.0, Parse(b).value.1);
  }

  // ---------------------------------------------------------------- reads and guard agree

  /** Every mailbox row is addressed by a url, without blanks around it. */
  ghost predicate Addressed(x: Index) { forall b :: b in x.mailboxes ==> Parse(b.url).Some? && Strip(b.url) == b.url }

  ghost predicate DistinctKeys(t: Text, x: Index) {
    forall b, c :: b in x.mailboxes && c in x.mailboxes && KeyOf(t, b.url) == KeyOf(t, c.url) ==> b == c
  }

  /** `b` gains a member as a label view. */
  ghost predicate GainsByLabel(x: Index, b: Mailbox) {
    exists p :: p in Membership(x) && p.1 == b.rowid && (Labelled(x, p) || BareLabelled(x, p))
  }

  lemma SourcelessGainIsBare(x: Index, b: Mailbox, p: Pair)
    requires b in x.mailboxes && p.1 == b.rowid && (Labelled(x, p) || BareLabelled(x, p))
    ensures Valid(x) && b.source.None? ==> BareMember(x, b, p)
  {
    if Valid(x) && b.source.None? {
      TablesHaveNoRepeats(x);
      assert !Labelled(x, p);
      var c :| c in x.mailboxes && BareMember(x, c, p);
      assert c == b;
    }
  }

  /** The message behind a bare label makes its account a label account. */
  lemma BareMemberMakesAccount(t: Text, x: Index, b: Mailbox, p: Pair)
    requires Valid(x) && Addressed(x) && b in x.mailboxes && BareMember(x, b, p)
    ensures RowsMake(t, x, KeyOf(t, b.url).value.0)
  {
    hide Authority, Parse, RowsMake;
    var m, h :| m in x.messages && h in x.mailboxes && m.rowid == p.0
      && h.rowid == m.mailbox && !m.deleted && Authority(b.url) == Authority(h.url);
    SameAuthoritySameAccount(b.url, h.url);
    LabelRowMakesAccount(t, x, Label(p.0, p.1), m, b, h);
  }

  lemma LabelRowMakesAccount(t: Text, x: Index, row: Label, m: Message, b: Mailbox, h: Mailbox)
    requires row in x.labels && m in x.messages && b in x.mailboxes && h in x.mailboxes
    requires m.rowid == row.message && b.rowid == row.mailbox && h.rowid == m.mailbox && LabelsAccount(t, b, h)
    ensures RowsMake(t, x, KeyOf(t, b.url).value.0)
  {
    LabelHomesExactly(x, (row.mailbox, m.mailbox));
    hide LabelHomes, KeyOf;
    assert PairIn(t, x, (row.mailbox, m.mailbox), KeyOf(t, b.url).value.0);
  }

  /** A mailbox that gains a member through a label arm is refused, exactly unless it is
      source-less, no sourced mailbox has its key, and a mailbox that stores a live
      message has its key: a folded collision hides the label behind a physical folder. */
  lemma LabelViewsAreRefusedExactly(t: Text, x: Index, s: LabelState, b: Mailbox)
    requires Valid(x) && Addressed(x) && StateOf(t, x, s)
    requires b in x.mailboxes && GainsByLabel(x, b)
    ensures Refuses(t, s, b.url) <==>
      KeyOf(t, b.url).value in s.sourced
      || !(exists c :: c in x.mailboxes && c.rowid in StoredBoxes(x) && KeyOf(t, c.url) == KeyOf(t, b.url))
    ensures b.source.Some? ==> Refuses(t, s, b.url)
  {
    if b.source.None? {
      var p :| p in Membership(x) && p.1 == b.rowid && (Labelled(x, p) || BareLabelled(x, p));
      SourcelessGainIsBare(x, b, p);
      BareMemberMakesAccount(t, x, b, p);
      assert IsLabelAccount(t, x, KeyOf(t, b.url).value.0);
    } else {
      assert KeyOf(t, b.url).value in Sourced(t, x);
    }
  }

  /** With distinct keys the reads and the guard agree: every label view is refused, and no
      source-less mailbox that stores a live message ever is. */
  lemma ReadsAndGuardAgree(t: Text, x: Index, s: LabelState, b: Mailbox)
    requires Valid(x) && Addressed(x) && DistinctKeys(t, x) && StateOf(t, x, s) && b in x.mailboxes
    ensures GainsByLabel(x, b) ==> Refuses(t, s, b.url)
    ensures b.source.None? && b.rowid in StoredBoxes(x) ==> !Refuses(t, s, b.url)
  {
    if GainsByLabel(x, b) {
      LabelViewsAreRefusedExactly(t, x, s, b);
      if b.source.None? {
        var p :| p in Membership(x) && p.1 == b.rowid && (Labelled(x, p) || BareLabelled(x, p));
        SourcelessGainIsBare(x, b, p);
      }
    }
    if b.source.None? && b.rowid in StoredBoxes(x) {
      assert KeyOf(t, b.url).value in Physical(t, x);
      assert KeyOf(t, b.url).value !in Sourced(t, x);
    }
  }

  /** The collision happens: for any two urls of one account whose keys fold together, an
      index with a physical folder at one and a bare label at the other shows the label to
      readers and lets writes through it. */
  lemma FoldedCollisionHidesALabel(t: Text, folder: string, view: string) returns (x: Index, b: Mailbox)
    requires Parse(folder).Some? && Parse(view).Some? && Strip(folder) == folder && Strip(view) == view
    requires Authority(folder) == Authority(view) && KeyOf(t, folder) == KeyOf(t, view)
    ensures Valid(x) && Addressed(x) && b in x.mailboxes && b.url == view && GainsByLabel(x, b)
    ensures forall s :: StateOf(t, x, s) ==> !Refuses(t, s, view)
  {
    hide Strip, Parse, Named, Authority, KeyOf, Refuses, StateOf;
    KeyOfAddressed(t, view);
    var m, home := Message(1, 10, false, Some("m"), 0, 0, 0), Mailbox(10, folder, None);
    b := Mailbox(11, view, None);
    x := Index([m], [home, b], [Label(1, 11)]);
    assert m in x.messages && home in x.mailboxes && b in x.mailboxes && Label(1, 11) in x.labels;
    assert 11 in LabelledBoxes(x) && 11 !in StoredBoxes(x) && 10 in StoredBoxes(x);
    CollisionIsOpen(t, x, home, b);
    assert BareMember(x, b, (1, 11));
    BareLabelGains(x, b, (1, 11));
  }

  lemma KeyOfAddressed(t: Text, url: string)
    requires Parse(url).Some? && Strip(url) == url
    ensures KeyOf(t, url).Some?
  {
  }

  lemma BareLabelGains(x: Index, b: Mailbox, p: Pair)
    requires Valid(x) && b in x.mailboxes && BareMember(x, b, p)
    ensures GainsByLabel(x, b)
  {
    hide Membership, BareMember;
    MembershipExactly(x);
    assert p in Membership(x) && p.1 == b.rowid by { BareMemberAt(x, b, p); }
  }

  lemma BareMemberAt(x: Index, b: Mailbox, p: Pair)
    requires BareMember(x, b, p)
    ensures p.1 == b.rowid
  {
  }

  lemma CollisionIsOpen(t: Text, x: Index, home: Mailbox, view: Mailbox)
    requires home in x.mailboxes && home.rowid in StoredBoxes(x) && KeyOf(t, home.url) == KeyOf(t, view.url) && KeyOf(t, view.url).Some?
    requires forall b :: b in x.mailboxes ==> b.source.None?
    ensures forall s :: StateOf(t, x, s) ==> !Refuses(t, s, view.url)
  {
    assert Sourced(t, x) == {};
    assert KeyOf(t, home.url).value in Physical(t, x);
  }

  // ---------------------------------------------------------------- the guard over the tables

  /** Two urls name one account; one mailbox: up to folding, the path decoded. */
  predicate SameAccount(t: Text, a: string, b: string) {
    Named(a).Some? && Named(b).Some? && t.fold(Named(a).value.1) == t.fold(Named(b).value.1)
  }

  predicate SameMailbox(t: Text, a: string, b: string) {
    SameAccount(t, a, b) && t.fold(t.decode(Named(a).value.2)) == t.fold(t.decode(Named(b).value.2))
  }

  /** Some mailbox that is a view of another has the url's key. */
  ghost predicate NamesAView(t: Text, x: Index, url: string) {
    exists b :: b in x.mailboxes && b.source.Some? && SameMailbox(t, b.url, url)
  }

  /** Some mailbox that stores a live message has it. */
  ghost predicate NamesAStore(t: Text, x: Index, url: string) {
    exists b, m :: b in x.mailboxes && m in x.messages && !m.deleted && m.mailbox == b.rowid && SameMailbox(t, b.url, url)
  }

  /** The url's account has a view, or a labels row that joins a mailbox of it to a message stored in it. */
  ghost predicate InLabelAccount(t: Text, x: Index, url: string) {
    || (exists b :: b in x.mailboxes && b.source.Some? && SameAccount(t, b.url, url))
    || exists l, m, v, h :: LabelJoins(x, l, m, v, h) && SameAccount(t, v.url, url) && SameAccount(t, h.url, url)
  }

  predicate LabelJoins(x: Index, l: Label, m: Message, v: Mailbox, h: Mailbox) {
    && l in x.labels && m in x.messages && v in x.mailboxes && h in x.mailboxes
    && m.rowid == l.message && v.rowid == l.mailbox && h.rowid == m.mailbox
  }

  lemma KeysAreMailboxes(t: Text, a: string, b: string)
    ensures KeyOf(t, a).Some? <==> Parse(Strip(a)).Some?
    ensures KeyOf(t, a).Some? && KeyOf(t, a) == KeyOf(t, b) <==> SameMailbox(t, a, b)
    ensures KeyOf(t, a).Some? && KeyOf(t, b).Some? && KeyOf(t, a).value.0 == KeyOf(t, b).value.0 <==> SameAccount(t, a, b)
  {
  }

  lemma LabelAccountExactly(t: Text, x: Index, url: string)
    requires KeyOf(t, url).Some?
    ensures IsLabelAccount(t, x, KeyOf(t, url).value.0) <==> InLabelAccount(t, x, url)
  {
    var a := KeyOf(t, url).value.0;
    forall b: Mailbox { KeysAreMailboxes(t, b.url, url); }
    SourcedAccounts(t, x, a);
    RowsMakeExactly(t, x, url);
    hide KeyOf, Named, Parse, SameAccount, RowsMake, LabelJoins, Sourced;
  }

  lemma RowsMakeExactly(t: Text, x: Index, url: string)
    requires KeyOf(t, url).Some?
    ensures RowsMake(t, x, KeyOf(t, url).value.0)
      <==> exists l, m, v, h :: LabelJoins(x, l, m, v, h) && SameAccount(t, v.url, url) && SameAccount(t, h.url, url)
  {
    hide Parse, LabelHomes;
    var a := KeyOf(t, url).value.0;
    forall b: Mailbox { KeysAreMailboxes(t, b.url, url); }
    hide KeyOf, SameAccount;
    if RowsMake(t, x, a) {
      var p :| p in LabelHomes(x) && PairIn(t, x, p, a);
      LabelHomesExactly(x, p);
      var l, m :| l in x.labels && m in x.messages && m.rowid == l.message && p == (l.mailbox, m.mailbox);
      var v, h :| v in x.mailboxes && v.rowid == p.0 && h in x.mailboxes && h.rowid == p.1
        && LabelsAccount(t, v, h) && KeyOf(t, v.url).value.0 == a;
      assert LabelJoins(x, l, m, v, h) && SameAccount(t, v.url, url) && SameAccount(t, h.url, url);
    }
    if l, m, v, h :| LabelJoins(x, l, m, v, h) && SameAccount(t, v.url, url) && SameAccount(t, h.url, url) {
      LabelRowMakesAccount(t, x, l, m, v, h);
    }
  }

  lemma SourcedAccounts(t: Text, x: Index, a: string)
    ensures (exists k :: k in Sourced(t, x) && k.0 == a)
      <==> exists b :: b in x.mailboxes && b.source.Some? && KeyOf(t, b.url).Some? && KeyOf(t, b.url).value.0 == a
  {
    hide KeyOf;
    if exists k :: k in Sourced(t, x) && k.0 == a {
      var k :| k in Sourced(t, x) && k.0 == a;
      var b :| b in x.mailboxes && b.source.Some? && KeyOf(t, b.url) == Some(k);
    }
    if b: Mailbox :| b in x.mailboxes && b.source.Some? && KeyOf(t, b.url).Some? && KeyOf(t, b.url).value.0 == a {
      assert KeyOf(t, b.url).value in Sourced(t, x);
    }
  }

  lemma KeySetsExactly(t: Text, x: Index, url: string)
    requires KeyOf(t, url).Some?
    ensures KeyOf(t, url).value in Sourced(t, x) <==> NamesAView(t, x, url)
    ensures KeyOf(t, url).value in Physical(t, x) <==> NamesAStore(t, x, url)
  {
    forall b: Mailbox { KeysAreMailboxes(t, b.url, url); }
    hide KeyOf, Named, Parse, SameMailbox;
    if NamesAStore(t, x, url) {
      var b, m :| b in x.mailboxes && m in x.messages && !m.deleted && m.mailbox == b.rowid && SameMailbox(t, b.url, url);
      assert b.rowid in StoredBoxes(x);
    }
  }

  /** `is_label_mailbox` on any url, stated on the tables: a url that parses is refused exactly
      when a view has its key, or its account has labels and no mailbox that stores a live
      message has its key. */
  lemma RefusedExactly(t: Text, x: Index, s: LabelState, url: string)
    requires StateOf(t, x, s)
    ensures Refuses(t, s, url)
      <==> Parse(Strip(url)).Some? && (NamesAView(t, x, url) || (InLabelAccount(t, x, url) && !NamesAStore(t, x, url)))
  {
    KeysAreMailboxes(t, url, url);
    if KeyOf(t, url).Some? {
      KeySetsExactly(t, x, url);
      LabelAccountExactly(t, x, url);
    }
    hide KeyOf, Named, Parse, NamesAView, NamesAStore, InLabelAccount, IsLabelAccount;
  }

  /** Nothing in an account without labels is refused, and nothing that is no mailbox url. */
  lemma PlainAccountsAreOpen(t: Text, x: Index, s: LabelState, url: string)
    requires StateOf(t, x, s)
    ensures Parse(Strip(url)).None? || !InLabelAccount(t, x, url) ==> !Refuses(t, s, url)
  {
    RefusedExactly(t, x, s, url);
    hide Refuses, Parse;
  }

  /** `is_label_mailbox`: collect the state, then decide. */
  method IsLabelMailbox(t: Text, x: Index, url: string) returns (refused: bool)
    requires Valid(x)
    ensures refused <==> Parse(Strip(url)).Some? && (NamesAView(t, x, url) || (InLabelAccount(t, x, url) && !NamesAStore(t, x, url)))
  {
    hide KeyOf, Named, Parse, NamesAView, NamesAStore, InLabelAccount;
    var s := CollectLabelState(t, x);
    RefusedExactly(t, x, s, url);
    refused := Refuses(t, s, url);
  }

  // ---------------------------------------------------------------- membership, spelled out

  /** Stored live in a mailbox that is no view of another. */
  ghost predicate StoredIn(x: Index, m: Message, b: Mailbox) {
    m in x.messages && b in x.mailboxes && !m.deleted && m.mailbox == b.rowid && b.source.None?
  }

  /** Live, labelled with a view of the mailbox that stores it. */
  ghost predicate LabelledWith(x: Index, m: Message, b: Mailbox) {
    m in x.messages && b in x.mailboxes && !m.deleted && Label(m.rowid, b.rowid) in x.labels && b.source == Some(m.mailbox)
  }

  /** Live, labelled with a mailbox that is no view and stores no live message, under the scheme
      and account of the mailbox that stores it. */
  ghost predicate BareLabelledWith(x: Index, m: Message, b: Mailbox) {
    && m in x.messages && b in x.mailboxes && !m.deleted && Label(m.rowid, b.rowid) in x.labels && b.source.None?
    && (forall n :: n in x.messages && n.mailbox == b.rowid ==> n.deleted)
    && exists h :: h in x.mailboxes && h.rowid == m.mailbox && SameSchemeAndAccount(b.url, h.url)
  }

  predicate SameSchemeAndAccount(a: string, b: string) {
    Parse(a).Some? && Parse(b).Some? && Parse(a).value.0 == Parse(b).value.0 && Parse(a).value.1 == Parse(b).value.1
  }

  lemma AuthorityExactly(a: string, b: string)
    requires Parse(a).Some? && Parse(b).Some?
    ensures Authority(a) == Authority(b) <==> SameSchemeAndAccount(a, b)
  {
    AuthorityIsSchemeAndAccount(a);
    AuthorityIsSchemeAndAccount(b);
    AuthorityDetermines(a);
    AuthorityDetermines(b);
    UrlParts(a);
    UrlParts(b);
    hide Authority, Parse, Find;
    if Authority(a) == Authority(b) { CutScheme(Parse(a).value.0, Parse(a).value.1, Parse(b).value.0, Parse(b).value.1); }
  }

  lemma CutScheme(s: string, x: string, t: string, y: string)
    requires s + "://" + x + "/" == t + "://" + y + "/" && |s| == |t|
    ensures s == t && x == y
  {
    CutAccount(s, x, t, y);
    assert (s + "://" + x + "/")[..|s|] == s && (t + "://" + y + "/")[..|t|] == t;
  }

  /** Logical membership without the query's own words: for every index whose mailboxes are
      addressed by urls, a pair is listed exactly when the message is stored, labelled or
      bare-labelled there. */
  lemma MembershipSpelledOut(x: Index, p: Pair)
    requires Valid(x) && Addressed(x)
    ensures p in Membership(x) <==> Listed(x, p)
  {
    hide Membership, Direct, Labelled, BareLabelled, Authority, SameSchemeAndAccount, Parse, StoredIn, LabelledWith, BareLabelledWith;
    MembershipExactly(x);
    forall a: Mailbox, b: Mailbox | a in x.mailboxes && b in x.mailboxes
      ensures Authority(a.url) == Authority(b.url) <==> SameSchemeAndAccount(a.url, b.url)
    {
      AuthorityExactly(a.url, b.url);
    }
    DirectExactly(x, p);
    LabelledExactly(x, p);
    BareLabelledExactly(x, p);
  }

  ghost predicate Listed(x: Index, p: Pair) {
    exists m: Message, b: Mailbox :: p == (m.rowid, b.rowid) && (StoredIn(x, m, b) || LabelledWith(x, m, b) || BareLabelledWith(x, m, b))
  }

  lemma DirectExactly(x: Index, p: Pair)
    ensures Direct(x, p) <==> exists m: Message, b: Mailbox :: p == (m.rowid, b.rowid) && StoredIn(x, m, b)
  {
    if Direct(x, p) {
      var m, b :| m in x.messages && b in x.mailboxes && p == (m.rowid, b.rowid) && !m.deleted && b.rowid == m.mailbox && b.source.None?;
      assert StoredIn(x, m, b);
    }
  }

  lemma LabelledExactly(x: Index, p: Pair)
    ensures Labelled(x, p) <==> exists m: Message, b: Mailbox :: p == (m.rowid, b.rowid) && LabelledWith(x, m, b)
  {
    if m: Message, b: Mailbox :| p == (m.rowid, b.rowid) && LabelledWith(x, m, b) {
      assert Label(m.rowid, b.rowid) in x.labels;
    }
  }

  lemma BareLabelledExactly(x: Index, p: Pair)
    requires forall a: Mailbox, b: Mailbox :: a in x.mailboxes && b in x.mailboxes ==> (Authority(a.url) == Authority(b.url) <==> SameSchemeAndAccount(a.url, b.url))
    ensures BareLabelled(x, p) <==> exists m: Message, b: Mailbox :: p == (m.rowid, b.rowid) && BareLabelledWith(x, m, b)
  {
    hide Authority, SameSchemeAndAccount, Parse;
    if BareLabelled(x, p) {
      var b :| b in x.mailboxes && BareMember(x, b, p);
      var m, h :| m in x.messages && h in x.mailboxes && m.rowid == p.0 && h.rowid == m.mailbox && !m.deleted && Authority(b.url) == Authority(h.url);
      assert forall n :: n in x.messages && n.mailbox == b.rowid && !n.deleted ==> n.mailbox in StoredBoxes(x);
      assert BareLabelledWith(x, m, b);
    }
    if m: Message, b: Mailbox :| p == (m.rowid, b.rowid) && BareLabelledWith(x, m, b) {
      assert Label(m.rowid, b.rowid) in x.labels;
      assert b.rowid in LabelledBoxes(x);
      var h :| h in x.mailboxes && h.rowid == m.mailbox && SameSchemeAndAccount(b.url, h.url);
      assert BareMember(x, b, p);
    }
  }

  /** A stripped url taken apart and put together again: scheme, account and path are its text. */
  lemma ParseExactly(url: string)
    ensures Parse(url).None? <==> forall i :: !At(url, i, "://")
    ensures Parse(url).Some? ==> var (scheme, account, path) := Parse(url).value;
      && '/' !in account && (forall i :: i < |scheme| ==> !At(url, i, "://"))
      && ((path == "" && url == scheme + "://" + account) || url == scheme + "://" + account + "/" + path)
  {
    FindSpec(url, "://");
    if Find(url, "://").Some? {
      var i := Find(url, "://").value;
      var rest := url[i + 3..];
      CutOut(url, i, "://");
      FirstSegment(rest);
      hide Find, At;
      if Find(rest, "/").Some? {
        var j := Find(rest, "/").value;
        Reassociate(url[..i], "://", rest[..j], "/", rest[j + 1..]);
      }
    }
  }

  lemma Reassociate(a: string, b: string, c: string, d: string, e: string)
    ensures a + b + (c + d + e) == a + b + c + d + e
  {
    var head := a + b;
    assert head + (c + d + e) == head + c + d + e;
  }
}
