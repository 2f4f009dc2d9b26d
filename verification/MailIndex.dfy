/**
 Logical mailbox membership over Mail's Envelope Index and the guard that refuses writes
 through a Gmail label (`macos_apps_mcp/adapters/mail_index.py`). Tables are lists of rows,
 and a SELECT is the nested loops of its joins, so repeated rows stay visible.
 */
module MailIndex {
  import opened Prelude

  /** `header` is the Message-ID the row's global data carries, if any. */
  datatype Message = Message(rowid: int, mailbox: int, deleted: bool, header: Option<string>, received: int, sent: int, conversation: int)
  datatype Mailbox = Mailbox(rowid: int, url: string, source: Option<int>)
  datatype Label = Label(message: int, mailbox: int)
  datatype Index = Index(messages: seq<Message>, mailboxes: seq<Mailbox>, labels: seq<Label>)

  type Pair = (int, int)

  /** Unique ROWIDs, and the primary key of `labels`. */
  ghost predicate Valid(x: Index) {
    && (forall i, j :: 0 <= i < j < |x.messages| ==> x.messages[i].rowid != x.messages[j].rowid)
    && (forall i, j :: 0 <= i < j < |x.mailboxes| ==> x.mailboxes[i].rowid != x.mailboxes[j].rowid)
    && NoDup(x.labels)
  }

  // ---------------------------------------------------------------- text of a mailbox url

  /** First place of `pat` in `s`. */
  function Find(s: string, pat: string): Option<nat> {
    if |pat| <= |s| && s[..|pat|] == pat then Some(0)
    else if s == "" then None
    else match Find(s[1..], pat) case None => None case Some(i) => Some(i + 1)
  }

  /** SQL `instr`: 1-based, 0 when absent. */
  function Instr(s: string, pat: string): nat {
    match Find(s, pat) case None => 0 case Some(i) => i + 1
  }

  function Drop(s: string, n: nat): string { if n <= |s| then s[n..] else "" }
  function Take(s: string, n: nat): string { if n <= |s| then s[..n] else s }

  /** The scheme-and-account prefix the membership query compares, as its substr and instr compute it. */
  function Authority(url: string): string {
    var u := url + "/";
    var p := Instr(u, "://");
    Take(u, p + 2 + Instr(Drop(u, p + 2), "/"))
  }

  /** `mailbox_url.parse`: scheme, account and still encoded path; None for a non-url. */
  function Parse(url: string): Option<(string, string, string)> {
    match Find(url, "://")
    case None => None
    case Some(i) =>
      var rest := Drop(url, i + 3);
      match Find(rest, "/")
      case None => Some((Take(url, i), rest, ""))
      case Some(j) => Some((Take(url, i), Take(rest, j), Drop(rest, j + 1)))
  }

  // ---------------------------------------------------------------- the three arms

  function FlatMap<A(!new), R(!new)>(s: seq<A>, f: A -> seq<R>): seq<R> {
    if s == [] then [] else f(s[0]) + FlatMap(s[1..], f)
  }

  /** Mailboxes that store a live message: `SELECT DISTINCT mailbox FROM messages WHERE deleted = 0`. */
  function StoredBoxes(x: Index): set<int> { set m | m in x.messages && !m.deleted :: m.mailbox }
  function LabelledBoxes(x: Index): set<int> { set l | l in x.labels :: l.mailbox }

  /** `bare_label`: no source, some label row, no live stored message. */
  predicate BareLabel(x: Index, b: Mailbox) {
    b.source.None? && b.rowid in LabelledBoxes(x) && b.rowid !in StoredBoxes(x)
  }

  function Emit(c: bool, p: Pair): seq<Pair> { if c then [p] else [] }

  function DirectRows(x: Index, m: Message): seq<Pair> {
    FlatMap(x.mailboxes, (b: Mailbox) => Emit(b.rowid == m.mailbox && b.source.None? && !m.deleted, (m.rowid, b.rowid)))
  }

  function Arm1(x: Index): seq<Pair> { FlatMap(x.messages, (m: Message) => DirectRows(x, m)) }

  function ViewRows(x: Index, l: Label, m: Message): seq<Pair> {
    FlatMap(x.mailboxes, (b: Mailbox) =>
      Emit(m.rowid == l.message && b.rowid == l.mailbox && b.source == Some(m.mailbox) && !m.deleted, (m.rowid, l.mailbox)))
  }

  function LabelRows(x: Index, l: Label): seq<Pair> { FlatMap(x.messages, (m: Message) => ViewRows(x, l, m)) }

  function Arm2(x: Index): seq<Pair> { FlatMap(x.labels, (l: Label) => LabelRows(x, l)) }

  function HomeRows(x: Index, b: Mailbox, l: Label, m: Message): seq<Pair> {
    FlatMap(x.mailboxes, (h: Mailbox) =>
      Emit(BareLabel(x, b) && l.mailbox == b.rowid && m.rowid == l.message && h.rowid == m.mailbox && !m.deleted
           && Authority(b.url) == Authority(h.url), (m.rowid, b.rowid)))
  }

  function BareLabelRows(x: Index, b: Mailbox, l: Label): seq<Pair> { FlatMap(x.messages, (m: Message) => HomeRows(x, b, l, m)) }

  function BareRows(x: Index, b: Mailbox): seq<Pair> { FlatMap(x.labels, (l: Label) => BareLabelRows(x, b, l)) }

  function Arm3(x: Index): seq<Pair> { FlatMap(x.mailboxes, (b: Mailbox) => BareRows(x, b)) }

  /** `mailbox_membership`: UNION ALL keeps every row of every arm. */
  function Membership(x: Index): seq<Pair> { Arm1(x) + Arm2(x) + Arm3(x) }

  // ---------------------------------------------------------------- what membership means

  /** Stored directly in a mailbox that is no view of another. */
  ghost predicate Direct(x: Index, p: Pair) {
    exists m, b :: m in x.messages && b in x.mailboxes && p == (m.rowid, b.rowid)
      && !m.deleted && b.rowid == m.mailbox && b.source.None?
  }

  /** Labelled in a view of the mailbox that stores it. */
  ghost predicate Labelled(x: Index, p: Pair) {
    exists m, b :: m in x.messages && b in x.mailboxes && Label(m.rowid, b.rowid) in x.labels && p == (m.rowid, b.rowid)
      && !m.deleted && b.source == Some(m.mailbox)
  }

  /** Labelled in `b`, a source-less mailbox that stores nothing, in the account that stores the message. */
  ghost predicate BareMember(x: Index, b: Mailbox, p: Pair) {
    p.1 == b.rowid && BareLabel(x, b) && Label(p.0, p.1) in x.labels &&
    exists m, h :: m in x.messages && h in x.mailboxes && m.rowid == p.0
      && h.rowid == m.mailbox && !m.deleted && Authority(b.url) == Authority(h.url)
  }

  ghost predicate BareLabelled(x: Index, p: Pair) { exists b :: b in x.mailboxes && BareMember(x, b, p) }

  // ---------------------------------------------------------------- joins, in general

  lemma {:induction false} FlatMapMembers<A(!new), R(!new)>(s: seq<A>, f: A -> seq<R>)
    ensures forall y :: y in FlatMap(s, f) <==> exists a :: a in s && y in f(a)
  {
    if s != [] {
      FlatMapMembers(s[1..], f);
      assert forall a :: a in s <==> a == s[0] || a in s[1..];
    }
  }

  /** A join repeats no row if no input row repeats one and each output row has one input row. */
  lemma {:induction false} FlatMapNoDup<A(!new), R(!new)>(s: seq<A>, f: A -> seq<R>)
    requires NoDup(s) && forall a :: a in s ==> NoDup(f(a))
    requires forall a, b, y :: a in s && b in s && y in f(a) && y in f(b) ==> a == b
    ensures NoDup(FlatMap(s, f))
  {
    if s != [] {
      assert s == [s[0]] + s[1..];
      NoDupCons(s[0], s[1..]);
      assert forall a :: a in s[1..] ==> a in s;
      FlatMapNoDup(s[1..], f);
      FlatMapMembers(s[1..], f);
      forall y | y in f(s[0]) ensures y !in FlatMap(s[1..], f) {
      }
      NoDupConcat(f(s[0]), FlatMap(s[1..], f));
    }
  }

  lemma NoDupConcat<T(!new)>(a: seq<T>, b: seq<T>)
    requires NoDup(a) && NoDup(b) && forall y :: y in a ==> y !in b
    ensures NoDup(a + b)
  {
    forall i, j | 0 <= i < j < |a + b| ensures (a + b)[i] != (a + b)[j] {
      if i < |a| <= j { assert a[i] in a && b[j - |a|] in b; }
    }
  }

  lemma TablesHaveNoRepeats(x: Index)
    requires Valid(x)
    ensures NoDup(x.messages) && NoDup(x.mailboxes)
    ensures forall m, n :: m in x.messages && n in x.messages && m.rowid == n.rowid ==> m == n
    ensures forall b, c :: b in x.mailboxes && c in x.mailboxes && b.rowid == c.rowid ==> b == c
  {
  }

  // ---------------------------------------------------------------- the arms, one join at a time

  lemma DirectRowsExactly(x: Index, m: Message)
    requires Valid(x)
    ensures NoDup(DirectRows(x, m))
    ensures forall p :: p in DirectRows(x, m) <==>
      exists b :: b in x.mailboxes && p == (m.rowid, b.rowid) && b.rowid == m.mailbox && b.source.None? && !m.deleted
  {
    TablesHaveNoRepeats(x);
    var f := (b: Mailbox) => Emit(b.rowid == m.mailbox && b.source.None? && !m.deleted, (m.rowid, b.rowid));
    FlatMapMembers(x.mailboxes, f);
    FlatMapNoDup(x.mailboxes, f);
  }

  lemma Arm1Exactly(x: Index)
    requires Valid(x)
    ensures NoDup(Arm1(x)) && forall p :: p in Arm1(x) <==> Direct(x, p)
  {
    TablesHaveNoRepeats(x);
    forall m { DirectRowsExactly(x, m); }
    FlatMapMembers(x.messages, (m: Message) => DirectRows(x, m));
    FlatMapNoDup(x.messages, (m: Message) => DirectRows(x, m));
  }

  lemma ViewRowsExactly(x: Index, l: Label, m: Message)
    requires Valid(x)
    ensures NoDup(ViewRows(x, l, m))
    ensures forall p :: p in ViewRows(x, l, m) <==>
      exists b :: b in x.mailboxes && p == (l.message, l.mailbox) && m.rowid == l.message && b.rowid == l.mailbox
        && b.source == Some(m.mailbox) && !m.deleted
  {
    TablesHaveNoRepeats(x);
    var f := (b: Mailbox) =>
      Emit(m.rowid == l.message && b.rowid == l.mailbox && b.source == Some(m.mailbox) && !m.deleted, (m.rowid, l.mailbox));
    FlatMapMembers(x.mailboxes, f);
    FlatMapNoDup(x.mailboxes, f);
  }

  lemma LabelRowsExactly(x: Index, l: Label)
    requires Valid(x)
    ensures NoDup(LabelRows(x, l))
    ensures forall p :: p in LabelRows(x, l) <==>
      (p == (l.message, l.mailbox) &&
       exists m, b :: m in x.messages && b in x.mailboxes && m.rowid == l.message && b.rowid == l.mailbox
         && b.source == Some(m.mailbox) && !m.deleted)
  {
    TablesHaveNoRepeats(x);
    forall m { ViewRowsExactly(x, l, m); }
    FlatMapMembers(x.messages, (m: Message) => ViewRows(x, l, m));
    FlatMapNoDup(x.messages, (m: Message) => ViewRows(x, l, m));
  }

  lemma Arm2Exactly(x: Index)
    requires Valid(x)
    ensures NoDup(Arm2(x)) && forall p :: p in Arm2(x) <==> Labelled(x, p)
  {
    forall l { LabelRowsExactly(x, l); }
    FlatMapMembers(x.labels, (l: Label) => LabelRows(x, l));
    FlatMapNoDup(x.labels, (l: Label) => LabelRows(x, l));
    forall p | p in Arm2(x) ensures Labelled(x, p) {
      var l :| l in x.labels && p in LabelRows(x, l);
      assert l == Label(p.0, p.1);
    }
    forall p | Labelled(x, p) ensures p in Arm2(x) {
      assert p in LabelRows(x, Label(p.0, p.1));
    }
  }

  lemma HomeRowsExactly(x: Index, b: Mailbox, l: Label, m: Message)
    requires Valid(x)
    ensures NoDup(HomeRows(x, b, l, m))
    ensures forall p :: p in HomeRows(x, b, l, m) <==>
      exists h :: h in x.mailboxes && p == (l.message, l.mailbox) && BareLabel(x, b) && l.mailbox == b.rowid && m.rowid == l.message
        && h.rowid == m.mailbox && !m.deleted && Authority(b.url) == Authority(h.url)
  {
    TablesHaveNoRepeats(x);
    var f := (h: Mailbox) =>
      Emit(BareLabel(x, b) && l.mailbox == b.rowid && m.rowid == l.message && h.rowid == m.mailbox && !m.deleted
           && Authority(b.url) == Authority(h.url), (m.rowid, b.rowid));
    FlatMapMembers(x.mailboxes, f);
    FlatMapNoDup(x.mailboxes, f);
  }

  lemma BareLabelRowsExactly(x: Index, b: Mailbox, l: Label)
    requires Valid(x)
    ensures NoDup(BareLabelRows(x, b, l))
    ensures forall p :: p in BareLabelRows(x, b, l) <==>
      (p == (l.message, l.mailbox) && l.mailbox == b.rowid && BareLabel(x, b) &&
       exists m, h :: m in x.messages && h in x.mailboxes && m.rowid == l.message
         && h.rowid == m.mailbox && !m.deleted && Authority(b.url) == Authority(h.url))
  {
    TablesHaveNoRepeats(x);
    forall m { HomeRowsExactly(x, b, l, m); }
    FlatMapMembers(x.messages, (m: Message) => HomeRows(x, b, l, m));
    FlatMapNoDup(x.messages, (m: Message) => HomeRows(x, b, l, m));
  }

  lemma BareRowsExactly(x: Index, b: Mailbox)
    requires Valid(x)
    ensures NoDup(BareRows(x, b)) && forall p :: p in BareRows(x, b) <==> BareMember(x, b, p)
  {
    forall l { BareLabelRowsExactly(x, b, l); }
    FlatMapMembers(x.labels, (l: Label) => BareLabelRows(x, b, l));
    FlatMapNoDup(x.labels, (l: Label) => BareLabelRows(x, b, l));
    forall p | p in BareRows(x, b) ensures BareMember(x, b, p) {
      var l :| l in x.labels && p in BareLabelRows(x, b, l);
      assert l == Label(p.0, p.1);
    }
    forall p | BareMember(x, b, p) ensures p in BareRows(x, b) {
      assert p in BareLabelRows(x, b, Label(p.0, p.1));
    }
  }

  lemma Arm3Exactly(x: Index)
    requires Valid(x)
    ensures NoDup(Arm3(x)) && forall p :: p in Arm3(x) <==> BareLabelled(x, p)
  {
    TablesHaveNoRepeats(x);
    forall b { BareRowsExactly(x, b); }
    FlatMapMembers(x.mailboxes, (b: Mailbox) => BareRows(x, b));
    FlatMapNoDup(x.mailboxes, (b: Mailbox) => BareRows(x, b));
  }

  lemma ArmsDisjoint(x: Index, p: Pair)
    requires Valid(x)
    ensures !(Direct(x, p) && Labelled(x, p)) && !(Labelled(x, p) && BareLabelled(x, p)) && !(Direct(x, p) && BareLabelled(x, p))
  {
    TablesHaveNoRepeats(x);
  }

  /** UNION ALL is safe: the three arms repeat no row between or within them, so membership
      lists every logical (message, mailbox) pair exactly once and nothing else. */
  lemma MembershipExactly(x: Index)
    requires Valid(x)
    ensures NoDup(Membership(x))
    ensures forall p :: p in Membership(x) <==> Direct(x, p) || Labelled(x, p) || BareLabelled(x, p)
  {
    Arm1Exactly(x);
    Arm2Exactly(x);
    Arm3Exactly(x);
    forall p { ArmsDisjoint(x, p); }
    NoDupConcat(Arm1(x), Arm2(x));
    NoDupConcat(Arm1(x) + Arm2(x), Arm3(x));
  }
}
