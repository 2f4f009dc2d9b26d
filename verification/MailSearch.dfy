/**
 Ranked, deduplicated search and thread reads (`build_header_query`, `build_thread_query`
 of `macos_apps_mcp/adapters/mail_index.py`). ORDER BY leaves ties open, so an answer is any
 list the SQL allows, and each promise is proved for all of them.
 */
module MailSearch {
  import opened Prelude
  import opened MailIndex

  /** One joined row: a logical copy of a message in one mailbox. */
  datatype Hit = Hit(header: string, rank: int, received: int, sortDate: int, rowid: int, box: int)

  /** ORDER BY copy_rank, date_received DESC, m.ROWID, mb.ROWID */
  predicate Before(a: Hit, b: Hit) {
    a.rank < b.rank || (a.rank == b.rank &&
      (a.received > b.received || (a.received == b.received &&
        (a.rowid < b.rowid || (a.rowid == b.rowid && a.box < b.box)))))
  }

  function CountBefore(hits: seq<Hit>, h: Hit): nat {
    if hits == [] then 0 else (if hits[0].header == h.header && Before(hits[0], h) then 1 else 0) + CountBefore(hits[1..], h)
  }

  /** ROW_NUMBER() OVER (PARTITION BY message_id_header ORDER BY ...) */
  function RowNumber(hits: seq<Hit>, h: Hit): nat { CountBefore(hits, h) + 1 }

  /** `WHERE rn = 1` */
  function Winners(hits: seq<Hit>): seq<Hit> { Filter(hits, (h: Hit) => RowNumber(hits, h) == 1) }

  /** COALESCE(NULLIF(date_sent, 0), date_received) */
  function SortDate(m: Message): int { if m.sent == 0 then m.received else m.sent }

  function MessageOf(x: Index, rowid: int): seq<Message> { Filter(x.messages, (m: Message) => m.rowid == rowid) }
  function MailboxOf(x: Index, rowid: int): seq<Mailbox> { Filter(x.mailboxes, (b: Mailbox) => b.rowid == rowid) }

  /** The copies the ranking sees: logical members with a citable header that pass every filter. */
  function Hits(x: Index, rank: string -> int, passes: (Message, Mailbox) -> bool): seq<Hit> {
    FlatMap(Membership(x), (p: Pair) => PairHits(x, rank, passes, p))
  }

  function HitsOf(x: Index, rank: string -> int, passes: (Message, Mailbox) -> bool, p: Pair, m: Message): seq<Hit> {
    FlatMap(MailboxOf(x, p.1), (b: Mailbox) =>
      if m.header.Some? && m.header.value != "" && passes(m, b)
      then [Hit(m.header.value, rank(b.url), m.received, SortDate(m), m.rowid, b.rowid)] else [])
  }

  // ---------------------------------------------------------------- one copy per message

  lemma {:induction false} NoneBefore(hits: seq<Hit>, h: Hit)
    ensures CountBefore(hits, h) == 0 <==> forall g :: g in hits && g.header == h.header ==> !Before(g, h)
  {
    if hits != [] {
      NoneBefore(hits[1..], h);
      assert forall g :: g in hits <==> g == hits[0] || g in hits[1..];
    }
  }

  lemma {:induction false} LeastExists(hits: seq<Hit>, header: string) returns (least: Hit)
    requires exists h :: h in hits && h.header == header
    ensures least in hits && least.header == header
    ensures forall g :: g in hits && g.header == header ==> !Before(g, least)
  {
    assert forall g :: g in hits <==> g == hits[0] || g in hits[1..];
    if exists h :: h in hits[1..] && h.header == header {
      least := LeastExists(hits[1..], header);
      if hits[0].header == header && Before(hits[0], least) { least := hits[0]; }
    } else {
      least := hits[0];
    }
  }

  /** No logical copy is listed twice. */
  ghost predicate DistinctCopies(hits: seq<Hit>) {
    forall a, b :: a in hits && b in hits && a.rowid == b.rowid && a.box == b.box ==> a == b
  }

  /** `h` is cited rather than `g`: the lower rank, then the later arrival, then the lower
      message ROWID, then the lower mailbox ROWID. */
  predicate Cites(h: Hit, g: Hit) {
    && h.rank <= g.rank
    && (h.rank == g.rank ==> h.received >= g.received)
    && (h.rank == g.rank && h.received == g.received ==> h.rowid <= g.rowid)
    && (h.rank == g.rank && h.received == g.received && h.rowid == g.rowid ==> h.box < g.box)
  }

  /** First in its partition: cited rather than any other copy of its message. */
  ghost predicate First(hits: seq<Hit>, h: Hit) {
    h in hits && forall g :: g in hits && g.header == h.header && g != h ==> Cites(h, g)
  }

  lemma RowNumberOneIsFirst(hits: seq<Hit>, h: Hit)
    requires DistinctCopies(hits)
    ensures h in Winners(hits) <==> First(hits, h)
  {
    NoneBefore(hits, h);
    forall g | g in hits && h in hits && g != h ensures Cites(h, g) <==> !Before(g, h) {
      assert g.rowid != h.rowid || g.box != h.box;
    }
  }

  lemma WinnerOf(hits: seq<Hit>, header: string) returns (w: Hit)
    requires DistinctCopies(hits) && exists h :: h in hits && h.header == header
    ensures w in Winners(hits) && w.header == header
  {
    w := LeastExists(hits, header);
    NoneBefore(hits, w);
  }

  /** Deduplication: of each Message-ID that passed, exactly one copy survives, and it comes
      first by rank, then newest date, then the two ROWIDs. */
  lemma WinnersExactly(hits: seq<Hit>)
    requires NoDup(hits) && DistinctCopies(hits)
    ensures NoDup(Winners(hits))
    ensures forall h :: h in Winners(hits) <==> First(hits, h)
    ensures forall a, b :: a in Winners(hits) && b in Winners(hits) && a.header == b.header ==> a == b
    ensures forall h :: h in hits ==> exists w :: w in Winners(hits) && w.header == h.header
  {
    FilterNoDup(hits, (h: Hit) => RowNumber(hits, h) == 1);
    forall h ensures h in Winners(hits) <==> First(hits, h) { RowNumberOneIsFirst(hits, h); }
    forall a, b | a in Winners(hits) && b in Winners(hits) && a.header == b.header ensures a == b { OneFirst(hits, a, b); }
    forall h | h in hits ensures exists w :: w in Winners(hits) && w.header == h.header {
      var w := WinnerOf(hits, h.header);
    }
  }

  lemma OneFirst(hits: seq<Hit>, a: Hit, b: Hit)
    requires First(hits, a) && First(hits, b) && a.header == b.header
    ensures a == b
  {
  }

  // ---------------------------------------------------------------- ordering and limits

  ghost predicate NewestFirst(s: seq<Hit>, date: Hit -> int) { forall i, j :: 0 <= i < j < |s| ==> date(s[i]) >= date(s[j]) }
  ghost predicate OldestFirst(s: seq<Hit>, date: Hit -> int) { forall i, j :: 0 <= i < j < |s| ==> date(s[i]) <= date(s[j]) }

  function Limited(s: seq<Hit>, limit: nat): seq<Hit> { if |s| <= limit then s else s[..limit] }

  /** `out` may be the rows of ORDER BY date DESC LIMIT ? over `rows`. */
  ghost predicate Newest(rows: seq<Hit>, date: Hit -> int, limit: nat, out: seq<Hit>) {
    exists order :: multiset(order) == multiset(rows) && NewestFirst(order, date) && out == Limited(order, limit)
  }

  function Received(): Hit -> int { (h: Hit) => h.received }
  function BySortDate(): Hit -> int { (h: Hit) => h.sortDate }

  /** An answer of the search query. */
  ghost predicate SearchAnswer(hits: seq<Hit>, limit: nat, out: seq<Hit>) { Newest(Winners(hits), Received(), limit, out) }

  /** An answer of the thread query: the newest by sort date, put back in ascending order. */
  ghost predicate ThreadAnswer(hits: seq<Hit>, limit: nat, out: seq<Hit>) {
    exists kept :: Newest(Winners(hits), BySortDate(), limit, kept) && multiset(out) == multiset(kept) && OldestFirst(out, BySortDate())
  }

  function Headers(hits: seq<Hit>): set<string> { set h | h in hits :: h.header }

  lemma {:induction false} DistinctHeadersCount(ws: seq<Hit>)
    requires NoDup(ws) && forall a, b :: a in ws && b in ws && a.header == b.header ==> a == b
    ensures |Headers(ws)| == |ws|
  {
    if ws != [] {
      assert ws == [ws[0]] + ws[1..];
      NoDupCons(ws[0], ws[1..]);
      DistinctHeadersCount(ws[1..]);
      assert Headers(ws) == Headers(ws[1..]) + {ws[0].header};
      assert ws[0].header !in Headers(ws[1..]);
    }
  }

  lemma WinnersCount(hits: seq<Hit>)
    requires NoDup(hits) && DistinctCopies(hits)
    ensures |Winners(hits)| == |Headers(hits)|
  {
    WinnersExactly(hits);
    DistinctHeadersCount(Winners(hits));
    assert Headers(Winners(hits)) == Headers(hits);
  }

  lemma SameElements(s: seq<Hit>, t: seq<Hit>)
    requires multiset(s) == multiset(t)
    ensures |s| == |t| && forall h :: h in s <==> h in t
  {
    assert |multiset(s)| == |s| && |multiset(t)| == |t|;
    forall h ensures h in s <==> h in t { assert h in s <==> h in multiset(s); }
  }

  /** LIMIT keeps as many rows as it may, and drops none newer than one it keeps. */
  lemma NewestKeepsNewest(rows: seq<Hit>, date: Hit -> int, limit: nat, out: seq<Hit>)
    requires Newest(rows, date, limit, out)
    ensures |out| == if |rows| <= limit then |rows| else limit
    ensures NewestFirst(out, date) && forall h :: h in out ==> h in rows
    ensures forall h, k :: h in rows && h !in out && k in out ==> date(k) >= date(h)
  {
    var order :| multiset(order) == multiset(rows) && NewestFirst(order, date) && out == Limited(order, limit);
    SameElements(order, rows);
    forall h, k | h in rows && h !in out && k in out ensures date(k) >= date(h) {
      var i :| 0 <= i < |order| && order[i] == h;
      var j :| 0 <= j < |out| && out[j] == k;
      assert i >= |out|;
      assert order[j] == k;
    }
  }

  /** Search: every row cites the best-ranked copy of its message, newest first; LIMIT counts
      distinct messages, and what it drops is no newer than what it keeps. */
  lemma SearchIsOneRowPerMessage(hits: seq<Hit>, limit: nat, out: seq<Hit>)
    requires NoDup(hits) && DistinctCopies(hits) && SearchAnswer(hits, limit, out)
    ensures |out| == if |Headers(hits)| <= limit then |Headers(hits)| else limit
    ensures forall h :: h in out ==> First(hits, h)
    ensures forall i, j :: 0 <= i < j < |out| ==> out[i].received >= out[j].received
    ensures forall a, b :: a in out && b in out && a.header == b.header ==> a == b
    ensures forall w, k :: First(hits, w) && w !in out && k in out ==> k.received >= w.received
  {
    WinnersExactly(hits);
    WinnersCount(hits);
    NewestKeepsNewest(Winners(hits), Received(), limit, out);
    forall w, k | First(hits, w) && w !in out && k in out ensures k.received >= w.received {
      assert Received()(k) >= Received()(w);
    }
    forall i, j | 0 <= i < j < |out| ensures out[i].received >= out[j].received {
      assert Received()(out[i]) >= Received()(out[j]);
    }
  }

  /** Thread: the transcript runs oldest to newest, holds one row per message, keeps as many
      messages as the limit allows, and truncation drops only from the old end. */
  lemma ThreadKeepsTheNewEnd(hits: seq<Hit>, limit: nat, out: seq<Hit>)
    requires NoDup(hits) && DistinctCopies(hits) && ThreadAnswer(hits, limit, out)
    ensures |out| == if |Headers(hits)| <= limit then |Headers(hits)| else limit
    ensures forall i, j :: 0 <= i < j < |out| ==> out[i].sortDate <= out[j].sortDate
    ensures forall h :: h in out ==> First(hits, h)
    ensures forall a, b :: a in out && b in out && a.header == b.header ==> a == b
    ensures forall w, k :: First(hits, w) && w !in out && k in out ==> k.sortDate >= w.sortDate
  {
    WinnersExactly(hits);
    WinnersCount(hits);
    var kept :| Newest(Winners(hits), BySortDate(), limit, kept) && multiset(out) == multiset(kept) && OldestFirst(out, BySortDate());
    NewestKeepsNewest(Winners(hits), BySortDate(), limit, kept);
    SameElements(out, kept);
    forall w, k | First(hits, w) && w !in out && k in out ensures k.sortDate >= w.sortDate {
      assert BySortDate()(k) >= BySortDate()(w);
    }
    forall i, j | 0 <= i < j < |out| ensures out[i].sortDate <= out[j].sortDate {
      assert BySortDate()(out[i]) <= BySortDate()(out[j]);
    }
  }

  // ---------------------------------------------------------------- the joined rows are distinct copies

  lemma {:induction false} FilterOne<T(!new)>(s: seq<T>, keep: T -> bool)
    requires NoDup(s) && forall a, b :: a in s && b in s && keep(a) && keep(b) ==> a == b
    ensures |Filter(s, keep)| <= 1
  {
    FilterNoDup(s, keep);
    var r := Filter(s, keep);
    assert r == [] || (r[0] in r && r[|r| - 1] in r);
  }

  /** The rows of one pair: at most one, carrying the pair's two ROWIDs. */
  function PairHits(x: Index, rank: string -> int, passes: (Message, Mailbox) -> bool, p: Pair): seq<Hit> {
    FlatMap(MessageOf(x, p.0), (m: Message) => HitsOf(x, rank, passes, p, m))
  }

  lemma {:induction false} FlatMapOne<A(!new), R(!new)>(s: seq<A>, f: A -> seq<R>)
    requires |s| <= 1 && forall a :: a in s ==> |f(a)| <= 1
    ensures |FlatMap(s, f)| <= 1
  {
    if s != [] {
      assert s[1..] == [] && s[0] in s;
      assert FlatMap(s[1..], f) == [];
    }
  }

  lemma PairHitsExactly(x: Index, rank: string -> int, passes: (Message, Mailbox) -> bool, p: Pair)
    requires Valid(x)
    ensures |PairHits(x, rank, passes, p)| <= 1
    ensures forall h :: h in PairHits(x, rank, passes, p) ==> h.rowid == p.0 && h.box == p.1
  {
    TablesHaveNoRepeats(x);
    FilterOne(x.messages, (m: Message) => m.rowid == p.0);
    FilterOne(x.mailboxes, (b: Mailbox) => b.rowid == p.1);
    forall m | m in MessageOf(x, p.0)
      ensures |HitsOf(x, rank, passes, p, m)| <= 1 && forall h :: h in HitsOf(x, rank, passes, p, m) ==> h.rowid == p.0 && h.box == p.1
    {
      var f := (b: Mailbox) =>
        if m.header.Some? && m.header.value != "" && passes(m, b)
        then [Hit(m.header.value, rank(b.url), m.received, SortDate(m), m.rowid, b.rowid)] else [];
      FlatMapOne(MailboxOf(x, p.1), f);
      FlatMapMembers(MailboxOf(x, p.1), f);
    }
    FlatMapOne(MessageOf(x, p.0), (m: Message) => HitsOf(x, rank, passes, p, m));
    FlatMapMembers(MessageOf(x, p.0), (m: Message) => HitsOf(x, rank, passes, p, m));
  }

  lemma KeyedRows(pairs: seq<Pair>, f: Pair -> seq<Hit>)
    requires NoDup(pairs)
    requires forall p :: |f(p)| <= 1 && forall h :: h in f(p) ==> h.rowid == p.0 && h.box == p.1
    ensures NoDup(FlatMap(pairs, f)) && DistinctCopies(FlatMap(pairs, f))
  {
    FlatMapMembers(pairs, f);
    FlatMapNoDup(pairs, f);
    forall a, b | a in FlatMap(pairs, f) && b in FlatMap(pairs, f) && a.rowid == b.rowid && a.box == b.box ensures a == b {
      var p :| p in pairs && a in f(p);
      var q :| q in pairs && b in f(q);
      assert p == q;
    }
  }

  /** What search and thread rest on: over a valid index, whatever the filters, the joined
      rows repeat no copy, because membership repeats no pair. */
  lemma HitsAreDistinctCopies(x: Index, rank: string -> int, passes: (Message, Mailbox) -> bool)
    requires Valid(x)
    ensures NoDup(Hits(x, rank, passes)) && DistinctCopies(Hits(x, rank, passes))
  {
    MembershipExactly(x);
    forall p: Pair { PairHitsExactly(x, rank, passes, p); }
    KeyedRows(Membership(x), (p: Pair) => PairHits(x, rank, passes, p));
  }

  // ---------------------------------------------------------------- search and thread over the index

  /** The row a citable message makes in one mailbox, if it passes every filter; it sorts by the
      date sent, or by the date received when it was never sent. */
  predicate MakesHit(rank: string -> int, passes: (Message, Mailbox) -> bool, m: Message, b: Mailbox, h: Hit) {
    && m.header == Some(h.header) && h.header != "" && passes(m, b)
    && h.rank == rank(b.url) && h.received == m.received && h.rowid == m.rowid && h.box == b.rowid
    && (m.sent != 0 ==> h.sortDate == m.sent) && (m.sent == 0 ==> h.sortDate == m.received)
  }

  /** `h` is the logical copy of a citable live message in one mailbox, and passes every filter. */
  ghost predicate PassingCopy(x: Index, rank: string -> int, passes: (Message, Mailbox) -> bool, h: Hit, m: Message, b: Mailbox) {
    m in x.messages && b in x.mailboxes && (m.rowid, b.rowid) in Membership(x) && MakesHit(rank, passes, m, b, h)
  }

  lemma HitsOfExactly(x: Index, rank: string -> int, passes: (Message, Mailbox) -> bool, p: Pair, m: Message, h: Hit)
    ensures h in HitsOf(x, rank, passes, p, m) <==> exists b :: b in x.mailboxes && b.rowid == p.1 && MakesHit(rank, passes, m, b, h)
  {
    FlatMapMembers(MailboxOf(x, p.1), (b: Mailbox) =>
      if m.header.Some? && m.header.value != "" && passes(m, b)
      then [Hit(m.header.value, rank(b.url), m.received, SortDate(m), m.rowid, b.rowid)] else []);
  }

  lemma PairHitsMembers(x: Index, rank: string -> int, passes: (Message, Mailbox) -> bool, p: Pair, h: Hit)
    requires p in Membership(x)
    ensures h in PairHits(x, rank, passes, p) <==> exists m, b :: PassingCopy(x, rank, passes, h, m, b) && (m.rowid, b.rowid) == p
  {
    FlatMapMembers(MessageOf(x, p.0), (m: Message) => HitsOf(x, rank, passes, p, m));
    forall m { HitsOfExactly(x, rank, passes, p, m, h); }
    hide HitsOf, Membership, SortDate;
    if h in PairHits(x, rank, passes, p) {
      var m :| m in MessageOf(x, p.0) && h in HitsOf(x, rank, passes, p, m);
      var b :| b in x.mailboxes && b.rowid == p.1 && MakesHit(rank, passes, m, b, h);
      assert PassingCopy(x, rank, passes, h, m, b);
    }
    if exists m, b :: PassingCopy(x, rank, passes, h, m, b) && (m.rowid, b.rowid) == p {
      var m, b :| PassingCopy(x, rank, passes, h, m, b) && (m.rowid, b.rowid) == p;
      assert m in MessageOf(x, p.0) && h in HitsOf(x, rank, passes, p, m);
    }
  }

  /** The joined rows are the logical copies that pass the filters: all of them, and no other row. */
  lemma HitsExactly(x: Index, rank: string -> int, passes: (Message, Mailbox) -> bool, h: Hit)
    ensures h in Hits(x, rank, passes) <==> exists m, b :: PassingCopy(x, rank, passes, h, m, b)
  {
    FlatMapMembers(Membership(x), (p: Pair) => PairHits(x, rank, passes, p));
    hide PairHits, Membership;
    forall p | p in Membership(x)
      ensures h in PairHits(x, rank, passes, p) <==> exists m, b :: PassingCopy(x, rank, passes, h, m, b) && (m.rowid, b.rowid) == p
    {
      PairHitsMembers(x, rank, passes, p, h);
    }
    if exists m, b :: PassingCopy(x, rank, passes, h, m, b) {
      var m, b :| PassingCopy(x, rank, passes, h, m, b);
      assert h in PairHits(x, rank, passes, (m.rowid, b.rowid));
    }
  }

  /** The copy of its message that the index cites: no other passing copy is cited rather. */
  ghost predicate Cited(x: Index, rank: string -> int, passes: (Message, Mailbox) -> bool, h: Hit) {
    && (exists m, b :: PassingCopy(x, rank, passes, h, m, b))
    && forall g, m, b :: PassingCopy(x, rank, passes, g, m, b) && g.header == h.header && g != h ==> Cites(h, g)
  }

  lemma CitedIsFirst(x: Index, rank: string -> int, passes: (Message, Mailbox) -> bool, h: Hit)
    ensures Cited(x, rank, passes, h) <==> First(Hits(x, rank, passes), h)
  {
    hide Hits, PassingCopy, Cites;
    forall g { HitsExactly(x, rank, passes, g); }
  }

  /** Search over an index: one row per passing message, its best copy, newest first. */
  lemma SearchExactly(x: Index, rank: string -> int, passes: (Message, Mailbox) -> bool, limit: nat, out: seq<Hit>)
    requires Valid(x) && SearchAnswer(Hits(x, rank, passes), limit, out)
    ensures forall h :: h in out ==> Cited(x, rank, passes, h)
    ensures forall a, b :: a in out && b in out && a.header == b.header ==> a == b
    ensures |out| == (if |Headers(Hits(x, rank, passes))| <= limit then |Headers(Hits(x, rank, passes))| else limit)
    ensures forall i, j :: 0 <= i < j < |out| ==> out[i].received >= out[j].received
    ensures forall w, k :: Cited(x, rank, passes, w) && w !in out && k in out ==> k.received >= w.received
  {
    hide Hits, Cited, First, SearchAnswer;
    HitsAreDistinctCopies(x, rank, passes);
    SearchIsOneRowPerMessage(Hits(x, rank, passes), limit, out);
    forall h { CitedIsFirst(x, rank, passes, h); }
  }

  /** Every conversation a live copy of the message belongs to: the thread's seed. */
  function Conversations(x: Index, id: string): set<int> {
    set m | m in x.messages && !m.deleted && m.header == Some(id) :: m.conversation
  }

  function InThread(x: Index, id: string): (Message, Mailbox) -> bool { (m: Message, b: Mailbox) => m.conversation in Conversations(x, id) }

  /** The row's message shares a conversation with some live copy of the one named. */
  ghost predicate SharesConversation(x: Index, id: string, h: Hit) {
    exists m, seed :: m in x.messages && m.rowid == h.rowid && IsSeed(x, id, seed) && m.conversation == seed.conversation
  }

  predicate IsSeed(x: Index, id: string, seed: Message) { seed in x.messages && !seed.deleted && seed.header == Some(id) }

  /** Thread over an index: oldest first, each row the best copy of a message that shares a
      conversation with some live copy of the one named, and truncation only at the old end. */
  lemma ThreadExactly(x: Index, rank: string -> int, id: string, limit: nat, out: seq<Hit>)
    requires Valid(x) && ThreadAnswer(Hits(x, rank, InThread(x, id)), limit, out)
    ensures forall h :: h in out ==> Cited(x, rank, InThread(x, id), h) && SharesConversation(x, id, h)
    ensures forall a, b :: a in out && b in out && a.header == b.header ==> a == b
    ensures var hits := Hits(x, rank, InThread(x, id)); |out| == if |Headers(hits)| <= limit then |Headers(hits)| else limit
    ensures forall i, j :: 0 <= i < j < |out| ==> out[i].sortDate <= out[j].sortDate
    ensures forall w, k :: Cited(x, rank, InThread(x, id), w) && w !in out && k in out ==> k.sortDate >= w.sortDate
  {
    hide Hits, Cites, First, ThreadAnswer;
    var passes := InThread(x, id);
    HitsAreDistinctCopies(x, rank, passes);
    ThreadKeepsTheNewEnd(Hits(x, rank, passes), limit, out);
    forall h { CitedIsFirst(x, rank, passes, h); }
    forall h | h in out ensures SharesConversation(x, id, h) {
      var m, b :| PassingCopy(x, rank, passes, h, m, b);
      var seed :| IsSeed(x, id, seed) && seed.conversation == m.conversation;
    }
  }

  /** The thread leaves out no message of those conversations but by its limit. */
  lemma ThreadReachesEveryConversation(x: Index, rank: string -> int, id: string, seed: Message, m: Message, b: Mailbox)
    requires IsSeed(x, id, seed) && m.conversation == seed.conversation
    requires m in x.messages && b in x.mailboxes && (m.rowid, b.rowid) in Membership(x) && m.header.Some? && m.header.value != ""
    ensures m.header.value in Headers(Hits(x, rank, InThread(x, id)))
  {
    var h := Hit(m.header.value, rank(b.url), m.received, SortDate(m), m.rowid, b.rowid);
    assert m.conversation in Conversations(x, id);
    assert PassingCopy(x, rank, InThread(x, id), h, m, b);
    HitsExactly(x, rank, InThread(x, id), h);
  }
}
