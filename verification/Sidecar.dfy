/**
 The Message-ID sidecar of `macos_apps_mcp/adapters/mail_ids.py` and the bounded top-up of
 `mail_index.py`: a cache over a table that grows, with a high-water mark, an incremental
 harvest and a rebuild path.
 */
module Sidecar {
  import opened Grouping
  import opened Prelude

  datatype Gid = Gid(n: int)
  type Url = string

  /** A live row of `messages`; ROWIDs start at 1. */
  datatype Row = Row(rowid: nat, gid: Option<Gid>, mailbox: int)

  datatype Index = Index(rows: seq<Row>, urls: map<int, Url>)

  /** The stores on disk: for a mailbox url no store at all, or by ROWID the Message-ID its
      file carries, "" when it carries none. */
  type Disk = Url -> Option<map<nat, string>>

  datatype Side = Side(ids: map<Gid, string>, mark: Option<nat>)

  const TOPUP_MAX_ROWS: nat := 200

  function UrlOf(x: Index, mailbox: int): Url { if mailbox in x.urls then x.urls[mailbox] else "" }

  /** What the row's own file says; "" for no store, no file or no id. */
  function IdOnDisk(x: Index, disk: Disk, r: Row): string {
    match disk(UrlOf(x, r.mailbox))
    case None => ""
    case Some(files) => if r.rowid in files then files[r.rowid] else ""
  }

  /** `max(ROWID)`, 0 for no rows. */
  function MaxRowid(rows: seq<Row>): (m: nat)
    ensures forall r :: r in rows ==> r.rowid <= m
    ensures m == 0 || exists r :: r in rows && r.rowid == m
  {
    if rows == [] then 0
    else
      var m := MaxRowid(rows[1..]);
      assert rows[0] in rows && forall r :: r in rows <==> r == rows[0] || r in rows[1..];
      if rows[0].rowid > m then rows[0].rowid else m
  }

  predicate HasGid(r: Row) { r.gid.Some? }
  function MailboxOf(r: Row): int { r.mailbox }

  /** The rows a build reads. */
  function Harvestable(x: Index): (rows: seq<Row>)
    ensures forall r :: r in rows <==> r in x.rows && r.gid.Some?
  {
    Filter(x.rows, HasGid)
  }

  // ---------------------------------------------------------------- build

  /** ROWIDs went backwards: Mail's index looks rebuilt. */
  predicate Rebuilt(x: Index, side: Side) { side.mark.Some? && MaxRowid(Harvestable(x)) < side.mark.value }

  /** A build on its way: the mappings, the ids it need not read again, and its counts. */
  datatype Sweep = Sweep(ids: map<Gid, string>, covered: set<Gid>, harvested: nat, noFile: nat, noId: nat, noStore: nat)

  function SweepRow(x: Index, disk: Disk, s: Sweep, r: Row): Sweep {
    match (r.gid, disk(UrlOf(x, r.mailbox)))
    case (None, _) => s
    case (_, None) => s.(noStore := s.noStore + 1)
    case (Some(g), Some(files)) =>
      if g in s.covered then s
      else if r.rowid !in files then s.(noFile := s.noFile + 1)
      else if files[r.rowid] == "" then s.(noId := s.noId + 1)
      else s.(ids := s.ids[g := files[r.rowid]], covered := s.covered + {g}, harvested := s.harvested + 1)
  }

  function SweepRows(x: Index, disk: Disk, s: Sweep, rows: seq<Row>): Sweep {
    if rows == [] then s else SweepRow(x, disk, SweepRows(x, disk, s, rows[..|rows| - 1]), rows[|rows| - 1])
  }

  function Start(x: Index, side: Side): Sweep {
    Sweep(side.ids, if Rebuilt(x, side) then {} else side.ids.Keys, 0, 0, 0, 0)
  }

  function Wanted(x: Index, covered: set<Gid>): (rows: seq<Row>)
    ensures forall r :: r in rows <==> r in x.rows && r.gid.Some? && r.gid.value !in covered
  {
    Filter(Harvestable(x), (r: Row) => r.gid.Some? && r.gid.value !in covered)
  }

  function Harvest(x: Index, disk: Disk, side: Side): Sweep {
    SweepRows(x, disk, Start(x, side), Regrouped(Wanted(x, Start(x, side).covered), MailboxOf))
  }

  function Built(x: Index, disk: Disk, side: Side): Side {
    Side(Harvest(x, disk, side).ids, Some(MaxRowid(Harvestable(x))))
  }

  // ---------------------------------------------------------------- bounded top-up

  /** The rows a top-up reads: above the mark, with an id, joined to their mailbox. */
  function Newer(x: Index, mark: nat): (rows: seq<Row>)
    ensures forall r :: r in rows <==> r in x.rows && r.rowid > mark && r.gid.Some? && r.mailbox in x.urls
  {
    Filter(x.rows, (r: Row) => r.rowid > mark && r.gid.Some? && r.mailbox in x.urls)
  }

  function TopRow(x: Index, disk: Disk, ids: map<Gid, string>, r: Row): map<Gid, string> {
    if r.gid.Some? && IdOnDisk(x, disk, r) != "" then ids[r.gid.value := IdOnDisk(x, disk, r)] else ids
  }

  function TopRows(x: Index, disk: Disk, ids: map<Gid, string>, rows: seq<Row>): map<Gid, string> {
    if rows == [] then ids else TopRow(x, disk, TopRows(x, disk, ids, rows[..|rows| - 1]), rows[|rows| - 1])
  }

  function ByUrl(x: Index): Row -> Url { (r: Row) => UrlOf(x, r.mailbox) }

  function ToppedUp(x: Index, disk: Disk, side: Side, mark: nat): Side {
    Side(TopRows(x, disk, side.ids, Regrouped(Newer(x, mark), ByUrl(x))), Some(MaxRowid(x.rows)))
  }

  /** Does a read absorb the new rows? A failing top-up leaves the sidecar as it was. */
  predicate Absorbs(x: Index, side: Side, fails: bool) {
    !fails && side.mark.Some? && 0 < MaxRowid(x.rows) - side.mark.value <= TOPUP_MAX_ROWS
  }

  function AfterRead(x: Index, disk: Disk, side: Side, fails: bool): Side {
    if Absorbs(x, side, fails) then ToppedUp(x, disk, side, side.mark.value) else side
  }

  datatype Note = Fresh | LooksRebuilt | Missing(rows: nat)

  /** `staleness_note` */
  function StalenessNote(x: Index, side: Side): Note {
    if side.mark.None? then Fresh
    else if MaxRowid(x.rows) < side.mark.value then LooksRebuilt
    else if MaxRowid(x.rows) > side.mark.value then Missing(MaxRowid(x.rows) - side.mark.value)
    else Fresh
  }

  /** The note, told by the live rows: rebuilt when none of them reaches the mark, `n` missing
      when the newest lies `n` past it, and none when there is no mark or the newest is at it. */
  lemma NoteExactly(x: Index, side: Side)
    ensures StalenessNote(x, side).LooksRebuilt?
      <==> side.mark.Some? && side.mark.value > 0 && forall r :: r in x.rows ==> r.rowid < side.mark.value
    ensures forall n :: StalenessNote(x, side) == Missing(n) <==> side.mark.Some? && n > 0 && NewestIs(x.rows, side.mark.value + n)
    ensures StalenessNote(x, side).Fresh? <==> side.mark.None? || NewestIs(x.rows, side.mark.value)
  {
    MaxRowidExactly(x.rows);
    hide MaxRowid;
  }

  /** `n` is the newest ROWID among the rows, 0 if there are none. */
  ghost predicate NewestIs(rows: seq<Row>, n: nat) {
    (forall r :: r in rows ==> r.rowid <= n) && (n == 0 || exists r :: r in rows && r.rowid == n)
  }

  lemma MaxRowidExactly(rows: seq<Row>)
    ensures forall n :: NewestIs(rows, n) <==> n == MaxRowid(rows)
  {
    var m := MaxRowid(rows);
    hide MaxRowid;
    forall n | NewestIs(rows, n) ensures n == m {
      if n > 0 { var r :| r in rows && r.rowid == n; }
      if m > 0 { var r :| r in rows && r.rowid == m; }
    }
  }

  /** A read takes the new rows in exactly when the newest is 1 to 200 past the mark and the
      harvest does not fail; it then moves the mark to the newest row, and otherwise leaves the
      sidecar alone. */
  lemma AbsorbsExactly(x: Index, disk: Disk, side: Side, fails: bool)
    ensures Absorbs(x, side, fails)
      <==> !fails && side.mark.Some? && (exists r :: r in x.rows && r.rowid > side.mark.value)
           && forall r :: r in x.rows ==> r.rowid <= side.mark.value + 200
    ensures var after := AfterRead(x, disk, side, fails);
      if Absorbs(x, side, fails) then after.mark.Some? && NewestIs(x.rows, after.mark.value) else after == side
  {
    MaxRowidExactly(x.rows);
    hide MaxRowid, TopRows;
  }

  /** A build leaves the mark at the newest row with an id, and takes the index for rebuilt
      exactly when the old mark lies above every such row. */
  lemma MarkExactly(x: Index, disk: Disk, side: Side)
    ensures var after := Built(x, disk, side); after.mark.Some? && NewestIs(Harvestable(x), after.mark.value)
    ensures Rebuilt(x, side)
      <==> side.mark.Some? && side.mark.value > 0 && forall r :: r in x.rows && r.gid.Some? ==> r.rowid < side.mark.value
  {
    hide Harvest;
    MaxRowidExactly(Harvestable(x));
    hide MaxRowid;
  }

  /** A row is read from the store of its mailbox's url, and from no other; a mailbox without a
      row has the empty url. */
  lemma IdOnDiskExactly(x: Index, disk: Disk, r: Row, id: string)
    requires id != ""
    ensures IdOnDisk(x, disk, r) == id <==> exists url :: LiesIn(x, r, url) && Stores(disk, url, r.rowid, id)
  {
    var url := UrlOf(x, r.mailbox);
    assert LiesIn(x, r, url) && (IdOnDisk(x, disk, r) == id <==> Stores(disk, url, r.rowid, id));
  }

  predicate LiesIn(x: Index, r: Row, url: Url) { if r.mailbox in x.urls then url == x.urls[r.mailbox] else url == "" }
  predicate Stores(disk: Disk, url: Url, rowid: nat, id: string) {
    disk(url).Some? && rowid in disk(url).value && disk(url).value[rowid] == id
  }

  // ---------------------------------------------------------------- the sidecar in place

  class Store {
    var ids: map<Gid, string>
    var mark: Option<nat>

    function State(): Side reads this { Side(ids, mark) }

    /** `build`: the harvest, and how many distinct live ids are mapped after it. */
    method Build(x: Index, disk: Disk) returns (harvested: nat, noFile: nat, noId: nat, noStore: nat, rebuilt: bool)
      modifies this
      ensures State() == Built(x, disk, old(State()))
      ensures rebuilt == Rebuilt(x, old(State()))
      ensures var h := Harvest(x, disk, old(State()));
        (harvested, noFile, noId, noStore) == (h.harvested, h.noFile, h.noId, h.noStore)
    {
      hide SweepRow, Group, Keys, MaxRowid;
      var rows := Filter(x.rows, HasGid);
      var maxRowid := MaxRowid(rows);
      rebuilt := mark.Some? && maxRowid < mark.value;
      ghost var start := Start(x, State());
      var covered := if rebuilt then {} else ids.Keys;
      var wanted := Filter(rows, (r: Row) => r.gid.Some? && r.gid.value !in covered);
      var byMailbox, order := GroupBy(wanted, MailboxOf);
      var s := Sweep(ids, covered, 0, 0, 0, 0);
      assert s == start;
      var i := 0;
      while i < |order|
        invariant 0 <= i <= |order|
        invariant s == SweepRows(x, disk, start, Chained(wanted, MailboxOf, order[..i]))
      {
        var group := byMailbox[order[i]];
        s := SweepMailbox(x, disk, s, order[i], group);
        assert order[..i + 1][..i] == order[..i];
        SweepChain(x, disk, start, Chained(wanted, MailboxOf, order[..i]), group);
        i := i + 1;
      }
      assert order[..i] == order;
      ids, mark := s.ids, Some(maxRowid);
      harvested, noFile, noId, noStore := s.harvested, s.noFile, s.noId, s.noStore;
    }

    /** `_maybe_top_up` around `top_up`. */
    method MaybeTopUp(x: Index, disk: Disk, fails: bool)
      modifies this
      ensures State() == AfterRead(x, disk, old(State()), fails)
    {
      hide TopRow, Group, Keys;
      if mark.None? {
        return;
      }
      var maxRowid := MaxRowid(x.rows);
      if maxRowid < mark.value {
        return;
      }
      var delta := maxRowid - mark.value;
      if delta == 0 || delta > TOPUP_MAX_ROWS || fails {
        return;
      }
      var high := mark.value;
      var rows := Filter(x.rows, (r: Row) => r.rowid > high && r.gid.Some? && r.mailbox in x.urls);
      assert rows == Newer(x, high);
      var byUrl, order := GroupBy(rows, ByUrl(x));
      var i := 0;
      ghost var start := ids;
      while i < |order|
        invariant 0 <= i <= |order| && mark == old(mark)
        invariant ids == TopRows(x, disk, start, Chained(rows, ByUrl(x), order[..i]))
      {
        var group := byUrl[order[i]];
        var next := TopMailbox(x, disk, ids, order[i], group);
        assert order[..i + 1][..i] == order[..i];
        TopChain(x, disk, start, Chained(rows, ByUrl(x), order[..i]), group);
        ids := next;
        i := i + 1;
      }
      assert order[..i] == order;
      mark := Some(maxRowid);
    }
  }

  /** The inner loop of `build`, over the wanted rows of one mailbox. */
  method SweepMailbox(x: Index, disk: Disk, before: Sweep, mailbox: int, group: seq<Row>) returns (s: Sweep)
    requires forall r :: r in group ==> r.gid.Some? && r.mailbox == mailbox
    ensures s == SweepRows(x, disk, before, group)
  {
    s := before;
    var store := disk(UrlOf(x, mailbox));
    if store.None? {
      NoStoreSweep(x, disk, before, group);
      return s.(noStore := s.noStore + |group|);
    }
    var i := 0;
    while i < |group|
      invariant 0 <= i <= |group|
      invariant s == SweepRows(x, disk, before, group[..i])
    {
      var r := group[i];
      assert r in group && group[..i + 1][..i] == group[..i];
      var g := r.gid.value;
      if g !in s.covered {
        if r.rowid !in store.value {
          s := s.(noFile := s.noFile + 1);
        } else if store.value[r.rowid] == "" {
          s := s.(noId := s.noId + 1);
        } else {
          s := Sweep(s.ids[g := store.value[r.rowid]], s.covered + {g}, s.harvested + 1, s.noFile, s.noId, s.noStore);
        }
      }
      i := i + 1;
    }
    assert group[..i] == group;
  }

  /** The inner loop of `top_up`, over the new rows of one mailbox url. */
  method TopMailbox(x: Index, disk: Disk, before: map<Gid, string>, url: Url, group: seq<Row>) returns (ids: map<Gid, string>)
    requires forall r :: r in group ==> r.gid.Some? && UrlOf(x, r.mailbox) == url
    ensures ids == TopRows(x, disk, before, group)
  {
    ids := before;
    var store := disk(url);
    var i := 0;
    while i < |group|
      invariant 0 <= i <= |group|
      invariant ids == TopRows(x, disk, before, group[..i])
    {
      var r := group[i];
      assert r in group && group[..i + 1][..i] == group[..i];
      if store.Some? && r.rowid in store.value && store.value[r.rowid] != "" {
        ids := ids[r.gid.value := store.value[r.rowid]];
      }
      i := i + 1;
    }
    assert group[..i] == group;
  }

  lemma {:induction false} NoStoreSweep(x: Index, disk: Disk, s: Sweep, rows: seq<Row>)
    requires forall r :: r in rows ==> r.gid.Some? && disk(UrlOf(x, r.mailbox)).None?
    ensures SweepRows(x, disk, s, rows) == s.(noStore := s.noStore + |rows|)
  {
    if rows != [] {
      NoStoreSweep(x, disk, s, rows[..|rows| - 1]);
      assert rows[|rows| - 1] in rows;
    }
  }

  lemma {:induction false} SweepChain(x: Index, disk: Disk, s: Sweep, a: seq<Row>, b: seq<Row>)
    ensures SweepRows(x, disk, s, a + b) == SweepRows(x, disk, SweepRows(x, disk, s, a), b)
  {
    if b == [] {
      assert a + b == a;
    } else {
      assert (a + b)[..|a + b| - 1] == a + b[..|b| - 1];
      SweepChain(x, disk, s, a, b[..|b| - 1]);
    }
  }

  lemma {:induction false} TopChain(x: Index, disk: Disk, ids: map<Gid, string>, a: seq<Row>, b: seq<Row>)
    ensures TopRows(x, disk, ids, a + b) == TopRows(x, disk, TopRows(x, disk, ids, a), b)
  {
    if b == [] {
      assert a + b == a;
    } else {
      assert (a + b)[..|a + b| - 1] == a + b[..|b| - 1];
      TopChain(x, disk, ids, a, b[..|b| - 1]);
    }
  }

  // ---------------------------------------------------------------- what a harvest does to one id

  /** Some row among these carries `g`, and its own file says `id`. */
  ghost predicate ReadFrom(x: Index, disk: Disk, rows: seq<Row>, g: Gid, id: string) {
    id != "" && exists r :: r in rows && r.gid == Some(g) && IdOnDisk(x, disk, r) == id
  }

  /** Some row among these carries `g` and has an id in its file. */
  ghost predicate Readable(x: Index, disk: Disk, rows: seq<Row>, g: Gid) {
    exists r :: r in rows && r.gid == Some(g) && IdOnDisk(x, disk, r) != ""
  }

  ghost predicate SameAt(a: map<Gid, string>, b: map<Gid, string>, g: Gid) {
    (g in a <==> g in b) && (g in a && g in b ==> a[g] == b[g])
  }

  /** The row's own file can map `g`. */
  predicate Gives(x: Index, disk: Disk, r: Row, g: Gid) { r.gid == Some(g) && IdOnDisk(x, disk, r) != "" }

  lemma ReadableSnoc(x: Index, disk: Disk, rows: seq<Row>, r: Row, g: Gid)
    ensures Readable(x, disk, rows + [r], g) <==> Readable(x, disk, rows, g) || Gives(x, disk, r, g)
    ensures forall id :: ReadFrom(x, disk, rows, g, id) ==> ReadFrom(x, disk, rows + [r], g, id)
    ensures Gives(x, disk, r, g) ==> ReadFrom(x, disk, rows + [r], g, IdOnDisk(x, disk, r))
  {
    hide IdOnDisk;
    assert forall y :: y in rows + [r] <==> y in rows || y == r;
  }

  lemma OneRowSwept(x: Index, disk: Disk, s: Sweep, r: Row, g: Gid)
    ensures var after := SweepRow(x, disk, s, r);
      && (g in after.covered <==> g in s.covered || Gives(x, disk, r, g))
      && (if g !in s.covered && Gives(x, disk, r, g)
          then g in after.ids && after.ids[g] == IdOnDisk(x, disk, r) else SameAt(after.ids, s.ids, g))
  {
  }

  /** A sweep maps exactly the uncovered ids that some row's file can give, from such a file,
      and leaves every other mapping alone. */
  lemma {:induction false} SweepExactly(x: Index, disk: Disk, s: Sweep, rows: seq<Row>, g: Gid)
    ensures var after := SweepRows(x, disk, s, rows);
      && (g in after.covered <==> g in s.covered || Readable(x, disk, rows, g))
      && (g in after.covered && g !in s.covered ==> g in after.ids && ReadFrom(x, disk, rows, g, after.ids[g]))
      && (g !in after.covered || g in s.covered ==> SameAt(after.ids, s.ids, g))
  {
    hide SweepRow, IdOnDisk, ReadFrom, Gives;
    if rows != [] {
      var (init, last) := (rows[..|rows| - 1], rows[|rows| - 1]);
      assert rows == init + [last];
      SweepExactly(x, disk, s, init, g);
      ReadableSnoc(x, disk, init, last, g);
      OneRowSwept(x, disk, SweepRows(x, disk, s, init), last, g);
    }
  }

  lemma {:induction false} HarvestedIsNewlyCovered(x: Index, disk: Disk, s: Sweep, rows: seq<Row>)
    ensures var after := SweepRows(x, disk, s, rows); after.harvested - s.harvested == |after.covered| - |s.covered|
  {
    hide SweepRow;
    if rows != [] {
      HarvestedIsNewlyCovered(x, disk, s, rows[..|rows| - 1]);
      OneRowCounted(x, disk, SweepRows(x, disk, s, rows[..|rows| - 1]), rows[|rows| - 1]);
    }
  }

  lemma OneRowCounted(x: Index, disk: Disk, s: Sweep, r: Row)
    ensures var after := SweepRow(x, disk, s, r); after.harvested - s.harvested == |after.covered| - |s.covered|
  {
    hide UrlOf;
    assert forall g :: g !in s.covered ==> |s.covered + {g}| == |s.covered| + 1;
  }

  /** What the disk holds for a row. */
  datatype Kind = NoStore | NoFile | NoId | HasId

  function KindOf(x: Index, disk: Disk, r: Row): Kind {
    match disk(UrlOf(x, r.mailbox))
    case None => NoStore
    case Some(files) => if r.rowid !in files then NoFile else if files[r.rowid] == "" then NoId else HasId
  }

  function Tally(x: Index, disk: Disk, rows: seq<Row>, k: Kind): nat {
    if rows == [] then 0
    else Tally(x, disk, rows[..|rows| - 1], k) + if KindOf(x, disk, rows[|rows| - 1]) == k then 1 else 0
  }

  /** Each row carries an id that no other row does and nothing covers yet. */
  ghost predicate FirstSeen(s: Sweep, rows: seq<Row>) {
    && (forall r :: r in rows ==> r.gid.Some? && r.gid.value !in s.covered)
    && forall i, j :: 0 <= i < j < |rows| ==> rows[i].gid != rows[j].gid
  }

  lemma {:induction false} TallyIsAll(x: Index, disk: Disk, rows: seq<Row>)
    ensures Tally(x, disk, rows, NoStore) + Tally(x, disk, rows, NoFile) + Tally(x, disk, rows, NoId) + Tally(x, disk, rows, HasId) == |rows|
  {
    if rows != [] { TallyIsAll(x, disk, rows[..|rows| - 1]); }
  }

  /** The report's counts: with one row an id, each wanted row is counted once, under what the
      disk holds for it; rows without a store are counted whoever shares their id. */
  lemma {:induction false} SweepCountsExactly(x: Index, disk: Disk, s: Sweep, rows: seq<Row>)
    requires forall r :: r in rows ==> r.gid.Some?
    ensures var after := SweepRows(x, disk, s, rows); after.noStore == s.noStore + Tally(x, disk, rows, NoStore)
    ensures var after := SweepRows(x, disk, s, rows); FirstSeen(s, rows) ==>
      && after.noFile == s.noFile + Tally(x, disk, rows, NoFile) && after.noId == s.noId + Tally(x, disk, rows, NoId)
      && after.harvested == s.harvested + Tally(x, disk, rows, HasId)
  {
    hide IdOnDisk, KindOf;
    if rows != [] {
      var (init, last) := (rows[..|rows| - 1], rows[|rows| - 1]);
      assert last in rows && forall r :: r in init ==> r in rows;
      SweepCountsExactly(x, disk, s, init);
      OneRowTallied(x, disk, SweepRows(x, disk, s, init), last);
      SweepExactly(x, disk, s, init, last.gid.value);
    }
  }

  lemma OneRowTallied(x: Index, disk: Disk, s: Sweep, r: Row)
    requires r.gid.Some?
    ensures var (after, k) := (SweepRow(x, disk, s, r), KindOf(x, disk, r));
      && after.noStore == s.noStore + (if k == NoStore then 1 else 0)
      && (r.gid.value !in s.covered ==>
            && after.noFile == s.noFile + (if k == NoFile then 1 else 0) && after.noId == s.noId + (if k == NoId then 1 else 0)
            && after.harvested == s.harvested + (if k == HasId then 1 else 0))
  {
  }

  /** A top-up maps exactly the ids some new row's file can give; the last one read wins. */
  lemma {:induction false} TopUpExactly(x: Index, disk: Disk, ids: map<Gid, string>, rows: seq<Row>, g: Gid)
    ensures var after := TopRows(x, disk, ids, rows);
      if Readable(x, disk, rows, g) then g in after && ReadFrom(x, disk, rows, g, after[g]) else SameAt(after, ids, g)
  {
    hide IdOnDisk, ReadFrom, Readable;
    if rows == [] {
      NothingReadable(x, disk, g);
    } else {
      var (init, last) := (rows[..|rows| - 1], rows[|rows| - 1]);
      assert rows == init + [last];
      TopUpExactly(x, disk, ids, init, g);
      ReadableSnoc(x, disk, init, last, g);
    }
  }

  lemma NothingReadable(x: Index, disk: Disk, g: Gid)
    ensures !Readable(x, disk, [], g)
  {
  }

  /** One build, id by id. An already mapped id is left alone unless the index looks rebuilt;
      any other is mapped from a live row's file when some live row of it can be read, and
      otherwise keeps whatever it had: after a rebuild, that is the stale mapping. */
  lemma BuildExactly(x: Index, disk: Disk, side: Side, g: Gid)
    ensures var after := Built(x, disk, side).ids;
      if (Rebuilt(x, side) || g !in side.ids) && Readable(x, disk, x.rows, g)
      then g in after && ReadFrom(x, disk, x.rows, g, after[g])
      else SameAt(after, side.ids, g)
  {
    var start := Start(x, side);
    var wanted := Wanted(x, start.covered);
    RegroupedMembers(wanted, MailboxOf);
    SweepExactly(x, disk, start, Regrouped(wanted, MailboxOf), g);
  }

  lemma ReadExactly(x: Index, disk: Disk, side: Side, fails: bool, g: Gid)
    ensures var after := AfterRead(x, disk, side, fails).ids;
      if Absorbs(x, side, fails) && Readable(x, disk, Newer(x, side.mark.value), g)
      then g in after && ReadFrom(x, disk, Newer(x, side.mark.value), g, after[g])
      else SameAt(after, side.ids, g)
  {
    if Absorbs(x, side, fails) {
      var rows := Newer(x, side.mark.value);
      RegroupedMembers(rows, ByUrl(x));
      TopUpExactly(x, disk, side.ids, Regrouped(rows, ByUrl(x)), g);
    }
  }

  /** A second build on unchanged data harvests nothing and changes nothing. */
  lemma SecondBuildIsIdle(x: Index, disk: Disk, side: Side)
    ensures var once := Built(x, disk, side); Built(x, disk, once) == once && Harvest(x, disk, once).harvested == 0
  {
    hide Harvest, Readable, ReadFrom;
    var once := Built(x, disk, side);
    forall g ensures SameAt(Built(x, disk, once).ids, once.ids, g) && (Readable(x, disk, x.rows, g) ==> g in once.ids) {
      BuildExactly(x, disk, side, g);
      BuildExactly(x, disk, once, g);
    }
    SameMaps(Built(x, disk, once).ids, once.ids);
    NothingNewCovered(x, disk, once);
  }

  lemma SameMaps(a: map<Gid, string>, b: map<Gid, string>)
    requires forall g :: SameAt(a, b, g)
    ensures a == b
  {
    forall g ensures g in a <==> g in b { assert SameAt(a, b, g); }
    forall g | g in a ensures a[g] == b[g] { assert SameAt(a, b, g); }
  }

  lemma NothingNewCovered(x: Index, disk: Disk, side: Side)
    requires !Rebuilt(x, side) && forall g :: Readable(x, disk, x.rows, g) ==> g in side.ids
    ensures Harvest(x, disk, side).harvested == 0
  {
    var start := Start(x, side);
    var rows := Regrouped(Wanted(x, start.covered), MailboxOf);
    RegroupedMembers(Wanted(x, start.covered), MailboxOf);
    forall g ensures g in SweepRows(x, disk, start, rows).covered <==> g in start.covered {
      SweepExactly(x, disk, start, rows, g);
    }
    assert SweepRows(x, disk, start, rows).covered == start.covered;
    HarvestedIsNewlyCovered(x, disk, start, rows);
  }

  // ---------------------------------------------------------------- whole runs

  /** `Arrive`: Mail gives the new row a ROWID `gap` past the last one it ever gave. */
  datatype Event =
    | Arrive(gid: Option<Gid>, mailbox: int, gap: nat)
    | Remove(rowid: nat)
    | Files(disk: Disk)
    | Mailboxes(urls: map<int, Url>)
    | Read(fails: bool)
    | Build

  /** Besides the index, the disk and the sidecar: the last ROWID given, the rows offered to some
      harvest that found no store, file or id for them, the rows a top-up's join left out for
      want of a mailbox row, and every (id, Message-ID) pair some harvest found in the file of
      a row live at that time. */
  datatype World =
    World(x: Index, disk: Disk, last: nat, side: Side, missed: set<nat>, orphaned: set<nat>, seen: set<(Gid, string)>)

  /** Of the rows offered to a harvest, those it can read no id for. */
  function MissedOf(x: Index, disk: Disk, offered: seq<Row>): set<nat> {
    set r | r in offered && IdOnDisk(x, disk, r) == "" :: r.rowid
  }

  function Orphans(x: Index, mark: nat): set<nat> {
    set r | r in x.rows && r.rowid > mark && r.mailbox !in x.urls :: r.rowid
  }

  function SeenBy(x: Index, disk: Disk): set<(Gid, string)> {
    set r | r in x.rows && r.gid.Some? :: (r.gid.value, IdOnDisk(x, disk, r))
  }

  /** The rows a build offers to its harvest. */
  function Offered(w: World): seq<Row> { Wanted(w.x, Start(w.x, w.side).covered) }

  function AfterBuild(w: World): World {
    w.(side := Built(w.x, w.disk, w.side), missed := w.missed + MissedOf(w.x, w.disk, Offered(w)), seen := w.seen + SeenBy(w.x, w.disk))
  }

  function AfterTopUp(w: World, mark: nat): World {
    w.(side := ToppedUp(w.x, w.disk, w.side, mark), missed := w.missed + MissedOf(w.x, w.disk, Newer(w.x, mark)),
       orphaned := w.orphaned + Orphans(w.x, mark), seen := w.seen + SeenBy(w.x, w.disk))
  }

  function Step(w: World, e: Event): World {
    match e
    case Arrive(gid, mailbox, gap) =>
      var rowid := w.last + 1 + gap;
      w.(x := w.x.(rows := w.x.rows + [Row(rowid, gid, mailbox)]), last := rowid)
    case Remove(rowid) => w.(x := w.x.(rows := Filter(w.x.rows, (r: Row) => r.rowid != rowid)))
    case Files(disk) => w.(disk := disk)
    case Mailboxes(urls) => w.(x := w.x.(urls := urls))
    case Read(fails) => if Absorbs(w.x, w.side, fails) then AfterTopUp(w, w.side.mark.value) else w
    case Build => AfterBuild(w)
  }

  function Run(w: World, es: seq<Event>): World {
    if es == [] then w else Step(Run(w, es[..|es| - 1]), es[|es| - 1])
  }

  /** Accounted for: mapped, or offered to a harvest that could not read it, or left out of one
      because its mailbox had no row. */
  predicate Accounted(w: World, r: Row) {
    r.gid.Some? ==> r.gid.value in w.side.ids || r.rowid in w.missed || r.rowid in w.orphaned
  }

  ghost predicate Kept(w: World) {
    && (forall r :: r in w.x.rows ==> r.rowid <= w.last)
    && (w.side.mark.Some? ==> w.side.mark.value <= w.last)
    && (w.side.mark.Some? ==> forall r :: r in w.x.rows && r.rowid <= w.side.mark.value ==> Accounted(w, r))
    && (forall g :: g in w.side.ids ==> (g, w.side.ids[g]) in w.seen && w.side.ids[g] != "")
  }

  lemma ReadIsSeen(x: Index, disk: Disk, rows: seq<Row>, g: Gid, id: string)
    requires ReadFrom(x, disk, rows, g, id) && forall r :: r in rows ==> r in x.rows
    ensures (g, id) in SeenBy(x, disk)
  {
  }

  lemma UnreadableIsMissed(x: Index, disk: Disk, offered: seq<Row>, r: Row)
    requires r in offered && IdOnDisk(x, disk, r) == ""
    ensures r.rowid in MissedOf(x, disk, offered)
  {
  }

  /** A build accounts for every live row with an id, whatever the mark was: the row is mapped,
      or it was offered to the harvest and could not be read. */
  lemma BuildAccounts(w: World, r: Row)
    requires r in w.x.rows && r.gid.Some?
    ensures var after := Step(w, Build); r.gid.value in after.side.ids || r.rowid in after.missed
    ensures Accounted(Step(w, Build), r)
  {
    hide Built, IdOnDisk, MissedOf, SeenBy;
    BuildExactly(w.x, w.disk, w.side, r.gid.value);
    if r in Offered(w) && IdOnDisk(w.x, w.disk, r) == "" { UnreadableIsMissed(w.x, w.disk, Offered(w), r); }
  }

  lemma ReadAccounts(w: World, fails: bool, r: Row)
    requires r in w.x.rows && Absorbs(w.x, w.side, fails) && r.rowid > w.side.mark.value
    ensures Accounted(Step(w, Read(fails)), r)
  {
    hide TopRows, IdOnDisk, MissedOf, SeenBy;
    if r.gid.Some? {
      var rows := Newer(w.x, w.side.mark.value);
      ReadExactly(w.x, w.disk, w.side, fails, r.gid.value);
      if r in rows && IdOnDisk(w.x, w.disk, r) == "" { UnreadableIsMissed(w.x, w.disk, rows, r); }
      assert r !in rows ==> r.rowid in Orphans(w.x, w.side.mark.value);
    }
  }

  lemma NoIdNoClaim(w: World, r: Row)
    requires r.gid.None?
    ensures Accounted(w, r)
  {
  }

  lemma BuildKeeps(w: World)
    requires Kept(w)
    ensures Kept(Step(w, Build))
  {
    hide Harvest, ReadFrom, Readable, MissedOf, SeenBy, Accounted;
    var after := Step(w, Build);
    forall r | r in w.x.rows && r.gid.Some? ensures Accounted(after, r) { BuildAccounts(w, r); }
    forall r | r in w.x.rows && r.gid.None? ensures Accounted(after, r) { NoIdNoClaim(after, r); }
    forall g | g in after.side.ids ensures (g, after.side.ids[g]) in after.seen && after.side.ids[g] != "" {
      MappingWasRead(w, g);
    }
  }

  /** Every mapping a build writes comes from the file of a row live at that moment. */
  lemma MappingWasRead(w: World, g: Gid)
    requires g in Step(w, Build).side.ids
    ensures var id := Step(w, Build).side.ids[g];
      (g in w.side.ids && w.side.ids[g] == id) || ((g, id) in SeenBy(w.x, w.disk) && id != "")
  {
    hide Built, SeenBy, MissedOf;
    BuildExactly(w.x, w.disk, w.side, g);
    var id := Step(w, Build).side.ids[g];
    if ReadFrom(w.x, w.disk, w.x.rows, g, id) { ReadIsSeen(w.x, w.disk, w.x.rows, g, id); }
  }

  /** ... and so does every mapping a top-up writes. */
  lemma TopUpWasRead(w: World, fails: bool, g: Gid)
    requires Absorbs(w.x, w.side, fails) && g in Step(w, Read(fails)).side.ids
    ensures var id := Step(w, Read(fails)).side.ids[g];
      (g in w.side.ids && w.side.ids[g] == id) || ((g, id) in SeenBy(w.x, w.disk) && id != "")
  {
    hide TopRows, Regrouped, SeenBy, MissedOf, Orphans, ReadFrom, Readable;
    ReadExactly(w.x, w.disk, w.side, fails, g);
    var id, rows := Step(w, Read(fails)).side.ids[g], Newer(w.x, w.side.mark.value);
    if ReadFrom(w.x, w.disk, rows, g, id) { ReadIsSeen(w.x, w.disk, rows, g, id); }
  }

  lemma StillAccounted(w: World, fails: bool, r: Row)
    requires Absorbs(w.x, w.side, fails) && Accounted(w, r)
    ensures Accounted(Step(w, Read(fails)), r)
  {
    hide TopRows, Regrouped, SeenBy, MissedOf, Orphans, ReadFrom, Readable;
    if r.gid.Some? { ReadExactly(w.x, w.disk, w.side, fails, r.gid.value); }
  }

  lemma ReadKeeps(w: World, fails: bool)
    requires Kept(w)
    ensures Kept(Step(w, Read(fails)))
  {
    hide TopRows, ReadFrom, Readable, MissedOf, SeenBy, Accounted;
    if Absorbs(w.x, w.side, fails) {
      var after := Step(w, Read(fails));
      forall r | r in w.x.rows ensures Accounted(after, r) {
        if r.rowid > w.side.mark.value { ReadAccounts(w, fails, r); } else { StillAccounted(w, fails, r); }
      }
      forall g | g in after.side.ids ensures (g, after.side.ids[g]) in after.seen && after.side.ids[g] != "" {
        TopUpWasRead(w, fails, g);
      }
    }
  }

  /** Over every run of arrivals, removals, file and mailbox changes, reads and builds: each
      live row up to the mark is accounted for, and every mapping was read from the file of a
      row that was live with that id at the time. */
  lemma {:induction false} RunKeepsAccount(w: World, es: seq<Event>)
    requires Kept(w)
    ensures Kept(Run(w, es))
  {
    if es != [] {
      var (before, e) := (Run(w, es[..|es| - 1]), es[|es| - 1]);
      RunKeepsAccount(w, es[..|es| - 1]);
      if e.Build? { BuildKeeps(before); }
      if e.Read? { ReadKeeps(before, e.fails); }
    }
  }

  /** No read is silently stale: after any run and a read, no staleness note means that every
      live row with an id is mapped or was passed over by a harvest; and a note is missing
      exactly when the mark was at the newest row already, or 1 to 200 short of it and the
      read's harvest did not fail. */
  lemma NoNoteMeansAccounted(w: World, es: seq<Event>, fails: bool, newest: nat)
    requires Kept(w) && NewestIs(Run(w, es).x.rows, newest)
    ensures var before, after := Run(w, es), Run(w, es + [Read(fails)]); before.side.mark.Some? ==>
      && (StalenessNote(after.x, after.side).Fresh? ==> forall r :: r in after.x.rows ==> Accounted(after, r))
      && (StalenessNote(after.x, after.side).Fresh? <==>
            newest == before.side.mark.value || (!fails && 1 <= newest - before.side.mark.value <= 200))
  {
    RunKeepsAccount(w, es + [Read(fails)]);
    assert (es + [Read(fails)])[..|es|] == es;
    MaxRowidExactly(Run(w, es).x.rows);
  }

  // ---------------------------------------------------------------- what looks like a rebuild

  /** The mark a build leaves counts live rows only: with nothing but removals since, the index
      looks rebuilt exactly when no row with an id is left at the highest ROWID. */
  lemma RemovalLooksRebuiltExactly(x: Index, y: Index, disk: Disk, side: Side)
    requires forall r :: r in y.rows ==> r in x.rows
    ensures Rebuilt(y, Built(x, disk, side))
      <==> MaxRowid(Harvestable(x)) > 0 && forall r :: r in Harvestable(y) ==> r.rowid != MaxRowid(Harvestable(x))
  {
    hide Harvest;
  }

  /** So deleting the newest message looks like a rebuild, in every index that has one. */
  lemma DeletingTheNewestLooksRebuilt(w: World)
    requires MaxRowid(Harvestable(w.x)) > 0
    ensures var after := Run(w, [Build, Remove(MaxRowid(Harvestable(w.x)))]); Rebuilt(after.x, after.side)
  {
    hide Harvest, MissedOf, SeenBy, Offered, Run, MaxRowid;
    var newest := MaxRowid(Harvestable(w.x));
    RunTwo(w, Build, Remove(newest));
    RemovalLooksRebuiltExactly(w.x, Step(Step(w, Build), Remove(newest)).x, w.disk, w.side);
  }

  lemma RunTwo(w: World, first: Event, second: Event)
    ensures Run(w, [first, second]) == Step(Step(w, first), second)
  {
    hide Step;
    assert [first, second][..1] == [first] && [first][..0] == [];
    assert Run(w, [first]) == Step(w, first);
  }

  /** A top-up's mark counts rows without an id too, a build's does not: after a top-up the
      unchanged index looks rebuilt exactly when the newest row has no id. */
  lemma TopUpLooksRebuiltExactly(x: Index, disk: Disk, side: Side)
    requires Absorbs(x, side, false)
    ensures Rebuilt(x, AfterRead(x, disk, side, false)) <==> forall r :: r in x.rows && r.rowid == MaxRowid(x.rows) ==> r.gid.None?
  {
    hide TopRows;
  }

  /** A stale mapping can survive the rebuild path: an id whose live row has no readable file
      keeps what it had, although no live row's file says so. */
  lemma StaleMappingSurvives(g: Gid, stale: string, mark: nat) returns (x: Index, disk: Disk, side: Side)
    requires mark > 1
    ensures Rebuilt(x, side) && (exists r :: r in x.rows && r.gid == Some(g))
    ensures g in Built(x, disk, side).ids && Built(x, disk, side).ids[g] == stale
    ensures !ReadFrom(x, disk, x.rows, g, stale)
  {
    var row := Row(1, Some(g), 7);
    x, disk, side := Index([row], map[7 := "imap://a/INBOX"]), (url: Url) => None, Side(map[g := stale], Some(mark));
    assert row in x.rows && forall r :: r in Harvestable(x) ==> r.rowid == 1;
    BuildExactly(x, disk, side, g);
  }
}
