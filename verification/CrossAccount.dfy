/**
 The cross-account dedupe of `macos_apps_mcp/dedupe.py`: plan which copies lose, restrict the
 plan, trash the losers batch by batch, and check every keeper afterwards.
 */
module CrossAccount {
  import opened Grouping
  import opened Prelude

  /** Message-IDs are only compared: for equality, and by their place in text order. */
  datatype Mid = Mid(rank: int)
  type Account = string
  type Url = string

  /** One stored copy, as the index reports it. */
  datatype Row = Row(id: Mid, rowid: int, url: Url, account: Account)

  datatype Why = NoKeeperCopy | NoBody | BodiesDiffer
  datatype Skipped = Skipped(id: Mid, why: Why)

  /** `fingerprints` maps a ROWID to a comparable body fingerprint. */
  type Prints = map<int, int>

  function IdOf(r: Row): Mid { r.id }

  function CopiesOf(rows: seq<Row>, id: Mid): seq<Row> { Group(rows, IdOf, id) }

  function Accounts(copies: seq<Row>): set<Account> { set r | r in copies :: r.account }

  /** The first account of the order that holds a copy. */
  function Winner(order: seq<Account>, held: set<Account>): Option<Account> {
    if order == [] then None else if order[0] in held then Some(order[0]) else Winner(order[1..], held)
  }

  datatype Verdict = NotCrossAccount | Skip(why: Why) | NothingLeft | Act(winner: Account, targets: seq<Row>)

  function Judge(copies: seq<Row>, order: seq<Account>, prints: Prints, isTrash: Url -> bool): Verdict {
    var held := Accounts(copies);
    if |held| < 2 then NotCrossAccount
    else match Winner(order, held)
      case None => Skip(NoKeeperCopy)
      case Some(winner) =>
        if exists c :: c in copies && c.rowid !in prints then Skip(NoBody)
        else if exists c, d :: c in copies && d in copies && prints[c.rowid] != prints[d.rowid] then Skip(BodiesDiffer)
        else
          var targets := Filter(copies, (c: Row) => c.account != winner && !isTrash(c.url));
          if targets == [] then NothingLeft else Act(winner, targets)
  }

  datatype Plan = Plan(losers: map<Url, seq<Mid>>, keepers: map<Mid, Account>, skipped: seq<Skipped>)

  function LosersAt(losers: map<Url, seq<Mid>>, url: Url): seq<Mid> { if url in losers then losers[url] else [] }

  /** `setdefault(url, []).append(id)` */
  function Append(losers: map<Url, seq<Mid>>, url: Url, id: Mid): map<Url, seq<Mid>> {
    losers[url := LosersAt(losers, url) + [id]]
  }

  function AppendAll(losers: map<Url, seq<Mid>>, targets: seq<Row>): map<Url, seq<Mid>> {
    if targets == [] then losers
    else var t := targets[|targets| - 1]; Append(AppendAll(losers, targets[..|targets| - 1]), t.url, t.id)
  }

  /** The plan after the sets `ids`, in order. */
  function Planned(rows: seq<Row>, ids: seq<Mid>, order: seq<Account>, prints: Prints, isTrash: Url -> bool): Plan {
    if ids == [] then Plan(map[], map[], [])
    else
      var (id, p) := (ids[|ids| - 1], Planned(rows, ids[..|ids| - 1], order, prints, isTrash));
      match Judge(CopiesOf(rows, id), order, prints, isTrash)
      case NotCrossAccount => p
      case NothingLeft => p
      case Skip(why) => p.(skipped := p.skipped + [Skipped(id, why)])
      case Act(winner, targets) => p.(losers := AppendAll(p.losers, targets), keepers := p.keepers[id := winner])
  }

  /** The distinct ids in order of first appearance. */
  function Ids(rows: seq<Row>): seq<Mid> { Keys(rows, IdOf) }

  lemma IdsMembers(rows: seq<Row>)
    ensures NoDup(Ids(rows)) && forall id :: id in Ids(rows) <==> exists r :: r in rows && r.id == id
  {
    KeysMembers(rows, IdOf);
    assert forall r :: IdOf(r) == r.id;
  }

  /** `cross_account_plan` */
  method CrossAccountPlan(rows: seq<Row>, order: seq<Account>, prints: Prints, isTrash: Url -> bool) returns (plan: Plan)
    ensures plan == Planned(rows, Ids(rows), order, prints, isTrash)
  {
    hide Judge, Group, Keys;
    var byId, ids := GroupBy(rows, IdOf);
    var losers: map<Url, seq<Mid>>, keepers: map<Mid, Account>, skipped: seq<Skipped> := map[], map[], [];
    var i := 0;
    while i < |ids|
      invariant 0 <= i <= |ids|
      invariant Plan(losers, keepers, skipped) == Planned(rows, ids[..i], order, prints, isTrash)
    {
      var id := ids[i];
      assert ids[..i + 1][..i] == ids[..i] && id in ids;
      match Judge(byId[id], order, prints, isTrash) {
      case NotCrossAccount =>
      case NothingLeft =>
      case Skip(why) => skipped := skipped + [Skipped(id, why)];
      case Act(winner, targets) =>
        keepers := keepers[id := winner];
        ghost var start := losers;
        var k := 0;
        while k < |targets|
          invariant 0 <= k <= |targets| && losers == AppendAll(start, targets[..k])
        {
          assert targets[..k + 1][..k] == targets[..k];
          losers := Append(losers, targets[k].url, targets[k].id);
          k := k + 1;
        }
        assert targets[..k] == targets;
      }
      i := i + 1;
    }
    assert ids[..i] == ids;
    plan := Plan(losers, keepers, skipped);
  }

  // ---------------------------------------------------------------- restricting the plan

  /** Which sets a limited run takes: the `limit` smallest ids. */
  ghost predicate SmallestIds(all: set<Mid>, limit: nat, chosen: set<Mid>) {
    chosen <= all && |chosen| == limit && forall a, b :: a in chosen && b in all - chosen ==> a.rank < b.rank
  }

  /** `--mailbox`: keep one loser mailbox and the sets it holds; None when it holds none. */
  function OnlyMailbox(losers: map<Url, seq<Mid>>, keepers: map<Mid, Account>, url: Url): Option<(map<Url, seq<Mid>>, map<Mid, Account>)> {
    if url !in losers then None
    else Some((map[url := losers[url]], map m | m in keepers && m in losers[url] :: keepers[m]))
  }

  function Chosen(mids: seq<Mid>, chosen: set<Mid>): seq<Mid> { Filter(mids, (m: Mid) => m in chosen) }

  /** `--limit`: keep the chosen sets, and the mailboxes that hold one. */
  function OnlyChosen(losers: map<Url, seq<Mid>>, keepers: map<Mid, Account>, chosen: set<Mid>): (map<Url, seq<Mid>>, map<Mid, Account>) {
    (map u | u in losers && Chosen(losers[u], chosen) != [] :: Chosen(losers[u], chosen),
     map m | m in keepers && m in chosen :: keepers[m])
  }

  /** What every stage of the plan keeps: a loser mailbox is never in the account that won
      the set, and the sets to act on are exactly the keys of `keepers`. */
  ghost predicate Safe(losers: map<Url, seq<Mid>>, keepers: map<Mid, Account>, accountOf: Url -> Account) {
    && (forall u, m :: u in losers && m in losers[u] ==> m in keepers && accountOf(u) != keepers[m])
    && (forall m :: m in keepers ==> exists u :: u in losers && m in losers[u])
  }

  /** The smallest ids, taken one by one. */
  method TakeSmallest(all: set<Mid>, limit: nat) returns (chosen: set<Mid>)
    requires limit <= |all|
    ensures SmallestIds(all, limit, chosen)
  {
    chosen := {};
    var rest := all;
    while |chosen| < limit
      invariant chosen !! rest && chosen + rest == all && |chosen| <= limit && |chosen| + |rest| == |all|
      invariant forall a, b :: a in chosen && b in rest ==> a.rank < b.rank
    {
      ghost var _ := LeastOf(rest);
      var m :| m in rest && forall x :: x in rest ==> m.rank <= x.rank;
      chosen, rest := chosen + {m}, rest - {m};
    }
  }

  lemma {:induction false} LeastOf(s: set<Mid>) returns (m: Mid)
    requires s != {}
    ensures m in s && forall x :: x in s ==> m.rank <= x.rank
  {
    var first :| first in s;
    m := first;
    if s != {first} {
      var rest := LeastOf(s - {first});
      if rest.rank < first.rank { m := rest; }
      assert forall x :: x in s ==> x == first || x in s - {first};
    }
  }

  /** The ids a mailbox restriction leaves. */
  function Eligible(losers: map<Url, seq<Mid>>, keepers: map<Mid, Account>, mailbox: Option<Url>): set<Mid> {
    set m | m in keepers && (mailbox.Some? ==> m in LosersAt(losers, mailbox.value))
  }

  /** `m` has a copy to go at `u`. */
  predicate Loses(losers: map<Url, seq<Mid>>, u: Url, m: Mid) { m in LosersAt(losers, u) }

  /** `current` holds exactly the losers of its own ids, in the mailbox asked for. */
  ghost predicate LosersOf(current: (map<Url, seq<Mid>>, map<Mid, Account>), losers: map<Url, seq<Mid>>, mailbox: Option<Url>) {
    forall u, m :: Loses(current.0, u, m) <==> Loses(losers, u, m) && (mailbox.Some? ==> u == mailbox.value) && m in current.1
  }

  /** Both restrictions, in the order the run applies them; None when the mailbox holds nothing. */
  method Restrict(losers: map<Url, seq<Mid>>, keepers: map<Mid, Account>, mailbox: Option<Url>, limit: Option<nat>, ghost accountOf: Url -> Account)
    returns (r: Option<(map<Url, seq<Mid>>, map<Mid, Account>)>)
    requires Safe(losers, keepers, accountOf)
    ensures r.Some? ==> Safe(r.value.0, r.value.1, accountOf) && r.value.1.Keys <= keepers.Keys
    ensures r.Some? ==> forall m :: m in r.value.1 ==> r.value.1[m] == keepers[m]
    ensures r.None? <==> mailbox.Some? && mailbox.value !in losers
    ensures r.Some? ==> LosersOf(r.value, losers, mailbox)
    ensures r.Some? ==> var ids := Eligible(losers, keepers, mailbox);
      if limit.Some? && |ids| > limit.value then SmallestIds(ids, limit.value, r.value.1.Keys) else r.value.1.Keys == ids
    ensures r.Some? && mailbox.Some? ==> r.value.0.Keys <= {mailbox.value}
  {
    var current := (losers, keepers);
    AllLosers(losers, keepers, accountOf);
    if mailbox.Some? {
      var only := OnlyMailbox(losers, keepers, mailbox.value);
      if only.None? {
        return None;
      }
      OnlyMailboxIsSafe(losers, keepers, mailbox.value, accountOf);
      current := only.value;
    }
    assert current.1.Keys == Eligible(losers, keepers, mailbox);
    assert |current.1.Keys| == |current.1|;
    if limit.Some? && |current.1| > limit.value {
      var chosen := TakeSmallest(current.1.Keys, limit.value);
      OnlyChosenIsSafe(current.0, current.1, chosen, accountOf);
      OnlyChosenLosers(current, losers, mailbox, chosen);
      current := OnlyChosen(current.0, current.1, chosen);
      assert current.1.Keys == chosen;
    }
    return Some(current);
  }

  lemma AllLosers(losers: map<Url, seq<Mid>>, keepers: map<Mid, Account>, accountOf: Url -> Account)
    requires Safe(losers, keepers, accountOf)
    ensures LosersOf((losers, keepers), losers, None)
    ensures forall url :: url in losers ==> LosersOf(OnlyMailbox(losers, keepers, url).value, losers, Some(url))
  {
  }

  lemma OnlyChosenLosers(current: (map<Url, seq<Mid>>, map<Mid, Account>), losers: map<Url, seq<Mid>>, mailbox: Option<Url>, chosen: set<Mid>)
    requires LosersOf(current, losers, mailbox)
    ensures LosersOf(OnlyChosen(current.0, current.1, chosen), losers, mailbox)
  {
    hide Chosen, LosersAt;
    var r := OnlyChosen(current.0, current.1, chosen);
    forall u, m ensures Loses(r.0, u, m) <==> Loses(losers, u, m) && (mailbox.Some? ==> u == mailbox.value) && m in r.1 {
      ChosenAt(current, chosen, u);
      assert Loses(r.0, u, m) <==> Loses(current.0, u, m) && m in chosen;
    }
  }

  lemma ChosenAt(current: (map<Url, seq<Mid>>, map<Mid, Account>), chosen: set<Mid>, u: Url)
    ensures var r := OnlyChosen(current.0, current.1, chosen);
      && LosersAt(r.0, u) == Chosen(LosersAt(current.0, u), chosen)
      && forall m :: m in Chosen(LosersAt(current.0, u), chosen) <==> m in LosersAt(current.0, u) && m in chosen
  {
  }

  lemma OnlyMailboxIsSafe(losers: map<Url, seq<Mid>>, keepers: map<Mid, Account>, url: Url, accountOf: Url -> Account)
    requires Safe(losers, keepers, accountOf) && url in losers
    ensures var r := OnlyMailbox(losers, keepers, url).value; Safe(r.0, r.1, accountOf)
  {
    var r := OnlyMailbox(losers, keepers, url).value;
    assert url in r.0 && r.0[url] == losers[url];
  }

  lemma OnlyChosenIsSafe(losers: map<Url, seq<Mid>>, keepers: map<Mid, Account>, chosen: set<Mid>, accountOf: Url -> Account)
    requires Safe(losers, keepers, accountOf)
    ensures var r := OnlyChosen(losers, keepers, chosen); Safe(r.0, r.1, accountOf)
  {
    var r := OnlyChosen(losers, keepers, chosen);
    forall m | m in r.1 ensures exists u :: u in r.0 && m in r.0[u] {
      var u :| u in losers && m in losers[u];
      assert m in Chosen(losers[u], chosen);
      assert u in r.0;
    }
  }

  // ---------------------------------------------------------------- the plan is safe

  /** The account of a row is the one its url names. */
  ghost predicate RowsNameAccounts(rows: seq<Row>, accountOf: Url -> Account) {
    forall r :: r in rows ==> r.account == accountOf(r.url)
  }

  lemma {:induction false} WinnerIsFirst(order: seq<Account>, held: set<Account>)
    ensures match Winner(order, held)
      case None => forall a :: a in order ==> a !in held
      case Some(w) => w in held && exists i :: 0 <= i < |order| && order[i] == w && forall j :: 0 <= j < i ==> order[j] !in held
  {
    if order != [] && order[0] !in held {
      WinnerIsFirst(order[1..], held);
      assert forall a :: a in order <==> a == order[0] || a in order[1..];
      if Winner(order[1..], held).Some? {
        var i :| 0 <= i < |order[1..]| && order[1..][i] == Winner(order[1..], held).value && forall j :: 0 <= j < i ==> order[1..][j] !in held;
        assert order[i + 1] == Winner(order, held).value;
        forall j | 0 <= j < i + 1 ensures order[j] !in held {
          if j > 0 { assert order[1..][j - 1] == order[j]; }
        }
      }
    }
  }

  /** A set is acted on only when it spans accounts, every body is known and all are equal;
      the winner is the first listed account that holds a copy, and every target lies
      outside it and outside Trash. */
  lemma ActedSetsAreProven(copies: seq<Row>, order: seq<Account>, prints: Prints, isTrash: Url -> bool)
    requires Judge(copies, order, prints, isTrash).Act?
    ensures var v := Judge(copies, order, prints, isTrash);
      && (exists r :: r in copies && r.account == v.winner)
      && (exists i :: 0 <= i < |order| && order[i] == v.winner && forall j :: 0 <= j < i ==> order[j] !in Accounts(copies))
      && (forall c, d :: c in copies && d in copies ==> c.rowid in prints && d.rowid in prints && prints[c.rowid] == prints[d.rowid])
      && v.targets != [] && forall c :: c in v.targets <==> c in copies && c.account != v.winner && !isTrash(c.url)
  {
    WinnerIsFirst(order, Accounts(copies));
  }

  /** `w` is the first listed account that holds a copy. */
  ghost predicate FirstHolder(order: seq<Account>, held: set<Account>, w: Account) {
    exists i :: 0 <= i < |order| && order[i] == w && w in held && forall j :: 0 <= j < i ==> order[j] !in held
  }

  lemma {:induction false} FirstHolderWins(order: seq<Account>, held: set<Account>, w: Account)
    requires FirstHolder(order, held, w)
    ensures Winner(order, held) == Some(w)
  {
    var i :| 0 <= i < |order| && order[i] == w && w in held && forall j :: 0 <= j < i ==> order[j] !in held;
    if i > 0 {
      assert order[0] !in held && order[1..][i - 1] == w;
      assert forall j :: 0 <= j < i - 1 ==> order[1..][j] == order[j + 1];
      FirstHolderWins(order[1..], held, w);
    }
  }

  /** Every copy's body could be read. */
  ghost predicate AllRead(copies: seq<Row>, prints: Prints) { forall c :: c in copies ==> c.rowid in prints }

  /** ... and no two differ. */
  ghost predicate AllAlike(copies: seq<Row>, prints: Prints)
    requires AllRead(copies, prints)
  {
    forall c, d :: c in copies && d in copies ==> prints[c.rowid] == prints[d.rowid]
  }

  ghost predicate SameBodies(copies: seq<Row>, prints: Prints) { AllRead(copies, prints) && AllAlike(copies, prints) }

  ghost predicate AllInTrash(copies: seq<Row>, w: Account, isTrash: Url -> bool) {
    forall c :: c in copies && c.account != w ==> isTrash(c.url)
  }

  /** What becomes of a set, exactly: it lies in one account; no listed account holds a copy;
      some body is unknown; the bodies differ; every loser is in Trash already; or it is acted on. */
  lemma JudgeExactly(copies: seq<Row>, order: seq<Account>, prints: Prints, isTrash: Url -> bool)
    ensures var (v, held) := (Judge(copies, order, prints, isTrash), Accounts(copies));
      && (v.NotCrossAccount? <==> |held| < 2)
      && (v == Skip(NoKeeperCopy) <==> |held| >= 2 && forall a :: a in order ==> a !in held)
      && (v == Skip(NoBody) <==> |held| >= 2 && (exists w :: FirstHolder(order, held, w)) && !AllRead(copies, prints))
      && (v == Skip(BodiesDiffer) <==> |held| >= 2 && (exists w :: FirstHolder(order, held, w)) && AllRead(copies, prints) && !AllAlike(copies, prints))
      && (v.NothingLeft? <==> |held| >= 2 && SameBodies(copies, prints) && exists w :: FirstHolder(order, held, w) && AllInTrash(copies, w, isTrash))
      && forall w :: (v.Act? && v.winner == w) <==>
           |held| >= 2 && SameBodies(copies, prints) && FirstHolder(order, held, w) && !AllInTrash(copies, w, isTrash)
  {
    var held := Accounts(copies);
    HolderExactly(order, held);
    var w := Winner(order, held);
    if w.Some? { TargetsExactly(copies, w.value, isTrash); }
    hide FirstHolder, AllInTrash, Winner;
  }

  lemma HolderExactly(order: seq<Account>, held: set<Account>)
    ensures forall w :: FirstHolder(order, held, w) <==> Winner(order, held) == Some(w)
    ensures Winner(order, held).None? <==> forall a :: a in order ==> a !in held
  {
    WinnerIsFirst(order, held);
    forall w | FirstHolder(order, held, w) ensures Winner(order, held) == Some(w) { FirstHolderWins(order, held, w); }
  }

  lemma TargetsExactly(copies: seq<Row>, w: Account, isTrash: Url -> bool)
    ensures Filter(copies, (c: Row) => c.account != w && !isTrash(c.url)) == [] <==> AllInTrash(copies, w, isTrash)
  {
    var targets := Filter(copies, (c: Row) => c.account != w && !isTrash(c.url));
    assert forall c :: c in targets <==> c in copies && c.account != w && !isTrash(c.url);
    assert targets != [] ==> targets[0] in targets;
  }

  lemma {:induction false} AppendAllExactly(losers: map<Url, seq<Mid>>, targets: seq<Row>, u: Url, m: Mid)
    ensures m in LosersAt(AppendAll(losers, targets), u) <==> m in LosersAt(losers, u) || exists t :: t in targets && t.url == u && t.id == m
  {
    if targets != [] {
      var init := targets[..|targets| - 1];
      AppendAllExactly(losers, init, u, m);
      assert targets == init + [targets[|targets| - 1]];
      assert forall t :: t in targets <==> t in init || t == targets[|targets| - 1];
    }
  }

  lemma TargetsAreCopies(rows: seq<Row>, id: Mid, order: seq<Account>, prints: Prints, isTrash: Url -> bool)
    requires Judge(CopiesOf(rows, id), order, prints, isTrash).Act?
    ensures forall t :: t in Judge(CopiesOf(rows, id), order, prints, isTrash).targets ==> t.id == id
  {
    ActedSetsAreProven(CopiesOf(rows, id), order, prints, isTrash);
  }

  /** The finished plan: an id is a loser at a mailbox exactly when its set is acted on and has
      a target there, and `keepers` holds exactly the acted sets with their winners. */
  lemma {:induction false} PlanExactly(rows: seq<Row>, ids: seq<Mid>, order: seq<Account>, prints: Prints, isTrash: Url -> bool)
    requires NoDup(ids)
    ensures var p := Planned(rows, ids, order, prints, isTrash);
      && (forall m :: m in p.keepers <==> m in ids && Judge(CopiesOf(rows, m), order, prints, isTrash).Act?)
      && (forall m :: m in p.keepers ==> p.keepers[m] == Judge(CopiesOf(rows, m), order, prints, isTrash).winner)
      && (forall u, m :: m in LosersAt(p.losers, u) <==>
            m in p.keepers && exists t :: t in Judge(CopiesOf(rows, m), order, prints, isTrash).targets && t.url == u)
  {
    hide Judge, CopiesOf, AppendAll;
    if ids != [] {
      var (init, id) := (ids[..|ids| - 1], ids[|ids| - 1]);
      assert ids == init + [id] && id !in init;
      PlanExactly(rows, init, order, prints, isTrash);
      var before, v := Planned(rows, init, order, prints, isTrash), Judge(CopiesOf(rows, id), order, prints, isTrash);
      if v.Act? {
        TargetsAreCopies(rows, id, order, prints, isTrash);
        forall u, m ensures m in LosersAt(AppendAll(before.losers, v.targets), u) <==>
          m in LosersAt(before.losers, u) || (m == id && exists t :: t in v.targets && t.url == u)
        {
          AppendAllExactly(before.losers, v.targets, u, m);
        }
      }
    }
  }

  /** ... and it lists exactly the sets left alone for a reason, with that reason. */
  lemma {:induction false} SkippedExactly(rows: seq<Row>, ids: seq<Mid>, order: seq<Account>, prints: Prints, isTrash: Url -> bool)
    ensures var p := Planned(rows, ids, order, prints, isTrash);
      forall s :: s in p.skipped <==> s.id in ids && Judge(CopiesOf(rows, s.id), order, prints, isTrash) == Skip(s.why)
  {
    hide Judge, CopiesOf, AppendAll;
    if ids != [] {
      var (init, id) := (ids[..|ids| - 1], ids[|ids| - 1]);
      assert ids == init + [id];
      SkippedExactly(rows, init, order, prints, isTrash);
    }
  }

  lemma TargetElsewhere(rows: seq<Row>, m: Mid, u: Url, order: seq<Account>, prints: Prints, isTrash: Url -> bool, accountOf: Url -> Account)
    requires RowsNameAccounts(rows, accountOf) && Judge(CopiesOf(rows, m), order, prints, isTrash).Act?
    requires exists t :: t in Judge(CopiesOf(rows, m), order, prints, isTrash).targets && t.url == u
    ensures accountOf(u) != Judge(CopiesOf(rows, m), order, prints, isTrash).winner
  {
    var t :| t in Judge(CopiesOf(rows, m), order, prints, isTrash).targets && t.url == u;
    ActedSetsAreProven(CopiesOf(rows, m), order, prints, isTrash);
    assert t in CopiesOf(rows, m) && t in rows;
  }

  lemma LoserIsElsewhere(rows: seq<Row>, order: seq<Account>, prints: Prints, isTrash: Url -> bool, accountOf: Url -> Account, u: Url, m: Mid)
    requires RowsNameAccounts(rows, accountOf)
    requires m in LosersAt(Planned(rows, Ids(rows), order, prints, isTrash).losers, u)
    ensures var p := Planned(rows, Ids(rows), order, prints, isTrash); m in p.keepers && accountOf(u) != p.keepers[m]
  {
    IdsMembers(rows);
    PlanExactly(rows, Ids(rows), order, prints, isTrash);
    TargetElsewhere(rows, m, u, order, prints, isTrash, accountOf);
  }

  lemma KeeperHasLoser(rows: seq<Row>, order: seq<Account>, prints: Prints, isTrash: Url -> bool, m: Mid) returns (u: Url)
    requires m in Planned(rows, Ids(rows), order, prints, isTrash).keepers
    ensures m in LosersAt(Planned(rows, Ids(rows), order, prints, isTrash).losers, u)
  {
    IdsMembers(rows);
    PlanExactly(rows, Ids(rows), order, prints, isTrash);
    ActedSetsAreProven(CopiesOf(rows, m), order, prints, isTrash);
    var t := Judge(CopiesOf(rows, m), order, prints, isTrash).targets[0];
    u := t.url;
  }

  lemma PlanIsSafe(rows: seq<Row>, order: seq<Account>, prints: Prints, isTrash: Url -> bool, accountOf: Url -> Account)
    requires RowsNameAccounts(rows, accountOf)
    ensures var p := Planned(rows, Ids(rows), order, prints, isTrash); Safe(p.losers, p.keepers, accountOf)
  {
    var p := Planned(rows, Ids(rows), order, prints, isTrash);
    forall u, m | u in p.losers && m in p.losers[u] ensures m in p.keepers && accountOf(u) != p.keepers[m] {
      LoserIsElsewhere(rows, order, prints, isTrash, accountOf, u, m);
    }
    forall m | m in p.keepers ensures exists u :: u in p.losers && m in p.losers[u] {
      var u := KeeperHasLoser(rows, order, prints, isTrash, m);
    }
  }

  // ---------------------------------------------------------------- the batches

  const CHUNK := 8

  /** `_chunks` */
  function Chunks(items: seq<Mid>): seq<seq<Mid>> {
    if items == [] then [] else if |items| <= CHUNK then [items] else [items[..CHUNK]] + Chunks(items[CHUNK..])
  }

  function Glued(chunks: seq<seq<Mid>>): seq<Mid> { if chunks == [] then [] else chunks[0] + Glued(chunks[1..]) }

  /** The chunks are the list, cut: nothing lost, nothing added, none empty, none too long. */
  lemma {:induction false} ChunksAreTheList(items: seq<Mid>)
    ensures Glued(Chunks(items)) == items
    ensures forall c :: c in Chunks(items) ==> 0 < |c| <= 8 && forall m :: m in c ==> m in items
    ensures forall i :: 0 <= i < |Chunks(items)| - 1 ==> |Chunks(items)[i]| == 8
    ensures forall m :: m in items ==> exists c :: c in Chunks(items) && m in c
  {
    if items != [] && |items| > CHUNK {
      ChunksAreTheList(items[CHUNK..]);
      assert items == items[..CHUNK] + items[CHUNK..];
    } else if items != [] {
      assert items in Chunks(items) && [items][1..] == [];
    }
  }

  datatype Batch = Batch(url: Url, ids: seq<Mid>)

  function BatchesAt(url: Url, chunks: seq<seq<Mid>>): seq<Batch> {
    if chunks == [] then [] else [Batch(url, chunks[0])] + BatchesAt(url, chunks[1..])
  }

  /** The run's batches, mailbox by mailbox. */
  function Batches(urls: seq<Url>, losers: map<Url, seq<Mid>>): seq<Batch> {
    if urls == [] then [] else BatchesAt(urls[0], Chunks(LosersAt(losers, urls[0]))) + Batches(urls[1..], losers)
  }

  lemma {:induction false} BatchesAtExactly(url: Url, chunks: seq<seq<Mid>>)
    ensures forall b :: b in BatchesAt(url, chunks) <==> b.url == url && b.ids in chunks
  {
    if chunks != [] {
      BatchesAtExactly(url, chunks[1..]);
      assert forall c :: c in chunks <==> c == chunks[0] || c in chunks[1..];
      assert BatchesAt(url, chunks)[0] == Batch(url, chunks[0]);
    }
  }

  lemma {:induction false} BatchesExactly(urls: seq<Url>, losers: map<Url, seq<Mid>>)
    ensures forall b, m :: b in Batches(urls, losers) && m in b.ids ==> b.url in urls && m in LosersAt(losers, b.url)
    ensures forall u, m :: u in urls && m in LosersAt(losers, u) ==> exists b :: b in Batches(urls, losers) && b.url == u && m in b.ids
  {
    if urls != [] {
      BatchesExactly(urls[1..], losers);
      var at := LosersAt(losers, urls[0]);
      ChunksAreTheList(at);
      BatchesAtExactly(urls[0], Chunks(at));
      forall u, m | u in urls && m in LosersAt(losers, u) ensures exists b :: b in Batches(urls, losers) && b.url == u && m in b.ids {
        if u == urls[0] {
          var c :| c in Chunks(at) && m in c;
          assert Batch(u, c) in Batches(urls, losers);
        } else {
          assert u in urls[1..];
          var b :| b in Batches(urls[1..], losers) && b.url == u && m in b.ids;
          assert b in Batches(urls, losers);
        }
      }
    }
  }

  /** A stored copy; `n` tells copies of one message in one mailbox apart. */
  datatype Held = Held(url: Url, id: Mid, n: nat)

  /** What Mail does with one batch: the copies it takes, and whether the call fails. */
  datatype BatchFate = BatchFate(takes: set<Held>, fails: bool)

  /** Only copies of the batch's ids in the batch's mailbox can go, whether or not the call fails. */
  function Trashed(store: set<Held>, b: Batch, f: BatchFate): set<Held> {
    set h | h in store && !(h in f.takes && h.url == b.url && h.id in b.ids)
  }

  function After(store: set<Held>, batches: seq<Batch>, fate: nat -> BatchFate, k: nat): set<Held>
    requires k <= |batches|
  {
    if k == 0 then store else Trashed(After(store, batches, fate, k - 1), batches[k - 1], fate(k - 1))
  }

  /** The batch loop: it stops at the first failing call. */
  method TrashLosers(store: set<Held>, batches: seq<Batch>, fate: nat -> BatchFate) returns (held: set<Held>, done: nat, refused: bool)
    ensures done <= |batches| && held == After(store, batches, fate, done)
    ensures refused <==> exists i :: 0 <= i < |batches| && fate(i).fails
    ensures !refused ==> done == |batches|
    ensures refused ==> 0 < done && fate(done - 1).fails && forall i :: 0 <= i < done - 1 ==> !fate(i).fails
  {
    held, done, refused := store, 0, false;
    while done < |batches| && !refused
      invariant done <= |batches| && held == After(store, batches, fate, done)
      invariant !refused ==> forall i :: 0 <= i < done ==> !fate(i).fails
      invariant refused ==> 0 < done && fate(done - 1).fails && forall i :: 0 <= i < done - 1 ==> !fate(i).fails
      decreases |batches| - done
    {
      held := Trashed(held, batches[done], fate(done));
      refused := fate(done).fails;
      done := done + 1;
    }
  }

  /** A keeper is never removed: after any number of the batches, in any order of the
      mailboxes and whatever Mail does, every copy in the winning account is still where it
      was, and so is every copy of a message the plan does not act on. */
  lemma {:induction false} KeepersSurvive(store: set<Held>, urls: seq<Url>, losers: map<Url, seq<Mid>>, keepers: map<Mid, Account>,
                                          accountOf: Url -> Account, fate: nat -> BatchFate, k: nat, h: Held)
    requires Safe(losers, keepers, accountOf) && k <= |Batches(urls, losers)|
    requires h in store && (h.id in keepers ==> accountOf(h.url) == keepers[h.id])
    ensures h in After(store, Batches(urls, losers), fate, k)
  {
    hide Batches;
    if k > 0 {
      KeepersSurvive(store, urls, losers, keepers, accountOf, fate, k - 1, h);
      BatchesExactly(urls, losers);
      var b := Batches(urls, losers)[k - 1];
      assert b in Batches(urls, losers);
      assert h.id in b.ids ==> h.id in LosersAt(losers, b.url);
    }
  }

  /** The sets a complete run acts on are exactly the keys of `keepers`. */
  lemma ActedIdsAreTheKeepers(urls: seq<Url>, losers: map<Url, seq<Mid>>, keepers: map<Mid, Account>, accountOf: Url -> Account)
    requires Safe(losers, keepers, accountOf) && forall u :: u in losers ==> u in urls
    ensures forall m :: m in keepers <==> exists b :: b in Batches(urls, losers) && m in b.ids
  {
    hide Batches;
    BatchesExactly(urls, losers);
    forall m | m in keepers ensures exists b :: b in Batches(urls, losers) && m in b.ids {
      var u :| u in losers && m in losers[u];
      assert m in LosersAt(losers, u);
    }
    forall m | exists b :: b in Batches(urls, losers) && m in b.ids ensures m in keepers {
      var b :| b in Batches(urls, losers) && m in b.ids;
      assert m in LosersAt(losers, b.url);
    }
  }

  // ---------------------------------------------------------------- the keeper check

  predicate KeeperRow(r: Row, keepers: map<Mid, Account>) { r.id in keepers && keepers[r.id] == r.account }

  /** The mandatory post-pass: every keeper row that Mail does not report present is lost. */
  method CheckKeepers(rows: seq<Row>, keepers: map<Mid, Account>, present: (Url, Mid) -> bool) returns (lost: seq<Row>)
    ensures forall r :: r in lost <==> r in rows && r.id in keepers && keepers[r.id] == r.account && !present(r.url, r.id)
  {
    lost := [];
    var i := 0;
    while i < |rows|
      invariant 0 <= i <= |rows|
      invariant forall r :: r in lost <==> r in rows[..i] && KeeperRow(r, keepers) && !present(r.url, r.id)
    {
      assert forall r :: r in rows[..i + 1] <==> r in rows[..i] || r == rows[i];
      if KeeperRow(rows[i], keepers) && !present(rows[i].url, rows[i].id) {
        lost := lost + [rows[i]];
      }
      i := i + 1;
    }
    assert rows[..i] == rows;
  }

  /** Every set acted on, also in a restricted run, has a keeper row for the check to prove. */
  lemma EveryActedSetIsChecked(rows: seq<Row>, order: seq<Account>, prints: Prints, isTrash: Url -> bool, keepers: map<Mid, Account>, m: Mid)
    requires m in keepers
    requires var p := Planned(rows, Ids(rows), order, prints, isTrash); m in p.keepers && keepers[m] == p.keepers[m]
    ensures exists r :: r in rows && r.id == m && KeeperRow(r, keepers)
  {
    IdsMembers(rows);
    PlanExactly(rows, Ids(rows), order, prints, isTrash);
    ActedSetsAreProven(CopiesOf(rows, m), order, prints, isTrash);
    var r :| r in CopiesOf(rows, m) && r.account == keepers[m];
    assert r in rows && r.id == m;
  }

  // ---------------------------------------------------------------- the whole run

  /** Some restriction of a plan: fewer losers, fewer sets, the same winners. */
  ghost predicate Part(p: Plan, losers: map<Url, seq<Mid>>, keepers: map<Mid, Account>) {
    && (forall u, m :: Loses(losers, u, m) ==> Loses(p.losers, u, m) && m in keepers)
    && (forall m :: m in keepers ==> m in p.keepers && keepers[m] == p.keepers[m])
  }

  /** `h` is no copy the run may take: its message is not acted on, or its account won the set. */
  ghost predicate Spared(rows: seq<Row>, order: seq<Account>, prints: Prints, isTrash: Url -> bool, accountOf: Url -> Account, h: Held) {
    var v := Judge(CopiesOf(rows, h.id), order, prints, isTrash);
    v.Act? ==> accountOf(h.url) == v.winner
  }

  /** After any number of batches of any restriction of the plan, whatever Mail does, every
      spared copy is still there. */
  lemma {:induction false} SparedCopiesSurvive(
      rows: seq<Row>, order: seq<Account>, prints: Prints, isTrash: Url -> bool, accountOf: Url -> Account,
      losers: map<Url, seq<Mid>>, keepers: map<Mid, Account>, urls: seq<Url>, store: set<Held>, fate: nat -> BatchFate, k: nat, h: Held)
    requires RowsNameAccounts(rows, accountOf) && Part(Planned(rows, Ids(rows), order, prints, isTrash), losers, keepers)
    requires k <= |Batches(urls, losers)| && h in store && Spared(rows, order, prints, isTrash, accountOf, h)
    ensures h in After(store, Batches(urls, losers), fate, k)
  {
    hide Batches, Planned, Judge, Group;
    if k > 0 {
      SparedCopiesSurvive(rows, order, prints, isTrash, accountOf, losers, keepers, urls, store, fate, k - 1, h);
      BatchesExactly(urls, losers);
      var b := Batches(urls, losers)[k - 1];
      assert b in Batches(urls, losers);
      if h.id in b.ids {
        assert Loses(losers, b.url, h.id);
        SparedIsNoLoser(rows, order, prints, isTrash, accountOf, h, b.url);
      }
    }
  }

  lemma SparedIsNoLoser(rows: seq<Row>, order: seq<Account>, prints: Prints, isTrash: Url -> bool, accountOf: Url -> Account, h: Held, u: Url)
    requires RowsNameAccounts(rows, accountOf) && Spared(rows, order, prints, isTrash, accountOf, h)
    requires h.id in LosersAt(Planned(rows, Ids(rows), order, prints, isTrash).losers, u)
    ensures h.url != u
  {
    hide Judge, Group, Planned;
    IdsMembers(rows);
    PlanExactly(rows, Ids(rows), order, prints, isTrash);
    LoserIsElsewhere(rows, order, prints, isTrash, accountOf, u, h.id);
  }

  /** The set of `m` is acted on, and a copy of it that may go lies in mailbox `u`: one outside
      the winning account and outside Trash. */
  ghost predicate TargetAt(rows: seq<Row>, order: seq<Account>, prints: Prints, isTrash: Url -> bool, m: Mid, u: Url) {
    var v := Judge(CopiesOf(rows, m), order, prints, isTrash);
    v.Act? && !isTrash(u) && exists r :: r in rows && r.id == m && r.url == u && r.account != v.winner
  }

  /** ... in the mailbox asked for, if one was. */
  ghost predicate Aimed(rows: seq<Row>, order: seq<Account>, prints: Prints, isTrash: Url -> bool, mailbox: Option<Url>, m: Mid, u: Url) {
    TargetAt(rows, order, prints, isTrash, m, u) && (mailbox.Some? ==> u == mailbox.value)
  }

  /** The sets a run may act on. */
  ghost function Scope(rows: seq<Row>, order: seq<Account>, prints: Prints, isTrash: Url -> bool, mailbox: Option<Url>): set<Mid> {
    set r | r in rows && InScope(rows, order, prints, isTrash, mailbox, r.id) :: r.id
  }

  ghost predicate InScope(rows: seq<Row>, order: seq<Account>, prints: Prints, isTrash: Url -> bool, mailbox: Option<Url>, m: Mid) {
    exists u :: Aimed(rows, order, prints, isTrash, mailbox, m, u)
  }

  /** Mail takes every stored copy a batch asks for. */
  ghost predicate MailTakes(store: set<Held>, fate: nat -> BatchFate) { forall i: nat, h :: h in store ==> h in fate(i).takes }

  lemma PlannedLosers(rows: seq<Row>, order: seq<Account>, prints: Prints, isTrash: Url -> bool, m: Mid, u: Url)
    ensures var p := Planned(rows, Ids(rows), order, prints, isTrash);
      Loses(p.losers, u, m) <==> TargetAt(rows, order, prints, isTrash, m, u)
  {
    hide Judge, Group, Planned;
    IdsMembers(rows);
    PlanExactly(rows, Ids(rows), order, prints, isTrash);
    var v := Judge(CopiesOf(rows, m), order, prints, isTrash);
    if v.Act? {
      ActedSetsAreProven(CopiesOf(rows, m), order, prints, isTrash);
      assert forall r :: r in CopiesOf(rows, m) <==> r in rows && IdOf(r) == m;
    }
  }

  lemma ScopeIsEligible(rows: seq<Row>, order: seq<Account>, prints: Prints, isTrash: Url -> bool, mailbox: Option<Url>)
    ensures var p := Planned(rows, Ids(rows), order, prints, isTrash);
      Eligible(p.losers, p.keepers, mailbox) == Scope(rows, order, prints, isTrash, mailbox)
  {
    hide Judge, Group, Planned, TargetAt, InScope, LosersAt;
    var p := Planned(rows, Ids(rows), order, prints, isTrash);
    forall m ensures m in Eligible(p.losers, p.keepers, mailbox) <==> m in Scope(rows, order, prints, isTrash, mailbox) {
      ScopedIds(rows, order, prints, isTrash, mailbox, m);
    }
  }

  lemma ScopedIds(rows: seq<Row>, order: seq<Account>, prints: Prints, isTrash: Url -> bool, mailbox: Option<Url>, m: Mid)
    ensures var p := Planned(rows, Ids(rows), order, prints, isTrash);
      var eligible := m in p.keepers && (mailbox.Some? ==> m in LosersAt(p.losers, mailbox.value));
      eligible <==> (exists r :: r in rows && r.id == m) && InScope(rows, order, prints, isTrash, mailbox, m)
  {
    hide Judge, Group, Planned, TargetAt, LosersAt;
    var p := Planned(rows, Ids(rows), order, prints, isTrash);
    forall u ensures m in LosersAt(p.losers, u) <==> TargetAt(rows, order, prints, isTrash, m, u) {
      PlannedLosers(rows, order, prints, isTrash, m, u);
    }
    IdsMembers(rows);
    PlannedIds(rows, order, prints, isTrash, m);
    if m in p.keepers && (mailbox.Some? ==> m in LosersAt(p.losers, mailbox.value)) {
      var u := KeeperHasLoser(rows, order, prints, isTrash, m);
      assert Aimed(rows, order, prints, isTrash, mailbox, m, if mailbox.Some? then mailbox.value else u);
    }
  }

  lemma PlannedIds(rows: seq<Row>, order: seq<Account>, prints: Prints, isTrash: Url -> bool, m: Mid)
    ensures var p := Planned(rows, Ids(rows), order, prints, isTrash);
      (m in p.keepers ==> m in Ids(rows)) && forall u :: m in LosersAt(p.losers, u) ==> m in p.keepers
  {
    hide Judge, Group;
    IdsMembers(rows);
    PlanExactly(rows, Ids(rows), order, prints, isTrash);
  }

  /** What is gone was in some batch. */
  lemma {:induction false} GoneWasAsked(store: set<Held>, urls: seq<Url>, losers: map<Url, seq<Mid>>, fate: nat -> BatchFate, k: nat, h: Held)
    requires k <= |Batches(urls, losers)| && h in store && h !in After(store, Batches(urls, losers), fate, k)
    ensures h.url in urls && Loses(losers, h.url, h.id)
  {
    hide Batches;
    var batches := Batches(urls, losers);
    if h !in After(store, batches, fate, k - 1) {
      GoneWasAsked(store, urls, losers, fate, k - 1, h);
    } else {
      BatchesExactly(urls, losers);
      assert batches[k - 1] in batches;
    }
  }

  /** What a batch of a complete run asks for and Mail takes is gone. */
  lemma {:induction false} AskedIsGone(store: set<Held>, batches: seq<Batch>, fate: nat -> BatchFate, k: nat, i: nat, h: Held)
    requires i < k <= |batches| && h in store && h.url == batches[i].url && h.id in batches[i].ids && MailTakes(store, fate)
    ensures h !in After(store, batches, fate, k)
  {
    if i < k - 1 { AskedIsGone(store, batches, fate, k - 1, i, h); }
  }

  lemma TakenIsGone(store: set<Held>, urls: seq<Url>, losers: map<Url, seq<Mid>>, fate: nat -> BatchFate, h: Held)
    requires h in store && h.url in urls && Loses(losers, h.url, h.id) && MailTakes(store, fate)
    ensures h !in After(store, Batches(urls, losers), fate, |Batches(urls, losers)|)
  {
    hide Batches, After, MailTakes;
    BatchesExactly(urls, losers);
    var batches := Batches(urls, losers);
    var b :| b in batches && b.url == h.url && h.id in b.ids;
    var i :| 0 <= i < |batches| && batches[i] == b;
    AskedIsGone(store, batches, fate, |batches|, i, h);
  }

  /** `_run_cross_account`, from the rows to the keeper check. `urls` are the mailboxes in the
      order the run visits them. It acts on every set in scope, or on the `limit` smallest;
      nothing goes but copies it aims at, in the mailbox asked for; nothing spared is lost,
      however the batches end; a run that is not refused leaves no copy it aims at behind, if
      Mail takes what it is asked; and the check reports exactly the winning rows of acted
      sets that Mail does not show. */
  method RunCrossAccount(rows: seq<Row>, order: seq<Account>, prints: Prints, isTrash: Url -> bool, mailbox: Option<Url>, limit: Option<nat>,
                         urls: seq<Url>, store: set<Held>, fate: nat -> BatchFate, present: (Url, Mid) -> bool, ghost accountOf: Url -> Account)
    returns (held: set<Held>, acted: map<Mid, Account>, refused: bool, lost: seq<Row>)
    requires RowsNameAccounts(rows, accountOf)
    ensures var scope := Scope(rows, order, prints, isTrash, mailbox);
      if limit.Some? && |scope| > limit.value then SmallestIds(scope, limit.value, acted.Keys) else acted.Keys == scope
    ensures forall m :: m in acted ==>
      Judge(CopiesOf(rows, m), order, prints, isTrash).Act? && acted[m] == Judge(CopiesOf(rows, m), order, prints, isTrash).winner
    ensures held <= store && forall h :: h in store && Spared(rows, order, prints, isTrash, accountOf, h) ==> h in held
    ensures forall h :: h in store && h !in held ==>
      h.id in acted && h.url in urls && Aimed(rows, order, prints, isTrash, mailbox, h.id, h.url)
    ensures !refused && MailTakes(store, fate) ==>
      forall h :: h in store && h.id in acted && h.url in urls && Aimed(rows, order, prints, isTrash, mailbox, h.id, h.url) ==> h !in held
    ensures (forall i :: !fate(i).fails) ==> !refused
    ensures forall r :: r in lost <==> r in rows && r.id in acted && acted[r.id] == r.account && !present(r.url, r.id)
    ensures forall m :: m in acted ==> exists r :: r in rows && r.id == m && r.account == acted[m]
  {
    hide Judge, Group, Planned, Batches, TargetAt, Scope, MailTakes, Spared, Loses;
    held, acted, refused, lost := store, map[], false, [];
    var plan := CrossAccountPlan(rows, order, prints, isTrash);
    PlanIsSafe(rows, order, prints, isTrash, accountOf);
    ScopeIsEligible(rows, order, prints, isTrash, mailbox);
    var restricted := Restrict(plan.losers, plan.keepers, mailbox, limit, accountOf);
    if restricted.None? {
      return;
    }
    var (losers, keepers) := restricted.value;
    acted := keepers;
    RestrictedIsPart(plan, restricted.value, mailbox);
    ActedAreJudged(rows, order, prints, isTrash, plan, keepers);
    AimedAreLosers(rows, order, prints, isTrash, restricted.value, mailbox);
    var batches := Batches(urls, losers);
    var done: nat;
    held, done, refused := TrashLosers(store, batches, fate);
    AfterIsFewer(store, batches, fate, done);
    forall h | h in store && Spared(rows, order, prints, isTrash, accountOf, h) ensures h in held {
      SparedCopiesSurvive(rows, order, prints, isTrash, accountOf, losers, keepers, urls, store, fate, done, h);
    }
    forall h | h in store && h !in held ensures h.url in urls && Loses(losers, h.url, h.id) {
      GoneWasAsked(store, urls, losers, fate, done, h);
    }
    if !refused && MailTakes(store, fate) {
      forall h | h in store && h.url in urls && Loses(losers, h.url, h.id) ensures h !in held {
        TakenIsGone(store, urls, losers, fate, h);
      }
    }
    lost := CheckKeepers(rows, keepers, present);
  }

  lemma AimedAreLosers(rows: seq<Row>, order: seq<Account>, prints: Prints, isTrash: Url -> bool,
                       current: (map<Url, seq<Mid>>, map<Mid, Account>), mailbox: Option<Url>)
    requires LosersOf(current, Planned(rows, Ids(rows), order, prints, isTrash).losers, mailbox)
    ensures forall u, m :: Loses(current.0, u, m) <==> Aimed(rows, order, prints, isTrash, mailbox, m, u) && m in current.1
  {
    hide TargetAt, Planned;
    forall u, m { PlannedLosers(rows, order, prints, isTrash, m, u); }
  }

  lemma RestrictedIsPart(p: Plan, current: (map<Url, seq<Mid>>, map<Mid, Account>), mailbox: Option<Url>)
    requires LosersOf(current, p.losers, mailbox)
    requires forall m :: m in current.1 ==> m in p.keepers && current.1[m] == p.keepers[m]
    ensures Part(p, current.0, current.1)
  {
  }

  lemma {:induction false} AfterIsFewer(store: set<Held>, batches: seq<Batch>, fate: nat -> BatchFate, k: nat)
    requires k <= |batches|
    ensures After(store, batches, fate, k) <= store
  {
    if k > 0 { AfterIsFewer(store, batches, fate, k - 1); }
  }

  lemma ActedAreJudged(rows: seq<Row>, order: seq<Account>, prints: Prints, isTrash: Url -> bool, plan: Plan, keepers: map<Mid, Account>)
    requires plan == Planned(rows, Ids(rows), order, prints, isTrash)
    requires forall m :: m in keepers ==> m in plan.keepers && keepers[m] == plan.keepers[m]
    ensures forall m :: m in keepers ==>
      m in Ids(rows) && Judge(CopiesOf(rows, m), order, prints, isTrash).Act?
      && keepers[m] == Judge(CopiesOf(rows, m), order, prints, isTrash).winner
    ensures forall m :: m in keepers ==> exists r :: r in rows && r.id == m && KeeperRow(r, keepers)
  {
    hide Judge, Group, Planned;
    IdsMembers(rows);
    PlanExactly(rows, Ids(rows), order, prints, isTrash);
    forall m | m in keepers ensures exists r :: r in rows && r.id == m && KeeperRow(r, keepers) {
      EveryActedSetIsChecked(rows, order, prints, isTrash, keepers, m);
    }
  }
}
