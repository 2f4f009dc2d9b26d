/**
 The act of a destructive Mail write (`macos_apps_mcp/adapters/mail.py`): find every stored
 copy of each Message-ID, let Mail act on them one by one, and fold Mail's answers per
 copy into one answer per Message-ID.

 Mail itself is the environment: for each copy it decides whether the copy leaves the
 source, whether one lands in the destination, and what the script reports.
 */
module MailAct {
  import opened Prelude

  type Mid = string
  type Box = string

  /** One stored copy: Mail's internal id, and the bare Message-ID (None when blank or missing). */
  datatype Copy = Copy(nid: nat, mid: Option<Mid>)

  /** Mail's stored messages; `next` is the internal id Mail gives the next landing copy. */
  datatype Store = Store(boxes: map<Box, seq<Copy>>, next: nat) {
    function In(b: Box): seq<Copy> { if b in boxes then boxes[b] else [] }

    /** Internal ids are distinct within a mailbox and below `next`. */
    ghost predicate Valid() {
      forall b :: NoDup(Nids(In(b))) && forall n :: n in Nids(In(b)) ==> n < next
    }
  }

  datatype Op = Move | Trash

  /** What the script says about one copy. */
  datatype Report = Moved | Deleted | Gone | NotInSource | Unknown | Error(text: string)

  /** Mail's handling of one copy. */
  datatype CopyFate = CopyFate(report: Report, leaves: bool, lands: bool)
  type Fates = nat -> CopyFate

  datatype Pair = Pair(mid: Mid, nid: nat)

  /** The answer for one Message-ID; `Uncertain` is the text "unknown", `Absent` "not-in-source". */
  datatype Status = Ok | Absent | Uncertain | Failed(text: string) | Partly(text: string, acted: nat, copies: nat)
  datatype LeftSource = Left | Stayed | Unsure

  /** An act answers a plain status, or a status with an explicit verdict on leaving the source. */
  datatype Reply = Plain(status: Status) | Outcome(status: Status, left: LeftSource)

  function Nids(box: seq<Copy>): seq<nat> {
    if box == [] then [] else [box[0].nid] + Nids(box[1..])
  }

  /** Internal ids of the stored copies of `mid`, in mailbox order. */
  function CopiesOf(box: seq<Copy>, mid: Mid): seq<nat> {
    if box == [] then [] else
      (if box[0].mid == Some(mid) then [box[0].nid] else []) + CopiesOf(box[1..], mid)
  }

  function Count(st: Store, b: Box, mid: Mid): nat { |CopiesOf(st.In(b), mid)| }

  function PairsOf(mid: Mid, nids: seq<nat>): (ps: seq<Pair>)
    ensures |ps| == |nids| && forall i :: 0 <= i < |ps| ==> ps[i] == Pair(mid, nids[i])
  {
    seq(|nids|, i requires 0 <= i < |nids| => Pair(mid, nids[i]))
  }

  function Pairs(box: seq<Copy>, ids: seq<Mid>): seq<Pair> {
    if ids == [] then [] else PairsOf(ids[0], CopiesOf(box, ids[0])) + Pairs(box, ids[1..])
  }

  // ---------------------------------------------------------------- Mail acting on copies

  function KeepBox(box: seq<Copy>, gone: set<nat>): seq<Copy> {
    if box == [] then [] else (if box[0].nid in gone then [] else [box[0]]) + KeepBox(box[1..], gone)
  }

  function KeepIds(nids: seq<nat>, gone: set<nat>): seq<nat> {
    if nids == [] then [] else (if nids[0] in gone then [] else [nids[0]]) + KeepIds(nids[1..], gone)
  }

  function GoneNids(pairs: seq<Pair>, fate: Fates): set<nat> {
    set p | p in pairs && fate(p.nid).leaves :: p.nid
  }

  /** The copies that land, each under a fresh internal id. */
  function Landed(pairs: seq<Pair>, fate: Fates, next: nat): seq<Copy> {
    if pairs == [] then [] else
      if fate(pairs[0].nid).lands
      then [Copy(next, Some(pairs[0].mid))] + Landed(pairs[1..], fate, next + 1)
      else Landed(pairs[1..], fate, next)
  }

  /** Mail's mailboxes after the script has gone through `pairs`. */
  function Scripted(st: Store, src: Box, dst: Box, pairs: seq<Pair>, fate: Fates): Store
    requires src != dst
  {
    var landed := Landed(pairs, fate, st.next);
    Store(st.boxes[src := KeepBox(st.In(src), GoneNids(pairs, fate))][dst := st.In(dst) + landed],
          st.next + |landed|)
  }

  function Answers(pairs: seq<Pair>, fate: Fates): map<nat, Report> {
    map p | p in pairs :: p.nid := fate(p.nid).report
  }

  // ---------------------------------------------------------------- the fold

  predicate Acts(op: Op, r: Report) {
    match op case Move => r.Moved? case Trash => r.Deleted? || r.Gone?
  }

  function ReportsFor(copies: seq<nat>, answers: map<nat, Report>): (rs: seq<Report>)
    ensures |rs| == |copies|
  {
    seq(|copies|, i requires 0 <= i < |copies| => if copies[i] in answers then answers[copies[i]] else Unknown)
  }

  function FirstError(rs: seq<Report>): Option<string> {
    if rs == [] then None else if rs[0].Error? then Some(rs[0].text) else FirstError(rs[1..])
  }

  function ActedCount(op: Op, rs: seq<Report>): nat {
    if rs == [] then 0 else (if Acts(op, rs[0]) then 1 else 0) + ActedCount(op, rs[1..])
  }

  /** One Message-ID's answer from its copies' reports and whether its destination count rose. */
  function Verdict(op: Op, rs: seq<Report>, rose: bool): Reply {
    if rs == [] then Plain(Absent)
    else if forall r :: r in rs ==> Acts(op, r) then
      if op.Move? then
        if rose then Plain(Ok) else Outcome(Failed(NEVER_ARRIVED), Left)
      else
        if rose || (forall r :: r in rs ==> r.Gone?) then Plain(Ok) else Plain(Failed(NEVER_TRASHED))
    else if forall r :: r in rs ==> r.NotInSource? then Plain(Absent)
    else match FirstError(rs)
      case None => Plain(Uncertain)
      case Some(text) =>
        var n := ActedCount(op, rs);
        if n > 0 then Outcome(Partly(text, n, |rs|), Left) else Plain(Failed(text))
  }

  /** The replay rule of a plain status. */
  function PlainLeftSource(s: Status): LeftSource {
    match s case Ok => Left case Uncertain => Unsure case _ => Stayed
  }

  function LeftOf(r: Reply): LeftSource {
    match r case Plain(s) => PlainLeftSource(s) case Outcome(_, l) => l
  }

  /** What an answer says of the source, and so of the undo: a plain `ok` left it, a plain
      `unknown` may have, any other plain status stayed; an explicit verdict stands. */
  lemma ReplayRuleExactly(r: Reply)
    ensures LeftOf(r) == Left <==> r == Plain(Ok) || (r.Outcome? && r.left == Left)
    ensures LeftOf(r) == Unsure <==> r == Plain(Uncertain) || (r.Outcome? && r.left == Unsure)
  {
  }

  /** Every answer of one act; `rose` says for which Message-IDs the destination count rose. */
  function Folded(op: Op, box: seq<Copy>, ids: seq<Mid>, answers: map<nat, Report>, rose: Mid -> bool): map<Mid, Reply> {
    map mid | mid in ids :: Verdict(op, ReportsFor(CopiesOf(box, mid), answers), rose(mid))
  }

  // ---------------------------------------------------------------- the loops

  /** `_copies`: one pass over the bulk read, filing each internal id under its Message-ID. */
  method Copies(box: seq<Copy>, ids: seq<Mid>) returns (out: map<Mid, seq<nat>>)
    ensures out == map mid | mid in ids :: CopiesOf(box, mid)
  {
    out := map mid | mid in ids :: [];
    var i := 0;
    while i < |box|
      invariant 0 <= i <= |box|
      invariant out.Keys == set mid | mid in ids
      invariant forall mid :: mid in ids ==> out[mid] == CopiesOf(box[..i], mid)
    {
      forall mid ensures CopiesOf(box[..i + 1], mid)
        == CopiesOf(box[..i], mid) + (if box[i].mid == Some(mid) then [box[i].nid] else [])
      {
        assert box[..i + 1] == box[..i] + [box[i]];
        CopiesConcat(box[..i], [box[i]], mid);
      }
      if box[i].mid.Some? && box[i].mid.value in out {
        out := out[box[i].mid.value := out[box[i].mid.value] + [box[i].nid]];
      }
      i := i + 1;
    }
    assert box[..i] == box;
  }

  /** The script: act on each copy in turn and report on it. */
  method RunScript(st: Store, src: Box, dst: Box, pairs: seq<Pair>, fate: Fates)
    returns (after: Store, answers: map<nat, Report>)
    requires src != dst
    ensures after == Scripted(st, src, dst, pairs, fate)
    ensures answers == Answers(pairs, fate)
  {
    hide Landed, KeepBox, GoneNids, Answers;
    var source, landed, next, k := st.In(src), st.In(dst), st.next, 0;
    answers := map[];
    ScriptStart(source, fate, next);
    assert pairs[..0] == [] && landed + [] == landed;
    while k < |pairs|
      invariant 0 <= k <= |pairs|
      invariant source == KeepBox(st.In(src), GoneNids(pairs[..k], fate))
      invariant landed == st.In(dst) + Landed(pairs[..k], fate, st.next)
      invariant next == st.next + |Landed(pairs[..k], fate, st.next)|
      invariant answers == Answers(pairs[..k], fate)
    {
      var p, f := pairs[k], fate(pairs[k].nid);
      ScriptStep(st.In(src), pairs, k, fate, st.next);
      if f.leaves {
        source := KeepBox(source, {p.nid});
      }
      if f.lands {
        landed, next := landed + [Copy(next, Some(p.mid))], next + 1;
      }
      answers := answers[p.nid := f.report];
      k := k + 1;
    }
    assert pairs[..k] == pairs;
    after := Store(st.boxes[src := source][dst := landed], next);
  }

  lemma ScriptStart(box: seq<Copy>, fate: Fates, next: nat)
    ensures KeepBox(box, GoneNids([], fate)) == box && Landed([], fate, next) == [] && Answers([], fate) == map[]
  {
    KeepNothingGone(box);
    assert GoneNids([], fate) == {};
  }

  lemma ScriptStep(box: seq<Copy>, pairs: seq<Pair>, k: nat, fate: Fates, next: nat)
    requires k < |pairs|
    ensures var (done, more, p) := (pairs[..k], pairs[..k + 1], pairs[k]);
      && KeepBox(box, GoneNids(more, fate))
        == (if fate(p.nid).leaves then KeepBox(KeepBox(box, GoneNids(done, fate)), {p.nid}) else KeepBox(box, GoneNids(done, fate)))
      && Landed(more, fate, next)
        == Landed(done, fate, next) + (if fate(p.nid).lands then [Copy(next + |Landed(done, fate, next)|, Some(p.mid))] else [])
      && Answers(more, fate) == Answers(done, fate)[p.nid := fate(p.nid).report]
  {
    var (done, p) := (pairs[..k], pairs[k]);
    assert pairs[..k + 1] == done + [p];
    LandedSnoc(done, p, fate, next);
    KeepTwice(box, GoneNids(done, fate), {p.nid});
    if fate(p.nid).leaves {
      assert GoneNids(done + [p], fate) == GoneNids(done, fate) + {p.nid};
    } else {
      assert GoneNids(done + [p], fate) == GoneNids(done, fate);
    }
  }

  /** The script said nothing of some copy, and no copy raised. */
  ghost predicate Unanswered(copies: seq<nat>, answers: map<nat, Report>) {
    (exists n :: n in copies && n !in answers) && forall n :: n in copies && n in answers ==> !answers[n].Error?
  }

  lemma {:induction false} NoErrorFirst(rs: seq<Report>)
    requires forall r :: r in rs ==> !r.Error?
    ensures FirstError(rs).None?
  {
    if rs != [] {
      assert rs[0] in rs;
      NoErrorFirst(rs[1..]);
    }
  }

  lemma UnansweredIsUncertain(op: Op, copies: seq<nat>, answers: map<nat, Report>, rose: bool)
    requires Unanswered(copies, answers)
    ensures Verdict(op, ReportsFor(copies, answers), rose) == Plain(Uncertain)
  {
    var rs := ReportsFor(copies, answers);
    var n :| n in copies && n !in answers;
    var i :| 0 <= i < |copies| && copies[i] == n;
    assert rs[i] == Unknown && rs[i] in rs;
    forall r | r in rs ensures !r.Error? {
      var k :| 0 <= k < |rs| && rs[k] == r;
      assert copies[k] in copies;
    }
    NoErrorFirst(rs);
  }

  /** The fold: one answer per requested Message-ID, in the order the ids were given. */
  method FoldAnswers(op: Op, copies: map<Mid, seq<nat>>, ids: seq<Mid>, answers: map<nat, Report>, rose: Mid -> bool, ghost box: seq<Copy>)
    returns (result: map<Mid, Reply>)
    requires copies == map mid | mid in ids :: CopiesOf(box, mid)
    ensures result == Folded(op, box, ids, answers, rose)
    ensures forall mid :: mid in ids && Unanswered(copies[mid], answers) ==> result[mid] == Plain(Uncertain)
  {
    result := map[];
    var i := 0;
    while i < |ids|
      invariant 0 <= i <= |ids|
      invariant result == Folded(op, box, ids[..i], answers, rose)
    {
      var mid := ids[i];
      result := result[mid := Verdict(op, ReportsFor(copies[mid], answers), rose(mid))];
      assert ids[..i + 1] == ids[..i] + [mid];
      i := i + 1;
    }
    assert ids[..i] == ids;
    forall mid | mid in ids && Unanswered(copies[mid], answers) ensures result[mid] == Plain(Uncertain) {
      UnansweredIsUncertain(op, copies[mid], answers, rose(mid));
    }
  }

  // ---------------------------------------------------------------- facts about mailboxes

  lemma {:induction false} CopiesConcat(a: seq<Copy>, b: seq<Copy>, mid: Mid)
    ensures CopiesOf(a + b, mid) == CopiesOf(a, mid) + CopiesOf(b, mid)
  {
    if a == [] {
      assert a + b == b;
    } else {
      var c := a + b;
      assert c != [] && c[0] == a[0] && c[1..] == a[1..] + b;
      CopiesConcat(a[1..], b, mid);
      assert CopiesOf(c, mid) == (if c[0].mid == Some(mid) then [c[0].nid] else []) + CopiesOf(c[1..], mid);
    }
  }

  lemma {:induction false} NidsConcat(a: seq<Copy>, b: seq<Copy>)
    ensures Nids(a + b) == Nids(a) + Nids(b)
  {
    if a == [] {
      assert a + b == b;
    } else {
      assert (a + b)[1..] == a[1..] + b;
      NidsConcat(a[1..], b);
    }
  }

  lemma {:induction false} KeepNothingGone(box: seq<Copy>)
    ensures KeepBox(box, {}) == box
  {
    if box != [] { KeepNothingGone(box[1..]); }
  }

  lemma {:induction false} KeepTwice(box: seq<Copy>, a: set<nat>, b: set<nat>)
    ensures KeepBox(KeepBox(box, a), b) == KeepBox(box, a + b)
  {
    if box != [] {
      KeepTwice(box[1..], a, b);
      var rest := KeepBox(box[1..], a);
      if box[0].nid in a {
        assert KeepBox(box, a) == rest;
      } else {
        assert KeepBox(box, a) == [box[0]] + rest && ([box[0]] + rest)[1..] == rest;
      }
    }
  }

  lemma {:induction false} KeepBoxNids(box: seq<Copy>, gone: set<nat>)
    requires NoDup(Nids(box))
    ensures NoDup(Nids(KeepBox(box, gone)))
    ensures forall n :: n in Nids(KeepBox(box, gone)) ==> n in Nids(box)
  {
    if box != [] {
      NoDupCons(box[0].nid, Nids(box[1..]));
      KeepBoxNids(box[1..], gone);
      var rest := KeepBox(box[1..], gone);
      if box[0].nid in gone {
        assert KeepBox(box, gone) == rest;
      } else {
        assert KeepBox(box, gone) == [box[0]] + rest && ([box[0]] + rest)[1..] == rest;
        NoDupCons(box[0].nid, Nids(rest));
      }
    }
  }

  lemma {:induction false} LandedSnoc(pairs: seq<Pair>, p: Pair, fate: Fates, next: nat)
    ensures var before := Landed(pairs, fate, next);
      Landed(pairs + [p], fate, next)
        == before + (if fate(p.nid).lands then [Copy(next + |before|, Some(p.mid))] else [])
  {
    if pairs == [] {
      assert Landed([p][1..], fate, next + 1) == [];
    } else {
      assert (pairs + [p])[1..] == pairs[1..] + [p];
      LandedSnoc(pairs[1..], p, fate, if fate(pairs[0].nid).lands then next + 1 else next);
    }
  }

  /** The copies of a Message-ID that remain are those Mail did not take. */
  lemma {:induction false} CopiesKept(box: seq<Copy>, gone: set<nat>, mid: Mid)
    ensures CopiesOf(KeepBox(box, gone), mid) == KeepIds(CopiesOf(box, mid), gone)
  {
    if box != [] {
      CopiesKept(box[1..], gone, mid);
      var head := if box[0].nid in gone then [] else [box[0]];
      CopiesConcat(head, KeepBox(box[1..], gone), mid);
      assert CopiesOf([box[0]], mid) == (if box[0].mid == Some(mid) then [box[0].nid] else []) + CopiesOf([], mid);
      var rest := CopiesOf(box[1..], mid);
      if box[0].mid == Some(mid) {
        assert CopiesOf(box, mid) == [box[0].nid] + rest && ([box[0].nid] + rest)[1..] == rest;
      } else {
        assert CopiesOf(box, mid) == rest;
      }
    }
  }

  lemma {:induction false} CopiesAreNids(box: seq<Copy>, mid: Mid)
    ensures forall n :: n in CopiesOf(box, mid) ==> n in Nids(box)
  {
    if box != [] { CopiesAreNids(box[1..], mid); }
  }

  /** Distinct internal ids belong to one Message-ID each, and none is listed twice. */
  lemma {:induction false} CopiesDistinct(box: seq<Copy>, a: Mid, b: Mid)
    requires NoDup(Nids(box))
    ensures NoDup(CopiesOf(box, a))
    ensures a != b ==> forall n :: n in CopiesOf(box, a) ==> n !in CopiesOf(box, b)
  {
    if box != [] {
      NoDupCons(box[0].nid, Nids(box[1..]));
      CopiesDistinct(box[1..], a, b);
      CopiesAreNids(box[1..], a);
      CopiesAreNids(box[1..], b);
      NoDupCons(box[0].nid, CopiesOf(box[1..], a));
      assert [] + CopiesOf(box[1..], a) == CopiesOf(box[1..], a);
    }
  }

  lemma {:induction false} KeepIdsCounts(nids: seq<nat>, gone: set<nat>)
    ensures |KeepIds(nids, gone)| <= |nids|
    ensures |KeepIds(nids, gone)| < |nids| <==> exists n :: n in nids && n in gone
    ensures (forall n :: n in nids ==> n in gone) ==> KeepIds(nids, gone) == []
    ensures (forall n :: n in nids ==> n !in gone) ==> KeepIds(nids, gone) == nids
  {
    if nids != [] {
      KeepIdsCounts(nids[1..], gone);
      assert forall n :: n in nids <==> n == nids[0] || n in nids[1..];
    }
  }

  /** The pairs are exactly the copies of the requested ids. */
  lemma {:induction false} PairsExactly(box: seq<Copy>, ids: seq<Mid>)
    ensures forall p :: p in Pairs(box, ids) <==> p.mid in ids && p.nid in CopiesOf(box, p.mid)
  {
    if ids != [] {
      PairsExactly(box, ids[1..]);
      var ps := PairsOf(ids[0], CopiesOf(box, ids[0]));
      forall p ensures p in ps <==> p.mid == ids[0] && p.nid in CopiesOf(box, ids[0]) {
        if p.mid == ids[0] && p.nid in CopiesOf(box, ids[0]) {
          var i :| 0 <= i < |ps| && CopiesOf(box, ids[0])[i] == p.nid;
          assert ps[i] == p;
        }
      }
      assert forall m :: m in ids <==> m == ids[0] || m in ids[1..];
    }
  }

  /** An id's copies are the stored copies that carry it, no other and none left out. */
  lemma {:induction false} CopiesExactly(box: seq<Copy>, mid: Mid)
    ensures forall n :: n in CopiesOf(box, mid) <==> Copy(n, Some(mid)) in box
  {
    if box != [] {
      CopiesExactly(box[1..], mid);
      assert forall c :: c in box <==> c == box[0] || c in box[1..];
    }
  }

  lemma {:induction false} KeepBoxExactly(box: seq<Copy>, gone: set<nat>)
    ensures forall c :: c in KeepBox(box, gone) <==> c in box && c.nid !in gone
  {
    if box != [] {
      KeepBoxExactly(box[1..], gone);
      assert forall c :: c in box <==> c == box[0] || c in box[1..];
    }
  }

  /** What the script leaves: the source without the copies that left, and the destination with
      what it held, under the same ids, followed by one new copy for each that landed. */
  lemma ScriptedExactly(st: Store, src: Box, dst: Box, pairs: seq<Pair>, fate: Fates)
    requires src != dst
    ensures var after := Scripted(st, src, dst, pairs, fate);
      && (forall c :: c in after.In(src) <==> c in st.In(src) && !exists p :: p in pairs && p.nid == c.nid && fate(p.nid).leaves)
      && st.In(dst) <= after.In(dst) && after.next == st.next + |after.In(dst)| - |st.In(dst)|
      && (forall b :: b != src && b != dst ==> after.In(b) == st.In(b))
  {
    KeepBoxExactly(st.In(src), GoneNids(pairs, fate));
  }

  // ---------------------------------------------------------------- the fold is right

  lemma {:induction false} FirstErrorIff(rs: seq<Report>)
    ensures FirstError(rs).Some? <==> exists r :: r in rs && r.Error?
  {
    if rs != [] {
      FirstErrorIff(rs[1..]);
      assert forall r :: r in rs <==> r == rs[0] || r in rs[1..];
    }
  }

  lemma {:induction false} ActedCountIff(op: Op, rs: seq<Report>)
    ensures ActedCount(op, rs) > 0 <==> exists r :: r in rs && Acts(op, r)
  {
    if rs != [] {
      ActedCountIff(op, rs[1..]);
      assert forall r :: r in rs <==> r == rs[0] || r in rs[1..];
    }
  }

  ghost predicate AllAct(op: Op, rs: seq<Report>) { forall r :: r in rs ==> Acts(op, r) }
  ghost predicate SomeActs(op: Op, rs: seq<Report>) { exists r :: r in rs && Acts(op, r) }
  ghost predicate SomeError(rs: seq<Report>) { exists r :: r in rs && r.Error? }

  /** The recorded verdict on leaving the source, exactly: a message with copies counts as
      stayed only when every copy was absent, when errors came with no copy acting, or,
      for Trash, when every copy acted without Trash rising or every copy being gone. */
  lemma StayedExactly(op: Op, rs: seq<Report>, rose: bool)
    ensures LeftOf(Verdict(op, rs, rose)) == Stayed <==>
      || (forall r :: r in rs ==> r.NotInSource?)
      || (SomeError(rs) && !SomeActs(op, rs))
      || (op.Trash? && AllAct(op, rs) && !rose && exists r :: r in rs && !r.Gone?)
    ensures LeftOf(Verdict(op, rs, rose)) == Unsure ==> !SomeError(rs) && !AllAct(op, rs)
  {
    FirstErrorIff(rs);
    ActedCountIff(op, rs);
    if rs != [] {
      assert rs[0] in rs;
    }
  }

  /** `ok` means every copy of a held message acted and its destination count rose (or, for
      Trash, every copy is provably gone): nothing less, and nothing more is asked. */
  lemma OkExactly(op: Op, rs: seq<Report>, rose: bool)
    ensures Verdict(op, rs, rose).status == Ok <==>
      rs != [] && AllAct(op, rs) && (rose || (op.Trash? && forall r :: r in rs ==> r.Gone?))
  {
    FirstErrorIff(rs);
  }

  /** `text` is the first error among the copies' reports. */
  ghost predicate FirstErrorIs(rs: seq<Report>, text: string) {
    exists i :: 0 <= i < |rs| && rs[i] == Error(text) && forall j :: 0 <= j < i ==> !rs[j].Error?
  }

  lemma {:induction false} FirstErrorExactly(rs: seq<Report>, text: string)
    ensures FirstError(rs) == Some(text) <==> FirstErrorIs(rs, text)
  {
    if rs != [] && !rs[0].Error? {
      FirstErrorExactly(rs[1..], text);
      if FirstErrorIs(rs, text) {
        var i :| 0 <= i < |rs| && rs[i] == Error(text) && forall j :: 0 <= j < i ==> !rs[j].Error?;
        assert rs[1..][i - 1] == Error(text) && forall j :: 0 <= j < i - 1 ==> rs[1..][j] == rs[j + 1];
      }
      if FirstErrorIs(rs[1..], text) {
        var i :| 0 <= i < |rs[1..]| && rs[1..][i] == Error(text) && forall j :: 0 <= j < i ==> !rs[1..][j].Error?;
        assert rs[i + 1] == Error(text) && forall j :: 0 < j < i + 1 ==> rs[j] == rs[1..][j - 1];
      }
    }
  }

  /** The copies, by place, that a move took; that a trash deleted. */
  function MovedPlaces(rs: seq<Report>): set<nat> { set i: nat | i < |rs| && rs[i].Moved? }
  function DeletedPlaces(rs: seq<Report>): set<nat> { set i: nat | i < |rs| && (rs[i].Deleted? || rs[i].Gone?) }
  function ActedPlaces(op: Op, rs: seq<Report>): set<nat> { set i: nat | i < |rs| && Acts(op, rs[i]) }

  lemma {:induction false} ActedCountExactly(op: Op, rs: seq<Report>)
    ensures ActedCount(op, rs) == |ActedPlaces(op, rs)|
  {
    if rs != [] {
      var init, last := rs[..|rs| - 1], rs[|rs| - 1];
      ActedCountExactly(op, init);
      ActedCountSnoc(op, init, last);
      assert rs == init + [last];
      assert ActedPlaces(op, rs) == ActedPlaces(op, init) + (if Acts(op, last) then {|rs| - 1} else {});
    }
  }

  lemma {:induction false} ActedCountSnoc(op: Op, rs: seq<Report>, r: Report)
    ensures ActedCount(op, rs + [r]) == ActedCount(op, rs) + (if Acts(op, r) then 1 else 0)
  {
    if rs == [] {
      assert [r][1..] == [];
    } else {
      assert (rs + [r])[1..] == rs[1..] + [r];
      ActedCountSnoc(op, rs[1..], r);
    }
  }

  const NEVER_ARRIVED := "not in the destination"
  const NEVER_TRASHED := "never reached Trash"

  ghost predicate AllMoved(rs: seq<Report>) { forall i :: 0 <= i < |rs| ==> rs[i].Moved? }
  ghost predicate AllDeleted(rs: seq<Report>) { forall i :: 0 <= i < |rs| ==> rs[i].Deleted? || rs[i].Gone? }
  ghost predicate AllGone(rs: seq<Report>) { forall i :: 0 <= i < |rs| ==> rs[i].Gone? }
  ghost predicate AllAbsent(rs: seq<Report>) { forall i :: 0 <= i < |rs| ==> rs[i].NotInSource? }
  ghost predicate NoError(rs: seq<Report>) { forall i :: 0 <= i < |rs| ==> !rs[i].Error? }

  /** What a move tells its caller about an id, read off the reports on its copies. */
  ghost predicate MoveTold(rs: seq<Report>, rose: bool, s: Status) {
    && (s == Absent <==> AllAbsent(rs))
    && (s == Ok <==> rs != [] && AllMoved(rs) && rose)
    && (s == Uncertain <==> NoError(rs) && !AllMoved(rs) && !AllAbsent(rs))
    && (forall text, a, c :: s == Partly(text, a, c) <==> FirstErrorIs(rs, text) && a == |MovedPlaces(rs)| > 0 && c == |rs|)
    && (forall text :: FirstErrorIs(rs, text) && MovedPlaces(rs) == {} ==> s == Failed(text))
    && (rs != [] && AllMoved(rs) && !rose ==> s == Failed(NEVER_ARRIVED))
  }

  /** What a trash tells its caller: the same, but a copy may be deleted and not yet gone, and
      copies all gone are as good as a Trash that rose. */
  ghost predicate TrashTold(rs: seq<Report>, rose: bool, s: Status) {
    && (s == Absent <==> AllAbsent(rs))
    && (s == Ok <==> rs != [] && AllDeleted(rs) && (rose || AllGone(rs)))
    && (s == Uncertain <==> NoError(rs) && !AllDeleted(rs) && !AllAbsent(rs))
    && (forall text, a, c :: s == Partly(text, a, c) <==> FirstErrorIs(rs, text) && a == |DeletedPlaces(rs)| > 0 && c == |rs|)
    && (forall text :: FirstErrorIs(rs, text) && DeletedPlaces(rs) == {} ==> s == Failed(text))
    && (AllDeleted(rs) && !AllGone(rs) && !rose ==> s == Failed(NEVER_TRASHED))
  }

  ghost predicate Told(op: Op, rs: seq<Report>, rose: bool, s: Status) {
    match op case Move => MoveTold(rs, rose, s) case Trash => TrashTold(rs, rose, s)
  }

  /** Every answer, exactly: absent, ok, uncertain, an error with its text, or a partial act with
      the first error's text, the copies that acted and the copies there were. */
  lemma ToldExactly(op: Op, rs: seq<Report>, rose: bool)
    ensures Told(op, rs, rose, Verdict(op, rs, rose).status)
  {
    forall text { FirstErrorExactly(rs, text); }
    FirstErrorIff(rs);
    ActedCountExactly(op, rs);
    ActedCountIff(op, rs);
    ActedAre(op, rs);
    ByPlace(rs);
  }

  lemma ActedAre(op: Op, rs: seq<Report>)
    ensures ActedPlaces(op, rs) == match op case Move => MovedPlaces(rs) case Trash => DeletedPlaces(rs)
  {
  }

  lemma ByPlace(rs: seq<Report>)
    ensures forall r :: r in rs <==> exists i :: 0 <= i < |rs| && rs[i] == r
    ensures forall i :: 0 <= i < |rs| ==> rs[i] in rs
  {
  }

  /** The recorded verdict of a plain answer: left if ok, unsure if unknown, else stayed. */
  lemma RecordedVerdictExactly(op: Op, rs: seq<Report>, rose: bool)
    ensures var r := Verdict(op, rs, rose);
      && (r.status == Ok ==> LeftOf(r) == Left) && (r.status == Uncertain <==> LeftOf(r) == Unsure)
      && (r.status == Absent ==> LeftOf(r) == Stayed) && (r.status.Partly? ==> LeftOf(r) == Left)
  {
  }
}
