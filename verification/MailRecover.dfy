/**
 The recoverable destructive plane of `macos_apps_mcp/adapters/mail_recover.py`: log a plan,
 let Mail act, log what happened, and rebuild from whatever the log still holds the list
 of messages an undo must move back.
 */
module MailRecover {
  import opened Prelude
  import opened AuditLog
  import opened MailAct

  const MAX_TARGETS := 25

  type Receipt = string

  datatype Target = Target(id: Mid, folder: Box)

  /** The records of the audit log. `Note` stands for every other tool's entries; `left` is
      None on a done record written before that field existed. */
  datatype Entry =
    | Plan(receipt: Receipt, op: Op, destination: Option<Box>, targets: seq<Target>)
    | Done(receipt: Receipt, results: map<Mid, Status>, left: Option<map<Mid, LeftSource>>)
    | Note(text: string)

  predicate Names(e: Entry, rid: Receipt) { !e.Note? && e.receipt == rid }

  datatype Request = Request(op: Op, receipt: Receipt, src: Box, dst: Box, ids: seq<Mid>)

  /** How the act ends: `acted` copies were processed when the script timed out, failed
      some other way, or the whole process died. */
  datatype End = Finishes | TimesOut(acted: nat) | Raises(acted: nat) | Dies(acted: nat)

  /** Everything a run does not decide itself. `noise` is how much the destination's count
      of an id changes by other hands between the two reads. */
  datatype Env = Env(fate: Fates, end: End, noise: Mid -> int, planSize: nat, planFate: Fate, doneSize: nat, doneFate: Fate)

  datatype World = World(store: Store, log: Log<Entry>)

  datatype RunResult = BadRequest | WriteRefused | TimedOut | Raised | Died | Answered(results: map<Mid, Status>)

  predicate Accepts(r: Request) { 0 < |r.ids| <= MAX_TARGETS && r.src != r.dst }

  function Targets(r: Request): (ts: seq<Target>)
    ensures |ts| == |r.ids| && forall i :: 0 <= i < |ts| ==> ts[i] == Target(r.ids[i], r.src)
  {
    seq(|r.ids|, i requires 0 <= i < |r.ids| => Target(r.ids[i], r.src))
  }

  function PlanRecord(r: Request): Entry { Plan(r.receipt, r.op, Some(r.dst), Targets(r)) }

  function DoneRecord(r: Request, replies: map<Mid, Reply>): Entry {
    Done(r.receipt, map m | m in replies :: replies[m].status, Some(map m | m in replies :: LeftOf(replies[m])))
  }

  function BatchPairs(st: Store, r: Request): seq<Pair> { Pairs(st.In(r.src), r.ids) }

  /** The copies Mail had processed when the act ended. */
  function Processed(st: Store, r: Request, e: Env): seq<Pair> {
    var ps := BatchPairs(st, r);
    if e.end.Finishes? || e.end.acted >= |ps| then ps else ps[..e.end.acted]
  }

  /** An act that ended early had gone through as many copies as it says, from the first on;
      one that finished had gone through all. */
  lemma ProcessedExactly(st: Store, r: Request, e: Env)
    ensures Processed(st, r, e) <= BatchPairs(st, r)
    ensures e.end.Finishes? ==> Processed(st, r, e) == BatchPairs(st, r)
    ensures !e.end.Finishes? ==> |Processed(st, r, e)| == e.end.acted || (e.end.acted > |BatchPairs(st, r)| && Processed(st, r, e) == BatchPairs(st, r))
  {
  }

  function StoreAfter(st: Store, r: Request, e: Env): Store
    requires Accepts(r)
  {
    Scripted(st, r.src, r.dst, Processed(st, r, e), e.fate)
  }

  /** The destination's count of `mid` rose between the two bulk reads. */
  predicate Rose(st: Store, r: Request, e: Env, mid: Mid)
    requires Accepts(r)
  {
    Count(StoreAfter(st, r, e), r.dst, mid) + e.noise(mid) > Count(st, r.dst, mid)
  }

  /** The act's answers; after a timeout none exist and every target reads as unknown. */
  function Replies(st: Store, r: Request, e: Env): map<Mid, Reply>
    requires Accepts(r)
  {
    if e.end.Finishes?
    then Folded(r.op, st.In(r.src), r.ids, Answers(BatchPairs(st, r), e.fate), mid => Rose(st, r, e, mid))
    else map mid | mid in r.ids :: Plain(Uncertain)
  }

  function PlanWrite(r: Request, e: Env): Write<Entry> { Write(PlanRecord(r), e.planSize, e.planFate) }

  function DoneWrite(st: Store, r: Request, e: Env): Write<Entry>
    requires Accepts(r)
  {
    Write(DoneRecord(r, Replies(st, r, e)), e.doneSize, e.doneFate)
  }

  /** One `recoverable` call, start to finish, whatever its environment does. */
  function Run(w: World, r: Request, e: Env): (World, RunResult) {
    if !Accepts(r) then (w, BadRequest)
    else
      var planned := Written(w.log, PlanWrite(r, e));
      if !e.planFate.Completes? then (World(w.store, planned), WriteRefused)
      else
        var st := StoreAfter(w.store, r, e);
        match e.end
        case Raises(_) => (World(st, planned), Raised)
        case Dies(_) => (World(st, planned), Died)
        case TimesOut(_) => (World(st, Written(planned, DoneWrite(w.store, r, e))), TimedOut)
        case Finishes =>
          (World(st, Written(planned, DoneWrite(w.store, r, e))),
           Answered(map m | m in Replies(w.store, r, e) :: Replies(w.store, r, e)[m].status))
  }

  /** The done record: under the run's receipt, for every requested id and no other, the status
      the caller is told, and after a timeout that nothing is known. */
  lemma DoneRecordExactly(w: World, r: Request, e: Env)
    requires Accepts(r)
    ensures var d := DoneWrite(w.store, r, e).record;
      && d.Done? && d.receipt == r.receipt && d.left.Some?
      && (forall m :: m in d.results <==> m in r.ids) && (forall m :: m in d.left.value <==> m in r.ids)
      && (Run(w, r, e).1.Answered? ==> d.results == Run(w, r, e).1.results)
      && (!e.end.Finishes? ==> forall m :: m in r.ids ==> d.results[m] == Uncertain && d.left.value[m] == Unsure)
  {
    hide Folded, StoreAfter, Written;
    RepliesForAll(w.store, r, e);
  }

  lemma RepliesForAll(st: Store, r: Request, e: Env)
    requires Accepts(r)
    ensures forall m :: m in Replies(st, r, e) <==> m in r.ids
  {
  }

  // ---------------------------------------------------------------- reading a receipt back

  /** The newest plan of a receipt. */
  function NewestPlan(s: seq<Entry>, rid: Receipt): Option<Entry> {
    if s == [] then None
    else var last := s[|s| - 1];
      if Names(last, rid) && last.Plan? then Some(last) else NewestPlan(s[..|s| - 1], rid)
  }

  /** The newest non-empty per-id outcomes of a receipt. */
  function NewestOutcomes(s: seq<Entry>, rid: Receipt): map<Mid, Status> {
    if s == [] then map[]
    else var last := s[|s| - 1];
      if Names(last, rid) && last.Done? && last.results != map[] then last.results
      else NewestOutcomes(s[..|s| - 1], rid)
  }

  /** The `left_source` map of the newest done record; None when there is none to read. */
  function NewestLeft(s: seq<Entry>, rid: Receipt): Option<map<Mid, LeftSource>> {
    if s == [] then None
    else var last := s[|s| - 1];
      if Names(last, rid) && last.Done? then last.left else NewestLeft(s[..|s| - 1], rid)
  }

  method FindReceipt(s: seq<Entry>, rid: Receipt) returns (plan: Option<Entry>, outcomes: map<Mid, Status>)
    ensures plan == NewestPlan(s, rid) && outcomes == NewestOutcomes(s, rid)
  {
    plan, outcomes := None, map[];
    var i := |s|;
    assert s[..i] == s;
    while i > 0
      invariant 0 <= i <= |s|
      invariant NewestPlan(s, rid) == if plan.Some? then plan else NewestPlan(s[..i], rid)
      invariant NewestOutcomes(s, rid) == if outcomes != map[] then outcomes else NewestOutcomes(s[..i], rid)
    {
      i := i - 1;
      assert s[..i + 1][..i] == s[..i];
      if Names(s[i], rid) {
        if s[i].Plan? && plan.None? {
          plan := Some(s[i]);
        } else if s[i].Done? && outcomes == map[] {
          outcomes := s[i].results;
        }
      }
    }
  }

  method LeftSources(s: seq<Entry>, rid: Receipt) returns (left: Option<map<Mid, LeftSource>>)
    ensures left == NewestLeft(s, rid)
  {
    var i := |s|;
    assert s[..i] == s;
    while i > 0
      invariant 0 <= i <= |s|
      invariant NewestLeft(s, rid) == NewestLeft(s[..i], rid)
    {
      i := i - 1;
      assert s[..i + 1][..i] == s[..i];
      if Names(s[i], rid) && s[i].Done? {
        return s[i].left;
      }
    }
    left := None;
  }

  datatype UndoAnswer = NoReceipt | NotReplayable | NothingToRestore | Replay(destination: Box, targets: seq<Target>)

  /** Is a planned target moved back? */
  predicate Replays(id: Mid, left: Option<map<Mid, LeftSource>>, outcomes: map<Mid, Status>) {
    match left
    case Some(l) => (if id in l then l[id] else Unsure) != Stayed
    case None => id !in outcomes || outcomes[id] == Ok || outcomes[id] == Uncertain
  }

  function UndoPlan(s: seq<Entry>, rid: Receipt): UndoAnswer {
    match NewestPlan(s, rid)
    case None => NoReceipt
    case Some(plan) =>
      if !plan.Plan? || plan.destination.None? then NotReplayable
      else
        var left, outcomes := NewestLeft(s, rid), NewestOutcomes(s, rid);
        var ts := Filter(plan.targets, (t: Target) => Replays(t.id, left, outcomes));
        if ts == [] then NothingToRestore else Replay(plan.destination.value, ts)
  }

  datatype UndoResult = Refused(why: UndoAnswer) | SpansFolders | Replayed(moved: RunResult)

  function Ids(ts: seq<Target>): (ids: seq<Mid>)
    ensures |ids| == |ts| && forall i :: 0 <= i < |ts| ==> ids[i] == ts[i].id
  {
    seq(|ts|, i requires 0 <= i < |ts| => ts[i].id)
  }

  /** The move that undoes: from where the batch is now, back to the folder it came from. */
  function BackRequest(destination: Box, targets: seq<Target>, newReceipt: Receipt): Request
    requires targets != []
  {
    Request(Move, newReceipt, destination, targets[0].folder, Ids(targets))
  }

  function UndoRun(w: World, rid: Receipt, newReceipt: Receipt, e: Env): (World, UndoResult) {
    match UndoPlan(ReadAll(w.log), rid)
    case Replay(destination, targets) =>
      if targets == [] then (w, Refused(NothingToRestore))
      else if exists t :: t in targets && t.folder != targets[0].folder then (w, SpansFolders)
      else var (after, moved) := Run(w, BackRequest(destination, targets, newReceipt), e); (after, Replayed(moved))
    case why => (w, Refused(why))
  }

  /** Mail and the log, changed in place by each destructive write. */
  class Plane {
    var store: Store
    const log: RotatingLog<Entry>

    constructor (store: Store)
      ensures this.store == store && fresh(log) && log.State() == Log([[]], [[]])
    {
      this.store := store;
      log := new RotatingLog<Entry>();
    }

    function State(): World reads this, log { World(store, log.State()) }

    /** `recoverable` around the act of `move_mail` or `trash_mail`. */
    method Recoverable(r: Request, e: Env) returns (result: RunResult)
      modifies this, log
      ensures (State(), result) == Run(old(State()), r, e)
    {
      if |r.ids| == 0 || |r.ids| > MAX_TARGETS || r.src == r.dst {
        return BadRequest;
      }
      var logged := log.AuditWrite(PlanWrite(r, e));
      if !logged {
        return WriteRefused;
      }
      var before := store;
      var copies := Copies(before.In(r.src), r.ids);
      var pairs := Processed(before, r, e);
      var after, answers := RunScript(before, r.src, r.dst, pairs, e.fate);
      store := after;
      if e.end.Raises? {
        return Raised;
      }
      if e.end.Dies? {
        return Died;
      }
      var replies := map mid | mid in r.ids :: Plain(Uncertain);
      if e.end.Finishes? {
        replies := FoldAnswers(r.op, copies, r.ids, answers, mid => Rose(before, r, e, mid), before.In(r.src));
      }
      assert replies == Replies(before, r, e);
      var _ := log.AuditWrite(Write(DoneRecord(r, replies), e.doneSize, e.doneFate));
      if e.end.TimesOut? {
        return TimedOut;
      }
      result := Answered(map m | m in replies :: replies[m].status);
    }

    /** `undo`, both log files readable: look the receipt up and move its targets back with an ordinary move. */
    method Undo(rid: Receipt, newReceipt: Receipt, e: Env) returns (result: UndoResult)
      modifies this, log
      ensures (State(), result) == UndoRun(old(State()), rid, newReceipt, e)
    {
      var records, _ := log.ReadBack(true, true);
      var plan, outcomes := FindReceipt(records, rid);
      var left := LeftSources(records, rid);
      if plan.None? {
        return Refused(NoReceipt);
      }
      if !plan.value.Plan? || plan.value.destination.None? {
        return Refused(NotReplayable);
      }
      var targets := Filter(plan.value.targets, (t: Target) => Replays(t.id, left, outcomes));
      if targets == [] {
        return Refused(NothingToRestore);
      }
      if exists t :: t in targets && t.folder != targets[0].folder {
        return SpansFolders;
      }
      var moved := Recoverable(BackRequest(plan.value.destination.value, targets, newReceipt), e);
      result := Replayed(moved);
    }
  }

  // ---------------------------------------------------------------- the log before the act

  /** Mail's store changes in a run only after `audit_write` said the plan was written, and
      then only for copies of the ids and only in the two mailboxes that plan names. */
  lemma NothingActsWithoutAPlan(w: World, r: Request, e: Env)
    requires w.store.Valid()
    ensures var (after, result) := Run(w, r, e);
      && (after.store != w.store ==> Accepts(r) && e.planFate.Completes?)
      && (result.WriteRefused? || result.BadRequest? ==> after.store == w.store)
      && (forall b :: b != r.src && b != r.dst ==> after.store.In(b) == w.store.In(b))
      && (forall m :: m !in r.ids ==> CopiesOf(after.store.In(r.src), m) == CopiesOf(w.store.In(r.src), m))
  {
    var (after, _) := Run(w, r, e);
    if Accepts(r) && e.planFate.Completes? {
      forall m | m !in r.ids ensures CopiesOf(after.store.In(r.src), m) == CopiesOf(w.store.In(r.src), m) {
        ForeignCopiesStay(w.store, r, e, m);
      }
    }
  }

  lemma ForeignCopiesStay(st: Store, r: Request, e: Env, m: Mid)
    requires st.Valid() && Accepts(r) && m !in r.ids
    ensures CopiesOf(StoreAfter(st, r, e).In(r.src), m) == CopiesOf(st.In(r.src), m)
  {
    var box := st.In(r.src);
    var gone := GoneNids(Processed(st, r, e), e.fate);
    PairsExactly(box, r.ids);
    forall n | n in CopiesOf(box, m) ensures n !in gone {
      if n in gone {
        var p :| p in Processed(st, r, e) && p.nid == n;
        CopiesDistinct(box, m, p.mid);
        assert false;
      }
    }
    CopiesKept(box, gone, m);
    KeepIdsCounts(CopiesOf(box, m), gone);
  }

  /** A source copy of `m` really left. */
  ghost predicate Lost(before: Store, after: Store, r: Request, m: Mid) {
    Count(after, r.src, m) < Count(before, r.src, m)
  }

  /** Whatever left its source is named, with the source as its folder, in the plan record
      that was appended first; and if that append started its own line, the record can
      still be read when the run ends, however it ends. */
  lemma WhateverLeftIsPlanned(w: World, r: Request, e: Env, m: Mid)
    requires w.store.Valid()
    requires Lost(w.store, Run(w, r, e).0.store, r, m)
    requires e.doneSize < AUDIT_MAX_BYTES
    ensures Target(m, r.src) in PlanRecord(r).targets && e.planFate.Completes?
    ensures Lands(w.log) ==> PlanRecord(r) in ClosedAll(Run(w, r, e).0.log)
  {
    NothingActsWithoutAPlan(w, r, e);
    var i :| 0 <= i < |r.ids| && r.ids[i] == m;
    assert Targets(r)[i] == Target(m, r.src);
    if Lands(w.log) {
      PlanIsRead(w, r, e, []);
    }
  }

  /** What the log holds after a run and then any further writes of other tools. */
  function LogLater(w: World, r: Request, e: Env, later: seq<Write<Entry>>): Log<Entry> {
    RunWrites(Run(w, r, e).0.log, later)
  }

  /** Bytes the log took after the plan record: the done record and everything later. */
  function NewerBytes(e: Env, later: seq<Write<Entry>>): nat { e.doneSize + 1 + TotalBytes(later) }

  lemma PlanIsRead(w: World, r: Request, e: Env, later: seq<Write<Entry>>)
    requires Accepts(r) && e.planFate.Completes? && Lands(w.log)
    requires NewerBytes(e, later) <= AUDIT_MAX_BYTES
    ensures PlanRecord(r) in ClosedAll(LogLater(w, r, e, later))
  {
    var planned := Written(w.log, PlanWrite(r, e));
    Extended(Rotated(w.log).live, PlanRecord(r), e.planSize, e.planSize + 1);
    if e.end.Finishes? || e.end.TimesOut? {
      RecordStaysUntilThreshold(planned, PlanRecord(r), 0, [DoneWrite(w.store, r, e)] + later);
      assert ([DoneWrite(w.store, r, e)] + later)[1..] == later;
    } else {
      RecordStaysUntilThreshold(planned, PlanRecord(r), 0, later);
    }
  }

  lemma DoneIsRead(w: World, r: Request, e: Env, later: seq<Write<Entry>>)
    requires Accepts(r) && e.planFate.Completes? && (e.end.Finishes? || e.end.TimesOut?) && e.doneFate.Completes?
    requires NewerBytes(e, later) <= AUDIT_MAX_BYTES
    ensures DoneRecord(r, Replies(w.store, r, e)) in ClosedAll(LogLater(w, r, e, later))
  {
    var planned := Written(w.log, PlanWrite(r, e));
    var done := DoneWrite(w.store, r, e);
    Extended(Rotated(planned).live, done.record, done.size, done.size + 1);
    RecordStaysUntilThreshold(Written(planned, done), done.record, 0, later);
  }

  lemma ClosedIsRead(log: Log<Entry>, x: Entry)
    requires x in ClosedAll(log)
    ensures x in ReadAll(log)
  {
    ReadsClosedThenTail(log.backup);
    ReadsClosedThenTail(log.live);
  }

  // ---------------------------------------------------------------- what undo returns

  /** With one plan and at most one done record to find, finding them is a membership test. */
  lemma {:induction false} FindsThem(s: seq<Entry>, rid: Receipt, plan: Entry, done: Entry)
    requires plan.Plan? && done.Done? && done.results != map[]
    requires forall x :: x in s && Names(x, rid) ==> x == plan || x == done
    requires Names(plan, rid) && Names(done, rid)
    ensures NewestPlan(s, rid) == if plan in s then Some(plan) else None
    ensures NewestOutcomes(s, rid) == if done in s then done.results else map[]
    ensures NewestLeft(s, rid) == if done in s then done.left else None
  {
    if s != [] {
      var init := s[..|s| - 1];
      assert s == init + [s[|s| - 1]];
      FindsThem(init, rid, plan, done);
    }
  }

  /** Other tools' writes: none of them carries this receipt. */
  ghost predicate Foreign(ws: seq<Write<Entry>>, rid: Receipt) { forall w :: w in ws ==> !Names(w.record, rid) }
  ghost predicate FreshReceipt(log: Log<Entry>, rid: Receipt) { forall x :: x in ReadAll(log) ==> !Names(x, rid) }

  /** The done record was written and can be read. */
  ghost predicate DoneReadable(w: World, r: Request, e: Env, later: seq<Write<Entry>>)
    requires Accepts(r)
  {
    (e.end.Finishes? || e.end.TimesOut?)
    && DoneRecord(r, Replies(w.store, r, e)) in ReadAll(LogLater(w, r, e, later))
  }

  /** What the fold recorded about `m` leaves it in the replay. */
  predicate MayHaveLeft(st: Store, r: Request, e: Env, m: Mid)
    requires Accepts(r) && m in r.ids
  {
    LeftOf(Replies(st, r, e)[m]) != Stayed
  }

  /** The run was planned on a line of its own, and no more than the rotation threshold of
      other tools' records was logged since. */
  ghost predicate Findable(w: World, r: Request, e: Env, later: seq<Write<Entry>>) {
    && Accepts(r) && e.planFate.Completes? && Lands(w.log)
    && FreshReceipt(w.log, r.receipt) && Foreign(later, r.receipt)
    && NewerBytes(e, later) <= AUDIT_MAX_BYTES
  }

  /** With no readable done record everything planned is replayed; with one, what may have left. */
  ghost predicate Kept(w: World, r: Request, e: Env, later: seq<Write<Entry>>, t: Target)
    requires Accepts(r)
  {
    DoneReadable(w, r, e, later) ==> t.id in r.ids && MayHaveLeft(w.store, r, e, t.id)
  }

  ghost function ToRestore(w: World, r: Request, e: Env, later: seq<Write<Entry>>): seq<Target>
    requires Accepts(r)
  {
    Filter(Targets(r), (t: Target) => Kept(w, r, e, later, t))
  }

  /** Every run and every stopping point: as long as the plan started its own line and no
      more than the rotation threshold has been logged since, `undo_plan` finds it and
      replays exactly the targets whose recorded answer is not "stayed"; with no readable
      done record (a crash, another error, a failed or torn done write) it replays them all. */
  lemma UndoReplaysExactly(w: World, r: Request, e: Env, later: seq<Write<Entry>>)
    requires Findable(w, r, e, later)
    ensures UndoPlan(ReadAll(LogLater(w, r, e, later)), r.receipt)
      == if ToRestore(w, r, e, later) == [] then NothingToRestore else Replay(r.dst, ToRestore(w, r, e, later))
    ensures forall t :: t in ToRestore(w, r, e, later) <==> t in Targets(r) && Kept(w, r, e, later, t)
    ensures DoneReadable(w, r, e, later) <== (e.end.Finishes? || e.end.TimesOut?) && e.doneFate.Completes?
    ensures DoneReadable(w, r, e, later) ==> e.end.Finishes? || e.end.TimesOut?
  {
    hide UndoPlan, ReadAll, LogLater, Lands;
    var plan, done := PlanRecord(r), DoneRecord(r, Replies(w.store, r, e));
    var s := ReadAll(LogLater(w, r, e, later));
    PlanIsRead(w, r, e, later);
    ClosedIsRead(LogLater(w, r, e, later), plan);
    if (e.end.Finishes? || e.end.TimesOut?) && e.doneFate.Completes? {
      DoneIsRead(w, r, e, later);
      ClosedIsRead(LogLater(w, r, e, later), done);
    }
    OnlyOurRecords(w, r, e, later);
    DoneHasResults(w.store, r, e);
    forall t | t in Targets(r) ensures Kept(w, r, e, later, t) <==> (done in s ==> done.left.value[t.id] != Stayed) {
      DoneRecords(w, r, e, later, t);
    }
    UndoFromRecords(s, r.receipt, plan, done, (t: Target) => Kept(w, r, e, later, t));
  }

  lemma DoneHasResults(st: Store, r: Request, e: Env)
    requires Accepts(r)
    ensures var done := DoneRecord(r, Replies(st, r, e));
      done.results != map[] && forall m :: m in r.ids ==> m in done.left.value && done.left.value[m] == LeftOf(Replies(st, r, e)[m])
  {
    assert r.ids[0] in DoneRecord(r, Replies(st, r, e)).results;
  }

  lemma DoneRecords(w: World, r: Request, e: Env, later: seq<Write<Entry>>, t: Target)
    requires Accepts(r) && t in Targets(r)
    requires DoneRecord(r, Replies(w.store, r, e)) in ReadAll(LogLater(w, r, e, later)) ==> e.end.Finishes? || e.end.TimesOut?
    ensures var done := DoneRecord(r, Replies(w.store, r, e));
      t.id in done.left.value &&
      (Kept(w, r, e, later, t) <==> (done in ReadAll(LogLater(w, r, e, later)) ==> done.left.value[t.id] != Stayed))
  {
    hide ReadAll, LogLater;
    DoneHasResults(w.store, r, e);
  }

  /** What undo makes of a plan and at most one done record. */
  lemma UndoFromRecords(s: seq<Entry>, rid: Receipt, plan: Entry, done: Entry, keep: Target -> bool)
    requires plan.Plan? && plan.destination.Some? && done.Done? && done.results != map[] && done.left.Some?
    requires forall x :: x in s && Names(x, rid) ==> x == plan || x == done
    requires Names(plan, rid) && Names(done, rid) && plan in s
    requires forall t :: t in plan.targets ==>
      t.id in done.left.value && (keep(t) <==> (done in s ==> done.left.value[t.id] != Stayed))
    ensures var ts := Filter(plan.targets, keep);
      UndoPlan(s, rid) == if ts == [] then NothingToRestore else Replay(plan.destination.value, ts)
  {
    FindsThem(s, rid, plan, done);
    var left, outcomes := NewestLeft(s, rid), NewestOutcomes(s, rid);
    SameFilter(plan.targets, (t: Target) => Replays(t.id, left, outcomes), keep);
  }

  /** A receipt from before `left_source`, whose done record holds statuses alone, replays what
      was answered `ok` or `unknown` or not answered at all. */
  lemma OldReceiptReplaysExactly(s: seq<Entry>, rid: Receipt, plan: Entry, done: Entry, t: Target)
    requires plan.Plan? && plan.destination.Some? && done.Done? && done.results != map[] && done.left.None?
    requires forall x :: x in s && Names(x, rid) ==> x == plan || x == done
    requires Names(plan, rid) && Names(done, rid) && plan in s && done in s
    ensures var answer := UndoPlan(s, rid);
      (answer.Replay? && answer.destination == plan.destination.value && t in answer.targets)
      <==> t in plan.targets && (t.id in done.results ==> done.results[t.id] == Ok || done.results[t.id] == Uncertain)
  {
    FindsThem(s, rid, plan, done);
  }

  /** What the field added: whatever the old rule replays the new one does too, and beyond it
      exactly the answers that carry their own verdict, a partial move among them. */
  lemma LeftSourceAddsPartialMoves(op: Op, rs: seq<Report>, rose: bool)
    ensures var r := Verdict(op, rs, rose); var before := r.status == Ok || r.status == Uncertain;
      && (before ==> LeftOf(r) != Stayed)
      && (LeftOf(r) != Stayed && !before <==> r.Outcome?)
    ensures SomeError(rs) && SomeActs(op, rs) ==> LeftOf(Verdict(op, rs, rose)) == Left
  {
    FirstErrorIff(rs);
    ActedCountIff(op, rs);
  }

  /** A done record is only ever read back if one was written. */
  lemma OnlyOurRecords(w: World, r: Request, e: Env, later: seq<Write<Entry>>)
    requires Accepts(r) && e.planFate.Completes?
    requires FreshReceipt(w.log, r.receipt) && Foreign(later, r.receipt)
    ensures forall x :: x in ReadAll(LogLater(w, r, e, later)) && Names(x, r.receipt) ==>
      x == PlanRecord(r) || (x == DoneRecord(r, Replies(w.store, r, e)) && (e.end.Finishes? || e.end.TimesOut?))
  {
    var ws := [PlanWrite(r, e)] + (if e.end.Finishes? || e.end.TimesOut? then [DoneWrite(w.store, r, e)] else []) + later;
    assert ws[1..] == (if e.end.Finishes? || e.end.TimesOut? then [DoneWrite(w.store, r, e)] else []) + later;
    if e.end.Finishes? || e.end.TimesOut? {
      assert ws[1..][1..] == later;
    }
    assert RunWrites(w.log, ws) == LogLater(w, r, e, later);
    NothingIsInvented(w.log, ws);
  }

  lemma {:induction false} SameFilter(s: seq<Target>, p: Target -> bool, q: Target -> bool)
    requires forall t :: t in s ==> p(t) == q(t)
    ensures Filter(s, p) == Filter(s, q)
  {
    if s != [] { SameFilter(s[1..], p, q); }
  }

  // ---------------------------------------------------------------- undo of any log whatever

  predicate IsPlan(x: Entry, rid: Receipt) { x.Plan? && x.receipt == rid }
  predicate IsDone(x: Entry, rid: Receipt) { x.Done? && x.receipt == rid }
  predicate IsAnswers(x: Entry, rid: Receipt) { x.Done? && x.receipt == rid && x.results != map[] }

  /** Place `i` holds the newest plan of the receipt; its newest done record; its newest answers. */
  ghost predicate LastPlan(s: seq<Entry>, rid: Receipt, i: int) {
    0 <= i < |s| && IsPlan(s[i], rid) && forall j :: i < j < |s| ==> !IsPlan(s[j], rid)
  }

  ghost predicate LastDone(s: seq<Entry>, rid: Receipt, i: int) {
    0 <= i < |s| && IsDone(s[i], rid) && forall j :: i < j < |s| ==> !IsDone(s[j], rid)
  }

  ghost predicate LastAnswers(s: seq<Entry>, rid: Receipt, i: int) {
    0 <= i < |s| && IsAnswers(s[i], rid) && forall j :: i < j < |s| ==> !IsAnswers(s[j], rid)
  }

  lemma {:induction false} NewestPlanExactly(s: seq<Entry>, rid: Receipt) returns (i: int)
    ensures if i < 0 then NewestPlan(s, rid) == None && forall j :: 0 <= j < |s| ==> !IsPlan(s[j], rid)
      else LastPlan(s, rid, i) && NewestPlan(s, rid) == Some(s[i])
  {
    i := |s| - 1;
    if s != [] && !IsPlan(s[i], rid) { i := NewestPlanExactly(s[..i], rid); }
  }

  lemma {:induction false} NewestLeftExactly(s: seq<Entry>, rid: Receipt) returns (i: int)
    ensures if i < 0 then NewestLeft(s, rid) == None && forall j :: 0 <= j < |s| ==> !IsDone(s[j], rid)
      else LastDone(s, rid, i) && NewestLeft(s, rid) == s[i].left
  {
    i := |s| - 1;
    if s != [] && !IsDone(s[i], rid) { i := NewestLeftExactly(s[..i], rid); }
  }

  lemma {:induction false} NewestOutcomesExactly(s: seq<Entry>, rid: Receipt) returns (i: int)
    ensures if i < 0 then NewestOutcomes(s, rid) == map[] && forall j :: 0 <= j < |s| ==> !IsAnswers(s[j], rid)
      else LastAnswers(s, rid, i) && NewestOutcomes(s, rid) == s[i].results
  {
    i := |s| - 1;
    if s != [] && !IsAnswers(s[i], rid) { i := NewestOutcomesExactly(s[..i], rid); }
  }

  /** As far as the receipt's records tell, the message may be out of its source: its newest done
      record does not say it stayed; or that record holds no such verdicts, or there is none,
      and the newest answers, if any, have `ok`, `unknown` or nothing for it. */
  ghost predicate MayBeAway(s: seq<Entry>, rid: Receipt, id: Mid) {
    && (forall i :: LastDone(s, rid, i) && s[i].left.Some? && id in s[i].left.value ==> s[i].left.value[id] != Stayed)
    && ((forall i :: LastDone(s, rid, i) ==> s[i].left.None?) ==>
          forall i :: LastAnswers(s, rid, i) && id in s[i].results ==> s[i].results[id] == Ok || s[i].results[id] == Uncertain)
  }

  lemma OnlyLast(s: seq<Entry>, rid: Receipt, i: int, j: int)
    ensures if i < 0 && (forall k :: 0 <= k < |s| ==> !IsDone(s[k], rid)) then forall k :: !LastDone(s, rid, k)
      else LastDone(s, rid, i) ==> forall k :: LastDone(s, rid, k) ==> k == i
    ensures if j < 0 && (forall k :: 0 <= k < |s| ==> !IsAnswers(s[k], rid)) then forall k :: !LastAnswers(s, rid, k)
      else LastAnswers(s, rid, j) ==> forall k :: LastAnswers(s, rid, k) ==> k == j
  {
  }

  lemma ReplaysExactly(s: seq<Entry>, rid: Receipt, id: Mid)
    ensures Replays(id, NewestLeft(s, rid), NewestOutcomes(s, rid)) <==> MayBeAway(s, rid, id)
  {
    hide NewestLeft, NewestOutcomes;
    var i := NewestLeftExactly(s, rid);
    var j := NewestOutcomesExactly(s, rid);
    OnlyLast(s, rid, i, j);
    hide LastDone, LastAnswers;
  }

  /** `undo_plan` on any log: without a plan there is no receipt; a plan without a destination
      cannot be replayed; else exactly the planned targets that may be away are replayed. */
  lemma UndoPlanExactly(s: seq<Entry>, rid: Receipt)
    ensures UndoPlan(s, rid).NoReceipt? <==> forall i :: 0 <= i < |s| ==> !IsPlan(s[i], rid)
    ensures forall i :: LastPlan(s, rid, i) ==> PlanAnswered(s, rid, s[i], UndoPlan(s, rid))
  {
    hide NewestPlan, NewestLeft, NewestOutcomes, MayBeAway, Replays;
    var i := NewestPlanExactly(s, rid);
    assert i >= 0 ==> forall j :: LastPlan(s, rid, j) ==> j == i;
    if i >= 0 { PlanIsAnswered(s, rid, s[i]); }
  }

  ghost predicate PlanAnswered(s: seq<Entry>, rid: Receipt, plan: Entry, answer: UndoAnswer)
    requires plan.Plan?
  {
    && (answer.NotReplayable? <==> plan.destination.None?)
    && (answer.Replay? ==> plan.destination == Some(answer.destination) && answer.targets != [])
    && (forall t :: (answer.Replay? && t in answer.targets) <==> plan.destination.Some? && t in plan.targets && MayBeAway(s, rid, t.id))
    && (answer.NothingToRestore? <==> plan.destination.Some? && forall t :: t in plan.targets ==> !MayBeAway(s, rid, t.id))
  }

  lemma PlanIsAnswered(s: seq<Entry>, rid: Receipt, plan: Entry)
    requires NewestPlan(s, rid) == Some(plan) && plan.Plan?
    ensures PlanAnswered(s, rid, plan, UndoPlan(s, rid))
  {
    forall id { ReplaysExactly(s, rid, id); }
    hide NewestPlan, NewestLeft, NewestOutcomes, MayBeAway, Replays;
    var left, outcomes := NewestLeft(s, rid), NewestOutcomes(s, rid);
    var ts := Filter(plan.targets, (t: Target) => Replays(t.id, left, outcomes));
    assert forall t :: t in ts <==> t in plan.targets && Replays(t.id, left, outcomes);
    assert ts != [] ==> ts[0] in ts;
  }

  /** `undo` on any log: a refusal changes nothing, several source folders are refused, and
      otherwise it is one recoverable move from the destination back to the one folder. */
  lemma UndoRunExactly(w: World, rid: Receipt, newReceipt: Receipt, e: Env)
    ensures var (after, result) := UndoRun(w, rid, newReceipt, e); var answer := UndoPlan(ReadAll(w.log), rid);
      && (result.Replayed? || after == w)
      && (result.Refused? <==> !answer.Replay?) && (result.Refused? ==> result.why == answer)
      && (result.SpansFolders? <==> answer.Replay? && exists t, u :: t in answer.targets && u in answer.targets && t.folder != u.folder)
    ensures var (after, result) := UndoRun(w, rid, newReceipt, e); var answer := UndoPlan(ReadAll(w.log), rid);
      result.Replayed? ==> forall t :: t in answer.targets ==>
        var back := Request(Move, newReceipt, answer.destination, t.folder, Ids(answer.targets));
        after == Run(w, back, e).0 && result.moved == Run(w, back, e).1
  {
    hide Run, ReadAll;
    UndoAnswerIsNotEmpty(ReadAll(w.log), rid);
    hide UndoPlan;
    var answer := UndoPlan(ReadAll(w.log), rid);
    assert answer.Replay? ==> answer.targets[0] in answer.targets;
  }

  lemma UndoAnswerIsNotEmpty(s: seq<Entry>, rid: Receipt)
    ensures UndoPlan(s, rid).Replay? ==> UndoPlan(s, rid).targets != []
  {
  }
}
