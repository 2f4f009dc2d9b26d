/**
 What the plane promises over whole runs: which messages an undo can miss, that every id
 is answered once and on its own copies alone, and that Mail's copies are conserved.
 */
module MailUndo {
  import opened Prelude
  import opened AuditLog
  import opened MailAct
  import opened MailRecover

  // ---------------------------------------------------------------- finding the receipt

  /** The receipt of a batch that was acted on can be found exactly when its plan line
      started a line of its own; after a torn line the batch is moved and `undo` has no
      receipt, although the plan's append answered True. */
  lemma ReceiptIsFoundIffPlanLands(w: World, r: Request, e: Env, later: seq<Write<Entry>>)
    requires Accepts(r) && e.planFate.Completes?
    requires FreshReceipt(w.log, r.receipt) && Foreign(later, r.receipt)
    requires NewerBytes(e, later) <= AUDIT_MAX_BYTES
    ensures UndoPlan(ReadAll(LogLater(w, r, e, later)), r.receipt) != NoReceipt <==> Lands(w.log)
  {
    assert Lands(w.log) ==> Findable(w, r, e, later);
    hide LogLater, ReadAll, UndoPlan, Lands, Findable;
    if Lands(w.log) {
      UndoReplaysExactly(w, r, e, later);
    } else {
      TornPlanIsNotRead(w, r, e, later);
      OnlyOurRecords(w, r, e, later);
      DoneHasResults(w.store, r, e);
      NoPlanNoReceipt(ReadAll(LogLater(w, r, e, later)), r.receipt, PlanRecord(r), DoneRecord(r, Replies(w.store, r, e)));
    }
  }

  lemma NoPlanNoReceipt(s: seq<Entry>, rid: Receipt, plan: Entry, done: Entry)
    requires plan.Plan? && done.Done? && done.results != map[] && plan !in s
    requires Names(plan, rid) && Names(done, rid)
    requires forall x :: x in s && Names(x, rid) ==> x == plan || x == done
    ensures UndoPlan(s, rid) == NoReceipt
  {
    FindsThem(s, rid, plan, done);
  }

  /** A plan whose append started in the middle of a torn line is in no line read back. */
  lemma TornPlanIsNotRead(w: World, r: Request, e: Env, later: seq<Write<Entry>>)
    requires Accepts(r) && e.planFate.Completes? && !Lands(w.log)
    requires FreshReceipt(w.log, r.receipt) && Foreign(later, r.receipt)
    ensures PlanRecord(r) !in ReadAll(LogLater(w, r, e, later))
  {
    var planned := Written(w.log, PlanWrite(r, e));
    AnsweredAppendIsReadIffItLands(w.log, PlanWrite(r, e));
    var answered := e.end.Finishes? || e.end.TimesOut?;
    var ws := (if answered then [DoneWrite(w.store, r, e)] else []) + later;
    assert answered ==> ws[1..] == later;
    assert !answered ==> ws == later;
    assert RunWrites(planned, ws) == LogLater(w, r, e, later);
    NothingIsInvented(planned, ws);
  }

  // ---------------------------------------------------------------- the answers

  function FatesOf(nids: seq<nat>, fate: Fates): (rs: seq<Report>)
    ensures |rs| == |nids| && forall i :: 0 <= i < |nids| ==> rs[i] == fate(nids[i]).report
  {
    seq(|nids|, i requires 0 <= i < |nids| => fate(nids[i]).report)
  }

  /** What Mail reported on the copies of `m`. */
  function OwnReports(st: Store, r: Request, e: Env, m: Mid): seq<Report> {
    FatesOf(CopiesOf(st.In(r.src), m), e.fate)
  }

  /** Each requested id gets exactly one answer, folded from the reports on its own copies. */
  lemma AnsweredFromOwnCopies(st: Store, r: Request, e: Env)
    requires Accepts(r) && e.end.Finishes?
    ensures Replies(st, r, e).Keys == set m | m in r.ids
    ensures forall m :: m in r.ids ==>
      Replies(st, r, e)[m] == Verdict(r.op, OwnReports(st, r, e, m), Rose(st, r, e, m))
  {
    PairsExactly(st.In(r.src), r.ids);
    var answers := Answers(BatchPairs(st, r), e.fate);
    forall m | m in r.ids
      ensures ReportsFor(CopiesOf(st.In(r.src), m), answers) == OwnReports(st, r, e, m)
    {
      forall n | n in CopiesOf(st.In(r.src), m) ensures n in answers && answers[n] == e.fate(n).report {
        assert Pair(m, n) in BatchPairs(st, r);
      }
    }
  }

  ghost predicate EveryCopyActed(st: Store, r: Request, e: Env, m: Mid)
    requires Accepts(r)
  {
    && Count(st, r.src, m) > 0
    && (forall n :: n in CopiesOf(st.In(r.src), m) ==> Acts(r.op, e.fate(n).report))
    && (Rose(st, r, e, m) || (r.op.Trash? && forall n :: n in CopiesOf(st.In(r.src), m) ==> e.fate(n).report.Gone?))
  }

  /** `ok` is reported exactly for a held id all of whose copies Mail reported as acted on and
      whose destination count rose (or, for Trash, all of whose copies are provably gone). */
  lemma OkMeansEveryCopyActed(st: Store, r: Request, e: Env, m: Mid)
    requires Accepts(r) && e.end.Finishes? && m in r.ids
    ensures Replies(st, r, e)[m].status == Ok <==> EveryCopyActed(st, r, e, m)
  {
    AnsweredFromOwnCopies(st, r, e);
    var nids, rs := CopiesOf(st.In(r.src), m), OwnReports(st, r, e, m);
    OkExactly(r.op, rs, Rose(st, r, e, m));
    forall n | n in nids ensures e.fate(n).report in rs {
      var i :| 0 <= i < |nids| && nids[i] == n;
      assert rs[i] == e.fate(n).report;
    }
    forall x | x in rs ensures exists n :: n in nids && e.fate(n).report == x {
      var i :| 0 <= i < |rs| && rs[i] == x;
      assert nids[i] in nids;
    }
  }

  /** The reports on an id's copies that the fold reads, in mailbox order. */
  lemma OwnReportsExactly(st: Store, r: Request, e: Env, m: Mid)
    ensures var nids, rs := CopiesOf(st.In(r.src), m), OwnReports(st, r, e, m);
      |rs| == |nids| && (forall i :: 0 <= i < |rs| ==> rs[i] == e.fate(nids[i]).report)
      && forall n :: n in nids <==> Copy(n, Some(m)) in st.In(r.src)
  {
    CopiesExactly(st.In(r.src), m);
  }

  /** The destination's count of `m`, as the second bulk read finds it, is above the first's. */
  ghost predicate CountRose(w: World, r: Request, e: Env, m: Mid) {
    Count(Run(w, r, e).0.store, r.dst, m) + e.noise(m) > Count(w.store, r.dst, m)
  }

  /** What a run returns: a refusal before anything else for an empty or oversized batch or one
      mailbox for both ends, the log's refusal next, and else what the act's ending says. */
  lemma RunReturnsExactly(w: World, r: Request, e: Env)
    ensures var result, fits := Run(w, r, e).1, 0 < |r.ids| <= 25 && r.src != r.dst;
      && (result.BadRequest? <==> !fits) && (result.WriteRefused? <==> fits && !e.planFate.Completes?)
      && (result.TimedOut? <==> fits && e.planFate.Completes? && e.end.TimesOut?)
      && (result.Raised? <==> fits && e.planFate.Completes? && e.end.Raises?)
      && (result.Died? <==> fits && e.planFate.Completes? && e.end.Dies?)
      && (result.Answered? <==> fits && e.planFate.Completes? && e.end.Finishes?)
  {
    hide Written, Replies, StoreAfter;
  }

  /** What the caller is told: every requested id and no other is answered, each with the status
      its own copies' reports and its destination count call for, to the text and the numbers. */
  lemma CallerIsToldExactly(w: World, r: Request, e: Env)
    requires Run(w, r, e).1.Answered?
    ensures var results := Run(w, r, e).1.results;
      && results.Keys == (set m | m in r.ids)
      && (forall m :: m in r.ids ==> Told(r.op, OwnReports(w.store, r, e, m), CountRose(w, r, e, m), results[m]))
      && (forall m :: m in r.ids ==> (results[m] == Ok <==> EveryCopyActed(w.store, r, e, m)))
  {
    StoreOfRun(w, r, e);
    hide Written, Count, Acts, StoreAfter, Told, Verdict;
    AnsweredFromOwnCopies(w.store, r, e);
    forall m | m in r.ids ensures Replies(w.store, r, e)[m].status == Ok <==> EveryCopyActed(w.store, r, e, m) {
      OkMeansEveryCopyActed(w.store, r, e, m);
    }
    forall m | m in r.ids
      ensures Told(r.op, OwnReports(w.store, r, e, m), CountRose(w, r, e, m), Replies(w.store, r, e)[m].status)
    {
      ToldExactly(r.op, OwnReports(w.store, r, e, m), Rose(w.store, r, e, m));
    }
  }

  // ---------------------------------------------------------------- counting copies

  function LandedCount(pairs: seq<Pair>, fate: Fates, m: Mid): nat {
    if pairs == [] then 0 else
      (if pairs[0].mid == m && fate(pairs[0].nid).lands then 1 else 0) + LandedCount(pairs[1..], fate, m)
  }

  lemma {:induction false} LandedCounts(pairs: seq<Pair>, fate: Fates, next: nat, m: Mid)
    ensures |CopiesOf(Landed(pairs, fate, next), m)| == LandedCount(pairs, fate, m)
  {
    if pairs != [] {
      if fate(pairs[0].nid).lands {
        LandedCounts(pairs[1..], fate, next + 1, m);
        var c := Copy(next, Some(pairs[0].mid));
        CopiesConcat([c], Landed(pairs[1..], fate, next + 1), m);
        assert CopiesOf([c], m) == (if c.mid == Some(m) then [c.nid] else []) + CopiesOf([], m);
      } else {
        LandedCounts(pairs[1..], fate, next, m);
      }
    }
  }

  lemma {:induction false} LandedCountSnoc(pairs: seq<Pair>, p: Pair, fate: Fates, m: Mid)
    ensures LandedCount(pairs + [p], fate, m)
      == LandedCount(pairs, fate, m) + (if p.mid == m && fate(p.nid).lands then 1 else 0)
  {
    if pairs != [] {
      assert (pairs + [p])[1..] == pairs[1..] + [p];
      LandedCountSnoc(pairs[1..], p, fate, m);
    } else {
      assert [p][1..] == [];
    }
  }

  /** Every copy Mail takes from the box is one it lands elsewhere. */
  ghost predicate Faithful(e: Env) { forall n :: e.fate(n).leaves == e.fate(n).lands }

  ghost predicate DistinctPairs(pairs: seq<Pair>) {
    forall i, j :: 0 <= i < j < |pairs| ==> pairs[i].nid != pairs[j].nid
  }

  lemma {:induction false} KeepIdsOneMore(nids: seq<nat>, gone: set<nat>, n: nat)
    requires NoDup(nids) && n !in gone
    ensures |KeepIds(nids, gone + {n})| + (if n in nids then 1 else 0) == |KeepIds(nids, gone)|
  {
    if nids != [] {
      assert nids == [nids[0]] + nids[1..];
      NoDupCons(nids[0], nids[1..]);
      KeepIdsOneMore(nids[1..], gone, n);
    }
  }

  /** Copies of `m` kept in the box plus copies of `m` landed elsewhere: always what there was. */
  lemma {:induction false} KeptPlusLanded(box: seq<Copy>, pairs: seq<Pair>, fate: Fates, m: Mid)
    requires NoDup(Nids(box)) && DistinctPairs(pairs)
    requires forall p :: p in pairs ==> p.nid in CopiesOf(box, p.mid)
    requires forall n :: fate(n).leaves == fate(n).lands
    ensures |KeepIds(CopiesOf(box, m), GoneNids(pairs, fate))| + LandedCount(pairs, fate, m) == |CopiesOf(box, m)|
  {
    var copies := CopiesOf(box, m);
    if pairs == [] {
      assert GoneNids(pairs, fate) == {};
      KeepIdsCounts(copies, {});
    } else {
      var init, p := pairs[..|pairs| - 1], pairs[|pairs| - 1];
      assert pairs == init + [p];
      KeptPlusLanded(box, init, fate, m);
      LandedCountSnoc(init, p, fate, m);
      CopiesDistinct(box, m, p.mid);
      CopiesDistinct(box, p.mid, m);
      if fate(p.nid).leaves {
        assert GoneNids(pairs, fate) == GoneNids(init, fate) + {p.nid};
        assert p.nid !in GoneNids(init, fate);
        KeepIdsOneMore(copies, GoneNids(init, fate), p.nid);
      } else {
        assert GoneNids(pairs, fate) == GoneNids(init, fate);
      }
    }
  }

  lemma {:induction false} PairsDistinct(box: seq<Copy>, ids: seq<Mid>)
    requires NoDup(Nids(box)) && NoDup(ids)
    ensures DistinctPairs(Pairs(box, ids))
  {
    if ids != [] {
      assert ids == [ids[0]] + ids[1..];
      NoDupCons(ids[0], ids[1..]);
      PairsDistinct(box, ids[1..]);
      PairsExactly(box, ids[1..]);
      var first, rest := PairsOf(ids[0], CopiesOf(box, ids[0])), Pairs(box, ids[1..]);
      forall j | 0 <= j < |rest| ensures rest[j].nid !in CopiesOf(box, ids[0]) {
        assert rest[j] in rest;
        CopiesDistinct(box, rest[j].mid, ids[0]);
      }
      CopiesDistinct(box, ids[0], ids[0]);
    }
  }

  /** The two mailboxes of a run, counted: kept in the source, landed in the destination. */
  lemma RunCounts(st: Store, r: Request, e: Env, m: Mid)
    requires Accepts(r)
    ensures Count(StoreAfter(st, r, e), r.src, m)
      == |KeepIds(CopiesOf(st.In(r.src), m), GoneNids(Processed(st, r, e), e.fate))|
    ensures Count(StoreAfter(st, r, e), r.dst, m)
      == Count(st, r.dst, m) + LandedCount(Processed(st, r, e), e.fate, m)
  {
    var pairs := Processed(st, r, e);
    CopiesKept(st.In(r.src), GoneNids(pairs, e.fate), m);
    CopiesConcat(st.In(r.dst), Landed(pairs, e.fate, st.next), m);
    LandedCounts(pairs, e.fate, st.next, m);
  }

  lemma ProcessedAreCopies(st: Store, r: Request, e: Env)
    requires st.Valid() && NoDup(r.ids)
    ensures DistinctPairs(Processed(st, r, e))
    ensures forall p :: p in Processed(st, r, e) ==> p.nid in CopiesOf(st.In(r.src), p.mid)
  {
    hide Pairs, CopiesOf, KeepBox, Nids;
    PairsDistinct(st.In(r.src), r.ids);
    PairsExactly(st.In(r.src), r.ids);
    assert forall p :: p in Processed(st, r, e) ==> p in BatchPairs(st, r);
  }

  lemma ActConservesCopies(st: Store, r: Request, e: Env, m: Mid)
    requires st.Valid() && NoDup(r.ids) && Faithful(e) && Accepts(r)
    ensures Count(StoreAfter(st, r, e), r.src, m) + Count(StoreAfter(st, r, e), r.dst, m)
      == Count(st, r.src, m) + Count(st, r.dst, m)
  {
    hide StoreAfter, Processed;
    ProcessedAreCopies(st, r, e);
    RunCounts(st, r, e, m);
    KeptPlusLanded(st.In(r.src), Processed(st, r, e), e.fate, m);
  }

  /** Conservation, wherever a run stops: with Mail moving whole copies, source and
      destination together hold as many copies of every message as before, and every
      other mailbox is untouched. */
  lemma RunConservesCopies(w: World, r: Request, e: Env)
    requires w.store.Valid() && NoDup(r.ids) && Faithful(e)
    ensures var after := Run(w, r, e).0.store;
      && (forall m :: Count(after, r.src, m) + Count(after, r.dst, m) == Count(w.store, r.src, m) + Count(w.store, r.dst, m))
      && (forall b :: b != r.src && b != r.dst ==> after.In(b) == w.store.In(b))
  {
    StoreOfRun(w, r, e);
    NothingActsWithoutAPlan(w, r, e);
    hide Run, StoreAfter, Faithful, Count;
    if Accepts(r) && e.planFate.Completes? {
      forall m ensures Count(StoreAfter(w.store, r, e), r.src, m) + Count(StoreAfter(w.store, r, e), r.dst, m)
        == Count(w.store, r.src, m) + Count(w.store, r.dst, m)
      {
        ActConservesCopies(w.store, r, e, m);
      }
    }
  }

  lemma StoreOfRun(w: World, r: Request, e: Env)
    ensures Run(w, r, e).0.store == if Accepts(r) && e.planFate.Completes? then StoreAfter(w.store, r, e) else w.store
  {
    hide StoreAfter, Written, Replies;
  }

  // ---------------------------------------------------------------- internal ids stay distinct

  lemma {:induction false} LandedNids(pairs: seq<Pair>, fate: Fates, next: nat)
    ensures var ns := Nids(Landed(pairs, fate, next));
      |ns| == |Landed(pairs, fate, next)| && forall i :: 0 <= i < |ns| ==> ns[i] == next + i
  {
    if pairs != [] {
      if fate(pairs[0].nid).lands {
        LandedNids(pairs[1..], fate, next + 1);
        var rest := Landed(pairs[1..], fate, next + 1);
        assert ([Copy(next, Some(pairs[0].mid))] + rest)[1..] == rest;
      } else {
        LandedNids(pairs[1..], fate, next);
      }
    }
  }

  lemma SourceStaysDistinct(box: seq<Copy>, gone: set<nat>, bound: nat)
    requires NoDup(Nids(box)) && forall n :: n in Nids(box) ==> n < bound
    ensures NoDup(Nids(KeepBox(box, gone))) && forall n :: n in Nids(KeepBox(box, gone)) ==> n < bound
  {
    KeepBoxNids(box, gone);
  }

  lemma DestinationStaysDistinct(box: seq<Copy>, pairs: seq<Pair>, fate: Fates, next: nat)
    requires NoDup(Nids(box)) && forall n :: n in Nids(box) ==> n < next
    ensures var landed := Landed(pairs, fate, next);
      NoDup(Nids(box + landed)) && forall n :: n in Nids(box + landed) ==> n < next + |landed|
  {
    LandedNids(pairs, fate, next);
    NidsConcat(box, Landed(pairs, fate, next));
    NoDupAboveBound(Nids(box), Nids(Landed(pairs, fate, next)), next);
  }

  lemma ScriptKeepsValid(st: Store, src: Box, dst: Box, pairs: seq<Pair>, fate: Fates)
    requires st.Valid() && src != dst
    ensures Scripted(st, src, dst, pairs, fate).Valid()
  {
    var after := Scripted(st, src, dst, pairs, fate);
    forall b ensures NoDup(Nids(after.In(b))) && forall n :: n in Nids(after.In(b)) ==> n < after.next {
      assert NoDup(Nids(st.In(b))) && forall n :: n in Nids(st.In(b)) ==> n < st.next;
      if b == src {
        SourceStaysDistinct(st.In(b), GoneNids(pairs, fate), st.next);
      } else if b == dst {
        DestinationStaysDistinct(st.In(b), pairs, fate, st.next);
      }
    }
  }

  lemma NoDupAboveBound(a: seq<nat>, b: seq<nat>, bound: nat)
    requires NoDup(a) && forall n :: n in a ==> n < bound
    requires forall i :: 0 <= i < |b| ==> b[i] == bound + i
    ensures NoDup(a + b)
  {
    forall i, j | 0 <= i < j < |a + b| ensures (a + b)[i] != (a + b)[j] {
      if i < |a| <= j {
        assert a[i] in a;
      }
    }
  }

  // ---------------------------------------------------------------- what an undo can miss

  /** What the script's reports guarantee: `moved` and `gone` are only said of a dead source
      reference, `not-in-source` only of a copy it did not touch. Errors and `unknown` say nothing. */
  ghost predicate Honest(e: Env) {
    forall n ::
      && (e.fate(n).report.Moved? || e.fate(n).report.Gone? ==> e.fate(n).leaves)
      && (e.fate(n).report.NotInSource? ==> !e.fate(n).leaves)
  }

  /** The fold swallows a possible departure: errors with no copy acting, or (Trash only) every
      copy deleted while Trash did not rise and some copy still lingers. */
  ghost predicate Swallowed(op: Op, rs: seq<Report>, rose: bool) {
    || (SomeError(rs) && !SomeActs(op, rs))
    || (op.Trash? && AllAct(op, rs) && !rose && exists x :: x in rs && !x.Gone?)
  }

  /** After a finished run, the recorded answer leaves a message that really left its source
      out of the replay in exactly the swallowed cases. */
  lemma LostAndNotReplayedExactly(st: Store, r: Request, e: Env, m: Mid)
    requires st.Valid() && Accepts(r) && e.end.Finishes? && Honest(e) && m in r.ids
    requires Lost(st, StoreAfter(st, r, e), r, m)
    ensures !MayHaveLeft(st, r, e, m) <==> Swallowed(r.op, OwnReports(st, r, e, m), Rose(st, r, e, m))
  {
    AnsweredFromOwnCopies(st, r, e);
    var nids, rs := CopiesOf(st.In(r.src), m), OwnReports(st, r, e, m);
    StayedExactly(r.op, rs, Rose(st, r, e, m));
    RunCounts(st, r, e, m);
    KeepIdsCounts(nids, GoneNids(Processed(st, r, e), e.fate));
    var n :| n in nids && n in GoneNids(Processed(st, r, e), e.fate);
    var i :| 0 <= i < |nids| && nids[i] == n;
    assert rs[i] == e.fate(n).report && rs[i] in rs;
  }

  /** The undo of this answer moves `m` back to its source. */
  ghost predicate MovesBack(answer: UndoAnswer, r: Request, m: Mid) {
    answer.Replay? && answer.destination == r.dst && Target(m, r.src) in answer.targets
  }

  lemma MovedBackExactly(w: World, r: Request, e: Env, later: seq<Write<Entry>>, m: Mid)
    requires Findable(w, r, e, later) && m in r.ids
    ensures MovesBack(UndoPlan(ReadAll(LogLater(w, r, e, later)), r.receipt), r, m)
      <==> (DoneReadable(w, r, e, later) ==> MayHaveLeft(w.store, r, e, m))
    ensures e.end.Finishes? && e.doneFate.Completes? ==> DoneReadable(w, r, e, later)
    ensures DoneReadable(w, r, e, later) ==> e.end.Finishes? || e.end.TimesOut?
  {
    assert Accepts(r);
    hide ReadAll, LogLater, UndoPlan, MayHaveLeft, ToRestore, DoneReadable, Findable;
    UndoReplaysExactly(w, r, e, later);
    var i :| 0 <= i < |r.ids| && r.ids[i] == m;
    assert Targets(r)[i] == Target(m, r.src);
    assert Kept(w, r, e, later, Target(m, r.src)) <==> (DoneReadable(w, r, e, later) ==> MayHaveLeft(w.store, r, e, m));
  }

  lemma LostIsMovedBackExactly(w: World, r: Request, e: Env, later: seq<Write<Entry>>, m: Mid)
    requires w.store.Valid() && Findable(w, r, e, later)
    requires Honest(e) && e.end.Finishes? && e.doneFate.Completes?
    requires m in r.ids
    ensures Lost(w.store, StoreAfter(w.store, r, e), r, m) ==>
      (MovesBack(UndoPlan(ReadAll(LogLater(w, r, e, later)), r.receipt), r, m)
       <==> !Swallowed(r.op, OwnReports(w.store, r, e, m), Rose(w.store, r, e, m)))
  {
    hide ReadAll, LogLater, UndoPlan, MayHaveLeft, DoneReadable, MovesBack, Lost, Swallowed, StoreAfter;
    MovedBackExactly(w, r, e, later, m);
    if Lost(w.store, StoreAfter(w.store, r, e), r, m) { LostAndNotReplayedExactly(w.store, r, e, m); }
  }

  /** Undo coverage of a finished move or trash: everything that really left its source is
      moved back if and only if no departed message has its departure swallowed by the fold. */
  lemma UndoCoversIffNothingSwallowed(w: World, r: Request, e: Env, later: seq<Write<Entry>>)
    requires w.store.Valid() && Findable(w, r, e, later)
    requires Honest(e) && e.end.Finishes? && e.doneFate.Completes?
    ensures var answer, after := UndoPlan(ReadAll(LogLater(w, r, e, later)), r.receipt), StoreAfter(w.store, r, e);
      (forall m :: m in r.ids && Lost(w.store, after, r, m) ==> MovesBack(answer, r, m))
      <==>
      (forall m :: m in r.ids && Lost(w.store, after, r, m) ==>
        !Swallowed(r.op, OwnReports(w.store, r, e, m), Rose(w.store, r, e, m)))
  {
    hide ReadAll, LogLater, UndoPlan, MovesBack, Lost, Swallowed, StoreAfter;
    forall m | m in r.ids && Lost(w.store, StoreAfter(w.store, r, e), r, m)
      ensures MovesBack(UndoPlan(ReadAll(LogLater(w, r, e, later)), r.receipt), r, m)
        <==> !Swallowed(r.op, OwnReports(w.store, r, e, m), Rose(w.store, r, e, m))
    {
      LostIsMovedBackExactly(w, r, e, later, m);
    }
  }

  /** A run that stopped before its answers (timeout, another error, a crash) is replayed whole. */
  lemma InterruptedRunIsReplayedWhole(w: World, r: Request, e: Env, later: seq<Write<Entry>>)
    requires Findable(w, r, e, later) && !e.end.Finishes?
    ensures UndoPlan(ReadAll(LogLater(w, r, e, later)), r.receipt) == Replay(r.dst, Targets(r))
  {
    hide ReadAll, LogLater, UndoPlan, DoneReadable;
    UndoReplaysExactly(w, r, e, later);
    forall t | t in Targets(r) ensures Kept(w, r, e, later, t) { UnansweredIsKept(w, r, e, later, t); }
    FilterAll(Targets(r), (t: Target) => Kept(w, r, e, later, t));
    assert Targets(r) != [];
  }

  lemma UnansweredIsKept(w: World, r: Request, e: Env, later: seq<Write<Entry>>, t: Target)
    requires Accepts(r) && !e.end.Finishes? && t in Targets(r)
    ensures Kept(w, r, e, later, t)
  {
    hide DoneReadable;
    assert t.id in r.ids;
    assert Replies(w.store, r, e)[t.id] == Plain(Uncertain);
  }

  lemma {:induction false} FilterAll(s: seq<Target>, keep: Target -> bool)
    requires forall t :: t in s ==> keep(t)
    ensures Filter(s, keep) == s
  {
    if s != [] { FilterAll(s[1..], keep); }
  }

  /** The concrete case: two copies of one message, one answered `unknown` although it moved,
      the other an error. The fold keeps only the error, and the moved copy is not replayed. */
  lemma MixedErrorAndUnknownIsNotReplayed() returns (w: World, r: Request, e: Env)
    ensures r.op.Move? && Honest(e) && Lost(w.store, Run(w, r, e).0.store, r, "a")
    ensures UndoPlan(ReadAll(Run(w, r, e).0.log), r.receipt) == NothingToRestore
  {
    w, r, e := TwoCopiesOneSlow();
    hide Run, UndoPlan, ReadAll, Lost, CopiesOf, Honest;
    OneUnknownOneError(w, r, e);
  }

  lemma TwoCopiesOneSlow() returns (w: World, r: Request, e: Env)
    ensures r.op.Move? && r.ids == ["a"] && r.src != r.dst && w.log == Log([[]], [[]])
    ensures CopiesOf(w.store.In(r.src), "a") == [0, 1] && Honest(e)
    ensures e.fate(0) == CopyFate(Unknown, true, true) && e.fate(1) == CopyFate(Error("busy"), false, false)
    ensures e.end.Finishes? && e.planFate.Completes? && e.doneFate.Completes? && e.doneSize == 100
  {
    var box := [Copy(0, Some("a")), Copy(1, Some("a"))];
    w := World(Store(map["INBOX" := box], 2), Log([[]], [[]]));
    r := Request(Move, "r1", "INBOX", "Archive", ["a"]);
    var fate: Fates := n => if n == 0 then CopyFate(Unknown, true, true) else CopyFate(Error("busy"), false, false);
    e := Env(fate, Finishes, m => 0, 100, Completes, 100, Completes);
    TwoCopies(box);
  }

  lemma TwoCopies(box: seq<Copy>)
    requires box == [Copy(0, Some("a")), Copy(1, Some("a"))]
    ensures CopiesOf(box, "a") == [0, 1]
  {
    assert box[1..] == [Copy(1, Some("a"))];
    assert CopiesOf(box[1..], "a") == [1];
  }

  lemma OneUnknownOneError(w: World, r: Request, e: Env)
    requires r.op.Move? && r.ids == ["a"] && r.src != r.dst && w.log == Log([[]], [[]])
    requires CopiesOf(w.store.In(r.src), "a") == [0, 1]
    requires e.fate(0) == CopyFate(Unknown, true, true) && e.fate(1) == CopyFate(Error("busy"), false, false)
    requires e.end.Finishes? && e.planFate.Completes? && e.doneFate.Completes? && e.doneSize == 100
    ensures Lost(w.store, Run(w, r, e).0.store, r, "a")
    ensures UndoPlan(ReadAll(Run(w, r, e).0.log), r.receipt) == NothingToRestore
  {
    FirstCopyLost(w.store, r, e);
    OnlyErrorKept(w.store, r, e);
    RunIsFindable(w, r, e);
    NothingKept(w, r, e);
  }

  lemma RunIsFindable(w: World, r: Request, e: Env)
    requires Accepts(r) && e.planFate.Completes? && Lands(w.log) && FreshReceipt(w.log, r.receipt)
    requires e.doneSize < AUDIT_MAX_BYTES
    ensures Findable(w, r, e, []) && LogLater(w, r, e, []) == Run(w, r, e).0.log
  {
  }

  lemma NothingKept(w: World, r: Request, e: Env)
    requires Findable(w, r, e, []) && r.ids == ["a"] && LogLater(w, r, e, []) == Run(w, r, e).0.log
    requires e.end.Finishes? && e.doneFate.Completes? && !MayHaveLeft(w.store, r, e, "a")
    ensures UndoPlan(ReadAll(Run(w, r, e).0.log), r.receipt) == NothingToRestore
  {
    assert Accepts(r);
    hide ReadAll, LogLater, UndoPlan, MayHaveLeft, ToRestore, DoneReadable, Findable, Run;
    UndoReplaysExactly(w, r, e, []);
    assert forall t :: t in Targets(r) ==> t.id == "a";
  }

  lemma FirstCopyLost(st: Store, r: Request, e: Env)
    requires Accepts(r) && r.ids == ["a"] && e.end.Finishes?
    requires CopiesOf(st.In(r.src), "a") == [0, 1] && e.fate(0).leaves
    ensures Lost(st, StoreAfter(st, r, e), r, "a")
  {
    PairsExactly(st.In(r.src), r.ids);
    assert Pair("a", 0) in BatchPairs(st, r);
    assert 0 in GoneNids(Processed(st, r, e), e.fate);
    RunCounts(st, r, e, "a");
    KeepIdsCounts([0, 1], GoneNids(Processed(st, r, e), e.fate));
  }

  lemma OnlyErrorKept(st: Store, r: Request, e: Env)
    requires Accepts(r) && r.op.Move? && r.ids == ["a"] && e.end.Finishes?
    requires CopiesOf(st.In(r.src), "a") == [0, 1]
    requires e.fate(0).report == Unknown && e.fate(1).report == Error("busy")
    ensures !MayHaveLeft(st, r, e, "a")
  {
    var rs := OwnReports(st, r, e, "a");
    assert rs[1] in rs && rs == [Unknown, Error("busy")];
    AnsweredFromOwnCopies(st, r, e);
    StayedExactly(Move, rs, Rose(st, r, e, "a"));
  }

  /** The Trash case: a copy Mail deletes without Trash ever showing it is recorded as stayed,
      and the undo has nothing to restore. */
  lemma UnseenTrashIsNotReplayed() returns (w: World, r: Request, e: Env)
    ensures r.op.Trash? && Honest(e) && Lost(w.store, Run(w, r, e).0.store, r, "a")
    ensures UndoPlan(ReadAll(Run(w, r, e).0.log), r.receipt) == NothingToRestore
  {
    w, r, e := OneDeletedUnseen();
    hide Run, UndoPlan, ReadAll, Lost, CopiesOf, Honest;
    DeletedUnseenIsLost(w, r, e);
  }

  lemma DeletedUnseenIsLost(w: World, r: Request, e: Env)
    requires r.op.Trash? && r.ids == ["a"] && r.src != r.dst && w.log == Log([[]], [[]])
    requires CopiesOf(w.store.In(r.src), "a") == [0] && e.fate(0) == CopyFate(Deleted, true, false) && e.noise("a") == 0
    requires e.end.Finishes? && e.planFate.Completes? && e.doneFate.Completes? && e.doneSize == 100
    ensures Lost(w.store, Run(w, r, e).0.store, r, "a")
    ensures UndoPlan(ReadAll(Run(w, r, e).0.log), r.receipt) == NothingToRestore
  {
    RunIsFindable(w, r, e);
    DeletedUnseenStays(w.store, r, e);
    StoreOfRun(w, r, e);
    NothingKept(w, r, e);
  }

  lemma OneDeletedUnseen() returns (w: World, r: Request, e: Env)
    ensures r.op.Trash? && r.ids == ["a"] && r.src != r.dst && w.log == Log([[]], [[]]) && Honest(e)
    ensures CopiesOf(w.store.In(r.src), "a") == [0] && e.fate(0) == CopyFate(Deleted, true, false) && e.noise("a") == 0
    ensures e.end.Finishes? && e.planFate.Completes? && e.doneFate.Completes? && e.doneSize == 100
  {
    var box := [Copy(0, Some("a"))];
    w := World(Store(map["INBOX" := box], 1), Log([[]], [[]]));
    r := Request(Trash, "r1", "INBOX", "Trash", ["a"]);
    e := Env(n => CopyFate(Deleted, true, false), Finishes, m => 0, 100, Completes, 100, Completes);
    assert box[1..] == [];
  }

  lemma DeletedUnseenStays(st: Store, r: Request, e: Env)
    requires Accepts(r) && r.op.Trash? && r.ids == ["a"] && e.end.Finishes?
    requires CopiesOf(st.In(r.src), "a") == [0] && e.fate(0) == CopyFate(Deleted, true, false) && e.noise("a") == 0
    ensures Lost(st, StoreAfter(st, r, e), r, "a") && !MayHaveLeft(st, r, e, "a")
  {
    hide StoreAfter, Replies, CopiesOf;
    OneCopyProcessed(st, r, e);
    RunCounts(st, r, e, "a");
    KeepIdsCounts([0], GoneNids(Processed(st, r, e), e.fate));
    NoneLands(Processed(st, r, e), e.fate);
    var rs := OwnReports(st, r, e, "a");
    assert rs == [Deleted] && rs[0] in rs && !rs[0].Gone?;
    AnsweredFromOwnCopies(st, r, e);
    StayedExactly(Trash, rs, Rose(st, r, e, "a"));
  }

  lemma OneCopyProcessed(st: Store, r: Request, e: Env)
    requires r.ids == ["a"] && e.end.Finishes? && CopiesOf(st.In(r.src), "a") == [0] && e.fate(0).leaves
    ensures 0 in GoneNids(Processed(st, r, e), e.fate)
    ensures forall p :: p in Processed(st, r, e) ==> p.nid == 0
  {
    PairsExactly(st.In(r.src), r.ids);
    assert Pair("a", 0) in BatchPairs(st, r);
    assert forall p :: p in BatchPairs(st, r) ==> p.mid in ["a"] && p.nid in [0];
  }

  lemma {:induction false} NoneLands(pairs: seq<Pair>, fate: Fates)
    requires forall p :: p in pairs ==> !fate(p.nid).lands
    ensures LandedCount(pairs, fate, "a") == 0
  {
    if pairs != [] { NoneLands(pairs[1..], fate); }
  }

  // ---------------------------------------------------------------- a run, then its undo

  /** Mail does everything asked and nothing else: every copy moves and is reported moved. */
  ghost predicate Perfect(e: Env) {
    && e.end.Finishes? && e.planFate.Completes? && e.doneFate.Completes?
    && (forall n :: e.fate(n) == CopyFate(Moved, true, true))
    && (forall m :: e.noise(m) == 0)
    && e.doneSize < AUDIT_MAX_BYTES
  }

  /** The run gets through every copy, and each leaves and lands, whatever is reported or logged. */
  ghost predicate MovesAll(e: Env) {
    e.end.Finishes? && e.planFate.Completes? && forall n :: e.fate(n).leaves && e.fate(n).lands
  }

  /** With Mail moving everything asked, every copy of the ids goes from source to destination. */
  lemma PerfectMoveCounts(w: World, r: Request, e: Env, m: Mid)
    requires w.store.Valid() && Accepts(r) && NoDup(r.ids) && MovesAll(e)
    ensures var after := Run(w, r, e).0.store;
      && Count(after, r.src, m) == (if m in r.ids then 0 else Count(w.store, r.src, m))
      && Count(after, r.dst, m) == Count(w.store, r.dst, m) + (if m in r.ids then Count(w.store, r.src, m) else 0)
  {
    var nids, pairs := CopiesOf(w.store.In(r.src), m), Processed(w.store, r, e);
    RunConservesCopies(w, r, e);
    RunCounts(w.store, r, e, m);
    if m in r.ids {
      PairsExactly(w.store.In(r.src), r.ids);
      forall n | n in nids ensures n in GoneNids(pairs, e.fate) {
        assert Pair(m, n) in pairs;
      }
      KeepIdsCounts(nids, GoneNids(pairs, e.fate));
    } else {
      NothingActsWithoutAPlan(w, r, e);
    }
  }

  /** ... and a move answers `ok` for every id that had a copy, `not-in-source` for every other. */
  lemma PerfectMoveAnswers(w: World, r: Request, e: Env, m: Mid)
    requires w.store.Valid() && Accepts(r) && r.op.Move? && NoDup(r.ids) && Perfect(e) && m in r.ids
    ensures Replies(w.store, r, e)[m] == Plain(if Count(w.store, r.src, m) > 0 then Ok else Absent)
  {
    PerfectMoveCounts(w, r, e, m);
    AnsweredFromOwnCopies(w.store, r, e);
    var rs := OwnReports(w.store, r, e, m);
    assert forall x :: x in rs ==> x == Moved;
  }

  /** After such a move the receipt replays exactly the ids that had a copy in the source. */
  lemma PerfectMoveIsUndone(w: World, r: Request, e: Env) returns (ts: seq<Target>)
    requires w.store.Valid() && Accepts(r) && r.op.Move? && NoDup(r.ids)
    requires Perfect(e) && Lands(w.log) && FreshReceipt(w.log, r.receipt)
    ensures UndoPlan(ReadAll(Run(w, r, e).0.log), r.receipt) == if ts == [] then NothingToRestore else Replay(r.dst, ts)
    ensures NoDup(Ids(ts)) && |ts| <= |r.ids| && forall t :: t in ts ==> t.folder == r.src
    ensures forall m :: m in Ids(ts) <==> m in r.ids && Count(w.store, r.src, m) > 0
  {
    RunIsFindable(w, r, e);
    ts := ToRestore(w, r, e, []);
    PerfectReplay(w, r, e);
  }

  lemma PerfectReplay(w: World, r: Request, e: Env)
    requires w.store.Valid() && r.op.Move? && NoDup(r.ids) && Perfect(e) && Findable(w, r, e, [])
    ensures var ts := ToRestore(w, r, e, []);
      && UndoPlan(ReadAll(LogLater(w, r, e, [])), r.receipt) == (if ts == [] then NothingToRestore else Replay(r.dst, ts))
      && NoDup(Ids(ts)) && |ts| <= |r.ids| && (forall t :: t in ts ==> t.folder == r.src)
      && forall m :: m in Ids(ts) <==> m in r.ids && Count(w.store, r.src, m) > 0
  {
    hide ReadAll, LogLater, UndoPlan, DoneReadable, MayHaveLeft;
    UndoReplaysExactly(w, r, e, []);
    assert e.end.Finishes? && e.doneFate.Completes?;
    ReplayedTargets(r, (t: Target) => Kept(w, r, e, [], t));
    forall m | m in r.ids ensures Kept(w, r, e, [], Target(m, r.src)) <==> Count(w.store, r.src, m) > 0 {
      PerfectMayHaveLeft(w, r, e, m);
    }
  }

  lemma PerfectMayHaveLeft(w: World, r: Request, e: Env, m: Mid)
    requires w.store.Valid() && Accepts(r) && r.op.Move? && NoDup(r.ids) && Perfect(e) && m in r.ids
    ensures MayHaveLeft(w.store, r, e, m) <==> Count(w.store, r.src, m) > 0
  {
    hide Replies, Count, Perfect;
    PerfectMoveAnswers(w, r, e, m);
  }

  lemma ReplayedTargets(r: Request, keep: Target -> bool)
    requires NoDup(r.ids)
    ensures var ts := Filter(Targets(r), keep);
      && NoDup(Ids(ts)) && |ts| <= |r.ids|
      && (forall t :: t in ts ==> t.folder == r.src)
      && forall m :: m in Ids(ts) <==> m in r.ids && keep(Target(m, r.src))
  {
    FilterNoDup(Targets(r), keep);
    var ts := Filter(Targets(r), keep);
    assert forall i :: 0 <= i < |ts| ==> ts[i] in ts;
    forall m ensures m in Ids(ts) <==> m in r.ids && keep(Target(m, r.src)) {
      IdsMembership(ts, m, r.src);
      if m in r.ids {
        var i :| 0 <= i < |r.ids| && r.ids[i] == m;
        assert Targets(r)[i] == Target(m, r.src);
      }
    }
  }

  lemma IdsMembership(ts: seq<Target>, m: Mid, src: Box)
    requires forall t :: t in ts ==> t.folder == src
    ensures m in Ids(ts) <==> Target(m, src) in ts
  {
    if m in Ids(ts) {
      var i :| 0 <= i < |Ids(ts)| && Ids(ts)[i] == m;
      assert ts[i] in ts;
    }
    if Target(m, src) in ts {
      var i :| 0 <= i < |ts| && ts[i] == Target(m, src);
      assert Ids(ts)[i] == m;
    }
  }

  /** The world when the undo begins: the run's store, and its log with whatever came later. */
  function Afterwards(w: World, r: Request, e: Env, later: seq<Write<Entry>>): World {
    World(Run(w, r, e).0.store, LogLater(w, r, e, later))
  }

  /** The undo takes `m` back: no readable done record, or one that allows it left. */
  ghost predicate TakenBack(w: World, r: Request, e: Env, later: seq<Write<Entry>>, m: Mid)
    requires Accepts(r)
  {
    m in r.ids && (DoneReadable(w, r, e, later) ==> MayHaveLeft(w.store, r, e, m))
  }

  lemma UndoRunIs(w1: World, r: Request, undoReceipt: Receipt, back: Env, ts: seq<Target>)
    requires UndoPlan(ReadAll(w1.log), r.receipt) == if ts == [] then NothingToRestore else Replay(r.dst, ts)
    requires forall t :: t in ts ==> t.folder == r.src
    ensures UndoRun(w1, r.receipt, undoReceipt, back).0
      == if ts == [] then w1 else Run(w1, BackRequest(r.dst, ts, undoReceipt), back).0
  {
    hide UndoPlan, ReadAll, Run;
    assert ts == [] || ts[0] in ts;
  }

  lemma RunKeepsValid(w: World, r: Request, e: Env)
    requires w.store.Valid()
    ensures Run(w, r, e).0.store.Valid()
  {
    if Accepts(r) {
      ScriptKeepsValid(w.store, r.src, r.dst, Processed(w.store, r, e), e.fate);
    }
  }

  /** The undo is one ordinary run: back from the destination, with exactly the ids taken back. */
  lemma UndoIsARun(w: World, r: Request, e: Env, later: seq<Write<Entry>>, undoReceipt: Receipt, back: Env)
    returns (r1: Option<Request>)
    requires Findable(w, r, e, later) && NoDup(r.ids)
    ensures var w1 := Afterwards(w, r, e, later);
      UndoRun(w1, r.receipt, undoReceipt, back).0 == if r1.Some? then Run(w1, r1.value, back).0 else w1
    ensures r1.Some? ==> Accepts(r1.value) && NoDup(r1.value.ids) && r1.value.src == r.dst && r1.value.dst == r.src
    ensures forall m :: TakenBack(w, r, e, later, m) <==> r1.Some? && m in r1.value.ids
  {
    assert Accepts(r);
    hide ReadAll, LogLater, UndoPlan, DoneReadable, MayHaveLeft, Run, UndoRun, Findable;
    UndoReplaysExactly(w, r, e, later);
    var ts := ToRestore(w, r, e, later);
    ReplayedTargets(r, (t: Target) => Kept(w, r, e, later, t));
    forall m ensures TakenBack(w, r, e, later, m) <==> m in Ids(ts) {
      assert m in r.ids ==> (Kept(w, r, e, later, Target(m, r.src)) <==> TakenBack(w, r, e, later, m));
    }
    UndoRunIs(Afterwards(w, r, e, later), r, undoReceipt, back, ts);
    r1 := if ts == [] then None else Some(BackRequest(r.dst, ts, undoReceipt));
    assert ts == [] ==> forall m :: m !in Ids(ts);
    assert forall t :: t in ts ==> t.folder == r.src;
    assert ts != [] ==> ts[0] in ts;
  }

  /** What an undo leaves of `m`, given what the run before it left. */
  ghost predicate UndoneTo(half: Store, after: Store, r: Request, m: Mid, taken: bool) {
    var s, d := Count(half, r.src, m), Count(half, r.dst, m);
    if taken then Count(after, r.src, m) == s + d && Count(after, r.dst, m) == 0
    else Count(after, r.src, m) == s && Count(after, r.dst, m) == d
  }

  /** A move or trash run, however it ends and whatever Mail did, and then an undo in which
      Mail moves all it is asked: every id taken back has all its copies in the source and none
      in the destination, every other id is as the run left it, and no other mailbox changes. */
  lemma RunThenUndo(w: World, r: Request, e: Env, later: seq<Write<Entry>>, undoReceipt: Receipt, back: Env)
    requires w.store.Valid() && NoDup(r.ids) && Findable(w, r, e, later) && MovesAll(back)
    ensures var half, after := Run(w, r, e).0.store, UndoRun(Afterwards(w, r, e, later), r.receipt, undoReceipt, back).0.store;
      && (forall b :: b != r.src && b != r.dst ==> after.In(b) == w.store.In(b))
      && (forall m :: UndoneTo(half, after, r, m, TakenBack(w, r, e, later, m)))
      && (Faithful(e) ==> forall m :: TakenBack(w, r, e, later, m) ==>
            Count(after, r.src, m) == Count(w.store, r.src, m) + Count(w.store, r.dst, m))
  {
    assert Accepts(r);
    hide Run, Count, MovesAll, Faithful, UndoRun, LogLater, TakenBack, Findable;
    var w1 := Afterwards(w, r, e, later);
    var r1 := UndoIsARun(w, r, e, later, undoReceipt, back);
    RunKeepsValid(w, r, e);
    NothingActsWithoutAPlan(w, r, e);
    if Faithful(e) { RunConservesCopies(w, r, e); }
    if r1.Some? {
      NothingActsWithoutAPlan(w1, r1.value, back);
      forall m { PerfectMoveCounts(w1, r1.value, back, m); }
    }
  }

  /** Copies are conserved over the run and any undo of it, however either one ends. */
  lemma RunThenUndoConserves(w: World, r: Request, e: Env, later: seq<Write<Entry>>, undoReceipt: Receipt, back: Env)
    requires w.store.Valid() && NoDup(r.ids) && Findable(w, r, e, later) && Faithful(e) && Faithful(back)
    ensures var after := UndoRun(Afterwards(w, r, e, later), r.receipt, undoReceipt, back).0.store;
      && (forall b :: b != r.src && b != r.dst ==> after.In(b) == w.store.In(b))
      && forall m :: Count(after, r.src, m) + Count(after, r.dst, m) == Count(w.store, r.src, m) + Count(w.store, r.dst, m)
  {
    assert Accepts(r);
    hide Run, Count, Faithful, UndoRun, LogLater, TakenBack, Findable;
    var w1 := Afterwards(w, r, e, later);
    var r1 := UndoIsARun(w, r, e, later, undoReceipt, back);
    RunKeepsValid(w, r, e);
    RunConservesCopies(w, r, e);
    if r1.Some? { RunConservesCopies(w1, r1.value, back); }
  }

  /** The price of replaying an interrupted run whole: an id that never had a copy in the source
      has the copies it held in the destination all along moved out of it. */
  lemma InterruptedUndoMovesBystanders(w: World, r: Request, e: Env, later: seq<Write<Entry>>, undoReceipt: Receipt, back: Env, m: Mid)
    requires w.store.Valid() && NoDup(r.ids) && Findable(w, r, e, later) && Faithful(e) && MovesAll(back)
    requires !e.end.Finishes? && m in r.ids && Count(w.store, r.src, m) == 0
    ensures var after := UndoRun(Afterwards(w, r, e, later), r.receipt, undoReceipt, back).0.store;
      Count(after, r.src, m) == Count(w.store, r.dst, m) && Count(after, r.dst, m) == 0
  {
    assert Accepts(r);
    UnansweredMayHaveLeft(w.store, r, e, m);
    hide Run, Count, MovesAll, Faithful, UndoRun, LogLater, Findable, MayHaveLeft, DoneReadable;
    RunThenUndo(w, r, e, later, undoReceipt, back);
    assert TakenBack(w, r, e, later, m);
    assert UndoneTo(Run(w, r, e).0.store, UndoRun(Afterwards(w, r, e, later), r.receipt, undoReceipt, back).0.store, r, m, true);
  }

  lemma UnansweredMayHaveLeft(st: Store, r: Request, e: Env, m: Mid)
    requires Accepts(r) && !e.end.Finishes? && m in r.ids
    ensures MayHaveLeft(st, r, e, m)
  {
    assert Replies(st, r, e)[m] == Plain(Uncertain);
  }

  /** Each id moved with n copies, k already there, is back with n + k; every other as it was. */
  ghost predicate BackAgain(before: Store, after: Store, r: Request, m: Mid) {
    var n, k := Count(before, r.src, m), Count(before, r.dst, m);
    if m in r.ids && n > 0
    then Count(after, r.src, m) == n + k && Count(after, r.dst, m) == 0
    else Count(after, r.src, m) == n && Count(after, r.dst, m) == k
  }

  /** The promised case, a move that answers `ok` throughout. An id with n > 0 copies in the
      source and k in the destination ends with n + k in the source and none in the
      destination, so both counts are restored exactly when k = 0; an id that was not in the
      source is never replayed. */
  lemma MoveThenUndo(w: World, r: Request, e: Env, undoReceipt: Receipt, back: Env)
    requires w.store.Valid() && Accepts(r) && r.op.Move? && NoDup(r.ids)
    requires Perfect(e) && MovesAll(back) && Lands(w.log) && FreshReceipt(w.log, r.receipt)
    ensures var after := UndoRun(Run(w, r, e).0, r.receipt, undoReceipt, back).0.store;
      && (forall b :: b != r.src && b != r.dst ==> after.In(b) == w.store.In(b))
      && forall m :: BackAgain(w.store, after, r, m)
  {
    RunIsFindable(w, r, e);
    hide Run, Count, Perfect, MovesAll, UndoRun, LogLater, Findable, UndoneTo, BackAgain;
    assert Afterwards(w, r, e, []) == Run(w, r, e).0;
    RunThenUndo(w, r, e, [], undoReceipt, back);
    forall m ensures BackAgain(w.store, UndoRun(Run(w, r, e).0, r.receipt, undoReceipt, back).0.store, r, m) {
      OkMoveComesBack(w, r, e, UndoRun(Run(w, r, e).0, r.receipt, undoReceipt, back).0.store, m);
    }
  }

  lemma OkMoveComesBack(w: World, r: Request, e: Env, after: Store, m: Mid)
    requires w.store.Valid() && Accepts(r) && r.op.Move? && NoDup(r.ids) && Perfect(e) && Findable(w, r, e, [])
    requires UndoneTo(Run(w, r, e).0.store, after, r, m, TakenBack(w, r, e, [], m))
    ensures BackAgain(w.store, after, r, m)
  {
    assert MovesAll(e) && e.end.Finishes? && e.doneFate.Completes?;
    hide Run, Count, Perfect, MovesAll, LogLater, Findable, MayHaveLeft, DoneReadable, UndoPlan, ReadAll, ToRestore, Kept;
    UndoReplaysExactly(w, r, e, []);
    if m in r.ids { PerfectMayHaveLeft(w, r, e, m); }
    PerfectMoveCounts(w, r, e, m);
  }
}
