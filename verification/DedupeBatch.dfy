/**
 The act of `dedupe_batch` (`macos_apps_mcp/adapters/mail.py`): collapse each Message-ID's
 copies in one mailbox to one. AppleScript cannot name a keeper, so the script lists the
 copies, deletes all but the first from the back, and only then counts what survives.
 */
module DedupeBatch {
  import opened Prelude
  import opened MailAct

  datatype Survey = Sees(copies: nat) | Fails(text: string)

  /** Mail's side for one id: whether listing its copies raises, whether deleting the i-th
      raises, which copies asked for really leave, and what each later count answers. */
  datatype Deal = Deal(listing: Option<string>, raises: nat -> Option<string>, leaves: nat -> bool, polls: nat -> Survey)

  datatype Result = Trimmed(deleted: nat) | NotDuplicated | WrongSurvivors(copies: nat) | ScriptError(text: string)

  const POLLS: nat := 13

  // ---------------------------------------------------------------- the script, id by id

  /** The copies asked to go, from the i-th down to the second, until one raises. */
  function AskedFrom(copies: seq<nat>, d: Deal, i: nat): seq<nat>
    requires i <= |copies|
  {
    if i < 2 then [] else [copies[i - 1]] + (if d.raises(i).Some? then [] else AskedFrom(copies, d, i - 1))
  }

  function Asked(copies: seq<nat>, d: Deal): seq<nat> {
    if d.listing.Some? then [] else AskedFrom(copies, d, |copies|)
  }

  function DeleteError(d: Deal, i: nat): Option<string> {
    if i < 2 then None else if d.raises(i).Some? then d.raises(i) else DeleteError(d, i - 1)
  }

  /** Counting the survivors: once, then up to twelve times more, then once for the message. */
  function Verified(d: Deal, deleted: nat, k: nat): Result
    decreases POLLS - k
  {
    match d.polls(k)
    case Fails(text) => ScriptError(text)
    case Sees(n) =>
      if k >= POLLS then WrongSurvivors(n) else if n == 1 then Trimmed(deleted) else Verified(d, deleted, k + 1)
  }

  function Dealt(copies: seq<nat>, d: Deal): Result {
    if d.listing.Some? then ScriptError(d.listing.value)
    else if |copies| < 2 then NotDuplicated
    else match DeleteError(d, |copies|)
      case Some(text) => ScriptError(text)
      case None => Verified(d, |copies| - 1, 0)
  }

  /** The first pass: delete from the back, down to the second copy. */
  method DeleteLosers(copies: seq<nat>, d: Deal) returns (error: Option<string>, asked: seq<nat>)
    ensures error == DeleteError(d, |copies|) && asked == AskedFrom(copies, d, |copies|)
  {
    asked := [];
    var i := |copies|;
    while i >= 2
      invariant 0 <= i <= |copies|
      invariant asked + AskedFrom(copies, d, i) == AskedFrom(copies, d, |copies|)
      invariant DeleteError(d, i) == DeleteError(d, |copies|)
    {
      asked := asked + [copies[i - 1]];
      if d.raises(i).Some? {
        return d.raises(i), asked;
      }
      i := i - 1;
    }
    error := None;
  }

  /** The second pass: count the survivors until there is one. */
  method CountSurvivors(d: Deal, deleted: nat) returns (result: Result)
    ensures result == Verified(d, deleted, 0)
  {
    var k := 0;
    while true
      invariant k <= POLLS && Verified(d, deleted, 0) == Verified(d, deleted, k)
      decreases POLLS - k
    {
      match d.polls(k) {
      case Fails(text) => return ScriptError(text);
      case Sees(n) =>
        if k >= POLLS {
          return WrongSurvivors(n);
        }
        if n == 1 {
          return Trimmed(deleted);
        }
      }
      k := k + 1;
    }
  }

  /** The answer the plane records: too many survivors means some losers may already be gone. */
  function Answer(r: Result): Reply {
    match r
    case Trimmed(_) => Plain(Ok)
    case NotDuplicated => Plain(Failed("not-duplicated"))
    case WrongSurvivors(_) => Outcome(Failed("expected 1 copy to survive"), Unsure)
    case ScriptError(text) => Plain(Failed(text))
  }

  // ---------------------------------------------------------------- what it does to the mailbox

  function GoneOf(copies: seq<nat>, d: Deal): set<nat> { set n | n in Asked(copies, d) && d.leaves(n) }

  function After(box: seq<Copy>, m: Mid, d: Deal): seq<Copy> { KeepBox(box, GoneOf(CopiesOf(box, m), d)) }

  /** The whole batch, one id after another. */
  function AfterBatch(box: seq<Copy>, ids: seq<Mid>, deals: Mid -> Deal): seq<Copy> {
    if ids == [] then box
    else var m := ids[|ids| - 1]; After(AfterBatch(box, ids[..|ids| - 1], deals), m, deals(m))
  }

  lemma {:induction false} AskedIsPastTheFirst(copies: seq<nat>, d: Deal, i: nat)
    requires i <= |copies|
    ensures forall n :: n in AskedFrom(copies, d, i) ==> exists j :: 1 <= j < i && copies[j] == n
    ensures DeleteError(d, i).None? ==> forall j :: 1 <= j < i ==> copies[j] in AskedFrom(copies, d, i)
  {
    if i >= 2 { AskedIsPastTheFirst(copies, d, i - 1); }
  }

  lemma {:induction false} FirstIsKept(nids: seq<nat>, gone: set<nat>)
    requires nids != [] && nids[0] !in gone
    ensures KeepIds(nids, gone) != [] && KeepIds(nids, gone)[0] == nids[0]
  {
  }

  /** One id's deletes never touch its first copy, nor any copy of another message. */
  lemma OneOfEachStays(box: seq<Copy>, m: Mid, d: Deal, other: Mid)
    requires NoDup(Nids(box)) && CopiesOf(box, other) != []
    ensures CopiesOf(After(box, m, d), other) != [] && CopiesOf(After(box, m, d), other)[0] == CopiesOf(box, other)[0]
    ensures other != m ==> CopiesOf(After(box, m, d), other) == CopiesOf(box, other)
  {
    var (copies, theirs) := (CopiesOf(box, m), CopiesOf(box, other));
    var gone := GoneOf(copies, d);
    AskedIsPastTheFirst(copies, d, |copies|);
    CopiesDistinct(box, m, other);
    forall n | n in Asked(copies, d) ensures n != theirs[0] && (other != m ==> n !in theirs) {
      var j :| 1 <= j < |copies| && copies[j] == n;
      assert n in copies;
    }
    CopiesKept(box, gone, other);
    FirstIsKept(theirs, gone);
    KeepIdsCounts(theirs, gone);
  }

  /** Whatever Mail does and wherever it raises, the batch leaves the first copy of every
      message in place, and every copy of a message it was not given. */
  lemma {:induction false} BatchKeepsOneOfEach(box: seq<Copy>, ids: seq<Mid>, deals: Mid -> Deal, m: Mid)
    requires NoDup(Nids(box)) && CopiesOf(box, m) != []
    ensures var after := AfterBatch(box, ids, deals);
      && NoDup(Nids(after)) && CopiesOf(after, m) != [] && CopiesOf(after, m)[0] == CopiesOf(box, m)[0]
      && (m !in ids ==> CopiesOf(after, m) == CopiesOf(box, m))
  {
    if ids != [] {
      var (init, last) := (ids[..|ids| - 1], ids[|ids| - 1]);
      BatchKeepsOneOfEach(box, init, deals, m);
      assert ids == init + [last];
      OneOfEachStays(AfterBatch(box, init, deals), last, deals(last), m);
      KeepBoxNids(AfterBatch(box, init, deals), GoneOf(CopiesOf(AfterBatch(box, init, deals), last), deals(last)));
    }
  }

  // ---------------------------------------------------------------- what the answer means

  /** Some count up to the thirteenth saw one survivor, and none before it raised. */
  ghost predicate SawOne(d: Deal, from: nat) {
    exists k :: from <= k < POLLS && d.polls(k) == Sees(1) && forall j :: from <= j < k ==> d.polls(j).Sees?
  }

  lemma {:induction false} VerifiedExactly(d: Deal, deleted: nat, k: nat)
    requires k <= POLLS
    ensures Verified(d, deleted, k).Trimmed? <==> SawOne(d, k)
    ensures Verified(d, deleted, k).Trimmed? ==> Verified(d, deleted, k).deleted == deleted
    ensures !Verified(d, deleted, k).NotDuplicated?
    decreases POLLS - k
  {
    if k < POLLS && d.polls(k).Sees? && d.polls(k).copies != 1 {
      VerifiedExactly(d, deleted, k + 1);
      if SawOne(d, k) {
        var w :| k <= w < POLLS && d.polls(w) == Sees(1) && forall j :: k <= j < w ==> d.polls(j).Sees?;
        assert w != k;
      }
      if SawOne(d, k + 1) {
        var w :| k + 1 <= w < POLLS && d.polls(w) == Sees(1) && forall j :: k + 1 <= j < w ==> d.polls(j).Sees?;
        assert forall j :: k <= j < w ==> j == k || d.polls(j).Sees?;
      }
    }
  }

  /** The counts from one to another, that one left out, all answered and never with one survivor. */
  ghost predicate Undecided(d: Deal, from: nat, to: nat) {
    forall j :: from <= j < to ==> d.polls(j).Sees? && d.polls(j).copies != 1
  }

  /** Some count raised, and none before it saw one survivor or raised. */
  ghost predicate CountRaises(d: Deal, from: nat) {
    exists k :: from <= k <= POLLS && d.polls(k).Fails? && Undecided(d, from, k)
  }

  lemma CountRaisesStep(d: Deal, from: nat)
    requires from < POLLS && d.polls(from).Sees? && d.polls(from).copies != 1
    ensures CountRaises(d, from) <==> CountRaises(d, from + 1)
  {
    forall k | from < k ensures Undecided(d, from, k) <==> Undecided(d, from + 1, k) {}
  }

  lemma {:induction false} CountErrorExactly(d: Deal, deleted: nat, k: nat)
    requires k <= POLLS
    ensures Verified(d, deleted, k).ScriptError? <==> CountRaises(d, k)
    decreases POLLS - k
  {
    assert d.polls(k).Fails? ==> Undecided(d, k, k);
    if k < POLLS && d.polls(k).Sees? && d.polls(k).copies != 1 {
      CountErrorExactly(d, deleted, k + 1);
      CountRaisesStep(d, k);
    }
  }

  /** Some loser's delete raised. */
  ghost predicate DeleteRaises(copies: seq<nat>, d: Deal) { exists i :: 2 <= i <= |copies| && d.raises(i).Some? }

  lemma {:induction false} DeleteErrorExactly(d: Deal, n: nat)
    ensures DeleteError(d, n).Some? <==> exists i :: 2 <= i <= n && d.raises(i).Some?
  {
    if n >= 2 { DeleteErrorExactly(d, n - 1); }
  }

  /** `ok` exactly when there was a duplicate, every loser was asked to go without an error and
      a count then saw one survivor; it reports the number of losers. */
  lemma TrimmedExactly(copies: seq<nat>, d: Deal)
    ensures Dealt(copies, d).Trimmed? <==> d.listing.None? && |copies| >= 2 && !DeleteRaises(copies, d) && SawOne(d, 0)
    ensures Dealt(copies, d).Trimmed? ==> Dealt(copies, d).deleted == |copies| - 1
    ensures Dealt(copies, d).Trimmed? ==> forall j :: 1 <= j < |copies| ==> copies[j] in Asked(copies, d)
  {
    DeleteErrorExactly(d, |copies|);
    if |copies| >= 2 { VerifiedExactly(d, |copies| - 1, 0); }
    AskedIsPastTheFirst(copies, d, |copies|);
  }

  /** An error exactly when Mail raised: listing the copies, deleting a loser, or counting what is left. */
  lemma ScriptErrorExactly(copies: seq<nat>, d: Deal)
    ensures Dealt(copies, d).ScriptError?
      <==> d.listing.Some? || (|copies| >= 2 && (DeleteRaises(copies, d) || CountRaises(d, 0)))
  {
    DeleteErrorExactly(d, |copies|);
    if |copies| >= 2 { CountErrorExactly(d, |copies| - 1, 0); }
  }

  /** One id through both passes. The first copy is never asked to go; `ok` means every other
      was, without an error, and a count saw one survivor; an error means that Mail raised. */
  method Dedupe(copies: seq<nat>, d: Deal) returns (result: Result, asked: seq<nat>)
    ensures result == Dealt(copies, d) && asked == Asked(copies, d)
    ensures forall n :: n in asked ==> exists j :: 1 <= j < |copies| && copies[j] == n
    ensures result.NotDuplicated? <==> d.listing.None? && |copies| < 2
    ensures result.Trimmed? <==> d.listing.None? && |copies| >= 2 && !DeleteRaises(copies, d) && SawOne(d, 0)
    ensures result.Trimmed? ==> result.deleted == |copies| - 1 && forall j :: 1 <= j < |copies| ==> copies[j] in asked
    ensures result.ScriptError? <==> d.listing.Some? || (|copies| >= 2 && (DeleteRaises(copies, d) || CountRaises(d, 0)))
  {
    TrimmedExactly(copies, d);
    ScriptErrorExactly(copies, d);
    AskedIsPastTheFirst(copies, d, |copies|);
    NotDuplicatedExactly(copies, d);
    hide SawOne, DeleteRaises, CountRaises;
    if d.listing.Some? {
      return ScriptError(d.listing.value), [];
    }
    if |copies| < 2 {
      return NotDuplicated, [];
    }
    var error;
    error, asked := DeleteLosers(copies, d);
    if error.Some? {
      return ScriptError(error.value), asked;
    }
    result := CountSurvivors(d, |copies| - 1);
  }

  lemma NotDuplicatedExactly(copies: seq<nat>, d: Deal)
    ensures Dealt(copies, d).NotDuplicated? <==> d.listing.None? && |copies| < 2
  {
    if |copies| >= 2 { VerifiedExactly(d, |copies| - 1, 0); }
  }

  // ---------------------------------------------------------------- every answer, told by what Mail does

  /** The first raise, deleting from the back: at the i-th copy, none raising behind it. */
  ghost predicate DeleteSays(d: Deal, n: nat, text: string) {
    exists i :: 2 <= i <= n && d.raises(i) == Some(text) && forall j :: i < j <= n ==> d.raises(j).None?
  }

  /** A count raised, the ones before it having answered and seen more or fewer than one. */
  ghost predicate CountSays(d: Deal, text: string) { exists k :: 0 <= k <= 13 && d.polls(k) == Fails(text) && Undecided(d, 0, k) }

  /** One of thirteen counts saw one survivor, and none before it raised. */
  ghost predicate OneSurvived(d: Deal) {
    exists k :: 0 <= k < 13 && d.polls(k) == Sees(1) && forall j :: 0 <= j < k ==> d.polls(j).Sees?
  }

  /** Thirteen counts never saw one survivor, and the fourteenth answered. */
  ghost predicate NeverOne(d: Deal) { Undecided(d, 0, 13) && d.polls(13).Sees? }

  lemma {:induction false} DeleteErrorText(d: Deal, n: nat, text: string)
    ensures DeleteError(d, n) == Some(text) <==> DeleteSays(d, n, text)
  {
    if n >= 2 {
      DeleteErrorText(d, n - 1, text);
      if d.raises(n).None? && DeleteError(d, n - 1) == Some(text) {
        var i :| 2 <= i <= n - 1 && d.raises(i) == Some(text) && forall j :: i < j <= n - 1 ==> d.raises(j).None?;
        assert forall j :: i < j <= n ==> j == n || d.raises(j).None?;
      }
    }
  }

  lemma {:induction false} CountedExactly(d: Deal, deleted: nat, k: nat)
    requires k <= 13 && Undecided(d, 0, k)
    ensures Verified(d, deleted, k).Trimmed? <==> OneSurvived(d)
    ensures Verified(d, deleted, k).WrongSurvivors? <==> NeverOne(d)
    ensures forall text :: Verified(d, deleted, k) == ScriptError(text) <==> CountSays(d, text)
    decreases 13 - k
  {
    match d.polls(k)
    case Fails(text) =>
      assert CountSays(d, text);
    case Sees(n) =>
      if k < 13 && n != 1 {
        CountedExactly(d, deleted, k + 1);
      }
  }

  /** Each answer exactly: `ok` when the losers went without an error and a count saw one
      survivor; `not-duplicated`, said to have stayed, when there were no duplicates; unsure when
      no count ever saw one; else the text of what Mail raised first. */
  lemma AnswerExactly(copies: seq<nat>, d: Deal)
    ensures var (reply, tried) := (Answer(Dealt(copies, d)), d.listing.None? && |copies| >= 2);
      && (reply == Plain(Ok) <==> tried && !DeleteRaises(copies, d) && OneSurvived(d))
      && (d.listing.None? && |copies| < 2 ==> reply == Plain(Failed("not-duplicated")))
      && (reply == Outcome(Failed("expected 1 copy to survive"), Unsure) <==> tried && !DeleteRaises(copies, d) && NeverOne(d))
      && (d.listing.Some? ==> reply == Plain(Failed(d.listing.value)))
      && (forall text :: tried && DeleteSays(d, |copies|, text) ==> reply == Plain(Failed(text)))
      && (forall text :: tried && !DeleteRaises(copies, d) && CountSays(d, text) ==> reply == Plain(Failed(text)))
      && LeftOf(reply) == if reply == Plain(Ok) then Left else if reply.Outcome? then Unsure else Stayed
  {
    DeleteErrorExactly(d, |copies|);
    forall text ensures DeleteError(d, |copies|) == Some(text) <==> DeleteSays(d, |copies|, text) {
      DeleteErrorText(d, |copies|, text);
    }
    CountedExactly(d, if |copies| >= 2 then |copies| - 1 else 0, 0);
    if |copies| >= 2 && DeleteError(d, |copies|).None? { VerifiedExactly(d, |copies| - 1, 0); }
    hide Verified, DeleteError, OneSurvived, NeverOne, CountSays;
  }

  /** No delete from just behind `from` up to `to` raises. */
  ghost predicate NoneRaises(d: Deal, from: int, to: int) { forall i: nat :: from < i <= to ==> d.raises(i).None? }

  /** Counted from the back, the m-th of `n` copies is past the first, and none behind it raised. */
  ghost predicate Reached(d: Deal, n: int, m: int) { 0 <= m && n - m >= 2 && NoneRaises(d, n - m, n) }

  lemma ReachedStep(d: Deal, n: nat, m: int)
    requires n >= 2
    ensures Reached(d, n, m) <==> m == 0 || (d.raises(n).None? && Reached(d, n - 1, m - 1))
  {
    if m == 0 {
      assert NoneRaises(d, n, n);
    } else if d.raises(n).None? {
      assert NoneRaises(d, n - m, n) <==> NoneRaises(d, n - m, n - 1);
    }
  }

  /** The last ones of the first `n` copies, the last first. */
  ghost predicate FromBack(copies: seq<nat>, n: nat, asked: seq<nat>)
    requires n <= |copies|
  {
    |asked| <= n && forall m :: 0 <= m < |asked| ==> asked[m] == copies[n - 1 - m]
  }

  lemma FromBackStep(copies: seq<nat>, n: nat, rest: seq<nat>)
    requires 1 <= n <= |copies| && FromBack(copies, n - 1, rest)
    ensures FromBack(copies, n, [copies[n - 1]] + rest)
  {
    var asked := [copies[n - 1]] + rest;
    forall m | 0 <= m < |asked| ensures asked[m] == copies[n - 1 - m] {
      if m > 0 { assert rest[m - 1] == copies[n - 1 - 1 - (m - 1)]; }
    }
  }

  /** Which copies are asked to go: from the last down to the second, one after another, as long
      as none of those before has raised. */
  lemma {:induction false} AskedExactly(copies: seq<nat>, d: Deal, n: nat)
    requires n <= |copies|
    ensures FromBack(copies, n, AskedFrom(copies, d, n))
    ensures forall m :: Reached(d, n, m) <==> 0 <= m < |AskedFrom(copies, d, n)|
  {
    hide Reached, FromBack;
    if n < 2 {
      forall m ensures !Reached(d, n, m) { TooFew(d, n, m); }
      assert FromBack(copies, n, []) by { NoneAsked(copies, n); }
    } else {
      AskedExactly(copies, d, n - 1);
      FromBackStep(copies, n, AskedFrom(copies, d, n - 1));
      NoneAsked(copies, n - 1);
      FromBackStep(copies, n, []);
      assert [copies[n - 1]] + [] == [copies[n - 1]];
      forall m ensures Reached(d, n, m) <==> 0 <= m < |AskedFrom(copies, d, n)| {
        ReachedStep(d, n, m);
        assert Reached(d, n - 1, m - 1) <==> 0 <= m - 1 < |AskedFrom(copies, d, n - 1)|;
      }
    }
  }

  lemma NoneAsked(copies: seq<nat>, n: nat)
    requires n <= |copies|
    ensures FromBack(copies, n, [])
  {
  }

  lemma TooFew(d: Deal, n: nat, m: int)
    ensures n < 2 ==> !Reached(d, n, m)
  {
  }

  /** When some loser left, the recorded answer keeps it out of the undo exactly when Mail
      raised: in deleting another loser, or in a count before one survivor was seen. */
  lemma LostAndNotReplayedExactly(copies: seq<nat>, d: Deal)
    requires GoneOf(copies, d) != {}
    ensures LeftOf(Answer(Dealt(copies, d))) == Stayed <==> DeleteRaises(copies, d) || CountRaises(d, 0)
  {
    ScriptErrorExactly(copies, d);
    NotDuplicatedExactly(copies, d);
    hide DeleteRaises, CountRaises;
  }

  /** It happens: of three copies, the last is deleted, the second raises. */
  lemma HalfDeletedIsNotReplayed() returns (copies: seq<nat>, d: Deal)
    ensures GoneOf(copies, d) == {2} && LeftOf(Answer(Dealt(copies, d))) == Stayed
  {
    copies := [0, 1, 2];
    d := Deal(None, i => if i == 2 then Some("busy") else None, n => n == 2, k => Sees(2));
    assert AskedFrom(copies, d, 2) == [1] + [];
    assert AskedFrom(copies, d, 3) == [2] + [1];
  }
}
