/**
 The account-name cache of `macos_apps_mcp/adapters/mail_addressing.py`: a map cached for the
 life of the process, with a short leash on failures and a limit on forced re-reads.
 */
module AccountCache {
  import opened Prelude

  // Seconds a failed or empty lookup, or a forced re-read, is remembered.
  const TTL: real := 60.0

  type Names = map<string, string>

  /** The three module globals: the cached map, the stamp of a cached failure or empty
      answer, and the stamp of the last forced re-read. */
  datatype Globals = Globals(cache: Option<Names>, failureAt: Option<real>, refreshedAt: Option<real>)

  const INITIAL := Globals(None, None, None)

  /** One call: `account_map` or `refresh_account_map`, with its clock readings in order and
      what osascript would answer (None for an error). */
  datatype Call = Call(forced: bool, start: real, read: real, done: real, answer: Option<Names>)

  /** What a call did: no lookup, its own, or a forced one. */
  datatype Lookup = NoLookup | Own | Forced

  predicate Expired(s: Globals, now: real) { s.failureAt.Some? && now - s.failureAt.value >= TTL }

  /** `account_map` at clock reading `now`; an osascript answer arrives at `done`. */
  function AccountMap(s: Globals, now: real, done: real, answer: Option<Names>): (Globals, bool) {
    var current := if Expired(s, now) then s.(cache := None, failureAt := None) else s;
    if current.cache.Some? then (current, false)
    else match answer
      case None => (current.(cache := Some(map[]), failureAt := Some(done)), true)
      case Some(m) => (current.(cache := Some(m), failureAt := if m != map[] then None else Some(done)), true)
  }

  predicate Limited(s: Globals, now: real) { s.refreshedAt.Some? && now - s.refreshedAt.value < TTL }

  function Refreshed(s: Globals, read: real, done: real, answer: Option<Names>): Globals {
    var (after, _) := AccountMap(Globals(None, None, Some(read)), read, done, answer);
    if after.cache == Some(map[]) && s.cache.Some? && s.cache.value != map[]
    then after.(cache := s.cache, failureAt := None) else after
  }

  /** One call's effect on the globals, and whether it started osascript. */
  function Step(s: Globals, c: Call): (Globals, Lookup) {
    if c.forced && !Limited(s, c.start) then (Refreshed(s, c.read, c.done, c.answer), Forced)
    else
      var (after, looked) := AccountMap(s, c.read, c.done, c.answer);
      (after, if looked then Own else NoLookup)
  }

  /** The module's state, updated in place. */
  class Addressing {
    var cache: Option<Names>
    var failureAt: Option<real>
    var refreshedAt: Option<real>

    constructor ()
      ensures State() == INITIAL
    {
      cache, failureAt, refreshedAt := None, None, None;
    }

    function State(): Globals reads this { Globals(cache, failureAt, refreshedAt) }

    method LookUpNames(now: real, done: real, answer: Option<Names>) returns (names: Names, looked: bool)
      modifies this
      ensures (State(), looked) == AccountMap(old(State()), now, done, answer)
      ensures cache == Some(names)
    {
      if failureAt.Some? && now - failureAt.value >= TTL {
        cache, failureAt := None, None;
      }
      looked := cache.None?;
      if cache.None? {
        if answer.None? {
          cache, failureAt := Some(map[]), Some(done);
        } else {
          cache := answer;
          failureAt := if answer.value != map[] then None else Some(done);
        }
      }
      names := cache.value;
    }

    method RefreshNames(c: Call) returns (names: Names)
      requires c.forced
      modifies this
      ensures State() == Step(old(State()), c).0
      ensures cache == Some(names)
    {
      var looked;
      if refreshedAt.Some? && c.start - refreshedAt.value < TTL {
        names, looked := LookUpNames(c.read, c.done, c.answer);
        return;
      }
      var previous := cache;
      cache, failureAt, refreshedAt := None, None, Some(c.read);
      names, looked := LookUpNames(c.read, c.done, c.answer);
      if names == map[] && previous.Some? && previous.value != map[] {
        cache, failureAt := previous, None;
        names := previous.value;
      }
    }
  }

  // ---------------------------------------------------------------- runs of calls

  /** Each call reads the clock in order, after the call before it. */
  ghost predicate Clocked(calls: seq<Call>) {
    (forall i :: 0 <= i < |calls| ==> calls[i].start <= calls[i].read <= calls[i].done)
    && forall i, j :: 0 <= i < j < |calls| ==> calls[i].done <= calls[j].start
  }

  function Run(s: Globals, calls: seq<Call>): Globals
    decreases |calls|
  {
    if calls == [] then s else Run(Step(s, calls[0]).0, calls[1..])
  }

  /** What call `i` of the run did. */
  function Did(s: Globals, calls: seq<Call>, i: nat): Lookup
    requires i < |calls|
    decreases |calls|
  {
    if i == 0 then Step(s, calls[0]).1 else Did(Step(s, calls[0]).0, calls[1..], i - 1)
  }

  ghost predicate Holds(s: Globals) { s.cache.Some? && s.cache.value != map[] }

  /** A failure stamp is kept only beside an empty map, and an empty map only beside a stamp. */
  ghost predicate Leashed(s: Globals) {
    && (s.failureAt.Some? ==> s.cache == Some(map[]))
    && (s.cache == Some(map[]) ==> s.failureAt.Some?)
  }

  lemma StepKeepsLeash(s: Globals, c: Call)
    requires Leashed(s)
    ensures Leashed(Step(s, c).0)
    ensures Holds(s) ==> Holds(Step(s, c).0)
    ensures Step(s, c).0.cache != s.cache && Holds(Step(s, c).0) ==> Step(s, c).0.cache == c.answer
  {
  }

  /** Over every run of calls, failures and empty answers: a non-empty map never carries a
      failure stamp and is never lost, and whatever map is held was once an answer. */
  lemma {:induction false} MapIsNeverLost(s: Globals, calls: seq<Call>)
    requires Leashed(s)
    ensures Leashed(Run(s, calls))
    ensures Holds(s) ==> Holds(Run(s, calls))
    ensures Holds(Run(s, calls)) ==> Run(s, calls).cache == s.cache || exists c :: c in calls && c.answer == Run(s, calls).cache
    ensures Holds(Run(s, calls)) ==> Run(s, calls).failureAt.None?
    decreases |calls|
  {
    if calls != [] {
      StepKeepsLeash(s, calls[0]);
      MapIsNeverLost(Step(s, calls[0]).0, calls[1..]);
      assert calls[0] in calls && forall c :: c in calls[1..] ==> c in calls;
    }
  }

  /** After a lookup of either kind that began at `t`, the next of its kind must wait out the TTL. */
  ghost predicate OwnLeash(s: Globals, t: real) {
    s.cache.Some? && (s.failureAt.Some? ==> s.failureAt.value >= t)
  }

  ghost predicate ForcedLeash(s: Globals, t: real) { s.refreshedAt.Some? && s.refreshedAt.value >= t }

  lemma {:induction false} OwnLookupsWait(s: Globals, calls: seq<Call>, i: nat, t: real)
    requires Clocked(calls) && i < |calls| && OwnLeash(s, t) && Leashed(s)
    requires forall k :: 0 <= k < |calls| ==> t <= calls[k].start
    ensures Did(s, calls, i) == Own ==> calls[i].read - t >= TTL
    decreases |calls|
  {
    var c := calls[0];
    if i > 0 {
      StepKeepsLeash(s, c);
      assert OwnLeash(Step(s, c).0, t);
      OwnLookupsWait(Step(s, c).0, calls[1..], i - 1, t);
    }
  }

  lemma {:induction false} ForcedLookupsWait(s: Globals, calls: seq<Call>, i: nat, t: real)
    requires Clocked(calls) && i < |calls| && ForcedLeash(s, t)
    requires forall k :: 0 <= k < |calls| ==> t <= calls[k].start
    ensures Did(s, calls, i) == Forced ==> calls[i].read - t >= TTL
    decreases |calls|
  {
    if i > 0 {
      assert ForcedLeash(Step(s, calls[0]).0, t);
      ForcedLookupsWait(Step(s, calls[0]).0, calls[1..], i - 1, t);
    }
  }

  /** Two lookups of one kind in a run begin at least the TTL apart. */
  lemma {:induction false} LookupsOfOneKindAreApart(s: Globals, calls: seq<Call>, i: nat, j: nat)
    requires Clocked(calls) && Leashed(s) && i < j < |calls|
    requires Did(s, calls, i) == Did(s, calls, j) != NoLookup
    ensures calls[j].read - calls[i].read >= TTL
    decreases |calls|
  {
    var c, next := calls[0], Step(s, calls[0]).0;
    StepKeepsLeash(s, c);
    if i == 0 {
      if Did(s, calls, 0) == Own {
        OwnLookupsWait(next, calls[1..], j - 1, c.read);
      } else {
        ForcedLookupsWait(next, calls[1..], j - 1, c.read);
      }
    } else {
      LookupsOfOneKindAreApart(next, calls[1..], i - 1, j - 1);
    }
  }

  /** So any window shorter than the TTL holds at most two osascript lookups: of any three,
      two are of one kind and lie further apart. */
  lemma AtMostTwoLookupsPerWindow(calls: seq<Call>, i: nat, j: nat, k: nat)
    requires Clocked(calls) && i < j < k < |calls|
    requires Did(INITIAL, calls, i) != NoLookup && Did(INITIAL, calls, j) != NoLookup && Did(INITIAL, calls, k) != NoLookup
    ensures calls[k].read - calls[i].read >= TTL
  {
    if Did(INITIAL, calls, i) == Did(INITIAL, calls, j) {
      LookupsOfOneKindAreApart(INITIAL, calls, i, j);
    } else if Did(INITIAL, calls, j) == Did(INITIAL, calls, k) {
      LookupsOfOneKindAreApart(INITIAL, calls, j, k);
    } else {
      LookupsOfOneKindAreApart(INITIAL, calls, i, k);
    }
  }

  // ---------------------------------------------------------------- the whole history

  /** The globals once the first `k` calls of a process are over. */
  function After(calls: seq<Call>, k: nat): Globals
    requires k <= |calls|
  {
    Run(INITIAL, calls[..k])
  }

  lemma {:induction false} OneCallMore(s: Globals, calls: seq<Call>, i: nat)
    requires i < |calls|
    ensures Did(s, calls, i) == Step(Run(s, calls[..i]), calls[i]).1
    ensures Run(s, calls[..i + 1]) == Step(Run(s, calls[..i]), calls[i]).0
    decreases |calls|
  {
    hide Step;
    assert calls[..i + 1][0] == calls[0] && calls[..i + 1][1..] == calls[1..][..i];
    if i > 0 {
      OneCallMore(Step(s, calls[0]).0, calls[1..], i - 1);
      assert calls[..i][0] == calls[0] && calls[..i][1..] == calls[1..][..i - 1];
    }
  }

  predicate HasNames(answer: Option<Names>) { answer.Some? && answer.value != map[] }

  /** One call: whether it looks up, and what it leaves. */
  lemma StepExactly(s: Globals, c: Call)
    requires Leashed(s)
    ensures var (after, what) := Step(s, c);
      && (what == Forced <==> c.forced && (s.refreshedAt.Some? ==> c.start - s.refreshedAt.value >= 60.0))
      && (what == Own ==> s.cache.None? || (s.failureAt.Some? && c.read - s.failureAt.value >= 60.0))
      && (what == NoLookup ==> s.cache.Some? && (s.failureAt.Some? ==> c.read - s.failureAt.value < 60.0))
      && (what == NoLookup ==> after == s)
      && (what != NoLookup && HasNames(c.answer) ==> after.cache == c.answer && after.failureAt.None?)
      && (what != NoLookup && !HasNames(c.answer) && HasNames(s.cache) ==> after.cache == s.cache && after.failureAt.None?)
      && (what != NoLookup && !HasNames(c.answer) && !HasNames(s.cache) ==> after.cache == Some(map[]) && after.failureAt == Some(c.done))
      && after.refreshedAt == if what == Forced then Some(c.read) else s.refreshedAt
  {
  }

  /** Call `i` looked up; it did so by force; its lookup brought names. */
  predicate Looked(calls: seq<Call>, i: nat) requires i < |calls| { Did(INITIAL, calls, i) != NoLookup }
  predicate WasForced(calls: seq<Call>, i: nat) requires i < |calls| { Did(INITIAL, calls, i) == Forced }
  predicate Brought(calls: seq<Call>, i: nat) requires i < |calls| {
    Looked(calls, i) && HasNames(calls[i].answer)
  }

  /** The latest of the first `k` calls to do so. */
  function LastLooked(calls: seq<Call>, k: nat): Option<nat>
    requires k <= |calls|
  {
    if k == 0 then None else if Looked(calls, k - 1) then Some(k - 1) else LastLooked(calls, k - 1)
  }

  function LastForced(calls: seq<Call>, k: nat): Option<nat>
    requires k <= |calls|
  {
    if k == 0 then None else if WasForced(calls, k - 1) then Some(k - 1) else LastForced(calls, k - 1)
  }

  function LastBrought(calls: seq<Call>, k: nat): Option<nat>
    requires k <= |calls|
  {
    if k == 0 then None else if Brought(calls, k - 1) then Some(k - 1) else LastBrought(calls, k - 1)
  }

  lemma {:induction false} LastIsEarlier(calls: seq<Call>, k: nat)
    requires k <= |calls|
    ensures LastLooked(calls, k).Some? ==> LastLooked(calls, k).value < k
    ensures LastForced(calls, k).Some? ==> LastForced(calls, k).value < k
    ensures LastBrought(calls, k).Some? ==> LastBrought(calls, k).value < k && LastLooked(calls, k).Some?
  {
    if k > 0 { LastIsEarlier(calls, k - 1); }
  }

  /** What a process remembers, told from its calls alone: the names the latest lookup that
      brought any brought, else an empty map once something was looked up, with the time the
      latest lookup failed; and when the latest forced lookup began. */
  ghost predicate Remembers(calls: seq<Call>, k: nat, s: Globals)
    requires k <= |calls|
  {
    LastIsEarlier(calls, k);
    var (brought, looked, forced) := (LastBrought(calls, k), LastLooked(calls, k), LastForced(calls, k));
    && (brought.Some? ==> s.cache == calls[brought.value].answer && s.failureAt.None?)
    && (brought.None? && looked.Some? ==> s.cache == Some(map[]) && s.failureAt == Some(calls[looked.value].done))
    && (looked.None? ==> s.cache.None? && s.failureAt.None?)
    && (forced.Some? ==> s.refreshedAt == Some(calls[forced.value].read)) && (forced.None? ==> s.refreshedAt.None?)
  }

  /** After any number of calls the globals are what the calls make them: a non-empty answer is
      cached and returned from then on, until another replaces it. */
  lemma {:induction false} HistoryExactly(calls: seq<Call>, k: nat)
    requires k <= |calls|
    ensures Remembers(calls, k, After(calls, k))
  {
    hide Did, Run, Remembers;
    if k == 0 {
      RunOfNone(calls);
      NothingRemembered(calls);
    } else {
      HistoryExactly(calls, k - 1);
      OneCallMore(INITIAL, calls, k - 1);
      StepRemembers(calls, k, After(calls, k - 1));
    }
  }

  lemma NothingRemembered(calls: seq<Call>)
    ensures Remembers(calls, 0, INITIAL)
  {
  }

  lemma RememberingIsLeashed(calls: seq<Call>, k: nat, s: Globals)
    requires k <= |calls| && Remembers(calls, k, s)
    ensures Leashed(s)
    ensures HasNames(s.cache) <==> LastBrought(calls, k).Some?
  {
    hide Did;
    BroughtNames(calls, k);
  }

  lemma {:induction false} BroughtNames(calls: seq<Call>, k: nat)
    requires k <= |calls|
    ensures LastBrought(calls, k).Some? ==> LastBrought(calls, k).value < k && Brought(calls, LastBrought(calls, k).value)
    ensures LastBrought(calls, k).Some? ==> LastLooked(calls, k).Some?
  {
    hide Did;
    if k > 0 { BroughtNames(calls, k - 1); }
  }

  lemma StepRemembers(calls: seq<Call>, k: nat, s: Globals)
    requires 0 < k <= |calls| && Remembers(calls, k - 1, s) && Did(INITIAL, calls, k - 1) == Step(s, calls[k - 1]).1
    ensures Remembers(calls, k, Step(s, calls[k - 1]).0)
  {
    hide Did, Step;
    RememberingIsLeashed(calls, k - 1, s);
    StepExactly(s, calls[k - 1]);
    LastIsEarlier(calls, k - 1);
  }

  lemma RunOfNone(calls: seq<Call>)
    ensures After(calls, 0) == INITIAL
  {
    assert calls[..0] == [];
  }

  /** When a call starts osascript, exactly: a forced call when no forced lookup began in the last
      60 seconds; any other call when no lookup has brought a name yet and the latest one, if
      any, failed at least 60 seconds ago. So an expired failure is retried, and once. */
  lemma LookupExactly(calls: seq<Call>, k: nat)
    requires k < |calls|
    ensures var (brought, looked, forced) := (LastBrought(calls, k), LastLooked(calls, k), LastForced(calls, k));
      && (looked.Some? ==> looked.value < k) && (forced.Some? ==> forced.value < k)
      && (WasForced(calls, k) <==> calls[k].forced && (forced.Some? ==> calls[k].start - calls[forced.value].read >= 60.0))
      && (Looked(calls, k) && !WasForced(calls, k)
          <==> !WasForced(calls, k) && brought.None? && (looked.Some? ==> calls[k].read - calls[looked.value].done >= 60.0))
  {
    hide Did, Run, Step;
    LastIsEarlier(calls, k);
    HistoryExactly(calls, k);
    OneCallMore(INITIAL, calls, k);
    RememberingIsLeashed(calls, k, After(calls, k));
    StepExactly(After(calls, k), calls[k]);
  }
}
