/**
 The borrowed clipboard of `compose_insert` (`macos_apps_mcp/runtime.py`): snapshot, write,
 paste, roll back when the paste did not settle, and give the clipboard back.
 */
module Clipboard {
  /** What the clipboard holds: the user's n-th copy, our text, or half a write. */
  datatype Clip = Theirs(n: nat) | Ours | Broken

  /** The moments at which the user may copy something. */
  datatype Window = BeforeSnapshot | BeforeRecheck | BeforeWrite | BeforeMark | WhileWaiting | BeforeRestore

  /** How the call fares: stopped before the write, a write that failed midway, a failure
      after the mark was read, a paste that never settled, or one that did. */
  datatype Fate = Stops | WriteFails | PasteFails | NeverSettles(rollbackRaises: bool) | Settles

  datatype Act = Wrote | RolledBack | Restored

  datatype Outcome = Refused | Raised | Unsettled | Inserted

  type Copies = Window -> nat

  /** The recheck sees a copy made since the call first read the change count. */
  predicate CaughtEarly(c: Copies) { c(BeforeSnapshot) + c(BeforeRecheck) > 0 }

  predicate Writes(c: Copies, f: Fate) { !f.Stops? && !CaughtEarly(c) }

  /** The restore runs: always after a write that failed midway, else unless the change count
      moved while the paste was pending. */
  predicate Restores(c: Copies, f: Fate) { Writes(c, f) && (f.WriteFails? || c(WhileWaiting) == 0) }

  /** Copies the restore puts away: those of the moments the change count cannot tell from our own writes. */
  function Blind(c: Copies, f: Fate): nat {
    c(BeforeWrite) + c(BeforeMark) + c(BeforeRestore) + (if f.WriteFails? then c(WhileWaiting) else 0)
  }

  function Repeat(a: Act, n: nat): seq<Act> { seq(n, _ => a) }

  /** How often the caller's rollback is called: again when the first call itself raised. */
  function Rollbacks(f: Fate, rollback: bool): nat {
    if !rollback || f.Settles? then 0 else if f.NeverSettles? && f.rollbackRaises then 2 else 1
  }

  class Pasteboard {
    var held: Clip
    var count: nat
    var made: nat
    var trace: seq<Act>

    constructor ()
      ensures held == Theirs(0) && made == 0 && trace == []
    {
      held, count, made, trace := Theirs(0), 0, 0, [];
    }

    method UserCopies(k: nat)
      modifies this`held, this`count, this`made
      ensures made == old(made) + k && count == old(count) + k
      ensures held == if k > 0 then Theirs(made) else old(held)
    {
      if k > 0 {
        held, made, count := Theirs(made + k), made + k, count + k;
      }
    }

    /** The paste after the write, and the caller's rollback whenever it did not settle. */
    method Paste(f: Fate, rollback: bool) returns (outcome: Outcome)
      modifies this`trace
      ensures trace == old(trace) + Repeat(RolledBack, Rollbacks(f, rollback))
      ensures outcome.Inserted? <==> f.Settles?
    {
      if f.Settles? {
        return Inserted;
      }
      outcome := if f.NeverSettles? then Unsettled else Raised;
      if rollback {
        trace := trace + [RolledBack];
        if f.NeverSettles? && f.rollbackRaises {
          trace := trace + [RolledBack];
          outcome := Raised;
        }
      }
    }

    /** Up to the write: the snapshot, and the refusal when a copy was made meanwhile. */
    method Prepare(c: Copies, f: Fate) returns (snapshot: Clip, ready: bool)
      requires held == Theirs(made)
      modifies this`held, this`count, this`made
      ensures held == Theirs(made) && made == old(made) + c(BeforeSnapshot) + c(BeforeRecheck)
      ensures ready == Writes(c, f)
      ensures ready ==> snapshot == Theirs(made)
    {
      var first := count;
      UserCopies(c(BeforeSnapshot));
      snapshot := held;
      UserCopies(c(BeforeRecheck));
      ready := !f.Stops? && count == first;
    }

    /** From the write to the restore. */
    method Borrow(c: Copies, f: Fate, rollback: bool, snapshot: Clip) returns (outcome: Outcome)
      requires held == Theirs(made) == snapshot && Writes(c, f)
      modifies this
      ensures made >= old(made)
      ensures held == Theirs(made) <==> !(Restores(c, f) && Blind(c, f) > 0)
      ensures Restores(c, f) ==> held == snapshot
      ensures trace == old(trace) + [Wrote] + Repeat(RolledBack, Rollbacks(f, rollback)) + (if Restores(c, f) then [Restored] else [])
      ensures outcome.Inserted? <==> f.Settles?
    {
      hide Repeat, Rollbacks;
      UserCopies(c(BeforeWrite));
      trace := trace + [Wrote];
      held, count := if f.WriteFails? then Broken else Ours, count + 1;
      UserCopies(c(BeforeMark));
      var mine := count;
      UserCopies(c(WhileWaiting));
      outcome := Paste(f, rollback);
      var restore := f.WriteFails? || count == mine;
      UserCopies(c(BeforeRestore));
      if restore {
        held, count := snapshot, count + 1;
        trace := trace + [Restored];
      }
    }

    /** `compose_insert`. Nothing is written after a copy the recheck can see; a rollback, when
        there is one to run, comes before the clipboard is given back; and the clipboard ends
        holding the user's newest copy exactly unless the restore runs over a copy it could
        not see. */
    method ComposeInsert(c: Copies, f: Fate, rollback: bool) returns (outcome: Outcome)
      requires held == Theirs(made)
      modifies this
      ensures made >= old(made)
      ensures held == Theirs(made) <==> !(Restores(c, f) && Blind(c, f) > 0)
      ensures Restores(c, f) ==> held == Theirs(old(made))
      ensures trace == old(trace) + if !Writes(c, f) then [] else
        [Wrote] + Repeat(RolledBack, Rollbacks(f, rollback)) + (if Restores(c, f) then [Restored] else [])
      ensures outcome.Inserted? <==> Writes(c, f) && f.Settles?
    {
      hide Repeat, Rollbacks, Blind;
      var snapshot, ready := Prepare(c, f);
      if !ready {
        return Refused;
      }
      outcome := Borrow(c, f, rollback, snapshot);
    }
  }
}
