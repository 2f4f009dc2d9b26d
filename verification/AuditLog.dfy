/**
 The rotating audit log of `macos_apps_mcp/audit.py`.

 A file is held as Python sees it after `text.split("\n")`: a list of lines whose last
 entry is what follows the final newline, so an absent or empty file is one empty line.
 A line is the pieces that writes have left on it: a whole JSON document, or the shard
 of one that a failed write cut short.
 */
module AuditLog {
  import opened Prelude

  // Rotate past this many bytes; one backup is kept.
  const AUDIT_MAX_BYTES: nat := 5 * 1024 * 1024

  datatype Piece<R> = Doc(record: R, size: nat) | Shard(size: nat)
  type Line<R> = seq<Piece<R>>
  type File<R> = f: seq<Line<R>> | f != [] witness [[]]

  /** `audit.jsonl.1` and `audit.jsonl`. */
  datatype Log<R> = Log(backup: File<R>, live: File<R>)

  /** How one append ends. A failure may strike before the rotation, or after it with
      the first `bytes` bytes of the new line already on disk. */
  datatype Fate = Completes | StopsBefore | Tears(bytes: nat)

  datatype Write<R> = Write(record: R, size: nat, fate: Fate)

  function LineSize<R>(line: Line<R>): nat {
    if line == [] then 0 else line[0].size + LineSize(line[1..])
  }

  function LinesSize<R>(lines: seq<Line<R>>): nat {
    if lines == [] then 0 else LineSize(lines[0]) + 1 + LinesSize(lines[1..])
  }

  /** Bytes of a file: its lines and the newlines between them. */
  function FileSize<R>(f: File<R>): nat {
    LinesSize(f) - 1
  }

  /** `json.loads` of one line: exactly one whole document is a record, anything else
      (an empty line, a shard, two documents glued together) is skipped. */
  function ParseLine<R>(line: Line<R>): seq<R> {
    if |line| == 1 && line[0].Doc? then [line[0].record] else []
  }

  function ParseLines<R>(lines: seq<Line<R>>): seq<R> {
    if lines == [] then [] else ParseLine(lines[0]) + ParseLines(lines[1..])
  }

  function Tail<R>(f: File<R>): Line<R> { f[|f| - 1] }

  /** Records on lines that a newline has closed: no later append can touch them. */
  function Closed<R>(f: File<R>): seq<R> { ParseLines(f[..|f| - 1]) }

  /** Everything `read_all` yields, oldest first. */
  function ReadAll<R>(log: Log<R>): seq<R> { ParseLines(log.backup) + ParseLines(log.live) }

  function ClosedAll<R>(log: Log<R>): seq<R> { Closed(log.backup) + Closed(log.live) }

  predicate Rotates<R>(log: Log<R>) { FileSize(log.live) > AUDIT_MAX_BYTES }

  function Rotated<R>(log: Log<R>): Log<R> {
    if Rotates(log) then Log(log.live, [[]]) else log
  }

  /** The first `bytes` bytes of `document + newline` put at the end of a file. */
  function Extend<R>(f: File<R>, record: R, size: nat, bytes: nat): File<R> {
    if bytes == 0 then f
    else if bytes < size then f[|f| - 1 := Tail(f) + [Shard(bytes)]]
    else if bytes == size then f[|f| - 1 := Tail(f) + [Doc(record, size)]]
    else f[|f| - 1 := Tail(f) + [Doc(record, size)]] + [[]]
  }

  /** What one `audit_write` leaves on disk. */
  function Written<R>(log: Log<R>, w: Write<R>): Log<R> {
    match w.fate
    case StopsBefore => log
    case Completes => var l := Rotated(log); l.(live := Extend(l.live, w.record, w.size, w.size + 1))
    case Tears(bytes) => var l := Rotated(log); l.(live := Extend(l.live, w.record, w.size, bytes))
  }

  function RunWrites<R>(log: Log<R>, ws: seq<Write<R>>): Log<R>
    decreases |ws|
  {
    if ws == [] then log else RunWrites(Written(log, ws[0]), ws[1..])
  }

  /** The new line starts a line of its own: the file it goes to ends in a newline. */
  predicate Lands<R>(log: Log<R>) { Tail(Rotated(log).live) == [] }

  /** Does `w` put its whole line on disk? */
  predicate WritesLine<R>(w: Write<R>) {
    w.fate.Completes? || (w.fate.Tears? && w.fate.bytes > w.size)
  }

  /** Bytes one write may add. */
  function Bytes<R>(w: Write<R>): nat { w.size + 1 }

  function TotalBytes<R>(ws: seq<Write<R>>): nat {
    if ws == [] then 0 else Bytes(ws[0]) + TotalBytes(ws[1..])
  }

  // ---------------------------------------------------------------- the log object

  class RotatingLog<R> {
    var backup: File<R>
    var live: File<R>

    constructor ()
      ensures State() == Log([[]], [[]])
    {
      backup, live := [[]], [[]];
    }

    function State(): Log<R> reads this { Log(backup, live) }

    /** `audit_write`: rotate if needed, append, never raise. */
    method AuditWrite(w: Write<R>) returns (ok: bool)
      modifies this
      ensures State() == Written(old(State()), w)
      ensures ok == w.fate.Completes?
    {
      if w.fate.StopsBefore? {
        return false;
      }
      if FileSize(live) > AUDIT_MAX_BYTES {
        backup := live;
        live := [[]];
      }
      live := Extend(live, w.record, w.size, if w.fate.Completes? then w.size + 1 else w.fate.bytes);
      return w.fate.Completes?;
    }

    /** `read_all`: the records of both files in order, skipping what does not parse; a file
        that cannot be read contributes no record and counts as one error entry. */
    method ReadBack(backupReadable: bool, liveReadable: bool) returns (records: seq<R>, errors: nat)
      ensures records == (if backupReadable then ParseLines(backup) else []) + (if liveReadable then ParseLines(live) else [])
      ensures errors == (if backupReadable then 0 else 1) + (if liveReadable then 0 else 1)
      ensures errors == 0 ==> records == ReadAll(State())
    {
      var older, newer := [], [];
      errors := 0;
      if backupReadable {
        older := ReadLines(backup);
      } else {
        errors := errors + 1;
      }
      if liveReadable {
        newer := ReadLines(live);
      } else {
        errors := errors + 1;
      }
      records := older + newer;
    }
  }

  /** The line loop of one file. */
  method ReadLines<R>(f: File<R>) returns (records: seq<R>)
    ensures records == ParseLines(f)
  {
    records := [];
    var i := 0;
    while i < |f|
      invariant 0 <= i <= |f|
      invariant records == ParseLines(f[..i])
    {
      ParseLinesStep(f, i);
      records := records + ParseLine(f[i]);
      i := i + 1;
    }
    assert f[..i] == f;
  }

  // ---------------------------------------------------------------- line-level facts

  lemma {:induction false} ParseLinesConcat<R>(a: seq<Line<R>>, b: seq<Line<R>>)
    ensures ParseLines(a + b) == ParseLines(a) + ParseLines(b)
  {
    if a == [] {
      assert a + b == b;
    } else {
      assert (a + b)[1..] == a[1..] + b;
      ParseLinesConcat(a[1..], b);
    }
  }

  lemma ParseLinesSnoc<R>(a: seq<Line<R>>, line: Line<R>)
    ensures ParseLines(a + [line]) == ParseLines(a) + ParseLine(line)
  {
    ParseLinesConcat(a, [line]);
    assert ParseLines([line]) == ParseLine(line) + ParseLines([]);
  }

  lemma ParseLinesStep<R>(f: seq<Line<R>>, i: nat)
    requires i < |f|
    ensures ParseLines(f[..i + 1]) == ParseLines(f[..i]) + ParseLine(f[i])
  {
    assert f[..i] + [f[i]] == f[..i + 1];
    ParseLinesSnoc(f[..i], f[i]);
  }

  lemma {:induction false} LinesSizeConcat<R>(a: seq<Line<R>>, b: seq<Line<R>>)
    ensures LinesSize(a + b) == LinesSize(a) + LinesSize(b)
  {
    if a == [] {
      assert a + b == b;
    } else {
      assert (a + b)[1..] == a[1..] + b;
      LinesSizeConcat(a[1..], b);
    }
  }

  lemma {:induction false} LineSizeSnoc<R>(line: Line<R>, p: Piece<R>)
    ensures LineSize(line + [p]) == LineSize(line) + p.size
  {
    if line != [] {
      assert (line + [p])[1..] == line[1..] + [p];
      LineSizeSnoc(line[1..], p);
    }
  }

  lemma ReadsClosedThenTail<R>(f: File<R>)
    ensures ParseLines(f) == Closed(f) + ParseLine(Tail(f))
  {
    assert f == f[..|f| - 1] + [Tail(f)];
    ParseLinesSnoc(f[..|f| - 1], Tail(f));
  }

  /** One write to one file: what is closed stays closed, the record joins it exactly when
      its whole line went on disk at the start of a line, and the size grows by what was written. */
  lemma Extended<R>(f: File<R>, record: R, size: nat, bytes: nat)
    ensures var g := Extend(f, record, size, bytes);
      && Closed(g) == Closed(f) + (if bytes > size && Tail(f) == [] then [record] else [])
      && (ParseLine(Tail(g)) == ParseLine(Tail(f)) || ParseLine(Tail(g)) == [record] || ParseLine(Tail(g)) == [])
      && FileSize(g) == FileSize(f) + (if bytes <= size then bytes else size + 1)
  {
    var g := Extend(f, record, size, bytes);
    var n := |f| - 1;
    assert f == f[..n] + [Tail(f)];
    LinesSizeConcat(f[..n], [Tail(f)]);
    if 0 < bytes {
      var p := if bytes < size then Shard(bytes) else Doc(record, size);
      LineSizeSnoc(Tail(f), p);
      var base := f[..n] + [Tail(f) + [p]];
      LinesSizeConcat(f[..n], [Tail(f) + [p]]);
      assert f[n := Tail(f) + [p]] == base;
      if bytes > size {
        assert g == base + [[]];
        LinesSizeConcat(base, [[]]);
        assert g[..|g| - 1] == base;
        ParseLinesSnoc(f[..n], Tail(f) + [p]);
      } else {
        assert g == base;
        assert g[..n] == f[..n];
      }
    }
  }

  // ---------------------------------------------------------------- rotation

  /** Bytes of a write that reach the disk. */
  function BytesOnDisk<R>(w: Write<R>): nat {
    match w.fate case StopsBefore => 0 case Completes => w.size + 1 case Tears(bytes) => if bytes <= w.size then bytes else w.size + 1
  }

  /** One append: a live file past 5 MB, and no other, first becomes the backup, whole, and the
      append starts a new one; nothing else touches either file, and the file appended to keeps
      what it held and grows by the bytes written. */
  lemma RotationExactly<R>(log: Log<R>, w: Write<R>)
    ensures var next := Written(log, w);
      if w.fate.StopsBefore? then next == log
      else if FileSize(log.live) > 5242880 then next.backup == log.live && FileSize(next.live) == BytesOnDisk(w)
      else next.backup == log.backup && FileSize(next.live) == FileSize(log.live) + BytesOnDisk(w) && Closed(log.live) <= Closed(next.live)
    ensures w.fate.Completes? ==> FileSize(Written(log, w).live) <= 5242880 + w.size + 1
  {
    if !w.fate.StopsBefore? {
      Extended(Rotated(log).live, w.record, w.size, if w.fate.Completes? then w.size + 1 else w.fate.bytes);
    }
    assert FileSize<R>([[]]) == 0 by { assert LinesSize<R>([[]]) == 1 + LinesSize<R>([]); }
  }

  /** Over every run, however its writes end, neither file outgrows the threshold by more than a line. */
  lemma {:induction false} FilesStayBounded<R>(log: Log<R>, ws: seq<Write<R>>, longest: nat)
    requires FileSize(log.live) <= 5242880 + longest && FileSize(log.backup) <= 5242880 + longest
    requires forall w :: w in ws ==> w.size < longest
    ensures FileSize(RunWrites(log, ws).live) <= 5242880 + longest && FileSize(RunWrites(log, ws).backup) <= 5242880 + longest
    decreases |ws|
  {
    if ws != [] {
      RotationExactly(log, ws[0]);
      assert ws[0] in ws && forall w :: w in ws[1..] ==> w in ws;
      FilesStayBounded(Written(log, ws[0]), ws[1..], longest);
    }
  }

  // ---------------------------------------------------------------- order: always a suffix

  /** The record that `w` adds to the closed lines, if any. */
  function Landing<R>(log: Log<R>, w: Write<R>): seq<R> {
    if WritesLine(w) && Lands(log) then [w.record] else []
  }

  function Landings<R>(log: Log<R>, ws: seq<Write<R>>): seq<R>
    decreases |ws|
  {
    if ws == [] then [] else Landing(log, ws[0]) + Landings(Written(log, ws[0]), ws[1..])
  }

  lemma StepIsSuffix<R>(log: Log<R>, w: Write<R>) returns (k: nat)
    ensures k <= |ClosedAll(log)|
    ensures ClosedAll(Written(log, w)) == ClosedAll(log)[k..] + Landing(log, w)
  {
    hide Extend, FileSize, Closed, ParseLine;
    k := 0;
    if !w.fate.StopsBefore? {
      var l := Rotated(log);
      Extended(l.live, w.record, w.size, if w.fate.Completes? then w.size + 1 else w.fate.bytes);
      if Rotates(log) {
        k := |Closed(log.backup)|;
        EmptyIsClosed<R>();
        assert ClosedAll(log)[k..] == Closed(log.live);
      } else {
        assert ClosedAll(Written(log, w)) == Closed(log.backup) + (Closed(log.live) + Landing(log, w));
      }
    }
  }

  lemma EmptyIsClosed<R>()
    ensures Closed<R>([[]]) == []
  {
  }

  /** Over every run of writes, however each one ends, the closed lines of the two files
      read back as a suffix, in order, of everything that landed. */
  lemma {:induction false} ReadsBackASuffix<R>(log: Log<R>, ws: seq<Write<R>>) returns (k: nat)
    ensures k <= |ClosedAll(log) + Landings(log, ws)|
    ensures ClosedAll(RunWrites(log, ws)) == (ClosedAll(log) + Landings(log, ws))[k..]
    decreases |ws|
  {
    if ws == [] {
      k := 0;
    } else {
      var next := Written(log, ws[0]);
      var i := StepIsSuffix(log, ws[0]);
      var j := ReadsBackASuffix(next, ws[1..]);
      hide Written, ClosedAll, Landing;
      k := i + j;
      SuffixOfSuffix(ClosedAll(log), Landing(log, ws[0]), Landings(next, ws[1..]), i, j);
      assert Landings(log, ws) == Landing(log, ws[0]) + Landings(next, ws[1..]);
    }
  }

  lemma SuffixOfSuffix<R>(a: seq<R>, b: seq<R>, c: seq<R>, i: nat, j: nat)
    requires i <= |a| && j <= |a[i..] + b + c|
    ensures i + j <= |a + (b + c)| && (a[i..] + b + c)[j..] == (a + (b + c))[i + j..]
  {
    assert a[i..] + b + c == (a + (b + c))[i..];
  }

  /** A log no write has ever torn: both files end in a newline. */
  predicate Clean<R>(log: Log<R>) { Tail(log.backup) == [] && Tail(log.live) == [] }

  function Records<R>(ws: seq<Write<R>>): seq<R> {
    if ws == [] then [] else (if ws[0].fate.Completes? then [ws[0].record] else []) + Records(ws[1..])
  }

  lemma CleanReadsClosed<R>(log: Log<R>)
    requires Clean(log)
    ensures ReadAll(log) == ClosedAll(log)
  {
    ReadsClosedThenTail(log.backup);
    ReadsClosedThenTail(log.live);
  }

  lemma {:induction false} CleanRun<R>(log: Log<R>, ws: seq<Write<R>>)
    requires Clean(log) && forall w :: w in ws ==> !w.fate.Tears?
    ensures Clean(RunWrites(log, ws))
    ensures Landings(log, ws) == Records(ws)
    decreases |ws|
  {
    if ws != [] {
      CleanRun(Written(log, ws[0]), ws[1..]);
    }
  }

  /** With no torn write, `read_all` is a suffix of exactly the records whose append answered True. */
  lemma CleanLogReadsEveryAnsweredRecord<R>(log: Log<R>, ws: seq<Write<R>>) returns (k: nat)
    requires Clean(log) && forall w :: w in ws ==> !w.fate.Tears?
    ensures k <= |ReadAll(log) + Records(ws)|
    ensures ReadAll(RunWrites(log, ws)) == (ReadAll(log) + Records(ws))[k..]
  {
    CleanRun(log, ws);
    CleanReadsClosed(log);
    CleanReadsClosed(RunWrites(log, ws));
    k := ReadsBackASuffix(log, ws);
  }

  // ---------------------------------------------------------------- what a torn line costs

  /** An append that answered True is read back exactly when it started its own line. */
  lemma AnsweredAppendIsReadIffItLands<R>(log: Log<R>, w: Write<R>)
    requires w.fate.Completes?
    requires w.record !in ReadAll(log)
    ensures w.record in ReadAll(Written(log, w)) <==> Lands(log)
    ensures Lands(log) ==> w.record in ClosedAll(Written(log, w))
    ensures Tail(Written(log, w).live) == []
  {
    var l := Rotated(log);
    var next := Written(log, w);
    Extended(l.live, w.record, w.size, w.size + 1);
    ReadsClosedThenTail(next.backup);
    ReadsClosedThenTail(next.live);
    ReadsClosedThenTail(log.live);
    ReadsClosedThenTail(l.live);
  }

  /** The one way to lose it: after an append that failed part way, the next append
      answers True and yet neither record can be read. */
  lemma TornTailSwallowsTheNextAppend<R>(first: R, second: R, size: nat)
    requires 2 <= size <= AUDIT_MAX_BYTES && first != second
    ensures var log := RunWrites(Log([[]], [[]]), [Write(first, size, Tears(1)), Write(second, size, Completes)]);
      ReadAll(log) == []
  {
    var empty: Log<R> := Log([[]], [[]]);
    var a, b := Write(first, size, Tears(1)), Write(second, size, Completes);
    var torn := Written(empty, a);
    var shard: Line<R> := [Shard(1)];
    assert Tail(empty.live) + shard == shard;
    assert torn.live == [shard];
    assert LineSize(shard) == 1 && FileSize(torn.live) == 1;
    assert shard + [Doc(second, size)] == [Shard(1), Doc(second, size)];
    var log := Written(torn, b);
    assert log.live == [[Shard(1), Doc(second, size)], []];
    assert [a, b][1..] == [b];
    assert RunWrites(empty, [a, b]) == RunWrites(torn, [b]) == log;
    assert ParseLines(log.live) == [];
  }

  // ---------------------------------------------------------------- how long a record stays

  /** A closed record survives every later run of writes, of any fates, that adds no more
      than the rotation threshold: losing it takes two rotations, and the second needs
      more than the threshold in bytes newer than the record. `newer` bounds the bytes
      already written after the record. */
  lemma {:induction false} RecordStaysUntilThreshold<R>(log: Log<R>, r: R, newer: nat, ws: seq<Write<R>>)
    requires r in Closed(log.live) || (r in Closed(log.backup) && FileSize(log.live) <= newer)
    requires newer + TotalBytes(ws) <= AUDIT_MAX_BYTES
    ensures r in ClosedAll(RunWrites(log, ws))
    decreases |ws|
  {
    if ws != [] {
      var w := ws[0];
      var l := Rotated(log);
      if !w.fate.StopsBefore? {
        Extended(l.live, w.record, w.size, if w.fate.Completes? then w.size + 1 else w.fate.bytes);
      }
      RecordStaysUntilThreshold(Written(log, w), r, newer + Bytes(w), ws[1..]);
    }
  }

  lemma StepInventsNothing<R>(log: Log<R>, w: Write<R>)
    ensures forall r :: r in ReadAll(Written(log, w)) ==> r in ReadAll(log) || r == w.record
  {
    if !w.fate.StopsBefore? {
      var l, next := Rotated(log), Written(log, w);
      Extended(l.live, w.record, w.size, if w.fate.Completes? then w.size + 1 else w.fate.bytes);
      ReadsClosedThenTail(l.live);
      ReadsClosedThenTail(next.live);
    }
  }

  /** Nothing is read that was not read before or written since. */
  lemma {:induction false} NothingIsInvented<R>(log: Log<R>, ws: seq<Write<R>>)
    ensures forall r :: r in ReadAll(RunWrites(log, ws)) ==> r in ReadAll(log) || exists w :: w in ws && w.record == r
    decreases |ws|
  {
    if ws != [] {
      StepInventsNothing(log, ws[0]);
      NothingIsInvented(Written(log, ws[0]), ws[1..]);
      forall r | r in ReadAll(RunWrites(log, ws)) && r !in ReadAll(log)
        ensures exists w :: w in ws && w.record == r
      {
        if r == ws[0].record {
          assert ws[0] in ws;
        } else {
          var w :| w in ws[1..] && w.record == r;
          assert w in ws;
        }
      }
    }
  }

  lemma {:induction false} LandingsAreWritten<R>(log: Log<R>, ws: seq<Write<R>>)
    ensures forall r :: r in Landings(log, ws) ==> exists w :: w in ws && w.record == r
    decreases |ws|
  {
    if ws != [] {
      LandingsAreWritten(Written(log, ws[0]), ws[1..]);
      assert forall x :: x in ws <==> x == ws[0] || x in ws[1..];
    }
  }

  /** A later record outlives an earlier one: if what was closed when `later` landed can
      still be read after any run of other writes, so can `later`. */
  lemma LaterRecordOutlivesEarlier<R>(log: Log<R>, earlier: R, later: Write<R>, ws: seq<Write<R>>)
    requires earlier in ClosedAll(log) && earlier != later.record
    requires later.fate.Completes? && Lands(log)
    requires forall w :: w in ws ==> w.record != earlier
    requires earlier in ClosedAll(RunWrites(Written(log, later), ws))
    ensures later.record in ClosedAll(RunWrites(Written(log, later), ws))
  {
    var next := Written(log, later);
    var i := StepIsSuffix(log, later);
    var j := ReadsBackASuffix(next, ws);
    LandingsAreWritten(next, ws);
    var all := ClosedAll(next) + Landings(next, ws);
    var n := |ClosedAll(next)|;
    assert ClosedAll(next)[n - 1] == later.record;
    forall q | n <= q < |all| ensures all[q] != earlier {
      assert all[q] == Landings(next, ws)[q - n] && all[q] in Landings(next, ws);
    }
    var q :| 0 <= q < |all[j..]| && all[j..][q] == earlier;
    assert all[j + q] == earlier;
    assert all[j..][n - 1 - j] == later.record;
  }
}
