/** Free/busy merging (`_merge_busy` of `macos_apps_mcp/adapters/calendar.py`), in epoch seconds. */
module FreeBusy {
  /** Half-open: from the first second up to, not including, the second. */
  type Interval = (int, int)

  function Max(a: int, b: int): int { if a > b then a else b }
  function Min(a: int, b: int): int { if a < b then a else b }

  /** Some interval of the list holds the second `t`. */
  ghost predicate Covers(ivs: seq<Interval>, t: int) { exists iv :: iv in ivs && iv.0 <= t < iv.1 }

  /** Non-empty intervals in order, with a gap between any two. */
  ghost predicate Separated(ivs: seq<Interval>) {
    (forall i :: 0 <= i < |ivs| ==> ivs[i].0 < ivs[i].1) && forall i, j :: 0 <= i < j < |ivs| ==> ivs[i].1 < ivs[j].0
  }

  function Length(ivs: seq<Interval>): int {
    if ivs == [] then 0 else Length(ivs[..|ivs| - 1]) + ivs[|ivs| - 1].1 - ivs[|ivs| - 1].0
  }

  // ---------------------------------------------------------------- sorting pairs

  /** Tuple order. */
  predicate Le(a: Interval, b: Interval) { a.0 < b.0 || (a.0 == b.0 && a.1 <= b.1) }

  function InsertPair(x: Interval, s: seq<Interval>): seq<Interval> {
    if s == [] || Le(x, s[0]) then [x] + s else [s[0]] + InsertPair(x, s[1..])
  }

  function SortPairs(s: seq<Interval>): seq<Interval> {
    if s == [] then [] else InsertPair(s[0], SortPairs(s[1..]))
  }

  ghost predicate InOrder(s: seq<Interval>) { forall i, j :: 0 <= i < j < |s| ==> Le(s[i], s[j]) }

  lemma {:induction false} InsertPairSorts(x: Interval, s: seq<Interval>)
    requires InOrder(s)
    ensures InOrder(InsertPair(x, s)) && forall y :: y in InsertPair(x, s) <==> y == x || y in s
  {
    if s != [] && !Le(x, s[0]) {
      InsertPairSorts(x, s[1..]);
      assert forall y :: y in s <==> y == s[0] || y in s[1..];
      var rest := InsertPair(x, s[1..]);
      forall j | 0 <= j < |rest| ensures Le(s[0], rest[j]) {
        assert rest[j] in rest;
      }
    }
  }

  lemma {:induction false} SortPairsSorts(s: seq<Interval>)
    ensures InOrder(SortPairs(s)) && forall y :: y in SortPairs(s) <==> y in s
  {
    if s != [] {
      SortPairsSorts(s[1..]);
      InsertPairSorts(s[0], SortPairs(s[1..]));
    }
  }

  // ---------------------------------------------------------------- the merge

  /** The intervals cut to the window, the empty ones dropped. */
  method Clip(ivs: seq<Interval>, lo: int, hi: int) returns (clipped: seq<Interval>)
    ensures forall iv :: iv in clipped ==> lo <= iv.0 < iv.1 <= hi
    ensures forall t :: Covers(clipped, t) <==> lo <= t < hi && Covers(ivs, t)
  {
    clipped := [];
    var i := 0;
    while i < |ivs|
      invariant 0 <= i <= |ivs|
      invariant forall iv :: iv in clipped ==> lo <= iv.0 < iv.1 <= hi
      invariant forall t :: Covers(clipped, t) <==> lo <= t < hi && Covers(ivs[..i], t)
    {
      var cut := (Max(ivs[i].0, lo), Min(ivs[i].1, hi));
      forall t ensures Covers(ivs[..i + 1], t) <==> Covers(ivs[..i], t) || ivs[i].0 <= t < ivs[i].1 {
        assert ivs[..i + 1] == ivs[..i] + [ivs[i]];
        CoversSnoc(ivs[..i], ivs[i], t);
      }
      if cut.0 < cut.1 {
        forall t { CoversSnoc(clipped, cut, t); }
        clipped := clipped + [cut];
      }
      i := i + 1;
    }
    assert ivs[..i] == ivs;
  }

  lemma CoversSnoc(ivs: seq<Interval>, iv: Interval, t: int)
    ensures Covers(ivs + [iv], t) <==> Covers(ivs, t) || iv.0 <= t < iv.1
  {
    assert forall x :: x in ivs + [iv] <==> x in ivs || x == iv;
  }

  /** The last run stretched to the end of `iv`. */
  function Grown(busy: seq<Interval>, iv: Interval): (r: seq<Interval>)
    requires busy != []
    ensures |r| == |busy|
  {
    busy[|busy| - 1 := (busy[|busy| - 1].0, Max(busy[|busy| - 1].1, iv.1))]
  }

  lemma GrowLast(busy: seq<Interval>, iv: Interval)
    requires Separated(busy) && busy != [] && busy[|busy| - 1].0 <= iv.0 <= busy[|busy| - 1].1
    ensures Separated(Grown(busy, iv))
    ensures forall t :: Covers(Grown(busy, iv), t) <==> Covers(busy, t) || iv.0 <= t < iv.1
  {
    var (init, last) := (busy[..|busy| - 1], busy[|busy| - 1]);
    var grown := (last.0, Max(last.1, iv.1));
    assert busy == init + [last] && Grown(busy, iv) == init + [grown];
    forall t ensures Covers(Grown(busy, iv), t) <==> Covers(busy, t) || iv.0 <= t < iv.1 {
      CoversSnoc(init, last, t);
      CoversSnoc(init, grown, t);
    }
  }

  /** One merge step: stretch the last run when `iv` touches it, else start a new one. */
  function MergeOne(busy: seq<Interval>, iv: Interval): seq<Interval> {
    if busy != [] && iv.0 <= busy[|busy| - 1].1 then Grown(busy, iv) else busy + [iv]
  }

  ghost predicate Within(ivs: seq<Interval>, lo: int, hi: int) { forall i :: 0 <= i < |ivs| ==> lo <= ivs[i].0 && ivs[i].1 <= hi }

  lemma MergeOneKeeps(busy: seq<Interval>, iv: Interval, lo: int, hi: int)
    requires Separated(busy) && Within(busy, lo, hi) && lo <= iv.0 < iv.1 <= hi
    requires busy != [] ==> busy[|busy| - 1].0 <= iv.0
    ensures var next := MergeOne(busy, iv);
      && Separated(next) && Within(next, lo, hi) && next != [] && next[|next| - 1].0 <= iv.0
      && forall t :: Covers(next, t) <==> Covers(busy, t) || iv.0 <= t < iv.1
  {
    if busy != [] && iv.0 <= busy[|busy| - 1].1 {
      GrowLast(busy, iv);
    } else {
      forall t { CoversSnoc(busy, iv, t); }
    }
  }

  lemma StartsEmpty(sorted: seq<Interval>, lo: int, hi: int)
    ensures Separated([]) && Within([], lo, hi)
    ensures forall t :: Covers([], t) <==> Covers(sorted[..0], t)
  {
  }

  /** Overlapping and touching runs folded together. */
  method Merge(sorted: seq<Interval>, lo: int, hi: int) returns (busy: seq<Interval>)
    requires InOrder(sorted) && forall iv :: iv in sorted ==> lo <= iv.0 < iv.1 <= hi
    ensures Separated(busy) && Within(busy, lo, hi)
    ensures forall t :: Covers(busy, t) <==> Covers(sorted, t)
  {
    hide Covers, Separated, Within;
    busy := [];
    var k := 0;
    StartsEmpty(sorted, lo, hi);
    while k < |sorted|
      invariant 0 <= k <= |sorted|
      invariant Separated(busy) && Within(busy, lo, hi)
      invariant busy != [] ==> k > 0 && busy[|busy| - 1].0 <= sorted[k - 1].0
      invariant forall t :: Covers(busy, t) <==> Covers(sorted[..k], t)
    {
      var iv := sorted[k];
      assert iv in sorted;
      assert k > 0 ==> Le(sorted[k - 1], iv);
      assert sorted[..k + 1] == sorted[..k] + [iv];
      forall t { CoversSnoc(sorted[..k], iv, t); }
      MergeOneKeeps(busy, iv, lo, hi);
      if busy != [] && iv.0 <= busy[|busy| - 1].1 {
        busy := busy[|busy| - 1 := (busy[|busy| - 1].0, Max(busy[|busy| - 1].1, iv.1))];
      } else {
        busy := busy + [iv];
      }
      k := k + 1;
    }
    assert sorted[..k] == sorted;
  }

  /** `free` is the part of the window up to `cursor` that `done` leaves. */
  ghost predicate Gapped(done: seq<Interval>, free: seq<Interval>, lo: int, cursor: int) {
    && lo <= cursor && Separated(free) && (forall i :: 0 <= i < |free| ==> free[i].1 < cursor)
    && (forall t :: Covers(done, t) ==> lo <= t < cursor)
    && (forall t :: Covers(free, t) <==> lo <= t < cursor && !Covers(done, t))
    && Length(done) + Length(free) == cursor - lo
  }

  function GapTo(free: seq<Interval>, cursor: int, next: int): seq<Interval> {
    if next > cursor then free + [(cursor, next)] else free
  }

  lemma LengthSnoc(ivs: seq<Interval>, iv: Interval)
    ensures Length(ivs + [iv]) == Length(ivs) + iv.1 - iv.0
  {
    assert (ivs + [iv])[..|ivs|] == ivs;
  }

  lemma GapStep(done: seq<Interval>, iv: Interval, free: seq<Interval>, lo: int, cursor: int)
    requires Gapped(done, free, lo, cursor) && cursor <= iv.0 < iv.1
    ensures Gapped(done + [iv], GapTo(free, cursor, iv.0), lo, iv.1)
  {
    hide Covers, Length;
    LengthSnoc(done, iv);
    LengthSnoc(free, (cursor, iv.0));
    forall t { CoversSnoc(done, iv, t); }
    forall t { CoversSnoc(free, (cursor, iv.0), t); }
  }

  lemma LastGap(done: seq<Interval>, free: seq<Interval>, lo: int, cursor: int, hi: int)
    requires Gapped(done, free, lo, cursor) && (cursor <= hi || cursor == lo)
    ensures Separated(GapTo(free, cursor, hi))
    ensures lo <= hi ==> Length(done) + Length(GapTo(free, cursor, hi)) == hi - lo
    ensures forall t :: Covers(GapTo(free, cursor, hi), t) <==> lo <= t < hi && !Covers(done, t)
  {
    hide Covers, Length;
    LengthSnoc(free, (cursor, hi));
    forall t { CoversSnoc(free, (cursor, hi), t); }
  }

  lemma NothingYet(lo: int)
    ensures Gapped([], [], lo, lo)
  {
  }

  /** The gaps between busy runs, and at both ends of the window. */
  method Gaps(busy: seq<Interval>, lo: int, hi: int) returns (free: seq<Interval>)
    requires Separated(busy) && Within(busy, lo, hi)
    ensures Separated(free)
    ensures forall t :: Covers(free, t) <==> lo <= t < hi && !Covers(busy, t)
    ensures lo <= hi ==> Length(busy) + Length(free) == hi - lo
  {
    hide Gapped, Covers, Length;
    free := [];
    var cursor, k := lo, 0;
    NothingYet(lo);
    assert busy[..0] == [];
    while k < |busy|
      invariant 0 <= k <= |busy|
      invariant cursor == (if k == 0 then lo else busy[k - 1].1)
      invariant Gapped(busy[..k], free, lo, cursor)
    {
      var iv := busy[k];
      assert busy[..k + 1] == busy[..k] + [iv];
      GapStep(busy[..k], iv, free, lo, cursor);
      if iv.0 > cursor {
        free := free + [(cursor, iv.0)];
      }
      cursor := iv.1;
      k := k + 1;
    }
    assert busy[..k] == busy;
    LastGap(busy, free, lo, cursor, hi);
    if cursor < hi {
      free := free + [(cursor, hi)];
    }
  }

  /** `_merge_busy`: an exact partition of the window into busy and free time. */
  method MergeBusy(ivs: seq<Interval>, lo: int, hi: int) returns (busy: seq<Interval>, free: seq<Interval>)
    ensures Separated(busy) && Separated(free)
    ensures forall t :: Covers(busy, t) <==> lo <= t < hi && Covers(ivs, t)
    ensures forall t :: Covers(free, t) <==> lo <= t < hi && !Covers(ivs, t)
    ensures lo <= hi ==> Length(busy) + Length(free) == hi - lo
  {
    var clipped := Clip(ivs, lo, hi);
    SortPairsSorts(clipped);
    busy := Merge(SortPairs(clipped), lo, hi);
    free := Gaps(busy, lo, hi);
  }

  // ---------------------------------------------------------------- one answer only

  /** Where a separated list begins, it is the earliest covered second. */
  lemma FirstCovered(a: seq<Interval>, t: int)
    requires Separated(a) && Covers(a, t)
    ensures a != [] && a[0].0 <= t
  {
    var iv :| iv in a && iv.0 <= t < iv.1;
    var i :| 0 <= i < |a| && a[i] == iv;
    if i > 0 { assert a[0].1 < a[i].0; }
  }

  lemma GapAfterFirst(a: seq<Interval>)
    requires Separated(a) && a != []
    ensures !Covers(a, a[0].1)
    ensures forall t :: Covers(a[1..], t) <==> Covers(a, t) && t >= a[0].1
  {
    assert a == [a[0]] + a[1..];
    forall t ensures Covers(a[1..], t) <==> Covers(a, t) && t >= a[0].1 {
      if Covers(a[1..], t) {
        var iv :| iv in a[1..] && iv.0 <= t < iv.1;
        var i :| 0 <= i < |a[1..]| && a[1..][i] == iv;
        assert a[i + 1] == iv;
      }
      assert forall x :: x in a <==> x == a[0] || x in a[1..];
    }
    assert forall i :: 0 <= i < |a| ==> !(a[i].0 <= a[0].1 < a[i].1);
  }

  lemma SameStart(a: seq<Interval>, b: seq<Interval>)
    requires Separated(a) && Separated(b) && a != [] && forall t :: Covers(a, t) <==> Covers(b, t)
    ensures b != [] && a[0].0 == b[0].0 && a[0].1 == b[0].1
  {
    assert a[0] in a;
    assert Covers(a, a[0].0);
    FirstCovered(b, a[0].0);
    assert b[0] in b;
    assert Covers(b, b[0].0);
    FirstCovered(a, b[0].0);
    GapAfterFirst(a);
    GapAfterFirst(b);
    var (x, y) := (a[0].1, b[0].1);
    assert b[0].0 <= x < y ==> Covers(b, x);
    assert a[0].0 <= y < x ==> Covers(a, y);
  }

  /** The covered seconds determine the list: so busy and free depend on what the intervals
      cover inside the window and on nothing else, in particular not on their order. */
  lemma {:induction false} SeparatedIsUnique(a: seq<Interval>, b: seq<Interval>)
    requires Separated(a) && Separated(b) && forall t :: Covers(a, t) <==> Covers(b, t)
    ensures a == b
    decreases |a| + |b|
  {
    if a == [] {
      if b != [] { SameStart(b, a); }
    } else {
      SameStart(a, b);
      GapAfterFirst(a);
      GapAfterFirst(b);
      SeparatedIsUnique(a[1..], b[1..]);
    }
  }
}
