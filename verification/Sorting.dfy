/** Python's `sorted` and `sorted(set(...))`, ordered by an integer key. */
module Sorting {
  ghost predicate StrictlySorted<T>(s: seq<T>, key: T -> int) {
    forall i, j :: 0 <= i < j < |s| ==> key(s[i]) < key(s[j])
  }

  function Insert<T>(x: T, s: seq<T>, key: T -> int): seq<T> {
    if s == [] || key(x) < key(s[0]) then [x] + s
    else if key(x) == key(s[0]) then s
    else [s[0]] + Insert(x, s[1..], key)
  }

  /** `tuple(sorted(set(s)))` */
  function Canon<T>(s: seq<T>, key: T -> int): seq<T> {
    if s == [] then [] else Insert(s[0], Canon(s[1..], key), key)
  }

  lemma {:induction false} InsertSorts<T(!new)>(x: T, s: seq<T>, key: T -> int)
    requires StrictlySorted(s, key) && forall a, b :: key(a) == key(b) ==> a == b
    ensures StrictlySorted(Insert(x, s, key), key)
    ensures forall y :: y in Insert(x, s, key) <==> y == x || y in s
  {
    if s != [] && key(x) > key(s[0]) {
      InsertSorts(x, s[1..], key);
      assert forall y :: y in s <==> y == s[0] || y in s[1..];
      var rest := Insert(x, s[1..], key);
      forall j | 0 <= j < |rest| ensures key(s[0]) < key(rest[j]) {
        assert rest[j] in rest;
        if rest[j] != x {
          var k :| 0 <= k < |s[1..]| && s[1..][k] == rest[j];
          assert s[k + 1] == rest[j];
        }
      }
    }
  }

  lemma {:induction false} CanonSorts<T(!new)>(s: seq<T>, key: T -> int)
    requires forall a, b :: key(a) == key(b) ==> a == b
    ensures StrictlySorted(Canon(s, key), key)
    ensures forall y :: y in Canon(s, key) <==> y in s
  {
    if s != [] {
      CanonSorts(s[1..], key);
      InsertSorts(s[0], Canon(s[1..], key), key);
    }
  }

  /** Two strictly sorted lists with the same members are the same list. */
  lemma {:induction false} SortedIsUnique<T(!new)>(s: seq<T>, t: seq<T>, key: T -> int)
    requires StrictlySorted(s, key) && StrictlySorted(t, key)
    requires forall y :: y in s <==> y in t
    ensures s == t
  {
    assert s == [] || s[0] in s;
    assert t == [] || t[0] in t;
    if s != [] {
      assert s[0] in t;
      assert t[0] in s;
      assert s[0] == t[0];
      forall y ensures y in s[1..] <==> y in t[1..] {
        assert y in s[1..] <==> y in s && y != s[0];
        assert y in t[1..] <==> y in t && y != t[0];
      }
      SortedIsUnique(s[1..], t[1..], key);
    }
  }

  /** `sorted(s)` */
  function Sort<T>(s: seq<T>, key: T -> int): seq<T> {
    if s == [] then [] else SortIn(s[0], Sort(s[1..], key), key)
  }

  function SortIn<T>(x: T, s: seq<T>, key: T -> int): seq<T> {
    if s == [] || key(x) <= key(s[0]) then [x] + s else [s[0]] + SortIn(x, s[1..], key)
  }

  ghost predicate Sorted<T>(s: seq<T>, key: T -> int) {
    forall i, j :: 0 <= i < j < |s| ==> key(s[i]) <= key(s[j])
  }

  lemma {:induction false} SortInHolds<T>(x: T, s: seq<T>, key: T -> int)
    ensures multiset(SortIn(x, s, key)) == multiset{x} + multiset(s)
  {
    if s != [] && key(x) > key(s[0]) {
      SortInHolds(x, s[1..], key);
      assert s == [s[0]] + s[1..];
    }
  }

  lemma {:induction false} SortInSorts<T>(x: T, s: seq<T>, key: T -> int)
    requires Sorted(s, key)
    ensures Sorted(SortIn(x, s, key), key)
  {
    if s != [] && key(x) > key(s[0]) {
      SortInSorts(x, s[1..], key);
      SortInHolds(x, s[1..], key);
      var rest := SortIn(x, s[1..], key);
      forall j | 0 <= j < |rest| ensures key(s[0]) <= key(rest[j]) {
        assert rest[j] in multiset(rest);
        assert rest[j] == x || rest[j] in s[1..];
      }
    }
  }

  lemma {:induction false} SortSorts<T>(s: seq<T>, key: T -> int)
    ensures Sorted(Sort(s, key), key) && multiset(Sort(s, key)) == multiset(s)
  {
    if s != [] {
      SortSorts(s[1..], key);
      SortInSorts(s[0], Sort(s[1..], key), key);
      SortInHolds(s[0], Sort(s[1..], key), key);
      assert s == [s[0]] + s[1..];
    }
  }

  /** Sorting any permutation of a strictly sorted list gives that list. */
  lemma {:induction false} SortsBack<T(!new)>(s: seq<T>, t: seq<T>, key: T -> int)
    requires StrictlySorted(t, key) && Sorted(s, key) && multiset(s) == multiset(t)
    requires forall a, b :: key(a) == key(b) ==> a == b
    ensures s == t
  {
    assert |s| == |multiset(s)| == |multiset(t)| == |t|;
    if s != [] {
      assert s[0] in multiset(t) && t[0] in multiset(s);
      SameLeast(s, t, key);
      DropLeast(s, t);
      SortsBack(s[1..], t[1..], key);
    }
  }

  lemma SameLeast<T(!new)>(s: seq<T>, t: seq<T>, key: T -> int)
    requires s != [] && t != [] && StrictlySorted(t, key) && Sorted(s, key)
    requires s[0] in t && t[0] in s
    requires forall a, b :: key(a) == key(b) ==> a == b
    ensures s[0] == t[0]
  {
    var i :| 0 <= i < |t| && t[i] == s[0];
    var j :| 0 <= j < |s| && s[j] == t[0];
    assert key(t[0]) <= key(t[i]);
    assert key(s[0]) <= key(s[j]);
  }

  lemma DropLeast<T>(s: seq<T>, t: seq<T>)
    requires s != [] && t != [] && s[0] == t[0] && multiset(s) == multiset(t)
    ensures multiset(s[1..]) == multiset(t[1..])
  {
    assert s == [s[0]] + s[1..];
    assert t == [t[0]] + t[1..];
    assert multiset(s[1..]) == multiset(s) - multiset{s[0]};
  }
}
