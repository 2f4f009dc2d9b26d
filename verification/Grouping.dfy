/** Python's `d.setdefault(key, []).append(x)`: lists by key, keys in order of first appearance. */
module Grouping {
  import opened Prelude

  /** The distinct keys in order of first appearance. */
  function Keys<T, K(==)>(s: seq<T>, key: T -> K): seq<K> {
    if s == [] then []
    else var (init, k) := (Keys(s[..|s| - 1], key), key(s[|s| - 1])); if k in init then init else init + [k]
  }

  /** The elements of one key, in order. */
  function Group<T(!new), K(==)>(s: seq<T>, key: T -> K, k: K): (g: seq<T>)
    ensures forall x :: x in g <==> x in s && key(x) == k
  {
    Filter(s, (x: T) => key(x) == k)
  }

  lemma GroupSnoc<T(!new), K>(s: seq<T>, x: T, key: T -> K, k: K)
    ensures Group(s + [x], key, k) == Group(s, key, k) + (if key(x) == k then [x] else [])
  {
    FilterConcat(s, [x], (y: T) => key(y) == k);
    assert [x][1..] == [];
  }

  lemma NoGroupYet<T(!new), K(!new)>(s: seq<T>, key: T -> K, k: K)
    requires k !in Keys(s, key)
    ensures Group(s, key, k) == []
  {
    KeysMembers(s, key);
    FilterNone(s, (y: T) => key(y) == k);
  }

  lemma {:induction false} KeysMembers<T(!new), K(!new)>(s: seq<T>, key: T -> K)
    ensures NoDup(Keys(s, key)) && forall k :: k in Keys(s, key) <==> exists x :: x in s && key(x) == k
  {
    if s != [] {
      var (init, last) := (s[..|s| - 1], s[|s| - 1]);
      KeysMembers(init, key);
      assert s == init + [last];
      assert forall x :: x in s <==> x in init || x == last;
    }
  }

  method GroupBy<T(!new), K(==, !new)>(s: seq<T>, key: T -> K) returns (groups: map<K, seq<T>>, order: seq<K>)
    ensures order == Keys(s, key)
    ensures forall k :: k in groups <==> k in order
    ensures forall k :: k in order ==> groups[k] == Group(s, key, k)
  {
    groups, order := map[], [];
    var i := 0;
    while i < |s|
      invariant 0 <= i <= |s|
      invariant order == Keys(s[..i], key)
      invariant forall k :: k in groups <==> k in order
      invariant forall k :: k in groups ==> groups[k] == Group(s[..i], key, k)
    {
      var (x, k) := (s[i], key(s[i]));
      assert s[..i + 1] == s[..i] + [x];
      forall j { GroupSnoc(s[..i], x, key, j); }
      if k in groups {
        groups := groups[k := groups[k] + [x]];
      } else {
        NoGroupYet(s[..i], key, k);
        groups, order := groups[k := [x]], order + [k];
      }
      i := i + 1;
    }
    assert s[..i] == s;
  }

  /** The groups of the given keys, one after another. */
  function Chained<T(!new), K(==)>(s: seq<T>, key: T -> K, ks: seq<K>): seq<T> {
    if ks == [] then [] else Chained(s, key, ks[..|ks| - 1]) + Group(s, key, ks[|ks| - 1])
  }

  /** The list regrouped: every element, those of one key together. */
  function Regrouped<T(!new), K(==)>(s: seq<T>, key: T -> K): seq<T> { Chained(s, key, Keys(s, key)) }

  lemma {:induction false} ChainedMembers<T(!new), K(!new)>(s: seq<T>, key: T -> K, ks: seq<K>)
    ensures forall x :: x in Chained(s, key, ks) <==> x in s && key(x) in ks
  {
    if ks != [] {
      var (init, last) := (ks[..|ks| - 1], ks[|ks| - 1]);
      ChainedMembers(s, key, init);
      assert ks == init + [last];
      assert forall k :: k in ks <==> k in init || k == last;
    }
  }

  lemma RegroupedMembers<T(!new), K(!new)>(s: seq<T>, key: T -> K)
    ensures forall x :: x in Regrouped(s, key) <==> x in s
  {
    KeysMembers(s, key);
    ChainedMembers(s, key, Keys(s, key));
  }
}
