/** Duplicate-free sequences and removal of one element. */
module Sequences {

  ghost predicate Distinct<T>(s: seq<T>) {
    forall i, j :: 0 <= i < j < |s| ==> s[i] != s[j]
  }

  /** `s` without the element at position `k`. */
  function RemoveAt<T>(s: seq<T>, k: nat): seq<T>
    requires k < |s|
  {
    s[..k] + s[k + 1..]
  }

  /** The first position of `x` in `s`. */
  function Find<T(==)>(s: seq<T>, x: T): (k: nat)
    requires x in s
    ensures k < |s| && s[k] == x && x !in s[..k]
  {
    if s[0] == x then 0 else 1 + Find(s[1..], x)
  }

  /** `s` without its first `x`; unchanged when there is none. */
  function Without<T(==)>(s: seq<T>, x: T): seq<T> {
    if x in s then RemoveAt(s, Find(s, x)) else s
  }

  lemma WithoutMembers<T>(s: seq<T>, x: T, y: T)
    requires Distinct(s)
    ensures Distinct(Without(s, x))
    ensures y in Without(s, x) <==> y in s && y != x
  {
    if x in s { RemoveAtMembers(s, Find(s, x), y); }
  }

  lemma RemoveAtMembers<T>(s: seq<T>, k: nat, y: T)
    requires k < |s| && Distinct(s)
    ensures Distinct(RemoveAt(s, k))
    ensures y in RemoveAt(s, k) <==> y in s && y != s[k]
  {
    var r := RemoveAt(s, k);
    assert s == s[..k] + [s[k]] + s[k + 1..];
    assert forall i :: 0 <= i < k ==> r[i] == s[i];
    assert forall i :: k <= i < |r| ==> r[i] == s[i + 1];
    assert y in r <==> y in s[..k] || y in s[k + 1..];
  }

  lemma WithoutHead<T>(s: seq<T>, x: T)
    ensures Without([x] + s, x) == s
  {
    var t := [x] + s;
    assert t[0] == x && x in t && Find(t, x) == 0;
    assert t[..0] + t[1..] == s;
  }

  /** Two duplicate-free sequences with the same members are permutations of each other. */
  lemma {:induction false} SameMembers<T>(s: seq<T>, t: seq<T>)
    requires Distinct(s) && Distinct(t)
    requires forall x :: x in s <==> x in t
    ensures multiset(s) == multiset(t)
  {
    assert |t| > 0 ==> t[0] in s;
    if s != [] {
      var x := s[0];
      assert s == [x] + s[1..];
      assert x in t;
      var k := Find(t, x);
      var r := RemoveAt(t, k);
      forall y ensures y in s[1..] <==> y in r {
        assert y in s <==> y == x || y in s[1..];
        WithoutMembers(t, x, y);
      }
      WithoutMembers(t, x, x);
      SameMembers(s[1..], r);
      assert t == t[..k] + [x] + t[k + 1..];
      assert multiset(t) == multiset(t[..k]) + multiset{x} + multiset(t[k + 1..]);
      assert multiset(r) == multiset(t[..k]) + multiset(t[k + 1..]);
      assert multiset(s) == multiset{x} + multiset(s[1..]);
    }
  }
}
