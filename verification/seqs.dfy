/** Facts about sequences used by the list engine and the request validators. */
module Seqs {

  /** The set of elements of `s`, as Python's `set(s)`. */
  function Elems<T>(s: seq<T>): set<T> {
    set x | x in s
  }

  /** No element occurs twice in `s`. */
  predicate Distinct<T(==)>(s: seq<T>) {
    forall i, j :: 0 <= i < j < |s| ==> s[i] != s[j]
  }

  /** `len(set(s)) == len(s)` exactly when `s` has no repeated element. */
  lemma {:induction false} ElemsCard<T>(s: seq<T>)
    ensures |Elems(s)| <= |s|
    ensures |Elems(s)| == |s| <==> Distinct(s)
  {
    if s == [] {
      assert Elems(s) == {};
    } else {
      var t := s[1..];
      ElemsCard(t);
      assert Elems(s) == {s[0]} + Elems(t);
      if s[0] in t {
        assert Elems(s) == Elems(t);
        var k :| 0 <= k < |t| && t[k] == s[0];
        assert s[0] == s[k + 1];
        assert !Distinct(s);
      } else {
        assert |Elems(s)| == |Elems(t)| + 1;
        if Distinct(t) {
          forall i, j | 0 <= i < j < |s|
            ensures s[i] != s[j]
          {
            if i == 0 {
              assert s[j] == t[j - 1];
            } else {
              assert s[i] == t[i - 1] && s[j] == t[j - 1];
            }
          }
        } else {
          var i, j :| 0 <= i < j < |t| && t[i] == t[j];
          assert s[i + 1] == s[j + 1];
        }
      }
    }
  }

  /** The integers `1..n`. */
  function Range(n: int): (r: set<int>)
    ensures forall k :: k in r <==> 1 <= k <= n
  {
    if n <= 0 then {} else Range(n - 1) + {n}
  }

  lemma {:induction false} RangeCard(n: nat)
    ensures |Range(n)| == n
  {
    if n > 0 {
      RangeCard(n - 1);
    }
  }

  /** A subset of `1..n` with `n` elements is all of `1..n`. */
  lemma FullSubsetOfRange(a: set<int>, n: nat)
    requires a <= Range(n) && |a| == n
    ensures a == Range(n)
  {
    RangeCard(n);
    if a != Range(n) {
      var x :| x in Range(n) && x !in a;
      assert a <= Range(n) - {x};
      assert |Range(n) - {x}| == n - 1;
      SubsetCard(a, Range(n) - {x});
      assert false;
    }
  }

  lemma SubsetCard<T>(a: set<T>, b: set<T>)
    requires a <= b
    ensures |a| <= |b|
  {
    assert b == a + (b - a);
  }

  /** Index of the last occurrence of `x` in `s`. */
  function LastIndex<T(==)>(s: seq<T>, x: T): (i: nat)
    requires x in s
    ensures i < |s| && s[i] == x
    ensures forall k :: i < k < |s| ==> s[k] != x
  {
    if s[|s| - 1] == x then |s| - 1 else LastIndex(s[..|s| - 1], x)
  }
}
