/** Order-preserving selections from a sequence: the elements that satisfy a
    predicate, and the positions at which those elements stand. */
module Seqs {

  /** The elements of `s` that satisfy `p`, in their original order. */
  function Filter<T>(p: T -> bool, s: seq<T>): (r: seq<T>)
    ensures |r| <= |s|
    ensures forall x <- r :: x in s && p(x)
    ensures forall i :: 0 <= i < |s| && p(s[i]) ==> s[i] in r
  {
    if s == [] then []
    else if p(s[0]) then [s[0]] + Filter(p, s[1..])
    else Filter(p, s[1..])
  }

  /** Filtering a sequence with a known first element. */
  lemma FilterCons<T>(p: T -> bool, x: T, s: seq<T>)
    ensures Filter(p, [x] + s) == if p(x) then [x] + Filter(p, s) else Filter(p, s)
  {
    assert ([x] + s)[0] == x && ([x] + s)[1..] == s;
  }

  /** The indices `i` with `lo <= i < |s|` and `p(s[i])`, in ascending order. */
  function PositionsFrom<T>(p: T -> bool, s: seq<T>, lo: nat): (r: seq<nat>)
    requires lo <= |s|
    ensures forall k :: 0 <= k < |r| ==> lo <= r[k] < |s|
    ensures forall k, l :: 0 <= k < l < |r| ==> r[k] < r[l]
    ensures forall i :: lo <= i < |s| ==> (i in r <==> p(s[i]))
    decreases |s| - lo
  {
    if lo == |s| then []
    else if p(s[lo]) then [lo] + PositionsFrom(p, s, lo + 1)
    else PositionsFrom(p, s, lo + 1)
  }

  /** The indices `i` of `s` with `p(s[i])`, in ascending order. */
  function Positions<T>(p: T -> bool, s: seq<T>): (r: seq<nat>)
    ensures forall k :: 0 <= k < |r| ==> r[k] < |s|
    ensures forall k, l :: 0 <= k < l < |r| ==> r[k] < r[l]
    ensures forall i :: 0 <= i < |s| ==> (i in r <==> p(s[i]))
  {
    PositionsFrom(p, s, 0)
  }

  /** Filtering keeps the elements at the selected positions, and only those. */
  lemma {:induction false} FilterAtPositions<T>(p: T -> bool, s: seq<T>)
    ensures |Filter(p, s)| == |Positions(p, s)|
    ensures forall k :: 0 <= k < |Positions(p, s)| ==> Filter(p, s)[k] == s[Positions(p, s)[k]]
  {
    FilterAtPositionsFrom(p, s, 0);
    assert s[0..] == s;
  }

  lemma {:induction false} FilterAtPositionsFrom<T>(p: T -> bool, s: seq<T>, lo: nat)
    requires lo <= |s|
    ensures |Filter(p, s[lo..])| == |PositionsFrom(p, s, lo)|
    ensures forall k :: 0 <= k < |PositionsFrom(p, s, lo)| ==>
              Filter(p, s[lo..])[k] == s[PositionsFrom(p, s, lo)[k]]
    decreases |s| - lo
  {
    if lo == |s| {
      assert s[lo..] == [];
    } else {
      var x, rest := s[lo], s[lo + 1..];
      var f1, q1 := Filter(p, rest), PositionsFrom(p, s, lo + 1);
      FilterAtPositionsFrom(p, s, lo + 1);
      assert s[lo..] == [x] + rest;
      FilterCons(p, x, rest);
      if p(x) {
        var f, q := [x] + f1, [lo] + q1;
        assert Filter(p, s[lo..]) == f;
        assert PositionsFrom(p, s, lo) == q;
        forall k | 0 <= k < |q| ensures f[k] == s[q[k]] {
          if k > 0 {
            assert f[k] == f1[k - 1] && q[k] == q1[k - 1];
          }
        }
      } else {
        assert Filter(p, s[lo..]) == f1;
        assert PositionsFrom(p, s, lo) == q1;
      }
    }
  }

  /** Each element occurs in the result as often as in `s` if it satisfies `p`,
      and not at all otherwise. */
  lemma {:induction false} FilterMultiplicity<T>(p: T -> bool, s: seq<T>)
    ensures forall x :: multiset(Filter(p, s))[x] == if p(x) then multiset(s)[x] else 0
  {
    if s != [] {
      FilterMultiplicity(p, s[1..]);
      assert s == [s[0]] + s[1..];
    }
  }

  /** Filtering by a predicate every element already satisfies changes nothing. */
  lemma {:induction false} FilterOfSatisfying<T>(p: T -> bool, s: seq<T>)
    requires forall x <- s :: p(x)
    ensures Filter(p, s) == s
  {
    if s != [] {
      assert s[0] in s;
      assert forall x <- s[1..] :: x in s;
      FilterOfSatisfying(p, s[1..]);
    }
  }

  /** Filtering twice by the same predicate is filtering once. */
  lemma FilterIdempotent<T>(p: T -> bool, s: seq<T>)
    ensures Filter(p, Filter(p, s)) == Filter(p, s)
  {
    FilterOfSatisfying(p, Filter(p, s));
  }
}
