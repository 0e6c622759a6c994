/** Types and facts about sequences shared by the other modules. */
module Prelude {

  datatype Option<+T> = None | Some(value: T)

  datatype Result<+T, +E> = Ok(value: T) | Err(error: E)

  /** No element occurs twice. */
  ghost predicate Distinct<T>(s: seq<T>) {
    forall i, j :: 0 <= i < j < |s| ==> s[i] != s[j]
  }

  /** s lists every index below n exactly once. */
  ghost predicate IsPermutation(s: seq<nat>, n: nat) {
    && |s| == n
    && Distinct(s)
    && (forall i :: 0 <= i < |s| ==> s[i] < n)
    && (forall k :: 0 <= k < n ==> k in s)
  }

  lemma Scales(a: int, b: int, m: nat)
    requires a <= b
    ensures a * m <= b * m
  {
  }

  function Below(n: nat): (b: set<nat>)
    ensures |b| == n && forall i: nat :: i in b <==> i < n
  {
    if n == 0 then {} else Below(n - 1) + {n - 1}
  }

  function Elements(s: seq<nat>): set<nat> {
    set i | 0 <= i < |s| :: s[i]
  }

  lemma {:induction false} ElementsSize(s: seq<nat>)
    ensures |Elements(s)| <= |s|
    ensures Distinct(s) ==> |Elements(s)| == |s|
  {
    if s != [] {
      var front, last := s[..|s| - 1], s[|s| - 1];
      ElementsSize(front);
      assert Elements(s) == Elements(front) + {last} by {
        forall x | x in Elements(front) ensures x in Elements(s) {
          var i :| 0 <= i < |front| && front[i] == x;
          assert s[i] == x;
        }
        assert s[|s| - 1] in Elements(s);
      }
    }
  }

  lemma {:induction false} SubsetSize(a: set<nat>, b: set<nat>)
    requires a <= b
    ensures |a| <= |b|
    ensures |a| == |b| ==> a == b
  {
    if a != {} {
      var x :| x in a;
      SubsetSize(a - {x}, b - {x});
    }
  }

  /** n distinct numbers below n are all of them. */
  lemma DistinctCovers(s: seq<nat>, n: nat)
    requires |s| == n && Distinct(s) && forall i :: 0 <= i < |s| ==> s[i] < n
    ensures IsPermutation(s, n)
  {
    ElementsSize(s);
    SubsetSize(Elements(s), Below(n));
    forall k | 0 <= k < n ensures k in s {
      assert k in Elements(s);
    }
  }

  /** Fewer than n numbers miss one below n. */
  lemma SomeoneMissing(s: seq<nat>, n: nat) returns (x: nat)
    requires |s| < n
    ensures x < n && x !in s
  {
    ElementsSize(s);
    if Below(n) <= Elements(s) {
      SubsetSize(Below(n), Elements(s));
    }
    x :| x in Below(n) && x !in Elements(s);
    assert forall i :: 0 <= i < |s| ==> s[i] in Elements(s);
  }
}
