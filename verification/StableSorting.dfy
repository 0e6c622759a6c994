/** slices.SortStableFunc followed by keeping the first candidate of each name, both as lists
    of indices into the unsorted slice, so that generation order can be spoken of. */
module StableSorting {
  import opened Prelude

  ghost predicate TotalPreorder<T(!new)>(compare: (T, T) -> int) {
    && (forall a, b :: compare(a, b) < 0 <==> compare(b, a) > 0)
    && (forall a, b, c :: compare(a, b) <= 0 && compare(b, c) <= 0 ==> compare(a, c) <= 0)
  }

  /** Element x is ranked before element y: by the comparison, then by position. */
  predicate Precedes<T>(s: seq<T>, compare: (T, T) -> int, x: nat, y: nat)
    requires x < |s| && y < |s|
  {
    var c := compare(s[x], s[y]);
    c < 0 || (c == 0 && x < y)
  }

  lemma PrecedesIsStrictTotalOrder<T(!new)>(s: seq<T>, compare: (T, T) -> int, x: nat, y: nat, z: nat)
    requires TotalPreorder(compare)
    requires x < |s| && y < |s| && z < |s|
    ensures !Precedes(s, compare, x, x)
    ensures Precedes(s, compare, x, y) && Precedes(s, compare, y, z) ==> Precedes(s, compare, x, z)
    ensures x != y ==> (Precedes(s, compare, x, y) <==> !Precedes(s, compare, y, x))
  {
    var a, b, c := s[x], s[y], s[z];
    assert compare(a, a) < 0 <==> compare(a, a) > 0;
    assert compare(a, b) < 0 <==> compare(b, a) > 0;
    assert compare(b, c) < 0 <==> compare(c, b) > 0;
    assert compare(a, c) < 0 <==> compare(c, a) > 0;
    assert compare(c, a) <= 0 && compare(a, b) <= 0 ==> compare(c, b) <= 0;
    assert compare(b, c) <= 0 && compare(c, a) <= 0 ==> compare(b, a) <= 0;
  }

  ghost predicate Indices<T>(s: seq<T>, order: seq<nat>) {
    forall i :: 0 <= i < |order| ==> order[i] < |s|
  }

  ghost predicate Ascending<T>(s: seq<T>, compare: (T, T) -> int, order: seq<nat>) {
    && Indices(s, order)
    && forall i, j :: 0 <= i < j < |order| ==> Precedes(s, compare, order[i], order[j])
  }

  /** Places index x in an ascending list of indices. */
  function Insert<T>(s: seq<T>, compare: (T, T) -> int, x: nat, order: seq<nat>): (r: seq<nat>)
    requires x < |s| && forall i :: 0 <= i < |order| ==> order[i] < |s|
    ensures |r| == |order| + 1
    ensures forall i :: i in r <==> i == x || i in order
    ensures forall i :: 0 <= i < |r| ==> r[i] < |s|
  {
    if order == [] then [x]
    else if Precedes(s, compare, x, order[0]) then [x] + order
    else
      assert forall i :: i in order <==> i == order[0] || i in order[1..];
      [order[0]] + Insert(s, compare, x, order[1..])
  }

  lemma {:induction false} InsertAscends<T(!new)>(s: seq<T>, compare: (T, T) -> int, x: nat, order: seq<nat>)
    requires TotalPreorder(compare)
    requires x < |s| && Ascending(s, compare, order) && x !in order
    ensures Ascending(s, compare, Insert(s, compare, x, order))
  {
    hide Precedes, TotalPreorder;
    if order != [] {
      var first := order[0];
      PrecedesIsStrictTotalOrder(s, compare, x, first, first);
      if Precedes(s, compare, x, first) {
        forall j | 0 <= j < |order| ensures Precedes(s, compare, x, order[j]) {
          PrecedesIsStrictTotalOrder(s, compare, x, first, order[j]);
        }
      } else {
        var rest := Insert(s, compare, x, order[1..]);
        InsertAscends(s, compare, x, order[1..]);
        forall j | 0 <= j < |rest| ensures Precedes(s, compare, first, rest[j]) {
          assert rest[j] in rest;
          if rest[j] != x {
            var k :| 0 <= k < |order[1..]| && order[1..][k] == rest[j];
            assert order[k + 1] == rest[j];
          }
        }
      }
    }
  }

  function OrderFrom<T>(s: seq<T>, compare: (T, T) -> int, k: nat): (r: seq<nat>)
    requires k <= |s|
    ensures |r| == |s| - k
    ensures forall i :: i in r <==> k <= i < |s|
    ensures forall i :: 0 <= i < |r| ==> r[i] < |s|
    decreases |s| - k
  {
    if k == |s| then [] else Insert(s, compare, k, OrderFrom(s, compare, k + 1))
  }

  lemma {:induction false} OrderFromAscends<T(!new)>(s: seq<T>, compare: (T, T) -> int, k: nat)
    requires TotalPreorder(compare) && k <= |s|
    ensures Ascending(s, compare, OrderFrom(s, compare, k))
    decreases |s| - k
  {
    if k < |s| {
      OrderFromAscends(s, compare, k + 1);
      InsertAscends(s, compare, k, OrderFrom(s, compare, k + 1));
    }
  }

  /** The indices of s in stable sorted order. */
  function StableOrder<T>(s: seq<T>, compare: (T, T) -> int): (r: seq<nat>)
    ensures |r| == |s| && forall i :: 0 <= i < |r| ==> r[i] < |s|
  {
    OrderFrom(s, compare, 0)
  }

  lemma StableOrderIsSorted<T(!new)>(s: seq<T>, compare: (T, T) -> int)
    requires TotalPreorder(compare)
    ensures IsPermutation(StableOrder(s, compare), |s|) && Ascending(s, compare, StableOrder(s, compare))
  {
    OrderFromAscends(s, compare, 0);
    var r := StableOrder(s, compare);
    forall i, j | 0 <= i < j < |r| ensures r[i] != r[j] {
      PrecedesIsStrictTotalOrder(s, compare, r[i], r[j], r[j]);
    }
  }

  /** What any stable sort must return: only one permutation is sorted by the comparison and
      keeps equal elements in their order. */
  lemma StableOrderIsUnique<T(!new)>(s: seq<T>, compare: (T, T) -> int, p: seq<nat>)
    requires TotalPreorder(compare) && IsPermutation(p, |s|)
    requires forall i, j :: 0 <= i < j < |p| ==> compare(s[p[i]], s[p[j]]) <= 0
    requires forall i, j :: 0 <= i < j < |p| && compare(s[p[i]], s[p[j]]) == 0 ==> p[i] < p[j]
    ensures p == StableOrder(s, compare)
  {
    StableOrderIsSorted(s, compare);
    AscendingIsDetermined(s, compare, p, StableOrder(s, compare));
  }

  lemma {:induction false} AscendingIsDetermined<T(!new)>(s: seq<T>, compare: (T, T) -> int, p: seq<nat>, q: seq<nat>)
    requires TotalPreorder(compare)
    requires Ascending(s, compare, p) && Ascending(s, compare, q)
    requires |p| == |q| && forall i :: i in p <==> i in q
    ensures p == q
  {
    if p != [] {
      assert p[0] in q && q[0] in p;
      HeadIsLeast(s, compare, p, q[0]);
      HeadIsLeast(s, compare, q, p[0]);
      PrecedesIsStrictTotalOrder(s, compare, p[0], q[0], q[0]);
      forall i ensures i in p[1..] <==> i in q[1..] {
        TailMembers(s, compare, p, i);
        TailMembers(s, compare, q, i);
      }
      AscendingIsDetermined(s, compare, p[1..], q[1..]);
    }
  }

  lemma HeadIsLeast<T>(s: seq<T>, compare: (T, T) -> int, p: seq<nat>, x: nat)
    requires Ascending(s, compare, p) && x in p
    ensures x < |s| && (p[0] == x || Precedes(s, compare, p[0], x))
  {
  }

  lemma TailMembers<T(!new)>(s: seq<T>, compare: (T, T) -> int, p: seq<nat>, x: nat)
    requires TotalPreorder(compare) && Ascending(s, compare, p) && p != []
    ensures x in p[1..] <==> x in p && x != p[0]
  {
    PrecedesIsStrictTotalOrder(s, compare, p[0], p[0], p[0]);
  }

  // ----- Keeping the first of each name -----

  ghost predicate HasName<T>(s: seq<T>, name: T -> string, order: seq<nat>, n: string)
    requires Indices(s, order)
  {
    exists i :: 0 <= i < |order| && name(s[order[i]]) == n
  }

  /** The members of order whose name none before them has. */
  ghost function FirstOccurrences<T>(s: seq<T>, name: T -> string, order: seq<nat>): (r: seq<nat>)
    requires Indices(s, order)
    ensures Indices(s, r)
  {
    if order == [] then []
    else
      var front := FirstOccurrences(s, name, order[..|order| - 1]);
      var last := order[|order| - 1];
      if HasName(s, name, front, name(s[last])) then front else front + [last]
  }

  lemma FirstOccurrencesStep<T>(s: seq<T>, name: T -> string, order: seq<nat>, n: nat)
    requires Indices(s, order) && n < |order|
    ensures Indices(s, order[..n]) && Indices(s, order[..n + 1])
    ensures var front := FirstOccurrences(s, name, order[..n]);
            FirstOccurrences(s, name, order[..n + 1]) ==
            if HasName(s, name, front, name(s[order[n]])) then front else front + [order[n]]
  {
    assert order[..n + 1][..n] == order[..n];
  }

  ghost predicate AllDifferent<T>(s: seq<T>, name: T -> string, order: seq<nat>)
    requires Indices(s, order)
  {
    forall i, j :: 0 <= i < j < |order| ==> name(s[order[i]]) != name(s[order[j]])
  }

  lemma {:induction false} OccurrenceFrom<T>(s: seq<T>, name: T -> string, order: seq<nat>, i: nat) returns (k: nat)
    requires Indices(s, order) && i < |FirstOccurrences(s, name, order)|
    ensures k < |order| && order[k] == FirstOccurrences(s, name, order)[i]
  {
    var prefix := order[..|order| - 1];
    if i < |FirstOccurrences(s, name, prefix)| {
      k := OccurrenceFrom(s, name, prefix, i);
    } else {
      k := |order| - 1;
    }
  }

  lemma {:induction false} FirstOccurrencesDiffer<T>(s: seq<T>, name: T -> string, order: seq<nat>)
    requires Indices(s, order)
    ensures AllDifferent(s, name, FirstOccurrences(s, name, order))
  {
    if order != [] {
      FirstOccurrencesDiffer(s, name, order[..|order| - 1]);
    }
  }

  lemma {:induction false} FirstOccurrencesAscend<T>(
    s: seq<T>, compare: (T, T) -> int, name: T -> string, order: seq<nat>)
    requires Ascending(s, compare, order)
    ensures Ascending(s, compare, FirstOccurrences(s, name, order))
  {
    if order != [] {
      var prefix, last := order[..|order| - 1], order[|order| - 1];
      FirstOccurrencesAscend(s, compare, name, prefix);
      var front := FirstOccurrences(s, name, prefix);
      forall i | 0 <= i < |front| ensures Precedes(s, compare, front[i], last) {
        var k := OccurrenceFrom(s, name, prefix, i);
        assert order[k] == front[i];
      }
    }
  }

  /** x has y's name and is y or ranked before it. */
  ghost predicate Represents<T>(s: seq<T>, compare: (T, T) -> int, name: T -> string, x: nat, y: nat) {
    && x < |s| && y < |s|
    && name(s[x]) == name(s[y])
    && (x == y || Precedes(s, compare, x, y))
  }

  lemma {:induction false} FirstOccurrencesRepresent<T>(
    s: seq<T>, compare: (T, T) -> int, name: T -> string, order: seq<nat>, y: nat) returns (i: nat)
    requires Ascending(s, compare, order) && y in order
    ensures i < |FirstOccurrences(s, name, order)|
    ensures Represents(s, compare, name, FirstOccurrences(s, name, order)[i], y)
  {
    var prefix, last := order[..|order| - 1], order[|order| - 1];
    var front := FirstOccurrences(s, name, prefix);
    if y in prefix {
      i := FirstOccurrencesRepresent(s, compare, name, prefix, y);
    } else if HasName(s, name, front, name(s[last])) {
      i :| 0 <= i < |front| && name(s[front[i]]) == name(s[last]);
      var k := OccurrenceFrom(s, name, prefix, i);
      assert order[k] == front[i] && Precedes(s, compare, order[k], last);
    } else {
      i := |front|;
    }
  }

  /** The elements that survive, best first. */
  ghost function Ranked<T>(s: seq<T>, compare: (T, T) -> int, name: T -> string): (r: seq<nat>)
    ensures Indices(s, r)
  {
    FirstOccurrences(s, name, StableOrder(s, compare))
  }

  /** Each survivor is the best element of its name, the survivors are in order, and every
      name survives. */
  lemma RankedIsPriorityOrder<T(!new)>(s: seq<T>, compare: (T, T) -> int, name: T -> string)
    requires TotalPreorder(compare)
    ensures var r := Ranked(s, compare, name);
            && AllDifferent(s, name, r)
            && Ascending(s, compare, r)
            && (forall y :: 0 <= y < |s| ==> HasName(s, name, r, name(s[y])))
            && (forall i, y :: 0 <= i < |r| && 0 <= y < |s| && name(s[y]) == name(s[r[i]])
                  ==> y == r[i] || Precedes(s, compare, r[i], y))
  {
    var r := Ranked(s, compare, name);
    StableOrderIsSorted(s, compare);
    FirstOccurrencesAscend(s, compare, name, StableOrder(s, compare));
    FirstOccurrencesDiffer(s, name, StableOrder(s, compare));
    forall y | 0 <= y < |s|
      ensures HasName(s, name, r, name(s[y]))
      ensures forall i :: 0 <= i < |r| && name(s[y]) == name(s[r[i]]) ==> y == r[i] || Precedes(s, compare, r[i], y)
    {
      assert y in StableOrder(s, compare);
      var k := FirstOccurrencesRepresent(s, compare, name, StableOrder(s, compare), y);
      assert name(s[r[k]]) == name(s[y]);
    }
  }

  /** Whatever is ranked before a survivor is represented by an earlier survivor. */
  lemma RepresentedEarlier<T(!new)>(s: seq<T>, compare: (T, T) -> int, name: T -> string, i: nat, y: nat)
    returns (k: nat)
    requires TotalPreorder(compare)
    requires i < |Ranked(s, compare, name)| && y < |s| && Precedes(s, compare, y, Ranked(s, compare, name)[i])
    ensures k < i && name(s[Ranked(s, compare, name)[k]]) == name(s[y])
    ensures name(s[y]) != name(s[Ranked(s, compare, name)[i]])
  {
    hide Precedes, TotalPreorder, Ranked;
    var r := Ranked(s, compare, name);
    RankedIsPriorityOrder(s, compare, name);
    assert HasName(s, name, r, name(s[y]));
    k :| 0 <= k < |r| && name(s[r[k]]) == name(s[y]);
    PrecedesIsStrictTotalOrder(s, compare, r[k], y, r[i]);
    PrecedesIsStrictTotalOrder(s, compare, r[k], r[i], r[k]);
    PrecedesIsStrictTotalOrder(s, compare, r[i], r[k], r[i]);
  }
}
