/** The priority order of internal/webhook/core/v1/pod_webhook.go: compareAlternatives, the
    stable sort and addAlternative. */
module Alternatives {
  import opened Prelude
  import opened StableSorting

  const MIN_INT := -0x8000_0000_0000_0000
  const MAX_INT := 0x7fff_ffff_ffff_ffff

  /** A Go int on a 64-bit platform, the type of spec.priority. */
  type GoInt = x: int | MIN_INT <= x <= MAX_INT

  datatype CrType = Original | Cism | Ism | Cris | Ris {
    function Order(): nat {
      match this
      case Original => 0
      case Cism => 1
      case Ism => 2
      case Cris => 3
      case Ris => 4
    }
  }

  datatype Credential = Credential(namespace: string, name: string)

  /** prioritizedAlternative */
  datatype Alternative = Alternative(
    reference: string,
    credential: Option<Credential>,
    crPriority: GoInt,
    intraPriority: nat,
    typeOrder: CrType,
    declarationOrder: nat)

  function Cmp(a: int, b: int): int {
    if a < b then -1 else if a > b then 1 else 0
  }

  /** cmp.Or: the first result that is not zero. */
  function CompareAlternatives(a: Alternative, b: Alternative): int {
    var byPriority := Cmp(a.crPriority, b.crPriority);
    var byType := Cmp(a.typeOrder.Order(), b.typeOrder.Order());
    var byIntra := Cmp(a.intraPriority, b.intraPriority);
    if byPriority != 0 then byPriority
    else if byType != 0 then byType
    else if byIntra != 0 then byIntra
    else Cmp(a.declarationOrder, b.declarationOrder)
  }

  lemma CompareIsTotalPreorder()
    ensures TotalPreorder(CompareAlternatives)
  {
  }

  /** The documented sort key: CR priority, kind of resource, intra priority, declaration. */
  function Key(a: Alternative): seq<int> {
    [a.crPriority, a.typeOrder.Order(), a.intraPriority, a.declarationOrder]
  }

  predicate KeyLess(a: seq<int>, b: seq<int>)
    requires |a| == |b|
  {
    a != [] && (a[0] < b[0] || (a[0] == b[0] && KeyLess(a[1..], b[1..])))
  }

  lemma CompareIsLexicographic(a: Alternative, b: Alternative)
    ensures CompareAlternatives(a, b) < 0 <==> KeyLess(Key(a), Key(b))
    ensures CompareAlternatives(a, b) == 0 <==> Key(a) == Key(b)
  {
    var k, l := Key(a), Key(b);
    KeyLevels(k, l);
    assert k[0] == l[0] && k[1] == l[1] && k[2] == l[2] && k[3] == l[3] ==> k == l;
  }

  lemma KeyLevels(k: seq<int>, l: seq<int>)
    requires |k| == |l| == 4
    ensures KeyLess(k, l) <==>
              || k[0] < l[0]
              || (k[0] == l[0] && (k[1] < l[1] || (k[1] == l[1] && (k[2] < l[2] || (k[2] == l[2] && k[3] < l[3])))))
  {
    assert KeyLess(k[1..][1..][1..], l[1..][1..][1..]) <==> k[3] < l[3];
    assert KeyLess(k[1..][1..], l[1..][1..]) <==> k[2] < l[2] || (k[2] == l[2] && k[3] < l[3]);
    assert KeyLess(k[1..], l[1..]) <==> k[1] < l[1] || (k[1] == l[1] && KeyLess(k[1..][1..], l[1..][1..]));
  }

  function ReferenceOf(a: Alternative): string {
    a.reference
  }

  /** The candidates that survive sorting and duplicate removal, best first. */
  ghost function RankedAlternatives(s: seq<Alternative>): (r: seq<nat>)
    ensures Indices(s, r)
  {
    Ranked(s, CompareAlternatives, ReferenceOf)
  }

  ghost predicate Better(s: seq<Alternative>, x: nat, y: nat)
    requires x < |s| && y < |s|
  {
    Precedes(s, CompareAlternatives, x, y)
  }

  ghost function References(s: seq<Alternative>, order: seq<nat>): seq<string>
    requires Indices(s, order)
  {
    seq(|order|, i requires 0 <= i < |order| => s[order[i]].reference)
  }

  /** The final list has every generated reference exactly once, each standing for the best of
      its candidates by (CR priority, type, intra priority, declaration, generation), and the
      best candidates are in that order. */
  lemma FinalListIsPriorityOrder(s: seq<Alternative>)
    ensures var r := RankedAlternatives(s);
            && Distinct(References(s, r))
            && (forall y :: 0 <= y < |s| ==> s[y].reference in References(s, r))
            && (forall i, y :: 0 <= i < |r| && 0 <= y < |s| && s[y].reference == s[r[i]].reference
                  ==> y == r[i] || Better(s, r[i], y))
            && (forall i, j :: 0 <= i < j < |r| ==> Better(s, r[i], r[j]))
  {
    hide CompareAlternatives, Precedes, Ranked, TotalPreorder;
    CompareIsTotalPreorder();
    RankedIsPriorityOrder(s, CompareAlternatives, ReferenceOf);
    var r := RankedAlternatives(s);
    forall y | 0 <= y < |s| ensures s[y].reference in References(s, r) {
      assert HasName(s, ReferenceOf, r, ReferenceOf(s[y]));
      var k :| 0 <= k < |r| && ReferenceOf(s[r[k]]) == ReferenceOf(s[y]);
      assert References(s, r)[k] == s[y].reference;
    }
    forall i, y | 0 <= i < |r| && 0 <= y < |s| && s[y].reference == s[r[i]].reference
      ensures y == r[i] || Better(s, r[i], y)
    {
      assert ReferenceOf(s[y]) == ReferenceOf(s[r[i]]);
    }
    forall i, j | 0 <= i < j < |r| ensures References(s, r)[i] != References(s, r)[j] {
      assert ReferenceOf(s[r[i]]) != ReferenceOf(s[r[j]]);
    }
  }

  /** The generated list as buildAlternativesList makes it: at most one original, and it is the
      only candidate of its type. */
  ghost predicate OriginalAt(s: seq<Alternative>, o: nat) {
    && o < |s|
    && s[o].typeOrder.Original?
    && s[o].intraPriority == 0 && s[o].declarationOrder == 0
    && forall y :: 0 <= y < |s| && y != o ==> !s[y].typeOrder.Original?
  }

  /** Before a kept original with priority p only references that have a candidate of priority
      below p can stand. */
  lemma BeforeTheOriginal(s: seq<Alternative>, o: nat, i: nat, j: nat)
    requires OriginalAt(s, o)
    requires i < j < |RankedAlternatives(s)| && s[RankedAlternatives(s)[j]].reference == s[o].reference
    ensures s[RankedAlternatives(s)[i]].crPriority < s[o].crPriority
  {
    hide CompareAlternatives, Precedes, TotalPreorder, RankedAlternatives;
    FinalListIsPriorityOrder(s);
    var r := RankedAlternatives(s);
    var x, y := r[i], r[j];
    assert y == o || Better(s, y, o);
    assert Better(s, x, y);
    CompareIsTotalPreorder();
    PrecedesIsStrictTotalOrder(s, CompareAlternatives, x, y, o);
    BetterThanTheOriginal(s, o, x);
  }

  lemma BetterThanTheOriginal(s: seq<Alternative>, o: nat, x: nat)
    requires OriginalAt(s, o) && x < |s| && Better(s, x, o)
    ensures s[x].crPriority < s[o].crPriority
  {
  }

  /** An original pinned to the least integer is first, whatever the other priorities are,
      the least integer included. */
  lemma PinnedOriginalIsFirst(s: seq<Alternative>, o: nat)
    requires OriginalAt(s, o) && s[o].crPriority == MIN_INT
    ensures |RankedAlternatives(s)| > 0 && s[RankedAlternatives(s)[0]].reference == s[o].reference
  {
    FinalListIsPriorityOrder(s);
    var r := RankedAlternatives(s);
    assert s[o].reference in References(s, r);
    var j :| 0 <= j < |r| && References(s, r)[j] == s[o].reference;
    if j > 0 {
      BeforeTheOriginal(s, o, 0, j);
    }
  }

  // ----- addAlternative -----

  datatype AlternativeImage = AlternativeImage(reference: string, credential: Option<Credential>)

  function ImageOf(a: Alternative): AlternativeImage {
    AlternativeImage(a.reference, a.credential)
  }

  ghost function ImagesOf(s: seq<Alternative>, order: seq<nat>): seq<AlternativeImage>
    requires Indices(s, order)
  {
    seq(|order|, i requires 0 <= i < |order| => ImageOf(s[order[i]]))
  }

  predicate HasReference(images: seq<AlternativeImage>, ref: string) {
    exists i :: 0 <= i < |images| && images[i].reference == ref
  }

  lemma AddedOne(s: seq<Alternative>, order: seq<nat>, n: nat, images: seq<AlternativeImage>)
    requires Indices(s, order) && n < |order| && Indices(s, order[..n]) && Indices(s, order[..n + 1])
    requires images == ImagesOf(s, FirstOccurrences(s, ReferenceOf, order[..n]))
    ensures var a := s[order[n]];
            ImagesOf(s, FirstOccurrences(s, ReferenceOf, order[..n + 1])) ==
            if HasReference(images, a.reference) then images else images + [ImageOf(a)]
  {
    hide FirstOccurrences;
    FirstOccurrencesStep(s, ReferenceOf, order, n);
    var front := FirstOccurrences(s, ReferenceOf, order[..n]);
    assert forall i :: 0 <= i < |images| ==> images[i].reference == s[front[i]].reference;
  }

  lemma AddedNone(s: seq<Alternative>)
    ensures ImagesOf(s, FirstOccurrences(s, ReferenceOf, [])) == []
  {
  }

  /** The Container record: Images and the set that guards it against duplicates. */
  class Container {
    var images: seq<AlternativeImage>
    var alternatives: set<string>

    ghost predicate Valid()
      reads this
    {
      forall ref :: ref in alternatives <==> HasReference(images, ref)
    }

    constructor ()
      ensures Valid() && images == []
    {
      images, alternatives := [], {};
    }

    method AddAlternative(a: Alternative)
      requires Valid()
      modifies this
      ensures Valid()
      ensures images == if a.reference in old(alternatives) then old(images) else old(images) + [ImageOf(a)]
      ensures alternatives == old(alternatives) + {a.reference}
    {
      if a.reference in alternatives {
        return;
      }
      alternatives := alternatives + {a.reference};
      images := images + [ImageOf(a)];
      assert images[|images| - 1].reference == a.reference;
      assert forall i :: 0 <= i < |old(images)| ==> images[i] == old(images)[i];
    }

    /** Sorts the candidates and adds them one by one. */
    method AddAll(s: seq<Alternative>)
      requires Valid() && images == []
      modifies this
      ensures Valid()
      ensures images == ImagesOf(s, RankedAlternatives(s))
    {
      hide CompareAlternatives, StableOrder, FirstOccurrences, ImagesOf, HasReference;
      var order := StableOrder(s, CompareAlternatives);
      AddedNone(s);
      assert order[..0] == [];
      for n := 0 to |order|
        invariant Valid()
        invariant images == ImagesOf(s, FirstOccurrences(s, ReferenceOf, order[..n]))
      {
        AddedOne(s, order, n, images);
        AddAlternative(s[order[n]]);
      }
      assert order[..|order|] == order;
    }
  }
}
