/** buildAlternativesList and findBestAlternative of internal/webhook/core/v1/pod_webhook.go:
    which references a container image can be routed to, and which one is taken. */
module Routing {
  import opened Prelude
  import opened StableSorting
  import opened Alternatives
  import opened Mirrors
  import Parallel
  import Paths

  /** A normalised reference, split at its first slash. */
  datatype Name = Name(registry: string, path: string)

  /** reference.ParseNormalizedNamed, as a library function of the text. */
  type Parser = string -> Option<Name>

  /** filter is the compiled image filter, None when it does not compile. */
  datatype Upstream = Upstream(
    registry: string, path: string, priority: nat, discard: bool,
    filter: Option<string -> bool>, credential: Option<Credential>)
  {
    /** BuildWithRegistry: the filter sees the image without the registry. */
    predicate Accepts(image: string) {
      filter.Some? && registry <= image && filter.value(image[|registry|..])
    }

    function Prefix(): string {
      Paths.Join([registry, path])
    }

    predicate Usable() {
      filter.Some? && !discard
    }
  }

  datatype ReplicatedSet = ReplicatedSet(namespace: string, priority: GoInt, upstreams: seq<Upstream>)

  datatype MirrorSet = MirrorSet(
    namespace: string, priority: GoInt, filter: Option<string -> bool>, mirrors: seq<Mirror>)

  datatype RouteError = InvalidReference | UnreadableSecret

  function TrimPrefix(s: string, prefix: string): string {
    if prefix <= s then s[|prefix|..] else s
  }

  // ----- Replicated sets -----

  /** The first of the first n upstreams that accepts the image. */
  function MatchIndex(upstreams: seq<Upstream>, image: string, n: nat): (r: Option<nat>)
    requires n <= |upstreams|
    ensures r.Some? ==> r.value < n && upstreams[r.value].Accepts(image)
    ensures forall i :: 0 <= i < (if r.Some? then r.value else n) ==> !upstreams[i].Accepts(image)
  {
    if n == 0 then None
    else
      var before := MatchIndex(upstreams, image, n - 1);
      if before.Some? then before
      else if upstreams[n - 1].Accepts(image) then Some(n - 1) else None
  }

  function UpstreamAlternative(set_: ReplicatedSet, suffix: string, d: nat): Alternative
    requires d < |set_.upstreams|
  {
    var u := set_.upstreams[d];
    Alternative(u.Prefix() + suffix, u.credential, set_.priority, u.priority,
                if set_.namespace == "" then Cris else Ris, d)
  }

  function Rewrites(set_: ReplicatedSet, suffix: string, n: nat): seq<Alternative>
    requires n <= |set_.upstreams|
  {
    if n == 0 then []
    else
      Rewrites(set_, suffix, n - 1) +
      if set_.upstreams[n - 1].Usable() then [UpstreamAlternative(set_, suffix, n - 1)] else []
  }

  /** The candidates one replicated set contributes. */
  function FromSet(set_: ReplicatedSet, image: string): seq<Alternative> {
    match MatchIndex(set_.upstreams, image, |set_.upstreams|)
    case None => []
    case Some(i) => Rewrites(set_, TrimPrefix(image, set_.upstreams[i].Prefix()), |set_.upstreams|)
  }

  /** The upstream the image comes from is marked to be no longer used. */
  predicate Discards(set_: ReplicatedSet, image: string) {
    var i := MatchIndex(set_.upstreams, image, |set_.upstreams|);
    i.Some? && set_.upstreams[i.value].discard
  }

  function FromSets(sets: seq<ReplicatedSet>, image: string, n: nat): seq<Alternative>
    requires n <= |sets|
  {
    if n == 0 then [] else FromSets(sets, image, n - 1) + FromSet(sets[n - 1], image)
  }

  predicate DiscardsBelow(sets: seq<ReplicatedSet>, image: string, n: nat)
    requires n <= |sets|
  {
    n > 0 && (DiscardsBelow(sets, image, n - 1) || Discards(sets[n - 1], image))
  }

  predicate DiscardsOriginal(sets: seq<ReplicatedSet>, image: string) {
    DiscardsBelow(sets, image, |sets|)
  }

  function OriginalAlternative(image: string, pinned: bool): Alternative {
    Alternative(image, None, if pinned then MIN_INT else 0, 0, Original, 0)
  }

  function Base(sets: seq<ReplicatedSet>, image: string, pinned: bool): seq<Alternative> {
    FromSets(sets, image, |sets|) + if DiscardsOriginal(sets, image) then [] else [OriginalAlternative(image, pinned)]
  }

  method MatchUpstream(upstreams: seq<Upstream>, image: string) returns (index: int, valid: seq<bool>)
    ensures index == -1 <==> MatchIndex(upstreams, image, |upstreams|).None?
    ensures index != -1 ==> MatchIndex(upstreams, image, |upstreams|) == Some(index)
    ensures |valid| == |upstreams| && forall i :: 0 <= i < |valid| ==> valid[i] == upstreams[i].filter.Some?
  {
    index, valid := -1, [];
    for i := 0 to |upstreams|
      invariant index == -1 <==> MatchIndex(upstreams, image, i).None?
      invariant index != -1 ==> MatchIndex(upstreams, image, i) == Some(index)
      invariant |valid| == i && forall k :: 0 <= k < i ==> valid[k] == upstreams[k].filter.Some?
    {
      var upstream := upstreams[i];
      if upstream.filter.None? {
        valid := valid + [false];
        continue;
      }
      valid := valid + [true];
      if index == -1 && upstream.Accepts(image) {
        index := i;
      }
    }
  }

  method AppendRewrites(set_: ReplicatedSet, valid: seq<bool>, suffix: string, before: seq<Alternative>)
    returns (alternatives: seq<Alternative>)
    requires |valid| == |set_.upstreams|
    requires forall i :: 0 <= i < |valid| ==> valid[i] == set_.upstreams[i].filter.Some?
    ensures alternatives == before + Rewrites(set_, suffix, |set_.upstreams|)
  {
    alternatives := before;
    for d := 0 to |set_.upstreams|
      invariant alternatives == before + Rewrites(set_, suffix, d)
    {
      if !valid[d] || set_.upstreams[d].discard {
        continue;
      }
      alternatives := alternatives + [UpstreamAlternative(set_, suffix, d)];
    }
  }

  method CollectReplicated(sets: seq<ReplicatedSet>, image: string)
    returns (alternatives: seq<Alternative>, discardOriginal: bool)
    ensures alternatives == FromSets(sets, image, |sets|)
    ensures discardOriginal == DiscardsOriginal(sets, image)
  {
    alternatives, discardOriginal := [], false;
    for n := 0 to |sets|
      invariant alternatives == FromSets(sets, image, n)
      invariant discardOriginal == DiscardsBelow(sets, image, n)
    {
      var set_ := sets[n];
      var index, valid := MatchUpstream(set_.upstreams, image);
      if index == -1 {
        assert FromSet(set_, image) == [] && !Discards(set_, image);
        continue;
      }
      assert Discards(set_, image) == set_.upstreams[index].discard;
      if set_.upstreams[index].discard {
        discardOriginal := true;
      }
      var suffix := TrimPrefix(image, set_.upstreams[index].Prefix());
      assert FromSet(set_, image) == Rewrites(set_, suffix, |set_.upstreams|);
      alternatives := AppendRewrites(set_, valid, suffix, alternatives);
    }
  }

  // ----- Which base candidates there are -----

  /** The image comes from upstream number i: its registry starts the image, its filter compiles and
      accepts the rest, and neither holds of an upstream before it. */
  ghost predicate ComesFrom(upstreams: seq<Upstream>, image: string, i: nat) {
    && i < |upstreams| && upstreams[i].filter.Some?
    && upstreams[i].registry <= image && upstreams[i].filter.value(image[|upstreams[i].registry|..])
    && forall k :: 0 <= k < i ==>
         var u := upstreams[k];
         u.filter.None? || !(u.registry <= image) || !u.filter.value(image[|u.registry|..])
  }

  /** Set number n has the image from an upstream that is marked to be no longer used. */
  ghost predicate DiscardedBy(sets: seq<ReplicatedSet>, image: string, n: nat, i: nat) {
    n < |sets| && ComesFrom(sets[n].upstreams, image, i) && sets[n].upstreams[i].discard
  }

  /** Set number n has the image from upstream i, and upstream d, which compiles and is not
      discarded, offers it as a: with d's registry and path in place of i's. */
  ghost predicate OfferedBy(sets: seq<ReplicatedSet>, image: string, n: nat, i: nat, d: nat, a: Alternative) {
    && n < |sets| && ComesFrom(sets[n].upstreams, image, i)
    && d < |sets[n].upstreams| && sets[n].upstreams[d].filter.Some? && !sets[n].upstreams[d].discard
    && var from, u := sets[n].upstreams[i], sets[n].upstreams[d];
       var prefix := Paths.Join([from.registry, from.path]);
       a == Alternative(
         Paths.Join([u.registry, u.path]) + if prefix <= image then image[|prefix|..] else image,
         u.credential, sets[n].priority, u.priority, if sets[n].namespace == "" then Cris else Ris, d)
  }

  /** The base candidates are the image itself, exactly when no set has it from a discarded upstream,
      and what the upstreams of the sets that have it offer. */
  lemma BaseCandidatesIff(sets: seq<ReplicatedSet>, image: string, pinned: bool, a: Alternative)
    ensures a in Base(sets, image, pinned) <==>
              || (a == Alternative(image, None, if pinned then MIN_INT else 0, 0, Original, 0)
                  && !exists n: nat, i: nat :: DiscardedBy(sets, image, n, i))
              || exists n: nat, i: nat, d: nat :: OfferedBy(sets, image, n, i, d, a)
  {
    hide DiscardedBy, OfferedBy, DiscardsBelow, FromSets;
    DiscardedIff(sets, image, |sets|);
    FromSetsMembers(sets, image, |sets|, a);
    if n: nat, i: nat :| DiscardedBy(sets, image, n, i) {
      DiscardedIsDeclared(sets, image, n, i);
    }
    if n: nat, i: nat, d: nat :| OfferedBy(sets, image, n, i, d, a) {
      OfferedIsDeclared(sets, image, n, i, d, a);
    }
  }

  lemma DiscardedIsDeclared(sets: seq<ReplicatedSet>, image: string, n: nat, i: nat)
    requires DiscardedBy(sets, image, n, i)
    ensures n < |sets|
  {
  }

  lemma OfferedIsDeclared(sets: seq<ReplicatedSet>, image: string, n: nat, i: nat, d: nat, a: Alternative)
    requires OfferedBy(sets, image, n, i, d, a)
    ensures n < |sets|
  {
  }

  lemma MatchedIff(upstreams: seq<Upstream>, image: string, i: nat)
    ensures MatchIndex(upstreams, image, |upstreams|) == Some(i) <==> ComesFrom(upstreams, image, i)
  {
    hide MatchIndex;
    var m := MatchIndex(upstreams, image, |upstreams|);
    if ComesFrom(upstreams, image, i) {
      assert upstreams[i].Accepts(image);
      assert m.Some?;
    }
  }

  lemma {:induction false} DiscardedIff(sets: seq<ReplicatedSet>, image: string, n: nat)
    requires n <= |sets|
    ensures DiscardsBelow(sets, image, n) <==> exists k: nat, i: nat :: k < n && DiscardedBy(sets, image, k, i)
  {
    hide ComesFrom;
    if n > 0 {
      var last := n - 1;
      DiscardedIff(sets, image, last);
      var m := MatchIndex(sets[last].upstreams, image, |sets[last].upstreams|);
      forall i: nat ensures ComesFrom(sets[last].upstreams, image, i) <==> m == Some(i) {
        MatchedIff(sets[last].upstreams, image, i);
      }
      if Discards(sets[last], image) {
        assert DiscardedBy(sets, image, last, m.value);
      }
    }
  }

  lemma {:induction false} FromSetsMembers(sets: seq<ReplicatedSet>, image: string, n: nat, a: Alternative)
    requires n <= |sets|
    ensures a in FromSets(sets, image, n) <==>
              exists k: nat, i: nat, d: nat :: k < n && OfferedBy(sets, image, k, i, d, a)
  {
    hide OfferedBy, FromSet;
    if n > 0 {
      var last := n - 1;
      FromSetsMembers(sets, image, last, a);
      FromSetMembers(sets, image, last, a);
    }
  }

  lemma FromSetMembers(sets: seq<ReplicatedSet>, image: string, n: nat, a: Alternative)
    requires n < |sets|
    ensures a in FromSet(sets[n], image) <==> exists i: nat, d: nat :: OfferedBy(sets, image, n, i, d, a)
  {
    hide ComesFrom, Rewrites, Paths.Join;
    var set_ := sets[n];
    var m := MatchIndex(set_.upstreams, image, |set_.upstreams|);
    forall i: nat ensures ComesFrom(set_.upstreams, image, i) <==> m == Some(i) {
      MatchedIff(set_.upstreams, image, i);
    }
    if m.Some? {
      var suffix := TrimPrefix(image, set_.upstreams[m.value].Prefix());
      RewritesMembers(set_, suffix, |set_.upstreams|, a);
      if d: nat :| RewrittenBy(set_, suffix, d, a) {
        assert OfferedBy(sets, image, n, m.value, d, a);
      }
      if i: nat, d: nat :| OfferedBy(sets, image, n, i, d, a) {
        assert i == m.value && RewrittenBy(set_, suffix, d, a);
      }
    }
  }

  ghost predicate RewrittenBy(set_: ReplicatedSet, suffix: string, d: nat, a: Alternative) {
    d < |set_.upstreams| && set_.upstreams[d].Usable() && a == UpstreamAlternative(set_, suffix, d)
  }

  lemma {:induction false} RewritesMembers(set_: ReplicatedSet, suffix: string, n: nat, a: Alternative)
    requires n <= |set_.upstreams|
    ensures a in Rewrites(set_, suffix, n) <==> exists d: nat :: d < n && RewrittenBy(set_, suffix, d, a)
  {
    hide Upstream.Usable, UpstreamAlternative;
    if n > 0 {
      var last := n - 1;
      RewritesMembers(set_, suffix, last, a);
      assert RewrittenBy(set_, suffix, last, a) <==>
          set_.upstreams[last].Usable() && a == UpstreamAlternative(set_, suffix, last);
    }
  }

  // ----- Mirror sets -----

  predicate MirrorAccepts(set_: MirrorSet, name: Name) {
    set_.filter.Some? && set_.filter.value(Paths.Join([name.registry, name.path]))
  }

  function MirrorAlternative(set_: MirrorSet, path: string, d: nat): Alternative
    requires d < |set_.mirrors|
  {
    var m := set_.mirrors[d];
    Alternative(m.Destination(path), m.credential, set_.priority, m.priority,
                if set_.namespace == "" then Cism else Ism, d)
  }

  function MirrorsOf(set_: MirrorSet, path: string): (r: seq<Alternative>)
    ensures |r| == |set_.mirrors|
  {
    seq(|set_.mirrors|, d requires 0 <= d < |set_.mirrors| => MirrorAlternative(set_, path, d))
  }

  ghost predicate AllParse(parse: Parser, alternatives: seq<Alternative>) {
    forall i :: 0 <= i < |alternatives| ==> parse(alternatives[i].reference).Some?
  }

  /** What one mirror set adds for one alternative. */
  function MirroredOf(parse: Parser, set_: MirrorSet, a: Alternative): seq<Alternative> {
    var name := parse(a.reference);
    if name.Some? && MirrorAccepts(set_, name.value) then MirrorsOf(set_, name.value.path) else []
  }

  /** What one mirror set adds for the first n alternatives. */
  function Mirrored(parse: Parser, set_: MirrorSet, alternatives: seq<Alternative>, n: nat): seq<Alternative>
    requires n <= |alternatives|
  {
    if n == 0 then [] else Mirrored(parse, set_, alternatives, n - 1) + MirroredOf(parse, set_, alternatives[n - 1])
  }

  /** One mirror set: skipped when its filter does not compile, else every alternative known
      so far must parse. */
  ghost function ExpandSet(parse: Parser, set_: MirrorSet, alternatives: seq<Alternative>)
    : Result<seq<Alternative>, RouteError>
  {
    if set_.filter.None? then Ok(alternatives)
    else if !AllParse(parse, alternatives) then Err(InvalidReference)
    else Ok(alternatives + Mirrored(parse, set_, alternatives, |alternatives|))
  }

  /** The first n mirror sets, each seeing what the ones before it added. */
  ghost function Expand(parse: Parser, sets: seq<MirrorSet>, base: seq<Alternative>, n: nat)
    : Result<seq<Alternative>, RouteError>
    requires n <= |sets|
  {
    if n == 0 then Ok(base)
    else match Expand(parse, sets, base, n - 1)
      case Err(e) => Err(e)
      case Ok(known) => ExpandSet(parse, sets[n - 1], known)
  }

  lemma MirroredNone(parse: Parser, set_: MirrorSet, alternatives: seq<Alternative>)
    ensures Mirrored(parse, set_, alternatives, 0) == []
  {
  }

  lemma MirroredStep(parse: Parser, set_: MirrorSet, alternatives: seq<Alternative>, n: nat, name: Name)
    requires n < |alternatives| && parse(alternatives[n].reference) == Some(name)
    ensures Mirrored(parse, set_, alternatives, n + 1) ==
              Mirrored(parse, set_, alternatives, n) +
              if MirrorAccepts(set_, name) then MirrorsOf(set_, name.path) else []
  {
    hide MirrorAccepts, MirrorsOf;
  }

  method AppendMirrors(set_: MirrorSet, path: string, before: seq<Alternative>) returns (alternatives: seq<Alternative>)
    ensures alternatives == before + MirrorsOf(set_, path)
  {
    alternatives := before;
    for d := 0 to |set_.mirrors|
      invariant alternatives == before + MirrorsOf(set_, path)[..d]
    {
      alternatives := alternatives + [MirrorAlternative(set_, path, d)];
    }
  }

  /** Go's range evaluates the slice once: what the loop appends is not visited by it. */
  method ExpandOne(parse: Parser, set_: MirrorSet, snapshot: seq<Alternative>)
    returns (r: Result<seq<Alternative>, RouteError>)
    requires set_.filter.Some?
    ensures r == ExpandSet(parse, set_, snapshot)
  {
    hide Mirrored, MirroredOf, MirrorsOf, MirrorAccepts;
    MirroredNone(parse, set_, snapshot);
    var alternatives := snapshot;
    for i := 0 to |snapshot|
      invariant forall k :: 0 <= k < i ==> parse(snapshot[k].reference).Some?
      invariant alternatives == snapshot + Mirrored(parse, set_, snapshot, i)
    {
      var name := parse(snapshot[i].reference);
      if name.None? {
        assert !AllParse(parse, snapshot);
        return Err(InvalidReference);
      }
      MirroredStep(parse, set_, snapshot, i, name.value);
      if !MirrorAccepts(set_, name.value) {
        continue;
      }
      alternatives := AppendMirrors(set_, name.value.path, alternatives);
    }
    return Ok(alternatives);
  }

  method ExpandMirrors(parse: Parser, sets: seq<MirrorSet>, base: seq<Alternative>)
    returns (r: Result<seq<Alternative>, RouteError>)
    ensures r == Expand(parse, sets, base, |sets|)
  {
    var alternatives := base;
    for n := 0 to |sets|
      invariant Expand(parse, sets, base, n) == Ok(alternatives)
    {
      if sets[n].filter.None? {
        continue;
      }
      var expanded := ExpandOne(parse, sets[n], alternatives);
      assert Expand(parse, sets, base, n + 1) == expanded;
      if expanded.Err? {
        ExpandErrorStays(parse, sets, base, n + 1, |sets|);
        return expanded;
      }
      alternatives := expanded.value;
    }
    return Ok(alternatives);
  }

  lemma {:induction false} ExpandErrorStays(parse: Parser, sets: seq<MirrorSet>, base: seq<Alternative>, n: nat, m: nat)
    requires n <= m <= |sets| && Expand(parse, sets, base, n).Err?
    ensures Expand(parse, sets, base, m) == Expand(parse, sets, base, n)
  {
    if n < m {
      ExpandErrorStays(parse, sets, base, n, m - 1);
    }
  }

  /** The expansion fails exactly when a set whose filter compiles meets a candidate that does not
      parse. */
  lemma {:induction false} ExpansionFailsIff(parse: Parser, sets: seq<MirrorSet>, base: seq<Alternative>, n: nat)
    requires n <= |sets|
    ensures Expand(parse, sets, base, n).Err? <==> exists k: nat :: k < n && StuckAt(parse, sets, base, k)
    ensures Expand(parse, sets, base, n).Err? ==> Expand(parse, sets, base, n).error == InvalidReference
  {
    hide Mirrored, Expand;
    if n == 0 {
      ExpandNone(parse, sets, base);
    } else {
      var last := n - 1;
      ExpansionFailsIff(parse, sets, base, last);
      ExpandStep(parse, sets, base, n);
      if Expand(parse, sets, base, last).Ok? {
        assert Expand(parse, sets, base, n).Err? <==> StuckAt(parse, sets, base, last);
      }
    }
  }

  lemma ExpandNone(parse: Parser, sets: seq<MirrorSet>, base: seq<Alternative>)
    ensures Expand(parse, sets, base, 0) == Ok(base)
  {
  }

  lemma ExpandStep(parse: Parser, sets: seq<MirrorSet>, base: seq<Alternative>, n: nat)
    requires 0 < n <= |sets|
    ensures Expand(parse, sets, base, n) ==
              match Expand(parse, sets, base, n - 1)
              case Err(e) => Err(e)
              case Ok(known) => ExpandSet(parse, sets[n - 1], known)
  {
    hide ExpandSet;
  }

  ghost predicate StuckAt(parse: Parser, sets: seq<MirrorSet>, base: seq<Alternative>, k: nat) {
    && k < |sets| && sets[k].filter.Some?
    && Expand(parse, sets, base, k).Ok?
    && exists i :: 0 <= i < |Expand(parse, sets, base, k).value|
                   && parse(Expand(parse, sets, base, k).value[i].reference).None?
  }

  /** Candidates are generated in the order of the declarations, set by set and within a set, which
      decides between equal keys: what is there stays in front of what comes later. */
  lemma {:induction false} FromSetsGrow(sets: seq<ReplicatedSet>, image: string, m: nat, n: nat)
    requires m <= n <= |sets|
    ensures FromSets(sets, image, m) <= FromSets(sets, image, n)
  {
    hide FromSet;
    if m < n {
      FromSetsGrow(sets, image, m, n - 1);
    }
  }

  lemma {:induction false} MirroredGrow(parse: Parser, set_: MirrorSet, known: seq<Alternative>, m: nat, n: nat)
    requires m <= n <= |known|
    ensures Mirrored(parse, set_, known, m) <= Mirrored(parse, set_, known, n)
  {
    hide MirroredOf;
    if m < n {
      MirroredGrow(parse, set_, known, m, n - 1);
    }
  }

  lemma {:induction false} ExpandGrows(parse: Parser, sets: seq<MirrorSet>, base: seq<Alternative>, m: nat, n: nat)
    requires m <= n <= |sets| && Expand(parse, sets, base, n).Ok?
    ensures Expand(parse, sets, base, m).Ok? && Expand(parse, sets, base, m).value <= Expand(parse, sets, base, n).value
  {
    hide Mirrored, AllParse;
    if m < n {
      ExpandGrows(parse, sets, base, m, n - 1);
    }
  }

  /** The upstreams a set offers are in declaration order, each once. */
  lemma {:induction false} RewritesAreInOrder(set_: ReplicatedSet, suffix: string, n: nat)
    requires n <= |set_.upstreams|
    ensures forall x :: 0 <= x < |Rewrites(set_, suffix, n)| ==> Rewrites(set_, suffix, n)[x].declarationOrder < n
    ensures forall x, y :: 0 <= x < y < |Rewrites(set_, suffix, n)| ==>
              Rewrites(set_, suffix, n)[x].declarationOrder < Rewrites(set_, suffix, n)[y].declarationOrder
  {
    hide Paths.Join;
    if n > 0 {
      RewritesAreInOrder(set_, suffix, n - 1);
    }
  }

  // ----- Every candidate is a chain of mirrors, and every chain is a candidate -----

  /** Mirror number mirror of mirror set number set_. */
  datatype Link = Link(set_: nat, mirror: nat)

  /** What mirror number d of a set makes of a candidate, if the set's filter compiles and accepts it:
      the filter sees registry and path, the mirror takes the path. */
  ghost function MirrorOf(parse: Parser, set_: MirrorSet, source: Alternative, d: nat): Option<Alternative> {
    var name := parse(source.reference);
    if d < |set_.mirrors| && name.Some? && set_.filter.Some?
       && set_.filter.value(Paths.Join([name.value.registry, name.value.path]))
    then
      var m := set_.mirrors[d];
      Some(Alternative(Paths.Join([m.registry, m.path, name.value.path]), m.credential, set_.priority, m.priority,
                       if set_.namespace == "" then Cism else Ism, d))
    else None
  }

  ghost function ApplyLink(parse: Parser, sets: seq<MirrorSet>, a: Alternative, link: Link): Option<Alternative> {
    if link.set_ < |sets| then MirrorOf(parse, sets[link.set_], a, link.mirror) else None
  }

  /** Mirrors applied one after the other, each filter accepting what it is given. */
  ghost function Follow(parse: Parser, sets: seq<MirrorSet>, a: Alternative, links: seq<Link>): Option<Alternative> {
    if links == [] then Some(a)
    else
      var before := Follow(parse, sets, a, links[..|links| - 1]);
      if before.Some? then ApplyLink(parse, sets, before.value, links[|links| - 1]) else None
  }

  ghost predicate Increasing(links: seq<Link>, n: nat) {
    && (forall i :: 0 <= i < |links| ==> links[i].set_ < n)
    && (forall i, j :: 0 <= i < j < |links| ==> links[i].set_ < links[j].set_)
  }

  ghost predicate IsChain(
    parse: Parser, sets: seq<MirrorSet>, n: nat, start: Alternative, links: seq<Link>, a: Alternative)
  {
    Increasing(links, n) && Follow(parse, sets, start, links) == Some(a)
  }

  ghost predicate IsMirrorOf(parse: Parser, set_: MirrorSet, source: Alternative, d: nat, a: Alternative) {
    MirrorOf(parse, set_, source, d) == Some(a)
  }

  lemma MirroredOfMembers(parse: Parser, set_: MirrorSet, source: Alternative, a: Alternative)
    ensures a in MirroredOf(parse, set_, source) <==> exists d: nat :: IsMirrorOf(parse, set_, source, d, a)
  {
    hide Paths.Join;
    var name := parse(source.reference);
    if name.Some? && MirrorAccepts(set_, name.value) {
      var added := MirrorsOf(set_, name.value.path);
      assert forall d :: 0 <= d < |added| ==> added[d] == MirrorAlternative(set_, name.value.path, d);
      if d: nat :| IsMirrorOf(parse, set_, source, d, a) {
        assert added[d] == a;
      }
      if a in added {
        var d: nat :| d < |added| && added[d] == a;
        assert IsMirrorOf(parse, set_, source, d, a);
      }
    }
  }

  ghost predicate AddedAt(parse: Parser, set_: MirrorSet, known: seq<Alternative>, i: nat, a: Alternative) {
    i < |known| && a in MirroredOf(parse, set_, known[i])
  }

  lemma {:induction false} MirroredMembers(
    parse: Parser, set_: MirrorSet, known: seq<Alternative>, n: nat, a: Alternative)
    requires n <= |known|
    ensures a in Mirrored(parse, set_, known, n) <==> exists i: nat :: i < n && AddedAt(parse, set_, known, i, a)
  {
    hide MirroredOf;
    if n > 0 {
      MirroredMembers(parse, set_, known, n - 1, a);
      assert AddedAt(parse, set_, known, n - 1, a) <==> a in MirroredOf(parse, set_, known[n - 1]);
    }
  }

  /** A candidate new at step n is a mirror of a candidate known before. */
  lemma NewCandidate(parse: Parser, sets: seq<MirrorSet>, base: seq<Alternative>, n: nat, a: Alternative)
    returns (source: Alternative, d: nat)
    requires 0 < n <= |sets| && Expand(parse, sets, base, n).Ok? && a in Expand(parse, sets, base, n).value
    requires a !in Expand(parse, sets, base, n - 1).value
    ensures source in Expand(parse, sets, base, n - 1).value && IsMirrorOf(parse, sets[n - 1], source, d, a)
  {
    hide MirroredOf, IsMirrorOf;
    var known := Expand(parse, sets, base, n - 1).value;
    MirroredMembers(parse, sets[n - 1], known, |known|, a);
    var i: nat :| i < |known| && AddedAt(parse, sets[n - 1], known, i, a);
    source := known[i];
    assert a in MirroredOf(parse, sets[n - 1], source);
    MirroredOfMembers(parse, sets[n - 1], source, a);
    d :| IsMirrorOf(parse, sets[n - 1], source, d, a);
  }

  lemma {:induction false} CandidateHasChain(
    parse: Parser, sets: seq<MirrorSet>, base: seq<Alternative>, n: nat, a: Alternative)
    returns (start: Alternative, links: seq<Link>)
    requires n <= |sets| && Expand(parse, sets, base, n).Ok? && a in Expand(parse, sets, base, n).value
    ensures start in base && IsChain(parse, sets, n, start, links, a)
  {
    hide IsChain, IsMirrorOf, Mirrored, AllParse;
    if n == 0 {
      start, links := a, [];
      EmptyChain(parse, sets, a);
    } else {
      var known := Expand(parse, sets, base, n - 1).value;
      if a in known {
        start, links := CandidateHasChain(parse, sets, base, n - 1, a);
        ChainWidens(parse, sets, n, start, links, a);
      } else {
        var source, d := NewCandidate(parse, sets, base, n, a);
        var front;
        start, front := CandidateHasChain(parse, sets, base, n - 1, source);
        links := front + [Link(n - 1, d)];
        ChainExtends(parse, sets, n, start, front, source, d, a);
      }
    }
  }

  lemma EmptyChain(parse: Parser, sets: seq<MirrorSet>, a: Alternative)
    ensures IsChain(parse, sets, 0, a, [], a)
  {
  }

  lemma ChainWidens(parse: Parser, sets: seq<MirrorSet>, n: nat, start: Alternative, links: seq<Link>, a: Alternative)
    requires 0 < n && IsChain(parse, sets, n - 1, start, links, a)
    ensures IsChain(parse, sets, n, start, links, a)
  {
  }

  lemma ChainExtends(
    parse: Parser, sets: seq<MirrorSet>, n: nat, start: Alternative, front: seq<Link>, mid: Alternative, d: nat,
    a: Alternative)
    requires 0 < n <= |sets| && IsChain(parse, sets, n - 1, start, front, mid)
    requires IsMirrorOf(parse, sets[n - 1], mid, d, a)
    ensures IsChain(parse, sets, n, start, front + [Link(n - 1, d)], a)
  {
    hide MirrorOf;
    var links := front + [Link(n - 1, d)];
    assert links[..|links| - 1] == front;
  }

  lemma {:induction false} ChainIsCandidate(
    parse: Parser, sets: seq<MirrorSet>, base: seq<Alternative>, n: nat, start: Alternative, links: seq<Link>,
    a: Alternative)
    requires n <= |sets| && Expand(parse, sets, base, n).Ok?
    requires start in base && IsChain(parse, sets, n, start, links, a)
    ensures a in Expand(parse, sets, base, n).value
    decreases n
  {
    hide IsChain, IsMirrorOf, Mirrored, AllParse;
    if n == 0 {
      NoLinks(parse, sets, start, links, a);
    } else {
      var known := Expand(parse, sets, base, n - 1).value;
      var mid, d := LastLink(parse, sets, n, start, links, a);
      if d.None? {
        ChainIsCandidate(parse, sets, base, n - 1, start, links, a);
      } else {
        ChainIsCandidate(parse, sets, base, n - 1, start, links[..|links| - 1], mid);
        MirrorIsAdded(parse, sets[n - 1], known, mid, d.value, a);
        MirrorNeedsFilter(parse, sets[n - 1], mid, d.value, a);
      }
    }
  }

  lemma NoLinks(parse: Parser, sets: seq<MirrorSet>, start: Alternative, links: seq<Link>, a: Alternative)
    requires IsChain(parse, sets, 0, start, links, a)
    ensures a == start
  {
    assert links == [];
  }

  lemma MirrorNeedsFilter(parse: Parser, set_: MirrorSet, source: Alternative, d: nat, a: Alternative)
    requires IsMirrorOf(parse, set_, source, d, a)
    ensures set_.filter.Some?
  {
  }

  /** A chain over n sets either stays below the last one or ends with one of its mirrors. */
  lemma LastLink(parse: Parser, sets: seq<MirrorSet>, n: nat, start: Alternative, links: seq<Link>, a: Alternative)
    returns (mid: Alternative, d: Option<nat>)
    requires 0 < n <= |sets| && IsChain(parse, sets, n, start, links, a)
    ensures d.None? ==> IsChain(parse, sets, n - 1, start, links, a)
    ensures d.Some? ==> links != [] && IsChain(parse, sets, n - 1, start, links[..|links| - 1], mid)
                        && IsMirrorOf(parse, sets[n - 1], mid, d.value, a)
  {
    hide MirrorOf;
    mid := a;
    if links == [] || links[|links| - 1].set_ < n - 1 {
      d := None;
    } else {
      mid := Follow(parse, sets, start, links[..|links| - 1]).value;
      d := Some(links[|links| - 1].mirror);
    }
  }

  lemma MirrorIsAdded(
    parse: Parser, set_: MirrorSet, known: seq<Alternative>, source: Alternative, d: nat, a: Alternative)
    requires source in known && IsMirrorOf(parse, set_, source, d, a)
    ensures a in Mirrored(parse, set_, known, |known|)
  {
    hide Mirrored, MirroredOf, IsMirrorOf;
    var i :| 0 <= i < |known| && known[i] == source;
    MirroredOfMembers(parse, set_, source, a);
    assert AddedAt(parse, set_, known, i, a);
    MirroredMembers(parse, set_, known, |known|, a);
  }

  /** The expansion is exact: its result holds the base candidates and the mirrors reached
      along strictly increasing chains of mirror sets whose filters accept every intermediate
      reference, and nothing else. */
  lemma CandidatesAreTheChains(parse: Parser, sets: seq<MirrorSet>, base: seq<Alternative>, a: Alternative)
    requires Expand(parse, sets, base, |sets|).Ok?
    ensures a in Expand(parse, sets, base, |sets|).value <==>
            exists start, links :: start in base && IsChain(parse, sets, |sets|, start, links, a)
  {
    if a in Expand(parse, sets, base, |sets|).value {
      var start, links := CandidateHasChain(parse, sets, base, |sets|, a);
    }
    if exists start, links :: start in base && IsChain(parse, sets, |sets|, start, links, a) {
      var start, links :| start in base && IsChain(parse, sets, |sets|, start, links, a);
      ChainIsCandidate(parse, sets, base, |sets|, start, links, a);
    }
  }

  ghost function Growth(sets: seq<MirrorSet>, n: nat): (g: nat)
    requires n <= |sets|
  {
    if n == 0 then 1 else Growth(sets, n - 1) * (1 + |sets[n - 1].mirrors|)
  }

  lemma {:induction false} MirroredSize(parse: Parser, set_: MirrorSet, known: seq<Alternative>, n: nat)
    requires n <= |known|
    ensures |Mirrored(parse, set_, known, n)| <= n * |set_.mirrors|
  {
    if n > 0 {
      hide MirrorAccepts, MirrorAlternative;
      MirroredSize(parse, set_, known, n - 1);
      assert |MirroredOf(parse, set_, known[n - 1])| <= |set_.mirrors|;
      assert n * |set_.mirrors| == (n - 1) * |set_.mirrors| + |set_.mirrors|;
    }
  }

  lemma ExpandSetSize(parse: Parser, set_: MirrorSet, known: seq<Alternative>)
    requires ExpandSet(parse, set_, known).Ok?
    ensures |ExpandSet(parse, set_, known).value| <= |known| * (1 + |set_.mirrors|)
  {
    assert |known| * (1 + |set_.mirrors|) == |known| + |known| * |set_.mirrors|;
    if set_.filter.Some? {
      MirroredSize(parse, set_, known, |known|);
    }
  }

  /** At most base candidates times the product of (1 + mirrors) over the mirror sets. */
  lemma {:induction false} ExpansionIsBounded(parse: Parser, sets: seq<MirrorSet>, base: seq<Alternative>, n: nat)
    requires n <= |sets| && Expand(parse, sets, base, n).Ok?
    ensures |Expand(parse, sets, base, n).value| <= |base| * Growth(sets, n)
  {
    if n > 0 {
      ExpansionIsBounded(parse, sets, base, n - 1);
      var known := Expand(parse, sets, base, n - 1).value;
      ExpandSetSize(parse, sets[n - 1], known);
      GrowthBound(|known|, |base|, Growth(sets, n - 1), 1 + |sets[n - 1].mirrors|);
    }
  }

  lemma GrowthBound(a: nat, b: nat, g: nat, m: nat)
    requires a <= b * g
    ensures a * m <= b * (g * m)
  {
    Scales(a, b * g, m);
    assert (b * g) * m == b * (g * m);
  }

  // ----- Replicated sets rename consistently -----

  /** No valid upstream's prefix starts another's, and no filter reaches outside its prefix. */
  ghost predicate CleanlySeparated(set_: ReplicatedSet) {
    && (forall i, j :: 0 <= i < |set_.upstreams| && 0 <= j < |set_.upstreams| && i != j
          && set_.upstreams[i].filter.Some? && set_.upstreams[j].filter.Some?
          ==> !(set_.upstreams[i].Prefix() <= set_.upstreams[j].Prefix()))
    && (forall i, image: string :: 0 <= i < |set_.upstreams| && set_.upstreams[i].Accepts(image)
          ==> set_.upstreams[i].Prefix() <= image)
  }

  lemma AcceptedByItsOwn(set_: ReplicatedSet, i: nat, suffix: string)
    requires CleanlySeparated(set_) && i < |set_.upstreams|
    requires set_.upstreams[i].Accepts(set_.upstreams[i].Prefix() + suffix)
    ensures FromSet(set_, set_.upstreams[i].Prefix() + suffix) == Rewrites(set_, suffix, |set_.upstreams|)
  {
    var image := set_.upstreams[i].Prefix() + suffix;
    var k := MatchIndex(set_.upstreams, image, |set_.upstreams|).value;
    var p, q := set_.upstreams[i].Prefix(), set_.upstreams[k].Prefix();
    assert p <= image && q <= image;
    assert p <= q || q <= p by {
      assert p == image[..|p|] && q == image[..|q|];
    }
    assert k == i;
    assert TrimPrefix(image, p) == suffix;
  }

  ghost predicate OffersReference(alternatives: seq<Alternative>, reference: string) {
    exists i :: 0 <= i < |alternatives| && alternatives[i].reference == reference
  }

  /** Equivalent images, each accepted by its own upstream, get the same candidates; each of
      the two is among them, so rewriting there and back restores the image. */
  lemma RenamingIsConsistent(set_: ReplicatedSet, i: nat, j: nat, suffix: string)
    requires CleanlySeparated(set_) && i < |set_.upstreams| && j < |set_.upstreams|
    requires set_.upstreams[i].Accepts(set_.upstreams[i].Prefix() + suffix)
    requires set_.upstreams[j].Accepts(set_.upstreams[j].Prefix() + suffix)
    ensures var x, y := set_.upstreams[i].Prefix() + suffix, set_.upstreams[j].Prefix() + suffix;
            && FromSet(set_, x) == FromSet(set_, y)
            && (!set_.upstreams[j].discard ==> OffersReference(FromSet(set_, x), y))
            && (!set_.upstreams[i].discard ==> OffersReference(FromSet(set_, y), x))
  {
    AcceptedByItsOwn(set_, i, suffix);
    AcceptedByItsOwn(set_, j, suffix);
    forall k | 0 <= k < |set_.upstreams| && set_.upstreams[k].Usable()
      ensures UpstreamAlternative(set_, suffix, k) in Rewrites(set_, suffix, |set_.upstreams|)
    {
      RewritesMembers(set_, suffix, |set_.upstreams|, UpstreamAlternative(set_, suffix, k));
      assert RewrittenBy(set_, suffix, k, UpstreamAlternative(set_, suffix, k));
    }
  }

  /** The filter is only relative to the registry, not to the path. An accepted image is
      rewritten to itself by its own upstream exactly when it lies under the upstream's full
      prefix; otherwise the whole image is appended to the prefix. */
  lemma SelfRewriteIffUnderPrefix(u: Upstream, image: string)
    requires u.Accepts(image)
    ensures u.Prefix() + TrimPrefix(image, u.Prefix()) == image <==> u.Prefix() <= image
  {
    if !(u.Prefix() <= image) {
      assert |u.Prefix()| > 0;
      assert |u.Prefix() + image| > |image|;
    }
  }

  // ----- buildAlternativesList -----

  ghost function Candidates(
    parse: Parser, mirrorSets: seq<MirrorSet>, replicatedSets: seq<ReplicatedSet>, image: string, pinned: bool)
    : Result<seq<Alternative>, RouteError>
  {
    Expand(parse, mirrorSets, Base(replicatedSets, image, pinned), |mirrorSets|)
  }

  /** loadAlternativesSecrets fails on the first secret it cannot read. */
  ghost predicate SecretsLoad(readable: Credential -> bool, images: seq<AlternativeImage>) {
    forall i :: 0 <= i < |images| && images[i].credential.Some? ==> readable(images[i].credential.value)
  }

  /** The images a container ends up with. */
  ghost function FinalImages(
    parse: Parser, readable: Credential -> bool, mirrorSets: seq<MirrorSet>, replicatedSets: seq<ReplicatedSet>,
    image: string, pinned: bool)
    : Result<seq<AlternativeImage>, RouteError>
  {
    match Candidates(parse, mirrorSets, replicatedSets, image, pinned)
    case Err(e) => Err(e)
    case Ok(s) =>
      var images := ImagesOf(s, RankedAlternatives(s));
      if SecretsLoad(readable, images) then Ok(images) else Err(UnreadableSecret)
  }

  /** The list can be built exactly when every reference that a mirror set meets parses, and every
      credential that the final list names can be read. */
  lemma BuildSucceedsIff(
    parse: Parser, readable: Credential -> bool, mirrorSets: seq<MirrorSet>, replicatedSets: seq<ReplicatedSet>,
    image: string, pinned: bool)
    ensures var base := Base(replicatedSets, image, pinned);
            var candidates := Candidates(parse, mirrorSets, replicatedSets, image, pinned);
            && (candidates.Ok? <==> !exists k: nat :: StuckAt(parse, mirrorSets, base, k))
            && (FinalImages(parse, readable, mirrorSets, replicatedSets, image, pinned).Ok? <==>
                && candidates.Ok?
                && var s := candidates.value;
                   forall i :: 0 <= i < |RankedAlternatives(s)| && s[RankedAlternatives(s)[i]].credential.Some? ==>
                     readable(s[RankedAlternatives(s)[i]].credential.value))
  {
    hide Expand, Base;
    var base := Base(replicatedSets, image, pinned);
    ExpansionFailsIff(parse, mirrorSets, base, |mirrorSets|);
    forall k: nat | StuckAt(parse, mirrorSets, base, k) ensures k < |mirrorSets| {
    }
    var candidates := Candidates(parse, mirrorSets, replicatedSets, image, pinned);
    if candidates.Ok? {
      var s := candidates.value;
      var images := ImagesOf(s, RankedAlternatives(s));
      assert forall i :: 0 <= i < |images| ==> images[i].credential == s[RankedAlternatives(s)[i]].credential;
    }
  }

  method LoadSecrets(readable: Credential -> bool, images: seq<AlternativeImage>) returns (loaded: bool)
    ensures loaded <==> forall i :: 0 <= i < |images| && images[i].credential.Some? ==>
              readable(images[i].credential.value)
  {
    for i := 0 to |images|
      invariant forall k :: 0 <= k < i && images[k].credential.Some? ==> readable(images[k].credential.value)
    {
      var credential := images[i].credential;
      if credential.Some? && !readable(credential.value) {
        return false;
      }
    }
    return true;
  }

  method BuildAlternativesList(
    parse: Parser, readable: Credential -> bool, mirrorSets: seq<MirrorSet>, replicatedSets: seq<ReplicatedSet>,
    image: string, pinned: bool, container: Container)
    returns (error: Option<RouteError>)
    requires container.Valid() && container.images == []
    modifies container
    ensures container.Valid()
    ensures match FinalImages(parse, readable, mirrorSets, replicatedSets, image, pinned)
            case Ok(images) => error == None && container.images == images
            case Err(e) => error == Some(e)
    ensures error == Some(InvalidReference) ==> container.images == []
  {
    var alternatives, discardOriginal := CollectReplicated(replicatedSets, image);
    if !discardOriginal {
      alternatives := alternatives + [OriginalAlternative(image, pinned)];
    }
    assert alternatives == Base(replicatedSets, image, pinned);
    var expanded := ExpandMirrors(parse, mirrorSets, alternatives);
    if expanded.Err? {
      return Some(expanded.error);
    }
    container.AddAll(expanded.value);
    var loaded := LoadSecrets(readable, container.images);
    return if loaded then None else Some(UnreadableSecret);
  }

  lemma ReplicatedAreNotOriginal(sets: seq<ReplicatedSet>, image: string, a: Alternative)
    requires a in FromSets(sets, image, |sets|)
    ensures !a.typeOrder.Original?
  {
    hide ComesFrom, Paths.Join;
    FromSetsMembers(sets, image, |sets|, a);
  }

  lemma {:induction false} ExpandKeepsBase(parse: Parser, sets: seq<MirrorSet>, base: seq<Alternative>, n: nat)
    requires n <= |sets| && Expand(parse, sets, base, n).Ok?
    ensures base <= Expand(parse, sets, base, n).value
    ensures forall i :: |base| <= i < |Expand(parse, sets, base, n).value| ==>
              !Expand(parse, sets, base, n).value[i].typeOrder.Original?
  {
    hide AllParse, Mirrored;
    if n > 0 {
      ExpandKeepsBase(parse, sets, base, n - 1);
      var known, all := Expand(parse, sets, base, n - 1).value, Expand(parse, sets, base, n).value;
      var added := Mirrored(parse, sets[n - 1], known, |known|);
      assert all == known || all == known + added;
      forall i | |base| <= i < |all| ensures !all[i].typeOrder.Original? {
        if i < |known| {
          assert all[i] == known[i];
        } else {
          MirroredIsNotOriginal(parse, sets[n - 1], known, i - |known|);
        }
      }
    }
  }

  lemma MirroredIsNotOriginal(parse: Parser, set_: MirrorSet, known: seq<Alternative>, i: nat)
    requires i < |Mirrored(parse, set_, known, |known|)|
    ensures !Mirrored(parse, set_, known, |known|)[i].typeOrder.Original?
  {
    hide Mirrored, MirroredOf, MirrorAccepts, Paths.Join;
    var a := Mirrored(parse, set_, known, |known|)[i];
    MirroredMembers(parse, set_, known, |known|, a);
    var k: nat :| k < |known| && AddedAt(parse, set_, known, k, a);
    MirroredOfMembers(parse, set_, known[k], a);
  }

  /** The generated list has the one original that the ordering lemmas speak of. */
  lemma OriginalIsUnique(
    parse: Parser, mirrorSets: seq<MirrorSet>, replicatedSets: seq<ReplicatedSet>, image: string, pinned: bool)
    requires Candidates(parse, mirrorSets, replicatedSets, image, pinned).Ok?
    requires !DiscardsOriginal(replicatedSets, image)
    ensures var s := Candidates(parse, mirrorSets, replicatedSets, image, pinned).value;
            var o := |FromSets(replicatedSets, image, |replicatedSets|)|;
            OriginalAt(s, o) && s[o] == OriginalAlternative(image, pinned)
  {
    var s := Candidates(parse, mirrorSets, replicatedSets, image, pinned).value;
    var front, base := FromSets(replicatedSets, image, |replicatedSets|), Base(replicatedSets, image, pinned);
    ExpandKeepsBase(parse, mirrorSets, base, |mirrorSets|);
    forall y | 0 <= y < |front| ensures !s[y].typeOrder.Original? {
      assert s[y] == base[y] == front[y];
      ReplicatedAreNotOriginal(replicatedSets, image, front[y]);
    }
  }

  /** A kept original is preceded only by references with a negative-priority candidate, and by
      none when it is pinned. */
  lemma OriginalComesFirst(
    parse: Parser, mirrorSets: seq<MirrorSet>, replicatedSets: seq<ReplicatedSet>, image: string, pinned: bool, j: nat)
    requires Candidates(parse, mirrorSets, replicatedSets, image, pinned).Ok?
    requires !DiscardsOriginal(replicatedSets, image)
    ensures var s := Candidates(parse, mirrorSets, replicatedSets, image, pinned).value;
            var r := RankedAlternatives(s);
            && (j < |r| && s[r[j]].reference == image ==> forall i :: 0 <= i < j ==> s[r[i]].crPriority < 0)
            && (pinned ==> |r| > 0 && s[r[0]].reference == image)
  {
    var s := Candidates(parse, mirrorSets, replicatedSets, image, pinned).value;
    var r := RankedAlternatives(s);
    OriginalIsUnique(parse, mirrorSets, replicatedSets, image, pinned);
    var o := |FromSets(replicatedSets, image, |replicatedSets|)|;
    if j < |r| && s[r[j]].reference == image {
      forall i | 0 <= i < j ensures s[r[i]].crPriority < 0 {
        BeforeTheOriginal(s, o, i, j);
      }
    }
    if pinned {
      PinnedOriginalIsFirst(s, o);
    }
  }

  // ----- The documented priorities -----

  /** Where a candidate comes from: the image itself, mirror number mirror of mirror set number
      set_, or upstream number upstream of replicated set number set_. */
  datatype Origin =
    | OriginalImage
    | FromMirror(set_: nat, mirror: nat)
    | FromUpstream(set_: nat, upstream: nat)

  predicate Declared(mirrorSets: seq<MirrorSet>, replicatedSets: seq<ReplicatedSet>, o: Origin) {
    match o
    case OriginalImage => true
    case FromMirror(n, d) => n < |mirrorSets| && d < |mirrorSets[n].mirrors|
    case FromUpstream(n, d) => n < |replicatedSets| && d < |replicatedSets[n].upstreams|
  }

  /** spec.priority; the original has priority 0, or the least one when it is pinned. */
  function PriorityOf(mirrorSets: seq<MirrorSet>, replicatedSets: seq<ReplicatedSet>, pinned: bool, o: Origin): int
    requires Declared(mirrorSets, replicatedSets, o)
  {
    match o
    case OriginalImage => if pinned then MIN_INT else 0
    case FromMirror(n, _) => mirrorSets[n].priority
    case FromUpstream(n, _) => replicatedSets[n].priority
  }

  /** The original, then ClusterImageSetMirror, ImageSetMirror, ClusterReplicatedImageSet and
      ReplicatedImageSet. */
  function KindOf(mirrorSets: seq<MirrorSet>, replicatedSets: seq<ReplicatedSet>, o: Origin): int
    requires Declared(mirrorSets, replicatedSets, o)
  {
    match o
    case OriginalImage => 0
    case FromMirror(n, _) => if mirrorSets[n].namespace == "" then 1 else 2
    case FromUpstream(n, _) => if replicatedSets[n].namespace == "" then 3 else 4
  }

  /** The priority within the resource. */
  function IntraOf(mirrorSets: seq<MirrorSet>, replicatedSets: seq<ReplicatedSet>, o: Origin): int
    requires Declared(mirrorSets, replicatedSets, o)
  {
    match o
    case OriginalImage => 0
    case FromMirror(n, d) => mirrorSets[n].mirrors[d].priority
    case FromUpstream(n, d) => replicatedSets[n].upstreams[d].priority
  }

  function PositionOf(o: Origin): int {
    match o
    case OriginalImage => 0
    case FromMirror(_, d) => d
    case FromUpstream(_, d) => d
  }

  ghost predicate HasOrigin(
    mirrorSets: seq<MirrorSet>, replicatedSets: seq<ReplicatedSet>, image: string, pinned: bool, a: Alternative,
    o: Origin)
  {
    && Declared(mirrorSets, replicatedSets, o)
    && match o
       case OriginalImage => a == OriginalAlternative(image, pinned)
       case FromMirror(n, d) => exists path :: a == MirrorAlternative(mirrorSets[n], path, d)
       case FromUpstream(n, d) => exists suffix :: a == UpstreamAlternative(replicatedSets[n], suffix, d)
  }

  lemma FromSetsOrigin(
    mirrorSets: seq<MirrorSet>, sets: seq<ReplicatedSet>, image: string, pinned: bool, a: Alternative)
    returns (o: Origin)
    requires a in FromSets(sets, image, |sets|)
    ensures HasOrigin(mirrorSets, sets, image, pinned, a, o)
  {
    hide OfferedBy, FromSets, UpstreamAlternative;
    FromSetsMembers(sets, image, |sets|, a);
    var n: nat, i: nat, d: nat :| n < |sets| && OfferedBy(sets, image, n, i, d, a);
    var suffix := OfferedOrigin(sets, image, n, i, d, a);
    o := FromUpstream(n, d);
  }

  lemma OfferedOrigin(sets: seq<ReplicatedSet>, image: string, n: nat, i: nat, d: nat, a: Alternative)
    returns (suffix: string)
    requires OfferedBy(sets, image, n, i, d, a)
    ensures n < |sets| && d < |sets[n].upstreams| && a == UpstreamAlternative(sets[n], suffix, d)
  {
    hide Paths.Join;
    suffix := TrimPrefix(image, sets[n].upstreams[i].Prefix());
  }

  lemma {:induction false} ExpandOrigin(
    parse: Parser, sets: seq<MirrorSet>, replicatedSets: seq<ReplicatedSet>, image: string, pinned: bool,
    base: seq<Alternative>, n: nat, a: Alternative)
    returns (o: Origin)
    requires n <= |sets| && Expand(parse, sets, base, n).Ok? && a in Expand(parse, sets, base, n).value && a !in base
    ensures HasOrigin(sets, replicatedSets, image, pinned, a, o)
  {
    hide Paths.Join;
    if a in Expand(parse, sets, base, n - 1).value {
      o := ExpandOrigin(parse, sets, replicatedSets, image, pinned, base, n - 1, a);
    } else {
      var source, d := NewCandidate(parse, sets, base, n, a);
      o := FromMirror(n - 1, d);
      assert a == MirrorAlternative(sets[n - 1], parse(source.reference).value.path, d);
    }
  }

  /** Every generated candidate has an origin. */
  lemma GeneratedOrigin(
    parse: Parser, mirrorSets: seq<MirrorSet>, replicatedSets: seq<ReplicatedSet>, image: string, pinned: bool,
    a: Alternative)
    returns (o: Origin)
    requires Candidates(parse, mirrorSets, replicatedSets, image, pinned).Ok?
    requires a in Candidates(parse, mirrorSets, replicatedSets, image, pinned).value
    ensures HasOrigin(mirrorSets, replicatedSets, image, pinned, a, o)
  {
    var base := Base(replicatedSets, image, pinned);
    if a !in base {
      o := ExpandOrigin(parse, mirrorSets, replicatedSets, image, pinned, base, |mirrorSets|, a);
    } else if a in FromSets(replicatedSets, image, |replicatedSets|) {
      o := FromSetsOrigin(mirrorSets, replicatedSets, image, pinned, a);
    } else {
      o := OriginalImage;
    }
  }

  /** The four levels of the documentation: CR priority, kind, intra priority, position. */
  function DocumentedKey(
    mirrorSets: seq<MirrorSet>, replicatedSets: seq<ReplicatedSet>, pinned: bool, o: Origin): (key: seq<int>)
    requires Declared(mirrorSets, replicatedSets, o)
    ensures |key| == 4
  {
    [PriorityOf(mirrorSets, replicatedSets, pinned, o), KindOf(mirrorSets, replicatedSets, o),
     IntraOf(mirrorSets, replicatedSets, o), PositionOf(o)]
  }

  /** Of two references in the final list the first has no greater documented key. */
  lemma FinalListIsInDocumentedOrder(
    parse: Parser, mirrorSets: seq<MirrorSet>, replicatedSets: seq<ReplicatedSet>, image: string, pinned: bool,
    i: nat, j: nat, a: Origin, b: Origin)
    requires Candidates(parse, mirrorSets, replicatedSets, image, pinned).Ok?
    requires var s := Candidates(parse, mirrorSets, replicatedSets, image, pinned).value;
             var r := RankedAlternatives(s);
             && i < j < |r|
             && HasOrigin(mirrorSets, replicatedSets, image, pinned, s[r[i]], a)
             && HasOrigin(mirrorSets, replicatedSets, image, pinned, s[r[j]], b)
    ensures !KeyLess(DocumentedKey(mirrorSets, replicatedSets, pinned, b),
                     DocumentedKey(mirrorSets, replicatedSets, pinned, a))
  {
    var s := Candidates(parse, mirrorSets, replicatedSets, image, pinned).value;
    var r := RankedAlternatives(s);
    FinalListIsPriorityOrder(s);
    assert Better(s, r[i], r[j]);
    OriginGivesKey(mirrorSets, replicatedSets, image, pinned, s[r[i]], a);
    OriginGivesKey(mirrorSets, replicatedSets, image, pinned, s[r[j]], b);
    BetterIsNotGreater(s, r[i], r[j]);
  }

  lemma OriginGivesKey(
    mirrorSets: seq<MirrorSet>, replicatedSets: seq<ReplicatedSet>, image: string, pinned: bool, a: Alternative,
    o: Origin)
    requires HasOrigin(mirrorSets, replicatedSets, image, pinned, a, o)
    ensures Key(a) == DocumentedKey(mirrorSets, replicatedSets, pinned, o)
  {
    hide Paths.Join;
  }

  lemma BetterIsNotGreater(s: seq<Alternative>, x: nat, y: nat)
    requires x < |s| && y < |s| && Better(s, x, y)
    ensures !KeyLess(Key(s[y]), Key(s[x]))
  {
    CompareIsTotalPreorder();
    CompareIsLexicographic(s[y], s[x]);
    CompareIsLexicographic(s[x], s[y]);
    hide KeyLess, Key;
  }

  /** Nobody sets a priority. */
  ghost predicate AllDefault(mirrorSets: seq<MirrorSet>, replicatedSets: seq<ReplicatedSet>) {
    && (forall n :: 0 <= n < |mirrorSets| ==> mirrorSets[n].priority == 0)
    && (forall n :: 0 <= n < |replicatedSets| ==> replicatedSets[n].priority == 0)
  }

  /** The final list is ordered by CR priority; without explicit priorities by kind: the original,
      then the mirrors of cluster-wide and of namespaced resources, then their upstreams. */
  lemma DefaultOrder(
    parse: Parser, mirrorSets: seq<MirrorSet>, replicatedSets: seq<ReplicatedSet>, image: string, pinned: bool,
    i: nat, j: nat, a: Origin, b: Origin)
    requires Candidates(parse, mirrorSets, replicatedSets, image, pinned).Ok?
    requires var s := Candidates(parse, mirrorSets, replicatedSets, image, pinned).value;
             var r := RankedAlternatives(s);
             && i < j < |r|
             && HasOrigin(mirrorSets, replicatedSets, image, pinned, s[r[i]], a)
             && HasOrigin(mirrorSets, replicatedSets, image, pinned, s[r[j]], b)
    ensures PriorityOf(mirrorSets, replicatedSets, pinned, a) <= PriorityOf(mirrorSets, replicatedSets, pinned, b)
    ensures AllDefault(mirrorSets, replicatedSets) ==>
              KindOf(mirrorSets, replicatedSets, a) <= KindOf(mirrorSets, replicatedSets, b)
  {
    FinalListIsInDocumentedOrder(parse, mirrorSets, replicatedSets, image, pinned, i, j, a, b);
    KeyLevels(DocumentedKey(mirrorSets, replicatedSets, pinned, b),
              DocumentedKey(mirrorSets, replicatedSets, pinned, a));
  }

  /** In the final list a mirror or an upstream precedes the original, where that stands for itself
      and is not pinned, exactly when its CR priority is negative. */
  lemma PriorityDecidesFirst(
    parse: Parser, mirrorSets: seq<MirrorSet>, replicatedSets: seq<ReplicatedSet>, image: string,
    i: nat, j: nat, a: Origin)
    requires Candidates(parse, mirrorSets, replicatedSets, image, false).Ok?
    requires var s := Candidates(parse, mirrorSets, replicatedSets, image, false).value;
             var r := RankedAlternatives(s);
             && i < |r| && j < |r| && a != OriginalImage
             && HasOrigin(mirrorSets, replicatedSets, image, false, s[r[i]], a)
             && HasOrigin(mirrorSets, replicatedSets, image, false, s[r[j]], OriginalImage)
    ensures i < j <==> PriorityOf(mirrorSets, replicatedSets, false, a) < 0
  {
    var key := DocumentedKey(mirrorSets, replicatedSets, false, a);
    var original := DocumentedKey(mirrorSets, replicatedSets, false, OriginalImage);
    KeyLevels(key, original);
    KeyLevels(original, key);
    if i < j {
      FinalListIsInDocumentedOrder(parse, mirrorSets, replicatedSets, image, false, i, j, a, OriginalImage);
    } else if j < i {
      FinalListIsInDocumentedOrder(parse, mirrorSets, replicatedSets, image, false, j, i, OriginalImage, a);
    } else {
      var s := Candidates(parse, mirrorSets, replicatedSets, image, false).value;
      OriginGivesKey(mirrorSets, replicatedSets, image, false, s[RankedAlternatives(s)[i]], a);
      OriginGivesKey(mirrorSets, replicatedSets, image, false, s[RankedAlternatives(s)[i]], OriginalImage);
    }
  }

  /** The intra priority is documented to order the mirrors of one resource. The key does not
      name the resource, so in the final list the candidates of all resources of one kind and
      priority are interleaved by it, and then by their positions. */
  lemma EqualSetsAreInterleaved(
    parse: Parser, mirrorSets: seq<MirrorSet>, replicatedSets: seq<ReplicatedSet>, image: string, pinned: bool,
    i: nat, j: nat, a: Origin, b: Origin)
    requires Candidates(parse, mirrorSets, replicatedSets, image, pinned).Ok?
    requires var s := Candidates(parse, mirrorSets, replicatedSets, image, pinned).value;
             var r := RankedAlternatives(s);
             && i < j < |r|
             && HasOrigin(mirrorSets, replicatedSets, image, pinned, s[r[i]], a)
             && HasOrigin(mirrorSets, replicatedSets, image, pinned, s[r[j]], b)
    requires PriorityOf(mirrorSets, replicatedSets, pinned, a) == PriorityOf(mirrorSets, replicatedSets, pinned, b)
    requires KindOf(mirrorSets, replicatedSets, a) == KindOf(mirrorSets, replicatedSets, b)
    ensures IntraOf(mirrorSets, replicatedSets, a) <= IntraOf(mirrorSets, replicatedSets, b)
    ensures IntraOf(mirrorSets, replicatedSets, a) == IntraOf(mirrorSets, replicatedSets, b) ==>
              PositionOf(a) <= PositionOf(b)
  {
    FinalListIsInDocumentedOrder(parse, mirrorSets, replicatedSets, image, pinned, i, j, a, b);
    KeyLevels(DocumentedKey(mirrorSets, replicatedSets, pinned, b),
              DocumentedKey(mirrorSets, replicatedSets, pinned, a));
  }

  // ----- findBestAlternative -----

  function FirstAvailable(images: seq<AlternativeImage>, available: string -> bool): Option<AlternativeImage> {
    if images == [] then None
    else if available(images[0].reference) then Some(images[0])
    else FirstAvailable(images[1..], available)
  }

  /** With fewer than two images nothing is probed. */
  function BestAvailable(images: seq<AlternativeImage>, available: string -> bool): Option<AlternativeImage> {
    if |images| > 1 then FirstAvailable(images, available) else None
  }

  lemma {:induction false} FirstAvailableAt(images: seq<AlternativeImage>, available: string -> bool, k: nat)
    requires k <= |images| && forall i :: 0 <= i < k ==> !available(images[i].reference)
    requires k < |images| ==> available(images[k].reference)
    ensures FirstAvailable(images, available) == if k < |images| then Some(images[k]) else None
  {
    if k > 0 {
      FirstAvailableAt(images[1..], available, k - 1);
    }
  }

  function ProbeOutcome(image: AlternativeImage, available: string -> bool): Parallel.Outcome<AlternativeImage, ()> {
    if available(image.reference) then Parallel.Success(image) else Parallel.Failure(())
  }

  /** Probes every image at once, when there are at least two; arrivals is the order in which
      the results happen to come in. */
  method FindBestAlternative(images: seq<AlternativeImage>, available: string -> bool, arrivals: seq<nat>)
    returns (taken: Option<AlternativeImage>)
    requires IsPermutation(arrivals, |images|)
    ensures taken == BestAvailable(images, available)
  {
    taken := None;
    if |images| > 1 {
      var outcomes := seq(|images|, i requires 0 <= i < |images| => ProbeOutcome(images[i], available));
      var answer, _ := Parallel.FirstSuccessful(outcomes, arrivals);
      taken := answer.value;
      ghost var k := Parallel.FirstSuccessExists(outcomes);
      Parallel.ScanAt(outcomes, k);
      assert forall i :: 0 <= i < |images| ==> outcomes[i] == ProbeOutcome(images[i], available);
      assert forall i :: 0 <= i < k ==> outcomes[i].Failure?;
      FirstAvailableAt(images, available, k);
    }
  }

  /** The priority scan that the concurrent probing amounts to: an image is taken exactly when there
      are two references or more and one is available. It is available, and every candidate ranked
      better than it was probed and is not. */
  lemma RoutingIsPriorityScan(s: seq<Alternative>, available: string -> bool, taken: Option<AlternativeImage>)
    requires taken == BestAvailable(ImagesOf(s, RankedAlternatives(s)), available)
    ensures taken.Some? ==>
              exists x :: 0 <= x < |s| && ImageOf(s[x]) == taken.value && available(s[x].reference)
                          && forall y :: 0 <= y < |s| && Better(s, y, x) ==>
                            s[y].reference != s[x].reference && !available(s[y].reference)
    ensures taken.None? <==>
              || |RankedAlternatives(s)| < 2
              || forall y :: 0 <= y < |s| ==> !available(s[y].reference)
  {
    CompareIsTotalPreorder();
    var r := RankedAlternatives(s);
    var images := ImagesOf(s, r);
    var i := 0;
    while i < |images| && !available(images[i].reference)
      invariant i <= |images| && forall k :: 0 <= k < i ==> !available(images[k].reference)
    {
      i := i + 1;
    }
    FirstAvailableAt(images, available, i);
    if taken.Some? {
      forall y | 0 <= y < |s| && Better(s, y, r[i])
        ensures s[y].reference != s[r[i]].reference && !available(s[y].reference)
      {
        var k := RepresentedEarlier(s, CompareAlternatives, ReferenceOf, i, y);
        assert images[k].reference == s[y].reference;
      }
    } else if |r| >= 2 {
      FinalListIsPriorityOrder(s);
      forall y | 0 <= y < |s| ensures !available(s[y].reference) {
        assert s[y].reference in References(s, r);
        var k :| 0 <= k < |r| && References(s, r)[k] == s[y].reference;
        assert images[k].reference == s[y].reference;
      }
    }
  }
}
