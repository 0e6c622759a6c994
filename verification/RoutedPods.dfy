/** The webhook and the mirror reconciler together: does a pod that the webhook moved to a mirror
    keep the mirrors of its original image alive? */
module RoutedPods {
  import opened Prelude
  import opened PodDefaulter
  import opened MirrorStatus
  import MirrorRuns
  import PodImages
  import Routing

  /** The pod as the reconciler reads it. */
  function RefsOf(namespace: string, p: PodState): PodImages.PodRefs {
    PodImages.PodRefs(namespace, ImagesOf(p.initContainers) + ImagesOf(p.containers), p.originals)
  }

  function ImagesOf(containers: seq<ContainerSpec>): seq<string> {
    seq(|containers|, i requires 0 <= i < |containers| => containers[i].image)
  }

  /** Both sides parse references with the same library. */
  ghost predicate SameParser(parse: Routing.Parser, normalize: PodImages.Normalizer) {
    forall text :: normalize(text) == if parse(text).Some? then Some(NormalizedText(parse(text).value)) else None
  }

  ghost predicate SlotRuns(normalize: PodImages.Normalizer, p: PodState, slot: Slot, image: string) {
    InRange(p, slot) && PodImages.Means(normalize, SpecAt(p, slot).image, image)
  }

  ghost predicate PodRecords(normalize: PodImages.Normalizer, p: PodState, image: string) {
    exists name :: name in p.originals && PodImages.Means(normalize, p.originals[name], image)
  }

  /** A pod uses an image when a container runs it or its annotation records it. */
  lemma UsedIff(normalize: PodImages.Normalizer, namespace: string, p: PodState, image: string)
    ensures PodImages.RefersTo(normalize, RefsOf(namespace, p), image) <==>
              (exists slot :: SlotRuns(normalize, p, slot, image)) || PodRecords(normalize, p, image)
  {
    var refs := RefsOf(namespace, p);
    RunningIff(normalize, namespace, p, image);
    assert PodImages.RecordsOriginal(normalize, refs, image) <==> PodRecords(normalize, p, image);
  }

  lemma RunningIff(normalize: PodImages.Normalizer, namespace: string, p: PodState, image: string)
    ensures PodImages.Runs(normalize, RefsOf(namespace, p), image) <==>
              exists slot :: SlotRuns(normalize, p, slot, image)
  {
    var refs := RefsOf(namespace, p);
    var inits := ImagesOf(p.initContainers);
    if PodImages.Runs(normalize, refs, image) {
      var text :| text in refs.images && PodImages.Means(normalize, text, image);
      var k :| 0 <= k < |refs.images| && refs.images[k] == text;
      var slot := if k < |inits| then Init(k) else Regular(k - |inits|);
      assert SlotRuns(normalize, p, slot, image);
    }
    if slot :| SlotRuns(normalize, p, slot, image) {
      var k := if slot.Init? then slot.index else |inits| + slot.index;
      assert refs.images[k] == SpecAt(p, slot).image;
      assert refs.images[k] in refs.images;
    }
  }

  /** An admission moves the container of this slot away from the image it asked for. */
  ghost predicate MovesAway(adm: Admission, p: PodState, slot: Slot, normalize: PodImages.Normalizer) {
    && SameParser(adm.parse, normalize) && !adm.skip && Succeeds(adm, p) && IsFresh(p, slot)
    && Eligible(adm, SpecAt(p, slot))
    && !PodImages.Means(normalize, Decided(adm, slot, SpecAt(p, slot)).image, Normalized(adm, SpecAt(p, slot)))
  }

  ghost predicate RunsElsewhere(normalize: PodImages.Normalizer, p: PodState, slot: Slot, image: string) {
    exists other :: other != slot && SlotRuns(normalize, p, other, image)
  }

  /** After an admission moved a container, the pod still uses the image that container asked for
      exactly when the container is not an init container, or another container runs that image,
      or the annotation happens to record it. */
  lemma StillUsedIff(adm: Admission, p: PodState, slot: Slot, normalize: PodImages.Normalizer, namespace: string)
    requires MovesAway(adm, p, slot, normalize)
    ensures var image, q := Normalized(adm, SpecAt(p, slot)), Defaulted(adm, p);
            PodImages.RefersTo(normalize, RefsOf(namespace, q), image) <==>
            slot.Regular? || RunsElsewhere(normalize, q, slot, image) || PodRecords(normalize, q, image)
  {
    var c, q := SpecAt(p, slot), Defaulted(adm, p);
    var image := Normalized(adm, c);
    UsedIff(normalize, namespace, q, image);
    MovedSlot(adm, p, slot, normalize);
    if slot.Regular? {
      FirstImageIsRecorded(p, slot.index);
      assert PodImages.Means(normalize, q.originals[c.name], image);
    }
  }

  lemma MovedSlot(adm: Admission, p: PodState, slot: Slot, normalize: PodImages.Normalizer)
    requires MovesAway(adm, p, slot, normalize)
    ensures InRange(Defaulted(adm, p), slot)
    ensures SpecAt(Defaulted(adm, p), slot) == Decided(adm, slot, SpecAt(p, slot))
    ensures !SlotRuns(normalize, Defaulted(adm, p), slot, Normalized(adm, SpecAt(p, slot)))
  {
    hide Decided, SameParser, Succeeds;
  }

  /** A container whose image the webhook rewrote keeps the mirrors of the image it asked for, in
      every later reconcile that reads the pod, while nobody else drops or alters its record. */
  lemma RewrittenContainerKeepsItsMirrors(
    p: PodState, events: seq<Event>, m: nat, k: nat, n: nat, namespace: string,
    tracked: Tracked, r: MirrorRuns.Round, i: nat, destination: string)
    requires RewritesImage(p, events, m, k) && m < n <= |events|
    requires var c := StateAfter(p, events, m).containers[k];
             LeftAlone(events, m + 1, n, c.name, c.image)
    requires SameParser(events[m].adm.parse, r.normalize)
    requires r.Valid() && i < |r.pods| && r.pods[i] == RefsOf(namespace, StateAfter(p, events, n))
    ensures var c := StateAfter(p, events, m).containers[k];
            && Eligible(events[m].adm, c)
            && (var image := Normalized(events[m].adm, c);
                r.matches(image) && MirrorRuns.Tracks(tracked, image, destination) ==>
                  MirrorRuns.Tracks(MirrorRuns.AfterRound(tracked, r), image, destination))
  {
    hide StateAfter, MirrorRuns.AfterRound, SameParser, Eligible, LeftAlone;
    var c := StateAfter(p, events, m).containers[k];
    RecordedUnderItsName(p, events, m, k, n, r.normalize);
    var image := Normalized(events[m].adm, c);
    if r.matches(image) && MirrorRuns.Tracks(tracked, image, destination) {
      MirrorRuns.RewrittenPodKeepsItsMirrors(tracked, r, image, destination, i, c.name);
    }
  }

  /** The record the webhook made names the image the container asked for. */
  lemma RecordedUnderItsName(
    p: PodState, events: seq<Event>, m: nat, k: nat, n: nat, normalize: PodImages.Normalizer)
    requires RewritesImage(p, events, m, k) && m < n <= |events|
    requires var c := StateAfter(p, events, m).containers[k];
             LeftAlone(events, m + 1, n, c.name, c.image)
    requires SameParser(events[m].adm.parse, normalize)
    ensures var c := StateAfter(p, events, m).containers[k];
            && Eligible(events[m].adm, c)
            && Holds(StateAfter(p, events, n).originals, c.name, c.image)
            && PodImages.Means(normalize, c.image, Normalized(events[m].adm, c))
  {
    hide StateAfter, After, Defaulted, SameParser, LeftAlone, StaysRecorded, Eligible;
    var adm, c := events[m].adm, StateAfter(p, events, m).containers[k];
    RewrittenIsEligible(p, events, m, k);
    RewriteRecordsOriginal(p, events, m, k);
    OriginalsAreWrittenOnce(p, events, m + 1, n, c.name, c.image);
    RecordIsHeld(p, events, m + 1, n, c.name, c.image);
    SameName(adm, c, normalize);
  }

  lemma SameName(adm: Admission, c: ContainerSpec, normalize: PodImages.Normalizer)
    requires SameParser(adm.parse, normalize) && Eligible(adm, c)
    ensures PodImages.Means(normalize, c.image, Normalized(adm, c))
  {
  }

  lemma RecordIsHeld(p: PodState, events: seq<Event>, i: nat, j: nat, name: string, image: string)
    requires i <= j <= |events| && StaysRecorded(p, events, i, j, name, image)
    ensures Holds(StateAfter(p, events, j).originals, name, image)
  {
  }

  lemma RewrittenIsEligible(p: PodState, events: seq<Event>, n: nat, k: nat)
    requires RewritesImage(p, events, n, k)
    ensures Eligible(events[n].adm, StateAfter(p, events, n).containers[k])
  {
    RewritesImageIff(p, events, n, k);
  }

  /** An init container does not. When the retention has passed and no other pod refers to the image
      it asked for, the mirror that the pod was moved to goes exactly when no other container of the
      pod runs that image and the annotation does not record it. */
  lemma InitContainerLosesItsMirrors(
    adm: Admission, p: PodState, k: nat, namespace: string, tracked: Tracked, r: MirrorRuns.Round, i: nat)
    requires MovesAway(adm, p, Init(k), r.normalize)
    requires var image, q := Normalized(adm, p.initContainers[k]), Defaulted(adm, p);
             && i < |r.pods| && r.pods[i] == RefsOf(namespace, q)
             && (forall j :: 0 <= j < |r.pods| && j != i ==>
                  !PodImages.RefersTo(r.normalize, r.pods[j], image))
             && r.matches(image) && image in tracked
             && (var start := if tracked[image].unused.Since? then tracked[image].unused.at else r.now;
                 forall m: nat :: r.deletes(image, m) && r.clock(image, m) - start >= r.spec.retention)
    requires r.Valid() && r.stage != MirrorRuns.AfterMerge && r.spec.enabled
    ensures var image, q := Normalized(adm, p.initContainers[k]), Defaulted(adm, p);
            && k < |q.initContainers|
            && (var destination := q.initContainers[k].image;
                MirrorRuns.Tracks(tracked, image, destination) ==>
                  (!MirrorRuns.Tracks(MirrorRuns.AfterRound(tracked, r), image, destination) <==>
                   !RunsElsewhere(r.normalize, q, Init(k), image) && !PodRecords(r.normalize, q, image)))
  {
    var q := Defaulted(adm, p);
    var image := Normalized(adm, p.initContainers[k]);
    StillUsedIff(adm, p, Init(k), r.normalize, namespace);
    MovedSlot(adm, p, Init(k), r.normalize);
    OnlyPodUses(r, i, image);
    hide MirrorRuns.AfterRound, RunsElsewhere, PodRecords, MovesAway;
    var destination := q.initContainers[k].image;
    if MirrorRuns.Tracks(tracked, image, destination) {
      MirrorRuns.FateOfAMirror(tracked, r, image, destination);
    }
  }

  lemma OnlyPodUses(r: MirrorRuns.Round, i: nat, image: string)
    requires i < |r.pods|
    requires forall j :: 0 <= j < |r.pods| && j != i ==> !PodImages.RefersTo(r.normalize, r.pods[j], image)
    ensures r.Uses(image) <==> PodImages.RefersTo(r.normalize, r.pods[i], image)
  {
  }
}
