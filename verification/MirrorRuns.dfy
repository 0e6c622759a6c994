/** Whole runs of the mirror reconciler: what keeps a mirror alive (issue 567), and what a
    deletion can take away. */
module MirrorRuns {
  import opened Prelude
  import opened Marks
  import opened Mirrors
  import PodImages
  import MirrorSources
  import Paths
  import Routing
  import PodDefaulter
  import opened MirrorStatus

  /** How far a reconcile gets before it returns or fails to write. */
  datatype Stage = AfterMerge | AfterCleanup | AfterMirroring

  /** One reconcile with everything it reads; pods are those its pod filter accepts. now is the
      time the merge writes, clock what the cleanup compares with, mirror by mirror. */
  datatype Round = Round(
    normalize: PodImages.Normalizer,
    pods: seq<PodImages.PodRefs>,
    prefixes: MirrorSources.Prefixes,
    matches: string -> bool,
    mirrors: seq<Mirror>,
    spec: CleanupSpec,
    now: int,
    clock: Clock,
    deletes: Deletions,
    copies: Copies,
    stage: Stage)
  {
    /** Normalised names have a registry, and time does not run backwards. */
    ghost predicate Valid() {
      && (forall image, i: nat :: now <= clock(image, i))
      && (forall s :: normalize(s).Some? ==> '/' in normalize(s).value)
    }

    function Current(): set<string> {
      MirrorSources.Sources(normalize, matches, prefixes, pods, |pods|).Keys
    }

    ghost function InUse(): set<string> {
      PodImages.InUse(normalize, pods, |pods|)
    }

    /** A pod runs the image under a text without a digest, it matches and lies under no mirror. */
    ghost predicate IsSource(image: string) {
      exists i :: 0 <= i < |pods| && MirrorSources.RunsSource(normalize, matches, prefixes, pods[i], image)
    }

    /** A pod runs the image, or ran it before the webhook rewrote it. */
    ghost predicate Uses(image: string) {
      exists i :: 0 <= i < |pods| && PodImages.RefersTo(normalize, pods[i], image)
    }
  }

  /** A reconcile, or the webhook clearing the mirroredAt of a copy it found missing. */
  datatype Event = Reconcile(round: Round) | Forget(image: string, index: nat)

  lemma CurrentHasRegistry(r: Round)
    requires r.Valid()
    ensures AllHaveRegistry(r.Current())
  {
    forall image | image in r.Current() ensures '/' in image {
      MirrorSources.SourceMembers(r.normalize, r.matches, r.prefixes, r.pods, |r.pods|, image);
    }
  }

  ghost function AfterMerging(tracked: Tracked, r: Round): Tracked
    requires r.Valid()
  {
    CurrentHasRegistry(r);
    Merge(tracked, r.Current(), r.InUse(), r.matches, r.mirrors, r.now)
  }

  ghost function AfterRound(tracked: Tracked, r: Round): Tracked
    requires r.Valid()
  {
    var merged := AfterMerging(tracked, r);
    var cleaned := Cleanup(merged, r.spec, r.clock, r.deletes);
    match r.stage
    case AfterMerge => merged
    case AfterCleanup => cleaned
    case AfterMirroring => CopyAll(cleaned, r.copies)
  }

  ghost predicate ValidEvents(events: seq<Event>) {
    && (forall k :: 0 <= k < |events| && events[k].Reconcile? ==> events[k].round.Valid())
    && (forall j, k :: 0 <= j < k < |events| && events[j].Reconcile? && events[k].Reconcile? ==>
          events[j].round.now <= events[k].round.now)
  }

  /** The status after the first k events, from an empty one. */
  ghost function StatusAfter(events: seq<Event>, k: nat): Tracked
    requires k <= |events| && ValidEvents(events)
  {
    if k == 0 then map[]
    else match events[k - 1]
      case Reconcile(r) => AfterRound(StatusAfter(events, k - 1), r)
      case Forget(image, i) => Forgotten(StatusAfter(events, k - 1), image, i)
  }

  /** What reconcile returns: an error, a delay, or nothing. */
  datatype ReconcileResult = Failed | RequeueAfter(delay: int) | Done

  /** A recorded mirror of an unused image whose retention has passed cannot be deleted. */
  ghost predicate DueButNotDeleted(status: Tracked, r: Round, image: string, i: nat) {
    && image in status && i < |status[image].mirrors| && status[image].mirrors[i].mirroredAt.Some?
    && r.spec.enabled && !r.deletes(image, i)
    && match status[image].unused
       case InUse => false
       case Since(at) => r.clock(image, i) - at >= r.spec.retention
       case Instant => true
  }

  /** A missing mirror of an image in use cannot be copied. */
  ghost predicate UsedButNotCopied(status: Tracked, r: Round, image: string, i: nat) {
    && image in status && i < |status[image].mirrors| && status[image].mirrors[i].mirroredAt.None?
    && status[image].unused == InUse && r.copies(image, i).CopyFailed?
  }

  lemma ReconcileFailsIff(merged: Tracked, r: Round)
    ensures SomeDeletionFails(merged, r.spec, r.clock, r.deletes) <==>
              exists image, i: nat :: DueButNotDeleted(merged, r, image, i)
    ensures CopyFailsIn(Cleanup(merged, r.spec, r.clock, r.deletes), r.copies) <==>
              exists image, i: nat :: UsedButNotCopied(merged, r, image, i)
  {
    var cleaned := Cleanup(merged, r.spec, r.clock, r.deletes);
    if image, i: nat :| DueButNotDeleted(merged, r, image, i) {
      assert FailsAt(r.spec, r.clock, r.deletes, image, merged[image], i);
      assert EntryFails(r.spec, r.clock, r.deletes, image, merged[image]);
    }
    if image :| image in merged && EntryFails(r.spec, r.clock, r.deletes, image, merged[image]) {
      var i: nat :| i < |merged[image].mirrors| && FailsAt(r.spec, r.clock, r.deletes, image, merged[image], i);
      assert DueButNotDeleted(merged, r, image, i);
    }
    if image, i: nat :| UsedButNotCopied(merged, r, image, i) {
      UsedIsKept(merged, r.spec, r.clock, r.deletes, image);
      assert EntryCopyFails(cleaned, image, i, r.copies);
    }
    if image, i: nat :| EntryCopyFails(cleaned, image, i, r.copies) {
      UsedIsKept(merged, r.spec, r.clock, r.deletes, image);
      assert UsedButNotCopied(merged, r, image, i);
    }
  }

  /** A reconcile of a resource that is not being deleted, all its writes succeeding. */
  method ReconcileStatus(resource: MirrorResource, r: Round) returns (outcome: ReconcileResult)
    requires r.Valid() && r.stage == AfterMirroring && UniqueImages(resource.matchingImages)
    modifies resource
    ensures UniqueImages(resource.matchingImages)
    ensures Abstract(resource.matchingImages) == AfterRound(Abstract(old(resource.matchingImages)), r)
    ensures var merged := AfterMerging(Abstract(old(resource.matchingImages)), r);
            && (outcome.Failed? <==>
                  || (exists image, i: nat :: DueButNotDeleted(merged, r, image, i))
                  || (exists image, i: nat :: UsedButNotCopied(merged, r, image, i)))
            && (!outcome.Failed? ==>
                  IsRequeueDelay(merged, r.spec, r.clock, if outcome.Done? then 0 else outcome.delay))
  {
    var matching := MirrorSources.PodsByNormalizedMatchingImages(r.normalize, r.matches, r.prefixes, r.pods);
    var inUse := PodImages.PodsInUseImages(r.normalize, r.pods);
    CurrentHasRegistry(r);
    resource.MergePreviousAndCurrent(matching.Keys, inUse, r.matches, r.mirrors, r.now);
    ReconcileFailsIff(Abstract(resource.matchingImages), r);
    var someDeletionFailed, requeueAfter := resource.CleanupUnused(r.spec, r.clock, r.deletes);
    var someMirrorFailed := resource.MirrorMissing(r.copies);
    if someDeletionFailed || someMirrorFailed {
      return Failed;
    }
    return if requeueAfter > 0 then RequeueAfter(requeueAfter) else Done;
  }

  // ----- Mirrors outlive their use by the retention -----

  ghost predicate MatchedThroughout(events: seq<Event>, k: nat, image: string) {
    k <= |events| && forall j :: 0 <= j < k && events[j].Reconcile? ==> events[j].round.matches(image)
  }

  ghost predicate UsedAt(events: seq<Event>, j: nat, image: string) {
    j < |events| && events[j].Reconcile? && events[j].round.Uses(image)
  }

  /** unusedSince is not the marker, and not before a reconcile that saw the image used. */
  ghost predicate AgedAfterUse(events: seq<Event>, k: nat, image: string, unused: Unused) {
    && unused != Instant
    && (unused.Since? ==> forall j :: 0 <= j < k && UsedAt(events, j, image) ==> events[j].round.now <= unused.at)
  }

  lemma UsesIsInUse(r: Round, image: string)
    ensures r.Uses(image) <==> image in r.InUse()
  {
    PodImages.InUseMembers(r.normalize, r.pods, |r.pods|, image);
  }

  lemma MergedUnused(tracked: Tracked, r: Round, image: string)
    requires r.Valid() && image in AfterMerging(tracked, r)
    ensures AfterMerging(tracked, r)[image].unused ==
              if image in tracked then Aged(tracked[image].unused, r.matches(image), image in r.InUse(), r.now)
                else InUse
  {
    CurrentHasRegistry(r);
  }

  /** What a merge makes of an image, from the pods: it is tracked when it was, or is a source. Its
      mirrors are kept and, for a source, completed; an image that matches no more is to go at once,
      and one that no pod refers to is unused from now on, unless it was before. */
  lemma MergeOutcome(tracked: Tracked, r: Round, image: string)
    requires r.Valid()
    ensures var merged := AfterMerging(tracked, r);
            var isSource := r.IsSource(image);
            && (image in merged <==> image in tracked || isSource)
            && (image in tracked ==>
                  && tracked[image].mirrors <= merged[image].mirrors
                  && (!isSource ==> merged[image].mirrors == tracked[image].mirrors)
                  && merged[image].unused ==
                       if !r.matches(image) then Instant
                       else if r.Uses(image) then InUse
                       else if tracked[image].unused == InUse then Since(r.now)
                       else tracked[image].unused)
            && (image !in tracked && isSource ==> merged[image].unused == InUse)
            && (isSource ==>
                  && '/' in image
                  && forall d :: 0 <= d < |r.mirrors| ==>
                       HasDestination(merged[image].mirrors,
                                      Paths.Join([r.mirrors[d].registry, r.mirrors[d].path, AfterRegistry(image)])))
  {
    hide Paths.Join, MirrorSources.RunsSource, Round.Uses, HasDestination;
    CurrentHasRegistry(r);
    MergeConserves(tracked, r.Current(), r.InUse(), r.matches, r.mirrors, r.now);
    MirrorSources.SourceMembers(r.normalize, r.matches, r.prefixes, r.pods, |r.pods|, image);
    UsesIsInUse(r, image);
    if image in tracked || image in r.Current() {
      MergedUnused(tracked, r, image);
    }
    if image in tracked && image !in r.Current() {
      assert Missing(Destinations(tracked[image].mirrors), []) == [];
    }
  }

  lemma RoundKeepsUnused(tracked: Tracked, r: Round, image: string)
    requires r.Valid() && image in AfterRound(tracked, r)
    ensures image in AfterMerging(tracked, r)
      && AfterRound(tracked, r)[image].unused == AfterMerging(tracked, r)[image].unused
  {
  }

  lemma {:induction false} UnusedSinceIsAfterLastUse(events: seq<Event>, k: nat, image: string)
    requires ValidEvents(events) && MatchedThroughout(events, k, image) && image in StatusAfter(events, k)
    ensures AgedAfterUse(events, k, image, StatusAfter(events, k)[image].unused)
  {
    if k > 0 {
      var before := StatusAfter(events, k - 1);
      match events[k - 1] {
        case Reconcile(r) =>
          assert events[k - 1].round.Valid() && events[k - 1].round.matches(image);
          RoundKeepsUnused(before, r, image);
          MergedUnused(before, r, image);
          UsesIsInUse(r, image);
          if image in before {
            UnusedSinceIsAfterLastUse(events, k - 1, image);
          }
        case Forget(_, _) =>
          UnusedSinceIsAfterLastUse(events, k - 1, image);
      }
    }
  }

  /** The status has a mirror entry for this destination of the image. */
  ghost predicate Tracks(tracked: Tracked, image: string, destination: string) {
    image in tracked && HasDestination(tracked[image].mirrors, destination)
  }

  lemma MergeKeepsDestinations(tracked: Tracked, r: Round, image: string, destination: string)
    requires r.Valid() && Tracks(tracked, image, destination)
    ensures Tracks(AfterMerging(tracked, r), image, destination)
  {
    CurrentHasRegistry(r);
    MergeConserves(tracked, r.Current(), r.InUse(), r.matches, r.mirrors, r.now);
    var merged := AfterMerging(tracked, r);
    assert tracked[image].mirrors <= merged[image].mirrors;
    var i :| 0 <= i < |tracked[image].mirrors| && tracked[image].mirrors[i].image == destination;
    assert merged[image].mirrors[i] == tracked[image].mirrors[i];
  }

  lemma CopyKeepsDestinations(tracked: Tracked, copies: Copies, image: string, destination: string)
    requires Tracks(tracked, image, destination)
    ensures Tracks(CopyAll(tracked, copies), image, destination)
  {
    var e := tracked[image];
    var i :| 0 <= i < |e.mirrors| && e.mirrors[i].image == destination;
    assert CopyAll(tracked, copies)[image] == CopiedEntry(e, image, copies);
    assert e.unused == InUse ==>
      CopiedEntry(e, image, copies).mirrors[i] == CopiedMirror(e.mirrors[i], copies(image, i));
    assert CopiedEntry(e, image, copies).mirrors[i].image == destination;
  }

  /** Mirror number i of the image has this destination. */
  ghost predicate MirrorAt(tracked: Tracked, image: string, i: nat, destination: string) {
    image in tracked && i < |tracked[image].mirrors| && tracked[image].mirrors[i].image == destination
  }

  lemma PlaceOf(tracked: Tracked, image: string, destination: string) returns (i: nat)
    requires Tracks(tracked, image, destination)
    ensures MirrorAt(tracked, image, i, destination)
  {
    i :| i < |tracked[image].mirrors| && tracked[image].mirrors[i].image == destination;
  }

  lemma MergeKeepsPlaces(tracked: Tracked, r: Round, image: string, i: nat, destination: string)
    requires r.Valid() && Tracks(tracked, image, destination)
    ensures MirrorAt(AfterMerging(tracked, r), image, i, destination) <==> MirrorAt(tracked, image, i, destination)
    ensures MirrorAt(tracked, image, i, destination) ==>
              AfterMerging(tracked, r)[image].mirrors[i] == tracked[image].mirrors[i]
  {
    CurrentHasRegistry(r);
    var current := tracked[image].mirrors;
    var expected := if image in r.Current() then Expected(r.mirrors, image) else [];
    var missing := Missing(Destinations(current), expected);
    assert AfterMerging(tracked, r)[image].mirrors == current + missing;
    var k :| 0 <= k < |current| && current[k].image == destination;
    forall m | 0 <= m < |missing| ensures missing[m].image != destination {
      MissingMembers(Destinations(current), expected, missing[m]);
      assert missing[m] in missing;
    }
  }

  /** A mirror of the entry for this destination that stays. */
  ghost predicate StaysAt(
    spec: CleanupSpec, clock: Clock, deletes: Deletions, image: string, e: Entry, i: nat, destination: string)
  {
    i < |e.mirrors| && e.mirrors[i].image == destination && Retains(spec, clock, deletes, image, e, i)
  }

  /** A reconcile that gets as far as the cleanup drops a destination exactly when each mirror with
      it is overdue after the merge, and deleting it does not fail. */
  lemma DroppedIffOverdueAndDeleted(tracked: Tracked, r: Round, image: string, destination: string)
    requires r.Valid() && r.stage != AfterMerge && Tracks(tracked, image, destination)
    ensures image in AfterMerging(tracked, r)
    ensures var e := AfterMerging(tracked, r)[image];
            !Tracks(AfterRound(tracked, r), image, destination) <==>
            forall i: nat :: !StaysAt(r.spec, r.clock, r.deletes, image, e, i, destination)
  {
    hide StaysAt;
    MergeKeepsDestinations(tracked, r, image, destination);
    var merged := AfterMerging(tracked, r);
    var cleaned := Cleanup(merged, r.spec, r.clock, r.deletes);
    CleanedTracksIff(merged, r.spec, r.clock, r.deletes, image, destination);
    if Tracks(cleaned, image, destination) {
      CopyKeepsDestinations(cleaned, r.copies, image, destination);
    }
    if Tracks(CopyAll(cleaned, r.copies), image, destination) {
      CopyAddsNoDestination(cleaned, r.copies, image, destination);
    }
  }

  lemma CleanedTracksIff(
    tracked: Tracked, spec: CleanupSpec, clock: Clock, deletes: Deletions, image: string, destination: string)
    requires image in tracked
    ensures Tracks(Cleanup(tracked, spec, clock, deletes), image, destination) <==>
              exists i: nat :: StaysAt(spec, clock, deletes, image, tracked[image], i, destination)
  {
    hide Retains;
    var e, cleaned := tracked[image], Cleanup(tracked, spec, clock, deletes);
    var kept := KeptMirrors(spec, clock, deletes, image, e);
    if Tracks(cleaned, image, destination) {
      var k :| 0 <= k < |kept| && kept[k].image == destination;
      StayingMembers(spec, clock, deletes, image, e, |e.mirrors|, kept[k]);
      var i: nat :| i < |e.mirrors| && e.mirrors[i] == kept[k] && Retains(spec, clock, deletes, image, e, i);
      assert StaysAt(spec, clock, deletes, image, e, i, destination);
    }
    if i: nat :| StaysAt(spec, clock, deletes, image, e, i, destination) {
      StayingMembers(spec, clock, deletes, image, e, |e.mirrors|, e.mirrors[i]);
      var k :| 0 <= k < |kept| && kept[k] == e.mirrors[i];
      assert image in cleaned && cleaned[image].mirrors[k].image == destination;
    }
  }

  lemma CopyAddsNoDestination(tracked: Tracked, copies: Copies, image: string, destination: string)
    requires Tracks(CopyAll(tracked, copies), image, destination)
    ensures Tracks(tracked, image, destination)
  {
    var e := tracked[image];
    var copied := CopiedEntry(e, image, copies).mirrors;
    var i :| 0 <= i < |copied| && copied[i].image == destination;
    if e.unused == InUse {
      assert copied[i] == CopiedMirror(e.mirrors[i], copies(image, i));
    }
    assert e.mirrors[i].image == destination;
  }

  /** Mirror number i of a tracked image is due for deletion in the reconcile: cleanup is enabled, and
      the image no longer matches, or is unused and either was marked for instant expiry or has been
      unused for the retention. */
  ghost predicate Expires(tracked: Tracked, r: Round, image: string, i: nat)
    requires image in tracked
  {
    && r.spec.enabled
    && (!r.matches(image)
        || (!r.Uses(image)
            && match tracked[image].unused
               case Instant => true
               case InUse => r.clock(image, i) - r.now >= r.spec.retention
               case Since(at) => r.clock(image, i) - at >= r.spec.retention))
  }

  lemma ExpiresIffOverdue(tracked: Tracked, r: Round, image: string, i: nat)
    requires r.Valid() && image in tracked
    ensures image in AfterMerging(tracked, r)
    ensures Expires(tracked, r, image, i) <==>
              Overdue(r.spec, AfterMerging(tracked, r)[image].unused, r.clock(image, i))
  {
    CurrentHasRegistry(r);
    hide Round.Uses;
    assert image in AfterMerging(tracked, r);
    MergedUnused(tracked, r, image);
    UsesIsInUse(r, image);
  }

  /** The fate of a mirror in a reconcile, exactly: its destination goes when every mirror with it is
      due, and deleting it does not fail. */
  lemma FateOfAMirror(tracked: Tracked, r: Round, image: string, destination: string)
    requires r.Valid() && r.stage != AfterMerge && Tracks(tracked, image, destination)
    ensures !Tracks(AfterRound(tracked, r), image, destination) <==>
              forall i: nat :: MirrorAt(tracked, image, i, destination) ==>
                Expires(tracked, r, image, i) && !DeletionFails(tracked[image].mirrors[i], image, i, r.deletes)
  {
    hide Expires, DeletionFails, AfterRound, AfterMerging, Overdue;
    DroppedIffOverdueAndDeleted(tracked, r, image, destination);
    var e := AfterMerging(tracked, r)[image];
    forall i: nat
      ensures StaysAt(r.spec, r.clock, r.deletes, image, e, i, destination) <==>
                MirrorAt(tracked, image, i, destination)
                && !(Expires(tracked, r, image, i) && !DeletionFails(tracked[image].mirrors[i], image, i, r.deletes))
    {
      MergeKeepsPlaces(tracked, r, image, i, destination);
      ExpiresIffOverdue(tracked, r, image, i);
    }
  }

  /** Only a due mirror is dropped, however far the reconcile gets. */
  lemma DroppedHasExpired(tracked: Tracked, r: Round, image: string, destination: string, i: nat)
    requires r.Valid() && MirrorAt(tracked, image, i, destination)
    requires !Tracks(AfterRound(tracked, r), image, destination)
    ensures Expires(tracked, r, image, i)
  {
    hide Expires;
    assert Tracks(tracked, image, destination);
    if r.stage == AfterMerge {
      MergeKeepsDestinations(tracked, r, image, destination);
      assert false;
    } else {
      FateOfAMirror(tracked, r, image, destination);
    }
  }

  lemma ForgetKeepsDestinations(tracked: Tracked, image: string, i: nat, other: string, destination: string)
    requires Tracks(tracked, other, destination)
    ensures Tracks(Forgotten(tracked, image, i), other, destination)
  {
    var k :| 0 <= k < |tracked[other].mirrors| && tracked[other].mirrors[k].image == destination;
    assert Forgotten(tracked, image, i)[other].mirrors[k].image == destination;
  }

  lemma RetainedSinceUse(
    events: seq<Event>, k: nat, j: nat, tracked: Tracked, image: string, destination: string, i: nat)
    requires ValidEvents(events) && k < |events| && events[k].Reconcile? && events[k].round.matches(image)
    requires MirrorAt(tracked, image, i, destination) && AgedAfterUse(events, k, image, tracked[image].unused)
    requires !Tracks(AfterRound(tracked, events[k].round), image, destination)
    requires j <= k && UsedAt(events, j, image)
    ensures j < k && events[k].round.clock(image, i) - events[j].round.now >= events[k].round.spec.retention
  {
    hide AfterRound, Round.Uses;
    DroppedHasExpired(tracked, events[k].round, image, destination, i);
  }

  /** While an image keeps matching the filter, whatever pods, clocks, failures and the webhook
      do: a mirror entry of it is dropped only by a reconcile with cleanup enabled, after the
      last reconcile in which a pod ran the image or had it recorded as its original, and when at
      least the retention has passed since that one as the cleanup comes to the mirror. */
  lemma MirrorsOutliveUse(events: seq<Event>, k: nat, j: nat, image: string, destination: string)
    requires ValidEvents(events) && k < |events| && MatchedThroughout(events, k + 1, image)
    requires Tracks(StatusAfter(events, k), image, destination)
      && !Tracks(StatusAfter(events, k + 1), image, destination)
    ensures events[k].Reconcile? && events[k].round.spec.enabled
    ensures j <= k && UsedAt(events, j, image) ==>
              j < k && forall i: nat :: MirrorAt(StatusAfter(events, k), image, i, destination) ==>
                events[k].round.clock(image, i) - events[j].round.now >= events[k].round.spec.retention
  {
    hide AfterRound, Round.Uses;
    var before, after := StatusAfter(events, k), StatusAfter(events, k + 1);
    match events[k] {
      case Forget(other, i) =>
        ForgetKeepsDestinations(before, other, i, image, destination);
      case Reconcile(r) =>
        assert after == AfterRound(before, r);
        UnusedSinceIsAfterLastUse(events, k, image);
        var first := PlaceOf(before, image, destination);
        DroppedHasExpired(before, r, image, destination, first);
        if j <= k && UsedAt(events, j, image) {
          forall i: nat | MirrorAt(before, image, i, destination)
            ensures j < k && r.clock(image, i) - events[j].round.now >= r.spec.retention
          {
            RetainedSinceUse(events, k, j, before, image, destination, i);
          }
        }
    }
  }

  /** The bound is reached: an image is mirrored in one reconcile, unused in the next, and dropped
      there as soon as the retention has passed. */
  lemma RetentionIsReached(first: Round, second: Round, image: string, d: nat)
    requires first.Valid() && second.Valid() && first.now <= second.now
    requires image in first.Current() && '/' in image && d < |first.mirrors|
    requires second.matches(image) && !second.Uses(image) && second.stage != AfterMerge
    requires second.spec.enabled
    requires forall i: nat :: second.deletes(image, i) && second.clock(image, i) - second.now >= second.spec.retention
    ensures var events := [Reconcile(first), Reconcile(second)];
            var destination := first.mirrors[d].Destination(AfterRegistry(image));
            && ValidEvents(events) && UsedAt(events, 0, image)
            && Tracks(StatusAfter(events, 1), image, destination) && !Tracks(StatusAfter(events, 2), image, destination)
  {
    var events := [Reconcile(first), Reconcile(second)];
    var destination := first.mirrors[d].Destination(AfterRegistry(image));
    var status := StatusAfter(events, 1);
    assert StatusAfter(events, 0) == map[];
    assert status == AfterRound(map[], first);
    FirstReconcileTracks(first, image, d);
    assert StatusAfter(events, 2) == AfterRound(status, second);
    FateOfAMirror(status, second, image, destination);
  }

  lemma FirstReconcileTracks(r: Round, image: string, d: nat)
    requires r.Valid() && image in r.Current() && '/' in image && d < |r.mirrors|
    ensures Tracks(AfterRound(map[], r), image, r.mirrors[d].Destination(AfterRegistry(image)))
    ensures r.Uses(image) && AfterRound(map[], r)[image].unused == InUse
  {
    hide Round.Uses, Round.Current, AfterMerging, KeptMirrors, CopiedEntry, StaysAt;
    var destination := r.mirrors[d].Destination(AfterRegistry(image));
    var merged := AfterMerging(map[], r);
    FirstMergeTracks(r, image, d);
    UsedIsKept(merged, r.spec, r.clock, r.deletes, image);
    var cleaned := Cleanup(merged, r.spec, r.clock, r.deletes);
    CopyKeepsDestinations(cleaned, r.copies, image, destination);
    RoundKeepsUnused(map[], r, image);
  }

  lemma FirstMergeTracks(r: Round, image: string, d: nat)
    requires r.Valid() && image in r.Current() && '/' in image && d < |r.mirrors|
    ensures Tracks(AfterMerging(map[], r), image, r.mirrors[d].Destination(AfterRegistry(image)))
    ensures r.Uses(image) && AfterMerging(map[], r)[image].unused == InUse
  {
    CurrentHasRegistry(r);
    MirrorSources.SourceMembers(r.normalize, r.matches, r.prefixes, r.pods, |r.pods|, image);
    MergeConserves(map[], r.Current(), r.InUse(), r.matches, r.mirrors, r.now);
    MergedUnused(map[], r, image);
  }

  /** Whatever the sources and the pods of a reconcile are, merging them once more, at any time,
      changes nothing. */
  lemma RemergingChangesNothing(tracked: Tracked, r: Round, later: int)
    requires r.Valid()
    ensures var again := r.(now := later, clock := (_, _) => later);
            AfterMerging(AfterMerging(tracked, r), again) == AfterMerging(tracked, r)
  {
    CurrentHasRegistry(r);
    forall image | image in r.Current() ensures image in r.InUse() && r.matches(image) {
      MirrorSources.SourceMembers(r.normalize, r.matches, r.prefixes, r.pods, |r.pods|, image);
      UsesIsInUse(r, image);
    }
    MergeIsIdempotent(tracked, r.Current(), r.InUse(), r.matches, r.mirrors, r.now, later);
  }

  /** In particular the pod that the webhook moved to the mirror keeps the mirror alive. */
  lemma RewrittenPodKeepsItsMirrors(
    tracked: Tracked, r: Round, image: string, destination: string, i: nat, container: string)
    requires r.Valid() && r.matches(image) && Tracks(tracked, image, destination)
    requires i < |r.pods| && container in r.pods[i].originals
    requires PodImages.Means(r.normalize, r.pods[i].originals[container], image)
    ensures Tracks(AfterRound(tracked, r), image, destination)
  {
    assert PodImages.RecordsOriginal(r.normalize, r.pods[i], image);
    UsesIsInUse(r, image);
    MergedUnused(tracked, r, image) by {
      MergeKeepsDestinations(tracked, r, image, destination);
    }
    if !Tracks(AfterRound(tracked, r), image, destination) {
      var k := PlaceOf(tracked, image, destination);
      DroppedHasExpired(tracked, r, image, destination, k);
    }
  }

  // ----- The webhook and the controller agree -----

  /** What the webhook offers for an image is where the controller copies it, mirror by mirror. */
  lemma RoutedWhereMirrored(set_: Routing.MirrorSet, name: Routing.Name, d: nat)
    requires d < |set_.mirrors| && '/' !in name.registry
    ensures '/' in PodDefaulter.NormalizedText(name)
    ensures Routing.MirrorAlternative(set_, name.path, d).reference
            == Expected(set_.mirrors, PodDefaulter.NormalizedText(name))[d].image
  {
    AfterRegistryIsThePath(name.registry, name.path);
  }

  // ----- What a deletion takes away -----

  /** What the text of a destination stands for in the registries: its repository, and the digest
      of the image that its tag names there. Deleting an image goes by these two, so it takes
      every tag of the repository that names the digest. */
  datatype Resolved = Resolved(repository: string, digest: string)

  type Resolver = string -> Resolved

  /** A cleanup, in which the deletions told by deletes take place, takes this destination. */
  ghost predicate Deletes(
    tracked: Tracked, spec: CleanupSpec, clock: Clock, deletes: Deletions, resolve: Resolver, destination: string)
  {
    exists image, i: nat ::
      DeletesMirror(tracked, spec, clock, deletes, image, i)
      && resolve(tracked[image].mirrors[i].image) == resolve(destination)
  }

  ghost predicate DeletesMirror(
    tracked: Tracked, spec: CleanupSpec, clock: Clock, deletes: Deletions, image: string, i: nat)
  {
    && RecordsMirror(tracked, image, i) && Overdue(spec, tracked[image].unused, clock(image, i)) && deletes(image, i)
  }

  /** The status says that this destination holds a copy. */
  ghost predicate Records(tracked: Tracked, destination: string) {
    exists image, i: nat :: RecordsMirror(tracked, image, i) && tracked[image].mirrors[i].image == destination
  }

  /** A recorded mirror of an overdue entry, and a recorded mirror of the same or of another
      resource, with one repository and digest. */
  ghost predicate SharesOverdueCopy(
    tracked: Tracked, spec: CleanupSpec, clock: Clock, resolve: Resolver, image: string, i: nat,
    others: Tracked, other: string, j: nat)
  {
    && RecordsMirror(tracked, image, i) && Overdue(spec, tracked[image].unused, clock(image, i))
    && RecordsMirror(others, other, j)
    && resolve(tracked[image].mirrors[i].image) == resolve(others[other].mirrors[j].image)
  }

  /** Whichever deletions succeed, no copy is deleted that the status goes on to record. */
  ghost predicate KeepsRecordedCopies(tracked: Tracked, spec: CleanupSpec, clock: Clock, resolve: Resolver) {
    forall deletes: Deletions, destination :: Records(Cleanup(tracked, spec, clock, deletes), destination) ==>
      !Deletes(tracked, spec, clock, deletes, resolve, destination)
  }

  ghost predicate SharesWithin(
    tracked: Tracked, spec: CleanupSpec, clock: Clock, resolve: Resolver, image: string, i: nat, other: string, j: nat)
  {
    (image != other || i != j) && SharesOverdueCopy(tracked, spec, clock, resolve, image, i, tracked, other, j)
  }

  /** A cleanup is safe for the copies that stay recorded exactly when no recorded mirror of an
      overdue entry has the same repository and digest as another recorded mirror. */
  lemma CopiesSurviveIffNotShared(tracked: Tracked, spec: CleanupSpec, clock: Clock, resolve: Resolver)
    ensures KeepsRecordedCopies(tracked, spec, clock, resolve) <==>
              !exists image, i: nat, other, j: nat :: SharesWithin(tracked, spec, clock, resolve, image, i, other, j)
  {
    if image, i: nat, other, j: nat :| SharesWithin(tracked, spec, clock, resolve, image, i, other, j) {
      var deletes: Deletions := (x, k) => x == image && k == i;
      OtherStaysRecorded(tracked, spec, clock, deletes, other, j);
      assert DeletesMirror(tracked, spec, clock, deletes, image, i);
      assert Deletes(tracked, spec, clock, deletes, resolve, tracked[other].mirrors[j].image);
    } else {
      forall deletes: Deletions, destination | Records(Cleanup(tracked, spec, clock, deletes), destination)
        ensures !Deletes(tracked, spec, clock, deletes, resolve, destination)
      {
        if Deletes(tracked, spec, clock, deletes, resolve, destination) {
          var image, i, other, j := SharedIfDeleted(tracked, spec, clock, deletes, resolve, destination);
          assert false;
        }
      }
    }
  }

  lemma OtherStaysRecorded(tracked: Tracked, spec: CleanupSpec, clock: Clock, deletes: Deletions, image: string, i: nat)
    requires RecordsMirror(tracked, image, i) && !deletes(image, i)
    ensures Records(Cleanup(tracked, spec, clock, deletes), tracked[image].mirrors[i].image)
  {
    CleanupRecordsIff(tracked, spec, clock, deletes, image, tracked[image].mirrors[i].image);
    assert KeptAt(tracked, spec, clock, deletes, image, tracked[image].mirrors[i].image, i);
    RecordsIfFor(Cleanup(tracked, spec, clock, deletes), image, tracked[image].mirrors[i].image);
  }

  lemma RecordsIfFor(tracked: Tracked, image: string, destination: string)
    requires RecordsFor(tracked, image, destination)
    ensures Records(tracked, destination)
  {
  }

  /** A recorded mirror of this image has this destination. */
  ghost predicate RecordsFor(tracked: Tracked, image: string, destination: string) {
    exists i: nat :: RecordsMirror(tracked, image, i) && tracked[image].mirrors[i].image == destination
  }

  /** A recorded mirror that a cleanup does not drop. */
  ghost predicate KeptAt(
    tracked: Tracked, spec: CleanupSpec, clock: Clock, deletes: Deletions, image: string, destination: string, i: nat)
  {
    && RecordsMirror(tracked, image, i) && tracked[image].mirrors[i].image == destination
    && (!Overdue(spec, tracked[image].unused, clock(image, i)) || !deletes(image, i))
  }

  /** What a cleanup leaves recorded: the recorded mirrors that are not overdue, and those whose
      deletion fails. */
  lemma CleanupRecordsIff(
    tracked: Tracked, spec: CleanupSpec, clock: Clock, deletes: Deletions, image: string, destination: string)
    ensures RecordsFor(Cleanup(tracked, spec, clock, deletes), image, destination) <==>
              exists i: nat :: KeptAt(tracked, spec, clock, deletes, image, destination, i)
  {
    var cleaned := Cleanup(tracked, spec, clock, deletes);
    if image !in tracked {
      return;
    }
    var e := tracked[image];
    var kept := KeptMirrors(spec, clock, deletes, image, e);
    if k: nat :| RecordsMirror(cleaned, image, k) && cleaned[image].mirrors[k].image == destination {
      StayingMembers(spec, clock, deletes, image, e, |e.mirrors|, kept[k]);
      var i: nat :| i < |e.mirrors| && e.mirrors[i] == kept[k] && Retains(spec, clock, deletes, image, e, i);
      assert KeptAt(tracked, spec, clock, deletes, image, destination, i);
    }
    if i: nat :| KeptAt(tracked, spec, clock, deletes, image, destination, i) {
      StayingMembers(spec, clock, deletes, image, e, |e.mirrors|, e.mirrors[i]);
      assert e.mirrors[i] in kept;
      var k: nat :| k < |kept| && kept[k] == e.mirrors[i];
      assert RecordsMirror(cleaned, image, k) && cleaned[image].mirrors[k].image == destination;
    }
  }

  lemma SharedIfDeleted(
    tracked: Tracked, spec: CleanupSpec, clock: Clock, deletes: Deletions, resolve: Resolver, destination: string)
    returns (image: string, i: nat, other: string, j: nat)
    requires Records(Cleanup(tracked, spec, clock, deletes), destination)
    requires Deletes(tracked, spec, clock, deletes, resolve, destination)
    ensures SharesWithin(tracked, spec, clock, resolve, image, i, other, j)
  {
    image, i :| DeletesMirror(tracked, spec, clock, deletes, image, i)
                && resolve(tracked[image].mirrors[i].image) == resolve(destination);
    var cleaned := Cleanup(tracked, spec, clock, deletes);
    var k: nat;
    other, k :| RecordsMirror(cleaned, other, k) && cleaned[other].mirrors[k].image == destination;
    assert RecordsFor(cleaned, other, destination);
    CleanupRecordsIff(tracked, spec, clock, deletes, other, destination);
    j :| KeptAt(tracked, spec, clock, deletes, other, destination, j);
  }

  /** Recorded mirrors never have one repository and digest. */
  ghost predicate DistinctCopies(tracked: Tracked, resolve: Resolver) {
    forall image, i: nat, other, j: nat | SameCopy(tracked, resolve, image, i, other, j) :: image == other && i == j
  }

  ghost predicate SameCopy(tracked: Tracked, resolve: Resolver, image: string, i: nat, other: string, j: nat) {
    && RecordsMirror(tracked, image, i) && RecordsMirror(tracked, other, j)
    && resolve(tracked[image].mirrors[i].image) == resolve(tracked[other].mirrors[j].image)
  }

  /** In particular no copy is lost when no two recorded mirrors have one repository and digest. */
  lemma RecordedCopiesSurvive(
    tracked: Tracked, spec: CleanupSpec, clock: Clock, deletes: Deletions, resolve: Resolver, destination: string)
    requires DistinctCopies(tracked, resolve)
    requires Records(Cleanup(tracked, spec, clock, deletes), destination)
    ensures !Deletes(tracked, spec, clock, deletes, resolve, destination)
  {
    assert forall image, i: nat, other, j: nat ::
      SharesWithin(tracked, spec, clock, resolve, image, i, other, j) ==>
        SameCopy(tracked, resolve, image, i, other, j);
    CopiesSurviveIffNotShared(tracked, spec, clock, resolve);
  }

  /** Distinct destinations are not enough: two tags of one repository may name one digest, and then
      the cleanup of an overdue image takes the copy of one that is in use. */
  lemma TwoTagsOfOneDigest(
    a: string, b: string, first: string, second: string, spec: CleanupSpec, clock: Clock, resolve: Resolver)
    requires a != b && first != second && resolve(first) == resolve(second) && spec.enabled
    ensures var tracked := map[a := Entry([MirrorEntry(first, Some(0), "")], Instant),
                               b := Entry([MirrorEntry(second, Some(0), "")], InUse)];
            !KeepsRecordedCopies(tracked, spec, clock, resolve)
  {
    var tracked := map[a := Entry([MirrorEntry(first, Some(0), "")], Instant),
                       b := Entry([MirrorEntry(second, Some(0), "")], InUse)];
    assert SharesWithin(tracked, spec, clock, resolve, a, 0, b, 0);
    CopiesSurviveIffNotShared(tracked, spec, clock, resolve);
  }

  /** Whichever deletions succeed, the cleanup of one resource takes no copy that another records. */
  ghost predicate KeepsCopiesOf(
    others: Tracked, tracked: Tracked, spec: CleanupSpec, clock: Clock, resolve: Resolver)
  {
    forall deletes: Deletions, destination :: Records(others, destination) ==>
      !Deletes(tracked, spec, clock, deletes, resolve, destination)
  }

  /** Destinations carry no namespace, so two resources can share copies. The cleanup of one is
      safe for the other exactly when no recorded mirror of an overdue entry has the same repository
      and digest as a recorded mirror of the other. */
  lemma OthersKeepTheirCopiesIff(others: Tracked, tracked: Tracked, spec: CleanupSpec, clock: Clock, resolve: Resolver)
    ensures KeepsCopiesOf(others, tracked, spec, clock, resolve) <==>
              !exists image, i: nat, other, j: nat ::
                SharesOverdueCopy(tracked, spec, clock, resolve, image, i, others, other, j)
  {
    if image, i: nat, other, j: nat :| SharesOverdueCopy(tracked, spec, clock, resolve, image, i, others, other, j) {
      var deletes: Deletions := (_, _) => true;
      var destination := others[other].mirrors[j].image;
      assert DeletesMirror(tracked, spec, clock, deletes, image, i);
      assert Records(others, destination) && Deletes(tracked, spec, clock, deletes, resolve, destination);
    }
    if !KeepsCopiesOf(others, tracked, spec, clock, resolve) {
      var deletes: Deletions, destination :| Records(others, destination)
                                             && Deletes(tracked, spec, clock, deletes, resolve, destination);
      var other, j: nat :| RecordsMirror(others, other, j) && others[other].mirrors[j].image == destination;
      var image, i: nat :| DeletesMirror(tracked, spec, clock, deletes, image, i)
                           && resolve(tracked[image].mirrors[i].image) == resolve(destination);
      assert SharesOverdueCopy(tracked, spec, clock, resolve, image, i, others, other, j);
    }
  }

  /** Destinations drop the source registry: under one mirror two images share theirs exactly
      when they differ in the registry only. */
  lemma DestinationsCoincideIff(m: Mirror, a: string, b: string)
    requires '/' in a && '/' in b && Paths.ImagePath(AfterRegistry(a)) && Paths.ImagePath(AfterRegistry(b))
    ensures Expected([m], a)[0].image == Expected([m], b)[0].image <==> AfterRegistry(a) == AfterRegistry(b)
  {
    Paths.JoinIsInjective(m.registry, m.path, AfterRegistry(a), AfterRegistry(b));
  }

  lemma FirstReconcileRecords(r: Round, image: string, d: nat)
    requires r.Valid() && image in r.Current() && '/' in image && d < |r.mirrors|
    requires r.stage == AfterMirroring && r.copies(image, d).Copied?
    ensures var status := AfterRound(map[], r);
            && RecordsMirror(status, image, d) && status[image].unused == InUse
            && status[image].mirrors[d].image == r.mirrors[d].Destination(AfterRegistry(image))
  {
    CurrentHasRegistry(r);
    var merged := AfterMerging(map[], r);
    assert merged[image] == Entry(Expected(r.mirrors, image), InUse);
    var cleaned := Cleanup(merged, r.spec, r.clock, r.deletes);
    UsedIsKept(merged, r.spec, r.clock, r.deletes, image);
    MirroringRecordsCopies(cleaned, r.copies, image, d);
  }

  lemma MergeKeepsRecords(tracked: Tracked, r: Round, image: string, i: nat)
    requires r.Valid() && RecordsMirror(tracked, image, i)
    ensures RecordsMirror(AfterMerging(tracked, r), image, i)
    ensures AfterMerging(tracked, r)[image].mirrors[i] == tracked[image].mirrors[i]
  {
    CurrentHasRegistry(r);
    MergeConserves(tracked, r.Current(), r.InUse(), r.matches, r.mirrors, r.now);
    assert tracked[image].mirrors <= AfterMerging(tracked, r)[image].mirrors;
  }

  /** Event number k deletes this destination and leaves it recorded. */
  ghost predicate LosesACopy(events: seq<Event>, k: nat, resolve: Resolver, destination: string) {
    && ValidEvents(events) && k < |events| && events[k].Reconcile?
    && (var r := events[k].round;
        var merged := AfterMerging(StatusAfter(events, k), r);
        Deletes(merged, r.spec, r.clock, r.deletes, resolve, destination))
    && Records(StatusAfter(events, k + 1), destination)
  }

  /** From an empty status: one reconcile mirrors two images to destinations with one repository and
      digest, be they the same destination because the images differ in the registry only, or two
      tags; the next reconcile finds one image overdue and the other in use, deletes their common
      copy and still records it. */
  lemma SharedDestinationIsLost(first: Round, second: Round, a: string, b: string, d: nat, resolve: Resolver)
    requires first.Valid() && second.Valid() && first.now <= second.now
    requires a in first.Current() && b in first.Current() && '/' in a && '/' in b
    requires a != b && d < |first.mirrors|
    requires resolve(first.mirrors[d].Destination(AfterRegistry(a))) ==
             resolve(first.mirrors[d].Destination(AfterRegistry(b)))
    requires first.stage == AfterMirroring && first.copies(a, d).Copied? && first.copies(b, d).Copied?
    requires second.stage != AfterMerge && second.matches(a) && second.Uses(a)
    requires second.spec.enabled && second.deletes(b, d)
    requires !second.matches(b) || (!second.Uses(b) && second.clock(b, d) - second.now >= second.spec.retention)
    ensures LosesACopy([Reconcile(first), Reconcile(second)], 1, resolve,
                       first.mirrors[d].Destination(AfterRegistry(a)))
  {
    hide AfterRound, AfterMerging, Round.Uses, Round.Current, RecordsMirror, Deletes, Records;
    var events := [Reconcile(first), Reconcile(second)];
    assert StatusAfter(events, 0) == map[];
    assert StatusAfter(events, 1) == AfterRound(map[], first);
    assert StatusAfter(events, 2) == AfterRound(StatusAfter(events, 1), second);
    FirstReconcileRecords(first, a, d);
    FirstReconcileRecords(first, b, d);
    SharedCopyIsLost(StatusAfter(events, 1), second, a, b, d, resolve);
  }

  /** Such runs exist: two pods run r/x and s/x, then the second is gone. */
  lemma SharedDestinationsOccur(resolve: Resolver) returns (first: Round, second: Round, destination: string)
    ensures LosesACopy([Reconcile(first), Reconcile(second)], 1, resolve, destination)
  {
    hide LosesACopy, Round.Uses, Round.Current;
    var normalize: PodImages.Normalizer := s => if '/' in s then Some(s) else None;
    var r, s := PodImages.PodRefs("", ["r/x"], map[]), PodImages.PodRefs("", ["s/x"], map[]);
    var copies: Copies := (_, _) => Copied(0);
    first := Round(normalize, [r, s], map[], _ => true, [Mirror("m", "", 0, None)], CleanupSpec(true, 1), 0,
                   (_, _) => 0, (_, _) => true, copies, AfterMirroring);
    second := first.(pods := [r], clock := (_, _) => 1);
    PodRuns(first, 0, "r/x");
    PodRuns(first, 1, "s/x");
    PodRuns(second, 0, "r/x");
    OnlyPodRuns(second, "r/x", "s/x");
    SamePathElsewhere();
    SharedDestinationIsLost(first, second, "r/x", "s/x", 0, resolve);
    destination := first.mirrors[0].Destination(AfterRegistry("r/x"));
  }

  lemma SamePathElsewhere()
    ensures '/' in "r/x" && '/' in "s/x" && AfterRegistry("r/x") == AfterRegistry("s/x") == "x"
  {
    AfterRegistryIsThePath("r", "x");
    AfterRegistryIsThePath("s", "x");
    assert "r" + "/" + "x" == "r/x" && "s" + "/" + "x" == "s/x";
  }

  lemma OnlyPodRuns(r: Round, image: string, other: string)
    requires |r.pods| == 1 && r.pods[0].images == [image] && r.pods[0].originals == map[]
    requires '@' !in image && r.normalize(image) == Some(image) && other != image
    ensures !r.Uses(other)
  {
    assert forall text :: text in r.pods[0].images ==> text == image;
  }

  lemma PodRuns(r: Round, i: nat, image: string)
    requires i < |r.pods| && r.pods[i].images == [image] && r.prefixes == map[] && r.matches(image)
    requires '@' !in image && r.normalize(image) == Some(image)
    ensures image in r.Current() && r.Uses(image)
  {
    MirrorSources.SourceMembers(r.normalize, r.matches, r.prefixes, r.pods, |r.pods|, image);
    assert r.pods[i].images[0] in r.pods[i].images;
    assert PodImages.Means(r.normalize, image, image) && PodImages.Runs(r.normalize, r.pods[i], image);
    assert MirrorSources.RunsSource(r.normalize, r.matches, r.prefixes, r.pods[i], image);
  }

  lemma SharedCopyIsLost(status: Tracked, r: Round, a: string, b: string, d: nat, resolve: Resolver)
    requires r.Valid() && r.stage != AfterMerge
    requires RecordsMirror(status, a, d) && RecordsMirror(status, b, d)
    requires resolve(status[a].mirrors[d].image) == resolve(status[b].mirrors[d].image) && status[b].unused == InUse
    requires r.matches(a) && r.Uses(a) && r.spec.enabled && r.deletes(b, d)
    requires !r.matches(b) || (!r.Uses(b) && r.clock(b, d) - r.now >= r.spec.retention)
    ensures Deletes(AfterMerging(status, r), r.spec, r.clock, r.deletes, resolve, status[a].mirrors[d].image)
    ensures Records(AfterRound(status, r), status[a].mirrors[d].image)
  {
    hide Round.Uses, AfterMerging, Cleanup, CopyAll;
    MergeKeepsRecords(status, r, a, d);
    MergeKeepsRecords(status, r, b, d);
    MergedUnused(status, r, a);
    MergedUnused(status, r, b);
    UsesIsInUse(r, a);
    UsesIsInUse(r, b);
    var merged := AfterMerging(status, r);
    assert DeletesMirror(merged, r.spec, r.clock, r.deletes, b, d);
    UsedStaysRecorded(merged, r, a, d);
  }

  lemma UsedStaysRecorded(merged: Tracked, r: Round, image: string, i: nat)
    requires RecordsMirror(merged, image, i) && merged[image].unused == InUse
    ensures Records(Cleanup(merged, r.spec, r.clock, r.deletes), merged[image].mirrors[i].image)
    ensures Records(CopyAll(Cleanup(merged, r.spec, r.clock, r.deletes), r.copies), merged[image].mirrors[i].image)
  {
    var cleaned := Cleanup(merged, r.spec, r.clock, r.deletes);
    UsedIsKept(merged, r.spec, r.clock, r.deletes, image);
    assert RecordsMirror(cleaned, image, i);
    MirroringRecordsCopies(cleaned, r.copies, image, i);
  }
}
