/** The phases of one reconcile of a mirror resource over status.matchingImages: merge, cleanup
    and mirror (internal/controller/kuik/mirror_reconciler.go). */
module MirrorStatus {
  import opened Prelude
  import opened Marks
  import opened Mirrors
  import Paths

  datatype MirrorEntry = MirrorEntry(image: string, mirroredAt: Option<int>, lastError: string)

  datatype MatchingImage = MatchingImage(image: string, mirrors: seq<MirrorEntry>, unused: Unused)

  datatype Entry = Entry(mirrors: seq<MirrorEntry>, unused: Unused)

  /** The status as a map: the list is keyed by image. */
  type Tracked = map<string, Entry>

  ghost predicate UniqueImages(list: seq<MatchingImage>) {
    forall i, j :: 0 <= i < j < |list| ==> list[i].image != list[j].image
  }

  ghost function Abstract(list: seq<MatchingImage>): Tracked {
    if list == [] then map[]
    else
      var last := list[|list| - 1];
      Abstract(list[..|list| - 1])[last.image := Entry(last.mirrors, last.unused)]
  }

  /** The status records that mirror number i of the image is there. */
  ghost predicate RecordsMirror(status: Tracked, image: string, i: nat) {
    image in status && i < |status[image].mirrors| && status[image].mirrors[i].mirroredAt.Some?
  }

  /** The webhook clears the mirroredAt of a copy it found missing. */
  ghost function Forgotten(status: Tracked, image: string, i: nat): Tracked {
    if image in status && i < |status[image].mirrors|
    then
      var e := status[image];
      status[image := e.(mirrors := e.mirrors[i := e.mirrors[i].(mirroredAt := None)])]
    else status
  }

  /** Exactly that record goes. */
  lemma ForgottenRecords(status: Tracked, image: string, i: nat, other: string, k: nat)
    ensures RecordsMirror(Forgotten(status, image, i), other, k) <==>
              RecordsMirror(status, other, k) && (other != image || k != i)
  {
  }

  lemma {:induction false} AbstractAt(list: seq<MatchingImage>, i: nat)
    requires UniqueImages(list) && i < |list|
    ensures list[i].image in Abstract(list) && Abstract(list)[list[i].image] == Entry(list[i].mirrors, list[i].unused)
  {
    if i < |list| - 1 {
      AbstractAt(list[..|list| - 1], i);
    }
  }

  lemma {:induction false} AbstractKeys(list: seq<MatchingImage>, image: string)
    ensures image in Abstract(list) <==> exists i :: 0 <= i < |list| && list[i].image == image
  {
    if list != [] {
      AbstractKeys(list[..|list| - 1], image);
    }
  }

  lemma AbstractAppend(list: seq<MatchingImage>, last: MatchingImage)
    ensures Abstract(list + [last]) == Abstract(list)[last.image := Entry(last.mirrors, last.unused)]
  {
    assert (list + [last])[..|list|] == list;
  }

  // ----- Merge -----

  /** The destinations of an image, one per declared mirror, in declaration order. */
  function Expected(mirrors: seq<Mirror>, image: string): (r: seq<MirrorEntry>)
    requires '/' in image
    ensures |r| == |mirrors|
  {
    seq(|mirrors|, i requires 0 <= i < |mirrors| => MirrorEntry(mirrors[i].Destination(AfterRegistry(image)), None, ""))
  }

  ghost predicate HasDestination(mirrors: seq<MirrorEntry>, destination: string) {
    exists i :: 0 <= i < |mirrors| && mirrors[i].image == destination
  }

  /** Those of expected whose destination is not among the known names. */
  function Missing(known: set<string>, expected: seq<MirrorEntry>): seq<MirrorEntry> {
    if expected == [] then []
    else
      var last := expected[|expected| - 1];
      Missing(known, expected[..|expected| - 1]) + if last.image in known then [] else [last]
  }

  function Destinations(mirrors: seq<MirrorEntry>): set<string> {
    set i | 0 <= i < |mirrors| :: mirrors[i].image
  }

  function Merged(current: seq<MirrorEntry>, expected: seq<MirrorEntry>): seq<MirrorEntry> {
    current + Missing(Destinations(current), expected)
  }

  method MergeMirrors(current: seq<MirrorEntry>, expected: seq<MirrorEntry>) returns (r: seq<MirrorEntry>)
    ensures r == Merged(current, expected)
    ensures current <= r
    ensures forall e :: e in r[|current|..] <==>
              e in expected && forall k :: 0 <= k < |current| ==> current[k].image != e.image
  {
    var known := set i | 0 <= i < |current| :: current[i].image;
    r := current;
    for n := 0 to |expected|
      invariant r == current + Missing(known, expected[..n])
    {
      assert expected[..n + 1][..n] == expected[..n];
      if expected[n].image !in known {
        r := r + [expected[n]];
      }
    }
    assert expected[..|expected|] == expected;
    assert r[|current|..] == Missing(known, expected);
    forall e ensures e in Missing(known, expected) <==> e in expected && e.image !in known {
      MissingMembers(known, expected, e);
    }
  }

  /** What is appended keeps the order of the declarations. */
  lemma {:induction false} MissingGrows(known: set<string>, expected: seq<MirrorEntry>, m: nat)
    requires m <= |expected|
    ensures Missing(known, expected[..m]) <= Missing(known, expected)
  {
    if m < |expected| {
      MissingGrows(known, expected[..|expected| - 1], m);
      assert expected[..|expected| - 1][..m] == expected[..m];
    } else {
      assert expected[..m] == expected;
    }
  }

  /** updateUnusedSince for one entry. */
  function Aged(unused: Unused, matches: bool, used: bool, now: int): Unused {
    if !matches then Instant
    else if used then InUse
    else if unused == InUse then Since(now)
    else unused
  }

  ghost predicate AllHaveRegistry(images: set<string>) {
    forall image :: image in images ==> '/' in image
  }

  /** What the merge makes of the image, tracked before or matched now. */
  ghost function MergedEntry(
    tracked: Tracked, current: set<string>, inUse: set<string>, matches: string -> bool, mirrors: seq<Mirror>, now: int,
    image: string): Entry
    requires AllHaveRegistry(current)
  {
    var expected := if image in current then Expected(mirrors, image) else [];
    if image in tracked
    then Entry(Merged(tracked[image].mirrors, expected),
               Aged(tracked[image].unused, matches(image), image in inUse, now))
    else Entry(expected, InUse)
  }

  ghost function Merge(
    tracked: Tracked, current: set<string>, inUse: set<string>, matches: string -> bool, mirrors: seq<Mirror>,
    now: int): Tracked
    requires AllHaveRegistry(current)
  {
    map image | image in tracked.Keys + current :: MergedEntry(tracked, current, inUse, matches, mirrors, now, image)
  }

  lemma {:induction false} MissingMembers(known: set<string>, expected: seq<MirrorEntry>, e: MirrorEntry)
    ensures e in Missing(known, expected) <==> e in expected && e.image !in known
  {
    if expected != [] {
      var front, last := expected[..|expected| - 1], expected[|expected| - 1];
      MissingMembers(known, front, e);
      assert expected == front + [last];
    }
  }

  lemma MergedHasAll(current: seq<MirrorEntry>, expected: seq<MirrorEntry>, i: nat)
    requires i < |expected|
    ensures HasDestination(Merged(current, expected), expected[i].image)
  {
    var m := Merged(current, expected);
    if expected[i].image in Destinations(current) {
      var k :| 0 <= k < |current| && current[k].image == expected[i].image;
      assert m[k] == current[k];
    } else {
      MissingMembers(Destinations(current), expected, expected[i]);
      var missing := Missing(Destinations(current), expected);
      var k :| 0 <= k < |missing| && missing[k] == expected[i];
      assert m[|current| + k] == missing[k];
    }
  }

  lemma {:induction false} NothingMissing(known: set<string>, expected: seq<MirrorEntry>)
    requires forall i :: 0 <= i < |expected| ==> expected[i].image in known
    ensures Missing(known, expected) == []
  {
    if expected != [] {
      NothingMissing(known, expected[..|expected| - 1]);
    }
  }

  /** After a merge the tracked images are the previous ones and the newly matched ones; every
      previous mirror entry is still there, in its place and with its mirroredAt; and every
      matched image has all the mirrors its resource declares. */
  lemma MergeConserves(
    tracked: Tracked, current: set<string>, inUse: set<string>, matches: string -> bool, mirrors: seq<Mirror>, now: int)
    requires AllHaveRegistry(current)
    ensures var merged := Merge(tracked, current, inUse, matches, mirrors, now);
            && merged.Keys == tracked.Keys + current
            && (forall image :: image in tracked ==> tracked[image].mirrors <= merged[image].mirrors)
            && (forall image, i :: image in current && 0 <= i < |mirrors| ==>
                  HasDestination(merged[image].mirrors,
                                 Paths.Join([mirrors[i].registry, mirrors[i].path, AfterRegistry(image)])))
            && (forall image :: image in current && image !in tracked ==>
                  && merged[image].unused == InUse && |merged[image].mirrors| == |mirrors|
                  && forall i :: 0 <= i < |mirrors| ==>
                       merged[image].mirrors[i] ==
                       MirrorEntry(Paths.Join([mirrors[i].registry, mirrors[i].path, AfterRegistry(image)]), None, ""))
  {
    hide Paths.Join;
    var merged := Merge(tracked, current, inUse, matches, mirrors, now);
    forall image, i | image in current && 0 <= i < |mirrors|
      ensures HasDestination(merged[image].mirrors, mirrors[i].Destination(AfterRegistry(image)))
    {
      var expected := Expected(mirrors, image);
      assert expected[i].image == mirrors[i].Destination(AfterRegistry(image));
      if image in tracked {
        MergedHasAll(tracked[image].mirrors, expected, i);
      } else {
        assert merged[image].mirrors[i] == expected[i];
      }
    }
  }

  /** Merging again with the same pods, at the same time or later, changes nothing. */
  lemma MergeIsIdempotent(
    tracked: Tracked, current: set<string>, inUse: set<string>, matches: string -> bool, mirrors: seq<Mirror>,
    now: int, later: int)
    requires AllHaveRegistry(current)
    requires forall image :: image in current ==> image in inUse && matches(image)
    ensures var merged := Merge(tracked, current, inUse, matches, mirrors, now);
            Merge(merged, current, inUse, matches, mirrors, later) == merged
  {
    var merged := Merge(tracked, current, inUse, matches, mirrors, now);
    var again := Merge(merged, current, inUse, matches, mirrors, later);
    assert again.Keys == merged.Keys;
    forall image | image in merged.Keys ensures again[image] == merged[image] {
      RemergedEntry(tracked, current, inUse, matches, mirrors, now, later, image);
    }
  }

  lemma RemergedEntry(
    tracked: Tracked, current: set<string>, inUse: set<string>, matches: string -> bool, mirrors: seq<Mirror>,
    now: int, later: int, image: string)
    requires AllHaveRegistry(current) && image in tracked.Keys + current
    requires image in current ==> image in inUse && matches(image)
    ensures MergedEntry(Merge(tracked, current, inUse, matches, mirrors, now), current, inUse, matches, mirrors, later,
                        image)
            == MergedEntry(tracked, current, inUse, matches, mirrors, now, image)
  {
    var merged := Merge(tracked, current, inUse, matches, mirrors, now);
    assert merged[image] == MergedEntry(tracked, current, inUse, matches, mirrors, now, image);
    var expected := if image in current then Expected(mirrors, image) else [];
    if image in tracked {
      MergedIsStable(tracked[image].mirrors, expected);
    } else {
      ExpectedAlone(expected);
    }
  }

  lemma MergedIsStable(current: seq<MirrorEntry>, expected: seq<MirrorEntry>)
    ensures Merged(Merged(current, expected), expected) == Merged(current, expected)
  {
    var merged := Merged(current, expected);
    forall i | 0 <= i < |expected| ensures expected[i].image in Destinations(merged) {
      MergedHasAll(current, expected, i);
      assert HasDestination(merged, expected[i].image);
    }
    NothingMissing(Destinations(merged), expected);
  }

  lemma ExpectedAlone(expected: seq<MirrorEntry>)
    ensures Merged(expected, expected) == expected
  {
    assert forall i :: 0 <= i < |expected| ==> expected[i].image in Destinations(expected);
    NothingMissing(Destinations(expected), expected);
  }

  // ----- Cleanup -----

  datatype CleanupSpec = CleanupSpec(enabled: bool, retention: int)

  /** Whether deleting mirror number i of an image succeeds, in case it is tried. */
  type Deletions = (string, nat) -> bool

  /** What the clock says when the cleanup comes to mirror number i of an image. */
  type Clock = (string, nat) -> int

  /** The retention that is left at some time; none at all for the marker. */
  function Remaining(spec: CleanupSpec, unused: Unused, time: int): int {
    match unused
    case Since(at) => spec.retention - (time - at)
    case _ => 0
  }

  /** Cleanup is due: the branch that deletes. */
  predicate Overdue(spec: CleanupSpec, unused: Unused, time: int) {
    unused != InUse && spec.enabled && Remaining(spec, unused, time) <= 0
  }

  predicate DeletionFails(m: MirrorEntry, image: string, i: nat, deletes: Deletions) {
    m.mirroredAt.Some? && !deletes(image, i)
  }

  /** Mirror number i is due for cleanup, and deleting it fails. */
  predicate FailsAt(spec: CleanupSpec, clock: Clock, deletes: Deletions, image: string, e: Entry, i: nat) {
    i < |e.mirrors| && Overdue(spec, e.unused, clock(image, i)) && DeletionFails(e.mirrors[i], image, i, deletes)
  }

  ghost predicate SomeFailsBelow(
    spec: CleanupSpec, clock: Clock, deletes: Deletions, image: string, e: Entry, n: nat)
  {
    exists i: nat :: i < n && FailsAt(spec, clock, deletes, image, e, i)
  }

  lemma FailsStep(spec: CleanupSpec, clock: Clock, deletes: Deletions, image: string, e: Entry, n: nat)
    ensures !SomeFailsBelow(spec, clock, deletes, image, e, 0)
    ensures SomeFailsBelow(spec, clock, deletes, image, e, n + 1) <==>
              SomeFailsBelow(spec, clock, deletes, image, e, n) || FailsAt(spec, clock, deletes, image, e, n)
  {
  }

  /** Mirror number i stays: it is not due, or deleting it fails. */
  predicate Retains(spec: CleanupSpec, clock: Clock, deletes: Deletions, image: string, e: Entry, i: nat)
    requires i < |e.mirrors|
  {
    !Overdue(spec, e.unused, clock(image, i)) || DeletionFails(e.mirrors[i], image, i, deletes)
  }

  /** Of the first n mirrors of an entry, those that stay. */
  function Staying(
    spec: CleanupSpec, clock: Clock, deletes: Deletions, image: string, e: Entry, n: nat): seq<MirrorEntry>
    requires n <= |e.mirrors|
  {
    if n == 0 then []
    else
      Staying(spec, clock, deletes, image, e, n - 1) +
      if Retains(spec, clock, deletes, image, e, n - 1) then [e.mirrors[n - 1]] else []
  }

  lemma StayingStep(spec: CleanupSpec, clock: Clock, deletes: Deletions, image: string, e: Entry, n: nat)
    requires n < |e.mirrors|
    ensures Staying(spec, clock, deletes, image, e, n + 1) ==
              Staying(spec, clock, deletes, image, e, n) +
              if Retains(spec, clock, deletes, image, e, n) then [e.mirrors[n]] else []
  {
  }

  lemma {:induction false} UsedStaying(
    spec: CleanupSpec, clock: Clock, deletes: Deletions, image: string, e: Entry, n: nat)
    requires e.unused == InUse && n <= |e.mirrors|
    ensures Staying(spec, clock, deletes, image, e, n) == e.mirrors[..n]
    ensures !SomeFailsBelow(spec, clock, deletes, image, e, n)
  {
    if n > 0 {
      UsedStaying(spec, clock, deletes, image, e, n - 1);
    }
  }

  function KeptMirrors(spec: CleanupSpec, clock: Clock, deletes: Deletions, image: string, e: Entry): seq<MirrorEntry> {
    Staying(spec, clock, deletes, image, e, |e.mirrors|)
  }

  /** An unused entry goes when none of its mirrors stays. */
  predicate Keeps(spec: CleanupSpec, clock: Clock, deletes: Deletions, image: string, e: Entry) {
    e.unused == InUse || KeptMirrors(spec, clock, deletes, image, e) != []
  }

  function CleanedEntry(spec: CleanupSpec, clock: Clock, deletes: Deletions, image: string, e: Entry): Entry {
    e.(mirrors := KeptMirrors(spec, clock, deletes, image, e))
  }

  ghost function Cleanup(tracked: Tracked, spec: CleanupSpec, clock: Clock, deletes: Deletions): Tracked {
    map image | image in tracked && Keeps(spec, clock, deletes, image, tracked[image]) ::
      CleanedEntry(spec, clock, deletes, image, tracked[image])
  }

  /** Mirror number i survives the cleanup: the image is in use or marked a time ago that is less than
      the retention, or cleanup is off, or a recorded copy could not be deleted. */
  ghost predicate MirrorSurvives(
    spec: CleanupSpec, clock: Clock, deletes: Deletions, image: string, e: Entry, i: nat)
  {
    && i < |e.mirrors|
    && (e.unused == InUse || !spec.enabled
        || (e.unused.Since? && clock(image, i) - e.unused.at < spec.retention)
        || (e.mirrors[i].mirroredAt.Some? && !deletes(image, i)))
  }

  /** An image is still in the status after a cleanup exactly when it is in use, or a mirror of it
      survives; its mark does not change, and exactly those mirrors stay, in their order. */
  lemma CleanupIsExact(tracked: Tracked, spec: CleanupSpec, clock: Clock, deletes: Deletions, image: string)
    ensures var cleaned := Cleanup(tracked, spec, clock, deletes);
            && (image in cleaned <==>
                  && image in tracked
                  && (tracked[image].unused == InUse
                      || exists i: nat :: MirrorSurvives(spec, clock, deletes, image, tracked[image], i)))
            && (image in cleaned ==>
                  && cleaned[image].unused == tracked[image].unused
                  && (forall m :: m in cleaned[image].mirrors <==>
                        exists i: nat :: MirrorSurvives(spec, clock, deletes, image, tracked[image], i)
                                         && tracked[image].mirrors[i] == m))
  {
    if image in tracked {
      var e := tracked[image];
      var kept := KeptMirrors(spec, clock, deletes, image, e);
      forall m
        ensures m in kept <==> exists i: nat :: MirrorSurvives(spec, clock, deletes, image, e, i) && e.mirrors[i] == m
      {
        StayingMembers(spec, clock, deletes, image, e, |e.mirrors|, m);
        if i: nat :| i < |e.mirrors| && e.mirrors[i] == m && Retains(spec, clock, deletes, image, e, i) {
          assert MirrorSurvives(spec, clock, deletes, image, e, i);
        }
        if i: nat :| MirrorSurvives(spec, clock, deletes, image, e, i) && e.mirrors[i] == m {
          assert Retains(spec, clock, deletes, image, e, i);
        }
      }
      if i: nat :| MirrorSurvives(spec, clock, deletes, image, e, i) {
        assert e.mirrors[i] in kept;
      }
      assert kept != [] ==> kept[0] in kept;
    }
  }

  lemma {:induction false} StayingGrows(
    spec: CleanupSpec, clock: Clock, deletes: Deletions, image: string, e: Entry, m: nat, n: nat)
    requires m <= n <= |e.mirrors|
    ensures Staying(spec, clock, deletes, image, e, m) <= Staying(spec, clock, deletes, image, e, n)
  {
    hide Retains;
    if m < n {
      StayingGrows(spec, clock, deletes, image, e, m, n - 1);
    }
  }

  /** The cleanup does not touch a used image. */
  lemma UsedIsKept(tracked: Tracked, spec: CleanupSpec, clock: Clock, deletes: Deletions, image: string)
    requires image in tracked && tracked[image].unused == InUse
    ensures var cleaned := Cleanup(tracked, spec, clock, deletes);
            image in cleaned && cleaned[image] == tracked[image]
  {
    var e := tracked[image];
    UsedStaying(spec, clock, deletes, image, e, |e.mirrors|);
    assert e.mirrors[..|e.mirrors|] == e.mirrors;
  }

  ghost predicate SomeDeletionFails(tracked: Tracked, spec: CleanupSpec, clock: Clock, deletes: Deletions) {
    exists image :: image in tracked && EntryFails(spec, clock, deletes, image, tracked[image])
  }

  ghost predicate EntryFails(spec: CleanupSpec, clock: Clock, deletes: Deletions, image: string, e: Entry) {
    SomeFailsBelow(spec, clock, deletes, image, e, |e.mirrors|)
  }

  /** Mirror number i of the entry waits for its retention to pass. */
  predicate Waiting(spec: CleanupSpec, clock: Clock, image: string, e: Entry, i: nat) {
    && i < |e.mirrors| && e.unused.Since? && spec.enabled && Remaining(spec, e.unused, clock(image, i)) > 0
  }

  /** The same, in terms of the status: the image is unused since a time that is not yet as long ago
      as the retention when the cleanup comes to the mirror. */
  ghost predicate Waits(tracked: Tracked, spec: CleanupSpec, clock: Clock, image: string, i: nat) {
    && image in tracked && i < |tracked[image].mirrors| && spec.enabled
    && tracked[image].unused.Since? && clock(image, i) - tracked[image].unused.at < spec.retention
  }

  /** The retention left to the entry when the cleanup comes to mirror number i. */
  ghost function Left(tracked: Tracked, spec: CleanupSpec, clock: Clock, image: string, i: nat): int
    requires Waits(tracked, spec, clock, image, i)
  {
    spec.retention - (clock(image, i) - tracked[image].unused.at)
  }

  /** The delay asked for is the least retention left, and zero only if nothing waits. */
  ghost predicate IsRequeueDelay(tracked: Tracked, spec: CleanupSpec, clock: Clock, delay: int) {
    && delay >= 0
    && (forall image, i: nat :: Waits(tracked, spec, clock, image, i) ==>
          0 < delay <= Left(tracked, spec, clock, image, i))
    && (delay > 0 ==>
          exists image, i: nat ::
            Waits(tracked, spec, clock, image, i) && delay == Left(tracked, spec, clock, image, i))
  }

  /** A retained mirror of an unused image does not pass its retention before the delay is over,
      counted from when the cleanup came to it, and without a delay there is none. */
  lemma NothingExpiresBeforeRequeue(
    tracked: Tracked, spec: CleanupSpec, clock: Clock, deletes: Deletions, delay: int, image: string, i: nat, time: int)
    requires spec.enabled && IsRequeueDelay(tracked, spec, clock, delay)
    requires !SomeDeletionFails(tracked, spec, clock, deletes)
    requires image in tracked && i < |tracked[image].mirrors| && tracked[image].unused != InUse
    requires Retains(spec, clock, deletes, image, tracked[image], i)
    ensures delay > 0 && tracked[image].unused.Since?
    ensures time < clock(image, i) + delay ==> time - tracked[image].unused.at < spec.retention
  {
    var e := tracked[image];
    assert !EntryFails(spec, clock, deletes, image, e);
    assert !FailsAt(spec, clock, deletes, image, e, i);
    assert Waits(tracked, spec, clock, image, i);
  }

  /** The delay counts from the return of the reconcile. When it is over, some waiting mirror has
      passed its retention, and none by more than the time from when the cleanup came to it until
      the return. */
  lemma RequeueIsTimely(tracked: Tracked, spec: CleanupSpec, clock: Clock, delay: int, returned: int)
    requires IsRequeueDelay(tracked, spec, clock, delay)
    requires forall image, i: nat :: Waits(tracked, spec, clock, image, i) ==> clock(image, i) <= returned
    ensures delay > 0 ==>
              exists image, i: nat :: Waits(tracked, spec, clock, image, i)
                                      && returned + delay - tracked[image].unused.at >= spec.retention
    ensures forall image, i: nat :: Waits(tracked, spec, clock, image, i) ==>
              returned + delay - tracked[image].unused.at <= spec.retention + (returned - clock(image, i))
  {
  }

  lemma {:induction false} StayingMembers(
    spec: CleanupSpec, clock: Clock, deletes: Deletions, image: string, e: Entry, n: nat, m: MirrorEntry)
    requires n <= |e.mirrors|
    ensures m in Staying(spec, clock, deletes, image, e, n) <==>
              exists i :: 0 <= i < n && e.mirrors[i] == m && Retains(spec, clock, deletes, image, e, i)
  {
    if n > 0 {
      StayingMembers(spec, clock, deletes, image, e, n - 1, m);
    }
  }

  // ----- Mirror -----

  /** What happens to a mirror that is not there yet: copied, or found at the destination, at
      some time; failed; or not reached because the reconcile ended before. */
  datatype Copy = Copied(at: int) | CopyFailed(error: string) | NotReached

  type Copies = (string, nat) -> Copy

  function CopiedMirror(m: MirrorEntry, copy: Copy): MirrorEntry {
    if m.mirroredAt.Some? then m
    else match copy
      case Copied(at) => m.(mirroredAt := Some(at), lastError := "")
      case CopyFailed(error) => m.(lastError := error)
      case NotReached => m
  }

  function CopiedMirrors(mirrors: seq<MirrorEntry>, image: string, copies: Copies): (r: seq<MirrorEntry>)
    ensures |r| == |mirrors|
  {
    seq(|mirrors|, i requires 0 <= i < |mirrors| => CopiedMirror(mirrors[i], copies(image, i)))
  }

  function CopiedEntry(e: Entry, image: string, copies: Copies): Entry {
    if e.unused == InUse then e.(mirrors := CopiedMirrors(e.mirrors, image, copies)) else e
  }

  ghost function CopyAll(tracked: Tracked, copies: Copies): Tracked {
    map image | image in tracked :: CopiedEntry(tracked[image], image, copies)
  }

  /** Mirroring records a mirror exactly when it was recorded before, or its image is in use and
      the copy is there now, with the time of the copy and no error; a copy that fails leaves its error;
      nothing else is touched. */
  lemma MirroringRecordsCopies(tracked: Tracked, copies: Copies, image: string, i: nat)
    requires image in tracked && i < |tracked[image].mirrors|
    ensures var copied := CopyAll(tracked, copies);
            && (RecordsMirror(copied, image, i) <==>
                RecordsMirror(tracked, image, i) || (tracked[image].unused == InUse && copies(image, i).Copied?))
            && copied.Keys == tracked.Keys && copied[image].unused == tracked[image].unused
            && |copied[image].mirrors| == |tracked[image].mirrors|
            && (var before, after := tracked[image].mirrors[i], copied[image].mirrors[i];
                if tracked[image].unused != InUse || before.mirroredAt.Some? then after == before
                else match copies(image, i)
                  case Copied(at) => after == MirrorEntry(before.image, Some(at), "")
                  case CopyFailed(error) => after == MirrorEntry(before.image, None, error)
                  case NotReached => after == before)
  {
    var e, copied := tracked[image], CopyAll(tracked, copies)[image];
    assert copied.mirrors[i] == if e.unused == InUse then CopiedMirror(e.mirrors[i], copies(image, i))
      else e.mirrors[i];
  }

  // ----- The resource that is updated in place -----

  class MirrorResource {
    var matchingImages: seq<MatchingImage>

    /** updateUnusedSince and the merge of the mirrors, over the previous status. */
    method UpdateUnusedSince(
      discovered: Tracked, inUse: set<string>, matches: string -> bool, now: int) returns (merged: Tracked)
      requires UniqueImages(matchingImages)
      ensures merged.Keys == Abstract(matchingImages).Keys + discovered.Keys
      ensures forall image :: image in merged ==>
                merged[image] == MergeInto(Abstract(matchingImages), discovered, inUse, matches, now, image)
    {
      hide Merged, Abstract;
      NothingListed();
      assert matchingImages[..0] == [];
      merged := discovered;
      for i := 0 to |matchingImages|
        invariant merged.Keys == Abstract(matchingImages[..i]).Keys + discovered.Keys
        invariant forall image :: image in merged ==>
                    merged[image] == MergeInto(Abstract(matchingImages[..i]), discovered, inUse, matches, now, image)
      {
        var img := matchingImages[i];
        assert matchingImages[..i + 1] == matchingImages[..i] + [img];
        AbstractAppend(matchingImages[..i], img);
        AbstractKeys(matchingImages[..i], img.image);
        var unused := img.unused;
        if !matches(img.image) {
          unused := Instant;
        } else if img.image !in inUse {
          if unused == InUse {
            unused := Since(now);
          }
        } else {
          unused := InUse;
        }
        var mirrors := MergeMirrors(img.mirrors, if img.image in merged then merged[img.image].mirrors else []);
        merged := merged[img.image := Entry(mirrors, unused)];
      }
      assert matchingImages[..|matchingImages|] == matchingImages;
    }

    /** mergePreviousAndCurrentMatchingImages; the new list is in the order of a map iteration. */
    method MergePreviousAndCurrent(
      current: set<string>, inUse: set<string>, matches: string -> bool, mirrors: seq<Mirror>, now: int)
      requires UniqueImages(matchingImages) && AllHaveRegistry(current)
      modifies this
      ensures UniqueImages(matchingImages)
      ensures Abstract(matchingImages) == Merge(Abstract(old(matchingImages)), current, inUse, matches, mirrors, now)
    {
      hide Merged, Aged, Expected;
      var discovered: Tracked := map image | image in current :: Entry(Expected(mirrors, image), InUse);
      var merged := UpdateUnusedSince(discovered, inUse, matches, now);
      assert merged == Merge(Abstract(matchingImages), current, inUse, matches, mirrors, now);
      matchingImages := ListOf(merged);
    }

    /** The cleanup loop. */
    method CleanupUnused(spec: CleanupSpec, clock: Clock, deletes: Deletions) returns (failed: bool, requeueAfter: int)
      requires UniqueImages(matchingImages)
      modifies this
      ensures UniqueImages(matchingImages)
      ensures Abstract(matchingImages) == Cleanup(Abstract(old(matchingImages)), spec, clock, deletes)
      ensures failed <==> SomeDeletionFails(Abstract(old(matchingImages)), spec, clock, deletes)
      ensures IsRequeueDelay(Abstract(old(matchingImages)), spec, clock, requeueAfter)
    {
      failed, requeueAfter := false, 0;
      var kept: seq<MatchingImage> := [];
      for i := 0 to |matchingImages|
        invariant matchingImages == old(matchingImages)
        invariant kept == CleanedList(matchingImages[..i], spec, clock, deletes)
        invariant failed <==> SomeImageFails(matchingImages[..i], spec, clock, deletes)
        invariant requeueAfter == DelayOf(matchingImages[..i], spec, clock)
      {
        var img := matchingImages[i];
        assert matchingImages[..i + 1][..i] == matchingImages[..i];
        var mirrors, failedHere, delay := CleanupImage(img, spec, clock, deletes, requeueAfter);
        failed, requeueAfter := failed || failedHere, delay;
        if img.unused == InUse || |mirrors| > 0 {
          kept := kept + [img.(mirrors := mirrors)];
        }
      }
      assert matchingImages[..|matchingImages|] == matchingImages;
      CleanedListIsCleanup(matchingImages, spec, clock, deletes);
      DelayOfIsLeast(matchingImages, spec, clock);
      matchingImages := kept;
    }

    /** The inner loop over the mirrors of one image. */
    method CleanupImage(img: MatchingImage, spec: CleanupSpec, clock: Clock, deletes: Deletions, delay: int)
      returns (mirrors: seq<MirrorEntry>, failed: bool, requeueAfter: int)
      ensures mirrors == KeptMirrors(spec, clock, deletes, img.image, EntryOf(img))
      ensures failed <==> EntryFails(spec, clock, deletes, img.image, EntryOf(img))
      ensures requeueAfter == DelayWith(delay, spec, clock, img.image, EntryOf(img), |img.mirrors|)
    {
      hide SomeFailsBelow, FailsAt, Staying, Retains, Overdue, Remaining, DelayWith, Waiting, DeletionFails;
      ghost var e := EntryOf(img);
      if img.unused == InUse {
        UsedStaying(spec, clock, deletes, img.image, e, |img.mirrors|);
        UsedDelay(delay, spec, clock, img.image, e, |img.mirrors|);
        return img.mirrors, false, delay;
      }
      mirrors, failed, requeueAfter := [], false, delay;
      FailsStep(spec, clock, deletes, img.image, e, 0);
      NothingStaysYet(delay, spec, clock, deletes, img.image, e);
      for j := 0 to |img.mirrors|
        invariant mirrors == Staying(spec, clock, deletes, img.image, e, j)
        invariant failed <==> SomeFailsBelow(spec, clock, deletes, img.image, e, j)
        invariant requeueAfter == DelayWith(delay, spec, clock, img.image, e, j)
      {
        var mirror := img.mirrors[j];
        FailsStep(spec, clock, deletes, img.image, e, j);
        StayingStep(spec, clock, deletes, img.image, e, j);
        CleanupStep(delay, spec, clock, deletes, img.image, e, j);
        var deleteAfter := Remaining(spec, img.unused, clock(img.image, j));
        if !spec.enabled {
          mirrors := mirrors + [mirror];
          continue;
        } else if deleteAfter > 0 {
          if requeueAfter == 0 || deleteAfter < requeueAfter {
            requeueAfter := deleteAfter;
          }
          mirrors := mirrors + [mirror];
          continue;
        }
        if mirror.mirroredAt.Some? {
          if !deletes(img.image, j) {
            mirrors := mirrors + [mirror];
            failed := true;
          }
        }
      }
    }

    /** The mirroring loop. */
    method MirrorMissing(copies: Copies) returns (failed: bool)
      requires UniqueImages(matchingImages)
      modifies this
      ensures UniqueImages(matchingImages)
      ensures Abstract(matchingImages) == CopyAll(Abstract(old(matchingImages)), copies)
      ensures failed <==> CopyFailsIn(Abstract(old(matchingImages)), copies)
    {
      failed := false;
      for i := 0 to |matchingImages|
        invariant |matchingImages| == |old(matchingImages)|
        invariant forall k :: 0 <= k < |matchingImages| ==>
                    matchingImages[k] == if k < i then CopiedImage(old(matchingImages)[k], copies)
                      else old(matchingImages)[k]
        invariant failed <==> SomeCopyFails(old(matchingImages), i, copies)
      {
        var img := matchingImages[i];
        if img.unused != InUse {
          continue;
        }
        var mirrors, failedHere := MirrorImage(img, copies);
        failed := failed || failedHere;
        matchingImages := matchingImages[i := img.(mirrors := mirrors)];
      }
      CopiedListIsCopyAll(old(matchingImages), matchingImages, copies);
      CopyFailuresAgree(old(matchingImages), copies);
    }

    method MirrorImage(img: MatchingImage, copies: Copies) returns (mirrors: seq<MirrorEntry>, failed: bool)
      requires img.unused == InUse
      ensures mirrors == CopiedMirrors(img.mirrors, img.image, copies)
      ensures failed <==> CopyFailsBelow(img, |img.mirrors|, copies)
    {
      mirrors, failed := img.mirrors, false;
      for j := 0 to |img.mirrors|
        invariant |mirrors| == |img.mirrors|
        invariant forall k :: 0 <= k < |mirrors| ==>
                    mirrors[k] == if k < j then CopiedMirror(img.mirrors[k], copies(img.image, k)) else img.mirrors[k]
        invariant failed <==> CopyFailsBelow(img, j, copies)
      {
        assert CopyFailsBelow(img, j + 1, copies) <==> CopyFailsBelow(img, j, copies) || CopyFails(img, j, copies);
        if mirrors[j].mirroredAt.None? {
          match copies(img.image, j) {
            case Copied(at) => mirrors := mirrors[j := mirrors[j].(mirroredAt := Some(at), lastError := "")];
            case CopyFailed(error) =>
              mirrors := mirrors[j := mirrors[j].(lastError := error)];
              failed := true;
            case NotReached =>
          }
        }
      }
    }
  }

  ghost predicate CopyFails(img: MatchingImage, j: nat, copies: Copies) {
    && img.unused == InUse && j < |img.mirrors|
    && img.mirrors[j].mirroredAt.None? && copies(img.image, j).CopyFailed?
  }

  ghost predicate CopyFailsBelow(img: MatchingImage, n: nat, copies: Copies) {
    exists j: nat :: j < n && CopyFails(img, j, copies)
  }

  ghost predicate SomeCopyFails(list: seq<MatchingImage>, n: nat, copies: Copies)
    requires n <= |list|
  {
    exists i: nat :: i < n && CopyFailsBelow(list[i], |list[i].mirrors|, copies)
  }

  /** The least of the delay so far and those of the first n mirrors of an entry. */
  function DelayWith(delay: int, spec: CleanupSpec, clock: Clock, image: string, e: Entry, n: nat): int
    requires n <= |e.mirrors|
  {
    if n == 0 then delay
    else
      var before := DelayWith(delay, spec, clock, image, e, n - 1);
      var left := Remaining(spec, e.unused, clock(image, n - 1));
      if Waiting(spec, clock, image, e, n - 1) && (before == 0 || left < before) then left else before
  }

  lemma {:induction false} UsedDelay(delay: int, spec: CleanupSpec, clock: Clock, image: string, e: Entry, n: nat)
    requires e.unused == InUse && n <= |e.mirrors|
    ensures DelayWith(delay, spec, clock, image, e, n) == delay
  {
    if n > 0 {
      UsedDelay(delay, spec, clock, image, e, n - 1);
    }
  }

  lemma NothingStaysYet(delay: int, spec: CleanupSpec, clock: Clock, deletes: Deletions, image: string, e: Entry)
    ensures Staying(spec, clock, deletes, image, e, 0) == [] && DelayWith(delay, spec, clock, image, e, 0) == delay
  {
  }

  /** The branches of the loop, for an unused image. */
  lemma CleanupStep(
    delay: int, spec: CleanupSpec, clock: Clock, deletes: Deletions, image: string, e: Entry, n: nat)
    requires n < |e.mirrors| && e.unused != InUse
    ensures var left := Remaining(spec, e.unused, clock(image, n));
            var due := spec.enabled && left <= 0;
            var before := DelayWith(delay, spec, clock, image, e, n);
            && (FailsAt(spec, clock, deletes, image, e, n) <==>
                  due && e.mirrors[n].mirroredAt.Some? && !deletes(image, n))
            && (Retains(spec, clock, deletes, image, e, n) <==> (due ==> FailsAt(spec, clock, deletes, image, e, n)))
            && DelayWith(delay, spec, clock, image, e, n + 1) ==
                 if spec.enabled && left > 0 && (before == 0 || left < before) then left else before
  {
  }

  /** Some missing mirror of a used image cannot be copied. */
  ghost predicate CopyFailsIn(tracked: Tracked, copies: Copies) {
    exists image, j: nat :: EntryCopyFails(tracked, image, j, copies)
  }

  ghost predicate EntryCopyFails(tracked: Tracked, image: string, j: nat, copies: Copies) {
    image in tracked && CopyFails(MatchingImage(image, tracked[image].mirrors, tracked[image].unused), j, copies)
  }

  lemma CopyFailuresAgree(list: seq<MatchingImage>, copies: Copies)
    requires UniqueImages(list)
    ensures SomeCopyFails(list, |list|, copies) <==> CopyFailsIn(Abstract(list), copies)
  {
    var tracked := Abstract(list);
    if SomeCopyFails(list, |list|, copies) {
      var i: nat :| i < |list| && CopyFailsBelow(list[i], |list[i].mirrors|, copies);
      var j: nat :| j < |list[i].mirrors| && CopyFails(list[i], j, copies);
      AbstractAt(list, i);
      assert EntryCopyFails(tracked, list[i].image, j, copies);
    }
    if CopyFailsIn(tracked, copies) {
      var image, j: nat :| EntryCopyFails(tracked, image, j, copies);
      AbstractKeys(list, image);
      var i :| 0 <= i < |list| && list[i].image == image;
      AbstractAt(list, i);
      assert CopyFails(list[i], j, copies);
      assert CopyFailsBelow(list[i], |list[i].mirrors|, copies);
    }
  }

  function CopiedImage(img: MatchingImage, copies: Copies): MatchingImage {
    if img.unused == InUse then img.(mirrors := CopiedMirrors(img.mirrors, img.image, copies)) else img
  }

  lemma {:induction false} CopiedListIsCopyAll(before: seq<MatchingImage>, after: seq<MatchingImage>, copies: Copies)
    requires |after| == |before| && forall k :: 0 <= k < |before| ==> after[k] == CopiedImage(before[k], copies)
    ensures Abstract(after) == CopyAll(Abstract(before), copies)
  {
    if before != [] {
      CopiedListIsCopyAll(before[..|before| - 1], after[..|after| - 1], copies);
    }
  }

  function EntryOf(img: MatchingImage): Entry {
    Entry(img.mirrors, img.unused)
  }

  /** The cleanup loop as a function of the list it runs over. */
  function CleanedList(
    list: seq<MatchingImage>, spec: CleanupSpec, clock: Clock, deletes: Deletions): seq<MatchingImage>
  {
    if list == [] then []
    else
      var last := list[|list| - 1];
      CleanedList(list[..|list| - 1], spec, clock, deletes) +
      if Keeps(spec, clock, deletes, last.image, EntryOf(last))
      then [last.(mirrors := KeptMirrors(spec, clock, deletes, last.image, EntryOf(last)))] else []
  }

  ghost predicate SomeImageFails(list: seq<MatchingImage>, spec: CleanupSpec, clock: Clock, deletes: Deletions) {
    if list == [] then false
    else
      var last := list[|list| - 1];
      SomeImageFails(list[..|list| - 1], spec, clock, deletes)
        || EntryFails(spec, clock, deletes, last.image, EntryOf(last))
  }

  function DelayOf(list: seq<MatchingImage>, spec: CleanupSpec, clock: Clock): int {
    if list == [] then 0
    else
      var last := list[|list| - 1];
      DelayWith(DelayOf(list[..|list| - 1], spec, clock), spec, clock, last.image, EntryOf(last), |last.mirrors|)
  }

  lemma {:induction false} CleanedListIsCleanup(
    list: seq<MatchingImage>, spec: CleanupSpec, clock: Clock, deletes: Deletions)
    requires UniqueImages(list)
    ensures UniqueImages(CleanedList(list, spec, clock, deletes))
    ensures Abstract(CleanedList(list, spec, clock, deletes)) == Cleanup(Abstract(list), spec, clock, deletes)
    ensures SomeImageFails(list, spec, clock, deletes) <==> SomeDeletionFails(Abstract(list), spec, clock, deletes)
  {
    if list != [] {
      var front, last := list[..|list| - 1], list[|list| - 1];
      CleanedListIsCleanup(front, spec, clock, deletes);
      AbstractKeys(front, last.image);
      var kept, before := CleanedList(front, spec, clock, deletes), Abstract(front);
      CleanupExtends(before, last.image, EntryOf(last), spec, clock, deletes);
      FailureExtends(before, last.image, EntryOf(last), spec, clock, deletes);
      AbstractAppend(kept, last.(mirrors := KeptMirrors(spec, clock, deletes, last.image, EntryOf(last))));
      if !Keeps(spec, clock, deletes, last.image, EntryOf(last)) {
        assert CleanedList(list, spec, clock, deletes) == kept;
      }
      forall i | 0 <= i < |kept| ensures kept[i].image != last.image {
        CleanedFrom(front, spec, clock, deletes, i);
      }
    }
  }

  lemma {:induction false} CleanedFrom(
    list: seq<MatchingImage>, spec: CleanupSpec, clock: Clock, deletes: Deletions, i: nat)
    requires i < |CleanedList(list, spec, clock, deletes)|
    ensures exists k :: 0 <= k < |list| && list[k].image == CleanedList(list, spec, clock, deletes)[i].image
  {
    var front := list[..|list| - 1];
    if i < |CleanedList(front, spec, clock, deletes)| {
      CleanedFrom(front, spec, clock, deletes, i);
      var k :| 0 <= k < |front| && front[k].image == CleanedList(front, spec, clock, deletes)[i].image;
      assert list[k] == front[k];
    } else {
      assert list[|list| - 1].image == CleanedList(list, spec, clock, deletes)[i].image;
    }
  }

  lemma {:induction false} DelayOfIsLeast(list: seq<MatchingImage>, spec: CleanupSpec, clock: Clock)
    requires UniqueImages(list)
    ensures IsRequeueDelay(Abstract(list), spec, clock, DelayOf(list, spec, clock))
  {
    if list != [] {
      var front, last := list[..|list| - 1], list[|list| - 1];
      DelayOfIsLeast(front, spec, clock);
      AbstractKeys(front, last.image);
      var delay := DelayOf(front, spec, clock);
      DelayExtends(Abstract(front), last.image, EntryOf(last), spec, clock, delay, |last.mirrors|);
      assert EntryOf(last).(mirrors := last.mirrors[..|last.mirrors|]) == EntryOf(last);
    }
  }

  lemma CleanupExtends(before: Tracked, image: string, e: Entry, spec: CleanupSpec, clock: Clock, deletes: Deletions)
    requires image !in before
    ensures Cleanup(before[image := e], spec, clock, deletes) ==
              if Keeps(spec, clock, deletes, image, e)
              then Cleanup(before, spec, clock, deletes)[image := CleanedEntry(spec, clock, deletes, image, e)]
              else Cleanup(before, spec, clock, deletes)
  {
  }

  lemma FailureExtends(before: Tracked, image: string, e: Entry, spec: CleanupSpec, clock: Clock, deletes: Deletions)
    requires image !in before
    ensures SomeDeletionFails(before[image := e], spec, clock, deletes) <==>
              SomeDeletionFails(before, spec, clock, deletes) || EntryFails(spec, clock, deletes, image, e)
  {
    var after := before[image := e];
    assert after[image] == e;
    if SomeDeletionFails(before, spec, clock, deletes) {
      var x :| x in before && EntryFails(spec, clock, deletes, x, before[x]);
      assert after[x] == before[x];
    }
  }

  lemma {:induction false} DelayExtends(
    before: Tracked, image: string, e: Entry, spec: CleanupSpec, clock: Clock, delay: int, n: nat)
    requires image !in before && n <= |e.mirrors|
    requires IsRequeueDelay(before, spec, clock, delay)
    ensures IsRequeueDelay(before[image := e.(mirrors := e.mirrors[..n])], spec, clock,
                           DelayWith(delay, spec, clock, image, e, n))
  {
    var after := before[image := e.(mirrors := e.mirrors[..n])];
    if n == 0 {
      SameDelay(before, after, spec, clock, delay);
    } else {
      DelayExtends(before, image, e, spec, clock, delay, n - 1);
      DelayStep(before, image, e, spec, clock, DelayWith(delay, spec, clock, image, e, n - 1), n - 1);
    }
  }

  lemma SameDelay(before: Tracked, after: Tracked, spec: CleanupSpec, clock: Clock, delay: int)
    requires IsRequeueDelay(before, spec, clock, delay)
    requires forall image, i: nat :: Waits(after, spec, clock, image, i) <==> Waits(before, spec, clock, image, i)
    requires forall image :: image in before ==> image in after && after[image] == before[image]
    ensures IsRequeueDelay(after, spec, clock, delay)
  {
    hide Remaining, Waiting;
    if delay > 0 {
      var w, i: nat :| Waits(before, spec, clock, w, i) && delay == Left(before, spec, clock, w, i);
      assert Waits(after, spec, clock, w, i) && Left(after, spec, clock, w, i) == delay;
    }
  }

  lemma DelayStep(before: Tracked, image: string, e: Entry, spec: CleanupSpec, clock: Clock, delay: int, n: nat)
    requires n < |e.mirrors|
    requires IsRequeueDelay(before[image := e.(mirrors := e.mirrors[..n])], spec, clock, delay)
    ensures var left := Remaining(spec, e.unused, clock(image, n));
            IsRequeueDelay(before[image := e.(mirrors := e.mirrors[..n + 1])], spec, clock,
                           if Waiting(spec, clock, image, e, n) && (delay == 0 || left < delay) then left else delay)
  {
    var start := before[image := e.(mirrors := e.mirrors[..n])];
    var after := before[image := e.(mirrors := e.mirrors[..n + 1])];
    forall x, i: nat
      ensures Waits(after, spec, clock, x, i) <==>
                Waits(start, spec, clock, x, i) || (x == image && i == n && Waiting(spec, clock, image, e, n))
    {
    }
    forall x | x in start ensures x in after && after[x].unused == start[x].unused {
    }
    var waiting := Waiting(spec, clock, image, e, n);
    var left := Remaining(spec, e.unused, clock(image, n));
    assert waiting ==> left > 0 && Waits(after, spec, clock, image, n) && Left(after, spec, clock, image, n) == left;
    hide Waits, Remaining, Waiting;
    if delay > 0 {
      var w, i: nat :| Waits(start, spec, clock, w, i) && delay == Left(start, spec, clock, w, i);
      assert Waits(after, spec, clock, w, i) && Left(after, spec, clock, w, i) == delay;
    }
  }

  ghost function MergeInto(
    tracked: Tracked, discovered: Tracked, inUse: set<string>, matches: string -> bool, now: int, image: string): Entry
    requires image in tracked || image in discovered
  {
    var expected := if image in discovered then discovered[image].mirrors else [];
    if image in tracked
    then Entry(Merged(tracked[image].mirrors, expected),
               Aged(tracked[image].unused, matches(image), image in inUse, now))
    else discovered[image]
  }

  lemma NothingListed()
    ensures Abstract([]) == map[]
  {
  }

  /** The list of a map in some order. */
  method ListOf(tracked: Tracked) returns (list: seq<MatchingImage>)
    ensures UniqueImages(list) && Abstract(list) == tracked
  {
    hide Abstract;
    list := [];
    NothingListed();
    var left := tracked.Keys;
    while left != {}
      invariant left <= tracked.Keys
      invariant UniqueImages(list)
      invariant Abstract(list).Keys == tracked.Keys - left
      invariant forall image :: image in Abstract(list) ==> Abstract(list)[image] == tracked[image]
      decreases left
    {
      var image :| image in left;
      left := left - {image};
      AbstractKeys(list, image);
      AbstractAppend(list, MatchingImage(image, tracked[image].mirrors, tracked[image].unused));
      list := list + [MatchingImage(image, tracked[image].mirrors, tracked[image].unused)];
    }
  }
}
