/** The finalizer of a mirror resource and the copies in the registries: the deletion branch of
    reconcile, cleanupMirror, and the protocol between the user, the controller, the webhook and
    the registries (internal/controller/kuik/mirror_reconciler.go). */
module MirrorLifecycle {
  import opened Prelude
  import opened Alternatives
  import opened Marks
  import opened Mirrors
  import opened MirrorStatus
  import MirrorRuns

  // ----- Deleting one image -----

  /** What the registry says when it is asked for an image before deleting it. */
  datatype Head = Absent | Present | HeadFails

  /** What a deletion meets: the declared mirrors and the namespace of their resource, which
      secrets can be read, the registry's answers, and which deletions took the image although the
      registry did not say so. */
  datatype Setting = Setting(
    mirrors: seq<Mirror>,
    namespace: string,
    readable: Credential -> bool,
    head: string -> Head,
    deleted: string -> bool,
    took: string -> bool)
  {
    /** A namespaced resource looks its secrets up in its own namespace. */
    function Secret(c: Credential): Credential {
      if namespace == "" then c else Credential(namespace, c.name)
    }

    /** Client.DeleteImage: an image that is absent already counts as deleted. */
    predicate Removes(image: string) {
      head(image) == Absent || (head(image) == Present && deleted(image))
    }

    /** A deletion that reports failure may have taken the image all the same. */
    predicate Drops(image: string) {
      Removes(image) || (head(image) == Present && took(image))
    }
  }

  /** A credential is resolved, and its secret can be read. */
  ghost predicate Reaches(s: Setting, image: string) {
    var credential := CredentialFor(s.mirrors, image);
    credential.Some? && s.readable(s.Secret(credential.value))
  }

  /** A credential is resolved and works: afterwards the image is not in the registry. */
  ghost predicate Gone(s: Setting, image: string) {
    Reaches(s, image) && s.Removes(image)
  }

  /** The deletion takes the image, whatever it reports. */
  ghost predicate Takes(s: Setting, image: string) {
    Reaches(s, image) && s.Drops(image)
  }

  /** Cleanup reports success: also when no credential is resolved and nothing is done. */
  ghost predicate Cleans(s: Setting, image: string) {
    CredentialFor(s.mirrors, image).None? || Gone(s, image)
  }

  method CleanupMirror(s: Setting, image: string) returns (success: bool)
    ensures success <==>
              || (forall i: nat :: !Covers(s.mirrors, i, image))
              || (exists i: nat :: IsLongest(s.mirrors, i, image) && s.mirrors[i].credential.None?)
              || (exists i: nat :: IsLongest(s.mirrors, i, image) && s.mirrors[i].credential.Some?
                    && (var c := s.mirrors[i].credential.value;
                        s.readable(Credential(if s.namespace == "" then c.namespace else s.namespace, c.name)))
                    && (s.head(image) == Absent || (s.head(image) == Present && s.deleted(image))))
    ensures success <==> Cleans(s, image)
  {
    CleansIff(s, image);
    var credential := GetCredentialSecretForImage(s.mirrors, image);
    if credential.None? {
      return true;
    }
    if !s.readable(s.Secret(credential.value)) {
      return false;
    }
    match s.head(image) {
      case Absent => return true;
      case HeadFails => return false;
      case Present => return s.deleted(image);
    }
  }

  lemma CleansIff(s: Setting, image: string)
    ensures Cleans(s, image) <==>
              || (forall i: nat :: !Covers(s.mirrors, i, image))
              || (exists i: nat :: IsLongest(s.mirrors, i, image) && s.mirrors[i].credential.None?)
              || (exists i: nat :: IsLongest(s.mirrors, i, image) && s.mirrors[i].credential.Some?
                    && s.readable(s.Secret(s.mirrors[i].credential.value)) && s.Removes(image))
  {
    NoCredentialIff(s.mirrors, image);
    if k: nat :| Covers(s.mirrors, k, image) {
      var i := LongestExists(s.mirrors, image, k);
      CredentialOfLongest(s.mirrors, i, image);
      forall j: nat | IsLongest(s.mirrors, j, image) ensures j == i {
        LongestIsUnique(s.mirrors, i, j, image);
      }
    }
  }

  // ----- The deletion branch -----

  /** The destinations recorded as mirrored among the first n mirrors of a list. */
  function Targets(mirrors: seq<MirrorEntry>, n: nat): seq<string>
    requires n <= |mirrors|
  {
    if n == 0 then []
    else Targets(mirrors, n - 1) + if mirrors[n - 1].mirroredAt.Some? then [mirrors[n - 1].image] else []
  }

  function TargetsIn(list: seq<MatchingImage>, n: nat): seq<string>
    requires n <= |list|
  {
    if n == 0 then []
    else TargetsIn(list, n - 1) + Targets(list[n - 1].mirrors, |list[n - 1].mirrors|)
  }

  ghost predicate AllClean(targets: seq<string>, s: Setting) {
    forall t :: 0 <= t < |targets| ==> Cleans(s, targets[t])
  }

  /** Tried in order: all of them with success, or up to and including the first failure. */
  ghost predicate UpToFailure(tried: seq<string>, targets: seq<string>, s: Setting, ok: bool) {
    && tried <= targets
    && (ok ==> tried == targets && AllClean(tried, s))
    && (!ok ==> tried != [] && AllClean(tried[..|tried| - 1], s) && !Cleans(s, tried[|tried| - 1]))
  }

  /** The inner loop over the mirrors of one image. */
  method CleanupImage(mirrors: seq<MirrorEntry>, s: Setting) returns (ok: bool, tried: seq<string>)
    ensures UpToFailure(tried, Targets(mirrors, |mirrors|), s, ok)
  {
    hide Cleans, Covers, IsLongest, Reaches;
    tried := [];
    for i := 0 to |mirrors|
      invariant tried == Targets(mirrors, i) && AllClean(tried, s)
    {
      if mirrors[i].mirroredAt.None? {
        continue;
      }
      ghost var done := tried;
      tried := tried + [mirrors[i].image];
      var success := CleanupMirror(s, mirrors[i].image);
      if !success {
        assert tried == Targets(mirrors, i + 1) && tried[..|tried| - 1] == done;
        TargetsGrow(mirrors, i + 1, |mirrors|);
        return false, tried;
      }
    }
    return true, tried;
  }

  /** The deletion branch: every recorded mirror in turn, up to the first failure. */
  method CleanupAll(list: seq<MatchingImage>, s: Setting) returns (ok: bool, tried: seq<string>)
    requires UniqueImages(list)
    ensures ok <==> AllCleaned(Abstract(list), s)
    ensures UpToFailure(tried, TargetsIn(list, |list|), s, ok)
  {
    hide Cleans, AllCleaned, AllClean;
    tried := [];
    TargetsAreStatus(list, s);
    assert AllClean([], s) by {
      NothingToClean(s);
    }
    for n := 0 to |list|
      invariant tried == TargetsIn(list, n) && AllClean(tried, s)
    {
      var success, here := CleanupImage(list[n].mirrors, s);
      ghost var before := tried;
      ghost var targets := Targets(list[n].mirrors, |list[n].mirrors|);
      tried := tried + here;
      if !success {
        TargetsInGrow(list, n + 1, |list|);
        FailureStops(before, here, targets, TargetsIn(list, |list|), s);
        return false, tried;
      }
      BothClean(before, here, s);
    }
    return true, tried;
  }

  lemma NothingToClean(s: Setting)
    ensures AllClean([], s)
  {
  }

  lemma BothClean(a: seq<string>, b: seq<string>, s: Setting)
    ensures AllClean(a + b, s) <==> AllClean(a, s) && AllClean(b, s)
  {
    hide Cleans;
    if AllClean(a + b, s) {
      assert forall t :: 0 <= t < |a| ==> (a + b)[t] == a[t];
      assert forall t :: 0 <= t < |b| ==> (a + b)[|a| + t] == b[t];
    }
  }

  lemma FailureStops(before: seq<string>, here: seq<string>, targets: seq<string>, all: seq<string>, s: Setting)
    requires AllClean(before, s) && UpToFailure(here, targets, s, false)
    requires before + targets <= all
    ensures UpToFailure(before + here, all, s, false) && !AllClean(all, s)
  {
    hide Cleans;
    var tried := before + here;
    var t := |tried| - 1;
    assert tried[t] == here[|here| - 1] && all[t] == tried[t];
    assert tried[..t] == before + here[..|here| - 1];
  }

  lemma {:induction false} TargetsGrow(mirrors: seq<MirrorEntry>, m: nat, n: nat)
    requires m <= n <= |mirrors|
    ensures Targets(mirrors, m) <= Targets(mirrors, n)
  {
    if m < n {
      TargetsGrow(mirrors, m, n - 1);
    }
  }

  lemma {:induction false} TargetsInGrow(list: seq<MatchingImage>, m: nat, n: nat)
    requires m <= n <= |list|
    ensures TargetsIn(list, m) <= TargetsIn(list, n)
  {
    if m < n {
      TargetsInGrow(list, m, n - 1);
    }
  }

  lemma {:induction false} TargetsMembers(mirrors: seq<MirrorEntry>, n: nat, d: string)
    requires n <= |mirrors|
    ensures d in Targets(mirrors, n) <==> exists i :: RecordedAt(mirrors, n, i, d)
  {
    if n > 0 {
      var before := n - 1;
      TargetsMembers(mirrors, before, d);
      if i :| RecordedAt(mirrors, before, i, d) {
        assert RecordedAt(mirrors, n, i, d);
      }
      if i :| RecordedAt(mirrors, n, i, d) {
        assert i == before || RecordedAt(mirrors, before, i, d);
      }
      assert RecordedAt(mirrors, n, n - 1, d) <==> mirrors[n - 1].mirroredAt.Some? && mirrors[n - 1].image == d;
    }
  }

  ghost predicate RecordedAt(mirrors: seq<MirrorEntry>, n: nat, i: int, d: string)
    requires n <= |mirrors|
  {
    0 <= i < n && mirrors[i].mirroredAt.Some? && mirrors[i].image == d
  }

  lemma {:induction false} TargetsInMembers(list: seq<MatchingImage>, n: nat, d: string)
    requires n <= |list|
    ensures d in TargetsIn(list, n) <==>
              exists k: nat :: k < n && d in Targets(list[k].mirrors, |list[k].mirrors|)
  {
    if n > 0 {
      TargetsInMembers(list, n - 1, d);
    }
  }

  /** The targets of the loop are exactly what the status records as mirrored. */
  lemma TargetsAreStatus(list: seq<MatchingImage>, s: Setting)
    requires UniqueImages(list)
    ensures AllClean(TargetsIn(list, |list|), s) <==> AllCleaned(Abstract(list), s)
  {
    hide Cleans;
    var targets, status := TargetsIn(list, |list|), Abstract(list);
    forall d ensures d in targets <==> MirrorRuns.Records(status, d) {
      TargetIsRecorded(list, d);
    }
    if AllClean(targets, s) {
      forall image, i: nat | RecordsMirror(status, image, i) ensures Cleans(s, status[image].mirrors[i].image) {
        assert status[image].mirrors[i].image in targets;
      }
    }
    if AllCleaned(status, s) {
      forall t | 0 <= t < |targets| ensures Cleans(s, targets[t]) {
        assert targets[t] in targets;
      }
    }
  }

  lemma TargetIsRecorded(list: seq<MatchingImage>, d: string)
    requires UniqueImages(list)
    ensures d in TargetsIn(list, |list|) <==> MirrorRuns.Records(Abstract(list), d)
  {
    hide Abstract, Targets, TargetsIn;
    var status := Abstract(list);
    TargetsInMembers(list, |list|, d);
    forall k: nat | k < |list|
      ensures d in Targets(list[k].mirrors, |list[k].mirrors|) <==> RecordsUnder(status, list[k].image, d)
    {
      TargetsMembers(list[k].mirrors, |list[k].mirrors|, d);
      AbstractAt(list, k);
      RecordedUnder(status, list[k].image, list[k].mirrors, d);
    }
    if image, i: nat :| RecordsMirror(status, image, i) && status[image].mirrors[i].image == d {
      AbstractKeys(list, image);
      var k :| 0 <= k < |list| && list[k].image == image;
      assert RecordsUnder(status, image, d);
    }
  }

  ghost predicate RecordsUnder(status: Tracked, image: string, d: string) {
    exists i: nat :: RecordsMirror(status, image, i) && status[image].mirrors[i].image == d
  }

  lemma RecordedUnder(status: Tracked, image: string, mirrors: seq<MirrorEntry>, d: string)
    requires image in status && status[image].mirrors == mirrors
    ensures RecordsUnder(status, image, d) <==> exists i :: RecordedAt(mirrors, |mirrors|, i, d)
  {
    if i :| RecordedAt(mirrors, |mirrors|, i, d) {
      assert RecordsMirror(status, image, i);
    }
    if i: nat :| RecordsMirror(status, image, i) && status[image].mirrors[i].image == d {
      assert RecordedAt(mirrors, |mirrors|, i, d);
    }
  }

  /** Cleanup reports success for every recorded mirror. */
  ghost predicate AllCleaned(status: Tracked, s: Setting) {
    forall image, i: nat :: RecordsMirror(status, image, i) ==> Cleans(s, status[image].mirrors[i].image)
  }

  // ----- The protocol -----

  /** What the text of a destination names: a tag of a repository. */
  datatype Place = Place(repository: string, tag: string)

  /** The content of a tag, and the image it was copied from. */
  datatype Content = Content(digest: string, image: string)

  /** What the registries hold. */
  type Remote = map<Place, Content>

  /** A mirror of a resource: an image and the number of its mirror. */
  type Target = (string, nat)

  /** A mirror resource as the API server has it. */
  datatype Object = Object(deleting: bool, finalizer: bool, status: Tracked)

  /** Where the one worker of a resource is in reconcile, with what only its memory has. While
      cleaning or finalizing: the mirrors recorded when it began, and those whose deletion it saw
      succeed. While mirroring: the mirrors it copied, or found at their destination. */
  datatype Worker =
    | Idle
    | Reading
    | Tracking
    | Cleaning(spec: CleanupSpec, clock: Clock, todo: set<Target>, cleaned: set<Target>)
    | Mirroring(held: set<Target>)
    | Finalizing(todo: set<Target>, cleaned: set<Target>)

  /** resource is None while the API server has none of this name. */
  datatype Site = Site(resource: Option<Object>, worker: Worker)

  /** All mirror resources, the registries, and the places that a deletion took and nothing was
      copied to since. */
  datatype World = World(place: string -> Place, sites: map<string, Site>, remote: Remote, gone: set<Place>)

  /** CopyImage is a copy that has an effect: one that is not ok wrote the tag and then failed. A
      reconcile that gives up, after a failed deletion or for any other reason, is followed by Abort. */
  datatype Action =
    | Create
    | UserDeletes
    | Start
    | AddFinalizer
    | WriteMerge(current: set<string>, inUse: set<string>, matches: string -> bool, mirrors: seq<Mirror>, now: int,
                 spec: CleanupSpec, clock: Clock)
    | DeleteMirror(image: string, index: nat, setting: Setting)
    | WriteCleanup
    | CopyImage(image: string, index: nat, digest: string, ok: bool)
    | FindImage(image: string, index: nat)
    | WriteCopies(copies: Copies)
    | Abort
    | StartFinalizing
    | RemoveFinalizer
    | Forget(image: string, index: nat)

  /** Something the user, the controller or the webhook does with one resource. */
  datatype Event = Event(key: string, action: Action)

  ghost function Status(site: Site): Tracked {
    if site.resource.Some? then site.resource.value.status else map[]
  }

  ghost function WithStatus(site: Site, status: Tracked): Option<Object>
    requires site.resource.Some?
  {
    Some(site.resource.value.(status := status))
  }

  ghost predicate NothingRecorded(status: Tracked) {
    forall image, i: nat :: !RecordsMirror(status, image, i)
  }

  ghost function RecordedTargets(status: Tracked): set<Target> {
    set image, i: nat | image in status && 0 <= i < |status[image].mirrors| && RecordsMirror(status, image, i) ::
      (image, i)
  }

  ghost predicate Lists(status: Tracked, image: string, i: nat) {
    image in status && i < |status[image].mirrors|
  }

  function DestinationAt(status: Tracked, t: Target): string {
    if t.0 in status && t.1 < |status[t.0].mirrors| then status[t.0].mirrors[t.1].image else ""
  }

  /** The place of the mirror that the action is about. */
  ghost function PlaceAt(w: World, key: string, image: string, i: nat): Place
    requires key in w.sites
  {
    w.place(DestinationAt(Status(w.sites[key]), (image, i)))
  }

  /** The registry is right about what it has when it answers. */
  ghost predicate Truthful(s: Setting, place: string -> Place, remote: Remote) {
    && (forall d :: s.head(d) == Absent ==> place(d) !in remote)
    && (forall d :: s.head(d) == Present ==> place(d) in remote)
  }

  /** A deletion goes by digest: it takes every tag of the repository with this digest. */
  function Taken(remote: Remote, p: Place): set<Place> {
    set q | q in remote && p in remote && q.repository == p.repository && remote[q].digest == remote[p].digest
  }

  /** The places that the step takes. */
  ghost function Removed(w: World, e: Event): set<Place> {
    if e.key in w.sites && e.action.DeleteMirror? then RemovedBy(w, e) else {}
  }

  ghost function RemovedBy(w: World, e: Event): set<Place>
    requires e.key in w.sites && e.action.DeleteMirror?
  {
    if Takes(e.action.setting, DestinationAt(Status(w.sites[e.key]), (e.action.image, e.action.index)))
    then Taken(w.remote, PlaceAt(w, e.key, e.action.image, e.action.index))
    else {}
  }

  /** The step copies an image to this place. */
  ghost predicate CopiesTo(w: World, e: Event, p: Place) {
    e.key in w.sites && e.action.CopyImage? && p == PlaceAt(w, e.key, e.action.image, e.action.index)
  }

  /** The worker is deleting, and this mirror is among those that go: it is overdue as the cleanup
      comes to it, or the whole resource goes. */
  ghost predicate IsDue(site: Site, image: string, i: nat) {
    match site.worker
    case Cleaning(spec, clock, _, _) =>
      image in Status(site) && Overdue(spec, Status(site)[image].unused, clock(image, i))
    case Finalizing(_, _) => true
    case _ => false
  }

  /** What the cleanup drops: overdue mirrors whose deletion the worker saw succeed. */
  ghost function Seen(worker: Worker): Deletions
    requires worker.Cleaning?
  {
    (image, i) => (image, i) in worker.cleaned
  }

  /** A mirror of a used image that is not recorded yet. */
  ghost predicate IsMissing(status: Tracked, image: string, i: nat) {
    Lists(status, image, i) && status[image].unused == InUse && status[image].mirrors[i].mirroredAt.None?
  }

  /** The step records this mirror, which was missing. */
  ghost predicate NowRecords(status: Tracked, copies: Copies, image: string, i: nat) {
    IsMissing(status, image, i) && copies(image, i).Copied?
  }

  ghost predicate RecordsOnlyHeld(status: Tracked, copies: Copies, held: set<Target>) {
    forall image, i: nat :: NowRecords(status, copies, image, i) ==> (image, i) in held
  }

  ghost predicate Enabled(w: World, e: Event)
    requires e.key in w.sites
  {
    var site := w.sites[e.key];
    var status := Status(site);
    match e.action
    case Create => site.resource.None?
    case UserDeletes => site.resource.Some?
    case Start => site.worker == Idle && site.resource.Some? && !site.resource.value.deleting
    case AddFinalizer => site.worker == Reading
    case WriteMerge(current, _, _, _, _, _, _) =>
      site.worker == Tracking && site.resource.Some? && AllHaveRegistry(current)
    case DeleteMirror(image, i, s) =>
      && site.resource.Some? && Truthful(s, w.place, w.remote)
      && IsDue(site, image, i) && (image, i) in site.worker.todo
    case WriteCleanup => site.worker.Cleaning? && site.resource.Some?
    case CopyImage(image, i, _, _) => site.worker.Mirroring? && site.resource.Some? && IsMissing(status, image, i)
    case FindImage(image, i) =>
      && site.worker.Mirroring? && site.resource.Some? && IsMissing(status, image, i)
      && PlaceAt(w, e.key, image, i) in w.remote
    case WriteCopies(copies) =>
      site.worker.Mirroring? && site.resource.Some? && RecordsOnlyHeld(status, copies, site.worker.held)
    case Abort => true
    case StartFinalizing =>
      site.worker == Idle && site.resource.Some? && site.resource.value.deleting && site.resource.value.finalizer
    case RemoveFinalizer => site.worker.Finalizing? && site.resource.Some? && site.worker.todo <= site.worker.cleaned
    case Forget(_, _) => site.resource.Some?
  }

  ghost function SiteAfter(w: World, e: Event): Site
    requires e.key in w.sites && Enabled(w, e)
  {
    var site := w.sites[e.key];
    var status := Status(site);
    match e.action
    case Create => site.(resource := Some(Object(false, false, map[])))
    case UserDeletes =>
      site.(resource := if site.resource.value.finalizer then Some(site.resource.value.(deleting := true)) else None)
    case Start => site.(worker := Reading)
    case AddFinalizer =>
      // an object that is gone, or deleting without a finalizer, does not accept the update
      if site.resource.None? || (site.resource.value.deleting && !site.resource.value.finalizer)
      then site.(worker := Idle)
      else Site(Some(site.resource.value.(finalizer := true)), Tracking)
    case WriteMerge(current, inUse, matches, mirrors, now, spec, clock) =>
      var merged := Merge(status, current, inUse, matches, mirrors, now);
      Site(WithStatus(site, merged), Cleaning(spec, clock, RecordedTargets(merged), {}))
    case DeleteMirror(image, i, s) =>
      if Cleans(s, DestinationAt(status, (image, i)))
      then site.(worker := site.worker.(cleaned := site.worker.cleaned + {(image, i)}))
      else site
    case WriteCleanup =>
      Site(WithStatus(site, Cleanup(status, site.worker.spec, site.worker.clock, Seen(site.worker))), Mirroring({}))
    case CopyImage(image, i, _, ok) =>
      if ok then site.(worker := Mirroring(site.worker.held + {(image, i)})) else site
    case FindImage(image, i) => site.(worker := Mirroring(site.worker.held + {(image, i)}))
    case WriteCopies(copies) => site.(resource := WithStatus(site, CopyAll(status, copies)))
    case Abort => site.(worker := Idle)
    case StartFinalizing => site.(worker := Finalizing(RecordedTargets(status), {}))
    case RemoveFinalizer => Site(None, Idle)
    case Forget(image, i) => site.(resource := WithStatus(site, Forgotten(status, image, i)))
  }

  ghost function RemoteAfter(w: World, e: Event): Remote
    requires e.key in w.sites
  {
    if e.action.CopyImage?
    then w.remote[PlaceAt(w, e.key, e.action.image, e.action.index) := Content(e.action.digest, e.action.image)]
    else w.remote - Removed(w, e)
  }

  ghost function GoneAfter(w: World, e: Event): set<Place>
    requires e.key in w.sites
  {
    if e.action.CopyImage?
    then w.gone - {PlaceAt(w, e.key, e.action.image, e.action.index)}
    else w.gone + Removed(w, e)
  }

  ghost predicate Step(w: World, e: Event, w': World) {
    && e.key in w.sites && Enabled(w, e)
    && w' == World(w.place, w.sites[e.key := SiteAfter(w, e)], RemoteAfter(w, e), GoneAfter(w, e))
  }

  /** Resources that do not exist yet or were just created, over registries with any content. */
  ghost predicate Fresh(w: World) {
    && w.gone == {}
    && forall key :: key in w.sites ==>
         w.sites[key].worker == Idle && (w.sites[key].resource.Some? ==>
           w.sites[key].resource == Some(Object(false, false, map[])))
  }

  /** Any steps of anyone. */
  ghost predicate Steps(worlds: seq<World>, events: seq<Event>) {
    |worlds| == |events| + 1 && forall k :: 0 <= k < |events| ==> StepAt(worlds, events, k)
  }

  ghost predicate StepAt(worlds: seq<World>, events: seq<Event>, k: nat)
    requires k < |events| && |worlds| == |events| + 1
  {
    Step(worlds[k], events[k], worlds[k + 1])
  }

  ghost predicate Run(worlds: seq<World>, events: seq<Event>) {
    Steps(worlds, events) && Fresh(worlds[0])
  }

  /** What a step does to the registries, place by place. */
  lemma PresenceStep(w: World, e: Event, w': World, p: Place)
    requires Step(w, e, w')
    ensures w'.place == w.place
    ensures p in w'.remote <==> CopiesTo(w, e, p) || (p in w.remote && p !in Removed(w, e))
    ensures p in w'.gone <==> p in Removed(w, e) || (p in w.gone && !CopiesTo(w, e, p))
    ensures CopiesTo(w, e, p) ==> p !in Removed(w, e)
    ensures p in Removed(w, e) ==> p in w.remote
  {
    hide Enabled, SiteAfter;
  }

  /** What a step takes from the registries: only a deletion takes anything, and only when a
      credential is resolved, its secret can be read, and the registry has the image and deletes it,
      whether it says so or not. Then every tag of the repository that has the digest goes. */
  lemma DeletionTakesIff(w: World, e: Event, w': World, q: Place)
    requires Step(w, e, w')
    ensures q in w.remote && q !in w'.remote <==>
              && e.action.DeleteMirror?
              && (var s, d := e.action.setting, DestinationAt(Status(w.sites[e.key]), (e.action.image, e.action.index));
                  var c := CredentialFor(s.mirrors, d);
                  && c.Some?
                  && s.readable(Credential(if s.namespace == "" then c.value.namespace else s.namespace, c.value.name))
                  && s.head(d) == Present && (s.deleted(d) || s.took(d))
                  && q in w.remote && w.place(d) in w.remote
                  && q.repository == w.place(d).repository && w.remote[q].digest == w.remote[w.place(d)].digest)
  {
    hide SiteAfter, CredentialFor, IsDue;
    PresenceStep(w, e, w', q);
  }

  /** A reconcile goes through its phases in order. It starts only when none is under way: with the
      deletion branch exactly when the resource is being deleted and has our finalizer. */
  lemma PhasesAreInOrder(w: World, e: Event, w': World)
    requires Step(w, e, w')
    ensures forall key :: key in w.sites && key != e.key ==> w'.sites[key] == w.sites[key]
    ensures var before, after := w.sites[e.key], w'.sites[e.key];
            && (after.worker.Reading? && !before.worker.Reading? ==>
                  before.worker.Idle? && before.resource.Some? && !before.resource.value.deleting)
            && (after.worker.Tracking? && !before.worker.Tracking? ==>
                  before.worker.Reading? && after.resource.Some? && after.resource.value.finalizer)
            && (after.worker.Cleaning? && !before.worker.Cleaning? ==> before.worker.Tracking?)
            && (after.worker.Mirroring? && !before.worker.Mirroring? ==> before.worker.Cleaning?)
            && (after.worker.Finalizing? && !before.worker.Finalizing? ==>
                  && before.worker.Idle? && before.resource.Some?
                  && before.resource.value.deleting && before.resource.value.finalizer)
  {
    hide Truthful, Cleans, Merge, Cleanup, CopyAll, RecordedTargets, RecordsOnlyHeld;
  }

  // ----- The finalizer -----

  /** The worker is past the finalizer. */
  ghost predicate IsPastFinalizer(worker: Worker) {
    worker.Tracking? || worker.Cleaning? || worker.Mirroring? || worker.Finalizing?
  }

  /** The finalizer is there whenever something is recorded or could be recorded next. A
      finalization is of a resource being deleted, and what is recorded now was recorded when
      it began. */
  ghost predicate Guarded(site: Site) {
    && (IsPastFinalizer(site.worker) || !NothingRecorded(Status(site)) ==>
          site.resource.Some? && site.resource.value.finalizer)
    && (site.worker.Finalizing? ==>
          site.resource.Some? && site.resource.value.deleting && RecordedTargets(Status(site)) <= site.worker.todo)
  }

  lemma StepKeepsGuard(w: World, e: Event)
    requires e.key in w.sites && Enabled(w, e) && Guarded(w.sites[e.key])
    ensures Guarded(SiteAfter(w, e))
  {
    hide RecordsOnlyHeld, Truthful, Merge, CopyAll, Cleans, Overdue;
    match e.action {
      case Forget(image, i) =>
        var status := Status(w.sites[e.key]);
        assert forall x, k: nat :: RecordsMirror(Forgotten(status, image, i), x, k) ==> RecordsMirror(status, x, k);
      case _ =>
    }
  }

  /** In every reachable state the finalizer of each resource with a recorded mirror is present. */
  lemma {:induction false} FinalizerGuardsRecords(worlds: seq<World>, events: seq<Event>, k: nat, key: string)
    requires Run(worlds, events) && k <= |events| && key in worlds[k].sites
    ensures Guarded(worlds[k].sites[key])
  {
    hide Enabled, SiteAfter, Guarded;
    if k > 0 {
      assert StepAt(worlds, events, k - 1);
      FinalizerGuardsRecords(worlds, events, k - 1, key);
      if key == events[k - 1].key {
        StepKeepsGuard(worlds[k - 1], events[k - 1]);
      }
    } else {
      FirstIsGuarded(worlds[0], key);
    }
  }

  lemma FirstIsGuarded(w: World, key: string)
    requires Fresh(w) && key in w.sites
    ensures Guarded(w.sites[key])
  {
  }

  // ----- Finalization -----

  ghost predicate FinalizingIn(worlds: seq<World>, j: nat, k: nat, key: string)
    requires k < |worlds|
  {
    forall m :: j <= m <= k ==> key in worlds[m].sites && worlds[m].sites[key].worker.Finalizing?
  }

  /** Step j cleaned up this mirror with success, in the finalization that is still under way at k. */
  ghost predicate CleanedAt(
    worlds: seq<World>, events: seq<Event>, j: nat, k: nat, key: string, t: Target, d: string)
    requires |worlds| == |events| + 1 && k <= |events|
  {
    j < k && FinalizingIn(worlds, j, k, key) && CleansTarget(worlds[j], events[j], key, t, d)
  }

  ghost predicate CleansTarget(w: World, e: Event, key: string, t: Target, d: string) {
    && e.key == key && e.action.DeleteMirror? && (e.action.image, e.action.index) == t
    && key in w.sites && DestinationAt(Status(w.sites[key]), t) == d && Cleans(e.action.setting, d)
  }

  ghost predicate WasCleaned(worlds: seq<World>, events: seq<Event>, k: nat, key: string, t: Target, d: string)
    requires |worlds| == |events| + 1 && k <= |events|
  {
    exists j: nat :: CleanedAt(worlds, events, j, k, key, t, d)
  }

  /** A finalization goes on: the destinations stay, and a mirror counts as cleaned when it did
      before or the step cleaned it. */
  lemma FinalizingStep(w: World, e: Event, w': World, key: string, t: Target)
    requires Step(w, e, w') && key in w.sites && w'.sites[key].worker.Finalizing? && t in w'.sites[key].worker.cleaned
    requires Guarded(w.sites[key])
    ensures w.sites[key].worker.Finalizing?
    ensures DestinationAt(Status(w'.sites[key]), t) == DestinationAt(Status(w.sites[key]), t)
    ensures t in w.sites[key].worker.cleaned || CleansTarget(w, e, key, t, DestinationAt(Status(w.sites[key]), t))
  {
    hide Cleans, Truthful, RemoteAfter, GoneAfter, Merge, CopyAll, Cleanup;
    hide RecordedTargets, NothingRecorded, RecordsOnlyHeld;
  }

  lemma {:induction false} CleanedWasDeleted(
    worlds: seq<World>, events: seq<Event>, k: nat, key: string, t: Target)
    requires Run(worlds, events) && k <= |events| && key in worlds[k].sites
    requires worlds[k].sites[key].worker.Finalizing? && t in worlds[k].sites[key].worker.cleaned
    ensures WasCleaned(worlds, events, k, key, t, DestinationAt(Status(worlds[k].sites[key]), t))
  {
    hide Enabled, SiteAfter, RemoteAfter, GoneAfter, Guarded, CleansTarget;
    if k > 0 {
      var last := k - 1;
      assert StepAt(worlds, events, last);
      FinalizerGuardsRecords(worlds, events, last, key);
      FinalizingStep(worlds[last], events[last], worlds[k], key, t);
      var d := DestinationAt(Status(worlds[k].sites[key]), t);
      if t in worlds[last].sites[key].worker.cleaned {
        CleanedWasDeleted(worlds, events, last, key, t);
        var j: nat :| CleanedAt(worlds, events, j, last, key, t, d);
        assert CleanedAt(worlds, events, j, k, key, t, d);
      } else {
        assert CleanedAt(worlds, events, last, k, key, t, d);
      }
    }
  }

  /** A resource disappears only when it records nothing, or at the end of a reconcile that cleaned
      up every recorded mirror with success. */
  lemma DisappearsOnlyClean(worlds: seq<World>, events: seq<Event>, k: nat, key: string)
    requires Run(worlds, events) && k < |events| && key in worlds[k].sites && key in worlds[k + 1].sites
    requires worlds[k].sites[key].resource.Some? && worlds[k + 1].sites[key].resource.None?
    ensures var status := Status(worlds[k].sites[key]);
            || NothingRecorded(status)
            || (events[k].action.RemoveFinalizer?
                && forall image, i: nat :: RecordsMirror(status, image, i) ==>
                     WasCleaned(worlds, events, k, key, (image, i), status[image].mirrors[i].image))
  {
    hide WasCleaned;
    FinalizerGuardsRecords(worlds, events, k, key);
    assert StepAt(worlds, events, k);
    var site := worlds[k].sites[key];
    if events[k].action.RemoveFinalizer? {
      forall image, i: nat | RecordsMirror(Status(site), image, i)
        ensures WasCleaned(worlds, events, k, key, (image, i), Status(site)[image].mirrors[i].image)
      {
        assert (image, i) in RecordedTargets(Status(site));
        CleanedWasDeleted(worlds, events, k, key, (image, i));
      }
    }
  }

  /** No declared mirror covers the image, or the one with the longest prefix has no credential. */
  ghost predicate Uncovered(mirrors: seq<Mirror>, image: string) {
    || (forall i: nat :: !Covers(mirrors, i, image))
    || (exists i: nat :: IsLongest(mirrors, i, image) && mirrors[i].credential.None?)
  }

  lemma UncoveredIff(mirrors: seq<Mirror>, d: string)
    ensures Uncovered(mirrors, d) <==> CredentialFor(mirrors, d).None?
  {
    NoCredentialIff(mirrors, d);
  }

  ghost predicate NotRemoved(worlds: seq<World>, events: seq<Event>, j: nat, k: nat, p: Place)
    requires |worlds| == |events| + 1 && k <= |events|
  {
    forall m: nat :: j < m < k ==> p !in Removed(worlds[m], events[m])
  }

  /** Somebody copied to the place after step j, and no deletion took it since. */
  ghost predicate CopiedAfter(worlds: seq<World>, events: seq<Event>, j: nat, k: nat, p: Place)
    requires |worlds| == |events| + 1 && k <= |events|
  {
    exists m: nat :: j < m < k && CopiesTo(worlds[m], events[m], p) && NotRemoved(worlds, events, m, k, p)
  }

  lemma {:induction false} BackIffCopied(worlds: seq<World>, events: seq<Event>, j: nat, k: nat, p: Place)
    requires Steps(worlds, events) && j < k <= |events| && p !in worlds[j + 1].remote
    ensures p in worlds[k].remote <==> CopiedAfter(worlds, events, j, k, p)
  {
    hide Step, Removed, CopiesTo;
    if k > j + 1 {
      var last := k - 1;
      BackIffCopied(worlds, events, j, last, p);
      assert StepAt(worlds, events, last);
      PresenceStep(worlds[last], events[last], worlds[k], p);
      if CopiesTo(worlds[last], events[last], p) {
        assert NotRemoved(worlds, events, last, k, p);
      }
      if m: nat :| j < m < last && CopiesTo(worlds[m], events[m], p) && NotRemoved(worlds, events, m, last, p) {
        assert p !in Removed(worlds[last], events[last]) ==> NotRemoved(worlds, events, m, k, p);
      }
      if m: nat :| j < m < k && CopiesTo(worlds[m], events[m], p) && NotRemoved(worlds, events, m, k, p) {
        assert m < last ==> NotRemoved(worlds, events, m, last, p);
      }
    }
  }

  /** A cleanup that reports success and resolves a credential leaves nothing at the place. */
  lemma CleanedIsAbsent(w: World, e: Event, w': World, key: string, t: Target, d: string)
    requires Step(w, e, w') && CleansTarget(w, e, key, t, d) && !Uncovered(e.action.setting.mirrors, d)
    ensures w.place(d) !in w'.remote
  {
    NoCredentialIff(e.action.setting.mirrors, d);
    hide SiteAfter, IsDue, Uncovered, CredentialFor;
    PresenceStep(w, e, w', w.place(d));
  }

  /** What a resource that disappears leaves behind, exactly. A recorded copy for which its cleanup
      resolved a credential is there afterwards when somebody copied to its tag again after that
      cleanup, and no deletion took it since; another one, when no deletion took it since the
      last copy to its tag. */
  lemma LeftBehindIff(
    worlds: seq<World>, events: seq<Event>, k: nat, key: string, image: string, i: nat, j: nat)
    requires Run(worlds, events) && k < |events| && events[k] == Event(key, RemoveFinalizer)
    requires key in worlds[k].sites && RecordsMirror(Status(worlds[k].sites[key]), image, i)
    requires var d := Status(worlds[k].sites[key])[image].mirrors[i].image;
             CleanedAt(worlds, events, j, k, key, (image, i), d)
    ensures var d := Status(worlds[k].sites[key])[image].mirrors[i].image;
            var p := worlds[k].place(d);
            p in worlds[k + 1].remote <==>
            if Uncovered(events[j].action.setting.mirrors, d)
            then !TakenSince(worlds, events, k, p)
            else CopiedAfter(worlds, events, j, k, p)
  {
    hide Step, Uncovered, TakenSince, CopiedAfter;
    var status := Status(worlds[k].sites[key]);
    var d := status[image].mirrors[i].image;
    assert StepAt(worlds, events, k) && StepAt(worlds, events, j);
    SamePlaces(worlds, events, j, k);
    PresenceStep(worlds[k], events[k], worlds[k + 1], worlds[k].place(d));
    if Uncovered(events[j].action.setting.mirrors, d) {
      assert MirrorRuns.RecordsFor(status, image, d);
      RecordedIsPresentIff(worlds, events, k, key, image, d);
    } else {
      CleanedIsAbsent(worlds[j], events[j], worlds[j + 1], key, (image, i), d);
      BackIffCopied(worlds, events, j, k, worlds[k].place(d));
    }
  }

  lemma {:induction false} SamePlaces(worlds: seq<World>, events: seq<Event>, j: nat, k: nat)
    requires Steps(worlds, events) && j <= k <= |events|
    ensures worlds[k].place == worlds[j].place
  {
    hide Enabled, SiteAfter, RemoteAfter, GoneAfter;
    if j < k {
      SamePlaces(worlds, events, j, k - 1);
      assert StepAt(worlds, events, k - 1);
    }
  }

  /** A finalization, however far it gets, changes no resource. It takes from the registries only
      copies with the repository and digest of a copy that its resource recorded. */
  lemma FinalizingIsHarmless(w: World, e: Event, w': World)
    requires Step(w, e, w') && w.sites[e.key].worker.Finalizing? && (e.action.DeleteMirror? || e.action.Abort?)
    ensures w'.sites.Keys == w.sites.Keys
    ensures forall key :: key in w.sites ==> w'.sites[key].resource == w.sites[key].resource
    ensures forall q :: q in w'.remote ==> q in w.remote && w'.remote[q] == w.remote[q]
    ensures forall q :: q in w.remote && q !in w'.remote ==>
              exists t :: t in w.sites[e.key].worker.todo && q in Taken(w.remote, PlaceAt(w, e.key, t.0, t.1))
  {
    hide Taken, Takes, Cleans, Truthful;
    forall q | q in w.remote && q !in w'.remote
      ensures exists t :: t in w.sites[e.key].worker.todo && q in Taken(w.remote, PlaceAt(w, e.key, t.0, t.1))
    {
      var t := (e.action.image, e.action.index);
      assert q in Taken(w.remote, PlaceAt(w, e.key, t.0, t.1));
    }
  }

  /** All secrets can be read, and the registries answer truthfully and delete. */
  ghost function Working(mirrors: seq<Mirror>, namespace: string, place: string -> Place, remote: Remote): Setting {
    Setting(mirrors, namespace, _ => true, (d: string) => if place(d) in remote then Present else Absent, _ => true,
            _ => false)
  }

  lemma WorkingCleans(mirrors: seq<Mirror>, namespace: string, place: string -> Place, remote: Remote)
    ensures Truthful(Working(mirrors, namespace, place, remote), place, remote)
    ensures forall d :: Cleans(Working(mirrors, namespace, place, remote), d)
  {
  }

  ghost predicate DeletesWith(e: Event, key: string, mirrors: seq<Mirror>) {
    e.key == key && (e.action.DeleteMirror? ==> e.action.setting.mirrors == mirrors)
  }

  /** The world after a step that is enabled. */
  ghost function WorldAfter(w: World, e: Event): World
    requires e.key in w.sites && Enabled(w, e)
  {
    World(w.place, w.sites[e.key := SiteAfter(w, e)], RemoteAfter(w, e), GoneAfter(w, e))
  }

  /** A resource that is being deleted can always be finalized, from the start or from wherever a
      finalization is: steps of its own suffice once all secrets can be read and all registries
      answer, whatever mirrors are declared by then and whatever was deleted before. */
  lemma {:induction false} FinalizationCanFinish(w: World, key: string, mirrors: seq<Mirror>, namespace: string)
    returns (worlds: seq<World>, events: seq<Event>)
    requires CanFinalize(w, key)
    ensures Steps(worlds, events) && worlds[0] == w
    ensures forall k :: 0 <= k < |events| ==> DeletesWith(events[k], key, mirrors)
    ensures worlds[|events|].sites == w.sites[key := Site(None, Idle)]
    decreases !w.sites[key].worker.Finalizing?, Uncleaned(w.sites[key].worker)
  {
    hide Enabled, SiteAfter, RemoteAfter, GoneAfter;
    var e := NextOfFinalization(w, key, mirrors, namespace);
    var w' := WorldAfter(w, e);
    if e.action.RemoveFinalizer? {
      worlds, events := [w, w'], [e];
    } else {
      var rest, more := FinalizationCanFinish(w', key, mirrors, namespace);
      worlds, events := [w] + rest, [e] + more;
      forall k | 0 <= k < |events| ensures StepAt(worlds, events, k) && DeletesWith(events[k], key, mirrors) {
        if k > 0 {
          assert StepAt(rest, more, k - 1) && DeletesWith(more[k - 1], key, mirrors);
        }
      }
    }
  }

  /** The resource is being finalized, or the next reconcile will do that. */
  ghost predicate CanFinalize(w: World, key: string) {
    && key in w.sites && w.sites[key].resource.Some?
    && (w.sites[key].worker.Finalizing? || Enabled(w, Event(key, StartFinalizing)))
  }

  ghost function Uncleaned(worker: Worker): set<Target> {
    if worker.Finalizing? then worker.todo - worker.cleaned else {}
  }

  /** The next step of a finalization that meets no failure. */
  lemma NextOfFinalization(w: World, key: string, mirrors: seq<Mirror>, namespace: string) returns (e: Event)
    requires CanFinalize(w, key)
    ensures DeletesWith(e, key, mirrors) && Enabled(w, e)
    ensures e.action.RemoveFinalizer? ==> SiteAfter(w, e) == Site(None, Idle)
    ensures !e.action.RemoveFinalizer? ==>
              var before, after := w.sites[key].worker, SiteAfter(w, e).worker;
              && CanFinalize(WorldAfter(w, e), key) && after.Finalizing?
              && (before.Finalizing? ==> Uncleaned(after) < Uncleaned(before))
  {
    hide Truthful, Cleans, RemoteAfter, GoneAfter;
    var worker := w.sites[key].worker;
    if !worker.Finalizing? {
      e := Event(key, StartFinalizing);
    } else if Uncleaned(worker) == {} {
      e := Event(key, RemoveFinalizer);
      assert forall t :: t in worker.todo && t !in worker.cleaned ==> t in Uncleaned(worker);
    } else {
      var t :| t in Uncleaned(worker);
      var working := Working(mirrors, namespace, w.place, w.remote);
      WorkingCleans(mirrors, namespace, w.place, w.remote);
      e := Event(key, DeleteMirror(t.0, t.1, working));
      assert Enabled(w, e);
      assert SiteAfter(w, e).worker == Finalizing(worker.todo, worker.cleaned + {t});
      assert t in Uncleaned(worker) && t !in Uncleaned(SiteAfter(w, e).worker);
    }
  }

  // ----- Which recorded copies are there -----

  /** A deletion took the place, and nothing was copied to it since. */
  ghost predicate TakenSince(worlds: seq<World>, events: seq<Event>, k: nat, p: Place)
    requires |worlds| == |events| + 1 && k <= |events|
  {
    exists j: nat :: j < k && p in Removed(worlds[j], events[j]) && NotCopied(worlds, events, j, k, p)
  }

  ghost predicate NotCopied(worlds: seq<World>, events: seq<Event>, j: nat, k: nat, p: Place)
    requires |worlds| == |events| + 1 && k <= |events|
  {
    forall m: nat :: j < m < k ==> !CopiesTo(worlds[m], events[m], p)
  }

  lemma {:induction false} GoneIff(worlds: seq<World>, events: seq<Event>, k: nat, p: Place)
    requires Run(worlds, events) && k <= |events|
    ensures p in worlds[k].gone <==> TakenSince(worlds, events, k, p)
  {
    hide Removed, CopiesTo, Enabled, SiteAfter, RemoteAfter, GoneAfter;
    if k > 0 {
      var last := k - 1;
      GoneIff(worlds, events, last, p);
      assert StepAt(worlds, events, last);
      PresenceStep(worlds[last], events[last], worlds[k], p);
      if p in Removed(worlds[last], events[last]) {
        assert NotCopied(worlds, events, last, k, p);
      }
      if j: nat :| j < last && p in Removed(worlds[j], events[j]) && NotCopied(worlds, events, j, last, p) {
        assert !CopiesTo(worlds[last], events[last], p) ==> NotCopied(worlds, events, j, k, p);
      }
      if j: nat :| j < k && p in Removed(worlds[j], events[j]) && NotCopied(worlds, events, j, k, p) {
        assert j < last ==> NotCopied(worlds, events, j, last, p);
      }
    }
  }

  /** The status or the worker's memory says that there is a copy at d. */
  ghost predicate Claims(site: Site, image: string, d: string) {
    || MirrorRuns.RecordsFor(Status(site), image, d)
    || (site.worker.Mirroring? && exists i: nat :: HeldAt(site, image, i, d))
  }

  ghost predicate HeldAt(site: Site, image: string, i: nat, d: string)
    requires site.worker.Mirroring?
  {
    (image, i) in site.worker.held && Lists(Status(site), image, i) && Status(site)[image].mirrors[i].image == d
  }

  /** Every copy that is claimed to be there is in its registry, or was taken from it. */
  ghost predicate Accounted(w: World) {
    && (forall p :: p in w.gone ==> p !in w.remote)
    && (forall key :: key in w.sites ==> SiteAccounted(w, w.sites[key]))
  }

  ghost predicate SiteAccounted(w: World, site: Site) {
    forall image, d :: Claims(site, image, d) ==> w.place(d) in w.remote || w.place(d) in w.gone
  }

  /** What the step newly claims it has copied, or found at its destination. */
  lemma NewClaims(w: World, e: Event, image: string, d: string)
    requires e.key in w.sites && Enabled(w, e) && Claims(SiteAfter(w, e), image, d)
    ensures Claims(w.sites[e.key], image, d) || CopiesTo(w, e, w.place(d)) || w.place(d) in w.remote
  {
    var site, site' := w.sites[e.key], SiteAfter(w, e);
    if MirrorRuns.RecordsFor(Status(site'), image, d) {
      NewRecords(w, e, image, d);
    } else {
      NewlyHeld(w, e, image, d);
    }
  }

  lemma NewRecords(w: World, e: Event, image: string, d: string)
    requires e.key in w.sites && Enabled(w, e) && MirrorRuns.RecordsFor(Status(SiteAfter(w, e)), image, d)
    ensures Claims(w.sites[e.key], image, d)
    ensures !e.action.WriteCopies? ==> MirrorRuns.RecordsFor(Status(w.sites[e.key]), image, d)
  {
    hide Truthful, Cleans, CopyAll, RecordedTargets, RecordsOnlyHeld;
    var site := w.sites[e.key];
    var status := Status(site);
    match e.action {
      case WriteMerge(current, inUse, matches, mirrors, now, _, _) =>
        MergeRecordsIff(status, current, inUse, matches, mirrors, now, image, d);
      case WriteCleanup =>
        MirrorRuns.CleanupRecordsIff(status, site.worker.spec, site.worker.clock, Seen(site.worker), image, d);
      case Forget(x, i) =>
        ForgetRecordsNothing(status, x, i, image, d);
      case WriteCopies(copies) =>
        CopiesRecordIff(status, copies, image, d);
        if i: nat :| NowRecords(status, copies, image, i) && status[image].mirrors[i].image == d {
          RecordsHeld(status, copies, site.worker.held, image, i);
          assert HeldAt(site, image, i, d);
        }
      case _ =>
    }
  }

  lemma RecordsHeld(status: Tracked, copies: Copies, held: set<Target>, image: string, i: nat)
    requires RecordsOnlyHeld(status, copies, held) && NowRecords(status, copies, image, i)
    ensures (image, i) in held
  {
  }

  /** Mirroring records what was recorded, and the missing mirrors that were copied. */
  lemma CopiesRecordIff(status: Tracked, copies: Copies, image: string, d: string)
    ensures MirrorRuns.RecordsFor(CopyAll(status, copies), image, d) <==>
              || MirrorRuns.RecordsFor(status, image, d)
              || exists i: nat :: NowRecords(status, copies, image, i) && status[image].mirrors[i].image == d
  {
    var copied := CopyAll(status, copies);
    if i: nat :| RecordsMirror(copied, image, i) && copied[image].mirrors[i].image == d {
      MirroringRecordsCopies(status, copies, image, i);
      assert RecordsMirror(status, image, i) || NowRecords(status, copies, image, i);
    }
    if i: nat :| RecordsMirror(status, image, i) && status[image].mirrors[i].image == d {
      MirroringRecordsCopies(status, copies, image, i);
      assert RecordsMirror(copied, image, i);
    }
    if i: nat :| NowRecords(status, copies, image, i) && status[image].mirrors[i].image == d {
      MirroringRecordsCopies(status, copies, image, i);
      assert RecordsMirror(copied, image, i);
    }
  }

  lemma NewlyHeld(w: World, e: Event, image: string, d: string)
    requires e.key in w.sites && Enabled(w, e) && SiteAfter(w, e).worker.Mirroring?
    requires exists i: nat :: HeldAt(SiteAfter(w, e), image, i, d)
    ensures Claims(w.sites[e.key], image, d) || CopiesTo(w, e, w.place(d)) || w.place(d) in w.remote
  {
    hide Truthful, Cleans, Cleanup, Merge, RecordedTargets, RecordsOnlyHeld, MirrorRuns.RecordsFor;
    var site, site' := w.sites[e.key], SiteAfter(w, e);
    var i: nat :| HeldAt(site', image, i, d);
    assert site.worker.Mirroring?;
    if e.action.WriteCopies? {
      MirroringRecordsCopies(Status(site), e.action.copies, image, i);
    }
    assert Lists(Status(site), image, i) && Status(site)[image].mirrors[i].image == d;
    if (image, i) in site.worker.held {
      assert HeldAt(site, image, i, d);
    }
  }

  lemma MergeRecordsIff(
    tracked: Tracked, current: set<string>, inUse: set<string>, matches: string -> bool, mirrors: seq<Mirror>, now: int,
    image: string, d: string)
    requires AllHaveRegistry(current)
    ensures MirrorRuns.RecordsFor(Merge(tracked, current, inUse, matches, mirrors, now), image, d) <==>
              MirrorRuns.RecordsFor(tracked, image, d)
  {
    var merged := Merge(tracked, current, inUse, matches, mirrors, now);
    if image in merged {
      var expected := if image in current then Expected(mirrors, image) else [];
      if image in tracked {
        var before, missing := tracked[image].mirrors, Missing(Destinations(tracked[image].mirrors), expected);
        forall k | 0 <= k < |missing| ensures missing[k].mirroredAt.None? {
          MissingMembers(Destinations(before), expected, missing[k]);
          assert missing[k] in missing;
        }
        assert merged[image].mirrors == before + missing;
        assert forall i: nat :: RecordsMirror(merged, image, i) <==> RecordsMirror(tracked, image, i);
      } else {
        assert merged[image].mirrors == expected;
      }
    }
  }

  lemma ForgetRecordsNothing(status: Tracked, x: string, i: nat, image: string, d: string)
    ensures MirrorRuns.RecordsFor(Forgotten(status, x, i), image, d) ==> MirrorRuns.RecordsFor(status, image, d)
  {
    var after := Forgotten(status, x, i);
    if k: nat :| RecordsMirror(after, image, k) && after[image].mirrors[k].image == d {
      assert RecordsMirror(status, image, k);
    }
  }

  lemma StepKeepsAccounts(w: World, e: Event, w': World)
    requires Step(w, e, w') && Accounted(w)
    ensures Accounted(w')
  {
    hide Enabled, SiteAfter, Removed, CopiesTo, Claims;
    forall p ensures p in w'.gone ==> p !in w'.remote {
      PresenceStep(w, e, w', p);
    }
    forall key | key in w'.sites ensures SiteAccounted(w', w'.sites[key]) {
      forall image, d | Claims(w'.sites[key], image, d)
        ensures w'.place(d) in w'.remote || w'.place(d) in w'.gone
      {
        PresenceStep(w, e, w', w.place(d));
        assert SiteAccounted(w, w.sites[key]);
        if key == e.key {
          NewClaims(w, e, image, d);
        }
      }
    }
  }

  lemma {:induction false} RunKeepsAccounts(worlds: seq<World>, events: seq<Event>, k: nat)
    requires Run(worlds, events) && k <= |events|
    ensures Accounted(worlds[k])
  {
    hide Step, Accounted;
    if k > 0 {
      RunKeepsAccounts(worlds, events, k - 1);
      assert StepAt(worlds, events, k - 1);
      StepKeepsAccounts(worlds[k - 1], events[k - 1], worlds[k]);
    } else {
      FirstIsAccounted(worlds[0]);
    }
  }

  lemma FirstIsAccounted(w: World)
    requires Fresh(w)
    ensures Accounted(w)
  {
  }

  /** In every reachable state a recorded copy is in its registry exactly when no deletion of an
      image with its repository and digest, for whichever resource, came after the last copy to
      its tag. */
  lemma RecordedIsPresentIff(worlds: seq<World>, events: seq<Event>, k: nat, key: string, image: string, d: string)
    requires Run(worlds, events) && k <= |events| && key in worlds[k].sites
    requires MirrorRuns.RecordsFor(Status(worlds[k].sites[key]), image, d)
    ensures worlds[k].place(d) in worlds[k].remote <==> !TakenSince(worlds, events, k, worlds[k].place(d))
  {
    RunKeepsAccounts(worlds, events, k);
    GoneIff(worlds, events, k, worlds[k].place(d));
    assert SiteAccounted(worlds[k], worlds[k].sites[key]);
    assert Claims(worlds[k].sites[key], image, d);
  }

  // ----- Which steps lose a copy -----

  /** A record that is to last. */
  ghost predicate Lasts(site: Site, image: string, d: string) {
    exists i: nat :: LastsAt(site, image, i, d)
  }

  ghost predicate LastsAt(site: Site, image: string, i: nat, d: string) {
    RecordsMirror(Status(site), image, i) && Status(site)[image].mirrors[i].image == d && !IsDue(site, image, i)
  }

  ghost predicate SiteSound(w: World, site: Site) {
    forall image, d :: Lasts(site, image, d) ==> w.place(d) in w.remote
  }

  /** Every recorded copy is in its registry, but for those that a cleanup or a finalization under
      way is to delete. */
  ghost predicate Sound(w: World) {
    forall key :: key in w.sites ==> SiteSound(w, w.sites[key])
  }

  /** The step makes a record that is to last: a reconcile ends before it wrote what it deleted; it
      writes its cleanup, which keeps a mirror whose own deletion did not succeed; or it records a
      copy. */
  ghost predicate BeginsToLast(site: Site, a: Action, image: string, i: nat) {
    match a
    case Abort => RecordsMirror(Status(site), image, i) && IsDue(site, image, i)
    case WriteCleanup =>
      && site.worker.Cleaning? && RecordsMirror(Status(site), image, i) && IsDue(site, image, i)
      && (image, i) !in site.worker.cleaned
    case WriteCopies(copies) => NowRecords(Status(site), copies, image, i)
    case _ => false
  }

  /** When a step loses no recorded copy: what it makes last was not taken, and no record that lasts,
      of any resource, has the repository and digest of a copy that it deletes. */
  ghost predicate LosesNothing(w: World, e: Event)
    requires e.key in w.sites
  {
    if e.action.DeleteMirror? then
      var deleted := DestinationAt(Status(w.sites[e.key]), (e.action.image, e.action.index));
      Takes(e.action.setting, deleted) ==> forall key :: key in w.sites ==> NoTwinIn(w, w.sites[key], deleted)
    else
      forall image, i: nat :: BeginsToLast(w.sites[e.key], e.action, image, i) ==>
        PlaceAt(w, e.key, image, i) !in w.gone
  }

  /** No record of this resource that lasts has the repository and digest of the copy at d. */
  ghost predicate NoTwinIn(w: World, site: Site, d: string) {
    forall image, twin :: Lasts(site, image, twin) ==> w.place(twin) !in Taken(w.remote, w.place(d))
  }

  /** What a step makes last, and that it makes nothing else last. */
  lemma LastsAfter(w: World, e: Event, image: string, d: string)
    requires e.key in w.sites && Enabled(w, e)
    ensures Lasts(SiteAfter(w, e), image, d) ==>
              || Lasts(w.sites[e.key], image, d)
              || exists i: nat :: BeginsToLastAt(w, e, image, i, d)
    ensures (exists i: nat :: BeginsToLastAt(w, e, image, i, d)) ==> Lasts(SiteAfter(w, e), image, d)
  {
    hide Enabled, SiteAfter, LastsAt;
    var site, site' := w.sites[e.key], SiteAfter(w, e);
    match e.action {
      case WriteMerge(_, _, _, _, _, _, _) =>
        MergeLasts(w, e, image, d);
      case WriteCleanup =>
        CleanupLasts(w, e, image, d);
      case WriteCopies(_) =>
        CopiesLast(w, e, image, d);
      case Abort =>
        AbortLasts(w, e, image, d);
      case _ =>
        forall i: nat ensures LastsAt(site', image, i, d) ==> LastsAt(site, image, i, d) {
          OthersLastLess(w, e, image, i, d);
        }
    }
  }

  lemma AbortLasts(w: World, e: Event, image: string, d: string)
    requires e.key in w.sites && e.action.Abort?
    ensures Lasts(SiteAfter(w, e), image, d) <==>
              Lasts(w.sites[e.key], image, d) || exists i: nat :: BeginsToLastAt(w, e, image, i, d)
  {
    hide Overdue;
    assert forall i: nat :: LastsAt(SiteAfter(w, e), image, i, d) <==>
        LastsAt(w.sites[e.key], image, i, d) || BeginsToLastAt(w, e, image, i, d);
  }

  lemma OthersLastLess(w: World, e: Event, image: string, i: nat, d: string)
    requires e.key in w.sites && Enabled(w, e)
    requires !e.action.WriteMerge? && !e.action.WriteCleanup? && !e.action.WriteCopies? && !e.action.Abort?
    ensures LastsAt(SiteAfter(w, e), image, i, d) ==> LastsAt(w.sites[e.key], image, i, d)
  {
    hide Truthful, Cleans, RecordedTargets, RecordsOnlyHeld, Overdue, Merge, Cleanup, CopyAll;
  }

  ghost predicate BeginsToLastAt(w: World, e: Event, image: string, i: nat, d: string)
    requires e.key in w.sites
  {
    BeginsToLast(w.sites[e.key], e.action, image, i) && DestinationAt(Status(w.sites[e.key]), (image, i)) == d
  }

  lemma NotDeletingLasts(site: Site, image: string, d: string)
    requires !site.worker.Cleaning? && !site.worker.Finalizing?
    ensures Lasts(site, image, d) <==> MirrorRuns.RecordsFor(Status(site), image, d)
  {
    assert forall i: nat :: LastsAt(site, image, i, d) <==>
        RecordsMirror(Status(site), image, i) && Status(site)[image].mirrors[i].image == d;
  }

  lemma MergeLasts(w: World, e: Event, image: string, d: string)
    requires e.key in w.sites && Enabled(w, e) && e.action.WriteMerge?
    ensures Lasts(SiteAfter(w, e), image, d) ==> Lasts(w.sites[e.key], image, d)
  {
    NotDeletingLasts(w.sites[e.key], image, d);
    if i: nat :| LastsAt(SiteAfter(w, e), image, i, d) {
      assert MirrorRuns.RecordsFor(Status(SiteAfter(w, e)), image, d);
      NewRecords(w, e, image, d);
    }
  }

  lemma CleanupLasts(w: World, e: Event, image: string, d: string)
    requires e.key in w.sites && Enabled(w, e) && e.action.WriteCleanup?
    ensures Lasts(SiteAfter(w, e), image, d) <==>
              Lasts(w.sites[e.key], image, d) || exists i: nat :: BeginsToLastAt(w, e, image, i, d)
  {
    var site := w.sites[e.key];
    var status, worker := Status(site), site.worker;
    NotDeletingLasts(SiteAfter(w, e), image, d);
    MirrorRuns.CleanupRecordsIff(status, worker.spec, worker.clock, Seen(worker), image, d);
    assert forall i: nat :: MirrorRuns.KeptAt(status, worker.spec, worker.clock, Seen(worker), image, d, i) <==>
        LastsAt(site, image, i, d) || BeginsToLastAt(w, e, image, i, d);
  }

  lemma CopiesLast(w: World, e: Event, image: string, d: string)
    requires e.key in w.sites && Enabled(w, e) && e.action.WriteCopies?
    ensures Lasts(SiteAfter(w, e), image, d) <==>
              Lasts(w.sites[e.key], image, d) || exists i: nat :: BeginsToLastAt(w, e, image, i, d)
  {
    var site := w.sites[e.key];
    NotDeletingLasts(site, image, d);
    NotDeletingLasts(SiteAfter(w, e), image, d);
    CopiesRecordIff(Status(site), e.action.copies, image, d);
    assert forall i: nat :: BeginsToLastAt(w, e, image, i, d) <==>
        NowRecords(Status(site), e.action.copies, image, i) && Status(site)[image].mirrors[i].image == d;
  }

  /** A site that the step does not change keeps its copies exactly when none of them is taken. */
  lemma OtherSiteIsSoundIff(w: World, e: Event, w': World, site: Site)
    requires Step(w, e, w') && SiteSound(w, site)
    ensures SiteSound(w', site) <==> forall image, d :: Lasts(site, image, d) ==> w.place(d) !in Removed(w, e)
  {
    hide Step, Lasts, Removed, CopiesTo;
    forall image, d | Lasts(site, image, d)
      ensures w'.place(d) in w'.remote <==> w.place(d) !in Removed(w, e)
    {
      PresenceStep(w, e, w', w.place(d));
      assert w.place(d) in w.remote;
    }
  }

  /** The site of a step that deletes nothing. */
  lemma OwnSiteIsSoundIff(w: World, e: Event, w': World)
    requires Step(w, e, w') && Accounted(w) && SiteSound(w, w.sites[e.key]) && !e.action.DeleteMirror?
    ensures SiteSound(w', w'.sites[e.key]) <==> LosesNothing(w, e)
  {
    hide Enabled, SiteAfter, Lasts, BeginsToLast, CopiesTo, Claims;
    var site := w.sites[e.key];
    assert SiteAccounted(w, site);
    forall image, i: nat, d | BeginsToLastAt(w, e, image, i, d)
      ensures w'.place(d) in w'.remote <==> w.place(d) !in w.gone
    {
      assert Claims(site, image, d) by { BeginnersAreClaimed(w, e, image, i, d); }
      BeginnersCopyNothing(w, e, image, i);
      PresenceStep(w, e, w', w.place(d));
    }
    if SiteSound(w', w'.sites[e.key]) {
      forall image, i: nat | BeginsToLast(site, e.action, image, i) ensures PlaceAt(w, e.key, image, i) !in w.gone {
        var d := DestinationAt(Status(site), (image, i));
        assert BeginsToLastAt(w, e, image, i, d);
        LastsAfter(w, e, image, d);
      }
    }
    if LosesNothing(w, e) {
      forall image, d | Lasts(w'.sites[e.key], image, d) ensures w'.place(d) in w'.remote {
        LastsAfter(w, e, image, d);
        PresenceStep(w, e, w', w.place(d));
      }
    }
  }

  lemma BeginnersCopyNothing(w: World, e: Event, image: string, i: nat)
    requires e.key in w.sites && BeginsToLast(w.sites[e.key], e.action, image, i)
    ensures forall p :: !CopiesTo(w, e, p)
  {
  }

  /** Whatever begins to last was claimed to be there. */
  lemma BeginnersAreClaimed(w: World, e: Event, image: string, i: nat, d: string)
    requires e.key in w.sites && Enabled(w, e) && BeginsToLastAt(w, e, image, i, d)
    ensures Claims(w.sites[e.key], image, d)
  {
    hide IsDue, Truthful;
    var site := w.sites[e.key];
    if e.action.WriteCopies? {
      assert HeldAt(site, image, i, d);
    } else {
      assert RecordsMirror(Status(site), image, i) && Status(site)[image].mirrors[i].image == d;
    }
  }

  /** The site of a deletion: what lasts there does not change. */
  lemma DeletionKeepsLasts(w: World, e: Event, image: string, d: string)
    requires e.key in w.sites && Enabled(w, e) && e.action.DeleteMirror?
    ensures Lasts(SiteAfter(w, e), image, d) <==> Lasts(w.sites[e.key], image, d)
  {
    hide Truthful, Cleans, Overdue;
    assert forall i: nat :: LastsAt(SiteAfter(w, e), image, i, d) <==> LastsAt(w.sites[e.key], image, i, d);
  }

  lemma DeletionIsSoundIff(w: World, e: Event, w': World)
    requires Step(w, e, w') && Sound(w) && e.action.DeleteMirror?
    ensures Sound(w') <==> LosesNothing(w, e)
  {
    hide Enabled, SiteAfter, RemoteAfter, GoneAfter, Lasts, Removed, Takes, NoTwinIn;
    forall key | key in w.sites
      ensures SiteSound(w', w'.sites[key]) <==>
                forall image, d :: Lasts(w.sites[key], image, d) ==> w.place(d) !in Removed(w, e)
    {
      OtherSiteIsSoundIff(w, e, w', w.sites[key]);
      if key == e.key {
        forall image, d ensures Lasts(w'.sites[key], image, d) <==> Lasts(w.sites[key], image, d) {
          DeletionKeepsLasts(w, e, image, d);
        }
      }
    }
    forall key | key in w.sites
      ensures (forall image, d :: Lasts(w.sites[key], image, d) ==> w.place(d) !in Removed(w, e)) <==>
                (Takes(e.action.setting, DestinationAt(Status(w.sites[e.key]), (e.action.image, e.action.index))) ==>
                   NoTwinIn(w, w.sites[key], DestinationAt(Status(w.sites[e.key]), (e.action.image, e.action.index))))
    {
      RemovedTwins(w, e, w.sites[key]);
    }
  }

  lemma RemovedTwins(w: World, e: Event, site: Site)
    requires e.key in w.sites && e.action.DeleteMirror?
    ensures var deleted := DestinationAt(Status(w.sites[e.key]), (e.action.image, e.action.index));
            (forall image, d :: Lasts(site, image, d) ==> w.place(d) !in Removed(w, e)) <==>
            (Takes(e.action.setting, deleted) ==> NoTwinIn(w, site, deleted))
  {
    hide Lasts, Takes, Taken;
  }

  /** Every recorded copy stays present exactly through the steps that lose nothing. */
  lemma StepIsSoundIff(w: World, e: Event, w': World)
    requires Step(w, e, w') && Sound(w) && Accounted(w)
    ensures Sound(w') <==> LosesNothing(w, e)
  {
    hide Enabled, SiteAfter, SiteSound, Accounted, LosesNothing;
    if e.action.DeleteMirror? {
      DeletionIsSoundIff(w, e, w');
    } else {
      OwnSiteIsSoundIff(w, e, w');
      forall key | key in w.sites && key != e.key ensures SiteSound(w', w'.sites[key]) {
        OtherSiteIsSoundIff(w, e, w', w.sites[key]);
      }
    }
  }

  /** In terms of what happened before: a step that deletes nothing loses a copy exactly when it makes
      a record last whose copy a deletion took, for whichever resource, and nobody copied there
      since. */
  lemma RecordingLosesIff(worlds: seq<World>, events: seq<Event>, k: nat)
    requires Run(worlds, events) && k < |events| && Sound(worlds[k]) && events[k].key in worlds[k].sites
    requires !events[k].action.DeleteMirror?
    ensures Sound(worlds[k + 1]) <==>
            !exists image, i: nat ::
              && BeginsToLast(worlds[k].sites[events[k].key], events[k].action, image, i)
              && TakenSince(worlds, events, k, PlaceAt(worlds[k], events[k].key, image, i))
  {
    hide Sound, TakenSince, BeginsToLast, Step, PlaceAt;
    assert StepAt(worlds, events, k);
    RunKeepsAccounts(worlds, events, k);
    StepIsSoundIff(worlds[k], events[k], worlds[k + 1]);
    forall p ensures p in worlds[k].gone <==> TakenSince(worlds, events, k, p) {
      GoneIff(worlds, events, k, p);
    }
  }

  /** Runs whose steps lose nothing keep every recorded copy in its registry. */
  lemma {:induction false} RecordedCopiesArePresent(worlds: seq<World>, events: seq<Event>, k: nat)
    requires Run(worlds, events) && k <= |events|
    requires forall j :: 0 <= j < k ==> StepAt(worlds, events, j) && LosesNothing(worlds[j], events[j])
    ensures Sound(worlds[k])
  {
    hide Step, Sound, LosesNothing;
    if k > 0 {
      RecordedCopiesArePresent(worlds, events, k - 1);
      RunKeepsAccounts(worlds, events, k - 1);
      assert StepAt(worlds, events, k - 1);
      StepIsSoundIff(worlds[k - 1], events[k - 1], worlds[k]);
    } else {
      FirstIsSound(worlds[0]);
    }
  }

  lemma FirstIsSound(w: World)
    requires Fresh(w)
    ensures Sound(w)
  {
  }

  /** A copy can be lost before it is recorded: one worker copies an image, another one deletes a
      copy with its repository and digest, which no record keeps it from, and the first one records
      the copy that is gone. Only the last of these steps loses a copy. */
  lemma DeletedBeforeRecorded(
    w: World, w1: World, w2: World, w3: World, copy: Event, deletion: Event, record: Event)
    requires Sound(w) && Accounted(w)
    requires Step(w, copy, w1) && copy.action.CopyImage?
    requires Step(w1, deletion, w2) && deletion.action.DeleteMirror? && LosesNothing(w1, deletion)
    requires PlaceAt(w, copy.key, copy.action.image, copy.action.index) in Removed(w1, deletion)
    requires Step(w2, record, w3) && record.key == copy.key && record.action.WriteCopies?
    requires record.action.copies(copy.action.image, copy.action.index).Copied?
    ensures LosesNothing(w, copy) && Sound(w1) && Sound(w2) && !LosesNothing(w2, record) && !Sound(w3)
  {
    hide Sound, Accounted, Removed, CopiesTo, Truthful, RecordsOnlyHeld;
    StepKeepsAccounts(w, copy, w1);
    StepKeepsAccounts(w1, deletion, w2);
    StepIsSoundIff(w, copy, w1);
    StepIsSoundIff(w1, deletion, w2);
    StepIsSoundIff(w2, record, w3);
    PresenceStep(w1, deletion, w2, PlaceAt(w, copy.key, copy.action.image, copy.action.index));
    assert BeginsToLast(w2.sites[copy.key], record.action, copy.action.image, copy.action.index);
  }

  /** One resource is mirroring an image that is not at its destination. */
  ghost function Copier(image: string, d: string, held: set<Target>): Site {
    Site(Some(Object(false, true, map[image := Entry([MirrorEntry(d, None, "")], InUse)])), Mirroring(held))
  }

  /** Another one is cleaning up an image that no longer matches. */
  ghost function Cleaner(image: string, d: string): Site {
    Site(Some(Object(false, true, map[image := Entry([MirrorEntry(d, Some(0), "")], Instant)])),
         Cleaning(CleanupSpec(true, 1), (_, _) => 0, {(image, 0)}, {}))
  }

  lemma NothingLasts(image: string, d: string, held: set<Target>)
    ensures forall x, e :: !Lasts(Copier(image, d, held), x, e) && !Lasts(Cleaner(image, d), x, e)
  {
  }

  lemma SharedIsAccounted(w: World, a: string, b: string, x: string, y: string, d: string)
    requires w.sites == map[a := Copier(x, d, {}), b := Cleaner(y, d)]
    requires w.gone == {} && w.place(d) in w.remote
    ensures Sound(w) && Accounted(w)
  {
    hide Lasts, IsDue;
    NothingLasts(x, d, {});
    NothingLasts(y, d, {});
    forall image, e ensures !Claims(Copier(x, d, {}), image, e) && (Claims(Cleaner(y, d), image, e) ==> e == d) {
    }
  }

  lemma SharedIsCopied(w: World, w1: World, a: string, x: string, d: string)
    requires a in w.sites && w.sites[a] == Copier(x, d, {})
    requires w1 == World(w.place, w.sites[a := Copier(x, d, {(x, 0)})], w.remote[w.place(d) := Content("", x)],
                         w.gone - {w.place(d)})
    ensures Step(w, Event(a, CopyImage(x, 0, "", true)), w1)
  {
    var e := Event(a, CopyImage(x, 0, "", true));
    DestinationOfCopier(w, a, x, d);
    assert Enabled(w, e) && {} + {(x, 0)} == {(x, 0)};
    assert SiteAfter(w, e) == Copier(x, d, {(x, 0)});
  }

  lemma SharedIsDeleted(
    w1: World, a: string, b: string, x: string, y: string, d: string, mirrors: seq<Mirror>)
    requires a != b && w1.sites == map[a := Copier(x, d, {(x, 0)}), b := Cleaner(y, d)]
    requires w1.place(d) in w1.remote && CredentialFor(mirrors, d).Some?
    ensures var e := Event(b, DeleteMirror(y, 0, Working(mirrors, "", w1.place, w1.remote)));
            Enabled(w1, e) && LosesNothing(w1, e) && w1.place(d) in Removed(w1, e)
  {
    hide CredentialFor, Lasts, Cleans, Truthful;
    WorkingCleans(mirrors, "", w1.place, w1.remote);
    NothingLasts(x, d, {(x, 0)});
    NothingLasts(y, d, {});
  }

  lemma EnabledSteps(w: World, e: Event)
    requires e.key in w.sites && Enabled(w, e)
    ensures Step(w, e, WorldAfter(w, e))
    ensures forall key :: key in w.sites && key != e.key ==> WorldAfter(w, e).sites[key] == w.sites[key]
  {
  }

  lemma SharedIsRecorded(w2: World, a: string, x: string, d: string)
    requires a in w2.sites && w2.sites[a] == Copier(x, d, {(x, 0)})
    ensures Enabled(w2, Event(a, WriteCopies((_, _) => Copied(0))))
  {
  }

  /** Such steps exist: two resources have one destination, and one of them is cleaning it up. */
  lemma DeletionBeforeRecordOccurs(
    a: string, b: string, x: string, y: string, d: string, place: string -> Place, mirrors: seq<Mirror>)
    returns (worlds: seq<World>, events: seq<Event>)
    requires a != b && !Uncovered(mirrors, d)
    ensures |events| == 3 && |worlds| == 4 && Sound(worlds[0]) && Accounted(worlds[0])
    ensures forall k :: 0 <= k < 3 ==> StepAt(worlds, events, k) && (LosesNothing(worlds[k], events[k]) <==> k < 2)
    ensures Sound(worlds[2]) && !Sound(worlds[3])
  {
    hide Sound, Accounted, LosesNothing, Enabled, Removed, Working, PlaceAt;
    hide WorldAfter, SiteAfter, RemoteAfter, GoneAfter;
    UncoveredIff(mirrors, d);
    hide Uncovered, CredentialFor, Copier, Cleaner;
    var w := World(place, map[a := Copier(x, d, {}), b := Cleaner(y, d)], map[place(d) := Content("", y)], {});
    SharedIsAccounted(w, a, b, x, y, d);
    var copy := Event(a, CopyImage(x, 0, "", true));
    var w1 := World(place, w.sites[a := Copier(x, d, {(x, 0)})], w.remote[place(d) := Content("", x)],
                    w.gone - {place(d)});
    SharedIsCopied(w, w1, a, x, d);
    var deletion := Event(b, DeleteMirror(y, 0, Working(mirrors, "", place, w1.remote)));
    SharedIsDeleted(w1, a, b, x, y, d, mirrors);
    EnabledSteps(w1, deletion);
    var w2 := WorldAfter(w1, deletion);
    var record := Event(a, WriteCopies((_, _) => Copied(0)));
    SharedIsRecorded(w2, a, x, d);
    EnabledSteps(w2, record);
    var w3 := WorldAfter(w2, record);
    worlds, events := [w, w1, w2, w3], [copy, deletion, record];
    DestinationOfCopier(w, a, x, d);
    DeletedBeforeRecorded(w, w1, w2, w3, copy, deletion, record);
  }

  lemma DestinationOfCopier(w: World, a: string, x: string, d: string)
    requires a in w.sites && w.sites[a] == Copier(x, d, {})
    ensures PlaceAt(w, a, x, 0) == w.place(d)
  {
  }

  // ----- From a new resource to a recorded copy -----

  /** A resource whose status has this one entry. */
  ghost function Tracker(image: string, e: Entry, worker: Worker): Site {
    Site(Some(Object(false, true, map[image := e])), worker)
  }

  /** One reconcile of a new resource gets an image mirrored and recorded: the run exists that the
      other results are about. */
  lemma RecordIsReached(w: World, key: string, image: string, m: Mirror, digest: string)
    returns (worlds: seq<World>, events: seq<Event>)
    requires Fresh(w) && key in w.sites && w.sites[key].resource.Some? && '/' in image
    ensures Run(worlds, events) && worlds[0] == w
    ensures var last, d := worlds[|events|], m.Destination(AfterRegistry(image));
            && key in last.sites && last.sites[key].resource.Some?
            && MirrorRuns.RecordsFor(Status(last.sites[key]), image, d)
            && last.place(d) in last.remote && last.remote[last.place(d)] == Content(digest, image)
  {
    hide Fresh, Enabled, SiteAfter, WorldAfter, Mirror.Destination;
    var d := m.Destination(AfterRegistry(image));
    var spec, clock: Clock := CleanupSpec(false, 0), (_, _) => 0;
    var missing := Entry([MirrorEntry(d, None, "")], InUse);
    events := [
      Event(key, Start), Event(key, AddFinalizer),
      Event(key, WriteMerge({image}, {image}, _ => true, [m], 0, spec, clock)), Event(key, WriteCleanup),
      Event(key, CopyImage(image, 0, digest, true)), Event(key, WriteCopies((_, _) => Copied(0)))];
    var w1, w2 := StartOfReconcile(w, key);
    var w3, w4 := MergeAndCleanup(w2, key, image, m);
    var w5, w6 := CopyAndRecord(w4, key, image, d, digest);
    worlds := [w, w1, w2, w3, w4, w5, w6];
    forall k | 0 <= k < 6 ensures StepAt(worlds, events, k) {
    }
  }

  lemma StartOfReconcile(w: World, key: string) returns (w1: World, w2: World)
    requires Fresh(w) && key in w.sites && w.sites[key].resource.Some?
    ensures Step(w, Event(key, Start), w1) && Step(w1, Event(key, AddFinalizer), w2)
    ensures key in w2.sites && w2.sites[key] == Site(Some(Object(false, true, map[])), Tracking)
  {
    w1 := WorldAfter(w, Event(key, Start));
    w2 := WorldAfter(w1, Event(key, AddFinalizer));
  }

  lemma MergeAndCleanup(w2: World, key: string, image: string, m: Mirror) returns (w3: World, w4: World)
    requires key in w2.sites && w2.sites[key] == Site(Some(Object(false, true, map[])), Tracking) && '/' in image
    ensures var merge := WriteMerge({image}, {image}, _ => true, [m], 0, CleanupSpec(false, 0), (_, _) => 0);
            Step(w2, Event(key, merge), w3)
    ensures Step(w3, Event(key, WriteCleanup), w4)
    ensures var d := m.Destination(AfterRegistry(image));
            && key in w4.sites
            && w4.sites[key] == Tracker(image, Entry([MirrorEntry(d, None, "")], InUse), Mirroring({}))
  {
    hide Mirror.Destination;
    var e := Entry([MirrorEntry(m.Destination(AfterRegistry(image)), None, "")], InUse);
    assert Expected([m], image) == e.mirrors;
    assert Merge(map[], {image}, {image}, _ => true, [m], 0) == map[image := e];
    w3 := WorldAfter(
      w2, Event(key, WriteMerge({image}, {image}, _ => true, [m], 0, CleanupSpec(false, 0), (_, _) => 0)));
    var site := w3.sites[key];
    UsedIsKept(map[image := e], CleanupSpec(false, 0), site.worker.clock, Seen(site.worker), image);
    assert Cleanup(map[image := e], CleanupSpec(false, 0), site.worker.clock, Seen(site.worker)) == map[image := e];
    w4 := WorldAfter(w3, Event(key, WriteCleanup));
  }

  lemma CopyAndRecord(w4: World, key: string, image: string, d: string, digest: string) returns (w5: World, w6: World)
    requires key in w4.sites
    requires w4.sites[key] == Tracker(image, Entry([MirrorEntry(d, None, "")], InUse), Mirroring({}))
    ensures Step(w4, Event(key, CopyImage(image, 0, digest, true)), w5)
    ensures Step(w5, Event(key, WriteCopies((_, _) => Copied(0))), w6)
    ensures key in w6.sites && w6.sites[key].resource.Some?
    ensures MirrorRuns.RecordsFor(Status(w6.sites[key]), image, d)
    ensures w6.place(d) in w6.remote && w6.remote[w6.place(d)] == Content(digest, image)
  {
    var status := map[image := Entry([MirrorEntry(d, None, "")], InUse)];
    w5 := WorldAfter(w4, Event(key, CopyImage(image, 0, digest, true)));
    var copies: Copies := (_, _) => Copied(0);
    CopiesRecordIff(status, copies, image, d);
    assert NowRecords(status, copies, image, 0);
    w6 := WorldAfter(w5, Event(key, WriteCopies((_, _) => Copied(0))));
  }

  // ----- Whose content a copy has -----

  /** The place holds the image, as of some time it was copied. */
  ghost predicate HoldsOwn(w: World, p: Place, image: string) {
    p in w.remote && w.remote[p].image == image
  }

  /** The step copies something to the place, or takes what is there. */
  ghost predicate Touches(w: World, e: Event, p: Place) {
    CopiesTo(w, e, p) || p in Removed(w, e)
  }

  ghost predicate Untouched(worlds: seq<World>, events: seq<Event>, j: nat, k: nat, p: Place)
    requires |worlds| == |events| + 1 && k <= |events|
  {
    forall m: nat :: j <= m < k ==> !Touches(worlds[m], events[m], p)
  }

  /** The last thing that happened to the place is that this image was copied there. */
  ghost predicate LastCopied(worlds: seq<World>, events: seq<Event>, k: nat, p: Place, image: string)
    requires |worlds| == |events| + 1 && k <= |events|
  {
    exists j, next: nat :: 0 <= j < k && next == j + 1 && StepCopies(worlds[j], events[j], p, image)
      && Untouched(worlds, events, next, k, p)
  }

  /** The step copies this image to the place. */
  ghost predicate StepCopies(w: World, e: Event, p: Place, image: string) {
    CopiesTo(w, e, p) && e.action.image == image
  }

  lemma ContentStep(w: World, e: Event, w': World, p: Place, image: string)
    requires Step(w, e, w')
    ensures HoldsOwn(w', p, image) <==>
              StepCopies(w, e, p, image) || (HoldsOwn(w, p, image) && !Touches(w, e, p))
    ensures StepCopies(w, e, p, image) ==> Touches(w, e, p)
  {
    hide Enabled, SiteAfter;
  }

  /** In every reachable state a tag holds an image exactly when that image was the last one copied
      there and no deletion took it since, or it was there from the start and nothing happened to
      it. A recorded mirror of another image holds a foreign content from then on. */
  lemma {:induction false} HoldsOwnIff(worlds: seq<World>, events: seq<Event>, k: nat, p: Place, image: string)
    requires Run(worlds, events) && k <= |events|
    ensures HoldsOwn(worlds[k], p, image) <==>
              || LastCopied(worlds, events, k, p, image)
              || (HoldsOwn(worlds[0], p, image) && Untouched(worlds, events, 0, k, p))
  {
    hide Step, StepCopies, HoldsOwn, Touches;
    if k > 0 {
      var last := k - 1;
      HoldsOwnIff(worlds, events, last, p, image);
      assert StepAt(worlds, events, last);
      ContentStep(worlds[last], events[last], worlds[k], p, image);
      HistoryStep(worlds, events, k, p, image);
    }
  }

  lemma HistoryStep(worlds: seq<World>, events: seq<Event>, k: nat, p: Place, image: string)
    requires |worlds| == |events| + 1 && 0 < k <= |events|
    ensures var w, e := worlds[k - 1], events[k - 1];
            && (Untouched(worlds, events, 0, k, p) <==> Untouched(worlds, events, 0, k - 1, p) && !Touches(w, e, p))
            && (LastCopied(worlds, events, k, p, image) <==>
                || StepCopies(w, e, p, image)
                || (LastCopied(worlds, events, k - 1, p, image) && !Touches(w, e, p)))
  {
    hide Touches, StepCopies;
    var last := k - 1;
    if j, next: nat :| 0 <= j < last && next == j + 1 && StepCopies(worlds[j], events[j], p, image)
                       && Untouched(worlds, events, next, last, p) {
      assert !Touches(worlds[last], events[last], p) ==> Untouched(worlds, events, next, k, p);
    }
    if j, next: nat :| 0 <= j < k && next == j + 1 && StepCopies(worlds[j], events[j], p, image)
                       && Untouched(worlds, events, next, k, p) {
      if j < last {
        assert Untouched(worlds, events, next, last, p);
      }
    }
    if StepCopies(worlds[last], events[last], p, image) {
      assert Untouched(worlds, events, k, k, p);
    }
  }

  /** Every place belongs to one image: no two images that are ever listed share a tag. */
  ghost predicate ListedOwn(w: World, owner: Place -> string) {
    forall key, image, i: nat :: key in w.sites && Lists(Status(w.sites[key]), image, i) ==>
      owner(w.place(Status(w.sites[key])[image].mirrors[i].image)) == image
  }

  /** Then every tag that was empty or its owner's at the start never holds another image, and a
      recorded copy that is present is a copy of its own image. */
  lemma {:induction false} ContentIsOwn(
    worlds: seq<World>, events: seq<Event>, owner: Place -> string, k: nat, p: Place)
    requires Run(worlds, events) && k <= |events|
    requires forall j :: 0 <= j < k ==> ListedOwn(worlds[j], owner)
    requires p in worlds[0].remote ==> worlds[0].remote[p].image == owner(p)
    ensures p in worlds[k].remote ==> worlds[k].remote[p].image == owner(p)
  {
    hide ListedOwn, Enabled, SiteAfter, Removed;
    if k > 0 {
      ContentIsOwn(worlds, events, owner, k - 1, p);
      assert StepAt(worlds, events, k - 1);
      if CopiesTo(worlds[k - 1], events[k - 1], p) {
        CopierOwns(worlds[k - 1], events[k - 1], owner, p);
      }
    }
  }

  lemma CopierOwns(w: World, e: Event, owner: Place -> string, p: Place)
    requires e.key in w.sites && Enabled(w, e) && ListedOwn(w, owner) && CopiesTo(w, e, p)
    ensures e.action.image == owner(p)
  {
    assert Lists(Status(w.sites[e.key]), e.action.image, e.action.index);
  }
}
