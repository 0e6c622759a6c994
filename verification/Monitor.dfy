/** The per-registry scheduler of
    internal/controller/kuik/clusterimagesetavailability_controller.go:
    monitoringCandidatesByRegistry and checkNextForRegistry. */
module Monitor {
  import opened Prelude
  import opened TrackedImages

  /** A ClusterImageSetAvailability; filterValid says that its filters compile. */
  datatype Resource = Resource(filterValid: bool, images: seq<MonitoredImage>)

  /** The registry of a reference, None when it does not parse. */
  type RegistryOf = string -> Option<string>

  datatype Candidate = Candidate(
    resource: nat, imageName: string, lastMonitor: Option<int>, registryLastMonitor: Option<int>)

  // ----- The selection rule on the check times of one registry -----

  /** metav1.Time.Before: false when either side is absent. */
  predicate Before(a: Option<int>, b: Option<int>) {
    a.Some? && b.Some? && a.value < b.value
  }

  /** The selection loop: the last entry never checked, else the first of the oldest. */
  function Pick(stamps: seq<Option<int>>): (p: nat)
    requires stamps != []
    ensures p < |stamps|
  {
    var n := |stamps| - 1;
    if n == 0 then 0
    else
      var p := Pick(stamps[..n]);
      if stamps[n].None? || Before(stamps[n], stamps[p]) then n else p
  }

  /** The most recent check, None when nothing was checked. */
  function Latest(stamps: seq<Option<int>>): Option<int> {
    if stamps == [] then None
    else
      var before, last := Latest(stamps[..|stamps| - 1]), stamps[|stamps| - 1];
      if last.Some? && (before.None? || last.value > before.value) then last else before
  }

  lemma {:induction false} PickIsMostOverdue(stamps: seq<Option<int>>, i: nat)
    requires i < |stamps|
    ensures stamps[i].None? ==> stamps[Pick(stamps)].None?
    ensures stamps[i].Some? && stamps[Pick(stamps)].Some? ==> stamps[Pick(stamps)].value <= stamps[i].value
    ensures stamps[i].None? ==> i <= Pick(stamps)
    ensures stamps[Pick(stamps)].Some? && i < Pick(stamps) ==> stamps[Pick(stamps)].value < stamps[i].value
  {
    var n := |stamps| - 1;
    if n > 0 {
      if i < n {
        PickIsMostOverdue(stamps[..n], i);
      } else {
        PickIsMostOverdue(stamps[..n], 0);
      }
    }
  }

  lemma {:induction false} LatestIsGreatest(stamps: seq<Option<int>>, i: nat)
    requires i < |stamps| && stamps[i].Some?
    ensures Latest(stamps).Some? && stamps[i].value <= Latest(stamps).value
  {
    if i < |stamps| - 1 {
      LatestIsGreatest(stamps[..|stamps| - 1], i);
    }
  }

  lemma {:induction false} LatestIsThere(stamps: seq<Option<int>>) returns (i: nat)
    requires Latest(stamps).Some?
    ensures i < |stamps| && stamps[i] == Latest(stamps)
  {
    var n := |stamps| - 1;
    if Latest(stamps) == stamps[n] {
      i := n;
    } else {
      i := LatestIsThere(stamps[..n]);
    }
  }

  // ----- The entries of one registry, across all resources -----

  datatype Loc = Loc(resource: nat, index: nat)

  function LocationsIn(registryOf: RegistryOf, images: seq<MonitoredImage>, r: string, c: nat, n: nat): (locs: seq<Loc>)
    requires n <= |images|
    ensures forall i :: 0 <= i < |locs| ==> locs[i].resource == c && locs[i].index < n
  {
    if n == 0 then []
    else
      LocationsIn(registryOf, images, r, c, n - 1) +
      if registryOf(images[n - 1].image) == Some(r) then [Loc(c, n - 1)] else []
  }

  function Locations(registryOf: RegistryOf, resources: seq<Resource>, r: string, n: nat): (locs: seq<Loc>)
    requires n <= |resources|
    ensures forall i :: 0 <= i < |locs| ==>
              locs[i].resource < n && locs[i].index < |resources[locs[i].resource].images|
  {
    if n == 0 then []
    else
      Locations(registryOf, resources, r, n - 1) +
      if resources[n - 1].filterValid
      then LocationsIn(registryOf, resources[n - 1].images, r, n - 1, |resources[n - 1].images|) else []
  }

  predicate Exists(resources: seq<Resource>, loc: Loc) {
    loc.resource < |resources| && loc.index < |resources[loc.resource].images|
  }

  ghost predicate InRange(resources: seq<Resource>, locs: seq<Loc>) {
    forall i :: 0 <= i < |locs| ==> Exists(resources, locs[i])
  }

  function At(resources: seq<Resource>, loc: Loc): MonitoredImage
    requires Exists(resources, loc)
  {
    resources[loc.resource].images[loc.index]
  }

  ghost function Stamps(resources: seq<Resource>, locs: seq<Loc>): (s: seq<Option<int>>)
    requires InRange(resources, locs)
    ensures |s| == |locs|
  {
    seq(|locs|, i requires 0 <= i < |locs| => At(resources, locs[i]).lastMonitor)
  }

  /** All entries tracked on a registry and when each was last checked. */
  ghost function RegistryLocs(registryOf: RegistryOf, resources: seq<Resource>, r: string): (locs: seq<Loc>)
    ensures InRange(resources, locs)
  {
    Locations(registryOf, resources, r, |resources|)
  }

  ghost function RegistryStamps(registryOf: RegistryOf, resources: seq<Resource>, r: string): seq<Option<int>> {
    Stamps(resources, RegistryLocs(registryOf, resources, r))
  }

  ghost function CandidateOf(resources: seq<Resource>, locs: seq<Loc>): Candidate
    requires InRange(resources, locs) && locs != []
  {
    var stamps := Stamps(resources, locs);
    var loc := locs[Pick(stamps)];
    Candidate(loc.resource, At(resources, loc).image, At(resources, loc).lastMonitor, Latest(stamps))
  }

  ghost predicate IsCandidate(candidates: map<string, Candidate>, resources: seq<Resource>, r: string, locs: seq<Loc>)
    requires InRange(resources, locs)
  {
    if locs == [] then r !in candidates else r in candidates && candidates[r] == CandidateOf(resources, locs)
  }

  ghost predicate CandidatesBelow(
    candidates: map<string, Candidate>, registryOf: RegistryOf, resources: seq<Resource>, n: nat)
    requires n <= |resources|
  {
    forall r :: IsCandidate(candidates, resources, r, Locations(registryOf, resources, r, n))
  }

  ghost predicate CandidatesUpTo(
    candidates: map<string, Candidate>, registryOf: RegistryOf, resources: seq<Resource>, c: nat, j: nat)
    requires c < |resources| && j <= |resources[c].images|
  {
    forall r :: IsCandidate(candidates, resources, r, LocationsUpTo(registryOf, resources, r, c, j))
  }

  /** For every registry: no candidate if nothing is tracked there, else the most overdue entry
      and the time of the registry's latest check. */
  method MonitoringCandidatesByRegistry(registryOf: RegistryOf, resources: seq<Resource>)
    returns (candidates: map<string, Candidate>)
    ensures forall r :: IsCandidate(candidates, resources, r, RegistryLocs(registryOf, resources, r))
  {
    candidates := map[];
    for c := 0 to |resources|
      invariant CandidatesBelow(candidates, registryOf, resources, c)
    {
      if !resources[c].filterValid {
        assert forall r :: Locations(registryOf, resources, r, c + 1) == Locations(registryOf, resources, r, c);
        continue;
      }
      candidates := ConsiderResource(registryOf, resources, candidates, c);
    }
    assert forall r :: RegistryLocs(registryOf, resources, r) == Locations(registryOf, resources, r, |resources|);
  }

  /** The inner loop over the entries of resource c. */
  method ConsiderResource(registryOf: RegistryOf, resources: seq<Resource>, before: map<string, Candidate>, c: nat)
    returns (candidates: map<string, Candidate>)
    requires c < |resources| && resources[c].filterValid
    requires CandidatesBelow(before, registryOf, resources, c)
    ensures CandidatesBelow(candidates, registryOf, resources, c + 1)
  {
    candidates := before;
    UpToEnds(before, registryOf, resources, c);
    for j := 0 to |resources[c].images|
      invariant CandidatesUpTo(candidates, registryOf, resources, c, j)
    {
      var registry := registryOf(resources[c].images[j].image);
      ghost var known := candidates;
      if registry.Some? {
        ghost var locs := LocationsUpTo(registryOf, resources, registry.value, c, j);
        assert IsCandidate(candidates, resources, registry.value, locs);
        candidates := Consider(candidates, resources, registry.value, locs, Loc(c, j));
      }
      UpToStep(known, candidates, registryOf, resources, c, j);
    }
    UpToEnds(candidates, registryOf, resources, c);
  }

  lemma UpToEnds(candidates: map<string, Candidate>, registryOf: RegistryOf, resources: seq<Resource>, c: nat)
    requires c < |resources| && resources[c].filterValid
    ensures CandidatesBelow(candidates, registryOf, resources, c)
            ==> CandidatesUpTo(candidates, registryOf, resources, c, 0)
    ensures CandidatesUpTo(candidates, registryOf, resources, c, |resources[c].images|)
            ==> CandidatesBelow(candidates, registryOf, resources, c + 1)
  {
    var n, next := |resources[c].images|, c + 1;
    assert forall r :: LocationsUpTo(registryOf, resources, r, c, 0) == Locations(registryOf, resources, r, c);
    forall r ensures Locations(registryOf, resources, r, next) == LocationsUpTo(registryOf, resources, r, c, n) {
    }
    if CandidatesUpTo(candidates, registryOf, resources, c, n) {
      forall r ensures IsCandidate(candidates, resources, r, Locations(registryOf, resources, r, next)) {
        assert IsCandidate(candidates, resources, r, LocationsUpTo(registryOf, resources, r, c, n));
      }
    }
  }

  lemma UpToStep(
    known: map<string, Candidate>, candidates: map<string, Candidate>, registryOf: RegistryOf, resources: seq<Resource>,
    c: nat, j: nat)
    requires c < |resources| && j < |resources[c].images|
    requires CandidatesUpTo(known, registryOf, resources, c, j)
    requires forall r :: registryOf(resources[c].images[j].image) != Some(r) ==>
               (r in candidates <==> r in known) && (r in known ==> candidates[r] == known[r])
    requires var registry := registryOf(resources[c].images[j].image);
             registry.Some? ==>
               var locs := LocationsUpTo(registryOf, resources, registry.value, c, j) + [Loc(c, j)];
               InRange(resources, locs) && IsCandidate(candidates, resources, registry.value, locs)
    ensures CandidatesUpTo(candidates, registryOf, resources, c, j + 1)
  {
    var next := j + 1;
    forall r ensures IsCandidate(candidates, resources, r, LocationsUpTo(registryOf, resources, r, c, next)) {
      LocationsUpToStep(registryOf, resources, r, c, j);
      assert IsCandidate(known, resources, r, LocationsUpTo(registryOf, resources, r, c, j));
    }
  }

  /** The entries of the first c resources and of the first j images of the next. */
  ghost function LocationsUpTo(
    registryOf: RegistryOf, resources: seq<Resource>, r: string, c: nat, j: nat): (locs: seq<Loc>)
    requires c < |resources| && j <= |resources[c].images|
    ensures InRange(resources, locs)
  {
    Locations(registryOf, resources, r, c) + LocationsIn(registryOf, resources[c].images, r, c, j)
  }

  lemma LocationsUpToStep(registryOf: RegistryOf, resources: seq<Resource>, r: string, c: nat, j: nat)
    requires c < |resources| && j < |resources[c].images|
    ensures LocationsUpTo(registryOf, resources, r, c, j + 1) ==
              if registryOf(resources[c].images[j].image) == Some(r)
              then LocationsUpTo(registryOf, resources, r, c, j) + [Loc(c, j)]
              else LocationsUpTo(registryOf, resources, r, c, j)
  {
  }

  /** One turn of the inner loop. */
  method Consider(
    candidates: map<string, Candidate>, resources: seq<Resource>, registry: string, ghost locs: seq<Loc>, loc: Loc)
    returns (updated: map<string, Candidate>)
    requires InRange(resources, locs) && Exists(resources, loc)
    requires IsCandidate(candidates, resources, registry, locs)
    ensures InRange(resources, locs + [loc])
    ensures IsCandidate(updated, resources, registry, locs + [loc])
    ensures forall r :: r != registry ==> (r in updated <==> r in candidates)
    ensures forall r :: r != registry && r in updated ==> updated[r] == candidates[r]
  {
    var image := At(resources, loc);
    var hasCandidate := registry in candidates;
    var candidate := if hasCandidate then candidates[registry] else Candidate(0, "", None, None);
    if image.lastMonitor.None? || !hasCandidate || Before(image.lastMonitor, candidate.lastMonitor) {
      candidate := candidate.(imageName := image.image, resource := loc.resource, lastMonitor := image.lastMonitor);
    }
    if image.lastMonitor.Some?
      && (candidate.registryLastMonitor.None? || image.lastMonitor.value > candidate.registryLastMonitor.value) {
      candidate := candidate.(registryLastMonitor := image.lastMonitor);
    }
    updated := candidates[registry := candidate];
    CandidateExtends(resources, locs, loc);
  }

  lemma CandidateExtends(resources: seq<Resource>, locs: seq<Loc>, loc: Loc)
    requires InRange(resources, locs) && Exists(resources, loc)
    ensures InRange(resources, locs + [loc])
    ensures var last := At(resources, loc).lastMonitor;
            var extended := CandidateOf(resources, locs + [loc]);
            if locs == [] then extended == Candidate(loc.resource, At(resources, loc).image, last, last)
            else
              var c := CandidateOf(resources, locs);
              var latest := if last.Some? && (c.registryLastMonitor.None? || last.value > c.registryLastMonitor.value)
                            then last else c.registryLastMonitor;
              extended == if last.None? || Before(last, c.lastMonitor)
                          then Candidate(loc.resource, At(resources, loc).image, last, latest)
                          else c.(registryLastMonitor := latest)
  {
    var all := locs + [loc];
    assert InRange(resources, all);
    var stamps := Stamps(resources, all);
    assert stamps[..|locs|] == Stamps(resources, locs);
    assert stamps[|locs|] == At(resources, loc).lastMonitor;
    assert |stamps| - 1 == |locs|;
    if locs == [] {
      assert all == [loc];
      assert stamps == [At(resources, loc).lastMonitor];
      assert stamps[..0] == [];
      assert Latest(stamps) == At(resources, loc).lastMonitor;
    }
  }

  /** An entry of this registry that is monitored. */
  ghost predicate TrackedOn(registryOf: RegistryOf, resources: seq<Resource>, registry: string, loc: Loc) {
    && Exists(resources, loc) && resources[loc.resource].filterValid
    && registryOf(At(resources, loc).image) == Some(registry)
  }

  lemma {:induction false} LocationsInMembers(
    registryOf: RegistryOf, images: seq<MonitoredImage>, r: string, c: nat, n: nat, loc: Loc)
    requires n <= |images|
    ensures loc in LocationsIn(registryOf, images, r, c, n) <==>
              loc.resource == c && loc.index < n && registryOf(images[loc.index].image) == Some(r)
  {
    if n > 0 {
      LocationsInMembers(registryOf, images, r, c, n - 1, loc);
    }
  }

  lemma {:induction false} LocationsMembers(
    registryOf: RegistryOf, resources: seq<Resource>, r: string, n: nat, loc: Loc)
    requires n <= |resources|
    ensures loc in Locations(registryOf, resources, r, n) <==>
              loc.resource < n && TrackedOn(registryOf, resources, r, loc)
  {
    if n > 0 {
      LocationsMembers(registryOf, resources, r, n - 1, loc);
      LocationsInMembers(registryOf, resources[n - 1].images, r, n - 1, |resources[n - 1].images|, loc);
    }
  }

  /** Among the monitored entries of the registry this one was never checked if any was not, and else
      was checked no later than any other. */
  ghost predicate MostOverdue(registryOf: RegistryOf, resources: seq<Resource>, r: string, loc: Loc) {
    && TrackedOn(registryOf, resources, r, loc)
    && forall other :: TrackedOn(registryOf, resources, r, other) ==>
         NotAfter(At(resources, loc).lastMonitor, At(resources, other).lastMonitor)
  }

  predicate NotAfter(a: Option<int>, b: Option<int>) {
    a.None? || (b.Some? && a.value <= b.value)
  }

  /** What the selection gives for a registry, entry by entry: a candidate exactly when an entry of a
      resource with valid filters lies on it; then one that is most overdue, with the greatest of
      all check times there. */
  lemma CandidateIsMostOverdue(
    candidates: map<string, Candidate>, registryOf: RegistryOf, resources: seq<Resource>, r: string)
    requires IsCandidate(candidates, resources, r, RegistryLocs(registryOf, resources, r))
    ensures r in candidates <==> exists loc :: TrackedOn(registryOf, resources, r, loc)
    ensures r in candidates ==>
              && (exists loc ::
                   && MostOverdue(registryOf, resources, r, loc)
                   && candidates[r].resource == loc.resource && candidates[r].imageName == At(resources, loc).image
                   && candidates[r].lastMonitor == At(resources, loc).lastMonitor)
              && (forall loc :: TrackedOn(registryOf, resources, r, loc) && At(resources, loc).lastMonitor.Some? ==>
                    && candidates[r].registryLastMonitor.Some?
                    && At(resources, loc).lastMonitor.value <= candidates[r].registryLastMonitor.value)
              && (candidates[r].registryLastMonitor.Some? ==>
                    exists loc :: TrackedOn(registryOf, resources, r, loc)
                                  && At(resources, loc).lastMonitor == candidates[r].registryLastMonitor)
  {
    hide TrackedOn, Locations, LocationsIn;
    var locs, stamps := RegistryLocs(registryOf, resources, r), RegistryStamps(registryOf, resources, r);
    forall loc ensures loc in locs <==> TrackedOn(registryOf, resources, r, loc) {
      TrackedIffListed(registryOf, resources, r, loc);
    }
    if locs != [] {
      var best := locs[Pick(stamps)];
      assert best in locs;
      forall other | TrackedOn(registryOf, resources, r, other)
        ensures NotAfter(At(resources, best).lastMonitor, At(resources, other).lastMonitor)
        ensures At(resources, other).lastMonitor.Some? ==>
                  Latest(stamps).Some? && At(resources, other).lastMonitor.value <= Latest(stamps).value
      {
        var i :| 0 <= i < |locs| && locs[i] == other;
        PickIsMostOverdue(stamps, i);
        if stamps[i].Some? {
          LatestIsGreatest(stamps, i);
        }
      }
      if Latest(stamps).Some? {
        var i := LatestIsThere(stamps);
        assert locs[i] in locs;
      }
    }
  }

  lemma TrackedIffListed(registryOf: RegistryOf, resources: seq<Resource>, r: string, loc: Loc)
    ensures loc in RegistryLocs(registryOf, resources, r) <==> TrackedOn(registryOf, resources, r, loc)
    ensures TrackedOn(registryOf, resources, r, loc) ==> Exists(resources, loc)
  {
    LocationsMembers(registryOf, resources, r, |resources|, loc);
  }

  // ----- One check -----

  /** Go's integer division truncates toward zero; dividing by zero panics. */
  function GoDiv(a: int, b: int): int
    requires b != 0
  {
    if a >= 0 then a / b else -((-a) / b)
  }

  function Tick(interval: int, maxPerInterval: int): int
    requires maxPerInterval != 0
  {
    GoDiv(interval, maxPerInterval)
  }

  /** timeUntilDue is positive unless a tick has passed since the registry's latest check; a
      registry never checked has the zero time there. */
  predicate Due(latest: Option<int>, tick: int, now: int) {
    latest.None? || tick - (now - latest.value) <= 0
  }

  /** The result of one availability check. */
  datatype CheckResult = CheckResult(credentialError: Option<string>, result: Status, checkError: string)

  class Scheduler {
    var resources: seq<Resource>

    method FindMonitoredImage(c: nat, name: string) returns (index: int)
      requires c < |resources|
      ensures index == -1 <==> forall k :: 0 <= k < |resources[c].images| ==> resources[c].images[k].image != name
      ensures index != -1 ==>
                && 0 <= index < |resources[c].images| && resources[c].images[index].image == name
                && forall k :: 0 <= k < index ==> resources[c].images[k].image != name
    {
      for i := 0 to |resources[c].images|
        invariant forall k :: 0 <= k < i ==> resources[c].images[k].image != name
      {
        if resources[c].images[i].image == name {
          return i;
        }
      }
      return -1;
    }

    /** Checks the candidate of one registry when a tick has passed; now is read to decide, at is
        the time performCheck records, as the API server keeps it. The candidate may come from
        an older state, in which case its image can be missing. */
    method CheckNextForRegistry(
      registryOf: RegistryOf, candidate: Candidate, registry: string, interval: int, maxPerInterval: int,
      now: int, at: int, outcome: CheckResult)
      returns (requeueAfter: int, checked: bool)
      requires maxPerInterval != 0 && candidate.resource < |resources|
      modifies this
      ensures var latest, tick := candidate.registryLastMonitor, GoDiv(interval, maxPerInterval);
              var due := latest.None? || latest.value + tick <= now;
              var images := old(resources)[candidate.resource].images;
              && (checked <==> due && exists k :: 0 <= k < |images| && images[k].image == candidate.imageName)
              && requeueAfter == if checked then tick else if due then 0 else latest.value + tick - now
      ensures checked ==> exists index: nat ::
                && FirstNamed(old(resources)[candidate.resource].images, candidate.imageName, index)
                && resources == Checked(old(resources), Loc(candidate.resource, index), outcome, at)
      ensures !checked ==> resources == old(resources)
      ensures IsWait(candidate.registryLastMonitor, Tick(interval, maxPerInterval), now, checked, requeueAfter)
      ensures IsSelected(old(resources), registryOf, registry, candidate) ==>
                && (checked <==> Due(Latest(old(RegistryStamps(registryOf, resources, registry))),
                                     Tick(interval, maxPerInterval), now))
                && (checked ==> Restamped(registryOf, registry, old(resources), at, resources))
    {
      var tick := Tick(interval, maxPerInterval);
      if candidate.registryLastMonitor.Some? {
        var timeUntilDue := tick - (now - candidate.registryLastMonitor.value);
        if timeUntilDue > 0 {
          SelectedIsFound(resources, registryOf, registry, candidate);
          return timeUntilDue, false;
        }
      }
      var index := FindMonitoredImage(candidate.resource, candidate.imageName);
      SelectedIsFound(resources, registryOf, registry, candidate);
      if index == -1 {
        return 0, false;
      }
      var images := resources[candidate.resource].images;
      var entry := PerformCheck(images[index], outcome.credentialError, outcome.result, outcome.checkError, at);
      ghost var before := resources;
      resources :=
        resources[candidate.resource := resources[candidate.resource].(images := images[index := entry])];
      CheckedIsRestamped(registryOf, registry, before, candidate, index, outcome, at);
      return tick, true;
    }
  }

  ghost predicate HasImage(images: seq<MonitoredImage>, name: string) {
    exists i :: 0 <= i < |images| && images[i].image == name
  }

  ghost predicate FirstNamed(images: seq<MonitoredImage>, name: string, index: nat) {
    index < |images| && images[index].image == name && forall k :: 0 <= k < index ==> images[k].image != name
  }

  /** The resources after one entry was checked. */
  ghost function Checked(resources: seq<Resource>, loc: Loc, outcome: CheckResult, at: int): seq<Resource>
    requires Exists(resources, loc)
  {
    var entry := PerformCheck(At(resources, loc), outcome.credentialError, outcome.result, outcome.checkError, at);
    var resource := resources[loc.resource];
    resources[loc.resource := resource.(images := resource.images[loc.index := entry])]
  }

  /** The candidate is the one these resources give now, and no image is listed twice. */
  ghost predicate IsSelected(resources: seq<Resource>, registryOf: RegistryOf, registry: string, candidate: Candidate) {
    && (forall c :: 0 <= c < |resources| ==> UniqueNames(resources[c].images))
    && RegistryLocs(registryOf, resources, registry) != []
    && candidate == CandidateOf(resources, RegistryLocs(registryOf, resources, registry))
  }

  /** How long to wait: until the next check is due, a tick after a check, and not at all when
      the image is missing. */
  ghost predicate IsWait(latest: Option<int>, tick: int, now: int, checked: bool, wait: int) {
    if !Due(latest, tick, now) then
      wait > 0 && Due(latest, tick, now + wait) && forall t :: t < now + wait ==> !Due(latest, tick, t)
    else wait == if checked then tick else 0
  }

  /** The entry picked on this registry has the new time; no other time changes, here or on
      another registry. */
  ghost predicate Restamped(
    registryOf: RegistryOf, registry: string, before: seq<Resource>, at: int, after: seq<Resource>)
  {
    var stamps := RegistryStamps(registryOf, before, registry);
    && stamps != []
    && RegistryStamps(registryOf, after, registry) == stamps[Pick(stamps) := Some(at)]
    && (forall r :: r != registry ==> RegistryStamps(registryOf, after, r) == RegistryStamps(registryOf, before, r))
    && (forall r :: RegistryLocs(registryOf, after, r) == RegistryLocs(registryOf, before, r))
  }

  lemma SelectedIsFound(resources: seq<Resource>, registryOf: RegistryOf, registry: string, candidate: Candidate)
    requires candidate.resource < |resources|
    ensures IsSelected(resources, registryOf, registry, candidate) ==>
              && candidate.registryLastMonitor == Latest(RegistryStamps(registryOf, resources, registry))
              && HasImage(resources[candidate.resource].images, candidate.imageName)
  {
    if IsSelected(resources, registryOf, registry, candidate) {
      var loc := RegistryLocs(registryOf, resources, registry)[Pick(RegistryStamps(registryOf, resources, registry))];
      assert resources[candidate.resource].images[loc.index].image == candidate.imageName;
    }
  }

  lemma CheckedIsRestamped(
    registryOf: RegistryOf, registry: string, before: seq<Resource>, candidate: Candidate, index: nat,
    outcome: CheckResult, at: int)
    requires candidate.resource < |before|
    requires FirstNamed(before[candidate.resource].images, candidate.imageName, index)
    ensures IsSelected(before, registryOf, registry, candidate) ==>
              Restamped(registryOf, registry, before, at, Checked(before, Loc(candidate.resource, index), outcome, at))
  {
    if IsSelected(before, registryOf, registry, candidate) {
      var loc := RegistryLocs(registryOf, before, registry)[Pick(RegistryStamps(registryOf, before, registry))];
      assert loc == Loc(candidate.resource, index);
      var entry := PerformCheck(At(before, loc), outcome.credentialError, outcome.result, outcome.checkError, at);
      CheckRestampsOne(registryOf, before, Checked(before, loc, outcome, at), registry, loc, entry);
    }
  }

  /** Only the checked entry's time changes, and only its own registry sees that. */
  lemma CheckRestampsOne(
    registryOf: RegistryOf, before: seq<Resource>, after: seq<Resource>, registry: string, loc: Loc,
    entry: MonitoredImage)
    requires RegistryLocs(registryOf, before, registry) != []
    requires loc == RegistryLocs(registryOf, before, registry)[Pick(RegistryStamps(registryOf, before, registry))]
    requires entry.image == At(before, loc).image
    requires after ==
      before[loc.resource := before[loc.resource].(images := before[loc.resource].images[loc.index := entry])]
    ensures var stamps := RegistryStamps(registryOf, before, registry);
            RegistryStamps(registryOf, after, registry) == stamps[Pick(stamps) := entry.lastMonitor]
    ensures forall r :: r != registry ==> RegistryStamps(registryOf, after, r) == RegistryStamps(registryOf, before, r)
    ensures forall r :: RegistryLocs(registryOf, after, r) == RegistryLocs(registryOf, before, r)
  {
    var locs, stamps := RegistryLocs(registryOf, before, registry), RegistryStamps(registryOf, before, registry);
    forall r ensures RegistryLocs(registryOf, after, r) == RegistryLocs(registryOf, before, r) {
      SameLocations(registryOf, before, after, r, |before|);
    }
    LocationsAreDistinct(registryOf, before, registry, |before|);
    forall i | 0 <= i < |locs|
      ensures At(after, locs[i]).lastMonitor == if i == Pick(stamps) then entry.lastMonitor
        else At(before, locs[i]).lastMonitor
    {
      assert i != Pick(stamps) ==> locs[i] != loc;
    }
    assert RegistryStamps(registryOf, after, registry) == stamps[Pick(stamps) := entry.lastMonitor];
    LocationsHaveTheirRegistry(registryOf, before, registry, |before|, Pick(stamps));
    forall r | r != registry
      ensures RegistryStamps(registryOf, after, r) == RegistryStamps(registryOf, before, r)
    {
      var l := RegistryLocs(registryOf, before, r);
      forall i | 0 <= i < |l| ensures At(after, l[i]) == At(before, l[i]) {
        LocationsHaveTheirRegistry(registryOf, before, r, |before|, i);
      }
    }
  }

  ghost predicate SameNames(a: seq<Resource>, b: seq<Resource>) {
    && |a| == |b|
    && forall c :: 0 <= c < |a| ==>
         && a[c].filterValid == b[c].filterValid
         && |a[c].images| == |b[c].images|
         && forall i :: 0 <= i < |a[c].images| ==> a[c].images[i].image == b[c].images[i].image
  }

  lemma {:induction false} SameLocations(registryOf: RegistryOf, a: seq<Resource>, b: seq<Resource>, r: string, n: nat)
    requires SameNames(a, b) && n <= |a|
    ensures Locations(registryOf, a, r, n) == Locations(registryOf, b, r, n)
  {
    if n > 0 {
      SameLocations(registryOf, a, b, r, n - 1);
      SameLocationsIn(registryOf, a[n - 1].images, b[n - 1].images, r, n - 1, |a[n - 1].images|);
    }
  }

  lemma {:induction false} SameLocationsIn(
    registryOf: RegistryOf, a: seq<MonitoredImage>, b: seq<MonitoredImage>, r: string, c: nat, n: nat)
    requires n <= |a| == |b| && forall i :: 0 <= i < |a| ==> a[i].image == b[i].image
    ensures LocationsIn(registryOf, a, r, c, n) == LocationsIn(registryOf, b, r, c, n)
  {
    if n > 0 {
      SameLocationsIn(registryOf, a, b, r, c, n - 1);
    }
  }

  lemma {:induction false} LocationsInAreDistinct(
    registryOf: RegistryOf, images: seq<MonitoredImage>, r: string, c: nat, n: nat)
    requires n <= |images|
    ensures Distinct(LocationsIn(registryOf, images, r, c, n))
    ensures forall i :: 0 <= i < |LocationsIn(registryOf, images, r, c, n)| ==>
              registryOf(images[LocationsIn(registryOf, images, r, c, n)[i].index].image) == Some(r)
  {
    if n > 0 {
      LocationsInAreDistinct(registryOf, images, r, c, n - 1);
    }
  }

  lemma {:induction false} LocationsAreDistinct(registryOf: RegistryOf, resources: seq<Resource>, r: string, n: nat)
    requires n <= |resources|
    ensures Distinct(Locations(registryOf, resources, r, n))
  {
    if n > 0 {
      LocationsAreDistinct(registryOf, resources, r, n - 1);
      LocationsInAreDistinct(registryOf, resources[n - 1].images, r, n - 1, |resources[n - 1].images|);
    }
  }

  lemma {:induction false} LocationsHaveTheirRegistry(
    registryOf: RegistryOf, resources: seq<Resource>, r: string, n: nat, i: nat)
    requires n <= |resources| && i < |Locations(registryOf, resources, r, n)|
    ensures registryOf(At(resources, Locations(registryOf, resources, r, n)[i]).image) == Some(r)
  {
    var front := Locations(registryOf, resources, r, n - 1);
    if i < |front| {
      LocationsHaveTheirRegistry(registryOf, resources, r, n - 1, i);
    } else {
      LocationsInAreDistinct(registryOf, resources[n - 1].images, r, n - 1, |resources[n - 1].images|);
    }
  }
}
