/** defaultPod of internal/webhook/core/v1/pod_webhook.go: which containers are processed, what
    is recorded in the original-images annotation, and what repeated admissions can do. */
module PodDefaulter {
  import opened Prelude
  import opened Alternatives
  import opened Routing

  datatype PullPolicy = Always | IfNotPresent | Never

  datatype ContainerSpec = ContainerSpec(name: string, image: string, pullPolicy: PullPolicy)

  /** The parts of a pod the webhook reads or writes; originals is the parsed annotation. */
  datatype PodState = PodState(
    containers: seq<ContainerSpec>, initContainers: seq<ContainerSpec>, originals: map<string, string>)

  datatype Slot = Regular(index: nat) | Init(index: nat)

  datatype Objects = Objects(mirrorSets: seq<MirrorSet>, replicatedSets: seq<ReplicatedSet>)

  /** One call of the webhook and what it meets outside: skip is a kubelet mirror pod or a
      global skip, objects the custom resources whose pod filter matched (None when they or a
      pull secret cannot be read), cached the alternative cache (None is a miss), and ensured the
      name of the pull secret that an alternative with a credential needs in the pod's namespace,
      None when it cannot be copied there. */
  datatype Admission = Admission(
    skip: bool,
    rewriteOnNever: bool,
    honorPrioritiesOnAlways: bool,
    objects: Option<Objects>,
    parse: Parser,
    readable: Credential -> bool,
    available: (Slot, string) -> bool,
    arrivals: (Slot, nat) -> seq<nat>,
    cached: Slot -> Option<Option<AlternativeImage>>,
    ensured: AlternativeImage -> Option<string>)

  /** Probe results come in some order, each exactly once. */
  ghost predicate ArrivesOnce(adm: Admission) {
    forall slot, n :: IsPermutation(adm.arrivals(slot, n), n)
  }

  function NormalizedText(name: Name): string {
    name.registry + "/" + name.path
  }

  /** Digests, unparsable references and, unless configured, pull policy Never stay as they are. */
  predicate Eligible(adm: Admission, c: ContainerSpec) {
    adm.parse(c.image).Some? && '@' !in c.image && (adm.rewriteOnNever || c.pullPolicy != Never)
  }

  function Normalized(adm: Admission, c: ContainerSpec): string
    requires Eligible(adm, c)
  {
    NormalizedText(adm.parse(c.image).value)
  }

  predicate Pinned(adm: Admission, c: ContainerSpec) {
    c.pullPolicy == Always && !adm.honorPrioritiesOnAlways
  }

  /** The alternative chosen for a container, None when there is none. */
  ghost function Chosen(adm: Admission, slot: Slot, c: ContainerSpec): Result<Option<AlternativeImage>, RouteError>
    requires Eligible(adm, c) && adm.objects.Some?
  {
    match adm.cached(slot)
    case Some(hit) => Ok(hit)
    case None =>
      match FinalImages(adm.parse, adm.readable, adm.objects.value.mirrorSets, adm.objects.value.replicatedSets,
                        Normalized(adm, c), Pinned(adm, c))
      case Err(e) => Err(e)
      case Ok(images) => Ok(BestAvailable(images, (ref: string) => adm.available(slot, ref)))
  }

  /** The alternative a container is moved to, if any; an error when the call fails on it. */
  ghost function Rerouted(adm: Admission, slot: Slot, c: ContainerSpec): Result<Option<AlternativeImage>, RouteError> {
    if !Eligible(adm, c) then Ok(None)
    else if adm.objects.None? then Err(UnreadableSecret)
    else match Chosen(adm, slot, c)
      case Err(e) => Err(e)
      case Ok(None) => Ok(None)
      case Ok(Some(best)) =>
        if best.reference == Normalized(adm, c) then Ok(None)
        else if best.credential.Some? && adm.ensured(best).None? then Err(UnreadableSecret)
        else Ok(Some(best))
  }

  /** The image a container has after it was processed, None when the call fails on it. */
  ghost function Decision(adm: Admission, slot: Slot, c: ContainerSpec): Option<string> {
    match Rerouted(adm, slot, c)
    case Err(_) => None
    case Ok(None) => Some(c.image)
    case Ok(Some(best)) => Some(best.reference)
  }

  /** The pull secret the pod needs for it. */
  ghost function SecretFor(adm: Admission, slot: Slot, c: ContainerSpec): Option<string> {
    match Rerouted(adm, slot, c)
    case Ok(Some(best)) => if best.credential.Some? then adm.ensured(best) else None
    case _ => None
  }

  /** The annotation after the first n containers: a name already there is left alone. */
  ghost function Recorded(originals: map<string, string>, containers: seq<ContainerSpec>, n: nat): map<string, string>
    requires n <= |containers|
  {
    if n == 0 then originals
    else
      var before := Recorded(originals, containers, n - 1);
      var c := containers[n - 1];
      if c.name in before then before else before[c.name := c.image]
  }

  ghost function AllRecorded(p: PodState): map<string, string> {
    Recorded(p.originals, p.containers, |p.containers|)
  }

  ghost predicate FreshContainer(p: PodState, i: nat)
    requires i < |p.containers|
  {
    p.containers[i].name !in Recorded(p.originals, p.containers, i)
  }

  ghost predicate FreshInit(p: PodState, i: nat)
    requires i < |p.initContainers|
  {
    "init:" + p.initContainers[i].name !in AllRecorded(p)
  }

  ghost predicate Succeeds(adm: Admission, p: PodState) {
    && (forall i :: 0 <= i < |p.containers| && FreshContainer(p, i) ==>
        Decision(adm, Regular(i), p.containers[i]).Some?)
    && (forall i :: 0 <= i < |p.initContainers| && FreshInit(p, i) ==>
        Decision(adm, Init(i), p.initContainers[i]).Some?)
  }

  ghost function ContainerAfter(adm: Admission, p: PodState, i: nat): ContainerSpec
    requires i < |p.containers|
  {
    if FreshContainer(p, i) then Decided(adm, Regular(i), p.containers[i]) else p.containers[i]
  }

  ghost function InitAfter(adm: Admission, p: PodState, i: nat): ContainerSpec
    requires i < |p.initContainers|
  {
    if FreshInit(p, i) then Decided(adm, Init(i), p.initContainers[i]) else p.initContainers[i]
  }

  /** The pod as a successful call leaves it. */
  ghost function Defaulted(adm: Admission, p: PodState): PodState {
    if adm.skip then p
    else PodState(
      seq(|p.containers|, i requires 0 <= i < |p.containers| => ContainerAfter(adm, p, i)),
      seq(|p.initContainers|, i requires 0 <= i < |p.initContainers| => InitAfter(adm, p, i)),
      AllRecorded(p))
  }

  // ----- The method -----

  class Pod {
    var containers: seq<ContainerSpec>
    var initContainers: seq<ContainerSpec>
    var originals: map<string, string>
    var pullSecrets: seq<string>

    ghost function State(): PodState
      reads this
    {
      PodState(containers, initContainers, originals)
    }

    /** Records the images not recorded yet and collects the containers to process. */
    method CollectContainers() returns (slots: seq<Slot>)
      modifies this`originals
      ensures originals == AllRecorded(old(State()))
      ensures forall slot :: slot in slots <==> IsFresh(old(State()), slot)
      ensures Distinct(slots)
    {
      slots := [];
      for i := 0 to |containers|
        invariant originals == Recorded(old(originals), containers, i)
        invariant forall slot :: slot in slots <==>
          slot.Regular? && slot.index < i && FreshContainer(old(State()), slot.index)
        invariant Distinct(slots)
      {
        if containers[i].name in originals {
          continue;
        }
        originals := originals[containers[i].name := containers[i].image];
        slots := slots + [Regular(i)];
      }
      for i := 0 to |initContainers|
        invariant originals == AllRecorded(old(State()))
        invariant forall slot :: slot in slots <==>
                    match slot
                    case Regular(k) => k < |containers| && FreshContainer(old(State()), k)
                    case Init(k) => k < i && FreshInit(old(State()), k)
        invariant Distinct(slots)
      {
        if "init:" + initContainers[i].name in originals {
          continue;
        }
        assert Init(i) !in slots;
        slots := slots + [Init(i)];
      }
    }

    /** The choice for one container: findBestAlternativeCached and the test against its own image. */
    method RouteContainer(adm: Admission, slot: Slot, c: ContainerSpec)
      returns (best: Result<Option<AlternativeImage>, RouteError>)
      requires ArrivesOnce(adm) && Eligible(adm, c) && adm.objects.Some?
      ensures best == match Chosen(adm, slot, c)
                      case Ok(Some(chosen)) => Ok(if chosen.reference == Normalized(adm, c) then None else Some(chosen))
                      case other => other
    {
      var normalized := Normalized(adm, c);
      var chosen: Option<AlternativeImage>;
      if adm.cached(slot).Some? {
        chosen := adm.cached(slot).value;
      } else {
        var objects := adm.objects.value;
        var candidates := new Container();
        var error := BuildAlternativesList(adm.parse, adm.readable, objects.mirrorSets, objects.replicatedSets,
                                           normalized, Pinned(adm, c), candidates);
        if error.Some? {
          return Err(error.value);
        }
        var images := candidates.images;
        chosen :=
          FindBestAlternative(images, (ref: string) => adm.available(slot, ref), adm.arrivals(slot, |images|));
      }
      if chosen.Some? && chosen.value.reference == normalized {
        return Ok(None);
      }
      return Ok(chosen);
    }

    /** On failure the admission request is answered with an error and the changes are dropped. */
    method DefaultPod(adm: Admission) returns (ok: bool)
      requires ArrivesOnce(adm)
      modifies this
      ensures ok <==> adm.skip || Succeeds(adm, old(State()))
      ensures ok ==> State() == Defaulted(adm, old(State()))
      ensures ok ==> if adm.skip then pullSecrets == old(pullSecrets)
                     else SecretsInjected(adm, old(State()), old(pullSecrets), pullSecrets)
    {
      if adm.skip {
        return true;
      }
      ghost var before := State();
      var slots := CollectContainers();
      ok := ProcessSlots(adm, slots, before);
      if ok {
        assert containers == Defaulted(adm, before).containers;
        assert initContainers == Defaulted(adm, before).initContainers;
      }
    }

    /** One turn of the loop: touches only its own slot, and adds its pull secret. */
    method ProcessSlot(adm: Admission, slot: Slot) returns (ok: bool)
      requires ArrivesOnce(adm) && InRange(State(), slot)
      modifies this`containers, this`initContainers, this`pullSecrets
      ensures ok <==> Decision(adm, slot, SpecAt(old(State()), slot)).Some?
      ensures ok ==>
                containers == if slot.Init? then old(containers)
                              else old(containers)[slot.index := Decided(adm, slot, old(containers)[slot.index])]
      ensures ok ==>
                var inits := old(initContainers);
                initContainers == if slot.Regular? then inits
                                  else inits[slot.index := Decided(adm, slot, inits[slot.index])]
      ensures ok ==> pullSecrets == Injected(old(pullSecrets), SecretFor(adm, slot, SpecAt(old(State()), slot)))
    {
      var c := if slot.Regular? then containers[slot.index] else initContainers[slot.index];
      if !Eligible(adm, c) {
        return true;
      }
      if adm.objects.None? {
        return false;
      }
      var best := RouteContainer(adm, slot, c);
      if best.Err? {
        return false;
      }
      if best.value.None? {
        return true;
      }
      var alternative := best.value.value;
      match slot {
        case Regular(i) => containers := containers[i := c.(image := alternative.reference)];
        case Init(i) => initContainers := initContainers[i := c.(image := alternative.reference)];
      }
      if alternative.credential.Some? {
        var target := adm.ensured(alternative);
        if target.None? {
          return false;
        }
        if target.value !in pullSecrets {
          pullSecrets := pullSecrets + [target.value];
        }
      }
      return true;
    }

    method ProcessSlots(adm: Admission, slots: seq<Slot>, ghost before: PodState) returns (ok: bool)
      requires ArrivesOnce(adm) && Distinct(slots)
      requires containers == before.containers && initContainers == before.initContainers
      requires forall slot :: slot in slots <==> IsFresh(before, slot)
      modifies this`containers, this`initContainers, this`pullSecrets
      ensures ok <==> Succeeds(adm, before)
      ensures ok ==> |containers| == |before.containers| && |initContainers| == |before.initContainers|
      ensures ok ==> forall i :: 0 <= i < |containers| ==> containers[i] == ContainerAfter(adm, before, i)
      ensures ok ==> forall i :: 0 <= i < |initContainers| ==> initContainers[i] == InitAfter(adm, before, i)
      ensures ok ==> SecretsInjected(adm, before, old(pullSecrets), pullSecrets)
    {
      hide Decided, Decision, SecretFor, FreshContainer, FreshInit, InjectedBelow, Succeeds, SecretsInjected,
        ContainerAfter, InitAfter;
      forall k | 0 <= k < |slots| ensures IsFresh(before, slots[k]) {
        assert slots[k] in slots;
      }
      NothingInjected(adm, before, slots, pullSecrets);
      for n := 0 to |slots|
        invariant forall k :: 0 <= k < |slots| ==> InRange(before, slots[k])
        invariant |containers| == |before.containers| && |initContainers| == |before.initContainers|
        invariant forall i :: 0 <= i < |containers| ==>
                    containers[i] == if Regular(i) in slots[..n] then Decided(adm, Regular(i), before.containers[i])
                                     else before.containers[i]
        invariant forall i :: 0 <= i < |initContainers| ==>
                    initContainers[i] == if Init(i) in slots[..n] then Decided(adm, Init(i), before.initContainers[i])
                                         else before.initContainers[i]
        invariant forall k :: 0 <= k < n ==> Decision(adm, slots[k], SpecAt(before, slots[k])).Some?
        invariant InjectedBelow(adm, before, slots, n, old(pullSecrets), pullSecrets)
      {
        assert slots[..n + 1] == slots[..n] + [slots[n]];
        assert slots[n] !in slots[..n];
        ghost var secrets := pullSecrets;
        var done := ProcessSlot(adm, slots[n]);
        if !done {
          FailedSlot(adm, before, slots[n]);
          return false;
        }
        InjectionStep(adm, before, slots, n, old(pullSecrets), secrets);
      }
      assert slots[..|slots|] == slots;
      AllSlotsDone(adm, before, slots);
      AllInjected(adm, before, slots, old(pullSecrets), pullSecrets);
      AllDecided(adm, before, slots);
      return true;
    }
  }

  /** A pull secret is added at the end, unless the pod has it already. */
  function Injected(secrets: seq<string>, added: Option<string>): seq<string> {
    if added.Some? && added.value !in secrets then secrets + [added.value] else secrets
  }

  /** The pod keeps its pull secrets and gains, once each, exactly those that containers moved in
      this call need and that it lacked. */
  ghost predicate SecretsInjected(adm: Admission, p: PodState, before: seq<string>, after: seq<string>) {
    && before <= after
    && (forall name :: name in after <==> name in before || NeedsSecret(adm, p, name))
    && (forall i, j :: 0 <= i < j < |after| && j >= |before| ==> after[i] != after[j])
  }

  ghost predicate NeedsSecret(adm: Admission, p: PodState, name: string) {
    exists slot :: IsFresh(p, slot) && SecretFor(adm, slot, SpecAt(p, slot)) == Some(name)
  }

  ghost predicate InjectedBelow(
    adm: Admission, p: PodState, slots: seq<Slot>, n: nat, before: seq<string>, after: seq<string>)
    requires n <= |slots| && forall k :: 0 <= k < |slots| ==> InRange(p, slots[k])
  {
    && before <= after
    && (forall name :: name in after <==>
          name in before || exists k :: 0 <= k < n && SecretFor(adm, slots[k], SpecAt(p, slots[k])) == Some(name))
    && (forall i, j :: 0 <= i < j < |after| && j >= |before| ==> after[i] != after[j])
  }

  lemma NothingInjected(adm: Admission, p: PodState, slots: seq<Slot>, secrets: seq<string>)
    requires forall k :: 0 <= k < |slots| ==> InRange(p, slots[k])
    ensures InjectedBelow(adm, p, slots, 0, secrets, secrets)
  {
  }

  lemma InjectionStep(adm: Admission, p: PodState, slots: seq<Slot>, n: nat, before: seq<string>, secrets: seq<string>)
    requires n < |slots| && forall k :: 0 <= k < |slots| ==> InRange(p, slots[k])
    requires InjectedBelow(adm, p, slots, n, before, secrets)
    ensures InjectedBelow(adm, p, slots, n + 1, before,
                          Injected(secrets, SecretFor(adm, slots[n], SpecAt(p, slots[n]))))
  {
    hide SecretFor;
    var added := SecretFor(adm, slots[n], SpecAt(p, slots[n]));
    var after := Injected(secrets, added);
    forall name ensures name in after <==> name in secrets || added == Some(name) {
    }
  }

  lemma AllInjected(adm: Admission, p: PodState, slots: seq<Slot>, before: seq<string>, after: seq<string>)
    requires forall slot :: slot in slots <==> IsFresh(p, slot)
    requires forall k :: 0 <= k < |slots| ==> InRange(p, slots[k])
    requires InjectedBelow(adm, p, slots, |slots|, before, after)
    ensures SecretsInjected(adm, p, before, after)
  {
    hide SecretFor;
    forall name ensures name in after <==> name in before || NeedsSecret(adm, p, name) {
      if k :| 0 <= k < |slots| && SecretFor(adm, slots[k], SpecAt(p, slots[k])) == Some(name) {
        assert slots[k] in slots;
      }
      if slot :| IsFresh(p, slot) && SecretFor(adm, slot, SpecAt(p, slot)) == Some(name) {
        assert slot in slots;
        var k :| 0 <= k < |slots| && slots[k] == slot;
      }
    }
  }

  /** The container with its decided image. */
  ghost function Decided(adm: Admission, slot: Slot, c: ContainerSpec): ContainerSpec {
    var d := Decision(adm, slot, c);
    if d.Some? then c.(image := d.value) else c
  }

  ghost predicate IsFresh(p: PodState, slot: Slot) {
    match slot
    case Regular(i) => i < |p.containers| && FreshContainer(p, i)
    case Init(i) => i < |p.initContainers| && FreshInit(p, i)
  }

  lemma FailedSlot(adm: Admission, p: PodState, slot: Slot)
    requires IsFresh(p, slot) && Decision(adm, slot, SpecAt(p, slot)).None?
    ensures !Succeeds(adm, p)
  {
  }

  /** A container is decided exactly when its slot is among the fresh ones. */
  lemma AllDecided(adm: Admission, p: PodState, slots: seq<Slot>)
    requires forall slot :: slot in slots <==> IsFresh(p, slot)
    ensures forall i :: 0 <= i < |p.containers| ==>
              ContainerAfter(adm, p, i) ==
              if Regular(i) in slots then Decided(adm, Regular(i), p.containers[i]) else p.containers[i]
    ensures forall i :: 0 <= i < |p.initContainers| ==>
              InitAfter(adm, p, i) ==
              if Init(i) in slots then Decided(adm, Init(i), p.initContainers[i]) else p.initContainers[i]
  {
    hide Decided, FreshContainer, FreshInit;
    forall i | 0 <= i < |p.containers| ensures Regular(i) in slots <==> FreshContainer(p, i) {
      assert IsFresh(p, Regular(i)) <==> FreshContainer(p, i);
    }
    forall i | 0 <= i < |p.initContainers| ensures Init(i) in slots <==> FreshInit(p, i) {
      assert IsFresh(p, Init(i)) <==> FreshInit(p, i);
    }
  }

  lemma AllSlotsDone(adm: Admission, p: PodState, slots: seq<Slot>)
    requires forall slot :: slot in slots <==> IsFresh(p, slot)
    requires forall k :: 0 <= k < |slots| ==> InRange(p, slots[k]) && Decision(adm, slots[k], SpecAt(p, slots[k])).Some?
    ensures Succeeds(adm, p)
  {
    forall slot | IsFresh(p, slot) ensures Decision(adm, slot, SpecAt(p, slot)).Some? {
      assert slot in slots;
      var k :| 0 <= k < |slots| && slots[k] == slot;
    }
    forall i | 0 <= i < |p.containers| && FreshContainer(p, i)
      ensures Decision(adm, Regular(i), p.containers[i]).Some?
    {
      assert IsFresh(p, Regular(i));
    }
    forall i | 0 <= i < |p.initContainers| && FreshInit(p, i)
      ensures Decision(adm, Init(i), p.initContainers[i]).Some?
    {
      assert IsFresh(p, Init(i));
    }
  }

  ghost predicate InRange(p: PodState, slot: Slot) {
    if slot.Regular? then slot.index < |p.containers| else slot.index < |p.initContainers|
  }

  ghost function SpecAt(p: PodState, slot: Slot): ContainerSpec
    requires InRange(p, slot)
  {
    if slot.Regular? then p.containers[slot.index] else p.initContainers[slot.index]
  }

  // ----- End to end -----

  /** A container keeps its image whatever resources, caches and probes there are exactly when its
      reference does not parse or has a digest, or its pull policy is Never and such containers are
      not to be rewritten. */
  lemma UntouchedIff(adm: Admission, slot: Slot, c: ContainerSpec)
    ensures (forall other: Admission :: other.parse == adm.parse && other.rewriteOnNever == adm.rewriteOnNever ==>
               Decision(other, slot, c) == Some(c.image)) <==>
            adm.parse(c.image).None? || '@' in c.image || (c.pullPolicy == Never && !adm.rewriteOnNever)
  {
    hide FinalImages;
    if adm.parse(c.image).Some? && '@' !in c.image && (c.pullPolicy == Never ==> adm.rewriteOnNever) {
      var elsewhere := AlternativeImage(c.image + Normalized(adm, c) + "+", None);
      var other := adm.(objects := Some(Objects([], [])), cached := _ => Some(Some(elsewhere)));
      assert Chosen(other, slot, c) == Ok(Some(elsewhere));
      assert |elsewhere.reference| > |Normalized(adm, c)| && |elsewhere.reference| > |c.image|;
      assert Decision(other, slot, c) == Some(elsewhere.reference);
    }
  }

  /** What comes of a choice for a container that asks for this normalised image: it keeps its image
      when nothing was chosen or its own image was; otherwise it moves, with the pull secret that a
      choice with a credential needs, and the call fails when that cannot be had. */
  ghost predicate Follows(
    adm: Admission, slot: Slot, c: ContainerSpec, image: string, choice: Option<AlternativeImage>)
  {
    if choice.None? || choice.value.reference == image
    then Decision(adm, slot, c) == Some(c.image) && SecretFor(adm, slot, c) == None
    else if choice.value.credential.None?
    then Decision(adm, slot, c) == Some(choice.value.reference) && SecretFor(adm, slot, c) == None
    else
      && Decision(adm, slot, c) == (if adm.ensured(choice.value).Some? then Some(choice.value.reference) else None)
      && SecretFor(adm, slot, c) == adm.ensured(choice.value)
  }

  /** On a cache hit the cached choice is followed, none being one of them. */
  lemma CachedChoiceIsFollowed(adm: Admission, slot: Slot, c: ContainerSpec, choice: Option<AlternativeImage>)
    requires adm.parse(c.image).Some? && '@' !in c.image && (c.pullPolicy == Never ==> adm.rewriteOnNever)
    requires adm.cached(slot) == Some(choice)
    ensures adm.objects.None? ==> Decision(adm, slot, c) == None
    ensures var name := adm.parse(c.image).value;
            adm.objects.Some? ==> Follows(adm, slot, c, name.registry + "/" + name.path, choice)
  {
  }

  /** No candidate that is ranked before x is available, and x is. */
  ghost predicate IsBestAvailable(s: seq<Alternative>, available: string -> bool, x: nat) {
    && x < |s| && available(s[x].reference)
    && forall y :: 0 <= y < |s| && Better(s, y, x) ==>
         s[y].reference != s[x].reference && !available(s[y].reference)
  }

  /** On a cache miss a processed container gets the best-ranked candidate that is available, every
      better-ranked one having been found unavailable; it keeps its image when that candidate is
      its own image, when nothing is available, or when there is only one reference. It fails when
      the list cannot be built. An original pulled always is pinned first, unless configured
      otherwise. The order in which probe results arrive does not occur in the statement. */
  lemma ContainerIsRoutedByPriority(adm: Admission, slot: Slot, c: ContainerSpec)
    requires adm.parse(c.image).Some? && '@' !in c.image && (c.pullPolicy == Never ==> adm.rewriteOnNever)
    requires adm.cached(slot).None?
    ensures adm.objects.None? ==> Decision(adm, slot, c) == None
    ensures adm.objects.Some? ==>
              var name, objects := adm.parse(c.image).value, adm.objects.value;
              var image := name.registry + "/" + name.path;
              var pinned := c.pullPolicy == Always && !adm.honorPrioritiesOnAlways;
              var available := (ref: string) => adm.available(slot, ref);
              if FinalImages(adm.parse, adm.readable, objects.mirrorSets, objects.replicatedSets, image, pinned).Err?
              then Decision(adm, slot, c) == None
              else
                var s := Candidates(adm.parse, objects.mirrorSets, objects.replicatedSets, image, pinned).value;
                if |RankedAlternatives(s)| < 2 || forall y :: 0 <= y < |s| ==> !available(s[y].reference)
                then Follows(adm, slot, c, image, None)
                else exists x: nat ::
                  IsBestAvailable(s, available, x) && Follows(adm, slot, c, image, Some(ImageOf(s[x])))
  {
    if adm.objects.Some? {
      hide Follows, IsBestAvailable, FinalImages, BestAvailable;
      var objects, image := adm.objects.value, Normalized(adm, c);
      var pinned := Pinned(adm, c);
      var final := FinalImages(adm.parse, adm.readable, objects.mirrorSets, objects.replicatedSets, image, pinned);
      if final.Ok? {
        var available := (ref: string) => adm.available(slot, ref);
        var best := BestAvailable(final.value, available);
        assert Chosen(adm, slot, c) == Ok(best);
        ChoiceIsFollowed(adm, slot, c, best);
        BestIsAvailable(adm.parse, adm.readable, objects.mirrorSets, objects.replicatedSets, image, pinned, available);
      }
    }
  }

  lemma ChoiceIsFollowed(adm: Admission, slot: Slot, c: ContainerSpec, choice: Option<AlternativeImage>)
    requires Eligible(adm, c) && adm.objects.Some? && Chosen(adm, slot, c) == Ok(choice)
    ensures Follows(adm, slot, c, Normalized(adm, c), choice)
  {
    hide Chosen;
  }

  /** What is taken from a list that can be built. */
  lemma BestIsAvailable(
    parse: Parser, readable: Credential -> bool, mirrorSets: seq<MirrorSet>, replicatedSets: seq<ReplicatedSet>,
    image: string, pinned: bool, available: string -> bool)
    requires FinalImages(parse, readable, mirrorSets, replicatedSets, image, pinned).Ok?
    ensures var final := FinalImages(parse, readable, mirrorSets, replicatedSets, image, pinned).value;
            var s := Candidates(parse, mirrorSets, replicatedSets, image, pinned).value;
            var best := BestAvailable(final, available);
            if |RankedAlternatives(s)| < 2 || forall y :: 0 <= y < |s| ==> !available(s[y].reference)
            then best == None
            else exists x: nat :: IsBestAvailable(s, available, x) && best == Some(ImageOf(s[x]))
  {
    hide Candidates, RankedAlternatives, Better, ImagesOf, BestAvailable;
    var s := Candidates(parse, mirrorSets, replicatedSets, image, pinned).value;
    var best := BestAvailable(ImagesOf(s, RankedAlternatives(s)), available);
    RoutingIsPriorityScan(s, available, best);
    if best.Some? {
      var x: nat :| x < |s| && ImageOf(s[x]) == best.value && IsBestAvailable(s, available, x);
    }
  }

  /** The container's name is in the annotation, or an earlier container has it. */
  ghost predicate NameIsTaken(p: PodState, i: nat)
    requires i < |p.containers|
  {
    p.containers[i].name in p.originals || exists j :: 0 <= j < i && p.containers[j].name == p.containers[i].name
  }

  /** The same for an init container, which is looked for under a key of its own. */
  ghost predicate InitKeyIsTaken(p: PodState, i: nat)
    requires i < |p.initContainers|
  {
    var key := "init:" + p.initContainers[i].name;
    key in p.originals || exists j :: 0 <= j < |p.containers| && p.containers[j].name == key
  }

  lemma FreshIff(p: PodState)
    ensures forall i :: 0 <= i < |p.containers| ==> (FreshContainer(p, i) <==> !NameIsTaken(p, i))
    ensures forall i :: 0 <= i < |p.initContainers| ==> (FreshInit(p, i) <==> !InitKeyIsTaken(p, i))
  {
    forall i | 0 <= i < |p.containers| ensures FreshContainer(p, i) <==> !NameIsTaken(p, i) {
      RecordedExtends(p.originals, p.containers, i);
    }
    RecordedExtends(p.originals, p.containers, |p.containers|);
  }

  /** The whole of an admission that is not skipped. It succeeds exactly when every container whose
      name is not taken can be decided. These get the image decided for them and change in nothing
      else, the others stay as they are; and the annotation gains, for each non-init container whose
      name was not taken, the image it had. */
  lemma AdmissionOutcome(adm: Admission, p: PodState)
    requires !adm.skip
    ensures Succeeds(adm, p) <==>
              && (forall i :: 0 <= i < |p.containers| && !NameIsTaken(p, i) ==>
                    Decision(adm, Regular(i), p.containers[i]).Some?)
              && (forall i :: 0 <= i < |p.initContainers| && !InitKeyIsTaken(p, i) ==>
                    Decision(adm, Init(i), p.initContainers[i]).Some?)
    ensures var q := Defaulted(adm, p);
            && |q.containers| == |p.containers| && |q.initContainers| == |p.initContainers|
            && (forall name :: name in q.originals <==>
                  name in p.originals || exists i :: 0 <= i < |p.containers| && p.containers[i].name == name)
            && (forall name :: name in p.originals ==> q.originals[name] == p.originals[name])
            && (forall i :: 0 <= i < |p.containers| && !NameIsTaken(p, i) ==>
                  q.originals[p.containers[i].name] == p.containers[i].image)
    ensures Succeeds(adm, p) ==>
              var q := Defaulted(adm, p);
              && (forall i :: 0 <= i < |p.containers| ==>
                    q.containers[i] == p.containers[i].(image :=
                      if NameIsTaken(p, i) then p.containers[i].image
                      else Decision(adm, Regular(i), p.containers[i]).value))
              && (forall i :: 0 <= i < |p.initContainers| ==>
                    q.initContainers[i] == p.initContainers[i].(image :=
                      if InitKeyIsTaken(p, i) then p.initContainers[i].image
                      else Decision(adm, Init(i), p.initContainers[i]).value))
  {
    hide FreshContainer, FreshInit, NameIsTaken, InitKeyIsTaken, Decision, AllRecorded, ContainerAfter, InitAfter;
    SucceedsIff(adm, p);
    RecordsAfter(p);
    hide Succeeds;
    if Succeeds(adm, p) {
      DecidedContainers(adm, p);
    }
  }

  lemma SucceedsIff(adm: Admission, p: PodState)
    ensures Succeeds(adm, p) <==>
              && (forall i :: 0 <= i < |p.containers| && !NameIsTaken(p, i) ==>
                    Decision(adm, Regular(i), p.containers[i]).Some?)
              && (forall i :: 0 <= i < |p.initContainers| && !InitKeyIsTaken(p, i) ==>
                    Decision(adm, Init(i), p.initContainers[i]).Some?)
  {
    hide FreshContainer, FreshInit, NameIsTaken, InitKeyIsTaken, Decision;
    FreshIff(p);
  }

  lemma RecordsAfter(p: PodState)
    ensures forall name :: name in AllRecorded(p) <==>
              name in p.originals || exists i :: 0 <= i < |p.containers| && p.containers[i].name == name
    ensures forall name :: name in p.originals ==> AllRecorded(p)[name] == p.originals[name]
    ensures forall i :: 0 <= i < |p.containers| && !NameIsTaken(p, i) ==>
              AllRecorded(p)[p.containers[i].name] == p.containers[i].image
  {
    FreshIff(p);
    RecordedExtends(p.originals, p.containers, |p.containers|);
    hide FreshContainer, FreshInit, NameIsTaken;
    forall i | 0 <= i < |p.containers| && !NameIsTaken(p, i)
      ensures AllRecorded(p)[p.containers[i].name] == p.containers[i].image
    {
      FirstImageIsRecorded(p, i);
    }
  }

  lemma DecidedContainers(adm: Admission, p: PodState)
    requires Succeeds(adm, p)
    ensures forall i :: 0 <= i < |p.containers| ==>
              && (!NameIsTaken(p, i) ==> Decision(adm, Regular(i), p.containers[i]).Some?)
              && ContainerAfter(adm, p, i) == p.containers[i].(image :=
                   if NameIsTaken(p, i) then p.containers[i].image
                   else Decision(adm, Regular(i), p.containers[i]).value)
    ensures forall i :: 0 <= i < |p.initContainers| ==>
              && (!InitKeyIsTaken(p, i) ==> Decision(adm, Init(i), p.initContainers[i]).Some?)
              && InitAfter(adm, p, i) == p.initContainers[i].(image :=
                   if InitKeyIsTaken(p, i) then p.initContainers[i].image
                   else Decision(adm, Init(i), p.initContainers[i]).value)
  {
    hide FreshContainer, FreshInit, NameIsTaken, InitKeyIsTaken, Decision;
    FreshIff(p);
  }

  lemma FirstImageIsRecorded(p: PodState, i: nat)
    requires i < |p.containers| && FreshContainer(p, i)
    ensures Holds(AllRecorded(p), p.containers[i].name, p.containers[i].image)
  {
    assert Recorded(p.originals, p.containers, i + 1)[p.containers[i].name] == p.containers[i].image;
    RecordedGrows(p.originals, p.containers, i + 1, |p.containers|);
  }

  // ----- Repeated admissions -----

  /** Another call of the webhook, or any change of the pod by anyone else, its annotation
      included. */
  datatype Event =
    | Admit(adm: Admission)
    | Change(containers: seq<ContainerSpec>, initContainers: seq<ContainerSpec>, originals: map<string, string>)

  ghost function After(p: PodState, e: Event): PodState {
    match e
    case Admit(adm) => if adm.skip || Succeeds(adm, p) then Defaulted(adm, p) else p
    case Change(containers, initContainers, originals) => PodState(containers, initContainers, originals)
  }

  ghost function StateAfter(p: PodState, events: seq<Event>, n: nat): PodState
    requires n <= |events|
  {
    if n == 0 then p else After(StateAfter(p, events, n - 1), events[n - 1])
  }

  ghost predicate Extends(small: map<string, string>, large: map<string, string>) {
    forall name :: name in small ==> name in large && large[name] == small[name]
  }

  lemma {:induction false} RecordedExtends(originals: map<string, string>, containers: seq<ContainerSpec>, n: nat)
    requires n <= |containers|
    ensures Extends(originals, Recorded(originals, containers, n))
    ensures forall name :: name in Recorded(originals, containers, n) <==>
              name in originals || exists i :: 0 <= i < n && containers[i].name == name
  {
    if n > 0 {
      RecordedExtends(originals, containers, n - 1);
    }
  }

  /** An admission never overwrites or removes a recorded original. */
  lemma AdmissionKeepsRecords(p: PodState, adm: Admission)
    ensures Extends(p.originals, After(p, Admit(adm)).originals)
  {
    RecordedExtends(p.originals, p.containers, |p.containers|);
  }

  ghost predicate Holds(originals: map<string, string>, name: string, image: string) {
    name in originals && originals[name] == image
  }

  /** The record is there after every event from number i to number j. */
  ghost predicate StaysRecorded(p: PodState, events: seq<Event>, i: nat, j: nat, name: string, image: string)
    requires j <= |events|
  {
    forall k: nat :: i <= k <= j ==> Holds(StateAfter(p, events, k).originals, name, image)
  }

  /** Nobody else drops or alters the record. */
  ghost predicate LeftAlone(events: seq<Event>, i: nat, j: nat, name: string, image: string)
    requires j <= |events|
  {
    forall k: nat :: i <= k < j && events[k].Change? ==> Holds(events[k].originals, name, image)
  }

  lemma RecordSurvivesEvent(p: PodState, e: Event, name: string, image: string)
    requires Holds(p.originals, name, image)
    ensures Holds(After(p, e).originals, name, image) <==> e.Admit? || Holds(e.originals, name, image)
  {
    if e.Admit? {
      AdmissionKeepsRecords(p, e.adm);
    }
  }

  /** An original recorded at some point stays recorded for as long as, and no longer than, nobody
      else drops or alters it. */
  lemma {:induction false} OriginalsAreWrittenOnce(
    p: PodState, events: seq<Event>, i: nat, j: nat, name: string, image: string)
    requires i <= j <= |events| && Holds(StateAfter(p, events, i).originals, name, image)
    ensures StaysRecorded(p, events, i, j, name, image) <==> LeftAlone(events, i, j, name, image)
  {
    hide After, Holds;
    if i < j {
      OriginalsAreWrittenOnce(p, events, i, j - 1, name, image);
      if StaysRecorded(p, events, i, j - 1, name, image) {
        RecordSurvivesEvent(StateAfter(p, events, j - 1), events[j - 1], name, image);
        assert StateAfter(p, events, j) == After(StateAfter(p, events, j - 1), events[j - 1]);
        if Holds(StateAfter(p, events, j).originals, name, image) {
          assert StaysRecorded(p, events, i, j, name, image);
        } else {
          assert !LeftAlone(events, i, j, name, image);
        }
      }
    }
  }

  /** Admission number n changes the image of container k of the pod it is given. */
  ghost predicate RewritesImage(p: PodState, events: seq<Event>, n: nat, k: nat) {
    && n < |events| && events[n].Admit?
    && k < |StateAfter(p, events, n).containers|
    && k < |StateAfter(p, events, n + 1).containers|
    && StateAfter(p, events, n + 1).containers[k].image != StateAfter(p, events, n).containers[k].image
  }

  /** It does so exactly when the call succeeds, the container's name is recorded neither in the
      annotation nor by an earlier container, and another image is decided for it. */
  lemma RewritesImageIff(p: PodState, events: seq<Event>, n: nat, k: nat)
    requires n < |events| && events[n].Admit? && k < |StateAfter(p, events, n).containers|
    ensures var q, adm := StateAfter(p, events, n), events[n].adm;
            RewritesImage(p, events, n, k) <==>
            && !adm.skip && Succeeds(adm, q)
            && q.containers[k].name !in q.originals
            && (forall j :: 0 <= j < k ==> q.containers[j].name != q.containers[k].name)
            && Decision(adm, Regular(k), q.containers[k]) != Some(q.containers[k].image)
  {
    hide Decision, InitAfter;
    RecordedExtends(StateAfter(p, events, n).originals, StateAfter(p, events, n).containers, k);
    var q, adm := StateAfter(p, events, n), events[n].adm;
    assert StateAfter(p, events, n + 1) == After(q, Admit(adm));
  }

  lemma RewriteRecordsOriginal(p: PodState, events: seq<Event>, n: nat, k: nat)
    requires RewritesImage(p, events, n, k)
    ensures var before, after := StateAfter(p, events, n), StateAfter(p, events, n + 1);
            var c := before.containers[k];
            c.name !in before.originals && c.name in after.originals && after.originals[c.name] == c.image
  {
    hide Decided, Decision, FreshInit, InitAfter, Succeeds;
    var q := StateAfter(p, events, n);
    var c := q.containers[k];
    RecordedExtends(q.originals, q.containers, k);
    assert Recorded(q.originals, q.containers, k + 1)[c.name] == c.image;
    RecordedGrows(q.originals, q.containers, k + 1, |q.containers|);
  }

  lemma {:induction false} RecordedGrows(originals: map<string, string>, containers: seq<ContainerSpec>, m: nat, n: nat)
    requires m <= n <= |containers|
    ensures Extends(Recorded(originals, containers, m), Recorded(originals, containers, n))
  {
    if m < n {
      RecordedGrows(originals, containers, m, n - 1);
    }
  }

  /** A name that was recorded and is not any more was removed by somebody else. */
  lemma {:induction false} RemovedByOthers(
    p: PodState, events: seq<Event>, i: nat, j: nat, name: string)
    returns (x: nat)
    requires i <= j <= |events|
    requires name in StateAfter(p, events, i).originals && name !in StateAfter(p, events, j).originals
    ensures i <= x < j && events[x].Change?
    ensures name in StateAfter(p, events, x).originals && name !in events[x].originals
  {
    hide Defaulted, Succeeds;
    if name in StateAfter(p, events, j - 1).originals {
      x := j - 1;
      if events[x].Admit? {
        AdmissionKeepsRecords(StateAfter(p, events, x), events[x].adm);
      }
    } else {
      x := RemovedByOthers(p, events, i, j - 1, name);
    }
  }

  /** The webhook rewrites the image of a container name a second time only after somebody else
      removed that name from the annotation in between. */
  lemma RewrittenAgainOnlyIfRemoved(p: PodState, events: seq<Event>, m: nat, k: nat, n: nat, l: nat) returns (x: nat)
    requires m < n && RewritesImage(p, events, m, k) && RewritesImage(p, events, n, l)
    requires StateAfter(p, events, m).containers[k].name == StateAfter(p, events, n).containers[l].name
    ensures m < x < n && events[x].Change?
    ensures var name := StateAfter(p, events, m).containers[k].name;
            name in StateAfter(p, events, x).originals && name !in events[x].originals
  {
    hide StateAfter, After, Defaulted;
    RewriteRecordsOriginal(p, events, m, k);
    RewriteRecordsOriginal(p, events, n, l);
    x := RemovedByOthers(p, events, m + 1, n, StateAfter(p, events, m).containers[k].name);
  }

  /** So while others leave its record alone the webhook rewrites a non-init container at most once
      in the life of a pod, and the image it replaced is what the annotation holds. */
  lemma RewrittenAtMostOnce(p: PodState, events: seq<Event>, m: nat, k: nat, n: nat, l: nat)
    requires m < n && RewritesImage(p, events, m, k) && RewritesImage(p, events, n, l)
    requires var c := StateAfter(p, events, m).containers[k];
             LeftAlone(events, m + 1, n, c.name, c.image)
    ensures StateAfter(p, events, m).containers[k].name != StateAfter(p, events, n).containers[l].name
    ensures var c := StateAfter(p, events, m).containers[k];
            Holds(StateAfter(p, events, n).originals, c.name, c.image)
  {
    hide StateAfter, After, Defaulted;
    var c := StateAfter(p, events, m).containers[k];
    RewriteRecordsOriginal(p, events, m, k);
    RewriteRecordsOriginal(p, events, n, l);
    OriginalsAreWrittenOnce(p, events, m + 1, n, c.name, c.image);
  }

  /** Container names are DNS labels, so they hold no colon. */
  ghost predicate DnsNames(p: PodState) {
    forall i :: 0 <= i < |p.containers| ==> ':' !in p.containers[i].name
  }

  /** Somebody else wrote this key into the annotation, before event n or before all of them. */
  ghost predicate WrittenByOthers(p: PodState, events: seq<Event>, n: nat, key: string)
    requires n <= |events|
  {
    key in p.originals || exists k :: 0 <= k < n && events[k].Change? && key in events[k].originals
  }

  lemma {:induction false} ColonKeysAreOfOthers(p: PodState, events: seq<Event>, n: nat, key: string)
    requires n <= |events| && ':' in key && forall k: nat :: k < n ==> DnsNames(StateAfter(p, events, k))
    ensures key in StateAfter(p, events, n).originals ==> WrittenByOthers(p, events, n, key)
  {
    hide Defaulted, Succeeds, DnsNames;
    if n > 0 {
      ColonKeysAreOfOthers(p, events, n - 1, key);
      var q := StateAfter(p, events, n - 1);
      assert DnsNames(q);
      if events[n - 1].Admit? {
        AdmissionRecordsNoColon(q, events[n - 1].adm, key);
      }
    }
  }

  lemma AdmissionRecordsNoColon(p: PodState, adm: Admission, key: string)
    requires DnsNames(p) && ':' in key
    ensures key in After(p, Admit(adm)).originals <==> key in p.originals
  {
    RecordedExtends(p.originals, p.containers, |p.containers|);
  }

  /** The keys under which defaultPod looks for init containers are never written by it. Unless
      somebody else writes them, an init container is processed again by every admission, unlike
      the other containers. */
  lemma InitContainersAreNeverSettled(p: PodState, events: seq<Event>, n: nat, i: nat)
    requires n <= |events| && forall k: nat :: k <= n ==> DnsNames(StateAfter(p, events, k))
    requires i < |StateAfter(p, events, n).initContainers|
    ensures var q := StateAfter(p, events, n);
            var key := "init:" + q.initContainers[i].name;
            && (FreshInit(q, i) <==> key !in q.originals)
            && (!FreshInit(q, i) ==> WrittenByOthers(p, events, n, key))
  {
    hide WrittenByOthers;
    var q := StateAfter(p, events, n);
    var key := "init:" + q.initContainers[i].name;
    assert DnsNames(q);
    assert key[4] == ':';
    RecordedExtends(q.originals, q.containers, |q.containers|);
    ColonKeysAreOfOthers(p, events, n, key);
  }

  /** Init containers are not recorded: the annotation only gains the names of the other ones. */
  lemma OnlyRegularContainersAreRecorded(adm: Admission, p: PodState, name: string)
    requires name in Defaulted(adm, p).originals
    ensures name in p.originals || exists i :: 0 <= i < |p.containers| && p.containers[i].name == name
  {
    RecordedExtends(p.originals, p.containers, |p.containers|);
  }
}
