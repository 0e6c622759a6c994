/** normalizedImageNamesFromPod and its annotated variants
    (internal/controller/kuik/mirror_reconciler.go): which images a pod refers to. */
module PodImages {
  import opened Prelude

  /** reference.ParseNormalizedNamed(image).String(), as a library function of the text. */
  type Normalizer = string -> Option<string>

  /** images are those of the init containers and then of the containers; originals is the
      parsed original-images annotation. */
  datatype PodRefs = PodRefs(namespace: string, images: seq<string>, originals: map<string, string>)

  /** Digest-based and unparsable references name nothing. */
  function NameOf(normalize: Normalizer, image: string): Option<string> {
    if '@' in image then None else normalize(image)
  }

  /** The names a pod runs now. */
  function RunningNames(normalize: Normalizer, pod: PodRefs): set<string> {
    set image | image in pod.images && NameOf(normalize, image).Some? :: NameOf(normalize, image).value
  }

  /** The names recorded before the webhook rewrote them. */
  function OriginalNames(normalize: Normalizer, pod: PodRefs): set<string> {
    set container | container in pod.originals && NameOf(normalize, pod.originals[container]).Some? ::
      NameOf(normalize, pod.originals[container]).value
  }

  /** Every name a pod refers to, and whether it is recorded as an original. */
  function AnnotatedNames(normalize: Normalizer, pod: PodRefs): map<string, bool> {
    map name | name in RunningNames(normalize, pod) + OriginalNames(normalize, pod) ::
      name in OriginalNames(normalize, pod)
  }

  method NamesFromPod(normalize: Normalizer, pod: PodRefs) returns (names: set<string>)
    ensures names == RunningNames(normalize, pod)
  {
    names := {};
    for i := 0 to |pod.images|
      invariant names == set image | image in pod.images[..i] && NameOf(normalize, image).Some? ::
        NameOf(normalize, image).value
    {
      var image := pod.images[i];
      assert pod.images[..i + 1] == pod.images[..i] + [image];
      if NameOf(normalize, image).Some? {
        names := names + {NameOf(normalize, image).value};
      }
    }
    assert pod.images[..|pod.images|] == pod.images;
  }

  method NamesMapFromAnnotatedPod(normalize: Normalizer, pod: PodRefs) returns (names: map<string, bool>)
    ensures names == AnnotatedNames(normalize, pod)
  {
    hide SeenNames, RunningNames, MarkedNames;
    var running := NamesFromPod(normalize, pod);
    names := map name | name in running :: false;
    NothingMarked(normalize, pod);
    var left := pod.originals.Keys;
    ghost var seen: set<string> := {};
    while left != {}
      invariant left + seen == pod.originals.Keys && left !! seen
      invariant names == MarkedNames(normalize, pod, seen)
      decreases left
    {
      var container :| container in left;
      ghost var was := seen;
      left, seen := left - {container}, seen + {container};
      MarkedNamesStep(normalize, pod, seen, container);
      assert seen - {container} == was;
      var name := NameOf(normalize, pod.originals[container]);
      if name.Some? {
        names := names[name.value := true];
      }
    }
    assert seen == pod.originals.Keys;
    AllMarked(normalize, pod);
  }

  ghost function SeenNames(normalize: Normalizer, pod: PodRefs, seen: set<string>): set<string> {
    set container |
      container in seen && container in pod.originals && NameOf(normalize, pod.originals[container]).Some? ::
      NameOf(normalize, pod.originals[container]).value
  }

  ghost function MarkedNames(normalize: Normalizer, pod: PodRefs, seen: set<string>): map<string, bool> {
    map name | name in RunningNames(normalize, pod) + SeenNames(normalize, pod, seen) ::
      name in SeenNames(normalize, pod, seen)
  }

  lemma AllMarked(normalize: Normalizer, pod: PodRefs)
    ensures MarkedNames(normalize, pod, pod.originals.Keys) == AnnotatedNames(normalize, pod)
  {
    hide RunningNames;
  }

  lemma NothingMarked(normalize: Normalizer, pod: PodRefs)
    ensures MarkedNames(normalize, pod, {}) == map name | name in RunningNames(normalize, pod) :: false
  {
    assert SeenNames(normalize, pod, {}) == {};
  }

  lemma MarkedNamesStep(normalize: Normalizer, pod: PodRefs, seen: set<string>, container: string)
    requires container in seen && container in pod.originals
    ensures var name := NameOf(normalize, pod.originals[container]);
            var before := MarkedNames(normalize, pod, seen - {container});
            MarkedNames(normalize, pod, seen) == if name.Some? then before[name.value := true] else before
  {
    hide RunningNames;
    var name := NameOf(normalize, pod.originals[container]);
    assert SeenNames(normalize, pod, seen) ==
           SeenNames(normalize, pod, seen - {container}) + if name.Some? then {name.value} else {};
    hide SeenNames;
  }

  /** Everything the first n pods refer to, rewritten originals included. */
  ghost function InUse(normalize: Normalizer, pods: seq<PodRefs>, n: nat): set<string>
    requires n <= |pods|
  {
    if n == 0 then {} else InUse(normalize, pods, n - 1) + AnnotatedNames(normalize, pods[n - 1]).Keys
  }

  method PodsInUseImages(normalize: Normalizer, pods: seq<PodRefs>) returns (inUse: set<string>)
    ensures inUse == InUse(normalize, pods, |pods|)
  {
    inUse := {};
    for n := 0 to |pods|
      invariant inUse == InUse(normalize, pods, n)
    {
      var names := NamesMapFromAnnotatedPod(normalize, pods[n]);
      inUse := inUse + names.Keys;
    }
  }

  // ----- What a pod refers to, text by text -----

  /** The text stands for this image: it has no digest and parses to it. */
  ghost predicate Means(normalize: Normalizer, text: string, image: string) {
    '@' !in text && normalize(text) == Some(image)
  }

  ghost predicate Runs(normalize: Normalizer, pod: PodRefs, image: string) {
    exists text :: text in pod.images && Means(normalize, text, image)
  }

  ghost predicate RecordsOriginal(normalize: Normalizer, pod: PodRefs, image: string) {
    exists container :: container in pod.originals && Means(normalize, pod.originals[container], image)
  }

  ghost predicate RefersTo(normalize: Normalizer, pod: PodRefs, image: string) {
    Runs(normalize, pod, image) || RecordsOriginal(normalize, pod, image)
  }

  /** A pod names exactly the images that a text of it stands for, in a container or recorded as an
      original, and the latter are marked. */
  lemma NamedIff(normalize: Normalizer, pod: PodRefs, image: string)
    ensures image in RunningNames(normalize, pod) <==> Runs(normalize, pod, image)
    ensures image in AnnotatedNames(normalize, pod) <==> RefersTo(normalize, pod, image)
    ensures image in AnnotatedNames(normalize, pod) ==>
              (AnnotatedNames(normalize, pod)[image] <==> RecordsOriginal(normalize, pod, image))
  {
    assert image in OriginalNames(normalize, pod) <==> RecordsOriginal(normalize, pod, image);
  }

  /** An image is in use exactly when some pod runs it or has it recorded from before it was
      rewritten, under a text without a digest. */
  lemma {:induction false} InUseMembers(normalize: Normalizer, pods: seq<PodRefs>, n: nat, image: string)
    requires n <= |pods|
    ensures image in InUse(normalize, pods, n) <==> exists i :: 0 <= i < n && RefersTo(normalize, pods[i], image)
  {
    hide RefersTo, AnnotatedNames;
    if n > 0 {
      InUseMembers(normalize, pods, n - 1, image);
      NamedIff(normalize, pods[n - 1], image);
    }
  }
}
