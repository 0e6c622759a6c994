/** Which images a mirror resource takes as sources, and why a mirrored copy is never one:
    getAllMirrorPrefixes and podsByNormalizedMatchingImages of
    internal/controller/kuik/mirror_reconciler.go. */
module MirrorSources {
  import opened Prelude
  import opened Mirrors
  import Paths
  import opened PodImages

  /** An ImageSetMirror as far as its destinations are concerned. */
  datatype Namespaced = Namespaced(namespace: string, mirrors: seq<Mirror>)

  type Prefixes = map<string, seq<string>>

  function PrefixesOf(prefixes: Prefixes, namespace: string): seq<string> {
    if namespace in prefixes then prefixes[namespace] else []
  }

  ghost predicate Declares(mirrors: seq<Mirror>, prefix: string) {
    exists i :: 0 <= i < |mirrors| && mirrors[i].Prefix() == prefix
  }

  /** The prefix belongs to one of the first n cluster mirrors. */
  ghost predicate ClusterDeclares(clusterMirrors: seq<seq<Mirror>>, n: nat, prefix: string)
    requires n <= |clusterMirrors|
  {
    exists i :: 0 <= i < n && Declares(clusterMirrors[i], prefix)
  }

  /** The prefix belongs to one of the first n namespaced mirrors, in this bucket. */
  ghost predicate NamespaceDeclares(
    namespaced: seq<Namespaced>, ignoreNamespaces: bool, n: nat, bucket: string, prefix: string)
    requires n <= |namespaced|
  {
    exists i ::
      0 <= i < n && Bucket(namespaced[i], ignoreNamespaces) == bucket && Declares(namespaced[i].mirrors, prefix)
  }

  function Bucket(ism: Namespaced, ignoreNamespaces: bool): string {
    if ignoreNamespaces then "" else ism.namespace
  }

  method AppendPrefixes(mirrors: seq<Mirror>, before: seq<string>) returns (after: seq<string>)
    ensures forall p :: p in after <==> p in before || Declares(mirrors, p)
  {
    after := before;
    for i := 0 to |mirrors|
      invariant forall p :: p in after <==> p in before || exists k :: 0 <= k < i && mirrors[k].Prefix() == p
    {
      after := after + [mirrors[i].Prefix()];
    }
  }

  /** Bucket by bucket, exactly the prefixes of the cluster mirrors and of the first n
      namespaced ones. */
  ghost predicate AllPrefixesBelow(
    clusterMirrors: seq<seq<Mirror>>, namespaced: seq<Namespaced>, ignoreNamespaces: bool, n: nat, prefixes: Prefixes)
    requires n <= |namespaced|
  {
    forall bucket, p :: p in PrefixesOf(prefixes, bucket) <==>
      || (bucket == "" && ClusterDeclares(clusterMirrors, |clusterMirrors|, p))
      || NamespaceDeclares(namespaced, ignoreNamespaces, n, bucket, p)
  }

  ghost predicate AllPrefixes(
    clusterMirrors: seq<seq<Mirror>>, namespaced: seq<Namespaced>, ignoreNamespaces: bool, prefixes: Prefixes)
  {
    AllPrefixesBelow(clusterMirrors, namespaced, ignoreNamespaces, |namespaced|, prefixes)
  }

  method GetAllMirrorPrefixes(clusterMirrors: seq<seq<Mirror>>, namespaced: seq<Namespaced>, ignoreNamespaces: bool)
    returns (prefixes: Prefixes)
    ensures AllPrefixes(clusterMirrors, namespaced, ignoreNamespaces, prefixes)
  {
    var clusterwide := [];
    for n := 0 to |clusterMirrors|
      invariant forall p :: p in clusterwide <==> ClusterDeclares(clusterMirrors, n, p)
    {
      clusterwide := AppendPrefixes(clusterMirrors[n], clusterwide);
    }
    prefixes := map["" := clusterwide];
    for n := 0 to |namespaced|
      invariant AllPrefixesBelow(clusterMirrors, namespaced, ignoreNamespaces, n, prefixes)
    {
      var bucket := Bucket(namespaced[n], ignoreNamespaces);
      var extended := AppendPrefixes(namespaced[n].mirrors, PrefixesOf(prefixes, bucket));
      NamespaceStep(clusterMirrors, namespaced, ignoreNamespaces, n, prefixes, extended);
      prefixes := prefixes[bucket := extended];
    }
  }

  lemma NamespaceStep(
    clusterMirrors: seq<seq<Mirror>>, namespaced: seq<Namespaced>, ignoreNamespaces: bool, n: nat,
    prefixes: Prefixes, extended: seq<string>)
    requires n < |namespaced| && AllPrefixesBelow(clusterMirrors, namespaced, ignoreNamespaces, n, prefixes)
    requires forall p :: p in extended <==>
               p in PrefixesOf(prefixes, Bucket(namespaced[n], ignoreNamespaces)) || Declares(namespaced[n].mirrors, p)
    ensures AllPrefixesBelow(clusterMirrors, namespaced, ignoreNamespaces, n + 1,
                             prefixes[Bucket(namespaced[n], ignoreNamespaces) := extended])
  {
    var after := prefixes[Bucket(namespaced[n], ignoreNamespaces) := extended];
    var next := n + 1;
    forall bucket, p
      ensures p in PrefixesOf(after, bucket) <==>
                || (bucket == "" && ClusterDeclares(clusterMirrors, |clusterMirrors|, p))
                || NamespaceDeclares(namespaced, ignoreNamespaces, next, bucket, p)
    {
      assert p in PrefixesOf(prefixes, bucket) <==>
        || (bucket == "" && ClusterDeclares(clusterMirrors, |clusterMirrors|, p))
        || NamespaceDeclares(namespaced, ignoreNamespaces, n, bucket, p);
    }
  }

  // ----- The source images -----

  /** The image lies under a mirror prefix relevant to a pod of this namespace. */
  predicate IsMirrored(prefixes: Prefixes, namespace: string, image: string) {
    || (exists i :: 0 <= i < |PrefixesOf(prefixes, "")| && PrefixesOf(prefixes, "")[i] <= image)
    || (exists i :: 0 <= i < |PrefixesOf(prefixes, namespace)| && PrefixesOf(prefixes, namespace)[i] <= image)
  }

  /** The images the first n pods run that are to be mirrored, each with the last pod running it. */
  function Sources(
    normalize: Normalizer, matches: string -> bool, prefixes: Prefixes, pods: seq<PodRefs>, n: nat): map<string, nat>
    requires n <= |pods|
  {
    if n == 0 then map[]
    else
      Sources(normalize, matches, prefixes, pods, n - 1) +
      map image | image in RunningNames(normalize, pods[n - 1])
                  && !IsMirrored(prefixes, pods[n - 1].namespace, image) && matches(image) :: n - 1
  }

  /** The inner loop over the names of one pod. */
  method AddSources(
    matches: string -> bool, prefixes: Prefixes, namespace: string, names: set<string>, n: nat,
    before: map<string, nat>)
    returns (matching: map<string, nat>)
    ensures forall image :: image in matching <==>
              image in before || (image in names && !IsMirrored(prefixes, namespace, image) && matches(image))
    ensures forall image :: image in matching ==>
              matching[image] ==
              if image in names && !IsMirrored(prefixes, namespace, image) && matches(image) then n else before[image]
  {
    matching := before;
    var left := names;
    while left != {}
      invariant left <= names
      invariant forall image :: image in matching <==>
                  image in before
                    || (image in names - left && !IsMirrored(prefixes, namespace, image) && matches(image))
      invariant forall image :: image in matching ==>
                  matching[image] ==
                  if image in names - left && !IsMirrored(prefixes, namespace, image) && matches(image) then n
                  else before[image]
      decreases left
    {
      var image :| image in left;
      left := left - {image};
      if IsMirrored(prefixes, namespace, image) {
        continue;
      }
      if matches(image) {
        matching := matching[image := n];
      }
    }
  }

  method PodsByNormalizedMatchingImages(
    normalize: Normalizer, matches: string -> bool, prefixes: Prefixes, pods: seq<PodRefs>)
    returns (matching: map<string, nat>)
    ensures matching == Sources(normalize, matches, prefixes, pods, |pods|)
  {
    matching := map[];
    for n := 0 to |pods|
      invariant matching == Sources(normalize, matches, prefixes, pods, n)
    {
      var names := NamesFromPod(normalize, pods[n]);
      matching := AddSources(matches, prefixes, pods[n].namespace, names, n, matching);
    }
  }

  lemma NoSources(normalize: Normalizer, matches: string -> bool, prefixes: Prefixes, pods: seq<PodRefs>)
    ensures Sources(normalize, matches, prefixes, pods, 0) == map[]
  {
  }

  lemma SourceStep(
    normalize: Normalizer, matches: string -> bool, prefixes: Prefixes, pods: seq<PodRefs>, n: nat, image: string)
    requires 0 < n <= |pods|
    ensures var before := Sources(normalize, matches, prefixes, pods, n - 1);
            var after := Sources(normalize, matches, prefixes, pods, n);
            var runs := RunsSource(normalize, matches, prefixes, pods[n - 1], image);
            && (image in after <==> image in before || runs)
            && (image in after ==> after[image] == if runs then n - 1 else before[image])
  {
    hide RunningNames, IsMirrored, Runs;
    NamedIff(normalize, pods[n - 1], image);
  }

  lemma {:induction false} SourceMembers(
    normalize: Normalizer, matches: string -> bool, prefixes: Prefixes, pods: seq<PodRefs>, n: nat, image: string)
    requires n <= |pods|
    ensures image in Sources(normalize, matches, prefixes, pods, n) <==>
            exists i :: 0 <= i < n && RunsSource(normalize, matches, prefixes, pods[i], image)
    ensures image in Sources(normalize, matches, prefixes, pods, n) ==>
              var last := Sources(normalize, matches, prefixes, pods, n)[image];
              && last < n && RunsSource(normalize, matches, prefixes, pods[last], image)
              && forall i :: last < i < n ==> !RunsSource(normalize, matches, prefixes, pods[i], image)
  {
    hide RunsSource, Sources;
    if n == 0 {
      NoSources(normalize, matches, prefixes, pods);
    } else {
      SourceMembers(normalize, matches, prefixes, pods, n - 1, image);
      SourceStep(normalize, matches, prefixes, pods, n, image);
    }
  }

  ghost predicate RunsSource(
    normalize: Normalizer, matches: string -> bool, prefixes: Prefixes, pod: PodRefs, image: string)
  {
    Runs(normalize, pod, image) && !IsMirrored(prefixes, pod.namespace, image) && matches(image)
  }

  /** Mirror d of list i has a prefix of the image. */
  ghost predicate LiesUnder(lists: seq<seq<Mirror>>, i: nat, d: nat, image: string) {
    i < |lists| && d < |lists[i]| && Paths.Join([lists[i][d].registry, lists[i][d].path]) <= image
  }

  /** The same for resource i, which counts for pods of this namespace: all resources do in a
      cluster-wide reconcile, and otherwise those of the namespace. */
  ghost predicate NamespaceLiesUnder(
    namespaced: seq<Namespaced>, ignoreNamespaces: bool, namespace: string, i: nat, d: nat, image: string)
  {
    && i < |namespaced| && d < |namespaced[i].mirrors|
    && (ignoreNamespaces || namespaced[i].namespace == namespace || namespaced[i].namespace == "")
    && Paths.Join([namespaced[i].mirrors[d].registry, namespaced[i].mirrors[d].path]) <= image
  }

  /** An image counts as mirrored for a pod exactly when it lies under a mirror of a cluster-wide
      resource or under one of a namespaced resource that counts. */
  lemma IsMirroredIff(
    clusterMirrors: seq<seq<Mirror>>, namespaced: seq<Namespaced>, ignoreNamespaces: bool, prefixes: Prefixes,
    namespace: string, image: string)
    requires AllPrefixes(clusterMirrors, namespaced, ignoreNamespaces, prefixes)
    ensures IsMirrored(prefixes, namespace, image) <==>
              || (exists i: nat, d: nat :: LiesUnder(clusterMirrors, i, d, image))
              || exists i: nat, d: nat :: NamespaceLiesUnder(namespaced, ignoreNamespaces, namespace, i, d, image)
  {
    hide Paths.Join;
    IsMirroredBy(prefixes, namespace, image);
    if i: nat, d: nat :| LiesUnder(clusterMirrors, i, d, image) {
      var p := clusterMirrors[i][d].Prefix();
      assert Declares(clusterMirrors[i], p);
      assert ClusterDeclares(clusterMirrors, |clusterMirrors|, p);
      assert p in PrefixesOf(prefixes, "");
    }
    if i: nat, d: nat :| NamespaceLiesUnder(namespaced, ignoreNamespaces, namespace, i, d, image) {
      var p := namespaced[i].mirrors[d].Prefix();
      assert Declares(namespaced[i].mirrors, p);
      var bucket := Bucket(namespaced[i], ignoreNamespaces);
      assert NamespaceDeclares(namespaced, ignoreNamespaces, |namespaced|, bucket, p);
      assert p in PrefixesOf(prefixes, bucket);
    }
    if bucket, p :| (bucket == "" || bucket == namespace) && p in PrefixesOf(prefixes, bucket) && p <= image {
      PrefixIsDeclared(clusterMirrors, namespaced, ignoreNamespaces, prefixes, namespace, bucket, p, image);
    }
  }

  lemma IsMirroredBy(prefixes: Prefixes, namespace: string, image: string)
    ensures IsMirrored(prefixes, namespace, image) <==>
              exists bucket, p ::
                (bucket == "" || bucket == namespace) && p in PrefixesOf(prefixes, bucket) && p <= image
  {
    if bucket, p :| (bucket == "" || bucket == namespace) && p in PrefixesOf(prefixes, bucket) && p <= image {
      ListedPrefixMirrors(prefixes, namespace, p, image);
    }
    if IsMirrored(prefixes, namespace, image) {
      var bucket := if exists i :: 0 <= i < |PrefixesOf(prefixes, "")| && PrefixesOf(prefixes, "")[i] <= image then ""
        else namespace;
      var i :| 0 <= i < |PrefixesOf(prefixes, bucket)| && PrefixesOf(prefixes, bucket)[i] <= image;
      assert PrefixesOf(prefixes, bucket)[i] in PrefixesOf(prefixes, bucket);
    }
  }

  lemma PrefixIsDeclared(
    clusterMirrors: seq<seq<Mirror>>, namespaced: seq<Namespaced>, ignoreNamespaces: bool, prefixes: Prefixes,
    namespace: string, bucket: string, p: string, image: string)
    requires AllPrefixes(clusterMirrors, namespaced, ignoreNamespaces, prefixes)
    requires (bucket == "" || bucket == namespace) && p in PrefixesOf(prefixes, bucket) && p <= image
    ensures || (exists i: nat, d: nat :: LiesUnder(clusterMirrors, i, d, image))
            || exists i: nat, d: nat :: NamespaceLiesUnder(namespaced, ignoreNamespaces, namespace, i, d, image)
  {
    hide Paths.Join;
    if bucket == "" && ClusterDeclares(clusterMirrors, |clusterMirrors|, p) {
      var i :| 0 <= i < |clusterMirrors| && Declares(clusterMirrors[i], p);
      var d :| 0 <= d < |clusterMirrors[i]| && clusterMirrors[i][d].Prefix() == p;
      assert LiesUnder(clusterMirrors, i, d, image);
    } else {
      assert NamespaceDeclares(namespaced, ignoreNamespaces, |namespaced|, bucket, p);
      var i :| 0 <= i < |namespaced| && Bucket(namespaced[i], ignoreNamespaces) == bucket
               && Declares(namespaced[i].mirrors, p);
      var d :| 0 <= d < |namespaced[i].mirrors| && namespaced[i].mirrors[d].Prefix() == p;
      assert NamespaceLiesUnder(namespaced, ignoreNamespaces, namespace, i, d, image);
    }
  }

  /** A pod that runs images by digest only adds no source. */
  lemma DigestPodAddsNoSource(
    normalize: Normalizer, matches: string -> bool, prefixes: Prefixes, pods: seq<PodRefs>, pod: PodRefs,
    image: string)
    requires forall text :: text in pod.images ==> '@' in text
    ensures image in Sources(normalize, matches, prefixes, pods + [pod], |pods| + 1) <==>
              image in Sources(normalize, matches, prefixes, pods, |pods|)
  {
    hide Sources, RunsSource;
    var all := pods + [pod];
    SourceMembers(normalize, matches, prefixes, all, |all|, image);
    SourceMembers(normalize, matches, prefixes, pods, |pods|, image);
    assert forall i :: 0 <= i < |pods| ==> all[i] == pods[i];
    assert !RunsSource(normalize, matches, prefixes, pod, image) by {
      RunsIsSource(normalize, matches, prefixes, pod, image);
    }
  }

  lemma RunsIsSource(
    normalize: Normalizer, matches: string -> bool, prefixes: Prefixes, pod: PodRefs, image: string)
    ensures RunsSource(normalize, matches, prefixes, pod, image) ==> Runs(normalize, pod, image)
  {
  }

  // ----- No mirrors of mirrors -----

  /** The mirrors the webhook may route a pod of this namespace to. */
  ghost predicate Visible(clusterMirrors: seq<seq<Mirror>>, namespaced: seq<Namespaced>, namespace: string, m: Mirror) {
    || (exists i :: 0 <= i < |clusterMirrors| && m in clusterMirrors[i])
    || (exists i :: 0 <= i < |namespaced| && namespaced[i].namespace == namespace && m in namespaced[i].mirrors)
  }

  /** The text is a destination of m, already in normal form, and m does not climb out of its
      registry. */
  ghost predicate IsDestination(normalize: Normalizer, m: Mirror, text: string) {
    exists imagePath :: DestinationOf(normalize, m, imagePath, text)
  }

  ghost predicate DestinationOf(normalize: Normalizer, m: Mirror, imagePath: string, text: string) {
    Paths.ImagePath(imagePath) && text == m.Destination(imagePath) && normalize(text) == Some(text) && m.Prefix() != "."
  }

  /** Some images of the pod were replaced by mirror destinations; anything may have happened
      to the annotation. */
  ghost predicate RewrittenPod(
    normalize: Normalizer, clusterMirrors: seq<seq<Mirror>>, namespaced: seq<Namespaced>, before: PodRefs,
    after: PodRefs)
  {
    && after.namespace == before.namespace
    && |after.images| == |before.images|
    && forall i :: 0 <= i < |after.images| ==>
         || after.images[i] == before.images[i]
         || exists m ::
           Visible(clusterMirrors, namespaced, before.namespace, m) && IsDestination(normalize, m, after.images[i])
  }

  ghost predicate RewrittenPods(
    normalize: Normalizer, clusterMirrors: seq<seq<Mirror>>, namespaced: seq<Namespaced>, before: seq<PodRefs>,
    after: seq<PodRefs>)
  {
    |after| == |before| && forall i :: 0 <= i < |after| ==>
      RewrittenPod(normalize, clusterMirrors, namespaced, before[i], after[i])
  }

  lemma DestinationIsMirrored(
    normalize: Normalizer, clusterMirrors: seq<seq<Mirror>>, namespaced: seq<Namespaced>, ignoreNamespaces: bool,
    prefixes: Prefixes, namespace: string, m: Mirror, text: string)
    requires AllPrefixes(clusterMirrors, namespaced, ignoreNamespaces, prefixes)
    requires Visible(clusterMirrors, namespaced, namespace, m) && IsDestination(normalize, m, text)
    ensures IsMirrored(prefixes, namespace, text)
  {
    var imagePath :| DestinationOf(normalize, m, imagePath, text);
    Paths.DestinationCarriesPrefix(m.registry, m.path, imagePath);
    VisiblePrefixIsListed(clusterMirrors, namespaced, ignoreNamespaces, prefixes, namespace, m);
    ListedPrefixMirrors(prefixes, namespace, m.Prefix(), text);
  }

  lemma ListedPrefixMirrors(prefixes: Prefixes, namespace: string, p: string, text: string)
    requires p <= text && (p in PrefixesOf(prefixes, "") || p in PrefixesOf(prefixes, namespace))
    ensures IsMirrored(prefixes, namespace, text)
  {
  }

  lemma VisiblePrefixIsListed(
    clusterMirrors: seq<seq<Mirror>>, namespaced: seq<Namespaced>, ignoreNamespaces: bool,
    prefixes: Prefixes, namespace: string, m: Mirror)
    requires AllPrefixes(clusterMirrors, namespaced, ignoreNamespaces, prefixes)
    requires Visible(clusterMirrors, namespaced, namespace, m)
    ensures m.Prefix() in PrefixesOf(prefixes, "") || m.Prefix() in PrefixesOf(prefixes, namespace)
  {
    var p := m.Prefix();
    if exists i :: 0 <= i < |clusterMirrors| && m in clusterMirrors[i] {
      var i :| 0 <= i < |clusterMirrors| && m in clusterMirrors[i];
      assert Declares(clusterMirrors[i], p);
      assert ClusterDeclares(clusterMirrors, |clusterMirrors|, p);
      assert p in PrefixesOf(prefixes, "");
    } else {
      var i :| 0 <= i < |namespaced| && namespaced[i].namespace == namespace && m in namespaced[i].mirrors;
      assert Declares(namespaced[i].mirrors, p);
      var bucket := Bucket(namespaced[i], ignoreNamespaces);
      assert NamespaceDeclares(namespaced, ignoreNamespaces, |namespaced|, bucket, p);
      assert p in PrefixesOf(prefixes, bucket);
    }
  }

  /** Why a destination must normalise to itself and its mirror must not climb: with one mirror
      declared, a pod moved to a destination makes it a source again exactly when the
      normalised name lacks the prefix, as when a registry without a dot is taken for a path
      on docker.io; and if the name is already in normal form, exactly when the prefix is ".". */
  lemma SoleMirrorFeedsItself(
    normalize: Normalizer, m: Mirror, ignoreNamespaces: bool, prefixes: Prefixes, namespace: string, imagePath: string,
    image: string)
    requires AllPrefixes([[m]], [], ignoreNamespaces, prefixes)
    requires Paths.ImagePath(imagePath) && '@' !in m.Destination(imagePath)
    requires normalize(m.Destination(imagePath)) == Some(image)
    ensures var moved := PodRefs(namespace, [m.Destination(imagePath)], map[]);
            var again := image in Sources(normalize, _ => true, prefixes, [moved], 1);
            && (again <==> !(m.Prefix() <= image))
            && (image == m.Destination(imagePath) ==> (again <==> m.Prefix() == "."))
  {
    var moved := PodRefs(namespace, [m.Destination(imagePath)], map[]);
    Paths.DestinationCarriesPrefix(m.registry, m.path, imagePath);
    SolePrefix(m, ignoreNamespaces, prefixes, namespace, image);
    SourceMembers(normalize, _ => true, prefixes, [moved], 1, image);
    assert Runs(normalize, moved, image) by {
      assert moved.images[0] in moved.images;
    }
    assert RunsSource(normalize, _ => true, prefixes, moved, image) <==> !(m.Prefix() <= image);
  }

  lemma SolePrefix(m: Mirror, ignoreNamespaces: bool, prefixes: Prefixes, namespace: string, image: string)
    requires AllPrefixes([[m]], [], ignoreNamespaces, prefixes)
    ensures IsMirrored(prefixes, namespace, image) <==> m.Prefix() <= image
  {
    assert Declares([m], m.Prefix()) by {
      assert [m][0] == m;
    }
    assert ClusterDeclares([[m]], 1, m.Prefix()) by {
      assert [[m]][0] == [m];
    }
    assert m.Prefix() in PrefixesOf(prefixes, "");
    forall bucket, p | p in PrefixesOf(prefixes, bucket) ensures p == m.Prefix() {
      assert !NamespaceDeclares([], ignoreNamespaces, 0, bucket, p);
      assert ClusterDeclares([[m]], 1, p);
    }
    if m.Prefix() <= image {
      ListedPrefixMirrors(prefixes, namespace, m.Prefix(), image);
    }
    forall bucket, i | 0 <= i < |PrefixesOf(prefixes, bucket)| ensures PrefixesOf(prefixes, bucket)[i] == m.Prefix() {
      assert PrefixesOf(prefixes, bucket)[i] in PrefixesOf(prefixes, bucket);
    }
  }

  /** Rewriting pods to mirrors gives neither a cluster-wide nor a namespaced mirror resource a
      source it did not have before. */
  lemma RewritingAddsNoSource(
    normalize: Normalizer, matches: string -> bool, clusterMirrors: seq<seq<Mirror>>, namespaced: seq<Namespaced>,
    ignoreNamespaces: bool, prefixes: Prefixes, before: seq<PodRefs>, after: seq<PodRefs>)
    requires AllPrefixes(clusterMirrors, namespaced, ignoreNamespaces, prefixes)
    requires RewrittenPods(normalize, clusterMirrors, namespaced, before, after)
    ensures Sources(normalize, matches, prefixes, after, |after|).Keys
            <= Sources(normalize, matches, prefixes, before, |before|).Keys
  {
    forall image | image in Sources(normalize, matches, prefixes, after, |after|)
      ensures image in Sources(normalize, matches, prefixes, before, |before|)
    {
      SourceMembers(normalize, matches, prefixes, after, |after|, image);
      SourceMembers(normalize, matches, prefixes, before, |before|, image);
      var i :| 0 <= i < |after| && RunsSource(normalize, matches, prefixes, after[i], image);
      SourceWasThere(normalize, matches, clusterMirrors, namespaced, ignoreNamespaces, prefixes, before[i], after[i],
                     image);
    }
  }

  lemma SourceWasThere(
    normalize: Normalizer, matches: string -> bool, clusterMirrors: seq<seq<Mirror>>, namespaced: seq<Namespaced>,
    ignoreNamespaces: bool, prefixes: Prefixes, before: PodRefs, after: PodRefs, image: string)
    requires AllPrefixes(clusterMirrors, namespaced, ignoreNamespaces, prefixes)
    requires RewrittenPod(normalize, clusterMirrors, namespaced, before, after)
    requires RunsSource(normalize, matches, prefixes, after, image)
    ensures RunsSource(normalize, matches, prefixes, before, image)
  {
    var text :| text in after.images && Means(normalize, text, image);
    var k :| 0 <= k < |after.images| && after.images[k] == text;
    if text != before.images[k] {
      var m :| Visible(clusterMirrors, namespaced, before.namespace, m) && IsDestination(normalize, m, text);
      assert image == text by {
        var imagePath :| DestinationOf(normalize, m, imagePath, text);
      }
      DestinationIsMirrored(normalize, clusterMirrors, namespaced, ignoreNamespaces, prefixes, before.namespace, m,
                            text);
      assert false;
    }
  }

  /** Pods over time: from[k][i] is the pod of the state before that pod i of state k is, or None for
      one that is new in state k. A pod that was there may have been moved to mirrors since. */
  ghost predicate PodsOverTime(
    normalize: Normalizer, clusterMirrors: seq<seq<Mirror>>, namespaced: seq<Namespaced>,
    history: seq<seq<PodRefs>>, from: seq<seq<Option<nat>>>)
  {
    && |from| == |history|
    && (forall k :: 0 <= k < |history| ==> |from[k]| == |history[k]|)
    && (forall k, i :: 0 <= k < |history| && 0 <= i < |history[k]| && from[k][i].Some? ==>
          WasThere(normalize, clusterMirrors, namespaced, history, k, from[k][i].value, history[k][i]))
  }

  ghost predicate WasThere(
    normalize: Normalizer, clusterMirrors: seq<seq<Mirror>>, namespaced: seq<Namespaced>,
    history: seq<seq<PodRefs>>, k: int, i: nat, pod: PodRefs)
  {
    && 0 < k <= |history| && i < |history[k - 1]|
    && RewrittenPod(normalize, clusterMirrors, namespaced, history[k - 1][i], pod)
  }

  /** However pods come and go, and however often they are rewritten and reconciled again, every
      image ever tracked is a source that some pod ran when it was new. */
  lemma {:induction false} SourcesStayClosed(
    normalize: Normalizer, matches: string -> bool, clusterMirrors: seq<seq<Mirror>>, namespaced: seq<Namespaced>,
    ignoreNamespaces: bool, prefixes: Prefixes, history: seq<seq<PodRefs>>, from: seq<seq<Option<nat>>>,
    k: nat, image: string)
    returns (j: nat, i: nat)
    requires AllPrefixes(clusterMirrors, namespaced, ignoreNamespaces, prefixes)
    requires PodsOverTime(normalize, clusterMirrors, namespaced, history, from) && k < |history|
    requires image in Sources(normalize, matches, prefixes, history[k], |history[k]|)
    ensures j <= k && i < |history[j]| && from[j][i].None?
    ensures RunsSource(normalize, matches, prefixes, history[j][i], image)
  {
    hide Sources, AllPrefixes, RunsSource, RewrittenPod;
    SourceMembers(normalize, matches, prefixes, history[k], |history[k]|, image);
    var m: nat :| m < |history[k]| && RunsSource(normalize, matches, prefixes, history[k][m], image);
    j, i := NewWhenSource(normalize, matches, clusterMirrors, namespaced, ignoreNamespaces, prefixes, history, from,
                          k, m, image);
  }

  lemma {:induction false} NewWhenSource(
    normalize: Normalizer, matches: string -> bool, clusterMirrors: seq<seq<Mirror>>, namespaced: seq<Namespaced>,
    ignoreNamespaces: bool, prefixes: Prefixes, history: seq<seq<PodRefs>>, from: seq<seq<Option<nat>>>,
    k: nat, m: nat, image: string)
    returns (j: nat, i: nat)
    requires AllPrefixes(clusterMirrors, namespaced, ignoreNamespaces, prefixes)
    requires PodsOverTime(normalize, clusterMirrors, namespaced, history, from) && k < |history| && m < |history[k]|
    requires RunsSource(normalize, matches, prefixes, history[k][m], image)
    ensures j <= k && i < |history[j]| && from[j][i].None?
    ensures RunsSource(normalize, matches, prefixes, history[j][i], image)
    decreases k
  {
    hide AllPrefixes, RunsSource, RewrittenPod;
    if from[k][m].None? {
      j, i := k, m;
    } else {
      var before := from[k][m].value;
      assert WasThere(normalize, clusterMirrors, namespaced, history, k, before, history[k][m]);
      SourceWasThere(normalize, matches, clusterMirrors, namespaced, ignoreNamespaces, prefixes,
                     history[k - 1][before], history[k][m], image);
      j, i := NewWhenSource(normalize, matches, clusterMirrors, namespaced, ignoreNamespaces, prefixes, history, from,
                            k - 1, before, image);
    }
  }
}
