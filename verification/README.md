# Kube Image Keeper: the control logic, modelled and proved

Kube Image Keeper (kuik) keeps a Kubernetes cluster supplied with container images. A webhook
reroutes the containers of a new pod to whichever equivalent image is available, one controller
copies images to mirror registries and deletes them when they are no longer used, and another one
watches whether the images in use can still be pulled. This project models the decisions of these
components in Dafny and proves what they guarantee.

Registries, the Kubernetes API, clocks and libraries (reference parsing, regular expressions, label
selectors, URL parsing and globbing) are parameters: a probe, a copy or a deletion has an arbitrary
outcome, time is an integer, a compiled filter is an arbitrary predicate on names. Where the source
updates something in place or runs a loop, the model has a method, which is proved against a
function or predicate; the results of the project are lemmas about those.

## The modules

- `Parallel`: probing every candidate at once and committing in index order. The collector is
  proved equal to trying the candidates from left to right, for every order of arrival, and to
  return at the earliest arrival that settles the answer; the goroutines and the buffered channel
  are a protocol of which every reachable state is covered.
- `StableSorting`, `Alternatives`: the stable sort by (CR priority, type, intra priority,
  declaration) and the removal of duplicates. An ascending order is unique, so the sorting
  algorithm does not matter.
- `Routing`, `PodDefaulter`: where the candidates come from (replicated sets, the original image,
  chained mirrors), which one a container gets, and what repeated admissions do to a pod.
- `Monitor`, `Schedule`: the choice of the image to check next on each registry, and what follows
  for whole runs: fairness and the rate bound.
- `TrackedImages`: the list of monitored images.
- `Paths`, `Mirrors`: `path.Join` with `path.Clean`, mirror prefixes, destinations and credentials.
- `PodImages`, `MirrorSources`: what pods refer to, and why a mirror is not mirrored again.
- `MirrorStatus`, `MirrorRuns`, `MirrorLifecycle`: one reconcile of a mirror resource, whole runs of
  reconciles, and the protocol between the user, the controller, the webhook and the registries.
- `RoutedPods`: the webhook and the reconciler together, for a pod that was moved to a mirror.
- `Keyring`: credentials by registry endpoint. `Filters`: the unified filters and their flattening.
- `Prelude`, `Marks`: shared definitions.

## What turned out not to hold as promised

Each of these has a lemma with the exact condition, or with the input that shows it.

- `maxPerInterval` is documented as the maximum number of checks per interval
  (docs/configuration.md:170). The tick is rounded down, and the API server stores check times in
  whole seconds. The maximum is a bound exactly when it divides the interval and times are stored
  exactly (`MaximumIsABoundIff`); with stored seconds one more check always fits. The scheduler is
  fair exactly when the tick is at least one stored second (`FairnessNeedsATick`).
- Removing an entry keeps the registry's wait exactly when another entry has the same latest check
  time (`RemovalKeepsTheWaitIff`, `SyncKeepsLatestIff`).
- A mirror destination carries its mirror's prefix exactly when that prefix is not "."
  (`DestinationCarriesPrefix`), and a rewritten pod can feed its own mirror when normalising the
  destination changes it (`SoleMirrorFeedsItself`).
- Deleting an image goes by digest (internal/registry/registry.go:216-231): it takes every tag of the
  repository with that digest, while the documentation speaks of the mirror's reference only
  (docs/crds.md:143). A cleanup is safe for the copies that stay recorded exactly when no recorded
  mirror of an overdue entry has the repository and digest of another recorded mirror
  (`CopiesSurviveIffNotShared`); distinct destinations are not enough (`TwoTagsOfOneDigest`), and two
  reconciles suffice to lose a copy (`SharedDestinationIsLost`).
- Under one mirror two images share a destination exactly when they differ in the registry only
  (`DestinationsCoincideIff`), and destinations carry no namespace. So the cleanup of one resource
  can take copies that another records: exactly when a recorded mirror of an overdue entry of the
  one has the repository and digest of a recorded mirror of the other (`OthersKeepTheirCopiesIff`).
- A recorded copy is in its registry exactly when no deletion with its repository and digest, for
  whichever resource, came after the last copy to its tag (`RecordedIsPresentIff`). `StepIsSoundIff`
  says of every step when it loses a copy, `RecordingLosesIff` says it by what happened before, and
  `HoldsOwnIff` when a tag holds the image it should.
- A copy can be lost before it is recorded. The status is written only after all mirrors of an image
  were tried (internal/controller/kuik/mirror_reconciler.go:234-252). Meanwhile the controller of
  the other kind of resource can delete a copy with the same repository and digest, which no record
  keeps it from, and the copy that is gone is recorded all the same (`DeletedBeforeRecorded`,
  `DeletionBeforeRecordOccurs`).
- A resource that disappears leaves two kinds of recorded copies behind: those for which the declared
  mirrors resolved no credential, unless a deletion took them with another one; and those that
  somebody copied to again after their deletion (`LeftBehindIff`, exact).
- The delay that a reconcile asks for counts from its return, the retention that is left from when
  the cleanup came to the mirror. When the delay is over, some mirror has passed its retention, and
  none by more than the time in between (`RequeueIsTimely`).
- A pod keeps the mirrors of an image alive after one of its containers was moved away from it
  exactly when that was not an init container, or something else in the pod refers to the image
  (`StillUsedIff`). Otherwise the mirrors go after the retention (`InitContainerLosesItsMirrors`).
- The webhook rewrites a container again exactly when somebody removed its name from the annotation
  (`RewrittenAgainOnlyIfRemoved`, `RewritesImageIff`).
- A replicated-set upstream accepts images by its registry and rewrites them by registry and path;
  an image accepted outside the full prefix is not rewritten to itself (`SelfRewriteIffUnderPrefix`).
- `syncImageList` can drop an entry without reporting a change, exactly when a marker was left in
  the list and expiry is positive (`UnreportedMeansUnchanged`, `UnreportedRemoval`); along runs with
  a positive expiry that does not occur.
- A check after a failed credential lookup can keep that lookup's error although the credentials
  resolve now (`ChecksReportWhatTheyFind`).
- A comment says that an empty filter matches everything (api/kuik/v1alpha1/filter_types.go:68-70).
  The code falls back to the deprecated image filter, which without any list selects no image
  (`LegacyMeaning`). The model follows the code.
- The documentation says that a mirror is deleted only after its image was unused for the retention
  (docs/crds.md:143). The code deletes at once when the image stops matching the filter; the result
  about whole runs is therefore for images that keep matching.
- Init containers are looked up in the annotation but never recorded there
  (`InitContainersAreNeverSettled`), so writing once is a property of the other containers.
- The intra priority is documented to order mirrors within one resource
  (docs/concepts/image-routing.md:57). It also interleaves the mirrors of different resources of
  the same kind and priority (`EqualSetsAreInterleaved`).
- The credential index is sorted by the text of the key. The longer path comes first exactly on one
  host; between two hosts the hosts decide (`LookupOrder`, with `GlobKeysSortLast` as an example).

## Model

| member | source | states |
|---|---|---|
| Parallel.FirstSuccessful | internal/parallel/parallel.go:13-52 | For every order of arrival the collector returns what a scan from the left returns, value and error list, after the first arrival with which no missing result could change the answer, and not before. |
| Parallel.SettledIffDetermined | internal/parallel/parallel.go:30-43 | The collector's own test (no gap up to the first success, or to the end) holds exactly when every completion of the missing results gives the same answer. |
| Parallel.ScanAt | internal/parallel/parallel.go:10-12 | The scan yields the first success by index and the errors of everything before it. |
| Parallel.NetInvariantHolds | internal/parallel/parallel.go:17-30 | In every reachable state of goroutines, channel and collector, each index is unsent, in the channel or taken, exactly once. |
| Parallel.ProtocolIsSafe | internal/parallel/parallel.go:17-51 | No sender ever blocks, the channel holds at most n results, there is no deadlock before the collector returns, a run has at most two steps per goroutine, and the collector returns at the first determining receive. |
| StableSorting.StableOrderIsSorted | internal/webhook/core/v1/pod_webhook.go:567-568 | The sorted order is a permutation, ascending by the key and then by generation. |
| StableSorting.StableOrderIsUnique | internal/webhook/core/v1/pod_webhook.go:567-568 | Any stable ascending permutation is that order, whatever algorithm sorts. |
| StableSorting.RankedIsPriorityOrder | internal/webhook/core/v1/pod_webhook.go:567-572 | Sorting and keeping the first of each name keeps every name once, at its least key, in ascending order. |
| StableSorting.RepresentedEarlier | internal/webhook/core/v1/pod_webhook.go:567-572 | A candidate better than a listed one is represented by an earlier place of the list. |
| Alternatives.CompareIsTotalPreorder | internal/webhook/core/v1/pod_webhook.go:144-153 | The four-part comparison is antisymmetric in sign and transitive. |
| Alternatives.CompareIsLexicographic | docs/concepts/image-routing.md:102-107 | The comparison is the lexicographic order of the documented key, and zero only on equal keys. |
| Alternatives.FinalListIsPriorityOrder | internal/webhook/core/v1/pod_webhook.go:567-572 | The final list has exactly the generated references, without duplicates, each standing for the best of its candidates, best first, ties in generation order. |
| Alternatives.BeforeTheOriginal | internal/webhook/core/v1/pod_webhook.go:513-526 | Only references with a candidate of lower CR priority stand before a kept original. |
| Alternatives.PinnedOriginalIsFirst | internal/webhook/core/v1/pod_webhook.go:514-525 | An original pinned to the least integer is first, even against other candidates with that priority. |
| Alternatives.Container.AddAlternative | internal/webhook/core/v1/pod_webhook.go:804-815 | A reference already added is skipped, another is appended with its credential; the set of references stays in step with the list. |
| Alternatives.Container.AddAll | internal/webhook/core/v1/pod_webhook.go:567-572 | Sorting and adding one by one leaves exactly the ranked candidates in the container. |
| Routing.MatchUpstream | internal/webhook/core/v1/pod_webhook.go:460-482 | The first upstream whose filter compiles and accepts the image, and which upstreams have a usable filter. |
| Routing.AppendRewrites | internal/webhook/core/v1/pod_webhook.go:497-511 | Appends one rewrite per upstream that is valid and not discarded, in declaration order. |
| Routing.CollectReplicated | internal/webhook/core/v1/pod_webhook.go:459-512 | The candidates of all replicated sets, and whether a matching discarded upstream suppresses the original. |
| Routing.BaseCandidatesIff | internal/webhook/core/v1/pod_webhook.go:459-526 | The base candidates, by quantifiers over sets and upstreams: the original exactly when no set has it from a discarded upstream, pinned or not; and from each set that has the image, every upstream that compiles and is not discarded, with its prefix, credential and keys. |
| Routing.ExpandOne | internal/webhook/core/v1/pod_webhook.go:537-565 | One mirror set extends a snapshot of the list, and fails if one of its references does not parse. |
| Routing.ExpandMirrors | internal/webhook/core/v1/pod_webhook.go:528-565 | Mirror sets in order, each seeing what those before it added; a set whose filter does not compile is skipped; the first error ends it. |
| Routing.CandidatesAreTheChains | internal/webhook/core/v1/pod_webhook.go:455-565 | The candidates are exactly the base candidates with mirrors applied along strictly increasing chains of mirror sets whose filters accept registry and path of every intermediate reference; each mirror takes the path and carries its credential and keys. |
| Routing.ExpansionFailsIff | internal/webhook/core/v1/pod_webhook.go:537-545 | The expansion fails exactly when a set whose filter compiles meets a candidate that does not parse. |
| Routing.ExpandGrows | internal/webhook/core/v1/pod_webhook.go:528-565 | What the mirror sets generate is appended, so that the order of the declarations decides between equal keys. |
| Routing.FromSetsGrow | internal/webhook/core/v1/pod_webhook.go:459-512 | The same for the replicated sets. |
| Routing.MirroredGrow | internal/webhook/core/v1/pod_webhook.go:541-564 | Within a mirror set, the order of the candidates it is applied to. |
| Routing.RewritesAreInOrder | internal/webhook/core/v1/pod_webhook.go:497-511 | The upstreams a set offers are in declaration order, each once. |
| Routing.ExpansionIsBounded | internal/webhook/core/v1/pod_webhook.go:528-565 | At most base candidates times the product of (1 + mirrors) over the sets. |
| Routing.RenamingIsConsistent | internal/webhook/core/v1/pod_webhook.go:488-511 | With separated prefixes, equivalent images accepted by their own upstreams get the same candidates, and rewriting there and back restores the image. |
| Routing.SelfRewriteIffUnderPrefix | internal/webhook/core/v1/pod_webhook.go:488-502 | An accepted image is rewritten to itself by its own upstream exactly when it lies under the upstream's registry and path. |
| Routing.LoadSecrets | internal/webhook/core/v1/pod_webhook.go:817-830 | Succeeds exactly when every credential in the list can be read. |
| Routing.BuildAlternativesList | internal/webhook/core/v1/pod_webhook.go:452-585 | The container ends with the ranked candidates, or the error is the one of the first failing phase. |
| Routing.BuildSucceedsIff | internal/webhook/core/v1/pod_webhook.go:452-585 | The list is built exactly when every reference that a mirror set meets parses and every credential of the final list can be read. |
| Routing.OriginalIsUnique | internal/webhook/core/v1/pod_webhook.go:513-526 | A kept original is the only candidate of its type, with zero secondary keys. |
| Routing.OriginalComesFirst | internal/webhook/core/v1/pod_webhook.go:513-526 | Only references with a negative-priority candidate precede a kept original, and none when it is pinned. |
| Routing.GeneratedOrigin | internal/webhook/core/v1/pod_webhook.go:455-565 | Every generated candidate is the original, a mirror of some mirror set or an upstream of some replicated set, with that resource's priorities and position. |
| Routing.FinalListIsInDocumentedOrder | docs/concepts/image-routing.md:100-109 | Of two references in the final list the first has no greater documented key, computed from the declarations they come from. |
| Routing.DefaultOrder | docs/concepts/image-routing.md:5-31 | The final list is ordered by CR priority; without explicit priorities by kind: original, cluster mirrors, namespaced mirrors, cluster upstreams, namespaced upstreams. |
| Routing.PriorityDecidesFirst | docs/concepts/image-routing.md:25-29 | In the final list a mirror or upstream precedes the original exactly when its CR priority is negative. |
| Routing.EqualSetsAreInterleaved | internal/webhook/core/v1/pod_webhook.go:144-153 | In the final list the candidates of all resources of one kind and priority are ordered by intra priority and then by position, across the resources. |
| Routing.FindBestAlternative | internal/webhook/core/v1/pod_webhook.go:587-602 | For every order of arrival: the first available image of the list, and nothing when there are fewer than two. |
| Routing.RoutingIsPriorityScan | internal/webhook/core/v1/pod_webhook.go:567-602 | An image is taken exactly when there are two references or more and one is available; it is available and every better candidate is not. |
| PodDefaulter.Pod.CollectContainers | internal/webhook/core/v1/pod_webhook.go:199-231 | Records every container name not recorded yet with its image, and lists exactly the containers not settled before, once each. |
| PodDefaulter.Pod.RouteContainer | internal/webhook/core/v1/pod_webhook.go:380-398 | The alternative one container is moved to, on a cache hit and on a miss; none when it is the container's own image; or the error. |
| PodDefaulter.Pod.ProcessSlot | internal/webhook/core/v1/pod_webhook.go:376-418 | Changes the image of its own container only, to what was decided, and adds the pull secret it needs unless the pod has it; fails exactly when the decision does. |
| PodDefaulter.Pod.ProcessSlots | internal/webhook/core/v1/pod_webhook.go:376-421 | Succeeds exactly when every collected container can be decided and its secret ensured; then each has its decision, the others are untouched, and the pod gains each missing pull secret once. |
| PodDefaulter.Pod.DefaultPod | internal/webhook/core/v1/pod_webhook.go:175-421 | The whole new pod after a call: annotation, containers, init containers and pull secrets; fails exactly when some collected container cannot be decided. |
| PodDefaulter.ContainerIsRoutedByPriority | internal/webhook/core/v1/pod_webhook.go:376-421 | End to end, on a cache miss, for a container that parses without a digest and whose pull policy allows it: it gets its best available candidate with the pull secret that needs, all better ones having been unavailable, and otherwise keeps its image; it fails exactly when the list or the secret cannot be had; an original pulled always is pinned first unless configured otherwise. Arrival order plays no part. |
| PodDefaulter.CachedChoiceIsFollowed | internal/webhook/core/v1/pod_webhook.go:380-427 | On a cache hit the cached choice is followed in the same way. |
| PodDefaulter.UntouchedIff | internal/webhook/core/v1/pod_webhook.go:236-244 | A container keeps its image whatever objects, cache and probes are, exactly when it does not parse, has a digest, or has pull policy Never and such containers are not to be rewritten. |
| PodDefaulter.AdmissionOutcome | internal/webhook/core/v1/pod_webhook.go:192-421 | The whole pod after an admission, by names: it succeeds exactly when every container that is neither recorded nor preceded by one of its name can be decided; these get their images and are recorded, and nothing else changes. |
| PodDefaulter.AdmissionKeepsRecords | internal/webhook/core/v1/pod_webhook.go:192-207 | An admission neither overwrites nor removes a recorded original. |
| PodDefaulter.OriginalsAreWrittenOnce | internal/webhook/core/v1/pod_webhook.go:192-207 | Over any admissions and changes by others, a recorded original stays recorded exactly as long as nobody else drops or alters it. |
| PodDefaulter.RewritesImageIff | internal/webhook/core/v1/pod_webhook.go:199-400 | An admission rewrites a non-init container exactly when the call succeeds, the name is recorded neither in the annotation nor by an earlier container, and another image is decided. |
| PodDefaulter.RewriteRecordsOriginal | internal/webhook/core/v1/pod_webhook.go:199-207 | An admission that rewrites a container had not recorded it and records the image it replaces. |
| PodDefaulter.RewrittenAgainOnlyIfRemoved | internal/webhook/core/v1/pod_webhook.go:192-400 | Two admissions rewrite the same container name only if somebody else removed that name from the annotation in between. |
| PodDefaulter.RewrittenAtMostOnce | internal/webhook/core/v1/pod_webhook.go:192-400 | While others leave its record alone, no container name is rewritten by two admissions and the first original stays recorded. |
| PodDefaulter.InitContainersAreNeverSettled | internal/webhook/core/v1/pod_webhook.go:211-221 | The keys of init containers are never written by the webhook: an init container is processed by each admission unless somebody else wrote its key. |
| PodDefaulter.OnlyRegularContainersAreRecorded | internal/webhook/core/v1/pod_webhook.go:200-227 | The annotation gains names of non-init containers only. |
| Monitor.MonitoringCandidatesByRegistry | internal/controller/kuik/clusterimagesetavailability_controller.go:193-240 | For every registry: no candidate if nothing is tracked there, else the entry picked among all valid resources and the time of the latest check. |
| Monitor.CandidateIsMostOverdue | internal/controller/kuik/clusterimagesetavailability_controller.go:193-240 | Entry by entry: a registry has a candidate exactly when an entry of a resource with valid filters lies on it; the candidate was never checked if any was not, and else no later than any other, and carries the greatest of all check times there. |
| Monitor.Consider | internal/controller/kuik/clusterimagesetavailability_controller.go:220-235 | One entry updates its own registry's record and no other. |
| Monitor.PickIsMostOverdue | internal/controller/kuik/clusterimagesetavailability_controller.go:227-231 | The picked entry was never checked if any was not, and else was checked no later than any other; ties go to the last never checked and to the first of the oldest. |
| Monitor.LatestIsGreatest | internal/controller/kuik/clusterimagesetavailability_controller.go:233-235 | The registry's latest check time is at least that of every entry. |
| Monitor.Scheduler.FindMonitoredImage | internal/controller/kuik/clusterimagesetavailability_controller.go:299-306 | The first entry of that name, or that there is none. |
| Monitor.Scheduler.CheckNextForRegistry | internal/controller/kuik/clusterimagesetavailability_controller.go:270-297 | Checks exactly when a tick has passed since the candidate's latest check and its image is still listed; then that entry alone changes; otherwise nothing does. The wait returned ends when the check is due, is a tick after a check, and zero for a missing image. For the candidate just selected: the picked entry alone gets the new time. |
| Monitor.CheckRestampsOne | internal/controller/kuik/clusterimagesetavailability_controller.go:285-294 | Writing one entry back changes one time of its registry and none of the others. |
| Schedule.RoundRobin | internal/controller/kuik/clusterimagesetavailability_controller.go:201-297 | With a tick of at least one stored second any n consecutive checks check each of the n entries exactly once, from any starting times, absent and equal ones included. |
| Schedule.NoRepeatWithinRound | internal/controller/kuik/clusterimagesetavailability_controller.go:227-231 | No entry is checked twice within n checks. |
| Schedule.FairnessNeedsATick | internal/controller/kuik/clusterimagesetavailability_controller.go:273-274 | Every run is fair to two or more entries exactly when the interval is at least maxPerInterval stored seconds long. |
| Schedule.ShortTickStarves | internal/controller/kuik/clusterimagesetavailability_controller.go:273-276 | With a shorter tick a run exists in which one entry is checked again and again. |
| Schedule.ChecksKeepDistance | internal/controller/kuik/clusterimagesetavailability_controller.go:270-297 | While changes of the list keep the latest check, each check is at least a tick after the stored time of the one before. |
| Schedule.SpacedApart | internal/controller/kuik/clusterimagesetavailability_controller.go:270-297 | The distance of any two checks of a run: whole ticks in between, and what storing whole seconds takes away. |
| Schedule.WindowBound | internal/controller/kuik/clusterimagesetavailability_controller.go:270-297 | How long a half-open window with k checks must be. |
| Schedule.ExactWindowBound | internal/controller/kuik/clusterimagesetavailability_controller.go:270-297 | With exactly stored times a half-open window of length w holds at most ceil(w / tick) checks. |
| Schedule.MaximumIsABoundIff | internal/controller/kuik/clusterimagesetavailability_controller.go:273 | Every window of one interval, in every run, holds at most maxPerInterval checks exactly when the interval is empty, or times are stored exactly and maxPerInterval divides the interval. |
| Schedule.RemovalKeepsTheWaitIff | internal/controller/kuik/clusterimagesetavailability_controller.go:233-274 | Removing an entry never makes a check due earlier exactly when the latest check time stays. |
| Schedule.SyncKeepsLatestIff | internal/controller/kuik/clusterimagesetavailability_controller.go:233-367 | A sync of one resource keeps the registry's latest check time exactly when an entry that has it survives. |
| Schedule.MovesAreEvents | internal/controller/kuik/clusterimagesetavailability_controller.go:137-160 | The controller's checks and syncs, as long as syncs keep the latest check, are a run whose checks keep their distance. |
| Schedule.CallsAreACheckRun | internal/controller/kuik/clusterimagesetavailability_controller.go:151-160 | Checks of an unchanged list are a run of the round robin. |
| TrackedImages.ImageSetAvailability.ListCurrent | internal/controller/kuik/clusterimagesetavailability_controller.go:319-327 | The names in use that are in scope, the last pod deciding whether one is an original. |
| TrackedImages.CurrentImagesIff | internal/controller/kuik/clusterimagesetavailability_controller.go:319-327 | A name is current exactly when it is in scope and some pod uses it; the last such pod says whether it is an original. |
| TrackedImages.ImageSetAvailability.MarkUnused | internal/controller/kuik/clusterimagesetavailability_controller.go:329-352 | Every entry's unusedSince after the marking loop, and whether any was assigned anew. |
| TrackedImages.ImageSetAvailability.RemoveExpired | internal/controller/kuik/clusterimagesetavailability_controller.go:354-367 | With a positive expiry exactly the expired entries go, in order; only those without the marker are reported. |
| TrackedImages.ImageSetAvailability.AddDiscovered | internal/controller/kuik/clusterimagesetavailability_controller.go:369-385 | Each name in use that is not listed is appended once, scheduled. |
| TrackedImages.ImageSetAvailability.SyncImageList | internal/controller/kuik/clusterimagesetavailability_controller.go:308-389 | The whole new list, the change flag and the count. |
| TrackedImages.SyncIsExact | internal/controller/kuik/clusterimagesetavailability_controller.go:308-389 | In terms of filter and pods: the list after a sync has exactly the entries that do not leave, each with its new mark and otherwise unchanged, and one scheduled entry for each used name in scope that had none. |
| TrackedImages.ChangeIsReportedIff | internal/controller/kuik/clusterimagesetavailability_controller.go:329-389 | A change is reported exactly when a mark is set anew, an entry outlived the expiry, or a used name in scope had no entry. |
| TrackedImages.DropExpiredGrows | internal/controller/kuik/clusterimagesetavailability_controller.go:354-367 | The entries that stay keep their order. |
| TrackedImages.SyncTracksWell | internal/controller/kuik/clusterimagesetavailability_controller.go:308-389 | With a positive expiry: unique names, every used name listed as used, nothing out of scope, no marker. |
| TrackedImages.SyncKeepsNamesUnique | internal/controller/kuik/clusterimagesetavailability_controller.go:368-385 | A sync keeps names unique, for every expiry. |
| TrackedImages.TrackedListInvariant | internal/controller/kuik/clusterimagesetavailability_controller.go:308-413 | Names are unique in every state of every run; with a positive expiry no marker survives and every sync leaves the list in step with filter and pods. |
| TrackedImages.NamesAfterSync | internal/controller/kuik/clusterimagesetavailability_controller.go:319-385 | A name is listed after a sync exactly when it is in scope and some pod uses it, or an entry of it does not leave. |
| TrackedImages.UnusedSinceIsAfterLastUse | internal/controller/kuik/clusterimagesetavailability_controller.go:341-348 | A time in unusedSince is never before a sync that saw the image used. |
| TrackedImages.LeavesOnlyAfterExpiry | internal/controller/kuik/clusterimagesetavailability_controller.go:319-367 | A checked image in scope leaves the list only when the expiry has passed since every sync in which a pod used it. |
| TrackedImages.UnusedLeavesIffExpired | internal/controller/kuik/clusterimagesetavailability_controller.go:329-366 | A checked, unused entry in scope is removed by a sync exactly when it has been unused for the expiry. |
| TrackedImages.UnreportedMeansUnchanged | internal/controller/kuik/clusterimagesetavailability_controller.go:350-389 | If no change is reported, the list is unchanged exactly when the expiry is not positive or the list held no marker. |
| TrackedImages.UnreportedMeansUnchangedInRuns | internal/controller/kuik/clusterimagesetavailability_controller.go:137-143 | Along runs with a positive expiry an unreported sync changes nothing, so skipping the write is right. |
| TrackedImages.UnreportedRemoval | internal/controller/kuik/clusterimagesetavailability_controller.go:356-363 | A removal that is not reported. |
| TrackedImages.ChecksReportWhatTheyFind | internal/controller/kuik/clusterimagesetavailability_controller.go:391-413 | A check reports its own finding except when a refused authentication follows an earlier failed credential lookup, whose error it keeps. |
| Paths.DestinationCarriesPrefix | internal/controller/kuik/mirror_reconciler.go:490-494 | A joined destination starts with its mirror's prefix exactly when the prefix is not ".". |
| Paths.ClimbingMirrorLosesPrefix | api/kuik/v1alpha1/imagesetmirror_types.go:158-160 | A mirror path that climbs out of its registry loses the prefix. |
| Paths.JoinIsInjective | internal/controller/kuik/mirror_reconciler.go:490-494 | Under one mirror two image paths have the same destination exactly when they are equal. |
| Paths.CleaningRules | internal/controller/kuik/mirror_reconciler.go:490-494 | Empty and "." segments vanish, ".." takes a real segment before it away, and vanishes at the front of a rooted path. |
| Paths.CleaningEnds | internal/controller/kuik/mirror_reconciler.go:490-494 | No rule applies to a cleaned path, and a path to which none applies is not changed. |
| Paths.JoinOfPlain | internal/controller/kuik/mirror_reconciler.go:490-494 | Names without dots and empty parts are joined by slashes. |
| Mirrors.GetCredentialSecretForImage | api/kuik/v1alpha1/imagesetmirror_types.go:118-128 | The credential of the longest covering prefix, the first declared of equals, or none when no mirror covers the image. |
| Mirrors.LongestIsUnique | api/kuik/v1alpha1/imagesetmirror_types.go:118-128 | That mirror is determined. |
| Mirrors.NoCredentialIff | internal/controller/kuik/mirror_reconciler.go:400-405 | No credential is resolved exactly when no mirror covers the image or the longest one has none. |
| Mirrors.DestinationsAreCovered | internal/controller/kuik/mirror_reconciler.go:400-405 | A mirror covers its own destinations exactly when its prefix is neither empty nor ".". |
| Mirrors.AfterRegistryIsThePath | internal/controller/kuik/mirror_reconciler.go:491 | Dropping the registry of a normalised name leaves its path. |
| PodImages.NamesFromPod | internal/controller/kuik/mirror_reconciler.go:580-592 | The normalised names a pod runs, digests and unparsable ones left out. |
| PodImages.NamesMapFromAnnotatedPod | internal/controller/kuik/mirror_reconciler.go:545-574 | The names a pod runs and those recorded as originals, the latter marked. |
| PodImages.NamedIff | internal/controller/kuik/mirror_reconciler.go:545-592 | A pod names exactly the images that a text without a digest parses to, in a container or recorded as an original; the latter are marked. |
| PodImages.PodsInUseImages | internal/controller/kuik/mirror_reconciler.go:600-608 | The union over the pods. |
| PodImages.InUseMembers | internal/controller/kuik/mirror_reconciler.go:594-608 | An image is in use exactly when some pod has a text without a digest that parses to it, in a container or recorded as an original. |
| MirrorSources.GetAllMirrorPrefixes | internal/controller/kuik/mirror_reconciler.go:668-699 | Bucket by bucket exactly the prefixes of all declared mirrors, all in one bucket for a cluster-scoped reconcile. |
| MirrorSources.AddSources | internal/controller/kuik/mirror_reconciler.go:522-534 | The names of one pod that are not under a relevant mirror prefix and match are added with that pod, and nothing else changes. |
| MirrorSources.PodsByNormalizedMatchingImages | internal/controller/kuik/mirror_reconciler.go:515-543 | The source images, each with the last pod that runs it. |
| MirrorSources.SourceMembers | internal/controller/kuik/mirror_reconciler.go:520-534 | An image is a source exactly when some pod runs it under a text without a digest, it matches, and no relevant prefix starts it; it comes with the last such pod. |
| MirrorSources.IsMirroredIff | internal/controller/kuik/mirror_reconciler.go:518-699 | An image is filtered out for a pod exactly when it lies under a mirror of a cluster-wide resource, or of a namespaced one: of any in a cluster-wide reconcile, of the namespace otherwise. |
| MirrorSources.DigestPodAddsNoSource | internal/controller/kuik/mirror_reconciler.go:580-592 | A pod that runs images by digest only adds no source. |
| MirrorSources.DestinationIsMirrored | internal/controller/kuik/mirror_reconciler.go:515-535 | A destination of a mirror the pod can be routed to is filtered out. |
| MirrorSources.SoleMirrorFeedsItself | internal/controller/kuik/mirror_reconciler.go:523-529 | With one mirror, a pod moved to a destination makes it a source exactly when the normalised name lacks the prefix; in normal form, exactly when the prefix is ".". |
| MirrorSources.RewritingAddsNoSource | internal/controller/kuik/mirror_reconciler.go:515-535 | Rewriting pods to mirror destinations adds no source, for cluster-scoped and namespaced resources. |
| MirrorSources.SourcesStayClosed | internal/controller/kuik/mirror_reconciler.go:515-535 | However pods come and go and are rewritten, every image ever tracked is a source that some pod ran when it was new. |
| MirrorStatus.MergeMirrors | internal/controller/kuik/mirror_reconciler.go:644-658 | The current mirrors in place, followed by the expected ones whose destination is missing. |
| MirrorStatus.MissingGrows | internal/controller/kuik/mirror_reconciler.go:644-658 | The appended mirrors are in declaration order. |
| MirrorStatus.MirrorResource.UpdateUnusedSince | internal/controller/kuik/mirror_reconciler.go:610-642 | The merged map: every previous and every discovered image with its mirrors and mark. |
| MirrorStatus.MirrorResource.MergePreviousAndCurrent | internal/controller/kuik/mirror_reconciler.go:483-513 | The status after a merge, as a map keyed by image. |
| MirrorStatus.MergeConserves | internal/controller/kuik/mirror_reconciler.go:483-513 | The tracked images are the previous and the newly matched ones; no previous mirror entry or mirroredAt is lost; every matched image has all expected mirrors. |
| MirrorStatus.MergeIsIdempotent | internal/controller/kuik/mirror_reconciler.go:483-513 | Merging again with the same images changes nothing. |
| MirrorStatus.MirrorResource.CleanupImage | internal/controller/kuik/mirror_reconciler.go:179-210 | Which mirrors of an image stay, whether a deletion failed, and the delay so far. |
| MirrorStatus.MirrorResource.CleanupUnused | internal/controller/kuik/mirror_reconciler.go:173-222 | The status after cleanup, whether any deletion failed, and the delay to ask for; the clock is read for each mirror. |
| MirrorStatus.NothingExpiresBeforeRequeue | internal/controller/kuik/mirror_reconciler.go:173-269 | When no deletion fails, no retained mirror of an unused image passes its retention before the delay is over, counted from when the cleanup came to it, and a delay is asked for whenever one is retained. |
| MirrorStatus.RequeueIsTimely | internal/controller/kuik/mirror_reconciler.go:189-267 | When the delay is over, counted from the return, some waiting mirror has passed its retention, and none by more than the time from when the cleanup came to it until the return. |
| MirrorStatus.StayingMembers | internal/controller/kuik/mirror_reconciler.go:184-210 | Exactly the mirrors stay that are not overdue when the cleanup comes to them, or whose deletion fails. |
| MirrorStatus.CleanupIsExact | internal/controller/kuik/mirror_reconciler.go:173-222 | An image stays in the status exactly when it is in use or a mirror of it survives, which it does when the retention has not passed, cleanup is off, or a recorded copy could not be deleted; nothing else changes. |
| MirrorStatus.StayingGrows | internal/controller/kuik/mirror_reconciler.go:179-210 | The mirrors that stay keep their order. |
| MirrorStatus.MirrorResource.MirrorMissing | internal/controller/kuik/mirror_reconciler.go:224-255 | Used images get every missing copy tried and its outcome recorded; unused ones are left alone. |
| MirrorStatus.MirroringRecordsCopies | internal/controller/kuik/mirror_reconciler.go:224-255 | A mirror is recorded afterwards exactly when it was before, or its image is in use and the copy is there now, with its time and no error; a failed copy leaves its error, and nothing else changes. |
| MirrorStatus.ForgottenRecords | internal/webhook/core/v1/pod_webhook.go:665-714 | Clearing a stale copy removes exactly that record. |
| MirrorRuns.ReconcileStatus | internal/controller/kuik/mirror_reconciler.go:158-269 | The status after a whole reconcile and its result: an error exactly when a deletion or copy failed, else the least remaining retention as the delay. |
| MirrorRuns.MergeOutcome | internal/controller/kuik/mirror_reconciler.go:158-171 | From the pods: an image is tracked after a merge exactly when it was or is a source; mirrors are kept and, for a source, completed; and how its mark follows filter and use. |
| MirrorRuns.RemergingChangesNothing | internal/controller/kuik/mirror_reconciler.go:483-513 | A second merge with the same pods, at any time, changes nothing. |
| MirrorRuns.UnusedSinceIsAfterLastUse | internal/controller/kuik/mirror_reconciler.go:610-642 | While an image matches, its unusedSince is never before a reconcile that saw it used, and never the marker. |
| MirrorRuns.MirrorsOutliveUse | internal/controller/kuik/mirror_reconciler.go:176-216 | Over all runs: a mirror entry of an image that keeps matching is dropped only by a reconcile with cleanup enabled, in which no pod uses the image, the retention having passed, as the cleanup comes to the mirror, since every reconcile that saw it used. |
| MirrorRuns.FateOfAMirror | internal/controller/kuik/mirror_reconciler.go:176-216 | Exactly when a reconcile drops a destination: every mirror with it has cleanup enabled and its deletion does not fail, and the image no longer matches, or is unused and was marked for instant expiry or has been unused for the retention as the cleanup comes to the mirror. |
| MirrorRuns.RetentionIsReached | internal/controller/kuik/mirror_reconciler.go:184-216 | The bound is reached: a mirrored image found unused by the next reconcile loses its mirror there as soon as the retention has passed. |
| MirrorRuns.DroppedIffOverdueAndDeleted | internal/controller/kuik/mirror_reconciler.go:184-216 | A reconcile drops a destination exactly when each mirror with it is overdue after the merge, as the cleanup comes to it, and its deletion does not fail. |
| MirrorRuns.RewrittenPodKeepsItsMirrors | internal/controller/kuik/mirror_reconciler.go:594-608 | A pod that has the image recorded as an original keeps its mirrors, the defect of issue 567. |
| MirrorRuns.RoutedWhereMirrored | internal/webhook/core/v1/pod_webhook.go:553-564 | What the webhook offers for an image is the destination the controller copies it to, mirror by mirror. |
| MirrorRuns.CopiesSurviveIffNotShared | internal/controller/kuik/mirror_reconciler.go:173-222 | Whatever deletions succeed, a cleanup takes no copy the status goes on to record, exactly when no recorded mirror of an overdue entry has the repository and digest of another recorded one. |
| MirrorRuns.TwoTagsOfOneDigest | internal/registry/registry.go:216-231 | Two distinct tags of a repository with one digest, one overdue and one in use: the cleanup takes both. |
| MirrorRuns.OthersKeepTheirCopiesIff | internal/controller/kuik/mirror_reconciler.go:202-210 | The cleanup of one resource takes no copy that another records, exactly when no recorded mirror of an overdue entry of the one has the repository and digest of a recorded mirror of the other. |
| MirrorRuns.CleanupRecordsIff | internal/controller/kuik/mirror_reconciler.go:184-216 | What a cleanup leaves recorded: the recorded mirrors that are not overdue, and those whose deletion fails. |
| MirrorRuns.RecordedCopiesSurvive | internal/controller/kuik/mirror_reconciler.go:173-222 | In particular none when recorded mirrors never have one repository and digest. |
| MirrorRuns.DestinationsCoincideIff | internal/controller/kuik/mirror_reconciler.go:490-494 | Two images have the same destination under a mirror exactly when they differ in the registry only. |
| MirrorRuns.SharedDestinationIsLost | internal/controller/kuik/mirror_reconciler.go:202-210 | From an empty status, two reconciles over images whose destinations have one repository and digest: the overdue one takes the copy that stays recorded for the other. |
| MirrorRuns.SharedDestinationsOccur | internal/controller/kuik/mirror_reconciler.go:202-210 | Such a run exists. |
| MirrorLifecycle.CleanupMirror | internal/controller/kuik/mirror_reconciler.go:463-481 | Success exactly when no declared mirror covers the image, or the longest one has no credential, or its secret can be read and the image is absent or gets deleted. |
| MirrorLifecycle.CleanupAll | internal/controller/kuik/mirror_reconciler.go:89-105 | Succeeds exactly when every recorded mirror reports success; otherwise stops at the first failure, having tried those before it. |
| MirrorLifecycle.PhasesAreInOrder | internal/controller/kuik/mirror_reconciler.go:89-255 | A reconcile goes through its phases in order and starts only when none is under way, with the deletion branch exactly for a resource that is being deleted and has the finalizer. |
| MirrorLifecycle.DeletionTakesIff | internal/registry/registry.go:216-231 | What a step takes from the registries: every tag with the repository and digest of a mirror for which a credential is resolved and readable, in whose namespace, and which the registry has and deletes. |
| MirrorLifecycle.RecordIsReached | internal/controller/kuik/mirror_reconciler.go:144-255 | Every new resource has a run that mirrors and records an image. |
| MirrorLifecycle.FinalizerGuardsRecords | internal/controller/kuik/mirror_reconciler.go:144-156 | In every reachable state the finalizer of each resource with a recorded mirror is present, and a finalization under way has to clean up everything that is recorded. |
| MirrorLifecycle.DisappearsOnlyClean | internal/controller/kuik/mirror_reconciler.go:89-121 | Over all runs: a resource disappears only with nothing recorded, or at the end of a reconcile that cleaned up every recorded mirror with success. |
| MirrorLifecycle.LeftBehindIff | internal/controller/kuik/mirror_reconciler.go:89-121 | Over all runs: a recorded copy is there after its resource disappeared exactly when its cleanup resolved a credential and somebody copied to its tag again since, or resolved none, and in both cases no deletion took it after the last copy. |
| MirrorLifecycle.FinalizingIsHarmless | internal/controller/kuik/mirror_reconciler.go:93-105 | A finalization, however far it gets, changes no resource and takes only copies with the repository and digest of one that its resource recorded. |
| MirrorLifecycle.FinalizationCanFinish | internal/controller/kuik/mirror_reconciler.go:89-121 | From every state of a finalization, or before its first or next attempt, steps of the resource alone complete it and touch no other resource, once secrets can be read and registries answer, whatever mirrors are declared by then. |
| MirrorLifecycle.RecordedIsPresentIff | internal/controller/kuik/mirror_reconciler.go:202-255 | In every reachable state, over all resources and with any deletion between a copy and its record: a recorded copy is in its registry exactly when no deletion with its repository and digest came after the last copy to its tag. |
| MirrorLifecycle.StepIsSoundIff | internal/controller/kuik/mirror_reconciler.go:173-255 | When each step, deletions for other resources and the writing of records included, makes a copy whose record is to last be missing. |
| MirrorLifecycle.RecordingLosesIff | internal/controller/kuik/mirror_reconciler.go:173-255 | The same for every step that deletes nothing, by what happened before: it makes a record last (a copy is recorded, a cleanup keeps a mirror it could not delete, or a reconcile ends before it wrote what it deleted) whose copy a deletion took. |
| MirrorLifecycle.DeletedBeforeRecorded | internal/controller/kuik/mirror_reconciler.go:224-255 | A copy that another resource deletes before it is recorded is lost by the recording step and no earlier one. |
| MirrorLifecycle.DeletionBeforeRecordOccurs | internal/controller/kuik/mirror_reconciler.go:224-255 | Such steps exist, for any two resources with one destination. |
| MirrorLifecycle.RecordedCopiesArePresent | internal/controller/kuik/mirror_reconciler.go:173-255 | In runs without such steps every recorded copy that is not being cleaned up or finalized is in its registry. |
| MirrorLifecycle.HoldsOwnIff | internal/controller/kuik/mirror_reconciler.go:446-460 | In every reachable state a tag holds an image exactly when that image was copied there last and not deleted since, or was there from the start and untouched. |
| MirrorLifecycle.ContentIsOwn | internal/controller/kuik/mirror_reconciler.go:490-494 | While no two listed images share a tag, a tag never holds another image than its own. |
| RoutedPods.StillUsedIff | internal/webhook/core/v1/pod_webhook.go:199-231 | After a container was moved away from an image, the pod still uses it exactly when it is not an init container, or another container or the annotation refers to it. |
| RoutedPods.RewrittenContainerKeepsItsMirrors | internal/controller/kuik/mirror_reconciler.go:594-608 | A rewritten container keeps the mirrors of its image in every later reconcile, while nobody else touches its record. |
| RoutedPods.InitContainerLosesItsMirrors | internal/webhook/core/v1/pod_webhook.go:211-221 | After the retention, when no other pod refers to the image, the mirror that an init container was moved to goes exactly when no other container of the pod runs the image and the annotation does not record it. |
| Keyring.BasicDockerKeyring.Add | internal/registry/credentialprovider/keyring.go:116-168 | The index stays the strictly descending list of exactly the stored keys; every parsable location's credential is appended under its key. |
| Keyring.SortedDescendingCorrect | internal/registry/credentialprovider/keyring.go:160-167 | Removing duplicates and reverse sorting gives a strictly descending list of the same keys. |
| Keyring.DescendingIsDetermined | internal/registry/credentialprovider/keyring.go:160-167 | A set of keys has one such list, so map iteration order leaves no trace. |
| Keyring.IterationOrderDoesNotMatter | internal/registry/credentialprovider/keyring.go:121-158 | In any iteration order the same credentials are stored under every key. |
| Keyring.UrlsMatch | internal/registry/credentialprovider/keyring.go:246-274 | Equal port, path prefix, as many host parts, and every part matching its glob. |
| Keyring.VersionAddsNothing | internal/registry/credentialprovider/keyring.go:140-153 | A leading /v1/ or /v2/ and a single slash add nothing to a location's key. |
| Keyring.DefaultRegistryImages | internal/registry/credentialprovider/keyring.go:174-199 | The default registry serves names without a slash, names under docker.io or index.docker.io, and those whose first part holds neither a dot nor a colon. |
| Keyring.BasicDockerKeyring.Lookup | internal/registry/credentialprovider/keyring.go:279-302 | The credentials of all matching keys in index order, else those of the default registry where that applies, else none. |
| Keyring.LookupMembers | internal/registry/credentialprovider/keyring.go:246-302 | Exactly the credentials of the keys whose port, path and host apply to the image; if none applies, those of index.docker.io for an image on Docker Hub. |
| Keyring.HubCredentialsAreFound | internal/registry/credentialprovider/keyring.go:116-302 | After a config was added, an image on Docker Hub that no key applies to gets the credentials stored for it before and those of the config for host index.docker.io with no path, a slash, or only a version, in order. |
| Keyring.EveryMatchIsReturned | internal/registry/credentialprovider/keyring.go:279-292 | Each matching key's credentials are returned as one block. |
| Keyring.OnlyMatchesAreReturned | internal/registry/credentialprovider/keyring.go:279-292 | A returned credential belongs to a matching key. |
| Keyring.KeyLessIff | internal/registry/credentialprovider/keyring.go:163-167 | How two keys on different hosts compare: by the hosts, and where one starts the other, by what follows it. |
| Keyring.LookupOrder | internal/registry/credentialprovider/keyring.go:163-167 | Of two matching keys one's block comes first exactly when it has the longer path on one host, or its host sorts above on two, whatever the paths. |
| Keyring.MoreSpecificComesFirst | internal/registry/credentialprovider/keyring.go:163-167 | Of two matching keys on one host the longer path's block comes first. |
| Keyring.GlobKeysSortLast | internal/registry/credentialprovider/keyring.go:163-167 | A glob key with a longer path sorts behind a plain host. |
| Filters.MatchSelectorSets | internal/filter/pod_filter.go:69-92 | Some include selector matches, unless there is none, and no exclude selector does. |
| Filters.CompileIncludeExcludeFilter | internal/filter/include_exclude.go:16-39 | Compiles exactly when every pattern does, keeping all of them. |
| Filters.Collect | api/kuik/v1alpha1/filter_types.go:177-185 | The non-empty values of one dimension in declaration order. |
| Filters.CollectMembers | api/kuik/v1alpha1/filter_types.go:177-185 | A value is collected exactly when it is not empty and some item has it. |
| Filters.FlattenFilter | api/kuik/v1alpha1/filter_types.go:132-144 | Drops the namespace of every item and keeps the items. |
| Filters.SelectionIsAsDocumented | api/kuik/v1alpha1/filter_types.go:91-168 | A non-empty filter selects exactly what its documentation says (OR within a dimension, AND across, excludes win) when every value that is not empty compiles, and nothing otherwise. |
| Filters.FlatteningPreservesSelection | internal/webhook/core/v1/pod_webhook.go:271-289 | Matching the pod and then using the flattened filter selects exactly the pairs the cluster filter selects; a namespace-only filter does not fall back to the deprecated filter, an empty one does. |
| Filters.LegacyMeaning | api/kuik/v1alpha1/imagesetmirror_types.go:130-136 | What the deprecated filter selects when the unified one is empty. |

## Left out

- Reference, URL and glob parsing, regular expressions and label selectors are parameters. Names in
  a status are taken to be normalised already, so the error of `NormalizeAndMatch` on a status entry
  does not occur.
- The alternative cache is a parameter that may answer anything; the routing lemmas are about a
  miss. Its expiry, the cache of checks and the sharing of concurrent requests are not modelled.
- How `ensureSecret` copies a secret: it is a parameter that gives the secret's name or fails. The
  decoding of the annotation, whose parsed map is the state.
- Routing.FindBestAlternative: a probe's outcome is a parameter, whichever pull secrets it presented.
  Which ones those are is not modelled; the source appends a candidate's secret to one list shared
  by the concurrent probes, which can overwrite each other's entry when the list has room to spare
  (internal/webhook/core/v1/pod_webhook.go:589-593).
- The API server keeps times in whole seconds. `Schedule` models that for check times. In
  `TrackedImages` and `MirrorRuns` the time a mark carries is the stored one, up to a second before
  the sync or reconcile that wrote it, and the retention counts from it.
- Kubernetes API mechanics: a status write is atomic and read back by the next reader; patches,
  conflicts and stale informers are not modelled. `clearStaleMirrorStatus` is one step that clears
  a mirroredAt.
- Platform selection, registry clients, metrics, the status endpoint, the secret-owner controller,
  the backfill of originals and configuration merging (`registryConfig`).
- The minimum over registries that the availability controller requeues with.
- Go's 64-bit widths: durations and the unsigned intra priority are unbounded; the CR priority is
  bounded as in Go, because pinning the original depends on the least integer.
- Schedule.RoundRobin: the entries of the registry are fixed during the round, and the tick is the
  same for all of its checks.
- Schedule.ChecksKeepDistance: a change of the list keeps the latest check time;
  `RemovalKeepsTheWaitIff` and `SyncKeepsLatestIff` say exactly when one does.
- Monitor.Scheduler.CheckNextForRegistry: a zero maxPerInterval, which panics in the source, is
  excluded, and the status write succeeds.
- MirrorSources.RewritingAddsNoSource: destinations normalise to themselves and their mirror's
  prefix is not "."; `SoleMirrorFeedsItself` shows that both are needed.
- MirrorSources.SourcesStayClosed: the same, and the declared mirrors do not change meanwhile.
- Routing.RenamingIsConsistent: upstream prefixes do not start one another and no filter reaches
  outside its own prefix; `SelfRewriteIffUnderPrefix` shows what happens otherwise.
- MirrorRuns.RecordedCopiesSurvive: assumes distinct repositories and digests;
  `CopiesSurviveIffNotShared` is exact.
- MirrorRuns.CopiesSurviveIffNotShared: what the destinations resolve to is read once, before the
  cleanup.
- MirrorLifecycle.DisappearsOnlyClean: each resource is worked on by one reconcile at a time, and
  ours is the only finalizer. A copy made in a reconcile that ended before it was recorded is not
  covered.
- MirrorLifecycle.RecordedIsPresentIff: only the controllers change the registries, and a registry is
  right about what it has when it answers; a deletion or a copy that reports failure may still have
  taken effect. Asking for a digest and deleting it are one step.
- MirrorLifecycle.HoldsOwnIff: a tag holds an image as of the time it was copied; what the source tag
  names later is not followed.
- Keyring.LookupOrder: the two keys parse back to the host and path they were made of, with the
  slash between them.
