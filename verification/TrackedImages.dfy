/** The tracked-image list of a ClusterImageSetAvailability: syncImageList and performCheck of
    internal/controller/kuik/clusterimagesetavailability_controller.go. */
module TrackedImages {
  import opened Prelude
  import opened Marks

  datatype Status = Scheduled | Available | NotFound | Unreachable | InvalidAuth | UnavailableSecret | QuotaExceeded

  datatype MonitoredImage = MonitoredImage(
    image: string, status: Status, unused: Unused, lastError: string, lastMonitor: Option<int>, original: bool)

  // ----- syncImageList -----

  /** The names the pods use that the filter accepts; the last pod decides whether a name is
      an original. */
  ghost function CurrentImages(
    filter: string -> bool, pods: seq<map<string, bool>>, n: nat): (current: map<string, bool>)
    requires n <= |pods|
    ensures forall name :: name in current ==> filter(name)
  {
    if n == 0 then map[]
    else CurrentImages(filter, pods, n - 1) + map name | name in pods[n - 1] && filter(name) :: pods[n - 1][name]
  }

  function Mark(filter: string -> bool, current: map<string, bool>, now: int, entry: MonitoredImage): Unused {
    if !filter(entry.image) then Instant
    else if entry.image in current then InUse
    else if entry.status == Scheduled then Instant
    else if entry.unused == InUse then Since(now)
    else entry.unused
  }

  /** The source compares pointers, so assigning the marker again counts as a change. */
  function Repointed(filter: string -> bool, current: map<string, bool>, entry: MonitoredImage): bool {
    if !filter(entry.image) then entry.unused != Instant
    else if entry.image in current then entry.unused != InUse
    else entry.status == Scheduled || entry.unused == InUse
  }

  function Marked(filter: string -> bool, current: map<string, bool>, now: int, entry: MonitoredImage): MonitoredImage {
    entry.(unused := Mark(filter, current, now, entry))
  }

  function MarkedList(filter: string -> bool, current: map<string, bool>, now: int, images: seq<MonitoredImage>)
    : (r: seq<MonitoredImage>)
    ensures |r| == |images|
  {
    seq(|images|, i requires 0 <= i < |images| => Marked(filter, current, now, images[i]))
  }

  /** The time since the marker exceeds every duration. */
  predicate Expired(expiry: int, clock: int, unused: Unused) {
    && expiry > 0
    && match unused
       case InUse => false
       case Since(at) => clock - at >= expiry
       case Instant => true
  }

  function DropExpired(expiry: int, clock: int, images: seq<MonitoredImage>): seq<MonitoredImage> {
    if images == [] then []
    else
      var last := images[|images| - 1];
      DropExpired(expiry, clock, images[..|images| - 1]) + if Expired(expiry, clock, last.unused) then [] else [last]
  }

  /** Entries whose removal is reported: expired, but not by the marker. */
  ghost predicate SomeOutlived(expiry: int, clock: int, images: seq<MonitoredImage>) {
    exists i :: 0 <= i < |images| && Expired(expiry, clock, images[i].unused) && images[i].unused != Instant
  }

  ghost function Names(images: seq<MonitoredImage>): set<string> {
    set i | 0 <= i < |images| :: images[i].image
  }

  function NewEntry(name: string, original: bool): MonitoredImage {
    MonitoredImage(name, Scheduled, InUse, "", None, original)
  }

  ghost predicate AreNewEntries(current: map<string, bool>, known: set<string>, added: seq<MonitoredImage>) {
    && (forall i :: 0 <= i < |added| ==>
        added[i].image in current && added[i] == NewEntry(added[i].image, current[added[i].image]))
    && (forall i, j :: 0 <= i < j < |added| ==> added[i].image != added[j].image)
    && Names(added) == current.Keys - known
  }

  /** What one sync does: mark, drop, and append the new names in some order. */
  ghost predicate Synced(
    filter: string -> bool, expiry: int, current: map<string, bool>, now: int, clock: int,
    before: seq<MonitoredImage>, after: seq<MonitoredImage>, added: seq<MonitoredImage>)
  {
    var kept := DropExpired(expiry, clock, MarkedList(filter, current, now, before));
    after == kept + added && AreNewEntries(current, Names(kept), added)
  }

  ghost predicate ReportsChange(
    filter: string -> bool, expiry: int, current: map<string, bool>, now: int, clock: int,
    before: seq<MonitoredImage>, added: seq<MonitoredImage>)
  {
    || (exists i :: 0 <= i < |before| && Repointed(filter, current, before[i]))
    || SomeOutlived(expiry, clock, MarkedList(filter, current, now, before))
    || added != []
  }

  /** performCheck: a failed credential lookup is overwritten by the result of the check,
      except that it outranks an authentication failure. */
  function PerformCheck(
    entry: MonitoredImage, credentialError: Option<string>, result: Status, checkError: string, at: int)
    : MonitoredImage
  {
    var e := if credentialError.Some? then entry.(status := UnavailableSecret, lastError := credentialError.value)
      else entry;
    var e := e.(lastMonitor := Some(at));
    if e.status == UnavailableSecret && result == InvalidAuth then e
    else e.(status := result, lastError := checkError)
  }

  /** What a check found by itself: a credential lookup that failed now explains a refused
      authentication, and otherwise the registry's answer stands. */
  function Found(credentialError: Option<string>, result: Status, checkError: string): (Status, string) {
    if credentialError.Some? && result == InvalidAuth then (UnavailableSecret, credentialError.value)
      else (result, checkError)
  }

  /** A check reports what it found, with one exception: after an earlier failed lookup a refused
      authentication leaves the old error in place, although the credentials resolved now. */
  lemma ChecksReportWhatTheyFind(
    entry: MonitoredImage, credentialError: Option<string>, result: Status, checkError: string, at: int)
    ensures var checked := PerformCheck(entry, credentialError, result, checkError, at);
            && checked.lastMonitor == Some(at) && checked.image == entry.image && checked.unused == entry.unused
            && checked.original == entry.original
            && if entry.status == UnavailableSecret && credentialError.None? && result == InvalidAuth
               then checked.status == entry.status && checked.lastError == entry.lastError
               else (checked.status, checked.lastError) == Found(credentialError, result, checkError)
  {
  }

  class ImageSetAvailability {
    var images: seq<MonitoredImage>
    var imageCount: nat

    method ListCurrent(filter: string -> bool, pods: seq<map<string, bool>>) returns (current: map<string, bool>)
      ensures current == CurrentImages(filter, pods, |pods|)
    {
      current := map[];
      for n := 0 to |pods|
        invariant current == CurrentImages(filter, pods, n)
      {
        current := ListPod(filter, pods[n], current);
      }
    }

    /** The inner loop over the names of one pod. */
    method ListPod(
      filter: string -> bool, pod: map<string, bool>, before: map<string, bool>)
      returns (current: map<string, bool>)
      ensures current.Keys == before.Keys + set name | name in pod && filter(name)
      ensures forall name :: name in current ==>
        current[name] == if name in pod && filter(name) then pod[name] else before[name]
    {
      current := before;
      var left := pod.Keys;
      while left != {}
        invariant left <= pod.Keys
        invariant forall name :: name in current <==> name in before || (name in pod && name !in left && filter(name))
        invariant forall name :: name in current ==>
                    current[name] == if name in pod && name !in left && filter(name) then pod[name] else before[name]
        decreases left
      {
        var name :| name in left;
        left := left - {name};
        if filter(name) {
          current := current[name := pod[name]];
        }
      }
    }

    method MarkUnused(filter: string -> bool, current: map<string, bool>, now: int) returns (changed: bool)
      modifies this`images
      ensures images == MarkedList(filter, current, now, old(images))
      ensures changed <==> exists i :: 0 <= i < |old(images)| && Repointed(filter, current, old(images)[i])
    {
      changed := false;
      for i := 0 to |images|
        invariant |images| == |old(images)|
        invariant forall k :: 0 <= k < |images| ==>
                    images[k] == if k < i then Marked(filter, current, now, old(images)[k]) else old(images)[k]
        invariant changed <==> exists k :: 0 <= k < i && Repointed(filter, current, old(images)[k])
      {
        var entry := images[i];
        if !filter(entry.image) {
          if entry.unused != Instant {
            images, changed := images[i := entry.(unused := Instant)], true;
          }
        } else if entry.image in current {
          if entry.unused != InUse {
            images, changed := images[i := entry.(unused := InUse)], true;
          }
        } else if entry.status == Scheduled {
          images, changed := images[i := entry.(unused := Instant)], true;
        } else if entry.unused == InUse {
          images, changed := images[i := entry.(unused := Since(now))], true;
        }
      }
    }

    method RemoveExpired(expiry: int, clock: int) returns (outlived: bool)
      modifies this`images
      ensures images == DropExpired(expiry, clock, old(images))
      ensures outlived <==> SomeOutlived(expiry, clock, old(images))
    {
      outlived := false;
      if expiry <= 0 {
        NothingExpired(expiry, clock, images);
        return;
      }
      var kept := [];
      for i := 0 to |images|
        invariant images == old(images)
        invariant kept == DropExpired(expiry, clock, images[..i])
        invariant outlived <==>
          exists k :: 0 <= k < i && Expired(expiry, clock, images[k].unused) && images[k].unused != Instant
      {
        assert images[..i + 1][..i] == images[..i];
        if Expired(expiry, clock, images[i].unused) {
          if images[i].unused != Instant {
            outlived := true;
          }
        } else {
          kept := kept + [images[i]];
        }
      }
      assert images[..|images|] == images;
      images := kept;
    }

    method AddDiscovered(current: map<string, bool>) returns (ghost added: seq<MonitoredImage>, some: bool)
      modifies this`images
      ensures images == old(images) + added && AreNewEntries(current, Names(old(images)), added)
      ensures some <==> added != []
    {
      var existing := set i | 0 <= i < |images| :: images[i].image;
      var left := current.Keys;
      added, some := [], false;
      while left != {}
        invariant left <= current.Keys
        invariant images == old(images) + added && some == (added != [])
        invariant forall i :: 0 <= i < |added| ==>
          added[i].image in current.Keys - left && added[i] == NewEntry(added[i].image, current[added[i].image])
        invariant forall i, j :: 0 <= i < j < |added| ==> added[i].image != added[j].image
        invariant Names(added) == (current.Keys - left) - existing
        decreases left
      {
        var name :| name in left;
        left := left - {name};
        if name !in existing {
          ghost var before := added;
          images := images + [NewEntry(name, current[name])];
          added, some := added + [NewEntry(name, current[name])], true;
          NamesAppend(before, NewEntry(name, current[name]));
        }
      }
    }

    /** The whole of syncImageList for a filter that compiles. */
    method SyncImageList(filter: string -> bool, expiry: int, pods: seq<map<string, bool>>, now: int, clock: int)
      returns (changed: bool, ghost added: seq<MonitoredImage>)
      modifies this
      ensures Synced(filter, expiry, CurrentImages(filter, pods, |pods|), now, clock, old(images), images, added)
      ensures changed <==>
        ReportsChange(filter, expiry, CurrentImages(filter, pods, |pods|), now, clock, old(images), added)
      ensures imageCount == |images|
    {
      var current := ListCurrent(filter, pods);
      changed := MarkUnused(filter, current, now);
      var outlived := RemoveExpired(expiry, clock);
      var some;
      added, some := AddDiscovered(current);
      changed := changed || outlived || some;
      imageCount := |images|;
    }
  }

  lemma NamesAppend(images: seq<MonitoredImage>, entry: MonitoredImage)
    ensures Names(images + [entry]) == Names(images) + {entry.image}
  {
    var all := images + [entry];
    assert all[|images|] == entry;
    forall name | name in Names(images) ensures name in Names(all) {
      var i :| 0 <= i < |images| && images[i].image == name;
      assert all[i] == images[i];
    }
  }

  // ----- What a sync does, in terms of the pods -----

  ghost predicate Used(pods: seq<map<string, bool>>, name: string) {
    exists i :: 0 <= i < |pods| && name in pods[i]
  }

  /** Pod i is the last one of the first n that has the name. */
  ghost predicate LastWith(pods: seq<map<string, bool>>, n: nat, name: string, i: nat)
    requires n <= |pods|
  {
    i < n && name in pods[i] && forall k :: i < k < n ==> name !in pods[k]
  }

  /** The current names are those in scope that some pod uses; the last such pod says whether a name
      is an original. */
  lemma {:induction false} CurrentImagesIff(filter: string -> bool, pods: seq<map<string, bool>>, n: nat, name: string)
    requires n <= |pods|
    ensures name in CurrentImages(filter, pods, n) <==> filter(name) && exists i :: 0 <= i < n && name in pods[i]
    ensures forall i: nat :: filter(name) && LastWith(pods, n, name, i) ==>
              name in CurrentImages(filter, pods, n) && CurrentImages(filter, pods, n)[name] == pods[i][name]
  {
    if n > 0 {
      var last := n - 1;
      CurrentImagesIff(filter, pods, last, name);
      forall i: nat | filter(name) && LastWith(pods, n, name, i)
        ensures name in CurrentImages(filter, pods, n) && CurrentImages(filter, pods, n)[name] == pods[i][name]
      {
        assert i == last || LastWith(pods, last, name, i);
      }
    }
  }

  lemma {:induction false} LastExists(pods: seq<map<string, bool>>, n: nat, name: string) returns (i: nat)
    requires n <= |pods| && exists k :: 0 <= k < n && name in pods[k]
    ensures LastWith(pods, n, name, i)
  {
    if name in pods[n - 1] {
      i := n - 1;
    } else {
      i := LastExists(pods, n - 1, name);
    }
  }

  /** The entry goes in a sync: expiry is on, and its name is out of scope, or no pod uses it and it was
      never checked, was marked to go, or has been unused for the expiry. */
  ghost predicate Leaves(
    filter: string -> bool, expiry: int, pods: seq<map<string, bool>>, now: int, clock: int, entry: MonitoredImage)
  {
    && expiry > 0
    && (!filter(entry.image)
        || (!Used(pods, entry.image)
            && (entry.status == Scheduled
                || match entry.unused
                   case InUse => clock - now >= expiry
                   case Since(at) => clock - at >= expiry
                   case Instant => true)))
  }

  /** The entry as a sync keeps it: only its mark changes. */
  ghost function KeptEntry(
    filter: string -> bool, pods: seq<map<string, bool>>, now: int, entry: MonitoredImage): MonitoredImage
  {
    entry.(unused :=
      if filter(entry.image) && Used(pods, entry.image) then InUse
      else if !filter(entry.image) || entry.status == Scheduled then Instant
      else if entry.unused == InUse then Since(now)
      else entry.unused)
  }

  /** An entry for a used name in scope that had none: scheduled, never checked, and an original
      if the last pod with that name says so. */
  ghost predicate IsDiscovered(
    filter: string -> bool, pods: seq<map<string, bool>>, before: seq<MonitoredImage>, entry: MonitoredImage)
  {
    && filter(entry.image) && (forall p :: 0 <= p < |before| ==> before[p].image != entry.image)
    && exists i: nat :: LastWith(pods, |pods|, entry.image, i)
                        && entry == MonitoredImage(entry.image, Scheduled, InUse, "", None, pods[i][entry.image])
  }

  ghost predicate IsKept(
    filter: string -> bool, expiry: int, pods: seq<map<string, bool>>, now: int, clock: int,
    before: seq<MonitoredImage>, p: int, entry: MonitoredImage)
  {
    && 0 <= p < |before| && entry == KeptEntry(filter, pods, now, before[p])
    && !Leaves(filter, expiry, pods, now, clock, before[p])
  }

  lemma MarkIsKept(
    filter: string -> bool, expiry: int, pods: seq<map<string, bool>>, now: int, clock: int, e: MonitoredImage)
    ensures var marked := Marked(filter, CurrentImages(filter, pods, |pods|), now, e);
            && marked == KeptEntry(filter, pods, now, e)
            && (Expired(expiry, clock, marked.unused) <==> Leaves(filter, expiry, pods, now, clock, e))
  {
    CurrentImagesIff(filter, pods, |pods|, e.image);
  }

  /** The list after a sync has exactly the entries that do not leave, with their new marks, and one
      for each name in scope that some pod uses and that had none. */
  lemma SyncIsExact(
    filter: string -> bool, expiry: int, pods: seq<map<string, bool>>, now: int, clock: int,
    before: seq<MonitoredImage>, after: seq<MonitoredImage>, added: seq<MonitoredImage>, e: MonitoredImage)
    requires Synced(filter, expiry, CurrentImages(filter, pods, |pods|), now, clock, before, after, added)
    ensures e in after <==>
              || (exists p :: IsKept(filter, expiry, pods, now, clock, before, p, e))
              || IsDiscovered(filter, pods, before, e)
  {
    hide Leaves, KeptEntry, Expired, Marked, CurrentImages, DropExpired, IsDiscovered, AreNewEntries;
    var current := CurrentImages(filter, pods, |pods|);
    var marked := MarkedList(filter, current, now, before);
    var kept := DropExpired(expiry, clock, marked);
    DropExpiredKeeps(expiry, clock, marked, e);
    forall p | 0 <= p < |before|
      ensures marked[p] == KeptEntry(filter, pods, now, before[p])
      ensures Expired(expiry, clock, marked[p].unused) <==> Leaves(filter, expiry, pods, now, clock, before[p])
    {
      MarkIsKept(filter, expiry, pods, now, clock, before[p]);
    }
    assert e in kept <==> exists p :: IsKept(filter, expiry, pods, now, clock, before, p, e) by {
      if p :| IsKept(filter, expiry, pods, now, clock, before, p, e) {
        assert marked[p] == e && marked[p] in marked;
      }
      if e in kept {
        var p :| 0 <= p < |marked| && marked[p] == e;
        assert IsKept(filter, expiry, pods, now, clock, before, p, e);
      }
    }
    AddedIff(filter, expiry, pods, now, clock, before, added, e);
  }

  /** A used name in scope keeps its entry, so it is discovered exactly when it had none. */
  lemma AddedIff(
    filter: string -> bool, expiry: int, pods: seq<map<string, bool>>, now: int, clock: int,
    before: seq<MonitoredImage>, added: seq<MonitoredImage>, e: MonitoredImage)
    requires var current := CurrentImages(filter, pods, |pods|);
             AreNewEntries(current, Names(DropExpired(expiry, clock, MarkedList(filter, current, now, before))), added)
    ensures e in added <==> IsDiscovered(filter, pods, before, e)
  {
    hide DropExpired, CurrentImages;
    var current := CurrentImages(filter, pods, |pods|);
    var kept := DropExpired(expiry, clock, MarkedList(filter, current, now, before));
    CurrentImagesIff(filter, pods, |pods|, e.image);
    if e.image in current {
      UsedStays(filter, expiry, pods, now, clock, before, e.image);
      var i := LastExists(pods, |pods|, e.image);
      assert forall k: nat :: LastWith(pods, |pods|, e.image, k) ==> k == i;
      assert IsDiscovered(filter, pods, before, e) <==>
          e.image !in Names(kept) && e == NewEntry(e.image, current[e.image]);
      if e.image !in Names(kept) {
        assert e.image in Names(added);
        var k :| 0 <= k < |added| && added[k].image == e.image;
      }
      if e in added {
        assert e.image in Names(added);
      }
    }
  }

  lemma UsedStays(
    filter: string -> bool, expiry: int, pods: seq<map<string, bool>>, now: int, clock: int,
    before: seq<MonitoredImage>, name: string)
    requires name in CurrentImages(filter, pods, |pods|)
    ensures var marked := MarkedList(filter, CurrentImages(filter, pods, |pods|), now, before);
            name in Names(DropExpired(expiry, clock, marked)) <==>
            exists p :: 0 <= p < |before| && before[p].image == name
  {
    hide DropExpired, CurrentImages;
    var marked := MarkedList(filter, CurrentImages(filter, pods, |pods|), now, before);
    var kept := DropExpired(expiry, clock, marked);
    CurrentImagesIff(filter, pods, |pods|, name);
    if k :| 0 <= k < |kept| && kept[k].image == name {
      DropExpiredKeeps(expiry, clock, marked, kept[k]);
      assert kept[k] in kept;
      var p :| 0 <= p < |marked| && marked[p] == kept[k];
      assert before[p].image == name;
    }
    if p :| 0 <= p < |before| && before[p].image == name {
      DropExpiredKeeps(expiry, clock, marked, marked[p]);
      var k :| 0 <= k < |kept| && kept[k] == marked[p];
      assert kept[k].image == name;
    }
  }

  /** The entry changes in a way that is reported: its mark is set anew, or it has outlived the
      expiry. */
  ghost predicate ChangesVisibly(
    filter: string -> bool, expiry: int, pods: seq<map<string, bool>>, now: int, clock: int, entry: MonitoredImage)
  {
    if !filter(entry.image) then entry.unused != Instant
    else if Used(pods, entry.image) then entry.unused != InUse
    else entry.status == Scheduled
         || match entry.unused
            case InUse => true
            case Since(at) => expiry > 0 && clock - at >= expiry
            case Instant => false
  }

  /** A sync reports a change exactly when some entry's mark is set anew or some entry outlived the
      expiry, or a used name in scope had no entry. */
  lemma ChangeIsReportedIff(
    filter: string -> bool, expiry: int, pods: seq<map<string, bool>>, now: int, clock: int,
    before: seq<MonitoredImage>, after: seq<MonitoredImage>, added: seq<MonitoredImage>)
    requires Synced(filter, expiry, CurrentImages(filter, pods, |pods|), now, clock, before, after, added)
    ensures ReportsChange(filter, expiry, CurrentImages(filter, pods, |pods|), now, clock, before, added) <==>
              || (exists p :: 0 <= p < |before| && ChangesVisibly(filter, expiry, pods, now, clock, before[p]))
              || (exists name :: filter(name) && Used(pods, name)
                                 && forall p :: 0 <= p < |before| ==> before[p].image != name)
  {
    hide DropExpired, CurrentImages, AreNewEntries, Expired, Repointed, ChangesVisibly, Marked;
    var current := CurrentImages(filter, pods, |pods|);
    var marked := MarkedList(filter, current, now, before);
    forall p | 0 <= p < |before|
      ensures ChangesVisibly(filter, expiry, pods, now, clock, before[p]) <==>
                || Repointed(filter, current, before[p])
                || (Expired(expiry, clock, marked[p].unused) && marked[p].unused != Instant)
    {
      VisibleIff(filter, expiry, pods, now, clock, before[p]);
    }
    hide MarkedList, Used;
    DiscoversIff(filter, expiry, pods, now, clock, before, added);
  }

  lemma DiscoversIff(
    filter: string -> bool, expiry: int, pods: seq<map<string, bool>>, now: int, clock: int,
    before: seq<MonitoredImage>, added: seq<MonitoredImage>)
    requires var current := CurrentImages(filter, pods, |pods|);
             AreNewEntries(current, Names(DropExpired(expiry, clock, MarkedList(filter, current, now, before))), added)
    ensures added != [] <==>
              exists name :: filter(name) && Used(pods, name)
                             && forall p :: 0 <= p < |before| ==> before[p].image != name
  {
    hide AreNewEntries, CurrentImages, DropExpired, MarkedList;
    if added != [] {
      AddedIff(filter, expiry, pods, now, clock, before, added, added[0]);
      assert added[0] in added;
    }
    if name :| filter(name) && Used(pods, name) && forall p :: 0 <= p < |before| ==> before[p].image != name {
      var i := LastExists(pods, |pods|, name);
      var e := MonitoredImage(name, Scheduled, InUse, "", None, pods[i][name]);
      AddedIff(filter, expiry, pods, now, clock, before, added, e);
      assert IsDiscovered(filter, pods, before, e);
    }
  }

  lemma VisibleIff(
    filter: string -> bool, expiry: int, pods: seq<map<string, bool>>, now: int, clock: int, entry: MonitoredImage)
    ensures var current := CurrentImages(filter, pods, |pods|);
            var unused := Marked(filter, current, now, entry).unused;
            ChangesVisibly(filter, expiry, pods, now, clock, entry) <==>
            Repointed(filter, current, entry) || (Expired(expiry, clock, unused) && unused != Instant)
  {
    hide CurrentImages;
    CurrentImagesIff(filter, pods, |pods|, entry.image);
  }

  /** The entries that stay are in front, in their order. */
  lemma {:induction false} DropExpiredGrows(expiry: int, clock: int, images: seq<MonitoredImage>, m: nat)
    requires m <= |images|
    ensures DropExpired(expiry, clock, images[..m]) <= DropExpired(expiry, clock, images)
  {
    hide Expired;
    if m < |images| {
      DropExpiredGrows(expiry, clock, images[..|images| - 1], m);
      assert images[..|images| - 1][..m] == images[..m];
    } else {
      assert images[..m] == images;
    }
  }

  // ----- Runs -----

  /** A sync with what it read, or a check of one entry. */
  datatype Event =
    | Sync(filter: string -> bool, pods: seq<map<string, bool>>, now: int, clock: int)
    | Check(index: nat, credentialError: Option<string>, result: Status, checkError: string, at: int)

  /** One event. */
  ghost predicate Step(expiry: int, before: seq<MonitoredImage>, e: Event, after: seq<MonitoredImage>) {
    match e
    case Sync(filter, pods, now, clock) =>
      && now <= clock
      && exists added ::
           Synced(filter, expiry, CurrentImages(filter, pods, |pods|), now, clock, before, after, added)
    case Check(index, credentialError, result, checkError, at) =>
      && index < |before|
      && after == before[index := PerformCheck(before[index], credentialError, result, checkError, at)]
  }

  /** A run from the empty list, in which syncs happen at times that do not go back. */
  ghost predicate Run(expiry: int, states: seq<seq<MonitoredImage>>, events: seq<Event>) {
    && |states| == |events| + 1
    && states[0] == []
    && (forall k :: 0 <= k < |events| ==> Step(expiry, states[k], events[k], states[k + 1]))
    && (forall j, k :: 0 <= j < k < |events| && events[j].Sync? && events[k].Sync? ==> events[j].now <= events[k].now)
  }

  ghost predicate UniqueNames(images: seq<MonitoredImage>) {
    forall i, j :: 0 <= i < j < |images| ==> images[i].image != images[j].image
  }

  ghost predicate NoMarker(images: seq<MonitoredImage>) {
    forall i :: 0 <= i < |images| ==> images[i].unused != Instant
  }

  lemma {:induction false} DropExpiredKeeps(expiry: int, clock: int, images: seq<MonitoredImage>, entry: MonitoredImage)
    ensures entry in DropExpired(expiry, clock, images) <==> entry in images && !Expired(expiry, clock, entry.unused)
  {
    if images != [] {
      var front, last := images[..|images| - 1], images[|images| - 1];
      assert images == front + [last];
      DropExpiredKeeps(expiry, clock, front, entry);
    }
  }

  lemma {:induction false} DropExpiredUnique(expiry: int, clock: int, images: seq<MonitoredImage>)
    requires UniqueNames(images)
    ensures UniqueNames(DropExpired(expiry, clock, images))
  {
    if images != [] {
      var front, last := images[..|images| - 1], images[|images| - 1];
      DropExpiredUnique(expiry, clock, front);
      var kept := DropExpired(expiry, clock, front);
      forall i | 0 <= i < |kept| ensures kept[i].image != last.image {
        DropExpiredKeeps(expiry, clock, front, kept[i]);
        assert kept[i] in front;
      }
    }
  }

  /** Names unique, every used name in scope in the list, as used, nothing out of scope, no marker. */
  ghost predicate WellTracked(
    filter: string -> bool, pods: seq<map<string, bool>>, images: seq<MonitoredImage>)
  {
    && UniqueNames(images)
    && NoMarker(images)
    && (forall i :: 0 <= i < |images| ==>
        filter(images[i].image) && (images[i].unused == InUse <==> Used(pods, images[i].image)))
    && (forall name :: filter(name) && Used(pods, name) ==> exists i :: 0 <= i < |images| && images[i].image == name)
  }

  /** A sync keeps names unique, whatever the expiry is. */
  lemma SyncKeepsNamesUnique(
    filter: string -> bool, expiry: int, current: map<string, bool>, now: int, clock: int,
    before: seq<MonitoredImage>, after: seq<MonitoredImage>, added: seq<MonitoredImage>)
    requires UniqueNames(before) && Synced(filter, expiry, current, now, clock, before, after, added)
    ensures UniqueNames(after)
  {
    var marked := MarkedList(filter, current, now, before);
    var kept := DropExpired(expiry, clock, marked);
    DropExpiredUnique(expiry, clock, marked);
    forall i | 0 <= i < |added| ensures added[i].image !in Names(kept) {
      assert added[i].image in Names(added);
    }
  }

  /** A sync with a positive expiry establishes it from any list with unique names. */
  lemma SyncTracksWell(
    filter: string -> bool, expiry: int, pods: seq<map<string, bool>>, now: int, clock: int,
    before: seq<MonitoredImage>, after: seq<MonitoredImage>, added: seq<MonitoredImage>)
    requires expiry > 0 && UniqueNames(before)
    requires Synced(filter, expiry, CurrentImages(filter, pods, |pods|), now, clock, before, after, added)
    ensures WellTracked(filter, pods, after)
  {
    hide Synced, CurrentImages;
    SyncKeepsNamesUnique(filter, expiry, CurrentImages(filter, pods, |pods|), now, clock, before, after, added);
    forall i | 0 <= i < |after|
      ensures after[i].unused != Instant && filter(after[i].image)
        && (after[i].unused == InUse <==> Used(pods, after[i].image))
    {
      SyncIsExact(filter, expiry, pods, now, clock, before, after, added, after[i]);
      assert after[i] in after;
    }
    forall name | filter(name) && Used(pods, name) ensures exists i :: 0 <= i < |after| && after[i].image == name {
      NamesAfterSync(filter, expiry, pods, now, clock, before, after, added, name);
    }
  }

  /** A name is listed after a sync exactly when it is in scope and some pod uses it, or an entry of it
      does not leave. */
  lemma NamesAfterSync(
    filter: string -> bool, expiry: int, pods: seq<map<string, bool>>, now: int, clock: int,
    before: seq<MonitoredImage>, after: seq<MonitoredImage>, added: seq<MonitoredImage>, name: string)
    requires Synced(filter, expiry, CurrentImages(filter, pods, |pods|), now, clock, before, after, added)
    ensures name in Names(after) <==>
              || (filter(name) && Used(pods, name))
              || exists p :: 0 <= p < |before| && before[p].image == name
                             && !Leaves(filter, expiry, pods, now, clock, before[p])
  {
    hide Synced, CurrentImages, Leaves;
    if name in Names(after) {
      var i :| 0 <= i < |after| && after[i].image == name;
      assert after[i] in after;
      SyncIsExact(filter, expiry, pods, now, clock, before, after, added, after[i]);
      if p :| IsKept(filter, expiry, pods, now, clock, before, p, after[i]) {
        assert before[p].image == name;
      }
    }
    if p :| 0 <= p < |before| && before[p].image == name && !Leaves(filter, expiry, pods, now, clock, before[p]) {
      var e := KeptEntry(filter, pods, now, before[p]);
      assert IsKept(filter, expiry, pods, now, clock, before, p, e);
      SyncIsExact(filter, expiry, pods, now, clock, before, after, added, e);
    } else if filter(name) && Used(pods, name) {
      if p :| 0 <= p < |before| && before[p].image == name {
        UsedDoesNotLeave(filter, expiry, pods, now, clock, before[p]);
      } else {
        var i := LastExists(pods, |pods|, name);
        var e := MonitoredImage(name, Scheduled, InUse, "", None, pods[i][name]);
        assert IsDiscovered(filter, pods, before, e);
        SyncIsExact(filter, expiry, pods, now, clock, before, after, added, e);
      }
    }
  }

  lemma UsedDoesNotLeave(
    filter: string -> bool, expiry: int, pods: seq<map<string, bool>>, now: int, clock: int, entry: MonitoredImage)
    requires filter(entry.image) && Used(pods, entry.image)
    ensures !Leaves(filter, expiry, pods, now, clock, entry)
  {
  }

  /** A checked entry in scope that no pod uses goes exactly when it has been unused for the
      expiry; if it was used until now, that time is the one of this sync. */
  lemma UnusedLeavesIffExpired(
    filter: string -> bool, expiry: int, pods: seq<map<string, bool>>, now: int, clock: int,
    before: seq<MonitoredImage>, after: seq<MonitoredImage>, added: seq<MonitoredImage>, i: nat)
    requires expiry > 0 && UniqueNames(before) && i < |before|
    requires Synced(filter, expiry, CurrentImages(filter, pods, |pods|), now, clock, before, after, added)
    requires filter(before[i].image) && !Used(pods, before[i].image)
    requires before[i].status != Scheduled && before[i].unused != Instant
    ensures before[i].image !in Names(after) <==>
              clock - (if before[i].unused.Since? then before[i].unused.at else now) >= expiry
  {
    hide Synced, CurrentImages;
    NamesAfterSync(filter, expiry, pods, now, clock, before, after, added, before[i].image);
  }

  /** In every run names stay unique; with a positive expiry no marker survives, and right after
      a sync the list is exactly in step with the filter and the pods. */
  lemma {:induction false} TrackedListInvariant(
    expiry: int, states: seq<seq<MonitoredImage>>, events: seq<Event>, k: nat)
    requires Run(expiry, states, events) && k <= |events|
    ensures UniqueNames(states[k])
    ensures expiry > 0 ==> NoMarker(states[k])
    ensures expiry > 0 && k > 0 && events[k - 1].Sync? ==>
              WellTracked(events[k - 1].filter, events[k - 1].pods, states[k])
  {
    if k > 0 {
      TrackedListInvariant(expiry, states, events, k - 1);
      assert Step(expiry, states[k - 1], events[k - 1], states[k]);
      match events[k - 1] {
        case Sync(filter, pods, now, clock) =>
          var current := CurrentImages(filter, pods, |pods|);
          var added :| Synced(filter, expiry, current, now, clock, states[k - 1], states[k], added);
          SyncKeepsNamesUnique(filter, expiry, current, now, clock, states[k - 1], states[k], added);
          if expiry > 0 {
            SyncTracksWell(filter, expiry, pods, now, clock, states[k - 1], states[k], added);
          }
        case Check(index, _, _, _, _) =>
          assert forall i :: 0 <= i < |states[k]| ==>
            states[k][i].image == states[k - 1][i].image && states[k][i].unused == states[k - 1][i].unused;
      }
    }
  }

  /** Sync number j saw the name in scope and used by a pod. */
  ghost predicate SeenUsed(events: seq<Event>, j: nat, name: string) {
    j < |events| && events[j].Sync? && events[j].filter(name) && Used(events[j].pods, name)
  }

  /** The time in unusedSince is not before any sync that saw the image used. */
  ghost predicate MarkedAfterUse(events: seq<Event>, k: nat, entry: MonitoredImage) {
    entry.unused.Since? ==> forall j :: 0 <= j < k && SeenUsed(events, j, entry.image) ==>
      events[j].now <= entry.unused.at
  }

  lemma {:induction false} UnusedSinceIsAfterLastUse(
    expiry: int, states: seq<seq<MonitoredImage>>, events: seq<Event>, k: nat, i: nat)
    requires Run(expiry, states, events) && k <= |events| && i < |states[k]|
    ensures MarkedAfterUse(events, k, states[k][i])
  {
    if k > 0 {
      assert Step(expiry, states[k - 1], events[k - 1], states[k]);
      match events[k - 1] {
        case Sync(filter, pods, now, clock) =>
          var added :| Synced(filter, expiry, CurrentImages(filter, pods, |pods|), now, clock, states[k - 1],
                              states[k], added);
          var before, e := states[k - 1], states[k][i];
          assert e in states[k];
          SyncIsExact(filter, expiry, pods, now, clock, before, states[k], added, e);
          if p :| IsKept(filter, expiry, pods, now, clock, before, p, e) {
            UnusedSinceIsAfterLastUse(expiry, states, events, k - 1, p);
          }
        case Check(index, _, _, _, _) =>
          UnusedSinceIsAfterLastUse(expiry, states, events, k - 1, i);
      }
    }
  }

  /** An image that was checked at least once and is still in scope leaves the list only when
      the expiry has passed since every sync that saw it used. */
  lemma LeavesOnlyAfterExpiry(expiry: int, states: seq<seq<MonitoredImage>>, events: seq<Event>, k: nat, i: nat, j: nat)
    requires expiry > 0 && Run(expiry, states, events) && k < |events| && events[k].Sync? && i < |states[k]|
    requires events[k].filter(states[k][i].image) && states[k][i].status != Scheduled
    requires states[k][i].image !in Names(states[k + 1])
    requires j <= k && SeenUsed(events, j, states[k][i].image)
    ensures j < k && events[k].clock - events[j].now >= expiry
  {
    hide Synced, CurrentImages;
    var e, entry := events[k], states[k][i];
    assert Step(expiry, states[k], e, states[k + 1]);
    var added :| Synced(e.filter, expiry, CurrentImages(e.filter, e.pods, |e.pods|), e.now, e.clock, states[k],
                        states[k + 1], added);
    TrackedListInvariant(expiry, states, events, k);
    UnusedSinceIsAfterLastUse(expiry, states, events, k, i);
    NamesAfterSync(e.filter, expiry, e.pods, e.now, e.clock, states[k], states[k + 1], added, entry.image);
    assert Leaves(e.filter, expiry, e.pods, e.now, e.clock, entry);
  }

  // ----- The changed flag -----

  ghost predicate NoneExpires(expiry: int, clock: int, images: seq<MonitoredImage>) {
    forall i :: 0 <= i < |images| ==> !Expired(expiry, clock, images[i].unused)
  }

  lemma {:induction false} NothingExpired(expiry: int, clock: int, images: seq<MonitoredImage>)
    requires NoneExpires(expiry, clock, images)
    ensures DropExpired(expiry, clock, images) == images
  {
    hide Expired;
    if images != [] {
      NothingExpired(expiry, clock, images[..|images| - 1]);
      assert images == images[..|images| - 1] + [images[|images| - 1]];
    }
  }

  lemma {:induction false} SomethingExpired(expiry: int, clock: int, images: seq<MonitoredImage>)
    ensures |DropExpired(expiry, clock, images)| <= |images|
    ensures !NoneExpires(expiry, clock, images) ==> |DropExpired(expiry, clock, images)| < |images|
  {
    hide Expired;
    if images != [] {
      var front := images[..|images| - 1];
      SomethingExpired(expiry, clock, front);
      if !NoneExpires(expiry, clock, images) && !Expired(expiry, clock, images[|images| - 1].unused) {
        var i :| 0 <= i < |images| && Expired(expiry, clock, images[i].unused);
        assert front[i] == images[i];
      }
    }
  }

  /** When no change is reported, the list is unchanged exactly when the expiry is not positive
      or the list held no marker before. */
  lemma UnreportedMeansUnchanged(
    filter: string -> bool, expiry: int, current: map<string, bool>, now: int, clock: int,
    before: seq<MonitoredImage>, after: seq<MonitoredImage>, added: seq<MonitoredImage>)
    requires Synced(filter, expiry, current, now, clock, before, after, added)
    requires !ReportsChange(filter, expiry, current, now, clock, before, added)
    ensures after == before <==> expiry <= 0 || NoMarker(before)
  {
    var marked := MarkedList(filter, current, now, before);
    forall i | 0 <= i < |before| ensures marked[i] == before[i] {
      assert !Repointed(filter, current, before[i]);
    }
    assert marked == before;
    if NoneExpires(expiry, clock, marked) {
      NothingExpired(expiry, clock, marked);
    }
    SomethingExpired(expiry, clock, marked);
    assert after == DropExpired(expiry, clock, before);
    assert forall i :: 0 <= i < |before| ==>
      (Expired(expiry, clock, marked[i].unused) <==> expiry > 0 && before[i].unused == Instant);
  }

  /** Along a run with a positive expiry the flag is therefore exact enough to skip the write. */
  lemma UnreportedMeansUnchangedInRuns(
    expiry: int, states: seq<seq<MonitoredImage>>, events: seq<Event>, k: nat, added: seq<MonitoredImage>)
    requires expiry > 0 && Run(expiry, states, events) && k < |events| && events[k].Sync?
    requires var e := events[k];
             var current := CurrentImages(e.filter, e.pods, |e.pods|);
             && Synced(e.filter, expiry, current, e.now, e.clock, states[k], states[k + 1], added)
             && !ReportsChange(e.filter, expiry, current, e.now, e.clock, states[k], added)
    ensures states[k + 1] == states[k]
  {
    hide CurrentImages;
    var e := events[k];
    TrackedListInvariant(expiry, states, events, k);
    UnreportedMeansUnchanged(e.filter, expiry, CurrentImages(e.filter, e.pods, |e.pods|), e.now, e.clock,
                             states[k], states[k + 1], added);
  }

  /** A marker left from a time when nothing expired is dropped in memory without being
      reported, so the removal is not written back. */
  lemma UnreportedRemoval()
    ensures var entry := MonitoredImage("i", Available, Instant, "", Some(0), false);
            && Synced(_ => false, 10, map[], 5, 5, [entry], [], [])
            && !ReportsChange(_ => false, 10, map[], 5, 5, [entry], [])
  {
    var entry := MonitoredImage("i", Available, Instant, "", Some(0), false);
    var marked := MarkedList(_ => false, map[], 5, [entry]);
    assert marked == [entry];
    assert marked[..0] == [];
    assert DropExpired(10, 5, marked) == [];
  }
}
