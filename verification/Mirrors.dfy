/** Declared mirrors: api/kuik/v1alpha1/imagesetmirror_types.go. */
module Mirrors {
  import opened Prelude
  import opened Alternatives
  import Paths

  datatype Mirror = Mirror(registry: string, path: string, priority: nat, credential: Option<Credential>) {
    function Prefix(): string {
      Paths.Join([registry, path])
    }

    /** Where the image with this path goes; the source registry is dropped. */
    function Destination(imagePath: string): string {
      Paths.Join([registry, path, imagePath])
    }
  }

  /** Mirror i has a non-empty prefix of the image. */
  predicate Covers(mirrors: seq<Mirror>, i: nat, image: string) {
    i < |mirrors| && mirrors[i].Prefix() != "" && mirrors[i].Prefix() <= image
  }

  /** Mirrors.GetCredentialSecretForImage: the credential of the mirror with the longest prefix,
      the first one declared if several have it; nothing when no mirror covers the image. */
  method GetCredentialSecretForImage(mirrors: seq<Mirror>, image: string) returns (cred: Option<Credential>)
    ensures (forall i :: 0 <= i < |mirrors| ==>
               var prefix := Paths.Join([mirrors[i].registry, mirrors[i].path]);
               prefix == "" || !(prefix <= image)) ==>
            cred == None
    ensures forall i :: 0 <= i < |mirrors| ==>
              var prefix := Paths.Join([mirrors[i].registry, mirrors[i].path]);
              prefix != "" && prefix <= image
              && (forall k :: 0 <= k < |mirrors| ==>
                    var other := Paths.Join([mirrors[k].registry, mirrors[k].path]);
                    other <= image ==> |other| < |prefix| || (|other| == |prefix| && i <= k)) ==>
              cred == mirrors[i].credential
    ensures cred == CredentialFor(mirrors, image)
  {
    cred := None;
    var longestPrefixLen := 0;
    ghost var best: Option<nat> := None;
    for n := 0 to |mirrors|
      invariant best.None? ==> cred == None && longestPrefixLen == 0 && forall i :: 0 <= i < n ==>
        !Covers(mirrors, i, image)
      invariant best.Some? ==> best.value < n && Covers(mirrors, best.value, image)
      invariant best.Some? ==>
        cred == mirrors[best.value].credential && longestPrefixLen == |mirrors[best.value].Prefix()|
      invariant best.Some? ==> forall i :: 0 <= i < n && Covers(mirrors, i, image) ==>
                  |mirrors[i].Prefix()| < longestPrefixLen
                    || (|mirrors[i].Prefix()| == longestPrefixLen && best.value <= i)
    {
      var prefix := mirrors[n].Prefix();
      if prefix <= image && |prefix| > longestPrefixLen {
        cred := mirrors[n].credential;
        longestPrefixLen := |prefix|;
        best := Some(n);
      }
    }
    if best.Some? {
      assert IsLongest(mirrors, best.value, image);
      CredentialOfLongest(mirrors, best.value, image);
    }
    forall i: nat | i < |mirrors| && Covers(mirrors, i, image) ensures best.Some? {
    }
    forall i: nat | IsLongest(mirrors, i, image) ensures cred == mirrors[i].credential {
      CredentialOfLongest(mirrors, i, image);
    }
  }

  ghost predicate IsLongest(mirrors: seq<Mirror>, i: nat, image: string) {
    && Covers(mirrors, i, image)
    && forall k :: 0 <= k < |mirrors| && Covers(mirrors, k, image) ==>
         |mirrors[k].Prefix()| < |mirrors[i].Prefix()| || (|mirrors[k].Prefix()| == |mirrors[i].Prefix()| && i <= k)
  }

  /** The longest mirror is one and the same, however it is found. */
  lemma LongestIsUnique(mirrors: seq<Mirror>, i: nat, j: nat, image: string)
    requires IsLongest(mirrors, i, image) && IsLongest(mirrors, j, image)
    ensures i == j
  {
    assert Covers(mirrors, i, image) && Covers(mirrors, j, image);
  }

  /** The credential that the declarations resolve for an image. */
  ghost function CredentialFor(mirrors: seq<Mirror>, image: string): Option<Credential> {
    if exists i: nat :: IsLongest(mirrors, i, image)
    then var i: nat :| IsLongest(mirrors, i, image); mirrors[i].credential
    else None
  }

  lemma CredentialOfLongest(mirrors: seq<Mirror>, i: nat, image: string)
    requires IsLongest(mirrors, i, image)
    ensures CredentialFor(mirrors, image) == mirrors[i].credential
  {
    forall j: nat | IsLongest(mirrors, j, image) ensures j == i {
      LongestIsUnique(mirrors, i, j, image);
    }
  }

  lemma LongestExists(mirrors: seq<Mirror>, image: string, k: nat) returns (i: nat)
    requires Covers(mirrors, k, image)
    ensures IsLongest(mirrors, i, image)
    decreases |image| - |mirrors[k].Prefix()|, k
  {
    if j: nat :| Covers(mirrors, j, image) && Beats(mirrors, j, k) {
      i := LongestExists(mirrors, image, j);
    } else {
      i := k;
    }
  }

  /** Mirror j is to be preferred to mirror k: a longer prefix, or the same declared before. */
  predicate Beats(mirrors: seq<Mirror>, j: nat, k: nat)
    requires j < |mirrors| && k < |mirrors|
  {
    || |mirrors[j].Prefix()| > |mirrors[k].Prefix()|
    || (|mirrors[j].Prefix()| == |mirrors[k].Prefix()| && j < k)
  }

  /** No credential is resolved exactly when no mirror covers the image, or the mirror with the
      longest prefix has none. */
  lemma NoCredentialIff(mirrors: seq<Mirror>, image: string)
    ensures CredentialFor(mirrors, image).None? <==>
              || (forall i: nat :: !Covers(mirrors, i, image))
              || (exists i: nat :: IsLongest(mirrors, i, image) && mirrors[i].credential.None?)
  {
    if k: nat :| Covers(mirrors, k, image) {
      var i := LongestExists(mirrors, image, k);
      CredentialOfLongest(mirrors, i, image);
    }
  }

  /** A declared mirror's own destinations are covered by it, unless its prefix is empty or
      ".", so that deleting them finds a mirror at least as specific. */
  lemma DestinationsAreCovered(mirrors: seq<Mirror>, i: nat, imagePath: string)
    requires i < |mirrors| && Paths.ImagePath(imagePath)
    ensures Covers(mirrors, i, mirrors[i].Destination(imagePath)) <==>
      mirrors[i].Prefix() != "" && mirrors[i].Prefix() != "."
  {
    Paths.DestinationCarriesPrefix(mirrors[i].registry, mirrors[i].path, imagePath);
  }

  /** What follows the first slash: strings.SplitN(image, "/", 2)[1]. */
  function AfterRegistry(image: string): string
    requires '/' in image
  {
    if image[0] == '/' then image[1..] else AfterRegistry(image[1..])
  }

  lemma {:induction false} AfterRegistryIsThePath(registry: string, path: string)
    requires '/' !in registry
    ensures '/' in registry + "/" + path && AfterRegistry(registry + "/" + path) == path
  {
    var image := registry + "/" + path;
    assert image[|registry|] == '/';
    if registry == "" {
      assert image[1..] == path;
    } else {
      AfterRegistryIsThePath(registry[1..], path);
      assert image[1..] == registry[1..] + "/" + path;
    }
  }
}
