/** internal/registry/credentialprovider/keyring.go: credentials indexed by registry endpoint,
    looked up most specific first. */
module Keyring {
  import opened Prelude

  datatype AuthConfig = AuthConfig(username: string, password: string, email: string, source: string)

  // ----- The order of the index -----

  /** Go's string order: byte by byte, a proper prefix first. */
  predicate Less(a: string, b: string) {
    if a == [] then b != []
    else if b == [] then false
    else if a[0] != b[0] then a[0] < b[0]
    else Less(a[1..], b[1..])
  }

  lemma {:induction false} LessIsTotal(a: string, b: string)
    ensures a == b || Less(a, b) || Less(b, a)
    ensures !(Less(a, b) && Less(b, a)) && !Less(a, a)
  {
    if a != [] && b != [] && a[0] == b[0] {
      LessIsTotal(a[1..], b[1..]);
      assert a == [a[0]] + a[1..] && b == [b[0]] + b[1..];
    } else if a != [] {
      LessIsTotal(a[1..], a[1..]);
    }
    if a != [] {
      LessIsTotal(a[1..], a[1..]);
    }
  }

  lemma {:induction false} LessIsTransitive(a: string, b: string, c: string)
    requires Less(a, b) && Less(b, c)
    ensures Less(a, c)
  {
    if a != [] && a[0] == b[0] && b[0] == c[0] {
      LessIsTransitive(a[1..], b[1..], c[1..]);
    }
  }

  lemma {:induction false} PrefixIsLess(a: string, b: string)
    requires a < b
    ensures Less(a, b)
  {
    if a != [] {
      PrefixIsLess(a[1..], b[1..]);
    }
  }

  ghost predicate Descending(index: seq<string>) {
    forall i, j :: 0 <= i < j < |index| ==> Less(index[j], index[i])
  }

  /** Sets.List followed by the reverse sort, as insertion of one key at a time. */
  function Place(key: string, index: seq<string>): seq<string> {
    if index == [] then [key]
    else if key == index[0] then index
    else if Less(index[0], key) then [key] + index
    else [index[0]] + Place(key, index[1..])
  }

  function SortedDescending(keys: seq<string>): seq<string> {
    if keys == [] then [] else Place(keys[0], SortedDescending(keys[1..]))
  }

  lemma {:induction false} PlaceKeeps(key: string, index: seq<string>)
    requires Descending(index)
    ensures Descending(Place(key, index))
    ensures forall k :: k in Place(key, index) <==> k == key || k in index
  {
    if index != [] {
      LessIsTotal(key, index[0]);
      assert forall k :: k in index <==> k == index[0] || k in index[1..];
      if key == index[0] {
      } else if Less(index[0], key) {
        forall j | 0 <= j < |index| ensures Less(index[j], key) {
          if j > 0 {
            LessIsTransitive(index[j], index[0], key);
          }
        }
      } else {
        PlaceKeeps(key, index[1..]);
        var rest := Place(key, index[1..]);
        forall j | 0 <= j < |rest| ensures Less(rest[j], index[0]) {
          assert rest[j] in rest;
        }
      }
    }
  }

  lemma {:induction false} SortedDescendingCorrect(keys: seq<string>)
    ensures Descending(SortedDescending(keys))
    ensures forall k :: k in SortedDescending(keys) <==> k in keys
  {
    if keys != [] {
      SortedDescendingCorrect(keys[1..]);
      PlaceKeeps(keys[0], SortedDescending(keys[1..]));
      assert forall k :: k in keys <==> k == keys[0] || k in keys[1..];
    }
  }

  /** A set of keys has one strictly descending listing, so the order in which a config map is
      iterated leaves no trace in the index. */
  lemma {:induction false} DescendingIsDetermined(a: seq<string>, b: seq<string>)
    requires Descending(a) && Descending(b) && forall k :: k in a <==> k in b
    ensures a == b
  {
    if a != [] && b != [] {
      assert a[0] in b && b[0] in a;
      LessIsTotal(a[0], b[0]);
      assert a[0] == b[0];
      LessIsTotal(a[0], a[0]);
      forall k ensures k in a[1..] <==> k in b[1..] {
        assert k in a <==> k == a[0] || k in a[1..];
        assert k in b <==> k == b[0] || k in b[1..];
      }
      DescendingIsDetermined(a[1..], b[1..]);
    } else {
      HasMember(a);
      HasMember(b);
    }
  }

  lemma HasMember(s: seq<string>)
    ensures s == [] || exists k :: k in s
  {
    if s != [] {
      assert s[0] in s;
    }
  }

  // ----- Endpoints -----

  /** net/url parsing of a location or of a schemeless URL, as a library function. */
  datatype Url = Url(hostParts: seq<string>, port: string, host: string, path: string)

  type UrlParser = string -> Option<Url>

  /** The index key of a location: /v1/ and /v2/ are the registry itself. */
  function KeyOf(url: Url): string {
    var path := if "/v2/" <= url.path || "/v1/" <= url.path then url.path[3..] else url.path;
    if path != "" && path != "/" then url.host + path else url.host
  }

  /** filepath.Match on one host part. */
  type Glob = (string, string) -> bool

  predicate PartsMatch(glob: Glob, a: seq<string>, b: seq<string>) {
    |a| == |b| && forall k :: 0 <= k < |a| ==> glob(a[k], b[k])
  }

  method UrlsMatch(glob: Glob, globUrl: Url, target: Url) returns (r: bool)
    ensures r <==>
              && globUrl.port == target.port && globUrl.path <= target.path
              && |globUrl.hostParts| == |target.hostParts|
              && forall k :: 0 <= k < |globUrl.hostParts| ==> glob(globUrl.hostParts[k], target.hostParts[k])
  {
    if globUrl.port != target.port {
      return false;
    }
    if |globUrl.hostParts| != |target.hostParts| {
      return false;
    }
    if !(globUrl.path <= target.path) {
      return false;
    }
    for k := 0 to |globUrl.hostParts|
      invariant forall i :: 0 <= i < k ==> glob(globUrl.hostParts[i], target.hostParts[i])
    {
      if !glob(globUrl.hostParts[k], target.hostParts[k]) {
        return false;
      }
    }
    return true;
  }

  predicate Matches(glob: Glob, globUrl: Url, target: Url) {
    globUrl.port == target.port && globUrl.path <= target.path && PartsMatch(glob, globUrl.hostParts, target.hostParts)
  }

  /** URLsMatchStr with its error dropped, as Lookup uses it. */
  predicate KeyMatches(parse: UrlParser, glob: Glob, key: string, image: string) {
    parse(key).Some? && parse(image).Some? && Matches(glob, parse(key).value, parse(image).value)
  }

  const DEFAULT_REGISTRY_HOST := "index.docker.io"

  function FirstSegment(image: string): string {
    if image == "" || image[0] == '/' then "" else [image[0]] + FirstSegment(image[1..])
  }

  /** isDefaultRegistryMatch */
  predicate IsDefaultRegistryMatch(image: string) {
    var first := FirstSegment(image);
    && first != ""
    && (first == image || first == "docker.io" || first == "index.docker.io" || ('.' !in first && ':' !in first))
  }

  /** A leading /v1/ or /v2/ adds nothing to a location, nor does a single slash. */
  lemma VersionAddsNothing(url: Url, version: string, rest: string)
    requires version in {"/v1/", "/v2/"}
    ensures KeyOf(url.(path := version + rest)) == if rest == "" then url.host else url.host + "/" + rest
    ensures KeyOf(url.(path := "")) == KeyOf(url.(path := "/")) == url.host
    ensures !("/v1/" <= rest) && !("/v2/" <= rest) && rest != "" && rest != "/" ==>
              KeyOf(url.(path := rest)) == url.host + rest
  {
    var path := version + rest;
    assert path[..4] == version;
    assert path[3..] == "/" + rest;
  }

  lemma {:induction false} FirstSegmentIsTheHost(host: string, rest: string)
    requires '/' !in host
    ensures FirstSegment(host + "/" + rest) == host && FirstSegment(host) == host
  {
    if host != "" {
      FirstSegmentIsTheHost(host[1..], rest);
      assert (host + "/" + rest)[1..] == host[1..] + "/" + rest;
      assert host == [host[0]] + host[1..];
    } else {
      assert (host + "/" + rest)[0] == '/';
    }
  }

  /** Docker Hub serves images without a registry, and those that name it. */
  lemma DefaultRegistryImages(host: string, rest: string)
    requires '/' !in host
    ensures IsDefaultRegistryMatch(host) <==> host != ""
    ensures IsDefaultRegistryMatch(host + "/" + rest) <==>
              host in {"docker.io", "index.docker.io"} || (host != "" && '.' !in host && ':' !in host)
  {
    FirstSegmentIsTheHost(host, rest);
    assert |host + "/" + rest| > |host|;
  }

  // ----- The keyring -----

  datatype Entry = Entry(key: string, credential: AuthConfig)

  /** An item of a docker config; url is its parsed location, None when it does not parse. */
  datatype Location = Location(url: Option<Url>, credential: AuthConfig)

  function EntryOf(l: Location): Option<Entry> {
    if l.url.Some? then Some(Entry(KeyOf(l.url.value), l.credential)) else None
  }

  type Store = map<string, seq<AuthConfig>>

  function Append(creds: Store, e: Entry): Store {
    creds[e.key := (if e.key in creds then creds[e.key] else []) + [e.credential]]
  }

  function AppendAll(creds: Store, entries: seq<Entry>): Store {
    if entries == [] then creds
    else Append(AppendAll(creds, entries[..|entries| - 1]), entries[|entries| - 1])
  }

  lemma AppendAllStep(creds: Store, entries: seq<Entry>, e: Entry)
    ensures AppendAll(creds, entries + [e]) == Append(AppendAll(creds, entries), e)
  {
    assert (entries + [e])[..|entries|] == entries;
  }

  /** The credentials stored under the keys of index that match, in index order. */
  function Collected(parse: UrlParser, glob: Glob, creds: Store, index: seq<string>, image: string): seq<AuthConfig>
    requires forall k :: k in index ==> k in creds
  {
    if index == [] then []
    else
      var last := index[|index| - 1];
      assert forall k :: k in index[..|index| - 1] ==> k in index;
      Collected(parse, glob, creds, index[..|index| - 1], image) +
      if KeyMatches(parse, glob, last, image) then creds[last] else []
  }

  /** One of the first n entries of the config is for the key. */
  ghost predicate HasKey(cfg: seq<Location>, n: nat, key: string)
    requires n <= |cfg|
  {
    exists i :: 0 <= i < n && EntryOf(cfg[i]).Some? && EntryOf(cfg[i]).value.key == key
  }

  lemma AddNothing(creds: Store, cfg: seq<Location>)
    ensures AppendAll(creds, Parsed(cfg[..0])) == creds
    ensures forall k :: !HasKey(cfg, 0, k)
  {
  }

  lemma AddStep(creds: Store, cfg: seq<Location>, n: nat)
    requires n < |cfg|
    ensures var before := AppendAll(creds, Parsed(cfg[..n]));
            AppendAll(creds, Parsed(cfg[..n + 1])) ==
              if EntryOf(cfg[n]).Some? then Append(before, EntryOf(cfg[n]).value) else before
    ensures forall k :: HasKey(cfg, n + 1, k) <==>
      HasKey(cfg, n, k) || (EntryOf(cfg[n]).Some? && EntryOf(cfg[n]).value.key == k)
  {
    hide AppendAll, Append;
    assert cfg[..n + 1][..n] == cfg[..n];
    assert EntryOf(cfg[n]).Some? ==> HasKey(cfg, n + 1, EntryOf(cfg[n]).value.key);
    if EntryOf(cfg[n]).Some? {
      AppendAllStep(creds, Parsed(cfg[..n]), EntryOf(cfg[n]).value);
    } else {
      assert Parsed(cfg[..n + 1]) == Parsed(cfg[..n]);
    }
  }

  lemma AppendKeepsKeys(creds: Store, e: Entry)
    ensures forall k :: k in Append(creds, e) <==> k in creds || k == e.key
    ensures (forall k :: k in creds ==> creds[k] != []) ==>
              forall k :: k in Append(creds, e) ==> Append(creds, e)[k] != []
  {
  }

  class BasicDockerKeyring {
    var index: seq<string>
    var creds: Store

    ghost predicate Valid()
      reads this
    {
      && Descending(index)
      && (forall k :: k in index <==> k in creds)
      && (forall k :: k in creds ==> creds[k] != [])
    }

    constructor ()
      ensures Valid() && index == [] && creds == map[]
    {
      index, creds := [], map[];
    }

    /** cfg lists the entries of a docker config in the order the map iteration happens to give
        them. */
    method Add(cfg: seq<Location>)
      requires Valid()
      modifies this
      ensures Valid()
      ensures creds == AppendAll(old(creds), Parsed(cfg))
      ensures forall k :: k in index <==> k in old(index) || HasKey(cfg, |cfg|, k)
    {
      hide AppendAll, Parsed, HasKey, Append;
      AddNothing(creds, cfg);
      for n := 0 to |cfg|
        invariant creds == AppendAll(old(creds), Parsed(cfg[..n]))
        invariant forall k :: k in index <==> k in old(index) || HasKey(cfg, n, k)
        invariant forall k :: k in index <==> k in creds
        invariant forall k :: k in creds ==> creds[k] != []
      {
        AddStep(old(creds), cfg, n);
        if cfg[n].url.None? {
          continue;
        }
        var e := Entry(KeyOf(cfg[n].url.value), cfg[n].credential);
        AppendKeepsKeys(creds, e);
        creds := Append(creds, e);
        index := index + [e.key];
      }
      assert cfg[..|cfg|] == cfg;
      SortedDescendingCorrect(index);
      index := SortedDescending(index);
    }

    method Lookup(parse: UrlParser, glob: Glob, image: string) returns (found: seq<AuthConfig>, ok: bool)
      requires Valid()
      ensures found == CredentialsFor(parse, glob, creds, index, image) && (ok <==> found != [])
    {
      found := [];
      for n := 0 to |index|
        invariant forall k :: k in index[..n] ==> k in creds
        invariant found == Collected(parse, glob, creds, index[..n], image)
      {
        assert index[..n + 1][..n] == index[..n];
        var k := index[n];
        var keyUrl, imageUrl := parse(k), parse(image);
        if keyUrl.Some? && imageUrl.Some? {
          var matched := UrlsMatch(glob, keyUrl.value, imageUrl.value);
          if matched {
            found := found + creds[k];
          }
        }
      }
      assert index[..|index|] == index;
      if |found| > 0 {
        return found, true;
      }
      if IsDefaultRegistryMatch(image) && DEFAULT_REGISTRY_HOST in creds {
        return creds[DEFAULT_REGISTRY_HOST], true;
      }
      return [], false;
    }
  }

  function Parsed(cfg: seq<Location>): seq<Entry> {
    if cfg == [] then []
    else
      var last := EntryOf(cfg[|cfg| - 1]);
      Parsed(cfg[..|cfg| - 1]) + if last.Some? then [last.value] else []
  }

  // ----- What a lookup returns -----

  /** The credentials of the matching keys, else those of the default registry where it serves the
      image. */
  ghost function CredentialsFor(
    parse: UrlParser, glob: Glob, creds: Store, index: seq<string>, image: string): seq<AuthConfig>
    requires forall k :: k in index ==> k in creds
  {
    var all := Collected(parse, glob, creds, index, image);
    if all != [] then all
    else if IsDefaultRegistryMatch(image) && DEFAULT_REGISTRY_HOST in creds then creds[DEFAULT_REGISTRY_HOST]
    else []
  }

  /** Both parse, the ports are equal, the key's path starts the image's, and the hosts have as many
      parts, each matching its glob. */
  ghost predicate Applies(parse: UrlParser, glob: Glob, key: string, image: string) {
    && parse(key).Some? && parse(image).Some?
    && var k, t := parse(key).value, parse(image).value;
       && k.port == t.port && k.path <= t.path && |k.hostParts| == |t.hostParts|
       && forall i :: 0 <= i < |k.hostParts| ==> glob(k.hostParts[i], t.hostParts[i])
  }

  /** No host, docker.io, index.docker.io, or a first part that cannot be a host. */
  ghost predicate OnDockerHub(image: string) {
    || (image != "" && '/' !in image)
    || exists host, rest ::
         && '/' !in host && host + "/" + rest == image
         && (host == "docker.io" || host == "index.docker.io" || (host != "" && '.' !in host && ':' !in host))
  }

  lemma OnDockerHubIff(image: string)
    ensures IsDefaultRegistryMatch(image) <==> OnDockerHub(image)
  {
    if '/' in image {
      var host, rest := AtFirstSlash(image);
      DefaultRegistryImages(host, rest);
      if h, r :| '/' !in h && h + "/" + r == image
                 && (h == "docker.io" || h == "index.docker.io" || (h != "" && '.' !in h && ':' !in h)) {
        DefaultRegistryImages(h, r);
      }
    } else {
      DefaultRegistryImages(image, "");
      forall host, rest ensures host + "/" + rest != image {
        assert (host + "/" + rest)[|host|] == '/';
      }
    }
  }

  lemma {:induction false} AtFirstSlash(image: string) returns (host: string, rest: string)
    requires '/' in image
    ensures '/' !in host && host + "/" + rest == image
  {
    if image[0] == '/' {
      host, rest := "", image[1..];
      assert host + "/" + rest == image;
    } else {
      host, rest := AtFirstSlash(image[1..]);
      host := [image[0]] + host;
      assert host + "/" + rest == [image[0]] + image[1..];
    }
  }

  lemma AppliesIff(parse: UrlParser, glob: Glob, key: string, image: string)
    ensures KeyMatches(parse, glob, key, image) <==> Applies(parse, glob, key, image)
  {
  }

  /** Exactly the credentials of the keys that apply are returned; if none applies, those of
      index.docker.io for an image on Docker Hub. */
  lemma LookupMembers(
    parse: UrlParser, glob: Glob, creds: Store, index: seq<string>, image: string, c: AuthConfig)
    requires forall k :: k in index <==> k in creds
    requires forall k :: k in creds ==> creds[k] != []
    ensures c in CredentialsFor(parse, glob, creds, index, image) <==>
              || (exists key :: key in creds && Applies(parse, glob, key, image) && c in creds[key])
              || ((forall key :: key in creds ==> !Applies(parse, glob, key, image))
                  && OnDockerHub(image) && "index.docker.io" in creds && c in creds["index.docker.io"])
  {
    hide Collected, Applies, IsDefaultRegistryMatch, OnDockerHub;
    forall key ensures KeyMatches(parse, glob, key, image) <==> Applies(parse, glob, key, image) {
      AppliesIff(parse, glob, key, image);
    }
    OnDockerHubIff(image);
    var all := Collected(parse, glob, creds, index, image);
    forall x ensures x in all <==> exists key :: key in creds && Applies(parse, glob, key, image) && x in creds[key] {
      if key :| key in creds && Applies(parse, glob, key, image) && x in creds[key] {
        ReturnedFor(parse, glob, creds, index, image, key, x);
      }
      if x in all {
        OnlyMatchesAreReturned(parse, glob, creds, index, image, x);
      }
    }
    if key :| key in creds && Applies(parse, glob, key, image) {
      ReturnedFor(parse, glob, creds, index, image, key, creds[key][0]);
      assert all != [];
    } else if all != [] {
      assert all[0] in all;
    }
  }

  lemma ReturnedFor(
    parse: UrlParser, glob: Glob, creds: Store, index: seq<string>, image: string, key: string, c: AuthConfig)
    requires forall k :: k in index ==> k in creds
    requires key in index && KeyMatches(parse, glob, key, image) && c in creds[key]
    ensures c in Collected(parse, glob, creds, index, image)
  {
    hide Collected, Offset, KeyMatches;
    var i: nat :| i < |index| && index[i] == key;
    EveryMatchIsReturned(parse, glob, creds, index, image, i);
    var all, o := Collected(parse, glob, creds, index, image), Offset(parse, glob, creds, index, image, i);
    var j :| 0 <= j < |creds[key]| && creds[key][j] == c;
    assert all[o..o + |creds[key]|][j] == c;
  }

  // ----- Docker Hub -----

  /** The credentials of a config for Docker Hub, in order: those with the host index.docker.io, and
      no path or only a version. */
  function HubCredentials(cfg: seq<Location>): seq<AuthConfig> {
    if cfg == [] then []
    else
      var last := cfg[|cfg| - 1];
      HubCredentials(cfg[..|cfg| - 1]) +
      if last.url.Some? && last.url.value.host == "index.docker.io" && last.url.value.path in {"", "/", "/v1/", "/v2/"}
      then [last.credential] else []
  }

  lemma HubKeyIff(url: Url)
    requires SplitsAtSlash(url)
    ensures KeyOf(url) == "index.docker.io" <==>
              url.host == "index.docker.io" && url.path in {"", "/", "/v1/", "/v2/"}
  {
    var path := if "/v2/" <= url.path || "/v1/" <= url.path then url.path[3..] else url.path;
    assert path != "" ==> path[0] == '/';
    if path != "" && path != "/" {
      assert KeyOf(url)[|url.host|] == '/';
      assert forall i :: 0 <= i < |"index.docker.io"| ==> "index.docker.io"[i] != '/';
    }
    assert "/v1/"[3..] == "/" && "/v2/"[3..] == "/";
    if "/v1/" <= url.path {
      assert url.path == "/v1" + path;
      assert "/v1/" == "/v1" + "/";
    } else if "/v2/" <= url.path {
      assert url.path == "/v2" + path;
      assert "/v2/" == "/v2" + "/";
    }
  }

  lemma {:induction false} HubCredentialsAreStored(creds: Store, cfg: seq<Location>)
    requires forall i :: 0 <= i < |cfg| && cfg[i].url.Some? ==> SplitsAtSlash(cfg[i].url.value)
    ensures StoredAt(AppendAll(creds, Parsed(cfg)), "index.docker.io") ==
              StoredAt(creds, "index.docker.io") + HubCredentials(cfg)
  {
    hide AppendAll, Append, KeyOf;
    if cfg == [] {
      AddNothing(creds, cfg);
      assert cfg[..0] == cfg;
    } else {
      var n := |cfg| - 1;
      HubCredentialsAreStored(creds, cfg[..n]);
      AddStep(creds, cfg, n);
      assert cfg[..n + 1] == cfg;
      if cfg[n].url.Some? {
        HubKeyIff(cfg[n].url.value);
        AppendAt(AppendAll(creds, Parsed(cfg[..n])), EntryOf(cfg[n]).value, "index.docker.io");
      }
    }
  }

  ghost function StoredAt(creds: Store, key: string): seq<AuthConfig> {
    if key in creds then creds[key] else []
  }

  lemma AppendAt(creds: Store, e: Entry, key: string)
    ensures StoredAt(Append(creds, e), key) == StoredAt(creds, key) + if e.key == key then [e.credential] else []
  {
  }

  /** After a config was added, an image on Docker Hub that no key applies to gets the credentials
      stored for Docker Hub before and then those of the config, in its order. */
  lemma HubCredentialsAreFound(
    parse: UrlParser, glob: Glob, before: Store, cfg: seq<Location>, index: seq<string>, image: string)
    requires var creds := AppendAll(before, Parsed(cfg));
             && (forall k :: k in index <==> k in creds)
             && (forall k :: k in creds ==> !Applies(parse, glob, k, image))
    requires forall i :: 0 <= i < |cfg| && cfg[i].url.Some? ==> SplitsAtSlash(cfg[i].url.value)
    requires OnDockerHub(image)
    ensures CredentialsFor(parse, glob, AppendAll(before, Parsed(cfg)), index, image) ==
              StoredAt(before, "index.docker.io") + HubCredentials(cfg)
  {
    hide AppendAll, Applies, OnDockerHub, IsDefaultRegistryMatch, KeyMatches, HubCredentials, Collected;
    var creds := AppendAll(before, Parsed(cfg));
    HubCredentialsAreStored(before, cfg);
    OnDockerHubIff(image);
    forall key ensures KeyMatches(parse, glob, key, image) <==> Applies(parse, glob, key, image) {
      AppliesIff(parse, glob, key, image);
    }
    var all := Collected(parse, glob, creds, index, image);
    if all != [] {
      OnlyMatchesAreReturned(parse, glob, creds, index, image, all[0]);
      assert false;
    }
  }

  /** The block of credentials of the key at position i starts here in the result. */
  ghost function Offset(parse: UrlParser, glob: Glob, creds: Store, index: seq<string>, image: string, i: nat): nat
    requires i <= |index| && forall k :: k in index ==> k in creds
  {
    assert forall k :: k in index[..i] ==> k in index;
    |Collected(parse, glob, creds, index[..i], image)|
  }

  lemma {:induction false} CollectedGrows(
    parse: UrlParser, glob: Glob, creds: Store, index: seq<string>, image: string, i: nat, j: nat)
    requires i <= j <= |index| && forall k :: k in index ==> k in creds
    ensures (forall k :: k in index[..i] ==> k in creds) && (forall k :: k in index[..j] ==> k in creds)
    ensures Collected(parse, glob, creds, index[..i], image) <= Collected(parse, glob, creds, index[..j], image)
  {
    if i < j {
      CollectedGrows(parse, glob, creds, index, image, i, j - 1);
      assert index[..j][..j - 1] == index[..j - 1];
    }
  }

  /** Every matching key's credentials are returned, as one block at that key's place. */
  lemma EveryMatchIsReturned(parse: UrlParser, glob: Glob, creds: Store, index: seq<string>, image: string, i: nat)
    requires i < |index| && KeyMatches(parse, glob, index[i], image) && forall k :: k in index ==> k in creds
    ensures var all := Collected(parse, glob, creds, index, image);
            var o := Offset(parse, glob, creds, index, image, i);
            o + |creds[index[i]]| <= |all| && all[o..o + |creds[index[i]]|] == creds[index[i]]
  {
    CollectedGrows(parse, glob, creds, index, image, i + 1, |index|);
    assert index[..|index|] == index;
    assert index[..i + 1][..i] == index[..i];
    assert Collected(parse, glob, creds, index[..i + 1], image)
           == Collected(parse, glob, creds, index[..i], image) + creds[index[i]];
  }

  /** Nothing else is returned. */
  lemma {:induction false} OnlyMatchesAreReturned(
    parse: UrlParser, glob: Glob, creds: Store, index: seq<string>, image: string, c: AuthConfig)
    requires forall k :: k in index ==> k in creds
    requires c in Collected(parse, glob, creds, index, image)
    ensures exists i :: 0 <= i < |index| && KeyMatches(parse, glob, index[i], image) && c in creds[index[i]]
  {
    var n := |index| - 1;
    assert forall k :: k in index[..n] ==> k in index;
    if c in Collected(parse, glob, creds, index[..n], image) {
      OnlyMatchesAreReturned(parse, glob, creds, index[..n], image, c);
      var i :| 0 <= i < n && KeyMatches(parse, glob, index[..n][i], image) && c in creds[index[..n][i]];
      assert index[i] == index[..n][i];
    }
  }

  /** A key parses back to the host and path it was made of. */
  ghost predicate ParsesBack(parse: UrlParser, key: string) {
    parse(key).Some? && parse(key).value.host + parse(key).value.path == key
  }

  /** The slash separates the two: a host has none, and a path starts with one. */
  predicate SplitsAtSlash(url: Url) {
    '/' !in url.host && (url.path == "" || url.path[0] == '/')
  }

  /** The host comes first in the text of a key. Where neither host starts the other the hosts
      alone decide. A host that starts the other is less, unless it has a path and the
      other goes on with a character below the slash, such as '-' or '.'. */
  predicate HostLess(host: string, path: string, other: string, otherPath: string) {
    if host < other then path == "" || '/' < other[|host|]
    else if other < host then otherPath != "" && host[|other|] < '/'
    else Less(host, other)
  }

  lemma {:induction false} LessDrops(lead: string, a: string, b: string)
    ensures Less(lead + a, lead + b) <==> Less(a, b)
  {
    if lead == "" {
      assert lead + a == a && lead + b == b;
    } else {
      LessDrops(lead[1..], a, b);
      assert (lead + a)[1..] == lead[1..] + a && (lead + b)[1..] == lead[1..] + b;
    }
  }

  lemma {:induction false} LessByHost(a: string, p: string, b: string, q: string)
    requires !(a <= b) && !(b <= a)
    ensures Less(a + p, b + q) <==> Less(a, b)
  {
    assert (a + p)[1..] == a[1..] + p && (b + q)[1..] == b[1..] + q;
    if a[0] == b[0] {
      assert a == [a[0]] + a[1..] && b == [b[0]] + b[1..];
      LessByHost(a[1..], p, b[1..], q);
    }
  }

  /** A host that starts the other one. */
  lemma ShorterHost(host: string, path: string, other: string, otherPath: string)
    requires host < other && '/' !in other
    requires path == "" || path[0] == '/'
    ensures Less(host + path, other + otherPath) <==> path == "" || '/' < other[|host|]
    ensures Less(other + otherPath, host + path) <==> path != "" && other[|host|] < '/'
  {
    var rest := other[|host|..];
    assert rest[0] == other[|host|] && other[|host|] in other;
    assert other + otherPath == host + (rest + otherPath);
    LessDrops(host, path, rest + otherPath);
    LessDrops(host, rest + otherPath, path);
    assert (rest + otherPath)[0] == rest[0];
  }

  lemma KeyLessIff(host: string, path: string, other: string, otherPath: string)
    requires host != other && '/' !in host && '/' !in other
    requires path == "" || path[0] == '/'
    requires otherPath == "" || otherPath[0] == '/'
    ensures Less(host + path, other + otherPath) <==> HostLess(host, path, other, otherPath)
  {
    hide Less;
    if host < other {
      ShorterHost(host, path, other, otherPath);
    } else if other < host {
      ShorterHost(other, otherPath, host, path);
    } else {
      LessByHost(host, path, other, otherPath);
    }
  }

  /** The first key ranks before the second: on one host by the longer path, else by the hosts. */
  predicate RanksBefore(a: Url, b: Url) {
    if a.host == b.host then |a.path| > |b.path| else HostLess(b.host, b.path, a.host, a.path)
  }

  /** The exact order of a lookup. Of two matching keys one comes first, its whole block ending
      before the other's begins, exactly when it ranks before it: by the longer path on one host,
      and on two hosts by the hosts, whatever the lengths of the paths. */
  lemma LookupOrder(
    parse: UrlParser, glob: Glob, creds: Store, index: seq<string>, image: string, i: nat, j: nat)
    requires Descending(index) && i < |index| && j < |index| && i != j && forall k :: k in index ==> k in creds
    requires KeyMatches(parse, glob, index[i], image) && KeyMatches(parse, glob, index[j], image)
    requires ParsesBack(parse, index[i]) && ParsesBack(parse, index[j])
    requires SplitsAtSlash(parse(index[i]).value) && SplitsAtSlash(parse(index[j]).value)
    ensures i < j <==> RanksBefore(parse(index[i]).value, parse(index[j]).value)
    ensures i < j ==>
              Offset(parse, glob, creds, index, image, i) + |creds[index[i]]| <=
              Offset(parse, glob, creds, index, image, j)
  {
    RankIsIndexOrder(parse, glob, index, image, i, j);
    if i < j {
      BlocksAreInOrder(parse, glob, creds, index, image, i, j);
    }
  }

  lemma BlocksAreInOrder(
    parse: UrlParser, glob: Glob, creds: Store, index: seq<string>, image: string, i: nat, j: nat)
    requires i < j < |index| && KeyMatches(parse, glob, index[i], image) && forall k :: k in index ==> k in creds
    ensures Offset(parse, glob, creds, index, image, i) + |creds[index[i]]| <=
            Offset(parse, glob, creds, index, image, j)
  {
    CollectedGrows(parse, glob, creds, index, image, i + 1, j);
    assert index[..i + 1][..i] == index[..i];
    assert forall k :: k in index[..i + 1] ==> k in index;
  }

  lemma RankIsIndexOrder(parse: UrlParser, glob: Glob, index: seq<string>, image: string, i: nat, j: nat)
    requires Descending(index) && i < |index| && j < |index| && i != j
    requires KeyMatches(parse, glob, index[i], image) && KeyMatches(parse, glob, index[j], image)
    requires ParsesBack(parse, index[i]) && ParsesBack(parse, index[j])
    requires SplitsAtSlash(parse(index[i]).value) && SplitsAtSlash(parse(index[j]).value)
    ensures i < j <==> RanksBefore(parse(index[i]).value, parse(index[j]).value)
  {
    var a, b := parse(index[i]).value, parse(index[j]).value;
    LessIsTotal(index[i], index[j]);
    assert i < j <==> Less(index[j], index[i]);
    if a.host == b.host {
      SameHostByPath(a.host, a.path, b.path, parse(image).value.path);
      SameHostByPath(a.host, b.path, a.path, parse(image).value.path);
    } else {
      KeyLessIff(b.host, b.path, a.host, a.path);
    }
  }

  lemma SameHostByPath(host: string, p: string, q: string, target: string)
    requires p <= target && q <= target
    ensures |q| < |p| ==> Less(host + q, host + p)
    ensures |q| == |p| ==> host + q == host + p
  {
    assert q == target[..|q|] && p == target[..|p|];
    if |q| < |p| {
      assert q == p[..|q|];
      PrefixIsLess(q, p);
      LessDrops(host, q, p);
    }
  }

  /** Of two matching keys on the same host the one with the longer path comes first. */
  lemma MoreSpecificComesFirst(
    parse: UrlParser, glob: Glob, creds: Store, index: seq<string>, image: string, i: nat, j: nat)
    requires Descending(index) && i < |index| && j < |index| && forall k :: k in index ==> k in creds
    requires KeyMatches(parse, glob, index[i], image) && KeyMatches(parse, glob, index[j], image)
    requires ParsesBack(parse, index[i]) && ParsesBack(parse, index[j])
    requires parse(index[i]).value.host == parse(index[j]).value.host
    requires |parse(index[i]).value.path| > |parse(index[j]).value.path|
    ensures i < j
    ensures Offset(parse, glob, creds, index, image, i) + |creds[index[i]]| <=
            Offset(parse, glob, creds, index, image, j)
  {
    var a, b := parse(index[i]).value, parse(index[j]).value;
    SameHostByPath(a.host, a.path, b.path, parse(image).value.path);
    LessIsTotal(index[i], index[j]);
    BlocksAreInOrder(parse, glob, creds, index, image, i, j);
  }

  /** The longer path may come last: a glob host sorts behind a plain one. */
  lemma GlobKeysSortLast()
    ensures Less("*.b.io/long", "a.b.io") && !HostLess("a.b.io", "", "*.b.io", "/long")
    ensures SortedDescending(["*.b.io/long", "a.b.io"]) == ["a.b.io", "*.b.io/long"]
  {
    assert '*' < 'a';
    assert ["*.b.io/long", "a.b.io"][1..] == ["a.b.io"];
    assert ["a.b.io"][1..] == [];
    assert SortedDescending(["a.b.io"]) == ["a.b.io"];
    assert Place("*.b.io/long", []) == ["*.b.io/long"];
  }

  // ----- The order of map iteration -----

  ghost predicate SameEntries(a: seq<Entry>, b: seq<Entry>) {
    multiset(a) == multiset(b)
  }

  ghost function Stored(creds: Store, key: string): multiset<AuthConfig> {
    if key in creds then multiset(creds[key]) else multiset{}
  }

  ghost function EntriesFor(entries: seq<Entry>, key: string): multiset<AuthConfig> {
    if entries == [] then multiset{}
    else
      var last := entries[|entries| - 1];
      EntriesFor(entries[..|entries| - 1], key) + if last.key == key then multiset{last.credential} else multiset{}
  }

  lemma EntriesForNone(key: string)
    ensures EntriesFor([], key) == multiset{}
  {
  }

  lemma EntriesForStep(entries: seq<Entry>, e: Entry, key: string)
    ensures EntriesFor(entries + [e], key) ==
              EntriesFor(entries, key) + if e.key == key then multiset{e.credential} else multiset{}
  {
    assert (entries + [e])[..|entries|] == entries;
  }

  lemma StoredStep(creds: Store, e: Entry, key: string)
    ensures Stored(Append(creds, e), key) ==
              Stored(creds, key) + if e.key == key then multiset{e.credential} else multiset{}
  {
  }

  lemma {:induction false} StoredAfter(creds: Store, entries: seq<Entry>, key: string)
    ensures Stored(AppendAll(creds, entries), key) == Stored(creds, key) + EntriesFor(entries, key)
  {
    hide EntriesFor, Append, Stored;
    if entries == [] {
      EntriesForNone(key);
    } else {
      var front, last := entries[..|entries| - 1], entries[|entries| - 1];
      StoredAfter(creds, front, key);
      StoredStep(AppendAll(creds, front), last, key);
      EntriesForStep(front, last, key);
      assert entries == front + [last];
    }
  }

  lemma {:induction false} EntriesForSplit(a: seq<Entry>, b: seq<Entry>, key: string)
    ensures EntriesFor(a + b, key) == EntriesFor(a, key) + EntriesFor(b, key)
  {
    hide EntriesFor;
    if b == [] {
      EntriesForNone(key);
      assert a + b == a;
    } else {
      var front, last := b[..|b| - 1], b[|b| - 1];
      EntriesForSplit(a, front, key);
      EntriesForStep(front, last, key);
      EntriesForStep(a + front, last, key);
      assert b == front + [last] && a + b == (a + front) + [last];
    }
  }

  lemma {:induction false} EntriesForIsOrderFree(a: seq<Entry>, b: seq<Entry>, key: string)
    requires SameEntries(a, b)
    ensures EntriesFor(a, key) == EntriesFor(b, key)
  {
    if a == [] {
      assert b == [] by {
        assert |multiset(b)| == |multiset(a)| == 0;
      }
    } else {
      var last := a[|a| - 1];
      assert a == a[..|a| - 1] + [last];
      assert last in multiset(b);
      var k :| 0 <= k < |b| && b[k] == last;
      var left, right := b[..k], b[k + 1..];
      assert b == left + [last] + right;
      assert multiset(left + right) == multiset(b) - multiset{last};
      assert multiset(a[..|a| - 1]) == multiset(a) - multiset{last};
      EntriesForIsOrderFree(a[..|a| - 1], left + right, key);
      EntriesForSplit(left, right, key);
      EntriesForSplit(left + [last], right, key);
      EntriesForSplit(left, [last], key);
      assert [last][..0] == [];
      EntriesForSplit(a[..|a| - 1], [last], key);
    }
  }

  /** Iterating a config in another order stores the same credentials under every key. */
  lemma IterationOrderDoesNotMatter(creds: Store, a: seq<Entry>, b: seq<Entry>, key: string)
    requires SameEntries(a, b)
    ensures Stored(AppendAll(creds, a), key) == Stored(AppendAll(creds, b), key)
  {
    StoredAfter(creds, a, key);
    StoredAfter(creds, b, key);
    EntriesForIsOrderFree(a, b, key);
  }
}
