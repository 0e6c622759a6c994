/** Go's path.Join and path.Clean, and what they mean for a mirror destination. */
module Paths {
  function Split(s: string): (segments: seq<string>)
    ensures |segments| > 0
  {
    if s == "" then [""]
    else
      var rest := Split(s[1..]);
      if s[0] == '/' then [""] + rest else [[s[0]] + rest[0]] + rest[1..]
  }

  function JoinSegments(segments: seq<string>): string {
    if segments == [] then ""
    else if |segments| == 1 then segments[0]
    else segments[0] + "/" + JoinSegments(segments[1..])
  }

  /** One step of path.Clean: empty and "." segments vanish, ".." removes a real segment, and
      stays only at the front of a relative path. */
  function Push(rooted: bool, stack: seq<string>, segment: string): seq<string> {
    if segment == "" || segment == "." then stack
    else if segment == ".." then
      if stack != [] && stack[|stack| - 1] != ".." then stack[..|stack| - 1]
      else if rooted then stack
      else stack + [segment]
    else stack + [segment]
  }

  function Reduce(rooted: bool, segments: seq<string>): seq<string> {
    if segments == [] then []
    else Push(rooted, Reduce(rooted, segments[..|segments| - 1]), segments[|segments| - 1])
  }

  predicate Rooted(s: string) {
    s != "" && s[0] == '/'
  }

  function Clean(s: string): string {
    var stack := Reduce(Rooted(s), Split(s));
    if Rooted(s) then "/" + JoinSegments(stack)
    else if stack == [] then "."
    else JoinSegments(stack)
  }

  /** The text path.Join hands to Clean: leading empty elements add nothing. */
  function Concat(elements: seq<string>): string {
    if elements == [] then ""
    else
      var front := Concat(elements[..|elements| - 1]);
      var last := elements[|elements| - 1];
      if front == "" then last else front + "/" + last
  }

  function Join(elements: seq<string>): string {
    var text := Concat(elements);
    if text == "" then "" else Clean(text)
  }

  // ----- A joined image path keeps the prefix -----

  /** The path part of an image reference: no segment is empty or starts with a dot. */
  predicate ImagePath(s: string) {
    PlainSegments(Split(s))
  }

  predicate PlainSegments(segments: seq<string>) {
    forall i :: 0 <= i < |segments| ==> segments[i] != "" && segments[i][0] != '.'
  }

  lemma SplitCons(c: char, s: string)
    ensures Split([c] + s) == if c == '/' then [""] + Split(s) else [[c] + Split(s)[0]] + Split(s)[1..]
  {
    assert ([c] + s)[1..] == s;
  }

  lemma {:induction false} SplitConcat(a: string, b: string)
    ensures Split(a + "/" + b) == Split(a) + Split(b)
  {
    hide Split;
    if a == "" {
      SplitOfEmpty();
      SplitCons('/', b);
      assert a + "/" + b == "/" + b;
    } else {
      SplitConcat(a[1..], b);
      SplitCons(a[0], a[1..]);
      SplitCons(a[0], a[1..] + "/" + b);
      assert [a[0]] + a[1..] == a;
      assert [a[0]] + (a[1..] + "/" + b) == a + "/" + b;
    }
  }

  lemma SplitOfEmpty()
    ensures Split("") == [""]
  {
  }

  lemma {:induction false} SplitHasNoSlash(s: string)
    ensures forall i :: 0 <= i < |Split(s)| ==> '/' !in Split(s)[i]
    ensures JoinSegments(Split(s)) == s
  {
    if s != "" {
      SplitHasNoSlash(s[1..]);
      var rest := Split(s[1..]);
      if s[0] == '/' {
        assert ([""] + rest)[1..] == rest;
      } else {
        assert ([[s[0]] + rest[0]] + rest[1..])[1..] == rest[1..];
      }
    }
  }

  lemma {:induction false} ReducePlain(rooted: bool, a: seq<string>, b: seq<string>)
    requires PlainSegments(b)
    ensures Reduce(rooted, a + b) == Reduce(rooted, a) + b
  {
    if b == [] {
      assert a + b == a;
    } else {
      var front, last := b[..|b| - 1], b[|b| - 1];
      ReducePlain(rooted, a, front);
      assert (a + b)[..|a + b| - 1] == a + front;
      assert b == front + [last];
    }
  }

  lemma {:induction false} JoinConcat(a: seq<string>, b: seq<string>)
    requires a != [] && b != []
    ensures JoinSegments(a + b) == JoinSegments(a) + "/" + JoinSegments(b)
  {
    if |a| > 1 {
      JoinConcat(a[1..], b);
      assert (a + b)[1..] == a[1..] + b;
    } else {
      assert (a + b)[1..] == b;
    }
  }

  /** No segment that survives cleaning is empty or ".". */
  lemma {:induction false} ReduceDropsDots(rooted: bool, segments: seq<string>)
    ensures forall i :: 0 <= i < |Reduce(rooted, segments)| ==>
              Reduce(rooted, segments)[i] != "" && Reduce(rooted, segments)[i] != "."
  {
    if segments != [] {
      ReduceDropsDots(rooted, segments[..|segments| - 1]);
    }
  }

  lemma JoinSegmentsIsNotDot(stack: seq<string>)
    requires stack != [] && forall i :: 0 <= i < |stack| ==> stack[i] != "" && stack[i] != "."
    ensures JoinSegments(stack) != "" && JoinSegments(stack) != "."
  {
    if |stack| > 1 {
      assert |JoinSegments(stack)| > 1;
    }
  }

  /** The destination path.Join(registry, path, image) starts with the mirror's own prefix
      path.Join(registry, path) exactly when that prefix is not ".", which a caller can check
      on the declaration alone. */
  lemma DestinationCarriesPrefix(registry: string, path: string, image: string)
    requires ImagePath(image)
    ensures Join([registry, path]) <= Join([registry, path, image]) <==> Join([registry, path]) != "."
  {
    var prefix := Concat([registry, path]);
    assert [registry, path, image][..2] == [registry, path];
    SplitHasNoSlash(image);
    if prefix != "" {
      var text := prefix + "/" + image;
      assert Concat([registry, path, image]) == text;
      SplitConcat(prefix, image);
      assert Rooted(text) == Rooted(prefix);
      var stack := Reduce(Rooted(prefix), Split(prefix));
      ReducePlain(Rooted(prefix), Split(prefix), Split(image));
      ReduceDropsDots(Rooted(prefix), Split(prefix));
      assert Reduce(Rooted(text), Split(text)) == stack + Split(image);
      if stack == [] {
        assert stack + Split(image) == Split(image);
        FirstOfJoin(Split(image));
      } else {
        JoinConcat(stack, Split(image));
        JoinSegmentsIsNotDot(stack);
      }
    }
  }

  /** What stands before the image path in path.Join(registry, path, image). */
  function Lead(registry: string, path: string): string {
    var prefix := Concat([registry, path]);
    var stack := Reduce(Rooted(prefix), Split(prefix));
    (if Rooted(prefix) then "/" else "") + if prefix == "" || stack == [] then "" else JoinSegments(stack) + "/"
  }

  lemma ImagePathIsRelative(image: string)
    requires ImagePath(image)
    ensures image != "" && !Rooted(image)
    ensures Reduce(false, Split(image)) == Split(image) && JoinSegments(Split(image)) == image
  {
    SplitHasNoSlash(image);
    assert Split(image)[0] != "";
    ReducePlain(false, [], Split(image));
    assert [] + Split(image) == Split(image);
  }

  lemma CleanUnder(prefix: string, image: string)
    requires prefix != "" && ImagePath(image)
    ensures var stack := Reduce(Rooted(prefix), Split(prefix));
            Clean(prefix + "/" + image) ==
            (if Rooted(prefix) then "/" else "") + (if stack == [] then "" else JoinSegments(stack) + "/") + image
  {
    hide Split, Reduce, JoinSegments, PlainSegments;
    var text := prefix + "/" + image;
    SplitConcat(prefix, image);
    assert Rooted(text) == Rooted(prefix);
    var stack := Reduce(Rooted(prefix), Split(prefix));
    ReducePlain(Rooted(prefix), Split(prefix), Split(image));
    ImagePathIsRelative(image);
    if stack == [] {
      assert stack + Split(image) == Split(image);
    } else {
      JoinConcat(stack, Split(image));
    }
  }

  lemma JoinIsLeadAndImage(registry: string, path: string, image: string)
    requires ImagePath(image)
    ensures Join([registry, path, image]) == Lead(registry, path) + image
  {
    hide Split, Reduce, JoinSegments, ImagePath;
    assert [registry, path, image][..2] == [registry, path];
    var prefix := Concat([registry, path]);
    ImagePathIsRelative(image);
    if prefix != "" {
      CleanUnder(prefix, image);
    }
  }

  /** Under one mirror different image paths have different destinations. */
  lemma JoinIsInjective(registry: string, path: string, a: string, b: string)
    requires ImagePath(a) && ImagePath(b)
    ensures Join([registry, path, a]) == Join([registry, path, b]) <==> a == b
  {
    JoinIsLeadAndImage(registry, path, a);
    JoinIsLeadAndImage(registry, path, b);
    hide Join, Lead, ImagePath;
    var lead := Lead(registry, path);
    if lead + a == lead + b {
      assert a == (lead + a)[|lead|..] == (lead + b)[|lead|..] == b;
    }
  }

  // ----- What path.Clean is documented to do -----

  lemma {:induction false} ReduceFrom(rooted: bool, a: seq<string>, other: seq<string>, b: seq<string>)
    requires Reduce(rooted, a) == Reduce(rooted, other)
    ensures Reduce(rooted, a + b) == Reduce(rooted, other + b)
  {
    if b == [] {
      assert a + b == a && other + b == other;
    } else {
      var front, last := b[..|b| - 1], b[|b| - 1];
      ReduceFrom(rooted, a, other, front);
      assert (a + b)[..|a + b| - 1] == a + front && (other + b)[..|other + b| - 1] == other + front;
    }
  }

  lemma ReduceStep(rooted: bool, a: seq<string>, segment: string)
    ensures Reduce(rooted, a + [segment]) == Push(rooted, Reduce(rooted, a), segment)
  {
    assert (a + [segment])[..|a|] == a;
  }

  /** The rules: an empty or "." segment goes, a ".." goes together with a real segment before it, and
      at the front of a rooted path alone. */
  lemma CleaningRules(rooted: bool, a: seq<string>, x: string, b: seq<string>)
    ensures x == "" || x == "." ==> Reduce(rooted, a + [x] + b) == Reduce(rooted, a + b)
    ensures x != "" && x != "." && x != ".." ==> Reduce(rooted, a + [x, ".."] + b) == Reduce(rooted, a + b)
    ensures Reduce(true, [".."] + b) == Reduce(true, b)
  {
    ReduceStep(rooted, a, x);
    ReduceStep(rooted, a + [x], "..");
    assert a + [x] + [".."] == a + [x, ".."];
    if x == "" || x == "." {
      ReduceFrom(rooted, a + [x], a, b);
    } else if x != ".." {
      ReduceFrom(rooted, a + [x, ".."], a, b);
    }
    ReduceStep(true, [], "..");
    assert [] + [".."] == [".."] && [] + b == b;
    ReduceFrom(true, [".."], [], b);
  }

  /** No rule applies: real segments only, behind a run of ".." that a rooted path does not have. */
  ghost predicate IsClean(rooted: bool, segments: seq<string>) {
    && (forall i :: 0 <= i < |segments| ==> segments[i] != "" && segments[i] != ".")
    && (forall i :: 0 <= i < |segments| && segments[i] == ".." ==>
          !rooted && forall j :: 0 <= j < i ==> segments[j] == "..")
  }

  /** The rules are applied until none is left to apply, and what is clean stays. */
  lemma {:induction false} CleaningEnds(rooted: bool, segments: seq<string>)
    ensures IsClean(rooted, Reduce(rooted, segments))
    ensures IsClean(rooted, segments) ==> Reduce(rooted, segments) == segments
  {
    hide IsClean, Push;
    if segments == [] {
      NothingIsClean(rooted);
    } else {
      var front, last := segments[..|segments| - 1], segments[|segments| - 1];
      CleaningEnds(rooted, front);
      assert segments == front + [last];
      PushIsClean(rooted, Reduce(rooted, front), last);
      if IsClean(rooted, segments) {
        FrontIsClean(rooted, front, last);
      }
    }
  }

  lemma NothingIsClean(rooted: bool)
    ensures IsClean(rooted, [])
  {
  }

  lemma PushIsClean(rooted: bool, stack: seq<string>, segment: string)
    requires IsClean(rooted, stack)
    ensures IsClean(rooted, Push(rooted, stack, segment))
    ensures IsClean(rooted, stack + [segment]) ==> Push(rooted, stack, segment) == stack + [segment]
  {
    var all := stack + [segment];
    assert all[|stack|] == segment;
    assert stack != [] ==> all[|stack| - 1] == stack[|stack| - 1];
  }

  lemma FrontIsClean(rooted: bool, front: seq<string>, last: string)
    requires IsClean(rooted, front + [last])
    ensures IsClean(rooted, front)
  {
    assert forall i :: 0 <= i < |front| ==> (front + [last])[i] == front[i];
  }

  /** Joining names without dots and empty parts puts slashes between them; an empty path adds none. */
  lemma JoinOfPlain(registry: string, path: string, image: string)
    requires ImagePath(registry) && ImagePath(image) && (path == "" || ImagePath(path))
    ensures var prefix := if path == "" then registry else registry + "/" + path;
            Join([registry, path]) == prefix && Join([registry, path, image]) == prefix + "/" + image
  {
    hide Split, Reduce, JoinSegments, PlainSegments, Push, Concat;
    ImagePathIsRelative(registry);
    ConcatOfParts(registry, path, image);
    CleanOfPlain(registry, path);
    CleanUnder(registry + "/" + path, image);
    assert Rooted(registry + "/" + path) == Rooted(registry);
    PlainIsNotEmpty(registry);
  }

  lemma ConcatOfParts(registry: string, path: string, image: string)
    requires registry != ""
    ensures Concat([registry, path]) == registry + "/" + path
    ensures Concat([registry, path, image]) == registry + "/" + path + "/" + image
  {
    assert [registry, path][..1] == [registry] && [registry, path, image][..2] == [registry, path];
    assert [registry][..0] == [];
    assert Concat([registry]) == registry;
  }

  lemma PlainIsNotEmpty(s: string)
    requires ImagePath(s)
    ensures Split(s) != [] && Reduce(false, Split(s)) != []
  {
    ImagePathIsRelative(s);
  }

  lemma CleanOfPlain(registry: string, path: string)
    requires ImagePath(registry) && (path == "" || ImagePath(path))
    ensures var stack := Reduce(false, Split(registry + "/" + path));
            && !Rooted(registry + "/" + path) && stack != []
            && JoinSegments(stack) == if path == "" then registry else registry + "/" + path
  {
    hide Split, Reduce, JoinSegments, PlainSegments, Push;
    ImagePathIsRelative(registry);
    PlainIsNotEmpty(registry);
    SplitConcat(registry, path);
    if path == "" {
      SplitOfEmpty();
      CleaningRules(false, Split(registry), "", []);
      assert Split(registry) + [""] + [] == Split(registry) + [""] && Split(registry) + [] == Split(registry);
    } else {
      ReducePlain(false, Split(registry), Split(path));
      ImagePathIsRelative(path);
      PlainIsNotEmpty(path);
      JoinConcat(Split(registry), Split(path));
    }
  }

  lemma FirstOfJoin(segments: seq<string>)
    requires segments != [] && PlainSegments(segments)
    ensures JoinSegments(segments) != "" && JoinSegments(segments)[0] != '.'
  {
  }

  /** A mirror whose path climbs out of its registry loses its prefix. */
  lemma ClimbingMirrorLosesPrefix()
    ensures Join(["r", ".."]) == "." && Join(["r", "..", "img"]) == "img"
    ensures !(Join(["r", ".."]) <= Join(["r", "..", "img"]))
  {
    assert ["r", "..", "img"][..2] == ["r", ".."];
    assert ["r", ".."][..1] == ["r"];
    SplitPlain("r");
    SplitPlain("..");
    SplitPlain("img");
    assert Concat(["r", ".."]) == "r" + "/" + "..";
    SplitConcat("r", "..");
    assert Concat(["r", "..", "img"]) == ("r" + "/" + "..") + "/" + "img";
    SplitConcat("r" + "/" + "..", "img");
    assert Split("r" + "/" + "..") == ["r", ".."];
    assert Reduce(false, ["r", ".."]) == [] by {
      assert Reduce(false, ["r"]) == ["r"];
    }
    assert ["r", ".."] + ["img"] == ["r", "..", "img"];
    assert Reduce(false, ["r", "..", "img"]) == ["img"];
  }

  lemma {:induction false} SplitPlain(s: string)
    requires '/' !in s
    ensures Split(s) == [s]
  {
    if s != "" {
      SplitPlain(s[1..]);
      assert [s[0]] + s[1..] == s;
    }
  }
}
