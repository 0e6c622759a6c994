/** The include/exclude filters of internal/filter and the unified filters of
    api/kuik/v1alpha1/filter_types.go, with the flattening of cluster filters. */
module Filters {
  import opened Prelude

  /** The regular expression and label selector libraries. */
  datatype Engine = Engine(
    compiles: string -> bool,
    matches: (string, string) -> bool,
    parses: string -> bool,
    selects: (string, map<string, string>) -> bool)

  /** The pattern ".*" compiles and matches every name (names hold no line break). */
  ghost predicate WildcardWorks(e: Engine) {
    e.compiles(".*") && forall s: string :: e.matches(".*", s)
  }

  datatype FilterItem = FilterItem(image: string, podLabel: string, podAnnotation: string)

  datatype ClusterFilterItem = ClusterFilterItem(item: FilterItem, namespace: string)

  datatype Filter = Filter(includes: seq<FilterItem>, excludes: seq<FilterItem>)

  datatype ClusterFilter = ClusterFilter(includes: seq<ClusterFilterItem>, excludes: seq<ClusterFilterItem>)

  datatype Pod = Pod(namespace: string, labels: map<string, string>, annotations: map<string, string>)

  // ----- Include and exclude lists -----

  ghost predicate AnyMatches(e: Engine, patterns: seq<string>, s: string) {
    exists i :: 0 <= i < |patterns| && e.matches(patterns[i], s)
  }

  /** IncludeExcludeFilter.Match: an empty include list matches nothing. */
  ghost predicate IncludeExclude(e: Engine, includes: seq<string>, excludes: seq<string>, s: string) {
    AnyMatches(e, includes, s) && !AnyMatches(e, excludes, s)
  }

  ghost predicate AnySelects(e: Engine, selectors: seq<string>, set_: map<string, string>) {
    exists i :: 0 <= i < |selectors| && e.selects(selectors[i], set_)
  }

  /** matchSelectorSets: an empty include list matches everything. */
  ghost predicate SelectorSets(e: Engine, includes: seq<string>, excludes: seq<string>, set_: map<string, string>) {
    (includes == [] || AnySelects(e, includes, set_)) && !AnySelects(e, excludes, set_)
  }

  method MatchSelectorSets(e: Engine, includes: seq<string>, excludes: seq<string>, set_: map<string, string>)
    returns (r: bool)
    ensures r == SelectorSets(e, includes, excludes, set_)
    ensures r <==>
              && (includes == [] || exists i :: 0 <= i < |includes| && e.selects(includes[i], set_))
              && (forall i :: 0 <= i < |excludes| ==> !e.selects(excludes[i], set_))
  {
    if |includes| > 0 {
      var matched := false;
      for i := 0 to |includes|
        invariant !matched && forall k :: 0 <= k < i ==> !e.selects(includes[k], set_)
      {
        if e.selects(includes[i], set_) {
          matched := true;
          break;
        }
      }
      if !matched {
        return false;
      }
    }
    for i := 0 to |excludes|
      invariant forall k :: 0 <= k < i ==> !e.selects(excludes[k], set_)
    {
      if e.selects(excludes[i], set_) {
        return false;
      }
    }
    return true;
  }

  ghost predicate AllCompile(e: Engine, patterns: seq<string>) {
    forall i :: 0 <= i < |patterns| ==> e.compiles(patterns[i])
  }

  ghost predicate AllParse(e: Engine, selectors: seq<string>) {
    forall i :: 0 <= i < |selectors| ==> e.parses(selectors[i])
  }

  /** A compiled filter is the pair of lists it was compiled from. */
  datatype IncludeExcludeFilter = IncludeExcludeFilter(includes: seq<string>, excludes: seq<string>)

  datatype PodFilter = PodFilter(
    includeLabels: seq<string>, excludeLabels: seq<string>, includeAnnotations: seq<string>,
    excludeAnnotations: seq<string>)

  method CompileIncludeExcludeFilter(e: Engine, includes: seq<string>, excludes: seq<string>)
    returns (r: Option<IncludeExcludeFilter>)
    ensures r == Compiled(e, includes, excludes)
    ensures r.Some? <==>
              && (forall i :: 0 <= i < |includes| ==> e.compiles(includes[i]))
              && (forall i :: 0 <= i < |excludes| ==> e.compiles(excludes[i]))
    ensures r.Some? ==> r.value.includes == includes && r.value.excludes == excludes
  {
    for i := 0 to |includes|
      invariant forall k :: 0 <= k < i ==> e.compiles(includes[k])
    {
      if !e.compiles(includes[i]) {
        return None;
      }
    }
    for i := 0 to |excludes|
      invariant forall k :: 0 <= k < i ==> e.compiles(excludes[k])
    {
      if !e.compiles(excludes[i]) {
        return None;
      }
    }
    return Some(IncludeExcludeFilter(includes, excludes));
  }

  ghost function Compiled(e: Engine, includes: seq<string>, excludes: seq<string>): Option<IncludeExcludeFilter> {
    if AllCompile(e, includes) && AllCompile(e, excludes) then Some(IncludeExcludeFilter(includes, excludes)) else None
  }

  ghost function CompiledPodFilter(e: Engine, f: PodFilter): Option<PodFilter> {
    if AllParse(e, f.includeLabels) && AllParse(e, f.excludeLabels)
       && AllParse(e, f.includeAnnotations) && AllParse(e, f.excludeAnnotations)
    then Some(f) else None
  }

  ghost predicate PodFilterMatches(e: Engine, f: PodFilter, pod: Pod) {
    && SelectorSets(e, f.includeLabels, f.excludeLabels, pod.labels)
    && SelectorSets(e, f.includeAnnotations, f.excludeAnnotations, pod.annotations)
  }

  // ----- Grouping items by dimension -----

  function CollectStrings<T>(items: seq<T>, get: T -> string): seq<string> {
    if items == [] then []
    else
      CollectStrings(items[..|items| - 1], get) +
      if get(items[|items| - 1]) != "" then [get(items[|items| - 1])] else []
  }

  method Collect<T>(items: seq<T>, get: T -> string) returns (out: seq<string>)
    ensures out == CollectStrings(items, get)
  {
    out := [];
    for n := 0 to |items|
      invariant out == CollectStrings(items[..n], get)
    {
      assert items[..n + 1][..n] == items[..n];
      if get(items[n]) != "" {
        out := out + [get(items[n])];
      }
    }
    assert items[..|items|] == items;
  }

  lemma {:induction false} CollectMembers<T>(items: seq<T>, get: T -> string, v: string)
    ensures v in CollectStrings(items, get) <==> v != "" && exists i :: 0 <= i < |items| && get(items[i]) == v
  {
    if items != [] {
      CollectMembers(items[..|items| - 1], get, v);
      assert items == items[..|items| - 1] + [items[|items| - 1]];
      assert forall i :: 0 <= i < |items| - 1 ==> items[..|items| - 1][i] == items[i];
    }
  }

  function DefaultedToMatchAll(includes: seq<string>): seq<string> {
    if includes == [] then [".*"] else includes
  }

  const IMAGE_FIELD := (i: FilterItem) => i.image
  const LABEL_FIELD := (i: FilterItem) => i.podLabel
  const ANNOTATION_FIELD := (i: FilterItem) => i.podAnnotation
  const NAMESPACE_FIELD := (i: ClusterFilterItem) => i.namespace

  // ----- The two kinds of filter -----

  predicate IsEmpty(f: Filter) {
    |f.includes| + |f.excludes| == 0
  }

  predicate IsEmptyCluster(cf: ClusterFilter) {
    |cf.includes| + |cf.excludes| == 0
  }

  ghost function BuildImageFilter(e: Engine, f: Filter): Option<IncludeExcludeFilter> {
    Compiled(e, DefaultedToMatchAll(CollectStrings(f.includes, IMAGE_FIELD)), CollectStrings(f.excludes, IMAGE_FIELD))
  }

  ghost function BuildPodFilter(e: Engine, f: Filter): Option<PodFilter> {
    CompiledPodFilter(e, PodFilter(
      CollectStrings(f.includes, LABEL_FIELD), CollectStrings(f.excludes, LABEL_FIELD),
      CollectStrings(f.includes, ANNOTATION_FIELD), CollectStrings(f.excludes, ANNOTATION_FIELD)))
  }

  function ToFilter(cf: ClusterFilter): Filter {
    Filter(seq(|cf.includes|, i requires 0 <= i < |cf.includes| => cf.includes[i].item),
           seq(|cf.excludes|, i requires 0 <= i < |cf.excludes| => cf.excludes[i].item))
  }

  method FlattenFilter(cf: ClusterFilter) returns (f: Filter)
    ensures f == ToFilter(cf)
  {
    var includes, excludes := [], [];
    for i := 0 to |cf.includes|
      invariant includes == ToFilter(cf).includes[..i]
    {
      includes := includes + [cf.includes[i].item];
    }
    for i := 0 to |cf.excludes|
      invariant excludes == ToFilter(cf).excludes[..i]
    {
      excludes := excludes + [cf.excludes[i].item];
    }
    return Filter(includes, excludes);
  }

  ghost function BuildNamespaceFilter(e: Engine, cf: ClusterFilter): Option<IncludeExcludeFilter> {
    Compiled(e, DefaultedToMatchAll(CollectStrings(cf.includes, NAMESPACE_FIELD)),
             CollectStrings(cf.excludes, NAMESPACE_FIELD))
  }

  /** The deprecated imageFilter: ImageFilterDefinition.Build. */
  datatype LegacyFilter = LegacyFilter(includes: seq<string>, excludes: seq<string>)

  ghost function BuildLegacy(e: Engine, legacy: LegacyFilter): Option<IncludeExcludeFilter> {
    var includes := if legacy.includes == [] && legacy.excludes != [] then [".*"] else legacy.includes;
    Compiled(e, includes, legacy.excludes)
  }

  /** podMatcher and imageFilter of a cluster mirror: None when a part does not compile. */
  ghost function ClusterPodMatch(e: Engine, cf: ClusterFilter, pod: Pod): Option<bool> {
    if IsEmptyCluster(cf) then Some(true)
    else
      var p, ns := BuildPodFilter(e, ToFilter(cf)), BuildNamespaceFilter(e, cf);
      if p.None? || ns.None? then None
      else Some(PodFilterMatches(e, p.value, pod)
                && IncludeExclude(e, ns.value.includes, ns.value.excludes, pod.namespace))
  }

  ghost function ClusterImageFilter(e: Engine, cf: ClusterFilter, legacy: LegacyFilter): Option<IncludeExcludeFilter> {
    if IsEmptyCluster(cf) then BuildLegacy(e, legacy) else BuildImageFilter(e, ToFilter(cf))
  }

  ghost function ImageFilter(e: Engine, f: Filter, legacy: LegacyFilter): Option<IncludeExcludeFilter> {
    if IsEmpty(f) then BuildLegacy(e, legacy) else BuildImageFilter(e, f)
  }

  ghost predicate Accepts(e: Engine, f: Option<IncludeExcludeFilter>, image: string) {
    f.Some? && IncludeExclude(e, f.value.includes, f.value.excludes, image)
  }

  /** What the controller selects for a cluster mirror: a filter that does not compile stops it. */
  ghost predicate ClusterSelects(e: Engine, cf: ClusterFilter, legacy: LegacyFilter, pod: Pod, image: string) {
    ClusterPodMatch(e, cf, pod) == Some(true) && Accepts(e, ClusterImageFilter(e, cf, legacy), image)
  }

  /** What the webhook selects: the pod is matched by the cluster filter, the image by the
      namespaced form the mirror was flattened into. */
  ghost predicate FlattenedSelects(e: Engine, cf: ClusterFilter, legacy: LegacyFilter, pod: Pod, image: string) {
    ClusterPodMatch(e, cf, pod) == Some(true) && Accepts(e, ImageFilter(e, ToFilter(cf), legacy), image)
  }

  // ----- The documented meaning -----

  datatype Dimension = Image | Label | Annotation | Namespace

  function Field(d: Dimension, i: ClusterFilterItem): string {
    match d
    case Image => i.item.image
    case Label => i.item.podLabel
    case Annotation => i.item.podAnnotation
    case Namespace => i.namespace
  }

  /** The item belongs to the dimension and matches the candidate there. */
  ghost predicate ItemMatches(e: Engine, d: Dimension, i: ClusterFilterItem, pod: Pod, image: string) {
    && Field(d, i) != ""
    && match d
       case Image => e.matches(Field(d, i), image)
       case Label => e.selects(Field(d, i), pod.labels)
       case Annotation => e.selects(Field(d, i), pod.annotations)
       case Namespace => e.matches(Field(d, i), pod.namespace)
  }

  /** OR within the dimension; a dimension without items matches everything. */
  ghost predicate DimensionIncludes(e: Engine, d: Dimension, items: seq<ClusterFilterItem>, pod: Pod, image: string) {
    || (forall i :: 0 <= i < |items| ==> Field(d, items[i]) == "")
    || (exists i :: 0 <= i < |items| && ItemMatches(e, d, items[i], pod, image))
  }

  /** AND across the dimensions, and any matching exclude item drops the candidate. */
  ghost predicate Documented(e: Engine, cf: ClusterFilter, pod: Pod, image: string) {
    && (forall d: Dimension :: DimensionIncludes(e, d, cf.includes, pod, image))
    && (forall d: Dimension, i :: 0 <= i < |cf.excludes| ==> !ItemMatches(e, d, cf.excludes[i], pod, image))
  }

  ghost predicate DimensionAllows(e: Engine, d: Dimension, cf: ClusterFilter, pod: Pod, image: string) {
    && DimensionIncludes(e, d, cf.includes, pod, image)
    && forall i :: 0 <= i < |cf.excludes| ==> !ItemMatches(e, d, cf.excludes[i], pod, image)
  }

  /** Names are matched by patterns, labels and annotations by selectors. */
  predicate Compiles(e: Engine, d: Dimension, value: string) {
    match d
    case Image => e.compiles(value)
    case Label => e.parses(value)
    case Annotation => e.parses(value)
    case Namespace => e.compiles(value)
  }

  ghost predicate FieldsCompile(e: Engine, d: Dimension, items: seq<ClusterFilterItem>) {
    forall i :: 0 <= i < |items| && Field(d, items[i]) != "" ==> Compiles(e, d, Field(d, items[i]))
  }

  /** Every value that is not empty compiles, in each dimension. */
  ghost predicate EverythingCompiles(e: Engine, cf: ClusterFilter) {
    forall d: Dimension :: FieldsCompile(e, d, cf.includes) && FieldsCompile(e, d, cf.excludes)
  }

  lemma ValuesCompileIff(e: Engine, d: Dimension, items: seq<ClusterFilterItem>)
    ensures var values := CollectStrings(items, (i: ClusterFilterItem) => Field(d, i));
            (forall k :: 0 <= k < |values| ==> Compiles(e, d, values[k])) <==> FieldsCompile(e, d, items)
  {
    hide CollectStrings, Compiles;
    var fails := (v: string) => !Compiles(e, d, v);
    DimensionValues(items, d, fails);
    var values := CollectStrings(items, (i: ClusterFilterItem) => Field(d, i));
    assert (exists k :: 0 <= k < |values| && fails(values[k])) <==>
           exists i :: 0 <= i < |items| && Field(d, items[i]) != "" && fails(Field(d, items[i]));
  }

  /** The three filters that a cluster filter is built from compile exactly when all its values do. */
  lemma BuildsIff(e: Engine, cf: ClusterFilter)
    requires WildcardWorks(e)
    ensures EverythingCompiles(e, cf) <==>
              && BuildImageFilter(e, ToFilter(cf)).Some?
              && BuildPodFilter(e, ToFilter(cf)).Some?
              && BuildNamespaceFilter(e, cf).Some?
  {
    hide CollectStrings, FieldsCompile;
    FlattenedFields(cf);
    forall d: Dimension
      ensures FieldsCompile(e, d, cf.includes) <==>
                forall k :: 0 <= k < |FieldsOf(cf.includes, d)| ==> Compiles(e, d, FieldsOf(cf.includes, d)[k])
      ensures FieldsCompile(e, d, cf.excludes) <==>
                forall k :: 0 <= k < |FieldsOf(cf.excludes, d)| ==> Compiles(e, d, FieldsOf(cf.excludes, d)[k])
    {
      ValuesCompileIff(e, d, cf.includes);
      ValuesCompileIff(e, d, cf.excludes);
    }
    EveryDimension(e, cf);
    assert [".*"][0] == ".*";
  }

  lemma EveryDimension(e: Engine, cf: ClusterFilter)
    ensures EverythingCompiles(e, cf) <==>
              && FieldsCompile(e, Image, cf.includes) && FieldsCompile(e, Image, cf.excludes)
              && FieldsCompile(e, Label, cf.includes) && FieldsCompile(e, Label, cf.excludes)
              && FieldsCompile(e, Annotation, cf.includes) && FieldsCompile(e, Annotation, cf.excludes)
              && FieldsCompile(e, Namespace, cf.includes) && FieldsCompile(e, Namespace, cf.excludes)
  {
    hide FieldsCompile;
    if && FieldsCompile(e, Image, cf.includes) && FieldsCompile(e, Image, cf.excludes)
       && FieldsCompile(e, Label, cf.includes) && FieldsCompile(e, Label, cf.excludes)
       && FieldsCompile(e, Annotation, cf.includes) && FieldsCompile(e, Annotation, cf.excludes)
       && FieldsCompile(e, Namespace, cf.includes) && FieldsCompile(e, Namespace, cf.excludes) {
      forall d: Dimension ensures FieldsCompile(e, d, cf.includes) && FieldsCompile(e, d, cf.excludes) {
        match d {
          case Image =>
          case Label =>
          case Annotation =>
          case Namespace =>
        }
      }
    }
  }

  /** The non-empty values of one dimension. */
  function FieldsOf(items: seq<ClusterFilterItem>, d: Dimension): seq<string> {
    CollectStrings(items, (i: ClusterFilterItem) => Field(d, i))
  }

  /** Flattening keeps the values of the three dimensions that a namespaced filter has. */
  lemma FlattenedFields(cf: ClusterFilter)
    ensures var f := ToFilter(cf);
            && CollectStrings(f.includes, IMAGE_FIELD) == FieldsOf(cf.includes, Image)
            && CollectStrings(f.excludes, IMAGE_FIELD) == FieldsOf(cf.excludes, Image)
            && CollectStrings(f.includes, LABEL_FIELD) == FieldsOf(cf.includes, Label)
            && CollectStrings(f.excludes, LABEL_FIELD) == FieldsOf(cf.excludes, Label)
            && CollectStrings(f.includes, ANNOTATION_FIELD) == FieldsOf(cf.includes, Annotation)
            && CollectStrings(f.excludes, ANNOTATION_FIELD) == FieldsOf(cf.excludes, Annotation)
            && CollectStrings(cf.includes, NAMESPACE_FIELD) == FieldsOf(cf.includes, Namespace)
            && CollectStrings(cf.excludes, NAMESPACE_FIELD) == FieldsOf(cf.excludes, Namespace)
  {
    hide CollectStrings;
    var f := ToFilter(cf);
    CollectFlattened(cf.includes, f.includes, IMAGE_FIELD, Image);
    CollectFlattened(cf.excludes, f.excludes, IMAGE_FIELD, Image);
    CollectFlattened(cf.includes, f.includes, LABEL_FIELD, Label);
    CollectFlattened(cf.excludes, f.excludes, LABEL_FIELD, Label);
    CollectFlattened(cf.includes, f.includes, ANNOTATION_FIELD, Annotation);
    CollectFlattened(cf.excludes, f.excludes, ANNOTATION_FIELD, Annotation);
    CollectNamespaces(cf.includes);
    CollectNamespaces(cf.excludes);
  }

  lemma {:induction false} CollectFlattened(
    items: seq<ClusterFilterItem>, flat: seq<FilterItem>, get: FilterItem -> string, d: Dimension)
    requires |flat| == |items| && forall i :: 0 <= i < |items| ==> flat[i] == items[i].item
    requires forall i: ClusterFilterItem :: Field(d, i) == get(i.item)
    ensures CollectStrings(flat, get) == CollectStrings(items, (i: ClusterFilterItem) => Field(d, i))
  {
    if items != [] {
      CollectFlattened(items[..|items| - 1], flat[..|flat| - 1], get, d);
    }
  }

  lemma {:induction false} CollectNamespaces(items: seq<ClusterFilterItem>)
    ensures CollectStrings(items, NAMESPACE_FIELD) ==
      CollectStrings(items, (i: ClusterFilterItem) => Field(Namespace, i))
  {
    if items != [] {
      CollectNamespaces(items[..|items| - 1]);
    }
  }

  /** The values of one dimension, whatever is asked of them. */
  lemma DimensionValues(items: seq<ClusterFilterItem>, d: Dimension, holds: string -> bool)
    ensures var values := CollectStrings(items, (i: ClusterFilterItem) => Field(d, i));
            && (values == [] <==> forall i :: 0 <= i < |items| ==> Field(d, items[i]) == "")
            && ((exists k :: 0 <= k < |values| && holds(values[k]))
                <==> exists i :: 0 <= i < |items| && Field(d, items[i]) != "" && holds(Field(d, items[i])))
  {
    var get := (i: ClusterFilterItem) => Field(d, i);
    var values := CollectStrings(items, get);
    forall v ensures v in values <==> v != "" && exists i :: 0 <= i < |items| && get(items[i]) == v {
      CollectMembers(items, get, v);
    }
    forall i | 0 <= i < |items| && Field(d, items[i]) != "" ensures Field(d, items[i]) in values {
      assert get(items[i]) == Field(d, items[i]);
    }
    forall k | 0 <= k < |values|
      ensures exists i :: 0 <= i < |items| && Field(d, items[i]) == values[k] && values[k] != ""
    {
      assert values[k] in values;
      var i :| 0 <= i < |items| && get(items[i]) == values[k];
      assert Field(d, items[i]) == values[k];
    }
    if values != [] {
      var i :| 0 <= i < |items| && Field(d, items[i]) == values[0] && values[0] != "";
    }
    if exists i :: 0 <= i < |items| && Field(d, items[i]) != "" && holds(Field(d, items[i])) {
      var i :| 0 <= i < |items| && Field(d, items[i]) != "" && holds(Field(d, items[i]));
      var k :| 0 <= k < |values| && values[k] == Field(d, items[i]);
    }
  }

  /** One pattern dimension: the defaulted include list and the exclude list. */
  lemma PatternDimension(e: Engine, cf: ClusterFilter, d: Dimension, pod: Pod, image: string, s: string)
    requires WildcardWorks(e)
    requires (d == Image && s == image) || (d == Namespace && s == pod.namespace)
    ensures var includes := CollectStrings(cf.includes, (i: ClusterFilterItem) => Field(d, i));
            var excludes := CollectStrings(cf.excludes, (i: ClusterFilterItem) => Field(d, i));
            IncludeExclude(e, DefaultedToMatchAll(includes), excludes, s) <==> DimensionAllows(e, d, cf, pod, image)
  {
    hide CollectStrings;
    var holds := (v: string) => e.matches(v, s);
    DimensionValues(cf.includes, d, holds);
    DimensionValues(cf.excludes, d, holds);
    var includes := CollectStrings(cf.includes, (i: ClusterFilterItem) => Field(d, i));
    var excludes := CollectStrings(cf.excludes, (i: ClusterFilterItem) => Field(d, i));
    assert AnyMatches(e, excludes, s) <==> exists k :: 0 <= k < |excludes| && holds(excludes[k]);
    assert AnyMatches(e, includes, s) <==> exists k :: 0 <= k < |includes| && holds(includes[k]);
    assert [".*"][0] == ".*";
    assert AnyMatches(e, [".*"], s);
    assert forall i :: 0 <= i < |cf.includes| ==>
      (ItemMatches(e, d, cf.includes[i], pod, image) <==>
       Field(d, cf.includes[i]) != "" && holds(Field(d, cf.includes[i])));
    assert forall i :: 0 <= i < |cf.excludes| ==>
      (ItemMatches(e, d, cf.excludes[i], pod, image) <==>
       Field(d, cf.excludes[i]) != "" && holds(Field(d, cf.excludes[i])));
  }

  /** One selector dimension. */
  lemma SelectorDimension(e: Engine, cf: ClusterFilter, d: Dimension, pod: Pod, image: string, s: map<string, string>)
    requires (d == Label && s == pod.labels) || (d == Annotation && s == pod.annotations)
    ensures var includes := CollectStrings(cf.includes, (i: ClusterFilterItem) => Field(d, i));
            var excludes := CollectStrings(cf.excludes, (i: ClusterFilterItem) => Field(d, i));
            SelectorSets(e, includes, excludes, s) <==> DimensionAllows(e, d, cf, pod, image)
  {
    hide CollectStrings;
    var holds := (v: string) => e.selects(v, s);
    DimensionValues(cf.includes, d, holds);
    DimensionValues(cf.excludes, d, holds);
    var includes := CollectStrings(cf.includes, (i: ClusterFilterItem) => Field(d, i));
    var excludes := CollectStrings(cf.excludes, (i: ClusterFilterItem) => Field(d, i));
    assert AnySelects(e, excludes, s) <==> exists k :: 0 <= k < |excludes| && holds(excludes[k]);
    assert AnySelects(e, includes, s) <==> exists k :: 0 <= k < |includes| && holds(includes[k]);
    assert forall i :: 0 <= i < |cf.includes| ==>
      (ItemMatches(e, d, cf.includes[i], pod, image) <==>
       Field(d, cf.includes[i]) != "" && holds(Field(d, cf.includes[i])));
    assert forall i :: 0 <= i < |cf.excludes| ==>
      (ItemMatches(e, d, cf.excludes[i], pod, image) <==>
       Field(d, cf.excludes[i]) != "" && holds(Field(d, cf.excludes[i])));
  }

  /** A filter that is not empty selects what its documentation says, provided that all its values
      compile, and nothing otherwise. */
  lemma SelectionIsAsDocumented(e: Engine, cf: ClusterFilter, legacy: LegacyFilter, pod: Pod, image: string)
    requires WildcardWorks(e) && !IsEmptyCluster(cf)
    ensures ClusterSelects(e, cf, legacy, pod, image) <==> EverythingCompiles(e, cf) && Documented(e, cf, pod, image)
  {
    hide DimensionAllows, Documented, CollectStrings, IncludeExclude, SelectorSets;
    FlattenedFields(cf);
    BuildsIff(e, cf);
    if EverythingCompiles(e, cf) {
      PatternDimension(e, cf, Image, pod, image, image);
      PatternDimension(e, cf, Namespace, pod, image, pod.namespace);
      SelectorDimension(e, cf, Label, pod, image, pod.labels);
      SelectorDimension(e, cf, Annotation, pod, image, pod.annotations);
      DocumentedByDimension(e, cf, pod, image);
    }
  }

  /** Flattening keeps the number of items, so a namespace-only filter does not look empty and
      does not fall back to the deprecated image filter, while an empty one does: the webhook
      and the controller select the same pods and images, the documented ones. */
  lemma FlatteningPreservesSelection(e: Engine, cf: ClusterFilter, legacy: LegacyFilter, pod: Pod, image: string)
    ensures IsEmpty(ToFilter(cf)) <==> IsEmptyCluster(cf)
    ensures FlattenedSelects(e, cf, legacy, pod, image) <==> ClusterSelects(e, cf, legacy, pod, image)
    ensures WildcardWorks(e) && !IsEmptyCluster(cf) ==>
              (FlattenedSelects(e, cf, legacy, pod, image) <==>
               EverythingCompiles(e, cf) && Documented(e, cf, pod, image))
  {
    if WildcardWorks(e) && !IsEmptyCluster(cf) {
      SelectionIsAsDocumented(e, cf, legacy, pod, image);
    }
  }

  lemma DocumentedByDimension(e: Engine, cf: ClusterFilter, pod: Pod, image: string)
    ensures Documented(e, cf, pod, image) <==>
              && DimensionAllows(e, Image, cf, pod, image)
              && DimensionAllows(e, Label, cf, pod, image)
              && DimensionAllows(e, Annotation, cf, pod, image)
              && DimensionAllows(e, Namespace, cf, pod, image)
  {
    if DimensionAllows(e, Image, cf, pod, image) && DimensionAllows(e, Label, cf, pod, image)
       && DimensionAllows(e, Annotation, cf, pod, image) && DimensionAllows(e, Namespace, cf, pod, image) {
      forall d: Dimension ensures DimensionAllows(e, d, cf, pod, image) {
        match d {
          case Image =>
          case Label =>
          case Annotation =>
          case Namespace =>
        }
      }
    }
  }

  /** The deprecated filter, used when the unified one is empty: no list at all selects no
      image, an exclude list alone selects the rest. */
  lemma LegacyMeaning(e: Engine, cf: ClusterFilter, legacy: LegacyFilter, pod: Pod, image: string)
    requires WildcardWorks(e) && IsEmptyCluster(cf)
    ensures ClusterSelects(e, cf, legacy, pod, image) <==>
              && AllCompile(e, legacy.includes) && AllCompile(e, legacy.excludes)
              && (AnyMatches(e, legacy.includes, image) || (legacy.includes == [] && legacy.excludes != []))
              && !AnyMatches(e, legacy.excludes, image)
  {
    assert [".*"][0] == ".*";
    assert AnyMatches(e, [".*"], image);
  }
}
