/**
 * Startup analysis of plugin dependencies: reference checks, Kahn's algorithm, and the
 * report of a concrete cycle when the algorithm gets stuck.
 */
module DependencyAnalysis {
  import opened Wrappers
  import opened Collections
  import opened Text
  import opened DependencyGraph
  import opened DependencyOrder

  datatype DependencyKind = AnyKind | Server | Executor | Matcher | Provider | Unknown

  datatype DependencySpec = DependencySpec(field: string, targetTag: string, expectedKind: DependencyKind,
                                           expectedPluginType: Option<string>)

  datatype PluginConfig = PluginConfig(tag: Tag, pluginType: string, args: string)

  datatype ReferenceError =
    | SelfReference(tag: Tag, field: string)
    | MissingPlugin(tag: Tag, field: string, target: Tag)
    | WrongKind(tag: Tag, field: string, target: Tag, expected: DependencyKind, actual: DependencyKind)
    | WrongType(tag: Tag, field: string, target: Tag, expectedType: string, actualType: string)

  datatype DependencyError =
    | DuplicateTag(tag: Tag)
    | InvalidReferences(errors: seq<ReferenceError>)
    | CircularDependency(path: seq<Tag>)
    | UnresolvedPlugins(tags: seq<Tag>)

  type Plugins = map<Tag, PluginConfig>

  function Tags(configs: seq<PluginConfig>): seq<Tag> {
    seq(|configs|, i requires 0 <= i < |configs| => configs[i].tag)
  }

  // ---- References ----------------------------------------------------------------------------

  function FieldName(field: string): string {
    if Trim(field) == "" then "<unknown>" else Trim(field)
  }

  predicate IsDependency(config: PluginConfig, dep: DependencySpec, plugins: Plugins) {
    var target := Trim(dep.targetTag);
    target != "" && target != config.tag && target in plugins
  }

  function CheckReference(config: PluginConfig, dep: DependencySpec, plugins: Plugins,
                          getKind: PluginConfig -> DependencyKind): seq<ReferenceError>
  {
    var target, field := Trim(dep.targetTag), FieldName(dep.field);
    if target == "" then []
    else if target == config.tag then [SelfReference(config.tag, field)]
    else if target !in plugins then [MissingPlugin(config.tag, field, target)]
    else
      var actual, actualType := getKind(plugins[target]), plugins[target].pluginType;
      (if dep.expectedKind != AnyKind && dep.expectedKind != actual
       then [WrongKind(config.tag, field, target, dep.expectedKind, actual)] else []) +
      (if dep.expectedPluginType.Some? && dep.expectedPluginType.value != actualType
       then [WrongType(config.tag, field, target, dep.expectedPluginType.value, actualType)] else [])
  }

  function ConfigErrors(config: PluginConfig, deps: seq<DependencySpec>, plugins: Plugins,
                        getKind: PluginConfig -> DependencyKind): seq<ReferenceError>
  {
    if deps == [] then []
    else ConfigErrors(config, deps[..|deps| - 1], plugins, getKind)
         + CheckReference(config, deps[|deps| - 1], plugins, getKind)
  }

  function ReferenceErrors(configs: seq<PluginConfig>, plugins: Plugins,
                           getDeps: PluginConfig -> seq<DependencySpec>,
                           getKind: PluginConfig -> DependencyKind): seq<ReferenceError>
  {
    if configs == [] then []
    else
      var last := configs[|configs| - 1];
      ReferenceErrors(configs[..|configs| - 1], plugins, getDeps, getKind)
      + ConfigErrors(last, getDeps(last), plugins, getKind)
  }

  /** A reference is blank, or names another existing plugin of the expected kind and type. */
  predicate GoodReference(config: PluginConfig, dep: DependencySpec, plugins: Plugins,
                          getKind: PluginConfig -> DependencyKind)
  {
    var target := Trim(dep.targetTag);
    target != "" ==>
      && IsDependency(config, dep, plugins)
      && dep.expectedKind in {AnyKind, getKind(plugins[target])}
      && dep.expectedPluginType in {None, Some(plugins[target].pluginType)}
  }

  lemma CheckMeaning(config: PluginConfig, dep: DependencySpec, plugins: Plugins,
                     getKind: PluginConfig -> DependencyKind)
    ensures CheckReference(config, dep, plugins, getKind) == [] <==> GoodReference(config, dep, plugins, getKind)
  {
    hide Trim;
  }

  lemma {:induction false} ConfigErrorsMeaning(config: PluginConfig, deps: seq<DependencySpec>, plugins: Plugins,
                                               getKind: PluginConfig -> DependencyKind)
    ensures ConfigErrors(config, deps, plugins, getKind) == []
            <==> forall dep | dep in deps :: GoodReference(config, dep, plugins, getKind)
  {
    hide CheckReference, GoodReference;
    if deps != [] {
      CheckMeaning(config, deps[|deps| - 1], plugins, getKind);
      ConfigErrorsMeaning(config, deps[..|deps| - 1], plugins, getKind);
      assert deps == deps[..|deps| - 1] + [deps[|deps| - 1]];
    }
  }

  /** The analysis complains exactly when some reference is bad. */
  lemma {:induction false} ReferenceErrorsMeaning(configs: seq<PluginConfig>, plugins: Plugins,
                                                  getDeps: PluginConfig -> seq<DependencySpec>,
                                                  getKind: PluginConfig -> DependencyKind)
    ensures ReferenceErrors(configs, plugins, getDeps, getKind) == []
            <==> forall c, dep | c in configs && dep in getDeps(c) :: GoodReference(c, dep, plugins, getKind)
  {
    hide ConfigErrors, GoodReference;
    if configs != [] {
      var init, last := configs[..|configs| - 1], configs[|configs| - 1];
      ReferenceErrorsMeaning(init, plugins, getDeps, getKind);
      ConfigErrorsMeaning(last, getDeps(last), plugins, getKind);
      assert configs == init + [last];
    }
  }

  /** Blanks around a target change neither the errors reported for it nor the edge it stands for. */
  lemma PaddingIgnored(config: PluginConfig, dep: DependencySpec, left: string, right: string, plugins: Plugins,
                       getKind: PluginConfig -> DependencyKind)
    requires Blank(left) && Blank(right)
    ensures var padded := dep.(targetTag := left + dep.targetTag + right);
            && CheckReference(config, padded, plugins, getKind) == CheckReference(config, dep, plugins, getKind)
            && Dependencies(config, [padded], plugins) == Dependencies(config, [dep], plugins)
  {
    hide Trim;
    TrimIgnoresPadding(left, dep.targetTag, right);
  }

  // ---- The graph -----------------------------------------------------------------------------

  function PluginMap(configs: seq<PluginConfig>): Plugins {
    if configs == [] then map[]
    else PluginMap(configs[..|configs| - 1])[configs[|configs| - 1].tag := configs[|configs| - 1]]
  }

  function Dependencies(config: PluginConfig, deps: seq<DependencySpec>, plugins: Plugins): set<Tag> {
    set dep | dep in deps && IsDependency(config, dep, plugins) :: Trim(dep.targetTag)
  }

  function GraphOf(plugins: Plugins, getDeps: PluginConfig -> seq<DependencySpec>): Graph {
    map t | t in plugins :: Dependencies(plugins[t], getDeps(plugins[t]), plugins)
  }

  /** The tags that depend on `d`, in configuration order. */
  function Dependents(tags: seq<Tag>, g: Graph, d: Tag): seq<Tag> {
    if tags == [] then []
    else
      var last := tags[|tags| - 1];
      Dependents(tags[..|tags| - 1], g, d) + if Edge(g, last, d) then [last] else []
  }

  lemma TagsAppend(configs: seq<PluginConfig>, c: PluginConfig)
    ensures Tags(configs + [c]) == Tags(configs) + [c.tag]
    ensures PluginMap(configs + [c]) == PluginMap(configs)[c.tag := c]
  {
    assert (configs + [c])[..|configs|] == configs;
  }

  lemma {:induction false} PluginMapMeaning(configs: seq<PluginConfig>)
    ensures PluginMap(configs).Keys == ToSet(Tags(configs))
    ensures forall t | t in PluginMap(configs) :: PluginMap(configs)[t] in configs && PluginMap(configs)[t].tag == t
    ensures Distinct(Tags(configs)) ==>
              forall i | 0 <= i < |configs| ::
                configs[i].tag in PluginMap(configs) && PluginMap(configs)[configs[i].tag] == configs[i]
  {
    if configs != [] {
      var init, last := configs[..|configs| - 1], configs[|configs| - 1];
      PluginMapMeaning(init);
      assert configs == init + [last];
      TagsAppend(init, last);
      ToSetAppend(Tags(init), last.tag);
      DistinctAppend(Tags(init), last.tag);
      if Distinct(Tags(configs)) {
        forall i | 0 <= i < |configs|
          ensures configs[i].tag in PluginMap(configs) && PluginMap(configs)[configs[i].tag] == configs[i]
        {
          if i < |init| {
            assert init[i] == configs[i] && Tags(init)[i] == configs[i].tag;
          }
        }
      }
    }
  }

  lemma GraphWellFormed(configs: seq<PluginConfig>, getDeps: PluginConfig -> seq<DependencySpec>)
    requires Distinct(Tags(configs))
    ensures WellFormed(Tags(configs), GraphOf(PluginMap(configs), getDeps))
  {
    PluginMapMeaning(configs);
  }

  lemma {:induction false} DependentsMeaning(tags: seq<Tag>, n: nat, g: Graph, d: Tag)
    requires Distinct(tags) && n <= |tags|
    ensures forall t :: t in Dependents(tags[..n], g, d) <==> t in tags[..n] && Edge(g, t, d)
    ensures forall i, j | 0 <= i < j < |Dependents(tags[..n], g, d)| ::
              Dependents(tags[..n], g, d)[i] in tags && Dependents(tags[..n], g, d)[j] in tags
              && Position(tags, Dependents(tags[..n], g, d)[i]) < Position(tags, Dependents(tags[..n], g, d)[j])
  {
    if n > 0 {
      DependentsMeaning(tags, n - 1, g, d);
      assert tags[..n] == tags[..n - 1] + [tags[n - 1]];
      assert tags[..n][..n - 1] == tags[..n - 1];
      var before := Dependents(tags[..n - 1], g, d);
      forall i | 0 <= i < |before|
        ensures before[i] in tags && Position(tags, before[i]) < n - 1
      {
        assert before[i] in before && before[i] in tags[..n - 1];
        var m :| 0 <= m < n - 1 && tags[m] == before[i];
      }
      assert Position(tags, tags[n - 1]) == n - 1;
      var after := Dependents(tags[..n], g, d);
      assert after == before + if Edge(g, tags[n - 1], d) then [tags[n - 1]] else [];
      forall i, j | 0 <= i < j < |after|
        ensures after[i] in tags && after[j] in tags && Position(tags, after[i]) < Position(tags, after[j])
      {
        assert after[i] == before[i];
        assert if j < |before| then after[j] == before[j] else after[j] == tags[n - 1];
      }
    }
  }

  lemma DependentsOrder(tags: seq<Tag>, g: Graph, d: Tag, i: nat, j: nat)
    requires Distinct(tags) && i < j < |Dependents(tags, g, d)|
    ensures var listed := Dependents(tags, g, d);
            listed[i] in tags && listed[j] in tags && Position(tags, listed[i]) < Position(tags, listed[j])
  {
    assert tags[..|tags|] == tags;
    DependentsMeaning(tags, |tags|, g, d);
  }

  lemma DependentsAre(tags: seq<Tag>, g: Graph, d: Tag)
    requires Distinct(tags)
    ensures forall t :: t in Dependents(tags, g, d) <==> t in tags && Edge(g, t, d)
    ensures Distinct(Dependents(tags, g, d))
  {
    assert tags[..|tags|] == tags;
    DependentsMeaning(tags, |tags|, g, d);
  }

  /** The configuration at `i` is the first whose tag was already used. */
  ghost predicate FirstRepeat(configs: seq<PluginConfig>, i: nat) {
    i < |configs| && Distinct(Tags(configs[..i])) && configs[i].tag in Tags(configs[..i])
  }

  method BuildPluginMap(configs: seq<PluginConfig>) returns (r: Result<Plugins, DependencyError>)
    ensures r.Success? ==> Distinct(Tags(configs)) && r.value == PluginMap(configs)
    ensures r.Failure? ==> exists i: nat :: FirstRepeat(configs, i) && r.error == DuplicateTag(configs[i].tag)
  {
    var plugins: Plugins := map[];
    var i := 0;
    while i < |configs|
      invariant 0 <= i <= |configs|
      invariant plugins == PluginMap(configs[..i]) && Distinct(Tags(configs[..i]))
    {
      PluginMapMeaning(configs[..i]);
      if configs[i].tag in plugins {
        assert FirstRepeat(configs, i);
        return Failure(DuplicateTag(configs[i].tag));
      }
      assert configs[..i + 1] == configs[..i] + [configs[i]];
      TagsAppend(configs[..i], configs[i]);
      DistinctAppend(Tags(configs[..i]), configs[i].tag);
      plugins := plugins[configs[i].tag := configs[i]];
      i := i + 1;
    }
    assert configs[..i] == configs;
    r := Success(plugins);
  }

  lemma DependenciesStep(config: PluginConfig, deps: seq<DependencySpec>, dep: DependencySpec, plugins: Plugins)
    ensures Dependencies(config, deps + [dep], plugins)
            == Dependencies(config, deps, plugins) +
               if IsDependency(config, dep, plugins) then {Trim(dep.targetTag)} else {}
  {
    assert forall d :: d in deps + [dep] <==> d in deps || d == dep;
  }

  lemma NoDependencies(config: PluginConfig, plugins: Plugins)
    ensures Dependencies(config, [], plugins) == {}
  {
  }

  method ScanReferences(config: PluginConfig, deps: seq<DependencySpec>, plugins: Plugins,
                        getKind: PluginConfig -> DependencyKind)
    returns (errors: seq<ReferenceError>, uniqueDeps: set<Tag>)
    ensures errors == ConfigErrors(config, deps, plugins, getKind)
    ensures uniqueDeps == Dependencies(config, deps, plugins)
  {
    hide Trim, Dependencies;
    errors, uniqueDeps := [], {};
    var i := 0;
    assert uniqueDeps == Dependencies(config, deps[..0], plugins) by { NoDependencies(config, plugins); }
    while i < |deps|
      invariant 0 <= i <= |deps|
      invariant errors == ConfigErrors(config, deps[..i], plugins, getKind)
      invariant uniqueDeps == Dependencies(config, deps[..i], plugins)
    {
      var dep := deps[i];
      assert deps[..i + 1] == deps[..i] + [dep] && deps[..i + 1][..i] == deps[..i];
      DependenciesStep(config, deps[..i], dep, plugins);
      i := i + 1;
      var target, field := Trim(dep.targetTag), FieldName(dep.field);
      if target == "" {
        continue;
      }
      if target == config.tag {
        errors := errors + [SelfReference(config.tag, field)];
        continue;
      }
      if target !in plugins {
        errors := errors + [MissingPlugin(config.tag, field, target)];
        continue;
      }
      var actual := getKind(plugins[target]);
      var found := [];
      if dep.expectedKind != AnyKind && dep.expectedKind != actual {
        found := found + [WrongKind(config.tag, field, target, dep.expectedKind, actual)];
      }
      if dep.expectedPluginType.Some? && plugins[target].pluginType != dep.expectedPluginType.value {
        var expectedType, actualType := dep.expectedPluginType.value, plugins[target].pluginType;
        found := found + [WrongType(config.tag, field, target, expectedType, actualType)];
      }
      errors := errors + found;
      uniqueDeps := uniqueDeps + {target};
    }
    assert deps[..i] == deps;
  }

  /** The elements of a set, in whatever order the container yields them. */
  method Enumerate(items: set<Tag>) returns (listed: seq<Tag>)
    ensures Distinct(listed) && ToSet(listed) == items
  {
    listed := [];
    var left := items;
    while left != {}
      invariant left <= items && Distinct(listed) && ToSet(listed) == items - left
      decreases left
    {
      var item :| item in left;
      left := left - {item};
      ToSetAppend(listed, item);
      listed := listed + [item];
    }
  }

  method AddReverseEdges(reverse: map<Tag, seq<Tag>>, uniqueDeps: set<Tag>, tag: Tag)
    returns (reverse': map<Tag, seq<Tag>>)
    requires uniqueDeps <= reverse.Keys
    ensures reverse'.Keys == reverse.Keys
    ensures forall d | d in reverse :: reverse'[d] == reverse[d] + if d in uniqueDeps then [tag] else []
  {
    reverse' := reverse;
    var listed := Enumerate(uniqueDeps);
    var i := 0;
    while i < |listed|
      invariant 0 <= i <= |listed|
      invariant reverse'.Keys == reverse.Keys
      invariant forall d | d in reverse :: reverse'[d] == reverse[d] + if d in listed[..i] then [tag] else []
    {
      var d := listed[i];
      assert d in ToSet(listed);
      assert listed[..i + 1] == listed[..i] + [d];
      reverse' := reverse'[d := reverse'[d] + [tag]];
      i := i + 1;
    }
    assert listed[..i] == listed;
    assert forall d :: d in ToSet(listed) <==> d in listed;
  }

  /** What the three tables hold for tag `t` once the first `i` configurations are read. */
  ghost predicate TableRow(tags: seq<Tag>, g: Graph, i: nat, forward: map<Tag, seq<Tag>>, reverse: map<Tag, seq<Tag>>,
                           inDegree: map<Tag, nat>, t: Tag)
    requires t in g && t in forward && t in reverse && t in inDegree && i <= |tags|
  {
    && reverse[t] == Dependents(tags[..i], g, t)
    && ToSet(forward[t]) == (if t in tags[..i] then g[t] else {})
    && (t in tags[..i] ==> inDegree[t] == |g[t]|)
  }

  ghost predicate Tables(tags: seq<Tag>, g: Graph, i: nat, forward: map<Tag, seq<Tag>>, reverse: map<Tag, seq<Tag>>,
                         inDegree: map<Tag, nat>)
    requires i <= |tags|
  {
    && forward.Keys == reverse.Keys == inDegree.Keys == g.Keys
    && forall t {:trigger TableRow(tags, g, i, forward, reverse, inDegree, t)} | t in g ::
         TableRow(tags, g, i, forward, reverse, inDegree, t)
  }

  lemma EmptyTables(tags: seq<Tag>, g: Graph, forward: map<Tag, seq<Tag>>, reverse: map<Tag, seq<Tag>>,
                    inDegree: map<Tag, nat>)
    requires forward.Keys == reverse.Keys == inDegree.Keys == g.Keys
    requires forall t | t in g :: forward[t] == [] && reverse[t] == []
    ensures Tables(tags, g, 0, forward, reverse, inDegree)
  {
  }

  lemma RowStep(tags: seq<Tag>, g: Graph, i: nat, t: Tag,
                forward: map<Tag, seq<Tag>>, reverse: map<Tag, seq<Tag>>, inDegree: map<Tag, nat>,
                forward': map<Tag, seq<Tag>>, reverse': map<Tag, seq<Tag>>, inDegree': map<Tag, nat>)
    requires Distinct(tags) && i < |tags| && tags[i] in g && t in g
    requires t in forward && t in reverse && t in inDegree && t in forward' && t in reverse' && t in inDegree'
    requires TableRow(tags, g, i, forward, reverse, inDegree, t)
    requires reverse'[t] == reverse[t] + if t in g[tags[i]] then [tags[i]] else []
    requires t != tags[i] ==> forward'[t] == forward[t] && inDegree'[t] == inDegree[t]
    requires t == tags[i] ==> ToSet(forward'[t]) == ToSet(forward[t]) + g[t] && inDegree'[t] == |g[t]|
    ensures TableRow(tags, g, i + 1, forward', reverse', inDegree', t)
  {
    assert tags[..i + 1] == tags[..i] + [tags[i]] && tags[..i + 1][..i] == tags[..i];
    assert t in tags[..i + 1] <==> t in tags[..i] || t == tags[i];
  }

  lemma TablesStep(tags: seq<Tag>, g: Graph, i: nat, listed: seq<Tag>,
                   forward: map<Tag, seq<Tag>>, reverse: map<Tag, seq<Tag>>, inDegree: map<Tag, nat>,
                   reverse': map<Tag, seq<Tag>>)
    requires Distinct(tags) && i < |tags| && tags[i] in g && ToSet(listed) == g[tags[i]]
    requires Tables(tags, g, i, forward, reverse, inDegree)
    requires reverse'.Keys == reverse.Keys
    requires forall d | d in reverse :: reverse'[d] == reverse[d] + if d in g[tags[i]] then [tags[i]] else []
    ensures Tables(tags, g, i + 1, forward[tags[i] := forward[tags[i]] + listed], reverse',
                   inDegree[tags[i] := |g[tags[i]]|])
  {
    hide Distinct, TableRow;
    var forward', inDegree' := forward[tags[i] := forward[tags[i]] + listed], inDegree[tags[i] := |g[tags[i]]|];
    ToSetConcat(forward[tags[i]], listed);
    forall t | t in g
      ensures TableRow(tags, g, i + 1, forward', reverse', inDegree', t)
    {
      assert TableRow(tags, g, i, forward, reverse, inDegree, t);
      RowStep(tags, g, i, t, forward, reverse, inDegree, forward', reverse', inDegree');
    }
  }

  /** Reading one more configuration adds its row and one reverse edge per dependency. */
  method AddConfig(ghost tags: seq<Tag>, ghost g: Graph, ghost i: nat, tag: Tag, uniqueDeps: set<Tag>,
                   forward: map<Tag, seq<Tag>>, reverse: map<Tag, seq<Tag>>, inDegree: map<Tag, nat>)
    returns (forward': map<Tag, seq<Tag>>, reverse': map<Tag, seq<Tag>>, inDegree': map<Tag, nat>)
    requires Distinct(tags) && i < |tags| && tags[i] == tag && tag in g
    requires uniqueDeps == g[tag] && g[tag] <= g.Keys
    requires Tables(tags, g, i, forward, reverse, inDegree)
    ensures Tables(tags, g, i + 1, forward', reverse', inDegree')
  {
    inDegree' := inDegree[tag := |uniqueDeps|];
    var listed := Enumerate(uniqueDeps);
    forward' := forward[tag := forward[tag] + listed];
    reverse' := AddReverseEdges(reverse, uniqueDeps, tag);
    TablesStep(tags, g, i, listed, forward, reverse, inDegree, reverse');
  }

  lemma GraphRows(configs: seq<PluginConfig>, getDeps: PluginConfig -> seq<DependencySpec>)
    ensures GraphOf(PluginMap(configs), getDeps).Keys == PluginMap(configs).Keys
  {
  }

  /** The row of one configuration in the graph. */
  lemma GraphRow(configs: seq<PluginConfig>, getDeps: PluginConfig -> seq<DependencySpec>, i: nat)
    requires Distinct(Tags(configs)) && i < |configs|
    ensures var g, plugins := GraphOf(PluginMap(configs), getDeps), PluginMap(configs);
            && configs[i].tag in g && g[configs[i].tag] == Dependencies(configs[i], getDeps(configs[i]), plugins)
            && g[configs[i].tag] <= g.Keys
  {
    hide PluginMap;
    PluginMapMeaning(configs);
    GraphWellFormed(configs, getDeps);
  }

  method BuildGraph(configs: seq<PluginConfig>, plugins: Plugins, getDeps: PluginConfig -> seq<DependencySpec>,
                    getKind: PluginConfig -> DependencyKind)
    returns (errors: seq<ReferenceError>, forward: map<Tag, seq<Tag>>, reverse: map<Tag, seq<Tag>>,
             inDegree: map<Tag, nat>)
    requires Distinct(Tags(configs)) && plugins == PluginMap(configs)
    ensures errors == ReferenceErrors(configs, plugins, getDeps, getKind)
    ensures Tables(Tags(configs), GraphOf(plugins, getDeps), |configs|, forward, reverse, inDegree)
  {
    hide Trim, Dependencies, Tables, GraphOf, PluginMap, Distinct;
    ghost var g, tags := GraphOf(plugins, getDeps), Tags(configs);
    GraphRows(configs, getDeps);
    errors := [];
    forward, reverse, inDegree := map t | t in plugins :: [], map t | t in plugins :: [], map t | t in plugins :: 0;
    var i := 0;
    EmptyTables(tags, g, forward, reverse, inDegree);
    while i < |configs|
      invariant 0 <= i <= |configs|
      invariant errors == ReferenceErrors(configs[..i], plugins, getDeps, getKind)
      invariant Tables(tags, g, i, forward, reverse, inDegree)
    {
      var config := configs[i];
      assert configs[..i + 1][..i] == configs[..i];
      GraphRow(configs, getDeps, i);
      var found, uniqueDeps := ScanReferences(config, getDeps(config), plugins, getKind);
      errors := errors + found;
      forward, reverse, inDegree := AddConfig(tags, g, i, config.tag, uniqueDeps, forward, reverse, inDegree);
      i := i + 1;
    }
    assert configs[..i] == configs;
  }

  /** Complete tables describe the graph. */
  lemma TablesMeaning(tags: seq<Tag>, g: Graph, forward: map<Tag, seq<Tag>>, reverse: map<Tag, seq<Tag>>,
                      inDegree: map<Tag, nat>)
    requires WellFormed(tags, g) && Tables(tags, g, |tags|, forward, reverse, inDegree)
    ensures Edges(forward) == g
    ensures forall t | t in g :: reverse[t] == Dependents(tags, g, t) && inDegree[t] == |g[t]|
  {
    assert tags[..|tags|] == tags;
    forall t | t in g
      ensures reverse[t] == Dependents(tags, g, t) && inDegree[t] == |g[t]| && ToSet(forward[t]) == g[t]
    {
      assert TableRow(tags, g, |tags|, forward, reverse, inDegree, t);
      assert t in ToSet(tags);
    }
  }

  // ---- Kahn's algorithm ----------------------------------------------------------------------

  /** Tags in their final positions so far. */
  ghost predicate Placed(tags: seq<Tag>, g: Graph, placed: seq<Tag>)
    requires WellFormed(tags, g)
  {
    && ToSet(placed) <= g.Keys
    && Ranked(g, g.Keys, placed)
    && Ordered(tags, g, placed)
  }

  /** The in-degree of `t` counts its dependencies outside `done`; it is placed when that is zero. */
  ghost predicate Counted(g: Graph, placed: seq<Tag>, done: set<Tag>, inDegree: map<Tag, nat>, t: Tag)
    requires t in g && t in inDegree
  {
    && inDegree[t] == |g[t] - done|
    && (t in placed <==> inDegree[t] == 0)
  }

  /** Between two rounds. */
  ghost predicate KahnState(tags: seq<Tag>, g: Graph, placed: seq<Tag>, done: set<Tag>, inDegree: map<Tag, nat>)
    requires WellFormed(tags, g)
  {
    && Placed(tags, g, placed)
    && inDegree.Keys == g.Keys
    && forall t {:trigger Counted(g, placed, done, inDegree, t)} | t in g :: Counted(g, placed, done, inDegree, t)
  }

  /** Within the round of `tag`, the `pending` dependents do not count it as done yet. */
  ghost predicate CountedInRound(g: Graph, placed: seq<Tag>, done: set<Tag>, tag: Tag, pending: set<Tag>,
                                 inDegree: map<Tag, nat>, t: Tag)
    requires t in g && t in inDegree
  {
    Counted(g, placed, if t in pending then done else done + {tag}, inDegree, t)
  }

  ghost predicate RoundState(tags: seq<Tag>, g: Graph, placed: seq<Tag>, done: set<Tag>, tag: Tag, pending: set<Tag>,
                             inDegree: map<Tag, nat>)
    requires WellFormed(tags, g)
  {
    && Placed(tags, g, placed)
    && inDegree.Keys == g.Keys
    && forall t {:trigger CountedInRound(g, placed, done, tag, pending, inDegree, t)} | t in g ::
         CountedInRound(g, placed, done, tag, pending, inDegree, t)
  }

  // -- Placing a tag

  lemma LastDepAtMost(g: Graph, placed: seq<Tag>, longer: seq<Tag>, p: nat, e: Tag)
    requires Distinct(longer) && placed <= longer && p < |placed|
    requires e in g && g[e] <= ToSet(placed[..p + 1])
    ensures LastDep(longer, g[e]) == LastDep(placed, g[e]) <= p
    ensures LastDep(placed, g[e]) == p <==> placed[p] in g[e]
  {
    assert longer[..p + 1] == placed[..p + 1];
    assert Distinct(placed);
    LastDepOfPrefix(longer, p + 1, g[e]);
    LastDepOfPrefix(placed, p + 1, g[e]);
  }

  /** A tag released by the dependency at `p` may be placed last. */
  lemma PlaceNext(tags: seq<Tag>, g: Graph, placed: seq<Tag>, p: nat, x: Tag)
    requires WellFormed(tags, g) && Placed(tags, g, placed)
    requires x in g && x !in placed && p < |placed|
    requires placed[p] in g[x] && g[x] <= ToSet(placed[..p + 1])
    requires forall e {:trigger Released(tags, g, placed, p, x, e)} | e in placed :: Released(tags, g, placed, p, x, e)
    ensures Placed(tags, g, placed + [x])
  {
    var longer := placed + [x];
    assert forall t | t in placed[..p + 1] :: t in placed;
    RankNext(g, g.Keys, placed, x);
    LastDepAtMost(g, placed, longer, p, x);
    forall i, j | 0 <= i < j < |longer|
      ensures InTurn(tags, g, longer, i, j)
    {
      assert placed[i] in placed && Released(tags, g, placed, p, x, placed[i]);
      LastDepAtMost(g, placed, longer, p, placed[i]);
      if j < |placed| {
        assert placed[j] in placed && Released(tags, g, placed, p, x, placed[j]);
        LastDepAtMost(g, placed, longer, p, placed[j]);
        assert InTurn(tags, g, placed, i, j);
      }
    }
    assert ToSet(longer) == ToSet(placed) + {x};
  }

  /** `e` needs nothing after `p`, and if it needs `p` it comes before `x` in the configuration. */
  ghost predicate Released(tags: seq<Tag>, g: Graph, placed: seq<Tag>, p: nat, x: Tag, e: Tag)
    requires p < |placed| && WellFormed(tags, g) && x in g
  {
    && e in g && g[e] <= ToSet(placed[..p + 1])
    && (placed[p] in g[e] ==> Position(tags, e) < Position(tags, x))
  }

  lemma RootsPlaced(tags: seq<Tag>, g: Graph, roots: seq<Tag>)
    requires WellFormed(tags, g) && Ascending(roots)
    requires forall t | t in roots :: t in g && g[t] == {}
    ensures Placed(tags, g, roots)
  {
    AscendingDistinct(roots);
    forall i, j | 0 <= i < j < |roots|
      ensures InTurn(tags, g, roots, i, j)
    {
      assert roots[i] in roots && roots[j] in roots;
    }
    forall k | 0 <= k < |roots|
      ensures LeadsBack(g, g.Keys, roots, k)
    {
      assert roots[k] in roots;
    }
  }

  // -- Rounds

  lemma DegreeDrops(deps: set<Tag>, done: set<Tag>, tag: Tag)
    requires tag !in done
    ensures |deps - (done + {tag})| == |deps - done| - if tag in deps then 1 else 0
    ensures |deps - done| == 0 <==> deps <= done
  {
    if tag in deps {
      assert deps - done == (deps - (done + {tag})) + {tag};
    } else {
      assert deps - done == deps - (done + {tag});
    }
    assert deps - done == {} <==> deps <= done;
  }

  lemma StartRound(tags: seq<Tag>, g: Graph, placed: seq<Tag>, done: set<Tag>, tag: Tag, inDegree: map<Tag, nat>)
    requires WellFormed(tags, g) && KahnState(tags, g, placed, done, inDegree)
    requires tag !in done
    ensures RoundState(tags, g, placed, done, tag, ToSet(Dependents(tags, g, tag)), inDegree)
  {
    DependentsMeaning(tags, |tags|, g, tag);
    assert tags[..|tags|] == tags;
    var pending := ToSet(Dependents(tags, g, tag));
    forall t | t in g
      ensures CountedInRound(g, placed, done, tag, pending, inDegree, t)
    {
      assert Counted(g, placed, done, inDegree, t);
      assert t in ToSet(tags);
      assert t in pending <==> tag in g[t];
      DegreeDrops(g[t], done, tag);
    }
  }

  lemma EndRound(tags: seq<Tag>, g: Graph, placed: seq<Tag>, done: set<Tag>, tag: Tag, inDegree: map<Tag, nat>)
    requires WellFormed(tags, g) && RoundState(tags, g, placed, done, tag, {}, inDegree)
    ensures KahnState(tags, g, placed, done + {tag}, inDegree)
  {
    forall t | t in g
      ensures Counted(g, placed, done + {tag}, inDegree, t)
    {
      assert CountedInRound(g, placed, done, tag, {}, inDegree, t);
    }
  }

  /** What is placed by now was notified before dependent `j`, or does not depend on the tag at `p`. */
  lemma NotifiedEarlier(tags: seq<Tag>, g: Graph, placed: seq<Tag>, p: nat, inDegree: map<Tag, nat>, j: nat, e: Tag)
    requires WellFormed(tags, g) && p < |placed| && placed[p] in g && placed[p] !in placed[..p]
    requires j < |Dependents(tags, g, placed[p])| && Dependents(tags, g, placed[p])[j] in g
    requires e in g && e in placed && e in inDegree
    requires CountedInRound(g, placed, ToSet(placed[..p]), placed[p],
                            ToSet(Dependents(tags, g, placed[p])[j..]), inDegree, e)
    ensures Released(tags, g, placed, p, Dependents(tags, g, placed[p])[j], e)
  {
    hide Dependents, Distinct;
    var tag, done := placed[p], ToSet(placed[..p]);
    var dependents := Dependents(tags, g, tag);
    DependentsAre(tags, g, tag);
    DegreeDrops(g[e], done, tag);
    assert g[e] - (done + {tag}) == {} ==> g[e] <= done + {tag};
    assert placed[..p + 1] == placed[..p] + [tag];
    ToSetAppend(placed[..p], tag);
    if tag in g[e] {
      assert e in ToSet(tags) && Edge(g, e, tag);
      var i :| 0 <= i < |dependents| && dependents[i] == e;
      assert forall k | j <= k < |dependents| :: dependents[j..][k - j] == dependents[k];
      DependentsOrder(tags, g, tag, i, j);
    }
  }

  /** One dependent's count after it was notified. */
  lemma CountNotified(g: Graph, placed: seq<Tag>, done: set<Tag>, tag: Tag, pending: set<Tag>, inDegree: map<Tag, nat>,
                      x: Tag)
    requires x in g && x in inDegree && x in pending && tag in g[x] && tag !in done
    requires CountedInRound(g, placed, done, tag, pending, inDegree, x)
    ensures inDegree[x] > 0 && x !in placed
    ensures inDegree[x] == 1 ==> g[x] <= done + {tag}
    ensures CountedInRound(g, if inDegree[x] == 1 then placed + [x] else placed, done, tag, pending - {x},
                           inDegree[x := inDegree[x] - 1], x)
  {
    DegreeDrops(g[x], done, tag);
    assert |g[x] - (done + {tag})| == inDegree[x] - 1;
    assert g[x] - (done + {tag}) == {} ==> g[x] <= done + {tag};
  }

  lemma PendingDependent(tags: seq<Tag>, g: Graph, tag: Tag, j: nat)
    requires WellFormed(tags, g) && j < |Dependents(tags, g, tag)|
    ensures var dependents := Dependents(tags, g, tag);
            && dependents[j] in g && tag in g[dependents[j]]
            && dependents[j] in dependents[j..]
            && ToSet(dependents[j + 1..]) == ToSet(dependents[j..]) - {dependents[j]}
  {
    var dependents := Dependents(tags, g, tag);
    DependentsAre(tags, g, tag);
    assert dependents[j] in dependents;
    assert dependents[j..] == [dependents[j]] + dependents[j + 1..];
    assert dependents[j] !in dependents[j + 1..];
  }

  /** Notifying dependent `j` lowers its degree by one and places it when the degree reaches zero. */
  lemma NotifyOne(tags: seq<Tag>, g: Graph, placed: seq<Tag>, p: nat, inDegree: map<Tag, nat>, j: nat)
    requires WellFormed(tags, g) && p < |placed| && placed[p] in g && placed[p] !in placed[..p]
    requires j < |Dependents(tags, g, placed[p])|
    requires RoundState(tags, g, placed, ToSet(placed[..p]), placed[p],
                        ToSet(Dependents(tags, g, placed[p])[j..]), inDegree)
    ensures var x := Dependents(tags, g, placed[p])[j];
            && x in g && inDegree[x] > 0
            && RoundState(tags, g, if inDegree[x] == 1 then placed + [x] else placed, ToSet(placed[..p]), placed[p],
                          ToSet(Dependents(tags, g, placed[p])[j + 1..]), inDegree[x := inDegree[x] - 1])
  {
    var tag, done := placed[p], ToSet(placed[..p]);
    var x, pending := Dependents(tags, g, tag)[j], ToSet(Dependents(tags, g, tag)[j..]);
    PendingDependent(tags, g, tag, j);
    CountAll(g, placed, done, tag, pending, inDegree, x);
    if inDegree[x] == 1 {
      PlaceNotified(tags, g, placed, p, inDegree, j);
    }
  }

  lemma CountAll(g: Graph, placed: seq<Tag>, done: set<Tag>, tag: Tag, pending: set<Tag>, inDegree: map<Tag, nat>,
                 x: Tag)
    requires inDegree.Keys == g.Keys && x in g && x in pending && tag in g[x] && tag !in done
    requires forall t {:trigger CountedInRound(g, placed, done, tag, pending, inDegree, t)} | t in g ::
               CountedInRound(g, placed, done, tag, pending, inDegree, t)
    ensures inDegree[x] > 0 && x !in placed
    ensures inDegree[x] == 1 ==> g[x] <= done + {tag}
    ensures var placed' := if inDegree[x] == 1 then placed + [x] else placed;
            var inDegree' := inDegree[x := inDegree[x] - 1];
            && inDegree'.Keys == g.Keys
            && forall t {:trigger CountedInRound(g, placed', done, tag, pending - {x}, inDegree', t)} | t in g ::
                 CountedInRound(g, placed', done, tag, pending - {x}, inDegree', t)
  {
    assert CountedInRound(g, placed, done, tag, pending, inDegree, x);
    CountNotified(g, placed, done, tag, pending, inDegree, x);
    var placed' := if inDegree[x] == 1 then placed + [x] else placed;
    var inDegree' := inDegree[x := inDegree[x] - 1];
    forall t | t in g
      ensures CountedInRound(g, placed', done, tag, pending - {x}, inDegree', t)
    {
      assert CountedInRound(g, placed, done, tag, pending, inDegree, t);
    }
  }

  lemma PlaceNotified(tags: seq<Tag>, g: Graph, placed: seq<Tag>, p: nat, inDegree: map<Tag, nat>, j: nat)
    requires WellFormed(tags, g) && p < |placed| && placed[p] in g && placed[p] !in placed[..p]
    requires j < |Dependents(tags, g, placed[p])|
    requires RoundState(tags, g, placed, ToSet(placed[..p]), placed[p],
                        ToSet(Dependents(tags, g, placed[p])[j..]), inDegree)
    requires var x := Dependents(tags, g, placed[p])[j];
             x in g && x !in placed && placed[p] in g[x] && g[x] <= ToSet(placed[..p]) + {placed[p]}
    ensures Placed(tags, g, placed + [Dependents(tags, g, placed[p])[j]])
  {
    var x := Dependents(tags, g, placed[p])[j];
    assert placed[..p + 1] == placed[..p] + [placed[p]];
    ToSetAppend(placed[..p], placed[p]);
    forall e | e in placed
      ensures Released(tags, g, placed, p, x, e)
    {
      assert e in ToSet(placed);
      assert CountedInRound(g, placed, ToSet(placed[..p]), placed[p],
                            ToSet(Dependents(tags, g, placed[p])[j..]), inDegree, e);
      NotifiedEarlier(tags, g, placed, p, inDegree, j, e);
    }
    PlaceNext(tags, g, placed, p, x);
  }

  // -- When the queue runs dry

  ghost function Unsorted(g: Graph, inDegree: map<Tag, nat>): set<Tag>
    requires inDegree.Keys == g.Keys
  {
    set t | t in g && inDegree[t] > 0
  }

  /** A tag is left over exactly when it reaches a cycle, and that cycle is among the tags left over. */
  lemma LeftOverReachesCycle(tags: seq<Tag>, g: Graph, done: seq<Tag>, inDegree: map<Tag, nat>, t: Tag)
    requires WellFormed(tags, g) && KahnState(tags, g, done, ToSet(done), inDegree) && t in g
    ensures inDegree[t] > 0 <==> ReachesCycle(g, g.Keys, t)
    ensures inDegree[t] > 0 ==> ReachesCycle(g, Unsorted(g, inDegree), t)
    ensures t in done <==> inDegree[t] == 0
  {
    hide WellFormed, Ranked, Ordered, ReachesCycle, NoDeadEnd;
    assert Counted(g, done, ToSet(done), inDegree, t);
    if inDegree[t] > 0 {
      LeftOverLeadsOn(tags, g, done, inDegree);
      NoDeadEndReachesCycle(g, Unsorted(g, inDegree), t);
      WiderWalk(g, Unsorted(g, inDegree), g.Keys, t);
    } else {
      RankedReachesNoCycle(g, g.Keys, done, t);
    }
  }

  /** Everything is sorted exactly when no tag reaches a cycle, and then the order is complete. */
  lemma Stuck(tags: seq<Tag>, g: Graph, done: seq<Tag>, inDegree: map<Tag, nat>)
    requires WellFormed(tags, g) && KahnState(tags, g, done, ToSet(done), inDegree)
    ensures forall t | t in Unsorted(g, inDegree) :: ReachesCycle(g, Unsorted(g, inDegree), t)
    ensures |done| == |g.Keys| ==> InitOrder(tags, g, done) && forall t | t in g :: !ReachesCycle(g, g.Keys, t)
    ensures |done| != |g.Keys| ==> exists t | t in g :: inDegree[t] > 0
  {
    hide WellFormed, Ordered, ReachesCycle, Counted, LeadsBack;
    forall t | t in g
      ensures inDegree[t] > 0 <==> ReachesCycle(g, g.Keys, t)
      ensures inDegree[t] > 0 ==> ReachesCycle(g, Unsorted(g, inDegree), t)
      ensures t in done <==> inDegree[t] == 0
    {
      LeftOverReachesCycle(tags, g, done, inDegree, t);
    }
    DistinctCardinality(done);
    SubsetCardinality(ToSet(done), g.Keys);
    if |done| != |g.Keys| {
      assert g.Keys != ToSet(done);
      var t :| t in g.Keys && t !in ToSet(done);
    }
  }

  lemma LeftOverLeadsOn(tags: seq<Tag>, g: Graph, done: seq<Tag>, inDegree: map<Tag, nat>)
    requires WellFormed(tags, g) && KahnState(tags, g, done, ToSet(done), inDegree)
    ensures NoDeadEnd(g, Unsorted(g, inDegree))
  {
    var remaining := Unsorted(g, inDegree);
    forall t {:trigger HasSuccessor(g, remaining, t)} | t in remaining
      ensures HasSuccessor(g, remaining, t)
    {
      assert Counted(g, done, ToSet(done), inDegree, t);
      assert g[t] - ToSet(done) != {};
      var to :| to in g[t] - ToSet(done);
      assert Counted(g, done, ToSet(done), inDegree, to);
      assert Edge(g, t, to);
    }
  }

  /** Notify every dependent of the tag just sorted. */
  method NotifyDependents(ghost tags: seq<Tag>, ghost g: Graph, sortedTags: seq<Tag>, queue: seq<Tag>,
                          dependents: seq<Tag>, inDegree: map<Tag, nat>)
    returns (queue': seq<Tag>, inDegree': map<Tag, nat>)
    requires WellFormed(tags, g) && sortedTags != []
    requires ghost var p := |sortedTags| - 1;
             && sortedTags[p] in g && sortedTags[p] !in sortedTags[..p]
             && dependents == Dependents(tags, g, sortedTags[p])
             && RoundState(tags, g, sortedTags + queue, ToSet(sortedTags[..p]), sortedTags[p],
                           ToSet(dependents), inDegree)
    ensures KahnState(tags, g, sortedTags + queue', ToSet(sortedTags), inDegree')
  {
    hide Placed, WellFormed, Dependents, CountedInRound, Counted;
    ghost var p := |sortedTags| - 1;
    ghost var tag, done := sortedTags[p], ToSet(sortedTags[..p]);
    queue', inDegree' := queue, inDegree;
    var j := 0;
    assert dependents[0..] == dependents;
    while j < |dependents|
      invariant 0 <= j <= |dependents|
      invariant RoundState(tags, g, sortedTags + queue', done, tag, ToSet(dependents[j..]), inDegree')
    {
      ghost var placed := sortedTags + queue';
      assert placed[..p] == sortedTags[..p] && placed[p] == tag;
      NotifyOne(tags, g, placed, p, inDegree', j);
      var dependent := dependents[j];
      inDegree' := inDegree'[dependent := inDegree'[dependent] - 1];
      if inDegree'[dependent] == 0 {
        queue' := queue' + [dependent];
        assert sortedTags + queue' == placed + [dependent];
      }
      j := j + 1;
    }
    assert ToSet(dependents[j..]) == {};
    EndRound(tags, g, sortedTags + queue', done, tag, inDegree');
    assert sortedTags == sortedTags[..p] + [tag];
    ToSetAppend(sortedTags[..p], tag);
  }

  method Kahn(ghost tags: seq<Tag>, ghost g: Graph, reverse: map<Tag, seq<Tag>>, inDegree: map<Tag, nat>)
    returns (sortedTags: seq<Tag>, inDegree': map<Tag, nat>)
    requires WellFormed(tags, g)
    requires reverse.Keys == g.Keys && forall d | d in g :: reverse[d] == Dependents(tags, g, d)
    requires inDegree.Keys == g.Keys && forall t | t in g :: inDegree[t] == |g[t]|
    ensures KahnState(tags, g, sortedTags, ToSet(sortedTags), inDegree')
  {
    hide Placed, WellFormed, Dependents, CountedInRound, Counted;
    inDegree' := inDegree;
    var queue := Sort(set t | t in inDegree && inDegree[t] == 0);
    sortedTags := [];
    StartKahn(tags, g, inDegree, queue);
    assert [] + queue == queue && ToSet(sortedTags) == {};
    while queue != []
      invariant KahnState(tags, g, sortedTags + queue, ToSet(sortedTags), inDegree')
      decreases |g.Keys| - |sortedTags|
    {
      var tag, rest := queue[0], queue[1..];
      RoundsBounded(tags, g, sortedTags, queue);
      StartRound(tags, g, sortedTags + queue, ToSet(sortedTags), tag, inDegree');
      assert sortedTags + queue == sortedTags + [tag] + rest;
      assert (sortedTags + [tag])[..|sortedTags|] == sortedTags;
      sortedTags := sortedTags + [tag];
      queue, inDegree' := NotifyDependents(tags, g, sortedTags, rest, reverse[tag], inDegree');
    }
    assert sortedTags + [] == sortedTags;
  }

  lemma StartKahn(tags: seq<Tag>, g: Graph, inDegree: map<Tag, nat>, roots: seq<Tag>)
    requires WellFormed(tags, g) && inDegree.Keys == g.Keys && forall t | t in g :: inDegree[t] == |g[t]|
    requires Ascending(roots) && ToSet(roots) == set t | t in inDegree && inDegree[t] == 0
    ensures KahnState(tags, g, roots, {}, inDegree)
  {
    assert forall t :: t in ToSet(roots) <==> t in roots;
    RootsPlaced(tags, g, roots);
    forall t | t in g
      ensures Counted(g, roots, {}, inDegree, t)
    {
      assert g[t] - {} == g[t];
    }
  }

  lemma RoundsBounded(tags: seq<Tag>, g: Graph, done: seq<Tag>, queue: seq<Tag>)
    requires WellFormed(tags, g) && Placed(tags, g, done + queue) && queue != []
    ensures |done| < |g.Keys| && queue[0] !in done && queue[0] in g
  {
    var placed := done + queue;
    DistinctCardinality(placed);
    SubsetCardinality(ToSet(placed), g.Keys);
    assert placed[|done|] == queue[0] && queue[0] in ToSet(placed);
    assert forall k | 0 <= k < |done| :: placed[k] == done[k];
  }

  // ---- The analysis --------------------------------------------------------------------------

  /** Repeated tags are reported first, then all bad references, then the order or a cycle. */
  ghost predicate AnalysisResult(configs: seq<PluginConfig>, getDeps: PluginConfig -> seq<DependencySpec>,
                                 getKind: PluginConfig -> DependencyKind, r: Result<seq<Tag>, DependencyError>)
  {
    var plugins := PluginMap(configs);
    var errors := ReferenceErrors(configs, plugins, getDeps, getKind);
    if !Distinct(Tags(configs)) then
      exists i: nat :: FirstRepeat(configs, i) && r == Failure(DuplicateTag(configs[i].tag))
    else if errors != [] then r == Failure(InvalidReferences(errors))
    else SortsGraph(Tags(configs), GraphOf(plugins, getDeps), r)
  }

  /** An order exactly when no tag reaches a cycle, else a concrete cycle. */
  ghost predicate SortsGraph(tags: seq<Tag>, g: Graph, r: Result<seq<Tag>, DependencyError>) {
    && (r.Success? <==> forall t | t in g :: !ReachesCycle(g, g.Keys, t))
    && (r.Success? ==> InitOrder(tags, g, r.value))
    && (r.Failure? ==> r.error.CircularDependency? && IsCycle(g, g.Keys, r.error.path))
  }

  lemma DuplicateTagRepeats(configs: seq<PluginConfig>, i: nat)
    requires i < |configs| && configs[i].tag in Tags(configs[..i])
    ensures !Distinct(Tags(configs))
  {
    var k :| 0 <= k < i && Tags(configs[..i])[k] == configs[i].tag;
    assert Tags(configs)[k] == Tags(configs)[i];
  }

  /** Name a concrete cycle among the tags that were not sorted. */
  method ReportCycle(forward: map<Tag, seq<Tag>>, ghost g: Graph, inDegree: map<Tag, nat>)
    returns (error: DependencyError)
    requires Edges(forward) == g && inDegree.Keys == g.Keys
    requires exists t | t in g :: inDegree[t] > 0
    requires forall t | t in Unsorted(g, inDegree) :: ReachesCycle(g, Unsorted(g, inDegree), t)
    ensures error.CircularDependency? && IsCycle(g, g.Keys, error.path)
    ensures exists t | t in g :: ReachesCycle(g, g.Keys, t)
  {
    var remaining := set t | t in inDegree && inDegree[t] > 0;
    assert remaining == Unsorted(g, inDegree);
    ghost var t :| t in g && inDegree[t] > 0;
    assert t in remaining;
    assert ReachesCycle(g, remaining, t);
    var cycle := FindCyclePath(forward, remaining);
    if cycle.Some? {
      assert IsCycle(g, g.Keys, cycle.value);
      CycleIsReached(g, g.Keys, cycle.value);
      return CircularDependency(cycle.value);
    }
    // The search always succeeds, so the fallback report is never produced.
    assert false;
    var unresolved := Sort(remaining);
    error := UnresolvedPlugins(unresolved);
  }

  /** Kahn's algorithm, and the cycle report when it leaves tags behind. */
  method SortGraph(ghost tags: seq<Tag>, ghost g: Graph, forward: map<Tag, seq<Tag>>, reverse: map<Tag, seq<Tag>>,
                   inDegree: map<Tag, nat>)
    returns (r: Result<seq<Tag>, DependencyError>)
    requires WellFormed(tags, g) && Tables(tags, g, |tags|, forward, reverse, inDegree)
    ensures SortsGraph(tags, g, r)
  {
    hide WellFormed, Placed, Ranked, ReachesCycle, IsCycle, InitOrder, Dependents, TableRow, Counted;
    TablesMeaning(tags, g, forward, reverse, inDegree);
    var sortedTags, degrees := Kahn(tags, g, reverse, inDegree);
    Stuck(tags, g, sortedTags, degrees);
    if |sortedTags| != |inDegree.Keys| {
      var error := ReportCycle(forward, g, degrees);
      return Failure(error);
    }
    r := Success(sortedTags);
  }

  method AnalyzeDependencies(configs: seq<PluginConfig>, getDeps: PluginConfig -> seq<DependencySpec>,
                             getKind: PluginConfig -> DependencyKind)
    returns (r: Result<seq<Tag>, DependencyError>)
    ensures AnalysisResult(configs, getDeps, getKind, r)
  {
    hide KahnState, RoundState, InitOrder, WellFormed, ReachesCycle, IsCycle, Ranked;
    hide GraphOf, PluginMap, ReferenceErrors, Edges, Tables;
    var built := BuildPluginMap(configs);
    if built.Failure? {
      ghost var i: nat :| FirstRepeat(configs, i) && built.error == DuplicateTag(configs[i].tag);
      DuplicateTagRepeats(configs, i);
      return Failure(built.error);
    }
    var plugins := built.value;
    ghost var g, tags := GraphOf(plugins, getDeps), Tags(configs);
    GraphWellFormed(configs, getDeps);
    var errors, forward, reverse, inDegree := BuildGraph(configs, plugins, getDeps, getKind);
    if errors != [] {
      return Failure(InvalidReferences(errors));
    }
    r := SortGraph(tags, g, forward, reverse, inDegree);
  }

  /** The configurations in initialization order. */
  method ResolveDependencies(configs: seq<PluginConfig>, getDeps: PluginConfig -> seq<DependencySpec>,
                             getKind: PluginConfig -> DependencyKind)
    returns (r: Result<seq<PluginConfig>, DependencyError>)
    ensures r.Failure? ==> AnalysisResult(configs, getDeps, getKind, Failure(r.error))
    ensures r.Success? ==> AnalysisResult(configs, getDeps, getKind, Success(Tags(r.value)))
    ensures r.Success? ==> Distinct(Tags(configs)) && forall c :: c in r.value <==> c in configs
  {
    hide ReachesCycle, IsCycle, Ordered, Edges, ReferenceErrors;
    var report := AnalyzeDependencies(configs, getDeps, getKind);
    if report.Failure? {
      return Failure(report.error);
    }
    var initOrder := report.value;
    PluginMapMeaning(configs);
    var sorted := TakeInOrder(configs, initOrder);
    return Success(sorted);
  }

  /** Move the configurations out of the map in the given order. */
  method TakeInOrder(configs: seq<PluginConfig>, initOrder: seq<Tag>) returns (sorted: seq<PluginConfig>)
    requires Distinct(Tags(configs)) && Distinct(initOrder) && ToSet(initOrder) == ToSet(Tags(configs))
    ensures Tags(sorted) == initOrder
    ensures forall c :: c in sorted <==> c in configs
  {
    hide Distinct;
    PluginMapMeaning(configs);
    var owned := PluginMap(configs);
    ghost var all := owned;
    sorted := [];
    var i := 0;
    while i < |initOrder|
      invariant 0 <= i <= |initOrder|
      invariant owned == all - ToSet(initOrder[..i])
      invariant Tags(sorted) == initOrder[..i]
      invariant forall c | c in sorted :: c in configs
    {
      var tag := initOrder[i];
      NotBefore(initOrder, i);
      ToSetAppend(initOrder[..i], tag);
      assert initOrder[..i + 1] == initOrder[..i] + [tag];
      TagsAppend(sorted, owned[tag]);
      sorted := sorted + [owned[tag]];
      owned := owned - {tag};
      i := i + 1;
    }
    assert initOrder[..i] == initOrder;
    TakenAll(configs, sorted);
  }

  lemma NotBefore(order: seq<Tag>, i: nat)
    requires Distinct(order) && i < |order|
    ensures order[i] !in order[..i] && order[i] in ToSet(order)
  {
  }

  lemma TakenAll(configs: seq<PluginConfig>, sorted: seq<PluginConfig>)
    requires Distinct(Tags(configs)) && ToSet(Tags(sorted)) == ToSet(Tags(configs))
    requires forall c | c in sorted :: c in configs
    ensures forall c | c in configs :: c in sorted
  {
    forall c | c in configs
      ensures c in sorted
    {
      var m :| 0 <= m < |configs| && configs[m] == c;
      assert Tags(configs)[m] == c.tag && c.tag in ToSet(Tags(sorted));
      var k :| 0 <= k < |sorted| && Tags(sorted)[k] == c.tag;
      assert sorted[k] in sorted;
      var n :| 0 <= n < |configs| && configs[n] == sorted[k];
      assert Tags(configs)[n] == Tags(configs)[m];
    }
  }
}
