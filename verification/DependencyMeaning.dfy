/**
 * What an analysis says about the configuration itself: which references it complains
 * about and how, which references its order respects, and which ones its cycles are made of.
 */
module DependencyMeaning {
  import opened Wrappers
  import opened Collections
  import opened Text
  import opened DependencyGraph
  import opened DependencyOrder
  import opened DependencyAnalysis

  type Deps = PluginConfig -> seq<DependencySpec>
  type Kinds = PluginConfig -> DependencyKind

  // ---- Complaints ----------------------------------------------------------------------------

  /** The error is the right one to report for this reference of this configuration. */
  ghost predicate Complains(configs: seq<PluginConfig>, c: PluginConfig, dep: DependencySpec, getKind: Kinds,
                            e: ReferenceError)
  {
    && Trim(dep.targetTag) != ""
    && e.tag == c.tag
    && e.field == (if Trim(dep.field) == "" then "<unknown>" else Trim(dep.field))
    && match e
       case SelfReference(_, _) => Trim(dep.targetTag) == c.tag
       case MissingPlugin(_, _, target) =>
         target == Trim(dep.targetTag) && target != c.tag && forall p | p in configs :: p.tag != target
       case WrongKind(_, _, target, expected, actual) =>
         && target == Trim(dep.targetTag) && target != c.tag
         && expected == dep.expectedKind && expected != AnyKind && expected != actual
         && exists p | p in configs :: p.tag == target && getKind(p) == actual
       case WrongType(_, _, target, expectedType, actualType) =>
         && target == Trim(dep.targetTag) && target != c.tag
         && dep.expectedPluginType == Some(expectedType) && expectedType != actualType
         && exists p | p in configs :: p.tag == target && p.pluginType == actualType
  }

  lemma PluginOf(configs: seq<PluginConfig>, t: Tag)
    requires Distinct(Tags(configs))
    ensures t in PluginMap(configs) <==> exists p | p in configs :: p.tag == t
    ensures forall p | p in configs && p.tag == t :: t in PluginMap(configs) && PluginMap(configs)[t] == p
    ensures t in PluginMap(configs) ==> PluginMap(configs)[t] in configs && PluginMap(configs)[t].tag == t
  {
    PluginMapMeaning(configs);
    forall p | p in configs && p.tag == t
      ensures t in PluginMap(configs) && PluginMap(configs)[t] == p
    {
      var i :| 0 <= i < |configs| && configs[i] == p;
    }
  }

  lemma ReportsOne(configs: seq<PluginConfig>, c: PluginConfig, dep: DependencySpec, getKind: Kinds, e: ReferenceError)
    requires Distinct(Tags(configs))
    ensures e in CheckReference(c, dep, PluginMap(configs), getKind) <==> Complains(configs, c, dep, getKind, e)
  {
    hide Trim, PluginMap;
    PluginOf(configs, Trim(dep.targetTag));
  }

  lemma {:induction false} ReportsAll(configs: seq<PluginConfig>, c: PluginConfig, deps: seq<DependencySpec>,
                                      getKind: Kinds, e: ReferenceError)
    requires Distinct(Tags(configs))
    ensures e in ConfigErrors(c, deps, PluginMap(configs), getKind)
            <==> exists dep | dep in deps :: Complains(configs, c, dep, getKind, e)
  {
    hide CheckReference, Complains, PluginMap, Distinct;
    if deps != [] {
      var init, last := deps[..|deps| - 1], deps[|deps| - 1];
      ReportsAll(configs, c, init, getKind, e);
      ReportsOne(configs, c, last, getKind, e);
      assert deps == init + [last];
    }
  }

  lemma {:induction false} ReportsEvery(configs: seq<PluginConfig>, part: seq<PluginConfig>, getDeps: Deps,
                                        getKind: Kinds, e: ReferenceError)
    requires Distinct(Tags(configs))
    ensures e in ReferenceErrors(part, PluginMap(configs), getDeps, getKind)
            <==> exists c, dep | c in part && dep in getDeps(c) :: Complains(configs, c, dep, getKind, e)
  {
    hide ConfigErrors, Complains, PluginMap, Distinct;
    if part != [] {
      var init, last := part[..|part| - 1], part[|part| - 1];
      ReportsEvery(configs, init, getDeps, getKind, e);
      ReportsAll(configs, last, getDeps(last), getKind, e);
      assert part == init + [last];
    }
  }

  /** The reported list holds the right error for every bad reference of any configuration, and nothing else. */
  lemma ReportedReferences(configs: seq<PluginConfig>, getDeps: Deps, getKind: Kinds, errors: seq<ReferenceError>,
                           e: ReferenceError)
    requires AnalysisResult(configs, getDeps, getKind, Failure(InvalidReferences(errors)))
    ensures e in errors <==> exists c, dep | c in configs && dep in getDeps(c) :: Complains(configs, c, dep, getKind, e)
  {
    hide ReferenceErrors, Complains, PluginMap, GraphOf, Distinct;
    ReportsEvery(configs, configs, getDeps, getKind, e);
  }

  // ---- Which result there is -----------------------------------------------------------------

  /** Some reference deserves a complaint. */
  ghost predicate Complaint(configs: seq<PluginConfig>, getDeps: Deps, getKind: Kinds) {
    exists c, dep, e | c in configs && dep in getDeps(c) :: Complains(configs, c, dep, getKind, e)
  }

  /** Bad references are reported exactly when no tag repeats and there is something to complain about. */
  lemma ReportedIff(configs: seq<PluginConfig>, getDeps: Deps, getKind: Kinds, r: Result<seq<Tag>, DependencyError>)
    requires AnalysisResult(configs, getDeps, getKind, r)
    ensures r.Failure? && r.error.InvalidReferences? <==>
            Distinct(Tags(configs)) && Complaint(configs, getDeps, getKind)
    ensures r.Failure? && r.error.DuplicateTag? <==> !Distinct(Tags(configs))
  {
    hide ReferenceErrors, Complains, PluginMap, GraphOf, Distinct;
    if Distinct(Tags(configs)) {
      var errors := ReferenceErrors(configs, PluginMap(configs), getDeps, getKind);
      if errors != [] {
        ReportsEvery(configs, configs, getDeps, getKind, errors[0]);
        assert errors[0] in errors;
      } else {
        forall e
          ensures e !in errors
        {
        }
        forall e, c, dep | c in configs && dep in getDeps(c)
          ensures !Complains(configs, c, dep, getKind, e)
        {
          ReportsEvery(configs, configs, getDeps, getKind, e);
        }
      }
    }
  }

  // ---- References and the order --------------------------------------------------------------

  /** Some configuration with the first tag has a reference to another one with the second. */
  ghost predicate Refers(configs: seq<PluginConfig>, getDeps: Deps, from: Tag, to: Tag) {
    && to != "" && to != from
    && (exists p | p in configs :: p.tag == to)
    && exists c, dep | c in configs && dep in getDeps(c) :: c.tag == from && Trim(dep.targetTag) == to
  }

  lemma EdgeRefers(configs: seq<PluginConfig>, getDeps: Deps, from: Tag, to: Tag)
    requires Distinct(Tags(configs))
    ensures Edge(GraphOf(PluginMap(configs), getDeps), from, to) <==> Refers(configs, getDeps, from, to)
  {
    hide Trim, PluginMap;
    PluginOf(configs, from);
    PluginOf(configs, to);
  }

  /** A successful order puts every plugin after all plugins it refers to, and holds each plugin once. */
  lemma OrderRespectsReferences(configs: seq<PluginConfig>, getDeps: Deps, getKind: Kinds, order: seq<Tag>, k: nat,
                                to: Tag)
    requires AnalysisResult(configs, getDeps, getKind, Success(order))
    ensures Distinct(order) && forall t :: t in order <==> exists p | p in configs :: p.tag == t
    ensures k < |order| && Refers(configs, getDeps, order[k], to) ==> to in order[..k]
  {
    hide PluginMap, Trim, Ordered;
    var g := GraphOf(PluginMap(configs), getDeps);
    forall t
      ensures t in order <==> exists p | p in configs :: p.tag == t
    {
      PluginOf(configs, t);
      assert t in order <==> t in ToSet(order);
    }
    if k < |order| && Refers(configs, getDeps, order[k], to) {
      EdgeRefers(configs, getDeps, order[k], to);
      PluginOf(configs, to);
      assert LeadsBack(g, g.Keys, order, k);
    }
  }

  /** A reported cycle is made of references: each tag refers to the next, and the last is the first. */
  lemma CycleIsReferences(configs: seq<PluginConfig>, getDeps: Deps, getKind: Kinds, path: seq<Tag>, i: nat)
    requires AnalysisResult(configs, getDeps, getKind, Failure(CircularDependency(path)))
    ensures |path| >= 2 && path[0] == path[|path| - 1] && Distinct(path[..|path| - 1])
    ensures i + 1 < |path| ==> Refers(configs, getDeps, path[i], path[i + 1])
  {
    hide PluginMap, Trim, Refers, ReachesCycle, InitOrder;
    if i + 1 < |path| {
      EdgeRefers(configs, getDeps, path[i], path[i + 1]);
      assert Edge(GraphOf(PluginMap(configs), getDeps), path[i + 1 - 1], path[i + 1]);
    }
  }

  // ---- What the order decides where references leave a choice --------------------------------

  /** Plugins that refer to none come first, in ascending order of their tags. */
  lemma RootsFirst(tags: seq<Tag>, g: Graph, order: seq<Tag>, i: nat, j: nat)
    requires InitOrder(tags, g, order) && i < j < |order|
    ensures order[i] in g && order[j] in g
    ensures g[order[j]] == {} ==> g[order[i]] == {} && Below(order[i], order[j])
  {
    assert order[i] in ToSet(order);
    RankedDependencies(tags, g, order, i);
    forall d | d in g[order[i]]
      ensures LastDep(order, g[order[i]]) >= 0
    {
      assert d in order[..i];
      var p :| 0 <= p < i && order[p] == d;
    }
    assert InTurn(tags, g, order, i, j);
  }
}
