/**
 * The initialization order, described without the algorithm: which tag comes before
 * which is decided by the position of its latest dependency. There is only one such
 * order, and it is layered by dependency depth.
 */
module DependencyOrder {
  import opened Collections
  import opened Text
  import opened DependencyGraph

  ghost predicate WellFormed(tags: seq<Tag>, g: Graph) {
    && Distinct(tags)
    && g.Keys == ToSet(tags)
    && forall t | t in g :: t !in g[t] && g[t] <= g.Keys
  }

  /** The greatest position in `order` that holds one of `ds`, or -1. */
  ghost function LastDep(order: seq<Tag>, ds: set<Tag>): (k: int)
    ensures -1 <= k < |order|
    ensures k >= 0 ==> order[k] in ds
    ensures forall m | k < m < |order| :: order[m] !in ds
  {
    if order == [] then -1
    else if order[|order| - 1] in ds then |order| - 1
    else LastDep(order[..|order| - 1], ds)
  }

  /**
   * `a` is initialized before `b`: its latest dependency comes earlier. Tags released by
   * the same dependency keep the order of the configuration; tags without any
   * dependency come first, sorted by name.
   */
  ghost predicate Precedes(tags: seq<Tag>, g: Graph, order: seq<Tag>, a: Tag, b: Tag)
    requires WellFormed(tags, g) && a in g && b in g
  {
    var lastA, lastB := LastDep(order, g[a]), LastDep(order, g[b]);
    || lastA < lastB
    || (lastA == lastB == -1 && Below(a, b))
    || (lastA == lastB >= 0 && Position(tags, a) < Position(tags, b))
  }

  ghost predicate InTurn(tags: seq<Tag>, g: Graph, order: seq<Tag>, i: nat, j: nat)
    requires WellFormed(tags, g) && i < |order| && j < |order|
  {
    order[i] in g && order[j] in g && Precedes(tags, g, order, order[i], order[j])
  }

  ghost predicate Ordered(tags: seq<Tag>, g: Graph, order: seq<Tag>)
    requires WellFormed(tags, g)
  {
    forall i, j {:trigger InTurn(tags, g, order, i, j)} | 0 <= i < j < |order| :: InTurn(tags, g, order, i, j)
  }

  /** A complete order: every tag once, after its dependencies, ranked by `Precedes`. */
  ghost predicate InitOrder(tags: seq<Tag>, g: Graph, order: seq<Tag>) {
    && WellFormed(tags, g)
    && ToSet(order) == g.Keys
    && Ranked(g, g.Keys, order)
    && Ordered(tags, g, order)
  }

  // ---- Stability of the latest dependency ----------------------------------------------------

  lemma LastDepOfPrefix(order: seq<Tag>, k: nat, ds: set<Tag>)
    requires Distinct(order) && k <= |order| && ds <= ToSet(order[..k])
    ensures LastDep(order, ds) == LastDep(order[..k], ds)
  {
    var whole, part := LastDep(order, ds), LastDep(order[..k], ds);
    assert whole < k;
    assert part >= 0 ==> order[..k][part] == order[part];
    assert whole >= 0 ==> order[..k][whole] == order[whole];
  }

  lemma RankedDependencies(tags: seq<Tag>, g: Graph, order: seq<Tag>, k: nat)
    requires WellFormed(tags, g) && Ranked(g, g.Keys, order) && k < |order| && order[k] in g
    ensures g[order[k]] <= ToSet(order[..k])
  {
    assert LeadsBack(g, g.Keys, order, k);
    forall d | d in g[order[k]]
      ensures d in order[..k]
    {
      assert Edge(g, order[k], d);
    }
  }

  // ---- Uniqueness ----------------------------------------------------------------------------

  lemma PrecedesAsymmetric(tags: seq<Tag>, g: Graph, order: seq<Tag>, a: Tag, b: Tag)
    requires WellFormed(tags, g) && a in g && b in g
    requires Precedes(tags, g, order, a, b)
    ensures !Precedes(tags, g, order, b, a)
  {
    if Below(a, b) && Below(b, a) {
      BelowTransitive(a, b, a);
      BelowIrreflexive(a);
    }
  }

  /** A tag not yet placed after a common prefix comes later in the order that has `a` next. */
  lemma NextPrecedes(tags: seq<Tag>, g: Graph, order: seq<Tag>, k: nat, b: Tag)
    requires InitOrder(tags, g, order) && k < |order|
    requires b in g && b != order[k] && b !in order[..k]
    ensures order[k] in g && Precedes(tags, g, order, order[k], b)
  {
    assert b in ToSet(order);
    var p :| 0 <= p < |order| && order[p] == b;
    assert forall m | 0 <= m < k :: order[..k][m] == order[m];
    assert p > k;
    assert InTurn(tags, g, order, k, p);
  }

  /** `Precedes` looks only at the prefix that holds both tags' dependencies. */
  lemma PrecedesOnPrefix(tags: seq<Tag>, g: Graph, order: seq<Tag>, k: nat, a: Tag, b: Tag)
    requires WellFormed(tags, g) && a in g && b in g
    requires Distinct(order) && k <= |order|
    requires g[a] <= ToSet(order[..k]) && g[b] <= ToSet(order[..k])
    ensures Precedes(tags, g, order, a, b) <==> Precedes(tags, g, order[..k], a, b)
  {
    LastDepOfPrefix(order, k, g[a]);
    LastDepOfPrefix(order, k, g[b]);
  }

  lemma NextEqual(tags: seq<Tag>, g: Graph, o1: seq<Tag>, o2: seq<Tag>, k: nat)
    requires InitOrder(tags, g, o1) && InitOrder(tags, g, o2)
    requires k < |o1| && k < |o2| && o1[..k] == o2[..k]
    ensures o1[k] == o2[k]
  {
    var a, b, common := o1[k], o2[k], o1[..k];
    if a != b {
      assert a in ToSet(o1) && b in ToSet(o2);
      NotInPrefix(o1, k);
      NotInPrefix(o2, k);
      NextPrecedes(tags, g, o1, k, b);
      NextPrecedes(tags, g, o2, k, a);
      RankedDependencies(tags, g, o1, k);
      RankedDependencies(tags, g, o2, k);
      PrecedesOnPrefix(tags, g, o1, k, a, b);
      PrecedesOnPrefix(tags, g, o2, k, b, a);
      PrecedesAsymmetric(tags, g, common, a, b);
      assert false;
    }
  }

  lemma NotInPrefix(order: seq<Tag>, k: nat)
    requires Distinct(order) && k < |order|
    ensures order[k] !in order[..k]
  {
  }

  lemma {:induction false} SamePrefix(tags: seq<Tag>, g: Graph, o1: seq<Tag>, o2: seq<Tag>, k: nat)
    requires InitOrder(tags, g, o1) && InitOrder(tags, g, o2)
    requires |o1| == |o2| && k <= |o1|
    ensures o1[..k] == o2[..k]
  {
    if k > 0 {
      SamePrefix(tags, g, o1, o2, k - 1);
      NextEqual(tags, g, o1, o2, k - 1);
      assert o1[..k] == o1[..k - 1] + [o1[k - 1]] && o2[..k] == o2[..k - 1] + [o2[k - 1]];
    }
  }

  /** The configuration determines the order: no iteration order of any hash container can change it. */
  lemma InitOrderUnique(tags: seq<Tag>, g: Graph, o1: seq<Tag>, o2: seq<Tag>)
    requires InitOrder(tags, g, o1) && InitOrder(tags, g, o2)
    ensures o1 == o2
  {
    DistinctCardinality(o1);
    DistinctCardinality(o2);
    SamePrefix(tags, g, o1, o2, |o1|);
    assert o1[..|o1|] == o1 && o2[..|o2|] == o2;
  }

  // ---- Layers --------------------------------------------------------------------------------

  /** A dependency chain of `n` edges starts at `t`; the longest one is the depth of `t`. */
  ghost predicate HasChain(g: Graph, t: Tag, n: nat)
    decreases n
  {
    t in g && (n == 0 || exists d | d in g[t] :: HasChain(g, d, n - 1))
  }

  /** Whatever an earlier tag depends on comes no later than the latest dependency of a later tag. */
  lemma LaterDependency(tags: seq<Tag>, g: Graph, order: seq<Tag>, i: nat, j: nat, d: Tag) returns (p: nat, last: nat)
    requires InitOrder(tags, g, order)
    requires i < j < |order| && order[i] in g && d in g[order[i]]
    ensures p <= last < |order| && order[p] == d
    ensures order[j] in g && order[last] in g[order[j]]
  {
    assert InTurn(tags, g, order, i, j);
    RankedDependencies(tags, g, order, i);
    assert d in order[..i];
    p :| 0 <= p < i && order[p] == d;
    last := LastDep(order, g[order[j]]);
  }

  /** The order never goes back to a shallower layer. */
  lemma {:induction false} Layered(tags: seq<Tag>, g: Graph, order: seq<Tag>, i: nat, j: nat, n: nat)
    requires InitOrder(tags, g, order)
    requires i <= j < |order| && HasChain(g, order[i], n)
    ensures HasChain(g, order[j], n)
    decreases n
  {
    assert order[j] in ToSet(order);
    if n > 0 && i < j {
      var d :| d in g[order[i]] && HasChain(g, d, n - 1);
      var p, last := LaterDependency(tags, g, order, i, j, d);
      Layered(tags, g, order, p, last, n - 1);
    }
  }
}
