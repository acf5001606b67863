/** Dependency graphs, their walks and cycles, and the depth-first search for one cycle. */
module DependencyGraph {
  import opened Wrappers
  import opened Collections
  import opened Text

  type Tag = string
  // For each tag, the tags it depends on.
  type Graph = map<Tag, set<Tag>>

  predicate Edge(g: Graph, from: Tag, to: Tag) {
    from in g && to in g[from]
  }

  /** The graph that an adjacency list stands for, whatever the order of its lists. */
  function Edges(adjacency: map<Tag, seq<Tag>>): Graph {
    map t | t in adjacency :: ToSet(adjacency[t])
  }

  ghost predicate IsWalk(g: Graph, within: set<Tag>, walk: seq<Tag>) {
    && (forall i | 0 <= i < |walk| :: walk[i] in within)
    && forall i | 0 < i < |walk| :: Edge(g, walk[i - 1], walk[i])
  }

  /** A simple cycle: it returns to its first tag and repeats no other. */
  ghost predicate IsCycle(g: Graph, within: set<Tag>, cycle: seq<Tag>) {
    && |cycle| >= 2
    && cycle[0] == cycle[|cycle| - 1]
    && Distinct(cycle[..|cycle| - 1])
    && IsWalk(g, within, cycle)
  }

  /** Some walk from `t` visits a tag twice. */
  ghost predicate ReachesCycle(g: Graph, within: set<Tag>, t: Tag) {
    exists walk :: IsWalk(g, within, walk) && walk != [] && walk[0] == t && !Distinct(walk)
  }

  /** The edges of the tag at `k`, as far as they stay `within`, lead to tags placed before it. */
  ghost predicate LeadsBack(g: Graph, within: set<Tag>, order: seq<Tag>, k: nat)
    requires k < |order|
  {
    forall to | to in within && Edge(g, order[k], to) :: to in order[..k]
  }

  ghost predicate Ranked(g: Graph, within: set<Tag>, order: seq<Tag>) {
    && Distinct(order)
    && forall k {:trigger LeadsBack(g, within, order, k)} | 0 <= k < |order| :: LeadsBack(g, within, order, k)
  }

  /** One more tag may be ranked last when all its edges lead to ranked tags. */
  lemma RankNext(g: Graph, within: set<Tag>, order: seq<Tag>, t: Tag)
    requires Ranked(g, within, order) && t !in order
    requires forall to | to in within && Edge(g, t, to) :: to in order
    ensures Ranked(g, within, order + [t])
  {
    var longer := order + [t];
    forall k | 0 <= k < |longer|
      ensures LeadsBack(g, within, longer, k)
    {
      if k < |order| {
        assert longer[..k] == order[..k];
        assert LeadsBack(g, within, order, k);
      } else {
        assert longer[..k] == order;
      }
    }
  }

  // ---- Ranked tags reach no cycle ------------------------------------------------------------

  ghost function Position(order: seq<Tag>, t: Tag): (k: nat)
    requires t in order
    ensures k < |order| && order[k] == t
  {
    var k :| 0 <= k < |order| && order[k] == t;
    k
  }

  lemma {:induction false} RanksDescend(g: Graph, within: set<Tag>, order: seq<Tag>, walk: seq<Tag>, i: nat, j: nat)
    requires Ranked(g, within, order) && IsWalk(g, within, walk)
    requires i < j < |walk| && walk[i] in order
    ensures walk[j] in order && Position(order, walk[j]) < Position(order, walk[i])
  {
    if i + 1 < j {
      RanksDescend(g, within, order, walk, i, j - 1);
    }
    var k := Position(order, walk[j - 1]);
    assert LeadsBack(g, within, order, k);
    assert Edge(g, walk[j - 1], walk[j]);
    assert walk[j] in order[..k];
    var m :| 0 <= m < k && order[m] == walk[j];
    assert Position(order, walk[j]) == m;
  }

  lemma RankedReachesNoCycle(g: Graph, within: set<Tag>, order: seq<Tag>, t: Tag)
    requires Ranked(g, within, order) && t in order
    ensures !ReachesCycle(g, within, t)
  {
    forall walk | IsWalk(g, within, walk) && walk != [] && walk[0] == t
      ensures Distinct(walk)
    {
      forall i, j | 0 <= i < j < |walk|
        ensures walk[i] != walk[j]
      {
        if i > 0 {
          RanksDescend(g, within, order, walk, 0, i);
        }
        RanksDescend(g, within, order, walk, i, j);
      }
    }
  }

  lemma CycleIsReached(g: Graph, within: set<Tag>, cycle: seq<Tag>)
    requires IsCycle(g, within, cycle)
    ensures ReachesCycle(g, within, cycle[0])
  {
    assert !Distinct(cycle);
  }

  // ---- Where every tag has a successor, every tag reaches a cycle ----------------------------

  ghost predicate HasSuccessor(g: Graph, within: set<Tag>, t: Tag) {
    exists to :: to in within && Edge(g, t, to)
  }

  ghost predicate NoDeadEnd(g: Graph, within: set<Tag>) {
    forall t {:trigger HasSuccessor(g, within, t)} | t in within :: HasSuccessor(g, within, t)
  }

  lemma {:induction false} WalkOn(g: Graph, within: set<Tag>, t: Tag, n: nat) returns (walk: seq<Tag>)
    requires NoDeadEnd(g, within) && t in within
    ensures IsWalk(g, within, walk) && |walk| == n + 1 && walk[0] == t
  {
    if n == 0 {
      walk := [t];
    } else {
      var shorter := WalkOn(g, within, t, n - 1);
      assert HasSuccessor(g, within, shorter[n - 1]);
      var to :| to in within && Edge(g, shorter[n - 1], to);
      walk := shorter + [to];
    }
  }

  lemma NoDeadEndReachesCycle(g: Graph, within: set<Tag>, t: Tag)
    requires NoDeadEnd(g, within) && t in within
    ensures ReachesCycle(g, within, t)
  {
    var walk := WalkOn(g, within, t, |within|);
    var i, j := Pigeonhole(walk, within);
    assert !Distinct(walk);
  }

  lemma WiderWalk(g: Graph, inner: set<Tag>, outer: set<Tag>, t: Tag)
    requires inner <= outer && ReachesCycle(g, inner, t)
    ensures ReachesCycle(g, outer, t)
  {
    var walk :| IsWalk(g, inner, walk) && walk != [] && walk[0] == t && !Distinct(walk);
    assert IsWalk(g, outer, walk);
  }

  // ---- Depth-first search --------------------------------------------------------------------

  datatype Mark = OnStack | Finished

  /** Marks, stack and finishing order agree. */
  ghost predicate SearchState(g: Graph, remaining: set<Tag>, marks: map<Tag, Mark>, stack: seq<Tag>,
                              finished: seq<Tag>)
  {
    && Distinct(stack)
    && IsWalk(g, remaining, stack)
    && (forall t :: t in stack <==> t in marks && marks[t] == OnStack)
    && (forall t :: t in finished <==> t in marks && marks[t] == Finished)
    && marks.Keys <= remaining
    && Ranked(g, remaining, finished)
  }

  /** The stack from `next` up, closed by the edge from its top back to `next`, is a cycle. */
  lemma StackCloses(g: Graph, remaining: set<Tag>, stack: seq<Tag>, position: nat)
    requires Distinct(stack) && IsWalk(g, remaining, stack) && position < |stack|
    requires Edge(g, stack[|stack| - 1], stack[position])
    ensures IsCycle(g, remaining, stack[position..] + [stack[position]])
  {
    var cycle := stack[position..] + [stack[position]];
    assert cycle[..|cycle| - 1] == stack[position..];
    forall i | 0 < i < |cycle|
      ensures Edge(g, cycle[i - 1], cycle[i])
    {
      if i < |cycle| - 1 {
        assert Edge(g, stack[position + i - 1], stack[position + i]);
      }
    }
  }

  lemma FinishNode(g: Graph, remaining: set<Tag>, marks: map<Tag, Mark>, stack: seq<Tag>, finished: seq<Tag>)
    requires SearchState(g, remaining, marks, stack, finished) && stack != []
    requires forall to | to in remaining && Edge(g, stack[|stack| - 1], to) :: to in finished
    ensures var node := stack[|stack| - 1];
            SearchState(g, remaining, marks[node := Finished], stack[..|stack| - 1], finished + [node])
  {
    var node, below := stack[|stack| - 1], stack[..|stack| - 1];
    assert stack == below + [node];
    assert node !in below && node !in finished;
    RankNext(g, remaining, finished, node);
  }

  lemma VisitNode(g: Graph, remaining: set<Tag>, marks: map<Tag, Mark>, stack: seq<Tag>, finished: seq<Tag>, node: Tag)
    requires SearchState(g, remaining, marks, stack, finished)
    requires node in remaining && node !in marks
    requires stack != [] ==> Edge(g, stack[|stack| - 1], node)
    ensures SearchState(g, remaining, marks[node := OnStack], stack + [node], finished)
  {
    var stack' := stack + [node];
    forall i | 0 < i < |stack'|
      ensures Edge(g, stack'[i - 1], stack'[i])
    {
    }
  }

  /**
   * Visit `node` and everything it leads to. Either a cycle is returned at once, or
   * `node` is finished and the stack is as it was.
   */
  method Dfs(node: Tag, adjacency: map<Tag, seq<Tag>>, remaining: set<Tag>, marks: map<Tag, Mark>, stack: seq<Tag>,
             ghost finished: seq<Tag>)
    returns (cycle: Option<seq<Tag>>, marks': map<Tag, Mark>, stack': seq<Tag>, ghost finished': seq<Tag>)
    requires SearchState(Edges(adjacency), remaining, marks, stack, finished)
    requires node in remaining && node !in marks
    requires stack != [] ==> Edge(Edges(adjacency), stack[|stack| - 1], node)
    ensures cycle.Some? ==> IsCycle(Edges(adjacency), remaining, cycle.value)
    ensures cycle.None? ==> SearchState(Edges(adjacency), remaining, marks', stack', finished')
    ensures cycle.None? ==> stack' == stack && marks.Keys <= marks'.Keys && finished <= finished' && node in finished'
    decreases remaining - marks.Keys
  {
    hide Ranked, IsWalk, IsCycle, Distinct;
    ghost var g := Edges(adjacency);
    VisitNode(g, remaining, marks, stack, finished, node);
    marks', stack', finished' := marks[node := OnStack], stack + [node], finished;
    if node in adjacency {
      var nextNodes := adjacency[node];
      var i := 0;
      while i < |nextNodes|
        invariant 0 <= i <= |nextNodes|
        invariant SearchState(g, remaining, marks', stack', finished')
        invariant stack' == stack + [node] && marks.Keys + {node} <= marks'.Keys && finished <= finished'
        invariant forall k | 0 <= k < i && nextNodes[k] in remaining :: nextNodes[k] in finished'
      {
        var next := nextNodes[i];
        i := i + 1;
        if next !in remaining {
          continue;
        }
        if next !in marks' {
          var found;
          ghost var before := finished';
          found, marks', stack', finished' := Dfs(next, adjacency, remaining, marks', stack', finished');
          if found.Some? {
            return found, marks', stack', finished';
          }
          assert forall t | t in before :: t in finished';
        } else if marks'[next] == OnStack {
          var position := FirstPosition(stack', next);
          StackCloses(g, remaining, stack', position);
          return Some(stack'[position..] + [next]), marks', stack', finished';
        }
      }
    }
    FinishNode(g, remaining, marks', stack', finished');
    marks', stack', finished' := marks'[node := Finished], stack, finished' + [node];
    assert (stack + [node])[..|stack + [node]| - 1] == stack;
    cycle := None;
  }

  method FirstPosition(s: seq<Tag>, t: Tag) returns (position: nat)
    requires t in s
    ensures position < |s| && s[position] == t && t !in s[..position]
  {
    position := 0;
    while s[position] != t
      invariant 0 <= position < |s| && t !in s[..position]
      decreases |s| - position
    {
      assert t in s[position + 1..] by {
        assert s == s[..position] + [s[position]] + s[position + 1..];
      }
      position := position + 1;
    }
  }

  /** Search from every remaining tag, in tag order. */
  method FindCyclePath(adjacency: map<Tag, seq<Tag>>, remaining: set<Tag>) returns (cycle: Option<seq<Tag>>)
    ensures cycle.Some? ==> IsCycle(Edges(adjacency), remaining, cycle.value)
    ensures cycle.Some? <==> exists t | t in remaining :: ReachesCycle(Edges(adjacency), remaining, t)
  {
    ghost var g := Edges(adjacency);
    var marks: map<Tag, Mark> := map[];
    var stack: seq<Tag> := [];
    ghost var finished: seq<Tag> := [];
    var candidates := Sort(remaining);
    var i := 0;
    while i < |candidates|
      invariant 0 <= i <= |candidates|
      invariant stack == [] && SearchState(g, remaining, marks, stack, finished)
      invariant forall k | 0 <= k < i :: candidates[k] in finished
    {
      var node := candidates[i];
      i := i + 1;
      assert node in ToSet(candidates);
      if node in marks {
        assert node !in stack;
        continue;
      }
      ghost var before := finished;
      cycle, marks, stack, finished := Dfs(node, adjacency, remaining, marks, stack, finished);
      if cycle.Some? {
        CycleIsReached(g, remaining, cycle.value);
        return;
      }
      assert forall t | t in before :: t in finished;
    }
    cycle := None;
    forall t | t in remaining
      ensures !ReachesCycle(g, remaining, t)
    {
      assert t in ToSet(candidates);
      RankedReachesNoCycle(g, remaining, finished, t);
    }
  }
}
