/** The check that outbound groups do not contain each other in a circle: a depth-first walk that keeps
    the groups on the current path in `visiting` and the finished ones in `visited`. */
module GroupCycles {
  type Tag = string

  /** Group tag to the tags of its static children, groups or not. */
  type Graph = map<Tag, seq<Tag>>

  predicate Edge(g: Graph, a: Tag, b: Tag) { a in g && b in g && b in g[a] }

  /** Consecutive tags are joined by edges between groups. */
  ghost predicate IsPath(g: Graph, p: seq<Tag>) {
    && (forall i :: 0 <= i < |p| ==> p[i] in g)
    && forall i :: 0 <= i < |p| - 1 ==> Edge(g, p[i], p[i + 1])
  }

  ghost predicate IsCycle(g: Graph, p: seq<Tag>) {
    |p| > 0 && IsPath(g, p) && Edge(g, p[|p| - 1], p[0])
  }

  ghost predicate Acyclic(g: Graph) { forall p :: !IsCycle(g, p) }

  /** A finishing order: distinct groups, each after all the groups it contains. */
  ghost predicate Finishes(g: Graph, order: seq<Tag>) {
    && (forall i, j :: 0 <= i < j < |order| ==> order[i] != order[j])
    && (forall i :: 0 <= i < |order| ==> order[i] in g)
    && (forall i, b :: 0 <= i < |order| && Edge(g, order[i], b) ==> b in order[..i])
  }

  lemma FinishOne(g: Graph, order: seq<Tag>, tag: Tag)
    requires Finishes(g, order) && tag in g && tag !in order
    requires forall b :: Edge(g, tag, b) ==> b in order
    ensures Finishes(g, order + [tag])
  {
    var longer := order + [tag];
    forall i, b | 0 <= i < |longer| && Edge(g, longer[i], b)
      ensures b in longer[..i]
    {
      assert i < |order| ==> longer[..i] == order[..i];
      assert i == |order| ==> longer[..i] == order;
    }
  }

  class Walk {
    const graph: Graph
    var visiting: set<Tag>
    var visited: set<Tag>
    /** The groups of `visited` in the order they were finished. */
    ghost var order: seq<Tag>
    /** The path from the root of the walk to the current group. */
    ghost var path: seq<Tag>

    ghost predicate Valid()
      reads this
    {
      && visited == (set t | t in order) && Finishes(graph, order)
      && visiting == (set t | t in path) && IsPath(graph, path)
      && visiting !! visited
    }

    constructor (graph: Graph)
      ensures Valid() && this.graph == graph && visiting == {} && visited == {} && path == []
    {
      this.graph, visiting, visited, order, path := graph, {}, {}, [], [];
    }

    /** Succeeds with `tag` and everything below it finished, or fails with a cycle at hand. */
    method Visit(tag: Tag) returns (ok: bool, ghost cycle: seq<Tag>)
      requires Valid() && tag in graph
      requires path != [] ==> Edge(graph, path[|path| - 1], tag)
      modifies this
      ensures ok ==> Valid() && visiting == old(visiting) && path == old(path)
      ensures ok ==> old(visited) + {tag} <= visited
      ensures !ok ==> IsCycle(graph, cycle)
      decreases graph.Keys - visiting
    {
      cycle := [];
      if tag in visited {
        return true, [];
      }
      if tag in visiting {
        ghost var i :| 0 <= i < |path| && path[i] == tag;
        return false, path[i..];
      }
      visiting := visiting + {tag};
      path := path + [tag];
      var children := graph[tag];
      var i := 0;
      while i < |children|
        invariant 0 <= i <= |children|
        invariant Valid() && visiting == old(visiting) + {tag} && path == old(path) + [tag]
        invariant old(visited) <= visited
        invariant forall j :: 0 <= j < i && children[j] in graph ==> children[j] in visited
      {
        if children[i] in graph {
          ok, cycle := Visit(children[i]);
          if !ok {
            return;
          }
        }
        i := i + 1;
      }
      FinishOne(graph, order, tag);
      visiting := visiting - {tag};
      visited := visited + {tag};
      order := order + [tag];
      path := old(path);
      ok := true;
    }
  }

  datatype Outbound = Outbound(tag: Tag, isGroup: bool, children: seq<Tag>)

  /** The groups among the outbounds; a later outbound of the same tag replaces an earlier one. */
  function GroupGraph(outbounds: seq<Outbound>): Graph {
    if outbounds == [] then map[] else
      var g, last := GroupGraph(outbounds[..|outbounds| - 1]), outbounds[|outbounds| - 1];
      if last.isGroup then g[last.tag := last.children] else g
  }

  // ----- the same in terms of the configuration -----

  predicate IsGroup(os: seq<Outbound>, i: int, tag: Tag) { 0 <= i < |os| && os[i].isGroup && os[i].tag == tag }

  ghost predicate GroupTag(os: seq<Outbound>, tag: Tag) { exists i :: IsGroup(os, i, tag) }

  /** The last group tagged `a` lists the child `b`, and some group is tagged `b`. */
  ghost predicate Contains(os: seq<Outbound>, a: Tag, b: Tag) {
    && (exists i :: IsGroup(os, i, a) && b in os[i].children && forall j :: IsGroup(os, j, a) ==> j <= i)
    && GroupTag(os, b)
  }

  /** Groups each of which contains the next, and the last of which contains the first. */
  ghost predicate ClosedWalk(os: seq<Outbound>, p: seq<Tag>) {
    && |p| > 0
    && (forall i :: 0 <= i < |p| - 1 ==> Contains(os, p[i], p[i + 1]))
    && Contains(os, p[|p| - 1], p[0])
  }

  /** Every group tag once, each after all the groups it contains. */
  ghost predicate BottomUp(os: seq<Outbound>, order: seq<Tag>) {
    && (forall i, j :: 0 <= i < j < |order| ==> order[i] != order[j])
    && (forall t :: t in order <==> GroupTag(os, t))
    && (forall i, b :: 0 <= i < |order| && Contains(os, order[i], b) ==> b in order[..i])
  }

  lemma {:induction false} GraphHoldsLastGroups(os: seq<Outbound>, a: Tag)
    ensures a in GroupGraph(os) <==> GroupTag(os, a)
    ensures a in GroupGraph(os) ==>
              exists i :: && IsGroup(os, i, a) && GroupGraph(os)[a] == os[i].children
                          && forall j :: IsGroup(os, j, a) ==> j <= i
  {
    if os != [] {
      var n := |os| - 1;
      var before := os[..n];
      GraphHoldsLastGroups(before, a);
      assert forall j :: IsGroup(before, j, a) <==> IsGroup(os, j, a) && j < n;
      if IsGroup(os, n, a) {
        assert forall j :: IsGroup(os, j, a) ==> j <= n;
      }
    }
  }

  /** The edges of the graph are the containments of the configuration. */
  lemma {:induction false} EdgeIsContainment(os: seq<Outbound>, a: Tag, b: Tag)
    ensures Edge(GroupGraph(os), a, b) <==> Contains(os, a, b)
  {
    GraphHoldsLastGroups(os, a);
    GraphHoldsLastGroups(os, b);
  }

  lemma {:induction false} CycleIsClosedWalk(os: seq<Outbound>, p: seq<Tag>)
    ensures IsCycle(GroupGraph(os), p) <==> ClosedWalk(os, p)
  {
    forall a, b ensures Edge(GroupGraph(os), a, b) <==> Contains(os, a, b) {
      EdgeIsContainment(os, a, b);
    }
    if ClosedWalk(os, p) {
      forall i | 0 <= i < |p| ensures p[i] in GroupGraph(os) {
        assert i < |p| - 1 ==> Edge(GroupGraph(os), p[i], p[i + 1]);
      }
    }
  }

  lemma {:induction false} FinishingIsBottomUp(os: seq<Outbound>, order: seq<Tag>)
    requires Finishes(GroupGraph(os), order) && forall t :: t in GroupGraph(os) ==> t in order
    ensures BottomUp(os, order)
  {
    forall t ensures t in order <==> GroupTag(os, t) {
      GraphHoldsLastGroups(os, t);
    }
    forall i, b | 0 <= i < |order| && Contains(os, order[i], b) ensures b in order[..i] {
      EdgeIsContainment(os, order[i], b);
    }
  }

  /** Accepts exactly the configurations in which no groups contain each other in a circle, of several groups with
      one tag the last counting; the groups are started in whatever order the map yields them, and an accepted
      configuration comes with an order of all its group tags from the bottom up. */
  method ValidateOutboundGroupCycles(outbounds: seq<Outbound>) returns (ok: bool, ghost order: seq<Tag>)
    ensures ok <==> forall p :: !ClosedWalk(outbounds, p)
    ensures ok ==> BottomUp(outbounds, order)
  {
    var graph := GroupGraph(outbounds);
    var walk := new Walk(graph);
    var todo := graph.Keys;
    while todo != {}
      invariant todo <= graph.Keys && walk.graph == graph && fresh(walk)
      invariant walk.Valid() && walk.path == []
      invariant forall t :: t in graph && t !in todo ==> t in walk.visited
      decreases todo
    {
      var tag :| tag in todo;
      todo := todo - {tag};
      var good, cycle := walk.Visit(tag);
      if !good {
        CycleIsClosedWalk(outbounds, cycle);
        return false, [];
      }
    }
    OrderedMeansAcyclic(graph, walk.order);
    forall p ensures !ClosedWalk(outbounds, p) {
      CycleIsClosedWalk(outbounds, p);
    }
    FinishingIsBottomUp(outbounds, walk.order);
    ok, order := true, walk.order;
  }

  ghost function Rank(order: seq<Tag>, t: Tag): (r: nat)
    requires t in order
    ensures r < |order| && order[r] == t
  {
    var i :| 0 <= i < |order| && order[i] == t;
    i
  }

  /** Every edge leads to a smaller rank. */
  lemma EdgeLowersRank(g: Graph, order: seq<Tag>, a: Tag, b: Tag)
    requires Finishes(g, order) && (forall t :: t in g ==> t in order) && Edge(g, a, b)
    ensures Rank(order, b) < Rank(order, a)
  {
  }

  lemma {:induction false} PathLowersRank(g: Graph, order: seq<Tag>, p: seq<Tag>)
    requires Finishes(g, order) && (forall t :: t in g ==> t in order) && IsPath(g, p) && p != []
    ensures Rank(order, p[|p| - 1]) + |p| - 1 <= Rank(order, p[0])
  {
    if |p| > 1 {
      PathLowersRank(g, order, p[..|p| - 1]);
      EdgeLowersRank(g, order, p[|p| - 2], p[|p| - 1]);
    }
  }

  lemma OrderedMeansAcyclic(g: Graph, order: seq<Tag>)
    requires Finishes(g, order) && (forall t :: t in g ==> t in order)
    ensures Acyclic(g)
  {
    forall p | IsCycle(g, p)
      ensures false
    {
      PathLowersRank(g, order, p);
      EdgeLowersRank(g, order, p[|p| - 1], p[0]);
    }
  }

  /** In an accepted configuration, following static children from group to group passes through at most as
      many groups as there are, so it leaves the groups within that many steps. */
  lemma DelegationIsShort(os: seq<Outbound>, order: seq<Tag>, p: seq<Tag>)
    requires BottomUp(os, order) && forall i :: 0 <= i < |p| - 1 ==> Contains(os, p[i], p[i + 1])
    requires forall i :: 0 <= i < |p| ==> GroupTag(os, p[i])
    ensures |p| <= |order|
  {
    var g := GroupGraph(os);
    forall t ensures t in g <==> GroupTag(os, t) {
      GraphHoldsLastGroups(os, t);
    }
    forall a, b ensures Edge(g, a, b) <==> Contains(os, a, b) {
      EdgeIsContainment(os, a, b);
    }
    if p != [] {
      PathLowersRank(g, order, p);
    }
  }
}
