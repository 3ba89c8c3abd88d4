/** The order in which DNS upstreams are built: each server after the server that resolves its own
    address.  Every server names at most one resolver, so the dependencies form chains. */
module Toposort {
  import opened Bytes
  import opened Sequences

  datatype Server = Server(tag: string, resolver: Option<string>)

  /** `tag_to_idx`: of several servers with one tag the last counts. */
  function IndexOf(servers: seq<Server>, tag: string): Option<nat> {
    if servers == [] then None
    else if servers[|servers| - 1].tag == tag then Some(|servers| - 1)
    else IndexOf(servers[..|servers| - 1], tag)
  }

  lemma {:induction false} IndexOfFinds(servers: seq<Server>, tag: string)
    ensures IndexOf(servers, tag).Some? ==>
              IndexOf(servers, tag).value < |servers| && servers[IndexOf(servers, tag).value].tag == tag
    ensures IndexOf(servers, tag).None? ==> forall i :: 0 <= i < |servers| ==> servers[i].tag != tag
  {
    if servers != [] {
      IndexOfFinds(servers[..|servers| - 1], tag);
    }
  }

  type Deps = seq<Option<nat>>

  predicate InRange(deps: Deps) { forall i :: 0 <= i < |deps| && deps[i].Some? ==> deps[i].value < |deps| }

  predicate ResolversExist(servers: seq<Server>) {
    forall i :: 0 <= i < |servers| && servers[i].resolver.Some? ==> IndexOf(servers, servers[i].resolver.value).Some?
  }

  function DepOf(servers: seq<Server>, s: Server): Option<nat> {
    if s.resolver.Some? then IndexOf(servers, s.resolver.value) else None
  }

  function DepsOf(servers: seq<Server>): Deps {
    seq(|servers|, i requires 0 <= i < |servers| => DepOf(servers, servers[i]))
  }

  /** The server `k` steps up the resolver chain of `i`. */
  ghost function Follow(deps: Deps, i: nat, k: nat): Option<nat>
    decreases k
  {
    if k == 0 then Some(i)
    else if i >= |deps| || deps[i].None? then None
    else Follow(deps, deps[i].value, k - 1)
  }

  ghost predicate Cyclic(deps: Deps) {
    exists i: nat, k: nat :: i < |deps| && k >= 1 && Follow(deps, i, k) == Some(i)
  }

  /** Everything placed so far comes after what it depends on. */
  ghost predicate AfterResolvers(deps: Deps, order: seq<nat>) {
    forall i :: 0 <= i < |order| ==> order[i] < |deps| && (deps[order[i]].Some? ==> deps[order[i]].value in order[..i])
  }

  // ----- no cycle when everything is placed, a cycle when something is left -----

  lemma SubsetSize(a: set<nat>, b: set<nat>)
    requires a <= b
    ensures |a| <= |b| && (|a| == |b| ==> a == b)
  {
    assert b == a + (b - a);
  }

  function Below(n: nat): (s: set<nat>)
    ensures |s| == n && forall x: nat :: x in s <==> x < n
  {
    if n == 0 then {} else Below(n - 1) + {n - 1}
  }

  /** Distinct indices below `n` number at most `n`, and `n` of them are all there are. */
  lemma FullWhenLong(s: seq<nat>, n: nat)
    requires Distinct(s) && forall i :: 0 <= i < |s| ==> s[i] < n
    ensures |s| <= n && (|s| == n <==> forall x: nat :: x < n ==> x in s)
  {
    SetSize(s);
    SubsetSize(Elems(s), Below(n));
    assert (forall x: nat :: x < n ==> x in s) <==> Elems(s) == Below(n) by {
      if Elems(s) == Below(n) {
        forall x: nat | x < n ensures x in s {
          assert x in Below(n);
        }
      }
    }
  }

  lemma Position(order: seq<nat>, x: nat) returns (i: nat)
    requires x in order
    ensures i < |order| && order[i] == x
  {
    i :| 0 <= i < |order| && order[i] == x;
  }

  /** Following resolvers moves strictly forward in the order, so it never comes back. */
  lemma {:induction false} FollowMovesForward(deps: Deps, order: seq<nat>, at: nat, k: nat)
    requires Distinct(order) && AfterResolvers(deps, order) && at < |order|
    ensures Follow(deps, order[at], k).Some? ==>
              exists j: nat :: j + k <= at && order[j] == Follow(deps, order[at], k).value
    decreases k
  {
    if k > 0 && deps[order[at]].Some? {
      var j := Position(order[..at], deps[order[at]].value);
      FollowMovesForward(deps, order, j, k - 1);
    } else if k == 0 {
      assert at + 0 <= at && order[at] == Follow(deps, order[at], 0).value;
    }
  }

  lemma PlacedMeansAcyclic(deps: Deps, order: seq<nat>)
    requires Distinct(order) && AfterResolvers(deps, order) && forall x: nat :: x < |deps| ==> x in order
    ensures !Cyclic(deps)
  {
    forall i: nat, k: nat | i < |deps| && k >= 1 && Follow(deps, i, k) == Some(i)
      ensures false
    {
      var at := Position(order, i);
      FollowMovesForward(deps, order, at, k);
    }
  }

  lemma {:induction false} FollowAdds(deps: Deps, i: nat, a: nat, b: nat)
    requires Follow(deps, i, a).Some?
    ensures Follow(deps, i, a + b) == Follow(deps, Follow(deps, i, a).value, b)
    decreases a
  {
    if a > 0 {
      FollowAdds(deps, deps[i].value, a - 1, b);
    }
  }

  lemma {:induction false} StuckStays(deps: Deps, left: set<nat>, u: nat, k: nat)
    requires u in left && forall x :: x in left ==> x < |deps| && deps[x].Some? && deps[x].value in left
    ensures Follow(deps, u, k).Some? && Follow(deps, u, k).value in left
    decreases k
  {
    if k > 0 {
      StuckStays(deps, left, deps[u].value, k - 1);
    }
  }

  /** If each of some servers waits for another of them, their chains must close. */
  lemma StuckMeansCyclic(deps: Deps, left: set<nat>, u: nat)
    requires u in left && forall x :: x in left ==> x < |deps| && deps[x].Some? && deps[x].value in left
    ensures Cyclic(deps)
  {
    var chain := ChainOf(deps, left, u, |left| + 1);
    SetSizeOrRepeat(chain, left);
    var a, b :| 0 <= a < b < |chain| && chain[a] == chain[b];
    FollowAdds(deps, u, a, b - a);
    assert chain[a] < |deps| && b - a >= 1 && Follow(deps, chain[a], b - a) == Some(chain[a]);
  }

  ghost function ChainOf(deps: Deps, left: set<nat>, u: nat, n: nat): (c: seq<nat>)
    requires u in left && forall x :: x in left ==> x < |deps| && deps[x].Some? && deps[x].value in left
    ensures |c| == n && forall k :: 0 <= k < n ==> Follow(deps, u, k) == Some(c[k]) && c[k] in left
  {
    if n == 0 then [] else
      StuckStays(deps, left, u, n - 1);
      ChainOf(deps, left, u, n - 1) + [Follow(deps, u, n - 1).value]
  }

  /** The pigeonhole principle. */
  lemma SetSizeOrRepeat(s: seq<nat>, bound: set<nat>)
    requires |s| > |bound| && forall i :: 0 <= i < |s| ==> s[i] in bound
    ensures exists a, b :: 0 <= a < b < |s| && s[a] == s[b]
  {
    if Distinct(s) {
      SetSize(s);
      SubsetSize(Elems(s), bound);
    }
  }

  // ----- the algorithm -----

  /** Nothing keeps server `j` back once the servers of `placed` are built. */
  ghost predicate Released(deps: Deps, placed: seq<nat>, j: nat)
    requires j < |deps|
  {
    deps[j].None? || deps[j].value in placed
  }

  /** The queue and the in-degrees agree with what has been placed; servers from `i` on have not yet been told
      about the last one placed. */
  ghost predicate Settled(deps: Deps, inDegree: seq<nat>, queue: seq<nat>, order: seq<nat>, before: seq<nat>, i: nat) {
    && |inDegree| == |deps|
    && Distinct(order + queue) && AfterResolvers(deps, order)
    && (forall j :: 0 <= j < |order + queue| ==> (order + queue)[j] < |deps|)
    && forall j :: 0 <= j < |deps| ==>
         var free := Released(deps, if j < i then order else before, j);
         (j in order + queue <==> free) && inDegree[j] == if free then 0 else 1
  }

  method Collect(servers: seq<Server>) returns (ok: bool, deps: Deps, inDegree: seq<nat>)
    ensures !ok ==> !ResolversExist(servers) || Cyclic(DepsOf(servers))
    ensures ok ==> ResolversExist(servers) && deps == DepsOf(servers) && InRange(deps) && |inDegree| == |deps|
    ensures ok ==> forall i :: 0 <= i < |deps| ==> inDegree[i] == if deps[i].Some? then 1 else 0
  {
    var n := |servers|;
    inDegree := seq(n, _ => 0);
    deps := seq(n, _ => None);
    ghost var all := DepsOf(servers);
    var i := 0;
    while i < n
      invariant 0 <= i <= n && |deps| == |inDegree| == n
      invariant forall j :: 0 <= j < i && servers[j].resolver.Some? ==>
                  IndexOf(servers, servers[j].resolver.value).Some?
      invariant forall j :: 0 <= j < n ==> deps[j] == (if j < i then all[j] else None)
      invariant forall j :: 0 <= j < n ==> inDegree[j] == if deps[j].Some? then 1 else 0
      invariant InRange(deps)
    {
      if servers[i].resolver.Some? {
        var found := IndexOf(servers, servers[i].resolver.value);
        IndexOfFinds(servers, servers[i].resolver.value);
        if found.None? {
          return false, deps, inDegree;
        }
        var j := found.value;
        deps := deps[i := Some(j)];
        inDegree := inDegree[i := inDegree[i] + 1];
        if deps[j] == Some(i) {
          assert Follow(all, i, 2) == Follow(all, j, 1) == Follow(all, i, 0) == Some(i);
          return false, deps, inDegree;
        }
      }
      i := i + 1;
    }
    assert deps == all;
    ok := true;
  }

  /** Succeeds exactly when every resolver exists and no resolver chain closes; the order is then a permutation
      of the servers that puts each one after its resolver. */
  method ToposortServers(servers: seq<Server>) returns (r: Option<seq<nat>>)
    ensures r.Some? <==> ResolversExist(servers) && !Cyclic(DepsOf(servers))
    ensures r.Some? ==> Distinct(r.value) && |r.value| == |servers| && AfterResolvers(DepsOf(servers), r.value)
    ensures r.Some? ==> forall x: nat :: x < |servers| ==> x in r.value
  {
    var ok, deps, inDegree := Collect(servers);
    if !ok {
      return None;
    }
    var n := |servers|;
    var queue := InitialQueue(deps, inDegree);
    var order := [];
    assert order + queue == queue;
    while queue != []
      invariant Settled(deps, inDegree, queue, order, order, n)
      decreases n - |order|
    {
      var node := queue[0];
      assert (order + queue)[|order|] == node;
      FullWhenLong(order + queue, n);
      assert order + queue == order + [node] + queue[1..];
      assert node in order + queue && Released(deps, order, node);
      queue := queue[1..];
      ghost var before := order;
      PlaceOne(deps, order, node, order + [node] + queue);
      order := order + [node];
      queue, inDegree := Notify(deps, inDegree, queue, order, before, node);
    }
    assert order + queue == order;
    FullWhenLong(order, n);
    if |order| != n {
      SomethingIsStuck(deps, inDegree, order);
      return None;
    }
    PlacedMeansAcyclic(deps, order);
    r := Some(order);
  }

  method InitialQueue(deps: Deps, inDegree: seq<nat>) returns (queue: seq<nat>)
    requires |inDegree| == |deps| && forall i :: 0 <= i < |deps| ==> inDegree[i] == if deps[i].Some? then 1 else 0
    ensures Distinct(queue) && (forall j :: 0 <= j < |queue| ==> queue[j] < |deps|)
    ensures forall j :: 0 <= j < |deps| ==> (j in queue <==> deps[j].None?)
  {
    queue := [];
    var i := 0;
    while i < |deps|
      invariant 0 <= i <= |deps| && Distinct(queue) && forall j :: 0 <= j < |queue| ==> queue[j] < i
      invariant forall j :: 0 <= j < i ==> (j in queue <==> deps[j].None?)
    {
      if inDegree[i] == 0 {
        queue := queue + [i];
      }
      i := i + 1;
    }
  }

  lemma PlaceOne(deps: Deps, order: seq<nat>, node: nat, all: seq<nat>)
    requires AfterResolvers(deps, order) && node < |deps| && Released(deps, order, node)
    requires Distinct(all) && order + [node] <= all
    ensures AfterResolvers(deps, order + [node]) && node !in order
  {
    var longer := order + [node];
    forall i | 0 <= i < |longer|
      ensures longer[i] < |deps| && (deps[longer[i]].Some? ==> deps[longer[i]].value in longer[..i])
    {
      assert longer[..i] == order[..i];
    }
    assert all[|order|] == longer[|order|] == node;
    forall i | 0 <= i < |order| ensures order[i] != node {
      assert all[i] == longer[i] == order[i];
    }
  }

  /** The inner loop: every server that waited for `node` is released into the queue. */
  method Notify(deps: Deps, inDegree0: seq<nat>, queue0: seq<nat>, order: seq<nat>, ghost before: seq<nat>, node: nat)
    returns (queue: seq<nat>, inDegree: seq<nat>)
    requires order == before + [node] && node !in before
    requires Settled(deps, inDegree0, queue0, order, before, 0)
    ensures Settled(deps, inDegree, queue, order, order, |deps|)
  {
    queue, inDegree := queue0, inDegree0;
    var i := 0;
    while i < |deps|
      invariant 0 <= i <= |deps|
      invariant Settled(deps, inDegree, queue, order, before, i)
    {
      if deps[i] == Some(node) {
        inDegree := inDegree[i := inDegree[i] - 1];
        if inDegree[i] == 0 {
          assert order + (queue + [i]) == (order + queue) + [i];
          AppendKeepsDistinct(order + queue, i);
          queue := queue + [i];
        }
      }
      i := i + 1;
    }
  }

  lemma SomethingIsStuck(deps: Deps, inDegree: seq<nat>, order: seq<nat>)
    requires Settled(deps, inDegree, [], order, order, |deps|) && InRange(deps) && |order| != |deps|
    ensures Cyclic(deps)
  {
    assert order + [] == order;
    FullWhenLong(order, |deps|);
    var left := Below(|deps|) - Elems(order);
    var u: nat :| u < |deps| && u !in order;
    assert u in left;
    forall x | x in left
      ensures deps[x].Some? && deps[x].value in left
    {
      assert !Released(deps, order, x);
    }
    StuckMeansCyclic(deps, left, u);
  }

  /** Building the upstreams in that order: the resolver looked up for each server is already there. */
  method BuildUpstreams(servers: seq<Server>, order: seq<nat>) returns (ok: bool, built: set<string>)
    requires ResolversExist(servers) && AfterResolvers(DepsOf(servers), order)
    ensures ok && built == set i | i in order && i < |servers| :: servers[i].tag
  {
    ok, built := true, {};
    var k := 0;
    while ok && k < |order|
      invariant 0 <= k <= |order| && ok
      invariant built == set i | i in order[..k] && i < |servers| :: servers[i].tag
      decreases |order| - k
    {
      var srv := servers[order[k]];
      assert DepsOf(servers)[order[k]] == DepOf(servers, srv);
      if srv.resolver.Some? {
        IndexOfFinds(servers, srv.resolver.value);
        ok := srv.resolver.value in built;
      }
      assert order[..k + 1] == order[..k] + [order[k]];
      built := built + {srv.tag};
      k := k + 1;
    }
    assert order[..k] == order;
  }
}
