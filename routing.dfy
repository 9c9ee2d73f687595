/**
 * Weighted directed graphs and minimum-distance routing over them.
 * The graph is the view `find_path_with_weight` builds from the navigation data;
 * the search is Dijkstra's algorithm, specified by "a valid path whose total is
 * the sum of its edge weights and no more than that of any other path".
 */
module Routing {
  import opened Wrappers

  /** A directed graph: its vertices in the order they were added, and one weight per ordered pair. */
  datatype Digraph = Digraph(vertices: seq<string>, weight: map<(string, string), nat>)

  /** The vertex set. */
  function VertexSet(g: Digraph): set<string> {
    set v | v in g.vertices
  }

  /** Every edge joins two vertices of the graph. */
  ghost predicate Closed(g: Digraph) {
    forall e :: e in g.weight ==> e.0 in g.vertices && e.1 in g.vertices
  }

  /** The weight of the edge from `u` to `v`, or 0 if there is none. */
  function EdgeWeight(g: Digraph, u: string, v: string): nat {
    if (u, v) in g.weight then g.weight[(u, v)] else 0
  }

  /** `p` is a walk of vertices from `s` to `t` in which every consecutive pair is an edge. */
  ghost predicate IsPath(g: Digraph, p: seq<string>, s: string, t: string) {
    && |p| >= 1 && p[0] == s && p[|p| - 1] == t
    && (forall i :: 0 <= i < |p| ==> p[i] in g.vertices)
    && (forall i :: 0 <= i < |p| - 1 ==> (p[i], p[i + 1]) in g.weight)
  }

  /** The total distance of a walk: the sum of the weights of its consecutive pairs. */
  function Weight(g: Digraph, p: seq<string>): nat {
    if |p| < 2 then 0 else Weight(g, p[..|p| - 1]) + EdgeWeight(g, p[|p| - 2], p[|p| - 1])
  }

  /** The answer to a routing query: no route, or a path with its total distance. */
  datatype Route = NoRoute | Route(path: seq<string>, total: nat)

  /** A path extended by one edge is a path, and its weight grows by that edge's weight. */
  lemma PathExtend(g: Digraph, p: seq<string>, s: string, u: string, v: string)
    requires IsPath(g, p, s, u)
    requires (u, v) in g.weight && v in g.vertices
    ensures IsPath(g, p + [v], s, v)
    ensures Weight(g, p + [v]) == Weight(g, p) + g.weight[(u, v)]
  {
    var q := p + [v];
    assert q[..|q| - 1] == p;
    assert q[|q| - 2] == u;
    forall i | 0 <= i < |q| - 1 ensures (q[i], q[i + 1]) in g.weight {
      if i < |p| - 1 {
        assert q[i] == p[i] && q[i + 1] == p[i + 1];
      }
    }
  }

  /** Every non-empty prefix of a path is a path to its last vertex. */
  lemma PathPrefix(g: Digraph, p: seq<string>, s: string, t: string, k: nat)
    requires IsPath(g, p, s, t) && 1 <= k <= |p|
    ensures IsPath(g, p[..k], s, p[k - 1])
  {
    var q := p[..k];
    forall i | 0 <= i < |q| - 1 ensures (q[i], q[i + 1]) in g.weight {
      assert q[i] == p[i] && q[i + 1] == p[i + 1];
    }
  }

  /** The weight of a prefix extended by its next vertex. */
  lemma WeightPrefixStep(g: Digraph, p: seq<string>, k: nat)
    requires 1 <= k < |p|
    ensures Weight(g, p[..k + 1]) == Weight(g, p[..k]) + EdgeWeight(g, p[k - 1], p[k])
  {
    assert p[..k + 1][..k] == p[..k];
  }

  /** With non-negative weights no prefix of a walk weighs more than the walk. */
  lemma {:induction false} WeightPrefixBound(g: Digraph, p: seq<string>, k: nat)
    requires 1 <= k <= |p|
    ensures Weight(g, p[..k]) <= Weight(g, p)
  {
    if k < |p| {
      var q := p[..|p| - 1];
      assert q[..k] == p[..k];
      WeightPrefixBound(g, q, k);
      assert p[..|p|] == p;
    } else {
      assert p[..k] == p;
    }
  }

  /** The first position of `p` whose vertex is not in `done`. */
  lemma {:induction false} FirstOutside(p: seq<string>, done: set<string>) returns (k: nat)
    requires |p| >= 1 && p[|p| - 1] !in done
    ensures k < |p| && p[k] !in done
    ensures forall i :: 0 <= i < k ==> p[i] in done
  {
    if p[0] !in done {
      k := 0;
    } else {
      var k' := FirstOutside(p[1..], done);
      k := k' + 1;
      assert forall i :: 1 <= i < k ==> p[i] == p[1..][i - 1];
    }
  }

  // Invariants of the search. `dist` holds the tentative distances of the discovered
  // vertices, `route` a path realising each, and `done` the vertices already settled.

  /** Each discovered vertex has a path from `start` whose weight is its tentative distance. */
  ghost predicate Reached(g: Digraph, start: string, dist: map<string, nat>, route: map<string, seq<string>>) {
    && dist.Keys == route.Keys
    && forall v :: v in dist ==> IsPath(g, route[v], start, v) && Weight(g, route[v]) == dist[v]
  }

  /** The distance of a settled vertex is no more than the weight of any path to it. */
  ghost predicate Settled(g: Digraph, start: string, dist: map<string, nat>, done: set<string>) {
    && done <= dist.Keys
    && forall u, p :: u in done && IsPath(g, p, start, u) ==> dist[u] <= Weight(g, p)
  }

  /** Every edge leaving a settled vertex has been relaxed. */
  ghost predicate Relaxed(g: Digraph, dist: map<string, nat>, done: set<string>) {
    && done <= dist.Keys
    && forall u, v :: u in done && (u, v) in g.weight ==> v in dist && dist[v] <= dist[u] + g.weight[(u, v)]
  }

  /** The closest unsettled discovered vertex has its final distance. */
  lemma SettleClosest(g: Digraph, start: string, dist: map<string, nat>, done: set<string>, u: string)
    requires start in dist && dist[start] == 0
    requires Settled(g, start, dist, done) && Relaxed(g, dist, done)
    requires u in dist && u !in done
    requires forall v :: v in dist && v !in done ==> dist[u] <= dist[v]
    ensures Settled(g, start, dist, done + {u})
  {
    forall p | IsPath(g, p, start, u) ensures dist[u] <= Weight(g, p) {
      var k := FirstOutside(p, done);
      if k > 0 {
        PathPrefix(g, p, start, u, k);
        assert dist[p[k - 1]] <= Weight(g, p[..k]);
        assert (p[k - 1], p[k]) in g.weight;
        WeightPrefixStep(g, p, k);
        WeightPrefixBound(g, p, k + 1);
      }
    }
  }

  /** Once every discovered vertex is settled, every vertex reachable from `start` is discovered. */
  lemma {:induction false} Discovered(g: Digraph, start: string, dist: map<string, nat>, done: set<string>,
                                      p: seq<string>, t: string)
    requires start in dist && dist.Keys == done
    requires Relaxed(g, dist, done)
    requires IsPath(g, p, start, t)
    ensures t in dist
    decreases |p|
  {
    if |p| > 1 {
      var n := |p| - 1;
      PathPrefix(g, p, start, t, n);
      Discovered(g, start, dist, done, p[..n], p[n - 1]);
      assert (p[n - 1], p[n]) in g.weight;
    }
  }

  /** The discovered, unsettled vertex of least tentative distance, if there is one. */
  method SelectClosest(vs: seq<string>, dist: map<string, nat>, done: set<string>) returns (r: Option<string>)
    ensures r.None? ==> forall v :: v in vs && v in dist ==> v in done
    ensures r.Some? ==> r.value in vs && r.value in dist && r.value !in done
    ensures r.Some? ==> forall v :: v in vs && v in dist && v !in done ==> dist[r.value] <= dist[v]
  {
    r := None;
    var i := 0;
    while i < |vs|
      invariant 0 <= i <= |vs|
      invariant r.None? ==> forall j :: 0 <= j < i && vs[j] in dist ==> vs[j] in done
      invariant r.Some? ==> r.value in vs && r.value in dist && r.value !in done
      invariant r.Some? ==> forall j :: 0 <= j < i && vs[j] in dist && vs[j] !in done ==> dist[r.value] <= dist[vs[j]]
    {
      var v := vs[i];
      if v in dist && v !in done && (r.None? || dist[v] < dist[r.value]) {
        r := Some(v);
      }
      i := i + 1;
    }
  }

  /** Settledness only depends on the distances of the settled vertices. */
  lemma SettledStable(g: Digraph, start: string, d1: map<string, nat>, d2: map<string, nat>, settled: set<string>)
    requires Settled(g, start, d1, settled)
    requires forall x :: x in settled ==> x in d2 && d2[x] == d1[x]
    ensures Settled(g, start, d2, settled)
  {
  }

  /** Lowering the distances of unsettled vertices keeps the relaxed edges relaxed. */
  lemma RelaxedStable(g: Digraph, d1: map<string, nat>, d2: map<string, nat>, done: set<string>)
    requires Relaxed(g, d1, done)
    requires forall x :: x in d1 ==> x in d2 && d2[x] <= d1[x]
    requires forall x :: x in done ==> d2[x] == d1[x]
    ensures Relaxed(g, d2, done)
  {
  }

  /** The edges from `u` to the first `j` vertices are relaxed. */
  ghost predicate RelaxedUpTo(g: Digraph, u: string, dist: map<string, nat>, j: int) {
    && u in dist
    && forall i :: 0 <= i < j && i < |g.vertices| && (u, g.vertices[i]) in g.weight ==>
      g.vertices[i] in dist && dist[g.vertices[i]] <= dist[u] + g.weight[(u, g.vertices[i])]
  }

  /** Relaxing the edge to the next vertex extends the relaxed prefix by one. */
  lemma RelaxedPrefixStable(g: Digraph, u: string, d1: map<string, nat>, d2: map<string, nat>, j: nat)
    requires j < |g.vertices|
    requires RelaxedUpTo(g, u, d1, j)
    requires forall x :: x in d1 ==> x in d2 && d2[x] <= d1[x]
    requires d2[u] == d1[u]
    requires (u, g.vertices[j]) in g.weight ==> g.vertices[j] in d2 && d2[g.vertices[j]] <= d2[u] + g.weight[(u, g.vertices[j])]
    ensures RelaxedUpTo(g, u, d2, j + 1)
  {
    forall i | 0 <= i < j + 1 && (u, g.vertices[i]) in g.weight
      ensures g.vertices[i] in d2 && d2[g.vertices[i]] <= d2[u] + g.weight[(u, g.vertices[i])]
    {
      if i < j {
        var x := g.vertices[i];
        assert x in d1 && d1[x] <= d1[u] + g.weight[(u, x)];
      }
    }
  }

  /** Once every edge from `u` is relaxed, `u` joins the settled and relaxed vertices. */
  lemma RelaxFinish(g: Digraph, start: string, u: string, d1: map<string, nat>, d2: map<string, nat>,
                    done: set<string>)
    requires Closed(g)
    requires Settled(g, start, d1, done + {u}) && Relaxed(g, d1, done)
    requires forall x :: x in d1 ==> x in d2 && d2[x] <= d1[x]
    requires forall x :: x in done + {u} ==> x in d2 && d2[x] == d1[x]
    requires RelaxedUpTo(g, u, d2, |g.vertices|)
    ensures Settled(g, start, d2, done + {u}) && Relaxed(g, d2, done + {u})
  {
    SettledStable(g, start, d1, d2, done + {u});
    RelaxedStable(g, d1, d2, done);
    forall x, y | x in done + {u} && (x, y) in g.weight
      ensures y in d2 && d2[y] <= d2[x] + g.weight[(x, y)]
    {
      if x == u {
        var i :| 0 <= i < |g.vertices| && g.vertices[i] == y;
      }
    }
  }

  /**
   * Relaxes the edge from the settled vertex `u` to `v`, if there is one: an unsettled `v`
   * gets the distance through `u` and the path through `u` when that is shorter.
   */
  method RelaxEdge(g: Digraph, start: string, u: string, v: string, dist: map<string, nat>,
                   route: map<string, seq<string>>, settled: set<string>, ghost base: map<string, nat>)
    returns (dist': map<string, nat>, route': map<string, seq<string>>)
    requires Closed(g)
    requires start in dist && dist[start] == 0 && u in settled
    requires dist.Keys <= VertexSet(g)
    requires Reached(g, start, dist, route)
    requires Settled(g, start, base, settled)
    requires forall x :: x in settled ==> x in dist && dist[x] == base[x]
    ensures start in dist' && dist'[start] == 0
    ensures dist'.Keys <= VertexSet(g)
    ensures Reached(g, start, dist', route')
    ensures forall x :: x in dist ==> x in dist' && dist'[x] <= dist[x]
    ensures forall x :: x in settled ==> dist'[x] == dist[x]
    ensures (u, v) in g.weight ==> v in dist' && dist'[v] <= dist'[u] + g.weight[(u, v)]
  {
    dist', route' := dist, route;
    if (u, v) in g.weight {
      var d, p := dist[u] + g.weight[(u, v)], route[u] + [v];
      assert IsPath(g, p, start, v) && Weight(g, p) == d by {
        PathExtend(g, route[u], start, u, v);
      }
      if v in settled {
        assert base[v] <= d;
      } else if v !in dist || d < dist[v] {
        ReachedUpdate(g, start, dist, route, v, p, d);
        dist', route' := dist[v := d], route[v := p];
      }
    }
  }

  /** Recording a path to `v` with its weight keeps every recorded path valid. */
  lemma ReachedUpdate(g: Digraph, start: string, dist: map<string, nat>, route: map<string, seq<string>>,
                      v: string, p: seq<string>, d: nat)
    requires Reached(g, start, dist, route) && IsPath(g, p, start, v) && Weight(g, p) == d
    ensures Reached(g, start, dist[v := d], route[v := p])
  {
  }

  /**
   * Settles `u` and relaxes every edge leaving it: a neighbour not yet settled gets the
   * distance through `u` when that is shorter, and the path through `u` with it.
   */
  method RelaxFrom(g: Digraph, start: string, u: string, dist: map<string, nat>,
                   route: map<string, seq<string>>, done: set<string>)
    returns (dist': map<string, nat>, route': map<string, seq<string>>)
    requires Closed(g)
    requires start in dist && dist[start] == 0 && u in dist && u !in done
    requires dist.Keys <= VertexSet(g)
    requires Reached(g, start, dist, route)
    requires Settled(g, start, dist, done + {u}) && Relaxed(g, dist, done)
    ensures start in dist' && dist'[start] == 0
    ensures dist'.Keys <= VertexSet(g)
    ensures forall x :: x in dist ==> x in dist' && dist'[x] <= dist[x]
    ensures Reached(g, start, dist', route')
    ensures Settled(g, start, dist', done + {u}) && Relaxed(g, dist', done + {u})
  {
    dist', route' := dist, route;
    var settled := done + {u};
    var j := 0;
    while j < |g.vertices|
      invariant 0 <= j <= |g.vertices|
      invariant start in dist' && dist'[start] == 0
      invariant dist'.Keys <= VertexSet(g)
      invariant Reached(g, start, dist', route')
      invariant forall x :: x in dist ==> x in dist' && dist'[x] <= dist[x]
      invariant forall x :: x in settled ==> x in dist' && dist'[x] == dist[x]
      invariant RelaxedUpTo(g, u, dist', j)
    {
      ghost var before := dist';
      dist', route' := RelaxEdge(g, start, u, g.vertices[j], dist', route', settled, dist);
      RelaxedPrefixStable(g, u, before, dist', j);
      j := j + 1;
    }
    RelaxFinish(g, start, u, dist, dist', done);
  }

  /**
   * Dijkstra's algorithm: a minimum-weight path from `start` to `end`, or NoRoute
   * exactly when there is none (in particular when either is not a vertex).
   */
  method ShortestPath(g: Digraph, start: string, end: string) returns (r: Route)
    requires Closed(g)
    ensures r.NoRoute? ==> forall p :: !IsPath(g, p, start, end)
    ensures r.Route? ==> IsPath(g, r.path, start, end) && r.total == Weight(g, r.path)
    ensures r.Route? ==> forall p :: IsPath(g, p, start, end) ==> r.total <= Weight(g, p)
  {
    if start !in g.vertices {
      return NoRoute;
    }
    var dist: map<string, nat> := map[start := 0];
    var route: map<string, seq<string>> := map[start := [start]];
    var done: set<string> := {};
    var next := SelectClosest(g.vertices, dist, done);
    while next.Some?
      invariant start in dist && dist[start] == 0
      invariant dist.Keys <= VertexSet(g)
      invariant Reached(g, start, dist, route)
      invariant Settled(g, start, dist, done)
      invariant Relaxed(g, dist, done)
      invariant next.None? ==> forall v :: v in g.vertices && v in dist ==> v in done
      invariant next.Some? ==> next.value in dist && next.value !in done
      invariant next.Some? ==> forall v :: v in g.vertices && v in dist && v !in done ==> dist[next.value] <= dist[v]
      decreases VertexSet(g) - done
    {
      var u := next.value;
      SettleClosest(g, start, dist, done, u);
      dist, route := RelaxFrom(g, start, u, dist, route, done);
      done := done + {u};
      next := SelectClosest(g.vertices, dist, done);
    }
    if end in dist {
      r := Route(route[end], dist[end]);
    } else {
      forall p ensures !IsPath(g, p, start, end) {
        if IsPath(g, p, start, end) {
          Discovered(g, start, dist, done, p, end);
        }
      }
      r := NoRoute;
    }
  }
}
