/**
 * The navigation data: locations (`nodes`), each with its ordered paths, and the
 * connections between them, with the pure functions that the handlers and the
 * router are specified by.
 */
module NavData {
  import opened Wrappers
  import opened OrderedMap
  import opened Text
  import opened ConnectionKeys
  import opened Routing

  /** One path leaving a location: the fields of `nodes[name][path_key]`. */
  datatype PathRecord = PathRecord(pathLabel: string, distance: int, instruction: string, landmark: string,
                                   images: seq<string>)

  /** `connections[key]`: the `from`, `to` and `path_key` fields. */
  datatype Connection = Connection(from: string, to: string, pathKey: string)

  type Paths = OMap<string, PathRecord>
  type Nodes = OMap<string, Paths>
  type Connections = OMap<string, Connection>

  /** Every location's path map is a well-formed dict. */
  ghost predicate ValidNodes(nodes: Nodes) {
    nodes.Valid() && forall n :: n in nodes.m ==> nodes.m[n].Valid()
  }

  /** The connection records in the dict's iteration order. */
  function ConnectionList(conns: Connections): (cs: seq<Connection>)
    requires conns.Valid()
    ensures |cs| == |conns.keys|
    ensures forall i :: 0 <= i < |cs| ==> cs[i] == conns.m[conns.keys[i]]
  {
    seq(|conns.keys|, i requires 0 <= i < |conns.keys| => conns.m[conns.keys[i]])
  }

  // ---------------------------------------------------------------------------
  // Graph construction (find_path_with_weight)

  /** `nodes[c.from][c.path_key]` exists, so reading the connection's distance raises no KeyError. */
  predicate Resolves(nodes: Nodes, c: Connection) {
    c.from in nodes.m && c.pathKey in nodes.m[c.from].m
  }

  /** The live distance of the path a connection runs along. */
  function DistanceOf(nodes: Nodes, c: Connection): int
    requires Resolves(nodes, c)
  {
    nodes.m[c.from].m[c.pathKey].distance
  }

  /** Every connection resolves. */
  predicate AllResolve(nodes: Nodes, conns: Connections) {
    forall k :: k in conns.m ==> Resolves(nodes, conns.m[k])
  }

  /** A scan that found every listed connection resolving has seen them all. */
  lemma ListedAllResolve(nodes: Nodes, conns: Connections)
    requires conns.Valid()
    requires forall j :: 0 <= j < |conns.keys| ==> Resolves(nodes, conns.m[conns.keys[j]])
    ensures AllResolve(nodes, conns)
  {
    forall k | k in conns.m ensures Resolves(nodes, conns.m[k]) {
      var j :| 0 <= j < |conns.keys| && conns.keys[j] == k;
    }
  }

  /** Every connection that resolves runs along a path of non-negative distance. */
  predicate NonNegativeDistances(nodes: Nodes, conns: Connections) {
    forall k :: k in conns.m && Resolves(nodes, conns.m[k]) ==> DistanceOf(nodes, conns.m[k]) >= 0
  }

  /** A connection that can become an edge: it resolves and its distance is non-negative. */
  predicate Routable(nodes: Nodes, c: Connection) {
    Resolves(nodes, c) && DistanceOf(nodes, c) >= 0
  }

  /** The edge weights after `add_edge` for each connection in turn: a later one for the same pair overwrites. */
  function EdgeMap(nodes: Nodes, cs: seq<Connection>): map<(string, string), nat>
    requires forall i :: 0 <= i < |cs| ==> Routable(nodes, cs[i])
  {
    if cs == [] then map[]
    else
      var c := cs[|cs| - 1];
      assert Routable(nodes, c);
      EdgeMap(nodes, cs[..|cs| - 1])[(c.from, c.to) := DistanceOf(nodes, c) as nat]
  }

  /** The vertices: every node name in order, then each connection target `add_edge` adds. */
  function GraphVertices(names: seq<string>, cs: seq<Connection>): seq<string> {
    if cs == [] then names
    else
      var vs := GraphVertices(names, cs[..|cs| - 1]);
      var t := cs[|cs| - 1].to;
      if t in vs then vs else vs + [t]
  }

  /** The graph `find_path_with_weight` builds from the current data. */
  function GraphOf(nodes: Nodes, conns: Connections): Digraph
    requires conns.Valid()
    requires AllResolve(nodes, conns) && NonNegativeDistances(nodes, conns)
  {
    var cs := ConnectionList(conns);
    Digraph(GraphVertices(nodes.keys, cs), EdgeMap(nodes, cs))
  }

  /** Adding the edges and vertices of one more connection, as `add_edge` does. */
  lemma GraphStep(nodes: Nodes, names: seq<string>, cs: seq<Connection>, i: nat)
    requires i < |cs| && forall j :: 0 <= j <= i ==> Routable(nodes, cs[j])
    ensures EdgeMap(nodes, cs[..i + 1]) == EdgeMap(nodes, cs[..i])[(cs[i].from, cs[i].to) := DistanceOf(nodes, cs[i]) as nat]
    ensures GraphVertices(names, cs[..i + 1]) ==
      var vs := GraphVertices(names, cs[..i]);
      if cs[i].to in vs then vs else vs + [cs[i].to]
  {
    assert cs[..i + 1][..i] == cs[..i];
    assert Routable(nodes, cs[i]);
  }

  /** The vertices are exactly the node names and the connection targets. */
  lemma {:induction false} GraphVerticesAre(names: seq<string>, cs: seq<Connection>)
    ensures forall v :: v in GraphVertices(names, cs) <==> v in names || exists i :: 0 <= i < |cs| && cs[i].to == v
  {
    if cs != [] {
      var n := |cs| - 1;
      GraphVerticesAre(names, cs[..n]);
      assert forall i :: 0 <= i < n ==> cs[..n][i] == cs[i];
    }
  }

  /** Some connection runs between the pair `e` with distance `w`, and no later connection runs between that pair. */
  ghost predicate LastConnection(nodes: Nodes, cs: seq<Connection>, e: (string, string), w: int)
    requires forall i :: 0 <= i < |cs| ==> Routable(nodes, cs[i])
  {
    exists i :: 0 <= i < |cs| && (cs[i].from, cs[i].to) == e && Routable(nodes, cs[i]) && w == DistanceOf(nodes, cs[i]) &&
      forall j :: i < j < |cs| ==> (cs[j].from, cs[j].to) != e
  }

  /** A pair that the appended connection does not join keeps its last connection. */
  lemma LastConnectionExtend(nodes: Nodes, cs: seq<Connection>, e: (string, string), w: int)
    requires cs != [] && forall i :: 0 <= i < |cs| ==> Routable(nodes, cs[i])
    requires LastConnection(nodes, cs[..|cs| - 1], e, w)
    requires e != (cs[|cs| - 1].from, cs[|cs| - 1].to)
    ensures LastConnection(nodes, cs, e, w)
  {
    var n := |cs| - 1;
    var pre := cs[..n];
    var i :| 0 <= i < n && (pre[i].from, pre[i].to) == e && Routable(nodes, pre[i]) && w == DistanceOf(nodes, pre[i]) &&
      forall j :: i < j < n ==> (pre[j].from, pre[j].to) != e;
    assert pre[i] == cs[i];
    assert forall j :: i < j < n ==> pre[j] == cs[j];
  }

  /** Every connection's pair is an edge. */
  lemma {:induction false} EdgeMapCovers(nodes: Nodes, cs: seq<Connection>)
    requires forall i :: 0 <= i < |cs| ==> Routable(nodes, cs[i])
    ensures forall i :: 0 <= i < |cs| ==> (cs[i].from, cs[i].to) in EdgeMap(nodes, cs)
  {
    if cs != [] {
      var n := |cs| - 1;
      var pre := cs[..n];
      EdgeMapCovers(nodes, pre);
      forall i | 0 <= i < n ensures (cs[i].from, cs[i].to) in EdgeMap(nodes, cs) {
        assert pre[i] == cs[i];
      }
    }
  }

  /**
   * Every edge is weighted by the distance of the LAST connection between its pair in
   * iteration order, so no pair that no connection joins is an edge.
   */
  lemma {:induction false} EdgeMapLastWins(nodes: Nodes, cs: seq<Connection>)
    requires forall i :: 0 <= i < |cs| ==> Routable(nodes, cs[i])
    ensures forall e :: e in EdgeMap(nodes, cs) ==> LastConnection(nodes, cs, e, EdgeMap(nodes, cs)[e])
  {
    if cs != [] {
      var n := |cs| - 1;
      var pre := cs[..n];
      EdgeMapLastWins(nodes, pre);
      var em := EdgeMap(nodes, cs);
      var last := (cs[n].from, cs[n].to);
      assert Routable(nodes, cs[n]);
      assert em == EdgeMap(nodes, pre)[last := DistanceOf(nodes, cs[n]) as nat];
      forall e | e in em
        ensures LastConnection(nodes, cs, e, em[e])
      {
        if e == last {
          assert em[e] == DistanceOf(nodes, cs[n]);
        } else {
          LastConnectionExtend(nodes, cs, e, em[e]);
        }
      }
    }
  }

  /** The graph has every node name as a vertex, and every edge joins two of its vertices. */
  lemma GraphOfClosed(nodes: Nodes, conns: Connections)
    requires ValidNodes(nodes) && conns.Valid()
    requires AllResolve(nodes, conns) && NonNegativeDistances(nodes, conns)
    ensures forall n :: n in nodes.m ==> n in GraphOf(nodes, conns).vertices
    ensures Closed(GraphOf(nodes, conns))
  {
    var cs := ConnectionList(conns);
    var g := GraphOf(nodes, conns);
    GraphVerticesAre(nodes.keys, cs);
    assert forall i :: 0 <= i < |cs| ==> Routable(nodes, cs[i]) by {
      forall i | 0 <= i < |cs| ensures Routable(nodes, cs[i]) {
        assert conns.keys[i] in conns.m;
      }
    }
    EdgeMapLastWins(nodes, cs);
    forall e | e in g.weight ensures e.0 in g.vertices && e.1 in g.vertices {
      var i :| 0 <= i < |cs| && (cs[i].from, cs[i].to) == e;
      assert cs[i].from in nodes.m;
    }
  }

  // ---------------------------------------------------------------------------
  // Step resolution (display_navigation)

  /** Where the scan for a connection from `current` to `next` stopped. */
  datatype Match =
    | Hit(index: nat, pathKey: string)   // the first key that decodes to current::pathKey::next
    | Miss                               // no key does
    | BadKey(index: nat)                 // unpacking this key's split into three raised ValueError

  /** Decoded key parts that run from `current` to `next`. */
  predicate Joins(parts: seq<string>, current: string, next: string) {
    |parts| == 3 && parts[0] == current && parts[2] == next
  }

  /** Scans the keys from position `from` on for the first one that decodes to a connection from `current` to `next`. */
  function FirstMatch(ks: seq<string>, current: string, next: string, from: nat): (r: Match)
    requires from <= |ks|
    ensures r.Hit? ==> from <= r.index < |ks| && Split(ks[r.index]) == [current, r.pathKey, next]
    ensures r.BadKey? ==> from <= r.index < |ks| && |Split(ks[r.index])| != 3
    decreases |ks| - from
  {
    if from == |ks| then Miss
    else
      var parts := Split(ks[from]);
      if |parts| != 3 then BadKey(from)
      else if parts[0] == current && parts[2] == next then Hit(from, parts[1])
      else FirstMatch(ks, current, next, from + 1)
  }

  /** Every key the scan passes over splits into three parts and does not run from `current` to `next`. */
  lemma {:induction false} FirstMatchSkips(ks: seq<string>, current: string, next: string, from: nat)
    requires from <= |ks|
    ensures forall j :: from <= j < |ks| && (FirstMatch(ks, current, next, from).Miss? || j < FirstMatch(ks, current, next, from).index) ==>
      |Split(ks[j])| == 3 && !Joins(Split(ks[j]), current, next)
    decreases |ks| - from
  {
    if from < |ks| && |Split(ks[from])| == 3 && !Joins(Split(ks[from]), current, next) {
      FirstMatchSkips(ks, current, next, from + 1);
    }
  }

  /** What `display_navigation` shows for one consecutive pair of the route. */
  datatype Step = Step(number: nat, from: string, to: string, pathKey: string, record: PathRecord)

  /**
   * The step for the pair (`current`, `next`): the path of the first connection between them,
   * none if there is no connection or its path key is empty, or the exception raised on the way.
   */
  function ResolveStep(nodes: Nodes, ks: seq<string>, current: string, next: string, number: nat): Outcome<Option<Step>> {
    match FirstMatch(ks, current, next, 0)
    case BadKey(i) => Raised(ValueError)
    case Miss => Ok(None)
    case Hit(i, pk) =>
      if pk == "" then Ok(None)
      else if current in nodes.m && pk in nodes.m[current].m then Ok(Some(Step(number, current, next, pk, nodes.m[current].m[pk])))
      else Raised(KeyError)
  }

  /**
   * What `display_navigation` has put on the page: the steps shown so far and, when the
   * loop ended with an uncaught exception, that exception, which follows those steps.
   */
  datatype Display = Display(steps: seq<Step>, raised: Option<PyError>)

  /** The display after the first `n` consecutive pairs of `path`; nothing more is shown after an exception. */
  function Itinerary(nodes: Nodes, ks: seq<string>, path: seq<string>, n: nat): Display
    requires n < |path| || n == 0
  {
    if n == 0 then Display([], None)
    else
      var prev := Itinerary(nodes, ks, path, n - 1);
      if prev.raised.Some? then prev
      else
        match ResolveStep(nodes, ks, path[n - 1], path[n], n)
        case Raised(e) => Display(prev.steps, Some(e))
        case Ok(None) => prev
        case Ok(Some(s)) => Display(prev.steps + [s], None)
  }

  /** The number of consecutive pairs `range(len(path) - 1)` visits. */
  function PairCount(path: seq<string>): nat {
    if |path| == 0 then 0 else |path| - 1
  }

  /** Once an exception is raised, the display of every longer prefix is the same. */
  lemma {:induction false} ItineraryRaisedStays(nodes: Nodes, ks: seq<string>, path: seq<string>, n: nat, m: nat)
    requires n <= m && (m < |path| || m == 0)
    requires Itinerary(nodes, ks, path, n).raised.Some?
    ensures Itinerary(nodes, ks, path, m) == Itinerary(nodes, ks, path, n)
    decreases m - n
  {
    if n < m {
      ItineraryRaisedStays(nodes, ks, path, n, m - 1);
    }
  }

  /** The step the display adds for pair `n`, if any: none once an exception was raised. */
  function ShownAt(nodes: Nodes, ks: seq<string>, path: seq<string>, n: nat): (r: seq<Step>)
    requires 1 <= n < |path|
    ensures r == [] || (|r| == 1 && Itinerary(nodes, ks, path, n - 1).raised.None? &&
                        ResolveStep(nodes, ks, path[n - 1], path[n], n) == Ok(Some(r[0])))
  {
    if Itinerary(nodes, ks, path, n - 1).raised.Some? then []
    else
      match ResolveStep(nodes, ks, path[n - 1], path[n], n)
      case Ok(Some(s)) => [s]
      case _ => []
  }

  /** Pair `n` adds at most its own step to those shown before it. */
  lemma ItineraryStep(nodes: Nodes, ks: seq<string>, path: seq<string>, n: nat)
    requires 1 <= n < |path|
    ensures Itinerary(nodes, ks, path, n).steps == Itinerary(nodes, ks, path, n - 1).steps + ShownAt(nodes, ks, path, n)
  {
  }

  /** Steps once shown stay on the page: the steps of a shorter prefix come first in a longer one. */
  lemma {:induction false} ItineraryGrows(nodes: Nodes, ks: seq<string>, path: seq<string>, n: nat, m: nat)
    requires n <= m && (m < |path| || m == 0)
    ensures Itinerary(nodes, ks, path, n).steps <= Itinerary(nodes, ks, path, m).steps
    decreases m - n
  {
    if n < m {
      ItineraryGrows(nodes, ks, path, n, m - 1);
      ItineraryStep(nodes, ks, path, m);
    }
  }

  /**
   * An exception ends the display where it is raised: at some pair `k` the steps of the
   * pairs before it are shown, and resolving pair `k` raises that exception.
   */
  lemma {:induction false} ItineraryStopsAt(nodes: Nodes, ks: seq<string>, path: seq<string>, n: nat)
    requires n < |path| || n == 0
    requires Itinerary(nodes, ks, path, n).raised.Some?
    ensures exists k :: (0 <= k < n && Itinerary(nodes, ks, path, k).raised.None? &&
                         Itinerary(nodes, ks, path, n).steps == Itinerary(nodes, ks, path, k).steps &&
                         ResolveStep(nodes, ks, path[k], path[k + 1], k + 1) == Raised(Itinerary(nodes, ks, path, n).raised.value))
  {
    var prev := Itinerary(nodes, ks, path, n - 1);
    if prev.raised.Some? {
      ItineraryStopsAt(nodes, ks, path, n - 1);
    } else {
      assert 0 <= n - 1 < n && Itinerary(nodes, ks, path, n - 1).raised.None?;
    }
  }

  /**
   * `s` is the step of the pair (`path[s.number - 1]`, `path[s.number]`), one of the first `n`: it
   * uses the path of the first connection between that pair and shows that path's record.
   */
  ghost predicate StepOfPair(nodes: Nodes, ks: seq<string>, path: seq<string>, n: nat, s: Step) {
    && 1 <= s.number <= n && s.number < |path|
    && s.from == path[s.number - 1] && s.to == path[s.number]
    && (exists j :: FirstMatch(ks, s.from, s.to, 0) == Hit(j, s.pathKey))
    && s.from in nodes.m && s.pathKey in nodes.m[s.from].m
    && s.record == nodes.m[s.from].m[s.pathKey]
  }

  /**
   * Every step shown belongs to one of the first `n` consecutive pairs and uses
   * the path of the first connection between that pair in iteration order.
   */
  lemma {:induction false} ItineraryStepsOfPairs(nodes: Nodes, ks: seq<string>, path: seq<string>, n: nat, steps: seq<Step>)
    requires n < |path| || n == 0
    requires Itinerary(nodes, ks, path, n).steps == steps
    ensures forall i :: 0 <= i < |steps| ==> StepOfPair(nodes, ks, path, n, steps[i])
  {
    if n > 0 {
      var pre, added := Itinerary(nodes, ks, path, n - 1).steps, ShownAt(nodes, ks, path, n);
      assert steps == pre + added by {
        ItineraryStep(nodes, ks, path, n);
      }
      ItineraryStepsOfPairs(nodes, ks, path, n - 1, pre);
      forall i | 0 <= i < |steps| ensures StepOfPair(nodes, ks, path, n, steps[i]) {
        if i < |pre| {
          assert StepOfPair(nodes, ks, path, n - 1, pre[i]);
        } else {
          assert steps[i] == added[0];
        }
      }
    }
  }

  /** The steps of the first `n` pairs are numbered 1 to `n`. */
  lemma {:induction false} ItineraryNumbersBelow(nodes: Nodes, ks: seq<string>, path: seq<string>, n: nat, steps: seq<Step>)
    requires n < |path| || n == 0
    requires Itinerary(nodes, ks, path, n).steps == steps
    ensures forall i :: 0 <= i < |steps| ==> 1 <= steps[i].number <= n
  {
    if n > 0 {
      var pre, added := Itinerary(nodes, ks, path, n - 1).steps, ShownAt(nodes, ks, path, n);
      assert steps == pre + added by {
        ItineraryStep(nodes, ks, path, n);
      }
      ItineraryNumbersBelow(nodes, ks, path, n - 1, pre);
    }
  }

  /** The steps come in route order: their numbers strictly increase. */
  lemma {:induction false} ItineraryInOrder(nodes: Nodes, ks: seq<string>, path: seq<string>, n: nat, steps: seq<Step>)
    requires n < |path| || n == 0
    requires Itinerary(nodes, ks, path, n).steps == steps
    ensures forall i, j :: 0 <= i < j < |steps| ==> steps[i].number < steps[j].number
  {
    if n > 0 {
      var pre, added := Itinerary(nodes, ks, path, n - 1).steps, ShownAt(nodes, ks, path, n);
      assert steps == pre + added by {
        ItineraryStep(nodes, ks, path, n);
      }
      ItineraryInOrder(nodes, ks, path, n - 1, pre);
      if added != [] {
        ItineraryNumbersBelow(nodes, ks, path, n - 1, pre);
        assert added[0].number == n;
      }
    }
  }

  /** A pair with no connection between it has no step. */
  lemma ItinerarySkipsUnlinked(nodes: Nodes, ks: seq<string>, path: seq<string>, n: nat, steps: seq<Step>)
    requires n < |path| || n == 0
    requires Itinerary(nodes, ks, path, n).steps == steps
    ensures forall i, s :: 0 <= i < n && FirstMatch(ks, path[i], path[i + 1], 0).Miss? && s in steps ==> s.number != i + 1
  {
    ItineraryStepsOfPairs(nodes, ks, path, n, steps);
  }

  /**
   * A pair the display reaches without an exception, whose first connection has a non-empty
   * path key, gets a step: the record of that path, numbered by the pair's position.
   */
  lemma ItineraryShowsLinked(nodes: Nodes, ks: seq<string>, path: seq<string>, n: nat, i: nat, j: nat, pk: string)
    requires i < n < |path|
    requires Itinerary(nodes, ks, path, i + 1).raised.None?
    requires FirstMatch(ks, path[i], path[i + 1], 0) == Hit(j, pk) && pk != ""
    ensures exists s :: s in Itinerary(nodes, ks, path, n).steps && s.number == i + 1 && s.pathKey == pk
  {
    var prev := Itinerary(nodes, ks, path, i);
    assert prev.raised.None?;
    var rs := ResolveStep(nodes, ks, path[i], path[i + 1], i + 1);
    assert rs.Ok? && rs.value.Some?;
    var s := rs.value.value;
    assert Itinerary(nodes, ks, path, i + 1).steps == prev.steps + [s];
    ItineraryGrows(nodes, ks, path, i + 1, n);
    assert s in Itinerary(nodes, ks, path, i + 1).steps;
  }

  // ---------------------------------------------------------------------------
  // Cascades of the delete handlers

  /** `delete_node`'s test: `name` occurs in the first or in the last `::` segment of the key. */
  predicate TouchesNode(name: string, key: string) {
    var parts := Split(key);
    IsSubstring(name, parts[0]) || IsSubstring(name, parts[|parts| - 1])
  }

  /** The connection keys `delete_node(name)` removes. */
  function TouchingKeys(conns: Connections, name: string): set<string> {
    set k | k in conns.m && TouchesNode(name, k)
  }

  /** The keys among `ks` that `delete_node(name)` matches. */
  function TouchingAmong(ks: seq<string>, name: string): set<string> {
    set k | k in ks && TouchesNode(name, k)
  }

  /** One more key of the snapshot visited. */
  lemma TouchingAmongStep(ks: seq<string>, name: string, j: nat)
    requires j < |ks|
    ensures TouchingAmong(ks[..j + 1], name) ==
      if TouchesNode(name, ks[j]) then TouchingAmong(ks[..j], name) + {ks[j]} else TouchingAmong(ks[..j], name)
  {
    assert ks[..j + 1] == ks[..j] + [ks[j]];
  }

  /** The whole snapshot of the keys. */
  lemma TouchingAmongAll(conns: Connections, name: string)
    requires conns.Valid()
    ensures TouchingAmong(conns.keys, name) == TouchingKeys(conns, name)
  {
  }

  /** `delete_path`'s test: the key contains `node::path_key`. */
  predicate UsesPath(node: string, pathKey: string, key: string) {
    IsSubstring(node + Sep + pathKey, key)
  }

  /** The connection keys `delete_path(node, path_key)` removes. */
  function PathUserKeys(conns: Connections, node: string, pathKey: string): set<string> {
    set k | k in conns.m && UsesPath(node, pathKey, k)
  }

  /** The keys among `ks` that `delete_path(node, pathKey)` matches. */
  function PathUsersAmong(ks: seq<string>, node: string, pathKey: string): set<string> {
    set k | k in ks && UsesPath(node, pathKey, k)
  }

  /** One more key of the snapshot visited. */
  lemma PathUsersAmongStep(ks: seq<string>, node: string, pathKey: string, j: nat)
    requires j < |ks|
    ensures PathUsersAmong(ks[..j + 1], node, pathKey) ==
      if UsesPath(node, pathKey, ks[j]) then PathUsersAmong(ks[..j], node, pathKey) + {ks[j]}
      else PathUsersAmong(ks[..j], node, pathKey)
  {
    assert ks[..j + 1] == ks[..j] + [ks[j]];
  }

  /** The whole snapshot of the keys. */
  lemma PathUsersAmongAll(conns: Connections, node: string, pathKey: string)
    requires conns.Valid()
    ensures PathUsersAmong(conns.keys, node, pathKey) == PathUserKeys(conns, node, pathKey)
  {
  }

  /** After the cascade of `delete_node(name)` no key decodes to a source or a target equal to `name`. */
  lemma NoEndpointSurvives(conns: Connections, name: string)
    requires conns.Valid()
    ensures forall k :: k in conns.RemoveAll(TouchingKeys(conns, name)).m ==>
      Split(k)[0] != name && Split(k)[|Split(k)| - 1] != name
  {
    var rest := conns.RemoveAll(TouchingKeys(conns, name));
    SubstringOfPrefix(name, name);
    forall k | k in rest.m
      ensures Split(k)[0] != name && Split(k)[|Split(k)| - 1] != name
    {
      assert k in conns.m && k !in TouchingKeys(conns, name);
      assert !TouchesNode(name, k);
    }
  }

  /** A connection linked from or to `name` is removed by `delete_node(name)`, whenever its key decodes back. */
  lemma LinkTouchesItsEnds(source: string, pathKey: string, target: string)
    requires !HasSep(source) && !HasSep(pathKey) && !HasSep(target)
    requires !EndsWithColon(source) && !EndsWithColon(pathKey)
    ensures TouchesNode(source, Encode(source, pathKey, target))
    ensures TouchesNode(target, Encode(source, pathKey, target))
  {
    KeyRoundTrip(source, pathKey, target);
    SubstringOfPrefix(source, source);
    SubstringOfPrefix(target, target);
  }

  /** Substring matching reaches beyond the node: deleting "A" also removes a connection of "AB". */
  lemma DeleteNodeMatchesSubstring()
    ensures TouchesNode("A", Encode("AB", "path_1", "C"))
  {
    assert !HasSep("AB") by {
      forall i | 0 <= i < 1 ensures !("AB"[i] == ':' && "AB"[i + 1] == ':') {
        assert "AB"[0] == 'A';
      }
    }
    assert !HasSep("path_1") by {
      forall i | 0 <= i < 5 ensures !("path_1"[i] == ':' && "path_1"[i + 1] == ':') {
        assert "path_1"[i] != ':';
      }
    }
    assert !HasSep("C");
    KeyRoundTrip("AB", "path_1", "C");
    assert "A" <= "AB";
    SubstringOfPrefix("A", "AB");
  }

  /** Every connection linked along (`node`, `pathKey`) is removed by `delete_path(node, pathKey)`. */
  lemma LinkUsesItsPath(node: string, pathKey: string, target: string)
    ensures UsesPath(node, pathKey, Encode(node, pathKey, target))
  {
    assert Encode(node, pathKey, target) == "" + (node + Sep + pathKey) + (Sep + target);
    SubstringInMiddle("", node + Sep + pathKey, Sep + target);
  }

  /** After the cascade of `delete_path(node, pathKey)` no connection linked along that path is left. */
  lemma PathUsersGone(conns: Connections, node: string, pathKey: string)
    requires conns.Valid()
    ensures forall t :: Encode(node, pathKey, t) !in conns.RemoveAll(PathUserKeys(conns, node, pathKey)).m
  {
    forall t ensures Encode(node, pathKey, t) !in conns.RemoveAll(PathUserKeys(conns, node, pathKey)).m {
      LinkUsesItsPath(node, pathKey, t);
    }
  }

  /** Substring matching reaches beyond the path: deleting "path_1" also removes connections along "path_10". */
  lemma DeletePathMatchesLongerKey()
    ensures UsesPath("A", "path_1", Encode("A", "path_10", "B"))
  {
    assert Encode("A", "path_10", "B") == "" + ("A" + Sep + "path_1") + ("0" + Sep + "B");
    SubstringInMiddle("", "A" + Sep + "path_1", "0" + Sep + "B");
  }

  /** The file that `generate_and_save_qr` writes for a location, and `delete_node` deletes. */
  function QrPath(name: string): string {
    "campus_navigator/qrcodes/" + name + ".png"
  }

  /** The images of the paths listed in `ks`, path by path. */
  function ImagesOf(paths: Paths, ks: seq<string>): seq<string>
    requires forall k :: k in ks ==> k in paths.m
  {
    if ks == [] then [] else ImagesOf(paths, ks[..|ks| - 1]) + paths.m[ks[|ks| - 1]].images
  }

  /** Every image of a location, in path order: what `delete_node` deletes after the QR code. */
  function AllImages(paths: Paths): seq<string>
    requires paths.Valid()
  {
    ImagesOf(paths, paths.keys)
  }

  /** An image listed under any path of the location is among the deleted files. */
  lemma {:induction false} ImagesOfCovers(paths: Paths, ks: seq<string>)
    requires forall k :: k in ks ==> k in paths.m
    ensures forall k, x :: k in ks && x in paths.m[k].images ==> x in ImagesOf(paths, ks)
  {
    if ks != [] {
      var n := |ks| - 1;
      ImagesOfCovers(paths, ks[..n]);
      forall k, x | k in ks && x in paths.m[k].images ensures x in ImagesOf(paths, ks) {
        if k != ks[n] {
          var i :| 0 <= i < |ks| && ks[i] == k;
          assert ks[..n][i] == k;
        }
      }
    }
  }

  // ---------------------------------------------------------------------------
  // The selection lists of delete_link and handle_node_linking

  /** The text `delete_link` lists for a connection: `source (label) ➔ target`. */
  function ConnectionLabel(nodes: Nodes, c: Connection): string
    requires Resolves(nodes, c)
  {
    c.from + " (" + nodes.m[c.from].m[c.pathKey].pathLabel + ") \U{2794} " + c.to
  }

  /** `connection_list`: one label per connection, in iteration order. */
  function ConnectionLabels(nodes: Nodes, cs: seq<Connection>): (r: seq<string>)
    requires forall i :: 0 <= i < |cs| ==> Resolves(nodes, cs[i])
    ensures |r| == |cs| && forall i :: 0 <= i < |cs| ==> r[i] == ConnectionLabel(nodes, cs[i])
  {
    seq(|cs|, i requires 0 <= i < |cs| => ConnectionLabel(nodes, cs[i]))
  }

  /** Python's `xs.index(x)`: the first position holding `x`. */
  function FirstIndexOf(xs: seq<string>, x: string): (i: nat)
    requires x in xs
    ensures i < |xs| && xs[i] == x
    ensures forall j :: 0 <= j < i ==> xs[j] != x
  {
    if xs[0] == x then 0 else 1 + FirstIndexOf(xs[1..], x)
  }

  /** The chosen entry is the one deleted when no earlier entry has the same label, and only then. */
  lemma FirstIndexOfChoice(xs: seq<string>, c: nat)
    requires c < |xs|
    ensures FirstIndexOf(xs, xs[c]) == c <==> forall j :: 0 <= j < c ==> xs[j] != xs[c]
  {
    var i := FirstIndexOf(xs, xs[c]);
    if i < c {
      assert xs[i] == xs[c];
    }
  }

  /**
   * The key `delete_link` deletes for the entry at position `choice`: the key at the position
   * `connection_list.index` returns, the first entry that lists the same text.
   */
  function ChosenLink(nodes: Nodes, conns: Connections, choice: nat): (k: string)
    requires conns.Valid() && AllResolve(nodes, conns) && choice < |conns.keys|
    ensures k in conns.m
    ensures ConnectionLabel(nodes, conns.m[k]) == ConnectionLabel(nodes, conns.m[conns.keys[choice]])
    ensures k == conns.keys[choice] <==>
      forall j :: 0 <= j < choice ==> ConnectionLabel(nodes, conns.m[conns.keys[j]]) != ConnectionLabel(nodes, conns.m[conns.keys[choice]])
  {
    var cs := ConnectionList(conns);
    assert forall i :: 0 <= i < |cs| ==> Resolves(nodes, cs[i]) by {
      forall i | 0 <= i < |cs| ensures Resolves(nodes, cs[i]) {
        assert conns.keys[i] in conns.m;
      }
    }
    var labels := ConnectionLabels(nodes, cs);
    FirstIndexOfChoice(labels, choice);
    var i := FirstIndexOf(labels, labels[choice]);
    assert i == choice <==> conns.keys[i] == conns.keys[choice];
    conns.keys[i]
  }

  /** `ChosenLink` is the key at the first position of the full list of texts holding the chosen text. */
  lemma ChosenLinkIs(nodes: Nodes, conns: Connections, choice: nat, labels: seq<string>)
    requires conns.Valid() && AllResolve(nodes, conns) && choice < |conns.keys|
    requires labels == ConnectionLabels(nodes, ConnectionList(conns))
    ensures choice < |labels| && FirstIndexOf(labels, labels[choice]) < |conns.keys|
    ensures ChosenLink(nodes, conns, choice) == conns.keys[FirstIndexOf(labels, labels[choice])]
  {
  }

  /** The targets `handle_node_linking` offers: every other location, in order. */
  function TargetOptions(names: seq<string>, source: string): (r: seq<string>)
    ensures forall n :: n in r <==> n in names && n != source
    ensures Distinct(names) ==> Distinct(r)
  {
    Without(names, {source})
  }

  // ---------------------------------------------------------------------------
  // The node editor (handle_node_creation, handle_image_upload_github)

  /** The key of the i-th path field in the editor: `f"path_{i}"`. */
  function PathKey(i: nat): string {
    "path_" + DecimalString(i)
  }

  /** Different field numbers give different keys. */
  lemma PathKeyInjective(i: nat, j: nat)
    requires PathKey(i) == PathKey(j)
    ensures i == j
  {
    assert DecimalString(i) == PathKey(i)[5..];
    assert DecimalString(j) == PathKey(j)[5..];
    DecimalStringInjective(i, j);
  }

  /**
   * The text `delete_path` and `handle_node_linking` list for the path at position `idx` of a
   * location: its 1-based number, a dot, and its label.
   */
  function PathOptionText(idx: nat, pathLabel: string): string {
    DecimalString(idx + 1) + ". " + pathLabel
  }

  /**
   * The listed texts of different positions differ, whatever the labels, so the first option
   * whose text is the selected one (`next(...)`) is the selected position itself.
   */
  lemma PathOptionTextInjective(a: nat, la: string, b: nat, lb: string)
    requires PathOptionText(a, la) == PathOptionText(b, lb)
    ensures a == b
  {
    var x, y := a + 1, b + 1;
    assert DecimalString(x) == DecimalString(y) by {
      SameOptionNumber(a, la, b, lb);
    }
    DecimalStringInjective(x, y);
  }

  /** Equal listed texts start with the same number. */
  lemma SameOptionNumber(a: nat, la: string, b: nat, lb: string)
    requires PathOptionText(a, la) == PathOptionText(b, lb)
    ensures DecimalString(a + 1) == DecimalString(b + 1)
  {
    var text := PathOptionText(a, la);
    assert DigitPrefix(text) == DecimalString(a + 1) by {
      PathOptionNumber(a, la);
    }
    assert DigitPrefix(text) == DecimalString(b + 1) by {
      PathOptionNumber(b, lb);
    }
  }

  /** The leading digits of a listed path text are its number. */
  lemma PathOptionNumber(idx: nat, pathLabel: string)
    ensures DigitPrefix(PathOptionText(idx, pathLabel)) == DecimalString(idx + 1)
  {
    var d := DecimalString(idx + 1);
    assert PathOptionText(idx, pathLabel) == d + (". " + pathLabel);
    DigitPrefixOf(d, ". " + pathLabel);
  }

  /** `k` is one of the keys `path_1` .. `path_n` the editor writes. */
  ghost predicate IsFormKey(k: string, n: nat) {
    exists i :: 1 <= i <= n && k == PathKey(i)
  }

  /** The form keys up to `path_i` are those up to `path_{i-1}` and `path_i`, which is new. */
  lemma FormKeyStep(i: nat)
    requires i >= 1
    ensures forall k :: IsFormKey(k, i) <==> IsFormKey(k, i - 1) || k == PathKey(i)
  {
    forall k ensures IsFormKey(k, i) <==> IsFormKey(k, i - 1) || k == PathKey(i) {
      if IsFormKey(k, i) {
        var j :| 1 <= j <= i && k == PathKey(j);
      }
    }
  }

  /** `path_i` is not among the keys of the earlier fields. */
  lemma NewFormKey(i: nat)
    requires i >= 1
    ensures !IsFormKey(PathKey(i), i - 1)
  {
    EarlierFormKeys(i);
  }

  /** Different field numbers give different keys. */
  lemma PathKeysDiffer(i: nat, j: nat)
    requires i != j
    ensures PathKey(i) != PathKey(j)
  {
    if PathKey(i) == PathKey(j) {
      PathKeyInjective(i, j);
    }
  }

  /** The keys of the earlier fields differ from `path_i`. */
  lemma EarlierFormKeys(i: nat)
    ensures forall j :: 1 <= j < i ==> PathKey(j) != PathKey(i)
  {
    forall j | 1 <= j < i ensures PathKey(j) != PathKey(i) {
      if PathKey(j) == PathKey(i) {
        PathKeyInjective(i, j);
      }
    }
  }

  /**
   * The uploads `handle_image_upload_github` appends to `seen`: each successful (non-empty)
   * upload path not yet in the list, in upload order, the list growing as it goes.
   */
  function FreshUploads(seen: seq<string>, uploads: seq<Option<string>>): (r: seq<string>)
    ensures forall x :: x in r <==> x !in seen && x != "" && Some(x) in uploads
    ensures Distinct(r)
    decreases |uploads|
  {
    if uploads == [] then []
    else
      var u := uploads[0];
      if u.Some? && u.value != "" && u.value !in seen then
        var rest := FreshUploads(seen + [u.value], uploads[1..]);
        assert u.value !in rest;
        [u.value] + rest
      else
        FreshUploads(seen, uploads[1..])
  }

  /** One path's form input: the four text fields and the outcome of each upload (None if it failed). */
  datatype PathInput = PathInput(pathLabel: string, distance: int, instruction: string, landmark: string,
                                 uploads: seq<Option<string>>)

  /** The images a path field starts from: those of the edited location's path of that key, if any. */
  function PriorImages(base: Paths, key: string): seq<string> {
    if key in base.m then base.m[key].images else []
  }

  /** The record the editor stores for one path field. */
  function FieldRecord(input: PathInput, prior: seq<string>): PathRecord {
    PathRecord(input.pathLabel, input.distance, input.instruction, input.landmark, prior + FreshUploads(prior, input.uploads))
  }

  /** The paths the editor starts from: a copy of the selected location's, or none for a new one. */
  function FieldsBase(nodes: Nodes, selected: string): Paths
    requires selected == "" || selected in nodes.m
  {
    if selected == "" then OMap([], map[]) else nodes.m[selected]
  }

  /** The precondition of a rename: a different, existing location was selected. */
  predicate Renames(nodes: Nodes, selected: string, name: string) {
    selected != "" && selected != name && selected in nodes.m
  }

  /** The record the editor writes under `path_i`: the i-th input over the images `base` had under that key. */
  function FieldRecords(base: Paths, inputs: seq<PathInput>): seq<PathRecord> {
    seq(|inputs|, i requires 0 <= i < |inputs| => FieldRecord(inputs[i], PriorImages(base, PathKey(i + 1))))
  }

  /**
   * The editor's `fields` after the first `n` path fields are written: `base` with `path_i`
   * set, in order, to `records[i - 1]` (the editor's records are `FieldRecords`).
   */
  function FormFields(base: Paths, records: seq<PathRecord>, n: nat): (r: Paths)
    requires base.Valid() && n <= |records|
    ensures r.Valid()
  {
    if n == 0 then base
    else FormFields(base, records, n - 1).Put(PathKey(n), records[n - 1])
  }

  /** The written fields keep the base's keys first and in their order. */
  lemma {:induction false} FormFieldsKeepOrder(base: Paths, records: seq<PathRecord>, n: nat)
    requires base.Valid() && n <= |records|
    ensures base.keys <= FormFields(base, records, n).keys
  {
    if n > 0 {
      var prev := FormFields(base, records, n - 1);
      FormFieldsKeepOrder(base, records, n - 1);
      assert prev.keys <= FormFields(base, records, n).keys by {
        FormFieldsStep(base, records, n);
      }
    }
  }

  /** Writing `path_n` keeps the earlier keys first and in their order. */
  lemma FormFieldsStep(base: Paths, records: seq<PathRecord>, n: nat)
    requires base.Valid() && 1 <= n <= |records|
    ensures FormFields(base, records, n - 1).keys <= FormFields(base, records, n).keys
  {
  }

  /** Writing `path_n` sets it to the n-th record. */
  lemma FormFieldsPut(base: Paths, records: seq<PathRecord>, n: nat)
    requires base.Valid() && 1 <= n <= |records|
    ensures FormFields(base, records, n).m == FormFields(base, records, n - 1).m[PathKey(n) := records[n - 1]]
  {
  }

  /** The written fields have exactly the base's keys and the form keys. */
  lemma {:induction false} FormFieldsKeys(base: Paths, records: seq<PathRecord>, n: nat)
    requires base.Valid() && n <= |records|
    ensures forall k :: k in FormFields(base, records, n).m <==> k in base.m || IsFormKey(k, n)
  {
    if n > 0 {
      FormFieldsKeys(base, records, n - 1);
      FormKeyStep(n);
    }
  }

  /** The form key `path_i` holds its input's record, over the images the base had under that key. */
  lemma {:induction false} FormFieldsWritten(base: Paths, records: seq<PathRecord>, n: nat, i: nat)
    requires base.Valid() && n <= |records| && 1 <= i <= n
    ensures PathKey(i) in FormFields(base, records, n).m
    ensures FormFields(base, records, n).m[PathKey(i)] == records[i - 1]
  {
    if i == n {
      FormFieldsPut(base, records, n);
    } else {
      FormFieldsWritten(base, records, n - 1, i);
      PathKeysDiffer(i, n);
      FormFieldsOther(base, records, n, PathKey(i));
    }
  }

  /** Writing `path_n` leaves every other key of the fields as it was. */
  lemma FormFieldsOther(base: Paths, records: seq<PathRecord>, n: nat, k: string)
    requires base.Valid() && 1 <= n <= |records|
    requires k != PathKey(n) && k in FormFields(base, records, n - 1).m
    ensures k in FormFields(base, records, n).m
    ensures FormFields(base, records, n).m[k] == FormFields(base, records, n - 1).m[k]
  {
    FormFieldsPut(base, records, n);
  }


  /** Before `path_i` is written, the fields hold under it what the base held. */
  lemma FormFieldsPrior(base: Paths, records: seq<PathRecord>, i: nat)
    requires base.Valid() && 1 <= i <= |records|
    ensures PriorImages(FormFields(base, records, i - 1), PathKey(i)) == PriorImages(base, PathKey(i))
  {
    var key, fields := PathKey(i), FormFields(base, records, i - 1);
    NewFormKey(i);
    FormFieldsKeys(base, records, i - 1);
    assert key in fields.m <==> key in base.m;
    FormFieldsKept(base, records, i - 1);
  }

  /** Every key of the base that is not a form key keeps its record. */
  lemma {:induction false} FormFieldsKept(base: Paths, records: seq<PathRecord>, n: nat)
    requires base.Valid() && n <= |records|
    ensures forall k :: k in base.m && !IsFormKey(k, n) ==> k in FormFields(base, records, n).m && FormFields(base, records, n).m[k] == base.m[k]
  {
    if n > 0 {
      FormFieldsKept(base, records, n - 1);
      FormKeyStep(n);
    }
  }

  /** Renaming leaves every connection of the old name dangling: it no longer resolves. */
  lemma RenameLeavesDangling(nodes: Nodes, selected: string, name: string, fields: Paths, c: Connection)
    requires nodes.Valid() && Renames(nodes, selected, name)
    requires c.from == selected
    ensures !Resolves(nodes.Remove(selected).Put(name, fields), c)
  {
  }
}
