/**
 * The session's navigation data (`st.session_state.nav_data`) and the handlers that
 * change it: saving a location from the node editor, the three delete handlers,
 * linking, and the look-ups the router and the step display make.
 */
module NavStore {
  import opened Wrappers
  import opened OrderedMap
  import opened Text
  import opened ConnectionKeys
  import opened Routing
  import opened NavData

  /**
   * `handle_image_upload_github`: starting from the path's current images, appends each
   * successful upload path that is not yet listed, in upload order.
   */
  method MergeImages(existing: seq<string>, uploads: seq<Option<string>>) returns (paths: seq<string>)
    ensures paths == existing + FreshUploads(existing, uploads)
    ensures forall x :: x in paths <==> x in existing || (x != "" && Some(x) in uploads)
    ensures Distinct(existing) ==> Distinct(paths)
  {
    paths := existing;
    for i := 0 to |uploads|
      invariant paths + FreshUploads(paths, uploads[i..]) == existing + FreshUploads(existing, uploads)
    {
      var u := uploads[i];
      assert uploads[i..][1..] == uploads[i + 1..];
      if u.Some? && u.value != "" && u.value !in paths {
        paths := paths + [u.value];
      }
    }
    assert uploads[|uploads|..] == [];
    DistinctConcat(existing, FreshUploads(existing, uploads));
  }

  /** Two duplicate-free sequences with no common element concatenate to a duplicate-free one. */
  lemma DistinctConcat(a: seq<string>, b: seq<string>)
    requires forall x :: x in b ==> x !in a
    ensures Distinct(a) && Distinct(b) ==> Distinct(a + b)
  {
    if Distinct(a) && Distinct(b) {
      forall i, j | 0 <= i < j < |a + b| ensures (a + b)[i] != (a + b)[j] {
        if j < |a| {
          assert (a + b)[i] == a[i] && (a + b)[j] == a[j];
        } else if |a| <= i {
          assert (a + b)[i] == b[i - |a|] && (a + b)[j] == b[j - |a|];
        } else {
          assert (a + b)[i] == a[i] && (a + b)[j] == b[j - |a|];
          assert b[j - |a|] in b;
        }
      }
    }
  }

  /** The images of every path of a location, path by path: the files `delete_node` deletes after the QR code. */
  method CollectImages(paths: Paths) returns (images: seq<string>)
    requires paths.Valid()
    ensures images == AllImages(paths)
    ensures forall k, x :: k in paths.m && x in paths.m[k].images ==> x in images
  {
    images := [];
    for j := 0 to |paths.keys|
      invariant images == ImagesOf(paths, paths.keys[..j])
    {
      assert paths.keys[..j + 1][..j] == paths.keys[..j];
      images := images + paths.m[paths.keys[j]].images;
    }
    assert paths.keys[..|paths.keys|] == paths.keys;
    ImagesOfCovers(paths, paths.keys);
  }

  /**
   * The cascade of `delete_node(name)`: walks a snapshot of the keys and deletes each one
   * whose first or last segment contains `name`.
   */
  method RemoveTouching(conns: Connections, name: string) returns (r: Connections)
    requires conns.Valid()
    ensures r == conns.RemoveAll(TouchingKeys(conns, name))
  {
    r := conns;
    var snapshot := conns.keys;
    ghost var removed: set<string> := {};
    RemoveNone(conns);
    for j := 0 to |snapshot|
      invariant r == conns.RemoveAll(removed)
      invariant removed == TouchingAmong(snapshot[..j], name)
    {
      var k := snapshot[j];
      ghost var visited := TouchingAmong(snapshot[..j + 1], name);
      assert visited == if TouchesNode(name, k) then removed + {k} else removed by {
        TouchingAmongStep(snapshot, name, j);
      }
      if TouchesNode(name, k) {
        assert r.Remove(k) == conns.RemoveAll(removed + {k}) by {
          RemoveAllThenRemove(conns, removed, k);
        }
        r := r.Remove(k);
        removed := removed + {k};
      }
    }
    assert snapshot[..|snapshot|] == snapshot;
    TouchingAmongAll(conns, name);
  }

  /**
   * The cascade of `delete_path(node, pathKey)`: walks a snapshot of the keys and deletes
   * each one that contains `node::pathKey`.
   */
  method RemovePathUsers(conns: Connections, node: string, pathKey: string) returns (r: Connections)
    requires conns.Valid()
    ensures r == conns.RemoveAll(PathUserKeys(conns, node, pathKey))
  {
    r := conns;
    var snapshot := conns.keys;
    ghost var removed: set<string> := {};
    RemoveNone(conns);
    for j := 0 to |snapshot|
      invariant r == conns.RemoveAll(removed)
      invariant removed == PathUsersAmong(snapshot[..j], node, pathKey)
    {
      var k := snapshot[j];
      ghost var visited := PathUsersAmong(snapshot[..j + 1], node, pathKey);
      assert visited == if UsesPath(node, pathKey, k) then removed + {k} else removed by {
        PathUsersAmongStep(snapshot, node, pathKey, j);
      }
      if UsesPath(node, pathKey, k) {
        assert r.Remove(k) == conns.RemoveAll(removed + {k}) by {
          RemoveAllThenRemove(conns, removed, k);
        }
        r := r.Remove(k);
        removed := removed + {k};
      }
    }
    assert snapshot[..|snapshot|] == snapshot;
    PathUsersAmongAll(conns, node, pathKey);
  }

  /** `G.add_edge(source, target, weight=distance)` for the i-th connection. */
  method AddEdge(nodes: Nodes, ghost cs: seq<Connection>, i: nat, c: Connection, vs: seq<string>,
                 w: map<(string, string), nat>)
    returns (vs': seq<string>, w': map<(string, string), nat>)
    requires i < |cs| && c == cs[i] && forall j :: 0 <= j <= i ==> Routable(nodes, cs[j])
    requires vs == GraphVertices(nodes.keys, cs[..i]) && w == EdgeMap(nodes, cs[..i])
    ensures vs' == GraphVertices(nodes.keys, cs[..i + 1]) && w' == EdgeMap(nodes, cs[..i + 1])
  {
    GraphStep(nodes, nodes.keys, cs, i);
    w' := w[(c.from, c.to) := nodes.m[c.from].m[c.pathKey].distance];
    vs' := if c.to in vs then vs else vs + [c.to];
  }

  /**
   * `connection_list` of `delete_link`: one text per connection in iteration order, or
   * `KeyError` as soon as a connection's source or path does not exist.
   */
  method ListConnections(nodes: Nodes, conns: Connections) returns (r: Outcome<seq<string>>)
    requires conns.Valid()
    ensures r.Raised? <==> !AllResolve(nodes, conns)
    ensures r.Raised? ==> r.error == KeyError
    ensures r.Ok? ==> AllResolve(nodes, conns) && r.value == ConnectionLabels(nodes, ConnectionList(conns))
  {
    var ks := conns.keys;
    var labels: seq<string> := [];
    for i := 0 to |ks|
      invariant |labels| == i
      invariant forall j :: 0 <= j < i ==> Resolves(nodes, conns.m[ks[j]])
      invariant forall j :: 0 <= j < i ==> labels[j] == ConnectionLabel(nodes, conns.m[ks[j]])
    {
      var c := conns.m[ks[i]];
      if !(c.from in nodes.m && c.pathKey in nodes.m[c.from].m) {
        assert ks[i] in conns.m;
        return Raised(KeyError);
      }
      labels := labels + [c.from + " (" + nodes.m[c.from].m[c.pathKey].pathLabel + ") \U{2794} " + c.to];
    }
    ListedAllResolve(nodes, conns);
    r := Ok(labels);
  }

  /**
   * The graph `find_path_with_weight` builds: every location, then an edge per connection
   * weighted by its path's distance; reading the distance of a connection that does not
   * resolve raises `KeyError`.
   */
  method BuildGraph(nodes: Nodes, conns: Connections) returns (r: Outcome<Digraph>)
    requires conns.Valid() && NonNegativeDistances(nodes, conns)
    ensures r.Raised? <==> !AllResolve(nodes, conns)
    ensures r.Raised? ==> r.error == KeyError
    ensures r.Ok? ==> AllResolve(nodes, conns) && r.value == GraphOf(nodes, conns)
  {
    var vs: seq<string> := [];
    for i := 0 to |nodes.keys|
      invariant vs == nodes.keys[..i]
    {
      assert nodes.keys[..i + 1] == nodes.keys[..i] + [nodes.keys[i]];
      vs := vs + [nodes.keys[i]];
    }
    assert nodes.keys[..|nodes.keys|] == nodes.keys;
    var ks := conns.keys;
    ghost var cs := ConnectionList(conns);
    var w: map<(string, string), nat> := map[];
    for i := 0 to |ks|
      invariant forall j :: 0 <= j < i ==> Routable(nodes, cs[j])
      invariant vs == GraphVertices(nodes.keys, cs[..i])
      invariant w == EdgeMap(nodes, cs[..i])
    {
      var c := conns.m[ks[i]];
      assert ks[i] in conns.m;
      if !(c.from in nodes.m && c.pathKey in nodes.m[c.from].m) {
        return Raised(KeyError);
      }
      assert cs[i] == c && Routable(nodes, c);
      vs, w := AddEdge(nodes, cs, i, c, vs, w);
    }
    assert cs[..|ks|] == cs;
    assert AllResolve(nodes, conns) by {
      assert forall j :: 0 <= j < |ks| ==> Routable(nodes, cs[j]);
      ListedAllResolve(nodes, conns);
    }
    r := Ok(Digraph(vs, w));
  }

  /**
   * The `fields` dict the node editor builds for `selected` (`""` for a new location) from
   * the inputs of the path fields `path_1` .. `path_n`: a copy of the selected location's
   * paths in which each form key is overwritten, in order, by its input, with the images
   * merged onto those the key already had.
   */
  method BuildFields(nodes: Nodes, selected: string, inputs: seq<PathInput>) returns (fields: Paths)
    requires ValidNodes(nodes)
    requires selected == "" || selected in nodes.m
    requires 1 <= |inputs| <= 10
    ensures fields == FormFields(FieldsBase(nodes, selected), FieldRecords(FieldsBase(nodes, selected), inputs), |inputs|)
  {
    var base := FieldsBase(nodes, selected);
    fields := base;
    for i := 1 to |inputs| + 1
      invariant fields == FormFields(base, FieldRecords(base, inputs), i - 1)
    {
      fields := WriteField(base, inputs, i, fields);
    }
  }

  /** One pass of the editor's loop: writes the record of field `path_i` into `fields`. */
  method WriteField(ghost base: Paths, inputs: seq<PathInput>, i: nat, fields: Paths) returns (next: Paths)
    requires base.Valid() && 1 <= i <= |inputs|
    requires fields == FormFields(base, FieldRecords(base, inputs), i - 1)
    ensures next == FormFields(base, FieldRecords(base, inputs), i)
  {
    var key := PathKey(i);
    FormFieldsPrior(base, FieldRecords(base, inputs), i);
    var input := inputs[i - 1];
    var images := MergeImages(PriorImages(fields, key), input.uploads);
    next := fields.Put(key, PathRecord(input.pathLabel, input.distance, input.instruction, input.landmark, images));
  }

  /** `connection_list.index(selected_link)`: the key at the first position listing the chosen text. */
  method PickListed(nodes: Nodes, conns: Connections, labels: seq<string>, choice: nat) returns (key: string)
    requires conns.Valid() && AllResolve(nodes, conns) && choice < |conns.keys|
    requires labels == ConnectionLabels(nodes, ConnectionList(conns))
    ensures key == ChosenLink(nodes, conns, choice)
  {
    ChosenLinkIs(nodes, conns, choice, labels);
    key := conns.keys[FirstIndexOf(labels, labels[choice])];
  }

  /**
   * The inner loop of `display_navigation`: splits each key in iteration order and stops at
   * the first one from `current` to `next`, or at the first one that does not have three parts.
   */
  method ScanKeys(ks: seq<string>, current: string, next: string) returns (r: Match)
    ensures r == FirstMatch(ks, current, next, 0)
  {
    var j := 0;
    while j < |ks|
      invariant j <= |ks|
      invariant FirstMatch(ks, current, next, 0) == FirstMatch(ks, current, next, j)
    {
      var parts := Split(ks[j]);
      if |parts| != 3 {
        return BadKey(j);
      }
      if parts[0] == current && parts[2] == next {
        return Hit(j, parts[1]);
      }
      j := j + 1;
    }
    r := Miss;
  }

  /**
   * The loop of `display_navigation` over the consecutive pairs of `path`, with the keys in
   * iteration order: ends after the last pair, or with the first exception raised.
   */
  method ShowRoute(nodes: Nodes, ks: seq<string>, path: seq<string>) returns (r: Display)
    ensures r == Itinerary(nodes, ks, path, PairCount(path))
  {
    var n := PairCount(path);
    var steps: seq<Step> := [];
    for i := 0 to n
      invariant Itinerary(nodes, ks, path, i) == Display(steps, None)
    {
      var step := ResolvePair(nodes, ks, path[i], path[i + 1], i + 1);
      match step
      case Raised(e) =>
        r := Display(steps, Some(e));
        ItineraryRaisedStays(nodes, ks, path, i + 1, n);
        return;
      case Ok(None) =>
      case Ok(Some(s)) =>
        steps := steps + [s];
    }
    r := Display(steps, None);
  }

  /**
   * One pass of the loop of `display_navigation`: the first connection from `current` to
   * `next` and the record of its path, if it has a path key.
   */
  method ResolvePair(nodes: Nodes, ks: seq<string>, current: string, next: string, number: nat)
    returns (r: Outcome<Option<Step>>)
    ensures r == ResolveStep(nodes, ks, current, next, number)
  {
    var hit := ScanKeys(ks, current, next);
    if hit.BadKey? {
      return Raised(ValueError);
    }
    if hit.Miss? || hit.pathKey == "" {
      return Ok(None);
    }
    if !(current in nodes.m && hit.pathKey in nodes.m[current].m) {
      return Raised(KeyError);
    }
    r := Ok(Some(Step(number, current, next, hit.pathKey, nodes.m[current].m[hit.pathKey])));
  }

  /** The navigation data of the session. */
  class Store {
    /** `nav_data['nodes']`: each location's paths, by path key. */
    var nodes: Nodes
    /** `nav_data['connections']`: the directed links between locations, by connection key. */
    var connections: Connections

    /**
     * Both levels of `nodes` and the connections are well-formed dicts; nothing requires a
     * connection to resolve, since a rename can leave connections dangling.
     */
    ghost predicate Valid()
      reads this
    {
      ValidNodes(nodes) && connections.Valid()
    }

    /** What `load_navigation_data` returns when the data file is missing or does not parse. */
    constructor Fallback()
      ensures Valid()
      ensures nodes == Empty() && connections == Empty()
    {
      nodes := Empty();
      connections := Empty();
    }

    /** The data as loaded from the data file. */
    constructor Load(n: Nodes, c: Connections)
      requires ValidNodes(n) && c.Valid()
      ensures Valid()
      ensures nodes == n && connections == c
    {
      nodes := n;
      connections := c;
    }

    /**
     * The "Save Node" button: with a non-empty name, drops the selected location when it is
     * being renamed and stores `fields` under the new name; connections are left as they are,
     * so those of a renamed location keep its old name. An empty name saves nothing.
     */
    method SaveNode(selected: string, name: string, fields: Paths) returns (saved: bool)
      requires Valid() && fields.Valid()
      modifies this
      ensures Valid()
      ensures saved <==> name != ""
      ensures connections == old(connections)
      ensures !saved ==> nodes == old(nodes)
      ensures saved && Renames(old(nodes), selected, name) ==> nodes == old(nodes).Remove(selected).Put(name, fields)
      ensures saved && !Renames(old(nodes), selected, name) ==> nodes == old(nodes).Put(name, fields)
      ensures saved ==> name in nodes.m && nodes.m[name] == fields
      ensures saved && Renames(old(nodes), selected, name) ==> selected !in nodes.m
      ensures saved ==> forall n :: n in old(nodes).m && n != name && !(Renames(old(nodes), selected, name) && n == selected) ==>
        n in nodes.m && nodes.m[n] == old(nodes).m[n]
    {
      if name == "" {
        return false;
      }
      if selected != "" && selected != name && selected in nodes.m {
        nodes := nodes.Remove(selected);
      }
      nodes := nodes.Put(name, fields);
      saved := true;
    }

    /**
     * `delete_node`: the files it deletes (the QR code, then every image of every path, in
     * order), after which the location is gone and so is every connection whose first or last
     * key segment contains its name.
     */
    method DeleteNode(name: string) returns (deleted: seq<string>)
      requires Valid() && name in nodes.m
      modifies this
      ensures Valid()
      ensures deleted == [QrPath(name)] + AllImages(old(nodes).m[name])
      ensures nodes == old(nodes).Remove(name)
      ensures connections == old(connections).RemoveAll(TouchingKeys(old(connections), name))
      ensures forall k :: k in connections.m ==> Split(k)[0] != name && Split(k)[|Split(k)| - 1] != name
    {
      var images := CollectImages(nodes.m[name]);
      deleted := [QrPath(name)] + images;
      nodes := nodes.Remove(name);
      connections := RemoveTouching(connections, name);
      NoEndpointSurvives(old(connections), name);
    }

    /**
     * `delete_path` for the path listed at position `index` of `node`: the images it deletes,
     * after which the path is gone and so is every connection whose key contains
     * `node::path_key`. A location without paths is left alone.
     */
    method DeletePath(node: string, index: nat) returns (deleted: seq<string>)
      requires Valid() && node in nodes.m
      requires nodes.m[node].keys == [] || index < |nodes.m[node].keys|
      modifies this
      ensures Valid()
      ensures old(nodes.m[node].keys) == [] ==> deleted == [] && nodes == old(nodes) && connections == old(connections)
      ensures old(nodes.m[node].keys) != [] ==>
        && deleted == old(nodes.m[node].m[nodes.m[node].keys[index]].images)
        && nodes == old(nodes).Put(node, old(nodes.m[node]).Remove(old(nodes.m[node].keys[index])))
        && connections == old(connections).RemoveAll(PathUserKeys(old(connections), node, old(nodes.m[node].keys[index])))
    {
      var paths := nodes.m[node];
      if paths.keys == [] {
        return [];
      }
      var pathKey := paths.keys[index];
      assert pathKey in paths.m;
      deleted := paths.m[pathKey].images;
      nodes := nodes.Put(node, paths.Remove(pathKey));
      connections := RemovePathUsers(connections, node, pathKey);
    }

    /**
     * `delete_link` for the entry at position `choice` of the listed connections: listing a
     * connection whose source or path no longer exists raises `KeyError`; otherwise the
     * connection at the position `connection_list.index` finds is deleted and its key returned.
     */
    method DeleteLink(choice: nat) returns (r: Outcome<string>)
      requires Valid() && choice < |connections.keys|
      modifies this
      ensures Valid()
      ensures nodes == old(nodes)
      ensures r.Raised? <==> !AllResolve(nodes, old(connections))
      ensures r.Raised? ==> r.error == KeyError && connections == old(connections)
      ensures r.Ok? ==>
        (AllResolve(nodes, old(connections)) && r.value == ChosenLink(nodes, old(connections), choice) &&
         connections == old(connections).Remove(r.value))
    {
      var listed := ListConnections(nodes, connections);
      if listed.Raised? {
        return Raised(listed.error);
      }
      var labels := listed.value;
      var key := PickListed(nodes, connections, labels, choice);
      connections := connections.Remove(key);
      r := Ok(key);
    }

    /**
     * `handle_node_linking` for the path listed at position `index` of `source` and a target
     * among those offered: stores the connection under its key, replacing one with the same
     * key in place. A source without paths has nothing to select, and `next` raises
     * `StopIteration`.
     */
    method Link(source: string, index: nat, target: string) returns (r: Outcome<string>)
      requires Valid() && source in nodes.m
      requires nodes.m[source].keys == [] || index < |nodes.m[source].keys|
      requires target in TargetOptions(nodes.keys, source)
      modifies this
      ensures Valid()
      ensures nodes == old(nodes)
      ensures nodes.m[source].keys == [] ==> r == Raised(StopIteration) && connections == old(connections)
      ensures nodes.m[source].keys != [] ==>
        && r == Ok(Encode(source, nodes.m[source].keys[index], target))
        && connections == old(connections).Put(r.value, Connection(source, target, nodes.m[source].keys[index]))
      ensures r.Ok? ==> target != source && Resolves(nodes, connections.m[r.value])
    {
      var paths := nodes.m[source];
      if paths.keys == [] {
        return Raised(StopIteration);
      }
      var pathKey := paths.keys[index];
      assert pathKey in paths.m;
      var key := source + "::" + pathKey + "::" + target;
      connections := connections.Put(key, Connection(source, target, pathKey));
      r := Ok(key);
    }

    /**
     * `find_path_with_weight`: a shortest route from `start` to `end` with its length, or
     * `(None, 0)` when there is none (also when either end is not a vertex).
     */
    method FindPathWithWeight(start: string, end: string) returns (r: Outcome<Route>)
      requires Valid() && NonNegativeDistances(nodes, connections)
      ensures r.Raised? <==> !AllResolve(nodes, connections)
      ensures r.Raised? ==> r.error == KeyError
      ensures r.Ok? ==> AllResolve(nodes, connections)
      ensures r.Ok? && r.value.NoRoute? ==> forall p :: !IsPath(GraphOf(nodes, connections), p, start, end)
      ensures r.Ok? && r.value.Route? ==>
        && IsPath(GraphOf(nodes, connections), r.value.path, start, end)
        && r.value.total == Weight(GraphOf(nodes, connections), r.value.path)
        && forall p :: IsPath(GraphOf(nodes, connections), p, start, end) ==> r.value.total <= Weight(GraphOf(nodes, connections), p)
    {
      var g := BuildGraph(nodes, connections);
      if g.Raised? {
        return Raised(g.error);
      }
      GraphOfClosed(nodes, connections);
      var route := ShortestPath(g.value, start, end);
      r := Ok(route);
    }

    /** `find_path`: the route of `find_path_with_weight` without its length. */
    method FindPath(start: string, end: string) returns (r: Outcome<Option<seq<string>>>)
      requires Valid() && NonNegativeDistances(nodes, connections)
      ensures r.Raised? <==> !AllResolve(nodes, connections)
      ensures r.Raised? ==> r.error == KeyError
      ensures r.Ok? ==> AllResolve(nodes, connections)
      ensures r.Ok? && r.value.None? ==> forall p :: !IsPath(GraphOf(nodes, connections), p, start, end)
      ensures r.Ok? && r.value.Some? ==>
        && IsPath(GraphOf(nodes, connections), r.value.value, start, end)
        && forall p :: IsPath(GraphOf(nodes, connections), p, start, end) ==>
             Weight(GraphOf(nodes, connections), r.value.value) <= Weight(GraphOf(nodes, connections), p)
    {
      var found := FindPathWithWeight(start, end);
      match found
      case Raised(e) => r := Raised(e);
      case Ok(NoRoute) => r := Ok(None);
      case Ok(Route(p, _)) => r := Ok(Some(p));
    }

    /**
     * `display_navigation`: for each consecutive pair of `path`, scans the connection keys for
     * the first one from the pair's first location to its second and shows that path as the
     * next step. An exception (a key that does not split into three parts, or a matching key
     * naming a path that does not exist) ends the display after the steps already shown.
     */
    method DisplayNavigation(path: seq<string>) returns (r: Display)
      requires Valid()
      ensures r == Itinerary(nodes, connections.keys, path, PairCount(path))
    {
      r := ShowRoute(nodes, connections.keys, path);
    }
  }
}
