# Campus navigator: navigation graph model

This project models the data core of `example.py`, a campus navigation app.

The navigation data (`nav_data`) has two parts:

- `nodes` maps each location to its ordered paths, keyed `path_1`, `path_2`, ….
- `connections` maps a key `source::path_key::target` to a record with the fields `from`, `to` and `path_key`.

The model covers these handlers, which change the data or read it:

- the node editor, which builds the fields and saves them;
- the image-list merge;
- deleting a location, a path or a connection;
- linking two locations;
- building the weighted graph and finding a shortest route;
- resolving a route into its steps.

Both dicts keep insertion order, and several handlers depend on it. They are modelled as `OrderedMap.OMap`: a key sequence plus a map.

The model has seven modules:

- `Wrappers`: `Option`, plus the `Outcome` type for a handler that raises.
- `OrderedMap`: the dict with Python's order rules.
- `Text`: Python's `in` on strings, and `str` of a number.
- `ConnectionKeys`: the key codec and `str.split("::")`.
- `Routing`: a digraph with natural-number weights. It includes Dijkstra's algorithm, proved to return a valid path whose length is its weight and which no other path undercuts.
- `NavData`: the records and the pure functions that specify the handlers.
- `NavStore`: the class `Store`, whose fields `nodes` and `connections` the handlers update.

Some behaviour is modelled as the code does it, not as a reader might expect:

- **Rename.** Renaming a location deletes the old entry and stores the fields under the new name. It does not touch the connections, so connections from the old name no longer resolve (`RenameLeavesDangling`). Connections to the old name still resolve, and they keep the old name as a graph vertex (`GraphVerticesAre`). After that, `find_path_with_weight` and `delete_link` raise `KeyError`; the model returns this as `Raised(KeyError)`.
- **Delete location.** A connection is deleted when the location's name is a substring of the key's first or last `::` segment. Deleting `A` therefore also drops the connections of `AB` (`DeleteNodeMatchesSubstring`).
- **Delete path.** A connection is deleted when its key contains `node::path_key` as a substring. Deleting `path_1` therefore also drops the connections along `path_10` (`DeletePathMatchesLongerKey`).
- **Delete connection.** `delete_link` deletes the first connection whose listed text equals the chosen one. When two connections list the same text, this need not be the connection that was chosen (`ChosenLink`).
- **Graph edges.** When several connections join the same pair, the last one in iteration order sets the edge weight (`EdgeMapLastWins`).
- **Step display.** For each consecutive pair, the step display uses the first connection in iteration order. It raises `ValueError` at the first key that does not split into exactly three parts, and this can happen before it reaches a matching key. The steps of the earlier pairs are already on the page when the exception ends the display, so the model returns them together with the exception (`Display`).
- **Key round trip.** Decoding a key returns its three parts only if no part contains `::` and neither the source nor the path key ends in `:`. The key of (`a:`, `p`, `b`) is `a:::p::b`, which splits into `a`, `:p`, `b` (`TrailingColonBreaksRoundTrip`). The key of (`a`, `p:`, `b`) is `a::p:::b`, which splits into `a`, `p`, `:b` (`PathKeyColonBreaksRoundTrip`).

The code checks one thing before saving: the node editor refuses an empty name. It does not rewrite connections on a rename, it does not check that distances are non-negative, and it does not reject `::` inside names or path keys. The model follows the code.

## Model

| member | source | states |
|---|---|---|
| OrderedMap.OMap.Put | example.py:290 | `d[k] = v`: the key maps to the value; a present key keeps its position, a new key is appended; the dict stays well-formed |
| OrderedMap.OMap.Remove | example.py:288 | `del d[k]`: the key is gone, every other key keeps its value, and the other keys keep their order (one entry fewer when the key was present) |
| OrderedMap.OMap.RemoveAll | example.py:333-336 | the keys of the set are gone, the others keep their values and their order |
| Text.IsSubstring | example.py:335 | Python's `needle in hay` on strings: the needle is a prefix of some suffix of the hay |
| Text.DecimalString | example.py:254 | `str(n)` for a natural number: a non-empty string of decimal digits |
| ConnectionKeys.Encode | example.py:440 | the key f-string: source, `::`, path key, `::`, target |
| ConnectionKeys.Split | example.py:335 | `str.split("::")`: cut at the leftmost `::` and go on after it; always at least one part |
| ConnectionKeys.SplitJoin | example.py:462 | splitting the `::`-join of parts that contain no `::` and do not end in `:` (except the last) gives back the parts |
| ConnectionKeys.JoinSplit | example.py:462 | joining the parts of any split with `::` gives back the string |
| ConnectionKeys.KeyRoundTrip | example.py:440 | the key built for (source, path, target) splits back into exactly those three parts when none contains `::` and the first two do not end in `:` |
| ConnectionKeys.TrailingColonBreaksRoundTrip | example.py:440 | for every source ending in `:`, and any path key and target, the key does not split back into the three parts it was built from |
| ConnectionKeys.InnerPartsNoColon | example.py:462 | no part of `str.split("::")` except the last ends with a colon, for every string |
| ConnectionKeys.PathKeyColonBreaksRoundTrip | example.py:440 | with a path key ending in `:`, the key never decodes to its triple |
| ConnectionKeys.TrailingColonExample | example.py:440 | the key of (`a:`, `p`, `b`) is `a:::p::b`, which splits into `a`, `:p`, `b` |
| ConnectionKeys.FirstPartNoColon | example.py:462 | the first part of splitting a string that holds `::` never ends with `:` |
| NavStore.Store.Load | example.py:145-151 | the data the file parsed into becomes the session's locations and connections |
| NavStore.Store.Fallback | example.py:145-155 | the data a missing or unreadable data file gives: no locations and no connections |
| NavData.PathKey | example.py:254 | the field key f-string `path_{i}` |
| NavData.FieldRecord | example.py:256-282 | the record one path field stores: the input's label, distance, instruction and landmark, and its images merged onto the prior ones |
| NavData.FieldRecords | example.py:253-282 | the record of field i over the images the edited location had under `path_i` |
| NavData.FormFields | example.py:249-282 | the editor's `fields`: the copied paths with `path_1`..`path_n` assigned in order; always a well-formed dict |
| NavData.FreshUploads | example.py:226-235 | the appended uploads are exactly the successful ones not already listed, with no duplicates |
| NavStore.MergeImages | example.py:220-235 | the new list is the old list followed by the fresh uploads; an image is in it iff it was listed or uploaded successfully; a duplicate-free list stays duplicate-free |
| NavStore.BuildFields | example.py:249-283 | the loop leaves `fields` equal to `FormFields` over the selected location's paths (or none) and the inputs' records, each input's images merged onto the images that location had under its key |
| NavStore.WriteField | example.py:254-282 | one pass writes `path_i` with its input's record, reading the images `path_i` held before the pass |
| NavData.FormFieldsKeepOrder | example.py:250-256 | the edited location's path keys stay first and in their order |
| NavData.FormFieldsKeys | example.py:250-256 | the fields hold exactly the edited location's keys and `path_1`..`path_n` |
| NavData.FormFieldsWritten | example.py:253-256 | `path_i` holds the i-th record |
| NavData.FormFieldsKept | example.py:250-256 | every key of the edited location other than `path_1`..`path_n` keeps its record |
| NavData.FormFieldsPrior | example.py:272-276 | before `path_i` is written, `fields` holds under it what the edited location held, so the merge starts from the stored images |
| NavData.PathKeyInjective | example.py:254 | different field numbers give different field keys, so each form field writes its own key |
| NavStore.Store.SaveNode | example.py:285-304 | with a non-empty name, stores the fields under the name, first dropping the selected location on a rename; every other location and all connections are unchanged; an empty name saves nothing |
| NavData.RenameLeavesDangling | example.py:287-290 | after a rename, a connection from the old name no longer resolves |
| NavData.QrPath | example.py:319 | the QR-code file of a location, `campus_navigator/qrcodes/<name>.png` |
| NavStore.CollectImages | example.py:323-327 | the deleted images are every image of every path, in path order |
| NavData.ImagesOfCovers | example.py:323-327 | every image listed under any path of the location is among the deleted files |
| NavData.TouchesNode | example.py:335 | `delete_node`'s test: the name is a substring of the key's first or last `::` segment |
| NavStore.RemoveTouching | example.py:333-336 | the loop over the key snapshot deletes exactly the keys whose first or last segment contains the name, keeping the order of the rest |
| NavStore.Store.DeleteNode | example.py:317-336 | deletes the QR code and then every image of the location, removes the location, and removes exactly the touching connections; afterwards no key splits into the name as its first or last segment |
| NavData.NoEndpointSurvives | example.py:333-336 | after the cascade no remaining key has the deleted name as its first or last segment |
| NavData.LinkTouchesItsEnds | example.py:335 | a connection created by linking from or to the location is removed with it, when its key round-trips |
| NavData.DeleteNodeMatchesSubstring | example.py:335 | deleting `A` also matches a connection of `AB` |
| NavData.PathOptionText | example.py:359 | the listed text of a path: its 1-based position, `. `, and its label (also example.py:429) |
| NavData.PathOptionTextInjective | example.py:359-364 | listed path texts of different positions differ, so `next(...)` finds the selected position itself |
| NavData.UsesPath | example.py:380 | `delete_path`'s test: `node::path_key` is a substring of the key |
| NavStore.RemovePathUsers | example.py:378-381 | the loop over the key snapshot deletes exactly the keys that contain `node::path_key`, keeping the order of the rest |
| NavStore.Store.DeletePath | example.py:366-381 | deletes the path's images, removes the path from its location and removes exactly the connections whose key contains `node::path_key`; a location without paths is left alone |
| NavData.PathUsersGone | example.py:378-381 | after the cascade no connection linked along the deleted path remains |
| NavData.LinkUsesItsPath | example.py:380 | every connection linked along the path contains `node::path_key` |
| NavData.DeletePathMatchesLongerKey | example.py:380 | deleting `path_1` also matches a connection along `path_10` |
| NavData.ConnectionLabel | example.py:403 | the listed text of a connection: `source (path label) ➔ target` |
| NavStore.ListConnections | example.py:397-403 | lists one text per connection, in order, or raises `KeyError` exactly when some connection's source or path is missing |
| NavData.FirstIndexOf | example.py:406 | `list.index` returns the first position holding the value |
| NavData.FirstIndexOfChoice | example.py:405-407 | the chosen entry is the one deleted iff no earlier entry lists the same text |
| NavData.ChosenLink | example.py:405-407 | the deleted key lists the same text as the chosen one, and it is the chosen one iff no earlier connection lists that text |
| NavStore.PickListed | example.py:405-407 | the key at the first position listing the chosen text is `ChosenLink` |
| NavStore.Store.DeleteLink | example.py:390-411 | raises `KeyError` iff some connection does not resolve, changing nothing; otherwise deletes exactly the `ChosenLink` key |
| NavData.TargetOptions | example.py:436 | the offered targets are exactly the other locations, never the source, without duplicates |
| NavStore.Store.Link | example.py:424-445 | stores `Connection(source, target, path_key)` under `source::path_key::target` (replacing in place on the same key), leaves the locations alone, and the new connection resolves; a source without paths raises `StopIteration` |
| NavData.GraphVertices | example.py:496-505 | the locations in order, then each connection target not yet a vertex, as `add_node` and `add_edge` add them |
| NavData.EdgeMap | example.py:499-505 | each connected pair weighted by the distance of its path, a later connection overwriting an earlier one |
| NavData.GraphOf | example.py:495-505 | the graph `find_path_with_weight` builds: `GraphVertices` and `EdgeMap` over the connections in order |
| NavData.GraphVerticesAre | example.py:497-505 | the vertices are exactly the locations and the connection targets |
| NavData.EdgeMapCovers | example.py:500-505 | every connected pair is an edge |
| NavData.EdgeMapLastWins | example.py:500-505 | every edge is weighted by the distance of the last connection between its pair, so no unconnected pair is an edge |
| NavData.GraphOfClosed | example.py:496-505 | every location is a vertex and every edge joins two vertices |
| NavStore.AddEdge | example.py:499-504 | adding the i-th connection's edge sets its pair's weight to the connection's distance and adds its target as a vertex if new, keeping vertices and edges equal to those of the first i+1 connections |
| NavStore.BuildGraph | example.py:496-505 | raises `KeyError` iff some connection does not resolve; otherwise builds exactly `GraphOf` |
| Routing.ShortestPath | example.py:507-512 | returns a path from start to end, whose total is its weight and no larger than the weight of any other path; no route only when no path exists |
| NavStore.Store.FindPathWithWeight | example.py:495-512 | raises `KeyError` iff some connection does not resolve; otherwise returns a shortest route over the data's graph, or `(None, 0)` exactly when there is no path |
| NavStore.Store.FindPath | example.py:514-516 | the route of `find_path_with_weight`: a path of minimal weight, or none exactly when no path exists |
| NavData.ResolveStep | example.py:456-469 | one pair: `ValueError` at a key without three parts, no step when nothing matches or the path key is empty, `KeyError` when the path is missing, else the step with the path's record |
| NavData.Itinerary | example.py:455-469 | the display after the first n pairs: their steps in order, and the first exception, after which no pair is resolved |
| NavData.FirstMatch | example.py:461-466 | a hit is a key that splits into `current`, its path key and `next`; a bad key is one that does not split into three parts |
| NavData.FirstMatchSkips | example.py:461-466 | every key the scan passes over before it stops splits into three parts and does not run from `current` to `next` |
| NavStore.ScanKeys | example.py:461-466 | the inner loop stops where `FirstMatch` does, with the same outcome |
| NavStore.ResolvePair | example.py:456-469 | one pass of the outer loop gives the step, no step, or the exception that `ResolveStep` gives |
| NavData.ItineraryRaisedStays | example.py:455-469 | once an exception is raised, the rest of the route is never shown |
| NavData.ItineraryGrows | example.py:455-469 | steps once shown stay shown: the steps of a shorter prefix of the route come first in those of a longer one |
| NavData.ItineraryStopsAt | example.py:455-469 | when the display ends with an exception, it was raised while resolving some pair, and exactly the steps of the pairs before that one are shown |
| NavData.ItineraryStepsOfPairs | example.py:455-469 | each step belongs to one consecutive pair and uses the path of the first matching connection and that path's record |
| NavData.ItineraryInOrder | example.py:455 | the steps come in route order, with strictly increasing numbers |
| NavData.ItinerarySkipsUnlinked | example.py:461-468 | a pair with no connection between its locations has no step |
| NavData.ItineraryShowsLinked | example.py:466-469 | a pair the display reaches without an exception, whose first connection has a non-empty path key, gets a step with that path key and its own number |
| NavStore.ShowRoute | example.py:455-469 | the loop over the consecutive pairs shows exactly the steps of `Itinerary` and ends with its exception, if any |
| NavStore.Store.DisplayNavigation | example.py:454-469 | the steps shown, followed by the exception that ends the display if one is raised, are exactly those of `Itinerary` over all consecutive pairs |
| OrderedMap.RemoveAllThenRemove | example.py:334-336 | deleting keys one by one in a loop equals one bulk removal |
| Text.DecimalStringInjective | example.py:254 | `str` of different numbers differs |

## Left out

- GitHub I/O is not modelled: file creation, update and deletion, JSON serialisation, and the save after each handler. The delete handlers return the list of files they would delete; whether a deletion or the save succeeds is not modelled.
- `load_navigation_data` is modelled only by its result. `Store.Fallback` is the empty data returned when the file is missing or does not parse; `Store.Load` is data that parsed.
- Images, QR-code generation and PIL are not modelled. A QR code appears only as the file path `QrPath` that `delete_node` removes.
- The whole Streamlit UI is not modelled: widgets, rendering, `st.rerun`, and the graph visualisation functions. A selection is a parameter: a location name, a list position, or the upload outcomes.
- `upload_image_to_github` is a parameter. Each upload is `Some(path)` when the file was created and `None` when it was not.
- `MergeImages` does not model aliasing. When that path already has images, the source appends to the list object stored in the selected location's `fields` copy, so that location's stored image list changes in place even before the node is saved. A path with no images starts from a fresh list, and its stored record does not change before the save.
- `Store.SaveNode` and `BuildFields` take the form's values as inputs. The record a widget pre-fills is not modelled, and stored records are assumed to carry all five fields (`label`, `distance`, `instruction`, `images`, `landmark`).
- Distances are modelled as integers; Python floats are not modelled.
- Routing requires every connection that resolves to run along a path of non-negative distance. With negative weights, networkx's Dijkstra either raises or returns an undefined result. The precondition is stricter than networkx needs: `add_edge` keeps only the last weight for each (from, to) pair, so a negative distance on a connection that a later connection overwrites does not reach the graph, yet `NonNegativeDistances` still excludes it.
- `Routing.ShortestPath` proves which route it returns is shortest, not which one networkx picks. Ties between shortest paths may resolve differently.
- The guards that end a handler when there is nothing to select are preconditions: no locations, no connections, fewer than two locations to link. With nothing to select, the handler changes nothing.
- `delete_path` and `handle_node_linking` select a path by its listed text. The model selects it by position, which is equivalent by `PathOptionTextInjective`.
- The `session_state` globals are the fields of `Store`. Concurrent sessions and Streamlit's rerun model are not modelled.
