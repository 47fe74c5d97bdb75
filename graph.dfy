/**
 * The route graph: construction from the routes, get-or-create lookup of an
 * airport's node, the condensation of cycles and the search for the nodes
 * that need a new route.
 */
module Graphs {
  import opened Nodes
  import opened Routes
  import opened Walks
  import opened Merging

  /**
   * The shape of a graph under construction on the nodes `ns` for the legs
   * `legs`, with `index` naming the node of each airport: every node holds
   * exactly its one airport, there is an edge from the node of `a` to the
   * node of `b` exactly when `(a, b)` is a leg, and heads mirror tails.
   */
  ghost predicate BuiltOn(ns: set<Node>, legs: set<(Airport, Airport)>, index: map<Airport, Node>)
    reads ns
  {
    && (forall a :: a in index ==> index[a] in ns && index[a].airports == {a})
    && (forall n, a :: n in ns && a in n.airports ==> a in index && index[a] == n)
    && (forall n :: n in ns ==> n.airports != {} && n.heads <= ns && n.tails <= ns)
    && (forall n, m :: n in ns && m in ns ==> (m in n.tails <==> n in m.heads))
    && (forall a, b :: a in index && b in index ==> (index[b] in index[a].tails <==> (a, b) in legs))
    && (forall e :: e in legs ==> e.0 in index && e.1 in index)
  }

  /** The index of a built graph lists exactly the airports of its nodes. */
  lemma IndexedAirports(ns: set<Node>, legs: set<(Airport, Airport)>, index: map<Airport, Node>)
    requires BuiltOn(ns, legs, index)
    ensures index.Keys == AllAirports(ns)
  {
    forall a | a in index ensures a in AllAirports(ns) {
      assert a in index[a].airports;
    }
  }

  /**
   * What a built graph looks like from outside: each node holds a single
   * airport, no two nodes share one, heads mirror tails, and the node of
   * `a` has an edge to the node of `b` exactly when `(a, b)` is a leg.
   */
  lemma BuiltShape(ns: set<Node>, legs: set<(Airport, Airport)>, index: map<Airport, Node>)
    requires BuiltOn(ns, legs, index)
    ensures forall n :: n in ns ==> |n.airports| == 1
    ensures forall m, n :: m in ns && n in ns && m != n ==> m.airports !! n.airports
    ensures forall n, m :: n in ns && m in ns ==> (m in n.tails <==> n in m.heads)
    ensures forall n, m, a, b :: n in ns && m in ns && a in n.airports && b in m.airports ==>
      (m in n.tails <==> (a, b) in legs)
  {
    forall n | n in ns ensures |n.airports| == 1 {
      var a :| a in n.airports;
      assert n.airports == {a};
    }
    forall m, n | m in ns && n in ns && m != n ensures m.airports !! n.airports {
      forall a | a in m.airports ensures a !in n.airports {
        assert index[a] == m;
      }
    }
  }

  /** The legs of a route up to stop `p + 1` add the leg from stop `p`. */
  lemma LegsStep(legs: set<(Airport, Airport)>, route: Route, p: nat)
    requires p + 1 < |route|
    ensures legs + Legs(route[..p + 2]) == legs + Legs(route[..p + 1]) + {(route[p], route[p + 1])}
  {
    assert route[..p + 2][..p + 1] == route[..p + 1];
  }

  lemma StopsStep(route: Route, p: nat)
    requires p < |route|
    ensures Stops(route[..p + 1]) == Stops(route[..p]) + {route[p]}
  {
    var longer := route[..p + 1];
    assert forall i :: 0 <= i < p ==> longer[i] == route[..p][i];
    assert longer[p] == route[p];
  }

  /**
   * The airports the construction has given a node once it has handled the
   * first `p` stops of `route`: those stops, and the stop after the last one.
   */
  ghost function Reached(route: Route, p: nat): set<Airport>
    requires p <= |route|
  {
    Stops(route[..p]) + (if 0 < p < |route| then {route[p]} else {})
  }

  /** The airports known after handling stop `p`: the stop and its neighbours. */
  ghost function Near(keys: set<Airport>, route: Route, p: nat): set<Airport>
    requires p < |route|
  {
    var k1 := keys + {route[p]};
    var k2 := if p > 0 then k1 + {route[p - 1]} else k1;
    if p + 1 < |route| then k2 + {route[p + 1]} else k2
  }

  lemma NearStep(start: set<Airport>, keys: set<Airport>, route: Route, p: nat)
    requires p < |route| && keys == start + Reached(route, p)
    ensures Near(keys, route, p) == start + Reached(route, p + 1)
  {
    StopsStep(route, p);
    if p > 0 {
      StopsStep(route, p - 1);
    }
  }

  /** Handling the whole of a route reaches all its stops and legs. */
  lemma WholeRoute(legs: set<(Airport, Airport)>, route: Route)
    ensures legs + Legs(route[..|route|]) == legs + Legs(route)
    ensures Reached(route, |route|) == Stops(route)
  {
    assert route[..|route|] == route;
  }

  /** One more route adds its airports and legs. */
  lemma RoutesStep(routes: seq<Route>, k: nat, first: Airport)
    requires k < |routes|
    ensures RouteLegs(routes[..k + 1]) == RouteLegs(routes[..k]) + Legs(routes[k])
    ensures {first} + RouteAirports(routes[..k + 1]) == {first} + RouteAirports(routes[..k]) + Stops(routes[k])
  {
    assert routes[..k + 1][..k] == routes[..k];
  }

  /** All the routes: the first stop of the first route is among their airports. */
  lemma AllRoutes(routes: seq<Route>)
    requires |routes| > 0 && |routes[0]| > 0
    ensures RouteLegs(routes[..|routes|]) == RouteLegs(routes)
    ensures {routes[0][0]} + RouteAirports(routes[..|routes|]) == RouteAirports(routes)
  {
    assert routes[..|routes|] == routes;
    RouteAirportsAreStops(routes, routes[0][0]);
  }

  /*
   * `Linking`, `Merger` and the `Fold` and `Turn` of module `Merging` only
   * bundle the arguments of a two-state lemma into one value, which keeps
   * each such lemma to a single parameter; they stand for nothing in the
   * program itself.
   */

  /**
   * An edge being added to a graph under construction: the graph's nodes,
   * legs and index, and the leg `(u, v)` from node `f` to node `t`.
   */
  datatype Linking = Linking(ns: set<Node>, legs: set<(Airport, Airport)>, index: map<Airport, Node>,
                             f: Node, t: Node, u: Airport, v: Airport)

  /**
   * Adding the edge on both of its nodes, which hold the two airports of the
   * leg and change in nothing else, adds the leg to the legs of a built graph.
   */
  twostate lemma LinkedBuilt(k: Linking)
    requires old(BuiltOn(k.ns, k.legs, k.index))
    requires k.u in k.index && k.v in k.index && k.index[k.u] == k.f && k.index[k.v] == k.t
    requires k.f.tails == old(k.f.tails) + {k.t} && k.t.heads == old(k.t.heads) + {k.f}
    requires forall n :: n in k.ns ==> n.airports == old(n.airports)
    requires forall n :: n in k.ns && n != k.f ==> n.tails == old(n.tails)
    requires forall n :: n in k.ns && n != k.t ==> n.heads == old(n.heads)
    ensures BuiltOn(k.ns, k.legs + {(k.u, k.v)}, k.index)
  {
  }

  /** A new node with an airport of its own and no edges keeps the shape. */
  lemma AddingKeepsBuilt(ns: set<Node>, legs: set<(Airport, Airport)>, index: map<Airport, Node>, x: Node, a: Airport)
    requires BuiltOn(ns, legs, index)
    requires x !in ns && a !in index && x.airports == {a}
    requires x.heads == {} && x.tails == {}
    ensures BuiltOn(ns + {x}, legs, index[a := x])
  {
  }

  /**
   * The outcome of a condensation: the nodes folded into the reference node,
   * a walk that never ends, or a collected node that had already left the
   * graph, where the source raises an error.
   */
  datatype Condensation = Condensed(merged: seq<Node>) | WalkEndless | NodeMissing(gone: Node)

  /** How the source stops short: a condensation that walks forever, or one that raises. */
  datatype Halt = Hangs | Raises

  /** The outcome of the search from one node: whether it condensed a cycle, or how it stopped. */
  datatype SearchOutcome = Searched(condensed: bool) | SearchHalted(halt: Halt)

  /** The outcome of the reduction. */
  datatype Reduction = Reduced | ReduceHalted(halt: Halt) | OutOfFuel

  /**
   * The bookkeeping of the search from `node` over the nodes `all`: the
   * unexplored list holds distinct nodes, each reached already and none
   * explored, and every node `paths` leads back to was reached too, or is
   * `node`.
   */
  ghost predicate Searching(node: Node, paths: map<Node, Node>, unexplored: seq<Node>, explored: set<Node>, all: set<Node>)
  {
    && Distinct(unexplored) && Elems(unexplored) <= all && Elems(unexplored) <= paths.Keys
    && explored <= all && Elems(unexplored) !! explored
    && paths.Values <= paths.Keys + {node}
  }

  /** Taking the last node off the unexplored list keeps the bookkeeping. */
  lemma Popped(node: Node, paths: map<Node, Node>, unexplored: seq<Node>, explored: set<Node>, all: set<Node>)
    requires unexplored != [] && Searching(node, paths, unexplored, explored, all)
    ensures var last := unexplored[|unexplored| - 1];
      && Searching(node, paths, unexplored[..|unexplored| - 1], explored, all)
      && last in all && last in paths && last !in unexplored[..|unexplored| - 1] && last !in explored
      && |unexplored[..|unexplored| - 1]| < |unexplored|
  {
    var init, last := unexplored[..|unexplored| - 1], unexplored[|unexplored| - 1];
    assert unexplored == init + [last];
    assert Elems(unexplored) == Elems(init) + {last};
  }

  /** Recording that `tail` was reached from `currNode`, now explored, keeps the bookkeeping. */
  lemma Recorded(node: Node, paths: map<Node, Node>, unexplored: seq<Node>, explored: set<Node>, all: set<Node>,
                currNode: Node, tail: Node)
    requires Searching(node, paths, unexplored, explored, all)
    requires currNode in all && currNode in paths && currNode !in unexplored
    ensures Searching(node, paths[tail := currNode], unexplored, explored + {currNode}, all)
    ensures tail in paths[tail := currNode] && currNode in paths[tail := currNode]
  {
    assert paths[tail := currNode].Values <= paths.Values + {currNode};
  }

  /** Listing a reached node that is neither explored nor listed keeps the bookkeeping. */
  lemma Listed(node: Node, paths: map<Node, Node>, unexplored: seq<Node>, explored: set<Node>, all: set<Node>, tail: Node)
    requires Searching(node, paths, unexplored, explored, all)
    requires tail in all && tail in paths && tail !in explored && tail !in unexplored
    ensures Searching(node, paths, unexplored + [tail], explored, all)
  {
    assert Elems(unexplored + [tail]) == Elems(unexplored) + {tail};
  }

  /** Exploring one more node of `all` leaves fewer to explore. */
  lemma FewerLeft(all: set<Node>, explored: set<Node>, x: Node)
    requires x in all && x !in explored
    ensures |all - (explored + {x})| < |all - explored|
  {
    assert all - explored == (all - (explored + {x})) + {x};
  }

  /** A graph, its reference node and the nodes folded into it. */
  datatype Merger = Merger(g: Graph, ref: Node, cs: seq<Node>)

  /**
   * Folding live nodes into a live reference node keeps the graph valid,
   * provided the reference node takes their airports and at most their
   * edges, they leave the graph and every other node is as it was.
   */
  twostate lemma MergedValid(k: Merger)
    requires old(k.g.Valid()) && k.ref in old(k.g.nodes) && k.ref !in k.cs
    requires forall i :: 0 <= i < |k.cs| ==> k.cs[i] in old(k.g.nodes)
    requires k.g.All == old(k.g.All) && k.g.nodes == old(k.g.nodes) - Elems(k.cs)
    requires k.ref.airports == old(k.ref.airports + AirportsOf(k.cs))
    requires k.ref.heads <= old(k.ref.heads + Neighbours(k.cs))
    requires k.ref.tails <= old(k.ref.tails + Neighbours(k.cs))
    requires forall n :: n in k.g.All && n != k.ref ==>
      n.airports == old(n.airports) && n.heads == old(n.heads) && n.tails == old(n.tails)
    ensures k.g.Valid()
  {
    var g, ref, cs := k.g, k.ref, k.cs;
    forall h | h in old(Neighbours(cs)) ensures h in g.All {
      var i :| 0 <= i < |cs| && h in old(cs[i].heads + cs[i].tails);
      assert cs[i] in g.All;
    }
    AirportsOfUnchanged(cs);
    forall m, n | m in g.nodes && n in g.nodes && m != n ensures m.airports !! n.airports {
      if m == ref || n == ref {
        var other := if m == ref then n else m;
        forall a | a in ref.airports ensures a !in other.airports {
          AirportsOfIff(cs, a);
        }
      }
    }
  }

  /**
   * Folding live nodes into a live reference node keeps the airports of the
   * graph: those of the nodes that leave are now held by the reference node.
   */
  twostate lemma MergedAirports(k: Merger)
    requires k.ref in old(k.g.nodes) && k.ref !in k.cs
    requires forall i :: 0 <= i < |k.cs| ==> k.cs[i] in old(k.g.nodes)
    requires k.g.nodes == old(k.g.nodes) - Elems(k.cs)
    requires k.ref.airports == old(k.ref.airports + AirportsOf(k.cs))
    requires forall n :: n in old(k.g.nodes) && n != k.ref ==> n.airports == old(n.airports)
    ensures AllAirports(k.g.nodes) == old(AllAirports(k.g.nodes))
  {
    var g, ref, cs := k.g, k.ref, k.cs;
    AirportsOfUnchanged(cs);
    forall a | a in old(AllAirports(g.nodes)) ensures a in AllAirports(g.nodes) {
      var n :| n in old(g.nodes) && a in old(n.airports);
      if n in Elems(cs) {
        var i :| 0 <= i < |cs| && cs[i] == n;
        AirportsOfIff(cs, a);
        assert a in ref.airports;
      } else {
        assert n in g.nodes;
      }
    }
    forall a | a in AllAirports(g.nodes) ensures a in old(AllAirports(g.nodes)) {
      var n :| n in g.nodes && a in n.airports;
      if n == ref && a !in old(ref.airports) {
        AirportsOfIff(cs, a);
        var i :| 0 <= i < |cs| && a in cs[i].airports;
        assert a in old(cs[i].airports);
      }
    }
  }

  /**
   * One route per node of `roots`, each to an airport of its node, covers
   * every node of `roots` and, as live nodes share no airport, never
   * twice to the same airport.
   */
  lemma Covering(start: Airport, routes: seq<Route>, picked: seq<Node>, roots: set<Node>, live: set<Node>)
    requires Distinct(picked) && Elems(picked) == roots && roots <= live && |routes| == |picked|
    requires forall m, n :: m in live && n in live && m != n ==> m.airports !! n.airports
    requires forall k :: 0 <= k < |routes| ==>
      |routes[k]| == 2 && routes[k][0] == start && routes[k][1] in picked[k].airports
    ensures |routes| == |roots|
    ensures forall j, k :: 0 <= j < k < |routes| ==> routes[j][1] != routes[k][1]
    ensures forall k :: 0 <= k < |routes| ==> exists n :: n in roots && routes[k][1] in n.airports
    ensures forall n :: n in roots ==> exists k :: 0 <= k < |routes| && routes[k][1] in n.airports
  {
    DistinctSize(picked);
    forall j, k | 0 <= j < k < |routes|
      ensures routes[j][1] != routes[k][1]
    {
      assert picked[j] != picked[k] && picked[j] in roots && picked[k] in roots;
    }
    forall k | 0 <= k < |routes|
      ensures exists n :: n in roots && routes[k][1] in n.airports
    {
      assert picked[k] in Elems(picked);
    }
    forall n | n in roots
      ensures exists k :: 0 <= k < |routes| && routes[k][1] in n.airports
    {
      var k :| 0 <= k < |picked| && picked[k] == n;
      assert routes[k][1] in n.airports;
    }
  }

  class Graph {
    var nodes: set<Node>
    var head: Node
    /** Every node this graph has created, including the ones condensed away. */
    ghost var All: set<Node>

    /**
     * The graph invariant: every node ever created holds some airport and
     * points only at nodes of the graph, and the live nodes share no airport,
     * so each airport of the graph lies in exactly one live node.
     */
    ghost predicate Valid()
      reads this, All
    {
      && nodes <= All
      && (forall n :: n in All ==> n.airports != {} && n.heads <= All && n.tails <= All)
      && (forall m, n :: m in nodes && n in nodes && m != n ==> m.airports !! n.airports)
    }

    /** A graph whose live nodes are all the nodes it ever made and that is built is valid. */
    lemma BuiltValid(legs: set<(Airport, Airport)>, index: map<Airport, Node>)
      requires All == nodes && BuiltOn(nodes, legs, index)
      ensures Valid()
    {
      BuiltShape(nodes, legs, index);
    }

    /**
     * Builds the graph of `routes`: one node per airport the routes stop at
     * and an edge for every two consecutive stops. The head is the node of
     * the first stop of the first route. The list of airports is not
     * consulted.
     */
    constructor (airports: seq<Airport>, routes: seq<Route>)
      requires |routes| > 0 && |routes[0]| > 0
      ensures Valid() && All == nodes && fresh(nodes)
      ensures AllAirports(nodes) == RouteAirports(routes)
      ensures head in nodes && head.airports == {routes[0][0]}
      ensures forall n :: n in nodes ==> |n.airports| == 1
      ensures forall n, m :: n in nodes && m in nodes ==> (m in n.tails <==> n in m.heads)
      ensures forall n, m, a, b :: n in nodes && m in nodes && a in n.airports && b in m.airports ==>
        (m in n.tails <==> (a, b) in RouteLegs(routes))
    {
      // Looking up the first airport in the empty graph creates its node.
      var first := new Node(routes[0][0]);
      nodes := {first};
      All := {first};
      head := first;
      new;
      ghost var index := map[routes[0][0] := first];
      var k := 0;
      while k < |routes|
        invariant 0 <= k <= |routes|
        invariant All == nodes && (forall n :: n in nodes ==> fresh(n))
        invariant BuiltOn(nodes, RouteLegs(routes[..k]), index)
        invariant index.Keys == {routes[0][0]} + RouteAirports(routes[..k])
        invariant routes[0][0] in index && head == index[routes[0][0]]
      {
        RoutesStep(routes, k, routes[0][0]);
        index := AddRoute(routes[k], RouteLegs(routes[..k]), index);
        k := k + 1;
      }
      AllRoutes(routes);
      IndexedAirports(nodes, RouteLegs(routes), index);
      BuiltShape(nodes, RouteLegs(routes), index);
      BuiltValid(RouteLegs(routes), index);
    }

    /** Adds the airports and legs of one route. */
    method AddRoute(route: Route, ghost legs: set<(Airport, Airport)>, ghost index: map<Airport, Node>)
      returns (ghost index': map<Airport, Node>)
      requires All == nodes && BuiltOn(nodes, legs, index)
      modifies this, nodes
      ensures All == nodes && head == old(head)
      ensures BuiltOn(nodes, legs + Legs(route), index')
      ensures index'.Keys == index.Keys + Stops(route)
      ensures forall a :: a in index ==> index'[a] == index[a]
      ensures old(nodes) <= nodes && (forall n :: n in nodes ==> n in old(nodes) || fresh(n))
    {
      index' := index;
      var routePos := 0;
      while routePos < |route|
        invariant 0 <= routePos <= |route|
        invariant All == nodes && head == old(head)
        invariant old(nodes) <= nodes && (forall n :: n in nodes ==> n in old(nodes) || fresh(n))
        invariant BuiltOn(nodes, legs + Legs(route[..if routePos < |route| then routePos + 1 else |route|]), index')
        invariant index'.Keys == index.Keys + Reached(route, routePos)
        invariant forall a :: a in index ==> index'[a] == index[a]
      {
        index' := AddStop(route, routePos, legs, index, index');
        routePos := routePos + 1;
      }
      WholeRoute(legs, route);
    }

    /**
     * The body of the construction loop for the stop `routePos` of `route`,
     * stated in terms of the stops handled so far.
     */
    method AddStop(route: Route, routePos: nat, ghost legs: set<(Airport, Airport)>,
                   ghost index0: map<Airport, Node>, ghost index: map<Airport, Node>)
      returns (ghost index': map<Airport, Node>)
      requires routePos < |route|
      requires All == nodes && BuiltOn(nodes, legs + Legs(route[..routePos + 1]), index)
      requires index.Keys == index0.Keys + Reached(route, routePos)
      requires forall a :: a in index0 ==> index[a] == index0[a]
      modifies this, nodes
      ensures All == nodes && head == old(head)
      ensures old(nodes) <= nodes && (forall n :: n in nodes ==> n in old(nodes) || fresh(n))
      ensures BuiltOn(nodes, legs + Legs(route[..if routePos + 1 < |route| then routePos + 2 else |route|]), index')
      ensures index'.Keys == index0.Keys + Reached(route, routePos + 1)
      ensures forall a :: a in index0 ==> index'[a] == index0[a]
    {
      if routePos > 0 {
        LegsStep(legs, route, routePos - 1);
      }
      NearStep(index0.Keys, index.Keys, route, routePos);
      index' := StopLinks(route, routePos, legs + Legs(route[..routePos + 1]), index);
      if routePos + 1 < |route| {
        LegsStep(legs, route, routePos);
      }
    }

    /**
     * The work done for one stop: the node of the stop, the edge from the
     * previous stop and the edge to the next.
     */
    method StopLinks(route: Route, routePos: nat, ghost legs: set<(Airport, Airport)>, ghost index: map<Airport, Node>)
      returns (ghost index': map<Airport, Node>)
      requires routePos < |route|
      requires All == nodes && BuiltOn(nodes, legs, index)
      requires routePos > 0 ==> (route[routePos - 1], route[routePos]) in legs
      modifies this, nodes
      ensures All == nodes && head == old(head)
      ensures old(nodes) <= nodes && (forall n :: n in nodes ==> n in old(nodes) || fresh(n))
      ensures BuiltOn(nodes, if routePos + 1 < |route| then legs + {(route[routePos], route[routePos + 1])} else legs, index')
      ensures index'.Keys == Near(index.Keys, route, routePos)
      ensures forall a :: a in index ==> index'[a] == index[a]
    {
      var node;
      node, index' := Locate(route[routePos], legs, index);
      if routePos > 0 {
        index' := Inbound(node, route[routePos - 1], route[routePos], legs, index');
      }
      if routePos < |route| - 1 {
        index' := Outbound(node, route[routePos], route[routePos + 1], legs, index');
      }
    }

    /** The inbound edge of a stop: from the node of the previous stop `from` into `node`. */
    method Inbound(node: Node, from: Airport, to: Airport, ghost legs: set<(Airport, Airport)>, ghost index: map<Airport, Node>)
      returns (ghost index': map<Airport, Node>)
      requires All == nodes && BuiltOn(nodes, legs, index)
      requires to in index && index[to] == node && (from, to) in legs
      modifies this, nodes
      ensures All == nodes && head == old(head)
      ensures old(nodes) <= nodes && (forall n :: n in nodes ==> n in old(nodes) || fresh(n))
      ensures BuiltOn(nodes, legs, index')
      ensures index'.Keys == index.Keys + {from}
      ensures forall a :: a in index ==> index'[a] == index[a]
    {
      assert legs + {(from, to)} == legs;
      var fromNode;
      fromNode, index' := Locate(from, legs, index);
      Link(fromNode, node, from, to, legs, index');
    }

    /** The outbound edge of a stop: from `node` to the node of the next stop `to`. */
    method Outbound(node: Node, from: Airport, to: Airport, ghost legs: set<(Airport, Airport)>, ghost index: map<Airport, Node>)
      returns (ghost index': map<Airport, Node>)
      requires All == nodes && BuiltOn(nodes, legs, index)
      requires from in index && index[from] == node
      modifies this, nodes
      ensures All == nodes && head == old(head)
      ensures old(nodes) <= nodes && (forall n :: n in nodes ==> n in old(nodes) || fresh(n))
      ensures BuiltOn(nodes, legs + {(from, to)}, index')
      ensures index'.Keys == index.Keys + {to}
      ensures forall a :: a in index ==> index'[a] == index[a]
    {
      var toNode;
      toNode, index' := Locate(to, legs, index);
      Link(node, toNode, from, to, legs, index');
    }

    /** `GetNode` during construction, keeping the index of the nodes up to date. */
    method Locate(airport: Airport, ghost legs: set<(Airport, Airport)>, ghost index: map<Airport, Node>)
      returns (node: Node, ghost index': map<Airport, Node>)
      requires All == nodes && BuiltOn(nodes, legs, index)
      modifies this
      ensures All == nodes && head == old(head)
      ensures old(nodes) <= nodes && (forall n :: n in nodes ==> n in old(nodes) || fresh(n))
      ensures BuiltOn(nodes, legs, index')
      ensures index'.Keys == index.Keys + {airport} && index'[airport] == node
      ensures forall a :: a in index ==> index'[a] == index[a]
    {
      IndexedAirports(nodes, legs, index);
      BuiltValid(legs, index);
      ghost var before := nodes;
      node := GetNode(airport);
      if airport in index {
        index' := index;
      } else {
        AddingKeepsBuilt(before, legs, index, node, airport);
        index' := index[airport := node];
      }
    }

    /** Records the edge from `fromNode` to `toNode` on both ends. */
    method Link(fromNode: Node, toNode: Node, ghost u: Airport, ghost v: Airport,
                ghost legs: set<(Airport, Airport)>, ghost index: map<Airport, Node>)
      requires BuiltOn(nodes, legs, index)
      requires u in index && v in index && index[u] == fromNode && index[v] == toNode
      modifies fromNode`tails, toNode`heads
      ensures BuiltOn(nodes, legs + {(u, v)}, index)
      ensures fromNode.tails == old(fromNode.tails) + {toNode}
      ensures toNode.heads == old(toNode.heads) + {fromNode}
    {
      fromNode.AddTail(toNode);
      toNode.AddHead(fromNode);
      LinkedBuilt(Linking(nodes, legs, index, fromNode, toNode, u, v));
    }

    /** The live node holding `airport`, if there is one. */
    method Lookup(airport: Airport) returns (found: Option<Node>)
      ensures found.Some? ==> found.value in nodes && airport in found.value.airports
      ensures found.None? <==> airport !in AllAirports(nodes)
    {
      var rest := nodes;
      while rest != {}
        invariant rest <= nodes
        invariant forall n :: n in nodes - rest ==> airport !in n.airports
        decreases rest
      {
        var node :| node in rest;
        var held := node.GetAirports();
        if airport in held {
          return Some(node);
        }
        rest := rest - {node};
      }
      return None;
    }

    /**
     * The node holding `airport`; when there is none, a new node holding
     * only `airport` is created and added.
     */
    method GetNode(airport: Airport) returns (node: Node)
      requires Valid()
      modifies this
      ensures Valid() && head == old(head)
      ensures node in nodes && airport in node.airports
      ensures AllAirports(nodes) == old(AllAirports(nodes)) + {airport}
      ensures airport in old(AllAirports(nodes)) ==> nodes == old(nodes) && All == old(All)
      ensures airport !in old(AllAirports(nodes)) ==>
        && fresh(node) && nodes == old(nodes) + {node} && All == old(All) + {node}
        && node.airports == {airport} && node.heads == {} && node.tails == {}
    {
      var found := Lookup(airport);
      if found.Some? {
        return found.value;
      }
      node := new Node(airport);
      AddNode(node);
    }

    /** Adds `node` to the graph; adding a node already present changes nothing. */
    method AddNode(node: Node)
      requires Valid()
      requires node !in nodes ==>
        && node.airports != {} && node.airports !! AllAirports(nodes)
        && node.heads <= All + {node} && node.tails <= All + {node}
      modifies this
      ensures Valid() && head == old(head)
      ensures nodes == old(nodes) + {node}
      ensures All == old(All) + {node}
      ensures AllAirports(nodes) == old(AllAirports(nodes)) + node.airports
    {
      if node !in nodes {
        nodes := nodes + {node};
      }
      All := All + {node};
    }

    /**
     * Folds the collected nodes `cs` into `refNode`, in order: `refNode`
     * takes their airports and adopts their edges, and they leave the graph.
     * Finally the edges between `refNode` and the collected nodes, and any
     * edge from `refNode` to itself, are dropped. Only `refNode` is updated:
     * the other nodes keep their edges to the nodes folded away.
     */
    method Merge(cs: seq<Node>, refNode: Node)
      requires Valid() && refNode in nodes
      requires Distinct(cs) && (forall i :: 0 <= i < |cs| ==> cs[i] in nodes) && refNode !in cs
      modifies this`nodes, refNode`airports, refNode`heads, refNode`tails
      ensures Valid() && AllAirports(nodes) == old(AllAirports(nodes))
      ensures nodes == old(nodes) - Elems(cs)
      ensures refNode.airports == old(refNode.airports) + AirportsOf(cs)
      ensures refNode.heads == old(refNode.heads) + Adopted(refNode, old(refNode.airports), cs, cs, true) - Elems(cs) - {refNode}
      ensures refNode.tails == old(refNode.tails) + Adopted(refNode, old(refNode.airports), cs, cs, false) - Elems(cs) - {refNode}
    {
      ghost var air0 := refNode.airports;
      AdoptedWithin(refNode, refNode.airports, cs, cs, true);
      AdoptedWithin(refNode, refNode.airports, cs, cs, false);
      FoldAll(cs, refNode);
      var hs := refNode.GetHeads();
      DropHeads(refNode, hs, cs);
      var ts := refNode.GetTails();
      DropTails(refNode, ts, cs);
      assert forall n :: n in All && n != refNode ==>
        n.airports == old(n.airports) && n.heads == old(n.heads) && n.tails == old(n.tails);
      MergedValid(Merger(this, refNode, cs));
      MergedAirports(Merger(this, refNode, cs));
      AdoptedUnchanged(Fold(refNode, air0, cs, cs, true));
      AdoptedUnchanged(Fold(refNode, air0, cs, cs, false));
      AirportsOfUnchanged(cs);
    }

    /** The condensation loop: folds each collected node into `refNode`, in order. */
    method FoldAll(cs: seq<Node>, refNode: Node)
      requires Distinct(cs) && (forall i :: 0 <= i < |cs| ==> cs[i] in nodes) && refNode !in cs
      requires refNode.airports != {}
      modifies this`nodes, refNode`airports, refNode`heads, refNode`tails
      ensures nodes == old(nodes) - Elems(cs)
      ensures refNode.airports == old(refNode.airports + AirportsOf(cs))
      ensures refNode.heads == old(refNode.heads + Adopted(refNode, refNode.airports, cs, cs, true))
      ensures refNode.tails == old(refNode.tails + Adopted(refNode, refNode.airports, cs, cs, false))
    {
      ghost var nodes0 := nodes;
      ghost var air0 := refNode.airports;
      ghost var heads0 := refNode.heads;
      ghost var tails0 := refNode.tails;
      var i := 0;
      while i < |cs|
        invariant 0 <= i <= |cs|
        invariant nodes == nodes0 - Elems(cs[..i])
        invariant refNode.airports == air0 + AirportsOf(cs[..i])
        invariant refNode.heads == heads0 + Adopted(refNode, air0, cs[..i], cs, true)
        invariant refNode.tails == tails0 + Adopted(refNode, air0, cs[..i], cs, false)
      {
        FoldStep(cs, refNode, i, nodes0, air0, heads0, tails0);
        i := i + 1;
      }
      assert cs[..i] == cs;
      AdoptedUnchanged(Fold(refNode, air0, cs, cs, true));
      AdoptedUnchanged(Fold(refNode, air0, cs, cs, false));
      AirportsOfUnchanged(cs);
    }

    /** One turn of the condensation loop, stated in terms of the whole fold. */
    method FoldStep(cs: seq<Node>, refNode: Node, i: nat, ghost nodes0: set<Node>,
                    ghost air0: set<Airport>, ghost heads0: set<Node>, ghost tails0: set<Node>)
      requires i < |cs| && Distinct(cs) && (forall j :: 0 <= j < |cs| ==> cs[j] in nodes0) && refNode !in cs
      requires nodes == nodes0 - Elems(cs[..i])
      requires refNode.airports == air0 + AirportsOf(cs[..i]) && air0 != {}
      requires refNode.heads == heads0 + Adopted(refNode, air0, cs[..i], cs, true)
      requires refNode.tails == tails0 + Adopted(refNode, air0, cs[..i], cs, false)
      modifies this`nodes, refNode`airports, refNode`heads, refNode`tails
      ensures nodes == nodes0 - Elems(cs[..i + 1])
      ensures refNode.airports == air0 + AirportsOf(cs[..i + 1])
      ensures refNode.heads == heads0 + Adopted(refNode, air0, cs[..i + 1], cs, true)
      ensures refNode.tails == tails0 + Adopted(refNode, air0, cs[..i + 1], cs, false)
    {
      ElemsStep(cs, i, nodes0);
      FoldIn(cs[i], refNode, cs);
      AdoptedTurn(Turn(refNode, air0, cs, i, heads0, tails0));
    }

    /**
     * One turn of the condensation loop: `refNode` takes the airports of
     * `node`, adopts those of its heads and tails that pass the filter, and
     * `node` leaves the graph.
     */
    method FoldIn(node: Node, refNode: Node, cs: seq<Node>)
      requires node != refNode && node in nodes && refNode.airports != {}
      modifies this`nodes, refNode`airports, refNode`heads, refNode`tails
      ensures nodes == old(nodes) - {node}
      ensures refNode.airports == old(refNode.airports) + node.airports
      ensures Side(refNode, true) == old(Side(refNode, true)) + Filtered(Side(node, true), refNode, cs, refNode.airports)
      ensures Side(refNode, false) == old(Side(refNode, false)) + Filtered(Side(node, false), refNode, cs, refNode.airports)
    {
      var theirs := node.GetAirports();
      var mine := refNode.GetAirports();
      refNode.AddAirports(theirs - mine);
      var hs := node.GetHeads();
      AdoptHeads(refNode, hs, cs);
      var ts := node.GetTails();
      AdoptTails(refNode, ts, cs);
      nodes := nodes - {node};
    }

    /**
     * The condensation of the cycle that the search from `refNode` has just
     * closed: walk back through `paths` from `refNode`, collecting the nodes
     * that share no airport with it, and fold them into it. Where the source
     * keeps walking forever, or fails to remove a node that is no longer in
     * the graph, the graph is left as it was.
     */
    method CondenseNodes(paths: map<Node, Node>, refNode: Node) returns (r: Condensation)
      requires Valid() && refNode in nodes
      requires refNode in paths && paths.Values <= paths.Keys
      modifies this`nodes, refNode`airports, refNode`heads, refNode`tails
      ensures Valid() && AllAirports(nodes) == old(AllAirports(nodes))
      ensures refNode in nodes && nodes <= old(nodes)
      ensures r.Condensed? ==>
        && Distinct(r.merged)
        && (forall i :: 0 <= i < |r.merged| ==> r.merged[i] == Back(paths, refNode, i + 1))
        && old(StopsAfter(paths, refNode, |r.merged|))
        && nodes == old(nodes) - Elems(r.merged)
        && |nodes| == old(|nodes|) - |r.merged|
        && refNode.airports == old(refNode.airports) + AirportsOf(r.merged)
        && refNode.heads == old(refNode.heads) + Adopted(refNode, old(refNode.airports), r.merged, r.merged, true)
                            - Elems(r.merged) - {refNode}
        && refNode.tails == old(refNode.tails) + Adopted(refNode, old(refNode.airports), r.merged, r.merged, false)
                            - Elems(r.merged) - {refNode}
      ensures r.WalkEndless? ==>
        old(forall n :: 1 <= n ==> SharesNoAirport(Back(paths, refNode, n), refNode))
      ensures r.NodeMissing? ==>
        && r.gone !in nodes
        && exists i :: 1 <= i && Back(paths, refNode, i) == r.gone && r.gone.airports !! old(refNode.airports)
      ensures !r.Condensed? ==> nodes == old(nodes) && unchanged(refNode)
    {
      var walk := Backtrack(paths, refNode);
      if walk.Endless? {
        return WalkEndless;
      }
      var cs := walk.nodes;
      if exists k :: 0 <= k < |cs| && cs[k] !in nodes {
        var k :| 0 <= k < |cs| && cs[k] !in nodes;
        assert Back(paths, refNode, k + 1) == cs[k];
        return NodeMissing(cs[k]);
      }
      // Every collected node shares no airport with `refNode`, which holds one.
      assert !SharesNoAirport(refNode, refNode);
      RemovedSize(nodes, cs);
      Merge(cs, refNode);
      r := Condensed(cs);
    }

    /**
     * The depth-first search from `node` of the reduction. A node with both
     * heads and tails is searched: each node taken from the end of the
     * unexplored list is visited, and the search goes on until the list is
     * empty or a condensation stops it.
     */
    method Search(node: Node) returns (r: SearchOutcome)
      requires Valid() && node in nodes
      modifies this`nodes, node`airports, node`heads, node`tails
      ensures Valid() && AllAirports(nodes) == old(AllAirports(nodes))
      ensures node in nodes && nodes <= old(nodes)
      ensures old(node.tails == {} || node.heads == {}) ==> r == Searched(false)
      ensures r == Searched(false) ==> nodes == old(nodes) && unchanged(node)
    {
      if node.tails == {} || node.heads == {} {
        return Searched(false);
      }
      // The tails of `node` are listed first, each reached from `node`.
      var unexplored: seq<Node> := [];
      var paths: map<Node, Node> := map[];
      var rest := node.tails;
      while rest != {}
        invariant rest <= node.tails && Elems(unexplored) == node.tails - rest && Distinct(unexplored)
        invariant paths.Keys == node.tails - rest && paths.Values <= {node}
        decreases rest
      {
        var tail :| tail in rest;
        assert Elems(unexplored + [tail]) == Elems(unexplored) + {tail};
        unexplored := unexplored + [tail];
        paths := paths[tail := node];
        rest := rest - {tail};
      }
      assert Searching(node, paths, unexplored, {}, All);
      r := Explore(node, paths, unexplored);
    }

    /**
     * The loop of the search from `node`: takes the last node off the
     * unexplored list and visits it, until the list is empty or a
     * condensation stops the search. The explored set starts empty.
     */
    method Explore(node: Node, seeded: map<Node, Node>, listed: seq<Node>) returns (r: SearchOutcome)
      requires Valid() && node in nodes
      requires Searching(node, seeded, listed, {}, All)
      modifies this`nodes, node`airports, node`heads, node`tails
      ensures Valid() && AllAirports(nodes) == old(AllAirports(nodes))
      ensures node in nodes && nodes <= old(nodes)
      ensures r == Searched(false) ==> nodes == old(nodes) && unchanged(node)
    {
      var paths, unexplored := seeded, listed;
      var explored: set<Node> := {};
      var condensed := false;
      while unexplored != []
        invariant Valid() && AllAirports(nodes) == old(AllAirports(nodes))
        invariant node in nodes && nodes <= old(nodes)
        invariant !condensed ==> nodes == old(nodes) && unchanged(node)
        invariant Searching(node, paths, unexplored, explored, All)
        decreases |All - explored|, |unexplored|
      {
        Popped(node, paths, unexplored, explored, All);
        var currNode := unexplored[|unexplored| - 1];
        unexplored := unexplored[..|unexplored| - 1];
        ghost var before := explored;
        var halt;
        paths, unexplored, explored, condensed, halt := Visit(node, currNode, paths, unexplored, explored, condensed);
        if halt.Some? {
          return SearchHalted(halt.value);
        }
        if explored != before {
          FewerLeft(All, before, currNode);
        }
      }
      return Searched(condensed);
    }

    /**
     * The reduction, which the source means to make the graph acyclic:
     * searches from each live node in turn, in the order of a listing of the
     * nodes, and starts again from the first node of a fresh listing
     * whenever a search has condensed a cycle. At most `fuel` searches are
     * made.
     */
    method Reduce(fuel: nat) returns (r: Reduction)
      requires Valid()
      modifies this`nodes, All
      ensures Valid() && AllAirports(nodes) == old(AllAirports(nodes))
      ensures nodes <= old(nodes) && head == old(head)
    {
      var index := 0;
      var order := Enumerate(nodes);
      var left := fuel;
      while index < |nodes|
        invariant Valid() && AllAirports(nodes) == old(AllAirports(nodes)) && nodes <= old(nodes)
        invariant Elems(order) == nodes && |order| == |nodes|
        decreases left
      {
        if left == 0 {
          return OutOfFuel;
        }
        left := left - 1;
        var node := order[index];
        index := index + 1;
        var s := Search(node);
        if s.SearchHalted? {
          return ReduceHalted(s.halt);
        }
        if s.condensed {
          index := 0;
          order := Enumerate(nodes);
        }
      }
      return Reduced;
    }

    /**
     * Visits `currNode`, just taken from the unexplored list: for each of
     * its tails, records that the tail was reached from `currNode` and marks
     * `currNode` explored; a tail that is `node` closes a cycle, which is
     * condensed, and any other tail neither explored nor listed joins the
     * list. The tails are those `currNode` had when the visit began, so a
     * condensation that changes them does not change the visit. A
     * condensation that walks forever or raises stops the visit.
     */
    method Visit(node: Node, currNode: Node, paths: map<Node, Node>, unexplored: seq<Node>,
                 explored: set<Node>, condensed: bool)
      returns (paths': map<Node, Node>, unexplored': seq<Node>, explored': set<Node>,
               condensed': bool, halt: Option<Halt>)
      requires Valid() && node in nodes
      requires Searching(node, paths, unexplored, explored, All)
      requires currNode in All && currNode in paths && currNode !in unexplored && currNode !in explored
      modifies this`nodes, node`airports, node`heads, node`tails
      ensures Valid() && AllAirports(nodes) == old(AllAirports(nodes))
      ensures node in nodes && nodes <= old(nodes)
      ensures condensed ==> condensed'
      ensures !condensed' ==> nodes == old(nodes) && unchanged(node)
      ensures halt.None? ==> Searching(node, paths', unexplored', explored', All)
      ensures halt.None? ==>
        || (explored' == explored + {currNode} && currNode !in explored)
        || (explored' == explored && unexplored' == unexplored)
      ensures halt.Some? ==> node in old(currNode.tails)
    {
      paths', unexplored', explored', condensed', halt := paths, unexplored, explored, condensed, None;
      var ts := currNode.GetTails();
      var rest := ts;
      while rest != {}
        invariant Valid() && AllAirports(nodes) == old(AllAirports(nodes))
        invariant node in nodes && nodes <= old(nodes)
        invariant condensed ==> condensed'
        invariant !condensed' ==> nodes == old(nodes) && unchanged(node)
        invariant rest <= ts && ts <= All && currNode in paths' && ts == old(currNode.tails)
        invariant currNode !in unexplored'
        invariant Searching(node, paths', unexplored', explored', All)
        invariant explored' == explored + (if rest == ts then {} else {currNode})
        invariant rest == ts ==> unexplored' == unexplored
        decreases rest
      {
        var tail :| tail in rest;
        Recorded(node, paths', unexplored', explored', All, currNode, tail);
        paths' := paths'[tail := currNode];
        explored' := explored' + {currNode};
        if tail == node {
          var c := CondenseNodes(paths', tail);
          if c.WalkEndless? {
            return paths', unexplored', explored', condensed', Some(Hangs);
          } else if c.NodeMissing? {
            return paths', unexplored', explored', condensed', Some(Raises);
          }
          condensed' := true;
        } else if tail !in explored' && tail !in unexplored' {
          Listed(node, paths', unexplored', explored', All, tail);
          unexplored' := unexplored' + [tail];
        }
        rest := rest - {tail};
      }
    }

    /** Adopts each of `hs` that is not `refNode`, not in `cs` and shares no airport with `refNode`. */
    method AdoptHeads(refNode: Node, hs: set<Node>, cs: seq<Node>)
      requires refNode.airports != {}
      modifies refNode`heads
      ensures refNode.heads == old(refNode.heads) + Filtered(hs, refNode, cs, refNode.airports)
    {
      var rest := hs;
      while rest != {}
        invariant rest <= hs
        invariant refNode.heads == old(refNode.heads) + Filtered(hs - rest, refNode, cs, refNode.airports)
        decreases rest
      {
        var head :| head in rest;
        var keeps := KeepsAllAirports(head, refNode);
        var present := refNode.GetHeads();
        if keeps && head !in cs && head !in present {
          refNode.AddHead(head);
        }
        rest := rest - {head};
      }
    }

    /** Adopts each of `ts` that is not `refNode`, not in `cs` and shares no airport with `refNode`. */
    method AdoptTails(refNode: Node, ts: set<Node>, cs: seq<Node>)
      requires refNode.airports != {}
      modifies refNode`tails
      ensures refNode.tails == old(refNode.tails) + Filtered(ts, refNode, cs, refNode.airports)
    {
      var rest := ts;
      while rest != {}
        invariant rest <= ts
        invariant refNode.tails == old(refNode.tails) + Filtered(ts - rest, refNode, cs, refNode.airports)
        decreases rest
      {
        var tail :| tail in rest;
        var keeps := KeepsAllAirports(tail, refNode);
        var present := refNode.GetTails();
        if keeps && tail !in cs && tail !in present {
          refNode.AddTail(tail);
        }
        rest := rest - {tail};
      }
    }

    /** Removes from the heads of `refNode` those of `hs` that are in `cs` or are `refNode`. */
    method DropHeads(refNode: Node, hs: set<Node>, cs: seq<Node>)
      requires hs == refNode.heads
      modifies refNode`heads
      ensures refNode.heads == hs - Elems(cs) - {refNode}
    {
      var rest := hs;
      while rest != {}
        invariant rest <= hs
        invariant refNode.heads == hs - (set h | h in hs - rest && (h in cs || h == refNode))
        decreases rest
      {
        var head :| head in rest;
        if head in cs || head == refNode {
          refNode.RemoveHead(head);
        }
        rest := rest - {head};
      }
    }

    /** Removes from the tails of `refNode` those of `ts` that are in `cs` or are `refNode`. */
    method DropTails(refNode: Node, ts: set<Node>, cs: seq<Node>)
      requires ts == refNode.tails
      modifies refNode`tails
      ensures refNode.tails == ts - Elems(cs) - {refNode}
    {
      var rest := ts;
      while rest != {}
        invariant rest <= ts
        invariant refNode.tails == ts - (set t | t in ts - rest && (t in cs || t == refNode))
        decreases rest
      {
        var tail :| tail in rest;
        if tail in cs || tail == refNode {
          refNode.RemoveTail(tail);
        }
        rest := rest - {tail};
      }
    }

    /** The live nodes no flight reaches: the ones a traveller must be flown to. */
    ghost function Rootless(): set<Node>
      reads this, nodes
    {
      set n | n in nodes && n.heads == {}
    }

    /**
     * The routes to add so that every airport can be reached from `start`:
     * one route from `start` to some airport of each live node without
     * inbound flights, so one per such node, no two to the same airport.
     */
    method FindRoutes(start: Airport) returns (routes: seq<Route>)
      requires Valid()
      ensures |routes| == |Rootless()|
      ensures forall k :: 0 <= k < |routes| ==> |routes[k]| == 2 && routes[k][0] == start
      ensures forall j, k :: 0 <= j < k < |routes| ==> routes[j][1] != routes[k][1]
      ensures forall k :: 0 <= k < |routes| ==> exists n :: n in Rootless() && routes[k][1] in n.airports
      ensures forall n :: n in Rootless() ==> exists k :: 0 <= k < |routes| && routes[k][1] in n.airports
    {
      var order := Enumerate(nodes);
      var picked;
      routes, picked := RoutesTo(start, order);
      assert order[..|order|] == order;
      assert Rootless() * nodes == Rootless();
      Covering(start, routes, picked, Rootless(), nodes);
    }

    /**
     * The loop of `FindRoutes` over the listing `order` of the live nodes;
     * `picked` lists, route by route, the node each route leads to.
     */
    method RoutesTo(start: Airport, order: seq<Node>) returns (routes: seq<Route>, picked: seq<Node>)
      requires Valid() && Distinct(order) && Elems(order) == nodes
      ensures |routes| == |picked| && Distinct(picked)
      ensures Elems(picked) == Rootless() * Elems(order)
      ensures forall k :: 0 <= k < |routes| ==>
        |routes[k]| == 2 && routes[k][0] == start && routes[k][1] in picked[k].airports
    {
      routes := [];
      picked := [];
      ghost var roots := Rootless();
      for i := 0 to |order|
        invariant |routes| == |picked| && Distinct(picked)
        invariant Elems(picked) == roots * Elems(order[..i])
        invariant forall k :: 0 <= k < |routes| ==>
          |routes[k]| == 2 && routes[k][0] == start && routes[k][1] in picked[k].airports
      {
        var node := order[i];
        assert node in nodes by { assert node in Elems(order); }
        assert Elems(order[..i + 1]) == Elems(order[..i]) + {node} by {
          assert order[..i + 1] == order[..i] + [node];
        }
        if node.heads == {} {
          assert node !in Elems(picked) by {
            assert forall j :: 0 <= j < i ==> order[..i][j] != node;
          }
          var a :| a in node.airports;
          routes := routes + [[start, a]];
          picked := picked + [node];
          assert Elems(picked) == Elems(picked[..|picked| - 1]) + {node};
        }
      }
      assert order[..|order|] == order;
    }
  }
}
