/**
 * Input routes. A route is the sequence of airports it stops at, and every
 * two consecutive stops give one directed edge of the graph.
 */
module Routes {
  import opened Nodes

  type Route = seq<Airport>

  /** The airports of `route`. */
  ghost function Stops(route: Route): set<Airport>
  {
    set i | 0 <= i < |route| :: route[i]
  }

  /** The consecutive pairs of `route`, each an edge (from, to). */
  ghost function Legs(route: Route): set<(Airport, Airport)>
  {
    if |route| < 2 then {} else Legs(route[..|route| - 1]) + {(route[|route| - 2], route[|route| - 1])}
  }

  /** Every airport mentioned by some route. */
  ghost function RouteAirports(routes: seq<Route>): set<Airport>
  {
    if routes == [] then {} else RouteAirports(routes[..|routes| - 1]) + Stops(routes[|routes| - 1])
  }

  /** Every edge given by some route. */
  ghost function RouteLegs(routes: seq<Route>): set<(Airport, Airport)>
  {
    if routes == [] then {} else RouteLegs(routes[..|routes| - 1]) + Legs(routes[|routes| - 1])
  }

  /** The legs of a route are exactly its consecutive pairs. */
  lemma {:induction false} LegsAreConsecutive(route: Route, u: Airport, v: Airport)
    ensures (u, v) in Legs(route) <==>
      exists i :: 0 <= i < |route| - 1 && route[i] == u && route[i + 1] == v
    decreases |route|
  {
    if |route| >= 2 {
      var init := route[..|route| - 1];
      LegsAreConsecutive(init, u, v);
      if (u, v) in Legs(init) {
        var i :| 0 <= i < |init| - 1 && init[i] == u && init[i + 1] == v;
        assert route[i] == u && route[i + 1] == v;
      }
      if exists i :: 0 <= i < |route| - 1 && route[i] == u && route[i + 1] == v {
        var i :| 0 <= i < |route| - 1 && route[i] == u && route[i + 1] == v;
        if i < |route| - 2 {
          assert init[i] == u && init[i + 1] == v;
        }
      }
    }
  }

  /** Both ends of every leg are stops of the route. */
  lemma {:induction false} LegsWithinStops(route: Route)
    ensures forall e :: e in Legs(route) ==> e.0 in Stops(route) && e.1 in Stops(route)
    decreases |route|
  {
    if |route| >= 2 {
      var init := route[..|route| - 1];
      LegsWithinStops(init);
      forall e | e in Legs(route) ensures e.0 in Stops(route) && e.1 in Stops(route) {
        if e in Legs(init) {
          var i :| 0 <= i < |init| && init[i] == e.0;
          var j :| 0 <= j < |init| && init[j] == e.1;
          assert route[i] == e.0 && route[j] == e.1;
        } else {
          assert route[|route| - 2] == e.0;
        }
      }
    }
  }

  /** An airport is mentioned exactly when some route stops at it. */
  lemma {:induction false} RouteAirportsAreStops(routes: seq<Route>, a: Airport)
    ensures a in RouteAirports(routes) <==>
      exists k, i :: 0 <= k < |routes| && 0 <= i < |routes[k]| && routes[k][i] == a
    decreases |routes|
  {
    if routes != [] {
      var init := routes[..|routes| - 1];
      RouteAirportsAreStops(init, a);
      if a in RouteAirports(init) {
        var k, i :| 0 <= k < |init| && 0 <= i < |init[k]| && init[k][i] == a;
        assert routes[k][i] == a;
      }
      if exists k, i :: 0 <= k < |routes| && 0 <= i < |routes[k]| && routes[k][i] == a {
        var k, i :| 0 <= k < |routes| && 0 <= i < |routes[k]| && routes[k][i] == a;
        if k < |init| {
          assert init[k][i] == a;
        }
      }
    }
  }

  /** An edge is given exactly when some route has the two airports consecutively. */
  lemma {:induction false} RouteLegsAreConsecutive(routes: seq<Route>, u: Airport, v: Airport)
    ensures (u, v) in RouteLegs(routes) <==>
      exists k, i :: 0 <= k < |routes| && 0 <= i < |routes[k]| - 1 &&
        routes[k][i] == u && routes[k][i + 1] == v
    decreases |routes|
  {
    if routes != [] {
      var init := routes[..|routes| - 1];
      var last := routes[|routes| - 1];
      RouteLegsAreConsecutive(init, u, v);
      LegsAreConsecutive(last, u, v);
      if (u, v) in RouteLegs(init) {
        var k, i :| 0 <= k < |init| && 0 <= i < |init[k]| - 1 && init[k][i] == u && init[k][i + 1] == v;
        assert routes[k] == init[k];
      }
      if (u, v) in Legs(last) {
        var i :| 0 <= i < |last| - 1 && last[i] == u && last[i + 1] == v;
        assert routes[|routes| - 1][i] == u;
      }
      if exists k, i :: 0 <= k < |routes| && 0 <= i < |routes[k]| - 1 &&
           routes[k][i] == u && routes[k][i + 1] == v {
        var k, i :| 0 <= k < |routes| && 0 <= i < |routes[k]| - 1 &&
          routes[k][i] == u && routes[k][i + 1] == v;
        if k < |init| {
          assert init[k] == routes[k];
        }
      }
    }
  }
}
