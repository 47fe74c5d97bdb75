# Airport route solver, modelled in Dafny

The program answers one question: given airports and one-way routes between
them, how many routes must be added so that every airport can be reached from
a starting airport. It builds a directed graph whose nodes are sets of
airports, condenses the cycles it finds by merging the nodes on a cycle into
one, and then adds one route from the start to every node that nothing flies
into.

The model follows `airports.py` class by class, in imperative Dafny:

- `nodes.dfy`, module `Nodes`: the class `Node`. It has three sets that its
  methods change in place: `airports`, `heads` (the nodes flying into it) and
  `tails` (the nodes it flies to). The module also holds the
  disjointness test the source writes as a comparison of set sizes, and a
  listing of a set in some order.
- `routes.dfy`, module `Routes`: a route is its sequence of airports. The
  module defines its stops and legs (consecutive pairs) and characterises both.
- `walks.dfy`, module `Walks`: the backward walk through the predecessor map
  `paths` that `condense_nodes` uses to collect the nodes of a cycle. The walk
  either stops at a node sharing an airport with the reference node or, when
  it revisits a collected node, runs forever.
- `merging.dfy`, module `Merging`: specification functions for the merge.
  `Adopted` gives the heads or tails the reference node takes over, node by
  node, with the size-comparison filter applied against the airports
  accumulated so far.
- `graph.dfy`, module `Graphs`: the class `Graph`, with fields `nodes` and
  `head`. The ghost set `All` holds every node the graph ever made, including
  nodes condensed away that other nodes still point to. The class has
  construction (`get_node`, `add_node`), the reduction (`reduce`, split into
  `Reduce`, `Search`, `Explore` and `Visit`), the condensation
  (`CondenseNodes`, `Merge`) and `FindRoutes`.

`Graph.Valid` is the invariant every operation keeps:

- every node ever made holds an airport and points only at nodes of the graph;
- the live nodes share no airport with each other.

So each airport of the graph lies in exactly one live node.

The reduction's outcome is a datatype:

- `Reduced`;
- `ReduceHalted(Hangs)`: the backward walk of a condensation loops forever;
- `ReduceHalted(Raises)`: the code raises an exception. This happens when a
  collected node is no longer in `self.nodes`, which is a `KeyError` at
  `self.nodes.remove`;
- `OutOfFuel`: the bound on the number of searches ran out.

## Model

| member | source | states |
|---|---|---|
| Nodes.Node.constructor | airports.py:159-167 | a new node holds exactly its one airport and has no heads and no tails |
| Nodes.Node.GetAirports | airports.py:169-172 | returns the node's airport set, leaving the node unchanged |
| Nodes.Node.AddAirport | airports.py:174-181 | the airport set becomes the old set plus the airport (idempotent); heads and tails are not touched |
| Nodes.Node.AddAirports | airports.py:183-190 | the airport set becomes the old set united with the given set, one airport at a time |
| Nodes.Node.GetHeads | airports.py:192-195 | returns the node's incoming neighbours |
| Nodes.Node.AddHead | airports.py:197-204 | heads become old heads plus the node (idempotent); airports and tails are not touched |
| Nodes.Node.RemoveHead | airports.py:206-213 | heads become old heads minus the node; an absent node leaves them as they were |
| Nodes.Node.GetTails | airports.py:215-218 | returns the node's outgoing neighbours |
| Nodes.Node.AddTail | airports.py:220-227 | tails become old tails plus the node (idempotent); airports and heads are not touched |
| Nodes.Node.RemoveTail | airports.py:229-236 | tails become old tails minus the node; an absent node leaves them as they were |
| Nodes.KeepsAllAirports | airports.py:367-368 | the test "removing the reference node's airports leaves as many airports" is true exactly when the two nodes share no airport |
| Nodes.DifferenceSize | airports.py:381-382 | for any two sets, the difference is as large as the first set if and only if the sets are disjoint |
| Nodes.Enumerate | airports.py:310 | listing a set yields each member exactly once, as many entries as members |
| Nodes.RemovedSize | airports.py:394 | removing the distinct members of a sequence drawn from a set shrinks the set by the length of the sequence |
| Routes.LegsAreConsecutive | airports.py:265-275 | a pair is a leg of a route if and only if its airports stand next to each other in the route |
| Routes.LegsWithinStops | airports.py:265-275 | both ends of every leg are stops of the route |
| Routes.RouteAirportsAreStops | airports.py:259-263 | an airport is visited by the routes if and only if it is a stop of one of them |
| Routes.RouteLegsAreConsecutive | airports.py:259-275 | a pair is a leg of the routes if and only if it is consecutive in one of them |
| Walks.Back | airports.py:363-371 | stepping back any number of times through the predecessor map stays within the map |
| Walks.BackRepeats | airports.py:369-371 | once the backward walk revisits a node, it repeats with that period from then on |
| Walks.NeverMeets | airports.py:367-371 | if the walk revisits a node before meeting an airport of the reference node, it never meets one |
| Walks.WalkIsEndless | airports.py:367-371 | if the next step returns to a collected node, every step of the walk shares no airport with the reference node, so the walk never stops |
| Walks.WalkedSteps | airports.py:367-371 | if the next step returns to a collected node, that step and every earlier one share no airport with the reference node |
| Walks.ExtendWalk | airports.py:369-371 | appending the next disjoint, not yet collected node keeps the collected list the walk's distinct prefix |
| Walks.Backtrack | airports.py:360-371 | a finished walk collects the distinct nodes one, two, ... steps back; all of them share no airport with the reference node and the next step does; an endless walk never meets such a node |
| Merging.AdoptedIff | airports.py:379-391 | a node is taken over as head (tail) exactly when it is a head (tail) of some merged node, is neither the reference node nor merged, and shares no airport with the airports accumulated up to that merged node |
| Merging.AdoptedStep | airports.py:380-391 | merging one more node adds exactly its filtered heads (tails) to those taken over so far |
| Merging.AdoptedWithin | airports.py:380-391 | every node taken over is a neighbour of some merged node |
| Merging.AirportsOfIff | airports.py:376-377 | an airport is among the merged airports if and only if some merged node holds it |
| Merging.AirportsOfStep | airports.py:376-377 | merging one more node adds exactly its airports |
| Merging.AirportsOfUnchanged | airports.py:373-394 | the merged airports depend only on the merged nodes' airport sets |
| Merging.AdoptedUnchanged | airports.py:380-391 | the nodes taken over depend only on the merged nodes and their neighbours' airports, not on the reference node being updated |
| Merging.AdoptedTurn | airports.py:373-391 | one merge step takes the reference node's airports, heads and tails from their values after `i` nodes to their values after `i + 1` |
| Merging.ElemsStep | airports.py:394 | removing the merged nodes one at a time removes the prefix merged so far |
| Graphs.IndexedAirports | airports.py:284-292 | in a built graph, the airports with a node are exactly the airports of the nodes |
| Graphs.BuiltShape | airports.py:248-275 | in a built graph, each node holds one airport, no two share one, `m` is a tail of `n` iff `n` is a head of `m`, and iff there is a leg between their airports |
| Graphs.LinkedBuilt | airports.py:266-275 | linking the nodes of a leg's two airports keeps the graph built, with that leg added |
| Graphs.AddingKeepsBuilt | airports.py:289-292 | adding a fresh node for an airport without one keeps the graph built |
| Graphs.Graph.BuiltValid | airports.py:248-275 | a built graph satisfies the graph invariant |
| Graphs.Graph.constructor | airports.py:248-275 | the graph keeps its invariant, its airports are exactly the routes' airports, the head node holds the first airport of the first route, each node holds one airport, heads and tails mirror each other, and `m` is a tail of `n` exactly when the routes fly from `n`'s airport to `m`'s |
| Graphs.Graph.AddRoute | airports.py:259-275 | one route's stops all get nodes and its legs all become edges; existing nodes keep their airports |
| Graphs.Graph.AddStop | airports.py:260-275 | one stop gets its node and its leg to the next stop becomes an edge |
| Graphs.Graph.StopLinks | airports.py:263-275 | the stop, the one before it and the one after it all have nodes, and the leg after it becomes an edge |
| Graphs.Graph.Inbound | airports.py:266-269 | the previous stop gets a node and the incoming edge is recorded on both nodes |
| Graphs.Graph.Outbound | airports.py:272-275 | the next stop gets a node and the outgoing leg becomes an edge on both nodes |
| Graphs.Graph.Locate | airports.py:263 | the airport has a node afterwards; nodes already present keep their airports |
| Graphs.Graph.Link | airports.py:268-269 | the tail and head of one edge are both recorded, which keeps the graph built with the new leg |
| Graphs.Graph.Lookup | airports.py:284-287 | finds the live node holding the airport, or reports none exactly when no live node holds it |
| Graphs.Graph.GetNode | airports.py:277-292 | returns a live node holding the airport; the nodes are unchanged if one existed, otherwise exactly one fresh singleton node without edges is added |
| Graphs.Graph.AddNode | airports.py:294-301 | adds the node to the live set (nothing changes when it is already there) and keeps the invariant |
| Graphs.Graph.AdoptHeads | airports.py:380-384 | the reference node gains exactly the given heads that are neither itself nor merged and share no airport with it |
| Graphs.Graph.AdoptTails | airports.py:387-391 | the reference node gains exactly the given tails that are neither itself nor merged and share no airport with it |
| Graphs.Graph.DropHeads | airports.py:396-399 | the merged nodes and the reference node itself are removed from its heads, and nothing else is |
| Graphs.Graph.DropTails | airports.py:401-403 | the merged nodes and the reference node itself are removed from its tails, and nothing else is |
| Graphs.Graph.FoldIn | airports.py:374-394 | one merged node: its airports join the reference node, its filtered heads and tails are taken over, and it leaves the live set |
| Graphs.Graph.FoldStep | airports.py:373-394 | the merge loop's state after `i` nodes becomes its state after `i + 1` |
| Graphs.Graph.FoldAll | airports.py:373-394 | after the merge loop the merged nodes are gone and the reference node holds all their airports and the heads and tails it took over |
| Graphs.MergedValid | airports.py:373-403 | a merge that removes the merged nodes, gives their airports to the reference node and only takes over their neighbours keeps the graph invariant |
| Graphs.MergedAirports | airports.py:373-394 | such a merge leaves the airports of the live nodes unchanged as a whole |
| Graphs.Graph.Merge | airports.py:373-403 | the invariant and the set of airports are kept; the merged nodes leave the live set; the reference node gains their airports and the heads and tails taken over; it has no edge to itself or to a merged node |
| Graphs.Graph.CondenseNodes | airports.py:352-403 | a successful condensation merges exactly the nodes the backward walk collects (distinct, each sharing no airport with the reference node) and shrinks the live set by their number; an endless walk or a collected node already removed is reported with nothing changed |
| Graphs.Popped | airports.py:329-332 | taking the last node off the unexplored list keeps the search's bookkeeping consistent |
| Graphs.Recorded | airports.py:334-338 | recording a tail's predecessor and marking the current node explored keeps the bookkeeping consistent |
| Graphs.Listed | airports.py:348-350 | appending a tail that is neither explored nor listed keeps the bookkeeping consistent |
| Graphs.FewerLeft | airports.py:338 | marking a new node explored leaves fewer nodes to explore |
| Graphs.Graph.Visit | airports.py:334-350 | visiting one node keeps the invariant and the airports; it changes nothing unless it condenses, it either marks the node explored or leaves the lists as they were, and it can stop short only when the searched node is among the visited node's tails, which the visit walks as they were when it began |
| Graphs.Graph.Explore | airports.py:328-350 | the depth-first loop keeps the invariant and the airports, and changes nothing unless it condenses |
| Graphs.Graph.Search | airports.py:313-350 | a node without heads or without tails is not searched and nothing changes; otherwise the search keeps the invariant, the airports and the searched node |
| Graphs.Graph.Reduce | airports.py:303-350 | the reduction keeps the invariant, the set of airports and the head node, and only removes nodes |
| Graphs.Covering | airports.py:411-418 | one route per rootless node to one of its airports gives as many routes as rootless nodes, covers each, and never repeats a destination |
| Graphs.Graph.RoutesTo | airports.py:411-418 | the loop picks each listed node without heads exactly once, with a route from the start to one of its airports |
| Graphs.Graph.FindRoutes | airports.py:405-420 | returns one two-stop route from the start per live node without heads, each to an airport of such a node, all to different airports, without changing the graph |

## Left out

- Airports, planes and route lengths: `Airport` with its latitude, longitude and great-circle distance, `Plane`, and the distance and time of a `Route` are floating point and are not used by the solver. The `Airport` type stands for the identity of an airport object, since the program compares airports by identity; a route is modelled by its sequence of airports.
- `Node.copy` and `Airport.copy` cannot run as written: the first builds a set of bound methods, the second calls `copy` on a string. Nothing calls either, so neither is modelled.
- `random.choice` in `find_routes` is a nondeterministic choice of any airport of the node.
- The iteration order of Python sets is not modelled. A listing of a set (`Nodes.Enumerate`) and the choice of the next tail are arbitrary. `list(self.nodes)` is taken again only after a condensation, because Python lists an unchanged set in the same order each time.
- The `airports` argument of the graph constructor is never read, and the model ignores it too.
- Graphs.Graph.constructor: requires a first route with at least one airport. On an empty route list or an empty first route, the program fails with an `IndexError` when it looks up the head airport; that failure is not modelled.
- Graphs.Graph.Reduce: no claim that the reduction terminates or leaves the graph acyclic. The code can loop forever (an endless backward walk) or go on searching from nodes already merged away. A `fuel` bound on the number of searches replaces the unbounded loop; when it runs out, the result is `OutOfFuel`.
- Graphs.Graph.Search: no claim about which cycles a search finds. The depth-first search overwrites predecessors of nodes already explored and continues over a stale unexplored list after a condensation.
- Graphs.Graph.CondenseNodes: a condensation that fails is reported before anything changes. In Python, a `KeyError` at `self.nodes.remove` happens after earlier nodes have already been merged, and an endless walk never returns. The partial update before the error is not modelled.
- Other nodes keep their heads and tails, including edges to nodes merged away, as in the code. No symmetric clean-up is added, and no input validation is added.
- The getters return copies in Python. In the model they return the set values, which cannot alias.
