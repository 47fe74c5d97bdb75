/**
 * The backward walk of the condensation.
 *
 * During the search from a node, `paths` records for each node reached the
 * node it was last reached from. When the search comes back to the
 * reference node, the walk follows `paths` backwards from it and collects
 * every node it passes until it meets one that shares an airport with the
 * reference node.
 */
module Walks {
  import opened Nodes

  /** The node reached from `start` after `n` steps back through `paths`. */
  function Back(paths: map<Node, Node>, start: Node, n: nat): (r: Node)
    requires start in paths && paths.Values <= paths.Keys
    ensures r in paths
  {
    if n == 0 then start else paths[Back(paths, start, n - 1)]
  }

  /** Once the walk revisits a node, it repeats with the period of the revisit. */
  lemma {:induction false} BackRepeats(paths: map<Node, Node>, start: Node, p: nat, d: nat, n: nat)
    requires start in paths && paths.Values <= paths.Keys
    requires 0 < d && Back(paths, start, p) == Back(paths, start, p + d)
    requires p <= n
    ensures Back(paths, start, n + d) == Back(paths, start, n)
    decreases n
  {
    if p < n {
      BackRepeats(paths, start, p, d, n - 1);
    }
  }

  /**
   * If the first `p + d` steps of the walk share no airport with `ref` and
   * step `p + d` is step `p` again, no later step shares one either.
   */
  lemma {:induction false} NeverMeets(paths: map<Node, Node>, ref: Node, p: nat, d: nat, n: nat)
    requires ref in paths && paths.Values <= paths.Keys
    requires 1 <= p && 0 < d && Back(paths, ref, p) == Back(paths, ref, p + d)
    requires forall i :: 1 <= i <= p + d ==> SharesNoAirport(Back(paths, ref, i), ref)
    requires 1 <= n
    ensures SharesNoAirport(Back(paths, ref, n), ref)
    decreases n
  {
    if n > p + d {
      BackRepeats(paths, ref, p, d, n - d);
      NeverMeets(paths, ref, p, d, n - d);
    }
  }

  /** A walk that comes back to a collected node never meets `ref`. */
  lemma WalkIsEndless(paths: map<Node, Node>, ref: Node, nodes: seq<Node>, k: nat)
    requires ref in paths && paths.Values <= paths.Keys
    requires WalkedSoFar(paths, ref, nodes)
    requires k < |nodes| && Back(paths, ref, |nodes| + 1) == nodes[k]
    ensures forall n :: 1 <= n ==> SharesNoAirport(Back(paths, ref, n), ref)
  {
    WalkedSteps(paths, ref, nodes, k);
    forall n | 1 <= n
      ensures SharesNoAirport(Back(paths, ref, n), ref)
    {
      NeverMeets(paths, ref, k + 1, |nodes| - k, n);
    }
  }

  /** The collected steps and the step back to `nodes[k]` share no airport with `ref`. */
  lemma WalkedSteps(paths: map<Node, Node>, ref: Node, nodes: seq<Node>, k: nat)
    requires ref in paths && paths.Values <= paths.Keys
    requires WalkedSoFar(paths, ref, nodes)
    requires k < |nodes| && Back(paths, ref, |nodes| + 1) == nodes[k]
    ensures forall i :: 1 <= i <= |nodes| + 1 ==> SharesNoAirport(Back(paths, ref, i), ref)
  {
    forall i | 1 <= i <= |nodes| + 1
      ensures SharesNoAirport(Back(paths, ref, i), ref)
    {
      if i <= |nodes| {
        assert Back(paths, ref, i) == nodes[i - 1];
      } else {
        assert Back(paths, ref, i) == nodes[k];
      }
    }
  }

  /** `nodes` are the first steps of the walk, each sharing no airport with `ref`. */
  ghost predicate WalkedSoFar(paths: map<Node, Node>, ref: Node, nodes: seq<Node>)
    reads nodes, ref
    requires ref in paths && paths.Values <= paths.Keys
  {
    && Distinct(nodes)
    && |nodes| <= |paths.Keys|
    && forall i :: 0 <= i < |nodes| ==>
         nodes[i] == Back(paths, ref, i + 1) && SharesNoAirport(nodes[i], ref)
  }

  /** One more step of the walk to a node not yet collected. */
  lemma ExtendWalk(paths: map<Node, Node>, ref: Node, nodes: seq<Node>, next: Node)
    requires ref in paths && paths.Values <= paths.Keys
    requires WalkedSoFar(paths, ref, nodes)
    requires next == Back(paths, ref, |nodes| + 1) && SharesNoAirport(next, ref)
    requires next !in nodes
    ensures WalkedSoFar(paths, ref, nodes + [next])
  {
    var longer := nodes + [next];
    forall i | 0 <= i < |longer|
      ensures longer[i] == Back(paths, ref, i + 1) && SharesNoAirport(longer[i], ref)
    {
      if i < |nodes| {
        assert longer[i] == nodes[i];
      }
    }
    assert Distinct(longer);
    forall x | x in Elems(longer) ensures x in paths.Keys {
      var i :| 0 <= i < |longer| && longer[i] == x;
    }
    DistinctSize(longer);
    SubsetSize(Elems(longer), paths.Keys);
  }

  /**
   * The first `n` steps of the walk from `ref` share no airport with it and
   * step `n + 1` shares one: the walk stops there.
   */
  ghost predicate StopsAfter(paths: map<Node, Node>, ref: Node, n: nat)
    reads paths.Keys
    requires ref in paths && paths.Values <= paths.Keys
  {
    && (forall i :: 1 <= i <= n ==> SharesNoAirport(Back(paths, ref, i), ref))
    && !SharesNoAirport(Back(paths, ref, n + 1), ref)
  }

  datatype Backtracked = Collected(nodes: seq<Node>) | Endless

  /**
   * The walk of the condensation: start at the predecessor of `ref` and step
   * back while the current node shares no airport with `ref`, collecting
   * each node once. When the walk comes back to a node it has collected, it
   * can only go round the same nodes again; the source then loops forever,
   * and this model reports `Endless`.
   */
  method Backtrack(paths: map<Node, Node>, ref: Node) returns (r: Backtracked)
    requires ref in paths && paths.Values <= paths.Keys
    ensures r.Collected? ==>
      && Distinct(r.nodes)
      && (forall i :: 0 <= i < |r.nodes| ==> r.nodes[i] == Back(paths, ref, i + 1))
      && StopsAfter(paths, ref, |r.nodes|)
    ensures r.Endless? ==> forall n :: 1 <= n ==> SharesNoAirport(Back(paths, ref, n), ref)
  {
    var nodes: seq<Node> := [];
    var currNode := paths[ref];
    var disjoint := KeepsAllAirports(currNode, ref);
    while disjoint
      invariant disjoint <==> SharesNoAirport(currNode, ref)
      invariant WalkedSoFar(paths, ref, nodes)
      invariant currNode == Back(paths, ref, |nodes| + 1)
      decreases |paths.Keys| - |nodes|
    {
      if currNode in nodes {
        var k :| 0 <= k < |nodes| && nodes[k] == currNode;
        WalkIsEndless(paths, ref, nodes, k);
        return Endless;
      }
      ExtendWalk(paths, ref, nodes, currNode);
      nodes := nodes + [currNode];
      currNode := paths[currNode];
      disjoint := KeepsAllAirports(currNode, ref);
    }
    forall i | 1 <= i <= |nodes| ensures SharesNoAirport(Back(paths, ref, i), ref) {
      assert nodes[i - 1] == Back(paths, ref, i);
    }
    return Collected(nodes);
  }
}
