/**
 * Airports and the aggregate nodes of the route graph.
 *
 * A node starts out holding one airport and grows when the condensation
 * folds other nodes into it. Its `heads` are the nodes with an edge into it
 * and its `tails` the nodes it has an edge into. All three sets are updated
 * in place.
 */
module Nodes {

  /**
   * An airport, standing for the identity of one airport object of the
   * program: two airports are the same exactly when they are equal here.
   */
  type Airport = string

  datatype Option<T> = None | Some(value: T)

  class Node {
    var airports: set<Airport>
    var heads: set<Node>
    var tails: set<Node>

    /** A fresh node holds just `airport` and has no edges. */
    constructor (airport: Airport)
      ensures airports == {airport}
      ensures heads == {} && tails == {}
    {
      airports := {airport};
      heads := {};
      tails := {};
    }

    /** A copy of the airports; sets are values, so the copy is independent. */
    method GetAirports() returns (r: set<Airport>)
      ensures r == airports
    {
      r := airports;
    }

    /** Inserting an airport that is already present changes nothing. */
    method AddAirport(airport: Airport)
      modifies this`airports
      ensures airports == old(airports) + {airport}
    {
      if airport !in airports {
        airports := airports + {airport};
      }
    }

    method AddAirports(more: set<Airport>)
      modifies this`airports
      ensures airports == old(airports) + more
    {
      var rest := more;
      while rest != {}
        invariant rest <= more
        invariant airports == old(airports) + (more - rest)
        decreases rest
      {
        var airport :| airport in rest;
        AddAirport(airport);
        rest := rest - {airport};
      }
    }

    method GetHeads() returns (r: set<Node>)
      ensures r == heads
    {
      r := heads;
    }

    method AddHead(node: Node)
      modifies this`heads
      ensures heads == old(heads) + {node}
    {
      if node !in heads {
        heads := heads + {node};
      }
    }

    /** Removing an absent head is a silent no-op. */
    method RemoveHead(node: Node)
      modifies this`heads
      ensures heads == old(heads) - {node}
    {
      if node in heads {
        heads := heads - {node};
      }
    }

    method GetTails() returns (r: set<Node>)
      ensures r == tails
    {
      r := tails;
    }

    method AddTail(node: Node)
      modifies this`tails
      ensures tails == old(tails) + {node}
    {
      if node !in tails {
        tails := tails + {node};
      }
    }

    /** Removing an absent tail is a silent no-op. */
    method RemoveTail(node: Node)
      modifies this`tails
      ensures tails == old(tails) - {node}
    {
      if node in tails {
        tails := tails - {node};
      }
    }
  }

  /** `node` and `ref` hold no airport in common. */
  predicate SharesNoAirport(node: Node, ref: Node)
    reads node, ref
  {
    node.airports !! ref.airports
  }

  /**
   * The test the condensation actually performs: removing the reference
   * node's airports from `node`'s leaves as many as there were. It is
   * exactly "shares no airport".
   */
  method KeepsAllAirports(node: Node, ref: Node) returns (r: bool)
    ensures r <==> SharesNoAirport(node, ref)
  {
    DifferenceSize(node.airports, ref.airports);
    r := |node.airports - ref.airports| == |node.airports|;
  }

  lemma DifferenceSize<T>(a: set<T>, b: set<T>)
    ensures |a - b| == |a| <==> a !! b
  {
    if !(a !! b) {
      var x :| x in a && x in b;
      assert a - b <= a - {x};
      SubsetSize(a - b, a - {x});
    } else {
      assert a - b == a;
    }
  }

  lemma {:induction false} SubsetSize<T>(small: set<T>, big: set<T>)
    requires small <= big
    ensures |small| <= |big|
    decreases small
  {
    if small != {} {
      var x :| x in small;
      SubsetSize(small - {x}, big - {x});
    }
  }

  /** Every airport held by a node of `ns`. */
  ghost function AllAirports(ns: set<Node>): set<Airport>
    reads ns
  {
    set n, a | n in ns && a in n.airports :: a
  }

  /** The airports of the nodes of `cs`, gathered in order. */
  ghost function AirportsOf(cs: seq<Node>): set<Airport>
    reads cs
  {
    if cs == [] then {} else AirportsOf(cs[..|cs| - 1]) + cs[|cs| - 1].airports
  }

  ghost function Elems<T>(s: seq<T>): set<T>
  {
    set x | x in s
  }

  ghost predicate Distinct<T>(s: seq<T>)
  {
    forall i, j :: 0 <= i < j < |s| ==> s[i] != s[j]
  }

  /** A sequence without repeats has as many elements as its set. */
  lemma {:induction false} DistinctSize<T>(s: seq<T>)
    requires Distinct(s)
    ensures |Elems(s)| == |s|
  {
    if s != [] {
      var init := s[..|s| - 1];
      DistinctSize(init);
      assert Elems(s) == Elems(init) + {s[|s| - 1]};
      assert s[|s| - 1] !in Elems(init);
    }
  }

  /** Removing the members of a repeat-free sequence drawn from `ns` removes exactly that many. */
  lemma RemovedSize<T>(ns: set<T>, s: seq<T>)
    requires Distinct(s) && Elems(s) <= ns
    ensures |ns - Elems(s)| == |ns| - |s|
  {
    DistinctSize(s);
    assert ns == (ns - Elems(s)) + Elems(s);
  }

  /**
   * Lists the members of `s` once each, in an unspecified order, as Python's
   * `list(...)` and iteration over a set do.
   */
  method Enumerate<T(==)>(s: set<T>) returns (r: seq<T>)
    ensures Distinct(r) && Elems(r) == s && |r| == |s|
  {
    r := [];
    var rest := s;
    while rest != {}
      invariant rest <= s
      invariant Distinct(r) && Elems(r) == s - rest
      decreases rest
    {
      var x :| x in rest;
      assert Elems(r + [x]) == Elems(r) + {x};
      r := r + [x];
      rest := rest - {x};
    }
    DistinctSize(r);
  }
}
