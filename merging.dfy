/**
 * What the condensation gives the reference node: the edges of the nodes it
 * folds in, filtered as the condensation filters them.
 *
 * The collected nodes are folded in one at a time, in the order of the walk.
 * When the `i`-th is folded in, the reference node already holds its own
 * airports and those of the first `i + 1` collected nodes, and it adopts each
 * neighbour of the `i`-th node that is not one of the collected nodes, is not
 * the reference node itself and shares no airport with it.
 */
module Merging {
  import opened Nodes

  /** The heads (`incoming`) or the tails of `n`. */
  ghost function Side(n: Node, incoming: bool): set<Node>
    reads n
  {
    if incoming then n.heads else n.tails
  }

  /** Every head and tail of the nodes of `cs`. */
  ghost function Neighbours(cs: seq<Node>): set<Node>
    reads cs
  {
    set i, h | 0 <= i < |cs| && h in cs[i].heads + cs[i].tails :: h
  }

  /**
   * The nodes of `hs` that pass the condensation's filter: not `ref`, not
   * among the collected nodes `all`, and sharing no airport with `air`, the
   * airports `ref` holds at that point.
   */
  ghost function Filtered(hs: set<Node>, ref: Node, all: seq<Node>, air: set<Airport>): set<Node>
    reads hs - {ref}
  {
    set h | h in hs && h != ref && h !in all && h.airports !! air
  }

  /**
   * The neighbours adopted by `ref`, whose airports were `air0`, when the
   * nodes `cs` are folded into it; `all` is the whole list of collected
   * nodes, none of which is adopted.
   */
  ghost function Adopted(ref: Node, air0: set<Airport>, cs: seq<Node>, all: seq<Node>, incoming: bool): set<Node>
    reads cs, Neighbours(cs) - {ref}
    decreases |cs|
  {
    if cs == [] then {}
    else
      NeighboursPrefix(cs);
      Adopted(ref, air0, cs[..|cs| - 1], all, incoming)
        + Filtered(Side(cs[|cs| - 1], incoming), ref, all, air0 + AirportsOf(cs))
  }

  /** Folding in the node `cs[i]` adds the neighbours of it that pass the filter. */
  lemma AdoptedStep(ref: Node, air0: set<Airport>, cs: seq<Node>, all: seq<Node>, incoming: bool, i: nat, before: set<Node>)
    requires i < |cs|
    ensures before + Adopted(ref, air0, cs[..i + 1], all, incoming)
      == before + Adopted(ref, air0, cs[..i], all, incoming)
         + Filtered(Side(cs[i], incoming), ref, all, air0 + AirportsOf(cs[..i + 1]))
  {
    assert cs[..i + 1][..i] == cs[..i];
  }

  lemma NeighboursPrefix(cs: seq<Node>)
    requires cs != []
    ensures Neighbours(cs[..|cs| - 1]) <= Neighbours(cs)
    ensures cs[|cs| - 1].heads <= Neighbours(cs) && cs[|cs| - 1].tails <= Neighbours(cs)
  {
    var init := cs[..|cs| - 1];
    forall h | h in Neighbours(init) ensures h in Neighbours(cs) {
      var i :| 0 <= i < |init| && h in init[i].heads + init[i].tails;
      assert cs[i] == init[i];
    }
    var k := |cs| - 1;
    forall h | h in cs[k].heads + cs[k].tails ensures h in Neighbours(cs) {
      assert 0 <= k < |cs| && h in cs[k].heads + cs[k].tails;
    }
  }

  /** A node is adopted exactly when it passes the filter for some collected node. */
  lemma {:induction false} AdoptedIff(ref: Node, air0: set<Airport>, cs: seq<Node>, all: seq<Node>, incoming: bool, h: Node)
    ensures h in Adopted(ref, air0, cs, all, incoming) <==>
      h != ref && h !in all &&
      exists i :: 0 <= i < |cs| && h in Side(cs[i], incoming) && h.airports !! air0 + AirportsOf(cs[..i + 1])
    decreases |cs|
  {
    if cs != [] {
      var init := cs[..|cs| - 1];
      AdoptedIff(ref, air0, init, all, incoming, h);
      assert cs[..|cs|] == cs;
      if h in Adopted(ref, air0, init, all, incoming) {
        var i :| 0 <= i < |init| && h in Side(init[i], incoming) && h.airports !! air0 + AirportsOf(init[..i + 1]);
        assert cs[..i + 1] == init[..i + 1];
      }
      if h != ref && h !in all &&
         exists i :: 0 <= i < |cs| && h in Side(cs[i], incoming) && h.airports !! air0 + AirportsOf(cs[..i + 1]) {
        var i :| 0 <= i < |cs| && h in Side(cs[i], incoming) && h.airports !! air0 + AirportsOf(cs[..i + 1]);
        if i < |init| {
          assert cs[..i + 1] == init[..i + 1];
        }
      }
    }
  }

  /** The airports gathered from `cs` are those of its nodes. */
  lemma {:induction false} AirportsOfIff(cs: seq<Node>, a: Airport)
    ensures a in AirportsOf(cs) <==> exists i :: 0 <= i < |cs| && a in cs[i].airports
    decreases |cs|
  {
    if cs != [] {
      var init := cs[..|cs| - 1];
      AirportsOfIff(init, a);
      if a in AirportsOf(init) {
        var i :| 0 <= i < |init| && a in init[i].airports;
        assert cs[i] == init[i];
      }
    }
  }

  /** Folding in one more node adds its airports. */
  lemma AirportsOfStep(cs: seq<Node>, i: nat)
    requires i < |cs|
    ensures AirportsOf(cs[..i + 1]) == AirportsOf(cs[..i]) + cs[i].airports
  {
    assert cs[..i + 1][..i] == cs[..i];
  }

  /** The airports gathered from `cs` are unchanged when its nodes' airports are. */
  twostate lemma {:induction false} AirportsOfUnchanged(cs: seq<Node>)
    requires forall j :: 0 <= j < |cs| ==> cs[j].airports == old(cs[j].airports)
    ensures AirportsOf(cs) == old(AirportsOf(cs))
    decreases |cs|
  {
    if cs != [] {
      AirportsOfUnchanged(cs[..|cs| - 1]);
    }
  }

  /**
   * The arguments of a fold whose result is compared across two states,
   * bundled into one value so that the two-state lemma takes one parameter.
   */
  datatype Fold = Fold(ref: Node, air0: set<Airport>, cs: seq<Node>, all: seq<Node>, incoming: bool)

  /**
   * What a fold adopts depends only on the collected nodes and their
   * neighbours, so it is unchanged when nothing but the reference node is.
   */
  twostate lemma {:induction false} AdoptedUnchanged(k: Fold)
    requires forall j :: 0 <= j < |k.cs| ==>
      k.cs[j].heads == old(k.cs[j].heads) && k.cs[j].tails == old(k.cs[j].tails) && k.cs[j].airports == old(k.cs[j].airports)
    requires forall n :: n in old(Neighbours(k.cs)) && n != k.ref ==> n.airports == old(n.airports)
    ensures Adopted(k.ref, k.air0, k.cs, k.all, k.incoming) == old(Adopted(k.ref, k.air0, k.cs, k.all, k.incoming))
    decreases |k.cs|
  {
    if k.cs != [] {
      var init := k.cs[..|k.cs| - 1];
      var last := k.cs[|k.cs| - 1];
      forall h | h in old(Neighbours(init)) ensures h in old(Neighbours(k.cs)) {
        var i :| 0 <= i < |init| && h in old(init[i].heads + init[i].tails);
        assert init[i] == k.cs[i];
      }
      AdoptedUnchanged(Fold(k.ref, k.air0, init, k.all, k.incoming));
      AirportsOfUnchanged(k.cs);
      var air := k.air0 + AirportsOf(k.cs);
      var side := Side(last, k.incoming);
      assert side == old(Side(last, k.incoming));
      forall h | h in side
        ensures h in Filtered(side, k.ref, k.all, air) <==> h in old(Filtered(side, k.ref, k.all, air))
      {
        if h != k.ref {
          assert h in old(last.heads + last.tails);
          assert h.airports == old(h.airports);
        }
      }
      assert Filtered(side, k.ref, k.all, air) == old(Filtered(side, k.ref, k.all, air));
    }
  }

  /**
   * One turn of a fold: the reference node, the fold so far and the edges it
   * started with, bundled into one value for the two-state lemma below.
   */
  datatype Turn = Turn(ref: Node, air0: set<Airport>, cs: seq<Node>, i: nat, heads0: set<Node>, tails0: set<Node>)

  /**
   * Folding in `cs[i]`, which adds its filtered neighbours to the reference
   * node, extends the fold of `cs[..i]` to the fold of `cs[..i + 1]`.
   */
  twostate lemma AdoptedTurn(k: Turn)
    requires k.i < |k.cs| && k.ref !in k.cs
    requires forall j :: 0 <= j < |k.cs[..k.i]| ==>
      k.cs[..k.i][j].heads == old(k.cs[..k.i][j].heads) && k.cs[..k.i][j].tails == old(k.cs[..k.i][j].tails)
      && k.cs[..k.i][j].airports == old(k.cs[..k.i][j].airports)
    requires forall n :: n in old(Neighbours(k.cs[..k.i])) && n != k.ref ==> n.airports == old(n.airports)
    requires old(k.ref.airports) == k.air0 + old(AirportsOf(k.cs[..k.i]))
    requires k.ref.airports == old(k.ref.airports) + k.cs[k.i].airports
    requires old(k.ref.heads) == k.heads0 + old(Adopted(k.ref, k.air0, k.cs[..k.i], k.cs, true))
    requires old(k.ref.tails) == k.tails0 + old(Adopted(k.ref, k.air0, k.cs[..k.i], k.cs, false))
    requires Side(k.ref, true) == old(Side(k.ref, true)) + Filtered(Side(k.cs[k.i], true), k.ref, k.cs, k.ref.airports)
    requires Side(k.ref, false) == old(Side(k.ref, false)) + Filtered(Side(k.cs[k.i], false), k.ref, k.cs, k.ref.airports)
    ensures k.ref.airports == k.air0 + AirportsOf(k.cs[..k.i + 1])
    ensures k.ref.heads == k.heads0 + Adopted(k.ref, k.air0, k.cs[..k.i + 1], k.cs, true)
    ensures k.ref.tails == k.tails0 + Adopted(k.ref, k.air0, k.cs[..k.i + 1], k.cs, false)
  {
    AdoptedUnchanged(Fold(k.ref, k.air0, k.cs[..k.i], k.cs, true));
    AdoptedUnchanged(Fold(k.ref, k.air0, k.cs[..k.i], k.cs, false));
    AirportsOfUnchanged(k.cs[..k.i]);
    AirportsOfStep(k.cs, k.i);
    AdoptedStep(k.ref, k.air0, k.cs, k.cs, true, k.i, k.heads0);
    AdoptedStep(k.ref, k.air0, k.cs, k.cs, false, k.i, k.tails0);
  }

  /** Every adopted node is a neighbour of a folded node. */
  lemma {:induction false} AdoptedWithin(ref: Node, air0: set<Airport>, cs: seq<Node>, all: seq<Node>, incoming: bool)
    ensures Adopted(ref, air0, cs, all, incoming) <= Neighbours(cs)
    decreases |cs|
  {
    if cs != [] {
      AdoptedWithin(ref, air0, cs[..|cs| - 1], all, incoming);
      NeighboursPrefix(cs);
    }
  }

  /** Removing one more collected node from a set of nodes. */
  lemma ElemsStep(cs: seq<Node>, i: nat, ns: set<Node>)
    requires i < |cs| && Distinct(cs)
    ensures cs[i] !in Elems(cs[..i])
    ensures ns - Elems(cs[..i + 1]) == ns - Elems(cs[..i]) - {cs[i]}
  {
    assert Elems(cs[..i + 1]) == Elems(cs[..i]) + {cs[i]};
  }
}

