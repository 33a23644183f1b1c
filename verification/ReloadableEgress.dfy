/**
  The generation map of compiled egress graphs (crates/dynet-ingress/src/egress/reloadable.rs).
*/
module EgressGenerations {
  import opened ByteStrings
  import opened ReloadPlanning

  const RETAINED_GENERATIONS: nat := 8

  /** A compiled graph is identified by the node configuration it was compiled from. */
  datatype Graph = Graph(compiledFrom: Section)

  type Generations = map<nat, Graph>

  predicate IsOldest(m: Generations, k: nat) {
    k in m && forall j :: j in m ==> k <= j
  }

  /** A non-empty map has an oldest key. */
  lemma {:induction false} OldestExists(m: Generations, keys: set<nat>)
    requires keys != {} && keys == m.Keys
    ensures exists k :: IsOldest(m, k)
    decreases |keys|
  {
    var k :| k in keys;
    var rest := m - {k};
    assert rest.Keys == keys - {k};
    if keys - {k} == {} {
      assert keys == {k};
      assert IsOldest(m, k);
    } else {
      OldestExists(rest, keys - {k});
      var j :| IsOldest(rest, j);
      assert IsOldest(m, if j < k then j else k) by {
        assert forall x :: x in m ==> x == k || x in rest;
      }
    }
  }

  /** What remains of `before` plus one new generation after eviction: the youngest ones, untouched. */
  ghost predicate Retained(after: Generations, before: Generations) {
    && after.Keys <= before.Keys
    && (forall k :: k in after ==> after[k] == before[k])
    && (forall k, j :: k in after && j in before && j !in after ==> j < k)
  }

  class ReloadableEgress {
    var generations: Generations

    constructor (generation: nat, nodes: Section)
      ensures generations == map[generation := Graph(nodes)]
    {
      generations := map[generation := Graph(nodes)];
    }

    /** Install a compiled graph and evict the oldest generations beyond the limit. */
    method Install(generation: nat, graph: Graph)
      modifies this
      ensures var grown := old(generations)[generation := graph];
              && Retained(generations, grown)
              && |generations| == if |grown| > RETAINED_GENERATIONS then RETAINED_GENERATIONS else |grown|
    {
      ghost var grown := generations[generation := graph];
      generations := generations[generation := graph];
      while |generations| > RETAINED_GENERATIONS
        invariant Retained(generations, grown)
        invariant |grown| <= RETAINED_GENERATIONS ==> generations == grown
        invariant |grown| > RETAINED_GENERATIONS ==> |generations| >= RETAINED_GENERATIONS
        decreases |generations|
      {
        OldestExists(generations, generations.Keys);
        var oldest: nat :| IsOldest(generations, oldest);
        ghost var before := generations;
        generations := generations - {oldest};
        assert generations.Keys == before.Keys - {oldest};
        assert |generations.Keys| == |before.Keys| - 1;
      }
    }

    method Remove(generation: nat)
      modifies this
      ensures generations == old(generations) - {generation}
    {
      generations := generations - {generation};
    }

    /** `graph_for`: the graph of a decision's generation, or an error if it is no longer retained. */
    method GraphFor(generation: nat) returns (r: Option<Graph>)
      ensures r == if generation in generations then Some(generations[generation]) else None
    {
      r := if generation in generations then Some(generations[generation]) else None;
    }
  }
}
