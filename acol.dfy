/**
  The ACoL selection strategy of `royalflush/agent/premiofl/acol.py`: share the
  whole model with one neighbour picked at random among the available ones.
  The random pick is a nondeterministic choice; nothing is said about its
  distribution.
*/
module Acol {
  import opened Wrappers
  import opened Messaging

  /** Nobody when nobody is available, otherwise exactly one of the available neighbours. */
  method SelectNeighbours(neighbours: seq<Jid>) returns (selected: seq<Jid>)
    ensures selected == [] <==> neighbours == []
    ensures neighbours != [] ==> |selected| == 1 && selected[0] in neighbours
  {
    if neighbours == [] {
      return [];
    }
    var i :| 0 <= i < |neighbours|;
    selected := [neighbours[i]];
  }

  /**
    Every selected neighbour gets the full model state, whatever the similarity
    vectors say; nobody else gets anything.
  */
  function AssignLayers<V, S>(myVector: Option<V>, neighboursVectors: map<Jid, V>,
                              selected: seq<Jid>, stateDict: S): (assignment: map<Jid, S>)
    ensures assignment.Keys == set n | n in selected
    ensures forall n | n in assignment :: assignment[n] == stateDict
  {
    map n | n in selected :: stateDict
  }

  /** The similarity arguments play no part in the assignment. */
  lemma AssignLayersIgnoresSimilarity<V, S>(v1: Option<V>, m1: map<Jid, V>,
                                           v2: Option<V>, m2: map<Jid, V>,
                                           selected: seq<Jid>, stateDict: S)
    ensures AssignLayers(v1, m1, selected, stateDict) == AssignLayers(v2, m2, selected, stateDict)
  {
  }
}
