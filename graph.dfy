/**
  The topology builder of `royalflush/datatypes/graph.py`: a manager holding
  one undirected networkx graph whose nodes are agent localparts.

  The graph is a value: nodes with their attribute dictionaries, in insertion
  order, and edges as unordered pairs (a self-loop is a one-element set).
  `AddNode` and `AddEdge` are the two networkx operations the manager uses.
*/
module Graph {
  import opened Wrappers
  import opened Dicts
  import opened Messaging

  /** A node attribute value: the manager stores integers and strings. */
  datatype Attr = IntAttr(i: int) | StrAttr(s: string)

  type Attrs = map<string, Attr>

  datatype UGraph = UGraph(nodes: Dict<string, Attrs>, edges: set<set<string>>)

  const EmptyGraph: UGraph := UGraph(Empty(), {})

  /** Every endpoint of every edge is a node, as networkx guarantees. */
  ghost predicate EdgesJoinNodes(g: UGraph)
  {
    forall e, v | e in g.edges && v in e :: v in g.nodes.entries
  }

  /**
    networkx `add_node`: a new node gets the attributes, an existing one keeps
    its place and has them merged over its old ones.
  */
  function AddNode(g: UGraph, n: string, attrs: Attrs): (r: UGraph)
    ensures r.edges == g.edges
    ensures r.nodes.entries.Keys == g.nodes.entries.Keys + {n}
    ensures r.nodes.entries[n] == if n in g.nodes.entries then g.nodes.entries[n] + attrs else attrs
    ensures forall m | m in g.nodes.entries && m != n :: r.nodes.entries[m] == g.nodes.entries[m]
  {
    UGraph(Insert(g.nodes, n, if n in g.nodes.entries then g.nodes.entries[n] + attrs else attrs), g.edges)
  }

  /**
    networkx `add_edge`: missing endpoints are added first, without
    attributes, and the unordered pair joins the edges.
  */
  function AddEdge(g: UGraph, u: string, v: string): (r: UGraph)
    ensures r.edges == g.edges + {{u, v}}
    ensures r.nodes.entries.Keys == g.nodes.entries.Keys + {u, v}
    ensures forall m | m in g.nodes.entries :: r.nodes.entries[m] == g.nodes.entries[m]
    ensures forall m | m in r.nodes.entries && m !in g.nodes.entries :: r.nodes.entries[m] == map[]
    ensures u in g.nodes.entries && v in g.nodes.entries ==> r.nodes == g.nodes
  {
    UGraph(WithNode(WithNode(g.nodes, u), v), g.edges + {{u, v}})
  }

  /** The nodes with n added, without attributes, if it is missing. */
  function WithNode(nodes: Dict<string, Attrs>, n: string): (r: Dict<string, Attrs>)
    ensures r.entries.Keys == nodes.entries.Keys + {n}
    ensures forall m | m in nodes.entries :: r.entries[m] == nodes.entries[m]
    ensures n !in nodes.entries ==> r.entries[n] == map[]
    ensures n in nodes.entries ==> r == nodes
  {
    if n in nodes.entries then nodes else Insert(nodes, n, map[])
  }

  /** The same pair is added whichever endpoint comes first. */
  lemma AddEdgeSymmetric(g: UGraph, u: string, v: string)
    ensures AddEdge(g, u, v).edges == AddEdge(g, v, u).edges
    ensures AddEdge(g, u, v).nodes.entries.Keys == AddEdge(g, v, u).nodes.entries.Keys
  {
    assert {u, v} == {v, u};
  }

  /** The attributes an agent's node gets: its bare address as text and its coalition, "" for none. */
  function NodeAttrs(jid: Jid, coalitionId: Option<int>): (a: Attrs)
    ensures a.Keys == {"jid", "coalition_id"}
    ensures a["jid"] == StrAttr(Render(jid.Bare()))
    ensures a["coalition_id"] == if coalitionId.Some? then IntAttr(coalitionId.value) else StrAttr("")
  {
    map["jid" := StrAttr(Render(jid.Bare())),
        "coalition_id" := if coalitionId.Some? then IntAttr(coalitionId.value) else StrAttr("")]
  }

  /** The agents' localparts, the node labels, in agent order. */
  function Labels(agents: seq<Jid>): (labels: seq<string>)
    ensures |labels| == |agents|
    ensures forall k | 0 <= k < |agents| :: labels[k] == agents[k].localpart
  {
    seq(|agents|, k requires 0 <= k < |agents| => agents[k].localpart)
  }

  /** The position after k in a ring of n, the `(k + 1) % n` of the source. */
  function Succ(k: int, n: int): (s: int)
    requires 0 <= k < n
    ensures 0 <= s < n
  {
    if k + 1 < n then k + 1 else 0
  }

  lemma SuccIsModulo(k: int, n: int)
    requires 0 <= k < n
    ensures Succ(k, n) == (k + 1) % n
  {
  }

  /** The position before k in a ring of n. */
  function Pred(k: int, n: int): (p: int)
    requires 0 <= k < n
    ensures 0 <= p < n && Succ(p, n) == k
  {
    if k == 0 then n - 1 else k - 1
  }

  function RingEdge<L>(labels: seq<L>, k: int): set<L>
    requires 0 <= k < |labels|
  {
    {labels[k], labels[Succ(k, |labels|)]}
  }

  /** Each label joined to the next one, the last one to the first. */
  ghost function RingEdges<L>(labels: seq<L>): set<set<L>>
  {
    set k | 0 <= k < |labels| :: RingEdge(labels, k)
  }

  /** Every pair of positions i < j joined. */
  ghost function CompleteEdges<L>(labels: seq<L>): set<set<L>>
  {
    set i, j | 0 <= i < j < |labels| :: {labels[i], labels[j]}
  }

  /** The nodes adjacent to x, other than x itself. */
  ghost function Adjacent<L>(edges: set<set<L>>, nodes: set<L>, x: L): set<L>
  {
    set y | y in nodes && y != x && {x, y} in edges
  }

  /** The attributes are those `add_agent` gives, without coalition, to some agent with that localpart. */
  ghost predicate IsAgentAttrs(a: Attrs, agents: seq<Jid>, x: string)
  {
    exists k | 0 <= k < |agents| :: agents[k].localpart == x && a == NodeAttrs(agents[k], None)
  }

  /** The nodes are exactly the agents' localparts, each with the attributes of one of its agents. */
  ghost predicate AgentNodes(g: UGraph, agents: seq<Jid>)
  {
    && g.nodes.entries.Keys == (set k | 0 <= k < |agents| :: agents[k].localpart)
    && forall x | x in g.nodes.entries :: IsAgentAttrs(g.nodes.entries[x], agents, x)
  }

  predicate Tagged(a: Attrs, coalitionId: string)
  {
    "coalition_id" in a && a["coalition_id"] == StrAttr(coalitionId)
  }

  function TaggedAmong(order: seq<string>, nodes: map<string, Attrs>, coalitionId: string): (r: seq<string>)
    requires forall x | x in order :: x in nodes
    ensures forall x :: x in r <==> x in order && Tagged(nodes[x], coalitionId)
    ensures Distinct(order) ==> Distinct(r)
  {
    if order == [] then []
    else
      var rest := TaggedAmong(order[..|order| - 1], nodes, coalitionId);
      var last := order[|order| - 1];
      assert order == order[..|order| - 1] + [last];
      if Tagged(nodes[last], coalitionId) then rest + [last] else rest
  }

  /**
    `get_agents_in_coalition`: the nodes, in node order and each once, whose
    `coalition_id` attribute is the given text.
  */
  function AgentsInCoalition(g: UGraph, coalitionId: string): (r: seq<string>)
    ensures forall x :: x in r <==> x in g.nodes.entries && Tagged(g.nodes.entries[x], coalitionId)
    ensures Distinct(r)
  {
    TaggedAmong(g.nodes.order, g.nodes.entries, coalitionId)
  }

  /** An agent added with an integer coalition id is found under no coalition text. */
  lemma IntegerCoalitionNeverMatches(g: UGraph, jid: Jid, id: int, coalitionId: string)
    ensures jid.localpart !in AgentsInCoalition(AddNode(g, jid.localpart, NodeAttrs(jid, Some(id))), coalitionId)
  {
  }

  /** An agent added without coalition is found under the empty coalition text. */
  lemma UnassignedAgentMatchesEmpty(g: UGraph, jid: Jid)
    ensures jid.localpart in AgentsInCoalition(AddNode(g, jid.localpart, NodeAttrs(jid, None)), "")
  {
  }

  /** In a generated topology every agent is under the empty coalition and no other. */
  lemma GeneratedTopologyHasNoCoalitions(g: UGraph, agents: seq<Jid>, coalitionId: string)
    requires AgentNodes(g, agents)
    ensures forall x :: x in AgentsInCoalition(g, "") <==> x in g.nodes.entries
    ensures coalitionId != "" ==> forall x :: x !in AgentsInCoalition(g, coalitionId)
  {
    forall x | x in g.nodes.entries
      ensures Tagged(g.nodes.entries[x], "")
    {
      var k :| 0 <= k < |agents| && agents[k].localpart == x && g.nodes.entries[x] == NodeAttrs(agents[k], None);
    }
    if coalitionId != "" {
      forall x | x in g.nodes.entries
        ensures !Tagged(g.nodes.entries[x], coalitionId)
      {
        assert Tagged(g.nodes.entries[x], "");
      }
    }
  }

  /** With distinct localparts each node carries exactly its own agent's attributes. */
  lemma DistinctAgentNodes(g: UGraph, agents: seq<Jid>)
    requires AgentNodes(g, agents) && Distinct(Labels(agents))
    ensures forall k | 0 <= k < |agents| :: g.nodes.entries[agents[k].localpart] == NodeAttrs(agents[k], None)
  {
    forall k | 0 <= k < |agents|
      ensures g.nodes.entries[agents[k].localpart] == NodeAttrs(agents[k], None)
    {
      var x := agents[k].localpart;
      assert x in g.nodes.entries;
      var j :| 0 <= j < |agents| && agents[j].localpart == x && g.nodes.entries[x] == NodeAttrs(agents[j], None);
      assert Labels(agents)[j] == Labels(agents)[k];
    }
  }

  /** A one-to-one image of the first n positions has n elements. */
  lemma {:induction false} InjectiveImageCard<T>(f: int -> T, n: nat)
    requires forall a, b | 0 <= a < b < n :: f(a) != f(b)
    ensures |set k | 0 <= k < n :: f(k)| == n
  {
    if n > 0 {
      InjectiveImageCard(f, n - 1);
      var s := set k | 0 <= k < n - 1 :: f(k);
      assert (set k | 0 <= k < n :: f(k)) == s + {f(n - 1)};
      assert f(n - 1) !in s;
    }
  }

  /**
    A ring over n >= 3 distinct labels has n edges, none a self-loop, and
    each label is adjacent to exactly its predecessor and its successor, so
    every node has degree 2.
  */
  lemma RingShape<L>(labels: seq<L>)
    requires |labels| >= 3 && Distinct(labels)
    ensures |RingEdges(labels)| == |labels|
    ensures forall e | e in RingEdges(labels) :: |e| == 2
    ensures forall k | 0 <= k < |labels| ::
      && Adjacent(RingEdges(labels), (set x | x in labels), labels[k])
         == {labels[Pred(k, |labels|)], labels[Succ(k, |labels|)]}
      && labels[Pred(k, |labels|)] != labels[Succ(k, |labels|)]
  {
    var n := |labels|;
    RingEdgeCount(labels);
    forall e | e in RingEdges(labels)
      ensures |e| == 2
    {
      var k :| 0 <= k < n && e == RingEdge(labels, k);
    }
    forall k | 0 <= k < n
      ensures Adjacent(RingEdges(labels), (set x | x in labels), labels[k])
              == {labels[Pred(k, n)], labels[Succ(k, n)]}
      ensures labels[Pred(k, n)] != labels[Succ(k, n)]
    {
      RingNeighbours(labels, k);
    }
  }

  lemma RingEdgeCount<L>(labels: seq<L>)
    requires |labels| >= 3 && Distinct(labels)
    ensures |RingEdges(labels)| == |labels|
  {
    var n := |labels|;
    var f := (k: int) => if 0 <= k < n then RingEdge(labels, k) else {};
    forall a, b | 0 <= a < b < n
      ensures f(a) != f(b)
    {
      RingEdgesDiffer(labels, a, b);
    }
    InjectiveImageCard(f, n);
    forall e | e in RingEdges(labels)
      ensures e in (set k | 0 <= k < n :: f(k))
    {
      var k :| 0 <= k < n && e == RingEdge(labels, k);
      assert f(k) == e;
    }
    assert (set k | 0 <= k < n :: f(k)) == RingEdges(labels);
  }

  lemma RingEdgesDiffer<L>(labels: seq<L>, a: int, b: int)
    requires |labels| >= 3 && Distinct(labels) && 0 <= a < b < |labels|
    ensures RingEdge(labels, a) != RingEdge(labels, b)
  {
    var n := |labels|;
    if RingEdge(labels, a) == RingEdge(labels, b) {
      assert labels[a] in RingEdge(labels, b);
      if labels[a] == labels[b] {
        DistinctIndex(labels, a, b);
      }
      DistinctIndex(labels, a, Succ(b, n));
      assert false;
    }
  }

  lemma RingNeighbours<L>(labels: seq<L>, k: int)
    requires |labels| >= 3 && Distinct(labels) && 0 <= k < |labels|
    ensures Adjacent(RingEdges(labels), (set x | x in labels), labels[k])
            == {labels[Pred(k, |labels|)], labels[Succ(k, |labels|)]}
    ensures labels[Pred(k, |labels|)] != labels[Succ(k, |labels|)]
  {
    var n := |labels|;
    var p := Pred(k, n);
    var s := Succ(k, n);
    if labels[p] == labels[s] {
      DistinctIndex(labels, p, s);
    }
    if labels[p] == labels[k] {
      DistinctIndex(labels, p, k);
    }
    if labels[s] == labels[k] {
      DistinctIndex(labels, s, k);
    }
    assert RingEdge(labels, p) == {labels[k], labels[p]};
    assert RingEdge(labels, k) == {labels[k], labels[s]};
    var adj := Adjacent(RingEdges(labels), (set x | x in labels), labels[k]);
    assert labels[p] in adj;
    assert labels[s] in adj;
    forall y | y in adj
      ensures y == labels[p] || y == labels[s]
    {
      var j :| 0 <= j < n && {labels[k], y} == RingEdge(labels, j);
      assert labels[k] in RingEdge(labels, j);
      if labels[k] == labels[j] {
        DistinctIndex(labels, k, j);
      } else {
        DistinctIndex(labels, k, Succ(j, n));
        assert j == p;
      }
    }
  }

  lemma DistinctIndex<T>(s: seq<T>, i: int, j: int)
    requires Distinct(s) && 0 <= i < |s| && 0 <= j < |s| && s[i] == s[j]
    ensures i == j
  {
    if i < j || j < i {
      assert false;
    }
  }

  /**
    A complete graph over n distinct labels joins every two different labels,
    has no self-loop, and has n(n-1)/2 edges.
  */
  lemma CompleteShape<L>(labels: seq<L>)
    requires Distinct(labels)
    ensures forall e | e in CompleteEdges(labels) :: |e| == 2
    ensures forall i, j | 0 <= i < |labels| && 0 <= j < |labels| && i != j :: {labels[i], labels[j]} in CompleteEdges(labels)
    ensures 2 * |CompleteEdges(labels)| == |labels| * (|labels| - 1)
  {
    var n := |labels|;
    forall e | e in CompleteEdges(labels)
      ensures |e| == 2
    {
      var i, j :| 0 <= i < j < n && e == {labels[i], labels[j]};
    }
    forall i, j | 0 <= i < n && 0 <= j < n && i != j
      ensures {labels[i], labels[j]} in CompleteEdges(labels)
    {
      if j < i {
        assert {labels[i], labels[j]} == {labels[j], labels[i]};
      }
    }
    CompleteCard(labels);
  }

  /** The edges from the last label back to each earlier one. */
  ghost function LastEdges<L>(labels: seq<L>): set<set<L>>
    requires |labels| > 0
  {
    set k | 0 <= k < |labels| - 1 :: {labels[k], labels[|labels| - 1]}
  }

  lemma {:induction false} CompleteCard<L>(labels: seq<L>)
    requires Distinct(labels)
    ensures 2 * |CompleteEdges(labels)| == |labels| * (|labels| - 1)
  {
    var n := |labels|;
    if n > 0 {
      var init := labels[..n - 1];
      var older := CompleteEdges(init);
      var newer := LastEdges(labels);
      var c0, c1 := |older|, |newer|;
      assert 2 * c0 == (n - 1) * (n - 2) by {
        assert Distinct(init);
        CompleteCard(init);
      }
      assert c1 == n - 1 by {
        LastEdgesCard(labels);
      }
      assert |CompleteEdges(labels)| == c0 + c1 by {
        CompleteSplit(labels);
        LastEdgesAreNew(labels);
        assert older * newer == {};
      }
      assert (n - 1) * (n - 2) + 2 * (n - 1) == n * (n - 1);
    }
  }

  lemma CompleteSplit<L>(labels: seq<L>)
    requires |labels| > 0
    ensures CompleteEdges(labels) == CompleteEdges(labels[..|labels| - 1]) + LastEdges(labels)
  {
    var n := |labels|;
    var init := labels[..n - 1];
    forall e | e in CompleteEdges(labels)
      ensures e in CompleteEdges(init) + LastEdges(labels)
    {
      var i, j :| 0 <= i < j < n && e == {labels[i], labels[j]};
      if j < n - 1 {
        assert e == {init[i], init[j]};
      }
    }
    forall e | e in CompleteEdges(init)
      ensures e in CompleteEdges(labels)
    {
      var i, j :| 0 <= i < j < n - 1 && e == {init[i], init[j]};
      assert e == {labels[i], labels[j]};
    }
  }

  lemma LastEdgesCard<L>(labels: seq<L>)
    requires |labels| > 0 && Distinct(labels)
    ensures |LastEdges(labels)| == |labels| - 1
  {
    var n := |labels|;
    var last := labels[n - 1];
    var f := (k: int) => if 0 <= k < n - 1 then {labels[k], last} else {};
    forall a, b | 0 <= a < b < n - 1
      ensures f(a) != f(b)
    {
      assert labels[a] != labels[b] && labels[a] != last;
      assert labels[a] in f(a);
    }
    InjectiveImageCard(f, n - 1);
    forall e | e in LastEdges(labels)
      ensures e in (set k | 0 <= k < n - 1 :: f(k))
    {
      var k :| 0 <= k < n - 1 && e == {labels[k], last};
      assert f(k) == e;
    }
    assert (set k | 0 <= k < n - 1 :: f(k)) == LastEdges(labels);
  }

  lemma LastEdgesAreNew<L>(labels: seq<L>)
    requires |labels| > 0 && Distinct(labels)
    ensures CompleteEdges(labels[..|labels| - 1]) !! LastEdges(labels)
  {
    var n := |labels|;
    var init := labels[..n - 1];
    forall e | e in CompleteEdges(init)
      ensures labels[n - 1] !in e
    {
      var i, j :| 0 <= i < j < n - 1 && e == {init[i], init[j]};
      assert init[i] == labels[i] && init[j] == labels[j];
    }
  }

  /** The pairs (a, b) with a < i: the rows `generate_complete` has finished. */
  ghost function CompleteRows<L>(labels: seq<L>, i: int): set<set<L>>
  {
    set a, b | 0 <= a < i && a < b < |labels| :: {labels[a], labels[b]}
  }

  /** Row i up to, not including, column j. */
  ghost function RowPrefix<L>(labels: seq<L>, i: int, j: int): set<set<L>>
    requires 0 <= i < |labels|
  {
    set b | i < b < j && b < |labels| :: {labels[i], labels[b]}
  }

  lemma RowPrefixEmpty<L>(labels: seq<L>, i: int)
    requires 0 <= i < |labels|
    ensures RowPrefix(labels, i, i + 1) == {}
  {
  }

  lemma RowStep<L>(labels: seq<L>, i: int, j: int)
    requires 0 <= i < j < |labels|
    ensures RowPrefix(labels, i, j + 1) == RowPrefix(labels, i, j) + {{labels[i], labels[j]}}
  {
  }

  lemma RowsStep<L>(labels: seq<L>, i: int)
    requires 0 <= i < |labels|
    ensures CompleteRows(labels, i + 1) == CompleteRows(labels, i) + RowPrefix(labels, i, |labels|)
  {
    forall e | e in CompleteRows(labels, i + 1)
      ensures e in CompleteRows(labels, i) + RowPrefix(labels, i, |labels|)
    {
      var a, b :| 0 <= a < i + 1 && a < b < |labels| && e == {labels[a], labels[b]};
      if a == i {
        assert e in RowPrefix(labels, i, |labels|);
      }
    }
  }

  lemma RowsDone<L>(labels: seq<L>)
    ensures CompleteRows(labels, |labels|) == CompleteEdges(labels)
  {
  }

  /** The graph `generate_ring` has built after its first i steps. */
  ghost predicate RingSoFar(g: UGraph, agents: seq<Jid>, i: nat)
    requires i <= |agents|
  {
    && EdgesJoinNodes(g)
    && g.edges == (set k | 0 <= k < i :: RingEdge(Labels(agents), k))
    && g.nodes.entries.Keys
       == (set k | 0 <= k < i :: agents[k].localpart) + (set k | 0 <= k < i :: agents[Succ(k, |agents|)].localpart)
    && AttrsFromAgents(g.nodes.entries, agents)
    && (forall k | 0 <= k < i ::
          agents[k].localpart in g.nodes.entries
          && IsAgentAttrs(g.nodes.entries[agents[k].localpart], agents, agents[k].localpart))
  }

  /** Step i of `generate_ring`: the agent, then the edge to the next one. */
  function RingNext(g: UGraph, agents: seq<Jid>, i: nat): UGraph
    requires i < |agents|
  {
    AddEdge(AddNode(g, agents[i].localpart, NodeAttrs(agents[i], None)),
            agents[i].localpart, agents[Succ(i, |agents|)].localpart)
  }

  lemma RingStep(g: UGraph, agents: seq<Jid>, i: nat)
    requires i < |agents| && RingSoFar(g, agents, i)
    ensures RingSoFar(RingNext(g, agents, i), agents, i + 1)
  {
    RingStepJoined(g, agents, i);
    RingStepEdges(g, agents, i);
    RingStepKeys(g, agents, i);
    RingStepAttrs(g, agents, i);
  }

  lemma RingStepJoined(g: UGraph, agents: seq<Jid>, i: nat)
    requires i < |agents| && EdgesJoinNodes(g)
    ensures EdgesJoinNodes(RingNext(g, agents, i))
  {
    var g1 := AddNode(g, agents[i].localpart, NodeAttrs(agents[i], None));
    AddNodeKeepsEdgesJoined(g, agents[i].localpart, NodeAttrs(agents[i], None));
    AddEdgeKeepsEdgesJoined(g1, agents[i].localpart, agents[Succ(i, |agents|)].localpart);
  }

  lemma AddNodeKeepsEdgesJoined(g: UGraph, n: string, attrs: Attrs)
    requires EdgesJoinNodes(g)
    ensures EdgesJoinNodes(AddNode(g, n, attrs))
  {
  }

  lemma AddEdgeKeepsEdgesJoined(g: UGraph, u: string, v: string)
    requires EdgesJoinNodes(g)
    ensures EdgesJoinNodes(AddEdge(g, u, v))
  {
  }

  lemma RingStepEdges(g: UGraph, agents: seq<Jid>, i: nat)
    requires i < |agents|
    requires g.edges == (set k | 0 <= k < i :: RingEdge(Labels(agents), k))
    ensures RingNext(g, agents, i).edges == (set k | 0 <= k < i + 1 :: RingEdge(Labels(agents), k))
  {
    assert RingEdge(Labels(agents), i) == {agents[i].localpart, agents[Succ(i, |agents|)].localpart};
    assert (set k | 0 <= k < i + 1 :: RingEdge(Labels(agents), k))
      == (set k | 0 <= k < i :: RingEdge(Labels(agents), k)) + {RingEdge(Labels(agents), i)};
  }

  lemma RingStepKeys(g: UGraph, agents: seq<Jid>, i: nat)
    requires i < |agents|
    requires g.nodes.entries.Keys
       == (set k | 0 <= k < i :: agents[k].localpart) + (set k | 0 <= k < i :: agents[Succ(k, |agents|)].localpart)
    ensures RingNext(g, agents, i).nodes.entries.Keys
       == (set k | 0 <= k < i + 1 :: agents[k].localpart) + (set k | 0 <= k < i + 1 :: agents[Succ(k, |agents|)].localpart)
  {
    assert (set k | 0 <= k < i + 1 :: agents[k].localpart)
      == (set k | 0 <= k < i :: agents[k].localpart) + {agents[i].localpart};
    assert (set k | 0 <= k < i + 1 :: agents[Succ(k, |agents|)].localpart)
      == (set k | 0 <= k < i :: agents[Succ(k, |agents|)].localpart) + {agents[Succ(i, |agents|)].localpart};
  }

  lemma RingStepAttrs(g: UGraph, agents: seq<Jid>, i: nat)
    requires i < |agents|
    requires AttrsFromAgents(g.nodes.entries, agents)
    requires forall k | 0 <= k < i ::
      agents[k].localpart in g.nodes.entries
      && IsAgentAttrs(g.nodes.entries[agents[k].localpart], agents, agents[k].localpart)
    ensures var g2 := RingNext(g, agents, i);
      && AttrsFromAgents(g2.nodes.entries, agents)
      && (forall k | 0 <= k < i + 1 ::
            agents[k].localpart in g2.nodes.entries
            && IsAgentAttrs(g2.nodes.entries[agents[k].localpart], agents, agents[k].localpart))
  {
    var u := agents[i].localpart;
    var g1 := AddNode(g, u, NodeAttrs(agents[i], None));
    AddAgentAttrs(g, agents, i);
    assert forall k | 0 <= k < i + 1 ::
      agents[k].localpart in g1.nodes.entries
      && IsAgentAttrs(g1.nodes.entries[agents[k].localpart], agents, agents[k].localpart);
    AddEdgeAttrs(g1, u, agents[Succ(i, |agents|)].localpart, agents);
  }

  /** Each node has no attributes yet or those of one of the agents. */
  ghost predicate AttrsFromAgents(nodes: map<string, Attrs>, agents: seq<Jid>)
  {
    forall x | x in nodes :: nodes[x] == map[] || IsAgentAttrs(nodes[x], agents, x)
  }

  lemma AddAgentAttrs(g: UGraph, agents: seq<Jid>, i: nat)
    requires i < |agents| && AttrsFromAgents(g.nodes.entries, agents)
    ensures var g1 := AddNode(g, agents[i].localpart, NodeAttrs(agents[i], None));
      && AttrsFromAgents(g1.nodes.entries, agents)
      && IsAgentAttrs(g1.nodes.entries[agents[i].localpart], agents, agents[i].localpart)
  {
    var u := agents[i].localpart;
    var g1 := AddNode(g, u, NodeAttrs(agents[i], None));
    assert g1.nodes.entries[u] == NodeAttrs(agents[i], None);
  }

  lemma AddEdgeAttrs(g: UGraph, u: string, v: string, agents: seq<Jid>)
    requires AttrsFromAgents(g.nodes.entries, agents)
    ensures AttrsFromAgents(AddEdge(g, u, v).nodes.entries, agents)
  {
  }

  lemma RingDone(g: UGraph, agents: seq<Jid>)
    requires RingSoFar(g, agents, |agents|)
    ensures EdgesJoinNodes(g)
    ensures g.edges == RingEdges(Labels(agents))
    ensures AgentNodes(g, agents)
    ensures agents == [] ==> g.nodes.order == [] && g.edges == {}
  {
    var n := |agents|;
    SuccessorLabelsCovered(agents);
    forall x | x in g.nodes.entries
      ensures IsAgentAttrs(g.nodes.entries[x], agents, x)
    {
      var k :| 0 <= k < n && agents[k].localpart == x;
    }
    if agents == [] {
      NoKeysNoOrder(g.nodes);
    }
  }

  lemma SuccessorLabelsCovered(agents: seq<Jid>)
    ensures (set k | 0 <= k < |agents| :: agents[Succ(k, |agents|)].localpart)
            <= (set k | 0 <= k < |agents| :: agents[k].localpart)
  {
    var n := |agents|;
    forall k | 0 <= k < n
      ensures agents[Succ(k, n)].localpart in (set k | 0 <= k < n :: agents[k].localpart)
    {
      var j := Succ(k, n);
      assert agents[j].localpart in (set k | 0 <= k < n :: agents[k].localpart);
    }
  }

  lemma NoKeysNoOrder<K, V>(d: Dict<K, V>)
    requires d.entries == map[]
    ensures d.order == []
  {
    OrderCoversEntries(d);
  }

  lemma AgentKeysStep(g: UGraph, agents: seq<Jid>, i: nat)
    requires i < |agents|
    requires g.nodes.entries.Keys == set k | 0 <= k < i :: agents[k].localpart
    ensures AddNode(g, agents[i].localpart, NodeAttrs(agents[i], None)).nodes.entries.Keys
            == (set k | 0 <= k < i + 1 :: agents[k].localpart)
  {
    assert (set k | 0 <= k < i + 1 :: agents[k].localpart)
      == (set k | 0 <= k < i :: agents[k].localpart) + {agents[i].localpart};
  }

  lemma AgentAttrsStep(g: UGraph, agents: seq<Jid>, i: nat)
    requires i < |agents|
    requires forall x | x in g.nodes.entries :: IsAgentAttrs(g.nodes.entries[x], agents, x)
    ensures var g1 := AddNode(g, agents[i].localpart, NodeAttrs(agents[i], None));
      forall x | x in g1.nodes.entries :: IsAgentAttrs(g1.nodes.entries[x], agents, x)
  {
    var u := agents[i].localpart;
    var g1 := AddNode(g, u, NodeAttrs(agents[i], None));
    assert g1.nodes.entries[u] == NodeAttrs(agents[i], None);
  }

  /** The manager: one mutable graph. */
  class GraphManager {
    var graph: UGraph

    ghost predicate Valid()
      reads this
    {
      EdgesJoinNodes(graph)
    }

    constructor ()
      ensures graph == EmptyGraph && Valid()
    {
      graph := EmptyGraph;
    }

    /**
      `add_agent`: the node is keyed by the localpart and holds the bare
      address as text and the coalition id, or "" without one; the other
      nodes and the edges are unchanged.
    */
    method AddAgent(jid: Jid, coalitionId: Option<int>)
      requires Valid()
      modifies this
      ensures Valid()
      ensures graph == AddNode(old(graph), jid.localpart, NodeAttrs(jid, coalitionId))
      ensures graph.nodes.entries[jid.localpart]["jid"] == StrAttr(Render(jid.Bare()))
      ensures graph.nodes.entries[jid.localpart]["coalition_id"]
              == if coalitionId.Some? then IntAttr(coalitionId.value) else StrAttr("")
    {
      graph := AddNode(graph, jid.localpart, NodeAttrs(jid, coalitionId));
    }

    /** `add_connection`: one undirected edge between the two localparts. */
    method AddConnection(jid1: Jid, jid2: Jid)
      requires Valid()
      modifies this
      ensures Valid()
      ensures graph == AddEdge(old(graph), jid1.localpart, jid2.localpart)
      ensures {jid1.localpart, jid2.localpart} in graph.edges
    {
      graph := AddEdge(graph, jid1.localpart, jid2.localpart);
    }

    /** `get_agents_in_coalition`: each node once whose `coalition_id` is the given text. */
    function GetAgentsInCoalition(coalitionId: string): (r: seq<string>)
      reads this
      ensures forall x :: x in r <==> x in graph.nodes.entries && Tagged(graph.nodes.entries[x], coalitionId)
      ensures Distinct(r)
    {
      AgentsInCoalition(graph, coalitionId)
    }

    /** `list_agents`: every node once. */
    function ListAgents(): (r: seq<string>)
      reads this
      ensures Distinct(r)
      ensures forall x :: x in r <==> x in graph.nodes.entries
    {
      graph.nodes.order
    }

    /** `list_connections`: the edges, each an unordered pair of listed agents. */
    function ListConnections(): (r: set<set<string>>)
      reads this
      ensures r == graph.edges
      ensures Valid() ==> forall e, v | e in r && v in e :: v in ListAgents()
    {
      graph.edges
    }

    /**
      `generate_ring`: the previous graph is discarded; the nodes are the
      agents' localparts, each with an agent's attributes, and the edges join
      each agent to the next, the last to the first. No agents, no graph.
    */
    method GenerateRing(agents: seq<Jid>)
      modifies this
      ensures Valid()
      ensures graph.edges == RingEdges(Labels(agents))
      ensures AgentNodes(graph, agents)
      ensures agents == [] ==> graph.nodes.order == [] && graph.edges == {}
    {
      graph := EmptyGraph;
      var n := |agents|;
      for i := 0 to n
        invariant RingSoFar(graph, agents, i)
      {
        ghost var before := graph;
        AddAgent(agents[i], None);
        AddConnection(agents[i], agents[Succ(i, n)]);
        RingStep(before, agents, i);
      }
      RingDone(graph, agents);
    }

    /** The inner loop of `generate_complete`: agent i joined to every later agent. */
    method ConnectRow(agents: seq<Jid>, i: nat)
      requires Valid() && i < |agents|
      requires forall k | 0 <= k < |agents| :: agents[k].localpart in graph.nodes.entries
      modifies this
      ensures Valid()
      ensures graph.nodes == old(graph.nodes)
      ensures graph.edges == old(graph.edges) + RowPrefix(Labels(agents), i, |agents|)
    {
      ghost var labels := Labels(agents);
      RowPrefixEmpty(labels, i);
      for j := i + 1 to |agents|
        invariant Valid()
        invariant graph.nodes == old(graph.nodes)
        invariant graph.edges == old(graph.edges) + RowPrefix(labels, i, j)
      {
        AddConnection(agents[i], agents[j]);
        RowStep(labels, i, j);
        assert {agents[i].localpart, agents[j].localpart} == {labels[i], labels[j]};
      }
    }

    /**
      `generate_complete`: the previous graph is discarded; the nodes are the
      agents' localparts, each with an agent's attributes, and every pair of
      positions i < j is joined.
    */
    method GenerateComplete(agents: seq<Jid>)
      modifies this
      ensures Valid()
      ensures graph.edges == CompleteEdges(Labels(agents))
      ensures AgentNodes(graph, agents)
    {
      graph := EmptyGraph;
      var n := |agents|;
      ghost var labels := Labels(agents);
      for i := 0 to n
        invariant Valid()
        invariant graph.edges == {}
        invariant graph.nodes.entries.Keys == set k | 0 <= k < i :: agents[k].localpart
        invariant forall x | x in graph.nodes.entries :: IsAgentAttrs(graph.nodes.entries[x], agents, x)
      {
        ghost var before := graph;
        AddAgent(agents[i], None);
        AgentKeysStep(before, agents, i);
        AgentAttrsStep(before, agents, i);
      }
      ghost var start := graph;
      ghost var nodes := graph.nodes;
      for i := 0 to n
        invariant Valid()
        invariant graph.nodes == nodes
        invariant graph.edges == CompleteRows(labels, i)
      {
        ConnectRow(agents, i);
        RowsStep(labels, i);
      }
      RowsDone(labels);
      assert AgentNodes(graph, agents) by {
        assert AgentNodes(start, agents);
      }
    }
  }
}
