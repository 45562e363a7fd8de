# royalflush agent core in Dafny

This project models the agent-side control logic of royalflush, a peer of a
decentralised federated-learning network built on SPADE/XMPP. It proves
properties of that model. It covers five parts:

- `agent_base.dfy`, module `AgentBase`. A node's send and receive wrappers
  around message fragmentation, subscription approval, and the bootstrap
  decision in `setup`. The presence queries over the contact roster: whether
  presence is complete, which neighbours are not yet at subscription "both",
  and which contacts are available. The consistency checks and the coalition
  lookup of a coalition node.
- `premiofl_base.dfy`, module `PremioFl`. The PremioFL agent's initial state
  and its post-coordination behaviour list. The round-limit predicate. The
  seam through which a strategy is fed the available neighbours and the
  similarity state. The addressing and message-log records of the layer and
  similarity sends.
- `acol.dfy`, module `Acol`. The ACoL strategy: pick at most one available
  neighbour nondeterministically, and send it the full model state.
- `graph.dfy`, module `Graph`. The topology manager. An undirected graph is an
  insertion-ordered node map plus a set of unordered edges. Agents and
  connections are added with networkx's `add_node`/`add_edge` semantics.
  Ring and complete topologies are generated, and agents are filtered by
  coalition.
- `similarity_function.dfy`, module `SimilarityFunction`. The constant-one
  and Euclidean similarity functions over two layer maps. The distance is an
  uninterpreted function over opaque layer values.

Shared values live in three more modules:

- `wrappers.dfy`: `Option`, `Result` and `Outcome`.
- `dicts.dfy`: Python's insertion-ordered `dict`, as a key order plus a map,
  kept well-formed by a subset type.
- `messaging.dfy`: JIDs, the presence roster, messages, behaviours and
  templates.

Python inheritance becomes composition. A `PremioFlAgent` and a
`CoalitionAgentNode` each hold an `AgentNode`. The abstract strategy hooks of
the PremioFL agent are bound to the ACoL strategy.

Some answers come from code outside this model, so they are parameters of the
operations:

- the transport: the roster that `presence.get_contacts()` returns, and the
  message a behaviour receives;
- the multipart handler: the fragments of a message, whether a message is a
  fragment, and the rebuilt message;
- the `to_message` encoders.

Sends and presence requests are recorded in sequences on the node. Behaviours
added to the agent are also recorded there, and log records in a sequence on
the agent.

## Model

| member | source | states |
|---|---|---|
| AgentBase.AgentNode.constructor | royalflush/agent/base.py:128-131 | A node keeps its address, observers, neighbours, coordinator and post-coordination behaviours. It starts with no behaviours, nothing sent and no presence requests. |
| AgentBase.AgentNode.Send | royalflush/agent/base.py:39-54 | The messages handed over are the original alone when there are no fragments, otherwise the fragments in the handler's order. The send succeeds exactly when every one has a sender and a recipient, and then all are handed over by the given route. Otherwise the messages up to and including the first one lacking an address are handed over, because its log line fails after the hand-over, and no later one is. |
| AgentBase.DispatchedPassIff | royalflush/agent/base.py:47-54 | Whatever the transport record, a send reports success exactly when every message it hands over has both addresses. |
| AgentBase.AgentNode.Receive | royalflush/agent/base.py:56-92 | Nothing arrived gives None. A whole message comes back unchanged with both flags false. A fragment is flagged multipart. It is completed exactly when a message was rebuilt. The result is the rebuilt message if there is one, else the fragment itself. |
| AgentBase.AgentNode.OnSubscribe | royalflush/agent/base.py:104-106 | Every inbound subscription request is approved, and nothing else is requested. |
| AgentBase.AgentNode.Setup | royalflush/agent/base.py:142-153 | The presence callbacks are always installed. With a coordinator, only the presence state machine is added, with the template "rf.presence" = "sync". Without a coordinator, every post-coordination behaviour is added in list order and no state machine is made. |
| AgentBase.AgentNode.SubscribeToNeighbours | royalflush/agent/base.py:155-159 | One subscription request is made to each neighbour's bare address, in neighbour order. |
| AgentBase.PendingSubscriptions | royalflush/agent/base.py:164-169 | The dict comprehension holds exactly the contacts that are themselves neighbours and not at "both", each with its own subscription. Every key is some neighbour's bare address. |
| AgentBase.AgentNode.GetNonSubscribeBothNeighbours | royalflush/agent/base.py:163-173 | The keys are exactly the neighbours' bare addresses. A key's value is that contact's subscription when it is a neighbour not at "both", and "null" otherwise, including for neighbours already at "both". |
| AgentBase.AgentNode.IsPresenceCompleted | royalflush/agent/base.py:175-179 | True exactly when every neighbour's bare address is a contact and every contact, neighbour or not, is at "both". |
| AgentBase.AgentNode.GetAvailableNeighbours | royalflush/agent/base.py:181-192 | The result is the bare address of each contact whose stored presence is AVAILABLE, in roster order. |
| AgentBase.AvailableContactsMembers | royalflush/agent/base.py:187-191 | A contact is listed as available exactly when it is on the roster with a stored presence of type AVAILABLE. Non-neighbours count. A contact without a presence entry does not. |
| AgentBase.CheckCoalitions | royalflush/agent/base.py:216-223 | The checks pass exactly when the coalition map has one entry per neighbour and every neighbour is a coalition value. A length mismatch is reported as such. Otherwise the error names the first neighbour that is not a value. |
| AgentBase.ConsistentCoalitionsAreNeighbours | royalflush/agent/base.py:215-223 | When neighbours are distinct, a configuration that passes the checks has exactly the neighbours as its coalition values. |
| AgentBase.RepeatedNeighbourAdmitsStranger | royalflush/agent/base.py:216-223 | Concrete case: with a repeated neighbour, the checks pass although one coalition value is not a neighbour. |
| AgentBase.NewCoalitionAgentNode | royalflush/agent/base.py:212-236 | Construction succeeds exactly when the checks pass. A failure carries the error the checks report: the length mismatch, or else the first neighbour missing from the values. A new node then carries the given id, map, address, message size, observers, neighbours, coordinator and behaviours. Like any new node, it has no handlers, state machine, behaviours, sends or presence requests yet. On failure nothing is built. |
| AgentBase.CoalitionAgentNode.constructor | royalflush/agent/base.py:212-214 | Stores the node, coalition id and coalition map once the checks of base.py:216-223 have passed, which its precondition states; a node built this way satisfies them. |
| AgentBase.CoalitionAgentNode.GetCoalitionNeighbours | royalflush/agent/base.py:238-239 | The result is empty exactly when the node's coalition id is not a key. Otherwise it is the one address mapped to that id. |
| AgentBase.CoalitionNeighbourIsNeighbour | royalflush/agent/base.py:212-239 | When neighbours are distinct, the coalition neighbour of a constructed node is one of its neighbours. |
| AgentBase.CheckCoalitionsAsWritten | royalflush/agent/base.py:216-223 | The checks as written always fail, because the neighbour loop reads the neighbour field before it is assigned. |
| AgentBase.AsWrittenRejectsConsistentCoalitions | royalflush/agent/base.py:218 | As written, a configuration that passes the intended checks still fails, on the unassigned field. |
| AgentBase.GetCoalitionNeighboursAsWritten | royalflush/agent/base.py:238-239 | As written, a known coalition id returns the stored address itself, not a list; an unknown id returns the empty list. |
| PremioFl.PremioFlAgent.constructor | royalflush/agent/premiofl/base.py:44-83 | A new agent is at round 0 with an empty consensus queue and an empty message log. It keeps its model and similarity managers and its round maximum. Its node is new, holds the given address, neighbours and coordinator, and holds exactly the three post-coordination behaviours. The node has no handlers, state machine, behaviours, sends or presence requests yet. |
| PremioFl.RoundLimitMonotone | royalflush/agent/premiofl/base.py:193-194 | Once the round limit is reached it stays reached as the round grows. |
| PremioFl.RoundLimitIsStrict | royalflush/agent/premiofl/base.py:193-194 | The limit is never reached without a maximum. With a maximum it is not reached at the maximum round itself, but is reached at the next round (strict comparison). |
| PremioFl.PremioFlAgent.AreMaxIterationsReached | royalflush/agent/premiofl/base.py:193-194 | Never reached without a maximum. With one, reached exactly when the current round is strictly beyond it. |
| PremioFl.PremioFlAgent.SelectNeighbours | royalflush/agent/premiofl/base.py:85-95 | With ACoL as the strategy, fed the available contacts: the selection is empty exactly when no contact is available. Otherwise it is one contact whose presence is AVAILABLE. |
| PremioFl.PremioFlAgent.AssignLayers | royalflush/agent/premiofl/base.py:125-146 | Fed with the similarity manager's vectors, every selected neighbour, and nobody else, is assigned the model manager's full state dictionary. |
| PremioFl.Addressed | royalflush/agent/premiofl/base.py:156-160 | The encoded message goes from the agent's bare address to the neighbour's bare address. It carries the given thread and metadata, without a change to its body. |
| PremioFl.SimilarityLogType | royalflush/agent/premiofl/base.py:161-162 | The similarity log type is "SEND-SIMILARITY-REQREPLY" when a reply is requested and "SEND-SIMILARITY" otherwise. |
| PremioFl.LayersLogType | royalflush/agent/premiofl/base.py:179-180 | The layers log type is "SEND-LAYERS-REQREPLY" when a reply is requested and "SEND-LAYERS" otherwise. |
| PremioFl.PremioFlAgent.SendMessage | royalflush/agent/premiofl/base.py:182-191 | The message is sent through the node as `send` does, succeeding or failing as it does. After a successful send exactly one record is logged: the current round, the message's sender, recipient and thread, the type "SEND" plus the tag, and the body length as size. A failed send logs nothing. |
| PremioFl.PremioFlAgent.SendSimilarityVector | royalflush/agent/premiofl/base.py:148-162 | The encoded vector is sent from the agent's bare address to the neighbour's, with the given thread and metadata. After a successful send one record is logged with type "SEND-SIMILARITY-REQREPLY" or "SEND-SIMILARITY", following the vector's reply flag, and the body length as size. Unsplit, the addressed message always succeeds; only an unaddressed fragment can fail the send. |
| PremioFl.PremioFlAgent.SendLocalLayers | royalflush/agent/premiofl/base.py:164-180 | A contribution holding the layers, this agent as sender and the reply flag is encoded and sent with the same addressing. After a successful send one record is logged with type "SEND-LAYERS-REQREPLY" or "SEND-LAYERS", following the flag, and the body length as size. As for the similarity vector, only an unaddressed fragment can fail the send. |
| Acol.SelectNeighbours | royalflush/agent/premiofl/acol.py:49-52 | The selection is empty exactly when the input is. Otherwise it is exactly one element, which is a member of the input. |
| Acol.AssignLayers | royalflush/agent/premiofl/acol.py:54-60 | The keys are exactly the selected neighbours. Every one maps to the full model state. |
| Acol.AssignLayersIgnoresSimilarity | royalflush/agent/premiofl/acol.py:54-60 | The assignment is the same whatever the own vector and the neighbours' vectors are. |
| Graph.AddNode | royalflush/datatypes/graph.py:25-27 | networkx `add_node`: edges are unchanged and the node is added. Its attributes are the new ones merged over any old ones. Other nodes are unchanged. |
| Graph.AddEdge | royalflush/datatypes/graph.py:33 | networkx `add_edge`: the unordered pair joins the edges. Missing endpoints are added with no attributes. Existing nodes keep their attributes. |
| Graph.NodeAttrs | royalflush/datatypes/graph.py:23-27 | An agent's node holds exactly two attributes: `jid`, the bare address as text, and `coalition_id`, the given integer or "" for none. |
| Graph.GraphManager.constructor | royalflush/datatypes/graph.py:12-16 | A new manager holds the empty graph. |
| Graph.GraphManager.AddAgent | royalflush/datatypes/graph.py:18-27 | The node keyed by the agent's localpart gets the bare address as `jid` and the coalition id, or "", as `coalition_id`. Edges are kept and every edge still joins two nodes. |
| Graph.GraphManager.AddConnection | royalflush/datatypes/graph.py:29-33 | The unordered pair of the two localparts is an edge afterwards, and every edge still joins two nodes. |
| Graph.AddEdgeSymmetric | royalflush/datatypes/graph.py:29-33 | Connecting u to v and connecting v to u give the same edges and the same nodes. |
| Graph.GraphManager.GetAgentsInCoalition | royalflush/datatypes/graph.py:81-86 | The result lists each node once, and a node is listed exactly when its `coalition_id` attribute is the given text. |
| Graph.AgentsInCoalition | royalflush/datatypes/graph.py:81-86 | Same, for a graph value: a node is found exactly when its `coalition_id` attribute is the given text, and no node is listed twice. |
| Graph.IntegerCoalitionNeverMatches | royalflush/datatypes/graph.py:81-86 | An agent added with an integer coalition id is found under no coalition text. |
| Graph.UnassignedAgentMatchesEmpty | royalflush/datatypes/graph.py:81-86 | An agent added without a coalition is found under the empty coalition text. |
| Graph.GraphManager.ListAgents | royalflush/datatypes/graph.py:88-92 | Every node is listed exactly once. |
| Graph.GraphManager.ListConnections | royalflush/datatypes/graph.py:94-98 | The result is the edge set, and each endpoint is a listed agent. |
| Graph.GraphManager.GenerateRing | royalflush/datatypes/graph.py:100-108 | The previous graph is discarded. The nodes are exactly the agents' localparts, each with an agent's attributes and no coalition. The edges are exactly each agent's localpart joined to the next one's, the last to the first. No agents gives no nodes and no edges. |
| Graph.SuccIsModulo | royalflush/datatypes/graph.py:108 | The ring's next position is `(i + 1) % n`. |
| Graph.RingShape | royalflush/datatypes/graph.py:100-108 | For n >= 3 distinct labels, the ring has n edges and no self-loop. Each label's neighbours are exactly its two distinct ring neighbours, so every node has degree 2. |
| Graph.GraphManager.ConnectRow | royalflush/datatypes/graph.py:118-119 | Agent i is joined to every later agent. The nodes are unchanged. |
| Graph.GraphManager.GenerateComplete | royalflush/datatypes/graph.py:110-119 | The previous graph is discarded. The nodes are exactly the agents' localparts, each with an agent's attributes. The edges are exactly the pairs of positions i < j. |
| Graph.CompleteShape | royalflush/datatypes/graph.py:110-119 | For distinct labels, every two different labels are joined and there is no self-loop. There are n(n-1)/2 edges. |
| Graph.GeneratedTopologyHasNoCoalitions | royalflush/datatypes/graph.py:100-119 | In a generated topology every agent is found under the empty coalition text and under no other. |
| Graph.DistinctAgentNodes | royalflush/datatypes/graph.py:100-119 | When localparts are distinct, each node of a generated topology carries exactly its own agent's attributes. |
| SimilarityFunction.OnesVector | royalflush/similarity/function.py:23-33 | A vector is returned exactly when every layer of the first map is in the second. It has exactly the first map's layers, in their order, each at 1. Otherwise the error names the first missing layer and lists the second map's layers. |
| SimilarityFunction.EuclideanVector | royalflush/similarity/function.py:38-54 | Same coverage condition and error. Each layer of the first map, in order, is at the distance between the two maps' values for it. Layers only in the second map play no part. |
| SimilarityFunction.OnesVectorAsWritten | royalflush/similarity/function.py:28 | As written, the function fails on instantiating `typing.Dict` before any layer is looked at. |
| SimilarityFunction.EuclideanVectorAsWritten | royalflush/similarity/function.py:43 | As written, the same failure. |
| SimilarityFunction.AsWrittenFailsOnCoveredLayers | royalflush/similarity/function.py:23-54 | A layer map compared with itself is covered, so the intended functions return a vector, yet both functions as written fail on it. |

## Left out

**Code outside this model.** These act only as abstract interfaces through parameters; their source is not part of this model.
- The multipart handler's fragmentation and reassembly, and `any_multipart_waiting`.
- The consensus manager.
- The presence state machine and the layer and similarity receiver behaviours.
- How `Consensus` and `SimilarityVector` encode themselves as messages.

**Transport and runtime.**
- SPADE/aioxmpp I/O is not modelled: `behaviour.send`/`receive`, `dispatch` and its futures, `presence.subscribe`/`approve`. Each is recorded as a request, sent message or parameter.
- Async scheduling and timeouts are not modelled.
- `AgentBase.AgentNode.SubscribeToNeighbours`: the try/except that prints a traceback is left out, because the presence service's failures are not modelled.
- Logging is left out: the general log manager, the debug and info lines, and the `on_available`/`on_subscribed` callbacks, which only log. The one way the send's debug line fails, on a message without a sender or recipient, is modelled as the send's failure. Only the PremioFL message-log records are modelled, as a sequence of records.
- `max_message_size` is only passed to the multipart handler, so it is stored and not used.
- Message bodies are always present text. A message without a body makes the length taken for the debug lines at base.py:76 and :90 raise `TypeError`; that failure is not modelled.
- Default arguments are not modelled: every constructor takes its values explicitly. The source's defaults are `max_rounds` 100 and empty `observers`, `neighbours` and `coalitions` for None.
- `AgentBase.AgentNode.GetNonSubscribeBothNeighbours`: returns a plain map. The insertion order of the source's dict is not modelled: pending contacts in roster order, then the "null" neighbours in neighbour order.

**Numerics and randomness.**
- torch tensors, `torch.norm`, `.item()` and `state_dict()` are left out. Layers are opaque values, the Euclidean norm is a distance parameter, and values are `real` rather than floating point.
- `SimilarityFunction.OnesVector`: the source stores the integer 1; the model stores the real 1.0.
- `random.choice` is a nondeterministic choice. Nothing is said about its distribution.

**Similarity vectors.**
- How `SimilarityVector(vector=...)` wraps the computed map is not modelled, nor the default of its reply flag. The similarity functions return the map itself.

**Graph.**
- `generate_small_world` (random Watts–Strogatz), GML import/export and `visualize` (pyvis, random colours) are not modelled: they are randomness and file I/O.
- `Graph.GraphManager.AddAgent`: an address without a localpart is written with the empty localpart, and the model adds a node labelled "". networkx refuses `None` as a node and raises `ValueError` at graph.py:25-27; that error is not modelled.
- `Graph.GraphManager.AddConnection`: the same for either address at graph.py:33. Through them, `Graph.GraphManager.GenerateRing`, `Graph.GraphManager.ConnectRow` and `Graph.GraphManager.GenerateComplete` do not model that error either.
- `Graph.GraphManager.ListConnections`: returns the edge set. The order networkx lists edges in and the orientation of each pair are not modelled.
- `Graph.GraphManager.GenerateRing`: with repeated localparts the node attributes are only stated to be those of some agent with that localpart. `Graph.DistinctAgentNodes` pins them down exactly when localparts are distinct.
- `Graph.GraphManager.GenerateComplete`: the same limitation and remedy as for GenerateRing.

**PremioFL agent.**
- `PremioFl.PremioFlAgent.AssignLayers`: the contract cannot show that the manager's vectors are passed unchanged, because the ACoL strategy ignores them. `Acol.AssignLayersIgnoresSimilarity` states that they cannot matter.
- The PremioFL `stop` method is left out: it shuts the agent down through the runtime, which is not modelled.
- The algorithm and neural-network log managers are left out: they only log.
- `PremioFl.PremioFlAgent.SelectNeighbours`: the contract states the ACoL outcome over the available contacts. That the strategy is handed exactly the list `get_available_neighbours` returns is visible only in the body, because the nondeterministic pick cannot be related to a function of its input.

**Other files.** The launcher, the model factory, the command line, the scripts and the version files are not part of this model.

## Findings

| source | as written | input that shows it | evidently intended | confidence | as-written member | corrected member |
|---|---|---|---|---|---|---|
| royalflush/similarity/function.py:28 | `typing.Dict()` instantiates a typing alias, which raises `TypeError`. The same happens at line 43. | Any two layer maps, e.g. a map compared with itself | Start from an empty dict and fill it layer by layer | high (not executed) | SimilarityFunction.OnesVectorAsWritten, SimilarityFunction.EuclideanVectorAsWritten, SimilarityFunction.AsWrittenFailsOnCoveredLayers | SimilarityFunction.OnesVector, SimilarityFunction.EuclideanVector |
| royalflush/agent/base.py:218 | The neighbour check loops over `self.neighbours`, which is only assigned later by the parent constructor at base.py:129. | Any configuration whose map has as many entries as there are neighbours, e.g. one neighbour `a0@localhost` with coalitions `{0: a0@localhost}` | Loop over the `neighbours` argument | medium (not executed) | AgentBase.CheckCoalitionsAsWritten, AgentBase.AsWrittenRejectsConsistentCoalitions | AgentBase.CheckCoalitions, AgentBase.NewCoalitionAgentNode |
| royalflush/agent/base.py:239 | Coalition values are typed as a single JID (base.py:205) and checked as single JIDs (base.py:219), yet the lookup returns the stored value where a list of JIDs is declared. | Coalition id 0 with coalitions `{0: a0@localhost}` returns `a0@localhost`, not `[a0@localhost]` | Return a one-element list holding the coalition's address | low (not executed) | AgentBase.GetCoalitionNeighboursAsWritten | AgentBase.CoalitionAgentNode.GetCoalitionNeighbours |
