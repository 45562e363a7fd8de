/**
  The agent core of `royalflush/agent/base.py`: sending and receiving through the
  multipart layer, presence bookkeeping and the bootstrap decision of a node, and
  the coalition checks of a coalition node.

  The transport's answers (the roster, a received message) and the multipart
  handler's answers (the fragments of a message, whether a message is a fragment,
  the rebuilt message) are parameters: their implementations are not part of
  this model.
*/
module AgentBase {
  import opened Wrappers
  import opened Dicts
  import opened Messaging

  /** The template the presence state machine is added with. */
  const PresenceSyncTemplate := Template(map["rf.presence" := "sync"])

  /** Each message, in order, handed to the transport by the same route. */
  function Deliveries(messages: seq<Message>, route: Route): (r: seq<Sent>)
    ensures |r| == |messages|
    ensures forall i | 0 <= i < |messages| :: r[i] == Sent(messages[i], route)
  {
    seq(|messages|, i requires 0 <= i < |messages| => Sent(messages[i], route))
  }

  /** The subscription requests made to each neighbour's bare address, in order. */
  function SubscriptionRequests(neighbours: seq<Jid>): (r: seq<PresenceRequest>)
    ensures |r| == |neighbours|
    ensures forall i | 0 <= i < |neighbours| :: r[i] == SubscribeTo(Render(neighbours[i].Bare()))
  {
    seq(|neighbours|, i requires 0 <= i < |neighbours| => SubscribeTo(Render(neighbours[i].Bare())))
  }

  /** Why a send stops: the message at this position lacks a sender or a recipient for its log line. */
  datatype SendError = MissingAddress(position: nat)

  /** Both the sender and the recipient are set, as the send's log line needs their bare forms. */
  predicate HasAddresses(m: Message)
  {
    m.sender.Some? && m.to.Some?
  }

  /** What a send hands over: the message itself when the handler made no fragments, otherwise the fragments. */
  function Outgoing(message: Message, fragments: Option<seq<Message>>): (r: seq<Message>)
    ensures fragments.None? ==> r == [message]
    ensures fragments.Some? ==> r == fragments.value
  {
    if fragments.None? then [message] else fragments.value
  }

  /** Position k holds the first message without both addresses. */
  predicate FirstUnaddressedAt(messages: seq<Message>, k: int)
  {
    && 0 <= k < |messages|
    && !HasAddresses(messages[k])
    && forall j | 0 <= j < k :: HasAddresses(messages[j])
  }

  /**
    The transport record `after` a send of `messages` by `route` starting from
    `before`: on success every message was handed over, in order; on failure
    every message up to and including the first unaddressed one was, and no
    later one.
  */
  ghost predicate Dispatched(before: seq<Sent>, after: seq<Sent>, messages: seq<Message>, route: Route,
                             outcome: Outcome<SendError>)
  {
    match outcome
    case Pass =>
      && (forall j | 0 <= j < |messages| :: HasAddresses(messages[j]))
      && after == before + Deliveries(messages, route)
    case Fail(MissingAddress(k)) =>
      && FirstUnaddressedAt(messages, k)
      && after == before + Deliveries(messages[..k + 1], route)
  }

  /** A send succeeds exactly when every message it hands over has both addresses. */
  lemma DispatchedPassIff(before: seq<Sent>, after: seq<Sent>, messages: seq<Message>, route: Route,
                          outcome: Outcome<SendError>)
    requires Dispatched(before, after, messages, route, outcome)
    ensures outcome.Pass? <==> forall j | 0 <= j < |messages| :: HasAddresses(messages[j])
  {
  }

  /**
    The bare addresses of the contacts among `keys` whose stored presence is
    AVAILABLE, in the order of `keys`.
  */
  function AvailableAmong(keys: seq<Jid>, roster: Roster): seq<Jid>
    requires forall k | k in keys :: k in roster.entries
  {
    if keys == [] then []
    else
      var last := keys[|keys| - 1];
      AvailableAmong(keys[..|keys| - 1], roster)
      + (if roster.entries[last].presence == Some(Available) then [last.Bare()] else [])
  }

  /** The available contacts of a roster, in roster order; neighbours or not. */
  function AvailableContacts(roster: Roster): seq<Jid>
  {
    AvailableAmong(roster.order, roster)
  }

  lemma {:induction false} AvailableAmongMembers(keys: seq<Jid>, roster: Roster, x: Jid)
    requires forall k | k in keys :: k in roster.entries
    ensures x in AvailableAmong(keys, roster) <==> x in keys && roster.entries[x].presence == Some(Available)
  {
    if keys != [] {
      var init, last := keys[..|keys| - 1], keys[|keys| - 1];
      AvailableAmongMembers(init, roster, x);
      assert keys == init + [last];
      assert last.Bare() == last;
    }
  }

  /**
    A contact is reported available exactly when it is on the roster with a stored
    presence of type AVAILABLE: a contact without a presence entry is not.
  */
  lemma AvailableContactsMembers(roster: Roster, x: Jid)
    ensures x in AvailableContacts(roster) <==> x in roster.entries && roster.entries[x].presence == Some(Available)
  {
    AvailableAmongMembers(roster.order, roster, x);
  }

  /** Every key of `roster` listed in `keys` is at subscription "both" (Python's `all`). */
  predicate AllBoth(keys: seq<Jid>, roster: Roster)
    requires forall k | k in keys :: k in roster.entries
    ensures AllBoth(keys, roster) <==> forall k | k in keys :: roster.entries[k].subscription == "both"
  {
    keys == [] || (roster.entries[keys[0]].subscription == "both" && AllBoth(keys[1..], roster))
  }

  /** Every address in `jids` has its bare form on the roster (Python's `all`). */
  predicate AllListed(jids: seq<Jid>, roster: Roster)
    ensures AllListed(jids, roster) <==> forall j | j in jids :: j.Bare() in roster.entries
  {
    jids == [] || (jids[0].Bare() in roster.entries && AllListed(jids[1..], roster))
  }

  /** The coalition map names every neighbour and has one entry per neighbour. */
  predicate CoalitionsConsistent(coalitions: map<int, Jid>, neighbours: seq<Jid>)
  {
    |coalitions| == |neighbours| && forall n | n in neighbours :: n in coalitions.Values
  }

  /** Why constructing a coalition node fails. */
  datatype CoalitionError =
    | CoalitionsIncomplete
    | NeighbourNotInCoalitions(neighbour: Jid)
    | NeighboursNotAssigned

  /**
    The error the checks report on a configuration they reject: the length
    mismatch when the counts differ, otherwise the first neighbour that is not
    a coalition value.
  */
  predicate ReportedCoalitionError(error: CoalitionError, coalitions: map<int, Jid>, neighbours: seq<Jid>)
  {
    if |coalitions| != |neighbours| then error == CoalitionsIncomplete
    else exists i | 0 <= i < |neighbours| ::
      && error == NeighbourNotInCoalitions(neighbours[i])
      && neighbours[i] !in coalitions.Values
      && forall j | 0 <= j < i :: neighbours[j] in coalitions.Values
  }

  /**
    The checks of the coalition node's constructor: the number of coalition
    entries must equal the number of neighbours, and each neighbour must be a
    coalition value; the first neighbour that is not is the one reported.
  */
  method CheckCoalitions(coalitions: map<int, Jid>, neighbours: seq<Jid>) returns (outcome: Outcome<CoalitionError>)
    ensures outcome.Pass? <==> CoalitionsConsistent(coalitions, neighbours)
    ensures outcome.Fail? ==> ReportedCoalitionError(outcome.error, coalitions, neighbours)
  {
    if |coalitions| != |neighbours| {
      return Fail(CoalitionsIncomplete);
    }
    for i := 0 to |neighbours|
      invariant forall j | 0 <= j < i :: neighbours[j] in coalitions.Values
    {
      if neighbours[i] !in coalitions.Values {
        return Fail(NeighbourNotInCoalitions(neighbours[i]));
      }
    }
    outcome := Pass;
  }

  /**
    The same checks as the source has them: the neighbour loop reads the agent's
    neighbour field before any constructor has assigned it, which raises once
    the length check has passed.
  */
  function CheckCoalitionsAsWritten(coalitions: map<int, Jid>, neighbours: seq<Jid>): (outcome: Outcome<CoalitionError>)
    ensures outcome.Fail?
  {
    if |coalitions| != |neighbours| then Fail(CoalitionsIncomplete) else Fail(NeighboursNotAssigned)
  }

  /** As written, no coalition node can be built, however consistent its configuration. */
  lemma AsWrittenRejectsConsistentCoalitions(coalitions: map<int, Jid>, neighbours: seq<Jid>)
    requires CoalitionsConsistent(coalitions, neighbours)
    ensures CheckCoalitionsAsWritten(coalitions, neighbours) == Fail(NeighboursNotAssigned)
  {
  }

  /** A map has at most as many distinct values as keys. */
  lemma {:induction false} ValuesCard(m: map<int, Jid>)
    ensures |m.Values| <= |m|
  {
    if |m| > 0 {
      if forall k :: k !in m { assert false; }
      var k :| k in m;
      var rest := m - {k};
      ValuesCard(rest);
      assert m.Values <= rest.Values + {m[k]} by {
        forall v | v in m.Values ensures v in rest.Values + {m[k]} {
          if forall k' | k' in m :: m[k'] != v { assert false; }
          var k' :| k' in m && m[k'] == v;
          if k' != k { assert rest[k'] == v; }
        }
      }
      assert m.Keys == rest.Keys + {k};
    }
  }

  /**
    With distinct neighbours, a configuration that passes the checks maps the
    coalition ids onto exactly the neighbours.
  */
  lemma ConsistentCoalitionsAreNeighbours(coalitions: map<int, Jid>, neighbours: seq<Jid>)
    requires CoalitionsConsistent(coalitions, neighbours)
    requires Distinct(neighbours)
    ensures coalitions.Values == set n | n in neighbours
  {
    var ns := set n | n in neighbours;
    DistinctCard(neighbours);
    ValuesCard(coalitions);
    assert ns <= coalitions.Values;
    assert |coalitions.Values - ns| == |coalitions.Values| - |ns|;
  }

  /**
    With a repeated neighbour, the checks pass although one coalition value is
    not a neighbour at all.
  */
  lemma RepeatedNeighbourAdmitsStranger()
    ensures
      var a, b := Jid("a0", "localhost", None), Jid("a1", "localhost", None);
      CoalitionsConsistent(map[0 := a, 1 := b], [a, a]) && b !in [a, a]
  {
    var a, b := Jid("a0", "localhost", None), Jid("a1", "localhost", None);
    assert (map[0 := a, 1 := b]).Keys == {0, 1};
    assert a in (map[0 := a, 1 := b]).Values by { assert (map[0 := a, 1 := b])[0] == a; }
  }

  /** The report after the first i neighbours: the pending contacts plus those neighbours' bare addresses at "null". */
  ghost predicate ReportSoFar(report: map<Jid, string>, pending: map<Jid, string>, neighbours: seq<Jid>, i: int)
    requires 0 <= i <= |neighbours|
  {
    && report.Keys == pending.Keys + (set k | 0 <= k < i :: neighbours[k].Bare())
    && forall k | k in report :: report[k] == if k in pending then pending[k] else "null"
  }

  lemma ReportStep(report: map<Jid, string>, pending: map<Jid, string>, neighbours: seq<Jid>, i: int)
    requires 0 <= i < |neighbours| && ReportSoFar(report, pending, neighbours, i)
    ensures ReportSoFar(if neighbours[i].Bare() in report then report else report[neighbours[i].Bare() := "null"],
                        pending, neighbours, i + 1)
  {
    assert (set k | 0 <= k < i + 1 :: neighbours[k].Bare())
      == (set k | 0 <= k < i :: neighbours[k].Bare()) + {neighbours[i].Bare()};
  }

  lemma ReportDone(report: map<Jid, string>, roster: Roster, neighbours: seq<Jid>)
    requires ReportSoFar(report, PendingSubscriptions(roster, neighbours), neighbours, |neighbours|)
    ensures report.Keys == set n | n in neighbours :: n.Bare()
    ensures forall k | k in report ::
      report[k] == if k in roster.entries && k in neighbours && roster.entries[k].subscription != "both"
                   then roster.entries[k].subscription else "null"
  {
    BaresAll(neighbours);
  }

  lemma BaresAll(neighbours: seq<Jid>)
    ensures (set k | 0 <= k < |neighbours| :: neighbours[k].Bare()) == set n | n in neighbours :: n.Bare()
  {
    forall n | n in neighbours
      ensures n.Bare() in (set k | 0 <= k < |neighbours| :: neighbours[k].Bare())
    {
      var k :| 0 <= k < |neighbours| && neighbours[k] == n;
    }
  }

  /**
    The contacts that are neighbours and not yet at "both", each with its
    subscription; all of them are neighbours' bare addresses.
  */
  function PendingSubscriptions(roster: Roster, neighbours: seq<Jid>): (m: map<Jid, string>)
    ensures forall j :: j in m <==> j in roster.entries && j in neighbours && roster.entries[j].subscription != "both"
    ensures forall j | j in m :: m[j] == roster.entries[j].subscription
    ensures m.Keys <= set n | n in neighbours :: n.Bare()
  {
    var m := map j | j in roster.entries && j in neighbours && roster.entries[j].subscription != "both"
               :: roster.entries[j].subscription;
    assert m.Keys <= set n | n in neighbours :: n.Bare() by {
      forall j | j in m
        ensures j in set n | n in neighbours :: n.Bare()
      {
        assert j.Bare() == j;
      }
    }
    m
  }

  /** A node of the decentralised learning network (`AgentBase` and `AgentNodeBase`). */
  class AgentNode {
    const jid: Jid
    const maxMessageSize: int
    const observers: seq<Jid>
    const neighbours: seq<Jid>
    const coordinator: Option<Jid>
    /** The behaviours to start once presence coordination is over, with their templates. */
    const postCoordinationBehaviours: seq<Attachment>

    /** Whether the subscribe, subscribed and available callbacks are registered. */
    var presenceHandlersInstalled: bool
    var coordinationFsm: Option<Behaviour>
    /** The behaviours added to the agent, with their templates, in order. */
    var behaviours: seq<Attachment>
    /** Every message handed to the transport, in order. */
    var outbox: seq<Sent>
    /** Every request made to the presence service, in order. */
    var presenceRequests: seq<PresenceRequest>

    constructor (jid: Jid, maxMessageSize: int, observers: seq<Jid>, neighbours: seq<Jid>,
                 coordinator: Option<Jid>, postCoordinationBehaviours: seq<Attachment>)
      ensures this.jid == jid && this.maxMessageSize == maxMessageSize
      ensures this.observers == observers && this.neighbours == neighbours
      ensures this.coordinator == coordinator
      ensures this.postCoordinationBehaviours == postCoordinationBehaviours
      ensures !presenceHandlersInstalled && coordinationFsm == None
      ensures behaviours == [] && outbox == [] && presenceRequests == []
    {
      this.jid := jid;
      this.maxMessageSize := maxMessageSize;
      this.observers := observers;
      this.neighbours := neighbours;
      this.coordinator := coordinator;
      this.postCoordinationBehaviours := postCoordinationBehaviours;
      presenceHandlersInstalled := false;
      coordinationFsm := None;
      behaviours := [];
      outbox := [];
      presenceRequests := [];
    }

    /**
      Sends `message` by `route`. `fragments` is what the multipart handler made of
      it: nothing when it fits in one message, in which case the message itself is
      sent once; otherwise every fragment is sent, in order, and the message itself
      is not. Each message is logged after it is handed over, and the log line
      takes the bare form of its sender and recipient: a message lacking either
      is still handed over, then the send fails and no later message goes out.
    */
    method Send(message: Message, route: Route, fragments: Option<seq<Message>>)
      returns (outcome: Outcome<SendError>)
      modifies this`outbox
      ensures Dispatched(old(outbox), outbox, Outgoing(message, fragments), route, outcome)
      ensures outcome.Pass? <==>
        forall j | 0 <= j < |Outgoing(message, fragments)| :: HasAddresses(Outgoing(message, fragments)[j])
    {
      var messages := Outgoing(message, fragments);
      for i := 0 to |messages|
        invariant outbox == old(outbox) + Deliveries(messages[..i], route)
        invariant forall j | 0 <= j < i :: HasAddresses(messages[j])
      {
        outbox := outbox + [Sent(messages[i], route)];
        if !HasAddresses(messages[i]) {
          assert outbox == old(outbox) + Deliveries(messages[..i + 1], route);
          return Fail(MissingAddress(i));
        }
      }
      assert messages[..|messages|] == messages;
      outcome := Pass;
    }

    /**
      What the receive wrapper returns, given what arrived before the timeout,
      whether the handler classifies it as a fragment, and what the handler
      rebuilt from it. Nothing arrived: nothing. A whole message: itself, with
      both flags false. A fragment: the rebuilt message when reassembly is
      complete, otherwise the fragment itself, flagged as multipart and as
      completed exactly when a message was rebuilt.
    */
    function Receive(arrived: Option<Message>, multipart: bool, rebuilt: Option<Message>): (r: Option<RfMessage>)
      ensures r.None? <==> arrived.None?
      ensures arrived.Some? && !multipart ==> r == Some(RfMessage(arrived.value, false, false))
      ensures arrived.Some? && multipart ==>
        && r.value.isMultipart
        && (r.value.isMultipartCompleted <==> rebuilt.Some?)
        && r.value.message == (if rebuilt.Some? then rebuilt.value else arrived.value)
    {
      match arrived
      case None => None
      case Some(msg) =>
        if multipart then
          var completed := rebuilt.Some?;
          if completed then Some(RfMessage(rebuilt.value, true, completed))
          else Some(RfMessage(msg, true, completed))
        else Some(RfMessage(msg, false, false))
    }

    /** Every inbound subscription request is approved. */
    method OnSubscribe(from: Jid)
      modifies this`presenceRequests
      ensures presenceRequests == old(presenceRequests) + [Approve(from)]
    {
      presenceRequests := presenceRequests + [Approve(from)];
    }

    /**
      Registers the presence callbacks, then either attaches the presence state
      machine for the coordinator, matching "rf.presence" = "sync" messages and
      starting nothing else, or, without a coordinator, adds every
      post-coordination behaviour in order.
    */
    method Setup()
      modifies this`presenceHandlersInstalled, this`coordinationFsm, this`behaviours
      ensures presenceHandlersInstalled
      ensures coordinator.Some? ==>
        && coordinationFsm == Some(PresenceNodeFsm(coordinator.value))
        && behaviours == old(behaviours) + [Attachment(PresenceNodeFsm(coordinator.value), Some(PresenceSyncTemplate))]
      ensures coordinator.None? ==>
        && coordinationFsm == old(coordinationFsm)
        && behaviours == old(behaviours) + postCoordinationBehaviours
    {
      presenceHandlersInstalled := true;
      if coordinator.Some? {
        var fsm := PresenceNodeFsm(coordinator.value);
        coordinationFsm := Some(fsm);
        behaviours := behaviours + [Attachment(fsm, Some(PresenceSyncTemplate))];
      } else {
        for i := 0 to |postCoordinationBehaviours|
          invariant behaviours == old(behaviours) + postCoordinationBehaviours[..i]
          invariant presenceHandlersInstalled && coordinationFsm == old(coordinationFsm)
        {
          behaviours := behaviours + [postCoordinationBehaviours[i]];
        }
        assert postCoordinationBehaviours[..|postCoordinationBehaviours|] == postCoordinationBehaviours;
      }
    }

    /** Requests a subscription to each neighbour's bare address, in order. */
    method SubscribeToNeighbours()
      modifies this`presenceRequests
      ensures presenceRequests == old(presenceRequests) + SubscriptionRequests(neighbours)
    {
      for i := 0 to |neighbours|
        invariant presenceRequests == old(presenceRequests) + SubscriptionRequests(neighbours[..i])
      {
        presenceRequests := presenceRequests + [SubscribeTo(Render(neighbours[i].Bare()))];
      }
      assert neighbours[..|neighbours|] == neighbours;
    }

    /**
      For every neighbour's bare address: its subscription when that contact is
      itself listed as a neighbour and is not yet at "both", otherwise "null"
      (so a neighbour already at "both" reports "null" too).
    */
    method GetNonSubscribeBothNeighbours(roster: Roster) returns (report: map<Jid, string>)
      ensures report.Keys == set n | n in neighbours :: n.Bare()
      ensures forall k | k in report ::
        report[k] == if k in roster.entries && k in neighbours && roster.entries[k].subscription != "both"
                     then roster.entries[k].subscription else "null"
    {
      var pending := PendingSubscriptions(roster, neighbours);
      report := pending;
      for i := 0 to |neighbours|
        invariant ReportSoFar(report, pending, neighbours, i)
      {
        ReportStep(report, pending, neighbours, i);
        if neighbours[i].Bare() !in report {
          report := report[neighbours[i].Bare() := "null"];
        }
      }
      ReportDone(report, roster, neighbours);
    }

    /**
      Presence is complete when every neighbour's bare address is a contact and
      every contact, neighbour or not, is at subscription "both".
    */
    predicate IsPresenceCompleted(roster: Roster)
      ensures IsPresenceCompleted(roster) <==>
        && (forall n | n in neighbours :: n.Bare() in roster.entries)
        && (forall k | k in roster.entries :: roster.entries[k].subscription == "both")
    {
      AllListed(neighbours, roster) && AllBoth(roster.order, roster)
    }

    /** The available contacts, in roster order. */
    method GetAvailableNeighbours(roster: Roster) returns (available: seq<Jid>)
      ensures available == AvailableContacts(roster)
    {
      available := [];
      for i := 0 to |roster.order|
        invariant available == AvailableAmong(roster.order[..i], roster)
      {
        var agent := roster.order[i];
        var info := roster.entries[agent];
        assert roster.order[..i + 1][..i] == roster.order[..i];
        if info.presence.Some? {
          if info.presence.value == Available {
            available := available + [agent.Bare()];
          }
        }
      }
      assert roster.order[..|roster.order|] == roster.order;
    }
  }

  /** A node that belongs to a coalition (`CoalitionAgentNodeBase`). */
  class CoalitionAgentNode {
    const node: AgentNode
    const coalitionId: int
    const coalitions: map<int, Jid>

    /** The constructor's checks passed. */
    ghost predicate Valid()
    {
      CoalitionsConsistent(coalitions, node.neighbours)
    }

    constructor (node: AgentNode, coalitionId: int, coalitions: map<int, Jid>)
      requires CoalitionsConsistent(coalitions, node.neighbours)
      ensures this.node == node && this.coalitionId == coalitionId && this.coalitions == coalitions
      ensures Valid()
    {
      this.node := node;
      this.coalitionId := coalitionId;
      this.coalitions := coalitions;
    }

    /** The neighbour of this node's own coalition: none when the coalition id is not a key. */
    function GetCoalitionNeighbours(): (r: seq<Jid>)
      ensures r == [] <==> coalitionId !in coalitions
      ensures coalitionId in coalitions ==> r == [coalitions[coalitionId]]
    {
      if coalitionId !in coalitions then [] else [coalitions[coalitionId]]
    }
  }

  /** With distinct neighbours, the coalition neighbour of a constructed node is one of its neighbours. */
  lemma CoalitionNeighbourIsNeighbour(c: CoalitionAgentNode)
    requires c.Valid()
    requires Distinct(c.node.neighbours)
    ensures forall n | n in c.GetCoalitionNeighbours() :: n in c.node.neighbours
  {
    ConsistentCoalitionsAreNeighbours(c.coalitions, c.node.neighbours);
    if c.coalitionId in c.coalitions {
      assert c.coalitions[c.coalitionId] in c.coalitions.Values;
    }
  }

  /** The value the coalition lookup hands back as written: a list, or the stored single address. */
  datatype Returned = ReturnedList(items: seq<Jid>) | ReturnedJid(jid: Jid)

  /** The coalition lookup as written: for a known id it returns the stored address itself, not a list. */
  function GetCoalitionNeighboursAsWritten(coalitionId: int, coalitions: map<int, Jid>): (r: Returned)
    ensures coalitionId in coalitions ==> r == ReturnedJid(coalitions[coalitionId]) && !r.ReturnedList?
    ensures coalitionId !in coalitions ==> r == ReturnedList([])
  {
    if coalitionId !in coalitions then ReturnedList([]) else ReturnedJid(coalitions[coalitionId])
  }

  /**
    Constructs a coalition node, or fails as the constructor's checks do; on
    failure no node is created.
  */
  method NewCoalitionAgentNode(jid: Jid, maxMessageSize: int, coalitionId: int, observers: seq<Jid>,
                               neighbours: seq<Jid>, coalitions: map<int, Jid>, coordinator: Option<Jid>,
                               postCoordinationBehaviours: seq<Attachment>)
    returns (r: Result<CoalitionAgentNode, CoalitionError>)
    ensures r.Success? <==> CoalitionsConsistent(coalitions, neighbours)
    ensures r.Failure? ==> ReportedCoalitionError(r.error, coalitions, neighbours)
    ensures r.Success? ==>
      && fresh(r.value) && fresh(r.value.node) && r.value.Valid()
      && r.value.coalitionId == coalitionId && r.value.coalitions == coalitions
      && r.value.node.jid == jid && r.value.node.maxMessageSize == maxMessageSize
      && r.value.node.observers == observers && r.value.node.neighbours == neighbours
      && r.value.node.coordinator == coordinator
      && r.value.node.postCoordinationBehaviours == postCoordinationBehaviours
      && !r.value.node.presenceHandlersInstalled && r.value.node.coordinationFsm == None
      && r.value.node.behaviours == [] && r.value.node.outbox == [] && r.value.node.presenceRequests == []
  {
    var outcome := CheckCoalitions(coalitions, neighbours);
    if outcome.Fail? {
      return Failure(outcome.error);
    }
    var node := new AgentNode(jid, maxMessageSize, observers, neighbours, coordinator, postCoordinationBehaviours);
    var c := new CoalitionAgentNode(node, coalitionId, coalitions);
    r := Success(c);
  }
}
