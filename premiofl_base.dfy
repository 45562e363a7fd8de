/**
  The PremioFL agent of `royalflush/agent/premiofl/base.py`: its round
  bookkeeping, the seam through which a strategy picks neighbours and layers,
  and the addressing and logging of the layer and similarity messages.

  Dafny has no subclassing here, so the agent holds its node, and the abstract
  selection and assignment hooks are bound to the one concrete strategy, ACoL.
  The model manager and the similarity manager are represented only by the
  state the agent reads from them; how `Consensus` and `SimilarityVector`
  encode themselves as messages is a parameter.
*/
module PremioFl {
  import opened Wrappers
  import opened Dicts
  import opened Messaging
  import opened AgentBase
  import Acol

  const LayersTemplate := Template(map["rf.conversation" := "layers"])
  const SimilarityTemplate := Template(map["rf.conversation" := "similarity"])

  /**
    What the agent starts after coordination: its state machine for every
    message, then the layer receiver and the similarity receiver, each for its
    own conversation.
  */
  const PostCoordinationBehaviours: seq<Attachment> := [
    Attachment(PremioFsm, None),
    Attachment(LayerReceiver, Some(LayersTemplate)),
    Attachment(SimilarityReceiver, Some(SimilarityTemplate))
  ]

  /** A per-layer similarity vector, and whether its sender wants one back. */
  datatype SimilarityVector = SimilarityVector(vector: Dict<string, real>, requestReply: bool)

  /** One contribution to a round: layers, their sender, and whether the layers of the receiver are wanted back. */
  datatype Consensus<T> = Consensus(layers: Dict<string, T>, sender: Jid, requestReply: bool)

  /** One line of the message log. */
  datatype LogRecord = LogRecord(
    currentRound: int,
    sender: Option<Jid>,
    to: Option<Jid>,
    msgType: string,
    size: nat,
    thread: Option<string>)

  /** The encoded message, sent from `from`'s bare address to `to`'s, with the given thread and metadata. */
  function Addressed(encoded: Message, from: Jid, to: Jid, thread: Option<string>,
                     metadata: Option<map<string, string>>): (m: Message)
    ensures m.sender == Some(from.Bare()) && m.to == Some(to.Bare())
    ensures m.thread == thread && m.metadata == metadata && m.body == encoded.body
  {
    encoded.(sender := Some(from.Bare()), to := Some(to.Bare()), thread := thread, metadata := metadata)
  }

  /**
    The round limit: never reached without a maximum, otherwise reached once
    the current round is strictly beyond it.
  */
  predicate RoundLimitReached(maxRounds: Option<int>, currentRound: int)
  {
    maxRounds.Some? && currentRound > maxRounds.value
  }

  /** Once the round limit is reached it stays reached as the round grows. */
  lemma RoundLimitMonotone(maxRounds: Option<int>, r1: int, r2: int)
    requires r1 <= r2 && RoundLimitReached(maxRounds, r1)
    ensures RoundLimitReached(maxRounds, r2)
  {
  }

  /** The limit itself is still a round to run; only the one after it is beyond. */
  lemma RoundLimitIsStrict(maxRounds: int)
    ensures !RoundLimitReached(Some(maxRounds), maxRounds)
    ensures RoundLimitReached(Some(maxRounds), maxRounds + 1)
    ensures forall r :: !RoundLimitReached(None, r)
  {
  }

  /** The similarity log type the tag builds: "-REQREPLY" is appended exactly when a reply is requested. */
  lemma SimilarityLogType(requestReply: bool)
    ensures "SEND" + ("-SIMILARITY" + (if requestReply then "-REQREPLY" else ""))
            == if requestReply then "SEND-SIMILARITY-REQREPLY" else "SEND-SIMILARITY"
  {
  }

  /** The layers log type the tag builds, likewise. */
  lemma LayersLogType(requestReply: bool)
    ensures "SEND" + ("-LAYERS" + (if requestReply then "-REQREPLY" else ""))
            == if requestReply then "SEND-LAYERS-REQREPLY" else "SEND-LAYERS"
  {
  }

  /** The state of the model manager that the agent reads: the model's state dictionary. */
  class ModelManager<T> {
    var stateDict: Dict<string, T>

    constructor (stateDict: Dict<string, T>)
      ensures this.stateDict == stateDict
    {
      this.stateDict := stateDict;
    }
  }

  /** The state of the similarity manager the agent reads: its own vector and the neighbours' vectors. */
  class SimilarityManager {
    var ownVector: Option<SimilarityVector>
    var vectors: map<Jid, SimilarityVector>

    constructor ()
      ensures ownVector == None && vectors == map[]
    {
      ownVector := None;
      vectors := map[];
    }
  }

  class PremioFlAgent<T> {
    const node: AgentNode
    const modelManager: ModelManager<T>
    const similarityManager: SimilarityManager
    /** No maximum means rounds without end. */
    const maxRounds: Option<int>
    var currentRound: int
    /** The queue of received contributions, oldest first. */
    var consensusTransmissions: seq<Consensus<T>>
    /** What the message logger has recorded, in order. */
    var messageLog: seq<LogRecord>

    /** A fresh agent is at round 0 with nothing queued, and its node holds the three post-coordination behaviours. */
    constructor (jid: Jid, maxMessageSize: int, modelManager: ModelManager<T>,
                 similarityManager: SimilarityManager, observers: seq<Jid>, neighbours: seq<Jid>,
                 coordinator: Option<Jid>, maxRounds: Option<int>)
      ensures fresh(node)
      ensures node.jid == jid && node.maxMessageSize == maxMessageSize
      ensures node.observers == observers && node.neighbours == neighbours && node.coordinator == coordinator
      ensures node.postCoordinationBehaviours == PostCoordinationBehaviours
      ensures !node.presenceHandlersInstalled && node.coordinationFsm == None
      ensures node.behaviours == [] && node.outbox == [] && node.presenceRequests == []
      ensures this.modelManager == modelManager && this.similarityManager == similarityManager
      ensures this.maxRounds == maxRounds
      ensures currentRound == 0 && consensusTransmissions == [] && messageLog == []
    {
      this.modelManager := modelManager;
      this.similarityManager := similarityManager;
      this.maxRounds := maxRounds;
      currentRound := 0;
      consensusTransmissions := [];
      messageLog := [];
      node := new AgentNode(jid, maxMessageSize, observers, neighbours, coordinator, PostCoordinationBehaviours);
    }

    /** Never without a maximum; with one, exactly once the current round is strictly beyond it. */
    predicate AreMaxIterationsReached()
      reads this
      ensures maxRounds.None? ==> !AreMaxIterationsReached()
      ensures maxRounds.Some? ==> (AreMaxIterationsReached() <==> currentRound > maxRounds.value)
    {
      RoundLimitReached(maxRounds, currentRound)
    }

    /**
      The strategy's pick among exactly the available contacts: nobody when
      none is available, otherwise one contact whose presence is AVAILABLE.
    */
    method SelectNeighbours(roster: Roster) returns (selected: seq<Jid>)
      ensures selected == [] <==> AvailableContacts(roster) == []
      ensures selected != [] ==> |selected| == 1 && selected[0] in AvailableContacts(roster)
      ensures forall n | n in selected :: n in roster.entries && roster.entries[n].presence == Some(Available)
    {
      var available := node.GetAvailableNeighbours(roster);
      selected := Acol.SelectNeighbours(available);
      forall n | n in selected
        ensures n in roster.entries && roster.entries[n].presence == Some(Available)
      {
        AvailableContactsMembers(roster, n);
      }
    }

    /**
      The strategy's assignment, fed with the similarity manager's own vector
      and all its neighbour vectors: every selected neighbour gets the model's
      full state dictionary.
    */
    function AssignLayers(selected: seq<Jid>): (assignment: map<Jid, Dict<string, T>>)
      reads similarityManager, modelManager
      ensures assignment.Keys == set n | n in selected
      ensures forall n | n in assignment :: assignment[n] == modelManager.stateDict
    {
      Acol.AssignLayers(similarityManager.ownVector, similarityManager.vectors, selected, modelManager.stateDict)
    }

    /**
      Sends through the node and, once the send has succeeded, logs it under
      "SEND" followed by the tag; a failed send logs nothing.
    */
    method SendMessage(message: Message, route: Route, logTag: string, fragments: Option<seq<Message>>)
      returns (outcome: Outcome<SendError>)
      modifies this`messageLog, node`outbox
      ensures Dispatched(old(node.outbox), node.outbox, Outgoing(message, fragments), route, outcome)
      ensures messageLog == old(messageLog) + if outcome.Fail? then [] else
        [LogRecord(currentRound, message.sender, message.to, "SEND" + logTag, |message.body|, message.thread)]
    {
      outcome := node.Send(message, route, fragments);
      if outcome.Pass? {
        messageLog := messageLog + [LogRecord(currentRound, message.sender, message.to, "SEND" + logTag, |message.body|, message.thread)];
      }
    }

    /**
      Sends the vector to the neighbour, from this agent's bare address to the
      neighbour's, with the given thread and metadata, logged as
      "SEND-SIMILARITY-REQREPLY" when the vector asks for a reply and as
      "SEND-SIMILARITY" otherwise, once the send has succeeded. `fragments` is
      the multipart handler's split; the message itself carries both addresses,
      so only an unaddressed fragment can make the send fail.
    */
    method SendSimilarityVector(neighbour: Jid, vector: SimilarityVector, thread: Option<string>,
                                metadata: Option<map<string, string>>, route: Route,
                                toMessage: SimilarityVector -> Message, fragments: Option<seq<Message>>)
      returns (outcome: Outcome<SendError>)
      modifies this`messageLog, node`outbox
      ensures
        var msg := Addressed(toMessage(vector), node.jid, neighbour, thread, metadata);
        && Dispatched(old(node.outbox), node.outbox, Outgoing(msg, fragments), route, outcome)
        && messageLog == old(messageLog) + if outcome.Fail? then [] else [LogRecord(
             currentRound, Some(node.jid.Bare()), Some(neighbour.Bare()),
             if vector.requestReply then "SEND-SIMILARITY-REQREPLY" else "SEND-SIMILARITY",
             |msg.body|, thread)]
      ensures fragments.None? ==> outcome.Pass?
    {
      var msg := toMessage(vector);
      msg := msg.(sender := Some(node.jid.Bare()));
      msg := msg.(to := Some(neighbour.Bare()));
      msg := msg.(thread := thread);
      msg := msg.(metadata := metadata);
      var tag := if vector.requestReply then "-REQREPLY" else "";
      SimilarityLogType(vector.requestReply);
      outcome := SendMessage(msg, route, "-SIMILARITY" + tag, fragments);
      DispatchedPassIff(old(node.outbox), node.outbox, Outgoing(msg, fragments), route, outcome);
    }

    /**
      Sends the layers to the neighbour as a contribution from this agent,
      addressed and logged like the similarity vector: "SEND-LAYERS-REQREPLY"
      when a reply is requested, "SEND-LAYERS" otherwise, with the body length
      as the logged size; again only an unaddressed fragment makes it fail.
    */
    method SendLocalLayers(neighbour: Jid, requestReply: bool, layers: Dict<string, T>,
                           thread: Option<string>, metadata: Option<map<string, string>>, route: Route,
                           toMessage: Consensus<T> -> Message, fragments: Option<seq<Message>>)
      returns (outcome: Outcome<SendError>)
      modifies this`messageLog, node`outbox
      ensures
        var msg := Addressed(toMessage(Consensus(layers, node.jid, requestReply)), node.jid, neighbour, thread, metadata);
        && Dispatched(old(node.outbox), node.outbox, Outgoing(msg, fragments), route, outcome)
        && messageLog == old(messageLog) + if outcome.Fail? then [] else [LogRecord(
             currentRound, Some(node.jid.Bare()), Some(neighbour.Bare()),
             if requestReply then "SEND-LAYERS-REQREPLY" else "SEND-LAYERS",
             |msg.body|, thread)]
      ensures fragments.None? ==> outcome.Pass?
    {
      var ct := Consensus(layers, node.jid, requestReply);
      var msg := toMessage(ct);
      msg := msg.(sender := Some(node.jid.Bare()));
      msg := msg.(to := Some(neighbour.Bare()));
      msg := msg.(thread := thread);
      msg := msg.(metadata := metadata);
      var tag := if requestReply then "-REQREPLY" else "";
      LayersLogType(requestReply);
      outcome := SendMessage(msg, route, "-LAYERS" + tag, fragments);
      DispatchedPassIff(old(node.outbox), node.outbox, Outgoing(msg, fragments), route, outcome);
    }
  }
}
