/**
  The values the agents exchange with the XMPP transport (aioxmpp and SPADE):
  addresses, the presence roster, messages, behaviours and their templates.
  Only the parts the agent code reads or writes are represented.
*/
module Messaging {
  import opened Wrappers
  import opened Dicts

  /** `localpart@domain/resource`, with an absent resource for a bare address. */
  datatype Jid = Jid(localpart: string, domain: string, resource: Option<string>) {

    /** `JID.bare()`: the same address without its resource. */
    function Bare(): (b: Jid)
      ensures b.resource.None? && b.localpart == localpart && b.domain == domain
    {
      Jid(localpart, domain, None)
    }
  }

  /** `str(jid)`: empty parts are left out together with their separator. */
  function Render(j: Jid): string
  {
    (if j.localpart != "" then j.localpart + "@" else "")
    + j.domain
    + (if j.resource.Some? && j.resource.value != "" then "/" + j.resource.value else "")
  }

  /** aioxmpp's `PresenceType`. */
  datatype PresenceType =
    | Available | Unavailable | Error | Probe
    | Subscribe | Subscribed | Unsubscribe | Unsubscribed

  /**
    One roster entry: the subscription state ("none", "to", "from", "both", ...)
    and, once a presence stanza has been seen, its type.
  */
  datatype ContactInfo = ContactInfo(subscription: string, presence: Option<PresenceType>)

  /**
    What `presence.get_contacts()` answers: contacts keyed by bare address,
    in the order the roster lists them.
  */
  type Roster = r: Dict<Jid, ContactInfo> | forall k | k in r.entries :: k.resource.None?
    witness RawDict([], map[])

  /** A SPADE message; sender, recipient, thread and metadata may each be unset. */
  datatype Message = Message(
    sender: Option<Jid>,
    to: Option<Jid>,
    body: string,
    thread: Option<string>,
    metadata: Option<map<string, string>>)

  /** A message as the agent's receive wrapper hands it on, with its multipart flags. */
  datatype RfMessage = RfMessage(message: Message, isMultipart: bool, isMultipartCompleted: bool)

  /** The behaviours the agents attach; `Custom` stands for one a caller supplies. */
  datatype Behaviour =
    | PresenceNodeFsm(coordinator: Jid)
    | PremioFsm
    | LayerReceiver
    | SimilarityReceiver
    | Custom(name: string)

  /** A SPADE template that matches messages carrying the given metadata. */
  datatype Template = Template(metadata: map<string, string>)

  /** A behaviour together with the template it is added with (none: it sees every message). */
  datatype Attachment = Attachment(behaviour: Behaviour, template: Option<Template>)

  /** How a message reaches the transport: the agent's own dispatch, or a behaviour's send. */
  datatype Route = Dispatch | ViaBehaviour(behaviour: Behaviour)

  /** A message handed to the transport. */
  datatype Sent = Sent(message: Message, route: Route)

  /** Requests made to the presence service. */
  datatype PresenceRequest = Approve(jid: Jid) | SubscribeTo(address: string)
}
