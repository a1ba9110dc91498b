/** Types shared by the two SignalR hubs: the caller's principal, the
    entities the message hub persists, and the sends a hub method emits.
    A hub method's effect on the transport is the list of `Send`s it
    returns, in the order the source issues them. */
module Hub {
  import opened Wrappers

  /** The authenticated principal; `nameIdentifier` is the NameIdentifier
      claim, which carries the username. */
  datatype Principal = Principal(nameIdentifier: Option<string>)

  /** `ClaimsPrincipal.GetUsername`: the NameIdentifier claim, or an
      exception when the token lacks it. */
  function GetUsername(p: Principal): (r: Result<string>)
    ensures r.Success? <==> p.nameIdentifier.Some?
    ensures r.Success? ==> r.value == p.nameIdentifier.value
    ensures r.Failure? ==> r.error == "Cannot get username from token"
  {
    match p.nameIdentifier
    case Some(name) => Success(name)
    case None => Failure("Cannot get username from token")
  }

  /** A connection of one user inside a message group. */
  datatype Connection = Connection(connectionId: string, username: string)

  /** A persisted message group and its member connections. */
  datatype Group = Group(name: string, connections: seq<Connection>)

  /** A chat message; times are abstract instants supplied by the caller. */
  datatype Message = Message(senderUsername: string, recipientUsername: string,
                             content: string, messageSent: int, dateRead: Option<int>)

  /** Who a send is addressed to. */
  datatype Audience = Others | All | Caller | GroupNamed(groupName: string)
                    | Clients(connectionIds: seq<string>)

  /** The client method a send invokes, with its payload. */
  datatype Event =
    | UserIsOnline(username: string)
    | UserIsOffline(username: string)
    | GetOnlineUsers(usernames: seq<string>)
    | UpdatedGroup(group: Group)
    | ReceiveMessageThread(messages: seq<Message>)
    | NewMessage(message: Message)
    | NewMessageReceived(username: string, knownAs: string)

  datatype Send = Send(audience: Audience, event: Event)
}
