/** The client's view of one conversation: how the message service folds hub
    events into the thread it shows, and how it stops its hub connection.
    The clock is a parameter `now`. */
module MessageThread {
  import opened Wrappers
  import opened Hub

  /** Marks every unread message read at `now`; read messages keep their
      original time. */
  function MarkAllRead(thread: seq<Message>, now: int): (r: seq<Message>)
    ensures |r| == |thread|
    ensures forall i :: 0 <= i < |r| ==>
              && r[i].senderUsername == thread[i].senderUsername
              && r[i].recipientUsername == thread[i].recipientUsername
              && r[i].content == thread[i].content
              && r[i].messageSent == thread[i].messageSent
              && (thread[i].dateRead.Some? ==> r[i].dateRead == thread[i].dateRead)
              && (thread[i].dateRead.None? ==> r[i].dateRead == Some(now))
  {
    if |thread| == 0 then []
    else
      var m := thread[0];
      var m' := if m.dateRead.None? then m.(dateRead := Some(now)) else m;
      [m'] + MarkAllRead(thread[1..], now)
  }

  predicate AllRead(thread: seq<Message>) {
    forall i :: 0 <= i < |thread| ==> thread[i].dateRead.Some?
  }

  /** After marking, nothing is unread; marking again changes nothing, even
      at a later time. */
  lemma MarkAllReadIsIdempotent(thread: seq<Message>, now: int, later: int)
    ensures AllRead(MarkAllRead(thread, now))
    ensures MarkAllRead(MarkAllRead(thread, now), later) == MarkAllRead(thread, now)
  {
    var once := MarkAllRead(thread, now);
    var twice := MarkAllRead(once, later);
    assert |twice| == |once|;
    forall i | 0 <= i < |once| ensures twice[i] == once[i] {
    }
  }

  /** A thread with nothing unread is left as it is. */
  lemma MarkAllReadKeepsReadThread(thread: seq<Message>, now: int)
    requires AllRead(thread)
    ensures MarkAllRead(thread, now) == thread
  {
    var r := MarkAllRead(thread, now);
    forall i | 0 <= i < |thread| ensures r[i] == thread[i] {
    }
  }

  /** The other participant has a connection in the group. */
  predicate OtherIsPresent(group: Group, otherUsername: string) {
    exists k :: 0 <= k < |group.connections| && group.connections[k].username == otherUsername
  }

  /** The handlers `createHubConnection` registers: a thread replaces the
      view, a new message is appended, and a group update in which the other
      participant is present marks the view read. Events the message
      service does not listen for leave it unchanged. */
  function OnEvent(thread: seq<Message>, event: Event, otherUsername: string, now: int): (r: seq<Message>)
    ensures event.ReceiveMessageThread? ==> r == event.messages
    ensures event.NewMessage? ==> |r| == |thread| + 1 && r[..|thread|] == thread && r[|thread|] == event.message
    ensures event.UpdatedGroup? && OtherIsPresent(event.group, otherUsername) ==> r == MarkAllRead(thread, now) && AllRead(r)
    ensures event.UpdatedGroup? && !OtherIsPresent(event.group, otherUsername) ==> r == thread
    ensures !event.ReceiveMessageThread? && !event.NewMessage? && !event.UpdatedGroup? ==> r == thread
  {
    match event
    case ReceiveMessageThread(messages) => messages
    case NewMessage(message) =>
      assert (thread + [message])[..|thread|] == thread;
      thread + [message]
    case UpdatedGroup(group) =>
      if OtherIsPresent(group, otherUsername) then
        MarkAllReadIsIdempotent(thread, now, now);
        MarkAllRead(thread, now)
      else thread
    case _ => thread
  }

  /** Receiving the same group update twice has the effect of receiving it
      once. */
  lemma UpdatedGroupIsIdempotent(thread: seq<Message>, group: Group, otherUsername: string, now: int, later: int)
    ensures var once := OnEvent(thread, UpdatedGroup(group), otherUsername, now);
            OnEvent(once, UpdatedGroup(group), otherUsername, later) == once
  {
    MarkAllReadIsIdempotent(thread, now, later);
  }

  /** A message that arrives while the other participant is in the group is
      already read by the server, so a later group update leaves it as it
      came. */
  lemma NewMessageKeepsServerReadTime(thread: seq<Message>, message: Message, group: Group, otherUsername: string, now: int)
    requires message.dateRead.Some?
    ensures var r := OnEvent(OnEvent(thread, NewMessage(message), otherUsername, now), UpdatedGroup(group), otherUsername, now);
            r[|thread|] == message
  {
  }

  /** The states of a SignalR hub connection. */
  datatype HubConnectionState = Disconnected | Connecting | Connected | Disconnecting | Reconnecting

  /** `stopHubConnection`: issues a stop only when there is a connection and
      it is connected; a stop moves it to `Disconnecting`. */
  function StopHubConnection(connection: Option<HubConnectionState>): (r: (Option<HubConnectionState>, bool))
    ensures r.1 <==> connection == Some(Connected)
    ensures r.1 ==> r.0 == Some(Disconnecting)
    ensures !r.1 ==> r.0 == connection
  {
    if connection == Some(Connected) then (Some(Disconnecting), true) else (connection, false)
  }

  /** Calling stop twice issues at most one stop. */
  lemma StopTwiceStopsOnce(connection: Option<HubConnectionState>)
    ensures var first := StopHubConnection(connection);
            !StopHubConnection(first.0).1
  {
  }
}
