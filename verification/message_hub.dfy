/** `MessageHub`: canonical group names, joining and leaving a persisted
    message group, and the read-receipt / notification decision of
    `SendMessage`. The group store is the groups table as a sequence; every
    save is an oracle result `saveOk`. */
module MessageHub {
  import opened Wrappers
  import opened Hub
  import Ordinal
  import PresenceTracker
  import UserRepository
  import opened Entities

  // ---- group names ----

  /** `GetGroupName`: the ordinal-smaller name, a dash, the larger one. */
  function GetGroupName(caller: string, other: string): (name: string)
    ensures Ordinal.LessOrEqual(caller, other) ==> name == caller + "-" + other
    ensures Ordinal.LessOrEqual(other, caller) ==> name == other + "-" + caller
  {
    Ordinal.LessAsymmetric(caller, other);
    if Ordinal.Less(caller, other) then caller + "-" + other else other + "-" + caller
  }

  /** Both participants compute the same group, whoever calls. */
  lemma GroupNameSymmetric(a: string, b: string)
    ensures GetGroupName(a, b) == GetGroupName(b, a)
  {
    Ordinal.LessTotal(a, b);
    Ordinal.LessAsymmetric(a, b);
  }

  /** The name is the ordinally smaller user, a dash, then the larger one;
      a user paired with themself gets `a-a`. */
  lemma GroupNameOrdersParticipants(a: string, b: string)
    ensures Ordinal.LessOrEqual(a, b) ==> GetGroupName(a, b) == a + "-" + b
    ensures Ordinal.LessOrEqual(b, a) ==> GetGroupName(a, b) == b + "-" + a
    ensures GetGroupName(a, a) == a + "-" + a
  {
    Ordinal.LessAsymmetric(a, b);
    Ordinal.LessIrreflexive(a);
  }

  /** Usernames that contain the separator can make two different pairs
      share a group: `("a-b", "c")` and `("a", "b-c")` both map to `a-b-c`. */
  lemma GroupNamesCanCollide()
    ensures GetGroupName("a-b", "c") == GetGroupName("a", "b-c") == "a-b-c"
  {
    assert Ordinal.Less("a-b", "c");
    assert Ordinal.Less("a", "b-c");
  }

  predicate NoSeparator(s: string) {
    forall i :: 0 <= i < |s| ==> s[i] != '-'
  }

  /** Without the separator in usernames a joined name splits back into its
      two parts. */
  lemma {:induction false} JoinedNamesSplitUniquely(a: string, b: string, c: string, d: string)
    requires NoSeparator(a) && NoSeparator(c)
    requires a + "-" + b == c + "-" + d
    ensures a == c && b == d
  {
    var x := a + "-" + b;
    assert forall i :: 0 <= i < |a| ==> x[i] == a[i];
    assert forall i :: 0 <= i < |c| ==> x[i] == c[i];
    assert x[|a|] == '-' && x[|c|] == '-';
    if |a| < |c| {
      assert false;
    } else if |c| < |a| {
      assert false;
    } else {
      assert a == x[..|a|] == c;
      assert b == x[|a| + 1..] == d;
    }
  }

  /** Without the separator in usernames, two pairs share a group exactly
      when they are the same unordered pair. */
  lemma GroupNameIdentifiesPair(a: string, b: string, c: string, d: string)
    requires NoSeparator(a) && NoSeparator(b) && NoSeparator(c) && NoSeparator(d)
    ensures GetGroupName(a, b) == GetGroupName(c, d) <==> (a == c && b == d) || (a == d && b == c)
  {
    if GetGroupName(a, b) == GetGroupName(c, d) {
      var lo1, hi1 := if Ordinal.Less(a, b) then a else b, if Ordinal.Less(a, b) then b else a;
      var lo2, hi2 := if Ordinal.Less(c, d) then c else d, if Ordinal.Less(c, d) then d else c;
      JoinedNamesSplitUniquely(lo1, hi1, lo2, hi2);
    } else {
      GroupNameSymmetric(a, b);
    }
  }

  // ---- the group store ----

  /** Group names are keys, and a connection id is a key of the connections
      table, so it sits in at most one group. */
  predicate ValidStore(store: seq<Group>) {
    && (forall i, j :: 0 <= i < j < |store| ==> store[i].name != store[j].name)
    && (forall i, j, k, l :: 0 <= i < |store| && 0 <= j < |store| && 0 <= k < |store[i].connections|
          && 0 <= l < |store[j].connections| && (i, k) != (j, l)
          ==> store[i].connections[k].connectionId != store[j].connections[l].connectionId)
  }

  predicate HasConnectionId(g: Group, id: string) {
    exists k :: 0 <= k < |g.connections| && g.connections[k].connectionId == id
  }

  /** Index of the group named `name`, if any (`GetMessageGroup`). */
  function FindGroup(store: seq<Group>, name: string): (r: Option<nat>)
    ensures r.None? <==> forall i :: 0 <= i < |store| ==> store[i].name != name
    ensures r.Some? ==> r.value < |store| && store[r.value].name == name
                        && forall i :: 0 <= i < r.value ==> store[i].name != name
  {
    if |store| == 0 then None
    else if store[0].name == name then Some(0)
    else
      match FindGroup(store[1..], name)
      case None => None
      case Some(i) => Some(i + 1)
  }

  /** Index of the group holding connection `id`, if any
      (`GetGroupForConnection`). */
  function FindGroupForConnection(store: seq<Group>, id: string): (r: Option<nat>)
    ensures r.None? <==> forall i :: 0 <= i < |store| ==> !HasConnectionId(store[i], id)
    ensures r.Some? ==> r.value < |store| && HasConnectionId(store[r.value], id)
  {
    if |store| == 0 then None
    else if HasConnectionId(store[0], id) then Some(0)
    else
      match FindGroupForConnection(store[1..], id)
      case None => None
      case Some(i) => Some(i + 1)
  }

  function GetMessageGroup(store: seq<Group>, name: string): (r: Option<Group>)
    ensures r.Some? <==> exists i :: 0 <= i < |store| && store[i].name == name
    ensures r.Some? ==> r.value in store && r.value.name == name
  {
    match FindGroup(store, name)
    case None => None
    case Some(i) => Some(store[i])
  }

  /** Joining: the stored and returned group. */
  datatype Joined = Joined(store: seq<Group>, group: Group)

  /** `AddToGroup`: loads the named group or creates it, appends the
      connection and saves; a failed save raises. */
  function AddToGroup(store: seq<Group>, groupName: string, connection: Connection, saveOk: bool): (r: Result<Joined>)
    ensures !saveOk ==> r == Failure("Failed to join group")
    ensures saveOk ==> r.Success?
    ensures r.Success? ==>
              && r.value.group.name == groupName
              && r.value.group.connections
                   == (match GetMessageGroup(store, groupName) case Some(g) => g.connections case None => []) + [connection]
              && r.value.group in r.value.store
              && |r.value.store| == |store| + (if GetMessageGroup(store, groupName).None? then 1 else 0)
              && forall g :: g in store && g.name != groupName ==> g in r.value.store
    ensures r.Success? && ValidStore(store) && (forall g :: g in store ==> !HasConnectionId(g, connection.connectionId))
            ==> ValidStore(r.value.store)
  {
    if !saveOk then Failure("Failed to join group")
    else
      match FindGroup(store, groupName)
      case Some(i) =>
        var g := Group(groupName, store[i].connections + [connection]);
        var store' := store[i := g];
        assert store'[i] == g;
        assert forall h :: h in store && h.name != groupName ==> h in store' by {
          forall h | h in store && h.name != groupName ensures h in store' {
            var k :| 0 <= k < |store| && store[k] == h;
            assert store'[k] == h;
          }
        }
        AppendPreservesValid(store, i, connection);
        Success(Joined(store', g))
      case None =>
        var g := Group(groupName, [connection]);
        var store' := store + [g];
        assert store'[|store|] == g;
        assert ValidStore(store) && (forall h :: h in store ==> !HasConnectionId(h, connection.connectionId)) ==> ValidStore(store') by {
          if ValidStore(store) && (forall h :: h in store ==> !HasConnectionId(h, connection.connectionId)) {
            forall i, j, k, l | 0 <= i < |store'| && 0 <= j < |store'| && 0 <= k < |store'[i].connections|
                && 0 <= l < |store'[j].connections| && (i, k) != (j, l)
              ensures store'[i].connections[k].connectionId != store'[j].connections[l].connectionId
            {
              if i == |store| && j < |store| {
                assert store[j] in store;
                assert !HasConnectionId(store[j], connection.connectionId);
              } else if j == |store| && i < |store| {
                assert store[i] in store;
                assert !HasConnectionId(store[i], connection.connectionId);
              }
            }
          }
        }
        Success(Joined(store', g))
  }

  lemma AppendPreservesValid(store: seq<Group>, i: nat, connection: Connection)
    requires i < |store|
    ensures var store' := store[i := Group(store[i].name, store[i].connections + [connection])];
            ValidStore(store) && (forall g :: g in store ==> !HasConnectionId(g, connection.connectionId)) ==> ValidStore(store')
  {
    var store' := store[i := Group(store[i].name, store[i].connections + [connection])];
    if ValidStore(store) && (forall g :: g in store ==> !HasConnectionId(g, connection.connectionId)) {
      var n := |store[i].connections|;
      forall a, b, k, l | 0 <= a < |store'| && 0 <= b < |store'| && 0 <= k < |store'[a].connections|
          && 0 <= l < |store'[b].connections| && (a, k) != (b, l)
        ensures store'[a].connections[k].connectionId != store'[b].connections[l].connectionId
      {
        if a == i && k == n {
          assert store[b] in store && !HasConnectionId(store[b], connection.connectionId);
          if b == i {
            assert store'[b].connections[l] == store[b].connections[l];
          }
        } else if b == i && l == n {
          assert store[a] in store && !HasConnectionId(store[a], connection.connectionId);
          if a == i {
            assert store'[a].connections[k] == store[a].connections[k];
          }
        } else {
          assert store'[a].connections[k] == store[a].connections[k];
          assert store'[b].connections[l] == store[b].connections[l];
        }
      }
    }
  }

  /** Index of the first connection carrying `id`. */
  function FirstConnection(connections: seq<Connection>, id: string): (r: Option<nat>)
    ensures r.None? <==> forall k :: 0 <= k < |connections| ==> connections[k].connectionId != id
    ensures r.Some? ==> r.value < |connections| && connections[r.value].connectionId == id
                        && forall j :: 0 <= j < r.value ==> connections[j].connectionId != id
  {
    if |connections| == 0 then None
    else if connections[0].connectionId == id then Some(0)
    else
      match FirstConnection(connections[1..], id)
      case None => None
      case Some(k) => Some(k + 1)
  }

  /** `group.Connections.Remove(connection)` for the connection found by
      id: the first connection carrying `id` goes, the others keep their
      order; an id that is absent changes nothing. */
  function RemoveConnection(connections: seq<Connection>, id: string): (r: seq<Connection>)
    ensures (forall k :: 0 <= k < |connections| ==> connections[k].connectionId != id) ==> r == connections
    ensures forall k :: 0 <= k < |connections| && connections[k].connectionId == id
                        && (forall j :: 0 <= j < k ==> connections[j].connectionId != id)
                        ==> r == connections[..k] + connections[k + 1..]
    ensures |r| == |connections| - (if exists k :: 0 <= k < |connections| && connections[k].connectionId == id then 1 else 0)
    ensures forall c :: c in r ==> c in connections
    ensures forall c :: c in connections && c.connectionId != id ==> c in r
  {
    match FirstConnection(connections, id)
    case None => connections
    case Some(k) =>
      RemoveAtKeepsOthers(connections, k);
      connections[..k] + connections[k + 1..]
  }

  /** Dropping position `k` keeps every other element and adds none. */
  lemma RemoveAtKeepsOthers<T>(s: seq<T>, k: nat)
    requires k < |s|
    ensures forall c :: c in s[..k] + s[k + 1..] ==> c in s
    ensures forall c :: c in s && c != s[k] ==> c in s[..k] + s[k + 1..]
  {
    assert s == s[..k] + [s[k]] + s[k + 1..];
  }

  /** Removing one connection from one group keeps the store valid. */
  lemma RemovalPreservesValid(store: seq<Group>, i: nat, id: string)
    requires i < |store|
    ensures var store' := store[i := Group(store[i].name, RemoveConnection(store[i].connections, id))];
            ValidStore(store) ==> ValidStore(store')
  {
    var conns := store[i].connections;
    var store' := store[i := Group(store[i].name, RemoveConnection(conns, id))];
    if ValidStore(store) && FirstConnection(conns, id).Some? {
      var k := FirstConnection(conns, id).value;
      var rest := conns[..k] + conns[k + 1..];
      assert RemoveConnection(conns, id) == rest;
      assert store' == store[i := Group(store[i].name, rest)];
      forall a, b | 0 <= a < |store'| && 0 <= b < |store'| && a < b
        ensures store'[a].name != store'[b].name
      {
        assert store'[a].name == store[a].name && store'[b].name == store[b].name;
      }
      forall a, b, x, y | 0 <= a < |store'| && 0 <= b < |store'| && 0 <= x < |store'[a].connections|
          && 0 <= y < |store'[b].connections| && (a, x) != (b, y)
        ensures store'[a].connections[x].connectionId != store'[b].connections[y].connectionId
      {
        var x' := KeptIndex(store, i, k, a, x);
        var y' := KeptIndex(store, i, k, b, y);
        assert a != b || x' != y' by {
          if a == b && a == i {
            assert x != y;
          }
        }
      }
    }
  }

  /** Where a connection of the store after removing position `k` of group
      `i` stood before the removal. */
  lemma KeptIndex(store: seq<Group>, i: nat, k: nat, a: nat, x: nat) returns (x': nat)
    requires i < |store| && k < |store[i].connections| && a < |store|
    requires x < |store[i := Group(store[i].name, store[i].connections[..k] + store[i].connections[k + 1..])][a].connections|
    ensures x' == if a == i && x >= k then x + 1 else x
    ensures x' < |store[a].connections|
    ensures store[i := Group(store[i].name, store[i].connections[..k] + store[i].connections[k + 1..])][a].connections[x]
            == store[a].connections[x']
  {
    x' := if a == i && x >= k then x + 1 else x;
  }

  /** `RemoveFromMessageGroup`: removes this connection from the group that
      holds it and saves; a connection in no group, or a failed save,
      raises. */
  function RemoveFromMessageGroup(store: seq<Group>, connectionId: string, saveOk: bool): (r: Result<Joined>)
    ensures (forall g :: g in store ==> !HasConnectionId(g, connectionId)) ==> r == Failure("Failed to remove from group")
    ensures !saveOk ==> r == Failure("Failed to remove from group")
    ensures r.Success? ==>
              && |r.value.store| == |store|
              && (exists i :: 0 <= i < |store| && HasConnectionId(store[i], connectionId)
                    && r.value.group.name == store[i].name
                    && |r.value.group.connections| == |store[i].connections| - 1
                    && (forall c :: c in r.value.group.connections ==> c in store[i].connections)
                    && (forall c :: c in store[i].connections && c.connectionId != connectionId ==> c in r.value.group.connections)
                    && r.value.store == store[i := r.value.group])
    ensures r.Success? ==>
              && FindGroupForConnection(store, connectionId).Some?
              && var i := FindGroupForConnection(store, connectionId).value;
                 && r.value.group == Group(store[i].name, RemoveConnection(store[i].connections, connectionId))
                 && r.value.store == store[i := r.value.group]
    ensures saveOk && (exists g :: g in store && HasConnectionId(g, connectionId)) ==> r.Success?
    ensures r.Success? && ValidStore(store) ==> ValidStore(r.value.store)
  {
    match FindGroupForConnection(store, connectionId)
    case None => Failure("Failed to remove from group")
    case Some(i) =>
      if !saveOk then Failure("Failed to remove from group")
      else
        var g := Group(store[i].name, RemoveConnection(store[i].connections, connectionId));
        RemovalPreservesValid(store, i, connectionId);
        Success(Joined(store[i := g], g))
  }

  // ---- hub callbacks ----

  /** The group store after a callback, and the sends it issued. */
  datatype Step = Step(store: seq<Group>, sends: seq<Send>)

  /** `OnConnectedAsync`: needs a principal and a non-empty `user` query
      value, joins the canonical group, tells the group, and hands the thread
      (loaded by the message repository, here a parameter) to the caller. */
  function OnConnected(user: Option<Principal>, otherUser: Option<string>, connectionId: string,
                       store: seq<Group>, saveOk: bool, thread: seq<Message>): (r: Result<Step>)
    ensures user.None? || otherUser.None? || otherUser == Some("") ==> r == Failure("Cannot join group")
    ensures user.Some? && user.value.nameIdentifier.None? && otherUser.Some? && otherUser != Some("")
            ==> r == Failure("Cannot get username from token")
    ensures user.Some? && user.value.nameIdentifier.Some? && otherUser.Some? && otherUser != Some("") && !saveOk
            ==> r == Failure("Failed to join group")
    ensures r.Success? ==>
              && user.Some? && user.value.nameIdentifier.Some? && otherUser.Some?
              && var me := user.value.nameIdentifier.value;
                 var name := GetGroupName(me, otherUser.value);
                 var joined := AddToGroup(store, name, Connection(connectionId, me), saveOk);
                 && joined.Success?
                 && r.value.store == joined.value.store
                 && r.value.sends == [Send(GroupNamed(name), UpdatedGroup(joined.value.group)),
                                      Send(Caller, ReceiveMessageThread(thread))]
    ensures user.Some? && user.value.nameIdentifier.Some? && otherUser.Some? && otherUser != Some("") && saveOk ==> r.Success?
  {
    if user.None? || otherUser.None? || otherUser.value == "" then Failure("Cannot join group")
    else
      match GetUsername(user.value)
      case Failure(e) => Failure(e)
      case Success(me) =>
        var name := GetGroupName(me, otherUser.value);
        match AddToGroup(store, name, Connection(connectionId, me), saveOk)
        case Failure(e) => Failure(e)
        case Success(joined) =>
          Success(Step(joined.store, [Send(GroupNamed(name), UpdatedGroup(joined.group)),
                                      Send(Caller, ReceiveMessageThread(thread))]))
  }

  /** `OnDisconnectedAsync`: leaves the group and tells its remaining
      members; when the connection is in no group the callback raises. */
  function OnDisconnected(connectionId: string, store: seq<Group>, saveOk: bool): (r: Result<Step>)
    ensures (forall g :: g in store ==> !HasConnectionId(g, connectionId)) ==> r == Failure("Failed to remove from group")
    ensures r.Success? ==>
              var left := RemoveFromMessageGroup(store, connectionId, saveOk);
              && left.Success?
              && r.value.store == left.value.store
              && r.value.sends == [Send(GroupNamed(left.value.group.name), UpdatedGroup(left.value.group))]
    ensures !saveOk ==> r == Failure("Failed to remove from group")
    ensures saveOk && (exists g :: g in store && HasConnectionId(g, connectionId)) ==> r.Success?
    ensures r.Success? && ValidStore(store) ==> ValidStore(r.value.store)
  {
    match RemoveFromMessageGroup(store, connectionId, saveOk)
    case Failure(e) => Failure(e)
    case Success(left) => Success(Step(left.store, [Send(GroupNamed(left.group.name), UpdatedGroup(left.group))]))
  }

  // ---- SendMessage ----

  /** The messages table after a send, and the sends it issued. */
  datatype Sent = Sent(messages: seq<Message>, sends: seq<Send>)

  /** The recipient has a connection in the conversation's group. */
  predicate RecipientInGroup(group: Option<Group>, recipient: string) {
    group.Some? && exists k :: 0 <= k < |group.value.connections| && group.value.connections[k].username == recipient
  }

  predicate IsNewMessageReceived(s: Send) {
    s.event.NewMessageReceived?
  }

  predicate IsNewMessage(s: Send) {
    s.event.NewMessage?
  }

  /** `SendMessage`. Refuses a message to oneself before any lookup and an
      unknown sender or recipient after. The message is marked read at once
      when the recipient has a connection in the conversation's group;
      otherwise the recipient's presence connections are told of it — before
      the save, and even when that list is empty. Only a successful save
      stores the message and broadcasts it to the group; a failed save is
      silent. */
  function SendMessage(user: Option<Principal>, recipientUsername: string, content: string,
                       users: seq<AppUser>, store: seq<Group>, presence: PresenceTracker.Tracker,
                       messages: seq<Message>, now: int, saveOk: bool): (r: Result<Sent>)
    ensures user.None? ==> r == Failure("Could not get user")
    ensures user.Some? && user.value.nameIdentifier == Some(recipientUsername) ==> r == Failure("Cannot send message to yourself")
    ensures (user.Some? && user.value.nameIdentifier.Some?
             && UserRepository.GetUserByName(users, user.value.nameIdentifier.value).NoMatch?) ==> r.Failure?
    ensures UserRepository.GetUserByName(users, recipientUsername).NoMatch? ==> r.Failure?
    ensures user.Some? && user.value.nameIdentifier.None? ==> r == Failure("Cannot get username from token")
    ensures user.Some? && user.value.nameIdentifier.Some? && user.value.nameIdentifier.value != recipientUsername ==>
              var sender := UserRepository.GetUserByName(users, user.value.nameIdentifier.value);
              var recipient := UserRepository.GetUserByName(users, recipientUsername);
              && (sender.Multiple? || recipient.Multiple? ==> r == Failure("Sequence contains more than one element"))
              && ((!sender.Multiple? && !recipient.Multiple? && (sender.NoMatch? || recipient.NoMatch?))
                    ==> r == Failure("Cannot send message at this time"))
              && (sender.Single? && recipient.Single? ==> r.Success?)
    ensures r.Success? ==>
              && user.Some? && user.value.nameIdentifier.Some?
              && var me := user.value.nameIdentifier.value;
                 var name := GetGroupName(me, recipientUsername);
                 var viewing := RecipientInGroup(GetMessageGroup(store, name), recipientUsername);
                 && me != recipientUsername
                 && UserRepository.GetUserByName(users, me).Single?
                 && UserRepository.GetUserByName(users, recipientUsername).Single?
                 && (!viewing <==> exists s :: s in r.value.sends && IsNewMessageReceived(s))
                 && (!viewing ==> r.value.sends[0] == Send(Clients(PresenceTracker.GetConnectionsForUser(presence, recipientUsername)),
                                                           NewMessageReceived(me, UserRepository.GetUserByName(users, me).value.knownAs)))
                 && (saveOk <==> exists s :: s in r.value.sends && IsNewMessage(s))
                 && (!saveOk ==> r.value.messages == messages)
                 && (saveOk ==>
                       && |r.value.messages| == |messages| + 1
                       && r.value.messages[..|messages|] == messages
                       && var m := r.value.messages[|messages|];
                          && m.senderUsername == me && m.recipientUsername == recipientUsername
                          && m.content == content && m.messageSent == now
                          && (m.dateRead.Some? <==> viewing)
                          && (viewing ==> m.dateRead == Some(now))
                          && r.value.sends[|r.value.sends| - 1] == Send(GroupNamed(name), NewMessage(m)))
                 && r.value.sends
                    == (if viewing then []
                        else [Send(Clients(PresenceTracker.GetConnectionsForUser(presence, recipientUsername)),
                                   NewMessageReceived(me, UserRepository.GetUserByName(users, me).value.knownAs))])
                       + (if saveOk then [Send(GroupNamed(name), NewMessage(r.value.messages[|messages|]))] else [])
  {
    if user.None? then Failure("Could not get user")
    else
      match GetUsername(user.value)
      case Failure(e) => Failure(e)
      case Success(me) =>
        if me == recipientUsername then Failure("Cannot send message to yourself")
        else
          var senderLookup := UserRepository.GetUserByName(users, me);
          var recipientLookup := UserRepository.GetUserByName(users, recipientUsername);
          if senderLookup.Multiple? || recipientLookup.Multiple? then Failure("Sequence contains more than one element")
          else if senderLookup.NoMatch? || recipientLookup.NoMatch? then Failure("Cannot send message at this time")
          else
            Success(Deliver(senderLookup.value, recipientLookup.value.userName, content, store, presence, messages, now, saveOk))
  }

  /** The part of `SendMessage` after both users are found: the message is
      read at once when the recipient is viewing the conversation, and the
      recipient's presence connections are told of it otherwise; only a
      successful save stores it and broadcasts it to the group. */
  function Deliver(sender: AppUser, recipientUsername: string, content: string, store: seq<Group>,
                   presence: PresenceTracker.Tracker, messages: seq<Message>, now: int, saveOk: bool): (r: Sent)
    ensures var name := GetGroupName(sender.userName, recipientUsername);
            var viewing := RecipientInGroup(GetMessageGroup(store, name), recipientUsername);
            var notice := Send(Clients(PresenceTracker.GetConnectionsForUser(presence, recipientUsername)),
                               NewMessageReceived(sender.userName, sender.knownAs));
            && (!viewing <==> exists s :: s in r.sends && IsNewMessageReceived(s))
            && (!viewing ==> r.sends[0] == notice)
            && (saveOk <==> exists s :: s in r.sends && IsNewMessage(s))
            && (!saveOk ==> r.messages == messages && r.sends == (if viewing then [] else [notice]))
            && (saveOk ==>
                  && |r.messages| == |messages| + 1
                  && r.messages[..|messages|] == messages
                  && var m := r.messages[|messages|];
                     && m.senderUsername == sender.userName && m.recipientUsername == recipientUsername
                     && m.content == content && m.messageSent == now
                     && (m.dateRead.Some? <==> viewing)
                     && (viewing ==> m.dateRead == Some(now))
                     && r.sends == (if viewing then [] else [notice]) + [Send(GroupNamed(name), NewMessage(m))])
  {
    var name := GetGroupName(sender.userName, recipientUsername);
    var viewing := RecipientInGroup(GetMessageGroup(store, name), recipientUsername);
    var message := Message(sender.userName, recipientUsername, content, now, if viewing then Some(now) else None);
    var notify := if viewing then []
                  else [Send(Clients(PresenceTracker.GetConnectionsForUser(presence, recipientUsername)),
                             NewMessageReceived(sender.userName, sender.knownAs))];
    if saveOk then
      var sends := notify + [Send(GroupNamed(name), NewMessage(message))];
      assert sends[|sends| - 1] in sends;
      assert !viewing ==> sends[0] in sends && IsNewMessageReceived(sends[0]);
      assert (messages + [message])[..|messages|] == messages;
      Sent(messages + [message], sends)
    else
      assert !viewing ==> notify[0] in notify && IsNewMessageReceived(notify[0]);
      Sent(messages, notify)
  }

  /** The offline notice goes out before the save, so a recipient who is not
      viewing the conversation is told of a message that a failed save then
      drops. */
  lemma NotificationPrecedesSave(user: Principal, recipientUsername: string, content: string,
                                 users: seq<AppUser>, store: seq<Group>, presence: PresenceTracker.Tracker,
                                 messages: seq<Message>, now: int)
    requires var r := SendMessage(Some(user), recipientUsername, content, users, store, presence, messages, now, false);
             r.Success? && !RecipientInGroup(GetMessageGroup(store, GetGroupName(user.nameIdentifier.value, recipientUsername)), recipientUsername)
    ensures var r := SendMessage(Some(user), recipientUsername, content, users, store, presence, messages, now, false);
            r.value.messages == messages && |r.value.sends| == 1 && IsNewMessageReceived(r.value.sends[0])
  {
  }

  // ---- joining and leaving ----

  /** Where `AddToGroup` puts the group: its old place, or the end. */
  function GroupSlot(store: seq<Group>, groupName: string): (i: nat)
    ensures i <= |store|
    ensures i < |store| <==> GetMessageGroup(store, groupName).Some?
  {
    match FindGroup(store, groupName)
    case Some(i) => i
    case None => |store|
  }

  /** After joining, the joined group sits in its slot and holds the new
      connection last. */
  lemma JoinedGroupInSlot(store: seq<Group>, groupName: string, connection: Connection)
    ensures var joined := AddToGroup(store, groupName, connection, true).value;
            var i := GroupSlot(store, groupName);
            && i < |joined.store| && joined.store[i] == joined.group
            && joined.store == (if i < |store| then store[i := joined.group] else store + [joined.group])
  {
  }

  /** Joining with a connection id that no group holds, and then leaving
      with it, gives the group its old connections back. A group that
      already existed leaves the store as it was; a group created by the
      join stays behind, empty. */
  lemma JoinThenLeave(store: seq<Group>, groupName: string, connection: Connection)
    requires ValidStore(store)
    requires forall g :: g in store ==> !HasConnectionId(g, connection.connectionId)
    ensures var joined := AddToGroup(store, groupName, connection, true).value;
            var left := RemoveFromMessageGroup(joined.store, connection.connectionId, true);
            && left.Success?
            && left.value.group.name == groupName
            && left.value.group.connections
                 == (match GetMessageGroup(store, groupName) case Some(g) => g.connections case None => [])
            && (GetMessageGroup(store, groupName).Some? ==> left.value.store == store)
            && (GetMessageGroup(store, groupName).None? ==> left.value.store == store + [Group(groupName, [])])
  {
    var i := GroupSlot(store, groupName);
    LeaveAfterJoin(store, groupName, connection);
    RestoreSlot(store, groupName, connection);
    assert GetMessageGroup(store, groupName) == if i < |store| then Some(store[i]) else None;
  }

  /** Putting the group's earlier connections back into the joined group's
      slot gives back the store before the join, with the group the join
      created left empty. */
  lemma RestoreSlot(store: seq<Group>, groupName: string, connection: Connection)
    ensures var joined := AddToGroup(store, groupName, connection, true).value;
            var i := GroupSlot(store, groupName);
            var emptied := Group(groupName, if i < |store| then store[i].connections else []);
            joined.store[i := emptied] == if i < |store| then store else store + [Group(groupName, [])]
  {
    var joined := AddToGroup(store, groupName, connection, true).value;
    var i := GroupSlot(store, groupName);
    JoinedGroupInSlot(store, groupName, connection);
    if i < |store| {
      assert Group(groupName, store[i].connections) == store[i];
      assert store[i := joined.group][i := store[i]] == store;
    } else {
      UpdateLast(store, joined.group, Group(groupName, []));
    }
  }

  /** Leaving right after a join with a fresh id puts the joined group's
      earlier connections back in its slot. */
  lemma LeaveAfterJoin(store: seq<Group>, groupName: string, connection: Connection)
    requires ValidStore(store)
    requires forall g :: g in store ==> !HasConnectionId(g, connection.connectionId)
    ensures var joined := AddToGroup(store, groupName, connection, true).value;
            var i := GroupSlot(store, groupName);
            var emptied := Group(groupName, if i < |store| then store[i].connections else []);
            RemoveFromMessageGroup(joined.store, connection.connectionId, true) == Success(Joined(joined.store[i := emptied], emptied))
  {
    var i := GroupSlot(store, groupName);
    var before := if i < |store| then store[i].connections else [];
    JoinedGroupInSlot(store, groupName, connection);
    LeaveFindsJoinedGroup(store, groupName, connection);
    RemoveAppended(before, connection);
  }

  /** After a join with a fresh id, the group that holds that id is the
      joined one. */
  lemma LeaveFindsJoinedGroup(store: seq<Group>, groupName: string, connection: Connection)
    requires ValidStore(store)
    requires forall g :: g in store ==> !HasConnectionId(g, connection.connectionId)
    ensures var joined := AddToGroup(store, groupName, connection, true).value;
            FindGroupForConnection(joined.store, connection.connectionId) == Some(GroupSlot(store, groupName))
            && joined.group.connections
               == (if GroupSlot(store, groupName) < |store| then store[GroupSlot(store, groupName)].connections else []) + [connection]
            && forall k :: 0 <= k < |joined.group.connections| - 1 ==> joined.group.connections[k].connectionId != connection.connectionId
  {
    var id := connection.connectionId;
    var joined := AddToGroup(store, groupName, connection, true).value;
    var i := GroupSlot(store, groupName);
    JoinedGroupInSlot(store, groupName, connection);
    var before := if i < |store| then store[i].connections else [];
    assert forall k :: 0 <= k < |before| ==> before[k].connectionId != id by {
      if i < |store| {
        assert store[i] in store;
      }
    }
    var n := |before|;
    assert joined.store[i].connections[n] == connection;
    var j := FindGroupForConnection(joined.store, id).value;
    OnlyOneHolder(joined.store, i, n, j);
  }

  /** In a valid store, the only group holding a connection id is the one
      where it was seen. */
  lemma OnlyOneHolder(store: seq<Group>, i: nat, n: nat, j: nat)
    requires ValidStore(store)
    requires i < |store| && n < |store[i].connections| && j < |store|
    requires HasConnectionId(store[j], store[i].connections[n].connectionId)
    ensures j == i
  {
    var l :| 0 <= l < |store[j].connections| && store[j].connections[l].connectionId == store[i].connections[n].connectionId;
  }

  /** Removing the id of a connection appended last, when no earlier
      connection carries it, gives back the list before the append. */
  lemma RemoveAppended(before: seq<Connection>, connection: Connection)
    requires forall k :: 0 <= k < |before| ==> before[k].connectionId != connection.connectionId
    ensures RemoveConnection(before + [connection], connection.connectionId) == before
  {
    assert (before + [connection])[..|before|] == before;
  }

  lemma UpdateLast<T>(s: seq<T>, x: T, y: T)
    ensures (s + [x])[|s| := y] == s + [y]
  {
  }
}
