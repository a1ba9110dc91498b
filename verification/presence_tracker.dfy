/** The presence registry (`PresenseTracker`): a table from username to the
    list of that user's open connection ids. Every operation is modelled as
    one atomic step on an immutable table. */
module PresenceTracker {
  import Ordinal

  type Username = string
  type ConnectionId = string

  datatype Tracker = Tracker(onlineUsers: map<Username, seq<ConnectionId>>)

  const Empty := Tracker(map[])

  /** No username maps to an empty list: a key is present exactly while the
      user holds at least one connection. */
  predicate Valid(t: Tracker) {
    forall u :: u in t.onlineUsers ==> |t.onlineUsers[u]| > 0
  }

  /** The connections `c` of `u`, or none when `u` is offline. */
  function ConnectionsOf(t: Tracker, u: Username): seq<ConnectionId> {
    if u in t.onlineUsers then t.onlineUsers[u] else []
  }

  /** Position of the first occurrence of `c` in `s`. */
  function FirstIndexOf(s: seq<ConnectionId>, c: ConnectionId): (i: nat)
    requires c in s
    ensures i < |s| && s[i] == c && c !in s[..i]
  {
    if s[0] == c then 0
    else
      var j := FirstIndexOf(s[1..], c);
      assert s[..j + 1] == [s[0]] + s[1..][..j];
      j + 1
  }

  /** `List<T>.Remove`: drops the first occurrence of `c`, if any. */
  function RemoveFirst(s: seq<ConnectionId>, c: ConnectionId): (r: seq<ConnectionId>)
    ensures c !in s ==> r == s
    ensures c in s ==> var i := FirstIndexOf(s, c); r == s[..i] + s[i + 1..]
    ensures multiset(r) == multiset(s) - multiset{c}
    ensures |r| == if c in s then |s| - 1 else |s|
  {
    if c !in s then s
    else
      var i := FirstIndexOf(s, c);
      assert s == s[..i] + [s[i]] + s[i + 1..];
      s[..i] + s[i + 1..]
  }

  /** `UserConnected`: appends `c` to `u`'s list, creating the entry when
      absent; the flag reports that this is the user's first connection. */
  function UserConnected(t: Tracker, u: Username, c: ConnectionId): (r: (Tracker, bool))
    ensures r.1 <==> u !in t.onlineUsers
    ensures u in r.0.onlineUsers
    ensures ConnectionsOf(r.0, u) == ConnectionsOf(t, u) + [c]
    ensures forall v :: v != u ==> ConnectionsOf(r.0, v) == ConnectionsOf(t, v)
    ensures r.0.onlineUsers.Keys == t.onlineUsers.Keys + {u}
    ensures Valid(t) ==> Valid(r.0)
  {
    if u in t.onlineUsers then
      (Tracker(t.onlineUsers[u := t.onlineUsers[u] + [c]]), false)
    else
      (Tracker(t.onlineUsers[u := [c]]), true)
  }

  /** `UserDisconnected`: removes the first occurrence of `c` from `u`'s list
      and drops the entry once the list is empty; the flag reports that this
      was the user's last connection. */
  function UserDisconnected(t: Tracker, u: Username, c: ConnectionId): (r: (Tracker, bool))
    ensures u !in t.onlineUsers ==> r == (t, false)
    ensures u in t.onlineUsers ==> (r.1 <==> |RemoveFirst(t.onlineUsers[u], c)| == 0)
    ensures r.1 <==> u in t.onlineUsers && u !in r.0.onlineUsers
    ensures ConnectionsOf(r.0, u) == RemoveFirst(ConnectionsOf(t, u), c)
    ensures forall v :: v != u ==> ConnectionsOf(r.0, v) == ConnectionsOf(t, v)
    ensures r.0.onlineUsers.Keys <= t.onlineUsers.Keys
    ensures Valid(t) ==> Valid(r.0)
  {
    if u !in t.onlineUsers then (t, false)
    else
      var rest := RemoveFirst(t.onlineUsers[u], c);
      if |rest| == 0 then (Tracker(t.onlineUsers - {u}), true)
      else (Tracker(t.onlineUsers[u := rest]), false)
  }

  /** `GetOnlineUsers`: the usernames holding a connection, in ascending
      order and without duplicates. */
  function GetOnlineUsers(t: Tracker): (r: seq<Username>)
    ensures Ordinal.StrictlyIncreasing(r)
    ensures forall u :: u in r <==> u in t.onlineUsers
    ensures |r| == |t.onlineUsers|
  {
    Ordinal.SortedElements(t.onlineUsers.Keys)
  }

  /** `GetConnectionsForUser`: a copy of the user's list, empty when the user
      is offline. */
  function GetConnectionsForUser(t: Tracker, u: Username): (r: seq<ConnectionId>)
    ensures u in t.onlineUsers ==> r == t.onlineUsers[u]
    ensures u !in t.onlineUsers ==> r == []
  {
    ConnectionsOf(t, u)
  }

  /** In a valid table a user appears in the online snapshot exactly when
      they have at least one connection to notify. */
  lemma OnlineIffHasConnections(t: Tracker, u: Username)
    requires Valid(t)
    ensures u in GetOnlineUsers(t) <==> |GetConnectionsForUser(t, u)| > 0
  {
  }

  /** Connecting with a connection id the user does not already hold and then
      disconnecting it restores the table, and the connect reported "first"
      exactly when the disconnect reports "last". */
  lemma ConnectThenDisconnect(t: Tracker, u: Username, c: ConnectionId)
    requires Valid(t)
    requires c !in ConnectionsOf(t, u)
    ensures var (t1, first) := UserConnected(t, u, c);
            var (t2, last) := UserDisconnected(t1, u, c);
            t2 == t && first == last
  {
    var (t1, first) := UserConnected(t, u, c);
    var (t2, last) := UserDisconnected(t1, u, c);
    var before := ConnectionsOf(t, u);
    assert (before + [c])[..|before|] == before;
    assert RemoveFirst(before + [c], c) == before;
    assert t2.onlineUsers == t.onlineUsers;
  }

  /** The online snapshot reflects every connect: after `UserConnected` the
      user is listed, and every other user is listed exactly as before. */
  lemma ConnectedUserIsListed(t: Tracker, u: Username, c: ConnectionId)
    ensures var r := UserConnected(t, u, c);
            u in GetOnlineUsers(r.0) &&
            forall v :: v != u ==> (v in GetOnlineUsers(r.0) <==> v in GetOnlineUsers(t))
  {
  }

  /** A sequence of connect and disconnect events. */
  datatype PresenceEvent = Connect(user: Username, connection: ConnectionId)
                         | Disconnect(user: Username, connection: ConnectionId)

  function Apply(t: Tracker, e: PresenceEvent): Tracker {
    match e
    case Connect(u, c) => UserConnected(t, u, c).0
    case Disconnect(u, c) => UserDisconnected(t, u, c).0
  }

  function Run(t: Tracker, es: seq<PresenceEvent>): Tracker
    decreases |es|
  {
    if |es| == 0 then t else Run(Apply(t, es[0]), es[1..])
  }

  /** From the empty table, after any history of connects and disconnects,
      no user is listed online without a connection. */
  lemma {:induction false} RunPreservesValid(t: Tracker, es: seq<PresenceEvent>)
    requires Valid(t)
    ensures Valid(Run(t, es))
    ensures forall u :: u in GetOnlineUsers(Run(t, es)) <==> |ConnectionsOf(Run(t, es), u)| > 0
    decreases |es|
  {
    if |es| > 0 {
      RunPreservesValid(Apply(t, es[0]), es[1..]);
    }
  }
}
