/** `PresenceHub`: turns the tracker's first/last-connection flags into
    online/offline broadcasts. */
module PresenceHub {
  import opened Wrappers
  import opened Hub
  import PresenceTracker

  /** The tracker after a hub callback, and the sends it issued. */
  datatype Step = Step(tracker: PresenceTracker.Tracker, sends: seq<Send>)

  /** `OnConnectedAsync`: registers the connection, announces the user to
      the others when this is their first connection, then sends the full
      online snapshot to everyone. */
  function OnConnected(user: Option<Principal>, connectionId: string, t: PresenceTracker.Tracker): (r: Result<Step>)
    ensures user.None? ==> r == Failure("Cannot get current user claim")
    ensures user.Some? && GetUsername(user.value).Failure? ==> r == Failure("Cannot get username from token")
    ensures r.Success? ==>
              && user.Some? && user.value.nameIdentifier.Some?
              && var u := user.value.nameIdentifier.value;
                 && r.value.tracker == PresenceTracker.UserConnected(t, u, connectionId).0
                 && (Send(Others, UserIsOnline(u)) in r.value.sends <==> u !in t.onlineUsers)
                 && |r.value.sends| > 0
                 && r.value.sends[|r.value.sends| - 1]
                    == Send(All, GetOnlineUsers(PresenceTracker.GetOnlineUsers(r.value.tracker)))
                 && forall s :: s in r.value.sends ==> s.audience == Others || s.audience == All
    ensures r.Success? ==>
              var u := user.value.nameIdentifier.value;
              r.value.sends == (if u !in t.onlineUsers then [Send(Others, UserIsOnline(u))] else [])
                               + [Send(All, GetOnlineUsers(PresenceTracker.GetOnlineUsers(r.value.tracker)))]
    ensures user.Some? && user.value.nameIdentifier.Some? ==> r.Success?
  {
    match user
    case None => Failure("Cannot get current user claim")
    case Some(p) =>
      match GetUsername(p)
      case Failure(e) => Failure(e)
      case Success(u) =>
        var (t', isOnline) := PresenceTracker.UserConnected(t, u, connectionId);
        var online := if isOnline then [Send(Others, UserIsOnline(u))] else [];
        Success(Step(t', online + [Send(All, GetOnlineUsers(PresenceTracker.GetOnlineUsers(t')))]))
  }

  /** `OnDisconnectedAsync`: unregisters the connection and announces the
      user as offline to the others when it was their last connection. */
  function OnDisconnected(user: Option<Principal>, connectionId: string, t: PresenceTracker.Tracker): (r: Result<Step>)
    ensures user.None? ==> r == Failure("Cannot get current user claim")
    ensures user.Some? && GetUsername(user.value).Failure? ==> r == Failure("Cannot get username from token")
    ensures r.Success? ==>
              && user.Some? && user.value.nameIdentifier.Some?
              && var u := user.value.nameIdentifier.value;
                 && r.value.tracker == PresenceTracker.UserDisconnected(t, u, connectionId).0
                 && (r.value.sends == [Send(Others, UserIsOffline(u))] <==> u in t.onlineUsers && u !in r.value.tracker.onlineUsers)
                 && (u in r.value.tracker.onlineUsers || u !in t.onlineUsers <==> r.value.sends == [])
    ensures user.Some? && user.value.nameIdentifier.Some? ==> r.Success?
  {
    match user
    case None => Failure("Cannot get current user claim")
    case Some(p) =>
      match GetUsername(p)
      case Failure(e) => Failure(e)
      case Success(u) =>
        var (t', isOffline) := PresenceTracker.UserDisconnected(t, u, connectionId);
        Success(Step(t', if isOffline then [Send(Others, UserIsOffline(u))] else []))
  }

  /** A second connection of an online user announces nothing new but still
      refreshes everyone's snapshot, which is unchanged. */
  lemma SecondConnectionOnlyResendsSnapshot(user: Principal, c: string, t: PresenceTracker.Tracker)
    requires user.nameIdentifier.Some? && user.nameIdentifier.value in t.onlineUsers
    ensures var r := OnConnected(Some(user), c, t);
            r.Success? &&
            r.value.sends == [Send(All, GetOnlineUsers(PresenceTracker.GetOnlineUsers(t)))]
  {
    var u := user.nameIdentifier.value;
    var t' := PresenceTracker.UserConnected(t, u, c).0;
    assert t'.onlineUsers.Keys == t.onlineUsers.Keys;
  }
}
