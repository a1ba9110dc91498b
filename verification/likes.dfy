/** Likes on the server: the likes table keyed by (source, target), the
    `ToggleLike` endpoint and the liked / likedBy listing of
    `GetUserLikes`. */
module Likes {
  import opened Wrappers
  import Seqs
  import Ordinal
  import Dates
  import Paging
  import opened Entities

  /** The likes table as the relation it stores. */
  function LikeSet(likes: seq<UserLike>): set<UserLike> {
    set l | l in likes
  }

  /** The composite primary key: no row twice. */
  predicate Unique(likes: seq<UserLike>) {
    forall i, j :: 0 <= i < j < |likes| ==> likes[i] != likes[j]
  }

  /** `GetUserLike`: the row with key (source, target), if any. */
  function GetUserLike(likes: seq<UserLike>, sourceUserId: int, targetUserId: int): (r: Option<UserLike>)
    ensures r.Some? <==> UserLike(sourceUserId, targetUserId) in likes
    ensures r.Some? ==> r.value.sourceUserId == sourceUserId && r.value.targetUserId == targetUserId
  {
    if |likes| == 0 then None
    else if likes[0].sourceUserId == sourceUserId && likes[0].targetUserId == targetUserId then Some(likes[0])
    else GetUserLike(likes[1..], sourceUserId, targetUserId)
  }

  /** `DeleteLike`: drops the row. */
  function DeleteLike(likes: seq<UserLike>, like: UserLike): (r: seq<UserLike>)
    ensures LikeSet(r) == LikeSet(likes) - {like}
    ensures Unique(likes) ==> Unique(r)
  {
    if |likes| == 0 then []
    else
      var rest := DeleteLike(likes[1..], like);
      assert LikeSet(likes) == {likes[0]} + LikeSet(likes[1..]) by {
        assert likes == [likes[0]] + likes[1..];
      }
      if likes[0] == like then rest
      else
        assert Unique(likes) ==> likes[0] !in LikeSet(likes[1..]) by {
          if Unique(likes) {
            forall k | 0 <= k < |likes[1..]| ensures likes[1..][k] != likes[0] {
              assert likes[1..][k] == likes[k + 1];
            }
          }
        }
        var r := [likes[0]] + rest;
        assert LikeSet(r) == {likes[0]} + LikeSet(rest) by {
          assert forall x :: x in r <==> x == likes[0] || x in rest;
        }
        assert Unique(likes) ==> Unique(r) by {
          if Unique(likes) {
            forall i, j | 0 <= i < j < |r| ensures r[i] != r[j] {
              if i == 0 {
                assert r[j] in LikeSet(rest);
              }
            }
          }
        }
        r
  }

  /** `ToggleLike`: refuses a self-like; adds the (source, target) row when
      it is absent and removes it when present; a failed save reports
      "Failed to update like" and stores nothing. */
  function ToggleLike(sourceUserId: int, targetUserId: int, likes: seq<UserLike>, saveOk: bool): (r: Result<seq<UserLike>>)
    ensures sourceUserId == targetUserId ==> r == Failure("You cannot like yourself")
    ensures sourceUserId != targetUserId && !saveOk ==> r == Failure("Failed to update like")
    ensures sourceUserId != targetUserId && saveOk ==> r.Success?
    ensures r.Success? && UserLike(sourceUserId, targetUserId) !in likes
            ==> LikeSet(r.value) == LikeSet(likes) + {UserLike(sourceUserId, targetUserId)}
    ensures r.Success? && UserLike(sourceUserId, targetUserId) in likes
            ==> LikeSet(r.value) == LikeSet(likes) - {UserLike(sourceUserId, targetUserId)}
    ensures r.Success? && Unique(likes) ==> Unique(r.value)
  {
    if sourceUserId == targetUserId then Failure("You cannot like yourself")
    else
      var updated :=
        match GetUserLike(likes, sourceUserId, targetUserId)
        case None =>
          var like := UserLike(sourceUserId, targetUserId);
          assert LikeSet(likes + [like]) == LikeSet(likes) + {like};
          likes + [like]
        case Some(existing) => DeleteLike(likes, existing);
      if saveOk then Success(updated) else Failure("Failed to update like")
  }

  /** Toggling the same pair twice restores the relation. */
  lemma ToggleTwiceRestores(sourceUserId: int, targetUserId: int, likes: seq<UserLike>)
    requires sourceUserId != targetUserId
    ensures var once := ToggleLike(sourceUserId, targetUserId, likes, true).value;
            LikeSet(ToggleLike(sourceUserId, targetUserId, once, true).value) == LikeSet(likes)
  {
    var like := UserLike(sourceUserId, targetUserId);
    var once := ToggleLike(sourceUserId, targetUserId, likes, true).value;
    if like in likes {
      assert like !in LikeSet(once);
    } else {
      assert like in LikeSet(once);
    }
  }

  // ---- GetUserLikes ----

  /** The query parameters: paging plus the predicate and the caller's id. */
  datatype LikesParams = LikesParams(pageNumber: Paging.Int32, pageSize: Paging.Int32, userId: int, query: string)

  /** The users-table row with this id (the primary key). */
  function UserById(users: seq<AppUser>, id: int): (r: Option<AppUser>)
    ensures r.None? <==> forall u :: u in users ==> u.id != id
    ensures r.Some? ==> r.value in users && r.value.id == id
  {
    if |users| == 0 then None
    else if users[0].id == id then Some(users[0])
    else UserById(users[1..], id)
  }

  /** Every like row points at existing users (the foreign keys). */
  predicate ReferencesExist(users: seq<AppUser>, likes: seq<UserLike>) {
    forall l :: l in likes ==> UserById(users, l.sourceUserId).Some? && UserById(users, l.targetUserId).Some?
  }

  /** The user id at one end of a like. */
  function End(l: UserLike, toTarget: bool): int {
    if toTarget then l.targetUserId else l.sourceUserId
  }

  function EndIds(likes: seq<UserLike>, toTarget: bool): set<int> {
    set l | l in likes :: End(l, toTarget)
  }

  function Ids(us: seq<AppUser>): set<int> {
    set u | u in us :: u.id
  }

  /** Follows one end of each like to its user, in like order
      (`Select(like => like.TargetUser)` and its `SourceUser` twin). */
  function FollowLikes(users: seq<AppUser>, likes: seq<UserLike>, toTarget: bool): (r: seq<AppUser>)
    ensures forall u :: u in r ==> u in users
    ensures Ids(r) <= EndIds(likes, toTarget)
    ensures ReferencesExist(users, likes) ==> |r| == |likes| && Ids(r) == EndIds(likes, toTarget)
  {
    if |likes| == 0 then []
    else
      var rest := FollowLikes(users, likes[1..], toTarget);
      assert EndIds(likes, toTarget) == {End(likes[0], toTarget)} + EndIds(likes[1..], toTarget) by {
        assert forall l :: l in likes <==> l == likes[0] || l in likes[1..];
      }
      assert ReferencesExist(users, likes) ==> ReferencesExist(users, likes[1..]) by {
        assert forall l :: l in likes[1..] ==> l in likes;
      }
      match UserById(users, End(likes[0], toTarget))
      case None => rest
      case Some(u) =>
        var r := [u] + rest;
        assert Ids(r) == {u.id} + Ids(rest) by {
          assert forall v :: v in r <==> v == u || v in rest;
        }
        r
  }

  predicate NotedBefore(a: AppUser, b: AppUser) {
    Ordinal.LessOrEqual(a.userName, b.userName)
  }

  lemma NotedBeforeIsTotalPreorder()
    ensures Seqs.TotalPreorder(NotedBefore)
  {
    Ordinal.LessOrEqualIsTotalPreorder();
    forall a: AppUser, b: AppUser ensures NotedBefore(a, b) || NotedBefore(b, a) {
      assert Ordinal.LessOrEqual(a.userName, b.userName) || Ordinal.LessOrEqual(b.userName, a.userName);
    }
    forall a: AppUser, b: AppUser, c: AppUser | NotedBefore(a, b) && NotedBefore(b, c) ensures NotedBefore(a, c) {
      assert Ordinal.LessOrEqual(a.userName, c.userName);
    }
  }

  /** The users a predicate selects: "liked" follows the caller's likes to
      their targets, "likedBy" follows likes of the caller to their sources;
      both replace the username-ordered query, so they come in like order.
      Any other predicate lists every user ordered by username. */
  function SelectedUsers(users: seq<AppUser>, likes: seq<UserLike>, query: string, userId: int): (r: seq<AppUser>)
    ensures forall u :: u in r ==> u in users
    ensures query == "liked" ==> forall u :: u in r ==> UserLike(userId, u.id) in likes
    ensures query == "likedBy" ==> forall u :: u in r ==> UserLike(u.id, userId) in likes
    ensures query != "liked" && query != "likedBy" ==>
              multiset(r) == multiset(users) && Seqs.SortedBy(r, NotedBefore)
  {
    if query == "liked" then
      var mine := Seqs.Filter(likes, (l: UserLike) => l.sourceUserId == userId);
      var r := FollowLikes(users, mine, true);
      forall u | u in r ensures UserLike(userId, u.id) in likes {
        assert u.id in Ids(r);
        var l :| l in mine && End(l, true) == u.id;
        assert l == UserLike(userId, u.id);
      }
      r
    else if query == "likedBy" then
      var ofMe := Seqs.Filter(likes, (l: UserLike) => l.targetUserId == userId);
      var r := FollowLikes(users, ofMe, false);
      forall u | u in r ensures UserLike(u.id, userId) in likes {
        assert u.id in Ids(r);
        var l :| l in ofMe && End(l, false) == u.id;
        assert l == UserLike(u.id, userId);
      }
      r
    else
      NotedBeforeIsTotalPreorder();
      var r := Seqs.Sort(users, NotedBefore);
      assert forall u :: u in r ==> u in multiset(r);
      r
  }

  /** Under the foreign keys, "liked" lists exactly the targets of the
      caller's likes and "likedBy" exactly the sources of likes of the
      caller. */
  lemma LikedListsExactlyTheLikedUsers(users: seq<AppUser>, likes: seq<UserLike>, userId: int, other: int)
    requires ReferencesExist(users, likes)
    ensures other in Ids(SelectedUsers(users, likes, "liked", userId)) <==> UserLike(userId, other) in likes
    ensures other in Ids(SelectedUsers(users, likes, "likedBy", userId)) <==> UserLike(other, userId) in likes
  {
    var mine := Seqs.Filter(likes, (l: UserLike) => l.sourceUserId == userId);
    var ofMe := Seqs.Filter(likes, (l: UserLike) => l.targetUserId == userId);
    assert ReferencesExist(users, mine);
    assert ReferencesExist(users, ofMe);
    if UserLike(userId, other) in likes {
      assert UserLike(userId, other) in mine;
      assert other in EndIds(mine, true);
    }
    if other in EndIds(mine, true) {
      var l :| l in mine && End(l, true) == other;
      assert l == UserLike(userId, other);
    }
    if UserLike(other, userId) in likes {
      assert UserLike(other, userId) in ofMe;
      assert other in EndIds(ofMe, false);
    }
    if other in EndIds(ofMe, false) {
      var l :| l in ofMe && End(l, false) == other;
      assert l == UserLike(other, userId);
    }
  }

  /** The shape each listed user is sent in. */
  datatype LikeDto = LikeDto(userName: string, knownAs: string, age: int, photoUrl: Option<string>,
                             city: string, id: int)

  /** `Photos.FirstOrDefault(x => x.IsMain).Url`, null when there is no
      main photo. */
  function MainPhotoUrl(photos: seq<Photo>): (r: Option<string>)
    ensures r.None? <==> forall i :: 0 <= i < |photos| ==> !photos[i].isMain
    ensures r.Some? ==> exists i :: 0 <= i < |photos| && photos[i].isMain && photos[i].url == r.value
                                  && forall j :: 0 <= j < i ==> !photos[j].isMain
  {
    if |photos| == 0 then None
    else if photos[0].isMain then Some(photos[0].url)
    else
      var rest := MainPhotoUrl(photos[1..]);
      assert forall i :: 1 <= i < |photos| ==> photos[i] == photos[1..][i - 1];
      if rest.Some? then
        var i :| 0 <= i < |photos[1..]| && photos[1..][i].isMain && photos[1..][i].url == rest.value
                 && forall j :: 0 <= j < i ==> !photos[1..][j].isMain;
        assert photos[i + 1].isMain && photos[i + 1].url == rest.value;
        rest
      else rest
  }

  function ToLikeDto(u: AppUser, today: Dates.Date): (d: LikeDto) {
    LikeDto(u.userName, u.knownAs, Dates.CalculateAge(u.dateOfBirth, today), MainPhotoUrl(u.photos), u.city, u.id)
  }

  function ToLikeDtos(us: seq<AppUser>, today: Dates.Date): (r: seq<LikeDto>)
    ensures |r| == |us|
    ensures forall i :: 0 <= i < |us| ==> r[i] == ToLikeDto(us[i], today)
  {
    if |us| == 0 then [] else [ToLikeDto(us[0], today)] + ToLikeDtos(us[1..], today)
  }

  /** `GetUserLikes`: the selected users as `LikeDto`s (age from today's
      date), paged; the total counts every selected user. */
  function GetUserLikes(users: seq<AppUser>, likes: seq<UserLike>, p: LikesParams, today: Dates.Date): (r: Paging.PagedList<LikeDto>)
    ensures r.totalCount == |SelectedUsers(users, likes, p.query, p.userId)|
    ensures r.totalPages == Paging.TotalPages(r.totalCount, p.pageSize)
    ensures r.currentPage == p.pageNumber && r.pageSize == p.pageSize
    ensures r.items == Paging.PageAt(ToLikeDtos(SelectedUsers(users, likes, p.query, p.userId), today),
                                     Paging.SkipCount(p.pageNumber, p.pageSize), p.pageSize)
  {
    Paging.CreatePage(ToLikeDtos(SelectedUsers(users, likes, p.query, p.userId), today), p.pageNumber, p.pageSize)
  }

  /** Every listed entry describes a user who meets the query: one the
      caller liked for "liked", one who liked the caller for "likedBy". */
  lemma ListedUsersMeetQuery(users: seq<AppUser>, likes: seq<UserLike>, p: LikesParams, today: Dates.Date)
    ensures forall d :: d in GetUserLikes(users, likes, p, today).items ==>
              exists u :: u in users && d == ToLikeDto(u, today)
                          && (p.query == "liked" ==> UserLike(p.userId, u.id) in likes)
                          && (p.query == "likedBy" ==> UserLike(u.id, p.userId) in likes)
  {
    var dtos := ToLikeDtos(SelectedUsers(users, likes, p.query, p.userId), today);
    var items := GetUserLikes(users, likes, p, today).items;
    forall d | d in items
      ensures exists u :: u in users && d == ToLikeDto(u, today)
                          && (p.query == "liked" ==> UserLike(p.userId, u.id) in likes)
                          && (p.query == "likedBy" ==> UserLike(u.id, p.userId) in likes)
    {
      Paging.PageItemInSource(dtos, Paging.SkipCount(p.pageNumber, p.pageSize), p.pageSize, d);
      SelectedDto(users, likes, p.query, p.userId, today, d);
    }
  }

  /** An entry built from the selection describes a selected user. */
  lemma SelectedDto(users: seq<AppUser>, likes: seq<UserLike>, query: string, userId: int, today: Dates.Date, d: LikeDto)
    requires d in ToLikeDtos(SelectedUsers(users, likes, query, userId), today)
    ensures exists u :: u in users && d == ToLikeDto(u, today)
                        && (query == "liked" ==> UserLike(userId, u.id) in likes)
                        && (query == "likedBy" ==> UserLike(u.id, userId) in likes)
  {
    var selected := SelectedUsers(users, likes, query, userId);
    var dtos := ToLikeDtos(selected, today);
    var i :| 0 <= i < |dtos| && dtos[i] == d;
    assert selected[i] in selected;
  }
}

/** The client's list of liked user ids (`likeIds`) and the member card's
    like toggle. */
module LikeIds {
  import Likes
  import Seqs
  import opened Entities

  /** `hasLiked`. */
  predicate HasLiked(likeIds: seq<int>, memberId: int) {
    memberId in likeIds
  }

  /** `ids.filter(x => x !== id)`. */
  function RemoveAll(likeIds: seq<int>, id: int): (r: seq<int>)
    ensures multiset(r) == multiset(likeIds)[id := 0]
    ensures id !in r
    ensures Seqs.Subsequence(r, likeIds)
  {
    if |likeIds| == 0 then []
    else
      assert likeIds == [likeIds[0]] + likeIds[1..];
      var rest := RemoveAll(likeIds[1..], id);
      if likeIds[0] == id then rest else [likeIds[0]] + rest
  }

  /** `toggleLike` after the server answered: a liked member's id is
      removed everywhere, an unliked member's id is appended. */
  function ToggleLike(likeIds: seq<int>, memberId: int): (r: seq<int>)
    ensures HasLiked(likeIds, memberId) ==> multiset(r) == multiset(likeIds)[memberId := 0] && Seqs.Subsequence(r, likeIds)
    ensures !HasLiked(likeIds, memberId) ==> r == likeIds + [memberId]
    ensures HasLiked(r, memberId) <==> !HasLiked(likeIds, memberId)
  {
    if HasLiked(likeIds, memberId) then RemoveAll(likeIds, memberId) else likeIds + [memberId]
  }

  /** The ids the server has the caller liking. */
  function ServerLikeIds(likes: seq<UserLike>, userId: int): set<int> {
    set l | l in likes && l.sourceUserId == userId :: l.targetUserId
  }

  lemma ServerLikeIdsMember(likes: seq<UserLike>, userId: int, x: int)
    ensures x in ServerLikeIds(likes, userId) <==> UserLike(userId, x) in Likes.LikeSet(likes)
  {
    if x in ServerLikeIds(likes, userId) {
      var l :| l in likes && l.sourceUserId == userId && l.targetUserId == x;
      assert l == UserLike(userId, x);
    }
  }

  /** A client list that agrees with the server keeps agreeing after a
      successful toggle on both sides. */
  lemma ToggleMirrorsServer(likeIds: seq<int>, likes: seq<UserLike>, userId: int, memberId: int)
    requires userId != memberId
    requires (set x | x in likeIds) == ServerLikeIds(likes, userId)
    ensures var server := Likes.ToggleLike(userId, memberId, likes, true).value;
            (set x | x in ToggleLike(likeIds, memberId)) == ServerLikeIds(server, userId)
  {
    var server := Likes.ToggleLike(userId, memberId, likes, true).value;
    var client := ToggleLike(likeIds, memberId);
    var like := UserLike(userId, memberId);
    forall x ensures x in likeIds <==> UserLike(userId, x) in Likes.LikeSet(likes) {
      ServerLikeIdsMember(likes, userId, x);
      assert x in likeIds <==> x in (set y | y in likeIds);
    }
    forall x ensures x in client <==> x in ServerLikeIds(server, userId) {
      ServerLikeIdsMember(server, userId, x);
      if like in likes {
        assert x in client <==> x in multiset(client);
        assert x in likeIds <==> x in multiset(likeIds);
      } else {
        assert x in client <==> x in likeIds || x == memberId;
      }
    }
  }
}
