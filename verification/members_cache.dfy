/** The client's cache of members (`MembersService.members`) and how each
    successful call updates it. Photos are compared by value: the client
    compares object references, and a photo object handed to these calls is
    one taken from the cache, so value and reference agree on it. */
module MembersCache {
  import Seqs

  datatype MemberPhoto = MemberPhoto(id: int, url: string, isMain: bool)

  datatype Member = Member(id: int, username: string, knownAs: string, photoUrl: string, photos: seq<MemberPhoto>)

  /** `getMember`: a cached member, or a request to the server. */
  datatype CacheLookup = Cached(member: Member) | Fetch(username: string)

  /** `getMember`: the first cached member with the username, without a
      request; otherwise a request for it. */
  function GetMember(cache: seq<Member>, username: string): (r: CacheLookup)
    ensures r.Fetch? <==> forall i :: 0 <= i < |cache| ==> cache[i].username != username
    ensures r.Fetch? ==> r.username == username
    ensures r.Cached? ==> exists i :: 0 <= i < |cache| && cache[i] == r.member && r.member.username == username
                                    && forall j :: 0 <= j < i ==> cache[j].username != username
  {
    if |cache| == 0 then Fetch(username)
    else if cache[0].username == username then Cached(cache[0])
    else
      var rest := GetMember(cache[1..], username);
      assert forall i :: 1 <= i < |cache| ==> cache[i] == cache[1..][i - 1];
      if rest.Cached? then
        var i :| 0 <= i < |cache[1..]| && cache[1..][i] == rest.member && rest.member.username == username
                 && forall j :: 0 <= j < i ==> cache[1..][j].username != username;
        assert cache[i + 1] == rest.member;
        rest
      else rest
  }

  /** `updateMember`: every cached member with the same username becomes
      the saved one; the rest keep their place and value. */
  function UpdateMember(cache: seq<Member>, member: Member): (r: seq<Member>)
    ensures |r| == |cache|
    ensures forall i :: 0 <= i < |r| ==> if cache[i].username == member.username then r[i] == member else r[i] == cache[i]
  {
    if |cache| == 0 then []
    else [if cache[0].username == member.username then member else cache[0]] + UpdateMember(cache[1..], member)
  }

  /** After an update a lookup of that username is answered from the cache
      with the saved member when it was cached, and the cache is untouched
      otherwise. */
  lemma UpdateThenGet(cache: seq<Member>, member: Member)
    ensures GetMember(cache, member.username).Cached? ==> GetMember(UpdateMember(cache, member), member.username) == Cached(member)
    ensures GetMember(cache, member.username).Fetch? ==> UpdateMember(cache, member) == cache
  {
    var r := UpdateMember(cache, member);
    var g := GetMember(r, member.username);
    if GetMember(cache, member.username).Cached? {
      var i :| 0 <= i < |cache| && cache[i].username == member.username;
      assert r[i].username == member.username;
      var k :| 0 <= k < |r| && r[k] == g.member && g.member.username == member.username;
      assert cache[k].username == member.username;
    }
  }

  /** `setMainPhoto`: members whose photos include the photo show its URL
      as their photo; photo flags and everyone else are left alone. */
  function SetMainPhoto(cache: seq<Member>, photo: MemberPhoto): (r: seq<Member>)
    ensures |r| == |cache|
    ensures forall i :: 0 <= i < |r| ==>
              && r[i].photos == cache[i].photos
              && r[i] == cache[i].(photoUrl := r[i].photoUrl)
              && (photo in cache[i].photos ==> r[i].photoUrl == photo.url)
              && (photo !in cache[i].photos ==> r[i] == cache[i])
  {
    if |cache| == 0 then []
    else
      var m := cache[0];
      [if photo in m.photos then m.(photoUrl := photo.url) else m] + SetMainPhoto(cache[1..], photo)
  }

  /** `deletePhoto`: members whose photos include the photo lose every
      photo with its id; everyone else is left alone. */
  function DeletePhoto(cache: seq<Member>, photo: MemberPhoto): (r: seq<Member>)
    ensures |r| == |cache|
    ensures forall i :: 0 <= i < |r| ==>
              && r[i] == cache[i].(photos := r[i].photos)
              && (photo !in cache[i].photos ==> r[i] == cache[i])
              && (photo in cache[i].photos ==>
                    && r[i].photos == WithoutId(cache[i].photos, photo.id)
                    && (forall q :: q in r[i].photos <==> q in cache[i].photos && q.id != photo.id)
                    && photo !in r[i].photos)
  {
    if |cache| == 0 then []
    else
      var m := cache[0];
      [if photo in m.photos then m.(photos := WithoutId(m.photos, photo.id)) else m] + DeletePhoto(cache[1..], photo)
  }

  /** `photos.filter(p => p.id !== id)`: every photo with another id is
      kept, as often as it occurs and in its place in the list. */
  function WithoutId(photos: seq<MemberPhoto>, id: int): (r: seq<MemberPhoto>)
    ensures forall q :: q in r <==> q in photos && q.id != id
    ensures forall q :: q in photos ==> multiset(r)[q] == if q.id != id then multiset(photos)[q] else 0
    ensures Seqs.Subsequence(r, photos)
  {
    Seqs.Filter(photos, (q: MemberPhoto) => q.id != id)
  }

  /** Neither photo update changes anything when repeated. */
  lemma PhotoUpdatesAreIdempotent(cache: seq<Member>, photo: MemberPhoto)
    ensures SetMainPhoto(SetMainPhoto(cache, photo), photo) == SetMainPhoto(cache, photo)
    ensures DeletePhoto(DeletePhoto(cache, photo), photo) == DeletePhoto(cache, photo)
  {
    var once := SetMainPhoto(cache, photo);
    var twice := SetMainPhoto(once, photo);
    forall i | 0 <= i < |cache| ensures twice[i] == once[i] {
    }
    var gone := DeletePhoto(cache, photo);
    var again := DeletePhoto(gone, photo);
    forall i | 0 <= i < |cache| ensures again[i] == gone[i] {
    }
  }
}
