/** The photo endpoints of `UsersController` over one user's photo list.
    The user is the result of looking the caller up by name (`None` when no
    such user exists); the cloud storage answers and the database save are
    oracle parameters, and a failed call leaves the user as it was. */
module Photos {
  import opened Wrappers
  import opened Entities
  import Likes

  /** Index of the first photo satisfying `p`. */
  function FirstIndex(photos: seq<Photo>, p: Photo -> bool): (r: Option<nat>)
    ensures r.None? <==> forall i :: 0 <= i < |photos| ==> !p(photos[i])
    ensures r.Some? ==> r.value < |photos| && p(photos[r.value])
                        && forall i :: 0 <= i < r.value ==> !p(photos[i])
  {
    if |photos| == 0 then None
    else if p(photos[0]) then Some(0)
    else
      match FirstIndex(photos[1..], p)
      case None => None
      case Some(i) => Some(i + 1)
  }

  function WithId(photoId: int): Photo -> bool {
    (ph: Photo) => ph.id == photoId
  }

  function IsMain(): Photo -> bool {
    (ph: Photo) => ph.isMain
  }

  /** At most one photo is the main one. */
  predicate AtMostOneMain(photos: seq<Photo>) {
    forall i, j :: 0 <= i < |photos| && 0 <= j < |photos| && photos[i].isMain && photos[j].isMain ==> i == j
  }

  /** What the storage service returns for an upload. */
  datatype Upload = Upload(secureUrl: string, publicId: string)

  /** `AddPhoto`: stores the uploaded photo at the end of the list; it is
      the main photo exactly when the user had none. `newId` is the id the
      database assigns. */
  function AddPhoto(user: Option<AppUser>, upload: Result<Upload>, newId: int, saveOk: bool): (r: Result<(AppUser, Photo)>)
    ensures user.None? ==> r == Failure("Cannot find user")
    ensures user.Some? && upload.Failure? ==> r == Failure(upload.error)
    ensures user.Some? && upload.Success? && !saveOk ==> r == Failure("Problem adding photo")
    ensures user.Some? && upload.Success? && saveOk ==> r.Success?
    ensures r.Success? ==>
              var (u, photo) := r.value;
              && u == user.value.(photos := user.value.photos + [photo])
              && photo == Photo(newId, upload.value.secureUrl, |user.value.photos| == 0, Some(upload.value.publicId))
    ensures r.Success? && AtMostOneMain(user.value.photos) ==> AtMostOneMain(r.value.0.photos)
  {
    if user.None? then Failure("Cannot find user")
    else if upload.Failure? then Failure(upload.error)
    else
      var u := user.value;
      var photo := Photo(newId, upload.value.secureUrl, |u.photos| == 0, Some(upload.value.publicId));
      var photos := u.photos + [photo];
      assert AtMostOneMain(u.photos) ==> AtMostOneMain(photos) by {
        if AtMostOneMain(u.photos) && |u.photos| == 0 {
          assert |photos| == 1;
        }
      }
      if saveOk then Success((u.(photos := photos), photo)) else Failure("Problem adding photo")
  }

  /** The first upload of a user becomes the main photo, and its URL is the
      one listings show. */
  lemma FirstPhotoBecomesMain(user: AppUser, upload: Upload, newId: int)
    requires user.photos == []
    ensures var r := AddPhoto(Some(user), Success(upload), newId, true);
            r.Success? && Likes.MainPhotoUrl(r.value.0.photos) == Some(upload.secureUrl)
  {
    var r := AddPhoto(Some(user), Success(upload), newId, true);
    assert r.value.0.photos == [r.value.1];
  }

  /** `SetmainPhoto`: the photo must exist and not be main already; the
      first main photo is cleared, then the chosen one is made main. */
  function SetMainPhoto(user: Option<AppUser>, photoId: int, saveOk: bool): (r: Result<AppUser>)
    ensures user.None? ==> r == Failure("Cannot find user")
    ensures user.Some? && (forall i :: 0 <= i < |user.value.photos| ==> user.value.photos[i].id != photoId)
            ==> r == Failure("Cannot user this as main photo")
    ensures r.Success? ==>
              && r.value == user.value.(photos := r.value.photos)
              && |r.value.photos| == |user.value.photos|
              && var k := FirstIndex(user.value.photos, WithId(photoId)).value;
                 && !user.value.photos[k].isMain
                 && r.value.photos[k] == user.value.photos[k].(isMain := true)
                 && forall i :: 0 <= i < |r.value.photos| && i != k ==>
                      r.value.photos[i] == user.value.photos[i].(isMain := false)
                      || r.value.photos[i] == user.value.photos[i]
    ensures r.Success? && AtMostOneMain(user.value.photos) ==>
              AtMostOneMain(r.value.photos)
              && forall i :: 0 <= i < |r.value.photos| ==> (r.value.photos[i].isMain <==> i == FirstIndex(user.value.photos, WithId(photoId)).value)
    ensures user.Some? && saveOk && (exists i :: 0 <= i < |user.value.photos| && user.value.photos[i].id == photoId
                                                 && (forall j :: 0 <= j < i ==> user.value.photos[j].id != photoId)
                                                 && !user.value.photos[i].isMain)
            ==> r.Success?
    ensures user.Some? ==>
              var f := FirstIndex(user.value.photos, WithId(photoId));
              f.Some? ==>
                && (user.value.photos[f.value].isMain ==> r == Failure("Cannot user this as main photo"))
                && (!user.value.photos[f.value].isMain && !saveOk ==> r == Failure("Problem setting main photo"))
  {
    if user.None? then Failure("Cannot find user")
    else
      var photos := user.value.photos;
      match FirstIndex(photos, WithId(photoId))
      case None => Failure("Cannot user this as main photo")
      case Some(k) =>
        if photos[k].isMain then Failure("Cannot user this as main photo")
        else
          var cleared := match FirstIndex(photos, IsMain())
                         case None => photos
                         case Some(m) => photos[m := photos[m].(isMain := false)];
          var updated := cleared[k := photos[k].(isMain := true)];
          assert AtMostOneMain(photos) ==> forall i :: 0 <= i < |updated| ==> (updated[i].isMain <==> i == k);
          if saveOk then Success(user.value.(photos := updated)) else Failure("Problem setting main photo")
  }

  /** After setting a main photo, listings show that photo's URL. */
  lemma SetMainPhotoShowsChosenUrl(user: AppUser, photoId: int)
    requires AtMostOneMain(user.photos)
    requires SetMainPhoto(Some(user), photoId, true).Success?
    ensures var k := FirstIndex(user.photos, WithId(photoId)).value;
            Likes.MainPhotoUrl(SetMainPhoto(Some(user), photoId, true).value.photos) == Some(user.photos[k].url)
  {
    var photos := SetMainPhoto(Some(user), photoId, true).value.photos;
    var k := FirstIndex(user.photos, WithId(photoId)).value;
    var url := Likes.MainPhotoUrl(photos);
    assert photos[k].isMain;
    var i :| 0 <= i < |photos| && photos[i].isMain && photos[i].url == url.value
             && forall j :: 0 <= j < i ==> !photos[j].isMain;
    assert i == k;
  }

  /** `DeletePhoto`: the photo must exist and not be the main one; a photo
      kept in cloud storage is deleted there first (`storageError` is that
      call's error, if any), then the photo is removed. */
  function DeletePhoto(user: Option<AppUser>, photoId: int, storageError: Option<string>, saveOk: bool): (r: Result<AppUser>)
    ensures user.None? ==> r == Failure("Cannot find user")
    ensures user.Some? && (forall i :: 0 <= i < |user.value.photos| ==> user.value.photos[i].id != photoId)
            ==> r == Failure("This photo cannot be deleted")
    ensures r.Success? ==>
              && r.value == user.value.(photos := r.value.photos)
              && var k := FirstIndex(user.value.photos, WithId(photoId)).value;
                 && !user.value.photos[k].isMain
                 && (user.value.photos[k].publicId.Some? ==> storageError.None?)
                 && multiset(r.value.photos) == multiset(user.value.photos) - multiset{user.value.photos[k]}
                 && r.value.photos == user.value.photos[..k] + user.value.photos[k + 1..]
    ensures r.Success? ==> saveOk
    ensures user.Some? ==>
              var f := FirstIndex(user.value.photos, WithId(photoId));
              f.Some? ==>
                var photo := user.value.photos[f.value];
                && (photo.isMain ==> r == Failure("This photo cannot be deleted"))
                && (!photo.isMain && photo.publicId.Some? && storageError.Some? ==> r == Failure(storageError.value))
                && (!photo.isMain && (photo.publicId.None? || storageError.None?) && !saveOk ==> r == Failure("Problem deleting photo"))
                && (!photo.isMain && (photo.publicId.None? || storageError.None?) && saveOk ==> r.Success?)
  {
    if user.None? then Failure("Cannot find user")
    else
      var photos := user.value.photos;
      match FirstIndex(photos, WithId(photoId))
      case None => Failure("This photo cannot be deleted")
      case Some(k) =>
        if photos[k].isMain then Failure("This photo cannot be deleted")
        else if photos[k].publicId.Some? && storageError.Some? then Failure(storageError.value)
        else
          var rest := photos[..k] + photos[k + 1..];
          RemoveAtMultiset(photos, k);
          if saveOk then Success(user.value.(photos := rest)) else Failure("Problem deleting photo")
  }

  /** Deleting a photo never touches the main one: the main photo URL shown
      in listings is the same before and after. */
  lemma DeletePhotoKeepsMain(user: AppUser, photoId: int, storageError: Option<string>)
    requires DeletePhoto(Some(user), photoId, storageError, true).Success?
    ensures Likes.MainPhotoUrl(DeletePhoto(Some(user), photoId, storageError, true).value.photos) == Likes.MainPhotoUrl(user.photos)
    ensures AtMostOneMain(user.photos) ==> AtMostOneMain(DeletePhoto(Some(user), photoId, storageError, true).value.photos)
  {
    var k := FirstIndex(user.photos, WithId(photoId)).value;
    MainPhotoUrlSkipsNonMain(user.photos, k);
    RemovalKeepsAtMostOneMain(user.photos, k);
  }

  lemma RemoveAtMultiset(photos: seq<Photo>, k: nat)
    requires k < |photos|
    ensures multiset(photos[..k] + photos[k + 1..]) == multiset(photos) - multiset{photos[k]}
  {
    assert photos == photos[..k] + [photos[k]] + photos[k + 1..];
  }

  lemma RemovalKeepsAtMostOneMain(photos: seq<Photo>, k: nat)
    requires k < |photos|
    ensures AtMostOneMain(photos) ==> AtMostOneMain(photos[..k] + photos[k + 1..])
  {
    var rest := photos[..k] + photos[k + 1..];
    if AtMostOneMain(photos) {
      forall i, j | 0 <= i < |rest| && 0 <= j < |rest| && rest[i].isMain && rest[j].isMain ensures i == j {
        var i' := if i < k then i else i + 1;
        var j' := if j < k then j else j + 1;
        assert rest[i] == photos[i'] && rest[j] == photos[j'];
      }
    }
  }

  /** Removing a photo that is not main leaves the first main photo's URL
      as it was. */
  lemma {:induction false} MainPhotoUrlSkipsNonMain(photos: seq<Photo>, k: nat)
    requires k < |photos| && !photos[k].isMain
    ensures Likes.MainPhotoUrl(photos[..k] + photos[k + 1..]) == Likes.MainPhotoUrl(photos)
  {
    if k == 0 {
      assert photos[..k] + photos[k + 1..] == photos[1..];
    } else {
      assert (photos[..k] + photos[k + 1..])[1..] == photos[1..][..k - 1] + photos[1..][k..];
      MainPhotoUrlSkipsNonMain(photos[1..], k - 1);
    }
  }
}
