/** The persisted entities the controllers and repositories work on. Dates
    and times are abstract: `Date` for a date of birth, `int` instants for
    `Created` / `LastActive`. */
module Entities {
  import opened Wrappers
  import Dates

  /** A stored photo; `publicId` is the cloud-storage key, absent for
      photos that were never uploaded there. */
  datatype Photo = Photo(id: int, url: string, isMain: bool, publicId: Option<string>)

  datatype AppUser = AppUser(id: int, userName: string, knownAs: string, gender: string,
                             dateOfBirth: Dates.Date, created: int, lastActive: int,
                             city: string, photos: seq<Photo>)

  /** A row of the likes table, keyed by the pair of user ids. */
  datatype UserLike = UserLike(sourceUserId: int, targetUserId: int)
}
