/** `UserRepository`: user lookup by name and the member-search pipeline of
    `GetMembersAsync`, over the users table given as a sequence. */
module UserRepository {
  import opened Wrappers
  import Seqs
  import Dates
  import Paging
  import opened Entities

  /** `SingleOrDefault`: no match, the one match, or more than one (which
      throws). */
  datatype Lookup<T> = NoMatch | Single(value: T) | Multiple

  /** The first index at or after `from` whose user has this name. */
  function FindFrom(users: seq<AppUser>, name: string, from: nat): (r: Option<nat>)
    requires from <= |users|
    ensures r.None? <==> forall j :: from <= j < |users| ==> users[j].userName != name
    ensures r.Some? ==> from <= r.value < |users| && users[r.value].userName == name
                        && forall j :: from <= j < r.value ==> users[j].userName != name
    decreases |users| - from
  {
    if from == |users| then None
    else if users[from].userName == name then Some(from)
    else FindFrom(users, name, from + 1)
  }

  /** `GetUserByNameAsync`. */
  function GetUserByName(users: seq<AppUser>, name: string): (r: Lookup<AppUser>)
    ensures r.NoMatch? <==> forall i :: 0 <= i < |users| ==> users[i].userName != name
    ensures r.Single? ==> exists i :: 0 <= i < |users| && users[i] == r.value && r.value.userName == name
                                      && forall j :: 0 <= j < |users| && j != i ==> users[j].userName != name
    ensures r.Multiple? <==> exists i, j :: 0 <= i < j < |users| && users[i].userName == name && users[j].userName == name
  {
    match FindFrom(users, name, 0)
    case None => NoMatch
    case Some(i) =>
      match FindFrom(users, name, i + 1)
      case None => Single(users[i])
      case Some(j) =>
        assert users[i].userName == name && users[j].userName == name;
        Multiple
  }

  // ---- GetMembersAsync ----

  /** Oldest admissible date of birth: `today.AddYears(-MaxAge - 1)`, the
      year count computed in 32-bit arithmetic. */
  function MinDob(p: Paging.UserParams, today: Dates.Date): Dates.Date {
    Dates.AddYears(today, Paging.Wrap32(-(p.maxAge as int) - 1))
  }

  /** Youngest admissible date of birth: `today.AddYears(-MinAge)`, the
      year count computed in 32-bit arithmetic. */
  function MaxDob(p: Paging.UserParams, today: Dates.Date): Dates.Date {
    Dates.AddYears(today, Paging.Wrap32(-(p.minAge as int)))
  }

  predicate NotCurrentUser(p: Paging.UserParams, u: AppUser) {
    p.currentUsername != Some(u.userName)
  }

  predicate GenderMatches(p: Paging.UserParams, u: AppUser) {
    p.gender.None? || u.gender == p.gender.value
  }

  predicate InDobWindow(p: Paging.UserParams, today: Dates.Date, u: AppUser) {
    Dates.OnOrBefore(MinDob(p, today), u.dateOfBirth) && Dates.OnOrBefore(u.dateOfBirth, MaxDob(p, today))
  }

  /** The three `Where` clauses together. */
  predicate IsCandidate(p: Paging.UserParams, today: Dates.Date, u: AppUser) {
    NotCurrentUser(p, u) && GenderMatches(p, u) && InDobWindow(p, today, u)
  }

  predicate NewerCreated(a: AppUser, b: AppUser) {
    a.created >= b.created
  }

  predicate NewerActive(a: AppUser, b: AppUser) {
    a.lastActive >= b.lastActive
  }

  /** The `OrderBy` switch: `"created"` orders by creation time, anything
      else by last activity, both newest first. */
  function MemberOrder(orderBy: string): (AppUser, AppUser) -> bool {
    if orderBy == "created" then NewerCreated else NewerActive
  }

  lemma MemberOrderIsTotalPreorder(orderBy: string)
    ensures Seqs.TotalPreorder(MemberOrder(orderBy))
  {
  }

  /** Every user the search admits, in table order. */
  function Candidates(users: seq<AppUser>, p: Paging.UserParams, today: Dates.Date): (r: seq<AppUser>)
    ensures forall u :: u in r <==> u in users && IsCandidate(p, today, u)
    ensures multiset(r) <= multiset(users)
  {
    Seqs.Filter(users, u => IsCandidate(p, today, u))
  }

  /** The candidates in the requested order. */
  function OrderedCandidates(users: seq<AppUser>, p: Paging.UserParams, today: Dates.Date): (r: seq<AppUser>)
    ensures Seqs.SortedBy(r, MemberOrder(p.orderBy))
    ensures multiset(r) == multiset(Candidates(users, p, today))
  {
    MemberOrderIsTotalPreorder(p.orderBy);
    Seqs.Sort(Candidates(users, p, today), MemberOrder(p.orderBy))
  }

  /** `GetMembersAsync`: excludes the current user, applies the gender filter
      when one is given and the date-of-birth window, orders newest first and
      pages the result. */
  function GetMembers(users: seq<AppUser>, p: Paging.UserParams, today: Dates.Date): (r: Paging.PagedList<AppUser>)
    ensures forall u :: u in r.items ==> u in users && IsCandidate(p, today, u)
    ensures r.totalCount == |Candidates(users, p, today)|
    ensures r.totalPages == Paging.TotalPages(r.totalCount, p.pageSize)
    ensures Seqs.SortedBy(r.items, MemberOrder(p.orderBy))
    ensures r.currentPage == p.pageNumber && r.pageSize == p.pageSize
    ensures r.items == Paging.PageAt(OrderedCandidates(users, p, today), Paging.SkipCount(p.pageNumber, p.pageSize), p.pageSize)
  {
    var notMe := Seqs.Filter(users, u => NotCurrentUser(p, u));
    var byGender := if p.gender.Some? then Seqs.Filter(notMe, (u: AppUser) => u.gender == p.gender.value) else notMe;
    var inWindow := Seqs.Filter(byGender, u => InDobWindow(p, today, u));
    CandidatesAreFilteredInSteps(users, p, today);
    assert inWindow == Candidates(users, p, today);
    MemberOrderIsTotalPreorder(p.orderBy);
    var ordered := Seqs.Sort(inWindow, MemberOrder(p.orderBy));
    assert ordered == OrderedCandidates(users, p, today);
    var r := Paging.CreatePage(ordered, p.pageNumber, p.pageSize);
    SortedPage(ordered, Paging.SkipCount(p.pageNumber, p.pageSize), p.pageSize, MemberOrder(p.orderBy));
    assert forall u :: u in r.items ==> u in multiset(ordered);
    r
  }

  /** Applying the `Where` clauses one after another keeps exactly the
      candidates, in table order. */
  lemma CandidatesAreFilteredInSteps(users: seq<AppUser>, p: Paging.UserParams, today: Dates.Date)
    ensures var notMe := Seqs.Filter(users, u => NotCurrentUser(p, u));
            var byGender := if p.gender.Some? then Seqs.Filter(notMe, (u: AppUser) => u.gender == p.gender.value) else notMe;
            Seqs.Filter(byGender, u => InDobWindow(p, today, u)) == Candidates(users, p, today)
  {
    var notMeP := u => NotCurrentUser(p, u);
    var windowP := u => InDobWindow(p, today, u);
    var candidateP := u => IsCandidate(p, today, u);
    if p.gender.Some? {
      var genderP := (u: AppUser) => u.gender == p.gender.value;
      var mineAndGender := u => NotCurrentUser(p, u) && u.gender == p.gender.value;
      Seqs.FilterTwice(users, notMeP, genderP, mineAndGender);
      Seqs.FilterTwice(users, mineAndGender, windowP, candidateP);
    } else {
      Seqs.FilterTwice(users, notMeP, windowP, candidateP);
    }
  }

  /** A page of a sorted sequence is sorted. */
  lemma SortedPage<T>(s: seq<T>, offset: int, pageSize: int, le: (T, T) -> bool)
    requires Seqs.SortedBy(s, le)
    ensures Seqs.SortedBy(Paging.PageAt(s, offset, pageSize), le)
  {
    var page := Paging.PageAt(s, offset, pageSize);
    if 0 <= offset <= |s| && pageSize >= 0 {
      var b := if offset + pageSize <= |s| then offset + pageSize else |s|;
      assert page == s[offset..b];
      forall i, j | 0 <= i < j < |page| ensures le(page[i], page[j]) {
        assert page[i] == s[offset + i] && page[j] == s[offset + j];
      }
    }
  }

  /** The date-of-birth window in terms of age: a user passes exactly when
      they are at least `MinAge` and at most `MaxAge` years old, or when today
      is their `MaxAge + 1`-th birthday (the window's lower bound is
      inclusive, so that one day of the next year of age is let through). */
  lemma DobWindowIsAgeRange(p: Paging.UserParams, today: Dates.Date, u: AppUser)
    requires Dates.Valid(today) && Dates.Valid(u.dateOfBirth)
    requires p.minAge != Paging.MinInt32 && p.maxAge != Paging.MinInt32
    ensures InDobWindow(p, today, u) <==>
              var age := Dates.CalculateAge(u.dateOfBirth, today);
              p.minAge <= age && (age <= p.maxAge || u.dateOfBirth == MinDob(p, today))
  {
    Dates.AgeAtLeastIffBornBy(u.dateOfBirth, today, p.minAge);
    Dates.AgeAtLeastIffBornBy(u.dateOfBirth, today, p.maxAge + 1);
    assert MaxDob(p, today) == Dates.AddYears(today, -p.minAge);
    assert MinDob(p, today) == Dates.AddYears(today, -(p.maxAge + 1));
  }

  /** The inclusive lower bound admits a user on their `MaxAge + 1`-th
      birthday: with the default `MaxAge` of 100, someone turning 101 today
      is still listed. */
  lemma OldestBoundaryIsIncluded()
    ensures var p := Paging.DefaultUserParams();
            var today := Dates.Date(2024, 6, 15);
            var u := AppUser(1, "ann", "Ann", "female", Dates.Date(1923, 6, 15), 0, 0, "Oslo", []);
            IsCandidate(p, today, u) && Dates.CalculateAge(u.dateOfBirth, today) == 101
  {
  }
}
