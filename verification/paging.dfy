/** Pagination: `PagedList` metadata and slicing, and the page-size clamp of
    `PaginationParams` and `UserParams`. Page numbers and sizes are C# `int`s;
    the skip offset is computed in 32-bit arithmetic and wraps. */
module Paging {
  import opened Wrappers
  import Seqs

  const MinInt32: int := -0x8000_0000
  const MaxInt32: int := 0x7fff_ffff

  type Int32 = x: int | MinInt32 <= x <= MaxInt32

  /** Two's-complement wrap-around of an unchecked 32-bit result. */
  function Wrap32(x: int): (r: Int32)
    ensures MinInt32 <= x <= MaxInt32 ==> r == x
  {
    (x - MinInt32) % 0x1_0000_0000 + MinInt32
  }

  /** Integer ceiling of `a / b`, for either sign of `b`. */
  function CeilDiv(a: int, b: int): (q: int)
    requires b != 0
    ensures b > 0 ==> (q - 1) * b < a <= q * b
    ensures b < 0 ==> q * b <= a < (q - 1) * b
  {
    if b > 0 then -((-a) / b) else -(a / (-b))
  }

  /** `Math.Ceiling(count / (double)pageSize)` cast to `int`. A zero page
      size divides by zero and casts an infinity or NaN, whose `int` value
      is platform-defined, so it is left unknown (`None`). */
  function TotalPages(count: nat, pageSize: Int32): (r: Option<int>)
    ensures r.None? <==> pageSize == 0
    ensures pageSize > 0 ==> r.Some? && (r.value - 1) * pageSize < count <= r.value * pageSize
    ensures pageSize > 0 ==> r.Some? && r.value >= 0
  {
    if pageSize == 0 then None else Some(CeilDiv(count, pageSize))
  }

  /** One page of results with the metadata sent to the client. */
  datatype PagedList<T> = PagedList(items: seq<T>, currentPage: Int32, totalPages: Option<int>,
                                    pageSize: Int32, totalCount: nat)

  /** The `PagedList` constructor: records its inputs and derives the number
      of pages. */
  function MakePagedList<T>(items: seq<T>, count: nat, pageNumber: Int32, pageSize: Int32): (r: PagedList<T>)
    ensures r.items == items
    ensures r.currentPage == pageNumber && r.pageSize == pageSize && r.totalCount == count
    ensures pageSize > 0 ==> r.totalPages.Some? && (r.totalPages.value - 1) * pageSize < count <= r.totalPages.value * pageSize
  {
    PagedList(items, pageNumber, TotalPages(count, pageSize), pageSize, count)
  }

  /** The offset `(pageNumber - 1) * pageSize`, in 32-bit arithmetic (the
      wrap of the subtraction followed by the wrap of the product equals one
      wrap of the exact product). */
  function SkipCount(pageNumber: Int32, pageSize: Int32): Int32 {
    Wrap32((pageNumber - 1) * pageSize)
  }

  /** `source.Skip(offset).Take(pageSize)`. */
  function PageAt<T>(source: seq<T>, offset: int, pageSize: int): (items: seq<T>)
    ensures |items| <= if pageSize < 0 then 0 else pageSize
    ensures multiset(items) <= multiset(source)
    ensures offset >= |source| ==> items == []
    ensures offset <= 0 && pageSize >= 0 ==> items == source[..if pageSize <= |source| then pageSize else |source|]
    ensures 0 <= offset <= |source| && pageSize >= 0 ==>
              items == source[offset..if offset + pageSize <= |source| then offset + pageSize else |source|]
  {
    var rest := Seqs.Skip(source, offset);
    assert multiset(rest) <= multiset(source) by {
      if 0 < offset < |source| {
        assert source == source[..offset] + source[offset..];
      }
    }
    var items := Seqs.Take(rest, pageSize);
    assert multiset(items) <= multiset(rest) by {
      if 0 < pageSize < |rest| {
        assert rest == rest[..pageSize] + rest[pageSize..];
      }
    }
    items
  }

  /** Every item on a page comes from the source. */
  lemma PageItemInSource<T>(source: seq<T>, offset: int, pageSize: int, x: T)
    requires x in PageAt(source, offset, pageSize)
    ensures x in source
  {
    assert x in multiset(PageAt(source, offset, pageSize));
  }

  /** `PagedList.CreateAsync`: counts the whole source and keeps the
      requested page of it. */
  function CreatePage<T>(source: seq<T>, pageNumber: Int32, pageSize: Int32): (r: PagedList<T>)
    ensures r.totalCount == |source|
    ensures r.currentPage == pageNumber && r.pageSize == pageSize
    ensures r.totalPages == TotalPages(|source|, pageSize)
    ensures r.items == PageAt(source, SkipCount(pageNumber, pageSize), pageSize)
  {
    MakePagedList(PageAt(source, SkipCount(pageNumber, pageSize), pageSize), |source|, pageNumber, pageSize)
  }

  /** Without overflow the page is taken at the mathematical offset
      `(pageNumber - 1) * pageSize` (so it is the slice of `pageSize` items
      from there, by `PageAt`), and it is empty once that offset reaches the
      end of the source. */
  lemma PageIsSlice<T>(source: seq<T>, pageNumber: Int32, pageSize: Int32)
    requires pageNumber >= 1 && pageSize > 0
    requires (pageNumber - 1) * pageSize <= MaxInt32
    ensures CreatePage(source, pageNumber, pageSize).items == PageAt(source, (pageNumber - 1) * pageSize, pageSize)
    ensures (pageNumber - 1) * pageSize >= |source| ==> CreatePage(source, pageNumber, pageSize).items == []
  {
    SkipCountExact(pageNumber, pageSize);
  }

  lemma SkipCountExact(pageNumber: Int32, pageSize: Int32)
    requires pageNumber >= 1 && pageSize > 0
    requires (pageNumber - 1) * pageSize <= MaxInt32
    ensures SkipCount(pageNumber, pageSize) == (pageNumber - 1) * pageSize >= 0
  {
    MulNonNegative(pageNumber - 1, pageSize);
  }

  lemma MulPredecessor(n: int, b: int)
    ensures n * b == (n - 1) * b + b
  {
  }

  lemma MulNonNegative(a: int, b: int)
    requires a >= 0 && b >= 0
    ensures a * b >= 0
  {
  }

  /** Pages `1..n` laid end to end. */
  function FirstPages<T>(source: seq<T>, pageSize: Int32, n: nat): seq<T>
    requires n <= MaxInt32
  {
    if n == 0 then [] else FirstPages(source, pageSize, n - 1) + CreatePage(source, n, pageSize).items
  }

  /** Page `n` extends the first `n - 1` pages by the slice at offset
      `(n - 1) * pageSize`. */
  lemma FirstPagesStep<T>(source: seq<T>, pageSize: Int32, n: nat)
    requires pageSize > 0 && 1 <= n <= MaxInt32
    requires (n - 1) * pageSize <= MaxInt32
    ensures FirstPages(source, pageSize, n) == FirstPages(source, pageSize, n - 1) + PageAt(source, (n - 1) * pageSize, pageSize)
  {
    PageIsSlice(source, n, pageSize);
  }

  /** The first `n` pages are the first `n * pageSize` items of the source. */
  lemma {:induction false} FirstPagesArePrefix<T>(source: seq<T>, pageSize: Int32, n: nat)
    requires pageSize > 0 && n <= MaxInt32
    requires n == 0 || (n - 1) * pageSize <= MaxInt32
    ensures FirstPages(source, pageSize, n) == Seqs.Take(source, n * pageSize)
  {
    if n > 0 {
      if n > 1 {
        MulPredecessor(n - 1, pageSize);
        MulNonNegative(n - 2, pageSize);
      }
      FirstPagesArePrefix(source, pageSize, n - 1);
      PrefixStep(source, pageSize, n);
    }
  }

  /** The inductive step of `FirstPagesArePrefix`: one more page extends the
      prefix by one page size. */
  lemma PrefixStep<T>(source: seq<T>, pageSize: Int32, n: nat)
    requires pageSize > 0 && 1 <= n <= MaxInt32
    requires (n - 1) * pageSize <= MaxInt32
    requires FirstPages(source, pageSize, n - 1) == Seqs.Take(source, (n - 1) * pageSize)
    ensures FirstPages(source, pageSize, n) == Seqs.Take(source, n * pageSize)
  {
    var a := (n - 1) * pageSize;
    MulNonNegative(n - 1, pageSize);
    FirstPagesStep(source, pageSize, n);
    TakeThenPage(source, a, pageSize);
    MulPredecessor(n, pageSize);
  }

  /** The prefix of length `a` followed by the page at offset `a` is the
      prefix of length `a + pageSize`. */
  lemma TakeThenPage<T>(source: seq<T>, a: int, pageSize: int)
    requires a >= 0 && pageSize > 0
    ensures Seqs.Take(source, a) + PageAt(source, a, pageSize) == Seqs.Take(source, a + pageSize)
  {
    if a < |source| {
      var b := if a + pageSize <= |source| then a + pageSize else |source|;
      assert source[..a] + source[a..b] == source[..b];
    }
  }

  /** Walking every page `1..TotalPages` returns the whole source, in order
      and without repetition. */
  lemma PagesCoverSource<T>(source: seq<T>, pageSize: Int32)
    requires pageSize > 0 && |source| <= MaxInt32
    ensures var n := TotalPages(|source|, pageSize).value;
            0 <= n <= MaxInt32 && FirstPages(source, pageSize, n) == source
  {
    var n := TotalPages(|source|, pageSize).value;
    if n > 0 {
      var a := (n - 1) * pageSize;
      assert a < |source|;
      MulNonNegative(n - 1, pageSize - 1);
      assert (n - 1) * (pageSize - 1) == a - (n - 1);
      assert n * pageSize >= |source|;
    }
    FirstPagesArePrefix(source, pageSize, n);
  }

  // ---- request parameters ----

  const MaxPageSize: Int32 := 50

  /** The `PageSize` setter: values above the maximum are capped, all others
      (zero and negatives included) are stored as given. */
  function ClampPageSize(v: Int32): (r: Int32)
    ensures v > MaxPageSize ==> r == MaxPageSize
    ensures v <= MaxPageSize ==> r == v
    ensures r <= MaxPageSize
  {
    if v > MaxPageSize then MaxPageSize else v
  }

  datatype PaginationParams = PaginationParams(pageNumber: Int32, pageSize: Int32)

  /** A freshly bound `PaginationParams`. */
  function DefaultPaginationParams(): (p: PaginationParams)
    ensures p.pageNumber == 1 && p.pageSize == 10
  {
    PaginationParams(1, 10)
  }

  function SetPageNumber(p: PaginationParams, v: Int32): (r: PaginationParams)
    ensures r.pageNumber == v && r.pageSize == p.pageSize
  {
    p.(pageNumber := v)
  }

  function SetPageSize(p: PaginationParams, v: Int32): (r: PaginationParams)
    ensures r.pageNumber == p.pageNumber
    ensures v > MaxPageSize ==> r.pageSize == MaxPageSize
    ensures v <= MaxPageSize ==> r.pageSize == v
  {
    p.(pageSize := ClampPageSize(v))
  }

  /** A property assignment made by model binding. */
  datatype PaginationAssignment = AssignPageNumber(n: Int32) | AssignPageSize(n: Int32)

  function Bind(p: PaginationParams, assignments: seq<PaginationAssignment>): PaginationParams
    decreases |assignments|
  {
    if |assignments| == 0 then p
    else
      var p' := match assignments[0]
        case AssignPageNumber(n) => SetPageNumber(p, n)
        case AssignPageSize(n) => SetPageSize(p, n);
      Bind(p', assignments[1..])
  }

  /** Starting from the defaults, no sequence of assignments can push the
      page size above the maximum. */
  lemma {:induction false} BoundPageSizeAtMost50(p: PaginationParams, assignments: seq<PaginationAssignment>)
    requires p.pageSize <= MaxPageSize
    ensures Bind(p, assignments).pageSize <= MaxPageSize
    decreases |assignments|
  {
    if |assignments| > 0 {
      var p' := match assignments[0]
        case AssignPageNumber(n) => SetPageNumber(p, n)
        case AssignPageSize(n) => SetPageSize(p, n);
      BoundPageSizeAtMost50(p', assignments[1..]);
    }
  }

  lemma DefaultBindingRespectsMax(assignments: seq<PaginationAssignment>)
    ensures Bind(DefaultPaginationParams(), assignments).pageSize <= MaxPageSize
  {
    BoundPageSizeAtMost50(DefaultPaginationParams(), assignments);
  }

  /** The member-search request: paging plus the search filters. */
  datatype UserParams = UserParams(pageNumber: Int32, pageSize: Int32, gender: Option<string>,
                                   currentUsername: Option<string>, minAge: Int32, maxAge: Int32,
                                   orderBy: string)

  /** A freshly bound `UserParams`. */
  function DefaultUserParams(): (p: UserParams)
    ensures p.pageNumber == 1 && p.pageSize == 10
    ensures p.minAge == 18 && p.maxAge == 100 && p.orderBy == "lastActive"
    ensures p.gender.None? && p.currentUsername.None?
  {
    UserParams(1, 10, None, None, 18, 100, "lastActive")
  }

  /** The `UserParams.PageSize` setter: the same cap as `PaginationParams`. */
  function SetUserPageSize(p: UserParams, v: Int32): (r: UserParams)
    ensures v > MaxPageSize ==> r.pageSize == MaxPageSize
    ensures v <= MaxPageSize ==> r.pageSize == v
    ensures r == p.(pageSize := r.pageSize)
  {
    p.(pageSize := ClampPageSize(v))
  }

  /** A property assignment made by model binding of a `UserParams`. */
  datatype UserParamsAssignment =
    | AssignUserPageNumber(n: Int32) | AssignUserPageSize(n: Int32)
    | AssignGender(gender: Option<string>) | AssignCurrentUsername(name: Option<string>)
    | AssignMinAge(age: Int32) | AssignMaxAge(age: Int32) | AssignOrderBy(orderBy: string)

  function AssignUser(p: UserParams, a: UserParamsAssignment): UserParams {
    match a
    case AssignUserPageNumber(n) => p.(pageNumber := n)
    case AssignUserPageSize(n) => SetUserPageSize(p, n)
    case AssignGender(g) => p.(gender := g)
    case AssignCurrentUsername(u) => p.(currentUsername := u)
    case AssignMinAge(n) => p.(minAge := n)
    case AssignMaxAge(n) => p.(maxAge := n)
    case AssignOrderBy(o) => p.(orderBy := o)
  }

  function BindUser(p: UserParams, assignments: seq<UserParamsAssignment>): UserParams
    decreases |assignments|
  {
    if |assignments| == 0 then p else BindUser(AssignUser(p, assignments[0]), assignments[1..])
  }

  /** No sequence of assignments pushes the page size above the maximum. */
  lemma {:induction false} BindUserPageSizeAtMost50(p: UserParams, assignments: seq<UserParamsAssignment>)
    requires p.pageSize <= MaxPageSize
    ensures BindUser(p, assignments).pageSize <= MaxPageSize
    decreases |assignments|
  {
    if |assignments| > 0 {
      BindUserPageSizeAtMost50(AssignUser(p, assignments[0]), assignments[1..]);
    }
  }

  lemma DefaultUserBindingRespectsMax(assignments: seq<UserParamsAssignment>)
    ensures BindUser(DefaultUserParams(), assignments).pageSize <= MaxPageSize
  {
    BindUserPageSizeAtMost50(DefaultUserParams(), assignments);
  }
}
