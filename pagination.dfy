/** Framework-free pagination values: sort orders, validated page requests, and the page and
    slice results with their navigation flags. */
module Pagination {
  import opened Common

  // ---------------------------------------------------------------- Sort

  datatype Direction = ASC | DESC

  /** One sort key: a property and its direction. The record accepts a null direction (None),
      which is neither ascending nor descending. */
  datatype Order = Order(direction: Option<Direction>, property: string)
  {
    predicate IsAscending()
      ensures !(IsAscending() && IsDescending())
      ensures direction.Some? ==> (IsAscending() <==> !IsDescending())
      ensures direction.None? ==> !IsAscending() && !IsDescending()
    {
      direction.Some? && direction.value.ASC?
    }

    predicate IsDescending()
    {
      direction.Some? && direction.value.DESC?
    }
  }

  function Asc(property: string): (o: Order)
    ensures o.IsAscending() && o.property == property
  {
    Order(Some(ASC), property)
  }

  function Desc(property: string): (o: Order)
    ensures o.IsDescending() && o.property == property
  {
    Order(Some(DESC), property)
  }

  /** A sort: its orders, most significant first. */
  datatype Sort = Sort(orders: seq<Order>)
  {
    predicate IsSorted()
      ensures IsSorted() <==> !IsUnsorted()
    {
      orders != []
    }

    predicate IsUnsorted()
    {
      orders == []
    }

    /** This sort's orders, then the other's. */
    function And(other: Sort): (r: Sort)
      ensures |r.orders| == |orders| + |other.orders|
      ensures r.orders[..|orders|] == orders && r.orders[|orders|..] == other.orders
    {
      Sort(orders + other.orders)
    }
  }

  function Unsorted(): (s: Sort)
    ensures s.IsUnsorted() && !s.IsSorted()
  {
    Sort([])
  }

  /** by(Order...): the given orders, in the given order. */
  function ByOrders(orders: seq<Order>): (s: Sort)
    ensures s.orders == orders
    ensures s.IsSorted() <==> |orders| > 0
  {
    Sort(orders)
  }

  /** by(String...): one ascending order per property, in property order. */
  method By(properties: seq<string>) returns (s: Sort)
    ensures |s.orders| == |properties|
    ensures forall i :: 0 <= i < |properties| ==> s.orders[i].IsAscending() && s.orders[i].property == properties[i]
  {
    var orders: seq<Order> := [];
    for i := 0 to |properties|
      invariant |orders| == i
      invariant forall j :: 0 <= j < i ==> orders[j] == Asc(properties[j])
    {
      orders := orders + [Asc(properties[i])];
    }
    s := Sort(orders);
  }

  /** by(Direction, String...): one order per property, all in the given direction; a null
      direction (None) is accepted and gives orders that are neither ascending nor descending. */
  method ByDirection(direction: Option<Direction>, properties: seq<string>) returns (s: Sort)
    ensures |s.orders| == |properties|
    ensures forall i :: 0 <= i < |properties| ==> s.orders[i] == Order(direction, properties[i])
    ensures direction.None? ==> forall o :: o in s.orders ==> !o.IsAscending() && !o.IsDescending()
  {
    var orders: seq<Order> := [];
    for i := 0 to |properties|
      invariant |orders| == i
      invariant forall j :: 0 <= j < i ==> orders[j] == Order(direction, properties[j])
    {
      orders := orders + [Order(direction, properties[i])];
    }
    s := Sort(orders);
  }

  /** The unsorted sort is a left and right identity of and. */
  lemma UnsortedIsIdentity(s: Sort)
    ensures Unsorted().And(s) == s && s.And(Unsorted()) == s
  {
    assert [] + s.orders == s.orders;
    assert s.orders + [] == s.orders;
  }

  lemma AndIsAssociative(a: Sort, b: Sort, c: Sort)
    ensures a.And(b).And(c) == a.And(b.And(c))
  {
    assert (a.orders + b.orders) + c.orders == a.orders + (b.orders + c.orders);
  }

  /** A combined sort sorts by something exactly when one of its parts does. */
  lemma AndIsSorted(a: Sort, b: Sort)
    ensures a.And(b).IsSorted() <==> a.IsSorted() || b.IsSorted()
  {
  }

  // ---------------------------------------------------------------- PageRequest

  const DEFAULT_PAGE_SIZE: Int32 := 20
  const MAX_PAGE_SIZE: Int32 := 100

  /** A page request as a record. Every request the compact constructor lets through is Valid. */
  datatype PageRequest = PageRequest(pageNumber: Int32, pageSize: Int32, sort: Sort)

  predicate Valid(r: PageRequest)
  {
    0 <= r.pageNumber && 1 <= r.pageSize <= MAX_PAGE_SIZE
  }

  /** The compact constructor: rejects a negative page number, then a page size below one,
      and clamps a page size above the maximum. */
  function NewPageRequest(pageNumber: Int32, pageSize: Int32, sort: Sort): (r: Result<PageRequest, IllegalArgument>)
    ensures pageNumber < 0 ==> r == Err(IllegalArgument("Page number must not be negative"))
    ensures 0 <= pageNumber && pageSize < 1 ==> r == Err(IllegalArgument("Page size must be at least 1"))
    ensures r.Ok? <==> 0 <= pageNumber && 1 <= pageSize
    ensures r.Ok? ==> Valid(r.value) && r.value.pageNumber == pageNumber && r.value.sort == sort
    ensures r.Ok? && pageSize <= MAX_PAGE_SIZE ==> r.value.pageSize == pageSize
    ensures r.Ok? && pageSize > MAX_PAGE_SIZE ==> r.value.pageSize == MAX_PAGE_SIZE
  {
    if pageNumber < 0 then Err(IllegalArgument("Page number must not be negative"))
    else if pageSize < 1 then Err(IllegalArgument("Page size must be at least 1"))
    else Ok(PageRequest(pageNumber, if pageSize > MAX_PAGE_SIZE then MAX_PAGE_SIZE else pageSize, sort))
  }

  /** of(pageNumber, pageSize): an unsorted request. */
  function Of(pageNumber: Int32, pageSize: Int32): (r: Result<PageRequest, IllegalArgument>)
    ensures r == NewPageRequest(pageNumber, pageSize, Unsorted())
    ensures r.Ok? ==> r.value.sort.IsUnsorted()
  {
    NewPageRequest(pageNumber, pageSize, Unsorted())
  }

  /** of(pageNumber, pageSize, sort). */
  function OfSorted(pageNumber: Int32, pageSize: Int32, sort: Sort): (r: Result<PageRequest, IllegalArgument>)
    ensures r.Ok? <==> 0 <= pageNumber && 1 <= pageSize
    ensures r.Ok? ==> r.value.sort == sort && Valid(r.value)
  {
    NewPageRequest(pageNumber, pageSize, sort)
  }

  /** first(pageSize): page 0 of the given size. */
  function FirstOf(pageSize: Int32): (r: Result<PageRequest, IllegalArgument>)
    ensures r.Ok? <==> 1 <= pageSize
    ensures r.Err? ==> r.error == IllegalArgument("Page size must be at least 1")
    ensures r.Ok? ==> r.value.pageNumber == 0 && r.value.sort.IsUnsorted() && Valid(r.value)
  {
    Of(0, pageSize)
  }

  /** first(): page 0 of the default size, unsorted. */
  function First(): (r: PageRequest)
    ensures r.pageNumber == 0 && r.pageSize == DEFAULT_PAGE_SIZE && r.sort.IsUnsorted() && Valid(r)
  {
    FirstOf(DEFAULT_PAGE_SIZE).value
  }

  /** getOffset: the index of the page's first element, computed in 64 bits. */
  function GetOffset(r: PageRequest): (offset: Int64)
    requires Valid(r)
    ensures offset == r.pageNumber * r.pageSize
    ensures 0 <= offset <= INT_MAX * MAX_PAGE_SIZE
  {
    OffsetBounds(r.pageNumber, r.pageSize);
    r.pageNumber * r.pageSize
  }

  lemma OffsetBounds(n: nat, size: nat)
    requires n <= INT_MAX && 1 <= size <= MAX_PAGE_SIZE
    ensures 0 <= n * size <= INT_MAX * MAX_PAGE_SIZE
  {
    MulMonotone(0, n, size);
    MulMonotone(n, INT_MAX, size);
    MulMonotone(size, MAX_PAGE_SIZE, INT_MAX);
  }

  lemma MulMonotone(a: int, b: int, c: int)
    requires a <= b && 0 <= c
    ensures a * c <= b * c && c * a <= c * b
  {
    assert b * c - a * c == (b - a) * c;
  }

  /** The sign of a product with a positive factor is the sign of the other factor. */
  lemma ProductSign(c: int, b: int)
    requires b > 0
    ensures c > 0 ==> c * b > 0
    ensures c == 0 ==> c * b == 0
    ensures c < 0 ==> c * b < 0
  {
    if c > 0 {
      MulMonotone(1, c, b);
    } else if c < 0 {
      MulMonotone(c, -1, b);
    }
  }

  /** next: the page number plus one in int arithmetic, through the constructor; at the largest
      int the number wraps to a negative one and the constructor rejects it. */
  function Next(r: PageRequest): (n: Result<PageRequest, IllegalArgument>)
    requires Valid(r)
    ensures r.pageNumber < INT_MAX ==> n == Ok(r.(pageNumber := r.pageNumber + 1))
    ensures r.pageNumber == INT_MAX ==> n == Err(IllegalArgument("Page number must not be negative"))
  {
    NewPageRequest(Wrap32(r.pageNumber + 1), r.pageSize, r.sort)
  }

  /** previous: page 0 is its own previous; any other page steps back by one. */
  function Previous(r: PageRequest): (p: PageRequest)
    requires Valid(r)
    ensures Valid(p) && p.pageSize == r.pageSize && p.sort == r.sort
    ensures r.pageNumber == 0 ==> p == r
    ensures r.pageNumber > 0 ==> p.pageNumber == r.pageNumber - 1
  {
    if r.pageNumber == 0 then r else NewPageRequest(r.pageNumber - 1, r.pageSize, r.sort).value
  }

  /** withSort: the same page under another sort. */
  function WithSort(r: PageRequest, sort: Sort): (w: PageRequest)
    requires Valid(r)
    ensures Valid(w) && w.pageNumber == r.pageNumber && w.pageSize == r.pageSize && w.sort == sort
  {
    NewPageRequest(r.pageNumber, r.pageSize, sort).value
  }

  /** Stepping forward then back returns the original request. */
  lemma PreviousUndoesNext(r: PageRequest)
    requires Valid(r) && r.pageNumber < INT_MAX
    ensures Next(r).Ok? && Previous(Next(r).value) == r
  {
  }

  /** Stepping back from a page other than the first, then forward, returns the original request. */
  lemma NextUndoesPrevious(r: PageRequest)
    requires Valid(r) && r.pageNumber > 0
    ensures Next(Previous(r)) == Ok(r)
  {
  }

  /** The next page starts right after this one; the previous one ends right before it. */
  lemma OffsetAdvancesByPageSize(r: PageRequest)
    requires Valid(r) && r.pageNumber < INT_MAX
    ensures Next(r).Ok? && GetOffset(Next(r).value) == GetOffset(r) + r.pageSize
    ensures r.pageNumber > 0 ==> GetOffset(Previous(r)) == GetOffset(r) - r.pageSize
  {
    var n := Next(r).value;
    assert GetOffset(n) == (r.pageNumber + 1) * r.pageSize;
    if r.pageNumber > 0 {
      assert GetOffset(Previous(r)) == (r.pageNumber - 1) * r.pageSize;
    }
  }

  // ---------------------------------------------------------------- Page

  /** Math.ceil(a / b) of the quotient, for b != 0. */
  function CeilDiv(a: int, b: int): (q: int)
    requires b != 0
    ensures b > 0 ==> (q - 1) * b < a <= q * b
    ensures b < 0 ==> (q - 1) * -b < -a <= q * -b
  {
    if b > 0 then CeilDivPositive(a, b) else CeilDivPositive(-a, -b)
  }

  function CeilDivPositive(a: int, b: int): (q: int)
    requires b > 0
    ensures (q - 1) * b < a <= q * b
  {
    var q := (a + b - 1) / b;
    var m := (a + b - 1) % b;
    assert a + b - 1 == q * b + m && 0 <= m < b;
    assert (q - 1) * b == q * b - b;
    q
  }

  /** The (int) cast of an integral double: saturates at the int range. */
  function SaturateToInt(x: int): (r: Int32)
    ensures INT_MIN <= x <= INT_MAX ==> r == x
    ensures x > INT_MAX ==> r == INT_MAX
    ensures x < INT_MIN ==> r == INT_MIN
  {
    if x > INT_MAX then INT_MAX else if x < INT_MIN then INT_MIN else x
  }

  /** (int) Math.ceil((double) totalElements / pageSize). A zero page size divides to positive or
      negative infinity (cast to the largest or smallest int) or, for 0 / 0, to NaN (cast to 0). */
  function TotalPages(totalElements: Int64, pageSize: Int32): (t: Int32)
    ensures pageSize > 0 && INT_MIN < t < INT_MAX ==> (t - 1) * pageSize < totalElements <= t * pageSize
    ensures pageSize > 0 && t == INT_MAX ==> (INT_MAX - 1) * pageSize < totalElements
    ensures pageSize > 0 && t == INT_MIN ==> totalElements <= INT_MIN * pageSize
    ensures pageSize > 0 && 0 <= totalElements ==> 0 <= t
    ensures pageSize == 0 ==> (t == INT_MAX <==> totalElements > 0) && (t == 0 <==> totalElements == 0)
    ensures pageSize < 0 && INT_MIN < t < INT_MAX ==>
      var (a, b) := (-(totalElements as int), -(pageSize as int));
      (t - 1) * b < a <= t * b
  {
    if pageSize == 0 then
      (if totalElements > 0 then INT_MAX else if totalElements < 0 then INT_MIN else 0)
    else
      var c := CeilDiv(totalElements, pageSize);
      SaturatedCeiling(totalElements, pageSize, c);
      SaturateToInt(c)
  }

  lemma SaturatedCeiling(a: int, b: int, c: int)
    ensures b > 0 && (c - 1) * b < a <= c * b ==>
      (c > INT_MAX ==> (INT_MAX - 1) * b < a) && (c < INT_MIN ==> a <= INT_MIN * b) && (0 <= a ==> 0 <= c)
  {
    if b > 0 {
      ProductSign(c, b);
      if c > INT_MAX {
        MulMonotone(INT_MAX - 1, c - 1, b);
      } else if c < INT_MIN {
        MulMonotone(c, INT_MIN, b);
      }
    }
  }

  /** A page of results with its position among all pages. */
  datatype Page<T> = Page(
    content: seq<T>,
    pageNumber: Int32,
    pageSize: Int32,
    totalElements: Int64,
    totalPages: Int32,
    first: bool,
    last: bool,
    hasNext: bool,
    hasPrevious: bool)
  {
    /** map: the contents converted one by one; every other field kept. */
    function Map<U>(converter: T -> U): (r: Page<U>)
      ensures |r.content| == |content|
      ensures forall i :: 0 <= i < |content| ==> r.content[i] == converter(content[i])
      ensures r.pageNumber == pageNumber && r.pageSize == pageSize && r.totalElements == totalElements
      ensures r.totalPages == totalPages && r.first == first && r.last == last
      ensures r.hasNext == hasNext && r.hasPrevious == hasPrevious
    {
      Page(MapSeq(content, converter), pageNumber, pageSize, totalElements, totalPages, first, last, hasNext, hasPrevious)
    }

    predicate IsEmpty()
      ensures IsEmpty() <==> GetNumberOfElements() == 0
    {
      content == []
    }

    function GetNumberOfElements(): (n: nat)
      ensures n == |content|
    {
      |content|
    }
  }

  /** Page.of: the page count from the totals, and the flags from the page number and the count
      (totalPages - 1 in int arithmetic). */
  function PageOf<T>(content: seq<T>, pageNumber: Int32, pageSize: Int32, totalElements: Int64): (p: Page<T>)
    ensures p.content == content && p.pageNumber == pageNumber && p.pageSize == pageSize
    ensures p.totalElements == totalElements && p.totalPages == TotalPages(totalElements, pageSize)
    ensures p.first <==> pageNumber == 0
    ensures p.hasPrevious <==> pageNumber > 0
    ensures p.last <==> !p.hasNext
  {
    var totalPages := TotalPages(totalElements, pageSize);
    var lastIndex := Wrap32(totalPages - 1);
    Page(content, pageNumber, pageSize, totalElements, totalPages,
      pageNumber == 0, pageNumber >= lastIndex, pageNumber < lastIndex, pageNumber > 0)
  }

  /** Page.empty: no content, page 0 of 0, first and last, nothing before or after. */
  function EmptyPage<T>(pageSize: Int32): (p: Page<T>)
    ensures p.IsEmpty() && p.pageNumber == 0 && p.pageSize == pageSize
    ensures p.totalElements == 0 && p.totalPages == 0
    ensures p.first && p.last && !p.hasNext && !p.hasPrevious
  {
    Page([], 0, pageSize, 0, 0, true, true, false, false)
  }

  /** empty(n) is exactly what of(no content, page 0, n, no elements) computes. */
  lemma EmptyPageIsPageOfNothing<T>(pageSize: Int32)
    ensures EmptyPage<T>(pageSize) == PageOf([], 0, pageSize, 0)
  {
    assert TotalPages(0, pageSize) == 0 by {
      if pageSize > 0 {
        CeilingOfZero(pageSize, CeilDiv(0, pageSize));
      } else if pageSize < 0 {
        CeilingOfZero(-(pageSize as int), CeilDiv(0, pageSize));
      }
    }
  }

  lemma CeilingOfZero(b: int, c: int)
    requires b > 0 && (c - 1) * b < 0 <= c * b
    ensures c == 0
  {
    ProductSign(c, b);
    ProductSign(c - 1, b);
  }

  /** For a positive page size and a count that fits an int, a page has a next page exactly when
      some element lies beyond it. */
  lemma HasNextIffElementsRemain<T>(content: seq<T>, pageNumber: Int32, pageSize: Int32, totalElements: Int64)
    requires 0 <= pageNumber && 0 < pageSize && 0 <= totalElements
    requires TotalPages(totalElements, pageSize) < INT_MAX
    ensures PageOf(content, pageNumber, pageSize, totalElements).hasNext <==> (pageNumber + 1) * pageSize < totalElements
    ensures PageOf(content, pageNumber, pageSize, totalElements).last <==> totalElements <= (pageNumber + 1) * pageSize
  {
    var t := TotalPages(totalElements, pageSize);
    assert (t - 1) * pageSize < totalElements <= t * pageSize;
    if pageNumber + 1 < t {
      MulMonotone(pageNumber + 1, t - 1, pageSize);
    } else {
      MulMonotone(t, pageNumber + 1, pageSize);
    }
  }

  // ---------------------------------------------------------------- Slice

  /** A slice of results: a page that knows only whether another one follows. */
  datatype Slice<T> = Slice(
    content: seq<T>,
    pageNumber: Int32,
    pageSize: Int32,
    hasNext: bool,
    hasPrevious: bool,
    first: bool,
    last: bool)
  {
    /** map: the contents converted one by one; every other field kept. */
    function Map<U>(converter: T -> U): (r: Slice<U>)
      ensures |r.content| == |content|
      ensures forall i :: 0 <= i < |content| ==> r.content[i] == converter(content[i])
      ensures r.pageNumber == pageNumber && r.pageSize == pageSize && r.hasNext == hasNext
      ensures r.hasPrevious == hasPrevious && r.first == first && r.last == last
    {
      Slice(MapSeq(content, converter), pageNumber, pageSize, hasNext, hasPrevious, first, last)
    }

    predicate IsEmpty()
      ensures IsEmpty() <==> GetNumberOfElements() == 0
    {
      content == []
    }

    function GetNumberOfElements(): (n: nat)
      ensures n == |content|
    {
      |content|
    }
  }

  /** Slice.of: the flags from the page number and the given hasNext. */
  function SliceOf<T>(content: seq<T>, pageNumber: Int32, pageSize: Int32, hasNext: bool): (s: Slice<T>)
    ensures s.content == content && s.pageNumber == pageNumber && s.pageSize == pageSize && s.hasNext == hasNext
    ensures s.first <==> pageNumber == 0
    ensures s.hasPrevious <==> pageNumber > 0
    ensures s.last <==> !hasNext
  {
    Slice(content, pageNumber, pageSize, hasNext, pageNumber > 0, pageNumber == 0, !hasNext)
  }

  /** Slice.empty: no content, page 0, first and last, nothing before or after. */
  function EmptySlice<T>(pageSize: Int32): (s: Slice<T>)
    ensures s.IsEmpty() && s.pageNumber == 0 && s.pageSize == pageSize
    ensures s.first && s.last && !s.hasNext && !s.hasPrevious
  {
    Slice([], 0, pageSize, false, false, true, true)
  }

  /** empty(n) is exactly what of(no content, page 0, n, no next) computes. */
  lemma EmptySliceIsSliceOfNothing<T>(pageSize: Int32)
    ensures EmptySlice<T>(pageSize) == SliceOf([], 0, pageSize, false)
  {
  }

  /** A slice built from a page's content, position and hasNext carries the page's flags. */
  lemma SliceOfPageAgrees<T>(content: seq<T>, pageNumber: Int32, pageSize: Int32, totalElements: Int64)
    ensures var p := PageOf(content, pageNumber, pageSize, totalElements);
      var s := SliceOf(content, pageNumber, pageSize, p.hasNext);
      s.first == p.first && s.last == p.last && s.hasPrevious == p.hasPrevious
  {
  }

  /** Mapping twice is mapping once by the composed converter; for pages and slices alike. */
  lemma {:induction false} MapComposes<T, U, V>(p: Page<T>, s: Slice<T>, f: T -> U, g: U -> V)
    ensures p.Map(f).Map(g) == p.Map(x => g(f(x)))
    ensures s.Map(f).Map(g) == s.Map(x => g(f(x)))
  {
    assert p.Map(f).Map(g).content == p.Map(x => g(f(x))).content;
    assert s.Map(f).Map(g).content == s.Map(x => g(f(x))).content;
  }
}
