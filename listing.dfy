/** The list page's data path: the base queryset ordered by creation instant,
    newest first; the filter set, kept abstract as a predicate over the
    request parameters and a row; the non-strict choice of object list; and
    the paginator that cuts the list into pages of ten. */
module Listing {
  import opened Models

  /** Request parameters: field name to submitted value. Values are opaque. */
  type Query = map<string, string>

  /** Rows per page on the list page. */
  const PageSize: nat := 10

  /** The list view is not strict: an invalid filter submission still lists
      whatever the filter set yields instead of nothing. */
  const Strict: bool := false

  // ---------------------------------------------------------------------
  // order_by('-created_at')

  /** a may come before b in the listing: a was created no earlier than b.
      A row with no creation instant sorts after every row that has one
      (NULL is the least value in ascending order, so it comes last in
      descending order). */
  predicate NewerOrSame(a: Book, b: Book) {
    match (a.createdAt, b.createdAt)
    case (Some(x), Some(y)) => x >= y
    case (Some(_), None) => true
    case (None, Some(_)) => false
    case (None, None) => true
  }

  lemma NewerOrSameTotal(a: Book, b: Book)
    ensures NewerOrSame(a, b) || NewerOrSame(b, a)
  {
  }

  lemma NewerOrSameTransitive(a: Book, b: Book, c: Book)
    requires NewerOrSame(a, b) && NewerOrSame(b, c)
    ensures NewerOrSame(a, c)
  {
  }

  predicate AllStored(ids: seq<BookId>, books: map<BookId, Book>) {
    forall i | 0 <= i < |ids| :: ids[i] in books
  }

  /** ids lists rows newest first. */
  predicate SortedNewest(ids: seq<BookId>, books: map<BookId, Book>)
    requires AllStored(ids, books)
  {
    forall i, j | 0 <= i < j < |ids| :: NewerOrSame(books[ids[i]], books[ids[j]])
  }

  /** Places id into a newest-first listing, ahead of the first row that is
      not newer than it. */
  function InsertNewest(ids: seq<BookId>, id: BookId, books: map<BookId, Book>): (r: seq<BookId>)
    requires id in books && AllStored(ids, books) && SortedNewest(ids, books)
    ensures AllStored(r, books) && SortedNewest(r, books)
    ensures multiset(r) == multiset(ids) + multiset{id}
  {
    if ids == [] then [id]
    else if NewerOrSame(books[id], books[ids[0]]) then
      assert forall j | 0 < j < |ids| :: NewerOrSame(books[id], books[ids[j]]) by {
        forall j | 0 < j < |ids| ensures NewerOrSame(books[id], books[ids[j]]) {
          NewerOrSameTransitive(books[id], books[ids[0]], books[ids[j]]);
        }
      }
      [id] + ids
    else
      var rest := InsertNewest(ids[1..], id, books);
      NewerOrSameTotal(books[id], books[ids[0]]);
      assert ids == [ids[0]] + ids[1..];
      assert forall x | x in rest :: NewerOrSame(books[ids[0]], books[x]) by {
        forall x | x in rest ensures NewerOrSame(books[ids[0]], books[x]) {
          assert x in multiset(rest);
          if x != id {
            assert x in multiset(ids[1..]);
            var j :| 0 <= j < |ids[1..]| && ids[1..][j] == x;
            assert ids[j + 1] == x;
          }
        }
      }
      [ids[0]] + rest
  }

  // ---------------------------------------------------------------------
  // The filter set and the object list

  /** The rows of ids, in order, that the filter set accepts under params. */
  function FilterRows(ids: seq<BookId>, books: map<BookId, Book>, params: Query,
                      accepts: (Query, Book) -> bool): (r: seq<BookId>)
    requires AllStored(ids, books)
    ensures AllStored(r, books)
    ensures forall id | id in books :: id in r <==> id in ids && accepts(params, books[id])
    ensures multiset(r) <= multiset(ids)
  {
    if ids == [] then []
    else
      var rest := FilterRows(ids[1..], books, params, accepts);
      assert ids == [ids[0]] + ids[1..];
      if accepts(params, books[ids[0]]) then [ids[0]] + rest else rest
  }

  /** Filtering keeps the newest-first order of the rows it keeps. */
  lemma {:induction false} FilterKeepsOrder(ids: seq<BookId>, books: map<BookId, Book>, params: Query,
                                            accepts: (Query, Book) -> bool)
    requires AllStored(ids, books) && SortedNewest(ids, books)
    ensures SortedNewest(FilterRows(ids, books, params, accepts), books)
  {
    if ids != [] {
      var rest := FilterRows(ids[1..], books, params, accepts);
      FilterKeepsOrder(ids[1..], books, params, accepts);
      if accepts(params, books[ids[0]]) {
        var r := [ids[0]] + rest;
        forall i, j | 0 <= i < j < |r| ensures NewerOrSame(books[r[i]], books[r[j]]) {
          if i == 0 {
            var x := rest[j - 1];
            assert x in multiset(rest);
            assert x in multiset(ids[1..]);
            var k :| 0 <= k < |ids[1..]| && ids[1..][k] == x;
            assert ids[k + 1] == x;
          }
        }
      }
    }
  }

  /** The filter set's queryset: an empty submission leaves the filter set
      unbound, and an unbound filter set yields every row. */
  function FilterQs(ids: seq<BookId>, books: map<BookId, Book>, params: Query,
                    accepts: (Query, Book) -> bool): seq<BookId>
    requires AllStored(ids, books)
  {
    if |params| == 0 then ids else FilterRows(ids, books, params, accepts)
  }

  /** The rows the list view shows before pagination. A strict view lists
      nothing for a bound, invalid submission; this view is not strict. */
  function ObjectList(ids: seq<BookId>, books: map<BookId, Book>, params: Query,
                      accepts: (Query, Book) -> bool, isValid: Query -> bool): seq<BookId>
    requires AllStored(ids, books)
  {
    if |params| == 0 || isValid(params) || !Strict then FilterQs(ids, books, params, accepts)
    else []
  }

  /** With no parameters the list shows every row of the base listing, in
      its order. */
  lemma EmptyQueryListsAll(ids: seq<BookId>, books: map<BookId, Book>,
                           accepts: (Query, Book) -> bool, isValid: Query -> bool)
    requires AllStored(ids, books)
    ensures ObjectList(ids, books, map[], accepts, isValid) == ids
  {
  }

  /** With parameters, the list holds exactly the rows the filter accepts,
      valid submission or not, and keeps the newest-first order. */
  lemma ObjectListFilters(ids: seq<BookId>, books: map<BookId, Book>, params: Query,
                          accepts: (Query, Book) -> bool, isValid: Query -> bool)
    requires AllStored(ids, books) && SortedNewest(ids, books) && |params| > 0
    ensures var r := ObjectList(ids, books, params, accepts, isValid);
      && AllStored(r, books) && SortedNewest(r, books)
      && (forall id | id in books :: id in r <==> id in ids && accepts(params, books[id]))
  {
    FilterKeepsOrder(ids, books, params, accepts);
  }

  // ---------------------------------------------------------------------
  // Paginator(object_list, 10) with an allowed empty first page

  /** Number of pages: one page even when there are no rows. */
  function NumPages(count: nat): (n: nat)
    ensures n >= 1
    ensures count == 0 ==> n == 1
    ensures count > 0 ==> (n - 1) * PageSize < count <= n * PageSize
  {
    if count == 0 then 1 else (count + PageSize - 1) / PageSize
  }

  /** Page number `number` (from 1) of rows, or None when the number is out
      of range (the view answers "not found"). */
  function Page<T>(rows: seq<T>, number: int): (r: Option<seq<T>>)
    ensures r.Some? <==> 1 <= number <= NumPages(|rows|)
    ensures r.Some? ==> |r.value| <= PageSize
  {
    if 1 <= number <= NumPages(|rows|) then
      var bottom := (number - 1) * PageSize;
      var top := if bottom + PageSize >= |rows| then |rows| else bottom + PageSize;
      Some(rows[bottom..top])
    else None
  }

  /** The request parameter that carries the page number. */
  const PageKey := "page"

  /** The page number the list view serves for parameters params over count
      rows: 1 when the parameter is missing or empty; the parsed integer
      when it parses; the last page for "last"; otherwise None (not
      found). parseInt is the integer parser, kept abstract. */
  function RequestedPage(params: Query, count: nat, parseInt: string -> Option<int>): Option<int> {
    if PageKey !in params || params[PageKey] == "" then Some(1)
    else match parseInt(params[PageKey])
      case Some(n) => Some(n)
      case None => if params[PageKey] == "last" then Some(NumPages(count)) else None
  }

  /** The page the list view serves: page RequestedPage of rows, or None
      (not found) when the number is unreadable or out of range. */
  function ServedPage<T>(rows: seq<T>, params: Query, parseInt: string -> Option<int>): (r: Option<seq<T>>)
    ensures RequestedPage(params, |rows|, parseInt).None? ==> r.None?
    ensures RequestedPage(params, |rows|, parseInt).Some? ==>
      var n := RequestedPage(params, |rows|, parseInt).value;
      && (r.Some? <==> 1 <= n <= NumPages(|rows|))
      && (r.Some? ==> |r.value| <= PageSize && r.value == Chunks(rows)[n - 1])
  {
    match RequestedPage(params, |rows|, parseInt)
    case None => None
    case Some(n) => PagesAreChunks(rows); Page(rows, n)
  }

  /** Reference pagination: chunks of ten, the last one possibly shorter. */
  function Chunks<T>(rows: seq<T>): (pages: seq<seq<T>>)
    ensures |pages| == NumPages(|rows|)
    decreases |rows|
  {
    if |rows| <= PageSize then [rows] else [rows[..PageSize]] + Chunks(rows[PageSize..])
  }

  function Flatten<T>(pages: seq<seq<T>>): seq<T> {
    if pages == [] then [] else pages[0] + Flatten(pages[1..])
  }

  /** The pages the paginator serves are exactly the chunks of ten, and
      read one after another they give back every row, in order. */
  lemma {:induction false} PagesAreChunks<T>(rows: seq<T>)
    ensures forall n | 1 <= n <= NumPages(|rows|) :: Page(rows, n) == Some(Chunks(rows)[n - 1])
    ensures Flatten(Chunks(rows)) == rows
    decreases |rows|
  {
    if |rows| <= PageSize {
      assert NumPages(|rows|) == 1;
      assert rows[0..|rows|] == rows;
      assert Flatten(Chunks(rows)) == rows + Flatten([]);
    } else {
      var tail := rows[PageSize..];
      PagesAreChunks(tail);
      assert NumPages(|rows|) == NumPages(|tail|) + 1;
      forall n | 1 <= n <= NumPages(|rows|) ensures Page(rows, n) == Some(Chunks(rows)[n - 1]) {
        if n > 1 {
          assert Page(tail, n - 1) == Some(Chunks(tail)[n - 2]);
          var bottom := (n - 2) * PageSize;
          assert (n - 1) * PageSize == bottom + PageSize;
          var top := if bottom + PageSize >= |tail| then |tail| else bottom + PageSize;
          assert Page(tail, n - 1) == Some(tail[bottom..top]);
          assert Page(rows, n) == Some(rows[bottom + PageSize..top + PageSize]);
          assert tail[bottom..top] == rows[bottom + PageSize..top + PageSize];
        } else {
          assert Page(rows, 1) == Some(rows[0..PageSize]);
        }
      }
      assert Chunks(rows)[1..] == Chunks(tail);
    }
  }
}
