/** The request handlers of the book list: the list page, which saves its
    query parameters in the session or restores them from it; the detail
    page; and the create, update and delete submissions, which stamp the
    audit columns. The session and the Book table are fields of one object;
    the current user and the clock readings are parameters. */
module Views {
  import opened Models
  import opened Listing

  /** A user's session: key to stored value. Only the list page's saved
      query lives here as far as this model is concerned. */
  type Session = map<string, Query>

  /** The session key under which the list page keeps its last query. */
  const QueryKey := "query"

  /** What one list request leaves behind: the new session and the
      parameters the filter set and the paginator then see. */
  datatype ListStep = ListStep(session: Session, effective: Query)

  /** The two-branch rule of the list page. A request with parameters
      replaces the saved query with them and uses them as they are; a request
      without parameters leaves the session alone and uses the saved query,
      or nothing when none was saved. */
  function SessionStep(session: Session, params: Query): ListStep {
    if |params| > 0 then ListStep(session[QueryKey := params], params)
    else if QueryKey in session then ListStep(session, session[QueryKey])
    else ListStep(session, map[])
  }

  /** A request with parameters stores exactly those parameters, with no
      merge of what was stored before, and lists with them unchanged. */
  lemma SaveReplacesWholesale(session: Session, params: Query)
    requires |params| > 0
    ensures SessionStep(session, params).session[QueryKey] == params
    ensures SessionStep(session, params).effective == params
    ensures forall k | k in session && k != QueryKey ::
      k in SessionStep(session, params).session && SessionStep(session, params).session[k] == session[k]
  {
  }

  /** A request without parameters never changes the session, and lists
      with the saved query key for key, or with nothing when none was saved. */
  lemma RestoreReadsSaved(session: Session)
    ensures SessionStep(session, map[]).session == session
    ensures QueryKey in session ==> SessionStep(session, map[]).effective == session[QueryKey]
    ensures QueryKey !in session ==> SessionStep(session, map[]).effective == map[]
  {
  }

  /** Leaving the list page with a search and coming back without
      parameters gives the same search back, in the same session. */
  lemma SearchSurvivesNavigation(session: Session, q: Query)
    requires |q| > 0
    ensures var first := SessionStep(session, q);
      var back := SessionStep(first.session, map[]);
      back.effective == q && back.session == first.session
  {
  }

  /** Submitting the same search twice gives the same session and the same
      parameters both times. */
  lemma ResubmitIsIdempotent(session: Session, q: Query)
    requires |q| > 0
    ensures var first := SessionStep(session, q);
      SessionStep(first.session, q) == first
  {
  }

  /** A paging link that carries only the page number is a request with
      parameters: it replaces the saved search, filters included, with the
      page number alone. */
  lemma PagingLinkReplacesSearch(session: Session, p: string)
    ensures var step := SessionStep(session, map[PageKey := p]);
      step.session[QueryKey] == map[PageKey := p] && step.effective == map[PageKey := p]
  {
  }

  /** The page number travels with the saved search: coming back without
      parameters serves the page the search was on. */
  lemma ReturnKeepsPage(session: Session, q: Query, count: nat, parseInt: string -> Option<int>)
    requires |q| > 0
    ensures var back := SessionStep(SessionStep(session, q).session, map[]);
      RequestedPage(back.effective, count, parseInt) == RequestedPage(q, count, parseInt)
  {
    SearchSurvivesNavigation(session, q);
  }

  /** A first visit, with no parameters and nothing saved, serves page 1. */
  lemma FirstVisitServesPageOne(session: Session, count: nat, parseInt: string -> Option<int>)
    requires QueryKey !in session
    ensures RequestedPage(SessionStep(session, map[]).effective, count, parseInt) == Some(1)
  {
  }

  /** The saved query is never empty: only a request with parameters
      writes it. */
  predicate SavedQueryNonEmpty(session: Session) {
    QueryKey in session ==> |session[QueryKey]| > 0
  }

  lemma SessionStepKeepsSavedNonEmpty(session: Session, params: Query)
    requires SavedQueryNonEmpty(session)
    ensures SavedQueryNonEmpty(SessionStep(session, params).session)
    ensures |SessionStep(session, params).effective| == 0 <==> |params| == 0 && QueryKey !in session
  {
  }

  /** The restore loop of the list page: writes every key of stored onto
      target, one key at a time. Keys of stored win. */
  method OverlayQuery(target: Query, stored: Query) returns (r: Query)
    ensures r.Keys == target.Keys + stored.Keys
    ensures forall k | k in stored :: r[k] == stored[k]
    ensures forall k | k in target && k !in stored :: r[k] == target[k]
  {
    r := target;
    var todo := stored.Keys;
    while todo != {}
      invariant todo <= stored.Keys
      invariant r.Keys == target.Keys + (stored.Keys - todo)
      invariant forall k | k in stored && k !in todo :: r[k] == stored[k]
      invariant forall k | k in target && k !in stored :: r[k] == target[k]
      invariant forall k | k in target && k in todo :: r[k] == target[k]
      decreases todo
    {
      var k :| k in todo;
      r := r[k := stored[k]];
      todo := todo - {k};
    }
  }

  /** The list view, the detail view and the three editing views over one
      user's session, the Book table, and the Category and User tables its
      references point into. */
  class BookApp {
    var session: Session
    var books: map<BookId, Book>
    /** The next id the table hands out (its auto-increment counter). */
    var nextId: BookId
    /** The Category master data, maintained outside these views. */
    var categories: map<CategoryId, Category>
    /** The ids of the existing users. */
    var users: set<UserId>

    ghost predicate Valid()
      reads this
    {
      && (forall id | id in books :: id < nextId)
      && ValidStore(books)
      && ValidCategories(categories)
      && RefsResolve(books, categories.Keys, users)
      && SavedQueryNonEmpty(session)
    }

    /** A new session over an empty Book table. */
    constructor (categories: map<CategoryId, Category>, users: set<UserId>)
      requires ValidCategories(categories)
      ensures Valid()
      ensures session == map[] && books == map[]
      ensures this.categories == categories && this.users == users
    {
      session := map[];
      books := map[];
      nextId := 0;
      this.categories := categories;
      this.users := users;
    }

    /** get_queryset: every row of the table exactly once, newest first.
        Rows created at the same instant come in no particular order. */
    method GetQueryset() returns (rows: seq<BookId>)
      ensures multiset(rows) == multiset(books.Keys)
      ensures AllStored(rows, books) && SortedNewest(rows, books)
    {
      rows := [];
      var todo := books.Keys;
      while todo != {}
        invariant todo <= books.Keys
        invariant multiset(rows) == multiset(books.Keys - todo)
        invariant AllStored(rows, books) && SortedNewest(rows, books)
        decreases todo
      {
        var id :| id in todo;
        assert books.Keys - (todo - {id}) == (books.Keys - todo) + {id};
        rows := InsertNewest(rows, id, books);
        todo := todo - {id};
      }
    }

    /** BookFilterView.get up to the hand-over to the generic list view:
        the session and the effective parameters follow SessionStep. */
    method SaveOrRestoreQuery(params: Query) returns (effective: Query)
      requires Valid()
      modifies this`session
      ensures Valid()
      ensures ListStep(session, effective) == SessionStep(old(session), params)
    {
      if |params| > 0 {
        session := session[QueryKey := params];
        effective := params;
      } else {
        effective := map[];
        if QueryKey in session {
          effective := OverlayQuery(effective, session[QueryKey]);
        }
      }
    }

    /** The generic filtered list view under the effective parameters: the
        base listing narrowed by the filter set (every row when there are no
        parameters), newest first, and the page that the parameters' page
        number names, ten rows at most, or None (not found) when the number
        is unreadable or there is no such page. */
    method FilterList(effective: Query, accepts: (Query, Book) -> bool,
                      isValid: Query -> bool, parseInt: string -> Option<int>)
      returns (rows: seq<BookId>, page: Option<seq<BookId>>)
      ensures multiset(rows) <= multiset(books.Keys) && AllStored(rows, books) && SortedNewest(rows, books)
      ensures |effective| == 0 ==> multiset(rows) == multiset(books.Keys)
      ensures |effective| > 0 ==> forall id | id in books :: id in rows <==> accepts(effective, books[id])
      ensures RequestedPage(effective, |rows|, parseInt).None? ==> page.None?
      ensures RequestedPage(effective, |rows|, parseInt).Some? ==>
        var n := RequestedPage(effective, |rows|, parseInt).value;
        && (page.Some? <==> 1 <= n <= NumPages(|rows|))
        && (page.Some? ==> |page.value| <= PageSize && page.value == Chunks(rows)[n - 1])
    {
      var all := GetQueryset();
      assert forall id | id in books :: id in all by {
        forall id | id in books ensures id in all {
          assert id in multiset(all);
        }
      }
      rows := ObjectList(all, books, effective, accepts, isValid);
      if |effective| > 0 {
        ObjectListFilters(all, books, effective, accepts, isValid);
        assert multiset(rows) <= multiset(all);
      } else {
        EmptyQueryListsAll(all, books, accepts, isValid);
      }
      page := ServedPage(rows, effective, parseInt);
    }

    /** The list page: save or restore the query, then list with it. */
    method ListGet(params: Query, accepts: (Query, Book) -> bool,
                   isValid: Query -> bool, parseInt: string -> Option<int>)
      returns (effective: Query, rows: seq<BookId>, page: Option<seq<BookId>>)
      requires Valid()
      modifies this`session
      ensures Valid()
      ensures ListStep(session, effective) == SessionStep(old(session), params)
      ensures multiset(rows) <= multiset(books.Keys) && AllStored(rows, books) && SortedNewest(rows, books)
      ensures |effective| == 0 ==> multiset(rows) == multiset(books.Keys)
      ensures |effective| > 0 ==> forall id | id in books :: id in rows <==> accepts(effective, books[id])
      ensures RequestedPage(effective, |rows|, parseInt).None? ==> page.None?
      ensures RequestedPage(effective, |rows|, parseInt).Some? ==>
        var n := RequestedPage(effective, |rows|, parseInt).value;
        && (page.Some? <==> 1 <= n <= NumPages(|rows|))
        && (page.Some? ==> |page.value| <= PageSize && page.value == Chunks(rows)[n - 1])
    {
      effective := SaveOrRestoreQuery(params);
      rows, page := FilterList(effective, accepts, isValid, parseInt);
    }

    /** The detail page: the row with id pk, or None (not found). */
    method DetailGet(pk: BookId) returns (r: Option<Book>)
      ensures r.Some? <==> pk in books
      ensures r.Some? ==> r.value == books[pk]
    {
      if pk in books {
        r := Some(books[pk]);
      } else {
        r := None;
      }
    }

    /** A valid create submission by the logged-in user: a new row with the
        form's fields, made and last changed by user, stamped from two clock
        readings. */
    method CreateFormValid(form: BookForm, user: UserId, createdNow: Timestamp,
                           updatedNow: Timestamp) returns (pk: BookId)
      requires Valid() && ValidForm(form, categories.Keys) && user in users
      modifies this`books, this`nextId
      ensures Valid()
      ensures pk !in old(books)
      ensures books.Keys == old(books.Keys) + {pk}
      ensures forall id | id in old(books) :: books[id] == old(books[id])
      ensures Carries(books[pk], form)
      ensures AuditOf(books[pk]) == Audit(Some(user), Some(createdNow), Some(user), Some(updatedNow))
    {
      var book := NewBook(form);
      book := book.(createdBy := Some(user));
      book := book.(createdAt := Some(createdNow));
      book := book.(updatedBy := Some(user));
      book := book.(updatedAt := Some(updatedNow));
      pk := nextId;
      books := books[pk := book];
      nextId := nextId + 1;
    }

    /** A valid update submission for row pk: the form's fields replace the
        editable columns and user and now restamp the last change; who
        created the row and when stay as they were. found is false (not
        found) and nothing changes when there is no such row. */
    method UpdateFormValid(pk: BookId, form: BookForm, user: UserId, now: Timestamp)
      returns (found: bool)
      requires Valid() && ValidForm(form, categories.Keys) && user in users
      modifies this`books
      ensures Valid()
      ensures found <==> pk in old(books)
      ensures books.Keys == old(books.Keys)
      ensures forall id | id in books && id != pk :: books[id] == old(books[id])
      ensures found ==> Carries(books[pk], form)
      ensures found ==> books[pk].createdBy == old(books[pk].createdBy)
      ensures found ==> books[pk].createdAt == old(books[pk].createdAt)
      ensures found ==> books[pk].updatedBy == Some(user) && books[pk].updatedAt == Some(now)
      ensures !found ==> books == old(books)
    {
      found := pk in books;
      if found {
        var book := ApplyForm(books[pk], form);
        book := book.(updatedBy := Some(user));
        book := book.(updatedAt := Some(now));
        books := books[pk := book];
      }
    }

    /** A delete submission for row pk: exactly that row goes, every other
        row stays as it was. found is false (not found) when there is no such
        row. */
    method Delete(pk: BookId) returns (found: bool)
      requires Valid()
      modifies this`books
      ensures Valid()
      ensures found <==> pk in old(books)
      ensures books.Keys == old(books.Keys) - {pk}
      ensures forall id | id in books :: books[id] == old(books[id])
    {
      found := pk in books;
      if found {
        books := books - {pk};
      }
    }

    /** Category c is deleted (outside these views): its row goes and, by
        SET_NULL, every Book that named it loses its category; no Book is
        removed and every reference still resolves. */
    method CategoryDeleted(c: CategoryId)
      requires Valid()
      modifies this`books, this`categories
      ensures Valid()
      ensures categories == old(categories) - {c}
      ensures books == DeleteCategory(old(books), c)
    {
      DeleteCategoryKeepsIntegrity(books, categories.Keys, users, c);
      categories := categories - {c};
      books := DeleteCategory(books, c);
    }

    /** User u is deleted (outside these views): by SET_NULL every Book
        created or last changed by u loses that reference; no Book is
        removed and every reference still resolves. */
    method UserDeleted(u: UserId)
      requires Valid()
      modifies this`books, this`users
      ensures Valid()
      ensures users == old(users) - {u}
      ensures books == DeleteUser(old(books), u)
    {
      DeleteUserKeepsIntegrity(books, categories.Keys, users, u);
      users := users - {u};
      books := DeleteUser(books, u);
    }
  }

  /** Once row pk is deleted, its detail page reports not found while the
      other rows are still found. */
  method DeleteThenDetail(app: BookApp, pk: BookId, other: BookId) returns (gone: Option<Book>, kept: Option<Book>)
    requires app.Valid() && other != pk && other in app.books
    modifies app
    ensures gone == None
    ensures kept == Some(old(app.books[other]))
  {
    var _ := app.Delete(pk);
    gone := app.DetailGet(pk);
    kept := app.DetailGet(other);
  }
}
