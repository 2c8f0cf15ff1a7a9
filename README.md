# Book list with a session-kept search: a Dafny model

This project models the core of a small book-tracking web application in Dafny. The core has three parts:

- **The Book record.** `app/models.py` defines Book, and `category/models.py` defines Category. The model covers each column's constraint and the SET_NULL policy of the three weak references `category`, `created_by` and `updated_by`. Module `Models` in `models.dfy` is pure: datatypes, a validity predicate and the cascades as functions over the Book table, a map from row id to Book.
- **The list page** (`BookFilterView` in `app/views.py`). A request that carries query parameters saves them in the session. A request with no parameters restores the saved ones, copying them key by key onto an empty parameter set. The page then lists every Book newest first (`order_by('-created_at')`), narrowed by the filter set, ten rows to a page. Module `Listing` in `listing.dfy` covers the ordering, the non-strict object list and the paginator. The session rule and the views are in `views.dfy`.
- **The editing views** (`BookCreateView`, `BookUpdateView`, `BookDeleteView`, `BookDetailView`). Create stamps all four audit columns from the current user and two separate clock readings. Update restamps only `updated_by` and `updated_at`. Delete removes exactly the identified row.

Class `Views.BookApp` holds one user's session (`session`), the Book table (`books`), the table's id counter (`nextId`), and the Category and User tables that Book's references point into (`categories`, `users`). Its invariant says every Book and Category row is valid and every reference resolves. Its methods change these fields in place, as the views do, and the deletion of a Category or a User (done outside these views) applies the SET_NULL cascade. The current user, the clock readings and the filter set are parameters:

- `accepts(params, book)` says whether the filter set keeps a row.
- `isValid(params)` says whether the filter form validates.
- `parseInt(text)` is the integer parser applied to the `page` parameter.

The page number is read from the effective parameters, as the generic list view does. So a paging link is itself a request with parameters: it replaces the saved search. A return without parameters also restores the page the search was on.

The module `Views` also holds `SessionStep`, a pure function that states the list page's session rule. `SaveOrRestoreQuery` is proved to follow it, and lemmas state what it promises.

Modelling choices:

- **Query values are opaque strings.** A parameter set is a `map<string, string>`.
- **A request "has parameters" when its parameter set has at least one key.** This matches the truth value of a query dictionary.
- **Rows with no `created_at` sort last.** `order_by('-created_at')` puts NULL creation instants last here, the SQLite and MySQL convention. PostgreSQL puts them first. The create view always stamps `created_at`, so only rows made elsewhere (the admin site) can lack one.
- **Ties are not broken.** Rows with equal `created_at` come in no guaranteed order, and `GetQueryset` picks among them freely. The code does not break ties by id.
- **An empty search lists every row.** An empty parameter set leaves the filter set unbound, and an unbound filter set yields every row. Because `strict = False`, a bound submission lists what the filter set yields even when the filter form is invalid.
- **`is_wonder` may be absent in a row, never in a form.** The column is NOT NULL without a default, so `Models.Book` holds it as optional and `ValidBook` requires it. The form shows it as a check box, so an unchecked box cleans to false and `BookForm.isWonder` is a plain boolean. Only a row written some other way can lack it.
- **The form covers every editable field.** `app/forms.py` is not part of this model, so `BookForm` is assumed to carry every editable column and nothing else. The four audit columns are `editable=False` and cannot appear in a model form.
- **The form checks the category reference.** `ValidForm` takes the ids of the existing Categories: a model form rejects a category id that names no Category.
- **The current user exists.** Create and update require the user to be in `users`, as the login requirement guarantees an authenticated user.
- **New ids come from a counter.** The database's auto-increment is modelled as the field `nextId`.

## Model

| member | source | states |
|---|---|---|
| Models.NewBook | app/views.py:98 | a new row built from a form carries exactly the form's fields and has all four audit columns absent |
| Models.ApplyForm | app/models.py:92-127 | writing a form onto a row sets the editable columns to the form's values and leaves the four non-editable audit columns as they were |
| Models.ApplyFormValid | app/models.py:17-87 | the form is accepted exactly when the row written from it is valid and its category names an existing Category, whatever the row held before |
| Models.ValidBookFields | app/models.py:17-56 | in a valid Book, book_name, author_name and read_reason are absent or at most 20 characters, read_status is absent or one of 1, 2, 3, and is_wonder is present |
| Models.OptionalFieldsUnconstrained | app/models.py:59-87 | start_date, end_date and review may take any value (a review of any length) and category may be absent or any existing Category, keeping every row valid and every reference resolved; a category naming no Category leaves a dangling reference |
| Models.IsWonderRequired | app/models.py:53-56 | a form with every field but the is_wonder box absent is valid and gives a row with is_wonder set to the box's state, and a row without is_wonder is invalid |
| Models.DeleteCategory | app/models.py:59-66 | deleting a Category keeps every Book, leaves no Book referring to it, and changes only the category column of the Books that did |
| Models.DeleteUser | app/models.py:91-119 | deleting a User keeps every Book, clears created_by and updated_by where they referred to it, and changes nothing else |
| Models.DeleteCategoryKeepsIntegrity | app/models.py:59-66 | after a Category is deleted every reference still resolves among the remaining rows and every Book is still valid |
| Models.DeleteUserKeepsIntegrity | app/models.py:91-119 | after a User is deleted every reference still resolves among the remaining rows and every Book is still valid |
| Listing.NewerOrSameTotal | app/views.py:60 | any two rows are comparable under the newest-first order |
| Listing.NewerOrSameTransitive | app/views.py:60 | the newest-first order is transitive |
| Listing.InsertNewest | app/views.py:60 | inserting a row into a newest-first listing keeps it newest first and adds exactly that row |
| Listing.FilterRows | app/views.py:30 | the filter keeps exactly the listed rows the filter set accepts, and no row more often than the listing has it |
| Listing.FilterKeepsOrder | app/views.py:30 | filtering a newest-first listing leaves it newest first |
| Listing.EmptyQueryListsAll | app/views.py:31-32 | with no parameters the object list is the whole base listing in its order, whatever the filter set would say |
| Listing.ObjectListFilters | app/views.py:29-32 | with parameters the object list holds exactly the accepted rows, newest first, whether or not the submission is valid |
| Listing.NumPages | app/views.py:35 | there is always at least one page, a single one when there are no rows, and otherwise just enough pages of ten for every row |
| Listing.Page | app/views.py:35 | a page exists exactly for numbers 1 to the page count and holds at most ten rows |
| Listing.ServedPage | app/views.py:35 | an unreadable page number gives no page; otherwise a page exists exactly for numbers 1 to the page count, holds at most ten rows and is that chunk of ten |
| Listing.Chunks | app/views.py:35 | cutting a listing into chunks of ten gives as many chunks as there are pages |
| Listing.PagesAreChunks | app/views.py:35 | page n is the n-th chunk of ten, and the pages read in order give back the whole listing |
| Views.SaveReplacesWholesale | app/views.py:44-45 | a request with parameters stores exactly those parameters with no merge, lists with them unchanged and leaves other session keys alone |
| Views.RestoreReadsSaved | app/views.py:47-51 | a request without parameters leaves the session unchanged and lists with the saved query key for key, or with no parameters when none was saved |
| Views.SearchSurvivesNavigation | app/views.py:43-51 | a search with parameters q followed by a request without parameters lists with q again and leaves the session as the search left it |
| Views.ResubmitIsIdempotent | app/views.py:44-45 | submitting the same search twice gives the same session and the same parameters |
| Views.PagingLinkReplacesSearch | app/views.py:44-45 | a request carrying only the page parameter replaces the saved search with that page parameter alone |
| Views.ReturnKeepsPage | app/views.py:43-51 | coming back without parameters after a search serves the page number that search carried |
| Views.FirstVisitServesPageOne | app/views.py:47-51 | with no parameters and nothing saved, the list serves page 1 |
| Views.SessionStepKeepsSavedNonEmpty | app/views.py:43-51 | the saved query is never empty, so the effective parameters are empty exactly when the request has none and nothing was saved |
| Views.OverlayQuery | app/views.py:48-51 | writing each saved key onto a parameter set gives the union of both key sets, with the saved values winning |
| Views.BookApp.GetQueryset | app/views.py:55-60 | the base listing holds every row of the table exactly once, newest first |
| Views.BookApp.SaveOrRestoreQuery | app/views.py:37-51 | the session and the effective parameters after a list request are those of SessionStep, and the saved query stays non-empty |
| Views.BookApp.FilterList | app/views.py:27-35 | the rows are all rows with no parameters and otherwise exactly the accepted ones, newest first; the page is the one the parameters' page number names: none when it is unreadable, otherwise present exactly for numbers 1 to the page count, at most ten rows and that chunk of the rows |
| Views.BookApp.ListGet | app/views.py:37-53 | a list request updates the session as SessionStep says, then lists the effective parameters' rows newest first and serves the page their page number names, with the same page facts as FilterList |
| Views.BookApp.DetailGet | app/views.py:71-75 | the detail page finds a row exactly when its id is in the table, and then shows that row |
| Views.BookApp.CreateFormValid | app/views.py:94-105 | create adds exactly one row under a fresh id, with the form's fields, created_by and updated_by the current user, created_at and updated_at the two clock readings; other rows are unchanged |
| Views.BookApp.UpdateFormValid | app/views.py:116-125 | update of an existing row sets the form's fields and restamps updated_by and updated_at, keeps created_by and created_at, and changes no other row; a missing id changes nothing |
| Views.BookApp.CategoryDeleted | app/models.py:59-66 | deleting a Category removes its row and applies DeleteCategory to the Book table, keeping every row valid and every reference resolved |
| Views.BookApp.UserDeleted | app/models.py:91-119 | deleting a User removes it and applies DeleteUser to the Book table, keeping every row valid and every reference resolved |
| Views.BookApp.Delete | app/views.py:135-142 | delete removes exactly the identified row and leaves every other row unchanged; a missing id is reported as not found |
| Views.DeleteThenDetail | app/views.py:135-140 | after a row is deleted its detail page reports not found, while another row's detail page still shows it unchanged |

## Left out

- The filter set's matching rules are not modelled. `BookFilterSet` lives in `app/filters.py`, which is not part of this model, so the filter set is the abstract predicate `accepts` and its form validation is the abstract predicate `isValid`.
- Login redirects (`LoginRequiredMixin`), HTTP redirects, template rendering and the `get_context_data` pass-throughs are left out. They are framework plumbing with no state of their own.
- URL routing and the application configuration are left out. They are declarations with no behaviour.
- Integer parsing of the `page` parameter is not modelled. It is the abstract `parseInt`. The empty value, the word `last` and the "not found" answer for anything else are modelled in `RequestedPage`.
- Multi-valued query parameters are not modelled. Query values are opaque strings, so how a multi-valued query dictionary survives serialisation into the session store is outside the model.
- Form validation and the re-rendering of an invalid form are left out. `CreateFormValid` and `UpdateFormValid` require a valid form, as the framework only calls them for one. Validity is the predicate `ValidForm`.
- Persistence, transactions and concurrent requests are left out. Each method is one synchronous request.
- Category create and edit views are left out. Categories are managed outside this application. Only the Category record's shape (`Models.Category`, `ValidCategory`) and the effect of deleting one (`BookApp.CategoryDeleted`) are modelled.
- `__str__` of Book and Category is left out. It only produces a display string.
- Real clock values are not modelled. The two readings in create are separate parameters, and nothing is assumed about how they compare.
