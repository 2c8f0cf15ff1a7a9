/** The records of the book-tracking application: a Book row, the Category
    master data it may point to, the constraints each column carries, and the
    SET_NULL policy of its three weak references (category, created_by,
    updated_by). Everything here is a value; the store that holds the rows is
    a map from row id to Book. */
module Models {

  datatype Option<+T> = None | Some(value: T)

  type BookId = nat
  type CategoryId = nat
  type UserId = nat
  /** A calendar date (DateField), as a day number. */
  type Date = int
  /** An instant (DateTimeField), as a count of clock ticks. */
  type Timestamp = int

  /** The max_length shared by book_name, author_name, read_reason and
      category_name. */
  const MaxTextLength: nat := 20

  /** The codes of the read_status choices: 1 read and wants to re-read,
      2 read, 3 not read yet. */
  const ReadStatusChoices: set<int> := {1, 2, 3}

  /** A Category row: its id and an optional name. */
  datatype Category = Category(id: CategoryId, categoryName: Option<string>)

  /** A Book row. Every column may be NULL in the table except is_wonder,
      which is why is_wonder is optional here and required by ValidBook. */
  datatype Book = Book(
    bookName: Option<string>,
    authorName: Option<string>,
    readStatus: Option<int>,
    readReason: Option<string>,
    isWonder: Option<bool>,
    category: Option<CategoryId>,
    startDate: Option<Date>,
    endDate: Option<Date>,
    review: Option<string>,
    createdBy: Option<UserId>,
    createdAt: Option<Timestamp>,
    updatedBy: Option<UserId>,
    updatedAt: Option<Timestamp>)

  /** The cleaned data of a submitted form: the editable columns. is_wonder
      is a check box, so the form always supplies it (an unchecked box
      cleans to false); only a row written some other way can lack it. */
  datatype BookForm = BookForm(
    bookName: Option<string>,
    authorName: Option<string>,
    readStatus: Option<int>,
    readReason: Option<string>,
    isWonder: bool,
    category: Option<CategoryId>,
    startDate: Option<Date>,
    endDate: Option<Date>,
    review: Option<string>)

  /** The four columns declared editable=False; only the views stamp them. */
  datatype Audit = Audit(
    createdBy: Option<UserId>,
    createdAt: Option<Timestamp>,
    updatedBy: Option<UserId>,
    updatedAt: Option<Timestamp>)

  /** b's editable columns hold exactly the values of form f. */
  predicate Carries(b: Book, f: BookForm) {
    && b.bookName == f.bookName && b.authorName == f.authorName
    && b.readStatus == f.readStatus && b.readReason == f.readReason
    && b.isWonder == Some(f.isWonder) && b.category == f.category
    && b.startDate == f.startDate && b.endDate == f.endDate && b.review == f.review
  }

  function AuditOf(b: Book): Audit {
    Audit(b.createdBy, b.createdAt, b.updatedBy, b.updatedAt)
  }

  /** A nullable CharField(max_length=20): absent, or at most 20 characters. */
  predicate ShortText(t: Option<string>) {
    t.None? || |t.value| <= MaxTextLength
  }

  /** A nullable IntegerField restricted to the read_status choices. */
  predicate ValidReadStatus(s: Option<int>) {
    s.None? || s.value in ReadStatusChoices
  }

  /** A nullable foreign key: absent, or the id of an existing row. */
  predicate Resolves<K>(r: Option<K>, existing: set<K>) {
    r.None? || r.value in existing
  }

  /** What the model form accepts, given the ids of the existing Categories:
      the three bounded text fields, a read_status among the choices, and a
      category that is absent or names an existing Category. The two dates
      and review carry no constraint: they are nullable and review is an
      unbounded TextField. */
  predicate ValidForm(f: BookForm, categories: set<CategoryId>) {
    && ShortText(f.bookName)
    && ShortText(f.authorName)
    && ValidReadStatus(f.readStatus)
    && ShortText(f.readReason)
    && Resolves(f.category, categories)
  }

  /** A Book row that satisfies every column constraint: is_wonder is NOT
      NULL. The audit columns are nullable and unconstrained; whether the
      references resolve is RefsResolve, a property of the whole table. */
  predicate ValidBook(b: Book) {
    && ShortText(b.bookName)
    && ShortText(b.authorName)
    && ValidReadStatus(b.readStatus)
    && ShortText(b.readReason)
    && b.isWonder.Some?
  }

  /** A Category row: its name is absent or at most 20 characters. */
  predicate ValidCategory(c: Category) {
    ShortText(c.categoryName)
  }

  /** The Category table: every row valid and stored under its own id. */
  predicate ValidCategories(categories: map<CategoryId, Category>) {
    forall c | c in categories :: categories[c].id == c && ValidCategory(categories[c])
  }

  predicate ValidStore(books: map<BookId, Book>) {
    forall id | id in books :: ValidBook(books[id])
  }

  /** A fresh Book() with the form's fields written onto it: every audit
      column is still NULL. */
  function NewBook(f: BookForm): (b: Book)
    ensures Carries(b, f)
    ensures AuditOf(b) == Audit(None, None, None, None)
  {
    Book(f.bookName, f.authorName, f.readStatus, f.readReason, Some(f.isWonder),
         f.category, f.startDate, f.endDate, f.review, None, None, None, None)
  }

  /** Writes a submitted form onto an existing row. The audit columns are
      not editable, so no form can reach them. */
  function ApplyForm(b: Book, f: BookForm): (r: Book)
    ensures Carries(r, f)
    ensures AuditOf(r) == AuditOf(b)
  {
    b.(bookName := f.bookName, authorName := f.authorName,
       readStatus := f.readStatus, readReason := f.readReason,
       isWonder := Some(f.isWonder), category := f.category,
       startDate := f.startDate, endDate := f.endDate, review := f.review)
  }

  /** The form accepts exactly what makes a valid row whose category
      resolves, whatever the row held before. */
  lemma ApplyFormValid(b: Book, f: BookForm, categories: set<CategoryId>)
    ensures ValidForm(f, categories)
            <==> ValidBook(ApplyForm(b, f)) && Resolves(ApplyForm(b, f).category, categories)
  {
  }

  /** A valid Book has each bounded text column absent or of length at most
      20, read_status absent or one of the three choices, and is_wonder set. */
  lemma ValidBookFields(b: Book)
    requires ValidBook(b)
    ensures b.bookName.None? || |b.bookName.value| <= 20
    ensures b.authorName.None? || |b.authorName.value| <= 20
    ensures b.readReason.None? || |b.readReason.value| <= 20
    ensures b.readStatus.None? || b.readStatus.value in {1, 2, 3}
    ensures b.isWonder.Some?
  {
  }

  /** start_date, end_date and review may take any value, absent or a
      review of any length, and category may be absent or any existing
      Category, without making a row invalid or a reference dangle; a
      category naming no Category does make it dangle. */
  lemma OptionalFieldsUnconstrained(books: map<BookId, Book>, categories: set<CategoryId>,
                                    users: set<UserId>, id: BookId, c: Option<CategoryId>,
                                    s: Option<Date>, e: Option<Date>, r: Option<string>)
    requires id in books && ValidStore(books) && RefsResolve(books, categories, users)
    ensures var b := books[id].(category := c, startDate := s, endDate := e, review := r);
      && ValidStore(books[id := b])
      && (RefsResolve(books[id := b], categories, users) <==> Resolves(c, categories))
  {
    var b := books[id].(category := c, startDate := s, endDate := e, review := r);
    if !Resolves(c, categories) {
      assert id in books[id := b];
    }
  }

  /** is_wonder is the one field a form cannot leave out: a form with every
      other field absent is valid and yields a row with is_wonder set to the
      box's state, while a row without is_wonder is invalid. */
  lemma IsWonderRequired(b: Book, w: bool, categories: set<CategoryId>)
    ensures var f := BookForm(None, None, None, None, w, None, None, None, None);
      ValidForm(f, categories) && NewBook(f).isWonder == Some(w) && ValidBook(NewBook(f))
    ensures !ValidBook(b.(isWonder := None))
  {
  }

  // SET_NULL: deleting a referent clears the references to it.

  function ClearCategory(b: Book, c: CategoryId): Book {
    if b.category == Some(c) then b.(category := None) else b
  }

  function ClearUser(b: Book, u: UserId): Book {
    b.(createdBy := if b.createdBy == Some(u) then None else b.createdBy,
       updatedBy := if b.updatedBy == Some(u) then None else b.updatedBy)
  }

  /** The rows after Category c is deleted: no Book is removed, none refers
      to c any more, and only the category column of the Books that referred
      to c changes. */
  function DeleteCategory(books: map<BookId, Book>, c: CategoryId): (r: map<BookId, Book>)
    ensures r.Keys == books.Keys
    ensures forall id | id in r :: r[id].category != Some(c)
    ensures forall id | id in r ::
      r[id] == books[id].(category := if books[id].category == Some(c) then None else books[id].category)
  {
    map id | id in books :: ClearCategory(books[id], c)
  }

  /** The rows after User u is deleted: no Book is removed, created_by and
      updated_by no longer refer to u, and nothing else changes. */
  function DeleteUser(books: map<BookId, Book>, u: UserId): (r: map<BookId, Book>)
    ensures r.Keys == books.Keys
    ensures forall id | id in r :: r[id].createdBy != Some(u) && r[id].updatedBy != Some(u)
    ensures forall id | id in r ::
      && r[id].(createdBy := books[id].createdBy, updatedBy := books[id].updatedBy) == books[id]
      && (books[id].createdBy != Some(u) ==> r[id].createdBy == books[id].createdBy)
      && (books[id].updatedBy != Some(u) ==> r[id].updatedBy == books[id].updatedBy)
  {
    map id | id in books :: ClearUser(books[id], u)
  }

  /** Every reference a row holds points at an existing row. */
  predicate RefsResolve(books: map<BookId, Book>, categories: set<CategoryId>, users: set<UserId>) {
    forall id | id in books ::
      && Resolves(books[id].category, categories)
      && Resolves(books[id].createdBy, users)
      && Resolves(books[id].updatedBy, users)
  }

  /** Deleting a Category keeps every reference resolvable and every row
      valid. */
  lemma DeleteCategoryKeepsIntegrity(books: map<BookId, Book>, categories: set<CategoryId>,
                                     users: set<UserId>, c: CategoryId)
    requires RefsResolve(books, categories, users) && ValidStore(books)
    ensures RefsResolve(DeleteCategory(books, c), categories - {c}, users)
    ensures ValidStore(DeleteCategory(books, c))
  {
  }

  /** Deleting a User keeps every reference resolvable and every row valid. */
  lemma DeleteUserKeepsIntegrity(books: map<BookId, Book>, categories: set<CategoryId>,
                                 users: set<UserId>, u: UserId)
    requires RefsResolve(books, categories, users) && ValidStore(books)
    ensures RefsResolve(DeleteUser(books, u), categories, users - {u})
    ensures ValidStore(DeleteUser(books, u))
  {
  }
}
