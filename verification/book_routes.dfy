/**
 * The catalog handlers that touch counts: create (available = total),
 * update (available moves with total, other fields keep their old value
 * when the new one is falsy) and delete (refused while loans or
 * appointments refer to the book).
 */
module BookRoutes {
  import opened Table
  import opened Schema

  /**
   * The create form. A field that is empty or absent is "" for text and 0
   * for numbers; category_id is None when absent.
   */
  datatype NewBook = NewBook(
    isbn: string, title: string, author: string, publisher: string,
    publishDate: string, price: int, categoryId: Option<int>, totalCount: int,
    location: string, description: string, cover: string)

  /** `total_count || 1` */
  function CopiesOrOne(totalCount: int): (n: int)
    ensures totalCount == 0 ==> n == 1
    ensures totalCount != 0 ==> n == totalCount
    ensures n != 0
  {
    if totalCount == 0 then 1 else totalCount
  }

  /**
   * Create a book. isbn, title and author must be non-empty and category_id
   * present. total_count and available_count are both the given count, or 1
   * when it is falsy; status takes the column default and borrow_count is 0.
   * The response carries no data, not even the new id.
   */
  function CreateBook(db: Db, form: NewBook): (s: Step<()>)
    ensures s.result.Err? ==> s.db == db
    ensures s.result.Ok? <==>
      form.isbn != "" && form.title != "" && form.author != "" && form.categoryId.Some?
    ensures s.result.Ok? ==>
      && |s.db.books| == |db.books| + 1
      && s.db.books[..|db.books|] == db.books
      && var b := s.db.books[|db.books|];
      && b.id == db.nextBookId && s.db.nextBookId == db.nextBookId + 1
      && b.available == b.total
      && (form.totalCount != 0 ==> b.total == form.totalCount)
      && (form.totalCount == 0 ==> b.total == 1)
      && b.borrowCount == 0
      && b.status == db.config.bookStatusDefault
      && s.db.loans == db.loans && s.db.appointments == db.appointments && s.db.readers == db.readers
  {
    if form.isbn == "" || form.title == "" || form.author == "" || form.categoryId.None? then
      Step(db, Err(MissingField))
    else
      var n := CopiesOrOne(form.totalCount);
      var info := BookInfo(form.isbn, form.title, form.author, form.publisher, form.publishDate,
                           form.price, form.categoryId.value, form.location, form.description);
      var b := Book(db.nextBookId, info, form.cover, n, n, 0, db.config.bookStatusDefault);
      Step(db.(books := db.books + [b], nextBookId := db.nextBookId + 1), Ok(()))
  }

  /** A created book with a positive count satisfies the stock bound, with every copy on the shelf. */
  lemma CreatedBookIsBounded(db: Db, form: NewBook)
    requires form.totalCount >= 0
    requires CreateBook(db, form).result.Ok?
    ensures var b := CreateBook(db, form).db.books[|db.books|];
      StockBounded(b) && b.total - b.available == 0 && b.total >= 1
  {
  }

  /**
   * The update form. Text and number fields are "" or 0 when falsy, which
   * keeps the stored value; status and cover are None when absent, and only
   * then kept.
   */
  datatype BookPatch = BookPatch(
    isbn: string, title: string, author: string, publisher: string,
    publishDate: string, price: int, categoryId: int, totalCount: int,
    location: string, description: string,
    status: Option<BookStatus>, cover: Option<string>)

  /** `value || current` on a text field. */
  function KeepText(value: string, current: string): (r: string)
    ensures value == "" ==> r == current
    ensures value != "" ==> r == value
  {
    if value == "" then current else value
  }

  /** `value || current` on a number field. */
  function KeepNumber(value: int, current: int): (r: int)
    ensures value == 0 ==> r == current
    ensures value != 0 ==> r == value
  {
    if value == 0 then current else value
  }

  /** `value !== undefined ? value : current` */
  function KeepUnset<T>(value: Option<T>, current: T): (r: T)
    ensures value.None? ==> r == current
    ensures value.Some? ==> r == value.value
  {
    if value.None? then current else value.value
  }

  /** The descriptive columns after an update: each falsy field keeps the stored one. */
  function MergeInfo(patch: BookPatch, info: BookInfo): BookInfo
  {
    BookInfo(KeepText(patch.isbn, info.isbn), KeepText(patch.title, info.title),
             KeepText(patch.author, info.author), KeepText(patch.publisher, info.publisher),
             KeepText(patch.publishDate, info.publishDate), KeepNumber(patch.price, info.price),
             KeepNumber(patch.categoryId, info.categoryId), KeepText(patch.location, info.location),
             KeepText(patch.description, info.description))
  }

  /** The row an update computes from the stored book `b`. */
  function Revised(patch: BookPatch, b: Book): (r: Book)
    ensures r.id == b.id && r.borrowCount == b.borrowCount
    ensures r.total == KeepNumber(patch.totalCount, b.total)
    ensures r.total - r.available == b.total - b.available
    ensures r.status == KeepUnset(patch.status, b.status) && r.cover == KeepUnset(patch.cover, b.cover)
  {
    var total := KeepNumber(patch.totalCount, b.total);
    b.(info := MergeInfo(patch, b.info), cover := KeepUnset(patch.cover, b.cover),
       total := total, available := b.available + (total - b.total),
       status := KeepUnset(patch.status, b.status))
  }

  /** SET every column except the key to the values of `row`. */
  function Overwrite(row: Book): Book -> Book { (b: Book) => row.(id := b.id) }

  /**
   * Update book `id` with `patch`: not found when no row has the id;
   * otherwise the rows with the id receive the values computed from the
   * stored book.
   */
  function UpdateBook(db: Db, id: int, patch: BookPatch): (s: Step<()>)
    ensures s.result.Err? ==> s.db == db
    ensures s.result.Err? <==> Find(db.books, BookWithId(id)).None?
    ensures s.result.Ok? ==>
      && |s.db.books| == |db.books|
      && (forall i :: 0 <= i < |db.books| ==>
            s.db.books[i] == if db.books[i].id == id
                             then Revised(patch, db.books[Find(db.books, BookWithId(id)).value])
                             else db.books[i])
      && s.db.loans == db.loans && s.db.appointments == db.appointments && s.db.readers == db.readers
  {
    match Find(db.books, BookWithId(id))
    case None => Step(db, Err(BookNotFound))
    case Some(k) =>
      Step(db.(books := UpdateWhere(db.books, BookWithId(id), Overwrite(Revised(patch, db.books[k])))), Ok(()))
  }

  /**
   * Copies out (total - available) are the same before and after an update,
   * and a falsy total keeps both counts.
   */
  lemma UpdateKeepsCopiesOut(db: Db, id: int, patch: BookPatch)
    requires Find(db.books, BookWithId(id)).Some?
    ensures var b := db.books[Find(db.books, BookWithId(id)).value];
      var b' := UpdateBook(db, id, patch).db.books[Find(db.books, BookWithId(id)).value];
      && b'.total - b'.available == b.total - b.available
      && (patch.totalCount == 0 ==> b'.total == b.total && b'.available == b.available)
      && (patch.totalCount != 0 ==> b'.total == patch.totalCount)
  {
  }

  /**
   * Every descriptive field keeps its stored value exactly when the new one
   * is falsy, and takes the new one otherwise.
   */
  lemma MergeInfoFields(patch: BookPatch, info: BookInfo)
    ensures var m := MergeInfo(patch, info);
      && (m.isbn == if patch.isbn == "" then info.isbn else patch.isbn)
      && (m.title == if patch.title == "" then info.title else patch.title)
      && (m.author == if patch.author == "" then info.author else patch.author)
      && (m.publisher == if patch.publisher == "" then info.publisher else patch.publisher)
      && (m.publishDate == if patch.publishDate == "" then info.publishDate else patch.publishDate)
      && (m.price == if patch.price == 0 then info.price else patch.price)
      && (m.categoryId == if patch.categoryId == 0 then info.categoryId else patch.categoryId)
      && (m.location == if patch.location == "" then info.location else patch.location)
      && (m.description == if patch.description == "" then info.description else patch.description)
  {
  }

  /** An all-falsy patch with status and cover absent leaves the book as it was. */
  lemma EmptyPatchChangesNothing(db: Db, id: int)
    requires Count(db.books, BookWithId(id)) == 1
    ensures UpdateBook(db, id, BookPatch("", "", "", "", "", 0, 0, 0, "", "", None, None)).db == db
  {
    var patch := BookPatch("", "", "", "", "", 0, 0, 0, "", "", None, None);
    CountPositive(db.books, BookWithId(id));
    var k := Find(db.books, BookWithId(id)).value;
    var s := UpdateBook(db, id, patch).db;
    forall i | 0 <= i < |db.books|
      ensures s.books[i] == db.books[i]
    {
      if db.books[i].id == id && i != k {
        CountAtLeastTwo(db.books, k, i, BookWithId(id));
      }
    }
  }

  /**
   * Lowering total_count below the copies out drives available_count below
   * zero: the update does not keep the stock bound.
   */
  lemma UpdateBreaksStockBound()
    ensures var b := Book(1, BookInfo("", "", "", "", "", 0, 0, "", ""), "", 2, 0, 2, OnShelf);
      var db := Db([b], [], [], [], [], Config(None, None, 1, OnShelf), 2, 1, 1, 1, 1);
      var patch := BookPatch("", "", "", "", "", 0, 0, 1, "", "", None, None);
      && StockBounded(b)
      && UpdateBook(db, 1, patch).result.Ok?
      && UpdateBook(db, 1, patch).db.books[0].available == -1
      && !StockBounded(UpdateBook(db, 1, patch).db.books[0])
  {
  }

  /**
   * The update keeps the stock bound for a book that satisfied it when the
   * new total still covers the copies out.
   */
  lemma UpdateKeepsStockBound(patch: BookPatch, b: Book)
    requires StockBounded(b)
    requires KeepNumber(patch.totalCount, b.total) >= b.total - b.available
    ensures StockBounded(Revised(patch, b))
  {
  }

  /**
   * Delete book `id`: refused while a borrowed loan refers to it, then while
   * any appointment of any status does; otherwise the rows with the id are
   * removed. A missing book is not an error.
   */
  function DeleteBook(db: Db, id: int): (s: Step<()>)
    ensures s.result.Err? ==> s.db == db
    ensures s.result.Ok? <==>
      !Any(db.loans, OpenLoanOfBook(id)) && !Any(db.appointments, AppointmentOfBook(id))
    ensures s.result.Ok? ==>
      && (forall i :: 0 <= i < |s.db.books| ==> s.db.books[i] in db.books && s.db.books[i].id != id)
      && (forall i :: 0 <= i < |db.books| && db.books[i].id != id ==> db.books[i] in s.db.books)
      && |s.db.books| == |db.books| - Count(db.books, BookWithId(id))
      && s.db.loans == db.loans && s.db.appointments == db.appointments && s.db.readers == db.readers
  {
    CountPositive(db.loans, OpenLoanOfBook(id));
    CountPositive(db.appointments, AppointmentOfBook(id));
    if Count(db.loans, OpenLoanOfBook(id)) > 0 then Step(db, Err(BookHasOpenLoans))
    else if Count(db.appointments, AppointmentOfBook(id)) > 0 then Step(db, Err(BookHasAppointments))
    else Step(db.(books := DeleteWhere(db.books, BookWithId(id))), Ok(()))
  }

  /** Deleting a book that has no row succeeds and changes nothing. */
  lemma DeleteMissingBook(db: Db, id: int)
    requires Find(db.books, BookWithId(id)).None?
    requires !Any(db.loans, OpenLoanOfBook(id)) && !Any(db.appointments, AppointmentOfBook(id))
    ensures DeleteBook(db, id) == Step(db, Ok(()))
  {
    DeleteNothing(db.books, BookWithId(id));
  }
}
