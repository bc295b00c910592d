/**
 * The four circulation tables (books, borrow_records, appointments,
 * reader_info), the sys_user rows that reader accounts own, the two sys_config
 * policy values, and the explicit enumerations behind the status columns.
 *
 * Money is in integer cents, time in integer milliseconds.
 */
module Schema {
  import opened Table

  /** One day in milliseconds. */
  const DAY: int := 86_400_000
  /** The fine of 0.5 per overdue day, in cents. */
  const FINE_PER_DAY: int := 50
  /** Fallbacks for the sys_config values max_borrow_count and max_borrow_days. */
  const DEFAULT_MAX_BORROW_COUNT: int := 5
  const DEFAULT_MAX_BORROW_DAYS: int := 30

  /** books.status: 0 off shelf, 1 directly borrowable, 2 lent on the reader path, 3 reservation pending. */
  datatype BookStatus = OffShelf | OnShelf | LentByReader | ReservationPending
  {
    function Code(): (c: int)
      ensures 0 <= c <= 3
    {
      match this
      case OffShelf => 0
      case OnShelf => 1
      case LentByReader => 2
      case ReservationPending => 3
    }
  }

  /** borrow_records.status */
  datatype LoanStatus = Borrowed | Returned

  /** appointments.status */
  datatype AppointmentStatus = Pending | Completed | Cancelled

  /** reader_info.credit_status */
  datatype CreditStatus = Good | Normal | Overdue | Debt

  /** The credit labels that may borrow or reserve: good and normal. */
  predicate CreditAllowsLending(c: CreditStatus)
  {
    c == Good || c == Normal
  }

  /** The descriptive columns of a book, which no circulation rule reads. */
  datatype BookInfo = BookInfo(
    isbn: string, title: string, author: string, publisher: string,
    publishDate: string, price: int, categoryId: int,
    location: string, description: string)

  datatype Book = Book(
    id: int, info: BookInfo, cover: string,
    total: int, available: int, borrowCount: int, status: BookStatus)

  /** The stock bound the counts are meant to keep: 0 <= available_count <= total_count. */
  predicate StockBounded(b: Book)
  {
    0 <= b.available <= b.total
  }

  /** A borrow_records row; `reader` holds the reader's reader_no. */
  datatype Loan = Loan(
    id: int, no: string, reader: string, book: int,
    borrowDate: int, dueDate: int, returnDate: Option<int>,
    status: LoanStatus, renewCount: int, maxRenewCount: int,
    overdueDays: int, fine: int, operator: Option<int>)

  /** An appointments row; `reader` holds the reader's numeric reader_info id. */
  datatype Appointment = Appointment(
    id: int, no: string, reader: int, book: int, date: int,
    status: AppointmentStatus, reminderSent: bool, operator: Option<int>,
    completedDate: Option<int>, cancelledDate: Option<int>)

  /** A reader_info row; `userId` is the sys_user row created with it. */
  datatype Reader = Reader(
    id: int, userId: int, no: string, name: string,
    credit: CreditStatus, arrears: int)

  /** A sys_user row; a reader's username is its reader_no. */
  datatype User = User(id: int, username: string)

  /**
   * Policy and schema defaults. The two sys_config values are given as what
   * parseInt makes of them (None for a missing row or a non-numeric value).
   * The column defaults of borrow_records.max_renew_count and books.status are
   * fixed by the schema, which is not part of this model.
   */
  datatype Config = Config(
    maxBorrowCount: Option<int>, maxBorrowDays: Option<int>,
    loanMaxRenewDefault: int, bookStatusDefault: BookStatus)

  /** The whole database; the next* fields are the AUTO_INCREMENT counters. */
  datatype Db = Db(
    books: seq<Book>, loans: seq<Loan>, appointments: seq<Appointment>,
    readers: seq<Reader>, users: seq<User>, config: Config,
    nextBookId: int, nextLoanId: int, nextAppointmentId: int,
    nextReaderId: int, nextUserId: int)

  /** The failure kinds the handlers report, one per guard. */
  datatype Error =
    | BookRequired            // request without a book id
    | MissingField            // a required body field is empty
    | InvalidStatus           // status value outside the accepted set
    | ReaderNotFound
    | BookNotFound
    | LoanNotFound            // missing, not the caller's, or already returned
    | AppointmentNotFound
    | CreditIneligible        // credit label other than good or normal
    | InArrears
    | BorrowLimitReached
    | OutOfStock
    | BookOffShelf
    | NotDirectlyBorrowable   // reader path: book status is not 1
    | DirectlyBorrowable      // reader path: book status 1 needs no reservation
    | AlreadyReserved
    | ReservationLimitReached
    | NotBorrowed
    | RenewLimitReached
    | NotPending
    | AppointmentCompleted
    | BookHasOpenLoans
    | BookHasAppointments
    | ReaderHasOpenLoans
    | ReaderHasAppointments
    | ReaderHasLoanHistory

  datatype Result<+T> = Ok(value: T) | Err(error: Error)

  /** What a successful borrow answers: the borrow number and the due date. */
  datatype BorrowReceipt = BorrowReceipt(no: string, due: int)

  /** What a handler leaves behind: the database after it, and its answer. */
  datatype Step<+T> = Step(db: Db, result: Result<T>)

  /**
   * `parseInt(value) || fallback`: a missing, non-numeric or zero setting
   * falls back; any other value, negative ones included, is taken as it is.
   */
  function OrDefault(setting: Option<int>, fallback: int): (v: int)
    ensures setting.None? ==> v == fallback
    ensures setting.Some? && setting.value == 0 ==> v == fallback
    ensures setting.Some? && setting.value != 0 ==> v == setting.value
    ensures fallback != 0 ==> v != 0
  {
    match setting
    case None => fallback
    case Some(n) => if n == 0 then fallback else n
  }

  // WHERE clauses, one named function each, so that every statement that
  // uses a clause refers to the same predicate value.

  function BookWithId(id: int): Book -> bool { (b: Book) => b.id == id }

  function LoanWithId(id: int): Loan -> bool { (l: Loan) => l.id == id }
  function LoanWithNo(no: string): Loan -> bool { (l: Loan) => l.no == no }
  function OpenLoanWithNo(no: string): Loan -> bool { (l: Loan) => l.no == no && l.status == Borrowed }
  function LoanOf(readerNo: string): Loan -> bool { (l: Loan) => l.reader == readerNo }
  function OpenLoanOf(readerNo: string): Loan -> bool { (l: Loan) => l.reader == readerNo && l.status == Borrowed }
  function OwnLoan(id: int, readerNo: string): Loan -> bool { (l: Loan) => l.id == id && l.reader == readerNo }
  function OpenLoanOfBook(book: int): Loan -> bool { (l: Loan) => l.book == book && l.status == Borrowed }

  function AppointmentWithId(id: int): Appointment -> bool { (a: Appointment) => a.id == id }
  function OwnAppointment(id: int, reader: int): Appointment -> bool { (a: Appointment) => a.id == id && a.reader == reader }
  function AppointmentOfReaderColumn(v: Option<int>): Appointment -> bool { (a: Appointment) => v == Some(a.reader) }
  function AppointmentOfBook(book: int): Appointment -> bool { (a: Appointment) => a.book == book }
  function PendingOf(reader: int): Appointment -> bool { (a: Appointment) => a.reader == reader && a.status == Pending }
  function PendingFor(reader: int, book: int): Appointment -> bool
  {
    (a: Appointment) => a.reader == reader && a.book == book && a.status == Pending
  }
  function PendingForBook(book: int): Appointment -> bool { (a: Appointment) => a.book == book && a.status == Pending }

  function ReaderWithId(id: int): Reader -> bool { (r: Reader) => r.id == id }
  function ReaderWithNo(no: string): Reader -> bool { (r: Reader) => r.no == no }

  function UserWithId(id: int): User -> bool { (u: User) => u.id == id }

  // Row updates shared by several handlers.

  /** SET status = ? on a book row. */
  function SetBookStatus(s: BookStatus): Book -> Book { (b: Book) => b.(status := s) }

  /** SET credit_status = ? on a reader row. */
  function SetCredit(c: CreditStatus): Reader -> Reader { (r: Reader) => r.(credit := c) }

  /** SET due_date = ?, renew_count = renew_count + 1 on a loan row. */
  function RenewTo(due: int): Loan -> Loan
  {
    (l: Loan) => l.(dueDate := due, renewCount := l.renewCount + 1)
  }
}
