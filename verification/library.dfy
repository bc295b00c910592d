/**
 * The database as mutable state: one field per table and per AUTO_INCREMENT
 * counter, and one method per handler that runs its guards against the
 * current rows and then applies its writes in the order the handler issues
 * them. Each method is proved to leave exactly the state, and give exactly
 * the answer, of the handler's function, and to keep the invariants.
 */
module LibraryDb {
  import opened Table
  import opened Schema
  import opened Text
  import opened SqlCompare
  import RC = ReaderController
  import BR = BorrowRoutes
  import AR = AppointmentRoutes
  import BK = BookRoutes
  import RR = ReaderRoutes
  import Circ = Circulation

  class Library {
    var books: seq<Book>
    var loans: seq<Loan>
    var appointments: seq<Appointment>
    var readers: seq<Reader>
    var users: seq<User>
    var config: Config
    var nextBookId: int
    var nextLoanId: int
    var nextAppointmentId: int
    var nextReaderId: int
    var nextUserId: int

    /** The current state as a value. */
    function State(): Db
      reads this
    {
      Db(books, loans, appointments, readers, users, config,
         nextBookId, nextLoanId, nextAppointmentId, nextReaderId, nextUserId)
    }

    ghost predicate Valid()
      reads this
    {
      Circ.Consistent(State())
    }

    /** An empty database under the given policy. */
    constructor (policy: Config)
      ensures State() == Db([], [], [], [], [], policy, 1, 1, 1, 1, 1)
      ensures Valid()
    {
      books, loans, appointments, readers, users := [], [], [], [], [];
      config := policy;
      nextBookId, nextLoanId, nextAppointmentId, nextReaderId, nextUserId := 1, 1, 1, 1, 1;
      Circ.EmptyIsConsistent(policy);
    }

    // -------------------------------------------------------------------
    // Reader path

    /** Reader-path borrow. */
    method BorrowBook(readerId: int, bookId: int, now: nat, draw: nat) returns (r: Result<BorrowReceipt>)
      requires Valid()
      modifies this
      ensures State() == RC.ReaderBorrow(old(State()), readerId, bookId, now, draw).db
      ensures r == RC.ReaderBorrow(old(State()), readerId, bookId, now, draw).result
      ensures Valid()
    {
      ghost var db0 := State();
      if bookId == 0 { return Err(BookRequired); }
      var bi := Find(books, BookWithId(bookId));
      if bi.None? { return Err(BookNotFound); }
      var book := books[bi.value];
      if book.status != OnShelf { return Err(NotDirectlyBorrowable); }
      if book.available <= 0 { return Err(OutOfStock); }
      var ri := Find(readers, ReaderWithId(readerId));
      if ri.None? { return Err(ReaderNotFound); }
      var reader := readers[ri.value];
      var maxCount := OrDefault(config.maxBorrowCount, DEFAULT_MAX_BORROW_COUNT);
      var maxDays := OrDefault(config.maxBorrowDays, DEFAULT_MAX_BORROW_DAYS);
      if !CreditAllowsLending(reader.credit) { return Err(CreditIneligible); }
      if reader.arrears > 0 { return Err(InArrears); }
      if Count(loans, OpenLoanOf(reader.no)) >= maxCount { return Err(BorrowLimitReached); }
      var no := SerialNo('B', now, draw);
      var due := now + maxDays * DAY;
      var lent := loans + [Loan(nextLoanId, no, reader.no, bookId, now, due, None, Borrowed,
                                0, config.loanMaxRenewDefault, 0, 0, None)];
      var taken := UpdateWhere(books, BookWithId(bookId), RC.LendOnReaderPath());
      assert RC.ReaderBorrow(db0, readerId, bookId, now, draw)
          == Step(db0.(loans := lent, nextLoanId := nextLoanId + 1, books := taken), Ok(BorrowReceipt(no, due)));
      loans := lent;
      nextLoanId := nextLoanId + 1;
      books := taken;
      r := Ok(BorrowReceipt(no, due));
      Circ.OtherTablesKeepConsistent(db0, State());
    }

    /** Reader-path renewal. */
    method RenewBook(readerId: int, loanId: int) returns (r: Result<()>)
      requires Valid()
      modifies this
      ensures State() == RC.ReaderRenew(old(State()), readerId, loanId).db
      ensures r == RC.ReaderRenew(old(State()), readerId, loanId).result
      ensures Valid()
    {
      ghost var db0 := State();
      var ri := Find(readers, ReaderWithId(readerId));
      if ri.None? { return Err(ReaderNotFound); }
      var no := readers[ri.value].no;
      var li := Find(loans, OwnLoan(loanId, no));
      if li.None? { return Err(LoanNotFound); }
      var rec := loans[li.value];
      if rec.status != Borrowed { return Err(NotBorrowed); }
      if rec.renewCount >= RC.READER_RENEW_LIMIT { return Err(RenewLimitReached); }
      var renewed := UpdateWhere(loans, LoanWithId(loanId), RenewTo(rec.dueDate + RC.READER_RENEW_DAYS * DAY));
      assert RC.ReaderRenew(db0, readerId, loanId) == Step(db0.(loans := renewed), Ok(()));
      loans := renewed;
      r := Ok(());
      Circ.OtherTablesKeepConsistent(db0, State());
    }

    /** Reader-path reservation. */
    method CreateReservation(readerId: int, bookId: int, now: int, today: RC.CalendarDay, draw: nat)
      returns (r: Result<()>)
      requires Valid()
      modifies this
      ensures State() == RC.CreateReservation(old(State()), readerId, bookId, now, today, draw).db
      ensures r == RC.CreateReservation(old(State()), readerId, bookId, now, today, draw).result
      ensures Valid()
    {
      ghost var db0 := State();
      Circ.ReserveKeepsConsistent(db0, readerId, bookId, now, today, draw);
      if Find(readers, ReaderWithId(readerId)).None? { return Err(ReaderNotFound); }
      if bookId == 0 { return Err(BookRequired); }
      var bi := Find(books, BookWithId(bookId));
      if bi.None? { return Err(BookNotFound); }
      if books[bi.value].status == OnShelf { return Err(DirectlyBorrowable); }
      if Count(appointments, PendingFor(readerId, bookId)) > 0 { return Err(AlreadyReserved); }
      if Count(appointments, PendingOf(readerId)) >= RC.MAX_PENDING_RESERVATIONS {
        return Err(ReservationLimitReached);
      }
      appointments := appointments + [Appointment(nextAppointmentId, RC.AppointmentNo(today, draw), readerId, bookId,
                                                  now, Pending, false, None, None, None)];
      nextAppointmentId := nextAppointmentId + 1;
      books := UpdateWhere(books, BookWithId(bookId), SetBookStatus(ReservationPending));
      r := Ok(());
    }

    /** Reader-path cancellation. */
    method CancelReservation(readerId: int, appointmentId: int) returns (r: Result<()>)
      requires Valid()
      modifies this
      ensures State() == RC.CancelReservation(old(State()), readerId, appointmentId).db
      ensures r == RC.CancelReservation(old(State()), readerId, appointmentId).result
      ensures Valid()
    {
      ghost var db0 := State();
      Circ.UnreserveKeepsConsistent(db0, readerId, appointmentId);
      var k := Find(appointments, OwnAppointment(appointmentId, readerId));
      if k.None? { return Err(AppointmentNotFound); }
      var rec := appointments[k.value];
      if rec.status != Pending { return Err(NotPending); }
      appointments := UpdateWhere(appointments, AppointmentWithId(appointmentId), RC.CancelRow());
      if Count(appointments, PendingForBook(rec.book)) == 0 {
        books := UpdateWhere(books, BookWithId(rec.book), SetBookStatus(OnShelf));
      }
      r := Ok(());
    }

    // -------------------------------------------------------------------
    // Staff lending

    /** Staff borrow; the due date is `dueOffsetDays` days after `now`. */
    method StaffBorrow(readerNo: string, bookId: int, operator: int, now: nat, draw: nat, dueOffsetDays: int)
      returns (r: Result<BorrowReceipt>)
      requires Valid()
      modifies this
      ensures State() == BR.StaffBorrow(old(State()), readerNo, bookId, operator, now, draw, dueOffsetDays).db
      ensures r == BR.StaffBorrow(old(State()), readerNo, bookId, operator, now, draw, dueOffsetDays).result
      ensures Valid()
    {
      ghost var db0 := State();
      if readerNo == "" { return Err(MissingField); }
      var ri := Find(readers, ReaderWithNo(readerNo));
      if ri.None? { return Err(ReaderNotFound); }
      var reader := readers[ri.value];
      var maxCount := OrDefault(config.maxBorrowCount, DEFAULT_MAX_BORROW_COUNT);
      if !CreditAllowsLending(reader.credit) { return Err(CreditIneligible); }
      if Count(loans, OpenLoanOf(readerNo)) >= maxCount { return Err(BorrowLimitReached); }
      var bi := Find(books, BookWithId(bookId));
      if bi.None? { return Err(BookNotFound); }
      var book := books[bi.value];
      if book.available <= 0 { return Err(OutOfStock); }
      if book.status == BookStatus.OffShelf { return Err(BookOffShelf); }
      var no := SerialNo('B', now, draw);
      var due := now + dueOffsetDays * DAY;
      var lent := loans + [Loan(nextLoanId, no, readerNo, bookId, now, due, None, Borrowed,
                                0, config.loanMaxRenewDefault, 0, 0, Some(operator))];
      var taken := UpdateWhere(books, BookWithId(bookId), BR.TakeCopy());
      assert BR.StaffBorrow(db0, readerNo, bookId, operator, now, draw, dueOffsetDays)
          == Step(db0.(loans := lent, nextLoanId := nextLoanId + 1, books := taken), Ok(BorrowReceipt(no, due)));
      loans := lent;
      nextLoanId := nextLoanId + 1;
      books := taken;
      r := Ok(BorrowReceipt(no, due));
      Circ.OtherTablesKeepConsistent(db0, State());
    }

    /** Staff return at time `now`. */
    method StaffReturn(no: string, operator: int, now: int) returns (r: Result<BR.ReturnReceipt>)
      requires Valid()
      modifies this
      ensures State() == BR.StaffReturn(old(State()), no, operator, now).db
      ensures r == BR.StaffReturn(old(State()), no, operator, now).result
      ensures Valid()
    {
      ghost var db0 := State();
      Circ.DeskReturnKeepsConsistent(db0, no, operator, now);
      if no == "" { return Err(MissingField); }
      var k := Find(loans, OpenLoanWithNo(no));
      if k.None? { return Err(LoanNotFound); }
      var rec := loans[k.value];
      var p := BR.Penalty(now, rec.dueDate);
      loans := UpdateWhere(loans, LoanWithNo(no), BR.MarkReturned(now, p, operator));
      readers := UpdateWhere(readers, ReaderWithNo(rec.reader), BR.AddArrears(p.fine));
      books := UpdateWhere(books, BookWithId(rec.book), BR.ReturnCopy());
      if p.fine > 0 {
        readers := UpdateWhere(readers, ReaderWithNo(rec.reader), SetCredit(Debt));
      }
      r := Ok(p);
    }

    /** Staff renewal. */
    method StaffRenew(no: string) returns (r: Result<int>)
      requires Valid()
      modifies this
      ensures State() == BR.StaffRenew(old(State()), no).db
      ensures r == BR.StaffRenew(old(State()), no).result
      ensures Valid()
    {
      ghost var db0 := State();
      if no == "" { return Err(MissingField); }
      var k := Find(loans, OpenLoanWithNo(no));
      if k.None? { return Err(LoanNotFound); }
      var rec := loans[k.value];
      var days := OrDefault(config.maxBorrowDays, DEFAULT_MAX_BORROW_DAYS);
      if rec.renewCount >= rec.maxRenewCount { return Err(RenewLimitReached); }
      var due := rec.dueDate + days * DAY;
      loans := UpdateWhere(loans, LoanWithNo(no), RenewTo(due));
      r := Ok(due);
      Circ.OtherTablesKeepConsistent(db0, State());
    }

    // -------------------------------------------------------------------
    // Staff reservations

    /** Staff create of an appointment. */
    method CreateAppointment(readerId: int, bookId: int, date: int, operator: int, now: nat, draw: nat)
      returns (r: Result<string>)
      requires Valid()
      modifies this
      ensures State() == AR.CreateAppointment(old(State()), readerId, bookId, date, operator, now, draw).db
      ensures r == AR.CreateAppointment(old(State()), readerId, bookId, date, operator, now, draw).result
      ensures Valid()
    {
      ghost var db0 := State();
      Circ.DeskReserveKeepsConsistent(db0, readerId, bookId, date, operator, now, draw);
      var ri := Find(readers, ReaderWithId(readerId));
      if ri.None? { return Err(ReaderNotFound); }
      if !CreditAllowsLending(readers[ri.value].credit) { return Err(CreditIneligible); }
      var bi := Find(books, BookWithId(bookId));
      if bi.None? { return Err(BookNotFound); }
      var book := books[bi.value];
      if book.available <= 0 { return Err(OutOfStock); }
      if book.status == BookStatus.OffShelf { return Err(BookOffShelf); }
      if Count(appointments, PendingFor(readerId, bookId)) > 0 { return Err(AlreadyReserved); }
      var no := SerialNo('A', now, draw);
      appointments := appointments + [Appointment(nextAppointmentId, no, readerId, bookId, date, Pending, false,
                                                  Some(operator), None, None)];
      nextAppointmentId := nextAppointmentId + 1;
      r := Ok(no);
    }

    /** Staff status transition. */
    method UpdateAppointmentStatus(id: int, target: string, now: int) returns (r: Result<()>)
      requires Valid()
      modifies this
      ensures State() == AR.UpdateAppointmentStatus(old(State()), id, target, now).db
      ensures r == AR.UpdateAppointmentStatus(old(State()), id, target, now).result
      ensures Valid()
    {
      ghost var db0 := State();
      Circ.SetAppointmentKeepsConsistent(db0, id, target, now);
      var t := AR.ParseAppointmentStatus(target);
      if t.None? { return Err(InvalidStatus); }
      var k := Find(appointments, AppointmentWithId(id));
      if k.None? { return Err(AppointmentNotFound); }
      var row := appointments[k.value];
      if row.status != Pending { return Err(NotPending); }
      if t.value == Completed {
        appointments := UpdateWhere(appointments, AppointmentWithId(id), AR.CompleteRow(now));
        books := UpdateWhere(books, BookWithId(row.book), AR.ReserveCopy());
      } else {
        appointments := UpdateWhere(appointments, AppointmentWithId(id), AR.CloseRow(t.value, now));
      }
      r := Ok(());
    }

    /** Staff delete of an appointment. */
    method DeleteAppointment(id: int) returns (r: Result<()>)
      requires Valid()
      modifies this
      ensures State() == AR.DeleteAppointment(old(State()), id).db
      ensures r == AR.DeleteAppointment(old(State()), id).result
      ensures Valid()
    {
      ghost var db0 := State();
      Circ.DropAppointmentKeepsConsistent(db0, id);
      var k := Find(appointments, AppointmentWithId(id));
      if k.None? { return Err(AppointmentNotFound); }
      if appointments[k.value].status == Completed { return Err(AppointmentCompleted); }
      appointments := DeleteWhere(appointments, AppointmentWithId(id));
      r := Ok(());
    }

    /** Staff reminder. */
    method SendReminder(id: int) returns (r: Result<AR.Reminder>)
      requires Valid()
      modifies this
      ensures State() == AR.SendReminder(old(State()), id).db
      ensures r == AR.SendReminder(old(State()), id).result
      ensures Valid()
    {
      ghost var db0 := State();
      Circ.RemindKeepsConsistent(db0, id);
      var k := Find(appointments, AppointmentWithId(id));
      if k.None? { return Err(AppointmentNotFound); }
      var row := appointments[k.value];
      var ri := Find(readers, ReaderWithId(row.reader));
      var name := if ri.Some? then Some(readers[ri.value].name) else None;
      var bi := Find(books, BookWithId(row.book));
      var title := if bi.Some? then Some(books[bi.value].info.title) else None;
      if row.status != Pending { return Err(NotPending); }
      appointments := UpdateWhere(appointments, AppointmentWithId(id), AR.MarkReminded());
      r := Ok(AR.Reminder(name, title));
    }

    /** Staff cancel. */
    method CancelAppointment(id: int, now: int) returns (r: Result<()>)
      requires Valid()
      modifies this
      ensures State() == AR.CancelAppointment(old(State()), id, now).db
      ensures r == AR.CancelAppointment(old(State()), id, now).result
      ensures Valid()
    {
      ghost var db0 := State();
      Circ.DeskCancelKeepsConsistent(db0, id, now);
      var k := Find(appointments, AppointmentWithId(id));
      if k.None? { return Err(AppointmentNotFound); }
      if appointments[k.value].status != Pending { return Err(NotPending); }
      appointments := UpdateWhere(appointments, AppointmentWithId(id), AR.CloseRow(Cancelled, now));
      r := Ok(());
    }

    // -------------------------------------------------------------------
    // Catalog

    /** Create a book. */
    method CreateBook(form: BK.NewBook) returns (r: Result<()>)
      requires Valid()
      modifies this
      ensures State() == BK.CreateBook(old(State()), form).db
      ensures r == BK.CreateBook(old(State()), form).result
      ensures Valid()
    {
      ghost var db0 := State();
      if form.isbn == "" || form.title == "" || form.author == "" || form.categoryId.None? {
        return Err(MissingField);
      }
      var n := BK.CopiesOrOne(form.totalCount);
      var info := BookInfo(form.isbn, form.title, form.author, form.publisher, form.publishDate,
                           form.price, form.categoryId.value, form.location, form.description);
      books := books + [Book(nextBookId, info, form.cover, n, n, 0, config.bookStatusDefault)];
      nextBookId := nextBookId + 1;
      r := Ok(());
      Circ.OtherTablesKeepConsistent(db0, State());
    }

    /** Update a book. */
    method UpdateBook(id: int, patch: BK.BookPatch) returns (r: Result<()>)
      requires Valid()
      modifies this
      ensures State() == BK.UpdateBook(old(State()), id, patch).db
      ensures r == BK.UpdateBook(old(State()), id, patch).result
      ensures Valid()
    {
      ghost var db0 := State();
      var k := Find(books, BookWithId(id));
      if k.None? { return Err(BookNotFound); }
      var revised := BK.Revised(patch, books[k.value]);
      books := UpdateWhere(books, BookWithId(id), BK.Overwrite(revised));
      r := Ok(());
      Circ.OtherTablesKeepConsistent(db0, State());
    }

    /** Delete a book. */
    method DeleteBook(id: int) returns (r: Result<()>)
      requires Valid()
      modifies this
      ensures State() == BK.DeleteBook(old(State()), id).db
      ensures r == BK.DeleteBook(old(State()), id).result
      ensures Valid()
    {
      ghost var db0 := State();
      if Count(loans, OpenLoanOfBook(id)) > 0 { return Err(BookHasOpenLoans); }
      if Count(appointments, AppointmentOfBook(id)) > 0 { return Err(BookHasAppointments); }
      books := DeleteWhere(books, BookWithId(id));
      r := Ok(());
      Circ.OtherTablesKeepConsistent(db0, State());
    }

    // -------------------------------------------------------------------
    // Reader accounts

    /** Create a reader and its user account. */
    method CreateReader(no: string, name: string, idCard: string) returns (r: Result<()>)
      requires Valid()
      modifies this
      ensures State() == RR.CreateReader(old(State()), no, name, idCard).db
      ensures r == RR.CreateReader(old(State()), no, name, idCard).result
      ensures Valid()
    {
      ghost var db0 := State();
      Circ.AddReaderKeepsConsistent(db0, no, name, idCard);
      if no == "" || name == "" || !RR.IdCardValid(idCard) { return Err(MissingField); }
      var userId := nextUserId;
      users := users + [User(userId, no)];
      nextUserId := nextUserId + 1;
      readers := readers + [Reader(nextReaderId, userId, no, name, Good, 0)];
      nextReaderId := nextReaderId + 1;
      r := Ok(());
    }

    /** Staff credit override. */
    method UpdateCredit(id: int, target: string) returns (r: Result<()>)
      requires Valid()
      modifies this
      ensures State() == RR.UpdateCredit(old(State()), id, target).db
      ensures r == RR.UpdateCredit(old(State()), id, target).result
      ensures Valid()
    {
      ghost var db0 := State();
      Circ.OverrideCreditKeepsConsistent(db0, id, target);
      var c := RR.ParseCreditOverride(target);
      if c.None? { return Err(InvalidStatus); }
      if Find(readers, ReaderWithId(id)).None? { return Err(ReaderNotFound); }
      readers := UpdateWhere(readers, ReaderWithId(id), SetCredit(c.value));
      r := Ok(());
    }

    /** Delete a reader and its user account. */
    method DeleteReader(id: int) returns (r: Result<()>)
      requires Valid()
      modifies this
      ensures State() == RR.DeleteReader(old(State()), id).db
      ensures r == RR.DeleteReader(old(State()), id).result
      ensures Valid()
    {
      ghost var db0 := State();
      Circ.DropReaderKeepsConsistent(db0, id);
      var k := Find(readers, ReaderWithId(id));
      if k.None? { return Err(ReaderNotFound); }
      var reader := readers[k.value];
      if Count(loans, OpenLoanOf(reader.no)) > 0 { return Err(ReaderHasOpenLoans); }
      if Count(appointments, AppointmentOfReaderColumn(SqlNumber(reader.no))) > 0 {
        return Err(ReaderHasAppointments);
      }
      if Count(loans, LoanOf(reader.no)) > 0 { return Err(ReaderHasLoanHistory); }
      users := DeleteWhere(users, UserWithId(reader.userId));
      readers := DeleteWhere(readers, ReaderWithId(id));
      r := Ok(());
    }
  }
}
