/**
 * The handlers taken together as one state machine over the database, and
 * the facts that hold across them: invariants every handler keeps, the stock
 * bound some of them break, and how the reader and staff paths differ.
 */
module Circulation {
  import opened Table
  import opened Schema
  import opened Text
  import opened ReaderController
  import opened BorrowRoutes
  import opened AppointmentRoutes
  import opened BookRoutes
  import opened ReaderRoutes

  /** One request to one of the handlers, with its clock reading and random draw. */
  datatype Request =
    | DirectBorrow(readerId: int, bookId: int, now: nat, draw: nat)
    | DirectRenew(readerId: int, loanId: int)
    | Reserve(readerId: int, bookId: int, at: int, today: CalendarDay, draw: nat)
    | Unreserve(readerId: int, appointmentId: int)
    | DeskBorrow(readerNo: string, bookId: int, operator: int, now: nat, draw: nat, dueOffsetDays: int)
    | DeskReturn(no: string, operator: int, at: int)
    | DeskRenew(no: string)
    | DeskReserve(readerId: int, bookId: int, date: int, operator: int, now: nat, draw: nat)
    | SetAppointment(id: int, target: string, at: int)
    | DropAppointment(id: int)
    | Remind(id: int)
    | DeskCancel(id: int, at: int)
    | AddBook(form: NewBook)
    | EditBook(id: int, patch: BookPatch)
    | DropBook(id: int)
    | AddReader(no: string, name: string, idCard: string)
    | OverrideCredit(id: int, target: string)
    | DropReader(id: int)

  /** The database after one request. */
  function Apply(db: Db, r: Request): Db
  {
    match r
    case DirectBorrow(reader, book, now, draw) => ReaderBorrow(db, reader, book, now, draw).db
    case DirectRenew(reader, loan) => ReaderRenew(db, reader, loan).db
    case Reserve(reader, book, at, today, draw) => CreateReservation(db, reader, book, at, today, draw).db
    case Unreserve(reader, id) => CancelReservation(db, reader, id).db
    case DeskBorrow(no, book, op, now, draw, days) => StaffBorrow(db, no, book, op, now, draw, days).db
    case DeskReturn(no, op, at) => StaffReturn(db, no, op, at).db
    case DeskRenew(no) => StaffRenew(db, no).db
    case DeskReserve(reader, book, date, op, now, draw) => CreateAppointment(db, reader, book, date, op, now, draw).db
    case SetAppointment(id, target, at) => UpdateAppointmentStatus(db, id, target, at).db
    case DropAppointment(id) => DeleteAppointment(db, id).db
    case Remind(id) => SendReminder(db, id).db
    case DeskCancel(id, at) => CancelAppointment(db, id, at).db
    case AddBook(form) => CreateBook(db, form).db
    case EditBook(id, patch) => UpdateBook(db, id, patch).db
    case DropBook(id) => DeleteBook(db, id).db
    case AddReader(no, name, card) => CreateReader(db, no, name, card).db
    case OverrideCredit(id, target) => UpdateCredit(db, id, target).db
    case DropReader(id) => DeleteReader(db, id).db
  }

  /** The database after the requests, one after another. */
  function Run(db: Db, rs: seq<Request>): Db
    decreases |rs|
  {
    if |rs| == 0 then db else Run(Apply(db, rs[0]), rs[1..])
  }

  // ---------------------------------------------------------------------
  // Invariants

  /** A reader in arrears never carries the label good. */
  predicate CreditConsistent(readers: seq<Reader>)
  {
    forall i :: 0 <= i < |readers| && readers[i].arrears > 0 ==> readers[i].credit != Good
  }

  /** Appointment ids are below the AUTO_INCREMENT counter and unique. */
  ghost predicate AppointmentKeys(apps: seq<Appointment>, next: int)
  {
    && (forall i :: 0 <= i < |apps| ==> apps[i].id < next)
    && (forall id :: Count(apps, AppointmentWithId(id)) <= 1)
  }

  /** At most one pending appointment per (reader, book). */
  ghost predicate PendingUnique(apps: seq<Appointment>)
  {
    forall reader, book :: Count(apps, PendingFor(reader, book)) <= 1
  }

  ghost predicate Consistent(db: Db)
  {
    CreditConsistent(db.readers)
    && AppointmentKeys(db.appointments, db.nextAppointmentId)
    && PendingUnique(db.appointments)
  }

  /** The empty database is consistent. */
  lemma EmptyIsConsistent(config: Config)
    ensures Consistent(Db([], [], [], [], [], config, 1, 1, 1, 1, 1))
  {
    var apps: seq<Appointment> := [];
    forall id ensures Count(apps, AppointmentWithId(id)) <= 1 { }
    forall reader, book ensures Count(apps, PendingFor(reader, book)) <= 1 { }
  }

  /**
   * Appending a pending appointment with the next id, for a pair that has
   * none pending, keeps the appointment invariants.
   */
  lemma AppendKeepsAppointments(apps: seq<Appointment>, next: int, a: Appointment)
    requires AppointmentKeys(apps, next) && PendingUnique(apps)
    requires a.id == next
    requires a.status == Pending ==> Count(apps, PendingFor(a.reader, a.book)) == 0
    ensures AppointmentKeys(apps + [a], next + 1) && PendingUnique(apps + [a])
  {
    var apps' := apps + [a];
    forall id ensures Count(apps', AppointmentWithId(id)) <= 1
    {
      CountAppend(apps, a, AppointmentWithId(id));
      if id == next {
        CountNone(apps, AppointmentWithId(id));
      }
    }
    forall reader, book ensures Count(apps', PendingFor(reader, book)) <= 1
    {
      CountAppend(apps, a, PendingFor(reader, book));
    }
  }

  /**
   * Rewriting the rows with one id by `f`, which keeps the key, the reader
   * and the book and makes no row pending that was not, keeps the
   * appointment invariants.
   */
  lemma UpdateKeepsAppointments(apps: seq<Appointment>, next: int, id: int, f: Appointment -> Appointment)
    requires AppointmentKeys(apps, next) && PendingUnique(apps)
    requires forall i :: 0 <= i < |apps| && apps[i].id == id ==>
      f(apps[i]).id == apps[i].id && f(apps[i]).reader == apps[i].reader && f(apps[i]).book == apps[i].book
      && (f(apps[i]).status == Pending ==> apps[i].status == Pending)
    ensures var apps' := UpdateWhere(apps, AppointmentWithId(id), f);
      AppointmentKeys(apps', next) && PendingUnique(apps')
  {
    var apps' := UpdateWhere(apps, AppointmentWithId(id), f);
    forall k ensures Count(apps', AppointmentWithId(k)) <= 1
    {
      CountUpdateWhere(apps, AppointmentWithId(id), f, AppointmentWithId(k));
    }
    forall reader, book ensures Count(apps', PendingFor(reader, book)) <= 1
    {
      CountUpdateWhere(apps, AppointmentWithId(id), f, PendingFor(reader, book));
    }
  }

  /** Deleting rows keeps the appointment invariants. */
  lemma DeleteKeepsAppointments(apps: seq<Appointment>, next: int, p: Appointment -> bool)
    requires AppointmentKeys(apps, next) && PendingUnique(apps)
    ensures var apps' := DeleteWhere(apps, p);
      AppointmentKeys(apps', next) && PendingUnique(apps')
  {
    var apps' := DeleteWhere(apps, p);
    forall k ensures Count(apps', AppointmentWithId(k)) <= 1
    {
      CountDeleteWhere(apps, p, AppointmentWithId(k));
    }
    forall reader, book ensures Count(apps', PendingFor(reader, book)) <= 1
    {
      CountDeleteWhere(apps, p, PendingFor(reader, book));
    }
  }

  /** With unique ids, every row with the id of row `k` is row `k`. */
  lemma OnlyRowWithId(apps: seq<Appointment>, k: nat)
    requires k < |apps|
    requires forall id :: Count(apps, AppointmentWithId(id)) <= 1
    ensures forall i :: 0 <= i < |apps| && apps[i].id == apps[k].id ==> i == k
  {
    forall i | 0 <= i < |apps| && apps[i].id == apps[k].id
      ensures i == k
    {
      if i != k {
        CountAtLeastTwo(apps, i, k, AppointmentWithId(apps[k].id));
      }
    }
  }

  /** A handler that writes neither readers nor appointments keeps the database consistent. */
  lemma OtherTablesKeepConsistent(db: Db, db': Db)
    requires Consistent(db)
    requires db'.readers == db.readers && db'.appointments == db.appointments
    requires db'.nextAppointmentId == db.nextAppointmentId
    ensures Consistent(db')
  {
  }

  lemma ReserveKeepsConsistent(db: Db, reader: int, book: int, at: int, today: CalendarDay, draw: nat)
    requires Consistent(db)
    ensures Consistent(CreateReservation(db, reader, book, at, today, draw).db)
  {
    var s := CreateReservation(db, reader, book, at, today, draw);
    if s.result.Ok? {
      var apps := db.appointments;
      AppendKeepsAppointments(apps, db.nextAppointmentId, s.db.appointments[|apps|]);
      assert s.db.appointments == apps + [s.db.appointments[|apps|]];
    }
  }

  lemma DeskReserveKeepsConsistent(db: Db, reader: int, book: int, date: int, op: int, now: nat, draw: nat)
    requires Consistent(db)
    ensures Consistent(CreateAppointment(db, reader, book, date, op, now, draw).db)
  {
    var s := CreateAppointment(db, reader, book, date, op, now, draw);
    if s.result.Ok? {
      var apps := db.appointments;
      AppendKeepsAppointments(apps, db.nextAppointmentId, s.db.appointments[|apps|]);
      assert s.db.appointments == apps + [s.db.appointments[|apps|]];
    }
  }

  lemma UnreserveKeepsConsistent(db: Db, reader: int, id: int)
    requires Consistent(db)
    ensures Consistent(CancelReservation(db, reader, id).db)
  {
    if CancelReservation(db, reader, id).result.Ok? {
      UpdateKeepsAppointments(db.appointments, db.nextAppointmentId, id, CancelRow());
    }
  }

  lemma SetAppointmentKeepsConsistent(db: Db, id: int, target: string, at: int)
    requires Consistent(db)
    ensures Consistent(UpdateAppointmentStatus(db, id, target, at).db)
  {
    var apps := db.appointments;
    if UpdateAppointmentStatus(db, id, target, at).result.Ok? {
      var k := Find(apps, AppointmentWithId(id)).value;
      OnlyRowWithId(apps, k);
      var t := ParseAppointmentStatus(target).value;
      if t == Completed {
        UpdateKeepsAppointments(apps, db.nextAppointmentId, id, CompleteRow(at));
      } else {
        UpdateKeepsAppointments(apps, db.nextAppointmentId, id, CloseRow(t, at));
      }
    }
  }

  lemma DropAppointmentKeepsConsistent(db: Db, id: int)
    requires Consistent(db)
    ensures Consistent(DeleteAppointment(db, id).db)
  {
    DeleteKeepsAppointments(db.appointments, db.nextAppointmentId, AppointmentWithId(id));
  }

  lemma RemindKeepsConsistent(db: Db, id: int)
    requires Consistent(db)
    ensures Consistent(SendReminder(db, id).db)
  {
    if SendReminder(db, id).result.Ok? {
      UpdateKeepsAppointments(db.appointments, db.nextAppointmentId, id, MarkReminded());
    }
  }

  lemma DeskCancelKeepsConsistent(db: Db, id: int, at: int)
    requires Consistent(db)
    ensures Consistent(CancelAppointment(db, id, at).db)
  {
    if CancelAppointment(db, id, at).result.Ok? {
      UpdateKeepsAppointments(db.appointments, db.nextAppointmentId, id, CloseRow(Cancelled, at));
    }
  }

  lemma DeskReturnKeepsConsistent(db: Db, no: string, op: int, at: int)
    requires Consistent(db)
    ensures Consistent(StaffReturn(db, no, op, at).db)
  {
    if StaffReturn(db, no, op, at).result.Ok? {
      StaffReturnEffect(db, no, op, at);
    }
  }

  lemma AddReaderKeepsConsistent(db: Db, no: string, name: string, card: string)
    requires Consistent(db)
    ensures Consistent(CreateReader(db, no, name, card).db)
  {
  }

  lemma OverrideCreditKeepsConsistent(db: Db, id: int, target: string)
    requires Consistent(db)
    ensures Consistent(UpdateCredit(db, id, target).db)
  {
  }

  lemma DropReaderKeepsConsistent(db: Db, id: int)
    requires Consistent(db)
    ensures Consistent(DeleteReader(db, id).db)
  {
  }

  /** The requests that write only books and loans. */
  predicate WritesStockOnly(r: Request)
  {
    r.DirectBorrow? || r.DirectRenew? || r.DeskBorrow? || r.DeskRenew?
    || r.AddBook? || r.EditBook? || r.DropBook?
  }

  /** A request that writes only books and loans keeps the database consistent. */
  lemma StockRequestKeepsConsistent(db: Db, r: Request)
    requires Consistent(db)
    requires WritesStockOnly(r)
    ensures Consistent(Apply(db, r))
  {
    if r.DirectBorrow? && ReaderBorrow(db, r.readerId, r.bookId, r.now, r.draw).result.Ok? {
      ReaderBorrowEffect(db, r.readerId, r.bookId, r.now, r.draw);
    }
    OtherTablesKeepConsistent(db, Apply(db, r));
  }

  /** Every handler keeps the database consistent. */
  lemma ApplyKeepsConsistent(db: Db, r: Request)
    requires Consistent(db)
    ensures Consistent(Apply(db, r))
  {
    if WritesStockOnly(r) {
      StockRequestKeepsConsistent(db, r);
    } else {
      match r
      case Reserve(reader, book, at, today, draw) => ReserveKeepsConsistent(db, reader, book, at, today, draw);
      case Unreserve(reader, id) => UnreserveKeepsConsistent(db, reader, id);
      case DeskReturn(no, op, at) => DeskReturnKeepsConsistent(db, no, op, at);
      case DeskReserve(reader, book, date, op, now, draw) =>
        DeskReserveKeepsConsistent(db, reader, book, date, op, now, draw);
      case SetAppointment(id, target, at) => SetAppointmentKeepsConsistent(db, id, target, at);
      case DropAppointment(id) => DropAppointmentKeepsConsistent(db, id);
      case Remind(id) => RemindKeepsConsistent(db, id);
      case DeskCancel(id, at) => DeskCancelKeepsConsistent(db, id, at);
      case AddReader(no, name, card) => AddReaderKeepsConsistent(db, no, name, card);
      case OverrideCredit(id, target) => OverrideCreditKeepsConsistent(db, id, target);
      case DropReader(id) => DropReaderKeepsConsistent(db, id);
    }
  }

  /** Any sequence of requests keeps the database consistent. */
  lemma {:induction false} RunKeepsConsistent(db: Db, rs: seq<Request>)
    requires Consistent(db)
    ensures Consistent(Run(db, rs))
    decreases |rs|
  {
    if |rs| > 0 {
      ApplyKeepsConsistent(db, rs[0]);
      RunKeepsConsistent(Apply(db, rs[0]), rs[1..]);
    }
  }

  /**
   * In a consistent database a reader in arrears is refused on the reader
   * path, whatever its credit label: the label cannot be good, and a label
   * of normal is stopped by the arrears check.
   */
  lemma ArrearsBlockDirectBorrow(db: Db, readerId: int, bookId: int, now: nat, draw: nat)
    requires Find(db.readers, ReaderWithId(readerId)).Some?
    requires db.readers[Find(db.readers, ReaderWithId(readerId)).value].arrears > 0
    ensures ReaderBorrow(db, readerId, bookId, now, draw).result.Err?
  {
  }

  // ---------------------------------------------------------------------
  // Stock

  /** Every book row satisfies the stock bound. */
  predicate StockBoundedAll(books: seq<Book>)
  {
    forall i :: 0 <= i < |books| ==> StockBounded(books[i])
  }

  /**
   * Both borrows keep the stock bound when book ids are unique: the copy is
   * taken only from a row whose available_count was positive.
   */
  lemma BorrowsKeepStockBound(db: Db, r: Request)
    requires r.DirectBorrow? || r.DeskBorrow?
    requires StockBoundedAll(db.books)
    requires Count(db.books, BookWithId(r.bookId)) <= 1
    ensures StockBoundedAll(Apply(db, r).books)
  {
    if Find(db.books, BookWithId(r.bookId)).Some? {
      var k := Find(db.books, BookWithId(r.bookId)).value;
      forall i | 0 <= i < |db.books| && db.books[i].id == r.bookId
        ensures i == k
      {
        if i != k {
          CountAtLeastTwo(db.books, i, k, BookWithId(r.bookId));
        }
      }
    }
  }

  /**
   * A staff borrow followed by the return of the same borrow number gives
   * every book its available_count back, provided no earlier loan had that
   * number; borrow_count keeps the extra one.
   */
  lemma BorrowThenReturnRestoresStock(db: Db, readerNo: string, bookId: int, operator: int, now: nat, draw: nat,
                                      days: int, operator2: int, later: int)
    requires StaffBorrow(db, readerNo, bookId, operator, now, draw, days).result.Ok?
    requires forall i :: 0 <= i < |db.loans| ==> db.loans[i].no != SerialNo('B', now, draw)
    ensures var s := StaffBorrow(db, readerNo, bookId, operator, now, draw, days).db;
      var t := StaffReturn(s, SerialNo('B', now, draw), operator2, later);
      && t.result.Ok?
      && |t.db.books| == |db.books|
      && (forall i :: 0 <= i < |db.books| ==>
            t.db.books[i].available == db.books[i].available
            && t.db.books[i].borrowCount == db.books[i].borrowCount + (if db.books[i].id == bookId then 1 else 0))
  {
    var no := SerialNo('B', now, draw);
    var s := StaffBorrow(db, readerNo, bookId, operator, now, draw, days).db;
    StaffBorrowEffect(db, readerNo, bookId, operator, now, draw, days);
    assert OpenLoanWithNo(no)(s.loans[|db.loans|]);
    var k := Find(s.loans, OpenLoanWithNo(no)).value;
    assert k == |db.loans|;
    StaffReturnEffect(s, no, operator2, later);
  }

  /**
   * Completing a reservation of a book with no copy on the shelf drives
   * available_count below zero: the status update does not keep the stock
   * bound.
   */
  lemma CompletionBreaksStockBound()
    ensures var b := Book(1, BookInfo("", "", "", "", "", 0, 0, "", ""), "", 1, 0, 1, ReservationPending);
      var a := Appointment(1, "A1", 7, 1, 0, Pending, false, None, None, None);
      var db := Db([b], [], [a], [], [], Config(None, None, 1, OnShelf), 2, 1, 2, 1, 1);
      var s := UpdateAppointmentStatus(db, 1, "completed", 5);
      && StockBoundedAll(db.books) && Consistent(db)
      && s.result.Ok? && s.db.books[0].available == -1 && !StockBoundedAll(s.db.books)
  {
    var a := Appointment(1, "A1", 7, 1, 0, Pending, false, None, None, None);
    forall id ensures Count([a], AppointmentWithId(id)) <= 1 { }
    forall reader, book ensures Count([a], PendingFor(reader, book)) <= 1 { }
  }

  // ---------------------------------------------------------------------
  // The reader path and the staff path

  /**
   * After a reader-path borrow the book's status is 2, and no staff return
   * changes it, so the book can no longer be borrowed on the reader path.
   */
  lemma ReaderPathLocksBook(db: Db, readerId: int, bookId: int, now: nat, draw: nat,
                            no: string, operator: int, at: int, reader2: int, now2: nat, draw2: nat)
    requires ReaderBorrow(db, readerId, bookId, now, draw).result.Ok?
    ensures var s := StaffReturn(ReaderBorrow(db, readerId, bookId, now, draw).db, no, operator, at).db;
      ReaderBorrow(s, reader2, bookId, now2, draw2).result == Err(NotDirectlyBorrowable)
  {
    var s1 := ReaderBorrow(db, readerId, bookId, now, draw).db;
    ReaderBorrowEffect(db, readerId, bookId, now, draw);
    var s2 := StaffReturn(s1, no, operator, at);
    if s2.result.Ok? {
      StaffReturnEffect(s1, no, operator, at);
    }
    forall j | 0 <= j < |db.books|
      ensures BookWithId(bookId)(s2.db.books[j]) == BookWithId(bookId)(db.books[j])
    {
    }
    FindSameMatches(db.books, s2.db.books, BookWithId(bookId));
  }

  /**
   * The staff desk lends to a reader in arrears whom the reader path
   * refuses: same reader, same book on the shelf, one outcome each.
   */
  lemma DeskLendsWhereReaderPathRefuses()
    ensures var r := Reader(7, 70, "R7", "Li", Normal, 250);
      var b := Book(1, BookInfo("", "", "", "", "", 0, 0, "", ""), "", 1, 1, 0, OnShelf);
      var db := Db([b], [], [], [r], [User(70, "R7")], Config(None, None, 1, OnShelf), 2, 1, 1, 8, 71);
      && CreditConsistent(db.readers)
      && ReaderBorrow(db, 7, 1, 0, 0).result == Err(InArrears)
      && StaffBorrow(db, "R7", 1, 99, 0, 0, 30).result.Ok?
  {
  }
}
