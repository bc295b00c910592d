/**
 * The reader-facing circulation handlers: direct borrow, renew, create and
 * cancel a reservation, plus the appointment-number formatter and the page
 * window of the announcement list. The caller is the reader whose numeric
 * reader_info id comes from the login token.
 */
module ReaderController {
  import opened Table
  import opened Schema
  import opened Text

  /** The reader path caps pending reservations at three. */
  const MAX_PENDING_RESERVATIONS: int := 3
  /** The reader path renews once, by thirty days. */
  const READER_RENEW_LIMIT: int := 1
  const READER_RENEW_DAYS: int := 30

  // ---------------------------------------------------------------------
  // Appointment number

  /** The local calendar date of the clock reading. */
  datatype CalendarDay = CalendarDay(year: nat, month: nat, day: nat)

  predicate FourDigitDay(d: CalendarDay)
  {
    1000 <= d.year <= 9999 && 1 <= d.month <= 12 && 1 <= d.day <= 31
  }

  /** "AP" + year + 2-digit month + 2-digit day + 4-digit random draw. */
  function AppointmentNo(today: CalendarDay, draw: nat): string
  {
    "AP" + NatToString(today.year) + PadStart(NatToString(today.month), 2)
      + PadStart(NatToString(today.day), 2) + PadStart(NatToString(draw), 4)
  }

  datatype AppointmentStamp = AppointmentStamp(today: CalendarDay, draw: nat)

  /** Reads the date and the draw back out of an appointment number. */
  function ParseAppointmentNo(s: string): Option<AppointmentStamp>
  {
    if |s| == 14 && s[..2] == "AP" && AllDigits(s[2..6]) && AllDigits(s[6..8])
       && AllDigits(s[8..10]) && AllDigits(s[10..])
    then Some(AppointmentStamp(
           CalendarDay(DigitsValue(s[2..6]), DigitsValue(s[6..8]), DigitsValue(s[8..10])),
           DigitsValue(s[10..])))
    else None
  }

  /**
   * For a four-digit year the number is 14 characters, starts with "AP", and
   * the date and the draw can be read back from it.
   */
  lemma AppointmentNoRoundTrip(today: CalendarDay, draw: nat)
    requires FourDigitDay(today) && draw <= 9999
    ensures |AppointmentNo(today, draw)| == 14
    ensures AppointmentNo(today, draw)[..2] == "AP"
    ensures ParseAppointmentNo(AppointmentNo(today, draw)) == Some(AppointmentStamp(today, draw))
  {
    var y := NatToString(today.year);
    NatToStringLength(today.year, 4);
    NatToStringLength(today.year, 3);
    assert Pow10(3) == 1000 && Pow10(4) == 10000;
    NatToStringRoundTrip(today.year);
    var m := PaddedField(today.month, 2);
    var d := PaddedField(today.day, 2);
    var r := PaddedField(draw, 4);
    ParseFields(y, m, d, r);
  }

  /** A number below 10^width, zero-padded to `width`, is `width` digits with its value. */
  lemma PaddedField(n: nat, width: nat) returns (f: string)
    requires 1 <= width <= 4 && n < Pow10(width)
    ensures f == PadStart(NatToString(n), width)
    ensures |f| == width && AllDigits(f) && DigitsValue(f) == n
  {
    f := PadStart(NatToString(n), width);
    NatToStringLength(n, width);
    NatToStringRoundTrip(n);
    PadStartValue(NatToString(n), width);
  }

  /** Splitting a 14-character number back into its four fields. */
  lemma ParseFields(y: string, m: string, d: string, r: string)
    requires |y| == 4 && |m| == 2 && |d| == 2 && |r| == 4
    requires AllDigits(y) && AllDigits(m) && AllDigits(d) && AllDigits(r)
    ensures var s := "AP" + y + m + d + r;
      |s| == 14 && s[..2] == "AP"
      && ParseAppointmentNo(s)
         == Some(AppointmentStamp(CalendarDay(DigitsValue(y), DigitsValue(m), DigitsValue(d)), DigitsValue(r)))
  {
    var s := "AP" + y + m + d + r;
    var upToYear := "AP" + y;
    var upToMonth := upToYear + m;
    var upToDay := upToMonth + d;
    assert s[..10] == upToDay && s[10..] == r;
    assert s[8..10] == d by {
      assert s[8..10] == upToDay[8..];
    }
    assert s[6..8] == m by {
      assert s[..8] == upToDay[..8] == upToMonth;
      assert s[6..8] == upToMonth[6..];
    }
    assert s[2..6] == y by {
      assert s[..6] == upToDay[..6] == upToYear;
      assert s[2..6] == upToYear[2..];
    }
  }

  // ---------------------------------------------------------------------
  // Announcement list window

  /** LIMIT and OFFSET of a list query. */
  datatype Window = Window(limit: int, offset: int)

  /**
   * The LIMIT/OFFSET the announcement list computes from `page` and
   * `pageSize`; None stands for a parameter that is absent or not a number.
   * The offset is computed from the requested size, before it is clamped.
   */
  function AnnouncementWindow(page: Option<int>, pageSize: Option<int>): (w: Window)
    ensures 1 <= w.limit <= 100 && w.offset >= 0
  {
    var pageNum := if page.None? then 1 else page.value;
    var size := if pageSize.None? then 10 else pageSize.value;
    var offset := if (pageNum - 1) * size < 0 then 0 else (pageNum - 1) * size;
    Window(if size < 1 then 1 else if size > 100 then 100 else size, offset)
  }

  /** Within the clamp the window is exactly page `page` of `size` rows. */
  lemma AnnouncementWindowExact(page: int, size: int)
    requires page >= 1 && 1 <= size <= 100
    ensures AnnouncementWindow(Some(page), Some(size)) == Window(size, (page - 1) * size)
  {
    assert (page - 1) * size >= 0;
  }

  /**
   * As written, a page size above 100 skips rows: page 1 lists rows 0..99 and
   * page 2 starts at row 200.
   */
  lemma AnnouncementPagesSkipRows()
    ensures AnnouncementWindow(Some(1), Some(200)) == Window(100, 0)
    ensures AnnouncementWindow(Some(2), Some(200)) == Window(100, 200)
  {
  }

  /** The window with the offset computed from the clamped size. */
  function AnnouncementWindowClamped(page: Option<int>, pageSize: Option<int>): (w: Window)
    ensures w.limit == AnnouncementWindow(page, pageSize).limit
    ensures 1 <= w.limit <= 100 && w.offset >= 0
  {
    var pageNum := if page.None? then 1 else page.value;
    var size := if pageSize.None? then 10 else pageSize.value;
    var limit := if size < 1 then 1 else if size > 100 then 100 else size;
    Window(limit, if (pageNum - 1) * limit < 0 then 0 else (pageNum - 1) * limit)
  }

  /** With the clamped offset, consecutive pages tile the list without gaps. */
  lemma ClampedPagesAreContiguous(page: int, pageSize: Option<int>)
    requires page >= 1
    ensures var w := AnnouncementWindowClamped(Some(page), pageSize);
            AnnouncementWindowClamped(Some(page + 1), pageSize).offset == w.offset + w.limit
  {
    var w := AnnouncementWindowClamped(Some(page), pageSize);
    var next := AnnouncementWindowClamped(Some(page + 1), pageSize);
    var l := w.limit;
    assert next.limit == l;
    NextPageOffset(page, l);
    assert w.offset == (page - 1) * l;
    assert next.offset == (page + 1 - 1) * l;
  }

  lemma NextPageOffset(page: int, l: int)
    requires page >= 1 && l >= 1
    ensures (page - 1) * l >= 0
    ensures (page + 1 - 1) * l == (page - 1) * l + l
  {
  }

  // ---------------------------------------------------------------------
  // Direct borrow


  /** The reader path takes a copy and marks the book as lent (status 2). */
  function LendOnReaderPath(): Book -> Book
  {
    (b: Book) => b.(available := b.available - 1, borrowCount := b.borrowCount + 1, status := LentByReader)
  }

  /**
   * Direct borrow by reader `readerId` of book `bookId` at time `now`;
   * `draw` is the random part of the borrow number. Checks, in order: a book
   * id was given, the book exists, its status is 1, a copy is available, the
   * reader exists, the credit label is good or normal, there are no arrears,
   * and the open loans are below max_borrow_count.
   */
  function ReaderBorrow(db: Db, readerId: int, bookId: int, now: nat, draw: nat): (s: Step<BorrowReceipt>)
    ensures s.result.Err? ==> s.db == db
    ensures bookId == 0 ==> s.result == Err(BookRequired)
    ensures s.result.Ok? <==>
      && bookId != 0 && Find(db.books, BookWithId(bookId)).Some?
      && var b := db.books[Find(db.books, BookWithId(bookId)).value];
      && b.status == OnShelf && b.available > 0
      && Find(db.readers, ReaderWithId(readerId)).Some?
      && var r := db.readers[Find(db.readers, ReaderWithId(readerId)).value];
      && CreditAllowsLending(r.credit) && r.arrears <= 0
      && Count(db.loans, OpenLoanOf(r.no)) < OrDefault(db.config.maxBorrowCount, DEFAULT_MAX_BORROW_COUNT)
  {
    if bookId == 0 then Step(db, Err(BookRequired))
    else match Find(db.books, BookWithId(bookId))
      case None => Step(db, Err(BookNotFound))
      case Some(bi) =>
        var book := db.books[bi];
        if book.status != OnShelf then Step(db, Err(NotDirectlyBorrowable))
        else if book.available <= 0 then Step(db, Err(OutOfStock))
        else match Find(db.readers, ReaderWithId(readerId))
          case None => Step(db, Err(ReaderNotFound))
          case Some(ri) =>
            var reader := db.readers[ri];
            var maxCount := OrDefault(db.config.maxBorrowCount, DEFAULT_MAX_BORROW_COUNT);
            var maxDays := OrDefault(db.config.maxBorrowDays, DEFAULT_MAX_BORROW_DAYS);
            if !CreditAllowsLending(reader.credit) then Step(db, Err(CreditIneligible))
            else if reader.arrears > 0 then Step(db, Err(InArrears))
            else if Count(db.loans, OpenLoanOf(reader.no)) >= maxCount then Step(db, Err(BorrowLimitReached))
            else
              var no := SerialNo('B', now, draw);
              var due := now + maxDays * DAY;
              var loan := Loan(db.nextLoanId, no, reader.no, bookId, now, due, None, Borrowed,
                               0, db.config.loanMaxRenewDefault, 0, 0, None);
              Step(db.(loans := db.loans + [loan], nextLoanId := db.nextLoanId + 1,
                       books := UpdateWhere(db.books, BookWithId(bookId), LendOnReaderPath())),
                   Ok(BorrowReceipt(no, due)))
  }

  /**
   * A successful direct borrow adds exactly one open loan for the reader, due
   * max_borrow_days after `now`; the book's rows lose a copy, gain a borrow
   * and get status 2; nothing else changes.
   */
  lemma ReaderBorrowEffect(db: Db, readerId: int, bookId: int, now: nat, draw: nat)
    requires ReaderBorrow(db, readerId, bookId, now, draw).result.Ok?
    ensures var s := ReaderBorrow(db, readerId, bookId, now, draw).db;
      var r := db.readers[Find(db.readers, ReaderWithId(readerId)).value];
      var days := OrDefault(db.config.maxBorrowDays, DEFAULT_MAX_BORROW_DAYS);
      && |s.loans| == |db.loans| + 1 && s.loans[..|db.loans|] == db.loans
      && s.loans[|db.loans|].status == Borrowed && s.loans[|db.loans|].reader == r.no
      && s.loans[|db.loans|].book == bookId && s.loans[|db.loans|].renewCount == 0
      && s.loans[|db.loans|].borrowDate == now && s.loans[|db.loans|].dueDate == now + days * DAY
      && Count(s.loans, OpenLoanOf(r.no)) == Count(db.loans, OpenLoanOf(r.no)) + 1
      && |s.books| == |db.books|
      && (forall i :: 0 <= i < |db.books| && db.books[i].id == bookId ==>
            s.books[i] == db.books[i].(available := db.books[i].available - 1,
                                       borrowCount := db.books[i].borrowCount + 1,
                                       status := LentByReader))
      && (forall i :: 0 <= i < |db.books| && db.books[i].id != bookId ==> s.books[i] == db.books[i])
      && s.readers == db.readers && s.appointments == db.appointments
      && s.users == db.users && s.config == db.config
  {
    var s := ReaderBorrow(db, readerId, bookId, now, draw).db;
    var r := db.readers[Find(db.readers, ReaderWithId(readerId)).value];
    assert s.loans == db.loans + [s.loans[|db.loans|]];
    CountAppend(db.loans, s.loans[|db.loans|], OpenLoanOf(r.no));
  }

  // ---------------------------------------------------------------------
  // Renew

  /**
   * Reader renewal of loan `loanId`: the loan must be the caller's, still
   * borrowed, and not renewed before; the due date moves 30 days on.
   */
  function ReaderRenew(db: Db, readerId: int, loanId: int): (s: Step<()>)
    ensures s.result.Err? ==> s.db == db
    ensures s.result.Ok? <==>
      && Find(db.readers, ReaderWithId(readerId)).Some?
      && var no := db.readers[Find(db.readers, ReaderWithId(readerId)).value].no;
      && Find(db.loans, OwnLoan(loanId, no)).Some?
      && db.loans[Find(db.loans, OwnLoan(loanId, no)).value].status == Borrowed
      && db.loans[Find(db.loans, OwnLoan(loanId, no)).value].renewCount < READER_RENEW_LIMIT
  {
    match Find(db.readers, ReaderWithId(readerId))
    case None => Step(db, Err(ReaderNotFound))
    case Some(ri) =>
      var no := db.readers[ri].no;
      match Find(db.loans, OwnLoan(loanId, no))
      case None => Step(db, Err(LoanNotFound))
      case Some(li) =>
        var rec := db.loans[li];
        if rec.status != Borrowed then Step(db, Err(NotBorrowed))
        else if rec.renewCount >= READER_RENEW_LIMIT then Step(db, Err(RenewLimitReached))
        else Step(db.(loans := UpdateWhere(db.loans, LoanWithId(loanId), RenewTo(rec.dueDate + READER_RENEW_DAYS * DAY))),
                  Ok(()))
  }

  /**
   * A successful reader renewal moves the due date of the loan 30 days on and
   * counts one renewal; every other loan row and every other table is kept.
   */
  lemma ReaderRenewEffect(db: Db, readerId: int, loanId: int)
    requires ReaderRenew(db, readerId, loanId).result.Ok?
    ensures var s := ReaderRenew(db, readerId, loanId).db;
      var no := db.readers[Find(db.readers, ReaderWithId(readerId)).value].no;
      var rec := db.loans[Find(db.loans, OwnLoan(loanId, no)).value];
      && |s.loans| == |db.loans|
      && (forall i :: 0 <= i < |db.loans| && db.loans[i].id == loanId ==>
            s.loans[i] == db.loans[i].(dueDate := rec.dueDate + 30 * DAY, renewCount := db.loans[i].renewCount + 1))
      && (forall i :: 0 <= i < |db.loans| && db.loans[i].id != loanId ==> s.loans[i] == db.loans[i])
      && s.books == db.books && s.readers == db.readers && s.appointments == db.appointments
  {
  }

  /** With renewal counts starting at zero, a reader can renew a loan only once. */
  lemma {:induction false} ReaderRenewOnlyOnce(db: Db, readerId: int, loanId: int)
    requires forall i :: 0 <= i < |db.loans| ==> db.loans[i].renewCount >= 0
    requires ReaderRenew(db, readerId, loanId).result.Ok?
    ensures ReaderRenew(ReaderRenew(db, readerId, loanId).db, readerId, loanId).result == Err(RenewLimitReached)
  {
    var s := ReaderRenew(db, readerId, loanId).db;
    var no := db.readers[Find(db.readers, ReaderWithId(readerId)).value].no;
    var k := Find(db.loans, OwnLoan(loanId, no)).value;
    assert s.readers == db.readers;
    forall j | 0 <= j < |s.loans|
      ensures OwnLoan(loanId, no)(s.loans[j]) == OwnLoan(loanId, no)(db.loans[j])
    {
    }
    FindSameMatches(db.loans, s.loans, OwnLoan(loanId, no));
    assert s.loans[k].renewCount == db.loans[k].renewCount + 1;
  }

  // ---------------------------------------------------------------------
  // Reservations

  /**
   * Reservation by reader `readerId` of book `bookId` at time `now`, the
   * appointment number built from `today` and the 4-digit `draw`. Refused
   * when the reader or the book is missing, when no book id was given, when
   * the book has status 1 (borrow it directly), when the reader already has
   * a pending reservation for it, or when the reader has three pending.
   * On success the book's status becomes 3.
   */
  function CreateReservation(db: Db, readerId: int, bookId: int, now: int, today: CalendarDay, draw: nat)
    : (s: Step<()>)
    ensures s.result.Err? ==> s.db == db
    ensures s.result.Ok? <==>
      && Find(db.readers, ReaderWithId(readerId)).Some? && bookId != 0
      && Find(db.books, BookWithId(bookId)).Some?
      && db.books[Find(db.books, BookWithId(bookId)).value].status != OnShelf
      && Count(db.appointments, PendingFor(readerId, bookId)) == 0
      && Count(db.appointments, PendingOf(readerId)) < MAX_PENDING_RESERVATIONS
  {
    match Find(db.readers, ReaderWithId(readerId))
    case None => Step(db, Err(ReaderNotFound))
    case Some(_) =>
      if bookId == 0 then Step(db, Err(BookRequired))
      else match Find(db.books, BookWithId(bookId))
        case None => Step(db, Err(BookNotFound))
        case Some(bi) =>
          if db.books[bi].status == OnShelf then Step(db, Err(DirectlyBorrowable))
          else if Count(db.appointments, PendingFor(readerId, bookId)) > 0 then Step(db, Err(AlreadyReserved))
          else if Count(db.appointments, PendingOf(readerId)) >= MAX_PENDING_RESERVATIONS then
            Step(db, Err(ReservationLimitReached))
          else
            var a := Appointment(db.nextAppointmentId, AppointmentNo(today, draw), readerId, bookId, now,
                                 Pending, false, None, None, None);
            Step(db.(appointments := db.appointments + [a], nextAppointmentId := db.nextAppointmentId + 1,
                     books := UpdateWhere(db.books, BookWithId(bookId), SetBookStatus(ReservationPending))),
                 Ok(()))
  }

  /**
   * A successful reservation adds one pending appointment for the pair and
   * sets the book's status to 3; loans and readers are untouched.
   */
  lemma CreateReservationEffect(db: Db, readerId: int, bookId: int, now: int, today: CalendarDay, draw: nat)
    requires CreateReservation(db, readerId, bookId, now, today, draw).result.Ok?
    ensures var s := CreateReservation(db, readerId, bookId, now, today, draw).db;
      && |s.appointments| == |db.appointments| + 1 && s.appointments[..|db.appointments|] == db.appointments
      && Count(s.appointments, PendingFor(readerId, bookId)) == 1
      && Count(s.appointments, PendingOf(readerId)) == Count(db.appointments, PendingOf(readerId)) + 1
      && |s.books| == |db.books|
      && (forall i :: 0 <= i < |db.books| ==>
            s.books[i] == if db.books[i].id == bookId then db.books[i].(status := ReservationPending) else db.books[i])
      && s.loans == db.loans && s.readers == db.readers
  {
    var s := CreateReservation(db, readerId, bookId, now, today, draw).db;
    var a := s.appointments[|db.appointments|];
    assert s.appointments == db.appointments + [a];
    CountAppend(db.appointments, a, PendingFor(readerId, bookId));
    CountAppend(db.appointments, a, PendingOf(readerId));
  }

  /** SET status = 'cancelled' on an appointment row. */
  function CancelRow(): Appointment -> Appointment
  {
    (a: Appointment) => a.(status := Cancelled)
  }

  /**
   * Cancellation by reader `readerId` of appointment `appointmentId`: it must
   * be the caller's and pending. It becomes cancelled, and the book's status
   * goes back to 1 when no pending appointment for the book remains.
   */
  function CancelReservation(db: Db, readerId: int, appointmentId: int): (s: Step<()>)
    ensures s.result.Err? ==> s.db == db
    ensures s.result.Ok? <==>
      Find(db.appointments, OwnAppointment(appointmentId, readerId)).Some?
      && db.appointments[Find(db.appointments, OwnAppointment(appointmentId, readerId)).value].status == Pending
  {
    match Find(db.appointments, OwnAppointment(appointmentId, readerId))
    case None => Step(db, Err(AppointmentNotFound))
    case Some(k) =>
      var rec := db.appointments[k];
      if rec.status != Pending then Step(db, Err(NotPending))
      else
        var apps := UpdateWhere(db.appointments, AppointmentWithId(appointmentId), CancelRow());
        var books := if Count(apps, PendingForBook(rec.book)) == 0
                     then UpdateWhere(db.books, BookWithId(rec.book), SetBookStatus(OnShelf))
                     else db.books;
        Step(db.(appointments := apps, books := books), Ok(()))
  }

  /**
   * A successful cancellation leaves the caller's appointment cancelled; the
   * book's rows get status 1 exactly when no pending appointment for the book
   * remains, and are otherwise unchanged.
   */
  lemma CancelReservationEffect(db: Db, readerId: int, appointmentId: int)
    requires CancelReservation(db, readerId, appointmentId).result.Ok?
    ensures var s := CancelReservation(db, readerId, appointmentId).db;
      var k := Find(db.appointments, OwnAppointment(appointmentId, readerId)).value;
      var book := db.appointments[k].book;
      && s.appointments[k].status == Cancelled
      && (forall i :: 0 <= i < |db.appointments| && db.appointments[i].id != appointmentId ==>
            s.appointments[i] == db.appointments[i])
      && (Count(s.appointments, PendingForBook(book)) == 0 ==>
            forall i :: 0 <= i < |db.books| ==>
              s.books[i] == if db.books[i].id == book then db.books[i].(status := OnShelf) else db.books[i])
      && (Count(s.appointments, PendingForBook(book)) > 0 ==> s.books == db.books)
      && s.loans == db.loans && s.readers == db.readers
  {
  }
}
