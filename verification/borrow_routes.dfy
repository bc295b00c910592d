/**
 * The staff lending handlers: borrow, return (overdue days, fine, arrears
 * and credit) and renew. The reader is named by reader_no, the loan by its
 * borrow number; `operator` is the signed-in staff user.
 */
module BorrowRoutes {
  import opened Table
  import opened Schema
  import opened Text

  // ---------------------------------------------------------------------
  // Overdue days and fine

  datatype ReturnReceipt = ReturnReceipt(overdueDays: int, fine: int)

  /**
   * Whole days, rounded up, by which `returnDate` is past `dueDate`, and the
   * fine of 0.5 (50 cents) per such day; nothing when returned by the due date.
   */
  function Penalty(returnDate: int, dueDate: int): (p: ReturnReceipt)
    ensures returnDate <= dueDate ==> p.overdueDays == 0 && p.fine == 0
    ensures returnDate > dueDate ==>
      p.overdueDays >= 1
      && (p.overdueDays - 1) * DAY < returnDate - dueDate <= p.overdueDays * DAY
    ensures p.fine == p.overdueDays * FINE_PER_DAY
    ensures p.fine > 0 <==> returnDate > dueDate
  {
    if returnDate > dueDate then
      var days := (returnDate - dueDate + DAY - 1) / DAY;
      ReturnReceipt(days, days * FINE_PER_DAY)
    else ReturnReceipt(0, 0)
  }

  /** A return `k` whole days late (plus any part of a day) costs k + 1 days' fine. */
  lemma PenaltyForPartDay(dueDate: int, k: nat, part: int)
    requires 0 < part <= DAY
    ensures Penalty(dueDate + k * DAY + part, dueDate) == ReturnReceipt(k + 1, (k + 1) * FINE_PER_DAY)
  {
  }

  // ---------------------------------------------------------------------
  // Borrow


  /** available_count - 1, borrow_count + 1 on a book row. */
  function TakeCopy(): Book -> Book
  {
    (b: Book) => b.(available := b.available - 1, borrowCount := b.borrowCount + 1)
  }

  /**
   * Staff borrow for reader `readerNo` of book `bookId`. Checks, in order:
   * the reader exists, its credit label is good or normal, its open loans are
   * below max_borrow_count, the book exists, a copy is available, the book is
   * not off shelf. Arrears are not consulted. The due date is
   * `dueOffsetDays` days after `now`.
   */
  function StaffBorrow(db: Db, readerNo: string, bookId: int, operator: int, now: nat, draw: nat, dueOffsetDays: int)
    : (s: Step<BorrowReceipt>)
    ensures s.result.Err? ==> s.db == db
    ensures readerNo == "" ==> s.result == Err(MissingField)
    ensures s.result.Ok? <==>
      && readerNo != ""
      && Find(db.readers, ReaderWithNo(readerNo)).Some?
      && CreditAllowsLending(db.readers[Find(db.readers, ReaderWithNo(readerNo)).value].credit)
      && Count(db.loans, OpenLoanOf(readerNo)) < OrDefault(db.config.maxBorrowCount, DEFAULT_MAX_BORROW_COUNT)
      && Find(db.books, BookWithId(bookId)).Some?
      && db.books[Find(db.books, BookWithId(bookId)).value].available > 0
      && db.books[Find(db.books, BookWithId(bookId)).value].status != BookStatus.OffShelf
    ensures readerNo != "" && Find(db.readers, ReaderWithNo(readerNo)).None? ==> s.result == Err(ReaderNotFound)
    ensures readerNo != "" && Find(db.readers, ReaderWithNo(readerNo)).Some? ==>
      var reader := db.readers[Find(db.readers, ReaderWithNo(readerNo)).value];
      var underLimit := Count(db.loans, OpenLoanOf(readerNo)) < OrDefault(db.config.maxBorrowCount, DEFAULT_MAX_BORROW_COUNT);
      && (!CreditAllowsLending(reader.credit) ==> s.result == Err(CreditIneligible))
      && (CreditAllowsLending(reader.credit) && !underLimit ==> s.result == Err(BorrowLimitReached))
      && (CreditAllowsLending(reader.credit) && underLimit ==>
            && (Find(db.books, BookWithId(bookId)).None? ==> s.result == Err(BookNotFound))
            && (Find(db.books, BookWithId(bookId)).Some? ==>
                  var book := db.books[Find(db.books, BookWithId(bookId)).value];
                  && (book.available <= 0 ==> s.result == Err(OutOfStock))
                  && (book.available > 0 && book.status == BookStatus.OffShelf ==> s.result == Err(BookOffShelf))))
  {
    if readerNo == "" then Step(db, Err(MissingField))
    else match Find(db.readers, ReaderWithNo(readerNo))
    case None => Step(db, Err(ReaderNotFound))
    case Some(ri) =>
      var reader := db.readers[ri];
      var maxCount := OrDefault(db.config.maxBorrowCount, DEFAULT_MAX_BORROW_COUNT);
      var current := Count(db.loans, OpenLoanOf(readerNo));
      if !CreditAllowsLending(reader.credit) then Step(db, Err(CreditIneligible))
      else if current >= maxCount then Step(db, Err(BorrowLimitReached))
      else match Find(db.books, BookWithId(bookId))
        case None => Step(db, Err(BookNotFound))
        case Some(bi) =>
          var book := db.books[bi];
          if book.available <= 0 then Step(db, Err(OutOfStock))
          else if book.status == BookStatus.OffShelf then Step(db, Err(BookOffShelf))
          else
            var no := SerialNo('B', now, draw);
            var due := now + dueOffsetDays * DAY;
            var loan := Loan(db.nextLoanId, no, readerNo, bookId, now, due, None, Borrowed,
                             0, db.config.loanMaxRenewDefault, 0, 0, Some(operator));
            Step(db.(loans := db.loans + [loan], nextLoanId := db.nextLoanId + 1,
                     books := UpdateWhere(db.books, BookWithId(bookId), TakeCopy())),
                 Ok(BorrowReceipt(no, due)))
  }

  /**
   * A successful staff borrow inserts one open loan for the reader and the
   * book, and changes only that book's available_count (-1) and borrow_count
   * (+1); its status, the readers and the appointments are untouched.
   */
  lemma StaffBorrowEffect(db: Db, readerNo: string, bookId: int, operator: int, now: nat, draw: nat, dueOffsetDays: int)
    requires StaffBorrow(db, readerNo, bookId, operator, now, draw, dueOffsetDays).result.Ok?
    ensures var s := StaffBorrow(db, readerNo, bookId, operator, now, draw, dueOffsetDays).db;
      && |s.loans| == |db.loans| + 1 && s.loans[..|db.loans|] == db.loans
      && s.loans[|db.loans|].status == Borrowed && s.loans[|db.loans|].reader == readerNo
      && s.loans[|db.loans|].book == bookId && s.loans[|db.loans|].renewCount == 0
      && s.loans[|db.loans|].dueDate == now + dueOffsetDays * DAY
      && s.loans[|db.loans|].no == SerialNo('B', now, draw)
      && Count(s.loans, OpenLoanOf(readerNo)) == Count(db.loans, OpenLoanOf(readerNo)) + 1
      && |s.books| == |db.books|
      && (forall i :: 0 <= i < |db.books| ==>
            s.books[i] == if db.books[i].id == bookId
                          then db.books[i].(available := db.books[i].available - 1,
                                            borrowCount := db.books[i].borrowCount + 1)
                          else db.books[i])
      && s.readers == db.readers && s.appointments == db.appointments && s.users == db.users
  {
    var s := StaffBorrow(db, readerNo, bookId, operator, now, draw, dueOffsetDays).db;
    assert s.loans == db.loans + [s.loans[|db.loans|]];
    CountAppend(db.loans, s.loans[|db.loans|], OpenLoanOf(readerNo));
  }

  /**
   * The staff borrow never reads arrears: giving the reader's rows any other
   * arrears amount leaves the outcome as it was.
   */
  lemma StaffBorrowIgnoresArrears(db: Db, readerNo: string, bookId: int, operator: int, now: nat, draw: nat,
                                  dueOffsetDays: int, arrears: int)
    ensures var other := db.(readers := UpdateWhere(db.readers, ReaderWithNo(readerNo), SetArrears(arrears)));
      StaffBorrow(other, readerNo, bookId, operator, now, draw, dueOffsetDays).result
      == StaffBorrow(db, readerNo, bookId, operator, now, draw, dueOffsetDays).result
  {
    var other := db.(readers := UpdateWhere(db.readers, ReaderWithNo(readerNo), SetArrears(arrears)));
    forall j | 0 <= j < |db.readers|
      ensures ReaderWithNo(readerNo)(other.readers[j]) == ReaderWithNo(readerNo)(db.readers[j])
    {
    }
    FindSameMatches(db.readers, other.readers, ReaderWithNo(readerNo));
  }

  /** SET arrears_amount = ? on a reader row. */
  function SetArrears(a: int): Reader -> Reader { (r: Reader) => r.(arrears := a) }

  // ---------------------------------------------------------------------
  // Return

  /** The return write on every loan row with the borrow number. */
  function MarkReturned(at: int, p: ReturnReceipt, operator: int): Loan -> Loan
  {
    (l: Loan) => l.(returnDate := Some(at), status := Returned, overdueDays := p.overdueDays,
                    fine := p.fine, operator := Some(operator))
  }

  /** arrears_amount + fine on a reader row. */
  function AddArrears(fine: int): Reader -> Reader { (r: Reader) => r.(arrears := r.arrears + fine) }

  /** available_count + 1 on a book row. */
  function ReturnCopy(): Book -> Book { (b: Book) => b.(available := b.available + 1) }

  /**
   * Staff return of borrow number `no` at time `now`. Only a loan still
   * borrowed is found. The rows with the number are marked returned with the
   * penalty, the fine is added to the reader's arrears, the book gets its copy
   * back, and a positive fine sets the reader's credit to debt.
   */
  function StaffReturn(db: Db, no: string, operator: int, now: int): (s: Step<ReturnReceipt>)
    ensures s.result.Err? ==> s.db == db
    ensures s.result.Err? <==> no == "" || Count(db.loans, OpenLoanWithNo(no)) == 0
    ensures s.result.Ok? ==>
      Find(db.loans, OpenLoanWithNo(no)).Some?
      && s.result.value == Penalty(now, db.loans[Find(db.loans, OpenLoanWithNo(no)).value].dueDate)
  {
    if no == "" then Step(db, Err(MissingField))
    else match Find(db.loans, OpenLoanWithNo(no))
    case None =>
      CountNone(db.loans, OpenLoanWithNo(no));
      Step(db, Err(LoanNotFound))
    case Some(k) =>
      CountPositive(db.loans, OpenLoanWithNo(no));
      var rec := db.loans[k];
      var p := Penalty(now, rec.dueDate);
      var loans := UpdateWhere(db.loans, LoanWithNo(no), MarkReturned(now, p, operator));
      var readers := UpdateWhere(db.readers, ReaderWithNo(rec.reader), AddArrears(p.fine));
      var books := UpdateWhere(db.books, BookWithId(rec.book), ReturnCopy());
      var readers' := if p.fine > 0 then UpdateWhere(readers, ReaderWithNo(rec.reader), SetCredit(Debt)) else readers;
      Step(db.(loans := loans, readers := readers', books := books), Ok(p))
  }

  /**
   * A successful return marks every row with the number returned (date,
   * overdue days, fine), adds the fine to the reader's arrears, gives the book
   * one copy back, and sets credit to debt exactly when the fine is positive,
   * leaving it alone otherwise.
   */
  lemma StaffReturnEffect(db: Db, no: string, operator: int, now: int)
    requires StaffReturn(db, no, operator, now).result.Ok?
    ensures var s := StaffReturn(db, no, operator, now).db;
      var rec := db.loans[Find(db.loans, OpenLoanWithNo(no)).value];
      var p := Penalty(now, rec.dueDate);
      && |s.loans| == |db.loans|
      && (forall i :: 0 <= i < |db.loans| ==>
            s.loans[i] == if db.loans[i].no == no
                          then db.loans[i].(returnDate := Some(now), status := Returned,
                                            overdueDays := p.overdueDays, fine := p.fine, operator := Some(operator))
                          else db.loans[i])
      && |s.readers| == |db.readers|
      && (forall i :: 0 <= i < |db.readers| ==>
            s.readers[i] == if db.readers[i].no == rec.reader
                            then db.readers[i].(arrears := db.readers[i].arrears + p.fine,
                                                credit := if p.fine > 0 then Debt else db.readers[i].credit)
                            else db.readers[i])
      && |s.books| == |db.books|
      && (forall i :: 0 <= i < |db.books| ==>
            s.books[i] == if db.books[i].id == rec.book
                          then db.books[i].(available := db.books[i].available + 1)
                          else db.books[i])
      && s.appointments == db.appointments && s.users == db.users
  {
  }

  /** A loan cannot be returned twice: the second return finds nothing and changes nothing. */
  lemma ReturnTwiceFails(db: Db, no: string, operator: int, now: int, operator2: int, later: int)
    requires StaffReturn(db, no, operator, now).result.Ok?
    ensures var s := StaffReturn(db, no, operator, now).db;
      StaffReturn(s, no, operator2, later) == Step(s, Err(LoanNotFound))
  {
    var s := StaffReturn(db, no, operator, now).db;
    assert forall i :: 0 <= i < |s.loans| ==> !OpenLoanWithNo(no)(s.loans[i]);
  }

  // ---------------------------------------------------------------------
  // Renew

  /**
   * Staff renewal of borrow number `no`: the loan must still be borrowed and
   * below its own max_renew_count; the due date moves max_borrow_days on.
   */
  function StaffRenew(db: Db, no: string): (s: Step<int>)
    ensures s.result.Err? ==> s.db == db
    ensures s.result.Ok? <==>
      && no != "" && Find(db.loans, OpenLoanWithNo(no)).Some?
      && var rec := db.loans[Find(db.loans, OpenLoanWithNo(no)).value];
      rec.renewCount < rec.maxRenewCount
    ensures s.result.Ok? ==>
      var rec := db.loans[Find(db.loans, OpenLoanWithNo(no)).value];
      s.result.value == rec.dueDate + OrDefault(db.config.maxBorrowDays, DEFAULT_MAX_BORROW_DAYS) * DAY
  {
    if no == "" then Step(db, Err(MissingField))
    else match Find(db.loans, OpenLoanWithNo(no))
    case None => Step(db, Err(LoanNotFound))
    case Some(k) =>
      var rec := db.loans[k];
      var days := OrDefault(db.config.maxBorrowDays, DEFAULT_MAX_BORROW_DAYS);
      if rec.renewCount >= rec.maxRenewCount then Step(db, Err(RenewLimitReached))
      else
        var due := rec.dueDate + days * DAY;
        Step(db.(loans := UpdateWhere(db.loans, LoanWithNo(no), RenewTo(due))), Ok(due))
  }

  /**
   * A successful staff renewal rewrites only the rows with the borrow number:
   * new due date, one more renewal.
   */
  lemma StaffRenewEffect(db: Db, no: string)
    requires StaffRenew(db, no).result.Ok?
    ensures var s := StaffRenew(db, no);
      && |s.db.loans| == |db.loans|
      && (forall i :: 0 <= i < |db.loans| ==>
            s.db.loans[i] == if db.loans[i].no == no
                             then db.loans[i].(dueDate := s.result.value, renewCount := db.loans[i].renewCount + 1)
                             else db.loans[i])
      && s.db.books == db.books && s.db.readers == db.readers && s.db.appointments == db.appointments
  {
  }

  /**
   * With one renewal allowed, the first renewal of a fresh loan succeeds and
   * the second is refused.
   */
  lemma {:induction false} StaffRenewOnce(db: Db, no: string)
    requires no != ""
    requires Find(db.loans, OpenLoanWithNo(no)).Some?
    requires var rec := db.loans[Find(db.loans, OpenLoanWithNo(no)).value];
             rec.renewCount == 0 && rec.maxRenewCount == 1
    ensures StaffRenew(db, no).result.Ok?
    ensures StaffRenew(StaffRenew(db, no).db, no).result == Err(RenewLimitReached)
  {
    var s := StaffRenew(db, no).db;
    var k := Find(db.loans, OpenLoanWithNo(no)).value;
    forall j | 0 <= j < |s.loans|
      ensures OpenLoanWithNo(no)(s.loans[j]) == OpenLoanWithNo(no)(db.loans[j])
    {
    }
    FindSameMatches(db.loans, s.loans, OpenLoanWithNo(no));
    assert s.loans[k].renewCount == 1 && s.loans[k].maxRenewCount == 1;
  }
}
