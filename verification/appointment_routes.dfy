/**
 * The staff reservation handlers: create, status transition, delete,
 * reminder and cancel. Here an appointment's `reader` is the numeric
 * reader_info id.
 */
module AppointmentRoutes {
  import opened Table
  import opened Schema
  import opened Text

  /**
   * Staff create of a reservation. Checks, in order: the reader exists, its
   * credit label is good or normal, the book exists, a copy is available, the
   * book is not off shelf, and the reader has no pending reservation for the
   * book. The new row is pending with no reminder sent; the books table is
   * not written.
   */
  function CreateAppointment(db: Db, readerId: int, bookId: int, date: int, operator: int, now: nat, draw: nat)
    : (s: Step<string>)
    ensures s.result.Err? ==> s.db == db
    ensures s.result.Ok? <==>
      && Find(db.readers, ReaderWithId(readerId)).Some?
      && CreditAllowsLending(db.readers[Find(db.readers, ReaderWithId(readerId)).value].credit)
      && Find(db.books, BookWithId(bookId)).Some?
      && db.books[Find(db.books, BookWithId(bookId)).value].available > 0
      && db.books[Find(db.books, BookWithId(bookId)).value].status != BookStatus.OffShelf
      && Count(db.appointments, PendingFor(readerId, bookId)) == 0
    ensures s.result.Ok? ==> |s.result.value| >= 3 && s.result.value[0] == 'A' && AllDigits(s.result.value[1..])
  {
    match Find(db.readers, ReaderWithId(readerId))
    case None => Step(db, Err(ReaderNotFound))
    case Some(ri) =>
      if !CreditAllowsLending(db.readers[ri].credit) then Step(db, Err(CreditIneligible))
      else match Find(db.books, BookWithId(bookId))
        case None => Step(db, Err(BookNotFound))
        case Some(bi) =>
          var book := db.books[bi];
          if book.available <= 0 then Step(db, Err(OutOfStock))
          else if book.status == BookStatus.OffShelf then Step(db, Err(BookOffShelf))
          else if Count(db.appointments, PendingFor(readerId, bookId)) > 0 then Step(db, Err(AlreadyReserved))
          else
            var no := SerialNo('A', now, draw);
            var row := Appointment(db.nextAppointmentId, no, readerId, bookId, date, Pending, false,
                                   Some(operator), None, None);
            Step(db.(appointments := db.appointments + [row], nextAppointmentId := db.nextAppointmentId + 1),
                 Ok(no))
  }

  /**
   * A successful staff create appends exactly one pending appointment for the
   * reader and the book, after which the pair has exactly one pending
   * reservation; books, loans and readers are untouched.
   */
  lemma CreateAppointmentEffect(db: Db, readerId: int, bookId: int, date: int, operator: int, now: nat, draw: nat)
    requires CreateAppointment(db, readerId, bookId, date, operator, now, draw).result.Ok?
    ensures var s := CreateAppointment(db, readerId, bookId, date, operator, now, draw).db;
      && |s.appointments| == |db.appointments| + 1
      && s.appointments[..|db.appointments|] == db.appointments
      && s.appointments[|db.appointments|].reader == readerId
      && s.appointments[|db.appointments|].book == bookId
      && s.appointments[|db.appointments|].status == Pending
      && !s.appointments[|db.appointments|].reminderSent
      && Count(s.appointments, PendingFor(readerId, bookId)) == 1
      && s.books == db.books && s.loans == db.loans && s.readers == db.readers && s.users == db.users
  {
    var s := CreateAppointment(db, readerId, bookId, date, operator, now, draw).db;
    assert s.appointments == db.appointments + [s.appointments[|db.appointments|]];
    CountAppend(db.appointments, s.appointments[|db.appointments|], PendingFor(readerId, bookId));
  }

  /** The body value of the status update, limited to the three accepted words. */
  function ParseAppointmentStatus(word: string): (r: Option<AppointmentStatus>)
    ensures r == Some(Pending) <==> word == "pending"
    ensures r == Some(Completed) <==> word == "completed"
    ensures r == Some(Cancelled) <==> word == "cancelled"
  {
    if word == "pending" then Some(Pending)
    else if word == "completed" then Some(Completed)
    else if word == "cancelled" then Some(Cancelled)
    else None
  }

  /** SET status = 'completed', completed_date = now */
  function CompleteRow(at: int): Appointment -> Appointment
  {
    (a: Appointment) => a.(status := Completed, completedDate := Some(at))
  }

  /** SET status = ?, cancelled_date = now */
  function CloseRow(target: AppointmentStatus, at: int): Appointment -> Appointment
  {
    (a: Appointment) => a.(status := target, cancelledDate := Some(at))
  }

  /** available_count - 1 on a book row, with no lower bound. */
  function ReserveCopy(): Book -> Book { (b: Book) => b.(available := b.available - 1) }

  /**
   * Staff status transition of appointment `id` to the word `target`. The
   * word is checked first (pending, completed or cancelled), then the
   * appointment must exist and be pending. Completing also takes one copy of
   * the book out of available_count; any other target is written as the new
   * status together with a cancelled date.
   */
  function UpdateAppointmentStatus(db: Db, id: int, target: string, now: int): (s: Step<()>)
    ensures s.result.Err? ==> s.db == db
    ensures ParseAppointmentStatus(target).None? ==> s.result == Err(InvalidStatus)
    ensures s.result.Ok? <==>
      && ParseAppointmentStatus(target).Some?
      && Find(db.appointments, AppointmentWithId(id)).Some?
      && db.appointments[Find(db.appointments, AppointmentWithId(id)).value].status == Pending
  {
    match ParseAppointmentStatus(target)
    case None => Step(db, Err(InvalidStatus))
    case Some(t) =>
      match Find(db.appointments, AppointmentWithId(id))
      case None => Step(db, Err(AppointmentNotFound))
      case Some(k) =>
        var row := db.appointments[k];
        if row.status != Pending then Step(db, Err(NotPending))
        else if t == Completed then
          Step(db.(appointments := UpdateWhere(db.appointments, AppointmentWithId(id), CompleteRow(now)),
                   books := UpdateWhere(db.books, BookWithId(row.book), ReserveCopy())),
               Ok(()))
        else
          Step(db.(appointments := UpdateWhere(db.appointments, AppointmentWithId(id), CloseRow(t, now))), Ok(()))
  }

  /**
   * Completing a pending appointment marks it completed and lowers the book's
   * available_count by one, whatever it was; books other than the
   * appointment's and the other tables stay as they were.
   */
  lemma CompleteAppointmentEffect(db: Db, id: int, now: int)
    requires UpdateAppointmentStatus(db, id, "completed", now).result.Ok?
    ensures var s := UpdateAppointmentStatus(db, id, "completed", now).db;
      var row := db.appointments[Find(db.appointments, AppointmentWithId(id)).value];
      && |s.appointments| == |db.appointments|
      && (forall i :: 0 <= i < |db.appointments| ==>
            s.appointments[i] == if db.appointments[i].id == id
                                 then db.appointments[i].(status := Completed, completedDate := Some(now))
                                 else db.appointments[i])
      && |s.books| == |db.books|
      && (forall i :: 0 <= i < |db.books| ==>
            s.books[i] == if db.books[i].id == row.book
                          then db.books[i].(available := db.books[i].available - 1)
                          else db.books[i])
      && s.loans == db.loans && s.readers == db.readers
  {
  }

  /** A target other than completed rewrites only the appointment row and leaves book counts alone. */
  lemma CloseAppointmentEffect(db: Db, id: int, target: string, now: int)
    requires target != "completed"
    requires UpdateAppointmentStatus(db, id, target, now).result.Ok?
    ensures var s := UpdateAppointmentStatus(db, id, target, now).db;
      var t := ParseAppointmentStatus(target).value;
      && t != Completed
      && |s.appointments| == |db.appointments|
      && (forall i :: 0 <= i < |db.appointments| ==>
            s.appointments[i] == if db.appointments[i].id == id
                                 then db.appointments[i].(status := t, cancelledDate := Some(now))
                                 else db.appointments[i])
      && s.books == db.books && s.loans == db.loans && s.readers == db.readers
  {
  }

  /**
   * Staff delete of appointment `id`: refused for a completed one; otherwise
   * exactly the rows with that id go (DeleteAppointmentRemovesOne: the rest
   * keep their order).
   */
  function DeleteAppointment(db: Db, id: int): (s: Step<()>)
    ensures s.result.Err? ==> s.db == db
    ensures s.result.Ok? <==>
      Find(db.appointments, AppointmentWithId(id)).Some?
      && db.appointments[Find(db.appointments, AppointmentWithId(id)).value].status != Completed
    ensures s.result.Ok? ==>
      && |s.db.appointments| == |db.appointments| - Count(db.appointments, AppointmentWithId(id))
      && (forall i :: 0 <= i < |s.db.appointments| ==>
            s.db.appointments[i] in db.appointments && s.db.appointments[i].id != id)
      && (forall i :: 0 <= i < |db.appointments| && db.appointments[i].id != id ==>
            db.appointments[i] in s.db.appointments)
      && s.db.books == db.books && s.db.loans == db.loans && s.db.readers == db.readers
  {
    match Find(db.appointments, AppointmentWithId(id))
    case None => Step(db, Err(AppointmentNotFound))
    case Some(k) =>
      if db.appointments[k].status == Completed then Step(db, Err(AppointmentCompleted))
      else Step(db.(appointments := DeleteWhere(db.appointments, AppointmentWithId(id))), Ok(()))
  }

  /**
   * With ids unique, a delete removes exactly one row, the one found, and
   * the rows before and after it stay in their order.
   */
  lemma DeleteAppointmentRemovesOne(db: Db, id: int)
    requires Count(db.appointments, AppointmentWithId(id)) <= 1
    requires DeleteAppointment(db, id).result.Ok?
    ensures |DeleteAppointment(db, id).db.appointments| == |db.appointments| - 1
    ensures var k := Find(db.appointments, AppointmentWithId(id)).value;
      DeleteAppointment(db, id).db.appointments == db.appointments[..k] + db.appointments[k + 1..]
  {
    var apps, p := db.appointments, AppointmentWithId(id);
    CountPositive(apps, p);
    var k := Find(apps, p).value;
    var a, b := apps[..k], apps[k + 1..];
    assert apps == a + [apps[k]] + b;
    DeleteWhereAppend(a + [apps[k]], b, p);
    DeleteWhereAppend(a, [apps[k]], p);
    DeleteWhereOne(apps[k], p);
    DeleteNothing(a, p);
    assert a + [] == a;
    CountPositive(b, p);
    DeleteNothing(b, p);
  }

  /** What the reminder returns: the LEFT JOIN columns, absent when the joined row is missing. */
  datatype Reminder = Reminder(readerName: Option<string>, bookTitle: Option<string>)

  /** SET reminder_sent = 1 */
  function MarkReminded(): Appointment -> Appointment { (a: Appointment) => a.(reminderSent := true) }

  /**
   * Reminder for appointment `id`: only a pending one; it sets reminder_sent
   * and returns the reader's name and the book's title found by the joins.
   */
  function SendReminder(db: Db, id: int): (s: Step<Reminder>)
    ensures s.result.Err? ==> s.db == db
    ensures s.result.Ok? <==>
      Find(db.appointments, AppointmentWithId(id)).Some?
      && db.appointments[Find(db.appointments, AppointmentWithId(id)).value].status == Pending
    ensures s.result.Ok? ==>
      var row := db.appointments[Find(db.appointments, AppointmentWithId(id)).value];
      && (s.result.value.readerName.Some? <==> Find(db.readers, ReaderWithId(row.reader)).Some?)
      && (s.result.value.bookTitle.Some? <==> Find(db.books, BookWithId(row.book)).Some?)
      && |s.db.appointments| == |db.appointments|
      && (forall i :: 0 <= i < |db.appointments| ==>
            s.db.appointments[i] == if db.appointments[i].id == id
                                    then db.appointments[i].(reminderSent := true)
                                    else db.appointments[i])
      && s.db.books == db.books && s.db.loans == db.loans && s.db.readers == db.readers
  {
    match Find(db.appointments, AppointmentWithId(id))
    case None => Step(db, Err(AppointmentNotFound))
    case Some(k) =>
      var row := db.appointments[k];
      var name := match Find(db.readers, ReaderWithId(row.reader))
        case None => None
        case Some(r) => Some(db.readers[r].name);
      var title := match Find(db.books, BookWithId(row.book))
        case None => None
        case Some(b) => Some(db.books[b].info.title);
      if row.status != Pending then Step(db, Err(NotPending))
      else Step(db.(appointments := UpdateWhere(db.appointments, AppointmentWithId(id), MarkReminded())),
                Ok(Reminder(name, title)))
  }

  /**
   * Staff cancel of appointment `id`: only a pending one; it becomes
   * cancelled with a cancelled date and nothing else changes — in particular
   * neither the book's status nor its stock.
   */
  function CancelAppointment(db: Db, id: int, now: int): (s: Step<()>)
    ensures s.result.Err? ==> s.db == db
    ensures s.result.Ok? <==>
      Find(db.appointments, AppointmentWithId(id)).Some?
      && db.appointments[Find(db.appointments, AppointmentWithId(id)).value].status == Pending
    ensures s.result.Ok? ==>
      && |s.db.appointments| == |db.appointments|
      && (forall i :: 0 <= i < |db.appointments| ==>
            s.db.appointments[i] == if db.appointments[i].id == id
                                    then db.appointments[i].(status := Cancelled, cancelledDate := Some(now))
                                    else db.appointments[i])
      && s.db.books == db.books && s.db.loans == db.loans && s.db.readers == db.readers
  {
    match Find(db.appointments, AppointmentWithId(id))
    case None => Step(db, Err(AppointmentNotFound))
    case Some(k) =>
      if db.appointments[k].status != Pending then Step(db, Err(NotPending))
      else Step(db.(appointments := UpdateWhere(db.appointments, AppointmentWithId(id), CloseRow(Cancelled, now))),
                Ok(()))
  }

  /** The staff cancel and the status update to "cancelled" have the same effect. */
  lemma CancelIsStatusUpdate(db: Db, id: int, now: int)
    ensures CancelAppointment(db, id, now) == UpdateAppointmentStatus(db, id, "cancelled", now)
  {
  }

  /** Once cancelled, an appointment can be neither cancelled again, completed nor reminded. */
  lemma CancelledIsFinal(db: Db, id: int, now: int, later: int)
    requires Count(db.appointments, AppointmentWithId(id)) <= 1
    requires CancelAppointment(db, id, now).result.Ok?
    ensures var s := CancelAppointment(db, id, now).db;
      && CancelAppointment(s, id, later).result == Err(NotPending)
      && UpdateAppointmentStatus(s, id, "completed", later).result == Err(NotPending)
      && SendReminder(s, id).result == Err(NotPending)
  {
    var s := CancelAppointment(db, id, now).db;
    var k := Find(db.appointments, AppointmentWithId(id)).value;
    forall j | 0 <= j < |s.appointments|
      ensures AppointmentWithId(id)(s.appointments[j]) == AppointmentWithId(id)(db.appointments[j])
    {
    }
    FindSameMatches(db.appointments, s.appointments, AppointmentWithId(id));
  }
}
