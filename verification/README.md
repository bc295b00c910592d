# Library circulation: a Dafny model

This project models how the library back end moves copies of books between
the shelf, readers and reservations. It covers the reader-facing controller
(direct borrow, renewal, reservation and its cancellation, the announcement
list window) and the staff routes that touch circulation: the borrow desk
(borrow, return with overdue fine, renew), appointments (create, status
transition, delete, reminder, cancel), the book catalog (create, update,
delete) and reader accounts (create, credit override, delete).

The database is a value `Schema.Db`. It holds the tables `books`, `loans`
(borrow_records), `appointments`, `readers` (reader_info) and `users`
(sys_user), the system configuration, and the AUTO_INCREMENT counters. Each
table is a sequence of rows in primary-key order. The SQL statements the
handlers issue are modelled in module `Table`: `Find` (SELECT ... LIMIT 1),
`Count`/`Any` (SELECT COUNT), `UpdateWhere` (UPDATE ... WHERE) and
`DeleteWhere` (DELETE ... WHERE), each over a named WHERE predicate.

Every handler is a function `Handler(db, ...)` that returns the database after
the request together with the response: a `Result` that is either `Ok` with
the payload or `Err` with the reason the handler refuses. Every refusal leaves
the database as it was. The guards are checked in the same order as in the
source, so the first failing check decides the error.

The class `LibraryDb.Library` holds the same tables as mutable fields. Its
methods run each handler step by step: early returns for the guards, then
field assignments for the writes. Each method is proved to leave exactly the
state and the response that the matching handler function computes, and to
keep the invariant `Valid()`.

Module `Circulation` puts the handlers together into one state machine
(`Apply` for one request, `Run` for a sequence of requests) and proves facts
that span several handlers:

- every request keeps the database `Consistent`:
  - a reader in arrears is never labelled good;
  - appointment ids are unique and below the counter;
  - a reader has at most one pending reservation per book;
- both borrow paths keep `0 <= available_count <= total_count`;
- completing an appointment and lowering a book's total can each break that
  bound, shown by concrete databases;
- a staff borrow followed by its return restores the stock;
- the reader path and the staff desk disagree on readers in arrears;
- a book lent on the reader path stays locked to the reader path after its
  return.

Units:

- Money is in cents. The fine is 0.5 per day, so `FINE_PER_DAY` is 50.
- Dates are milliseconds since the epoch. `DAY` is 86 400 000.
- The clock reading and the random draw used for numbers are parameters.

Two places where the code and its evident intent part ways are modelled as
written:

- **Staff borrow due date.** The due date is `reader.max_borrow_days` days
  after the borrow (src/routes/borrow.js:197). The code reads that value from
  the reader row, not from the system configuration it parsed just before. The
  model takes the offset as the parameter `dueOffsetDays`.
- **Reader delete guard.** The guard counts appointments whose `reader_id`
  equals the reader's `reader_no` (src/routes/readers.js:254-257), but
  appointments store the numeric reader id. MySQL compares the string as a
  number: it skips leading white space and reads a sign, digits, a fraction
  and an exponent, and ignores the rest. A reader number such as "R001"
  therefore compares as 0, " 7" as 7, and "7.5" equals no id. Module
  `SqlCompare` writes that reading out as `SqlCompare.SqlNumber`.
  `ReaderRoutes.DeleteReaderMissesAppointments` shows a reader being deleted
  while its pending appointment stays behind.
  `ReaderRoutes.DeleteReaderBlockedByOtherReader` shows the other way round:
  a reader numbered " 7" cannot be deleted while reader 7 has an appointment.

## Model

| member | source | states |
|---|---|---|
| ReaderController.AppointmentNoRoundTrip | src/controllers/readerController.js:20-27 | The reservation number is "AP", a 4-digit year, a 2-digit month, a 2-digit day and a 4-digit draw: 14 characters from which date and draw are read back unchanged |
| ReaderController.AnnouncementWindow | src/controllers/readerController.js:1353-1364 | LIMIT is clamped to 1..100 and OFFSET is never negative, whatever the page and size parameters |
| ReaderController.AnnouncementWindowExact | src/controllers/readerController.js:1356-1364 | For page >= 1 and size 1..100 the window is exactly rows (page-1)*size onward, size rows |
| ReaderController.AnnouncementPagesSkipRows | src/controllers/readerController.js:1358-1364 | With pageSize 200, page 1 lists rows 0..99 and page 2 starts at row 200, so rows 100..199 are never listed |
| ReaderController.AnnouncementWindowClamped | src/controllers/readerController.js:1358-1364 | The corrected window keeps the clamped LIMIT and a non-negative OFFSET |
| ReaderController.ClampedPagesAreContiguous | src/controllers/readerController.js:1358-1364 | With the offset taken from the clamped size, page p+1 starts where page p ends |
| ReaderController.ReaderBorrow | src/controllers/readerController.js:1214-1324 | A missing book id is refused first; otherwise a direct borrow succeeds exactly when the book exists with status 1 and a copy available, the reader exists with credit good or normal and no arrears, and its open loans are below max_borrow_count; a refusal changes nothing |
| ReaderController.ReaderBorrowEffect | src/controllers/readerController.js:1318-1324 | A successful direct borrow appends one open loan due max_borrow_days after now; the book loses a copy, gains a borrow and gets status 2; readers and appointments are unchanged |
| ReaderController.ReaderRenew | src/controllers/readerController.js:1140-1196 | A renewal succeeds exactly when the reader exists and the loan is its own, still borrowed and never renewed; a refusal changes nothing |
| ReaderController.ReaderRenewEffect | src/controllers/readerController.js:1184-1196 | A renewal moves the loan's due date 30 days on and counts one renewal; every other row and table is kept |
| ReaderController.ReaderRenewOnlyOnce | src/controllers/readerController.js:1175-1184 | A loan renewed once on the reader path is refused the second time with the renew limit |
| ReaderController.CreateReservation | src/controllers/readerController.js:728-812 | A reservation succeeds exactly when the reader exists, a book id is given, the book exists and is not on the shelf, the reader has no pending reservation for it and fewer than three pending in all; a refusal changes nothing |
| ReaderController.CreateReservationEffect | src/controllers/readerController.js:809-812 | A reservation appends one pending appointment for the pair and sets the book's status to 3; loans and readers are untouched |
| ReaderController.CancelReservation | src/controllers/readerController.js:838-889 | A cancellation succeeds exactly when the appointment is the caller's own and pending; a refusal changes nothing |
| ReaderController.CancelReservationEffect | src/controllers/readerController.js:873-889 | The appointment becomes cancelled; the book returns to status 1 exactly when no pending appointment for it remains |
| BorrowRoutes.Penalty | src/routes/borrow.js:269-276 | A return by the due date costs nothing; a late one is charged the late time rounded up to whole days, at 50 cents per day; the fine is positive exactly when the return is late |
| BorrowRoutes.PenaltyForPartDay | src/routes/borrow.js:269-276 | k whole days plus any part of a day late is charged k+1 days |
| BorrowRoutes.StaffBorrow | src/routes/borrow.js:97-207 | An empty reader number is refused first; otherwise the staff borrow succeeds exactly when the reader exists with credit good or normal, its open loans are below max_borrow_count, and the book exists with a copy available and is not off shelf. Each refusal names the first failing check, in order: missing field, reader not found, credit ineligible, borrow limit, book not found, out of stock, off shelf |
| BorrowRoutes.StaffBorrowEffect | src/routes/borrow.js:194-207 | A staff borrow inserts one open loan for the reader and book and changes only that book's available_count (-1) and borrow_count (+1), not its status |
| BorrowRoutes.StaffBorrowIgnoresArrears | src/routes/borrow.js:118-151 | The staff borrow's outcome does not depend on the reader's arrears |
| BorrowRoutes.StaffReturn | src/routes/borrow.js:232-298 | A return fails exactly when the number is empty or no loan with it is still borrowed; on success it returns the penalty for returning now |
| BorrowRoutes.StaffReturnEffect | src/routes/borrow.js:278-298 | A return marks the loan returned with date, overdue days and fine, adds the fine to the reader's arrears, gives the book one copy back, and sets credit to debt exactly when the fine is positive |
| BorrowRoutes.ReturnTwiceFails | src/routes/borrow.js:252-257 | A second return of the same number finds no borrowed loan and changes nothing |
| BorrowRoutes.StaffRenew | src/routes/borrow.js:323-368 | A staff renewal succeeds exactly when the number is non-empty and names a still-borrowed loan below its own max_renew_count; the new due date is max_borrow_days (default 30) later |
| BorrowRoutes.StaffRenewEffect | src/routes/borrow.js:362-368 | A staff renewal rewrites only the loan rows with the number: new due date, one more renewal |
| BorrowRoutes.StaffRenewOnce | src/routes/borrow.js:354-368 | With one renewal allowed, a fresh loan's first staff renewal succeeds and the second is refused |
| AppointmentRoutes.CreateAppointment | src/routes/appointment.js:123-223 | The staff create succeeds exactly when the reader exists with credit good or normal, the book exists with a copy available and is not off shelf, and the pair has no pending reservation; the number is "A" followed by digits |
| AppointmentRoutes.CreateAppointmentEffect | src/routes/appointment.js:217-223 | The staff create appends one pending appointment, after which the pair has exactly one pending reservation; books, loans and readers are untouched |
| AppointmentRoutes.ParseAppointmentStatus | src/routes/appointment.js:252 | Only the words pending, completed and cancelled are accepted, each as its own status |
| AppointmentRoutes.UpdateAppointmentStatus | src/routes/appointment.js:251-329 | An unknown word is refused first; otherwise the transition succeeds exactly when the appointment exists and is pending |
| AppointmentRoutes.CompleteAppointmentEffect | src/routes/appointment.js:295-322 | Completing marks the appointment completed and lowers its book's available_count by one with no lower bound; nothing else changes |
| AppointmentRoutes.CloseAppointmentEffect | src/routes/appointment.js:323-329 | Any other target rewrites only the appointment's status and cancelled date; book counts stay |
| AppointmentRoutes.DeleteAppointment | src/routes/appointment.js:354-385 | The delete is refused for a missing or completed appointment; otherwise exactly the rows with the id are removed, every other row stays, and the other tables are untouched |
| AppointmentRoutes.DeleteAppointmentRemovesOne | src/routes/appointment.js:385 | With unique ids a delete removes exactly one row, the one found: the table becomes the rows before it followed by the rows after it, in their order |
| Table.DeleteWhereAppend | src/routes/appointment.js:385 | A DELETE on two tables put one after the other is the two DELETEs put one after the other, so the rows that stay keep their order |
| AppointmentRoutes.SendReminder | src/routes/appointment.js:410-459 | A reminder is sent only for a pending appointment; it sets reminder_sent and returns the joined reader name and book title |
| AppointmentRoutes.CancelAppointment | src/routes/appointment.js:477-511 | The staff cancel succeeds only for a pending appointment, which becomes cancelled; neither the book's status nor its stock changes |
| AppointmentRoutes.CancelIsStatusUpdate | src/routes/appointment.js:477-511 | The staff cancel has the same effect and response as the status update to "cancelled" |
| AppointmentRoutes.CancelledIsFinal | src/routes/appointment.js:286 | Once cancelled, an appointment can be neither cancelled again, completed nor reminded |
| BookRoutes.CopiesOrOne | src/routes/books.js:561-564 | A falsy total_count becomes 1; any other is kept |
| BookRoutes.CreateBook | src/routes/books.js:543-570 | A book is created exactly when isbn, title, author and category are given; it gets the next id, available equal to total, and borrow_count 0; the response carries no data |
| BookRoutes.CreatedBookIsBounded | src/routes/books.js:561-564 | A created book satisfies the stock bound with every copy on the shelf |
| BookRoutes.KeepText | src/routes/books.js:603-617 | An empty text field keeps the stored value; any other replaces it |
| BookRoutes.KeepNumber | src/routes/books.js:597-617 | A zero number field keeps the stored value; any other replaces it |
| BookRoutes.KeepUnset | src/routes/books.js:603-617 | An absent status or cover keeps the stored value; a present one replaces it |
| BookRoutes.MergeInfoFields | src/routes/books.js:603-617 | Each descriptive field keeps its stored value exactly when the new one is falsy |
| BookRoutes.Revised | src/routes/books.js:597-617 | The updated row keeps the id, borrow_count and copies out (total - available); total, status and cover follow the patch |
| BookRoutes.UpdateBook | src/routes/books.js:581-622 | An update fails exactly when the book is missing; otherwise every row with the id gets the values computed from the stored book |
| BookRoutes.UpdateKeepsCopiesOut | src/routes/books.js:597-600 | Copies out are the same after an update; a falsy total keeps both counts |
| BookRoutes.EmptyPatchChangesNothing | src/routes/books.js:597-622 | An all-falsy patch leaves the database as it was |
| BookRoutes.UpdateBreaksStockBound | src/routes/books.js:597-600 | Lowering the total below the copies out gives available_count -1 |
| BookRoutes.UpdateKeepsStockBound | src/routes/books.js:597-600 | When the new total still covers the copies out, the stock bound is kept |
| BookRoutes.DeleteBook | src/routes/books.js:639-678 | A delete succeeds exactly when no borrowed loan and no appointment of any status refer to the book; then exactly the rows with the id are removed |
| BookRoutes.DeleteMissingBook | src/routes/books.js:678 | Deleting a book with no row succeeds and changes nothing |
| ReaderRoutes.CreateReader | src/routes/readers.js:102-147 | A reader is created exactly when the number and name are given and the id card is well formed; a sys_user row named after the number and a reader row with the next id, credit good and no arrears are appended; the response carries no data |
| ReaderRoutes.ParseCreditOverride | src/routes/readers.js:330 | Only normal, overdue and debt are accepted; good never is |
| ReaderRoutes.UpdateCredit | src/routes/readers.js:329-369 | An unknown word is refused first; otherwise the override succeeds exactly when the reader exists and writes only credit_status |
| ReaderRoutes.OverrideKeepsArrears | src/routes/readers.js:366-369 | A reader with arrears can be set to normal, and the arrears stay |
| ReaderRoutes.DeleteReader | src/routes/readers.js:211-304 | A delete succeeds exactly when the reader exists, no loan of any status has its number, and no appointment's reader column equals the number read as a number; then its reader and user rows are gone. Each refusal names the first failing check, in order: not found, open loans, appointments, loan history |
| ReaderRoutes.DeleteReaderMissesAppointments | src/routes/readers.js:254-257 | A reader numbered "R001" with a pending appointment is deleted and the appointment stays behind |
| ReaderRoutes.DeleteReaderBlockedByOtherReader | src/routes/readers.js:254-262 | A reader numbered " 7" is refused with "has appointments" because reader 7 has one |
| ReaderRoutes.DeleteMissingReader | src/routes/readers.js:221-232 | Deleting a missing reader is not found and changes nothing |
| SqlCompare.SqlNumberOfDigits | src/routes/readers.js:254-257 | A string of digits compares as the number it denotes |
| SqlCompare.SqlNumberOfLetter | src/routes/readers.js:254-257 | A string that starts with anything but a digit, a sign, a point or white space compares as 0 |
| SqlCompare.SqlNumberOfId | src/routes/readers.js:254-257 | The decimal text of an id compares equal to that id |
| SqlCompare.SqlNumberSkipsSpace | src/routes/readers.js:254-257 | White space in front of the string does not change the number |
| SqlCompare.SqlNumberSign | src/routes/readers.js:254-257 | A '+' in front of digits keeps the number and a '-' negates it |
| SqlCompare.SqlNumberExamples | src/routes/readers.js:254-257 | " 7" and "+7" compare as 7, "-3" as -3, "1e1" as 10, "7abc" as 7 and "R001" as 0; "7.5" equals no id |
| Text.SerialNo | src/routes/borrow.js:194 | A borrow or appointment number is the prefix followed by digits only |
| Text.SerialNoCollides | src/routes/borrow.js:194 | Two different clock readings and draws can give the same number, so record numbers are not unique by construction |
| Circulation.ReserveKeepsConsistent | src/controllers/readerController.js:728-812 | A reader reservation keeps the invariants |
| Circulation.DeskReserveKeepsConsistent | src/routes/appointment.js:123-223 | A staff appointment keeps the invariants |
| Circulation.UnreserveKeepsConsistent | src/controllers/readerController.js:838-889 | A reader cancellation keeps the invariants |
| Circulation.SetAppointmentKeepsConsistent | src/routes/appointment.js:251-329 | A status transition keeps the invariants, including back to pending |
| Circulation.DropAppointmentKeepsConsistent | src/routes/appointment.js:354-385 | An appointment delete keeps the invariants |
| Circulation.RemindKeepsConsistent | src/routes/appointment.js:410-459 | A reminder keeps the invariants |
| Circulation.DeskCancelKeepsConsistent | src/routes/appointment.js:477-511 | A staff cancel keeps the invariants |
| Circulation.DeskReturnKeepsConsistent | src/routes/borrow.js:278-298 | A return keeps the invariants: a fine always comes with credit debt |
| Circulation.AddReaderKeepsConsistent | src/routes/readers.js:102-135 | A new reader keeps the invariants |
| Circulation.OverrideCreditKeepsConsistent | src/routes/readers.js:329-369 | The credit override keeps the invariants, since it never sets good |
| Circulation.DropReaderKeepsConsistent | src/routes/readers.js:211-304 | A reader delete keeps the invariants |
| Circulation.StockRequestKeepsConsistent | src/routes/books.js:543-678 | Borrows, renewals and catalog changes, which write only books and loans, keep the invariants |
| Circulation.ApplyKeepsConsistent | src/controllers/readerController.js:728-1324 | Every request to every handler keeps the invariants |
| Circulation.RunKeepsConsistent | src/controllers/readerController.js:728-1324 | Any sequence of requests keeps the invariants |
| Circulation.ArrearsBlockDirectBorrow | src/controllers/readerController.js:1280-1289 | A reader with arrears is refused on the reader path |
| Circulation.BorrowsKeepStockBound | src/routes/borrow.js:176-207 | With unique book ids, both borrows keep 0 <= available <= total |
| Circulation.BorrowThenReturnRestoresStock | src/routes/borrow.js:204-298 | A staff borrow followed by the return of its number gives every book its available_count back |
| Circulation.CompletionBreaksStockBound | src/routes/appointment.js:309 | Completing an appointment for a book with no copy left gives available_count -1 |
| Circulation.ReaderPathLocksBook | src/controllers/readerController.js:1244 | After a reader-path borrow and its staff return, the book still has status 2 and the reader path refuses it |
| Circulation.DeskLendsWhereReaderPathRefuses | src/routes/borrow.js:142 | A reader labelled normal with arrears is refused on the reader path and served at the staff desk |
| LibraryDb.Library.BorrowBook | src/controllers/readerController.js:1214-1324 | The new tables and response are exactly those of ReaderController.ReaderBorrow; the invariants are kept |
| LibraryDb.Library.RenewBook | src/controllers/readerController.js:1140-1196 | The new tables and response are exactly those of ReaderController.ReaderRenew; the invariants are kept |
| LibraryDb.Library.CreateReservation | src/controllers/readerController.js:728-812 | The new tables and response are exactly those of ReaderController.CreateReservation; the invariants are kept |
| LibraryDb.Library.CancelReservation | src/controllers/readerController.js:838-889 | The new tables and response are exactly those of ReaderController.CancelReservation; the invariants are kept |
| LibraryDb.Library.StaffBorrow | src/routes/borrow.js:97-207 | The new tables and response are exactly those of BorrowRoutes.StaffBorrow; the invariants are kept |
| LibraryDb.Library.StaffReturn | src/routes/borrow.js:232-298 | The new tables and response are exactly those of BorrowRoutes.StaffReturn; the invariants are kept |
| LibraryDb.Library.StaffRenew | src/routes/borrow.js:323-368 | The new tables and response are exactly those of BorrowRoutes.StaffRenew; the invariants are kept |
| LibraryDb.Library.CreateAppointment | src/routes/appointment.js:123-223 | The new tables and response are exactly those of AppointmentRoutes.CreateAppointment; the invariants are kept |
| LibraryDb.Library.UpdateAppointmentStatus | src/routes/appointment.js:251-329 | The new tables and response are exactly those of AppointmentRoutes.UpdateAppointmentStatus; the invariants are kept |
| LibraryDb.Library.DeleteAppointment | src/routes/appointment.js:354-385 | The new tables and response are exactly those of AppointmentRoutes.DeleteAppointment; the invariants are kept |
| LibraryDb.Library.SendReminder | src/routes/appointment.js:410-459 | The new tables and response are exactly those of AppointmentRoutes.SendReminder; the invariants are kept |
| LibraryDb.Library.CancelAppointment | src/routes/appointment.js:477-511 | The new tables and response are exactly those of AppointmentRoutes.CancelAppointment; the invariants are kept |
| LibraryDb.Library.CreateBook | src/routes/books.js:543-564 | The new tables and response are exactly those of BookRoutes.CreateBook; the invariants are kept |
| LibraryDb.Library.UpdateBook | src/routes/books.js:581-622 | The new tables and response are exactly those of BookRoutes.UpdateBook; the invariants are kept |
| LibraryDb.Library.DeleteBook | src/routes/books.js:639-678 | The new tables and response are exactly those of BookRoutes.DeleteBook; the invariants are kept |
| LibraryDb.Library.CreateReader | src/routes/readers.js:102-135 | The new tables and response are exactly those of ReaderRoutes.CreateReader; the invariants are kept |
| LibraryDb.Library.UpdateCredit | src/routes/readers.js:329-369 | The new tables and response are exactly those of ReaderRoutes.UpdateCredit; the invariants are kept |
| LibraryDb.Library.DeleteReader | src/routes/readers.js:211-304 | The new tables and response are exactly those of ReaderRoutes.DeleteReader; the invariants are kept |

## Left out

- HTTP concerns are not modelled: routing, request parsing, response shapes, status codes, logging, and authentication or role checks (the signed-in staff user and reader are parameters).
- Transactions and concurrency are not modelled. Each handler is one atomic step, so interleaved requests racing on a stock count are not captured.
- The list, detail, statistics and history queries in these files only read the database and are not modelled. The announcement window is the exception.
- The sample-data seeding routes in src/routes/books.js and the general reader profile update in src/routes/readers.js do not take part in circulation and are not modelled.
- Reader columns other than the number, name, credit label and arrears are not modelled: id card, phone, email, gender and the like. The id card format is checked on create only.
- The express-validator checks that the handlers do not depend on are not modelled. This includes the `notEmpty` checks on the staff borrow's book id and on the staff appointment's reader id, book id and date: an absent integer id cannot be written down in the model.
- Dates are numbers of milliseconds; time zones and the `Date` calendar are not modelled. The calendar date in the reservation number is a parameter.
- The clock reading (`Date.now()`) and the random draw (`Math.random()`) are parameters.
- Money is whole cents; the decimal arithmetic of the database column is not modelled.
- Book status is the four values 0..3; other values in the column are not represented.
- A missing configuration value or one that is not a number becomes the source's default (`parseInt(...) || default`). The column defaults of the schema, such as the initial book status, are part of the configuration.
- BorrowRoutes.StaffBorrow: the due date offset is a parameter. The source computes `max_borrow_days` from the system configuration (default 30, src/routes/borrow.js:134) and then never uses it. Instead it adds `reader.max_borrow_days`, a field of the `ri.*` reader row that this model does not have (src/routes/borrow.js:197). When the reader_info table has no such column, that value is undefined, `setDate(NaN)` gives an Invalid Date, and the due date written is not a date at all; the model does not capture that case.
- ReaderController.AnnouncementWindow: only whole-number page and pageSize values are modelled. The source takes `Number(...)` of the query text, so a fraction such as page=1.5 gives OFFSET 5 and pageSize=10.5 gives LIMIT 10 with OFFSET 5.25 floored; "Infinity" gives LIMIT 100 with an OFFSET that is Infinity or NaN. None of these is represented.
- String keys compare exactly in the model: reader_no (`Schema.ReaderWithNo`), borrow_no and the reader of a loan (`Schema.LoanWithNo`, `Schema.OpenLoanWithNo`, `Schema.LoanOf`, `Schema.OpenLoanOf`). MySQL compares them under the column's collation, which is usually case-insensitive and ignores trailing spaces; so "r001" or "R001 " would find reader "R001" in the database but not in the model.
- SqlCompare.SqlNumber: the string is read as an exact decimal. MySQL converts it to a double, so a string with more than about 15 significant digits can be rounded onto a whole number, or onto a different one, that the model does not match.
- Text.SerialNo: the uniqueness of borrow and appointment numbers is not guaranteed by the source (see Text.SerialNoCollides). The lemmas that need it, such as Circulation.BorrowThenReturnRestoresStock, assume no earlier loan has the number.
- Circulation.BorrowsKeepStockBound: it needs unique book ids, which the database primary key provides but the model's tables do not enforce.

## Findings

| source | as written | input that shows it | evidently intended | confidence | as-written member | corrected member |
|---|---|---|---|---|---|---|
| src/controllers/readerController.js:1360-1363 | OFFSET is (page - 1) times the requested page size, while LIMIT is that size clamped to 1..100 | page=2, pageSize=200: LIMIT 100, OFFSET 200, so rows 100..199 are on no page | OFFSET computed from the clamped size, so pages tile the list | not executed | ReaderController.AnnouncementPagesSkipRows | ReaderController.ClampedPagesAreContiguous |
