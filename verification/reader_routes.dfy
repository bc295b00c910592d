/**
 * The reader account handlers that feed circulation: create (a sys_user
 * row and a reader_info row with good credit and no arrears), the staff
 * credit override, and delete with its guards.
 */
module ReaderRoutes {
  import opened Table
  import opened Schema
  import opened Text
  import opened SqlCompare

  /** `/^\d{17}[\dXx]$/`: seventeen digits and a final digit or X. */
  predicate IdCardValid(idCard: string)
  {
    |idCard| == 18 && AllDigits(idCard[..17])
    && (IsDigit(idCard[17]) || idCard[17] == 'X' || idCard[17] == 'x')
  }

  /**
   * Create reader `no` named `name`: reader_no and name must be non-empty and
   * the identity card number well formed. A sys_user row whose username is
   * the reader number is inserted first, then the reader_info row pointing at
   * it, with credit good and arrears 0. The response carries no data.
   */
  function CreateReader(db: Db, no: string, name: string, idCard: string): (s: Step<()>)
    ensures s.result.Err? ==> s.db == db
    ensures s.result.Ok? <==> no != "" && name != "" && IdCardValid(idCard)
    ensures s.result.Ok? ==>
      && |s.db.users| == |db.users| + 1 && s.db.users[..|db.users|] == db.users
      && |s.db.readers| == |db.readers| + 1 && s.db.readers[..|db.readers|] == db.readers
      && var r := s.db.readers[|db.readers|];
      && var u := s.db.users[|db.users|];
      && r.id == db.nextReaderId && r.no == no && r.name == name
      && r.credit == Good && r.arrears == 0
      && r.userId == u.id && u.username == no
      && s.db.books == db.books && s.db.loans == db.loans && s.db.appointments == db.appointments
  {
    if no == "" || name == "" || !IdCardValid(idCard) then Step(db, Err(MissingField))
    else
      var user := User(db.nextUserId, no);
      var reader := Reader(db.nextReaderId, db.nextUserId, no, name, Good, 0);
      Step(db.(users := db.users + [user], nextUserId := db.nextUserId + 1,
               readers := db.readers + [reader], nextReaderId := db.nextReaderId + 1),
           Ok(()))
  }

  /** The body value of the credit override: only normal, overdue or debt. */
  function ParseCreditOverride(word: string): (r: Option<CreditStatus>)
    ensures r.Some? <==> word == "normal" || word == "overdue" || word == "debt"
    ensures r != Some(Good)
  {
    if word == "normal" then Some(Normal)
    else if word == "overdue" then Some(Overdue)
    else if word == "debt" then Some(Debt)
    else None
  }

  /**
   * Staff credit override of reader `id` to the word `target`: the word is
   * checked first, then the reader must exist; only credit_status is written.
   */
  function UpdateCredit(db: Db, id: int, target: string): (s: Step<()>)
    ensures s.result.Err? ==> s.db == db
    ensures ParseCreditOverride(target).None? ==> s.result == Err(InvalidStatus)
    ensures s.result.Ok? <==> ParseCreditOverride(target).Some? && Find(db.readers, ReaderWithId(id)).Some?
    ensures s.result.Ok? ==>
      && |s.db.readers| == |db.readers|
      && (forall i :: 0 <= i < |db.readers| ==>
            s.db.readers[i] == if db.readers[i].id == id
                               then db.readers[i].(credit := ParseCreditOverride(target).value)
                               else db.readers[i])
      && s.db.books == db.books && s.db.loans == db.loans && s.db.appointments == db.appointments
      && s.db.users == db.users
  {
    match ParseCreditOverride(target)
    case None => Step(db, Err(InvalidStatus))
    case Some(c) =>
      if Find(db.readers, ReaderWithId(id)).None? then Step(db, Err(ReaderNotFound))
      else Step(db.(readers := UpdateWhere(db.readers, ReaderWithId(id), SetCredit(c))), Ok(()))
  }

  /**
   * The override does not look at arrears: a reader with arrears can be set
   * to normal, and its arrears stay what they were.
   */
  lemma OverrideKeepsArrears(db: Db, id: int)
    requires Find(db.readers, ReaderWithId(id)).Some?
    ensures var k := Find(db.readers, ReaderWithId(id)).value;
      var s := UpdateCredit(db, id, "normal");
      && s.result.Ok?
      && s.db.readers[k].credit == Normal
      && s.db.readers[k].arrears == db.readers[k].arrears
  {
  }

  /**
   * Delete reader `id`. Checks, in order: the reader exists; no borrowed loan
   * has its reader_no; no appointment's reader column equals the reader_no as
   * MySQL compares a string with a number; no loan at all has its reader_no.
   * Then the sys_user row and the reader_info row are removed.
   */
  function DeleteReader(db: Db, id: int): (s: Step<()>)
    ensures s.result.Err? ==> s.db == db
    ensures s.result.Ok? <==>
      && Find(db.readers, ReaderWithId(id)).Some?
      && var r := db.readers[Find(db.readers, ReaderWithId(id)).value];
      && !Any(db.loans, LoanOf(r.no))
      && !Any(db.appointments, AppointmentOfReaderColumn(SqlNumber(r.no)))
    ensures Find(db.readers, ReaderWithId(id)).None? ==> s.result == Err(ReaderNotFound)
    ensures Find(db.readers, ReaderWithId(id)).Some? ==>
      var r := db.readers[Find(db.readers, ReaderWithId(id)).value];
      && (Any(db.loans, OpenLoanOf(r.no)) ==> s.result == Err(ReaderHasOpenLoans))
      && (!Any(db.loans, OpenLoanOf(r.no))
          && Any(db.appointments, AppointmentOfReaderColumn(SqlNumber(r.no)))
          ==> s.result == Err(ReaderHasAppointments))
      && (!Any(db.loans, OpenLoanOf(r.no))
          && !Any(db.appointments, AppointmentOfReaderColumn(SqlNumber(r.no)))
          && Any(db.loans, LoanOf(r.no))
          ==> s.result == Err(ReaderHasLoanHistory))
    ensures s.result.Ok? ==>
      var r := db.readers[Find(db.readers, ReaderWithId(id)).value];
      && s.db.readers == DeleteWhere(db.readers, ReaderWithId(id))
      && s.db.users == DeleteWhere(db.users, UserWithId(r.userId))
      && (forall i :: 0 <= i < |s.db.readers| ==> s.db.readers[i].id != id)
      && (forall i :: 0 <= i < |s.db.users| ==> s.db.users[i].id != r.userId)
      && s.db.books == db.books && s.db.loans == db.loans && s.db.appointments == db.appointments
  {
    match Find(db.readers, ReaderWithId(id))
    case None => Step(db, Err(ReaderNotFound))
    case Some(k) =>
      var r := db.readers[k];
      CountPositive(db.loans, LoanOf(r.no));
      CountPositive(db.loans, OpenLoanOf(r.no));
      CountPositive(db.appointments, AppointmentOfReaderColumn(SqlNumber(r.no)));
      if Count(db.loans, OpenLoanOf(r.no)) > 0 then
        OpenLoanIsLoan(db.loans, r.no);
        Step(db, Err(ReaderHasOpenLoans))
      else if Count(db.appointments, AppointmentOfReaderColumn(SqlNumber(r.no))) > 0 then
        Step(db, Err(ReaderHasAppointments))
      else if Count(db.loans, LoanOf(r.no)) > 0 then Step(db, Err(ReaderHasLoanHistory))
      else
        Step(db.(users := DeleteWhere(db.users, UserWithId(r.userId)),
                 readers := DeleteWhere(db.readers, ReaderWithId(id))), Ok(()))
  }

  /** A reader with an open loan has a loan. */
  lemma OpenLoanIsLoan(loans: seq<Loan>, no: string)
    requires Count(loans, OpenLoanOf(no)) > 0
    ensures Any(loans, LoanOf(no))
  {
    CountPositive(loans, OpenLoanOf(no));
  }

  /**
   * The appointment guard compares the numeric reader column with the
   * reader_no string read as a number. For a reader number that starts with
   * a letter that number is 0, so the reader's own pending reservation does
   * not stop the delete: the reader goes and the appointment stays behind.
   */
  lemma DeleteReaderMissesAppointments()
    ensures var r := Reader(7, 70, "R001", "Li", Good, 0);
      var a := Appointment(1, "AP", 7, 3, 0, Pending, false, None, None, None);
      var db := Db([], [], [a], [r], [User(70, "R001")], Config(None, None, 1, OnShelf), 1, 1, 2, 8, 71);
      var s := DeleteReader(db, 7);
      && s.result.Ok?
      && s.db.readers == []
      && s.db.appointments == [a] && a.reader == r.id
  {
    var r := Reader(7, 70, "R001", "Li", Good, 0);
    var a := Appointment(1, "AP", 7, 3, 0, Pending, false, None, None, None);
    var u := User(70, "R001");
    var db := Db([], [], [a], [r], [u], Config(None, None, 1, OnShelf), 1, 1, 2, 8, 71);
    assert !Any(db.appointments, AppointmentOfReaderColumn(SqlNumber(r.no))) by {
      SqlNumberOfLetter("R001");
      assert !AppointmentOfReaderColumn(Some(0))(a);
    }
    assert !Any(db.loans, LoanOf(r.no));
    assert Find(db.readers, ReaderWithId(7)) == Some(0);
    var s := DeleteReader(db, 7);
    assert s.result.Ok?;
    assert s.db.readers == [] by {
      DeleteWhereOne(r, ReaderWithId(7));
    }
  }

  /**
   * The other way round: a reader whose number reads as another reader's id
   * (" 7" here, white space and all) cannot be deleted while that other
   * reader has an appointment.
   */
  lemma DeleteReaderBlockedByOtherReader()
    ensures var r7 := Reader(7, 70, "R7", "Li", Good, 0);
      var r8 := Reader(8, 80, " 7", "Wang", Good, 0);
      var a := Appointment(1, "AP", 7, 3, 0, Pending, false, None, None, None);
      var db := Db([], [], [a], [r7, r8], [User(70, "R7"), User(80, " 7")], Config(None, None, 1, OnShelf), 1, 1, 2, 9, 81);
      DeleteReader(db, 8) == Step(db, Err(ReaderHasAppointments))
  {
    var r7 := Reader(7, 70, "R7", "Li", Good, 0);
    var r8 := Reader(8, 80, " 7", "Wang", Good, 0);
    var a := Appointment(1, "AP", 7, 3, 0, Pending, false, None, None, None);
    var db := Db([], [], [a], [r7, r8], [User(70, "R7"), User(80, " 7")], Config(None, None, 1, OnShelf), 1, 1, 2, 9, 81);
    assert Find(db.readers, ReaderWithId(8)) == Some(1) by {
      FindSecond(r7, r8, ReaderWithId(8));
    }
    assert db.readers[1] == r8;
    assert !Any(db.loans, OpenLoanOf(r8.no));
    assert Any(db.appointments, AppointmentOfReaderColumn(SqlNumber(r8.no))) by {
      SpaceExample();
      assert AppointmentOfReaderColumn(Some(7))(db.appointments[0]);
    }
    var s := DeleteReader(db, 8);
    assert s.result == Err(ReaderHasAppointments);
  }

  /** Deleting a missing reader is not found and removes nothing. */
  lemma DeleteMissingReader(db: Db, id: int)
    requires Find(db.readers, ReaderWithId(id)).None?
    ensures DeleteReader(db, id) == Step(db, Err(ReaderNotFound))
  {
  }
}
