/**
 * The column constraints of the two stand-alone schema variants
 * (`customer_survey.py` with survey responses, `customer-survey.py` with
 * votes): `nullable=False` columns refuse a missing value, `unique=True`
 * refuses a repeated one, and in the first variant deleting a user deletes
 * the surveys it created (`cascade="all, delete-orphan"`). A refused insert
 * raises `IntegrityError` and writes nothing.
 */
module SchemaRules {
  import opened Common

  datatype Violation = NotNullViolated | UniqueViolated

  // ------------------------------------------------------------------ users

  /** A `users` row as handed to the database; `None` is SQL NULL. */
  datatype UserRow = UserRow(id: int, email: Option<string>, passwordHash: Option<string>)

  /** Every stored user has an e-mail and a hash, and no two share an e-mail. */
  predicate UsersConsistent(users: seq<UserRow>) {
    && (forall u :: u in users ==> u.email.Some? && u.passwordHash.Some?)
    && (forall i, j :: 0 <= i < j < |users| ==> users[i].email != users[j].email)
  }

  /** Insert one user row; an accepted insert keeps the table consistent. */
  function InsertUser(users: seq<UserRow>, u: UserRow): (r: Result<seq<UserRow>, Violation>)
    ensures r.Ok? <==> u.email.Some? && u.passwordHash.Some? && forall v :: v in users ==> v.email != u.email
    ensures u.email.None? || u.passwordHash.None? ==> r == Err(NotNullViolated)
    ensures r.Ok? ==> r.value == users + [u]
    ensures UsersConsistent(users) && r.Ok? ==> UsersConsistent(r.value)
  {
    if u.email.None? || u.passwordHash.None? then Err(NotNullViolated)
    else if exists v :: v in users && v.email == u.email then Err(UniqueViolated)
    else
      AppendUserKeepsConsistent(users, u);
      Ok(users + [u])
  }

  lemma AppendUserKeepsConsistent(users: seq<UserRow>, u: UserRow)
    requires u.email.Some? && u.passwordHash.Some? && forall v :: v in users ==> v.email != u.email
    ensures UsersConsistent(users) ==> UsersConsistent(users + [u])
  {
    var after := users + [u];
    forall i, j | 0 <= i < j < |after| && UsersConsistent(users) ensures after[i].email != after[j].email {
      if j == |users| {
        assert after[i] in users;
      }
    }
  }

  /**
   * Insert each row in turn, each in its own transaction: a refused row is
   * skipped and the rows accepted so far stay.
   */
  function InsertEach<T>(rows: seq<T>, xs: seq<T>, insert: (seq<T>, T) -> Result<seq<T>, Violation>): seq<T>
    decreases |xs|
  {
    if xs == [] then rows
    else
      match insert(rows, xs[0])
      case Ok(next) => InsertEach(next, xs[1..], insert)
      case Err(_) => InsertEach(rows, xs[1..], insert)
  }

  /** Users only ever enter through `InsertUser`, so e-mails stay present and distinct. */
  lemma {:induction false} InsertUsersConsistent(users: seq<UserRow>, xs: seq<UserRow>)
    requires UsersConsistent(users)
    ensures UsersConsistent(InsertEach(users, xs, InsertUser))
    decreases |xs|
  {
    if xs != [] {
      match InsertUser(users, xs[0])
      case Ok(next) => InsertUsersConsistent(next, xs[1..]);
      case Err(_) => InsertUsersConsistent(users, xs[1..]);
    }
  }

  // --------------------------------------------------------------- surveys

  datatype SurveyRow = SurveyRow(id: int, title: Option<string>, creatorId: Option<int>)

  predicate SurveyComplete(s: SurveyRow) {
    s.title.Some? && s.creatorId.Some?
  }

  /** Insert one survey row; an accepted insert keeps every stored survey complete. */
  function InsertSurvey(surveys: seq<SurveyRow>, s: SurveyRow): (r: Result<seq<SurveyRow>, Violation>)
    ensures r.Ok? <==> s.title.Some? && s.creatorId.Some?
    ensures r.Err? ==> r.error == NotNullViolated
    ensures r.Ok? ==> r.value == surveys + [s]
    ensures (forall t :: t in surveys ==> SurveyComplete(t)) && r.Ok? ==> forall t :: t in r.value ==> SurveyComplete(t)
  {
    if s.title.None? || s.creatorId.None? then Err(NotNullViolated) else Ok(surveys + [s])
  }

  /** Surveys only ever enter through `InsertSurvey`, so all have a title and a creator. */
  lemma {:induction false} InsertSurveysComplete(surveys: seq<SurveyRow>, xs: seq<SurveyRow>)
    requires forall t :: t in surveys ==> SurveyComplete(t)
    ensures forall t :: t in InsertEach(surveys, xs, InsertSurvey) ==> SurveyComplete(t)
    decreases |xs|
  {
    if xs != [] {
      match InsertSurvey(surveys, xs[0])
      case Ok(next) => InsertSurveysComplete(next, xs[1..]);
      case Err(_) => InsertSurveysComplete(surveys, xs[1..]);
    }
  }

  datatype Db = Db(users: seq<UserRow>, surveys: seq<SurveyRow>)

  /**
   * Deleting a user in `customer_survey.py`: the user row goes, and with it
   * every survey whose creator it is; every other row stays, in order.
   */
  function DeleteUser(db: Db, userId: int): (r: Db)
    ensures forall u :: u in r.users <==> u in db.users && u.id != userId
    ensures forall s :: s in r.surveys <==> s in db.surveys && s.creatorId != Some(userId)
  {
    Db(KeepUsers(db.users, userId), KeepSurveys(db.surveys, userId))
  }

  /** The test that keeps every user row but the deleted one. */
  function OtherUser(userId: int): UserRow -> bool {
    (u: UserRow) => u.id != userId
  }

  /** The test that keeps every survey row the deleted user did not create. */
  function NotCreatedBy(userId: int): SurveyRow -> bool {
    (s: SurveyRow) => s.creatorId != Some(userId)
  }

  function KeepUsers(users: seq<UserRow>, userId: int): (r: seq<UserRow>)
    ensures forall u :: u in r <==> u in users && u.id != userId
    ensures |r| <= |users|
  {
    Keep(users, OtherUser(userId))
  }

  function KeepSurveys(surveys: seq<SurveyRow>, userId: int): (r: seq<SurveyRow>)
    ensures forall s :: s in r <==> s in surveys && s.creatorId != Some(userId)
    ensures |r| <= |surveys|
  {
    Keep(surveys, NotCreatedBy(userId))
  }

  /** The cascade leaves no survey whose creator no longer exists. */
  lemma DeleteUserLeavesNoOrphans(db: Db, userId: int)
    requires forall s :: s in db.surveys ==> s.creatorId.Some? && exists u :: u in db.users && u.id == s.creatorId.value
    ensures var r := DeleteUser(db, userId);
      forall s :: s in r.surveys ==> exists u :: u in r.users && u.id == s.creatorId.value
  {
    var r := DeleteUser(db, userId);
    forall s | s in r.surveys ensures exists u :: u in r.users && u.id == s.creatorId.value {
      var u :| u in db.users && u.id == s.creatorId.value;
      assert u in r.users;
    }
  }

  // ------------------------------------------- responses (customer_survey.py)

  datatype ResponseRow = ResponseRow(
    id: int,
    surveyId: Option<int>,
    optionId: Option<int>,
    respondentEmail: Option<string>)

  predicate ResponseComplete(r: ResponseRow) {
    r.surveyId.Some? && r.optionId.Some? && r.respondentEmail.Some?
  }

  /** Insert one response row; an accepted insert keeps every stored response complete. */
  function InsertResponse(rows: seq<ResponseRow>, x: ResponseRow): (r: Result<seq<ResponseRow>, Violation>)
    ensures r.Ok? <==> x.surveyId.Some? && x.optionId.Some? && x.respondentEmail.Some?
    ensures r.Err? ==> r.error == NotNullViolated
    ensures r.Ok? ==> r.value == rows + [x]
    ensures (forall y :: y in rows ==> ResponseComplete(y)) && r.Ok? ==> forall y :: y in r.value ==> ResponseComplete(y)
  {
    if ResponseComplete(x) then Ok(rows + [x]) else Err(NotNullViolated)
  }

  /** Responses only ever enter through `InsertResponse`, so all carry every required column. */
  lemma {:induction false} InsertResponsesComplete(rows: seq<ResponseRow>, xs: seq<ResponseRow>)
    requires forall y :: y in rows ==> ResponseComplete(y)
    ensures forall y :: y in InsertEach(rows, xs, InsertResponse) ==> ResponseComplete(y)
    decreases |xs|
  {
    if xs != [] {
      match InsertResponse(rows, xs[0])
      case Ok(next) => InsertResponsesComplete(next, xs[1..]);
      case Err(_) => InsertResponsesComplete(rows, xs[1..]);
    }
  }

  // ---------------------------------------------- votes (customer-survey.py)

  datatype VoteRow = VoteRow(id: int, surveyId: Option<int>, optionId: Option<int>, ipAddress: Option<string>)

  predicate VoteComplete(v: VoteRow) {
    v.surveyId.Some? && v.optionId.Some? && v.ipAddress.Some?
  }

  /** Insert one vote row; an accepted insert keeps every stored vote complete. */
  function InsertVote(rows: seq<VoteRow>, v: VoteRow): (r: Result<seq<VoteRow>, Violation>)
    ensures r.Ok? <==> v.surveyId.Some? && v.optionId.Some? && v.ipAddress.Some?
    ensures r.Err? ==> r.error == NotNullViolated
    ensures r.Ok? ==> r.value == rows + [v]
    ensures (forall y :: y in rows ==> VoteComplete(y)) && r.Ok? ==> forall y :: y in r.value ==> VoteComplete(y)
  {
    if VoteComplete(v) then Ok(rows + [v]) else Err(NotNullViolated)
  }

  /** Votes only ever enter through `InsertVote`, so all name a survey, an option and an address. */
  lemma {:induction false} InsertVotesComplete(rows: seq<VoteRow>, xs: seq<VoteRow>)
    requires forall y :: y in rows ==> VoteComplete(y)
    ensures forall y :: y in InsertEach(rows, xs, InsertVote) ==> VoteComplete(y)
    decreases |xs|
  {
    if xs != [] {
      match InsertVote(rows, xs[0])
      case Ok(next) => InsertVotesComplete(next, xs[1..]);
      case Err(_) => InsertVotesComplete(rows, xs[1..]);
    }
  }
}
