/**
 * The persisted state of the survey application: the four tables `users`,
 * `surveys`, `survey_options` and `feedbacks`, each a sequence of rows in
 * insertion (rowid) order, and the integrity invariant every route keeps.
 */
module SurveyStore {
  import opened Common

  /** A clock reading (`server_default=func.now()`); only compared and formatted. */
  type Timestamp = int

  datatype User = User(id: int, email: string, passwordHash: string, createdAt: Timestamp)

  datatype Survey = Survey(
    id: int,
    title: string,
    description: string,
    creatorId: int,
    createdAt: Timestamp,
    updatedAt: Option<Timestamp>)

  datatype SurveyOption = SurveyOption(id: int, surveyId: int, text: string)

  datatype Feedback = Feedback(
    id: int,
    surveyId: int,
    optionId: int,
    userEmail: Option<string>,
    comment: Option<string>,
    createdAt: Timestamp)

  datatype Store = Store(
    users: seq<User>,
    surveys: seq<Survey>,
    options: seq<SurveyOption>,
    feedbacks: seq<Feedback>)

  /** The database `db.create_all()` leaves behind: four empty tables. */
  const Empty := Store([], [], [], [])

  /**
   * The rowid SQLite gives the next row of a table whose `INTEGER PRIMARY KEY`
   * values are `ids`: 1 when the table is empty, otherwise one more than the
   * largest id, whatever its sign.
   */
  function NextId(ids: seq<int>): (n: int)
    ensures forall k :: 0 <= k < |ids| ==> ids[k] < n
    ensures ids == [] ==> n == 1
    ensures ids != [] ==> n - 1 in ids
  {
    if ids == [] then 1
    else if |ids| == 1 then ids[0] + 1
    else
      var rest := NextId(ids[1..]);
      if ids[0] < rest then rest else ids[0] + 1
  }

  function UserIds(users: seq<User>): (r: seq<int>)
    ensures |r| == |users| && forall k :: 0 <= k < |users| ==> r[k] == users[k].id
  {
    seq(|users|, k requires 0 <= k < |users| => users[k].id)
  }

  function SurveyIds(surveys: seq<Survey>): (r: seq<int>)
    ensures |r| == |surveys| && forall k :: 0 <= k < |surveys| ==> r[k] == surveys[k].id
  {
    seq(|surveys|, k requires 0 <= k < |surveys| => surveys[k].id)
  }

  function OptionIds(options: seq<SurveyOption>): (r: seq<int>)
    ensures |r| == |options| && forall k :: 0 <= k < |options| ==> r[k] == options[k].id
  {
    seq(|options|, k requires 0 <= k < |options| => options[k].id)
  }

  function FeedbackIds(feedbacks: seq<Feedback>): (r: seq<int>)
    ensures |r| == |feedbacks| && forall k :: 0 <= k < |feedbacks| ==> r[k] == feedbacks[k].id
  {
    seq(|feedbacks|, k requires 0 <= k < |feedbacks| => feedbacks[k].id)
  }

  /** `User.query.get(id)`: the user row with that primary key. */
  function FindUser(users: seq<User>, id: int): (r: Option<User>)
    ensures r.Some? ==> r.value in users && r.value.id == id
    ensures r.None? ==> forall u :: u in users ==> u.id != id
  {
    if users == [] then None
    else if users[0].id == id then Some(users[0])
    else FindUser(users[1..], id)
  }

  /** `User.query.filter_by(email=...).first()`. */
  function FindUserByEmail(users: seq<User>, email: string): (r: Option<User>)
    ensures r.Some? ==> r.value in users && r.value.email == email
    ensures r.None? ==> forall u :: u in users ==> u.email != email
  {
    if users == [] then None
    else if users[0].email == email then Some(users[0])
    else FindUserByEmail(users[1..], email)
  }

  /** `Survey.query.get(id)`. */
  function FindSurvey(surveys: seq<Survey>, id: int): (r: Option<Survey>)
    ensures r.Some? ==> r.value in surveys && r.value.id == id
    ensures r.None? ==> forall s :: s in surveys ==> s.id != id
  {
    if surveys == [] then None
    else if surveys[0].id == id then Some(surveys[0])
    else FindSurvey(surveys[1..], id)
  }

  /** `SurveyOption.query.get(id)`. */
  function FindOption(options: seq<SurveyOption>, id: int): (r: Option<SurveyOption>)
    ensures r.Some? ==> r.value in options && r.value.id == id
    ensures r.None? ==> forall o :: o in options ==> o.id != id
  {
    if options == [] then None
    else if options[0].id == id then Some(options[0])
    else FindOption(options[1..], id)
  }

  predicate HasUser(st: Store, id: int) {
    exists u :: u in st.users && u.id == id
  }

  predicate HasSurvey(st: Store, id: int) {
    exists s :: s in st.surveys && s.id == id
  }

  /** An option row with this id exists and is attached to survey `surveyId`. */
  predicate OptionBelongs(st: Store, optionId: int, surveyId: int) {
    exists o :: o in st.options && o.id == optionId && o.surveyId == surveyId
  }

  predicate FeedbackSound(st: Store, f: Feedback) {
    HasSurvey(st, f.surveyId) && OptionBelongs(st, f.optionId, f.surveyId)
  }

  predicate UniqueUserKeys(users: seq<User>) {
    forall i, j :: 0 <= i < j < |users| ==> users[i].id != users[j].id && users[i].email != users[j].email
  }

  predicate UniqueSurveyIds(surveys: seq<Survey>) {
    forall i, j :: 0 <= i < j < |surveys| ==> surveys[i].id != surveys[j].id
  }

  predicate UniqueOptionIds(options: seq<SurveyOption>) {
    forall i, j :: 0 <= i < j < |options| ==> options[i].id != options[j].id
  }

  predicate UniqueFeedbackIds(feedbacks: seq<Feedback>) {
    forall i, j :: 0 <= i < j < |feedbacks| ==> feedbacks[i].id != feedbacks[j].id
  }

  /**
   * Primary keys are unique, user emails are unique (`unique=True`), every
   * foreign key points at an existing row, and, the key invariant, every
   * feedback's option belongs to that feedback's survey.
   */
  predicate Valid(st: Store) {
    && UniqueUserKeys(st.users)
    && UniqueSurveyIds(st.surveys)
    && UniqueOptionIds(st.options)
    && UniqueFeedbackIds(st.feedbacks)
    && (forall s :: s in st.surveys ==> HasUser(st, s.creatorId))
    && (forall o :: o in st.options ==> HasSurvey(st, o.surveyId))
    && (forall f :: f in st.feedbacks ==> FeedbackSound(st, f))
  }

  /** Appending a survey whose id no existing survey has keeps survey ids unique. */
  lemma AppendSurveyKeepsIdsUnique(surveys: seq<Survey>, s: Survey)
    requires UniqueSurveyIds(surveys)
    requires forall t :: t in surveys ==> t.id != s.id
    ensures UniqueSurveyIds(surveys + [s])
  {
    var all := surveys + [s];
    forall i, j | 0 <= i < j < |all| ensures all[i].id != all[j].id {
      if j == |surveys| {
        assert all[i] in surveys;
      }
    }
  }

  /** Appending rows whose ids exceed every existing id, in increasing order, keeps ids unique. */
  lemma AppendOptionsKeepsIdsUnique(options: seq<SurveyOption>, added: seq<SurveyOption>, firstId: int)
    requires UniqueOptionIds(options)
    requires forall p :: p in options ==> p.id < firstId
    requires forall k :: 0 <= k < |added| ==> added[k].id == firstId + k
    ensures UniqueOptionIds(options + added)
  {
    var all := options + added;
    forall i, j | 0 <= i < j < |all| ensures all[i].id != all[j].id {
      if j >= |options| {
        assert all[j] == added[j - |options|];
        if i >= |options| {
          assert all[i] == added[i - |options|];
        } else {
          assert all[i] in options;
        }
      }
    }
  }

  /** Why a route refused a request; a refused request writes nothing. */
  datatype Error =
    | AlreadySignedIn   // `register` redirects an authenticated caller
    | LoginRequired     // `@login_required` refused an anonymous caller
    | InvalidForm       // `form.validate_on_submit()` failed: the form is shown again
    | EmailExists       // 'Email address already exists'
    | NotFound          // `get_or_404` found no survey
    | InvalidOption     // the chosen option is missing or belongs to another survey
    | Forbidden         // the caller is not the survey's creator

  /** `current_user.is_authenticated`: the session names a user that `load_user` finds. */
  predicate Authenticated(st: Store, caller: Option<int>) {
    caller.Some? && FindUser(st.users, caller.value).Some?
  }

  /** The test `filter_by(survey_id=...)` applies to an option row. */
  function OptionOfSurvey(surveyId: int): SurveyOption -> bool {
    (o: SurveyOption) => o.surveyId == surveyId
  }

  /** The test `filter_by(survey_id=...)` applies to a feedback row. */
  function FeedbackOfSurvey(surveyId: int): Feedback -> bool {
    (f: Feedback) => f.surveyId == surveyId
  }

  /** `survey.options`: the survey's option rows in insertion order. */
  function OptionsOf(options: seq<SurveyOption>, surveyId: int): (r: seq<SurveyOption>)
    ensures forall o :: o in r <==> o in options && o.surveyId == surveyId
    ensures |r| <= |options|
  {
    Keep(options, OptionOfSurvey(surveyId))
  }

  /** `Feedback.query.filter_by(survey_id=...)`: the survey's feedback rows in insertion order. */
  function FeedbacksOf(feedbacks: seq<Feedback>, surveyId: int): (r: seq<Feedback>)
    ensures forall f :: f in r <==> f in feedbacks && f.surveyId == surveyId
    ensures |r| <= |feedbacks|
  {
    Keep(feedbacks, FeedbackOfSurvey(surveyId))
  }

  /** Options appended later are listed after the earlier ones. */
  lemma OptionsOfAppend(a: seq<SurveyOption>, b: seq<SurveyOption>, surveyId: int)
    ensures OptionsOf(a + b, surveyId) == OptionsOf(a, surveyId) + OptionsOf(b, surveyId)
  {
    KeepAppend(a, b, OptionOfSurvey(surveyId));
  }

  /** Feedbacks appended later are listed after the earlier ones. */
  lemma FeedbacksOfAppend(a: seq<Feedback>, b: seq<Feedback>, surveyId: int)
    ensures FeedbacksOf(a + b, surveyId) == FeedbacksOf(a, surveyId) + FeedbacksOf(b, surveyId)
  {
    KeepAppend(a, b, FeedbackOfSurvey(surveyId));
  }

  /** A survey with no option rows yet has an empty option list. */
  lemma OptionsOfNone(options: seq<SurveyOption>, surveyId: int)
    requires forall o :: o in options ==> o.surveyId != surveyId
    ensures OptionsOf(options, surveyId) == []
  {
    KeepNone(options, OptionOfSurvey(surveyId));
  }

  /** The empty database is consistent, so every store the routes build from it is too. */
  lemma EmptyValid()
    ensures Valid(Empty)
  {
  }

  /**
   * The key invariant as the pages use it: a feedback's option is found by
   * its id (`feedback.selected_option`) and belongs to the feedback's survey.
   */
  lemma FeedbackOptionResolves(st: Store, f: Feedback)
    requires Valid(st) && f in st.feedbacks
    ensures FindOption(st.options, f.optionId).Some?
    ensures FindOption(st.options, f.optionId).value.surveyId == f.surveyId
  {
    assert FeedbackSound(st, f);
    var o :| o in st.options && o.id == f.optionId && o.surveyId == f.surveyId;
    FindOptionUnique(st.options, o);
  }

  /** Under `Valid`, the primary-key lookup finds exactly the row with that id. */
  lemma {:induction false} FindOptionUnique(options: seq<SurveyOption>, o: SurveyOption)
    requires UniqueOptionIds(options)
    requires o in options
    ensures FindOption(options, o.id) == Some(o)
  {
    if options[0] != o {
      assert o in options[1..];
      FindOptionUnique(options[1..], o);
    }
  }
}
