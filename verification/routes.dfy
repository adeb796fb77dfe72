/**
 * The writing routes of `app.py` recast as pure operations on a `Store`:
 * `register`, `create_survey` and the POST branch of `survey`. The caller's
 * identity is an explicit argument; password hashing, `bleach.clean` and the
 * clock are arguments too. An `Err` result means the route wrote nothing.
 */
module SurveyRoutes {
  import opened Common
  import opened Text
  import opened SurveyStore

  // ---------------------------------------------------------------- register

  predicate IsLowerLetter(c: char) { 'a' <= c <= 'z' }
  predicate IsUpperLetter(c: char) { 'A' <= c <= 'Z' }
  predicate IsDigit(c: char) { '0' <= c <= '9' }
  predicate IsSpecial(c: char) { c in "@$!%*?&" }

  predicate PasswordChar(c: char) {
    IsLowerLetter(c) || IsUpperLetter(c) || IsDigit(c) || IsSpecial(c)
  }

  /**
   * The registration password pattern without its anchors: at least eight
   * characters from `[A-Za-z0-9@$!%*?&]`, with a lower-case letter, an
   * upper-case letter, a digit and a special character among them.
   */
  predicate PatternBody(p: string) {
    && |p| >= 8
    && (forall k :: 0 <= k < |p| ==> PasswordChar(p[k]))
    && (exists k :: 0 <= k < |p| && IsLowerLetter(p[k]))
    && (exists k :: 0 <= k < |p| && IsUpperLetter(p[k]))
    && (exists k :: 0 <= k < |p| && IsDigit(p[k]))
    && (exists k :: 0 <= k < |p| && IsSpecial(p[k]))
  }

  /**
   * `re.match` of the anchored pattern: Python's `$` also matches just before
   * one trailing newline, so a strong password followed by "\n" passes.
   */
  predicate StrongPassword(p: string) {
    PatternBody(p) || (|p| > 0 && p[|p| - 1] == '\n' && PatternBody(p[..|p| - 1]))
  }

  /** The validators of `RegistrationForm` (the e-mail syntax check aside). */
  predicate RegistrationFormValid(email: string, password: string, password2: string) {
    Strip(email) != "" && StrongPassword(password) && password2 == password
  }

  /**
   * Python's `$` admits exactly one newline after a strong password; a
   * second one, or one in front (`re.match` anchors at the start), is refused.
   */
  lemma TrailingNewlineAccepted(p: string)
    requires PatternBody(p)
    ensures StrongPassword(p + "\n")
    ensures !StrongPassword(p + "\n\n")
    ensures !StrongPassword("\n" + p)
  {
    assert (p + "\n")[..|p|] == p;
    assert !PasswordChar((p + "\n")[|p|]);
    assert !PasswordChar((p + "\n\n")[|p|]);
    assert (p + "\n\n")[..|p| + 1] == p + "\n";
    assert !PasswordChar(("\n" + p)[0]);
    assert ("\n" + p)[|p|] == p[|p| - 1];
    assert ("\n" + p)[..|p|][0] == '\n';
  }

  /** A password of the right shape passes; one that lacks a capital or is too short does not. */
  lemma PasswordExamples()
    ensures StrongPassword("Secret1!")
    ensures !StrongPassword("secret1!")
    ensures !StrongPassword("Sec1!")
  {
    var good := "Secret1!";
    assert IsUpperLetter(good[0]) && IsLowerLetter(good[1]) && IsDigit(good[6]) && IsSpecial(good[7]);
    var bad := "secret1!";
    assert forall k :: 0 <= k < |bad| ==> !IsUpperLetter(bad[k]);
  }

  /** `register` (POST): add a user unless the e-mail is already registered. */
  function Register(st: Store, caller: Option<int>, email: string, password: string,
                    password2: string, hash: string -> string, now: Timestamp): (r: Result<Store, Error>)
    ensures Authenticated(st, caller) ==> r == Err(AlreadySignedIn)
    ensures r.Ok? <==>
      && !Authenticated(st, caller)
      && RegistrationFormValid(email, password, password2)
      && forall u :: u in st.users ==> u.email != email
    ensures r.Ok? ==>
      && r.value.surveys == st.surveys && r.value.options == st.options
      && r.value.feedbacks == st.feedbacks
      && |r.value.users| == |st.users| + 1
      && r.value.users[..|st.users|] == st.users
      && var u := r.value.users[|st.users|];
         u.email == email && u.passwordHash == hash(password) && !HasUser(st, u.id)
  {
    if Authenticated(st, caller) then Err(AlreadySignedIn)
    else if !RegistrationFormValid(email, password, password2) then Err(InvalidForm)
    else if FindUserByEmail(st.users, email).Some? then Err(EmailExists)
    else
      var u := User(NextId(UserIds(st.users)), email, hash(password), now);
      assert st.users + [u] == st.users + [u];
      assert (st.users + [u])[..|st.users|] == st.users;
      Ok(st.(users := st.users + [u]))
  }

  /** A password lacking a digit, lacking a special character, or holding a space never matches. */
  lemma WeakPasswordRefused(p: string)
    ensures (forall k :: 0 <= k < |p| ==> !IsDigit(p[k])) ==> !StrongPassword(p)
    ensures (forall k :: 0 <= k < |p| ==> !IsSpecial(p[k])) ==> !StrongPassword(p)
    ensures (exists k :: 0 <= k < |p| && p[k] == ' ') ==> !StrongPassword(p)
  {
    if |p| > 0 && p[|p| - 1] == '\n' {
      var q := p[..|p| - 1];
      assert forall k :: 0 <= k < |q| ==> q[k] == p[k];
      if exists k :: 0 <= k < |p| && p[k] == ' ' {
        var k :| 0 <= k < |p| && p[k] == ' ';
        assert !PasswordChar(p[k]);
        if k < |q| {
          assert !PasswordChar(q[k]);
        }
      }
    } else if exists k :: 0 <= k < |p| && p[k] == ' ' {
      var k :| 0 <= k < |p| && p[k] == ' ';
      assert !PasswordChar(p[k]);
    }
  }

  /**
   * Registration refuses a blank e-mail, a repeat that differs from the
   * password, and a password that is shorter than eight characters, lacks a
   * digit or a special character, or contains a space.
   */
  lemma RegisterRefusesWeakForm(st: Store, caller: Option<int>, email: string, password: string,
                                password2: string, hash: string -> string, now: Timestamp)
    ensures var r := Register(st, caller, email, password, password2, hash, now);
      && (Strip(email) == "" ==> r.Err?)
      && (password2 != password ==> r.Err?)
      && (|password| < 8 ==> r.Err?)
      && ((forall k :: 0 <= k < |password| ==> !IsDigit(password[k])) ==> r.Err?)
      && ((forall k :: 0 <= k < |password| ==> !IsSpecial(password[k])) ==> r.Err?)
      && ((exists k :: 0 <= k < |password| && password[k] == ' ') ==> r.Err?)
  {
    WeakPasswordRefused(password);
  }

  /** Registering an e-mail that is already taken creates no user. */
  lemma RegisterDuplicateRejected(st: Store, caller: Option<int>, existing: User, password: string,
                                  password2: string, hash: string -> string, now: Timestamp)
    requires existing in st.users
    ensures Register(st, caller, existing.email, password, password2, hash, now).Err?
  {
  }

  /** A store grown by one user with a fresh id and an unused e-mail stays consistent. */
  lemma AddingUserKeepsValid(st: Store, u: User)
    requires Valid(st) && !HasUser(st, u.id)
    requires forall w :: w in st.users ==> w.email != u.email
    ensures Valid(Store(st.users + [u], st.surveys, st.options, st.feedbacks))
  {
    var st' := Store(st.users + [u], st.surveys, st.options, st.feedbacks);
    forall s | s in st'.surveys ensures HasUser(st', s.creatorId) {
      var w :| w in st.users && w.id == s.creatorId;
      assert w in st'.users;
    }
    forall f | f in st'.feedbacks ensures FeedbackSound(st', f) {
      assert FeedbackSound(st, f);
    }
    forall i, j | 0 <= i < j < |st'.users|
      ensures st'.users[i].id != st'.users[j].id && st'.users[i].email != st'.users[j].email
    {
      if j == |st.users| {
        assert st'.users[i] in st.users;
      }
    }
  }

  lemma RegisterPreservesValid(st: Store, caller: Option<int>, email: string, password: string,
                               password2: string, hash: string -> string, now: Timestamp)
    requires Valid(st)
    requires Register(st, caller, email, password, password2, hash, now).Ok?
    ensures Valid(Register(st, caller, email, password, password2, hash, now).value)
  {
    var st' := Register(st, caller, email, password, password2, hash, now).value;
    var u := st'.users[|st.users|];
    assert st'.users == st.users + [u];
    assert st' == Store(st.users + [u], st.surveys, st.options, st.feedbacks);
    AddingUserKeepsValid(st, u);
  }

  // ----------------------------------------------------------- create_survey

  const MaxTitleLength := 100
  const MaxDescriptionLength := 500
  const MaxOptionLength := 200
  const MinOptionEntries := 2
  const MaxOptionEntries := 10

  /**
   * The validators of `CreateSurveyForm` on the entries the option list
   * reads: a non-blank title of at most 100 characters, a description of at
   * most 500, and at least two entries, each non-blank and at most 200
   * characters (missing entries up to the minimum are blank).
   */
  predicate CreateFormValid(title: string, description: string, entries: seq<string>) {
    && Strip(title) != "" && |title| <= MaxTitleLength
    && |description| <= MaxDescriptionLength
    && MinOptionEntries <= |entries| <= MaxOptionEntries
    && forall k :: 0 <= k < |entries| ==> Strip(entries[k]) != "" && |entries[k]| <= MaxOptionLength
  }

  /** The entries the option list reads: at most the first ten submitted. */
  function ReadEntries(submitted: seq<string>): (r: seq<string>)
    ensures |r| <= MaxOptionEntries && |r| <= |submitted|
    ensures r == submitted[..|r|]
    ensures |r| == |submitted| || |r| == MaxOptionEntries
  {
    if |submitted| <= MaxOptionEntries then submitted else submitted[..MaxOptionEntries]
  }

  /** An entry the option list keeps: one whose stripped text is non-empty. */
  predicate Filled(entry: string) {
    Strip(entry) != ""
  }

  /** The entries whose stripped text is non-empty, in input order. */
  function NonBlank(entries: seq<string>): seq<string> {
    Keep(entries, Filled)
  }

  /** The filter keeps exactly the non-blank entries, and keeps their order. */
  lemma NonBlankSpec(a: seq<string>, b: seq<string>)
    ensures forall x :: x in NonBlank(a) <==> x in a && Strip(x) != ""
    ensures NonBlank(a + b) == NonBlank(a) + NonBlank(b)
  {
    KeepAppend(a, b, Filled);
  }

  /** When no entry is blank the filter keeps every entry. */
  lemma NonBlankKeepsAll(entries: seq<string>)
    requires forall k :: 0 <= k < |entries| ==> Strip(entries[k]) != ""
    ensures NonBlank(entries) == entries
  {
    KeepAll(entries, Filled);
  }

  /** Option rows for `texts`, numbered from `firstId`, attached to `surveyId`. */
  function NewOptions(firstId: int, surveyId: int, texts: seq<string>,
                      sanitize: string -> string): (r: seq<SurveyOption>)
    ensures |r| == |texts|
    ensures forall k :: 0 <= k < |r| ==>
      r[k].id == firstId + k && r[k].surveyId == surveyId && r[k].text == sanitize(Strip(texts[k]))
  {
    seq(|texts|, k requires 0 <= k < |texts| => SurveyOption(firstId + k, surveyId, sanitize(Strip(texts[k]))))
  }

  /** The id the first option row of the next survey receives. */
  function FirstNewOptionId(st: Store): (n: int)
    ensures forall p :: p in st.options ==> p.id < n
  {
    var n := NextId(OptionIds(st.options));
    assert forall p :: p in st.options ==> p.id < n by {
      forall p | p in st.options ensures p.id < n {
        var i :| 0 <= i < |st.options| && st.options[i] == p;
        assert OptionIds(st.options)[i] == p.id;
      }
    }
    n
  }

  /** The id the next survey receives. */
  function NewSurveyId(st: Store): (n: int)
    ensures !HasSurvey(st, n)
  {
    var n := NextId(SurveyIds(st.surveys));
    assert forall t :: t in st.surveys ==> t.id != n by {
      forall t | t in st.surveys ensures t.id != n {
        var i :| 0 <= i < |st.surveys| && st.surveys[i] == t;
        assert SurveyIds(st.surveys)[i] == t.id;
      }
    }
    n
  }

  /**
   * The body of `create_survey` once the form has validated: one new survey
   * owned by `creatorId`, and one option per non-blank entry, stored stripped.
   */
  function AddSurvey(st: Store, creatorId: int, title: string, description: string,
                     entries: seq<string>, sanitize: string -> string, now: Timestamp): (r: Store)
    ensures r.users == st.users && r.feedbacks == st.feedbacks
    ensures |r.surveys| == |st.surveys| + 1 && r.surveys[..|st.surveys|] == st.surveys
    ensures var s := r.surveys[|st.surveys|];
      && s.creatorId == creatorId && !HasSurvey(st, s.id)
      && s.title == sanitize(title) && s.description == sanitize(description)
    ensures r.options == st.options
      + NewOptions(FirstNewOptionId(st), r.surveys[|st.surveys|].id, NonBlank(entries), sanitize)
  {
    var s := Survey(NewSurveyId(st), sanitize(title), sanitize(description), creatorId, now, None);
    var added := NewOptions(FirstNewOptionId(st), s.id, NonBlank(entries), sanitize);
    assert (st.surveys + [s])[..|st.surveys|] == st.surveys;
    st.(surveys := st.surveys + [s], options := st.options + added)
  }

  /** `create_survey` (POST). */
  function CreateSurvey(st: Store, caller: Option<int>, title: string, description: string,
                        submitted: seq<string>, sanitize: string -> string, now: Timestamp): (r: Result<Store, Error>)
    ensures !Authenticated(st, caller) ==> r == Err(LoginRequired)
    ensures r.Ok? <==> Authenticated(st, caller) && CreateFormValid(title, description, ReadEntries(submitted))
    ensures r.Ok? ==> |r.value.options| - |st.options| == |ReadEntries(submitted)|
    ensures r.Ok? ==> r.value == AddSurvey(st, caller.value, title, description, ReadEntries(submitted), sanitize, now)
  {
    if !Authenticated(st, caller) then Err(LoginRequired)
    else
      var entries := ReadEntries(submitted);
      if !CreateFormValid(title, description, entries) then Err(InvalidForm)
      else
        NonBlankKeepsAll(entries);
        Ok(AddSurvey(st, caller.value, title, description, entries, sanitize, now))
  }

  /**
   * The survey form refuses a blank or over-long title, an over-long
   * description, fewer than two entries, and a blank or over-long entry
   * among the first ten.
   */
  lemma CreateSurveyRefusals(st: Store, caller: Option<int>, title: string, description: string,
                             submitted: seq<string>, sanitize: string -> string, now: Timestamp)
    ensures var r := CreateSurvey(st, caller, title, description, submitted, sanitize, now);
      && (Strip(title) == "" || |title| > MaxTitleLength ==> r.Err?)
      && (|description| > MaxDescriptionLength ==> r.Err?)
      && (|submitted| < MinOptionEntries ==> r.Err?)
      && forall k :: (0 <= k < |submitted| && k < MaxOptionEntries
                      && (Strip(submitted[k]) == "" || |submitted[k]| > MaxOptionLength)) ==> r.Err?
  {
    var entries := ReadEntries(submitted);
    forall k | 0 <= k < |submitted| && k < MaxOptionEntries
      ensures entries[k] == submitted[k]
    {
    }
  }

  /** Entries past the tenth never change the outcome: the form reads only the first ten. */
  lemma CreateSurveyIgnoresExtraEntries(st: Store, caller: Option<int>, title: string, description: string,
                                        submitted: seq<string>, sanitize: string -> string, now: Timestamp)
    requires |submitted| > MaxOptionEntries
    ensures CreateSurvey(st, caller, title, description, submitted, sanitize, now)
         == CreateSurvey(st, caller, title, description, submitted[..MaxOptionEntries], sanitize, now)
  {
  }

  /**
   * A created survey belongs to the caller, carries the sanitized title, and
   * its option list is exactly the entries read, stripped and sanitized, in
   * input order.
   */
  lemma CreateSurveyStoresEntries(st: Store, caller: Option<int>, title: string, description: string,
                                  submitted: seq<string>, sanitize: string -> string, now: Timestamp)
    requires Valid(st)
    requires CreateSurvey(st, caller, title, description, submitted, sanitize, now).Ok?
    ensures var r := CreateSurvey(st, caller, title, description, submitted, sanitize, now).value;
      var s := r.surveys[|st.surveys|];
      var entries := ReadEntries(submitted);
      var opts := OptionsOf(r.options, s.id);
      && s.creatorId == caller.value && s.title == sanitize(title)
      && |opts| == |entries|
      && forall k :: 0 <= k < |entries| ==> opts[k].text == sanitize(Strip(entries[k]))
  {
    var entries := ReadEntries(submitted);
    NonBlankKeepsAll(entries);
    AddSurveyOptionsExactly(st, caller.value, title, description, entries, sanitize, now);
  }

  /**
   * After `AddSurvey` on a consistent store, the new survey's option list is
   * exactly the stripped non-blank entries, in input order.
   */
  lemma AddSurveyOptionsExactly(st: Store, creatorId: int, title: string, description: string,
                                entries: seq<string>, sanitize: string -> string, now: Timestamp)
    requires Valid(st)
    ensures var r := AddSurvey(st, creatorId, title, description, entries, sanitize, now);
      var kept := NonBlank(entries);
      var opts := OptionsOf(r.options, r.surveys[|st.surveys|].id);
      && |opts| == |kept|
      && forall k :: 0 <= k < |kept| ==> opts[k].text == sanitize(Strip(kept[k]))
  {
    var r := AddSurvey(st, creatorId, title, description, entries, sanitize, now);
    var sid := r.surveys[|st.surveys|].id;
    var added := r.options[|st.options|..];
    assert r.options == st.options + added;
    forall o | o in st.options ensures o.surveyId != sid {
      assert HasSurvey(st, o.surveyId);
    }
    OptionsOfNone(st.options, sid);
    OptionsOfAppend(st.options, added, sid);
    OptionsOfAll(added, sid);
  }

  lemma OptionsOfAll(options: seq<SurveyOption>, surveyId: int)
    requires forall k :: 0 <= k < |options| ==> options[k].surveyId == surveyId
    ensures OptionsOf(options, surveyId) == options
  {
    KeepAll(options, OptionOfSurvey(surveyId));
  }

  /** Adding a survey by an existing user, with options of that survey only, leaves no dangling reference. */
  lemma AddingSurveyKeepsReferences(st: Store, r: Store, s: Survey, added: seq<SurveyOption>)
    requires Valid(st) && HasUser(st, s.creatorId)
    requires r.users == st.users && r.feedbacks == st.feedbacks
    requires r.surveys == st.surveys + [s] && r.options == st.options + added
    requires forall o :: o in added ==> o.surveyId == s.id
    ensures forall t :: t in r.surveys ==> HasUser(r, t.creatorId)
    ensures forall o :: o in r.options ==> HasSurvey(r, o.surveyId)
    ensures forall f :: f in r.feedbacks ==> FeedbackSound(r, f)
  {
    assert s in r.surveys;
    forall t | t in r.surveys ensures HasUser(r, t.creatorId) {
      if t != s {
        assert t in st.surveys;
      }
    }
    forall o | o in r.options ensures HasSurvey(r, o.surveyId) {
      if o in st.options {
        var t :| t in st.surveys && t.id == o.surveyId;
        assert t in r.surveys;
      }
    }
    forall f | f in r.feedbacks ensures FeedbackSound(r, f) {
      assert FeedbackSound(st, f);
      var t :| t in st.surveys && t.id == f.surveyId;
      assert t in r.surveys;
      var o :| o in st.options && o.id == f.optionId && o.surveyId == f.surveyId;
      assert o in r.options;
    }
  }

  /** A store grown by one new survey of an existing user and its freshly numbered options stays consistent. */
  lemma AddingSurveyKeepsValid(st: Store, s: Survey, added: seq<SurveyOption>, firstId: int)
    requires Valid(st) && HasUser(st, s.creatorId) && !HasSurvey(st, s.id)
    requires forall p :: p in st.options ==> p.id < firstId
    requires forall k :: 0 <= k < |added| ==> added[k].id == firstId + k && added[k].surveyId == s.id
    ensures Valid(Store(st.users, st.surveys + [s], st.options + added, st.feedbacks))
  {
    var r := Store(st.users, st.surveys + [s], st.options + added, st.feedbacks);
    forall o | o in added ensures o.surveyId == s.id {
      var k :| 0 <= k < |added| && added[k] == o;
    }
    AddingSurveyKeepsReferences(st, r, s, added);
    AppendSurveyKeepsIdsUnique(st.surveys, s);
    AppendOptionsKeepsIdsUnique(st.options, added, firstId);
  }

  lemma AddSurveyPreservesValid(st: Store, creatorId: int, title: string, description: string,
                                entries: seq<string>, sanitize: string -> string, now: Timestamp)
    requires Valid(st) && HasUser(st, creatorId)
    ensures Valid(AddSurvey(st, creatorId, title, description, entries, sanitize, now))
  {
    var s := Survey(NewSurveyId(st), sanitize(title), sanitize(description), creatorId, now, None);
    var firstId := FirstNewOptionId(st);
    var added := NewOptions(firstId, s.id, NonBlank(entries), sanitize);
    assert AddSurvey(st, creatorId, title, description, entries, sanitize, now)
        == Store(st.users, st.surveys + [s], st.options + added, st.feedbacks);
    AddingSurveyKeepsValid(st, s, added, firstId);
  }

  lemma CreateSurveyPreservesValid(st: Store, caller: Option<int>, title: string, description: string,
                                   submitted: seq<string>, sanitize: string -> string, now: Timestamp)
    requires Valid(st)
    requires CreateSurvey(st, caller, title, description, submitted, sanitize, now).Ok?
    ensures Valid(CreateSurvey(st, caller, title, description, submitted, sanitize, now).value)
  {
    var u := FindUser(st.users, caller.value).value;
    assert HasUser(st, caller.value);
    AddSurveyPreservesValid(st, caller.value, title, description, ReadEntries(submitted), sanitize, now);
  }

  // ------------------------------------------------------------ survey (POST)

  const MaxEmailLength := 100
  const MaxCommentLength := 500

  /**
   * The validators of `SurveySubmissionForm` other than the choice check:
   * an option was chosen (`DataRequired` refuses the integer 0), the e-mail
   * is optional (blank skips its checks) and at most 100 characters, the
   * comment at most 500.
   */
  predicate SubmitFormValid(optionId: int, email: string, comment: string) {
    && optionId != 0
    && (Strip(email) == "" || |email| <= MaxEmailLength)
    && |comment| <= MaxCommentLength
  }

  /** `survey` (POST): append one feedback for an option of this survey. */
  function Submit(st: Store, surveyId: int, optionId: int, email: string, comment: string,
                  sanitize: string -> string, now: Timestamp): (r: Result<Store, Error>)
    ensures !HasSurvey(st, surveyId) ==> r == Err(NotFound)
    ensures !OptionBelongs(st, optionId, surveyId) ==> r.Err?
    ensures r.Ok? ==> SubmitFormValid(optionId, email, comment)
    ensures r.Ok? ==>
      && r.value.users == st.users && r.value.surveys == st.surveys && r.value.options == st.options
      && |r.value.feedbacks| == |st.feedbacks| + 1
      && r.value.feedbacks[..|st.feedbacks|] == st.feedbacks
      && var f := r.value.feedbacks[|st.feedbacks|];
         && f.surveyId == surveyId && f.optionId == optionId
         && (f.userEmail.None? <==> email == "")
         && (email != "" ==> f.userEmail == Some(sanitize(email)))
         && f.comment == Some(sanitize(comment))
         && forall g :: g in st.feedbacks ==> g.id != f.id
  {
    if FindSurvey(st.surveys, surveyId).None? then Err(NotFound)
    else if !SubmitFormValid(optionId, email, comment) then Err(InvalidForm)
    else
      var option := FindOption(st.options, optionId);
      if option.None? || option.value.surveyId != surveyId then
        Err(InvalidOption)
      else
        var f := Feedback(NextId(FeedbackIds(st.feedbacks)), surveyId, optionId,
                          if email != "" then Some(sanitize(email)) else None,
                          Some(sanitize(comment)), now);
        assert forall g :: g in st.feedbacks ==> g.id != f.id by {
          forall g | g in st.feedbacks ensures g.id != f.id {
            var i :| 0 <= i < |st.feedbacks| && st.feedbacks[i] == g;
            assert FeedbackIds(st.feedbacks)[i] == g.id;
          }
        }
        assert (st.feedbacks + [f])[..|st.feedbacks|] == st.feedbacks;
        Ok(st.(feedbacks := st.feedbacks + [f]))
  }

  /**
   * The answer form refuses the option value 0 (`DataRequired` on the
   * coerced integer), a comment over 500 characters, and a non-blank e-mail
   * over 100 characters.
   */
  lemma SubmitRefusals(st: Store, surveyId: int, optionId: int, email: string, comment: string,
                       sanitize: string -> string, now: Timestamp)
    ensures var r := Submit(st, surveyId, optionId, email, comment, sanitize, now);
      && (optionId == 0 ==> r.Err?)
      && (|comment| > MaxCommentLength ==> r.Err?)
      && (Strip(email) != "" && |email| > MaxEmailLength ==> r.Err?)
  {
  }

  /**
   * An accepted answer is listed last among its survey's feedbacks, and the
   * feedback lists of other surveys do not change.
   */
  lemma SubmitAppendsFeedback(st: Store, surveyId: int, optionId: int, email: string, comment: string,
                              sanitize: string -> string, now: Timestamp, other: int)
    requires Submit(st, surveyId, optionId, email, comment, sanitize, now).Ok?
    ensures var r := Submit(st, surveyId, optionId, email, comment, sanitize, now).value;
      var f := r.feedbacks[|st.feedbacks|];
      && FeedbacksOf(r.feedbacks, surveyId) == FeedbacksOf(st.feedbacks, surveyId) + [f]
      && (other != surveyId ==> FeedbacksOf(r.feedbacks, other) == FeedbacksOf(st.feedbacks, other))
  {
    var r := Submit(st, surveyId, optionId, email, comment, sanitize, now).value;
    var f := r.feedbacks[|st.feedbacks|];
    assert r.feedbacks == st.feedbacks + [f];
    AppendOneFeedback(st.feedbacks, f, other);
  }

  /** One feedback appended joins the end of its own survey's list and no other. */
  lemma AppendOneFeedback(feedbacks: seq<Feedback>, f: Feedback, other: int)
    ensures FeedbacksOf(feedbacks + [f], f.surveyId) == FeedbacksOf(feedbacks, f.surveyId) + [f]
    ensures other != f.surveyId ==> FeedbacksOf(feedbacks + [f], other) == FeedbacksOf(feedbacks, other)
  {
    FeedbacksOfAppend(feedbacks, [f], f.surveyId);
    FeedbacksOfAppend(feedbacks, [f], other);
    assert FeedbacksOf([f], f.surveyId) == [f];
    if other != f.surveyId {
      assert FeedbacksOf([f], other) == [];
      assert feedbacks + [] == feedbacks;
    }
  }

  /**
   * An option of another survey is refused, whatever its id, even though it
   * exists: a consistent store has one row per option id.
   */
  lemma SubmitRejectsForeignOption(st: Store, surveyId: int, o: SurveyOption, email: string,
                                   comment: string, sanitize: string -> string, now: Timestamp)
    requires Valid(st) && o in st.options && o.surveyId != surveyId
    ensures Submit(st, surveyId, o.id, email, comment, sanitize, now).Err?
  {
  }

  /** On a consistent store every valid answer with an option of this survey is accepted. */
  lemma SubmitAcceptsOwnOption(st: Store, surveyId: int, o: SurveyOption, email: string,
                               comment: string, sanitize: string -> string, now: Timestamp)
    requires Valid(st) && o in st.options && o.surveyId == surveyId
    requires SubmitFormValid(o.id, email, comment)
    ensures Submit(st, surveyId, o.id, email, comment, sanitize, now).Ok?
  {
    assert HasSurvey(st, o.surveyId);
    FindOptionUnique(st.options, o);
  }

  /** Submit keeps the store consistent: the new feedback's option belongs to its survey. */
  lemma SubmitPreservesValid(st: Store, surveyId: int, optionId: int, email: string,
                             comment: string, sanitize: string -> string, now: Timestamp)
    requires Valid(st)
    requires Submit(st, surveyId, optionId, email, comment, sanitize, now).Ok?
    ensures Valid(Submit(st, surveyId, optionId, email, comment, sanitize, now).value)
  {
    var r := Submit(st, surveyId, optionId, email, comment, sanitize, now).value;
    var f := r.feedbacks[|st.feedbacks|];
    assert r.feedbacks == st.feedbacks + [f];
    forall g | g in r.feedbacks ensures FeedbackSound(r, g) {
      if g != f {
        assert FeedbackSound(st, g);
      }
    }
    forall i, j | 0 <= i < j < |r.feedbacks| ensures r.feedbacks[i].id != r.feedbacks[j].id {
      if j == |st.feedbacks| {
        assert r.feedbacks[i] in st.feedbacks;
      }
    }
  }
}
