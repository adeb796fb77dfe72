/**
 * The reading routes of `app.py`: `survey_results` (per-option count,
 * percentage and comments) and `export_survey_results` (one row per
 * feedback). Both are open to the survey's creator only.
 */
module SurveyResults {
  import opened Common
  import opened Text
  import opened SurveyStore

  // ------------------------------------------------------------ aggregation

  /** `len([f for f in feedbacks if f.option_id == optionId])`. */
  function CountFor(feedbacks: seq<Feedback>, optionId: int): (n: nat)
    ensures n <= |feedbacks|
  {
    if feedbacks == [] then 0
    else (if feedbacks[0].optionId == optionId then 1 else 0) + CountFor(feedbacks[1..], optionId)
  }

  /** The option ids the feedbacks chose, in order. */
  function ChosenIds(feedbacks: seq<Feedback>): (r: seq<int>)
    ensures |r| == |feedbacks| && forall k :: 0 <= k < |r| ==> r[k] == feedbacks[k].optionId
  {
    seq(|feedbacks|, k requires 0 <= k < |feedbacks| => feedbacks[k].optionId)
  }

  /** A count is the multiplicity of the option id among the chosen ids. */
  lemma {:induction false} CountIsMultiplicity(feedbacks: seq<Feedback>, optionId: int)
    ensures CountFor(feedbacks, optionId) == multiset(ChosenIds(feedbacks))[optionId]
  {
    if feedbacks != [] {
      CountIsMultiplicity(feedbacks[1..], optionId);
      assert ChosenIds(feedbacks) == [feedbacks[0].optionId] + ChosenIds(feedbacks[1..]);
    }
  }

  /** `[f.comment for f in option_feedbacks if f.comment]`. */
  function CommentsFor(feedbacks: seq<Feedback>, optionId: int): (r: seq<string>)
    ensures forall k :: 0 <= k < |r| ==> r[k] != ""
    ensures |r| <= CountFor(feedbacks, optionId)
  {
    if feedbacks == [] then []
    else
      var f := feedbacks[0];
      (if f.optionId == optionId && f.comment.Some? && f.comment.value != "" then [f.comment.value] else [])
      + CommentsFor(feedbacks[1..], optionId)
  }

  /** A comment is listed exactly when some feedback on the option carries it. */
  lemma {:induction false} CommentsMembership(feedbacks: seq<Feedback>, optionId: int, c: string)
    ensures c in CommentsFor(feedbacks, optionId) <==>
      c != "" && exists f :: f in feedbacks && f.optionId == optionId && f.comment == Some(c)
  {
    if feedbacks != [] {
      CommentsMembership(feedbacks[1..], optionId, c);
      if c != "" && feedbacks[0].optionId == optionId && feedbacks[0].comment == Some(c) {
        assert c in CommentsFor(feedbacks, optionId);
      }
      forall f | f in feedbacks[1..] ensures f in feedbacks { }
      forall f | f in feedbacks && f != feedbacks[0] ensures f in feedbacks[1..] {
        var i :| 0 <= i < |feedbacks| && feedbacks[i] == f;
        assert feedbacks[1..][i - 1] == f;
      }
    }
  }

  /** Comments keep feedback order: those of earlier feedbacks come first. */
  lemma {:induction false} CommentsForAppend(a: seq<Feedback>, b: seq<Feedback>, optionId: int)
    ensures CommentsFor(a + b, optionId) == CommentsFor(a, optionId) + CommentsFor(b, optionId)
  {
    if a == [] {
      assert a + b == b;
    } else {
      var ab := a + b;
      assert ab[0] == a[0] && ab[1..] == a[1..] + b;
      CommentsForAppend(a[1..], b, optionId);
    }
  }

  /**
   * `count / total_responses * 100`, or 0 when there are no responses; an
   * exact value, before `round(..., 1)`.
   */
  function Percentage(count: nat, total: nat): (p: real)
    ensures total == 0 ==> p == 0.0
    ensures total > 0 ==> p * (total as real) == (count as real) * 100.0
    ensures count <= total ==> 0.0 <= p <= 100.0
  {
    if total > 0 then (count as real) / (total as real) * 100.0 else 0.0
  }

  datatype OptionResult = OptionResult(
    optionId: int,
    text: string,
    count: nat,
    percentage: real,
    comments: seq<string>)

  /** `results[option.id]` for one option, among `feedbacks`. */
  function ResultFor(option: SurveyOption, feedbacks: seq<Feedback>): OptionResult {
    var count := CountFor(feedbacks, option.id);
    OptionResult(option.id, option.text, count, Percentage(count, |feedbacks|),
                 CommentsFor(feedbacks, option.id))
  }

  /**
   * `res` is what the results page shows for `option` among `feedbacks`: the
   * option's id and text, how many feedbacks chose it, that count as a share
   * of all of them, and the non-empty comments left with it, as a list in
   * feedback order with repeats kept (`CommentsForAppend`, `CommentsMembership`).
   */
  ghost predicate Summarises(res: OptionResult, option: SurveyOption, feedbacks: seq<Feedback>) {
    && res.optionId == option.id && res.text == option.text
    && res.count == multiset(ChosenIds(feedbacks))[option.id]
    && res.count <= |feedbacks|
    && res.percentage == Percentage(res.count, |feedbacks|)
    && res.comments == CommentsFor(feedbacks, option.id)
    && |res.comments| <= res.count
    && forall c :: c in res.comments <==>
         c != "" && exists f :: f in feedbacks && f.optionId == option.id && f.comment == Some(c)
  }

  lemma ResultForSummarises(option: SurveyOption, feedbacks: seq<Feedback>)
    ensures Summarises(ResultFor(option, feedbacks), option, feedbacks)
  {
    CountIsMultiplicity(feedbacks, option.id);
    forall c {
      CommentsMembership(feedbacks, option.id, c);
    }
  }

  /**
   * Comments are a list, not a set: two feedbacks on an option commenting
   * "a" then "b" are summarised as ["a", "b"], and two both commenting "a"
   * as ["a", "a"].
   */
  lemma SummarisedCommentsKeepOrderAndRepeats(res: OptionResult, option: SurveyOption, t: Timestamp)
    ensures var fa := Feedback(1, option.surveyId, option.id, None, Some("a"), t);
      var fb := Feedback(2, option.surveyId, option.id, None, Some("b"), t);
      && (Summarises(res, option, [fa, fb]) ==> res.comments == ["a", "b"])
      && (Summarises(res, option, [fa, fa]) ==> res.comments == ["a", "a"])
  {
    var fa := Feedback(1, option.surveyId, option.id, None, Some("a"), t);
    var fb := Feedback(2, option.surveyId, option.id, None, Some("b"), t);
    assert [fa, fb][1..] == [fb];
    assert [fa, fa][1..] == [fa];
    assert CommentsFor([fa, fb], option.id) == ["a", "b"];
    assert CommentsFor([fa, fa], option.id) == ["a", "a"];
  }

  /** The `results` mapping, in the survey's option order. */
  function Aggregate(options: seq<SurveyOption>, feedbacks: seq<Feedback>): (r: seq<OptionResult>)
    ensures |r| == |options|
    ensures forall k :: 0 <= k < |r| ==> Summarises(r[k], options[k], feedbacks)
  {
    if options == [] then []
    else
      ResultForSummarises(options[0], feedbacks);
      [ResultFor(options[0], feedbacks)] + Aggregate(options[1..], feedbacks)
  }

  function SumCounts(rs: seq<OptionResult>): nat {
    if rs == [] then 0 else rs[0].count + SumCounts(rs[1..])
  }

  function SumPercentages(rs: seq<OptionResult>): real {
    if rs == [] then 0.0 else rs[0].percentage + SumPercentages(rs[1..])
  }

  /** How many of `options` carry this id. */
  function Hits(options: seq<SurveyOption>, id: int): nat {
    if options == [] then 0 else (if options[0].id == id then 1 else 0) + Hits(options[1..], id)
  }

  lemma {:induction false} HitsOfUnique(options: seq<SurveyOption>, id: int)
    requires UniqueOptionIds(options)
    ensures Hits(options, id) == (if exists o :: o in options && o.id == id then 1 else 0)
  {
    if options != [] {
      HitsOfUnique(options[1..], id);
      if options[0].id == id {
        forall o | o in options[1..] ensures o.id != id {
          var j :| 0 <= j < |options[1..]| && options[1..][j] == o;
          assert options[j + 1] == o;
        }
      }
      forall o | o in options && o != options[0] ensures o in options[1..] {
        var i :| 0 <= i < |options| && options[i] == o;
        assert options[1..][i - 1] == o;
      }
    }
  }

  /** Adding one feedback in front raises the summed count by the options it hits. */
  lemma {:induction false} SumCountsCons(options: seq<SurveyOption>, feedbacks: seq<Feedback>)
    requires feedbacks != []
    ensures SumCounts(Aggregate(options, feedbacks))
      == Hits(options, feedbacks[0].optionId) + SumCounts(Aggregate(options, feedbacks[1..]))
  {
    if options != [] {
      SumCountsCons(options[1..], feedbacks);
    }
  }

  /**
   * When every feedback chose one of the options and option ids are unique,
   * the per-option counts add up to the number of feedbacks.
   */
  lemma {:induction false} CountsSumToTotal(options: seq<SurveyOption>, feedbacks: seq<Feedback>)
    requires UniqueOptionIds(options)
    requires forall f :: f in feedbacks ==> exists o :: o in options && o.id == f.optionId
    ensures SumCounts(Aggregate(options, feedbacks)) == |feedbacks|
  {
    if feedbacks == [] {
      ZeroCounts(options, feedbacks);
    } else {
      assert feedbacks[0] in feedbacks;
      HitsOfUnique(options, feedbacks[0].optionId);
      SumCountsCons(options, feedbacks);
      forall f | f in feedbacks[1..] ensures exists o :: o in options && o.id == f.optionId {
        assert f in feedbacks;
      }
      CountsSumToTotal(options, feedbacks[1..]);
    }
  }

  lemma {:induction false} ZeroCounts(options: seq<SurveyOption>, feedbacks: seq<Feedback>)
    requires feedbacks == []
    ensures SumCounts(Aggregate(options, feedbacks)) == 0
  {
    if options != [] {
      ZeroCounts(options[1..], feedbacks);
    }
  }

  /** With no responses every option shows count 0, percentage 0 and no comments. */
  lemma NoResponsesAllZero(options: seq<SurveyOption>)
    ensures forall k :: 0 <= k < |options| ==>
      var r := Aggregate(options, [])[k];
      r.optionId == options[k].id && r.count == 0 && r.percentage == 0.0 && r.comments == []
  {
  }

  lemma PercentageAdds(a: nat, b: nat, total: nat)
    requires total > 0
    ensures Percentage(a, total) + Percentage(b, total) == Percentage(a + b, total)
  {
    var t := total as real;
    assert (a as real) / t + (b as real) / t == ((a + b) as real) / t;
  }

  lemma {:induction false} SumPercentagesIsPercentageOfSum(options: seq<SurveyOption>, feedbacks: seq<Feedback>)
    requires |feedbacks| > 0
    ensures SumPercentages(Aggregate(options, feedbacks))
      == Percentage(SumCounts(Aggregate(options, feedbacks)), |feedbacks|)
  {
    var rs := Aggregate(options, feedbacks);
    if options == [] {
    } else {
      SumPercentagesIsPercentageOfSum(options[1..], feedbacks);
      assert rs[1..] == Aggregate(options[1..], feedbacks);
      PercentageAdds(rs[0].count, SumCounts(rs[1..]), |feedbacks|);
    }
  }

  /** With at least one response, the exact percentages add up to 100. */
  lemma PercentagesSumToHundred(options: seq<SurveyOption>, feedbacks: seq<Feedback>)
    requires UniqueOptionIds(options) && |feedbacks| > 0
    requires forall f :: f in feedbacks ==> exists o :: o in options && o.id == f.optionId
    ensures SumPercentages(Aggregate(options, feedbacks)) == 100.0
  {
    CountsSumToTotal(options, feedbacks);
    SumPercentagesIsPercentageOfSum(options, feedbacks);
    PercentageOfWhole(|feedbacks|);
  }

  lemma PercentageOfWhole(total: nat)
    requires total > 0
    ensures Percentage(total, total) == 100.0
  {
    var t := total as real;
    assert t / t == 1.0;
  }

  // ------------------------------------------------------ owner-only access

  /** The checks both reading routes make, in order: login, `get_or_404`, creator. */
  function OwnedSurvey(st: Store, caller: Option<int>, surveyId: int): (r: Result<Survey, Error>)
    ensures r.Ok? ==> r.value in st.surveys && r.value.id == surveyId
    ensures r.Ok? <==> Authenticated(st, caller) && FindSurvey(st.surveys, surveyId).Some?
                       && FindSurvey(st.surveys, surveyId).value.creatorId == caller.value
    ensures !Authenticated(st, caller) ==> r == Err(LoginRequired)
    ensures Authenticated(st, caller) && !HasSurvey(st, surveyId) ==> r == Err(NotFound)
  {
    if !Authenticated(st, caller) then Err(LoginRequired)
    else
      match FindSurvey(st.surveys, surveyId)
      case None => Err(NotFound)
      case Some(s) => if s.creatorId != caller.value then Err(Forbidden) else Ok(s)
  }

  /** On a consistent store, only the creator of an existing survey gets past the checks. */
  lemma OwnedSurveyIffCreator(st: Store, caller: Option<int>, s: Survey)
    requires Valid(st) && s in st.surveys
    ensures OwnedSurvey(st, caller, s.id).Ok? <==> Authenticated(st, caller) && caller == Some(s.creatorId)
    ensures Authenticated(st, caller) && caller != Some(s.creatorId) ==> OwnedSurvey(st, caller, s.id) == Err(Forbidden)
  {
    FindSurveyUnique(st.surveys, s);
  }

  lemma {:induction false} FindSurveyUnique(surveys: seq<Survey>, s: Survey)
    requires UniqueSurveyIds(surveys) && s in surveys
    ensures FindSurvey(surveys, s.id) == Some(s)
  {
    if surveys[0] != s {
      assert s in surveys[1..];
      FindSurveyUnique(surveys[1..], s);
    }
  }

  datatype ResultsView = ResultsView(total: nat, results: seq<OptionResult>)

  /** `survey_results`. */
  function Results(st: Store, caller: Option<int>, surveyId: int): (r: Result<ResultsView, Error>)
    ensures r.Ok? <==> OwnedSurvey(st, caller, surveyId).Ok?
    ensures r.Err? ==> r.error == OwnedSurvey(st, caller, surveyId).error
    ensures r.Ok? ==>
      var options := OptionsOf(st.options, surveyId);
      var fbs := FeedbacksOf(st.feedbacks, surveyId);
      && r.value.total == |fbs|
      && |r.value.results| == |options|
      && forall k :: 0 <= k < |options| ==> Summarises(r.value.results[k], options[k], fbs)
  {
    match OwnedSurvey(st, caller, surveyId)
    case Err(e) => Err(e)
    case Ok(s) =>
      var fbs := FeedbacksOf(st.feedbacks, surveyId);
      Ok(ResultsView(|fbs|, Aggregate(OptionsOf(st.options, s.id), fbs)))
  }

  /**
   * On a consistent store the counts of a survey's results add up to its
   * number of responses, and when there is one the percentages add up to 100:
   * every feedback's option belongs to the feedback's survey.
   */
  lemma ResultsAddUp(st: Store, caller: Option<int>, surveyId: int)
    requires Valid(st) && Results(st, caller, surveyId).Ok?
    ensures var v := Results(st, caller, surveyId).value;
      && SumCounts(v.results) == v.total
      && (v.total > 0 ==> SumPercentages(v.results) == 100.0)
  {
    var s := OwnedSurvey(st, caller, surveyId).value;
    var options := OptionsOf(st.options, s.id);
    var fbs := FeedbacksOf(st.feedbacks, surveyId);
    UniqueOptionsOf(st.options, s.id);
    forall f | f in fbs ensures exists o :: o in options && o.id == f.optionId {
      assert FeedbackSound(st, f);
      var o :| o in st.options && o.id == f.optionId && o.surveyId == f.surveyId;
      assert o in options;
    }
    CountsSumToTotal(options, fbs);
    if |fbs| > 0 {
      PercentagesSumToHundred(options, fbs);
    }
  }

  lemma {:induction false} UniqueOptionsOf(options: seq<SurveyOption>, surveyId: int)
    requires UniqueOptionIds(options)
    ensures UniqueOptionIds(OptionsOf(options, surveyId))
  {
    if options != [] {
      UniqueOptionsOf(options[1..], surveyId);
      if options[0].surveyId == surveyId {
        var rest := OptionsOf(options[1..], surveyId);
        forall o | o in rest ensures o.id != options[0].id {
          var m :| 0 <= m < |options[1..]| && options[1..][m] == o;
          assert options[m + 1] == o;
        }
        PrependKeepsIdsUnique(options[0], rest);
      }
    }
  }

  /** A row whose id no later row has keeps the ids unique when put in front. */
  lemma PrependKeepsIdsUnique(first: SurveyOption, rest: seq<SurveyOption>)
    requires UniqueOptionIds(rest)
    requires forall o :: o in rest ==> o.id != first.id
    ensures UniqueOptionIds([first] + rest)
  {
    var r := [first] + rest;
    forall i, j | 0 <= i < j < |r| ensures r[i].id != r[j].id {
      assert r[j] == rest[j - 1];
      if i > 0 {
        assert r[i] == rest[i - 1];
      }
    }
  }

  // ------------------------------------------------------------------ export

  /** `request.args.get('include_email', 'false').lower() == 'true'`. */
  function IncludeEmail(arg: Option<string>): bool {
    Lower(arg.GetOr("false")) == "true"
  }

  /** The flag is set exactly by the word "true" in any mix of upper and lower case. */
  lemma IncludeEmailIff(arg: Option<string>)
    ensures IncludeEmail(arg) <==>
      arg.Some? && |arg.value| == 4 && forall k :: 0 <= k < 4 ==> arg.value[k] == "true"[k] || arg.value[k] == "TRUE"[k]
  {
    var v := arg.GetOr("false");
    if arg.Some? && |v| == 4 && forall k :: 0 <= k < 4 ==> v[k] == "true"[k] || v[k] == "TRUE"[k] {
      assert Lower(v) == "true";
    }
    if IncludeEmail(arg) {
      assert Lower(v)[0] == 't';
      assert arg.Some?;
      forall k | 0 <= k < 4 ensures v[k] == "true"[k] || v[k] == "TRUE"[k] {
        assert LowerChar(v[k]) == "true"[k];
      }
    }
  }

  function Header(includeEmail: bool): (h: seq<string>)
    ensures "Email" in h <==> includeEmail
  {
    if includeEmail then ["Timestamp", "Selected Option", "Email", "Comment"]
    else ["Timestamp", "Selected Option", "Comment"]
  }

  /** One CSV row for feedback `f`: a missing e-mail or comment is written as "". */
  function ExportRow(options: seq<SurveyOption>, f: Feedback, includeEmail: bool,
                     format: Timestamp -> string): (row: seq<string>)
    requires FindOption(options, f.optionId).Some?
    ensures |row| == |Header(includeEmail)|
  {
    var head := [format(f.createdAt), FindOption(options, f.optionId).value.text];
    if includeEmail then head + [f.userEmail.GetOr(""), f.comment.GetOr("")]
    else head + [f.comment.GetOr("")]
  }

  datatype Table = Table(header: seq<string>, rows: seq<seq<string>>)

  function ExportRows(options: seq<SurveyOption>, fbs: seq<Feedback>, includeEmail: bool,
                      format: Timestamp -> string): (rows: seq<seq<string>>)
    requires forall f :: f in fbs ==> FindOption(options, f.optionId).Some?
  {
    seq(|fbs|, k requires 0 <= k < |fbs| => ExportRow(options, fbs[k], includeEmail, format))
  }

  /** Every feedback of a survey in a consistent store names an existing option. */
  lemma SurveyFeedbacksHaveOptions(st: Store, surveyId: int)
    requires Valid(st)
    ensures forall f :: f in FeedbacksOf(st.feedbacks, surveyId) ==> FindOption(st.options, f.optionId).Some?
  {
    forall f | f in FeedbacksOf(st.feedbacks, surveyId) ensures FindOption(st.options, f.optionId).Some? {
      FeedbackOptionResolves(st, f);
    }
  }

  /** `export_survey_results`: the CSV header and one row per feedback of the survey. */
  function Export(st: Store, caller: Option<int>, surveyId: int, includeEmailArg: Option<string>,
                  format: Timestamp -> string): (r: Result<Table, Error>)
    requires Valid(st)
    ensures r.Ok? <==> OwnedSurvey(st, caller, surveyId).Ok?
    ensures r.Err? ==> r.error == OwnedSurvey(st, caller, surveyId).error
    ensures r.Ok? ==>
      && r.value.header == Header(IncludeEmail(includeEmailArg))
      && |r.value.rows| == |FeedbacksOf(st.feedbacks, surveyId)|
      && forall k :: 0 <= k < |r.value.rows| ==> |r.value.rows[k]| == |r.value.header|
  {
    match OwnedSurvey(st, caller, surveyId)
    case Err(e) => Err(e)
    case Ok(_) =>
      var includeEmail := IncludeEmail(includeEmailArg);
      var fbs := FeedbacksOf(st.feedbacks, surveyId);
      SurveyFeedbacksHaveOptions(st, surveyId);
      Ok(Table(Header(includeEmail), ExportRows(st.options, fbs, includeEmail, format)))
  }

  /** The field under column `name`, read back through the header. */
  function Column(header: seq<string>, row: seq<string>, name: string): Option<string> {
    if header == [] || row == [] then None
    else if header[0] == name then Some(row[0])
    else Column(header[1..], row[1..], name)
  }

  lemma {:induction false} ColumnAt(header: seq<string>, row: seq<string>, name: string, i: nat)
    requires i < |header| && i < |row| && header[i] == name && name !in header[..i]
    ensures Column(header, row, name) == Some(row[i])
  {
    if i > 0 {
      assert header[0] in header[..i];
      assert header[1..][..i - 1] == header[..i][1..];
      ColumnAt(header[1..], row[1..], name, i - 1);
    }
  }

  lemma {:induction false} ColumnAbsent(header: seq<string>, row: seq<string>, name: string)
    requires name !in header
    ensures Column(header, row, name) == None
  {
    if header != [] && row != [] {
      ColumnAbsent(header[1..], row[1..], name);
    }
  }

  /** One exported row, read back through its header. */
  lemma RowReadsBack(options: seq<SurveyOption>, f: Feedback, includeEmail: bool, format: Timestamp -> string)
    requires FindOption(options, f.optionId).Some?
    ensures var h := Header(includeEmail);
      var row := ExportRow(options, f, includeEmail, format);
      && Column(h, row, "Timestamp") == Some(format(f.createdAt))
      && Column(h, row, "Selected Option") == Some(FindOption(options, f.optionId).value.text)
      && Column(h, row, "Comment") == Some(f.comment.GetOr(""))
      && Column(h, row, "Email") == (if includeEmail then Some(f.userEmail.GetOr("")) else None)
  {
    var h := Header(includeEmail);
    var row := ExportRow(options, f, includeEmail, format);
    ColumnAt(h, row, "Timestamp", 0);
    ColumnAt(h, row, "Selected Option", 1);
    if includeEmail {
      ColumnAt(h, row, "Email", 2);
      ColumnAt(h, row, "Comment", 3);
    } else {
      ColumnAt(h, row, "Comment", 2);
      ColumnAbsent(h, row, "Email");
    }
  }

  /**
   * Reading an exported row back by column name recovers the feedback: its
   * timestamp, its option's text, its e-mail (a column present only when
   * requested) and its comment, with absent values read as "".
   */
  lemma ExportReadsBack(st: Store, caller: Option<int>, surveyId: int, includeEmailArg: Option<string>,
                        format: Timestamp -> string, k: nat)
    requires Valid(st)
    requires Export(st, caller, surveyId, includeEmailArg, format).Ok?
    requires k < |FeedbacksOf(st.feedbacks, surveyId)|
    ensures var t := Export(st, caller, surveyId, includeEmailArg, format).value;
      var f := FeedbacksOf(st.feedbacks, surveyId)[k];
      && f.surveyId == surveyId
      && Column(t.header, t.rows[k], "Timestamp") == Some(format(f.createdAt))
      && (exists o :: o in st.options && o.id == f.optionId && o.surveyId == surveyId
                      && Column(t.header, t.rows[k], "Selected Option") == Some(o.text))
      && Column(t.header, t.rows[k], "Comment") == Some(f.comment.GetOr(""))
      && Column(t.header, t.rows[k], "Email")
           == (if IncludeEmail(includeEmailArg) then Some(f.userEmail.GetOr("")) else None)
  {
    var fbs := FeedbacksOf(st.feedbacks, surveyId);
    var f := fbs[k];
    assert f in fbs;
    assert FeedbackSound(st, f);
    var p :| p in st.options && p.id == f.optionId && p.surveyId == f.surveyId;
    FindOptionUnique(st.options, p);
    RowReadsBack(st.options, f, IncludeEmail(includeEmailArg), format);
  }
}
