# Customer survey: a verified model

This project is a Dafny model of the customer survey application and the
small data tool bundled with it. It covers three parts.

- **The survey web application (`app.py`).** Users register and create
  surveys with a list of options. Respondents submit one feedback per visit,
  choosing an option and optionally giving an e-mail and a comment. A
  survey's creator views per-option counts, percentages and comments, and
  exports the feedback as a table. The database is modelled as a `Store`
  holding four sequences of records (users, surveys, options, feedbacks).
  Each writing route is a pure function from a store to a new store or to an
  error. The key invariant (`SurveyStore.Valid`) is that every feedback's
  option belongs to that feedback's survey. It also covers unique keys and
  references that point at existing rows.
- **The two stand-alone schema files** (`customer_survey.py`,
  `customer-survey.py`). Both install a listener that allows a survey only
  2 to 5 options after any option insert or delete. One predicate,
  `OptionWindow.InWindow`, holds that rule for both files. Their NOT NULL
  and UNIQUE column constraints and the user-to-survey cascade are modelled
  in `SchemaRules`.
- **The JSON-to-SQL generator** (`lab-data/process-json.py`). It turns
  product records into INSERT statements for the `vendors`, `products` and
  `track_details` tables, and lays them out after the three CREATE TABLE
  blocks. Text literals are quoted by the SQL rule of ISO/IEC 9075
  (`<character string literal>`): a quote inside the text is written twice.
  The generator applies that rule to the product, vendor and track names and
  to the composer. It quotes `sku` and `status` *without* doubling their
  quotes. The model reproduces this and proves what it costs
  (`SqlLiteral.RawLiteralReadsBackIff`).

Modules, one per file:

| file | module |
|---|---|
| `common.dfy` | `Common`: `Option`, `Result`, the order-keeping filter `Keep` |
| `text.dfy` | `Text`: Python's `strip()`, ASCII `lower()`, `join` and where joined parts land |
| `store.dfy` | `SurveyStore`: the four record types, the store, `Valid`, id assignment, lookups |
| `routes.dfy` | `SurveyRoutes`: `register`, `create_survey`, `survey` (POST) |
| `results.dfy` | `SurveyResults`: `survey_results`, `export_survey_results`, the owner check |
| `option_window.dfy` | `OptionWindow`: the 2–5 listener of both schema files |
| `schema_rules.dfy` | `SchemaRules`: NOT NULL, UNIQUE and cascade of the schema files |
| `sql_literal.dfy` | `SqlLiteral`: quote doubling, its inverse, and a literal reader |
| `sql_gen.dfy` | `SqlGen`: statement text, statement lists and the output document |

Outside inputs become parameters:

- the caller's identity: `caller: Option<int>`, a user id from the session;
- the password hash and `bleach.clean`: `hash` and `sanitize`;
- the clock: `now`;
- `strftime`: `format`;
- Python's `str()` of a float: `show`.

Notes on the code's behaviour:

- Option entries: the form accepts 2 to 10 entries, not 2 to 5. A blank
  entry fails the form's `DataRequired` check, so the whole request is
  refused; the entry is not silently dropped. The later strip filter
  therefore never removes anything from an accepted form
  (`SurveyRoutes.NonBlankKeepsAll`).
- Entries past the tenth are ignored, not refused (`SurveyRoutes.ReadEntries`).
- The 2–5 rule exists only in the two schema files. The application's own
  models do not install that listener.
- The password pattern is checked with `re.match`, whose `$` also matches
  just before one trailing newline. A strong password followed by one
  newline is accepted (`SurveyRoutes.TrailingNewlineAccepted`).
- Option lists (`survey.options`) and feedback lists (`filter_by(...).all()`)
  carry no ORDER BY. The model reads them in insertion (rowid) order, which
  is the order SQLite returns for these plain table scans.

## Model

| member | source | states |
|---|---|---|
| SurveyStore.NextId | app.py:91 | A new integer primary key is larger than every existing id. It is 1 for an empty table and otherwise one more than the largest existing id, negative ids included. |
| SurveyStore.OptionsOf | app.py:106 | A survey's options are exactly the option rows with its id, in insertion order. |
| SurveyStore.FeedbacksOf | app.py:316 | `filter_by(survey_id=...)` returns exactly the feedback rows with that survey id. |
| SurveyStore.OptionsOfAppend | app.py:264-267 | Options appended later are listed after the earlier ones. |
| SurveyStore.FindOptionUnique | app.py:288 | With unique option ids, looking up an option's id finds that very option. |
| SurveyStore.AppendOptionsKeepsIdsUnique | app.py:266-268 | Adding option rows numbered past every existing id keeps option ids unique. |
| SurveyStore.FeedbacksOfAppend | app.py:299-300 | Feedbacks appended later are listed after the earlier ones. |
| SurveyStore.EmptyValid | app.py:424 | The empty database the application creates is consistent. |
| SurveyStore.FeedbackOptionResolves | app.py:116-124 | On a consistent store, every feedback's option is found by its id and belongs to the feedback's survey. |
| SurveyRoutes.Register | app.py:201-209 | Registration succeeds iff the caller is signed out, the form is valid and no user has the e-mail. On success it adds exactly one user, with that e-mail, the hashed password and a fresh id, and changes nothing else. |
| SurveyRoutes.TrailingNewlineAccepted | app.py:146-152 | A password matching the pattern body is accepted with one trailing newline, but not with two or with a leading newline. |
| SurveyRoutes.PasswordExamples | app.py:148-152 | "Secret1!" is a strong password; "secret1!" (no capital) and "Sec1!" (too short) are not. |
| SurveyRoutes.WeakPasswordRefused | app.py:151 | A password with no digit, with no special character, or with a space never matches the pattern. |
| SurveyRoutes.RegisterRefusesWeakForm | app.py:146-155 | Registration fails for a blank e-mail, a repeat that differs from the password, and a password that is under eight characters, lacks a digit or a special character, or holds a space. |
| SurveyRoutes.RegisterDuplicateRejected | app.py:202-205 | Registering an e-mail that an existing user has always fails. |
| SurveyRoutes.RegisterPreservesValid | app.py:206-209 | A successful registration keeps the store consistent, including unique e-mails. |
| SurveyRoutes.AddingUserKeepsValid | app.py:206-209 | Adding a user with a fresh id and an unused e-mail keeps the store consistent. |
| SurveyRoutes.ReadEntries | app.py:160 | The option list reads the submitted entries in order, and at most the first ten. |
| SurveyRoutes.NonBlankSpec | app.py:264-265 | The strip filter keeps exactly the entries whose stripped text is non-empty, and keeps their order. |
| SurveyRoutes.NonBlankKeepsAll | app.py:160 | When every entry passed `DataRequired`, the strip filter keeps all of them. |
| SurveyRoutes.AddSurvey | app.py:258-267 | Adds one survey with a fresh id, created by the caller, with sanitized title and description. Its options are those of the non-blank entries. Users and feedbacks are unchanged. |
| SurveyRoutes.CreateSurvey | app.py:253-268 | Signed-out callers get LoginRequired. Otherwise creation succeeds iff the form guard holds (title 1–100, description at most 500, 2–10 non-blank entries of at most 200). On success the new store is exactly the caller's survey added with the entries read, and one option is stored per entry. |
| SurveyRoutes.CreateSurveyRefusals | app.py:157-161 | Creation fails for a blank or over-long title, a description over 500 characters, fewer than two entries, and a blank or over-200 entry among the first ten. |
| SurveyRoutes.CreateSurveyIgnoresExtraEntries | app.py:160 | With more than ten entries the outcome equals the outcome for the first ten. |
| SurveyRoutes.CreateSurveyStoresEntries | app.py:258-267 | A created survey belongs to the caller and carries the sanitized title. Its option list is exactly the entries read, stripped and sanitized, in input order. |
| SurveyRoutes.AddSurveyOptionsExactly | app.py:264-267 | The new survey's option list is exactly the stripped, sanitized non-blank entries, in input order. |
| SurveyRoutes.AddSurveyPreservesValid | app.py:258-268 | Adding a survey by an existing user keeps the store consistent. |
| SurveyRoutes.CreateSurveyPreservesValid | app.py:255-268 | A successful survey creation keeps the store consistent. |
| SurveyRoutes.Submit | app.py:287-300 | A missing survey is NotFound. An option that is missing or belongs to another survey is refused. On success exactly one feedback is appended, with the survey and option ids, no e-mail when the e-mail is empty, and a fresh id; nothing else changes. |
| SurveyRoutes.SubmitRefusals | app.py:163-167 | A submission fails for the option value 0, a comment over 500 characters, and a non-blank e-mail over 100 characters. |
| SurveyRoutes.SubmitAppendsFeedback | app.py:293-300 | An accepted answer is listed last among its survey's feedbacks, and every other survey's feedback list is unchanged. |
| SurveyRoutes.SubmitRejectsForeignOption | app.py:288-291 | An existing option of a different survey is always refused. |
| SurveyRoutes.SubmitAcceptsOwnOption | app.py:288-300 | On a consistent store, a valid answer naming one of the survey's own options is accepted. |
| SurveyRoutes.SubmitPreservesValid | app.py:293-300 | A successful submission keeps the store consistent: the new feedback's option belongs to its survey. |
| SurveyResults.CountIsMultiplicity | app.py:323-324 | An option's count is the number of times its id occurs among the feedbacks' chosen options. |
| SurveyResults.CommentsFor | app.py:331 | Listed comments are non-empty and no more numerous than the option's feedbacks. |
| SurveyResults.CommentsMembership | app.py:331 | A comment is listed iff it is non-empty and some feedback on that option carries it. |
| SurveyResults.CommentsForAppend | app.py:331 | Comments keep feedback order. |
| SurveyResults.Percentage | app.py:325 | The percentage is 0 with no responses, otherwise it times the total equals count times 100; it lies in 0..100 when count does not exceed total. |
| SurveyResults.Aggregate | app.py:322-332 | One result per option, in option order. Each has the option's id and text, and a count equal to the multiplicity of its id among the chosen options, at most the total. It has the percentage of that count. Its comments are the non-empty comments on that option as a list in feedback order with repeats kept (`CommentsFor`), no more of them than the count, and a comment is listed iff some feedback on the option carries it. |
| SurveyResults.SummarisedCommentsKeepOrderAndRepeats | app.py:331 | A summary lists an option's comments in feedback order and keeps a repeated comment: "a" then "b" gives ["a", "b"], and "a" twice gives ["a", "a"]. |
| SurveyResults.NoResponsesAllZero | app.py:320-325 | With no responses every option shows count 0, percentage 0 and no comments. |
| SurveyResults.CountsSumToTotal | app.py:320-324 | When every feedback chose one of the options, the counts add up to the number of feedbacks. |
| SurveyResults.PercentagesSumToHundred | app.py:320-325 | With at least one such response the exact percentages add up to 100. |
| SurveyResults.OwnedSurvey | app.py:306-313 | Access is granted iff the caller is signed in and created the existing survey. A signed-out caller gets LoginRequired and a missing survey NotFound. |
| SurveyResults.OwnedSurveyIffCreator | app.py:344-347 | On a consistent store, only the survey's creator passes; any other signed-in user is Forbidden. |
| SurveyResults.Results | app.py:306-338 | The results exist iff the owner check passes, and a refusal carries the owner check's error. The total is the survey's feedback count. Per option, in order, a result gives its text and its count (the multiplicity of its id, at most the total). It gives the percentage of the total, and the option's non-empty comments as a list in feedback order with repeats kept. |
| SurveyResults.ResultsAddUp | app.py:316-325 | On a consistent store the counts add up to the total, and with a response the percentages add up to 100. |
| SurveyResults.IncludeEmailIff | app.py:349 | E-mails are exported iff the query value is "true" in any mix of letter case. |
| SurveyResults.Header | app.py:357-361 | The header has an Email column iff e-mails are exported. |
| SurveyResults.ExportRow | app.py:366-373 | A row is exactly as wide as the header. |
| SurveyResults.SurveyFeedbacksHaveOptions | app.py:368 | On a consistent store every feedback of the survey names an existing option. |
| SurveyResults.Export | app.py:341-374 | The export exists iff the owner check passes. It has the header for the e-mail flag and one row per feedback of the survey, each as wide as the header. |
| SurveyResults.RowReadsBack | app.py:366-373 | Reading a row by column name gives the timestamp, the option text, the comment or "" and, only when exported, the e-mail or "". |
| SurveyResults.ExportReadsBack | app.py:365-374 | Each exported row reads back as its feedback: its timestamp, the text of its option (which belongs to the survey), its comment and its e-mail, with absent values as "". |
| Text.Strip | app.py:265 | Stripping gives the empty text iff the entry is all whitespace. |
| Text.StripSpec | app.py:266 | The stripped text is the part of the entry between its leading and trailing whitespace, with no whitespace at either end. |
| Text.Lower | app.py:349 | Lower-casing keeps the length and leaves no capital letter. Each capital becomes the same letter in lower case, and every other character is kept. |
| OptionWindow.CountFor | customer_survey.py:57-58 | The count is zero iff no row has the survey's id. |
| OptionWindow.InsertOption | customer_survey.py:53-60 | An insert commits iff the survey then has 2 to 5 option rows. Otherwise it is an IntegrityError and nothing is written. |
| OptionWindow.InsertBatch | customer-survey.py:55-62 | A flush of several rows commits iff, for every row of the batch, the survey's stored count plus the batch's rows for it lies in 2..5. A commit appends the batch; a refusal is an IntegrityError. |
| OptionWindow.DeleteOption | customer_survey.py:54-60 | Deleting an unknown id is NoSuchRow, and only an unknown id is. With unique ids, a delete commits iff the row's survey count minus one lies in 2..5, and a commit removes exactly that one row. |
| OptionWindow.DeleteCommitsIff | customer-survey.py:56-62 | With unique ids, a delete commits iff the survey's count minus one lies in 2..5. |
| OptionWindow.RemoveCount | customer-survey.py:58-59 | Deleting a row lowers only its own survey's count, by one. |
| OptionWindow.RemoveLength | customer-survey.py:58-59 | With unique ids, deleting a present row shortens the table by exactly one row. |
| OptionWindow.FirstOptionAloneRejected | customer_survey.py:59-60 | Inserting a survey's first option on its own always fails. |
| OptionWindow.BatchOfNewSurveyAccepted | customer_survey.py:53-60 | A new survey's 2 to 5 options flushed together are accepted. |
| OptionWindow.OtherSurveysIgnored | customer_survey.py:56-59 | Rows of other surveys, wherever they are, never change whether an insert commits. |
| OptionWindow.InsertKeepsWindow | customer_survey.py:53-60 | A committed insert keeps every survey's count in 2..5. |
| OptionWindow.InsertBatchKeepsWindow | customer-survey.py:55-62 | A committed flush keeps every survey's count in 2..5. |
| OptionWindow.DeleteKeepsWindow | customer-survey.py:56-62 | A committed delete keeps every survey's count in 2..5. |
| SchemaRules.InsertUser | customer_survey.py:13-14 | A user row is stored iff its e-mail and hash are non-null and no stored user has the e-mail. A null column is a NOT NULL violation. An accepted insert keeps e-mails present and distinct. |
| SchemaRules.InsertUsersConsistent | customer-survey.py:11-13 | Any run of user inserts, each refused or accepted on its own, keeps e-mails and hashes present and e-mails unique. |
| SchemaRules.InsertSurvey | customer_survey.py:23-25 | A survey row is stored iff its title and creator are non-null; otherwise it is a NOT NULL violation. An accepted insert keeps every stored survey complete. |
| SchemaRules.InsertSurveysComplete | customer_survey.py:22-25 | Any run of survey inserts keeps every stored survey with a title and a creator. |
| SchemaRules.DeleteUser | customer_survey.py:17 | Deleting a user removes exactly that user and every survey it created. |
| SchemaRules.DeleteUserLeavesNoOrphans | customer_survey.py:17 | After the cascade no survey has a missing creator. |
| SchemaRules.InsertResponse | customer_survey.py:45-47 | A response is stored iff its survey id, option id and respondent e-mail are all non-null; otherwise it is a NOT NULL violation. An accepted insert keeps every stored response complete. |
| SchemaRules.InsertResponsesComplete | customer_survey.py:41-47 | Every stored response carries all three required columns. |
| SchemaRules.InsertVote | customer-survey.py:43-45 | A vote is stored iff its survey id, option id and IP address are all non-null; otherwise it is a NOT NULL violation. An accepted insert keeps every stored vote complete. |
| SchemaRules.InsertVotesComplete | customer-survey.py:42-45 | Any run of vote inserts keeps every stored vote with a survey, an option and an address. |
| SqlLiteral.Escape | lab-data/process-json.py:55 | Escaping never shortens the text. |
| SqlLiteral.EscapePairsQuotes | lab-data/process-json.py:60 | In an escaped text quotes occur only in adjacent pairs. |
| SqlLiteral.UnescapeEscape | lab-data/process-json.py:60 | Halving the quote pairs recovers the original text. |
| SqlLiteral.EscapeUnescape | lab-data/process-json.py:66 | Every quote-paired text is the escape of its halving. |
| SqlLiteral.EscapeInjective | lab-data/process-json.py:68 | Different texts have different escapes. |
| SqlLiteral.EscapeUnchangedIff | lab-data/process-json.py:55 | Escaping changes a text iff it contains a quote. |
| SqlLiteral.ReadBodySound | lab-data/process-json.py:60 | Whatever a SQL reader takes from a literal was written as its escape followed by the closing quote. |
| SqlLiteral.LiteralReadsBack | lab-data/process-json.py:60 | A literal written with doubling reads back as exactly its text, and the rest is left over. |
| SqlLiteral.RawLiteralMisreads | lab-data/process-json.py:55 | A sku or status containing a quote, quoted without doubling, never reads back as itself. |
| SqlLiteral.RawLiteralReadsBackIff | lab-data/process-json.py:55 | Quoting without doubling reads back correctly iff the text has no quote. |
| SqlGen.DigitsValue | lab-data/process-json.py:55 | Integer fields are written as decimal digits that denote the number. |
| SqlGen.IntTextValue | lab-data/process-json.py:68 | An integer's text has a minus sign iff it is negative, then the digits of its magnitude. |
| SqlGen.ComposerValue | lab-data/process-json.py:66 | The composer value starts with a quote iff the composer is present. |
| SqlGen.ProductInsert | lab-data/process-json.py:55 | A product statement opens with the products column list and closes with `);`. |
| SqlGen.VendorInsert | lab-data/process-json.py:60 | A vendor statement opens with the vendors column list and closes with `);`. |
| SqlGen.DetailInsert | lab-data/process-json.py:66-68 | A track statement opens with the track_details column list and closes with `);`. |
| SqlGen.VendorInsertInjective | lab-data/process-json.py:60-62 | Two vendor statements are equal iff the vendors (id and name) are, so the text check drops exactly the repeated vendors. |
| SqlGen.ProductNameReadsBack | lab-data/process-json.py:55 | In a product statement the name reads back from the literal after the id. |
| SqlGen.VendorNameReadsBack | lab-data/process-json.py:60 | In a vendor statement the name reads back from the literal after the id. |
| SqlGen.DetailNameReadsBack | lab-data/process-json.py:68 | In a track statement the track name reads back after the track id. |
| SqlGen.DetailComposerReadsBack | lab-data/process-json.py:66-68 | A present composer reads back from its position. A missing one leaves the bare NULL token there, which no literal reader accepts. |
| SqlGen.VendorInsertSeparatesNames | lab-data/process-json.py:60-61 | Vendors with the same id and different names give different statements. |
| SqlGen.FirstOccurrencesSpec | lab-data/process-json.py:61-62 | The deduplicated list has exactly the elements of the input and no repeats. |
| SqlGen.Collect | lab-data/process-json.py:52-69 | The loop yields one main statement per item in order, the vendor statements by first occurrence, and every part statement item by item. |
| SqlGen.GenerateSql | lab-data/process-json.py:52-69 | One product statement per product, in order. Vendor statements have no repeats, are in first-occurrence order, and cover exactly the products' vendors. One track statement per detail, product by product. |
| SqlGen.SameIdDifferentNamesBothKept | lab-data/process-json.py:59-62 | Two vendors sharing an id under different names both get a statement. |
| SqlGen.DocumentTables | lab-data/process-json.py:74-76 | The output opens with the vendors, products and track_details CREATE TABLE blocks, each followed by a newline. |
| SqlGen.Document | lab-data/process-json.py:72-86 | The output is the three table definitions followed by exactly the inserts text (the three headers and the three newline-joined statement groups), and its length is the sum of those parts. |
| SqlGen.InsertsHeaders | lab-data/process-json.py:79-85 | The three comment headers follow one another, each right after the previous group. |
| SqlGen.InsertsVendors | lab-data/process-json.py:79-80 | Each vendor statement sits in the vendor group, in order, before the product header. |
| SqlGen.InsertsProducts | lab-data/process-json.py:82-83 | Each product statement sits in the product group, in order, before the details header. |
| SqlGen.InsertsDetails | lab-data/process-json.py:85-86 | Each track statement sits in the last group, in order. |
| SqlGen.DocumentPlacesVendor | lab-data/process-json.py:74-80 | In the written file each vendor statement sits verbatim after the table definitions and the vendor header, at its join offset. |
| SqlGen.DocumentPlacesProduct | lab-data/process-json.py:74-83 | In the written file each product statement sits verbatim after the vendor group and the product header, at its join offset. |
| SqlGen.DocumentPlacesDetail | lab-data/process-json.py:74-86 | In the written file each track statement sits verbatim after the product group and the details header, at its join offset. |
| Text.JoinPlacesParts | lab-data/process-json.py:80 | Each part of a newline join sits verbatim at its offset. |
| Text.JoinPlacesSeparators | lab-data/process-json.py:83 | Neighbouring parts of a join are separated by the separator. |

## Left out

- Flask routing, sessions, flask_login, CSRF, rate limiting, templates, flash messages, logging and `waitress`: framework plumbing. The caller's identity is a parameter, and `Authenticated` stands for `current_user.is_authenticated`.
- Login and `is_safe_url`: they depend on password checking and on the live request's host.
- `get_yoda_wisdom`: a random choice with no state.
- bcrypt and `bleach.clean`: foreign libraries, taken as opaque functions `hash` and `sanitize`.
- The e-mail syntax validators (`Email()`): external validation with no stated rule. A blank registration e-mail is refused (`DataRequired`); the submission e-mail is optional.
- `lower()` and the password pattern's `\d` beyond ASCII: the model maps ASCII letters and digits only. This is exact for comparing against "true".
- The choice check of `RadioField` and the explicit check at app.py:288-291 both refuse an option outside the survey. The model has one `InvalidOption` error for both.
- SurveyResults.Percentage: an exact real, not Python's float with `round(…, 1)`; floating point is out of scope.
- SurveyResults.Export: requires a consistent store (`Valid`), so that every feedback's option exists. `feedback.selected_option.text` fails on a dangling option id; that path is not modelled.
- `csv.writer` quoting, `strftime` formatting, the file name and `send_file`: library serialisation and I/O. Rows are sequences of fields and the formatter is a parameter.
- ORM mapping, engines, raw SQL in the listeners, transactions and concurrent writers. Each route is one atomic step, and a refused request writes nothing.
- Neither schema file configures as written. `back_populates="options"` (customer_survey.py:39, customer-survey.py:36) names a property `Survey` does not have, and so does `back_populates="responses"` (customer_survey.py:50). On SQLAlchemy 2.x the listeners' plain-string `connection.execute` (customer_survey.py:58, customer-survey.py:60) is refused too. `OptionWindow` and `SchemaRules.DeleteUser` model the rule the files evidently intend.
- SurveyStore.NextId: SQLite picks a random unused rowid once the largest rowid is 9223372036854775807. The model always returns one more than the largest id.
- SchemaRules: primary-key uniqueness and foreign keys of the schema files are not modelled, only the NOT NULL, UNIQUE and cascade rules.
- `process-json.py`: reading `sample-product.json` and writing `output.sql` are I/O. The model starts from parsed records and returns the document text (`SqlGen.Document`).
- SqlGen.Product: ids, `vendor_id` and `price` are integers, and booleans are rendered as `True`/`False`. Other JSON value kinds (nulls, floats or strings in those fields) are not modelled. `unit_price` is rendered by the parameter `show`.
- `lab-data/process-csv.py` and `lab-data/customer-feedback-dag.py`: file and cloud I/O only.
