# kids_learning_tracker in Dafny

A model of the core of a small Flask application. The application lets a
parent upload learning material: a title, notes and an optional file. For
each upload it schedules spaced-repetition reviews on the upload day and
after 1, 3, 7, 14 and 30 days. It lists the reviews due today, marks reviews
as done, and lists a user's materials newest first. A helper module
extracts text from an uploaded PDF, image or text file and asks a language
model for a knowledge summary and a quiz.

The model is split into these modules:

- `Wrappers` (`wrappers.dfy`): `Option`.
- `PyStr` (`pystr.dfy`): the Python string operations the code relies on.
  - `str.lower` on ASCII.
  - `endswith`.
  - `strip()` with Python's `str.isspace` set.
  - `lstrip(chars)` and `rstrip(chars)`, which take a character *set*.
  - `rsplit('.', 1)[1]`.
  - Lexicographic string comparison, which is how SQLite orders `TEXT`.
- `Dates` (`dates.dfy`): Python's proleptic Gregorian `date`.
  - `toordinal`.
  - Adding `timedelta(days=n)`, which fails with `OverflowError` past 9999-12-31.
  - `str(date)`, i.e. `YYYY-MM-DD`.
  - The facts that text order is date order and that `str` is injective.
- `Uploads` (`uploads.dfy`): `allowed_file` and `ALLOWED_EXTENSIONS`.
- `Schedule` (`schedule.dfy`): the review offsets `[0, 1, 3, 7, 14, 30]` and
  the six review dates of an upload.
- `App` (`app.dfy`): the `materials` and `reviews` tables as sequences, with
  their `AUTOINCREMENT` counters. Each route that touches them is modelled:
  - `add` is a transition. It commits as one transaction and rolls back
    completely when a review date overflows.
  - `review` is a query.
  - `mark_reviewed` is a transition.
  - `materials` is a query.
- `Lifecycle` (`lifecycle.dfy`): the database invariant (ids, references,
  six reviews per material). It covers:
  - every reachable database keeps the invariant, under any sequence of
    `add` and `mark_reviewed` requests;
  - no request removes a review, re-dates it or un-marks it;
  - each new review shows up on the review page on its own day.
- `Extract` (`extract.dfy`): `extract_text_from_file`.
  - The file readers (PyMuPDF, Tesseract, `open`) are function parameters
    that return `None` when they raise.
  - The branch it dispatches to agrees with `allowed_file`; a failing reader
    still gives `""`.
- `Synth` (`synth.dfy`): `generate_knowledge_and_quiz`.
  - The two guards.
  - The single model call, as a function parameter.
  - `json.loads`, as a function parameter.
  - The reply cleaning `strip().lstrip("```json").rstrip("```")` and what it
    does and does not remove.

## Model

| member | source | states |
|---|---|---|
| PyStr.Lower | app.py:18 | `lower()` keeps the length, leaves no `A`–`Z` in the result, turns each upper-case ASCII letter into its lower-case partner in place, and keeps every other character |
| PyStr.LowerConcat | app.py:18 | lower-casing a concatenation is concatenating the lower-cased parts |
| PyStr.LowerIdempotent | app.py:18 | lower-casing twice is lower-casing once |
| PyStr.AfterLast | app.py:18 | `rsplit('.', 1)[1]` exists exactly when the name has a `.`; it is the text after the last `.`, and it contains no `.` |
| PyStr.AfterLastUnique | app.py:18 | any `.`-free text that ends the name right after a `.` is that extension |
| PyStr.LStrip | ai_utils.py:68 | `lstrip(chars)` removes exactly the longest leading run of characters in the set and keeps a suffix |
| PyStr.RStrip | ai_utils.py:68 | `rstrip(chars)` removes exactly the longest trailing run of characters in the set and keeps a prefix |
| PyStr.StripIsSlice | ai_utils.py:68 | `strip()` returns a contiguous piece of its input |
| PyStr.StripEnds | ai_utils.py:68 | a non-empty `strip()` result neither starts nor ends with whitespace |
| PyStr.StripEmptyIffBlank | ai_utils.py:31 | `text.strip()` is empty exactly when every character is whitespace |
| PyStr.StripIdempotent | ai_utils.py:31 | stripping twice is stripping once |
| PyStr.LessIrreflexive | app.py:179 | no text sorts before itself |
| PyStr.LessTransitive | app.py:179 | text order is transitive |
| PyStr.LessTotal | app.py:179 | any two texts are equal or ordered one way |
| PyStr.LessConcat | app.py:179 | with equal-length heads, the heads decide the order and the tails break ties |
| Dates.NextDay | app.py:131 | the next day is the date with the next ordinal; there is none after 9999-12-31 |
| Dates.AddDays | app.py:131 | `date + timedelta(days=n)` exists exactly when the ordinal plus `n` is within range, and then has that ordinal |
| Dates.AddDaysUnique | app.py:131 | `d + n days` is `e` exactly when `e`'s ordinal is `d`'s plus `n` |
| Dates.AddZero | app.py:131 | adding 0 days gives the same date |
| Dates.OrdinalOrder | app.py:131 | calendar order is ordinal order, and equal ordinals mean equal dates |
| Dates.LastDate | app.py:131 | 9999-12-31 is the only date with the largest ordinal |
| Dates.Format | app.py:126 | `str(date)` is ten characters with `-` at positions 4 and 7 |
| Dates.FormatOrder | app.py:179 | one `str(date)` sorts before another exactly when its date is earlier |
| Dates.FormatInjective | app.py:148 | two `str(date)` texts are equal exactly when the dates are equal, so the text comparison in the query compares dates |
| Uploads.AllowedFileIffSuffix | app.py:14-18 | a name is allowed exactly when its lower-cased form ends in `.` plus an allowed extension |
| Uploads.AllowedFileCaseInsensitive | app.py:18 | lower-casing the name first does not change the answer |
| Uploads.UpperCaseAccepted | app.py:17-18 | `X.PDF` is accepted |
| Uploads.BareExtensionAccepted | app.py:17-18 | `.txt` is accepted |
| Uploads.LastExtensionDecides | app.py:17-18 | `a.pdf.exe` is refused |
| Uploads.NoDotRejected | app.py:17-18 | a name without `.` is refused |
| Uploads.EmptyExtensionRejected | app.py:17-18 | a name ending in `.` is refused |
| Schedule.Shift | app.py:130-131 | each offset gives the date that many days later, in order; the result is absent if any of them overflows |
| Schedule.ReviewDatesSpec | app.py:129-131 | the six dates exist unless upload + 30 days overflows; the k-th is `Offsets[k]` days after the upload, and the first is the upload day |
| Schedule.ReviewDatesAreShifts | app.py:129-131 | the k-th review date is `upload + timedelta(days=Offsets[k])` |
| Schedule.OffsetsIncrease | app.py:129 | the offsets increase strictly |
| Schedule.ReviewDatesAscending | app.py:129-133 | the review dates increase strictly, both as dates and as stored text |
| Schedule.ReviewDatesExample | app.py:129-131 | an upload on 2024-01-01 is reviewed on 01-01, 01-02, 01-04, 01-08, 01-15 and 01-31 |
| Schedule.ReviewDatesExampleText | app.py:133 | `str(date)` of the first and last of those dates is `2024-01-01` and `2024-01-31` |
| App.StoredPath | app.py:115-121 | a path is stored exactly when a file came with an allowed name, and it lies under `uploads/` |
| App.EmptyDbWf | app.py:32-61 | the freshly created tables satisfy the invariant |
| App.AddMaterial | app.py:110-134 | the database is unchanged exactly when a review date would overflow; otherwise the material row is appended with the next id, today's text and the stored path, and the six review rows follow with the next review ids; earlier rows are kept |
| App.DueOf | app.py:144-148 | the join rows of one review are exactly its matches that pass the `WHERE` clause |
| App.Due | app.py:144-148 | the join rows are exactly the matching (review, material) pairs that pass the `WHERE` clause |
| App.DueReviews | app.py:141-150 | a row is on the review page exactly when its review is dated today, is not done, and belongs to a material of the session user |
| App.DueOfAtMostOne | app.py:144-148 | with increasing material ids, as in every database satisfying `Wf`, a review joins at most one material, so it makes at most one row, carrying its id |
| App.DueIdsIncrease | app.py:144-148 | with increasing ids in both tables, as in every database satisfying `Wf`, the review ids of the join rows increase strictly, so none occurs twice |
| App.DueReviewsOnce | app.py:141-150 | in every reachable database each due review is on the review page exactly once |
| App.MarkReviewed | app.py:155-159 | `done` becomes 1 on every row with that id, whoever owns it; every other field and row is unchanged |
| App.MarkReviewedIdempotent | app.py:158 | marking twice is marking once |
| App.MarkUnknownId | app.py:158 | marking an id no row has changes nothing |
| App.MarkedIsNotDue | app.py:144-158 | after marking, that review is on nobody's review page on any day |
| App.MarkKeepsOtherDue | app.py:144-158 | marking leaves every other due row on the page |
| App.InsertNewestFirst | app.py:179 | inserting into a newest-first list keeps it newest first and adds exactly the one row |
| App.SortNewestFirst | app.py:179 | `ORDER BY upload_date DESC` yields a newest-first permutation |
| App.OwnedBy | app.py:178 | `WHERE user_id = ?` keeps exactly the user's rows, each as often as stored |
| App.MaterialsOf | app.py:172-181 | the materials page lists exactly the user's materials, newest upload text first |
| App.MaterialsOfByDate | app.py:179 | newest-first by text is newest-first by calendar date |
| Lifecycle.NextIdUnreferenced | app.py:44 | no existing row uses the id the next material will get |
| Lifecycle.AddCounts | app.py:129-133 | after `add`, the new material has six reviews and every earlier material still has six |
| Lifecycle.AddKeepsIds | app.py:37-61 | `add` keeps both id columns increasing and below their counters |
| Lifecycle.AddKeepsRows | app.py:125-133 | after `add`, every review still refers to an existing material and is 0 or 1 done |
| Lifecycle.AddKeepsSix | app.py:129-133 | after `add`, every material has exactly six reviews |
| Lifecycle.AddPreservesWf | app.py:123-134 | `add` preserves the invariant |
| Lifecycle.MarkPreservesWf | app.py:155-159 | `mark_reviewed` preserves the invariant |
| Lifecycle.AddedReviewComesDue | app.py:129-149 | the k-th new review is on the uploader's review page on the k-th review date |
| Lifecycle.RunPreservesWf | app.py:108-159 | every database reachable from a valid one by any sequence of requests satisfies the invariant |
| Lifecycle.ApplyNeverUndoes | app.py:123-159 | one request removes, moves or re-dates no review and resets no `done` flag |
| Lifecycle.RunNeverUndoes | app.py:123-159 | no sequence of requests removes, moves or re-dates a review or resets `done` |
| Extract.Concat | ai_utils.py:16 | `"".join` has the summed length of the parts |
| Extract.ConcatPlacesParts | ai_utils.py:12-16 | every page's text appears whole and in order in the joined text |
| Extract.ExtractText | ai_utils.py:8-24 | non-empty text comes only from a recognised extension whose reader succeeded |
| Extract.UnsupportedIsEmpty | ai_utils.py:17-24 | an unrecognised extension gives `""` whatever the readers would do |
| Extract.PdfIsPagesJoined | ai_utils.py:11-16 | a PDF gives its pages joined in order with no separator |
| Extract.TextAndImageVerbatim | ai_utils.py:17-21 | an image gives the OCR text and a `.txt` file the text `open(path, 'r').read()` returns, unchanged |
| Extract.OnlyChosenReaderMatters | ai_utils.py:10-21 | only the reader of the chosen branch affects the result |
| Extract.DispatchOrder | ai_utils.py:11-19 | `.pdf` is tested first, then the image extensions, then `.txt` |
| Extract.DispatchCaseInsensitive | ai_utils.py:11-19 | the branch does not depend on the case of the path |
| Extract.AllowedIffRecognised | ai_utils.py:11-19 | the extractor has a reader exactly for the names `allowed_file` accepts |
| Synth.Clean | ai_utils.py:68 | the cleaned reply starts with none of `` ` ``, `j`, `s`, `o`, `n` and does not end with `` ` `` |
| Synth.CleanIsSlice | ai_utils.py:68 | the cleaned reply is a contiguous piece of the raw reply |
| Synth.CleanKeepsObject | ai_utils.py:68 | a reply that is a bare `{…}` object loses only the surrounding whitespace |
| Synth.CleanRemovesFence | ai_utils.py:68 | a reply fenced with backticks and fence characters comes out as exactly the fenced text, provided that text neither starts with a fence character nor ends with `` ` `` |
| Synth.CleanRemovesJsonFence | ai_utils.py:68 | the ```` ```json ```` … ```` ``` ```` fence the cleaning expects is removed exactly |
| Synth.CleanStripsPlainFence | ai_utils.py:68 | a plain ```` ``` ```` fence is removed too, and the newlines inside it stay |
| Synth.CleanStripsNull | ai_utils.py:68 | `lstrip` removes a character set: a bare `null` reply becomes `ull` |
| Synth.CleanIdempotentWhenTrimmed | ai_utils.py:68 | cleaning again changes nothing when the cleaned text has no surrounding whitespace |
| Synth.CleanNotIdempotent | ai_utils.py:68 | in general cleaning is not idempotent: a fenced `{}` with newlines cleans to `"\n{}\n"` and then to `"{}"` |
| Synth.GenerateKnowledgeAndQuiz | ai_utils.py:26-72 | the model is called at most once, and exactly when the text is not blank and the key is set; a result comes only from decoding the cleaned reply of that call, and when the guards pass and the call answers, the result is that decoding |
| Synth.BlankTextMakesNoCall | ai_utils.py:31-33 | blank text gives `None` without calling the model |
| Synth.MissingKeyMakesNoCall | ai_utils.py:35-38 | a missing or empty key gives `None` without calling the model |
| Synth.CallFailureIsNone | ai_utils.py:65-72 | a failing call or a failing decode gives `None` and does not propagate |
| Synth.CallSuccessIsDecoded | ai_utils.py:65-69 | when the guards pass and the call answers, the result is `json.loads` of the cleaned reply, after one call |

## Left out

- Flask itself is not modelled: routing, `request`, `session`, `flash`, templates, redirects and `login_required`. Every route that reads `session['user_id']` (`add`, `review`, `materials`) takes it as a plain parameter; `mark_reviewed` never reads it.
- Users, `signup`, `login`, `logout` and `hash_password` are outside the modelled core. The `users` table is not modelled, and `materials.user_id` is an unconstrained integer.
- SQL text, `sqlite3` connections and `init_db` are not modelled. The tables are sequences in row-id order, and the counters start at 1.
  - The only failure modelled is the date overflow that rolls back `add`.
  - Disk and locking errors are not modelled.
- `secure_filename` is a library call. Its result is a given field (`Upload.savedName`).
- `file.save` and `os.makedirs` do I/O and are not modelled.
- `datetime.today()` is a parameter (`today`).
- `os.getenv`, `genai.configure`, the Gemini call, the prompt text and `json.loads` are parameters or are left out.
  - `genai.configure` and `GenerativeModel` sit outside the `try` and can raise. That is not modelled.
- PyMuPDF, Tesseract and `open(...).read()` are function parameters. Each returns `None` when it raises.
- `print` logging is not modelled.
- PyStr.Lower: lower-cases ASCII `A`–`Z` only. Python also lower-cases other letters. No extension or dispatch suffix contains a character whose case mapping matters, so the decisions are unchanged.
- App.DueReviews: states which rows appear, and App.DueReviewsOnce that none repeats, but not their order. The query has no `ORDER BY`, so SQLite may return them in any order.
- App.MaterialsOf: rows with equal upload dates may come back in any order from SQLite. The model fixes one order and states only newest-first order and the multiset of rows.
- The `materials` route is registered after the `if __name__ == '__main__': app.run(...)` block. When the file is run as a script, that route does not exist until the server stops. The model describes the route's behaviour as written.
- Text extraction and quiz generation are not called from any route in this code. Their results are not stored, and neither is validated. The model treats them as standalone functions.
- `generate_knowledge_and_quiz(None)`: the model takes text as a string, so the `None` argument case is not modelled.
