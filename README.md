# Student records: validation and persistence

A model of the student-record web application in `app.py`: one table of
`Student` rows (`id`, `name`, `roll_no`, `email`, `age`) and the request
handlers that list, register, view, update and delete rows. The handlers
strip the four submitted form fields and check them in a fixed order
(email format, then age, then roll-number uniqueness, then email
uniqueness), report only the first failure, and on success write the row in
one transaction that either commits or is rolled back.

The model has four modules:

- `Wrappers` (`wrappers.dfy`): `Option`, `Result` and `Outcome`.
- `PyText` (`pytext.dfy`): Python's `str.strip()`, `str.isdigit()`,
  `int(s)` and `str(n)` over ASCII text.
- `Validation` (`validation.dfy`): the row and form datatypes, the error
  kinds, the table invariant (positive ids, stripped text, an accepted
  email, a positive age of at most 4300 decimal digits, unique `roll_no`,
  unique `email`), the shared
  validation function `Validate` (register excludes no row, update excludes
  its own id), and the lemmas that a validated write keeps the invariant.
- `RecordStore` (`store.dfy`): the class `Store`, whose `table` field is a
  map from id to row that `Register`, `Update` and `Delete` reassign, with
  frame postconditions; the storage engine's id allocation; and two client
  methods: one runs register, view, update, view on a new store, the other
  runs delete, view, delete on any valid store that holds the row.

Inputs the model does not compute are parameters:

- the email validator of the `validators` library is the function
  `emailOk: string -> bool`, fixed when the store is created;
- whether `db.session.commit()` succeeds is the argument `commitOk`. When
  it is false the handler rolls back, and the table is what it was before
  the call.

Where the application's intended data model and its code differ, the model
follows the code:

- `name` is meant to be non-empty, but no handler checks it. An empty or
  all-blank name is stored as `""`.
- `name` and `roll_no` are meant to be stored trimmed. The code also
  strips `email` and `age`, so the invariant says that all three stored
  strings are stripped.
- The unique columns are meant as a storage-layer backstop. With one request
  at a time that backstop never fires: `InsertKeepsTable` and
  `OverwriteKeepsTable` prove that a validated write never breaks the unique
  constraints. Every
  commit failure is the one error kind `CommitFailed`, as the handlers'
  single `except Exception` treats them all alike.
- `int(age)` in the age check sits outside every `try`. CPython 3.11 and
  later, and the 2022 security releases of 3.7-3.10, refuse to convert a decimal string of more than 4300 digits and
  raises `ValueError`, so such an age ends the request with an HTTP 500
  instead of the "Age must be a positive number." message. The model reports
  it as its own error kind, `AgeTooLong`, and writes nothing; the crashed
  request writes nothing either.

## Model

| member | source | states |
|---|---|---|
| `PyText.StripLeftCutsSpace` | app.py:35-38 | `lstrip()` returns a suffix of its input, and every character it removed is whitespace |
| `PyText.StripRightCutsSpace` | app.py:35-38 | every character that `rstrip()` removed from the end of its input is whitespace |
| `PyText.Strip` | app.py:35-38 | neither end of the result of `strip()` is whitespace |
| `PyText.StripCutsSpace` | app.py:79-82 | `strip()` returns the slice of its input that starts after the leading whitespace, and everything cut from either side is whitespace |
| `PyText.StripFixesStripped` | app.py:79-82 | a string with no whitespace at its ends is left unchanged by `strip()` |
| `PyText.StripIdempotent` | app.py:35-38 | stripping twice gives the same result as stripping once |
| `PyText.DecimalValuePositive` | app.py:44 | `int(s)` of a digit string is positive exactly when some digit is not '0' |
| `PyText.DecimalRoundTrip` | app.py:107 | `int(str(n)) == n`, so an age written into the update form reads back as the same age |
| `PyText.DecimalLengthBound` | app.py:44 | `str(int(s))` of a digit string is no longer than `s`, so an age read within the digit limit is written back within it |
| `PyText.DecimalIsStripped` | app.py:82 | `str(n)` has no surrounding whitespace, so stripping the age text of the update form leaves it unchanged |
| `PyText.IsDigitString` | app.py:44 | `age.isdigit()` on ASCII text: the text is non-empty and every character is '0'-'9' |
| `PyText.DecimalValue` | app.py:57 | `int(s)` of a digit string: the decimal value of its digits, most significant first, leading zeros allowed |
| `Validation.Stripped` | app.py:79-82 | every field of the form as the handlers read it is stripped |
| `Validation.ParseAge` | app.py:44 | the age is accepted exactly when it is a non-empty all-digit string of at most 4300 characters with a digit other than '0', and then its value is `int(age)`, positive and printable by `str()`; an all-digit string past 4300 characters is exactly the case where `int` raises; every other text is refused as an invalid age |
| `Validation.AgeDigitLimitExample` | app.py:88 | 4301 ones, and 4300 zeros followed by a 7, make `int(age)` raise rather than being accepted or refused with a message |
| `Validation.AgeExamples` | app.py:88 | "0", "-5", "abc" and "" are refused; "1" and "120" are accepted as 1 and 120 |
| `Validation.StrippedAgeExamples` | app.py:38-46 | after stripping, " 007 " is accepted as 7 and " " is refused |
| `Validation.RollNoTaken` | app.py:93 | some row other than the excluded id has this roll number: `filter_by(roll_no=...)` in register excludes none, `filter(roll_no == ..., id != id)` in update excludes the row being updated |
| `Validation.EmailTaken` | app.py:98 | some row other than the excluded id has this email, the same query shape on `email` (app.py:52 in register) |
| `Validation.RowOk` | app.py:16-20 | a stored row has stripped name, roll number and email, an email the validator accepts, and a positive age whose decimal text is within the 4300-digit limit |
| `Validation.TableOk` | app.py:16-20 | the table invariant: every id is positive and every row well formed, and no two ids share a roll number or an email (`unique=True`) |
| `Validation.Validate` | app.py:35-57 | on success the row holds the stripped name, roll number and email and `int(age)` of an accepted age text; its text is stripped, its email accepted, its age positive, and no row other than the excluded one has its roll number or its email |
| `Validation.ValidateReportsFirstFailure` | app.py:84-101 | checks run in the order email format, age, roll-number uniqueness, email uniqueness: each error is reported exactly when every earlier check passes and that one fails, and a row is returned exactly when all four pass |
| `Validation.InsertKeepsTable` | app.py:49-59 | a row validated with no id excluded, inserted under an unused positive id, keeps the ids positive, every row well formed, and `roll_no` and `email` unique |
| `Validation.OverwriteKeepsTable` | app.py:93-108 | a row validated with its own id excluded, written over that id, keeps the table invariant |
| `Validation.CurrentForm` | app.py:115 | the update form pre-filled from a row, as `update.html` is taken to render it, carries its name, roll number and email and an age text whose value is the row's age |
| `Validation.CurrentFormReadsBack` | app.py:79-88 | the pre-filled form of a row with stripped text and a positive age within the digit limit is unchanged by stripping, and its age text passes the age rule with the row's age |
| `Validation.CurrentFormChecks` | app.py:84-101 | the pre-filled form of a well-formed row passes the format checks, is accepted as that same row when neither uniqueness check fires, and is refused as a duplicate roll number when another row holds it |
| `Validation.OwnValuesFree` | app.py:18-19 | in a valid table no row other than `id` has row `id`'s roll number or email |
| `Validation.ResubmitOwnRowAccepted` | app.py:92-101 | updating a row with its own current values is accepted and yields that row unchanged: its own roll number and email are not duplicates |
| `Validation.OnlyRowUpdateAccepted` | app.py:92-101 | in a table of one row, updating that row with the pre-filled form of any well-formed row is accepted as that row: neither uniqueness check can fire |
| `Validation.RegisterExistingRowRefused` | app.py:48-51 | registering the values of an existing row is refused with a duplicate roll number, because register excludes no id |
| `RecordStore.NextRowId` | app.py:16 | the id given to a new row is unused and larger than every id in use: 1 in an empty table, else one more than the largest id |
| `RecordStore.LargestId` | app.py:16 | the largest id in use is in the table and no id exceeds it |
| `RecordStore.Store.constructor` | app.py:130-131 | a new store has an empty table, which satisfies the invariant |
| `RecordStore.Store.All` | app.py:27-30 | listing returns every row of the table, which satisfies the invariant |
| `RecordStore.Store.View` | app.py:69-72 | viewing returns the row with that id when there is one, and NotFound exactly when there is none |
| `RecordStore.Store.Register` | app.py:33-65 | a validation failure is reported as that error; a failed commit is rolled back and reported; either way the table is unchanged. On success exactly one row is added, under the engine's next id that was unused, holding the validated row; every earlier row is unchanged and the invariant holds |
| `RecordStore.Store.Update` | app.py:74-113 | an unknown id is NotFound; otherwise the validation error, or a rolled-back commit, leaves the table unchanged; on success only row `id` is rewritten, with all four fields, the set of ids is unchanged and the invariant holds |
| `RecordStore.Store.Delete` | app.py:117-127 | an unknown id is NotFound and changes nothing; a failed commit is rolled back; on success exactly row `id` is removed and the invariant holds |
| `RecordStore.RegisterUpdateView` | app.py:33-115 | registering a well-formed student into an empty store gives it id 1; viewing it, updating its age by one and viewing again shows first the registered row and then the updated row, and the final table is exactly that updated row under id 1 |
| `RecordStore.DeleteTwice` | app.py:117-127 | deleting a stored row succeeds, after which viewing it and deleting it again both report NotFound, and the table has lost only that row |

## Left out

- Flask routing, templates, redirects and the `flash` message texts. Outcomes are the `Error` datatype; the GET halves of `register` and `update` only render a form.
- The template `update.html` is not part of this model. `CurrentForm` takes it to put each field's current value, and `str(age)`, into the form's inputs. A browser's single-line text input drops line breaks, so the form reads back unchanged only for values without them; a stored value can hold one, since `strip()` cuts whitespace only at the ends.
- SQLAlchemy and SQLite configuration, the session object and `app.run`. The table is an in-memory map; a transaction is a write to the map followed by a commit or a rollback.
- The grammar of `validators.email`: it is the parameter `emailOk`.
- Why a commit fails is not modelled: it is the input `commitOk`. One cause is an age of at most 4300 digits that is still beyond SQLite's 64-bit integers: `int(age)` accepts it and the model stores it as an unbounded integer.
- The digit limit's configuration: `sys.set_int_max_str_digits` and `PYTHONINTMAXSTRDIGITS` can change it, and versions before 3.11, 3.10.7, 3.9.14, 3.8.14 and 3.7.14 have none. The model fixes it at CPython's default of 4300.
- The column lengths `String(100)` and `String(20)`, which SQLite does not enforce.
- SQLite's fallback id choice once the largest id reaches 2^63 - 1.
- The order of rows returned by listing: `All` returns the map itself.
- A form missing one of the four fields (a `KeyError` that Flask turns into a 400 response): every form here has all four.
- Concurrent requests and database isolation: the model handles one request at a time.
- Non-ASCII text: `str.isspace()`, `str.isdigit()` and `int()` are modelled on ASCII only. For non-ASCII digits `isdigit()` and `int()` disagree (a superscript digit passes `isdigit()` but `int()` raises an uncaught `ValueError`); that path is not modelled.
