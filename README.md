# Override workflow of the data-override app

The app lets a user edit one numeric column of a reporting table. The edits are
recorded as overrides, and the table keeps its history in the manner of a
slowly changing dimension of type 2. This project models what the
"Submit Updates" handler of `app.py` does to the two tables involved, and
proves properties of that model.

The workflow has three steps:

- **Override recorder** (`insert_into_target_table`).
  - It compares the edited snapshot with the original one and selects the rows
    whose editable cell changed.
  - It runs one `INSERT ... VALUES` per selected row into the override table.
  - Each INSERT carries the row's common columns, the row's dates, the old and
    new values, and the flag `'O'`.
- **New versions** (`insert_into_source_table`).
  - An `INSERT ... SELECT` joins every override with the Active source rows
    that have the same joining key and whose value is the override's old value.
  - For each pair it adds an Active row carrying the new value.
- **Deprecation** (`update_old_record`).
  - An `UPDATE ... FROM` flags every Active source row matched in the same way
    as Deprecated (`'D'`).

Modules:

- `values.dfy` defines the data.
  - A cell is `Null`, a string, or another scalar held as the text Python
    prints for it.
  - A row maps column names to cells, and a table is a sequence of rows.
- `text.dfy` models Python's `strip()`, `upper()` and `split(',')`, with `join`
  as the partner of `split`.
- `config.dfy` models the normalisation of the configuration record.
- `detector.dfy` is the change detector. Its equality is a parameter, and the
  handler uses pandas' `!=`.
- `literal.dfy` models the literal encoder and what the database reads back
  from a literal.
  - It follows the character string literal of section 5.3 of ISO/IEC 9075-2:
    an embedded quote is doubled.
  - Snowflake also reads a backslash inside quotes as an escape. The model
    does not read such a literal (see "## Left out").
- `columns.dfy` models:
  - the column lists and value lists of the two INSERTs;
  - the row an `INSERT INTO t (cols) VALUES (...)` stores.
- `recorder.dfy` defines the recorder as a function of its inputs:
  - what one submit appends to the override table;
  - the status it ends with.
- `scd.dfy` gives the meaning of the two statements on the source table, and
  their combined effect on one key.
- `engine.dfy` holds the class `Database`, which owns the two tables.
  - Its methods run the handler step by step: the loop over the changed rows,
    the loop building the value list, and the two statements.
  - Each method is proved against the functions above.

Where the code differs from what an SCD type-2 workflow is expected to do, the
model follows the code:

- **Change detection.** Two missing cells compare as different under pandas'
  `!=`. An unedited row with a missing value is therefore selected
  (`Detector.PandasSelectsMissingCell`), and its INSERT is rejected
  (`Recorder.MissingValueRejected`).
- **Failed INSERTs.** The first rejected INSERT is re-raised and ends the loop.
  The rows inserted before it stay. The model stops there; it does not report
  each row.

## Model

| member | source | states |
|---|---|---|
| Text.LeadingSpaces | app.py:144-145 | the count of leading white space: all counted characters are white space, and the next one is not |
| Text.TrailingSpaces | app.py:144-145 | the count of trailing white space: all counted characters are white space, and the one before is not |
| Text.Strip | app.py:144-145 | `strip()` leaves a result that neither opens nor closes with white space |
| Text.StripIsSlice | app.py:144-145 | `strip()` returns a contiguous slice of its input, and everything it removed is white space |
| Text.StripKeepsCount | app.py:145 | `strip()` keeps every character that is not white space, so every comma of the key list |
| Text.StripTrimmed | app.py:144-145 | `strip()` leaves a trimmed string unchanged |
| Text.Upper | app.py:144-145 | `upper()` keeps the length and maps each character by itself |
| Text.UpperProperties | app.py:144-145 | after `upper()` no lower-case letter is left, other characters are kept, white space stays white space, and `upper()` is idempotent |
| Text.UpperKeepsCount | app.py:145 | `upper()` keeps every comma |
| Text.Split | app.py:145 | `split` always returns at least one piece |
| Text.SplitPieces | app.py:145 | `split(',')` returns one more piece than there are commas, and no piece holds a comma |
| Text.JoinSplit | app.py:145 | joining the pieces of `split` with the separator gives back the string |
| Text.SplitJoin | app.py:145 | splitting a join of comma-free pieces gives back the pieces |
| Text.SplitAppend | app.py:145 | splitting `x + ',' + tail` with `tail` comma-free adds `tail` as a last piece |
| Text.SplitAppendFree | app.py:145 | a string without a separator splits into itself |
| Config.Normalise | app.py:144 | the normalised editable column is trimmed and has no lower-case letter |
| Config.NormaliseConfig | app.py:144-145 | the editable column is the normalised raw column; the joining keys are a non-empty list with one more key than the raw list has commas; no key holds a comma; their join is the normalised raw list |
| Config.NormaliseIdempotent | app.py:144-145 | normalising twice is normalising once |
| Config.KeysAreNotTrimmed | app.py:145 | the keys themselves are not trimmed: `" id , desk "` gives `["ID ", " DESK"]` |
| Config.OuterSpaceStripped | app.py:145 | the example key list loses only its outer spaces |
| Config.InnerSpaceKept | app.py:145 | the example key list is upper-cased around its inner spaces and is the join of the two untrimmed keys |
| Detector.ChangedRows | app.py:219 | a row is selected if and only if its edited cell is not equal to the original cell at the same position; the selection is in increasing row order |
| Detector.UneditedSelectsNothing | app.py:219-223 | an unedited snapshot selects no row, for any equality that is reflexive on its cells |
| Detector.PandasSelectsMissingCell | app.py:219 | under pandas' `!=`, an unedited row whose editable cell is missing is selected |
| Detector.NullSafeSelectsNothing | app.py:219-223 | under a null-safe equality, an unedited snapshot selects nothing |
| Literal.Double | app.py:248 | doubling the quotes adds one character per quote |
| Literal.UndoubleDouble | app.py:248-249 | reading a doubled string between quotes gives back the string |
| Literal.DoubleUndouble | app.py:248-249 | the inside of any literal is the doubling of what it reads as |
| Literal.ReadableRunsEven | app.py:248-249 | the inside of a readable literal has no run of quotes of odd length |
| Literal.DoubledRunsEven | app.py:248-249 | a doubled string never has a run of quotes of odd length |
| Literal.UndoubleQuoteFree | app.py:258 | text without a quote reads as itself between quotes |
| Literal.Encode | app.py:243-251 | a missing cell is written `NULL`; a string is written between quotes, and its inside reads back as the string |
| Literal.LiteralRoundTrip | app.py:243-251 | every cell with a readable text form (a missing cell, a string without a backslash, a number or a boolean) is read back as itself from its literal |
| Literal.DoubleKeeps | app.py:248 | doubling the quotes neither adds nor removes any other character |
| Literal.BackslashUnreadable | app.py:248-249 | a string holding a backslash is not read back as itself from its literal, because the database reads the backslash as an escape |
| Literal.BackslashExamples | app.py:248-249 | `'a\'` and `'C:\temp'`, the literals of `a\` and `C:\temp`, are not read as those strings |
| Literal.Denote | app.py:255-262 | CURRENT_TIMESTAMP() reads as the time of the statement; a quoted piece holding a backslash is not read; any other piece the database reads is the encoding of a readable cell, so each cell has one literal |
| Literal.BareDateUnreadable | app.py:250-251 | a date or a timestamp printed without quotes, such as `2024-01-01` or `2024-01-01 00:00:00`, is not read as a literal |
| Literal.QuotedTextDenotes | app.py:258 | a text without a quote or a backslash, put between quotes as the dates are, reads as that text |
| Columns.Filter | app.py:231 | the kept names are exactly the accepted names of the input, in their order, without duplicates when the input has none |
| Columns.CommonColumns | app.py:231 | the common columns are exactly the row's columns that the override table has, minus the editable column, `AS_AT_DATE`, `RECORD_FLAG` and `AS_OF_DATE`, in row order |
| Columns.OverrideColumns | app.py:241 | the column list is the common columns and the six bookkeeping columns; it names no column twice exactly when the common columns repeat none and hold no bookkeeping column |
| Columns.BookkeepingDistinct | app.py:241 | the six bookkeeping columns are distinct whatever the editable column is |
| Columns.EncodedValues | app.py:242-251 | one literal per common column, each read back as its cell when that cell has a readable text form |
| Columns.OverrideValues | app.py:253-258 | the common values are followed by six pieces; with no common value the list opens with an empty piece, which is no literal |
| Columns.OverrideListsPair | app.py:241-258 | the two lists have equal length if and only if there is a common column; they pair by position, so `SRC_INS_TS` gets the as-at date and `AS_AT_DATE` gets CURRENT_TIMESTAMP() |
| Columns.ZipCells | app.py:255-262 | the stored row has exactly the listed columns, and each holds the value in its position |
| Columns.InsertedRowCells | app.py:255-262 | an INSERT is accepted if and only if its lists agree, its columns resolve and are distinct, and each value is a literal; the stored row holds what each literal denotes |
| Columns.SourceInsertColumns | app.py:274-280 | the copied columns are exactly the source columns other than `RECORD_FLAG`, `AS_AT_DATE` and the editable column, in order |
| Recorder.Record | app.py:217-269 | misaligned snapshots are refused; a run that ends before the INSERTs appends nothing; a written run had aligned snapshots and appended one row per changed row, and at least one |
| Recorder.OverrideFor | app.py:235-262 | the INSERT for a row is accepted only when there is a common column, and the stored row is flagged 'O' with the insert time as `AS_AT_DATE` |
| Recorder.Collect | app.py:234-268 | a run of INSERTs appends at most one row per selected row and ends written or rejected; when written, it appended exactly one per row |
| Recorder.CollectAllAccepted | app.py:234-262 | when every INSERT is accepted, one row per selected row is appended, in order |
| Recorder.CollectStopsAtRejection | app.py:261-268 | the first rejected INSERT ends the run: the rows before it stay appended, and that row is reported |
| Recorder.CollectOutcome | app.py:234-268 | a run is either all accepted with every row appended, or stopped at its first rejected row with exactly the earlier rows appended |
| Recorder.RecordOutcome | app.py:217-269 | the handler ends misaligned, with no changes, or without a date column exactly in those cases, appending nothing; otherwise it runs one INSERT per changed row |
| Recorder.UneditedRecordsNothing | app.py:219-223 | submitting an unedited snapshot appends nothing and reports no changes, when every cell equals itself under `eq`; this does not hold for pandas `!=` on a missing cell |
| Recorder.OverrideCopiesCommonCells | app.py:243-258 | a stored override row holds the edited row's cell in every common column |
| Recorder.BookkeepingLiterals | app.py:241-258 | a stored override row has a common column, and each bookkeeping column holds what its paired literal denotes |
| Recorder.OverrideBookkeeping | app.py:235-258 | a stored override row holds both dates as text (the as-at date in `SRC_INS_TS`), the insert time in `AS_AT_DATE`, the original value in `_OLD`, the edited value in `_NEW`, and the flag 'O'; both values were present |
| Recorder.OverrideAccepted | app.py:241-262 | the INSERT for a row is accepted when its columns resolve and are distinct and every piece of its value list is a literal |
| Recorder.MissingValueRejected | app.py:235-262 | a missing original or edited value is written `nan`, and the INSERT is rejected |
| Recorder.UnreadableCellRejected | app.py:243-262 | a common cell whose literal the database cannot read, such as a bare date, makes the INSERT rejected |
| Recorder.NoCommonColumnRejected | app.py:253-258 | with no common column, the value list opens with a comma and every INSERT is rejected |
| Recorder.BookkeepingClashRejected | app.py:231-241 | a common column that is also a bookkeeping column is listed twice, and every INSERT is rejected |
| Scd.KeyOf | app.py:296 | the joining key has one non-null cell per key, read from the column the key names |
| Scd.KeysReadStripped | app.py:296-320 | keys with white space around them resolve exactly when the names they read as resolve, and join the same rows |
| Scd.ConfiguredKeysRead | app.py:296 | the keys `"ID "` and `" DESK"` read as the columns ID and DESK |
| Scd.Matches | app.py:296-298 | a source row and an override join if and only if the row is Active, each key cell is equal or one is missing and the other empty, and the row's value is present and equals the old value |
| Scd.KeyOfJoins | app.py:296 | two rows join if and only if each key cell is equal, or one is missing and the other is the empty string |
| Scd.MatchCount | app.py:294-298 | an override joins some source row if and only if some Active row has its key and its old value |
| Scd.NewVersion | app.py:286-293 | a new version copies the override's cells, carries the new value, is Active, and has the statement's time as `AS_AT_DATE` |
| Scd.NewVersionColumns | app.py:286-293 | a new version has exactly the copied columns, the editable column and the two bookkeeping columns |
| Scd.NewVersionKey | app.py:286-296 | a new version has the joining key of its override |
| Scd.NewVersionsMembers | app.py:287-298 | a row is added if and only if it is the new version of an override that joins some Active source row |
| Scd.NewVersions | app.py:287-298 | one row is added per joined pair of override and source row, each Active with the statement's time as `AS_AT_DATE` |
| Scd.Deprecate | app.py:314-320 | the UPDATE keeps the row count and changes exactly the superseded rows, flagging each Deprecated |
| Scd.DeprecateOnlyFlag | app.py:314-320 | the UPDATE changes only Active rows, and in them only the flag, which becomes 'D' |
| Scd.DeprecateIdempotent | app.py:314-320 | running the UPDATE twice is running it once |
| Scd.ActiveAfterDeprecate | app.py:314-320 | afterwards the Active rows of a key are those that were Active and that no override supersedes |
| Scd.SupersededIff | app.py:318-320 | an Active row is superseded if and only if some override of its key has its value as old value |
| Scd.SubmitFlipsActiveRow | app.py:329-335 | for a key with one Active row and one override of that value, the two statements leave exactly the new version Active, unless some override of the key has the new value as its old value, in which case no row is Active |
| Scd.StepsFlipActiveRow | app.py:272-335 | the same flip for the statements as the handler runs them: with a well-formed configuration the INSERT ... SELECT and then the UPDATE on its result both apply, and the key ends with the new version as its only Active row, or with none when the history clashes |
| Scd.OldRowRetired | app.py:314-320 | the Active row an override supersedes is no longer Active after the UPDATE |
| Scd.NewVersionOutcome | app.py:287-320 | the new version of the override is the key's only new Active row, and the UPDATE retires it exactly when some override has its new value as old value |
| Scd.RevertLeavesNoActiveRow | app.py:329-335 | a revert to a value that an earlier override replaced leaves the key with no Active row |
| Scd.SettledIsFixpoint | app.py:287-320 | a table that no override supersedes is left as it is by both statements |
| Scd.InsertStep | app.py:272-304 | the INSERT ... SELECT is skipped with no copied column and fails when a name does not resolve (a key resolving by the name it reads as), leaving the table unchanged; otherwise it appends exactly the new versions of the matching pairs, `NewVersions` of the override table and the source table as it was |
| Scd.DeprecateStep | app.py:307-326 | the UPDATE runs exactly when its names resolve (a key by the name it reads as), never removes a row, leaves the table unchanged when it fails, and otherwise flags exactly the superseded rows, giving `Deprecate` of the table |
| Scd.ResolvedKeysCopied | app.py:286-296 | when the INSERT resolves and no key is a column it sets, every key is copied into the new version |
| Engine.EncodeValues | app.py:242-251 | the loop builds exactly one literal per common column, in order |
| Engine.Database.RecordOverrides | app.py:217-269 | the override table gains exactly the rows `Record` describes, the status is its status, and the source table is unchanged |
| Engine.Database.InsertChangedRows | app.py:234-266 | the loop appends one override row per changed row until the first rejected INSERT, or stops before any INSERT when a date column is missing |
| Engine.Database.InsertOverride | app.py:235-262 | the INSERT built for a changed row stores the row `OverrideFor` describes, or is rejected |
| Engine.Database.InsertNewVersions | app.py:272-304 | the source table becomes the result of `InsertStep`, and the override table is unchanged |
| Engine.Database.DeprecateSuperseded | app.py:307-326 | the source table becomes the result of `DeprecateStep`, and the override table is unchanged |
| Engine.Database.Submit | app.py:328-335 | the three steps run in order, each on the tables the previous step left |

## Left out

- The Streamlit page and other UI are not modelled: the selectors, tabs, the editor widget, messages and the footer time.
- The warehouse connection and statement execution are not modelled. Only the effect of each statement on the tables is.
- `INFORMATION_SCHEMA` lookups become column lists passed in: `overrideSchema` and `sourceSchema` of `Engine.Database`.
- `fetch_data`, `fetch_target_data` and the record search filter are not modelled. The snapshot is an input of the handler.
- The configuration fetch and the query-parameter module selection are not modelled.
- `CURRENT_TIMESTAMP()`, `CURRENT_TIMESTAMP(0)` and dates are opaque values passed in.
  - One value of `CURRENT_TIMESTAMP()` stands for every INSERT of a submit. The warehouse may give each statement its own time.
- Value cells:
  - A cell that is not a string is held by its Python text form.
  - Type casts and comparisons of text with numbers (`1.0` against `1`) are not modelled.
  - NaN, None and NaT are one missing value, which prints as `nan`.
- A raw string or a comma inside a value interpolated without quotes is read as one bare piece. The SQL tokenizer is not modelled.
- The order of the rows the INSERT ... SELECT adds is taken override by override. SQL leaves that order unspecified.
- Errors from the database other than the modelled rejections are not modelled: type errors, permissions, lost connections. No transaction and no concurrent submit is modelled.
- Two tables with the same name in different schemas are not modelled. Neither is a lookup that returns columns of more than one table.
- Text.Upper: upper-cases only ASCII letters. Python's `upper()` also maps other letters, for example `ß` to `SS`, which changes the length.
- Detector.ChangedRows: equality is a parameter, and the handler uses `Detector.PandasEq`. A pandas comparison of mismatched indexes is modelled only as `Misaligned`.
- Recorder.OverrideBookkeeping: a cell reads back as itself only in two cases:
  - a date whose text has no quote and no backslash;
  - an old or new value that is a bare scalar literal.
  In every other case it states only what the literal denotes.
- Recorder.OverrideCopiesCommonCells: requires every common cell to have a readable literal. A scalar whose text is `NULL`, for example, reads back as a missing value.
- Recorder.OverrideAccepted: states when an INSERT is accepted, but not the only cases.
- Literal.Denote: a quoted literal holding a backslash is taken as not read. Snowflake reads backslash escapes inside quotes (`\'`, `\\`, `\t` and others): `'a\'` leaves the literal open and is rejected, but `'C:\temp'` is accepted and stored with a tab. So for a string holding a backslash the model's rejection stands for "not stored as written", and Literal.LiteralRoundTrip, Columns.EncodedValues, Recorder.OverrideCopiesCommonCells and Recorder.OverrideAccepted promise nothing for such a string.
- Recorder.UnreadableCellRejected: for a common cell holding a backslash that the database reads as a complete escape, as in `C:\temp`, the program's INSERT is accepted, the string is stored with its escapes read, and the loop goes on. The model instead rejects that INSERT. So for such a cell, Recorder.Collect and Recorder.Record end the run `Rejected(i)` at that row with only the earlier rows appended, and Engine.Database.InsertChangedRows, Engine.Database.RecordOverrides and Engine.Database.Submit carry that stop. The program keeps recording the later rows, and the INSERT ... SELECT and the UPDATE then see every stored row.
- Literal.LiteralRoundTrip: holds only for strings without a backslash, for the reason given under Literal.Denote. Literal.BackslashUnreadable states the other side: a string with a backslash is never read back as itself.
- Literal.Denote: a bare number is read by its shape as Python prints it, not by SQL's full grammar. A bare date such as `2024-01-01` is taken as no literal; SQL reads it as a subtraction, which a numeric column would accept.
- Scd.KeyName: the white space SQL skips around a key is taken to be the white space Python's `strip()` removes.
