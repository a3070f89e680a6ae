# Materialized view refresher — a Dafny model

The repository is one hourly job, `main()` in `main.py`. It lists the
database's schemas. For each schema it checks whether a table named
`materializedviews` exists and, if so, reads its `(name, hours)` rows. A row
whose `hours` text lists the current UTC hour gets a
`REFRESH MATERIALIZED VIEW <schema>.<name>`. The other rows are skipped,
each with a warning or a log line.

This project models that job without the database:

- `HourList` (`hour_list.dfy`) is the hour-list parser of main.py:75,
  `[int(h.strip()) for h in hours.split(",") if h.strip().isdigit()]`.
  It models Python's `str.split`, `str.strip` (the whole `str.isspace` set),
  `str.isdigit` and `int`. A token that `isdigit` accepts but `int` rejects
  raises inside the comprehension. That is a non-decimal digit such as `²`,
  or a numeral longer than CPython's default limit of 4300 digits for
  converting a string to an integer (`MaxStrDigits`). The parse then gives
  `None`, and the whole row is rejected (main.py:74-78).
- `Refresher` (`refresher.dfy`) is the dispatch loop of main.py:37-89. It is
  an imperative `Run` method with nested loops over a snapshot of the
  database: the schemas, each schema's existence answer and its rows. `Run`
  is proved to return what the specification functions `Commands` and
  `Outcomes` give. Those functions list the statements sent to the database
  and the single outcome of each row: no-hours warning, invalid-hours
  warning, not-due skip, refreshed, or refresh failed.
- `RunProperties` (`run_properties.dfy`) proves what the run guarantees,
  stated over those specification functions.
- `Scenarios` (`scenarios.dfy`) works through concrete inputs: the parse of
  `"3, 7,07,x,,12"` and four end-to-end runs.
- `Wrappers` (`wrappers.dfy`) holds `Option`, which stands for SQL NULL and
  for a conversion that raises.

Inputs that come from outside the program become parameters:

- The clock: `hour`, required to be below 24.
- The catalog and table contents: `schemas: seq<Schema>`.
- The database's answer to each refresh: `refreshOk: nat -> bool`. It is
  indexed by the row's position among all rows read in the run.

A whitespace-only `hours` text gets no no-hours warning. It is truthy at
main.py:70, parses to `[]` and ends as a not-due skip
(`RunProperties.BlankIsNotDue`).

## Model

| member | source | states |
|---|---|---|
| HourList.Split | main.py:75 | `split(",")` gives at least one piece, and no piece contains the separator |
| HourList.JoinSplit | main.py:75 | joining the pieces of a split with the separator gives back the original text |
| HourList.SplitJoin | main.py:75 | splitting a join of separator-free pieces gives back those pieces |
| HourList.Strip | main.py:75 | `strip()` is no longer than the token, and neither begins nor ends with whitespace |
| HourList.StripInfix | main.py:75 | `strip()` gives the infix of the token that has only whitespace around it and does not start or end with whitespace |
| HourList.StripAllSpace | main.py:75 | a whitespace-only token strips to the empty text |
| HourList.IsDigitString | main.py:75 | `isdigit`: the token is non-empty and every character is a digit (its use is characterised by `HourList.Keep` and `HourList.KeptTokens`) |
| HourList.Keep | main.py:75 | a token contributes at most one kept token, and what it contributes passes `isdigit` |
| HourList.KeptTokens | main.py:75 | every token whose stripped form passes `isdigit` is kept in its stripped form, and every kept token is the stripped form of some token; no more are kept than there are tokens |
| HourList.IntOfDigits | main.py:75 | `int` on an `isdigit` token succeeds exactly when every character is an ASCII decimal digit and there are at most 4300 of them |
| HourList.ConvertAll | main.py:74-78 | converting the kept tokens succeeds exactly when every token converts; then the list has one value per token, in order, each the token's decimal value |
| HourList.ParseHours | main.py:74-78 | the comprehension raises exactly when some comma-separated token passes `isdigit` once stripped but does not convert; otherwise every hour it gives is the value of one of the tokens |
| HourList.KeptTokensConvert | main.py:74-78 | converting the kept tokens succeeds exactly when every token that passes `isdigit` converts, and each value comes from a token |
| HourList.ParseConcat | main.py:75 | the parse of `a + "," + b` is the parse of `a` followed by the parse of `b`, and fails when either part fails |
| HourList.ParseSingleToken | main.py:75 | a comma-free token contributes its value when it strips to decimal digits, nothing when `isdigit` rejects it, and a failure when it holds a non-decimal digit |
| HourList.ParseByTokens | main.py:74-78 | the parse reads the comma-separated tokens one at a time, in order, and a single failing token fails the whole list |
| HourList.BlankParsesEmpty | main.py:75 | text made only of commas and whitespace parses to the empty list |
| HourList.ParseFailsOnlyOnUnconvertible | main.py:74-78 | text without non-decimal digits whose comma-separated pieces are at most 4300 characters long always parses; what is not a digit token is dropped, never an error |
| HourList.OneBadTokenRejectsAll | main.py:74-78 | one token that passes `isdigit` but fails `int` (a non-decimal digit, or over 4300 digits) rejects the whole list, whatever tokens surround it |
| HourList.LeadingZero | main.py:75 | a leading zero does not change a numeral's value |
| HourList.NatToDecimal | main.py:75 | the decimal numeral written for `n` is non-empty, separator-free and whitespace-free, and reads back as `n` |
| HourList.ParseFormat | main.py:75 | parsing reads back every hour list written in the column's comma-separated format, duplicates and values above 23 included, when no numeral exceeds 4300 digits |
| Refresher.HasTable | main.py:49-52 | the table exists exactly when the existence query returns a row holding true; no row counts as false |
| Refresher.Judge | main.py:70-80 | the no-hours verdict is given exactly for NULL and the empty text; the invalid-hours verdict exactly for other text whose parse raises; a not-due verdict carries the parsed list, which lacks the hour |
| Refresher.Settle | main.py:80-89 | a row gets a refresh outcome exactly when it is due, and a due row is refreshed exactly when the database accepts the refresh |
| Refresher.DispatchRow | main.py:68-89 | one row issues the refresh of its own `(schema, name)` exactly when due, and gets the outcome that its verdict and the refresh answer give |
| Refresher.DispatchRows | main.py:67-89 | the row loop issues the refreshes of the due rows in row order and gives every row its own outcome, numbered from `first` |
| Refresher.Run | main.py:37-89 | the run issues exactly `Commands(hour, schemas)`, whatever the refresh answers, and records `Outcomes` for every row it reads |
| Refresher.Commands | main.py:28-89 | the schema listing is the first statement of the run and is never issued again (what follows it is characterised by `RunProperties.RunReads` and `RunProperties.RunRefreshes`) |
| Refresher.Outcomes | main.py:67-89 | one outcome per row read, in order |
| Refresher.OutcomesConcat | main.py:67 | the outcomes of two stretches of rows are the first stretch's outcomes followed by the second's, numbered after the first |
| Refresher.SkipStep | main.py:49-54 | a schema without the table adds its existence check to the statements, and no row |
| Refresher.ReadStep | main.py:56-67 | a schema with the table adds its check, its select and its rows' refreshes |
| Refresher.ReadStepOutcomes | main.py:64-67 | a schema with the table adds its rows' outcomes, numbered after the rows read before it |
| RunProperties.DueIffHourListed | main.py:70-80 | a row is due exactly when its text is present, parses, and the parsed list holds the current hour |
| RunProperties.NoHoursIffNullOrEmpty | main.py:70-72 | the no-hours warning is given exactly for NULL and for the empty text, before any parse |
| RunProperties.BlankIsNotDue | main.py:70-89 | non-empty text made of whitespace and commas passes the emptiness test, parses to `[]`, and is skipped as not due |
| RunProperties.FormattedDueIffListed | main.py:75-89 | a non-empty hour list written in the column's format, no numeral over 4300 digits, is due exactly at the hours it lists |
| RunProperties.LateHoursNeverDue | main.py:80-89 | a row whose parsed hours are all 24 or more is never due at a clock hour |
| RunProperties.LateHoursKept | main.py:75-89 | values of 24 or more written in the column's format are kept by the parser, and the row is still never due at a clock hour |
| RunProperties.BadTokenRejectsRow | main.py:74-78 | a token that passes `isdigit` but fails `int` (a non-decimal digit, or over 4300 digits) gives the whole row the invalid-hours warning |
| RunProperties.OutcomeAt | main.py:67-89 | every row read gets exactly one outcome, its own; it is a refresh outcome exactly when the row is due, and a success exactly when the database accepts the refresh |
| RunProperties.RefreshAt | main.py:80-84 | the refresh of a due row appears in the refresh sequence after exactly as many refreshes as there are due rows before it |
| RunProperties.RefreshesAreDue | main.py:80-84 | every refresh issued is the refresh of some due row's own `(schema, name)` |
| RunProperties.DueCountOfRefreshes | main.py:80-84 | the number of refreshes issued equals the number of due rows |
| RunProperties.RunReads | main.py:37-64 | every schema gets its existence check, once and in the order listed, and exactly the schemas whose table exists get their rows read, in the same order |
| RunProperties.RunRefreshes | main.py:37-89 | the refresh statements of the whole run are those of its due rows, in schema order and then row order |
| RunProperties.FailureConfined | main.py:82-87 | changing the database's answer for one refresh changes no other row's outcome, and changes that row only between refreshed and failed |
| RunProperties.EntriesFromTables | main.py:49-67 | every row the run reads comes from a schema whose table exists, and its verdict depends only on its own `hours` |
| RunProperties.TableCommandsFromTables | main.py:49-64 | every data query and every refresh names a schema whose table exists |
| RunProperties.NoTableNoActivity | main.py:49-54 | a schema whose existence check is false or returns no row gets no data query, no refresh and no row outcome |
| Scenarios.ParseExample | main.py:75 | `"3, 7,07,x,,12"` parses to `[3, 7, 7, 12]` |
| Scenarios.NegativeDropped | main.py:75 | `"-1"` is dropped, not an error |
| Scenarios.WordDropped | main.py:75 | `"x"` is dropped, not an error |
| Scenarios.OutOfRangeKept | main.py:75 | `"24"` parses to `[24]`; the parser does not check the range |
| Scenarios.RejectedExample | main.py:74-78 | `"1,²"` is rejected as a whole |
| Scenarios.OverlongNumeralRejectsRow | main.py:74-78 | a numeral of more than 4300 digits gives the row the invalid-hours verdict, even when the tokens before it list the current hour |
| Scenarios.DueAtNoon | main.py:37-89 | at hour 12 a row `("daily_stats", "0,12")` in `app` issues exactly one refresh of `app.daily_stats` |
| Scenarios.EmptyHoursWarn | main.py:70-72 | a row with empty `hours` issues no refresh and gets a single no-hours warning, at any hour |
| Scenarios.MissingTableSkipped | main.py:49-54 | a schema without the table is only checked; no data query, no refresh, no outcome |
| Scenarios.TwoDueSchemas | main.py:37-89 | two schemas that each hold one due row are, in turn, checked, read and refreshed, after the schema listing |
| Scenarios.TwoSchemasDue | main.py:37-89 | two schemas each with a due row give two refreshes, one per `(schema, name)`, each settled by its own answer |

## Left out

- Database I/O is not modelled: the connection, environment variables, autocommit, cursors and SQL text (main.py:10-17, 23-25, 91-92). The catalog answers and table rows are an input snapshot.
- The schema-listing query (main.py:28-35) is modelled only as the `ListSchemas` statement. Its SQL filter that excludes `pg_catalog` and `information_schema` is not modelled: the run takes the schema list it receives.
- Identifier quoting with `sql.Identifier` (main.py:62, 84) is a library call. A refresh is the abstract statement `Refresh(schema, view)`.
- The clock read `datetime.utcnow().hour` (main.py:20) becomes the `hour` parameter, with `hour < 24`.
- Log wording and format are not modelled (main.py:8, 21 and others). Outcome kinds stand for the log lines.
- Errors from the catalog queries, the existence check and the row select propagate out of `main` uncaught. They are not modelled: the snapshot always answers.
- A NULL view name makes `sql.Identifier` raise inside the refresh `try`. That case is not modelled: `Row.name` is a string.
- HourList.MaxStrDigits: the digit limit of `int` is CPython's default. It can be changed with `PYTHONINTMAXSTRDIGITS` or `sys.set_int_max_str_digits`, and Python releases older than 3.11 (and 3.10.7, 3.9.14, 3.8.14, 3.7.14) have no limit. The model counts every digit of the stripped token, leading zeros included.
- HourList.IsDigit: Python's `isdigit` accepts more characters than the model. The model knows the ASCII digits plus the superscript and subscript digits (digits `int` rejects). Other Unicode digits are treated as non-digits and dropped. That covers non-ASCII decimal digits, which `int` would convert, and other `isdigit` characters such as circled digits, which `int` would reject.
- Refresher.Run: the refresh answer is a function of the row's position in the run, not of earlier database state. Locks or failures that depend on what happened before are outside the model.
- Concurrency between overlapping runs is not modelled: the job does no locking of its own.
