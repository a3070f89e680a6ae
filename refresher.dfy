/**
 * One run of the hourly refresh job (`main`, main.py:19-93) with the
 * database replaced by a snapshot: the schemas the catalog lists, each with
 * the answer of its `materializedviews` existence check and the rows that
 * table holds. The run issues database commands and gives every schedule row
 * exactly one outcome.
 */
module Refresher {
  import opened Wrappers
  import opened HourList

  /** A row of `<schema>.materializedviews`: a view name and the raw `hours` text, NULL allowed. */
  datatype Row = Row(name: string, hours: Option<string>)

  /**
   * A schema as the run sees it: its name; what `fetchone` gives for the
   * existence check (`None` when the query returns no row); and the rows its
   * `materializedviews` table holds, read only when the check says it exists.
   */
  datatype Schema = Schema(name: string, tableCheck: Option<bool>, rows: seq<Row>)

  /** The statements the run sends to the database, identifiers kept abstract. */
  datatype Command =
    | ListSchemas
    | CheckTable(schema: string)
    | SelectRows(schema: string)
    | Refresh(schema: string, view: string)

  /** What a row's `hours` text decides before any refresh is attempted. */
  datatype Verdict = NoHours | InvalidHours | NotDue(hourList: seq<nat>) | Due

  /** The outcome logged for a row. */
  datatype Outcome =
    | NoHoursWarning
    | InvalidHoursWarning
    | NotDueSkip(hourList: seq<nat>)
    | Refreshed
    | RefreshFailed

  datatype RowOutcome = RowOutcome(schema: string, view: string, outcome: Outcome)

  /** A schedule row together with the schema it was read from and the verdict on its hours. */
  datatype Entry = Entry(schema: string, row: Row, verdict: Verdict)

  // ---------------------------------------------------------------------------
  // Per-row decision (main.py:70-89)
  // ---------------------------------------------------------------------------

  /** `fetch_result[0] if fetch_result is not None else False` (main.py:49-52). */
  predicate HasTable(s: Schema)
  {
    s.tableCheck == Some(true)
  }

  /**
   * NULL or empty text warns without parsing; a parse that raises warns;
   * otherwise the row is due exactly when the current hour is in the list.
   */
  function Judge(hour: nat, hours: Option<string>): (v: Verdict)
    ensures v == NoHours <==> hours.None? || hours.value == []
    ensures v == InvalidHours <==> hours.Some? && hours.value != [] && !AllConvert(Split(hours.value, ','))
    ensures v.NotDue? ==> hours.Some? && ParseHours(hours.value) == Some(v.hourList) && hour !in v.hourList
  {
    if hours.None? || hours.value == [] then NoHours
    else
      match ParseHours(hours.value)
      case None => InvalidHours
      case Some(hourList) => if hour in hourList then Due else NotDue(hourList)
  }

  /** The outcome of a row once its verdict and, for a due row, the refresh result are known. */
  function Settle(v: Verdict, succeeded: bool): (o: Outcome)
    ensures (o.Refreshed? || o.RefreshFailed?) <==> v == Due
    ensures v == Due ==> (o.Refreshed? <==> succeeded)
  {
    match v
    case NoHours => NoHoursWarning
    case InvalidHours => InvalidHoursWarning
    case NotDue(hourList) => NotDueSkip(hourList)
    case Due => if succeeded then Refreshed else RefreshFailed
  }

  // ---------------------------------------------------------------------------
  // The whole run as functions of the snapshot
  // ---------------------------------------------------------------------------

  /** The rows of one table, each tagged with the schema it was read from. */
  function RowEntries(hour: nat, schema: string, rows: seq<Row>): (es: seq<Entry>)
    ensures |es| == |rows|
  {
    seq(|rows|, k requires 0 <= k < |rows| => Entry(schema, rows[k], Judge(hour, rows[k].hours)))
  }

  /** The rows the run reads from one schema: none unless its table exists. */
  function TableEntries(hour: nat, s: Schema): seq<Entry>
  {
    if HasTable(s) then RowEntries(hour, s.name, s.rows) else []
  }

  /** Every row the run reads, in schema order and then row order. */
  function Entries(hour: nat, schemas: seq<Schema>): seq<Entry>
  {
    if schemas == [] then [] else TableEntries(hour, schemas[0]) + Entries(hour, schemas[1..])
  }

  /** The refresh statement a row issues, if it is due. */
  function RowRefresh(e: Entry): seq<Command>
  {
    if e.verdict == Due then [Refresh(e.schema, e.row.name)] else []
  }

  /** The refresh statements issued for `es`, one per due row, in order. */
  function RefreshCommands(es: seq<Entry>): seq<Command>
  {
    if es == [] then [] else RowRefresh(es[0]) + RefreshCommands(es[1..])
  }

  /** How many of the rows `es` are due. */
  function DueCount(es: seq<Entry>): nat
  {
    if es == [] then 0 else (if es[0].verdict == Due then 1 else 0) + DueCount(es[1..])
  }

  /** The statements issued while one schema is processed. */
  function SchemaCommands(hour: nat, s: Schema): seq<Command>
  {
    [CheckTable(s.name)]
      + (if HasTable(s) then [SelectRows(s.name)] + RefreshCommands(TableEntries(hour, s)) else [])
  }

  function SchemasCommands(hour: nat, schemas: seq<Schema>): seq<Command>
  {
    if schemas == [] then [] else SchemaCommands(hour, schemas[0]) + SchemasCommands(hour, schemas[1..])
  }

  /** All statements of the run, in order: the schema listing comes first and only once. */
  function Commands(hour: nat, schemas: seq<Schema>): (c: seq<Command>)
    ensures |c| >= 1 && c[0] == ListSchemas
    ensures ListSchemas !in c[1..]
  {
    NoListingInSchemas(hour, schemas);
    assert ([ListSchemas] + SchemasCommands(hour, schemas))[1..] == SchemasCommands(hour, schemas);
    [ListSchemas] + SchemasCommands(hour, schemas)
  }

  lemma {:induction false} NoListingInRefreshes(es: seq<Entry>)
    ensures ListSchemas !in RefreshCommands(es)
  {
    if es != [] {
      NoListingInRefreshes(es[1..]);
    }
  }

  lemma {:induction false} NoListingInSchemas(hour: nat, schemas: seq<Schema>)
    ensures ListSchemas !in SchemasCommands(hour, schemas)
  {
    if schemas != [] {
      NoListingInRefreshes(TableEntries(hour, schemas[0]));
      NoListingInSchemas(hour, schemas[1..]);
    }
  }

  /**
   * The outcome of every row in `es`, in order. `refreshOk(k)` says whether
   * the database accepts the refresh of the k-th row read in the run
   * (counting from 0) should that row be due, and `first` is the number of
   * the first row of `es`.
   */
  function Outcomes(es: seq<Entry>, refreshOk: nat -> bool, first: nat): (os: seq<RowOutcome>)
    ensures |os| == |es|
  {
    if es == [] then []
    else
      [RowOutcome(es[0].schema, es[0].row.name, Settle(es[0].verdict, refreshOk(first)))]
        + Outcomes(es[1..], refreshOk, first + 1)
  }

  // ---------------------------------------------------------------------------
  // The run (main.py:37-89)
  // ---------------------------------------------------------------------------

  /**
   * The body of the row loop (main.py:68-89): warns about NULL or empty
   * hours, warns when the parse raises, skips a row that is not due, and
   * otherwise issues one refresh, whose failure is caught and recorded as the
   * row's outcome. `index` is the number of rows read before it in the run.
   */
  method DispatchRow(hour: nat, schema: string, row: Row, index: nat, refreshOk: nat -> bool)
    returns (refresh: seq<Command>, outcome: RowOutcome)
    ensures refresh == RowRefresh(Entry(schema, row, Judge(hour, row.hours)))
    ensures outcome == RowOutcome(schema, row.name, Settle(Judge(hour, row.hours), refreshOk(index)))
  {
    refresh := [];
    if row.hours.None? || row.hours.value == [] {
      outcome := RowOutcome(schema, row.name, NoHoursWarning);
      return;
    }
    var parsed := ParseHours(row.hours.value);
    if parsed.None? {
      outcome := RowOutcome(schema, row.name, InvalidHoursWarning);
      return;
    }
    if hour in parsed.value {
      refresh := [Refresh(schema, row.name)];
      var succeeded := refreshOk(index);
      outcome := RowOutcome(schema, row.name, if succeeded then Refreshed else RefreshFailed);
    } else {
      outcome := RowOutcome(schema, row.name, NotDueSkip(parsed.value));
    }
  }

  /**
   * The row loop of one schema (main.py:67-89); `first` rows were read
   * earlier in the run.
   */
  method DispatchRows(hour: nat, schema: string, rows: seq<Row>, first: nat, refreshOk: nat -> bool)
    returns (refreshes: seq<Command>, rowOutcomes: seq<RowOutcome>)
    ensures refreshes == RefreshCommands(RowEntries(hour, schema, rows))
    ensures rowOutcomes == Outcomes(RowEntries(hour, schema, rows), refreshOk, first)
  {
    ghost var es := RowEntries(hour, schema, rows);
    refreshes, rowOutcomes := [], [];
    for j := 0 to |rows|
      invariant refreshes == RefreshCommands(es[..j])
      invariant rowOutcomes == Outcomes(es[..j], refreshOk, first)
    {
      var refresh, outcome := DispatchRow(hour, schema, rows[j], first + j, refreshOk);
      assert es[j] == Entry(schema, rows[j], Judge(hour, rows[j].hours));
      Extend(es, j, refreshOk, first);
      refreshes := refreshes + refresh;
      rowOutcomes := rowOutcomes + [outcome];
    }
    assert es[..|rows|] == es;
  }

  /**
   * Walks the schemas and their rows as `main` does (main.py:37-89),
   * returning the statements it issued and the outcome of every row. The
   * statements do not depend on `refreshOk`: a failed refresh stops nothing
   * that follows it.
   */
  method Run(hour: nat, schemas: seq<Schema>, refreshOk: nat -> bool)
    returns (issued: seq<Command>, outcomes: seq<RowOutcome>)
    requires hour < 24
    ensures issued == Commands(hour, schemas)
    ensures outcomes == Outcomes(Entries(hour, schemas), refreshOk, 0)
  {
    issued := [ListSchemas];
    outcomes := [];
    for i := 0 to |schemas|
      invariant issued == [ListSchemas] + SchemasCommands(hour, schemas[..i])
      invariant outcomes == Outcomes(Entries(hour, schemas[..i]), refreshOk, 0)
    {
      var schema := schemas[i];
      issued := issued + [CheckTable(schema.name)];
      if schema.tableCheck != Some(true) {
        SkipStep(hour, schemas, i);
        continue;
      }
      issued := issued + [SelectRows(schema.name)];
      var refreshes, rowOutcomes := DispatchRows(hour, schema.name, schema.rows, |outcomes|, refreshOk);
      ReadStep(hour, schemas, i);
      ReadStepOutcomes(hour, schemas, i, refreshOk);
      issued := issued + refreshes;
      outcomes := outcomes + rowOutcomes;
    }
    assert schemas[..|schemas|] == schemas;
  }

  // ---------------------------------------------------------------------------
  // How the run functions compose
  // ---------------------------------------------------------------------------

  lemma {:induction false} RefreshCommandsConcat(a: seq<Entry>, b: seq<Entry>)
    ensures RefreshCommands(a + b) == RefreshCommands(a) + RefreshCommands(b)
    decreases |a|
  {
    if a == [] {
      assert a + b == b;
    } else {
      assert (a + b)[0] == a[0];
      assert (a + b)[1..] == a[1..] + b;
      RefreshCommandsConcat(a[1..], b);
    }
  }

  /** The outcomes of two stretches of rows, the second numbered after the first. */
  lemma {:induction false} OutcomesConcat(a: seq<Entry>, b: seq<Entry>, refreshOk: nat -> bool, first: nat)
    ensures Outcomes(a + b, refreshOk, first) == Outcomes(a, refreshOk, first) + Outcomes(b, refreshOk, first + |a|)
    decreases |a|
  {
    if a == [] {
      assert a + b == b;
    } else {
      var o := RowOutcome(a[0].schema, a[0].row.name, Settle(a[0].verdict, refreshOk(first)));
      calc {
        Outcomes(a + b, refreshOk, first);
        { assert (a + b)[0] == a[0]; assert (a + b)[1..] == a[1..] + b; }
        [o] + Outcomes(a[1..] + b, refreshOk, first + 1);
        { OutcomesConcat(a[1..], b, refreshOk, first + 1); }
        [o] + (Outcomes(a[1..], refreshOk, first + 1) + Outcomes(b, refreshOk, first + |a|));
        ([o] + Outcomes(a[1..], refreshOk, first + 1)) + Outcomes(b, refreshOk, first + |a|);
      }
    }
  }

  /** Handling entry `j` extends the refreshes and outcomes of the entries before it by its own. */
  lemma Extend(es: seq<Entry>, j: nat, refreshOk: nat -> bool, first: nat)
    requires j < |es|
    ensures RefreshCommands(es[..j + 1]) == RefreshCommands(es[..j]) + RowRefresh(es[j])
    ensures Outcomes(es[..j + 1], refreshOk, first) == Outcomes(es[..j], refreshOk, first)
      + [RowOutcome(es[j].schema, es[j].row.name, Settle(es[j].verdict, refreshOk(first + j)))]
  {
    var e := es[j];
    assert es[..j + 1] == es[..j] + [e];
    assert [e][1..] == [];
    RefreshCommandsConcat(es[..j], [e]);
    OutcomesConcat(es[..j], [e], refreshOk, first);
    assert RowRefresh(e) + [] == RowRefresh(e);
  }

  lemma {:induction false} EntriesConcat(hour: nat, a: seq<Schema>, b: seq<Schema>)
    ensures Entries(hour, a + b) == Entries(hour, a) + Entries(hour, b)
    decreases |a|
  {
    if a == [] {
      assert a + b == b;
    } else {
      assert (a + b)[0] == a[0];
      assert (a + b)[1..] == a[1..] + b;
      EntriesConcat(hour, a[1..], b);
    }
  }

  lemma {:induction false} SchemasCommandsConcat(hour: nat, a: seq<Schema>, b: seq<Schema>)
    ensures SchemasCommands(hour, a + b) == SchemasCommands(hour, a) + SchemasCommands(hour, b)
    decreases |a|
  {
    if a == [] {
      assert a + b == b;
    } else {
      assert (a + b)[0] == a[0];
      assert (a + b)[1..] == a[1..] + b;
      SchemasCommandsConcat(hour, a[1..], b);
      var head := SchemaCommands(hour, a[0]);
      calc {
        SchemasCommands(hour, a + b);
        head + SchemasCommands(hour, a[1..] + b);
        head + (SchemasCommands(hour, a[1..]) + SchemasCommands(hour, b));
        (head + SchemasCommands(hour, a[1..])) + SchemasCommands(hour, b);
      }
    }
  }

  lemma PrefixStep(hour: nat, schemas: seq<Schema>, i: nat)
    requires i < |schemas|
    ensures Entries(hour, schemas[..i + 1]) == Entries(hour, schemas[..i]) + TableEntries(hour, schemas[i])
    ensures SchemasCommands(hour, schemas[..i + 1]) == SchemasCommands(hour, schemas[..i]) + SchemaCommands(hour, schemas[i])
  {
    var s := schemas[i];
    assert schemas[..i + 1] == schemas[..i] + [s];
    EntriesConcat(hour, schemas[..i], [s]);
    SchemasCommandsConcat(hour, schemas[..i], [s]);
    assert [s][1..] == [];
    assert TableEntries(hour, s) + [] == TableEntries(hour, s);
    assert SchemaCommands(hour, s) + [] == SchemaCommands(hour, s);
  }

  /** A schema without a schedule table adds its existence check and nothing else. */
  lemma SkipStep(hour: nat, schemas: seq<Schema>, i: nat)
    requires i < |schemas| && !HasTable(schemas[i])
    ensures [ListSchemas] + SchemasCommands(hour, schemas[..i + 1])
      == [ListSchemas] + SchemasCommands(hour, schemas[..i]) + [CheckTable(schemas[i].name)]
    ensures Entries(hour, schemas[..i + 1]) == Entries(hour, schemas[..i])
  {
    var cs := SchemasCommands(hour, schemas[..i]);
    PrefixStep(hour, schemas, i);
    assert Entries(hour, schemas[..i]) + [] == Entries(hour, schemas[..i]);
    assert cs + ([CheckTable(schemas[i].name)] + []) == cs + [CheckTable(schemas[i].name)];
  }

  /** A schema with a schedule table adds its check, its select and the refreshes of its due rows. */
  lemma ReadStep(hour: nat, schemas: seq<Schema>, i: nat)
    requires i < |schemas| && HasTable(schemas[i])
    ensures [ListSchemas] + SchemasCommands(hour, schemas[..i + 1])
      == [ListSchemas] + SchemasCommands(hour, schemas[..i]) + [CheckTable(schemas[i].name)]
        + [SelectRows(schemas[i].name)] + RefreshCommands(RowEntries(hour, schemas[i].name, schemas[i].rows))
  {
    var s := schemas[i];
    var cs := SchemasCommands(hour, schemas[..i]);
    var rs := RowEntries(hour, s.name, s.rows);
    PrefixStep(hour, schemas, i);
    calc {
      [ListSchemas] + SchemasCommands(hour, schemas[..i + 1]);
      [ListSchemas] + (cs + ([CheckTable(s.name)] + ([SelectRows(s.name)] + RefreshCommands(rs))));
      [ListSchemas] + cs + [CheckTable(s.name)] + [SelectRows(s.name)] + RefreshCommands(rs);
    }
  }

  /**
   * The outcomes of a run's rows split at a schema boundary. `OutcomesConcat`
   * at `first == 0`, over opaque arguments: stated inside `ReadStepOutcomes`,
   * whose context holds the definitions of `before` and `rest`, the same
   * step runs out of resource.
   */
  lemma OutcomesSplit(all: seq<Entry>, before: seq<Entry>, rest: seq<Entry>, refreshOk: nat -> bool)
    requires all == before + rest
    ensures Outcomes(all, refreshOk, 0) == Outcomes(before, refreshOk, 0) + Outcomes(rest, refreshOk, |before|)
  {
    OutcomesConcat(before, rest, refreshOk, 0);
  }

  /** A schema with a schedule table adds the outcomes of its rows, numbered after the rows read before it. */
  lemma ReadStepOutcomes(hour: nat, schemas: seq<Schema>, i: nat, refreshOk: nat -> bool)
    requires i < |schemas| && HasTable(schemas[i])
    ensures Outcomes(Entries(hour, schemas[..i + 1]), refreshOk, 0)
      == Outcomes(Entries(hour, schemas[..i]), refreshOk, 0)
        + Outcomes(RowEntries(hour, schemas[i].name, schemas[i].rows), refreshOk, |Entries(hour, schemas[..i])|)
  {
    var before := Entries(hour, schemas[..i]);
    var rs := RowEntries(hour, schemas[i].name, schemas[i].rows);
    PrefixStep(hour, schemas, i);
    OutcomesSplit(Entries(hour, schemas[..i + 1]), before, rs, refreshOk);
  }
}
