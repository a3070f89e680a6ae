/**
 * What one run of the refresh job guarantees about each schedule row and
 * about the statements it sends, stated over the run functions that
 * `Refresher.Run` is proved to compute.
 */
module RunProperties {
  import opened Wrappers
  import opened HourList
  import opened Refresher

  // ---------------------------------------------------------------------------
  // The decision on one row (main.py:70-89)
  // ---------------------------------------------------------------------------

  /**
   * A row is due exactly when its text is present and parses to a list that
   * holds the current hour; the empty-text test in front of the parser only
   * picks the warning, because the empty text parses to the empty list.
   */
  lemma DueIffHourListed(hour: nat, hours: Option<string>)
    ensures Judge(hour, hours) == Due
      <==> hours.Some? && ParseHours(hours.value).Some? && hour in ParseHours(hours.value).value
  {
    if hours.Some? && hours.value == [] {
      BlankParsesEmpty(hours.value);
    }
  }

  /** NULL and the empty text, and only they, give the no-hours warning without reaching the parser. */
  lemma NoHoursIffNullOrEmpty(hour: nat, hours: Option<string>)
    ensures Judge(hour, hours) == NoHours <==> hours == None || hours == Some([])
  {
  }

  /**
   * Text made only of whitespace and commas is not empty, so it passes the
   * test at main.py:70, parses to the empty list and is skipped as not due.
   */
  lemma BlankIsNotDue(hour: nat, h: string)
    requires h != []
    requires forall k :: 0 <= k < |h| ==> IsSpace(h[k]) || h[k] == ','
    ensures Judge(hour, Some(h)) == NotDue([])
  {
    BlankParsesEmpty(h);
  }

  /** A non-empty hour list written in the column's format is due exactly at the hours it lists. */
  lemma FormattedDueIffListed(hour: nat, hourList: seq<nat>)
    requires hourList != [] && Convertible(hourList)
    ensures Judge(hour, Some(FormatHours(hourList))) == (if hour in hourList then Due else NotDue(hourList))
  {
    ParseFormat(hourList);
    FormatNonEmpty(hourList);
  }

  lemma FormatNonEmpty(hourList: seq<nat>)
    requires hourList != []
    ensures FormatHours(hourList) != []
  {
    var ns := Numerals(hourList);
    if |ns| > 1 {
      assert Join(ns, ',') == ns[0] + [','] + Join(ns[1..], ',');
    }
  }

  /** A row whose parsed hours are all 24 or more is never due: a clock hour cannot match them. */
  lemma LateHoursNeverDue(hour: nat, hours: Option<string>)
    requires hour < 24
    requires hours.Some? && ParseHours(hours.value).Some? ==>
      forall k :: 0 <= k < |ParseHours(hours.value).value| ==> ParseHours(hours.value).value[k] >= 24
    ensures Judge(hour, hours) != Due
  {
    DueIffHourListed(hour, hours);
  }

  /** Values above 23 are kept by the parser, but a clock hour never matches them. */
  lemma LateHoursKept(hour: nat, hourList: seq<nat>)
    requires hour < 24 && Convertible(hourList)
    requires forall k :: 0 <= k < |hourList| ==> hourList[k] >= 24
    ensures ParseHours(FormatHours(hourList)) == Some(hourList)
    ensures Judge(hour, Some(FormatHours(hourList))) != Due
  {
    ParseFormat(hourList);
    LateHoursNeverDue(hour, Some(FormatHours(hourList)));
  }

  /**
   * A token that `isdigit` accepts but `int` rejects (a non-decimal digit,
   * or more digits than the bound) turns the whole row into the parse-error
   * warning, whatever the tokens around it are.
   */
  lemma BadTokenRejectsRow(hour: nat, a: string, t: string, b: string)
    requires ',' !in t
    requires IsDigitString(Strip(t)) && !Converts(Strip(t))
    ensures Judge(hour, Some(a + [','] + t + [','] + b)) == InvalidHours
    ensures Judge(hour, Some(t)) == InvalidHours
  {
    OneBadTokenRejectsAll(a, t, b);
  }

  // ---------------------------------------------------------------------------
  // One outcome per row, and the refreshes in row order
  // ---------------------------------------------------------------------------

  /**
   * Every row read gets exactly one outcome, its own: a refresh outcome when
   * it is due and a warning or a skip otherwise; a due row is refreshed
   * exactly when the database accepts its refresh.
   */
  lemma {:induction false} OutcomeAt(es: seq<Entry>, refreshOk: nat -> bool, first: nat, k: nat)
    requires k < |es|
    ensures |Outcomes(es, refreshOk, first)| == |es|
    ensures Outcomes(es, refreshOk, first)[k]
      == RowOutcome(es[k].schema, es[k].row.name, Settle(es[k].verdict, refreshOk(first + k)))
    ensures var o := Outcomes(es, refreshOk, first)[k].outcome;
      && ((o.Refreshed? || o.RefreshFailed?) <==> es[k].verdict == Due)
      && (o.Refreshed? <==> es[k].verdict == Due && refreshOk(first + k))
    decreases k
  {
    if k > 0 {
      OutcomeAt(es[1..], refreshOk, first + 1, k - 1);
    }
  }

  /** The rows of one table, in table order, each with the verdict on its own hours. */
  lemma RowEntryAt(hour: nat, schema: string, rows: seq<Row>, k: nat)
    requires k < |rows|
    ensures RowEntries(hour, schema, rows)[k] == Entry(schema, rows[k], Judge(hour, rows[k].hours))
  {
  }

  lemma {:induction false} DueCountOfRefreshes(es: seq<Entry>)
    ensures |RefreshCommands(es)| == DueCount(es)
    decreases |es|
  {
    if es != [] {
      DueCountOfRefreshes(es[1..]);
    }
  }

  lemma {:induction false} DueCountConcat(a: seq<Entry>, b: seq<Entry>)
    ensures DueCount(a + b) == DueCount(a) + DueCount(b)
    decreases |a|
  {
    if a == [] {
      assert a + b == b;
    } else {
      assert (a + b)[0] == a[0];
      assert (a + b)[1..] == a[1..] + b;
      DueCountConcat(a[1..], b);
    }
  }

  /**
   * The refreshes follow row order: the refresh of a due row comes after
   * exactly as many refreshes as there are due rows before it.
   */
  lemma RefreshAt(es: seq<Entry>, i: nat)
    requires i < |es| && es[i].verdict == Due
    ensures DueCount(es[..i]) < |RefreshCommands(es)|
    ensures RefreshCommands(es)[DueCount(es[..i])] == Refresh(es[i].schema, es[i].row.name)
  {
    var before, rest := es[..i], es[i..];
    assert es == before + rest;
    assert rest == [es[i]] + rest[1..];
    RefreshCommandsConcat(before, rest);
    DueCountOfRefreshes(before);
    DueCountOfRefreshes(es);
    DueCountConcat(before, rest);
    assert RefreshCommands(rest)[0] == Refresh(es[i].schema, es[i].row.name);
  }

  /** Every refresh statement is the refresh of a due row of its own schema and name. */
  lemma {:induction false} RefreshesAreDue(es: seq<Entry>, c: Command)
    requires c in RefreshCommands(es)
    ensures exists k :: 0 <= k < |es| && es[k].verdict == Due && c == Refresh(es[k].schema, es[k].row.name)
    decreases |es|
  {
    if c in RowRefresh(es[0]) {
      assert es[0].verdict == Due && c == Refresh(es[0].schema, es[0].row.name);
    } else {
      RefreshesAreDue(es[1..], c);
      var k :| 0 <= k < |es[1..]| && es[1..][k].verdict == Due && c == Refresh(es[1..][k].schema, es[1..][k].row.name);
      assert es[k + 1] == es[1..][k];
    }
  }

  /** The refresh statements among `cs`, in order. */
  function RefreshesIn(cs: seq<Command>): seq<Command>
  {
    if cs == [] then [] else (if cs[0].Refresh? then [cs[0]] else []) + RefreshesIn(cs[1..])
  }

  lemma {:induction false} RefreshesInConcat(a: seq<Command>, b: seq<Command>)
    ensures RefreshesIn(a + b) == RefreshesIn(a) + RefreshesIn(b)
    decreases |a|
  {
    if a == [] {
      assert a + b == b;
    } else {
      assert (a + b)[0] == a[0];
      assert (a + b)[1..] == a[1..] + b;
      RefreshesInConcat(a[1..], b);
    }
  }

  lemma {:induction false} RefreshesInRefreshes(es: seq<Entry>)
    ensures RefreshesIn(RefreshCommands(es)) == RefreshCommands(es)
    decreases |es|
  {
    if es != [] {
      RefreshesInConcat(RowRefresh(es[0]), RefreshCommands(es[1..]));
      RefreshesInRefreshes(es[1..]);
      if es[0].verdict == Due {
        assert RefreshesIn(RowRefresh(es[0])) == RowRefresh(es[0]) + RefreshesIn([]);
      }
    }
  }

  /** The refreshes issued while one schema is processed are those of its due rows. */
  lemma SchemaRefreshes(hour: nat, s: Schema)
    ensures RefreshesIn(SchemaCommands(hour, s)) == RefreshCommands(TableEntries(hour, s))
  {
    var rs := RefreshCommands(TableEntries(hour, s));
    assert RefreshesIn([CheckTable(s.name)]) == [] + RefreshesIn([]);
    if HasTable(s) {
      assert RefreshesIn([SelectRows(s.name)]) == [] + RefreshesIn([]);
      RefreshesInConcat([CheckTable(s.name)], [SelectRows(s.name)] + rs);
      RefreshesInConcat([SelectRows(s.name)], rs);
      RefreshesInRefreshes(TableEntries(hour, s));
    } else {
      assert SchemaCommands(hour, s) == [CheckTable(s.name)] + [];
    }
  }

  lemma {:induction false} SchemasRefreshes(hour: nat, schemas: seq<Schema>)
    ensures RefreshesIn(SchemasCommands(hour, schemas)) == RefreshCommands(Entries(hour, schemas))
    decreases |schemas|
  {
    if schemas != [] {
      var s := schemas[0];
      SchemasRefreshes(hour, schemas[1..]);
      SchemaRefreshes(hour, s);
      RefreshesInConcat(SchemaCommands(hour, s), SchemasCommands(hour, schemas[1..]));
      RefreshCommandsConcat(TableEntries(hour, s), Entries(hour, schemas[1..]));
    }
  }

  /**
   * The refreshes the whole run issues are those of its due rows, one each,
   * in schema order and then row order.
   */
  lemma RunRefreshes(hour: nat, schemas: seq<Schema>)
    ensures RefreshesIn(Commands(hour, schemas)) == RefreshCommands(Entries(hour, schemas))
  {
    SchemasRefreshes(hour, schemas);
    RefreshesInConcat([ListSchemas], SchemasCommands(hour, schemas));
    assert RefreshesIn([ListSchemas]) == [] + RefreshesIn([]);
  }

  /** The schemas whose table-existence check is among `cs`, in order. */
  function ChecksIn(cs: seq<Command>): seq<string>
  {
    if cs == [] then [] else (if cs[0].CheckTable? then [cs[0].schema] else []) + ChecksIn(cs[1..])
  }

  /** The schemas whose table is read among `cs`, in order. */
  function SelectsIn(cs: seq<Command>): seq<string>
  {
    if cs == [] then [] else (if cs[0].SelectRows? then [cs[0].schema] else []) + SelectsIn(cs[1..])
  }

  function Names(schemas: seq<Schema>): seq<string>
  {
    if schemas == [] then [] else [schemas[0].name] + Names(schemas[1..])
  }

  function TableNames(schemas: seq<Schema>): seq<string>
  {
    if schemas == [] then [] else (if HasTable(schemas[0]) then [schemas[0].name] else []) + TableNames(schemas[1..])
  }

  lemma {:induction false} ChecksInConcat(a: seq<Command>, b: seq<Command>)
    ensures ChecksIn(a + b) == ChecksIn(a) + ChecksIn(b)
    decreases |a|
  {
    if a == [] {
      assert a + b == b;
    } else {
      assert (a + b)[0] == a[0];
      assert (a + b)[1..] == a[1..] + b;
      ChecksInConcat(a[1..], b);
    }
  }

  lemma {:induction false} SelectsInConcat(a: seq<Command>, b: seq<Command>)
    ensures SelectsIn(a + b) == SelectsIn(a) + SelectsIn(b)
    decreases |a|
  {
    if a == [] {
      assert a + b == b;
    } else {
      assert (a + b)[0] == a[0];
      assert (a + b)[1..] == a[1..] + b;
      SelectsInConcat(a[1..], b);
    }
  }

  lemma ReadsInConcat(a: seq<Command>, b: seq<Command>)
    ensures ChecksIn(a + b) == ChecksIn(a) + ChecksIn(b)
    ensures SelectsIn(a + b) == SelectsIn(a) + SelectsIn(b)
  {
    ChecksInConcat(a, b);
    SelectsInConcat(a, b);
  }

  lemma {:induction false} NoReadsInRefreshes(es: seq<Entry>)
    ensures ChecksIn(RefreshCommands(es)) == [] && SelectsIn(RefreshCommands(es)) == []
    decreases |es|
  {
    if es != [] {
      ReadsInConcat(RowRefresh(es[0]), RefreshCommands(es[1..]));
      NoReadsInRefreshes(es[1..]);
    }
  }

  lemma SchemaReads(hour: nat, s: Schema)
    ensures ChecksIn(SchemaCommands(hour, s)) == [s.name]
    ensures SelectsIn(SchemaCommands(hour, s)) == if HasTable(s) then [s.name] else []
  {
    var rs := RefreshCommands(TableEntries(hour, s));
    assert ChecksIn([CheckTable(s.name)]) == [s.name] + ChecksIn([]);
    assert SelectsIn([CheckTable(s.name)]) == [] + SelectsIn([]);
    if HasTable(s) {
      assert ChecksIn([SelectRows(s.name)]) == [] + ChecksIn([]);
      assert SelectsIn([SelectRows(s.name)]) == [s.name] + SelectsIn([]);
      ReadsInConcat([CheckTable(s.name)], [SelectRows(s.name)] + rs);
      ReadsInConcat([SelectRows(s.name)], rs);
      NoReadsInRefreshes(TableEntries(hour, s));
    } else {
      assert SchemaCommands(hour, s) == [CheckTable(s.name)] + [];
    }
  }

  lemma {:induction false} SchemasReads(hour: nat, schemas: seq<Schema>)
    ensures ChecksIn(SchemasCommands(hour, schemas)) == Names(schemas)
    ensures SelectsIn(SchemasCommands(hour, schemas)) == TableNames(schemas)
    decreases |schemas|
  {
    if schemas != [] {
      SchemasReads(hour, schemas[1..]);
      SchemaReads(hour, schemas[0]);
      ReadsInConcat(SchemaCommands(hour, schemas[0]), SchemasCommands(hour, schemas[1..]));
    }
  }

  /**
   * The run checks every schema for the table, once each and in the order
   * listed, whatever happened to earlier schemas; and it reads the rows of
   * exactly the schemas whose table exists, in the same order.
   */
  lemma RunReads(hour: nat, schemas: seq<Schema>)
    ensures ChecksIn(Commands(hour, schemas)) == Names(schemas)
    ensures SelectsIn(Commands(hour, schemas)) == TableNames(schemas)
  {
    SchemasReads(hour, schemas);
    ReadsInConcat([ListSchemas], SchemasCommands(hour, schemas));
    assert ChecksIn([ListSchemas]) == [] + ChecksIn([]);
    assert SelectsIn([ListSchemas]) == [] + SelectsIn([]);
  }

  // ---------------------------------------------------------------------------
  // Failures stay within their row
  // ---------------------------------------------------------------------------

  /**
   * Two database behaviours that differ only on the refresh of row `m` give
   * the same outcome to every other row: a failed refresh changes nothing
   * but its own row's outcome, and then only from refreshed to failed.
   */
  lemma FailureConfined(es: seq<Entry>, ok1: nat -> bool, ok2: nat -> bool, first: nat, m: nat)
    requires forall n :: n != m ==> ok1(n) == ok2(n)
    ensures |Outcomes(es, ok1, first)| == |Outcomes(es, ok2, first)| == |es|
    ensures forall k :: 0 <= k < |es| && first + k != m ==> Outcomes(es, ok1, first)[k] == Outcomes(es, ok2, first)[k]
    ensures forall k :: 0 <= k < |es| ==>
      var o1, o2 := Outcomes(es, ok1, first)[k], Outcomes(es, ok2, first)[k];
      && o1.schema == o2.schema && o1.view == o2.view
      && (o1.outcome == o2.outcome || (o1.outcome.Refreshed? && o2.outcome.RefreshFailed?)
          || (o1.outcome.RefreshFailed? && o2.outcome.Refreshed?))
  {
    forall k | 0 <= k < |es|
      ensures first + k != m ==> Outcomes(es, ok1, first)[k] == Outcomes(es, ok2, first)[k]
      ensures var o1, o2 := Outcomes(es, ok1, first)[k], Outcomes(es, ok2, first)[k];
        && o1.schema == o2.schema && o1.view == o2.view
        && (o1.outcome == o2.outcome || (o1.outcome.Refreshed? && o2.outcome.RefreshFailed?)
            || (o1.outcome.RefreshFailed? && o2.outcome.Refreshed?))
    {
      OutcomeAt(es, ok1, first, k);
      OutcomeAt(es, ok2, first, k);
    }
  }

  // ---------------------------------------------------------------------------
  // Schemas without a schedule table (main.py:49-54)
  // ---------------------------------------------------------------------------

  /** Every row the run reads comes from a schema whose table exists, with the verdict on its own hours. */
  lemma {:induction false} EntriesFromTables(hour: nat, schemas: seq<Schema>, e: Entry)
    requires e in Entries(hour, schemas)
    ensures exists i ::
        0 <= i < |schemas| && HasTable(schemas[i]) && e.schema == schemas[i].name && e.row in schemas[i].rows
    ensures e.verdict == Judge(hour, e.row.hours)
    decreases |schemas|
  {
    var s := schemas[0];
    if e in TableEntries(hour, s) {
      var k :| 0 <= k < |TableEntries(hour, s)| && TableEntries(hour, s)[k] == e;
      RowEntryAt(hour, s.name, s.rows, k);
      assert HasTable(schemas[0]) && e.schema == schemas[0].name && e.row in schemas[0].rows;
    } else {
      EntriesFromTables(hour, schemas[1..], e);
      var i :| 0 <= i < |schemas[1..]| && HasTable(schemas[1..][i]) && e.schema == schemas[1..][i].name
        && e.row in schemas[1..][i].rows;
      assert schemas[i + 1] == schemas[1..][i];
    }
  }

  /** Every data query and every refresh names a schema whose table exists. */
  lemma {:induction false} TableCommandsFromTables(hour: nat, schemas: seq<Schema>, c: Command)
    requires c in SchemasCommands(hour, schemas) && (c.SelectRows? || c.Refresh?)
    ensures exists i :: 0 <= i < |schemas| && HasTable(schemas[i]) && c.schema == schemas[i].name
    decreases |schemas|
  {
    var s := schemas[0];
    if c in SchemaCommands(hour, s) {
      assert HasTable(s);
      var rs := RowEntries(hour, s.name, s.rows);
      assert c in [SelectRows(s.name)] + RefreshCommands(rs);
      if c in RefreshCommands(rs) {
        RefreshesAreDue(rs, c);
        var k :| 0 <= k < |rs| && rs[k].verdict == Due && c == Refresh(rs[k].schema, rs[k].row.name);
        RowEntryAt(hour, s.name, s.rows, k);
      }
      assert HasTable(schemas[0]) && c.schema == schemas[0].name;
    } else {
      TableCommandsFromTables(hour, schemas[1..], c);
      var i :| 0 <= i < |schemas[1..]| && HasTable(schemas[1..][i]) && c.schema == schemas[1..][i].name;
      assert schemas[i + 1] == schemas[1..][i];
    }
  }

  /**
   * A schema whose existence check is false or returns no row gets no data
   * query, no refresh and no row outcome (its name told apart from the
   * others, as the catalog's schema names are).
   */
  lemma NoTableNoActivity(hour: nat, schemas: seq<Schema>, i: nat, refreshOk: nat -> bool)
    requires i < |schemas| && !HasTable(schemas[i])
    requires forall j :: 0 <= j < |schemas| && j != i ==> schemas[j].name != schemas[i].name
    ensures forall c :: c in Commands(hour, schemas) && (c.SelectRows? || c.Refresh?) ==> c.schema != schemas[i].name
    ensures forall o :: o in Outcomes(Entries(hour, schemas), refreshOk, 0) ==> o.schema != schemas[i].name
  {
    forall c | c in Commands(hour, schemas) && (c.SelectRows? || c.Refresh?)
      ensures c.schema != schemas[i].name
    {
      TableCommandsFromTables(hour, schemas, c);
    }
    var es := Entries(hour, schemas);
    forall o | o in Outcomes(es, refreshOk, 0)
      ensures o.schema != schemas[i].name
    {
      var k :| 0 <= k < |es| && Outcomes(es, refreshOk, 0)[k] == o;
      OutcomeAt(es, refreshOk, 0, k);
      EntriesFromTables(hour, schemas, es[k]);
    }
  }
}
