/**
 * Concrete rows and runs: the example hour list of the column and four
 * end-to-end runs of the job against small database snapshots.
 */
module Scenarios {
  import opened Wrappers
  import opened HourList
  import opened Refresher
  import opened RunProperties

  /** A token without whitespace, whose digits give `value`, contributes `[value]`. */
  lemma NumeralToken(t: string, value: nat)
    requires t != [] && Converts(t) && DecimalValue(t) == value
    ensures ParseToken(t) == Some([value])
  {
    StripNoSpace(t);
  }

  /** A token that strips to text `isdigit` rejects contributes nothing. */
  lemma DroppedToken(t: string, k: nat)
    requires k < |t| && !IsSpace(t[k]) && !IsDigit(t[k])
    requires forall i :: 0 <= i < |t| ==> !IsSpace(t[i])
    ensures ParseToken(t) == Some([])
  {
    StripNoSpace(t);
  }

  lemma ExampleTokens()
    ensures Split("3, 7,07,x,,12", ',') == ["3", " 7", "07", "x", "", "12"]
  {
    var ts := ["3", " 7", "07", "x", "", "12"];
    assert "3, 7,07,x,,12" == Join(ts, ',');
    SplitJoin(ts, ',');
  }

  /** Parsing a token list one token at a time. */
  lemma ConsTokens(t: string, rest: seq<string>, v: seq<nat>, w: seq<nat>)
    requires ParseToken(t) == Some(v) && ParseTokens(rest) == Some(w)
    ensures ParseTokens([t] + rest) == Some(v + w)
  {
    assert ([t] + rest)[1..] == rest;
  }

  lemma TokenThree() ensures ParseToken("3") == Some([3]) { NumeralToken("3", 3); }
  lemma TokenSpacedSeven() ensures ParseToken(" 7") == Some([7]) {
    assert Strip(" 7") == "7";
    NumeralToken("7", 7);
  }
  lemma TokenZeroSeven() ensures ParseToken("07") == Some([7]) { NumeralToken("07", 7); }
  lemma TokenX() ensures ParseToken("x") == Some([]) { DroppedToken("x", 0); }
  lemma TokenEmpty() ensures ParseToken("") == Some([]) { }
  lemma TokenTwelve() ensures ParseToken("12") == Some([12]) { NumeralToken("12", 12); }

  lemma ExampleSuffix2()
    ensures ParseTokens(["", "12"]) == Some([12])
  {
    TokenTwelve();
    ConsTokens("12", [], [12], []);
    assert ["12"] + [] == ["12"] && [12] + [] == [12];
    TokenEmpty();
    ConsTokens("", ["12"], [], [12]);
    assert [""] + ["12"] == ["", "12"] && [] + [12] == [12];
  }

  lemma ExampleSuffix4()
    ensures ParseTokens(["07", "x", "", "12"]) == Some([7, 12])
  {
    ExampleSuffix2();
    TokenX();
    ConsTokens("x", ["", "12"], [], [12]);
    assert ["x"] + ["", "12"] == ["x", "", "12"] && [] + [12] == [12];
    TokenZeroSeven();
    ConsTokens("07", ["x", "", "12"], [7], [12]);
    assert ["07"] + ["x", "", "12"] == ["07", "x", "", "12"] && [7] + [12] == [7, 12];
  }

  lemma ExampleAllTokens()
    ensures ParseTokens(["3", " 7", "07", "x", "", "12"]) == Some([3, 7, 7, 12])
  {
    ExampleSuffix4();
    TokenSpacedSeven();
    ConsTokens(" 7", ["07", "x", "", "12"], [7], [7, 12]);
    assert [" 7"] + ["07", "x", "", "12"] == [" 7", "07", "x", "", "12"] && [7] + [7, 12] == [7, 7, 12];
    TokenThree();
    ConsTokens("3", [" 7", "07", "x", "", "12"], [3], [7, 7, 12]);
    assert ["3"] + [" 7", "07", "x", "", "12"] == ["3", " 7", "07", "x", "", "12"] && [3] + [7, 7, 12] == [3, 7, 7, 12];
  }

  /** Empty and non-numeric tokens are dropped, duplicates kept, leading zeros read as decimal. */
  lemma ParseExample()
    ensures ParseHours("3, 7,07,x,,12") == Some([3, 7, 7, 12])
  {
    ExampleTokens();
    ParseByTokens(["3", " 7", "07", "x", "", "12"]);
    ExampleAllTokens();
  }

  /** `-1` does not pass `isdigit`: it is dropped, not an error. */
  lemma NegativeDropped()
    ensures ParseHours("-1") == Some([])
  {
    ParseSingleToken("-1");
    DroppedToken("-1", 0);
  }

  /** A word is dropped, not an error. */
  lemma WordDropped()
    ensures ParseHours("x") == Some([])
  {
    ParseSingleToken("x");
    TokenX();
  }

  /** `24` is kept: the parser does not check the range of an hour. */
  lemma OutOfRangeKept()
    ensures ParseHours("24") == Some([24])
  {
    ParseSingleToken("24");
    NumeralToken("24", 24);
  }

  /** A superscript two passes `isdigit` and fails `int`: the whole list is rejected. */
  lemma RejectedExample()
    ensures ParseHours("1,\U{B2}") == None
  {
    StripNoSpace("\U{B2}");
    OneBadTokenRejectsAll("1", "\U{B2}", "");
    ParseConcat("1", "\U{B2}");
  }

  /**
   * A numeral longer than `int`'s digit bound makes the conversion raise:
   * the row gets the invalid-hours warning, and so no refresh, even when the
   * tokens before it list the current hour.
   */
  lemma OverlongNumeralRejectsRow(hour: nat, a: string, t: string)
    requires IsDecimalString(t) && |t| > MaxStrDigits
    ensures Judge(hour, Some(a + [','] + t)) == InvalidHours
  {
    StripNoSpace(t);
    assert IsDigitString(t) && !Converts(t);
    ParseSingleToken(t);
    ParseConcat(a, t);
  }

  /** A list of one decimal numeral parses to that number. */
  lemma NumeralHours(t: string, value: nat)
    requires t != [] && Converts(t) && DecimalValue(t) == value
    ensures ParseHours(t) == Some([value])
  {
    ParseSingleToken(t);
    NumeralToken(t, value);
  }

  lemma HoursZero() ensures ParseHours("0") == Some([0]) { NumeralHours("0", 0); }
  lemma HoursTwelve() ensures ParseHours("12") == Some([12]) { NumeralHours("12", 12); }

  lemma ZeroTwelve()
    ensures ParseHours("0,12") == Some([0, 12])
  {
    HoursZero();
    HoursTwelve();
    ParseConcat("0", "12");
    assert "0" + [','] + "12" == "0,12";
    assert [0] + [12] == [0, 12];
  }

  /** A snapshot of one schema: its statements and its rows. */
  lemma OneSchema(hour: nat, a: Schema)
    ensures SchemasCommands(hour, [a]) == SchemaCommands(hour, a)
    ensures Entries(hour, [a]) == TableEntries(hour, a)
  {
    assert [a][1..] == [];
    assert SchemasCommands(hour, [a]) == SchemaCommands(hour, a) + [];
    assert Entries(hour, [a]) == TableEntries(hour, a) + [];
  }

  /** A snapshot of two schemas: the statements and rows of the first, then those of the second. */
  lemma TwoSchemas(hour: nat, a: Schema, b: Schema)
    ensures SchemasCommands(hour, [a, b]) == SchemaCommands(hour, a) + SchemaCommands(hour, b)
    ensures Entries(hour, [a, b]) == TableEntries(hour, a) + TableEntries(hour, b)
  {
    assert [a, b] == [a] + [b];
    OneSchema(hour, a);
    OneSchema(hour, b);
    SchemasCommandsConcat(hour, [a], [b]);
    EntriesConcat(hour, [a], [b]);
  }

  /** The outcome of a single due row, numbered 0. */
  lemma OneDueOutcome(e: Entry, refreshOk: nat -> bool)
    requires e.verdict == Due
    ensures Outcomes([e], refreshOk, 0)
      == [RowOutcome(e.schema, e.row.name, if refreshOk(0) then Refreshed else RefreshFailed)]
  {
    assert [e][1..] == [];
  }

  /** One schema with one row due at `hour`: checked, read and refreshed once. */
  lemma OneDueSchema(hour: nat, name: string, row: Row, refreshOk: nat -> bool)
    requires Judge(hour, row.hours) == Due
    ensures var one := [Schema(name, Some(true), [row])];
      && Commands(hour, one) == [ListSchemas, CheckTable(name), SelectRows(name), Refresh(name, row.name)]
      && Outcomes(Entries(hour, one), refreshOk, 0)
         == [RowOutcome(name, row.name, if refreshOk(0) then Refreshed else RefreshFailed)]
  {
    DueSchema(hour, name, row);
    OneSchema(hour, Schema(name, Some(true), [row]));
    OneDueOutcome(Entry(name, row, Due), refreshOk);
  }

  /** Scenario A: at 12:00 a view listed for hours 0 and 12 is refreshed once. */
  lemma DueAtNoon(refreshOk: nat -> bool)
    ensures var app := [Schema("app", Some(true), [Row("daily_stats", Some("0,12"))])];
      && Commands(12, app) == [ListSchemas, CheckTable("app"), SelectRows("app"), Refresh("app", "daily_stats")]
      && Outcomes(Entries(12, app), refreshOk, 0)
         == [RowOutcome("app", "daily_stats", if refreshOk(0) then Refreshed else RefreshFailed)]
  {
    NoonDue();
    OneDueSchema(12, "app", Row("daily_stats", Some("0,12")), refreshOk);
  }

  /** Scenario B: an empty `hours` text warns and refreshes nothing, whatever the hour. */
  lemma EmptyHoursWarn(hour: nat, refreshOk: nat -> bool)
    ensures var app := [Schema("app", Some(true), [Row("daily_stats", Some(""))])];
      && Commands(hour, app) == [ListSchemas, CheckTable("app"), SelectRows("app")]
      && Outcomes(Entries(hour, app), refreshOk, 0) == [RowOutcome("app", "daily_stats", NoHoursWarning)]
  {
    var app := [Schema("app", Some(true), [Row("daily_stats", Some(""))])];
    var es := [Entry("app", Row("daily_stats", Some("")), NoHours)];
    assert app[1..] == [];
    assert TableEntries(hour, app[0]) == es;
    assert es[1..] == [];
    assert RefreshCommands(es) == [];
    assert SchemaCommands(hour, app[0]) == [CheckTable("app"), SelectRows("app")];
    assert SchemasCommands(hour, app) == [CheckTable("app"), SelectRows("app")] + [];
    assert [ListSchemas] + ([CheckTable("app"), SelectRows("app")] + [])
      == [ListSchemas, CheckTable("app"), SelectRows("app")];
    assert Entries(hour, app) == es;
  }

  /** Scenario C: a schema without the table is only checked; its rows are never read. */
  lemma MissingTableSkipped(hour: nat, rows: seq<Row>, refreshOk: nat -> bool)
    ensures var reporting := [Schema("reporting", Some(false), rows)];
      && Commands(hour, reporting) == [ListSchemas, CheckTable("reporting")]
      && Outcomes(Entries(hour, reporting), refreshOk, 0) == []
  {
    var reporting := [Schema("reporting", Some(false), rows)];
    assert reporting[1..] == [];
    assert SchemaCommands(hour, reporting[0]) == [CheckTable("reporting")] + [];
    assert SchemasCommands(hour, reporting) == [CheckTable("reporting")] + [] + [];
    assert [ListSchemas] + ([CheckTable("reporting")] + [] + []) == [ListSchemas, CheckTable("reporting")];
  }

  /** The outcomes of two due rows, numbered 0 and 1. */
  lemma TwoDueOutcomes(ea: Entry, eb: Entry, refreshOk: nat -> bool)
    requires ea.verdict == Due && eb.verdict == Due
    ensures Outcomes([ea, eb], refreshOk, 0)
      == [RowOutcome(ea.schema, ea.row.name, if refreshOk(0) then Refreshed else RefreshFailed),
          RowOutcome(eb.schema, eb.row.name, if refreshOk(1) then Refreshed else RefreshFailed)]
  {
    var oa := RowOutcome(ea.schema, ea.row.name, Settle(Due, refreshOk(0)));
    var ob := RowOutcome(eb.schema, eb.row.name, Settle(Due, refreshOk(1)));
    assert [ea, eb][1..] == [eb];
    assert [eb][1..] == [];
    assert Outcomes([eb], refreshOk, 1) == [ob] + Outcomes([], refreshOk, 2) == [ob];
    assert Outcomes([ea, eb], refreshOk, 0) == [oa] + Outcomes([eb], refreshOk, 1) == [oa, ob];
  }

  /** The two noon schemas of scenario D, as one snapshot. */
  function TwoNoonSchemas(): seq<Schema>
  {
    [Schema("app", Some(true), [Row("daily_stats", Some("0,12"))]),
     Schema("billing", Some(true), [Row("daily_stats", Some("0,12"))])]
  }

  /** A schema whose table holds one row due at `hour`. */
  lemma DueSchema(hour: nat, name: string, row: Row)
    requires Judge(hour, row.hours) == Due
    ensures TableEntries(hour, Schema(name, Some(true), [row])) == [Entry(name, row, Due)]
    ensures SchemaCommands(hour, Schema(name, Some(true), [row])) == [CheckTable(name), SelectRows(name), Refresh(name, row.name)]
  {
    var es := [Entry(name, row, Due)];
    assert es[1..] == [];
    assert RefreshCommands(es) == [Refresh(name, row.name)] + [];
  }

  /** Two schemas, each with one row due at `hour`: each is checked, read and refreshed in turn. */
  lemma TwoDueSchemaReads(hour: nat, na: string, nb: string, row: Row)
    requires Judge(hour, row.hours) == Due
    ensures var two := [Schema(na, Some(true), [row]), Schema(nb, Some(true), [row])];
      && SchemasCommands(hour, two)
        == [CheckTable(na), SelectRows(na), Refresh(na, row.name),
            CheckTable(nb), SelectRows(nb), Refresh(nb, row.name)]
      && Entries(hour, two) == [Entry(na, row, Due), Entry(nb, row, Due)]
  {
    var a, b := Schema(na, Some(true), [row]), Schema(nb, Some(true), [row]);
    DueSchema(hour, na, row);
    DueSchema(hour, nb, row);
    TwoSchemas(hour, a, b);
  }

  /** The same two schemas, with the schema listing in front. */
  lemma TwoDueSchemas(hour: nat, na: string, nb: string, row: Row)
    requires Judge(hour, row.hours) == Due
    ensures var two := [Schema(na, Some(true), [row]), Schema(nb, Some(true), [row])];
      && Commands(hour, two)
        == [ListSchemas, CheckTable(na), SelectRows(na), Refresh(na, row.name),
            CheckTable(nb), SelectRows(nb), Refresh(nb, row.name)]
      && Entries(hour, two) == [Entry(na, row, Due), Entry(nb, row, Due)]
  {
    TwoDueSchemaReads(hour, na, nb, row);
  }

  lemma NoonDue()
    ensures Judge(12, Some("0,12")) == Due
  {
    ZeroTwelve();
  }

  lemma TwoSchemasCommands()
    ensures Commands(12, TwoNoonSchemas())
      == [ListSchemas, CheckTable("app"), SelectRows("app"), Refresh("app", "daily_stats"),
          CheckTable("billing"), SelectRows("billing"), Refresh("billing", "daily_stats")]
  {
    NoonDue();
    TwoDueSchemas(12, "app", "billing", Row("daily_stats", Some("0,12")));
  }

  lemma TwoSchemasEntries()
    ensures Entries(12, TwoNoonSchemas())
      == [Entry("app", Row("daily_stats", Some("0,12")), Due), Entry("billing", Row("daily_stats", Some("0,12")), Due)]
  {
    NoonDue();
    TwoDueSchemas(12, "app", "billing", Row("daily_stats", Some("0,12")));
  }

  /** Scenario D: two schemas with a row due now give two refreshes, each settled on its own. */
  lemma TwoSchemasDue(refreshOk: nat -> bool)
    ensures Commands(12, TwoNoonSchemas())
      == [ListSchemas, CheckTable("app"), SelectRows("app"), Refresh("app", "daily_stats"),
          CheckTable("billing"), SelectRows("billing"), Refresh("billing", "daily_stats")]
    ensures Outcomes(Entries(12, TwoNoonSchemas()), refreshOk, 0)
      == [RowOutcome("app", "daily_stats", if refreshOk(0) then Refreshed else RefreshFailed),
          RowOutcome("billing", "daily_stats", if refreshOk(1) then Refreshed else RefreshFailed)]
  {
    TwoSchemasCommands();
    TwoSchemasEntries();
    var row := Row("daily_stats", Some("0,12"));
    TwoDueOutcomes(Entry("app", row, Due), Entry("billing", row, Due), refreshOk);
  }
}
