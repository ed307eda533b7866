/**
  The RC-MACH-PRO variable table plugin, agent_based/rc_mach_pro_var_table.py:
  the parser that folds the SNMP rows into a section, the discovery of one item per
  section key, and the check that turns one item's entry into a result.
 */
module VarTable {
  import opened Options
  import Hex
  import Decimal

  /** One SNMP table row: columns 2, 3, 4 and 5 of the variable table. */
  datatype Row = Row(varValInt: string, varType: string, varValFloat: string, varObjName: string)

  /** One parsed record, the inner dict of the section. */
  datatype Entry = Entry(varValInt: string, varType: string, varValFloat: string, varObjName: string)

  /** The parsed section: item name to record. */
  type Section = map<string, Entry>

  const ItemPrefix: string := "RC-MACH-PRO "

  /** The item name of an object: f"RC-MACH-PRO {var_obj_name}". */
  function ItemName(objName: string): string {
    ItemPrefix + objName
  }

  /** Distinct object names give distinct item names. */
  lemma ItemNameInjective(a: string, b: string)
    ensures ItemName(a) == ItemName(b) ==> a == b
  {
    if ItemName(a) == ItemName(b) {
      assert a == ItemName(a)[|ItemPrefix|..];
      assert b == ItemName(b)[|ItemPrefix|..];
    }
  }

  /** The record a named row is stored as. */
  function EntryOf(row: Row): Entry {
    Entry(row.varValInt, row.varType, Hex.EncodeOctets(row.varValFloat), row.varObjName)
  }

  // ---------------------------------------------------------------------------
  // Parsing

  /** The effect of one pass of the parser's loop on the section built so far. */
  function Absorb(parsed: Section, row: Row): (r: Section)
    ensures row.varObjName == "" ==> r == parsed
    ensures row.varObjName != "" ==>
      && r.Keys == parsed.Keys + {ItemName(row.varObjName)}
      && r[ItemName(row.varObjName)].varValInt == row.varValInt
      && r[ItemName(row.varObjName)].varType == row.varType
      && r[ItemName(row.varObjName)].varValFloat == Hex.EncodeOctets(row.varValFloat)
      && r[ItemName(row.varObjName)].varObjName == row.varObjName
      && forall k :: k in parsed && k != ItemName(row.varObjName) ==> r[k] == parsed[k]
  {
    if row.varObjName == "" then parsed else parsed[ItemName(row.varObjName) := EntryOf(row)]
  }

  /** The section the parser builds from a table: the rows absorbed in order. */
  function Parsed(rows: seq<Row>): Section
    decreases |rows|
  {
    if rows == [] then map[] else Absorb(Parsed(rows[..|rows| - 1]), rows[|rows| - 1])
  }

  /** The item names of the rows whose object name is not empty. */
  ghost function NamedItems(rows: seq<Row>): set<string> {
    set i | 0 <= i < |rows| && rows[i].varObjName != "" :: ItemName(rows[i].varObjName)
  }

  /** parse_rc_mach_pro_var_table. */
  method Parse(stringTable: seq<Row>) returns (parsed: Section)
    ensures parsed == Parsed(stringTable)
    ensures parsed.Keys == NamedItems(stringTable)
  {
    parsed := map[];
    var i := 0;
    while i < |stringTable|
      invariant 0 <= i <= |stringTable|
      invariant parsed == Parsed(stringTable[..i])
    {
      var row := stringTable[i];
      assert stringTable[..i + 1][..i] == stringTable[..i];
      i := i + 1;
      if row.varObjName == "" {
        continue;
      }
      var name := ItemName(row.varObjName);
      // The parser creates an empty record on first sight of a name and then sets all
      // four fields, so the record stored is the same whether or not the name was new.
      parsed := parsed[name := EntryOf(row)];
    }
    assert stringTable[..i] == stringTable;
    ParsedKeys(stringTable);
  }

  lemma ParsedSnoc(rows: seq<Row>, row: Row)
    ensures Parsed(rows + [row]) == Absorb(Parsed(rows), row)
  {
    assert (rows + [row])[..|rows|] == rows;
  }

  /** The section's keys are exactly the prefixed non-empty object names of the table. */
  lemma {:induction false} ParsedKeys(rows: seq<Row>)
    ensures Parsed(rows).Keys == NamedItems(rows)
    decreases |rows|
  {
    if rows != [] {
      var p, last := rows[..|rows| - 1], rows[|rows| - 1];
      assert rows == p + [last];
      ParsedSnoc(p, last);
      ParsedKeys(p);
      var extra: set<string> := if last.varObjName == "" then {} else {ItemName(last.varObjName)};
      forall k | k in NamedItems(rows)
        ensures k in NamedItems(p) + extra
      {
        var i :| 0 <= i < |rows| && rows[i].varObjName != "" && k == ItemName(rows[i].varObjName);
        if i < |p| {
          assert p[i] == rows[i];
        }
      }
      forall k | k in NamedItems(p) + extra
        ensures k in NamedItems(rows)
      {
        if k in NamedItems(p) {
          var i :| 0 <= i < |p| && p[i].varObjName != "" && k == ItemName(p[i].varObjName);
          assert rows[i] == p[i];
        } else {
          assert rows[|rows| - 1] == last;
        }
      }
    }
  }

  /**
    Last write wins: the record under a row's item name comes from that row when no
    later row has the same object name.
   */
  lemma {:induction false} ParsedLastWriteWins(rows: seq<Row>, i: nat)
    requires i < |rows| && rows[i].varObjName != ""
    requires forall j :: i < j < |rows| ==> rows[j].varObjName != rows[i].varObjName
    ensures ItemName(rows[i].varObjName) in Parsed(rows)
    ensures Parsed(rows)[ItemName(rows[i].varObjName)] == EntryOf(rows[i])
    decreases |rows|
  {
    var p, last := rows[..|rows| - 1], rows[|rows| - 1];
    assert rows == p + [last];
    ParsedSnoc(p, last);
    if i < |rows| - 1 {
      assert p[i] == rows[i];
      ParsedLastWriteWins(p, i);
      ItemNameInjective(last.varObjName, rows[i].varObjName);
    }
  }

  /** Every record of the section was copied from some named row of the table, under that row's item name. */
  lemma {:induction false} ParsedEntryFromRow(rows: seq<Row>, k: string)
    requires k in Parsed(rows)
    ensures exists i :: (0 <= i < |rows| && rows[i].varObjName != ""
      && k == ItemName(rows[i].varObjName) && Parsed(rows)[k] == EntryOf(rows[i]))
    decreases |rows|
  {
    var p, last := rows[..|rows| - 1], rows[|rows| - 1];
    assert rows == p + [last];
    ParsedSnoc(p, last);
    if last.varObjName != "" && k == ItemName(last.varObjName) {
      assert rows[|rows| - 1] == last;
    } else {
      ParsedEntryFromRow(p, k);
      var i :| 0 <= i < |p| && p[i].varObjName != "" && k == ItemName(p[i].varObjName) && Parsed(p)[k] == EntryOf(p[i]);
      assert rows[i] == p[i];
    }
  }

  /** A row with an empty object name has no effect wherever it stands in the table. */
  lemma {:induction false} ParsedIgnoresUnnamed(before: seq<Row>, row: Row, after: seq<Row>)
    requires row.varObjName == ""
    ensures Parsed(before + [row] + after) == Parsed(before + after)
    decreases |after|
  {
    if after == [] {
      assert before + [row] + after == before + [row];
      assert before + after == before;
      ParsedSnoc(before, row);
    } else {
      var a, x := after[..|after| - 1], after[|after| - 1];
      assert after == a + [x];
      assert before + [row] + after == (before + [row] + a) + [x];
      assert before + after == (before + a) + [x];
      ParsedSnoc(before + [row] + a, x);
      ParsedSnoc(before + a, x);
      ParsedIgnoresUnnamed(before, row, a);
    }
  }

  // ---------------------------------------------------------------------------
  // Discovery

  /** discover_rc_mach_pro_var_table: one item per key of the section, each key once. */
  method Discover(section: Section) returns (items: seq<string>)
    ensures |items| == |section|
    ensures forall i :: 0 <= i < |items| ==> items[i] in section
    ensures forall k :: k in section ==> k in items
    ensures forall i, j :: 0 <= i < j < |items| ==> items[i] != items[j]
  {
    items := [];
    var remaining := section.Keys;
    while remaining != {}
      invariant remaining <= section.Keys
      invariant forall i :: 0 <= i < |items| ==> items[i] in section && items[i] !in remaining
      invariant forall k :: k in section ==> k in remaining || k in items
      invariant forall i, j :: 0 <= i < j < |items| ==> items[i] != items[j]
      invariant |items| + |remaining| == |section|
      decreases |remaining|
    {
      var key :| key in remaining;
      items := items + [key];
      remaining := remaining - {key};
    }
  }

  // ---------------------------------------------------------------------------
  // Check

  /** The states of the host's Result; this plugin only ever reports Ok. */
  datatype State = Ok | Warn | Crit | Unknown

  datatype CheckResult = CheckResult(state: State, summary: string)

  /** The exceptions the check lets escape. */
  datatype Failure =
    | ValueError(literal: string)   // int() of a string that is not an integer literal
    | KeyError(typeCode: int)       // a type code RC_TYPE_MAP has no label for

  /** What one call of the check generator does: yield nothing, yield one result, or raise. */
  datatype Outcome = Nothing | Yields(result: CheckResult) | Raises(failure: Failure)

  /** RC_TYPE_MAP. */
  const RcTypeMap: map<int, string> := map[0 := "analog", 1 := "digital"]

  function Summary(typeLabel: string, typeCode: int, valInt: int, valFloat: string): string {
    "type: " + typeLabel + "(" + Decimal.FormatInt(typeCode) + "), int: " + Decimal.FormatInt(valInt)
      + ", float: " + valFloat
  }

  /** check_rc_mach_pro_var_table. */
  function Check(item: string, section: Section): (out: Outcome)
    ensures out == Nothing <==> item !in section
    ensures out.Yields? ==> out.result.state == Ok
    ensures out.Yields? <==>
      && item in section
      && Decimal.ParseInt(section[item].varValInt).Some?
      && Decimal.ParseInt(section[item].varType).Some?
      && Decimal.ParseInt(section[item].varType).value in {0, 1}
  {
    if item !in section then Nothing
    else
      var entry := section[item];
      match Decimal.ParseInt(entry.varValInt)
      case None => Raises(ValueError(entry.varValInt))
      case Some(valInt) =>
        match Decimal.ParseInt(entry.varType)
        case None => Raises(ValueError(entry.varType))
        case Some(typeCode) =>
          if typeCode !in RcTypeMap then Raises(KeyError(typeCode))
          else Yields(CheckResult(Ok, Summary(RcTypeMap[typeCode], typeCode, valInt, entry.varValFloat)))
  }

  /**
    A present item whose fields are integer literals and whose type code is 0 or 1 yields one
    Ok result whose summary shows the label, the converted type code and value, and the hex text.
   */
  lemma CheckYieldsSummary(item: string, section: Section, typeCode: int, valInt: int)
    requires item in section
    requires Decimal.ParseInt(section[item].varValInt) == Some(valInt)
    requires Decimal.ParseInt(section[item].varType) == Some(typeCode)
    requires typeCode == 0 || typeCode == 1
    ensures Check(item, section) == Yields(CheckResult(Ok,
      "type: " + (if typeCode == 0 then "analog" else "digital") + "(" + Decimal.FormatInt(typeCode)
        + "), int: " + Decimal.FormatInt(valInt) + ", float: " + section[item].varValFloat))
  {
  }

  /** The numbers in the summary read back as the integers int() made of the fields. */
  lemma CheckSummaryNumbers(item: string, section: Section)
    requires Check(item, section).Yields?
    ensures exists typeText, intText :: (Decimal.IsCanonical(typeText) && Decimal.IsCanonical(intText)
      && Decimal.ParseInt(typeText) == Decimal.ParseInt(section[item].varType)
      && Decimal.ParseInt(intText) == Decimal.ParseInt(section[item].varValInt)
      && Check(item, section).result.summary
         == "type: " + RcTypeMap[Decimal.ParseInt(section[item].varType).value] + "(" + typeText
            + "), int: " + intText + ", float: " + section[item].varValFloat)
  {
    var t := Decimal.ParseInt(section[item].varType).value;
    var i := Decimal.ParseInt(section[item].varValInt).value;
    Decimal.ParseFormatRoundTrip(t);
    Decimal.ParseFormatRoundTrip(i);
    assert Decimal.IsCanonical(Decimal.FormatInt(t)) && Decimal.IsCanonical(Decimal.FormatInt(i));
  }

  /** A present item whose value field is not an integer literal raises ValueError on that field. */
  lemma CheckRejectsValue(item: string, section: Section)
    requires item in section && !Decimal.IsIntLiteral(section[item].varValInt)
    ensures Check(item, section) == Raises(ValueError(section[item].varValInt))
  {
    Decimal.ParseIntAcceptsLiterals(section[item].varValInt);
  }

  /** A present item with a valid value but a type field that is not an integer literal raises ValueError on it. */
  lemma CheckRejectsType(item: string, section: Section)
    requires item in section && Decimal.IsIntLiteral(section[item].varValInt)
    requires !Decimal.IsIntLiteral(section[item].varType)
    ensures Check(item, section) == Raises(ValueError(section[item].varType))
  {
    Decimal.ParseIntAcceptsLiterals(section[item].varValInt);
    Decimal.ParseIntAcceptsLiterals(section[item].varType);
  }

  /** A present item whose type code is an integer other than 0 and 1 raises KeyError. */
  lemma CheckRejectsUnknownType(item: string, section: Section, typeCode: int)
    requires item in section && Decimal.IsIntLiteral(section[item].varValInt)
    requires Decimal.ParseInt(section[item].varType) == Some(typeCode) && typeCode != 0 && typeCode != 1
    ensures Check(item, section) == Raises(KeyError(typeCode))
  {
    Decimal.ParseIntAcceptsLiterals(section[item].varValInt);
  }

  // ---------------------------------------------------------------------------
  // Parse, then check, on concrete rows

  /** ("42", "0", "AB", "Sensor1") checks as "type: analog(0), int: 42, float: 41:42". */
  lemma ExampleSensor()
    ensures Check("RC-MACH-PRO Sensor1", Parsed([Row("42", "0", "AB", "Sensor1")]))
      == Yields(CheckResult(Ok, "type: analog(0), int: 42, float: 41:42"))
  {
    var row := Row("42", "0", "AB", "Sensor1");
    ParsedSnoc([], row);
    assert [] + [row] == [row];
    Hex.EncodeOctetsExample();
    assert Decimal.FormatInt(42) == "42";
    assert Decimal.FormatInt(0) == "0";
    Decimal.ParseFormatRoundTrip(42);
    Decimal.ParseFormatRoundTrip(0);
    assert ItemName("Sensor1") == "RC-MACH-PRO Sensor1";
    assert EntryOf(row) == Entry("42", "0", "41:42", "Sensor1");
    assert Parsed([row]) == map[][ItemName("Sensor1") := EntryOf(row)];
    assert Summary("analog", 0, 42, "41:42") == "type: analog(0), int: 42, float: 41:42";
  }

  /** ("007", "1", "A", "Pump2"): the summary shows int() of the value field, so "007" reads as 7. */
  lemma ExampleLeadingZeros()
    ensures Check("RC-MACH-PRO Pump2", Parsed([Row("007", "1", "A", "Pump2")]))
      == Yields(CheckResult(Ok, "type: digital(1), int: 7, float: 41"))
  {
    var row := Row("007", "1", "A", "Pump2");
    ParsedSnoc([], row);
    assert [] + [row] == [row];
    Hex.EncodeOctetsUnfold("A");
    assert Decimal.FormatInt(7) == "7";
    assert Decimal.FormatInt(1) == "1";
    Decimal.ParseFormatRoundTrip(7);
    Decimal.ParseFormatRoundTrip(1);
    Decimal.ParseIntLeadingZero("7");
    Decimal.ParseIntLeadingZero("07");
    assert "0" + "7" == "07" && "0" + "07" == "007";
    assert ItemName("Pump2") == "RC-MACH-PRO Pump2";
    assert EntryOf(row) == Entry("007", "1", "41", "Pump2");
    assert Parsed([row]) == map[][ItemName("Pump2") := EntryOf(row)];
    assert Summary("digital", 1, 7, "41") == "type: digital(1), int: 7, float: 41";
  }

  /** A type code of "2" has no label: the check raises KeyError. */
  lemma ExampleUnknownType()
    ensures Check("RC-MACH-PRO Tank", Parsed([Row("5", "2", "", "Tank")])) == Raises(KeyError(2))
  {
    var row := Row("5", "2", "", "Tank");
    ParsedSnoc([], row);
    assert [] + [row] == [row];
    assert Decimal.FormatInt(2) == "2" && Decimal.FormatInt(5) == "5";
    Decimal.ParseFormatRoundTrip(2);
    Decimal.ParseFormatRoundTrip(5);
    Hex.EncodeOctetsUnfold("");
    assert ItemName("Tank") == "RC-MACH-PRO Tank";
    assert EntryOf(row) == Entry("5", "2", "", "Tank");
    assert Parsed([row]) == map[][ItemName("Tank") := EntryOf(row)];
  }
}
