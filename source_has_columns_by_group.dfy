/**
 * The group-threshold rule: every source table must have columns for at
 * least `column_cnt` of the names listed in the column group. One
 * violation is reported per failing table.
 *
 * As written, the counter the hook increments and prints is not the one it
 * initialises and compares, so the hook raises instead of counting (see
 * CheckColumnCntAsWritten). CheckColumnCnt models the evident intent: one
 * counter, incremented for each listed name that has a column.
 */
module SourceColumnsByGroup {
  import opened Grouping

  /** A source table as the schema lookup hands it over, with its children. */
  datatype SourceTable = SourceTable(source_name: string, table_name: string, childs: seq<Entity>)

  /**
   * One diagnostic line: "<source>.<table>: has only <found> column(s) from
   * <column_group>."
   */
  datatype GroupViolation = GroupViolation(source_name: string, table_name: string, found: nat, column_group: seq<string>)

  /** `column_dict.get(column)` is truthy: the name has a non-empty group. */
  predicate Present(columnDict: map<string, seq<Column>>, name: string)
  {
    name in columnDict && columnDict[name] != []
  }

  /** The intended counter after scanning `group` against `columnDict`. */
  function PresentCount(columnDict: map<string, seq<Column>>, group: seq<string>): nat
  {
    if group == [] then 0
    else PresentCount(columnDict, group[..|group| - 1]) + if Present(columnDict, group[|group| - 1]) then 1 else 0
  }

  /** The found count stated on the raw children: the listed positions whose name has a column. */
  function Found(childs: seq<Entity>, group: seq<string>): nat
  {
    |set j | 0 <= j < |group| && Col(group[j]) in childs|
  }

  /** A table fails when fewer than `columnCnt` listed names have a column. */
  predicate TableFails(table: SourceTable, group: seq<string>, columnCnt: int)
  {
    Found(table.childs, group) < columnCnt
  }

  /** The violations the rule demands, one per failing table, in table order. */
  function RuleFailures(tables: seq<SourceTable>, group: seq<string>, columnCnt: int): seq<GroupViolation>
  {
    if tables == [] then []
    else
      var t := tables[|tables| - 1];
      RuleFailures(tables[..|tables| - 1], group, columnCnt) +
        if TableFails(t, group, columnCnt)
        then [GroupViolation(t.source_name, t.table_name, Found(t.childs, group), group)]
        else []
  }

  /** A listed name counts exactly when the table has a column of that name. */
  lemma {:induction false} PresentIffColumn(childs: seq<Entity>, name: string)
    ensures Present(GroupByName(Columns(childs)), name) <==> Col(name) in childs
  {
    GroupByNameLaw(Columns(childs));
    GroupSizeOfChildren(childs, name);
  }

  /** The counter over the grouped columns equals the found count on the raw children. */
  lemma {:induction false} PresentCountIsFound(childs: seq<Entity>, group: seq<string>)
    ensures PresentCount(GroupByName(Columns(childs)), group) == Found(childs, group)
  {
    if group != [] {
      var d := GroupByName(Columns(childs));
      var init, last := group[..|group| - 1], group[|group| - 1];
      PresentCountIsFound(childs, init);
      PresentIffColumn(childs, last);
      FoundSnoc(childs, group);
    }
  }

  /** Listing one more name adds one to the found count exactly when that name has a column. */
  lemma FoundSnoc(childs: seq<Entity>, group: seq<string>)
    requires group != []
    ensures Found(childs, group) ==
      Found(childs, group[..|group| - 1]) + if Col(group[|group| - 1]) in childs then 1 else 0
  {
    var init, last := group[..|group| - 1], group[|group| - 1];
    var before := set j | 0 <= j < |init| && Col(init[j]) in childs;
    var after := set j | 0 <= j < |group| && Col(group[j]) in childs;
    assert forall j :: 0 <= j < |init| ==> init[j] == group[j];
    if Col(last) in childs {
      assert after == before + {|group| - 1};
    } else {
      assert after == before;
    }
  }

  /** The counter never exceeds the number of listed names. */
  lemma {:induction false} PresentCountAtMostGroupSize(columnDict: map<string, seq<Column>>, group: seq<string>)
    ensures PresentCount(columnDict, group) <= |group|
  {
    if group != [] {
      PresentCountAtMostGroupSize(columnDict, group[..|group| - 1]);
    }
  }

  /** Scanning two lists one after the other adds their counts. */
  lemma {:induction false} PresentCountAppend(columnDict: map<string, seq<Column>>, a: seq<string>, b: seq<string>)
    ensures PresentCount(columnDict, a + b) == PresentCount(columnDict, a) + PresentCount(columnDict, b)
    decreases |b|
  {
    if b == [] {
      assert a + b == a;
    } else {
      assert (a + b)[..|a + b| - 1] == a + b[..|b| - 1];
      PresentCountAppend(columnDict, a, b[..|b| - 1]);
    }
  }

  /** A name listed twice is counted twice: repeating the group doubles the count. */
  lemma DuplicatesCountTwice(columnDict: map<string, seq<Column>>, group: seq<string>)
    ensures PresentCount(columnDict, group + group) == 2 * PresentCount(columnDict, group)
  {
    PresentCountAppend(columnDict, group, group);
  }

  /** No violation at all iff no table fails. */
  lemma {:induction false} RuleFailuresEmptyIff(tables: seq<SourceTable>, group: seq<string>, columnCnt: int)
    ensures RuleFailures(tables, group, columnCnt) == [] <==>
      forall i :: 0 <= i < |tables| ==> !TableFails(tables[i], group, columnCnt)
  {
    if tables != [] {
      var init := tables[..|tables| - 1];
      RuleFailuresEmptyIff(init, group, columnCnt);
      assert forall i :: 0 <= i < |init| ==> init[i] == tables[i];
    }
  }

  /** A table is reported exactly when it fails, with its own found count. */
  lemma {:induction false} RuleFailuresExact(tables: seq<SourceTable>, group: seq<string>, columnCnt: int)
    ensures forall v :: v in RuleFailures(tables, group, columnCnt) <==>
      exists i :: 0 <= i < |tables| && TableFails(tables[i], group, columnCnt) &&
        v == GroupViolation(tables[i].source_name, tables[i].table_name, Found(tables[i].childs, group), group)
  {
    if tables != [] {
      var init := tables[..|tables| - 1];
      RuleFailuresExact(init, group, columnCnt);
      assert forall i :: 0 <= i < |init| ==> init[i] == tables[i];
    }
  }

  /** With a threshold of 0 or less no table fails. */
  lemma {:induction false} NonPositiveThresholdPasses(tables: seq<SourceTable>, group: seq<string>, columnCnt: int)
    requires columnCnt <= 0
    ensures RuleFailures(tables, group, columnCnt) == []
  {
    RuleFailuresEmptyIff(tables, group, columnCnt);
  }

  /**
   * The body of the `for schema` loop: groups the table's columns, counts
   * the listed names that have a column, and reports the table when the
   * count is below the threshold.
   */
  method CheckTable(table: SourceTable, columnGroup: seq<string>, columnCnt: int, statusIn: int, messagesIn: seq<GroupViolation>)
    returns (statusCode: int, messages: seq<GroupViolation>)
    ensures messages == messagesIn +
      if TableFails(table, columnGroup, columnCnt)
      then [GroupViolation(table.source_name, table.table_name, Found(table.childs, columnGroup), columnGroup)]
      else []
    ensures statusCode == if TableFails(table, columnGroup, columnCnt) then 1 else statusIn
  {
    statusCode, messages := statusIn, messagesIn;
    var columns := Columns(table.childs);
    var columnDict := GroupByName(columns);
    var requiredColumnCount := 0;
    for j := 0 to |columnGroup|
      invariant requiredColumnCount == PresentCount(columnDict, columnGroup[..j])
    {
      assert columnGroup[..j + 1][..j] == columnGroup[..j];
      if columnGroup[j] in columnDict && columnDict[columnGroup[j]] != [] {
        requiredColumnCount := requiredColumnCount + 1;
      }
    }
    assert columnGroup[..|columnGroup|] == columnGroup;
    PresentCountIsFound(table.childs, columnGroup);
    if requiredColumnCount < columnCnt {
      messages := messages + [GroupViolation(table.source_name, table.table_name, requiredColumnCount, columnGroup)];
      statusCode := 1;
    }
  }

  /**
   * check_column_cnt for source tables, with the counter as intended. The
   * result is a mapping with the single key "status_code", whose value is
   * 0 exactly when no table fails and 1 otherwise.
   */
  method CheckColumnCnt(tables: seq<SourceTable>, columnGroup: seq<string>, columnCnt: int)
    returns (result: map<string, int>, messages: seq<GroupViolation>)
    ensures result.Keys == {"status_code"}
    ensures messages == RuleFailures(tables, columnGroup, columnCnt)
    ensures result["status_code"] == 0 <==> forall i :: 0 <= i < |tables| ==> !TableFails(tables[i], columnGroup, columnCnt)
    ensures result["status_code"] == 0 || result["status_code"] == 1
  {
    var statusCode := 0;
    messages := [];
    for i := 0 to |tables|
      invariant messages == RuleFailures(tables[..i], columnGroup, columnCnt)
      invariant statusCode == if messages == [] then 0 else 1
    {
      statusCode, messages := CheckTable(tables[i], columnGroup, columnCnt, statusCode, messages);
      assert tables[..i + 1][..i] == tables[..i];
    }
    assert tables[..|tables|] == tables;
    RuleFailuresEmptyIff(tables, columnGroup, columnCnt);
    result := map["status_code" := statusCode];
  }

  // ---------------------------------------------------------------------------
  // The hook as written.

  /** Where the hook stops: it returns a status, or raises at a source line. */
  datatype Outcome = Returned(status_code: int) | Crash(source_name: string, table_name: string, line: nat)

  /**
   * check_column_cnt for source tables as written. The counter compared
   * with the threshold stays 0; incrementing the other, never-assigned
   * counter raises as soon as a listed name has a column (line 49), and
   * printing it raises as soon as a table is reported (line 54).
   */
  function CheckColumnCntAsWritten(tables: seq<SourceTable>, columnGroup: seq<string>, columnCnt: int): (r: Outcome)
    ensures r.Returned? ==> r.status_code == 0
    ensures r.Crash? ==> r.line == 49 || r.line == 54
    ensures r.Crash? ==> exists i :: 0 <= i < |tables| && tables[i].source_name == r.source_name && tables[i].table_name == r.table_name
  {
    if tables == [] then Returned(0)
    else
      var t := tables[0];
      var columnDict := GroupByName(Columns(t.childs));
      if PresentCount(columnDict, columnGroup) > 0 then Crash(t.source_name, t.table_name, 49)
      else if 0 < columnCnt then Crash(t.source_name, t.table_name, 54)
      else CheckColumnCntAsWritten(tables[1..], columnGroup, columnCnt)
  }

  /**
   * As written, the hook never reports a failing table: it returns 0 exactly
   * when there are no tables, or the threshold is 0 or less and no listed
   * name has a column in any table; otherwise it raises.
   */
  lemma {:induction false} AsWrittenOnlyReturnsZero(tables: seq<SourceTable>, columnGroup: seq<string>, columnCnt: int)
    ensures CheckColumnCntAsWritten(tables, columnGroup, columnCnt).Returned? ==>
      CheckColumnCntAsWritten(tables, columnGroup, columnCnt).status_code == 0
    ensures CheckColumnCntAsWritten(tables, columnGroup, columnCnt).Returned? <==>
      (tables == [] || (columnCnt <= 0 && forall i :: 0 <= i < |tables| ==> Found(tables[i].childs, columnGroup) == 0))
  {
    if tables != [] {
      AsWrittenOnlyReturnsZero(tables[1..], columnGroup, columnCnt);
      PresentCountIsFound(tables[0].childs, columnGroup);
      assert forall i :: 1 <= i < |tables| ==> tables[1..][i - 1] == tables[i];
    }
  }

  /** Whenever the hook as written does return, the intended hook agrees with it. */
  lemma AsWrittenAgreesWhenItReturns(tables: seq<SourceTable>, columnGroup: seq<string>, columnCnt: int)
    requires CheckColumnCntAsWritten(tables, columnGroup, columnCnt).Returned?
    ensures RuleFailures(tables, columnGroup, columnCnt) == []
  {
    AsWrittenOnlyReturnsZero(tables, columnGroup, columnCnt);
    RuleFailuresEmptyIff(tables, columnGroup, columnCnt);
  }

  /**
   * A table with columns a, b, c against the group [a, b, d]: as written the
   * hook raises at line 49, while the intended counter finds 2, so the
   * table passes a threshold of 2 and fails a threshold of 3.
   */
  lemma AsWrittenCrashesOnPresentColumn()
    ensures var table := SourceTable("src", "tbl", [Col("a"), Col("b"), Other, Col("c")]);
      && CheckColumnCntAsWritten([table], ["a", "b", "d"], 2) == Crash("src", "tbl", 49)
      && Found(table.childs, ["a", "b", "d"]) == 2
      && RuleFailures([table], ["a", "b", "d"], 2) == []
      && RuleFailures([table], ["a", "b", "d"], 3) == [GroupViolation("src", "tbl", 2, ["a", "b", "d"])]
  {
    var table := SourceTable("src", "tbl", [Col("a"), Col("b"), Other, Col("c")]);
    var group := ["a", "b", "d"];
    assert Found(table.childs, group) == 2 by {
      assert Col("a") in table.childs && Col("b") in table.childs && Col("d") !in table.childs;
      assert (set j | 0 <= j < |group| && Col(group[j]) in table.childs) == {0, 1};
    }
    assert PresentCount(GroupByName(Columns(table.childs)), group) > 0 by {
      PresentCountIsFound(table.childs, group);
    }
    assert [table][..0] == [];
  }
}
