/** The maintenance script scripts/update-dependencies.ts: it recomputes
    the package list of every CSV record from the record's code and preview
    and writes it back, as a JSON array, where it differs from the stored
    text. */
module UpdateDependencies {
  import opened Wrappers
  import opened Strings
  import opened ImportScan
  import DependencyScan
  import CsvFields
  import Json

  const DependenciesColumn: string := "dependencies"

  /** `Array.from(allDeps).sort()` */
  function SortedDependencies(code: string, previewCode: string): seq<string> {
    Sort(DependencyScan.ComponentDependencies(code, previewCode))
  }

  /** The list is in ascending order, holds each package once, and holds
      exactly the non-default, non-blank packages code or preview imports or
      requires. */
  lemma SortedDependenciesSpec(code: string, previewCode: string)
    ensures var deps := SortedDependencies(code, previewCode);
            Sorted(deps) && NoDuplicates(deps)
            && forall x :: x in deps <==>
                 (x in DependencyScan.Dependencies(code) || x in DependencyScan.Dependencies(previewCode))
                 && x !in DependencyScan.DefaultDependencies && Trim(x) != ""
  {
    var all := DependencyScan.ComponentDependencies(code, previewCode);
    DependencyScan.ComponentDependenciesSpec(code, previewCode);
    NoDuplicatesPermutation(all, Sort(all));
    forall x ensures x in Sort(all) <==> x in all {
      assert x in Sort(all) <==> x in multiset(Sort(all));
      assert x in all <==> x in multiset(all);
    }
  }

  /** `getDependenciesFromComponent(code, previewCode)` */
  method GetDependenciesFromComponent(code: string, previewCode: string) returns (deps: seq<string>)
    ensures deps == SortedDependencies(code, previewCode)
  {
    var all := DependencyScan.CollectComponentDependencies(code, previewCode);
    deps := Sort(all);
  }

  /** The JSON text of the sorted package list of a record's code and
      preview. */
  function RecomputedJson(code: string, previewCode: string): string {
    Json.Stringify(SortedDependencies(DependencyScan.CleanCode(code), DependencyScan.CleanCode(previewCode)))
  }

  /** The JSON text a record's dependencies are set to; `None` when reading
      the record throws because its code or preview is missing. */
  function DependenciesJson(row: CsvFields.Row): Option<string> {
    if "code" in row && "previewCode" in row then Some(RecomputedJson(row["code"], row["previewCode"]))
    else None
  }

  /** `if (row.dependencies !== json) row.dependencies = json`: a missing
      column differs from every text. */
  function Written(row: CsvFields.Row, json: string): CsvFields.Row {
    if CsvFields.Field(row, DependenciesColumn) != Some(json) then row[DependenciesColumn := json] else row
  }

  /** Writing sets the column to the text, leaves every other column alone,
      and a second write of the same text does nothing. */
  lemma WrittenSpec(row: CsvFields.Row, json: string)
    ensures CsvFields.Field(Written(row, json), DependenciesColumn) == Some(json)
    ensures forall k :: k != DependenciesColumn ==> CsvFields.Field(Written(row, json), k) == CsvFields.Field(row, k)
    ensures Written(Written(row, json), json) == Written(row, json)
    ensures Written(row, json) == row <==> CsvFields.Field(row, DependenciesColumn) == Some(json)
  {
  }

  /** The loop changes the record. */
  predicate Changes(row: CsvFields.Row) {
    DependenciesJson(row).Some? && CsvFields.Field(row, DependenciesColumn) != DependenciesJson(row)
  }

  /** The record after the loop has visited it: records whose code or preview
      is missing throw and are left as they are. */
  function Updated(row: CsvFields.Row): CsvFields.Row {
    match DependenciesJson(row)
    case Some(json) => Written(row, json)
    case None => row
  }

  /** Only the code and preview decide the recomputed text. */
  lemma SameSources(a: CsvFields.Row, b: CsvFields.Row)
    requires CsvFields.Field(a, "code") == CsvFields.Field(b, "code")
    requires CsvFields.Field(a, "previewCode") == CsvFields.Field(b, "previewCode")
    ensures DependenciesJson(a) == DependenciesJson(b)
  {
  }

  /** The stored text reads back as the sorted package list. */
  lemma RecomputedJsonDecodes(code: string, previewCode: string)
    ensures Json.DecodeArray(RecomputedJson(code, previewCode))
            == Some(SortedDependencies(DependencyScan.CleanCode(code), DependencyScan.CleanCode(previewCode)))
  {
    Json.StringifyDecodes(SortedDependencies(DependencyScan.CleanCode(code), DependencyScan.CleanCode(previewCode)));
  }

  /** Running the script a second time changes nothing. */
  lemma UpdatedIdempotent(row: CsvFields.Row)
    ensures Updated(Updated(row)) == Updated(row)
    ensures !Changes(Updated(row))
  {
    match DependenciesJson(row)
    case Some(json) =>
      WrittenSpec(row, json);
      SameSources(Written(row, json), row);
    case None =>
  }

  /** The number of records the loop changes. */
  function ChangedCount(rows: seq<CsvFields.Row>): nat
    decreases |rows|
  {
    if rows == [] then 0
    else ChangedCount(rows[..|rows| - 1]) + (if Changes(rows[|rows| - 1]) then 1 else 0)
  }

  /** The records after the loop. */
  function UpdatedAll(rows: seq<CsvFields.Row>): (r: seq<CsvFields.Row>)
    ensures |r| == |rows|
    decreases |rows|
  {
    if rows == [] then [] else UpdatedAll(rows[..|rows| - 1]) + [Updated(rows[|rows| - 1])]
  }

  /** A second run over the written records updates none of them. */
  lemma {:induction false} RerunUpdatesNothing(rows: seq<CsvFields.Row>)
    ensures ChangedCount(UpdatedAll(rows)) == 0
    ensures UpdatedAll(UpdatedAll(rows)) == UpdatedAll(rows)
    decreases |rows|
  {
    if rows != [] {
      var u := UpdatedAll(rows);
      RerunUpdatesNothing(rows[..|rows| - 1]);
      UpdatedIdempotent(rows[|rows| - 1]);
      assert u[..|u| - 1] == UpdatedAll(rows[..|rows| - 1]);
    }
  }

  /** The dependency text the loop computes for one record. */
  method ComputeJson(code: string, previewCode: string) returns (json: string)
    ensures json == RecomputedJson(code, previewCode)
  {
    var cleanedCode := DependencyScan.CleanCode(code);
    var cleanedPreviewCode := DependencyScan.CleanCode(previewCode);
    var dependencies := GetDependenciesFromComponent(cleanedCode, cleanedPreviewCode);
    json := Json.Stringify(dependencies);
  }

  /** For a readable record, the loop's step is writing the recomputed text. */
  lemma UpdatedReadable(row: CsvFields.Row, json: string)
    requires "code" in row && "previewCode" in row
    requires json == RecomputedJson(row["code"], row["previewCode"])
    ensures Updated(row) == Written(row, json)
    ensures Changes(row) == (CsvFields.Field(row, DependenciesColumn) != Some(json))
  {
    var j := DependenciesJson(row);
    assert j == Some(json);
    assert Updated(row) == match j case Some(t) => Written(row, t) case None => row;
  }

  /** The body of the main loop for one record. */
  method UpdateRow(row: CsvFields.Row) returns (r: CsvFields.Row, changed: bool)
    ensures r == Updated(row)
    ensures changed == Changes(row)
  {
    if "code" in row && "previewCode" in row {
      var json := ComputeJson(row["code"], row["previewCode"]);
      UpdatedReadable(row, json);
      changed := CsvFields.Field(row, DependenciesColumn) != Some(json);
      r := Written(row, json);
    } else {
      r, changed := row, false;
    }
  }

  /** The main loop: each record whose recomputed JSON differs from its
      stored `dependencies` gets the new text in place; records that throw
      are skipped. `updated` counts the changed records. */
  lemma PrefixStep(rows: seq<CsvFields.Row>, n: nat)
    requires n < |rows|
    ensures UpdatedAll(rows[..n + 1]) == UpdatedAll(rows[..n]) + [Updated(rows[n])]
    ensures ChangedCount(rows[..n + 1]) == ChangedCount(rows[..n]) + (if Changes(rows[n]) then 1 else 0)
  {
    assert rows[..n + 1][..n] == rows[..n];
  }

  lemma RowsStep(before: seq<CsvFields.Row>, pre: seq<CsvFields.Row>, post: seq<CsvFields.Row>, n: nat)
    requires |pre| == |before| && n < |before|
    requires pre[..n] == UpdatedAll(before[..n]) && pre[n..] == before[n..]
    requires post == pre[n := Updated(before[n])]
    ensures post[..n + 1] == UpdatedAll(before[..n + 1]) && post[n + 1..] == before[n + 1..]
  {
    PrefixStep(before, n);
    assert post[..n + 1] == pre[..n] + [Updated(before[n])];
    assert post[n + 1..] == pre[n..][1..];
  }

  method UpdateRows(rows: array<CsvFields.Row>) returns (updated: nat)
    modifies rows
    ensures rows[..] == UpdatedAll(old(rows[..]))
    ensures updated == ChangedCount(old(rows[..]))
  {
    ghost var before := rows[..];
    updated := 0;
    for n := 0 to rows.Length
      invariant rows[..n] == UpdatedAll(before[..n])
      invariant rows[n..] == before[n..]
      invariant updated == ChangedCount(before[..n])
    {
      PrefixStep(before, n);
      assert rows[n] == before[n] by { assert rows[n..][0] == rows[n]; }
      ghost var pre := rows[..];
      var row, changed := UpdateRow(rows[n]);
      rows[n] := row;
      RowsStep(before, pre, rows[..], n);
      if changed {
        updated := updated + 1;
      }
    }
    assert before[..rows.Length] == before;
    assert rows[..rows.Length] == rows[..];
  }
}
