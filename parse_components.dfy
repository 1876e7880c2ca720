/** The one-off script scripts/parse-components.js: it reads the component
    CSV and prints, as a JSON array, the component id of every record after
    the header whose id is not blank. Reading the file and printing are
    left to the caller: the text comes in and the printed line comes out. */
module ParseComponents {
  import opened Wrappers
  import opened Strings
  import CsvScan
  import Json

  /** `parseCSV(text)`: unlike the copy in generate-previews.js, this one
      returns only the finished records, so a last line without a line
      break is dropped. */
  function Records(text: string): seq<seq<string>> {
    CsvScan.Scan(text, CsvScan.Start).results
  }

  /** `parseCSV(text)`, with its character loop. */
  method ParseCsv(text: string) returns (results: seq<seq<string>>)
    ensures results == Records(text)
  {
    var s := CsvScan.ScanText(text);
    results := s.results;
  }

  /** `rows.slice(1)`: the records after the header. */
  function Body(rows: seq<seq<string>>): seq<seq<string>> {
    if |rows| > 0 then rows[1..] else []
  }

  /** `id && id.trim() !== ''`: the id is present and not blank. */
  predicate Listed(row: seq<string>) {
    |row| > 0 && row[0] != "" && Trim(row[0]) != ""
  }

  /** `data.map(row => row[0]).filter(...)`, in record order. */
  function ComponentIds(data: seq<seq<string>>): (ids: seq<string>)
    ensures |ids| <= |data|
    decreases |data|
  {
    if data == [] then []
    else
      var row := data[|data| - 1];
      ComponentIds(data[..|data| - 1]) + if Listed(row) then [row[0]] else []
  }

  /** The line the script prints. */
  function Output(text: string): string {
    Json.Stringify(ComponentIds(Body(Records(text))))
  }

  /** An id is listed exactly when it is not white space only. */
  lemma ListedIff(row: seq<string>)
    ensures Listed(row) <==> |row| > 0 && !AllSpace(row[0])
  {
    if |row| > 0 {
      TrimEmptyIffAllSpace(row[0]);
    }
  }

  lemma {:induction false} IdsAreListed(data: seq<seq<string>>, id: string)
    requires id in ComponentIds(data)
    ensures exists k :: 0 <= k < |data| && Listed(data[k]) && data[k][0] == id
    decreases |data|
  {
    var init := data[..|data| - 1];
    if id in ComponentIds(init) {
      IdsAreListed(init, id);
      var k :| 0 <= k < |init| && Listed(init[k]) && init[k][0] == id;
      assert data[k] == init[k];
    } else {
      assert data[|data| - 1][0] == id;
    }
  }

  lemma {:induction false} ListedAreIds(data: seq<seq<string>>, k: nat)
    requires k < |data| && Listed(data[k])
    ensures data[k][0] in ComponentIds(data)
    decreases |data|
  {
    var init := data[..|data| - 1];
    if k < |init| {
      assert init[k] == data[k];
      ListedAreIds(init, k);
    }
  }

  /** The list holds exactly the first fields of the records that are not
      white space only. */
  lemma ComponentIdsSpec(data: seq<seq<string>>)
    ensures forall id :: id in ComponentIds(data) <==>
              !AllSpace(id) && exists k :: 0 <= k < |data| && |data[k]| > 0 && data[k][0] == id
  {
    forall id
      ensures id in ComponentIds(data) <==>
                !AllSpace(id) && exists k :: 0 <= k < |data| && |data[k]| > 0 && data[k][0] == id
    {
      if id in ComponentIds(data) {
        IdsAreListed(data, id);
        var k :| 0 <= k < |data| && Listed(data[k]) && data[k][0] == id;
        ListedIff(data[k]);
      }
      if !AllSpace(id) && exists k :: 0 <= k < |data| && |data[k]| > 0 && data[k][0] == id {
        var k :| 0 <= k < |data| && |data[k]| > 0 && data[k][0] == id;
        ListedIff(data[k]);
        ListedAreIds(data, k);
      }
    }
  }

  /** Every finished record has at least two fields. */
  lemma RecordsAreWide(text: string)
    ensures CsvScan.Wide(Records(text))
  {
    CsvScan.ScanKeepsWide(text, CsvScan.Start);
  }

  /** Records written with a line break after each are read back as they
      were. */
  lemma RecordsReadBack(rows: seq<seq<string>>, term: string)
    requires CsvScan.Wide(rows) && CsvScan.LineBreak(term)
    ensures Records(CsvScan.Encode(rows, term)) == rows
  {
    CsvScan.EncodeReadsBack(rows, term);
  }

  /** A last record without a line break is lost entirely. */
  lemma UnterminatedLastRecordLost(rows: seq<seq<string>>, term: string, last: seq<string>)
    requires CsvScan.Wide(rows) && CsvScan.LineBreak(term) && |last| > 0
    ensures Records(CsvScan.Encode(rows, term) + CsvScan.Fields(last)) == rows
  {
    CsvScan.UnterminatedScan(rows, term, last);
  }

  /** The printed line is a JSON array that decodes to the id list, so two
      files print the same line exactly when they list the same ids. */
  lemma OutputDecodes(text: string)
    ensures Json.DecodeArray(Output(text)) == Some(ComponentIds(Body(Records(text))))
  {
    Json.StringifyDecodes(ComponentIds(Body(Records(text))));
  }
}
