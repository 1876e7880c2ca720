/** The character-level CSV reader that scripts/generate-previews.js and
    scripts/parse-components.js each carry as `parseCSV`: one loop over the
    text with a quoted-mode flag, the field being read, the record being
    read and the records finished so far. Quoting follows section 2 of
    RFC 4180 (a doubled quote inside a quoted field stands for one quote),
    except that a quote anywhere toggles quoted mode and records of fewer
    than two fields are dropped. */
module CsvScan {
  import opened Strings

  /** The variables of the loop: `results`, `row`, `inQuote` and
      `currentField`. */
  datatype Scanner = Scanner(results: seq<seq<string>>, row: seq<string>, inQuote: bool, field: string)

  const Start: Scanner := Scanner([], [], false, "")

  /** The record a line break closes: the record read so far and the
      current field. Records of fewer than two fields are not kept. */
  function Close(s: Scanner): (r: Scanner)
    ensures r.row == [] && r.field == "" && r.inQuote == s.inQuote
    ensures |s.row| > 0 ==> r.results == s.results + [s.row + [s.field]]
    ensures |s.row| == 0 ==> r.results == s.results
  {
    var row := s.row + [s.field];
    s.(results := if |row| > 1 then s.results + [row] else s.results, row := [], field := "")
  }

  /** One pass of the loop body on the text from the current position on:
      the number of characters it consumes and the new state. */
  function Step(t: string, s: Scanner): (r: (nat, Scanner))
    requires t != []
    ensures 1 <= r.0 <= |t|
  {
    var c := t[0];
    if c == '"' then
      if s.inQuote && |t| > 1 && t[1] == '"' then (2, s.(field := s.field + "\""))
      else (1, s.(inQuote := !s.inQuote))
    else if c == ',' && !s.inQuote then (1, s.(row := s.row + [s.field], field := ""))
    else if (c == '\r' || c == '\n') && !s.inQuote then
      (if c == '\r' && |t| > 1 && t[1] == '\n' then 2 else 1, Close(s))
    else (1, s.(field := s.field + [c]))
  }

  /** The state after the loop has read all of `t`. */
  function Scan(t: string, s: Scanner): Scanner
    decreases |t|
  {
    if t == [] then s
    else
      var (n, next) := Step(t, s);
      Scan(t[n..], next)
  }

  /** The loop of `parseCSV`, up to the point where the two scripts part. */
  method ScanText(text: string) returns (s: Scanner)
    ensures s == Scan(text, Start)
  {
    var results: seq<seq<string>> := [];
    var row: seq<string> := [];
    var inQuote := false;
    var currentField := "";
    var i := 0;
    while i < |text|
      invariant 0 <= i <= |text|
      invariant Scan(text[i..], Scanner(results, row, inQuote, currentField)) == Scan(text, Start)
      decreases |text| - i
    {
      ghost var before := Scanner(results, row, inQuote, currentField);
      ghost var start := i;
      ScanFrom(text, i, before);
      var c := text[i];
      if c == '"' {
        if inQuote && i + 1 < |text| && text[i + 1] == '"' {
          currentField := currentField + "\"";
          i := i + 1;
        } else {
          inQuote := !inQuote;
        }
      } else if c == ',' && !inQuote {
        row := row + [currentField];
        currentField := "";
      } else if (c == '\r' || c == '\n') && !inQuote {
        if c == '\r' && i + 1 < |text| && text[i + 1] == '\n' {
          i := i + 1;
        }
        row := row + [currentField];
        if |row| > 1 {
          results := results + [row];
        }
        row := [];
        currentField := "";
        assert Scanner(results, row, inQuote, currentField) == Close(before);
      } else {
        currentField := currentField + [c];
      }
      i := i + 1;
      assert Step(text[start..], before) == (i - start, Scanner(results, row, inQuote, currentField));
    }
    assert text[|text|..] == [];
    s := Scanner(results, row, inQuote, currentField);
  }

  /** The scan from a position is one step followed by the scan after it. */
  lemma ScanFrom(text: string, i: nat, s: Scanner)
    requires i < |text|
    ensures var (n, next) := Step(text[i..], s);
            i + n <= |text| && Scan(text[i..], s) == Scan(text[i + n..], next)
            && text[i..][0] == text[i] && (i + 1 < |text| ==> text[i..][1] == text[i + 1])
            && (|text[i..]| > 1 <==> i + 1 < |text|)
  {
    var (n, next) := Step(text[i..], s);
    assert text[i..][n..] == text[i + n..];
  }

  /** Every finished record has at least two fields. */
  predicate Wide(results: seq<seq<string>>) {
    forall k :: 0 <= k < |results| ==> |results[k]| >= 2
  }

  /** Reading never keeps a record of fewer than two fields. */
  lemma {:induction false} ScanKeepsWide(t: string, s: Scanner)
    requires Wide(s.results)
    ensures Wide(Scan(t, s).results)
    decreases |t|
  {
    if t != [] {
      var (n, next) := Step(t, s);
      assert Wide(next.results);
      ScanKeepsWide(t[n..], next);
    }
  }

  // ---------------------------------------------------------------------
  // Writing records
  // ---------------------------------------------------------------------

  /** A field's text with each quote doubled. */
  function Double(f: string): (r: string)
    ensures |r| >= |f|
    decreases |f|
  {
    if f == [] then [] else (if f[0] == '"' then "\"\"" else [f[0]]) + Double(f[1..])
  }

  /** A field in quotes. */
  function Quoted(f: string): string {
    "\"" + Double(f) + "\""
  }

  /** The fields of a record, quoted and separated by commas. */
  function Fields(r: seq<string>): (t: string)
    requires |r| > 0
    ensures |t| > 0 && t[0] == '"'
    decreases |r|
  {
    if |r| == 1 then Quoted(r[0]) else Quoted(r[0]) + "," + Fields(r[1..])
  }

  /** The three line breaks the reader accepts. */
  predicate LineBreak(term: string) {
    term == "\n" || term == "\r\n" || term == "\r"
  }

  /** Records written one per line, each line ending with `term`. */
  function Encode(rows: seq<seq<string>>, term: string): (t: string)
    requires Wide(rows)
    decreases |rows|
  {
    if rows == [] then "" else Fields(rows[0]) + term + Encode(rows[1..], term)
  }

  /** The doubled text of a field and its closing quote, read in quoted
      mode, add the field to the current one and leave quoted mode, as long
      as no quote follows. */
  lemma {:induction false} QuotedBodyScan(f: string, rest: string, s: Scanner)
    requires s.inQuote
    requires rest == [] || rest[0] != '"'
    ensures Scan(Double(f) + "\"" + rest, s) == Scan(rest, s.(field := s.field + f, inQuote := false))
    decreases |f|
  {
    var t := Double(f) + "\"" + rest;
    if f == [] {
      assert t == "\"" + rest;
      ScanAfter(t, s, 1, s.(inQuote := false));
      assert t[1..] == rest;
      assert s.field + f == s.field;
    } else {
      var s1 := s.(field := s.field + [f[0]]);
      QuotedBodyScan(f[1..], rest, s1);
      QuotedBodyStep(f, rest, s);
    }
  }

  /** One character of a quoted field, given the rest of the field. */
  lemma QuotedBodyStep(f: string, rest: string, s: Scanner)
    requires s.inQuote && f != []
    requires var s1 := s.(field := s.field + [f[0]]);
             Scan(Double(f[1..]) + "\"" + rest, s1) == Scan(rest, s1.(field := s1.field + f[1..], inQuote := false))
    ensures Scan(Double(f) + "\"" + rest, s) == Scan(rest, s.(field := s.field + f, inQuote := false))
  {
    QuotedCharScan(f, rest, s);
    var s1 := s.(field := s.field + [f[0]]);
    assert s1.(field := s1.field + f[1..], inQuote := false) == s.(field := s.field + f, inQuote := false) by {
      ConsAppend(s.field, f);
    }
  }

  /** The first character of a quoted field, doubled when it is a quote,
      is added to the current field. */
  lemma QuotedCharScan(f: string, rest: string, s: Scanner)
    requires s.inQuote && f != []
    ensures Scan(Double(f) + "\"" + rest, s) == Scan(Double(f[1..]) + "\"" + rest, s.(field := s.field + [f[0]]))
  {
    var t := Double(f) + "\"" + rest;
    var tail := Double(f[1..]) + "\"" + rest;
    var c := if f[0] == '"' then "\"\"" else [f[0]];
    assert t == c + tail;
    assert t[|c|..] == tail;
    assert t[0] == f[0];
    if f[0] == '"' { assert t[1] == '"'; }
    ScanAfter(t, s, |c|, s.(field := s.field + [f[0]]));
  }

  /** Reading goes on from wherever one step leaves it. */
  lemma ScanAfter(t: string, s: Scanner, n: nat, next: Scanner)
    requires t != [] && Step(t, s) == (n, next)
    ensures Scan(t, s) == Scan(t[n..], next)
  {
  }

  /** A quoted field read outside quoted mode becomes the current field. */
  lemma QuotedScan(f: string, rest: string, s: Scanner)
    requires !s.inQuote && s.field == ""
    requires rest == [] || rest[0] != '"'
    ensures Scan(Quoted(f) + rest, s) == Scan(rest, s.(field := f))
  {
    var body := Double(f) + "\"" + rest;
    var t := "\"" + body;
    assert Quoted(f) + rest == t;
    assert Step(t, s) == (1, s.(inQuote := true));
    assert t[1..] == body;
    QuotedBodyScan(f, rest, s.(inQuote := true));
    assert s.(inQuote := true).(field := "" + f, inQuote := false) == s.(field := f);
  }

  /** The fields of a record add all but the last to the record being
      read; the last becomes the current field. */
  lemma {:induction false} FieldsScan(r: seq<string>, rest: string, s: Scanner)
    requires |r| > 0
    requires !s.inQuote && s.field == ""
    requires rest == [] || rest[0] != '"'
    ensures Scan(Fields(r) + rest, s) == Scan(rest, s.(row := s.row + r[..|r| - 1], field := r[|r| - 1]))
    decreases |r|
  {
    if |r| == 1 {
      QuotedScan(r[0], rest, s);
      assert s.row + r[..0] == s.row;
    } else {
      var s2 := s.(row := s.row + [r[0]], field := "");
      FieldsHead(r, rest, s);
      FieldsScan(r[1..], rest, s2);
      assert s2.(row := s2.row + r[1..][..|r| - 2], field := r[1..][|r| - 2])
             == s.(row := s.row + r[..|r| - 1], field := r[|r| - 1]) by {
        ShiftFirst(s.row, r);
      }
    }
  }

  /** The first of several fields is read and added to the record. */
  lemma FieldsHead(r: seq<string>, rest: string, s: Scanner)
    requires |r| > 1
    requires !s.inQuote && s.field == ""
    ensures Scan(Fields(r) + rest, s) == Scan(Fields(r[1..]) + rest, s.(row := s.row + [r[0]], field := ""))
  {
    var after := "," + (Fields(r[1..]) + rest);
    var s1 := s.(field := r[0]);
    var s2 := s.(row := s.row + [r[0]], field := "");
    assert Scan(Fields(r) + rest, s) == Scan(after, s1) by {
      assert Fields(r) + rest == Quoted(r[0]) + after;
      QuotedScan(r[0], after, s);
    }
    assert Scan(after, s1) == Scan(Fields(r[1..]) + rest, s2) by {
      assert Step(after, s1) == (1, s2);
      assert after[1..] == Fields(r[1..]) + rest;
      ScanAfter(after, s1, 1, s2);
    }
  }

  lemma ShiftFirst<T>(a: seq<T>, r: seq<T>)
    requires |r| > 1
    ensures a + [r[0]] + r[1..][..|r| - 2] == a + r[..|r| - 1]
  {
    assert r[..|r| - 1] == [r[0]] + r[1..][..|r| - 2];
  }

  /** A line break outside quoted mode closes the record. */
  lemma BreakScan(term: string, rest: string, s: Scanner)
    requires LineBreak(term) && !s.inQuote
    requires term == "\r" ==> rest == [] || rest[0] != '\n'
    ensures Scan(term + rest, s) == Scan(rest, Close(s))
  {
    var t := term + rest;
    if term == "\r\n" {
      assert Step(t, s) == (2, Close(s));
      assert t[2..] == rest;
    } else {
      assert Step(t, s) == (1, Close(s));
      assert t[1..] == rest;
    }
  }

  lemma InitLast<T>(r: seq<T>)
    requires |r| > 0
    ensures r[..|r| - 1] + [r[|r| - 1]] == r
  {
  }

  lemma ConsAppend<T>(a: seq<T>, b: seq<T>)
    requires |b| > 0
    ensures a + [b[0]] + b[1..] == a + b
  {
    assert b == [b[0]] + b[1..];
  }

  /** One written record is read back and finished. */
  lemma RecordScan(r: seq<string>, term: string, next: string, s: Scanner)
    requires |r| >= 2 && LineBreak(term)
    requires s.row == [] && s.field == "" && !s.inQuote
    requires next == [] || next[0] == '"'
    ensures Scan(Fields(r) + (term + next), s) == Scan(next, s.(results := s.results + [r]))
  {
    var s1 := s.(row := r[..|r| - 1], field := r[|r| - 1]);
    assert Scan(Fields(r) + (term + next), s) == Scan(term + next, s1) by {
      FieldsScan(r, term + next, s);
      assert s.(row := s.row + r[..|r| - 1], field := r[|r| - 1]) == s1;
    }
    assert Scan(term + next, s1) == Scan(next, Close(s1)) by {
      BreakScan(term, next, s1);
    }
    assert Close(s1) == s.(results := s.results + [r]) by {
      InitLast(r);
    }
  }

  lemma EncodeFirst(rows: seq<seq<string>>, term: string, rest: string)
    requires Wide(rows) && rows != []
    ensures Encode(rows, term) + rest == Fields(rows[0]) + (term + (Encode(rows[1..], term) + rest))
  {
    var a, b := Fields(rows[0]), Encode(rows[1..], term);
    assert Encode(rows, term) == a + term + b;
    Assoc4(a, term, b, rest);
  }

  lemma Assoc4<T>(a: seq<T>, b: seq<T>, c: seq<T>, d: seq<T>)
    ensures a + b + c + d == a + (b + (c + d))
  {
  }

  /** Written records start with a quote. */
  lemma EncodeStart(rows: seq<seq<string>>, term: string, rest: string)
    requires Wide(rows)
    requires rest == [] || rest[0] == '"'
    ensures var t := Encode(rows, term) + rest; t == [] || t[0] == '"'
  {
    if rows != [] {
      EncodeFirst(rows, term, rest);
    } else {
      assert Encode(rows, term) + rest == rest;
    }
  }

  /** Written records are read back one by one. */
  lemma {:induction false} EncodeScan(rows: seq<seq<string>>, term: string, rest: string, s: Scanner)
    requires Wide(rows) && LineBreak(term)
    requires s.row == [] && s.field == "" && !s.inQuote
    requires rest == [] || rest[0] == '"'
    ensures Scan(Encode(rows, term) + rest, s) == Scan(rest, s.(results := s.results + rows))
    decreases |rows|
  {
    if rows == [] {
      assert s.results + rows == s.results;
      assert s.(results := s.results) == s;
      assert Encode(rows, term) + rest == rest;
    } else {
      var r := rows[0];
      var next := Encode(rows[1..], term) + rest;
      EncodeStart(rows[1..], term, rest);
      EncodeFirst(rows, term, rest);
      var s2 := s.(results := s.results + [r]);
      assert Scan(Fields(r) + (term + next), s) == Scan(next, s2) by {
        RecordScan(r, term, next, s);
      }
      assert Scan(next, s2) == Scan(rest, s2.(results := s2.results + rows[1..])) by {
        EncodeScan(rows[1..], term, rest, s2);
      }
      assert s2.(results := s2.results + rows[1..]) == s.(results := s.results + rows) by {
        ConsAppend(s.results, rows);
      }
    }
  }

  /** A line break at the start of a record adds nothing: blank lines are
      skipped. */
  lemma BlankLineSkipped(term: string, rest: string, s: Scanner)
    requires LineBreak(term) && s.row == [] && s.field == "" && !s.inQuote
    requires term == "\r" ==> rest == [] || rest[0] != '\n'
    ensures Scan(term + rest, s) == Scan(rest, s)
  {
    BreakScan(term, rest, s);
    assert Close(s) == s;
  }

  /** A one-field line, such as a quoted field alone on its line, is
      dropped. */
  lemma OneFieldLineDropped(f: string, term: string, rest: string, s: Scanner)
    requires LineBreak(term) && s.row == [] && s.field == "" && !s.inQuote
    requires term == "\r" ==> rest == [] || rest[0] != '\n'
    ensures Scan(Quoted(f) + term + rest, s) == Scan(rest, s)
  {
    var after := term + rest;
    assert Quoted(f) + term + rest == Quoted(f) + after;
    assert after[0] != '"';
    QuotedScan(f, after, s);
    var s1 := s.(field := f);
    BreakScan(term, rest, s1);
    assert Close(s1) == s;
  }

  /** Written records followed by the fields of one more record without a
      final line break: the written records are finished, the last record's
      fields but its last are pending, and its last field is the current
      one. */
  lemma UnterminatedScan(rows: seq<seq<string>>, term: string, last: seq<string>)
    requires Wide(rows) && LineBreak(term) && |last| > 0
    ensures Scan(Encode(rows, term) + Fields(last), Start)
            == Scanner(rows, last[..|last| - 1], false, last[|last| - 1])
  {
    EncodeScan(rows, term, Fields(last), Start);
    assert Start.(results := Start.results + rows) == Start.(results := rows);
    FieldsScan(last, [], Start.(results := rows));
    assert Fields(last) + [] == Fields(last);
  }

  /** Written records, each line ending in a line break, read back as
      exactly those records. */
  lemma EncodeReadsBack(rows: seq<seq<string>>, term: string)
    requires Wide(rows) && LineBreak(term)
    ensures Scan(Encode(rows, term), Start) == Scanner(rows, [], false, "")
  {
    EncodeScan(rows, term, [], Start);
    assert Encode(rows, term) + [] == Encode(rows, term);
  }
}
