/**
 * The CSV reader of the dashboard: split the upload into non-blank lines, take the
 * first as the header, turn every later line into a row keyed by the lower-cased
 * header names, coerce the recognised numeric columns, and attach the per-row
 * ratios `ctr`, `cpa` and `cpc`.
 */
module Rows {
  import opened Wrappers
  import opened Text
  import opened Numbers

  /** A field of a row: a number, a piece of text, or JavaScript's `undefined`. */
  datatype Value = Num(n: real) | Str(s: string) | Undef

  /** The open-ended row object: field name to value. */
  type Row = map<string, Value>

  /** The columns parsed as numbers; every other column keeps its text. */
  const NumericKeys: set<string> := {"impressions", "clicks", "conversions", "spend", "revenue", "leads", "orders"}

  /** The derived columns written after the header fields. */
  const RatioKeys: set<string> := {"ctr", "cpa", "cpc"}

  /** `values[i]`, or `undefined` when the line has fewer cells. */
  function Cell(values: seq<string>, i: nat): (v: Option<string>)
    ensures v.Some? <==> i < |values|
  {
    if i < |values| then Some(values[i]) else None
  }

  /**
   * A numeric cell: the number the cell parses to, or 0 when it parses to NaN
   * (a missing cell parses to NaN as well). A non-zero result is always a parse of the cell.
   */
  function NumberOrZero(cell: Option<string>): (r: real)
    ensures cell.None? ==> r == 0.0
    ensures cell.Some? && ParseFloat(cell.value).None? ==> r == 0.0
    ensures cell.Some? && ParseFloat(cell.value).Some? ==> r == ParseFloat(cell.value).value
    ensures r != 0.0 ==> cell.Some? && ParseFloat(cell.value) == Some(r)
  {
    match cell
    case None => 0.0
    case Some(text) =>
      match ParseFloat(text)
      case None => 0.0
      case Some(x) => x
  }

  /** The value one header cell assigns to its key. */
  function FieldValue(header: string, cell: Option<string>): (v: Value)
    ensures header in NumericKeys ==> v == Num(NumberOrZero(cell))
    ensures header !in NumericKeys && cell.Some? ==> v == Str(cell.value)
    ensures v.Str? ==> cell == Some(v.s)
    ensures v == Undef ==> cell.None?
  {
    if header in NumericKeys then Num(NumberOrZero(cell))
    else if cell.Some? then Str(cell.value)
    else Undef
  }

  /** A numeric column always gets a number and any other column never does; only a missing text cell is `undefined`. */
  lemma FieldValueKind(header: string, cell: Option<string>)
    ensures FieldValue(header, cell).Num? <==> header in NumericKeys
    ensures FieldValue(header, cell) == Undef <==> header !in NumericKeys && cell.None?
  {
  }

  /**
   * A row built by assigning `vals[i]` to `keys[i]` from left to right, so a
   * repeated key keeps its last value.
   */
  function Assign(keys: seq<string>, vals: seq<Value>): (row: Row)
    requires |vals| == |keys|
    ensures forall h :: h in row <==> h in keys
  {
    if keys == [] then map[]
    else
      var n := |keys| - 1;
      assert forall h :: h in keys <==> h in keys[..n] || h == keys[n] by {
        assert keys == keys[..n] + [keys[n]];
      }
      Assign(keys[..n], vals[..n])[keys[n] := vals[n]]
  }

  /** A key not repeated later holds its own value. */
  lemma {:induction false} AssignAt(keys: seq<string>, vals: seq<Value>, i: nat)
    requires |vals| == |keys| && i < |keys|
    requires keys[i] !in keys[i + 1..]
    ensures keys[i] in Assign(keys, vals) && Assign(keys, vals)[keys[i]] == vals[i]
  {
    var n := |keys| - 1;
    if i < n {
      assert keys[n] == keys[i + 1..][n - i - 1];
      assert keys[..n][i] == keys[i] && vals[..n][i] == vals[i];
      UniqueInPrefix(keys, i, n);
      AssignAt(keys[..n], vals[..n], i);
    }
  }

  /** A name not repeated after position `i` is not repeated in any prefix either. */
  lemma UniqueInPrefix(s: seq<string>, i: nat, n: nat)
    requires i < n <= |s|
    requires s[i] !in s[i + 1..]
    ensures s[i] !in s[..n][i + 1..]
  {
    assert s[..n][i + 1..] == s[i + 1..][..n - i - 1];
  }

  /** Every field holds the value given for one of the positions of its key. */
  lemma {:induction false} AssignFrom(keys: seq<string>, vals: seq<Value>, h: string)
    requires |vals| == |keys| && h in Assign(keys, vals)
    ensures exists j :: 0 <= j < |keys| && keys[j] == h && Assign(keys, vals)[h] == vals[j]
  {
    var n := |keys| - 1;
    if h != keys[n] {
      AssignFrom(keys[..n], vals[..n], h);
      var j :| 0 <= j < n && keys[..n][j] == h && Assign(keys[..n], vals[..n])[h] == vals[..n][j];
      assert keys[j] == h && vals[j] == vals[..n][j];
    }
  }

  /** The value each header cell assigns, position by position. */
  function CellFields(headers: seq<string>, values: seq<string>): (vals: seq<Value>)
    ensures |vals| == |headers|
  {
    seq(|headers|, i requires 0 <= i < |headers| => FieldValue(headers[i], Cell(values, i)))
  }

  /**
   * The row object after the header loop, which assigns one field per header cell:
   * assignments run left to right, so a repeated header keeps its last cell.
   */
  function Fields(headers: seq<string>, values: seq<string>): (row: Row)
    ensures forall h :: h in row <==> h in headers
  {
    Assign(headers, CellFields(headers, values))
  }

  /** The field of every header cell holds the value of the cell below it, unless a later column repeats the name. */
  lemma FieldsAt(headers: seq<string>, values: seq<string>, i: nat)
    requires i < |headers|
    requires headers[i] !in headers[i + 1..]
    ensures headers[i] in Fields(headers, values)
    ensures Fields(headers, values)[headers[i]] == FieldValue(headers[i], Cell(values, i))
  {
    AssignAt(headers, CellFields(headers, values), i);
  }

  /** The field's number, or the fallback `d` when the field is absent, not a number, or zero (falsy). */
  function NumberOr(row: Row, key: string, d: real): (r: real)
    ensures d != 0.0 ==> r != 0.0
    ensures key !in row ==> r == d
  {
    if key in row && row[key].Num? && row[key].n != 0.0 then row[key].n else d
  }

  /** The row with `ctr`, `cpa` and `cpc` attached; a zero or absent denominator counts as 1. */
  function WithRatios(row: Row): (r: Row)
    ensures r.Keys == row.Keys + RatioKeys
    ensures forall k :: k in row && k !in RatioKeys ==> r[k] == row[k]
    ensures r["ctr"].Num? && r["cpa"].Num? && r["cpc"].Num?
    ensures r["ctr"].n * NumberOr(row, "impressions", 1.0) == NumberOr(row, "clicks", 0.0)
    ensures r["cpa"].n * NumberOr(row, "conversions", 1.0) == NumberOr(row, "spend", 0.0)
    ensures r["cpc"].n * NumberOr(row, "clicks", 1.0) == NumberOr(row, "spend", 0.0)
  {
    var ctr := NumberOr(row, "clicks", 0.0) / NumberOr(row, "impressions", 1.0);
    var cpa := NumberOr(row, "spend", 0.0) / NumberOr(row, "conversions", 1.0);
    var cpc := NumberOr(row, "spend", 0.0) / NumberOr(row, "clicks", 1.0);
    row["ctr" := Num(ctr)]["cpa" := Num(cpa)]["cpc" := Num(cpc)]
  }

  /** One header cell as a key: trimmed, then lower-cased. */
  function HeaderName(cell: string): string
  {
    ToLower(Trim(cell))
  }

  /** The header cells: split on commas, each normalised by `HeaderName`. */
  function HeaderNames(line: string): (names: seq<string>)
    ensures |names| == |Split(line, ',')|
    ensures forall k {:trigger Split(line, ',')[k]} :: 0 <= k < |names| ==> names[k] == HeaderName(Split(line, ',')[k])
  {
    var cells := Split(line, ',');
    seq(|cells|, k requires 0 <= k < |cells| => HeaderName(cells[k]))
  }

  /** The data cells of one line: split on commas and trimmed. */
  function CellValues(line: string): (values: seq<string>)
    ensures |values| == |Split(line, ',')|
    ensures forall k :: 0 <= k < |values| ==> values[k] == Trim(Split(line, ',')[k])
  {
    var cells := Split(line, ',');
    seq(|cells|, k requires 0 <= k < |cells| => Trim(cells[k]))
  }

  /** One data line turned into a row under the given header: the header fields plus the three ratios. */
  function ParseLine(headers: seq<string>, line: string): (row: Row)
    ensures row.Keys == (set h | h in headers) + RatioKeys
  {
    WithRatios(Fields(headers, CellValues(line)))
  }

  /** The lines that are not blank after trimming, in their original order. */
  function NonBlank(lines: seq<string>): (r: seq<string>)
    ensures |r| <= |lines|
  {
    if lines == [] then []
    else
      if Trim(lines[0]) != [] then [lines[0]] + NonBlank(lines[1..]) else NonBlank(lines[1..])
  }

  /** A line is kept exactly when it occurs in the input and is not blank. */
  lemma {:induction false} NonBlankMember(lines: seq<string>, l: string)
    ensures l in NonBlank(lines) <==> l in lines && Trim(l) != ""
  {
    if lines != [] {
      NonBlankMember(lines[1..], l);
      assert lines == [lines[0]] + lines[1..];
    }
  }

  /** Filtering distributes over concatenation, so kept lines stay in source order. */
  lemma {:induction false} NonBlankAppend(a: seq<string>, b: seq<string>)
    ensures NonBlank(a + b) == NonBlank(a) + NonBlank(b)
  {
    if a == [] {
      assert a + b == b;
    } else {
      assert (a + b)[0] == a[0] && (a + b)[1..] == a[1..] + b;
      NonBlankAppend(a[1..], b);
    }
  }

  /** The non-blank lines of an upload. */
  function Lines(text: string): seq<string>
  {
    NonBlank(Split(text, '\n'))
  }

  /** A line of an upload is kept exactly when it lies between line breaks and is not blank. */
  lemma LineOfText(text: string, l: string)
    ensures l in Lines(text) <==> l in Split(text, '\n') && Trim(l) != ""
  {
    NonBlankMember(Split(text, '\n'), l);
  }

  /** Every data line read under a fixed header, in order. */
  function ParseRows(headers: seq<string>, dataLines: seq<string>): (rows: seq<Row>)
    ensures |rows| == |dataLines|
  {
    seq(|dataLines|, k requires 0 <= k < |dataLines| => ParseLine(headers, dataLines[k]))
  }

  /** `parseCSV(text)`. */
  function ParseCSV(text: string): (rows: seq<Row>)
    ensures |Lines(text)| < 2 ==> rows == []
    ensures |Lines(text)| >= 2 ==> |rows| == |Lines(text)| - 1
  {
    var lines := Lines(text);
    if |lines| < 2 then [] else ParseRows(HeaderNames(lines[0]), lines[1..])
  }

  /** Rows as the parser builds them: numbers exactly under the numeric and ratio keys. */
  predicate WellTyped(row: Row)
  {
    forall k :: k in row ==> ((k in NumericKeys || k in RatioKeys) <==> row[k].Num?)
  }

  /** Every field of the header assignment is a number, `undefined`, or one of the cells given. */
  lemma FieldsShape(headers: seq<string>, values: seq<string>)
    ensures forall k :: k in Fields(headers, values) ==>
      (k in NumericKeys <==> Fields(headers, values)[k].Num?) &&
      (Fields(headers, values)[k].Str? ==> Fields(headers, values)[k].s in values)
  {
    var row := Fields(headers, values);
    var vals := CellFields(headers, values);
    forall k | k in row
      ensures (k in NumericKeys <==> row[k].Num?) && (row[k].Str? ==> row[k].s in values)
    {
      AssignFrom(headers, vals, k);
      var j :| 0 <= j < |headers| && headers[j] == k && row[k] == vals[j];
      FieldValueKind(k, Cell(values, j));
    }
  }

  /** Row `k` is data line `k + 1` read under the header line: one row per data line, in order. */
  lemma ParsedRowAt(text: string, k: nat)
    requires k < |ParseCSV(text)|
    ensures |Lines(text)| >= 2
    ensures ParseCSV(text)[k] == ParseLine(HeaderNames(Lines(text)[0]), Lines(text)[k + 1])
  {
    var lines := Lines(text);
    assert |lines| >= 2;
    var headers := HeaderNames(lines[0]);
    var rows := ParseRows(headers, lines[1..]);
    assert ParseCSV(text) == rows;
    assert rows[k] == ParseLine(headers, lines[1..][k]);
    assert lines[1..][k] == lines[k + 1];
  }

  /** Each row holds exactly the header names and the three ratios. */
  lemma ParsedRowKeys(text: string, k: nat)
    requires k < |ParseCSV(text)|
    ensures ParseCSV(text)[k].Keys == (set h | h in HeaderNames(Lines(text)[0])) + RatioKeys
  {
    ParsedRowAt(text, k);
  }

  /** A line read under any header holds numbers under the numeric and ratio keys and nowhere else. */
  lemma ParseLineWellTyped(headers: seq<string>, line: string)
    ensures WellTyped(ParseLine(headers, line))
  {
    FieldsShape(headers, CellValues(line));
  }

  /** Every parsed row holds numbers under the numeric and ratio keys and nowhere else. */
  lemma ParsedRowWellTyped(text: string, k: nat)
    requires k < |ParseCSV(text)|
    ensures WellTyped(ParseCSV(text)[k])
  {
    ParsedRowAt(text, k);
    var lines := Lines(text);
    ParseLineWellTyped(HeaderNames(lines[0]), lines[k + 1]);
  }

  /**
   * Field assignment: under a header name (not repeated later and not a ratio name),
   * row `k` holds what `FieldValue` makes of cell `i` of data line `k + 1`: the number for
   * a numeric column, else the trimmed text, or `undefined` past the end of the line.
   */
  lemma ParsedField(text: string, k: nat, i: nat)
    requires k < |ParseCSV(text)|
    requires i < |HeaderNames(Lines(text)[0])|
    requires HeaderNames(Lines(text)[0])[i] !in HeaderNames(Lines(text)[0])[i + 1..]
    requires HeaderNames(Lines(text)[0])[i] !in RatioKeys
    ensures ParseCSV(text)[k][HeaderNames(Lines(text)[0])[i]]
         == FieldValue(HeaderNames(Lines(text)[0])[i], Cell(CellValues(Lines(text)[k + 1]), i))
  {
    ParsedRowAt(text, k);
    var lines := Lines(text);
    var headers := HeaderNames(lines[0]);
    var values := CellValues(lines[k + 1]);
    FieldsAt(headers, values, i);
    var fields := Fields(headers, values);
    assert ParseCSV(text)[k] == WithRatios(fields);
    assert WithRatios(fields)[headers[i]] == fields[headers[i]];
  }

  /** Header names are already trimmed and lower case: normalising them again changes nothing. */
  lemma HeaderNamesNormalised(line: string, k: nat)
    requires k < |HeaderNames(line)|
    ensures ToLower(Trim(HeaderNames(line)[k])) == HeaderNames(line)[k]
  {
    var t := Trim(Split(line, ',')[k]);
    var h := ToLower(t);
    TrimFixed(h);
    ToLowerIdempotent(t);
  }

  /** Data cells are already trimmed, and each one is found in its line. */
  lemma CellValuesTrimmed(line: string, k: nat)
    requires k < |CellValues(line)|
    ensures Trim(CellValues(line)[k]) == CellValues(line)[k]
    ensures forall ch :: ch in CellValues(line)[k] ==> ch in line
  {
    TrimIdempotent(Split(line, ',')[k]);
    forall ch | ch in CellValues(line)[k] ensures ch in line {
      TrimChars(Split(line, ',')[k], ch);
      SplitPieceChars(line, ',', k, ch);
    }
  }

  /** A zero or absent impression count leaves `ctr` equal to the click count. */
  lemma CtrWithoutImpressions(row: Row)
    requires "impressions" !in row || row["impressions"] == Num(0.0)
    ensures WithRatios(row)["ctr"] == Num(NumberOr(row, "clicks", 0.0))
  {
  }

  /** A zero or absent conversion count leaves `cpa` equal to the spend. */
  lemma CpaFloor(row: Row)
    requires "conversions" !in row || row["conversions"] == Num(0.0)
    ensures WithRatios(row)["cpa"] == Num(NumberOr(row, "spend", 0.0))
  {
  }

  /** A zero or absent click count leaves `cpc` equal to the spend. */
  lemma CpcFloor(row: Row)
    requires "clicks" !in row || row["clicks"] == Num(0.0)
    ensures WithRatios(row)["cpc"] == Num(NumberOr(row, "spend", 0.0))
  {
  }

  /** With a non-zero impression count, `ctr` times impressions gives back the clicks. */
  lemma CtrInvert(row: Row, impressions: real)
    requires "impressions" in row && row["impressions"] == Num(impressions) && impressions != 0.0
    ensures WithRatios(row)["ctr"].n * impressions == NumberOr(row, "clicks", 0.0)
  {
  }

  /** With a non-zero conversion count, `cpa` times conversions gives back the spend. */
  lemma CpaInvert(row: Row, conversions: real)
    requires "conversions" in row && row["conversions"] == Num(conversions) && conversions != 0.0
    ensures WithRatios(row)["cpa"].n * conversions == NumberOr(row, "spend", 0.0)
  {
  }

  /** With a non-zero click count, `cpc` times clicks gives back the spend. */
  lemma CpcInvert(row: Row, clicks: real)
    requires "clicks" in row && row["clicks"] == Num(clicks) && clicks != 0.0
    ensures WithRatios(row)["cpc"].n * clicks == NumberOr(row, "spend", 0.0)
  {
  }

  /** The worked row `Summer,1000,50,200,600` (no conversions column): ctr 0.05, cpa 200 over the floor 1, cpc 4. */
  lemma RatiosExample(row: Row)
    requires row == map["campaign_name" := Str("Summer"), "impressions" := Num(1000.0),
                        "clicks" := Num(50.0), "spend" := Num(200.0), "revenue" := Num(600.0)]
    ensures WithRatios(row)["ctr"] == Num(0.05)
    ensures WithRatios(row)["cpa"] == Num(200.0)
    ensures WithRatios(row)["cpc"] == Num(4.0)
  {
  }

  predicate NonNegativeAt(row: Row, key: string)
  {
    key in row && row[key].Num? ==> row[key].n >= 0.0
  }

  /** Non-negative inputs give non-negative ratios. */
  lemma RatiosNonNegative(row: Row)
    requires NonNegativeAt(row, "clicks") && NonNegativeAt(row, "impressions")
    requires NonNegativeAt(row, "spend") && NonNegativeAt(row, "conversions")
    ensures WithRatios(row)["ctr"].n >= 0.0
    ensures WithRatios(row)["cpa"].n >= 0.0
    ensures WithRatios(row)["cpc"].n >= 0.0
  {
    var clicks, impressions := NumberOr(row, "clicks", 0.0), NumberOr(row, "impressions", 1.0);
    var spend, conversions := NumberOr(row, "spend", 0.0), NumberOr(row, "conversions", 1.0);
    assert impressions > 0.0 && conversions > 0.0;
    assert clicks / impressions >= 0.0;
    assert spend / conversions >= 0.0;
    assert spend / NumberOr(row, "clicks", 1.0) >= 0.0;
  }

  /** Text without a line break is at most a header: it yields no rows. */
  lemma SingleLineYieldsNothing(text: string)
    requires '\n' !in text
    ensures ParseCSV(text) == []
  {
    CountZero(text, '\n');
  }

  /** Every character of a piece of a split occurs in the split text. */
  lemma {:induction false} SplitPieceChars(s: string, c: char, k: nat, ch: char)
    requires k < |Split(s, c)|
    requires ch in Split(s, c)[k]
    ensures ch in s
  {
    if s != [] {
      var rest := Split(s[1..], c);
      if s[0] == c {
        if k > 0 { SplitPieceChars(s[1..], c, k - 1, ch); }
      } else if k == 0 {
        if ch != s[0] { SplitPieceChars(s[1..], c, 0, ch); }
      } else {
        SplitPieceChars(s[1..], c, k, ch);
      }
    }
  }

  lemma TrimChars(s: string, ch: char)
    requires ch in Trim(s)
    ensures ch in s
  {
    var t := TrimStart(s);
    assert Trim(s) == t[..|Trim(s)|];
    assert t == s[|s| - |t|..];
  }

  /** The text fields of a line without a line break contain none either. */
  lemma ParseLineTextHasNoLineBreak(headers: seq<string>, line: string, key: string)
    requires '\n' !in line
    requires key in ParseLine(headers, line) && ParseLine(headers, line)[key].Str?
    ensures '\n' !in ParseLine(headers, line)[key].s
  {
    var values := CellValues(line);
    var fields := Fields(headers, values);
    assert ParseLine(headers, line) == WithRatios(fields);
    assert key in fields && ParseLine(headers, line)[key] == fields[key];
    FieldsShape(headers, values);
    var s := fields[key].s;
    assert s in values;
    var i :| 0 <= i < |values| && values[i] == s;
    if '\n' in s {
      var cells := Split(line, ',');
      assert values[i] == Trim(cells[i]);
      TrimChars(cells[i], '\n');
      SplitPieceChars(line, ',', i, '\n');
    }
  }

  /** Text fields come from within one line, so they never contain a line break. */
  lemma ParsedTextHasNoLineBreak(text: string, k: nat, key: string)
    requires k < |ParseCSV(text)|
    requires key in ParseCSV(text)[k] && ParseCSV(text)[k][key].Str?
    ensures '\n' !in ParseCSV(text)[k][key].s
  {
    ParsedRowAt(text, k);
    var lines := Lines(text);
    var line := lines[k + 1];
    assert '\n' !in line by {
      var pieces := Split(text, '\n');
      assert line in lines;
      NonBlankMember(pieces, line);
      var j :| 0 <= j < |pieces| && pieces[j] == line;
    }
    ParseLineTextHasNoLineBreak(HeaderNames(lines[0]), line, key);
  }

  /** No text field of any row contains a line break. */
  predicate NoLineBreaks(data: seq<Row>)
  {
    forall k, key :: 0 <= k < |data| && key in data[k] && data[k][key].Str? ==> '\n' !in data[k][key].s
  }

  /** The rows of one upload carry no line break in their text. */
  lemma ParsedRowsHaveNoLineBreaks(text: string)
    ensures NoLineBreaks(ParseCSV(text))
  {
    var rows: seq<Row> := ParseCSV(text);
    forall k: nat, key: string | 0 <= k < |rows| && key in rows[k] && rows[k][key].Str?
      ensures '\n' !in rows[k][key].s
    {
      ParsedTextHasNoLineBreak(text, k, key);
    }
  }
}
