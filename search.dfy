/**
 * The local half of the semantic search: the numbered sample of the first rows
 * sent with the query, and the mapping of the indices the language model returns
 * back to rows of the dataset. The model's answer itself is a parameter.
 */
module Search {
  import opened Wrappers
  import opened Text
  import opened Numbers
  import opened Rows

  /** How many leading rows the sample covers (the first 30). */
  const SampleSize: nat := 30

  /**
   * A field as a template literal renders it: its text, or "undefined" for a
   * missing or undefined field. Numbers never occur under the two sampled text
   * columns of a parsed row and render as the empty string here.
   */
  function Show(row: Row, key: string): (s: string)
    ensures key in row && row[key].Str? ==> s == row[key].s
    ensures !(key in row && row[key].Str?) ==> '\n' !in s
  {
    if key !in row then "undefined"
    else match row[key]
      case Str(t) => t
      case Undef => "undefined"
      case Num(_) => ""
  }

  /**
   * Line `i` of the sample: the row's index, a colon, then its campaign name and ad copy.
   * The digits at the start of the line read back as the index.
   */
  function SampleLine(i: nat, row: Row): (line: string)
    ensures LeadingDigits(line) == |NatToString(i)|
    ensures DigitsValue(line[..LeadingDigits(line)]) == i
  {
    var index := NatToString(i);
    var rest := ": " + Show(row, "campaign_name") + " - " + Show(row, "ad_copy");
    LeadingDigitsConcat(index, rest);
    assert (index + rest)[..|index|] == index;
    DigitsValueOfNatToString(i);
    index + rest
  }

  function SampleLines(data: seq<Row>): (lines: seq<string>)
    ensures |lines| == if |data| < SampleSize then |data| else SampleSize
    ensures forall i :: 0 <= i < |lines| ==> lines[i] == SampleLine(i, data[i])
  {
    var n := if |data| < SampleSize then |data| else SampleSize;
    seq(n, i requires 0 <= i < n => SampleLine(i, data[i]))
  }

  /**
   * The sample text: the numbered lines joined with line breaks. When no sampled text
   * contains a line break, the sample splits back into its lines.
   */
  function Sample(data: seq<Row>): (text: string)
    ensures |data| > 0 && NoLineBreaks(data) ==> Split(text, '\n') == SampleLines(data)
  {
    var lines := SampleLines(data);
    if |data| > 0 && NoLineBreaks(data) then
      SampleLinesHaveNoLineBreak(data);
      SplitJoin(lines, '\n');
      Join(lines, '\n')
    else
      Join(lines, '\n')
  }

  /** The guard of `handleSemanticSearch`: nothing is sent for an empty query or an empty dataset. */
  function SearchRequest(query: string, data: seq<Row>): (r: Option<string>)
    ensures r.Some? <==> query != "" && |data| > 0
  {
    if query == "" || |data| == 0 then None else Some(Sample(data))
  }

  lemma SampleLineHasNoLineBreak(i: nat, row: Row)
    requires "campaign_name" in row && row["campaign_name"].Str? ==> '\n' !in row["campaign_name"].s
    requires "ad_copy" in row && row["ad_copy"].Str? ==> '\n' !in row["ad_copy"].s
    ensures '\n' !in SampleLine(i, row)
  {
    var d := NatToString(i);
    assert forall k :: 0 <= k < |d| ==> d[k] != '\n';
    var a, b := Show(row, "campaign_name"), Show(row, "ad_copy");
    assert SampleLine(i, row) == d + (": " + a + " - " + b);
    assert '\n' !in ": " + a + " - " + b;
  }

  lemma SampleLinesHaveNoLineBreak(data: seq<Row>)
    requires NoLineBreaks(data)
    ensures forall k :: 0 <= k < |SampleLines(data)| ==> '\n' !in SampleLines(data)[k]
  {
    var lines := SampleLines(data);
    forall k | 0 <= k < |lines| ensures '\n' !in lines[k] {
      SampleLineHasNoLineBreak(k, data[k]);
    }
  }

  /**
   * The rows at the returned indices, in answer order. Only indices outside the dataset
   * drop out: every row is an object and so survives the truthiness filter.
   */
  function SearchResults(data: seq<Row>, indices: seq<int>): (r: seq<Row>)
    ensures |r| <= |indices|
    ensures forall k :: 0 <= k < |r| ==> r[k] in data
  {
    if indices == [] then []
    else
      var i := indices[0];
      (if 0 <= i < |data| then [data[i]] else []) + SearchResults(data, indices[1..])
  }

  /** The mapping works index by index, so the results follow the order of the answer. */
  lemma {:induction false} SearchResultsAppend(data: seq<Row>, a: seq<int>, b: seq<int>)
    ensures SearchResults(data, a + b) == SearchResults(data, a) + SearchResults(data, b)
  {
    if a == [] {
      assert a + b == b;
    } else {
      assert (a + b)[0] == a[0] && (a + b)[1..] == a[1..] + b;
      SearchResultsAppend(data, a[1..], b);
    }
  }

  /** Indices that all hit a row map one to one, duplicates included. */
  lemma {:induction false} SearchResultsInRange(data: seq<Row>, indices: seq<int>)
    requires forall k :: 0 <= k < |indices| ==> 0 <= indices[k] < |data|
    ensures |SearchResults(data, indices)| == |indices|
    ensures forall k :: 0 <= k < |indices| ==> SearchResults(data, indices)[k] == data[indices[k]]
  {
    if indices != [] {
      SearchResultsInRange(data, indices[1..]);
    }
  }

  /** Indices that miss every row yield no results. */
  lemma {:induction false} SearchResultsOutOfRange(data: seq<Row>, indices: seq<int>)
    requires forall k :: 0 <= k < |indices| ==> !(0 <= indices[k] < |data|)
    ensures SearchResults(data, indices) == []
  {
    if indices != [] {
      SearchResultsOutOfRange(data, indices[1..]);
    }
  }
}
