/** The two string builders around the Analytics report call in index.php:
    the `runReport` endpoint URL for a property, and the loop that prints a
    `City:` line and an `Active Users:` line per returned row. */
module Report {
  import opened Wrappers
  import Text

  const PROPERTIES_ENDPOINT := "https://analyticsdata.googleapis.com/v1beta/properties/"
  const RUN_REPORT := ":runReport"

  /** The endpoint URL of `fetch_ga4_data` (index.php:96). */
  function ReportUrl(propertyId: string): string {
    PROPERTIES_ENDPOINT + propertyId + RUN_REPORT
  }

  /** The property id a `runReport` URL names, if it has that shape. */
  function PropertyIdOf(url: string): Option<string> {
    if |url| >= |PROPERTIES_ENDPOINT| + |RUN_REPORT|
       && url[..|PROPERTIES_ENDPOINT|] == PROPERTIES_ENDPOINT
       && url[|url| - |RUN_REPORT|..] == RUN_REPORT
    then Some(url[|PROPERTIES_ENDPOINT|..|url| - |RUN_REPORT|])
    else None
  }

  /** The URL is the fixed prefix, the property id, then `:runReport`, so
      the id can be read back out of it. */
  lemma {:induction false} ReportUrlRoundTrip(propertyId: string)
    ensures PropertyIdOf(ReportUrl(propertyId)) == Some(propertyId)
  {
    var url := ReportUrl(propertyId);
    assert url[..|PROPERTIES_ENDPOINT|] == PROPERTIES_ENDPOINT;
    assert url[|url| - |RUN_REPORT|..] == RUN_REPORT;
    assert url[|PROPERTIES_ENDPOINT|..|url| - |RUN_REPORT|] == propertyId;
  }

  /** Different properties get different URLs. */
  lemma {:induction false} ReportUrlInjective(a: string, b: string)
    requires ReportUrl(a) == ReportUrl(b)
    ensures a == b
  {
    ReportUrlRoundTrip(a);
    ReportUrlRoundTrip(b);
  }

  /** One `{value: ...}` entry of a row's `dimensionValues` or `metricValues`. */
  datatype Cell = Cell(value: string)

  /** One element of the response's `rows`. */
  datatype Row = Row(dimensionValues: seq<Cell>, metricValues: seq<Cell>)

  /** The decoded report response; `rows` is absent when the API returned
      no rows or an error object. */
  datatype ReportResponse = ReportResponse(rows: Option<seq<Row>>)

  /** `$cells[0]['value']` in a string context: a missing first entry is
      PHP's `null`, which concatenates as the empty string. */
  function FirstValue(cells: seq<Cell>): string {
    if |cells| == 0 then "" else cells[0].value
  }

  function City(row: Row): string {
    FirstValue(row.dimensionValues)
  }

  function ActiveUsers(row: Row): string {
    FirstValue(row.metricValues)
  }

  /** The rows the `foreach` visits: none when `rows` is absent, since
      iterating over `null` does nothing. */
  function RowsOf(response: ReportResponse): seq<Row> {
    response.rows.GetOr([])
  }

  /** The two lines printed for one row. */
  function RowText(row: Row): string {
    "City: " + City(row) + "\n" + "Active Users: " + ActiveUsers(row) + "\n"
  }

  /** Everything printed for the rows, in order. */
  function Rendered(rows: seq<Row>): string
    decreases |rows|
  {
    if |rows| == 0 then "" else RowText(rows[0]) + Rendered(rows[1..])
  }

  /** The lines a reader of the output sees, row by row. */
  function Lines(rows: seq<Row>): seq<string>
    decreases |rows|
  {
    if |rows| == 0 then []
    else ["City: " + City(rows[0]), "Active Users: " + ActiveUsers(rows[0])] + Lines(rows[1..])
  }

  /** Printing one more row appends its two lines. */
  lemma {:induction false} RenderedAppend(rows: seq<Row>, row: Row)
    ensures Rendered(rows + [row]) == Rendered(rows) + RowText(row)
    decreases |rows|
  {
    if |rows| == 0 {
      assert [row][1..] == [];
    } else {
      assert (rows + [row])[1..] == rows[1..] + [row];
      RenderedAppend(rows[1..], row);
    }
  }

  /** The output loop of index.php:155-158. */
  method PrintRows(response: ReportResponse) returns (out: string)
    ensures out == Rendered(RowsOf(response))
  {
    var rows := RowsOf(response);
    out := "";
    for i := 0 to |rows|
      invariant out == Rendered(rows[..i])
    {
      out := out + "City: " + City(rows[i]) + "\n";
      out := out + "Active Users: " + ActiveUsers(rows[i]) + "\n";
      RenderedAppend(rows[..i], rows[i]);
      assert rows[..i + 1] == rows[..i] + [rows[i]];
    }
    assert rows[..|rows|] == rows;
  }

  /** No rows, or no `rows` member at all, print nothing. */
  lemma NoRowsNoOutput(response: ReportResponse)
    requires response.rows.None? || response.rows == Some([])
    ensures Rendered(RowsOf(response)) == ""
  {
  }

  /** Each value is a single line. */
  predicate SingleLineValues(rows: seq<Row>) {
    forall k :: 0 <= k < |rows| ==> '\n' !in City(rows[k]) && '\n' !in ActiveUsers(rows[k])
  }

  /** When no value holds a line break, the output splits into exactly the
      lines `Lines` lists, each ended by a line break. */
  lemma {:induction false} RenderedSplitsIntoLines(rows: seq<Row>)
    requires SingleLineValues(rows)
    ensures Text.Split(Rendered(rows), '\n') == Lines(rows) + [""]
    decreases |rows|
  {
    if |rows| > 0 {
      var city := "City: " + City(rows[0]);
      var users := "Active Users: " + ActiveUsers(rows[0]);
      var rest := Rendered(rows[1..]);
      assert SingleLineValues(rows[1..]) by {
        forall k | 0 <= k < |rows[1..]|
          ensures '\n' !in City(rows[1..][k]) && '\n' !in ActiveUsers(rows[1..][k])
        {
          assert rows[1..][k] == rows[k + 1];
        }
      }
      RenderedSplitsIntoLines(rows[1..]);
      assert Rendered(rows) == city + ['\n'] + (users + ['\n'] + rest);
      Text.SplitAfterPrefix(city, '\n', users + ['\n'] + rest);
      Text.SplitAfterPrefix(users, '\n', rest);
    }
  }

  /** Two lines per row, in input order: line 2k names the city of row k and
      line 2k+1 its active users. */
  lemma {:induction false} LinesOfRow(rows: seq<Row>, k: nat)
    requires k < |rows|
    ensures |Lines(rows)| == 2 * |rows|
    ensures Lines(rows)[2 * k] == "City: " + City(rows[k])
    ensures Lines(rows)[2 * k + 1] == "Active Users: " + ActiveUsers(rows[k])
    decreases k
  {
    if k == 0 {
      LinesLength(rows);
    } else {
      LinesOfRow(rows[1..], k - 1);
      assert rows[1..][k - 1] == rows[k];
    }
  }

  lemma {:induction false} LinesLength(rows: seq<Row>)
    ensures |Lines(rows)| == 2 * |rows|
    decreases |rows|
  {
    if |rows| > 0 {
      LinesLength(rows[1..]);
    }
  }
}
