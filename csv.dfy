/**
 * The two CSV readers, `parseSubsystemsCSV` (catalog of subsystem and tag
 * names) and `parseAndSortCSV` (a series of timestamp and value). Both split the
 * text on newlines, skip line 0 whatever it holds, take the first two
 * comma-separated fields of every other line, keep the line only when both fields
 * are non-empty BEFORE trimming, and trim them.
 */
module Csv {
  import opened Wrappers
  import opened Text
  import opened Series

  /** The first two fields of a kept line, trimmed. */
  datatype Row = Row(first: string, second: string)

  datatype CatalogEntry = CatalogEntry(subsystem: string, tagName: string)

  /** `const [a, b] = line.split(',')` and `if (a && b)`: a missing second field is `undefined`. */
  function RowOf(line: string): (r: Option<Row>)
    ensures r.Some? ==> IsTrimmed(r.value.first) && IsTrimmed(r.value.second)
  {
    var fields := Split(line, ',');
    if |fields| >= 2 && fields[0] != "" && fields[1] != "" then
      TrimIsTrimmed(fields[0]);
      TrimIsTrimmed(fields[1]);
      Some(Row(Trim(fields[0]), Trim(fields[1])))
    else None
  }

  /** The rows contributed by lines 1 up to (not including) `n`; line 0 never contributes. */
  function KeptRows(lines: seq<string>, n: nat): (r: seq<Row>)
    requires n <= |lines|
    ensures |r| <= n - 1 || (n == 0 && r == [])
  {
    if n <= 1 then []
    else
      match RowOf(lines[n - 1])
      case Some(row) => KeptRows(lines, n - 1) + [row]
      case None => KeptRows(lines, n - 1)
  }

  /** The rows a reader collects from `text`, in line order: at most one per line after the header. */
  function Rows(text: string): (r: seq<Row>)
    ensures |r| <= |Split(text, '\n')| - 1
  {
    var lines := Split(text, '\n');
    KeptRows(lines, |lines|)
  }

  /** Whatever line 0 holds, the rows are the same: the header is skipped unconditionally. */
  lemma {:induction false} HeaderIgnored(lines: seq<string>, header: string, n: nat)
    requires 1 <= n <= |lines|
    ensures KeptRows(lines[0 := header], n) == KeptRows(lines, n)
  {
    if n > 1 {
      HeaderIgnored(lines, header, n - 1);
    }
  }

  /** One more line after the header contributes exactly its row, if it has one, at the end. */
  lemma KeptRowsSnoc(lines: seq<string>, line: string)
    requires |lines| >= 1
    ensures KeptRows(lines + [line], |lines| + 1)
         == KeptRows(lines, |lines|) + (if RowOf(line).Some? then [RowOf(line).value] else [])
  {
    KeptRowsPrefix(lines + [line], |lines|);
    assert (lines + [line])[..|lines|] == lines;
  }

  /** The rows from the first `n` lines depend on those lines only. */
  lemma {:induction false} KeptRowsPrefix(lines: seq<string>, n: nat)
    requires n <= |lines|
    ensures KeptRows(lines[..n], n) == KeptRows(lines, n)
    decreases n
  {
    if n > 1 {
      assert lines[..n][..n - 1] == lines[..n - 1];
      KeptRowsPrefix(lines[..n], n - 1);
      KeptRowsPrefix(lines, n - 1);
    }
  }

  /** Every row's fields have no whitespace at either end. */
  lemma {:induction false} RowsTrimmed(lines: seq<string>, n: nat)
    requires n <= |lines|
    ensures forall k :: 0 <= k < |KeptRows(lines, n)| ==>
      IsTrimmed(KeptRows(lines, n)[k].first) && IsTrimmed(KeptRows(lines, n)[k].second)
  {
    if n > 1 {
      RowsTrimmed(lines, n - 1);
      var fields := Split(lines[n - 1], ',');
      if |fields| >= 2 {
        TrimIsTrimmed(fields[0]);
        TrimIsTrimmed(fields[1]);
      }
    }
  }

  /** Fields made of whitespace only are kept, and come out empty: the check runs before `trim`. */
  lemma WhitespaceFieldsKept(a: string, b: string)
    requires a != [] && b != [] && AllWhitespace(a) && AllWhitespace(b)
    ensures RowOf(a + [','] + b) == Some(Row("", ""))
  {
    SplitAtSeparator(a, ',', b);
    SplitNoSeparator(b, ',');
    TrimBlank(a);
    TrimBlank(b);
  }

  /** A line with a first field but no comma has no second field and is dropped. */
  lemma SingleFieldDropped(line: string)
    requires ',' !in line
    ensures RowOf(line) == None
  {
    SplitNoSeparator(line, ',');
  }

  /** Columns after the second are ignored. */
  lemma ExtraColumnsIgnored(a: string, b: string, rest: string)
    requires ',' !in a && ',' !in b
    ensures RowOf(a + [','] + b + [','] + rest) == RowOf(a + [','] + b)
  {
    assert a + [','] + b + [','] + rest == a + [','] + (b + [','] + rest);
    SplitAtSeparator(a, ',', b + [','] + rest);
    SplitAtSeparator(b, ',', rest);
    SplitAtSeparator(a, ',', b);
    SplitNoSeparator(b, ',');
  }

  /** Line `n` (not the header) contributes its row, if any, after those of the lines before it. */
  lemma KeptRowsStep(lines: seq<string>, n: nat)
    requires 1 <= n < |lines|
    ensures KeptRows(lines, n + 1)
         == KeptRows(lines, n) + (if RowOf(lines[n]).Some? then [RowOf(lines[n]).value] else [])
  {
  }

  /** The catalog entries of the rows, one each, in order. */
  function EntriesOf(rows: seq<Row>): (r: seq<CatalogEntry>)
    ensures |r| == |rows|
  {
    seq(|rows|, k requires 0 <= k < |rows| => CatalogEntry(rows[k].first, rows[k].second))
  }

  /** One more row adds its own entry at the end. */
  lemma EntriesOfSnoc(rows: seq<Row>, row: Row)
    ensures EntriesOf(rows + [row]) == EntriesOf(rows) + [CatalogEntry(row.first, row.second)]
  {
    var longer := EntriesOf(rows + [row]);
    forall k | 0 <= k < |rows| ensures longer[k] == EntriesOf(rows)[k] {
      assert (rows + [row])[k] == rows[k];
    }
  }

  /** The step both readers take on line `n`, with the test written as the code writes it. */
  lemma KeptRowsLine(lines: seq<string>, n: nat, fields: seq<string>)
    requires 1 <= n < |lines| && fields == Split(lines[n], ',')
    ensures |fields| >= 2 && fields[0] != "" && fields[1] != "" ==>
      KeptRows(lines, n + 1) == KeptRows(lines, n) + [Row(Trim(fields[0]), Trim(fields[1]))]
    ensures !(|fields| >= 2 && fields[0] != "" && fields[1] != "") ==>
      KeptRows(lines, n + 1) == KeptRows(lines, n)
  {
  }

  /** `parseSubsystemsCSV`: one catalog entry per row, in line order. */
  method ParseSubsystemsCsv(data: string) returns (result: seq<CatalogEntry>)
    ensures |result| == |Rows(data)|
    ensures forall k :: 0 <= k < |result| ==>
      result[k] == CatalogEntry(Rows(data)[k].first, Rows(data)[k].second)
  {
    var lines := Split(data, '\n');
    result := [];
    ghost var rows: seq<Row> := [];
    var index := 0;
    while index < |lines|
      invariant 0 <= index <= |lines|
      invariant rows == KeptRows(lines, index)
      invariant result == EntriesOf(rows)
    {
      if index != 0 {
        var fields := Split(lines[index], ',');
        KeptRowsLine(lines, index, fields);
        if |fields| >= 2 && fields[0] != "" && fields[1] != "" {
          EntriesOfSnoc(rows, Row(Trim(fields[0]), Trim(fields[1])));
          result := result + [CatalogEntry(Trim(fields[0]), Trim(fields[1]))];
          rows := rows + [Row(Trim(fields[0]), Trim(fields[1]))];
        }
      }
      index := index + 1;
    }
  }

  /** The samples built from the rows with `new Date(...)` and `parseFloat(...)`, before sorting. */
  function SamplesOf(rows: seq<Row>, parseTime: string -> int, parseValue: string -> int): (r: seq<Sample>)
    ensures |r| == |rows|
  {
    seq(|rows|, k requires 0 <= k < |rows| => Sample(parseTime(rows[k].first), parseValue(rows[k].second)))
  }

  /** One more row adds its own sample at the end. */
  lemma SamplesOfSnoc(rows: seq<Row>, row: Row, parseTime: string -> int, parseValue: string -> int)
    ensures SamplesOf(rows + [row], parseTime, parseValue)
         == SamplesOf(rows, parseTime, parseValue) + [Sample(parseTime(row.first), parseValue(row.second))]
  {
    var longer := SamplesOf(rows + [row], parseTime, parseValue);
    forall k | 0 <= k < |rows| ensures longer[k] == SamplesOf(rows, parseTime, parseValue)[k] {
      assert (rows + [row])[k] == rows[k];
    }
  }

  /** The `forEach` of `parseAndSortCSV`: one sample per row, in line order, before sorting. */
  method CollectSamples(data: string, parseTime: string -> int, parseValue: string -> int)
    returns (collected: seq<Sample>)
    ensures collected == SamplesOf(Rows(data), parseTime, parseValue)
  {
    var lines := Split(data, '\n');
    collected := [];
    ghost var rows: seq<Row> := [];
    var index := 0;
    while index < |lines|
      invariant 0 <= index <= |lines|
      invariant rows == KeptRows(lines, index)
      invariant collected == SamplesOf(rows, parseTime, parseValue)
    {
      if index != 0 {
        var fields := Split(lines[index], ',');
        KeptRowsLine(lines, index, fields);
        if |fields| >= 2 && fields[0] != "" && fields[1] != "" {
          SamplesOfSnoc(rows, Row(Trim(fields[0]), Trim(fields[1])), parseTime, parseValue);
          collected := collected + [Sample(parseTime(Trim(fields[0])), parseValue(Trim(fields[1])))];
          rows := rows + [Row(Trim(fields[0]), Trim(fields[1]))];
        }
      }
      index := index + 1;
    }
  }

  /**
   * `parseAndSortCSV`: collects one sample per row, then sorts them stably by timestamp.
   * The result is ordered, a permutation of the collected samples, and keeps the input
   * order of samples sharing a timestamp.
   */
  method ParseAndSortCsv(data: string, parseTime: string -> int, parseValue: string -> int)
    returns (result: seq<Sample>)
    ensures result == Sort(SamplesOf(Rows(data), parseTime, parseValue))
    ensures SortedByTime(result)
    ensures multiset(result) == multiset(SamplesOf(Rows(data), parseTime, parseValue))
    ensures forall t :: AtTime(result, t) == AtTime(SamplesOf(Rows(data), parseTime, parseValue), t)
  {
    var collected := CollectSamples(data, parseTime, parseValue);
    var a := new Sample[|collected|](k requires 0 <= k < |collected| => collected[k]);
    assert a[..] == collected;
    SortByTime(a);
    result := a[..];
    SortSpec(collected);
  }
}
