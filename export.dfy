/**
 * The labelled export written by `saveLabels`: the header line, then one line per
 * sample of the current series giving its instant, its value and its resolved label.
 * `toISOString` and the number-to-text conversion are the parameters `isoText` and
 * `valueText`.
 */
module Export {
  import opened Wrappers
  import opened Text
  import opened Series
  import opened Labels
  import opened Csv

  const HeaderLine: string := "Timestamp,ValueNumeric,Label"

  /** `${timeStamp.toISOString()},${value},${label}`, without its newline. */
  function ExportLine(sample: Sample, labelText: string, isoText: int -> string, valueText: int -> string): (r: string)
    ensures |r| == |isoText(sample.timeStamp)| + |valueText(sample.value)| + |labelText| + 2
  {
    isoText(sample.timeStamp) + "," + valueText(sample.value) + "," + labelText
  }

  /** One line per sample, in series order, each carrying the sample's resolved label. */
  function ExportLines(data: seq<Sample>, segments: seq<Segment>, isoText: int -> string, valueText: int -> string)
    : (r: seq<string>)
    ensures |r| == |data|
  {
    seq(|data|, i requires 0 <= i < |data| =>
      ExportLine(data[i], Resolve(data[i].timeStamp, segments), isoText, valueText))
  }

  /** One more sample adds its own line at the end. */
  lemma ExportLinesSnoc(data: seq<Sample>, segments: seq<Segment>, isoText: int -> string, valueText: int -> string, k: nat)
    requires k < |data|
    ensures ExportLines(data[..k + 1], segments, isoText, valueText)
         == ExportLines(data[..k], segments, isoText, valueText)
            + [ExportLine(data[k], Resolve(data[k].timeStamp, segments), isoText, valueText)]
  {
    var longer := ExportLines(data[..k + 1], segments, isoText, valueText);
    var shorter := ExportLines(data[..k], segments, isoText, valueText);
    forall i | 0 <= i < k ensures longer[i] == shorter[i] {
      assert data[..k + 1][i] == data[..k][i];
    }
  }

  /** The whole export: every line, the header included, ends with a newline. */
  function ExportText(data: seq<Sample>, segments: seq<Segment>, isoText: int -> string, valueText: int -> string)
    : (r: string)
    ensures HeaderLine + "\n" <= r && r[|r| - 1] == '\n'
  {
    Terminated([HeaderLine] + ExportLines(data, segments, isoText, valueText))
  }

  /** A field that reads back as itself: non-empty, no separator, nothing for `trim` to remove. */
  predicate PlainField(s: string)
  {
    s != "" && ',' !in s && '\n' !in s && IsTrimmed(s)
  }

  /** No segment label holds a newline (a label comes from a one-line text input). */
  predicate OneLineLabels(segments: seq<Segment>)
  {
    forall i :: 0 <= i < |segments| ==> '\n' !in segments[i].labelText
  }

  /** A resolved label is "Normal" or some segment's label, so it is one line when those are. */
  lemma ResolvedOneLine(ts: int, segments: seq<Segment>)
    requires OneLineLabels(segments)
    ensures '\n' !in Resolve(ts, segments)
  {
    if Resolve(ts, segments) != Normal {
      ResolveFromCover(ts, segments);
    }
  }

  /** The export splits into the header, exactly one line per sample, and the empty tail. */
  lemma ExportShape(data: seq<Sample>, segments: seq<Segment>, isoText: int -> string, valueText: int -> string)
    requires forall t :: PlainField(isoText(t))
    requires forall v :: PlainField(valueText(v))
    requires OneLineLabels(segments)
    ensures Split(ExportText(data, segments, isoText, valueText), '\n')
         == [HeaderLine] + ExportLines(data, segments, isoText, valueText) + [""]
  {
    var lines := [HeaderLine] + ExportLines(data, segments, isoText, valueText);
    forall i | 0 <= i < |lines| ensures '\n' !in lines[i] {
      if i > 0 {
        var sample := data[i - 1];
        ResolvedOneLine(sample.timeStamp, segments);
        assert PlainField(isoText(sample.timeStamp)) && PlainField(valueText(sample.value));
      }
    }
    SplitTerminated(lines);
  }

  /**
   * The fields of a sample's line: its instant, its value, then the fields of its resolved
   * label, so the third field is that label whenever the label holds no comma.
   */
  lemma ExportFields(data: seq<Sample>, segments: seq<Segment>, isoText: int -> string, valueText: int -> string, i: nat)
    requires i < |data|
    requires forall t :: PlainField(isoText(t))
    requires forall v :: PlainField(valueText(v))
    ensures Split(ExportLines(data, segments, isoText, valueText)[i], ',')
         == [isoText(data[i].timeStamp), valueText(data[i].value)] + Split(Resolve(data[i].timeStamp, segments), ',')
  {
    var iso := isoText(data[i].timeStamp);
    var value := valueText(data[i].value);
    var labelText := Resolve(data[i].timeStamp, segments);
    assert PlainField(iso) && PlainField(value);
    assert ExportLines(data, segments, isoText, valueText)[i] == iso + [','] + (value + [','] + labelText);
    SplitAtSeparator(iso, ',', value + [','] + labelText);
    SplitAtSeparator(value, ',', labelText);
  }

  /** The row a reader takes from each sample's line. */
  function ExportedRows(data: seq<Sample>, isoText: int -> string, valueText: int -> string): (r: seq<Row>)
    ensures |r| == |data|
  {
    seq(|data|, i requires 0 <= i < |data| => Row(isoText(data[i].timeStamp), valueText(data[i].value)))
  }

  lemma ExportedRowsSnoc(data: seq<Sample>, isoText: int -> string, valueText: int -> string, k: nat)
    requires 0 < k <= |data|
    ensures ExportedRows(data[..k], isoText, valueText)
         == ExportedRows(data[..k - 1], isoText, valueText) + [Row(isoText(data[k - 1].timeStamp), valueText(data[k - 1].value))]
  {
    var longer := ExportedRows(data[..k], isoText, valueText);
    var shorter := ExportedRows(data[..k - 1], isoText, valueText) + [Row(isoText(data[k - 1].timeStamp), valueText(data[k - 1].value))];
    forall i | 0 <= i < k ensures longer[i] == shorter[i] {
      if i < k - 1 {
        assert data[..k][i] == data[..k - 1][i];
      }
    }
  }

  /** A line starting with two plain fields is read as those two fields. */
  lemma PlainFieldsRow(first: string, second: string, rest: string)
    requires PlainField(first) && PlainField(second)
    ensures RowOf(first + [','] + (second + [','] + rest)) == Some(Row(first, second))
  {
    SplitAtSeparator(first, ',', second + [','] + rest);
    SplitAtSeparator(second, ',', rest);
    TrimTrimmed(first);
    TrimTrimmed(second);
  }

  /** A reader takes from a sample's line exactly that sample's instant and value text. */
  lemma ExportLineRow(data: seq<Sample>, segments: seq<Segment>, isoText: int -> string, valueText: int -> string, i: nat)
    requires i < |data|
    requires forall t :: PlainField(isoText(t))
    requires forall v :: PlainField(valueText(v))
    ensures RowOf(ExportLines(data, segments, isoText, valueText)[i])
         == Some(Row(isoText(data[i].timeStamp), valueText(data[i].value)))
  {
    var iso := isoText(data[i].timeStamp);
    var value := valueText(data[i].value);
    assert PlainField(iso) && PlainField(value);
    assert ExportLines(data, segments, isoText, valueText)[i]
        == iso + [','] + (value + [','] + Resolve(data[i].timeStamp, segments));
    PlainFieldsRow(iso, value, Resolve(data[i].timeStamp, segments));
  }

  /** Lines 1..k of the export give back the first k samples' instants and values. */
  lemma {:induction false} ExportPrefixRows(data: seq<Sample>, segments: seq<Segment>,
                                            isoText: int -> string, valueText: int -> string, k: nat)
    requires k <= |data|
    requires forall t :: PlainField(isoText(t))
    requires forall v :: PlainField(valueText(v))
    ensures KeptRows([HeaderLine] + ExportLines(data, segments, isoText, valueText), k + 1)
         == ExportedRows(data[..k], isoText, valueText)
  {
    var lines := [HeaderLine] + ExportLines(data, segments, isoText, valueText);
    if k > 0 {
      ExportPrefixRows(data, segments, isoText, valueText, k - 1);
      ExportLineRow(data, segments, isoText, valueText, k - 1);
      assert lines[k] == ExportLines(data, segments, isoText, valueText)[k - 1];
      KeptRowsStep(lines, k);
      var row := Row(isoText(data[k - 1].timeStamp), valueText(data[k - 1].value));
      assert RowOf(lines[k]) == Some(row);
      assert KeptRows(lines, k + 1) == KeptRows(lines, k) + [row];
      assert KeptRows(lines, k) == ExportedRows(data[..k - 1], isoText, valueText);
      ExportedRowsSnoc(data, isoText, valueText, k);
    } else {
      assert KeptRows(lines, 1) == [];
      assert ExportedRows(data[..0], isoText, valueText) == [];
    }
  }

  /** Reading the export back yields every sample's instant and value text, in series order. */
  lemma ExportRows(data: seq<Sample>, segments: seq<Segment>, isoText: int -> string, valueText: int -> string)
    requires forall t :: PlainField(isoText(t))
    requires forall v :: PlainField(valueText(v))
    requires OneLineLabels(segments)
    ensures Rows(ExportText(data, segments, isoText, valueText)) == ExportedRows(data, isoText, valueText)
  {
    var body := [HeaderLine] + ExportLines(data, segments, isoText, valueText);
    var lines := body + [""];
    ExportShape(data, segments, isoText, valueText);
    SplitNoSeparator("", ',');
    assert RowOf(lines[|lines| - 1]) == None;
    KeptRowsPrefix(lines, |body|);
    assert lines[..|body|] == body;
    KeptRowsPrefix(body, |body|);
    assert body[..|body|] == body;
    ExportPrefixRows(data, segments, isoText, valueText, |data|);
    assert data[..|data|] == data;
  }

  /**
   * The round trip: when the text conversions are read back exactly by the parsers,
   * parsing the export of a sorted series gives that series back.
   */
  lemma ExportRoundTrip(data: seq<Sample>, segments: seq<Segment>,
                        isoText: int -> string, valueText: int -> string,
                        parseTime: string -> int, parseValue: string -> int)
    requires forall t :: PlainField(isoText(t)) && parseTime(isoText(t)) == t
    requires forall v :: PlainField(valueText(v)) && parseValue(valueText(v)) == v
    requires OneLineLabels(segments)
    requires SortedByTime(data)
    ensures Sort(SamplesOf(Rows(ExportText(data, segments, isoText, valueText)), parseTime, parseValue)) == data
  {
    ExportRows(data, segments, isoText, valueText);
    var parsed := SamplesOf(ExportedRows(data, isoText, valueText), parseTime, parseValue);
    assert parsed == data;
    SortOfSorted(data);
  }
}
