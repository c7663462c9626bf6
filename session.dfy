/**
 * The labelling session: the four globals of the page (`dataSegments`,
 * `selectedRange`, `labelColors`, `currentData`) as the fields of one object,
 * and the handlers that change them.
 */
module Session {
  import opened Wrappers
  import opened Series
  import opened Labels
  import opened Csv
  import opened Export

  /** A line colour: the fixed blue of the base series, or a label's hue. */
  datatype Colour = Blue | Hsl(hue: int)

  /** One Plotly trace: the samples drawn, their colour and the legend name. */
  datatype Trace = Trace(points: seq<Sample>, colour: Colour, name: string)

  /** The label stored when the label input is left empty. */
  const DefaultLabel: string := "N"

  /** The trace of one segment: the samples it covers, in its colour, under its label. */
  function SegmentTrace(data: seq<Sample>, segment: Segment): (r: Trace)
    ensures r.colour == Hsl(segment.hue) && r.name == segment.labelText
    ensures forall x :: x in r.points <==> x in data && Covers(segment, x.timeStamp)
  {
    Trace(Within(data, segment), Hsl(segment.hue), segment.labelText)
  }

  class LabellingSession {
    var dataSegments: seq<Segment>
    var selectedRange: Option<Range>
    var labelColors: map<string, int>
    var currentData: seq<Sample>
    /** The labels in the order they were first given a colour. */
    ghost var labelOrder: seq<string>

    /**
     * Every segment carries its label's colour, and the label introduced `i`-th
     * has hue `i * 60 % 360`: a colour depends only on when its label first appeared.
     * The current series is sorted by time, as both loaders hand `plotGraph` the
     * output of `parseAndSortCSV`.
     */
    ghost predicate Valid()
      reads this
    {
      && ColoursAgree(dataSegments, labelColors)
      && HuesByOrder(labelOrder, labelColors)
      && SortedByTime(currentData)
    }

    /** The page as loaded: no segments, no selection (`{}`), no colours, no data. */
    constructor ()
      ensures Valid()
      ensures dataSegments == [] && selectedRange == None && labelColors == map[] && currentData == []
    {
      dataSegments := [];
      selectedRange := None;
      labelColors := map[];
      currentData := [];
      labelOrder := [];
    }

    /** `plotGraph`: the loaded series replaces the current one; segments and colours stay. */
    method PlotGraph(data: seq<Sample>)
      requires Valid() && SortedByTime(data)
      modifies this`currentData
      ensures Valid()
      ensures currentData == data
      ensures dataSegments == old(dataSegments) && labelColors == old(labelColors)
      ensures selectedRange == old(selectedRange)
    {
      currentData := data;
    }

    /** `handleSelection`: an event with a range records it as given, without reordering its ends. */
    method HandleSelection(event: Option<Range>)
      requires Valid()
      modifies this`selectedRange
      ensures Valid()
      ensures selectedRange == if event.Some? then event else old(selectedRange)
      ensures dataSegments == old(dataSegments) && labelColors == old(labelColors)
      ensures currentData == old(currentData)
    {
      if event.Some? {
        selectedRange := event;
      }
    }

    /**
     * `applyLabel`: an empty input becomes "N"; an unseen label gets the next hue;
     * one segment carrying the current selection, the label and its colour is appended.
     */
    method ApplyLabel(input: string)
      requires Valid()
      modifies this`labelColors, this`dataSegments, this`labelOrder
      ensures Valid()
      ensures var labelText := if input == "" then DefaultLabel else input;
        && labelColors == WithColour(old(labelColors), labelText)
        && dataSegments == old(dataSegments) + [Segment(old(selectedRange), labelText, labelColors[labelText])]
      ensures currentData == old(currentData) && selectedRange == old(selectedRange)
    {
      var labelText := if input == "" then DefaultLabel else input;
      if labelText !in labelColors {
        labelColors := labelColors[labelText := HueFor(|labelColors|)];
        labelOrder := labelOrder + [labelText];
      }
      dataSegments := dataSegments + [Segment(selectedRange, labelText, labelColors[labelText])];
      assert Valid() by {
        ColoursAgreeAfterApply(old(dataSegments), old(labelColors), selectedRange, labelText);
        HuesByOrderAfterApply(old(labelOrder), old(labelColors), labelText);
      }
    }

    /** `deleteLabel`: `dataSegments.splice(index, 1)`; the colour table is kept. */
    method DeleteLabel(index: int)
      requires Valid()
      modifies this`dataSegments
      ensures Valid()
      ensures dataSegments == Splice(old(dataSegments), index)
      ensures labelColors == old(labelColors) && currentData == old(currentData)
      ensures selectedRange == old(selectedRange)
    {
      ColoursAgreeAfterSplice(dataSegments, labelColors, index);
      dataSegments := Splice(dataSegments, index);
    }

    /** `removeLabel`: the same splice as `deleteLabel`, its only change to the state. */
    method RemoveLabel(index: int)
      requires Valid()
      modifies this`dataSegments
      ensures Valid()
      ensures dataSegments == Splice(old(dataSegments), index)
      ensures labelColors == old(labelColors) && currentData == old(currentData)
      ensures selectedRange == old(selectedRange)
    {
      DeleteLabel(index);
    }

    /**
     * `updatePlot`'s traces: the whole series in blue, then per segment the samples
     * it covers, in series order, in its colour and under its label.
     */
    function Traces(): (r: seq<Trace>)
      reads this
      ensures |r| == |dataSegments| + 1
      ensures r[0] == Trace(currentData, Blue, "Default")
      ensures forall i :: 0 <= i < |dataSegments| ==> r[i + 1] == SegmentTrace(currentData, dataSegments[i])
    {
      var segments := dataSegments;
      var data := currentData;
      var segmentTraces := seq(|segments|, i requires 0 <= i < |segments| => SegmentTrace(data, segments[i]));
      [Trace(data, Blue, "Default")] + segmentTraces
    }

    /** The resolution loop for one sample: starts from "Normal", every covering segment overwrites. */
    method LabelFor(sample: Sample) returns (labelText: string)
      ensures labelText == Resolve(sample.timeStamp, dataSegments)
    {
      labelText := Normal;
      var j := 0;
      while j < |dataSegments|
        invariant 0 <= j <= |dataSegments|
        invariant labelText == Resolve(sample.timeStamp, dataSegments[..j])
      {
        var segment := dataSegments[j];
        // a comparison with `undefined` is false, so a segment without a range never matches
        if segment.range.Some? && sample.timeStamp >= segment.range.value.start
            && sample.timeStamp <= segment.range.value.end {
          labelText := segment.labelText;
        }
        assert dataSegments[..j + 1][..j] == dataSegments[..j];
        j := j + 1;
      }
      assert dataSegments[..j] == dataSegments;
    }

    /**
     * `saveLabels`: the header, then for each sample of the series, in order, one line
     * with its resolved label.
     */
    method SaveLabels(isoText: int -> string, valueText: int -> string) returns (csvContent: string)
      ensures csvContent == ExportText(currentData, dataSegments, isoText, valueText)
    {
      csvContent := HeaderLine + "\n";
      var i := 0;
      while i < |currentData|
        invariant 0 <= i <= |currentData|
        invariant csvContent == Text.Terminated([HeaderLine] + ExportLines(currentData[..i], dataSegments, isoText, valueText))
      {
        var dataPoint := currentData[i];
        var labelText := LabelFor(dataPoint);
        var line := isoText(dataPoint.timeStamp) + "," + valueText(dataPoint.value) + "," + labelText;
        ExportLinesSnoc(currentData, dataSegments, isoText, valueText, i);
        assert [HeaderLine] + ExportLines(currentData[..i + 1], dataSegments, isoText, valueText)
            == ([HeaderLine] + ExportLines(currentData[..i], dataSegments, isoText, valueText)) + [line];
        Text.TerminatedSnoc([HeaderLine] + ExportLines(currentData[..i], dataSegments, isoText, valueText), line);
        csvContent := csvContent + line + "\n";
        i := i + 1;
      }
      assert currentData[..i] == currentData;
    }

    /**
     * Reading back the text `saveLabels` builds, before it is URI-encoded, gives the
     * session's series, when the text conversions read back exactly and no label
     * holds a newline.
     */
    lemma SavedLabelsReload(isoText: int -> string, valueText: int -> string,
                            parseTime: string -> int, parseValue: string -> int)
      requires Valid()
      requires forall t :: PlainField(isoText(t)) && parseTime(isoText(t)) == t
      requires forall v :: PlainField(valueText(v)) && parseValue(valueText(v)) == v
      requires OneLineLabels(dataSegments)
      ensures Sort(SamplesOf(Rows(ExportText(currentData, dataSegments, isoText, valueText)), parseTime, parseValue))
           == currentData
    {
      ExportRoundTrip(currentData, dataSegments, isoText, valueText, parseTime, parseValue);
    }

    /** Under the invariant every segment is drawn in one of the six palette hues. */
    lemma SegmentHuesInPalette(i: nat)
      requires Valid() && i < |dataSegments|
      ensures 0 <= dataSegments[i].hue < 360 && dataSegments[i].hue % 60 == 0
    {
      var labelText := dataSegments[i].labelText;
      assert labelText in labelOrder;
      var j :| 0 <= j < |labelOrder| && labelOrder[j] == labelText;
      assert dataSegments[i].hue == HueFor(j);
    }
  }
}
