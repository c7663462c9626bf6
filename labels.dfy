/**
 * Labelled segments and what is computed from them: the label a sample resolves
 * to (`saveLabels`), the samples drawn for each segment (`updatePlot`), the colour
 * given to each label (`applyLabel`) and the removal of one segment (`splice`).
 */
module Labels {
  import opened Wrappers
  import opened Series

  /** A dragged selection, `{start, end}`, kept as given: `start` may exceed `end`. */
  datatype Range = Range(start: int, end: int)

  /**
   * A labelled segment. `range` is `None` when the label was applied before any
   * selection, so that `start` and `end` are `undefined`. A colour is the hue of
   * `hsl(hue, 70%, 50%)`.
   */
  datatype Segment = Segment(range: Option<Range>, labelText: string, hue: int)

  /** The label of a sample no segment covers. */
  const Normal: string := "Normal"

  /** `ts >= segment.start && ts <= segment.end`: inclusive at both ends, false on `undefined`. */
  predicate Covers(segment: Segment, ts: int)
    ensures Covers(segment, ts) ==> segment.range.Some? && segment.range.value.start <= segment.range.value.end
  {
    segment.range.Some? && segment.range.value.start <= ts <= segment.range.value.end
  }

  /** An inverted selection covers no instant. */
  lemma InvertedCoversNothing(segment: Segment, ts: int)
    requires segment.range.Some? && segment.range.value.start > segment.range.value.end
    ensures !Covers(segment, ts)
  {
  }

  /** The label the resolution loop ends with: later segments overwrite earlier ones. */
  function Resolve(ts: int, segments: seq<Segment>): (r: string)
    ensures r == Normal || exists k :: 0 <= k < |segments| && segments[k].labelText == r
  {
    if segments == [] then Normal
    else if Covers(segments[|segments| - 1], ts) then segments[|segments| - 1].labelText
    else Resolve(ts, segments[..|segments| - 1])
  }

  /**
   * The resolved label is that of the LAST segment, in insertion order, that covers
   * the instant, and "Normal" when none does.
   */
  lemma {:induction false} ResolveIsLastCover(ts: int, segments: seq<Segment>)
    ensures (forall i :: 0 <= i < |segments| ==> !Covers(segments[i], ts)) ==> Resolve(ts, segments) == Normal
    ensures forall i :: (0 <= i < |segments| && Covers(segments[i], ts)
                         && (forall j :: i < j < |segments| ==> !Covers(segments[j], ts))
                         ==> Resolve(ts, segments) == segments[i].labelText)
  {
    if segments != [] {
      var init := segments[..|segments| - 1];
      ResolveIsLastCover(ts, init);
      assert forall i :: 0 <= i < |init| ==> init[i] == segments[i];
    }
  }

  /** A label other than "Normal" comes from a segment that covers the instant. */
  lemma {:induction false} ResolveFromCover(ts: int, segments: seq<Segment>)
    requires Resolve(ts, segments) != Normal
    ensures exists i :: 0 <= i < |segments| && Covers(segments[i], ts) && segments[i].labelText == Resolve(ts, segments)
  {
    var init := segments[..|segments| - 1];
    if !Covers(segments[|segments| - 1], ts) {
      ResolveFromCover(ts, init);
      var i :| 0 <= i < |init| && Covers(init[i], ts) && init[i].labelText == Resolve(ts, init);
      assert segments[i] == init[i];
    }
  }

  /** Appending a segment that does not cover the instant leaves its label alone. */
  lemma AppendNonCovering(ts: int, segments: seq<Segment>, segment: Segment)
    requires !Covers(segment, ts)
    ensures Resolve(ts, segments + [segment]) == Resolve(ts, segments)
  {
    assert (segments + [segment])[..|segments|] == segments;
  }

  /**
   * Overlap tie-break: with X on [t0, t2] added before Y on [t1, t3], an instant
   * in the overlap gets Y, one only in X gets X, one only in Y gets Y.
   */
  lemma OverlapLaterWins(t0: int, t1: int, t2: int, t3: int, x: Segment, y: Segment, ts: int)
    requires t0 < t1 < t2 < t3
    requires x.range == Some(Range(t0, t2)) && y.range == Some(Range(t1, t3))
    ensures t1 <= ts <= t3 ==> Resolve(ts, [x, y]) == y.labelText
    ensures t0 <= ts < t1 ==> Resolve(ts, [x, y]) == x.labelText
    ensures (ts < t0 || ts > t3) ==> Resolve(ts, [x, y]) == Normal
  {
    assert [x, y][..1] == [x];
    assert [x][..0] == [];
    assert Resolve(ts, [x]) == if Covers(x, ts) then x.labelText else Normal;
  }

  /** `currentData.filter(...)` for one segment: the samples it covers, in series order. */
  function Within(data: seq<Sample>, segment: Segment): (r: seq<Sample>)
    ensures |r| <= |data|
    ensures forall x :: x in r <==> x in data && Covers(segment, x.timeStamp)
  {
    FilterMembers(data, (x: Sample) => Covers(segment, x.timeStamp));
    Filter(data, (x: Sample) => Covers(segment, x.timeStamp))
  }

  /** A segment's samples of a sorted series are sorted. */
  lemma WithinSorted(data: seq<Sample>, segment: Segment)
    requires SortedByTime(data)
    ensures SortedByTime(Within(data, segment))
  {
    FilterSorted(data, (x: Sample) => Covers(segment, x.timeStamp));
  }

  /** What a segment draws of two pieces of a series is what it draws of each, in order. */
  lemma WithinAppend(a: seq<Sample>, b: seq<Sample>, segment: Segment)
    ensures Within(a + b, segment) == Within(a, segment) + Within(b, segment)
  {
    FilterAppend(a, b, (x: Sample) => Covers(segment, x.timeStamp));
  }

  /** The hue of the label introduced `n`-th: `n * 60 % 360`. */
  function HueFor(n: nat): (h: int)
    ensures 0 <= h < 360 && h % 60 == 0
  {
    n * 60 % 360
  }

  /** The first six labels get six different hues; the seventh reuses the first. */
  lemma HuesDistinctUpToSix(m: nat, n: nat)
    requires m < n < m + 6
    ensures HueFor(m) != HueFor(n)
  {
    var d := n - m;
    assert n * 60 == m * 60 + d * 60;
    assert 0 < d * 60 < 360;
  }

  /**
   * The colour table after `applyLabel` meets `labelText`: unchanged if the label has a
   * colour, otherwise extended by exactly that label with the next hue.
   */
  function WithColour(colours: map<string, int>, labelText: string): (r: map<string, int>)
    ensures labelText in r
    ensures labelText in colours ==> r == colours
    ensures labelText !in colours ==>
      (r.Keys == colours.Keys + {labelText} && |r| == |colours| + 1 && r[labelText] == HueFor(|colours|))
    ensures forall k :: k in colours ==> k in r && r[k] == colours[k]
  {
    if labelText in colours then colours else colours[labelText := HueFor(|colours|)]
  }

  /** Every segment carries the colour its label has in the colour table. */
  ghost predicate ColoursAgree(segments: seq<Segment>, colours: map<string, int>)
  {
    forall i :: 0 <= i < |segments| ==>
      segments[i].labelText in colours && segments[i].hue == colours[segments[i].labelText]
  }

  /** Hence segments with the same label carry the same colour. */
  lemma SameLabelSameHue(segments: seq<Segment>, colours: map<string, int>, i: nat, j: nat)
    requires ColoursAgree(segments, colours)
    requires i < |segments| && j < |segments| && segments[i].labelText == segments[j].labelText
    ensures segments[i].hue == segments[j].hue
  {
  }

  /** Applying a label keeps the segments and the colour table in agreement. */
  lemma ColoursAgreeAfterApply(segments: seq<Segment>, colours: map<string, int>, range: Option<Range>, labelText: string)
    requires ColoursAgree(segments, colours)
    ensures ColoursAgree(segments + [Segment(range, labelText, WithColour(colours, labelText)[labelText])], WithColour(colours, labelText))
  {
  }

  /**
   * `order` lists the coloured labels once each, in the order they were first seen, and
   * the label seen `i`-th has hue `HueFor(i)`: a colour depends only on when its label appeared.
   */
  ghost predicate HuesByOrder(order: seq<string>, colours: map<string, int>)
  {
    && |order| == |colours|
    && (forall i :: 0 <= i < |order| ==> order[i] in colours && colours[order[i]] == HueFor(i))
    && (forall k :: k in colours ==> k in order)
    && (forall i, j :: 0 <= i < j < |order| ==> order[i] != order[j])
  }

  /** Colouring a label keeps the hues in first-seen order, a new label being seen last. */
  lemma HuesByOrderAfterApply(order: seq<string>, colours: map<string, int>, labelText: string)
    requires HuesByOrder(order, colours)
    ensures HuesByOrder(if labelText in colours then order else order + [labelText], WithColour(colours, labelText))
  {
    if labelText !in colours {
      NewLabelHues(order, colours, labelText);
      NewLabelKeys(order, colours, labelText);
      NewLabelDistinct(order, colours, labelText);
    }
  }

  lemma NewLabelHues(order: seq<string>, colours: map<string, int>, labelText: string)
    requires labelText !in colours && |order| == |colours|
    requires forall i :: 0 <= i < |order| ==> order[i] in colours && colours[order[i]] == HueFor(i)
    ensures var colours' := colours[labelText := HueFor(|colours|)];
      forall i :: 0 <= i < |order| + 1 ==>
        (order + [labelText])[i] in colours' && colours'[(order + [labelText])[i]] == HueFor(i)
  {
    var order' := order + [labelText];
    var colours' := colours[labelText := HueFor(|colours|)];
    forall i | 0 <= i < |order'| ensures order'[i] in colours' && colours'[order'[i]] == HueFor(i) {
      if i < |order| {
        assert order'[i] == order[i];
        assert order[i] != labelText;
      }
    }
  }

  lemma NewLabelKeys(order: seq<string>, colours: map<string, int>, labelText: string)
    requires forall k :: k in colours ==> k in order
    ensures forall k :: k in colours[labelText := HueFor(|colours|)] ==> k in order + [labelText]
  {
  }

  lemma NewLabelDistinct(order: seq<string>, colours: map<string, int>, labelText: string)
    requires labelText !in colours
    requires forall i :: 0 <= i < |order| ==> order[i] in colours
    requires forall i, j :: 0 <= i < j < |order| ==> order[i] != order[j]
    ensures forall i, j :: 0 <= i < j < |order| + 1 ==> (order + [labelText])[i] != (order + [labelText])[j]
  {
    var order' := order + [labelText];
    forall i, j | 0 <= i < j < |order'| ensures order'[i] != order'[j] {
      assert order'[i] == order[i];
      if j < |order| {
        assert order'[j] == order[j];
      }
    }
  }

  /**
   * `s.splice(index, 1)` on what it leaves in `s`: a negative index counts from
   * the end (clamped at 0), an index at or past the end removes nothing.
   */
  function Splice<T>(s: seq<T>, index: int): (r: seq<T>)
    ensures 0 <= index < |s| ==>
      (&& |r| == |s| - 1
       && (forall k :: 0 <= k < index ==> r[k] == s[k])
       && (forall k :: index <= k < |r| ==> r[k] == s[k + 1]))
    ensures index >= |s| ==> r == s
    ensures -|s| <= index < 0 ==> r == s[..|s| + index] + s[|s| + index + 1..]
    ensures index < -|s| ==> r == (if s == [] then s else s[1..])
  {
    var start := if index < 0 then (if |s| + index < 0 then 0 else |s| + index)
                 else (if index < |s| then index else |s|);
    if start < |s| then s[..start] + s[start + 1..] else s
  }

  /** Removing a segment keeps the others in agreement with the colour table. */
  lemma ColoursAgreeAfterSplice(segments: seq<Segment>, colours: map<string, int>, index: int)
    requires ColoursAgree(segments, colours)
    ensures ColoursAgree(Splice(segments, index), colours)
  {
    var r := Splice(segments, index);
    forall k | 0 <= k < |r| ensures r[k] in segments {
      assert r[k] in segments[..] by {
        if index < 0 && |segments| + index >= 0 {
          var start := |segments| + index;
          if k < start {
            assert r[k] == segments[k];
          } else {
            assert r[k] == segments[k + 1];
          }
        } else if index < 0 {
          assert r[k] == segments[k + 1];
        }
      }
    }
  }
}
