/**
 * The extrema computed for the statistics table: `Math.min(...values)` and
 * `Math.max(...values)` over the sample values. With no arguments JavaScript
 * answers `Infinity` and `-Infinity`, which `Extremum` keeps apart from
 * the finite answers. Those two never reach the table: on an empty series the
 * standard deviation step that follows throws first.
 */
module Stats {
  import opened Series

  datatype Extremum = NegInfinity | Finite(v: int) | PosInfinity

  /** `data.map(item => item.value)`. */
  function Values(data: seq<Sample>): (r: seq<int>)
    ensures |r| == |data| && forall i :: 0 <= i < |data| ==> r[i] == data[i].value
  {
    seq(|data|, i requires 0 <= i < |data| => data[i].value)
  }

  /** `Math.min(...values)`: the least value, or `Infinity` when there is none. */
  function Min(values: seq<int>): (r: Extremum)
    ensures values == [] <==> r == PosInfinity
    ensures values != [] ==> r.Finite?
    ensures r.Finite? ==> r.v in values && forall x :: x in values ==> r.v <= x
  {
    if values == [] then PosInfinity
    else
      assert values == [values[0]] + values[1..];
      var rest := Min(values[1..]);
      if rest.Finite? && rest.v < values[0] then rest else Finite(values[0])
  }

  /** `Math.max(...values)`: the greatest value, or `-Infinity` when there is none. */
  function Max(values: seq<int>): (r: Extremum)
    ensures values == [] <==> r == NegInfinity
    ensures values != [] ==> r.Finite?
    ensures r.Finite? ==> r.v in values && forall x :: x in values ==> x <= r.v
  {
    if values == [] then NegInfinity
    else
      assert values == [values[0]] + values[1..];
      var rest := Max(values[1..]);
      if rest.Finite? && rest.v > values[0] then rest else Finite(values[0])
  }

  /** On a loaded series the extrema are finite and bracket every sample's value. */
  lemma {:induction false} ExtremaBracketSamples(data: seq<Sample>, i: nat)
    requires i < |data|
    ensures Min(Values(data)).Finite? && Max(Values(data)).Finite?
    ensures Min(Values(data)).v <= data[i].value <= Max(Values(data)).v
  {
    assert Values(data)[i] == data[i].value;
    assert data[i].value in Values(data);
  }
}
