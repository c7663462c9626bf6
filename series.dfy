/**
 * Samples of a time series and the stable sort by timestamp that
 * `result.sort((a, b) => a.timeStamp - b.timeStamp)` performs.
 * A timestamp is the millisecond count a `Date` compares by.
 */
module Series {

  datatype Sample = Sample(timeStamp: int, value: int)

  predicate SortedByTime(s: seq<Sample>)
  {
    forall i, j :: 0 <= i < j < |s| ==> s[i].timeStamp <= s[j].timeStamp
  }

  /** `s.filter(p)`: the elements satisfying `p`, in their order. */
  function Filter<T>(s: seq<T>, p: T -> bool): (r: seq<T>)
    ensures |r| <= |s|
  {
    if s == [] then []
    else (if p(s[0]) then [s[0]] else []) + Filter(s[1..], p)
  }

  /** The filter keeps exactly the elements that pass the test. */
  lemma {:induction false} FilterMembers<T(!new)>(s: seq<T>, p: T -> bool)
    ensures forall x :: x in Filter(s, p) <==> x in s && p(x)
  {
    if s != [] {
      FilterMembers(s[1..], p);
      assert s == [s[0]] + s[1..];
    }
  }

  /** Filtering distributes over concatenation, so it keeps the relative order of what it keeps. */
  lemma {:induction false} FilterAppend<T>(a: seq<T>, b: seq<T>, p: T -> bool)
    ensures Filter(a + b, p) == Filter(a, p) + Filter(b, p)
  {
    if a == [] {
      assert a + b == b;
    } else {
      var head := if p(a[0]) then [a[0]] else [];
      assert (a + b)[0] == a[0];
      assert (a + b)[1..] == a[1..] + b;
      FilterAppend(a[1..], b, p);
      calc {
        Filter(a + b, p);
        head + Filter(a[1..] + b, p);
        head + (Filter(a[1..], p) + Filter(b, p));
        (head + Filter(a[1..], p)) + Filter(b, p);
        Filter(a, p) + Filter(b, p);
      }
    }
  }

  /** What a filter keeps of a sorted series is sorted. */
  lemma {:induction false} FilterSorted(s: seq<Sample>, p: Sample -> bool)
    requires SortedByTime(s)
    ensures SortedByTime(Filter(s, p))
  {
    if s != [] {
      FilterSorted(s[1..], p);
      FilterMembers(s[1..], p);
      var tail := Filter(s[1..], p);
      forall x | x in tail ensures s[0].timeStamp <= x.timeStamp {
        var k :| 0 <= k < |s[1..]| && s[1..][k] == x;
        assert s[k + 1] == x;
      }
    }
  }

  function TimeIs(t: int): Sample -> bool
  {
    (x: Sample) => x.timeStamp == t
  }

  /** The samples stamped `t`, in order: what a stable sort must not reorder. */
  function AtTime(s: seq<Sample>, t: int): seq<Sample>
  {
    Filter(s, TimeIs(t))
  }

  /** Inserts `x` after every element whose timestamp is not later than its own. */
  function Insert(x: Sample, s: seq<Sample>): (r: seq<Sample>)
    ensures |r| == |s| + 1
  {
    if s == [] || s[|s| - 1].timeStamp <= x.timeStamp then s + [x]
    else Insert(x, s[..|s| - 1]) + [s[|s| - 1]]
  }

  /** Insertion adds `x` and loses nothing. */
  lemma {:induction false} InsertMultiset(x: Sample, s: seq<Sample>)
    ensures multiset(Insert(x, s)) == multiset(s) + multiset{x}
  {
    if !(s == [] || s[|s| - 1].timeStamp <= x.timeStamp) {
      assert s == s[..|s| - 1] + [s[|s| - 1]];
      InsertMultiset(x, s[..|s| - 1]);
    }
  }

  /** The stable sort by timestamp, as insertion sort from the front. */
  function Sort(s: seq<Sample>): (r: seq<Sample>)
    ensures |r| == |s|
  {
    if s == [] then []
    else Insert(s[|s| - 1], Sort(s[..|s| - 1]))
  }

  /** The sort loses and adds nothing: its output is a permutation of its input. */
  lemma {:induction false} SortMultiset(s: seq<Sample>)
    ensures multiset(Sort(s)) == multiset(s)
  {
    if s != [] {
      assert s == s[..|s| - 1] + [s[|s| - 1]];
      SortMultiset(s[..|s| - 1]);
      InsertMultiset(s[|s| - 1], Sort(s[..|s| - 1]));
    }
  }

  lemma {:induction false} InsertSorted(x: Sample, s: seq<Sample>)
    requires SortedByTime(s)
    ensures SortedByTime(Insert(x, s))
  {
    if !(s == [] || s[|s| - 1].timeStamp <= x.timeStamp) {
      var init := s[..|s| - 1];
      var last := s[|s| - 1];
      InsertSorted(x, init);
      var front := Insert(x, init);
      InsertMultiset(x, init);
      forall y | y in front ensures y.timeStamp <= last.timeStamp {
        assert y in multiset(front);
        assert y == x || y in multiset(init);
      }
    }
  }

  /** The sort's output is ordered by timestamp. */
  lemma {:induction false} SortSorted(s: seq<Sample>)
    ensures SortedByTime(Sort(s))
  {
    if s != [] {
      SortSorted(s[..|s| - 1]);
      InsertSorted(s[|s| - 1], Sort(s[..|s| - 1]));
    }
  }

  /** A single sample is kept exactly when it carries the timestamp. */
  lemma AtTimeSingle(y: Sample, t: int)
    ensures AtTime([y], t) == if y.timeStamp == t then [y] else []
  {
    assert [y][1..] == [];
  }

  lemma {:induction false} InsertAtTime(x: Sample, s: seq<Sample>, t: int)
    ensures AtTime(Insert(x, s), t) == AtTime(s, t) + AtTime([x], t)
  {
    if s == [] || s[|s| - 1].timeStamp <= x.timeStamp {
      FilterAppend(s, [x], TimeIs(t));
    } else {
      var init := s[..|s| - 1];
      var last := s[|s| - 1];
      assert s == init + [last];
      AtTimeSingle(x, t);
      AtTimeSingle(last, t);
      calc {
        AtTime(Insert(x, s), t);
        AtTime(Insert(x, init) + [last], t);
        { FilterAppend(Insert(x, init), [last], TimeIs(t)); }
        AtTime(Insert(x, init), t) + AtTime([last], t);
        { InsertAtTime(x, init, t); }
        AtTime(init, t) + AtTime([x], t) + AtTime([last], t);
        // `last` is later than `x`, so at most one of them is stamped `t`
        AtTime(init, t) + AtTime([last], t) + AtTime([x], t);
        { FilterAppend(init, [last], TimeIs(t)); }
        AtTime(s, t) + AtTime([x], t);
      }
    }
  }

  /** Stability: the samples sharing a timestamp keep their input order. */
  lemma {:induction false} SortStable(s: seq<Sample>, t: int)
    ensures AtTime(Sort(s), t) == AtTime(s, t)
  {
    if s != [] {
      var init := s[..|s| - 1];
      assert s == init + [s[|s| - 1]];
      SortStable(init, t);
      InsertAtTime(s[|s| - 1], Sort(init), t);
      FilterAppend(init, [s[|s| - 1]], TimeIs(t));
    }
  }

  /** The sort is ordered, a permutation of its input, and stable. */
  lemma SortSpec(s: seq<Sample>)
    ensures SortedByTime(Sort(s))
    ensures multiset(Sort(s)) == multiset(s)
    ensures forall t :: AtTime(Sort(s), t) == AtTime(s, t)
  {
    SortSorted(s);
    SortMultiset(s);
    forall t ensures AtTime(Sort(s), t) == AtTime(s, t) {
      SortStable(s, t);
    }
  }

  /** Sorting an already sorted series changes nothing. */
  lemma {:induction false} SortOfSorted(s: seq<Sample>)
    requires SortedByTime(s)
    ensures Sort(s) == s
  {
    if s != [] {
      var init := s[..|s| - 1];
      var last := s[|s| - 1];
      assert SortedByTime(init);
      SortOfSorted(init);
      assert Sort(s) == Insert(last, init);
      assert init == [] || init[|init| - 1].timeStamp <= last.timeStamp;
      assert s == init + [last];
    }
  }

  /**
   * Insertion puts `x` at position `j` exactly when everything before `j` is not later
   * than `x` at its last place and everything from `j` on is later.
   */
  lemma {:induction false} InsertAt(x: Sample, s: seq<Sample>, j: nat)
    requires j <= |s| && (j == 0 || s[j - 1].timeStamp <= x.timeStamp)
    requires forall k :: j <= k < |s| ==> s[k].timeStamp > x.timeStamp
    ensures Insert(x, s) == s[..j] + [x] + s[j..]
  {
    if j < |s| {
      var init := s[..|s| - 1];
      var last := s[|s| - 1];
      InsertAt(x, init, j);
      assert init[..j] == s[..j];
      assert init[j..] + [last] == s[j..];
    } else {
      assert s[..j] == s;
    }
  }

  /** One pass of the insertion sort: moves `a[i]` left past every later-stamped element of the sorted prefix. */
  method InsertInPlace(a: array<Sample>, i: nat)
    requires i < a.Length
    modifies a
    ensures a[..i + 1] == Insert(old(a[i]), old(a[..i]))
    ensures a[i + 1..] == old(a[i + 1..])
  {
    var key := a[i];
    ghost var done := a[..i];
    var j := i;
    while j > 0 && a[j - 1].timeStamp > key.timeStamp
      invariant 0 <= j <= i
      invariant forall k :: 0 <= k < j ==> a[k] == done[k]
      invariant forall k :: j < k <= i ==> a[k] == done[k - 1]
      invariant forall k :: j <= k < i ==> done[k].timeStamp > key.timeStamp
      invariant a[i + 1..] == old(a[i + 1..])
    {
      a[j] := a[j - 1];
      j := j - 1;
    }
    a[j] := key;
    InsertAt(key, done, j);
    assert a[..i + 1] == done[..j] + [key] + done[j..];
  }

  /** Sorts `a` in place by timestamp, stably, as `Array.prototype.sort` does. */
  method SortByTime(a: array<Sample>)
    modifies a
    ensures a[..] == Sort(old(a[..]))
  {
    ghost var input := a[..];
    var i := 0;
    while i < a.Length
      invariant 0 <= i <= a.Length
      invariant a[..i] == Sort(input[..i])
      invariant a[i..] == input[i..]
    {
      assert input[..i + 1][..i] == input[..i];
      assert Sort(input[..i + 1]) == Insert(input[i], Sort(input[..i]));
      assert a[i] == input[i];
      InsertInPlace(a, i);
      assert a[i + 1..] == input[i + 1..];
      i := i + 1;
    }
    assert input[..a.Length] == input;
  }
}
