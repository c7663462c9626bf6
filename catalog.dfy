/**
 * What the page derives from the catalog of subsystems and tags: the subsystem
 * choices (`[...new Set(...)]`, first occurrence first), the tags of one subsystem,
 * and the name a loaded file is shown under (its `.csv` suffix removed).
 */
module Catalog {
  import opened Csv

  /** No element occurs twice. */
  predicate Distinct<T(==)>(s: seq<T>)
  {
    forall i, j :: 0 <= i < j < |s| ==> s[i] != s[j]
  }

  /** The position of the first occurrence of `x` in `s`. */
  function FirstIndex<T(==)>(s: seq<T>, x: T): (r: nat)
    requires x in s
    ensures r < |s| && s[r] == x && x !in s[..r]
  {
    var init := s[..|s| - 1];
    if x in init then
      var r := FirstIndex(init, x);
      assert s[..r] == init[..r];
      r
    else
      assert s == init + [s[|s| - 1]];
      |s| - 1
  }

  /** The elements of `s` without repeats, each kept where it first occurs (a `Set`'s insertion order). */
  function Unique<T(==,!new)>(s: seq<T>): (r: seq<T>)
    ensures Distinct(r)
    ensures forall x :: x in r <==> x in s
    ensures |r| <= |s|
  {
    if s == [] then []
    else
      var init := s[..|s| - 1];
      var last := s[|s| - 1];
      assert s == init + [last];
      var u := Unique(init);
      if last in init then u else u + [last]
  }

  /** Appending an element already seen changes nothing; a new one goes at the end. */
  lemma UniqueSnoc<T(!new)>(s: seq<T>, x: T)
    ensures Unique(s + [x]) == if x in s then Unique(s) else Unique(s) + [x]
  {
    assert (s + [x])[..|s|] == s;
  }

  /** Unique keeps the order of first occurrences. */
  lemma {:induction false} UniqueOrder<T(!new)>(s: seq<T>, i: nat, j: nat)
    requires i < j < |Unique(s)|
    ensures FirstIndex(s, Unique(s)[i]) < FirstIndex(s, Unique(s)[j])
  {
    var init := s[..|s| - 1];
    var last := s[|s| - 1];
    var u := Unique(init);
    assert Unique(s)[i] in init;
    if j < |u| {
      UniqueOrder(init, i, j);
      assert Unique(s)[j] in init;
    } else {
      assert Unique(s)[j] == last && last !in init;
    }
  }

  /** A sequence without repeats is its own de-duplication. */
  lemma {:induction false} UniqueOfDistinct<T(!new)>(s: seq<T>)
    requires Distinct(s)
    ensures Unique(s) == s
  {
    if s != [] {
      var init := s[..|s| - 1];
      assert Distinct(init);
      UniqueOfDistinct(init);
      assert s[|s| - 1] !in init;
      assert s == init + [s[|s| - 1]];
    }
  }

  /** De-duplicating twice is de-duplicating once. */
  lemma UniqueIdempotent<T(!new)>(s: seq<T>)
    ensures Unique(Unique(s)) == Unique(s)
  {
    UniqueOfDistinct(Unique(s));
  }

  /** `subsystems.map(item => item.subsystem)`. */
  function Subsystems(entries: seq<CatalogEntry>): (r: seq<string>)
    ensures |r| == |entries| && forall k :: 0 <= k < |entries| ==> r[k] == entries[k].subsystem
  {
    seq(|entries|, k requires 0 <= k < |entries| => entries[k].subsystem)
  }

  /** The subsystem dropdown: each subsystem once, in order of first appearance. */
  function SubsystemChoices(entries: seq<CatalogEntry>): (r: seq<string>)
    ensures Distinct(r)
    ensures forall x :: x in r <==> exists k :: 0 <= k < |entries| && entries[k].subsystem == x
  {
    Unique(Subsystems(entries))
  }

  /** `filter(item => item.subsystem === selected).map(item => item.tagName)`, in catalog order. */
  function TagsOf(entries: seq<CatalogEntry>, selected: string): (r: seq<string>)
    ensures |r| <= |entries|
    ensures forall t :: t in r <==> CatalogEntry(selected, t) in entries
  {
    if entries == [] then []
    else
      assert entries == [entries[0]] + entries[1..];
      (if entries[0].subsystem == selected then [entries[0].tagName] else []) + TagsOf(entries[1..], selected)
  }

  /** The tags of the catalog's pieces are the tags of each piece, in order. */
  lemma {:induction false} TagsOfAppend(a: seq<CatalogEntry>, b: seq<CatalogEntry>, selected: string)
    ensures TagsOf(a + b, selected) == TagsOf(a, selected) + TagsOf(b, selected)
  {
    if a != [] {
      assert (a + b)[1..] == a[1..] + b;
      TagsOfAppend(a[1..], b, selected);
    } else {
      assert a + b == b;
    }
  }

  /**
   * A subsystem is among the choices exactly when the tag filter finds a tag for it.
   * The page never runs that filter for the empty subsystem: `loadSubsystemTags`
   * returns early when the selection is "".
   */
  lemma ChoiceHasTags(entries: seq<CatalogEntry>, selected: string)
    ensures selected in SubsystemChoices(entries) <==> TagsOf(entries, selected) != []
  {
    if selected in Subsystems(entries) {
      var k :| 0 <= k < |entries| && Subsystems(entries)[k] == selected;
      assert entries[k].tagName in TagsOf(entries, selected);
    }
    if TagsOf(entries, selected) != [] {
      var t := TagsOf(entries, selected)[0];
      assert t in TagsOf(entries, selected);
      var k :| 0 <= k < |entries| && entries[k] == CatalogEntry(selected, t);
      assert Subsystems(entries)[k] == selected;
    }
  }

  /** `/\.csv$/i`: a dot then c, s, v in either case, ASCII only. */
  predicate CsvSuffix(ext: string)
    ensures CsvSuffix(ext) <==> ext in {".csv", ".csV", ".cSv", ".cSV", ".Csv", ".CsV", ".CSv", ".CSV"}
  {
    && |ext| == 4
    && (assert ext == [ext[0], ext[1], ext[2], ext[3]];
        ext[0] == '.' && ext[1] in "cC" && ext[2] in "sS" && ext[3] in "vV")
  }

  /** `name.replace(/\.csv$/i, '')`: one `.csv` suffix in any case is removed, nothing else. */
  function StripCsvExtension(name: string): (r: string)
    ensures r == name || (|name| == |r| + 4 && CsvSuffix(name[|r|..]))
    ensures r == name[..|r|]
  {
    if |name| >= 4 && CsvSuffix(name[|name| - 4..]) then name[..|name| - 4] else name
  }

  /** The suffix added to a base name is what is taken off. */
  lemma StripAddedExtension(base: string, ext: string)
    requires CsvSuffix(ext)
    ensures StripCsvExtension(base + ext) == base
  {
    assert (base + ext)[|base|..] == ext;
    assert (base + ext)[..|base|] == base;
  }

  /** A name not ending in `.csv` is shown unchanged. */
  lemma StripWithoutExtension(name: string)
    requires |name| < 4 || !CsvSuffix(name[|name| - 4..])
    ensures StripCsvExtension(name) == name
  {
  }
}
