/**
 * The version banner helpers of src/common.rs: grouping a
 * feature -> version map by version, and formatting the grouping.
 *
 * A `HashMap` is a `map`. The grouping returned by
 * `extract_versions_with_features` is an `IndexMap` whose key order
 * follows the hash map's iteration order, which is unspecified; it is a
 * `map` here. `format_version_with_features` depends on the key order, so
 * its argument is the ordered list of the `IndexMap`'s entries.
 */
module Versions {
  import opened Strings

  /**
   * `versions` groups `features`: its keys are exactly the versions that
   * occur, and each key lists, strictly ascending, exactly the features
   * that have that version.
   */
  ghost predicate Grouped(features: map<string, string>, versions: map<string, seq<string>>)
  {
    && versions.Keys == features.Values
    && (forall v :: v in versions ==> StrictlySorted(versions[v]))
    && (forall v, f :: v in versions ==> (f in versions[v] <==> f in features && features[f] == v))
  }

  /**
   * `extract_versions_with_features`: groups the features by version,
   * then sorts every list.
   */
  method ExtractVersionsWithFeatures(featuresWithVersion: map<string, string>)
    returns (versionsWithFeatures: map<string, seq<string>>)
    ensures Grouped(featuresWithVersion, versionsWithFeatures)
  {
    var grouped := GroupByVersion(featuresWithVersion);
    versionsWithFeatures := SortLists(grouped);
    forall v | v in versionsWithFeatures ensures StrictlySorted(versionsWithFeatures[v]) {
      SortedNoDuplicates(versionsWithFeatures[v]);
    }
    forall v, f | v in versionsWithFeatures
      ensures f in versionsWithFeatures[v] <==> f in featuresWithVersion && featuresWithVersion[f] == v
    {
      assert f in versionsWithFeatures[v] <==> f in multiset(grouped[v]);
    }
  }

  /**
   * The `for_each` of `extract_versions_with_features`: visits the
   * features in the hash map's (unspecified) order, appending each to the
   * list of its version when that version has one, and starting the list
   * otherwise.
   */
  method GroupByVersion(m: map<string, string>) returns (grouped: map<string, seq<string>>)
    ensures grouped.Keys == m.Values
    ensures forall v :: v in grouped ==> NoDuplicates(grouped[v])
    ensures forall v, f :: v in grouped ==> (f in grouped[v] <==> f in m && m[f] == v)
  {
    grouped := map[];
    var remaining := m.Keys;
    while remaining != {}
      invariant remaining <= m.Keys
      invariant forall f :: f in m && f !in remaining ==> m[f] in grouped
      invariant forall v :: v in grouped ==> grouped[v] != [] && NoDuplicates(grouped[v])
      invariant forall v, f :: v in grouped ==> (f in grouped[v] <==> f in m && f !in remaining && m[f] == v)
      decreases remaining
    {
      var feature :| feature in remaining;
      var version := m[feature];
      if version in grouped {
        assert feature !in grouped[version];
        grouped := grouped[version := grouped[version] + [feature]];
      } else {
        grouped := grouped[version := [feature]];
      }
      remaining := remaining - {feature};
    }
    forall v | v in grouped ensures v in m.Values {
      var f := grouped[v][0];
      assert f in grouped[v];
      assert f in m && m[f] == v;
      assert m[f] in m.Values;
    }
  }

  /** The `values_mut().for_each(sort)` of `extract_versions_with_features`: every list sorted, keys untouched. */
  method SortLists(grouped: map<string, seq<string>>) returns (sorted: map<string, seq<string>>)
    ensures sorted.Keys == grouped.Keys
    ensures forall v :: v in sorted ==> Sorted(sorted[v]) && multiset(sorted[v]) == multiset(grouped[v])
  {
    sorted := grouped;
    var unsorted := grouped.Keys;
    while unsorted != {}
      invariant unsorted <= grouped.Keys
      invariant sorted.Keys == grouped.Keys
      invariant forall v :: v in grouped ==> multiset(sorted[v]) == multiset(grouped[v])
      invariant forall v :: v in grouped && v !in unsorted ==> Sorted(sorted[v])
      decreases unsorted
    {
      var version :| version in unsorted;
      sorted := sorted[version := Sort(sorted[version])];
      unsorted := unsorted - {version};
    }
  }

  /** The grouping is determined by its input: the hash map's iteration order cannot show in it. */
  lemma GroupedUnique(features: map<string, string>, a: map<string, seq<string>>, b: map<string, seq<string>>)
    requires Grouped(features, a) && Grouped(features, b)
    ensures a == b
  {
    forall v | v in a ensures a[v] == b[v] {
      assert v in b;
      forall x ensures x in a[v] <==> x in b[v] {
        assert x in a[v] <==> x in features && features[x] == v;
      }
      StrictlySortedUnique(a[v], b[v]);
    }
  }

  /** When every feature has the same version, the grouping has that one key, listing every feature in order. */
  lemma SingleVersion(features: map<string, string>, versions: map<string, seq<string>>, version: string)
    requires Grouped(features, versions)
    requires features != map[] && forall f :: f in features ==> features[f] == version
    ensures versions.Keys == {version}
    ensures StrictlySorted(versions[version])
    ensures forall f :: f in versions[version] <==> f in features
  {
  }

  /** The total length of all the lists of a grouping. */
  ghost function TotalLength(versions: map<string, seq<string>>): nat
    decreases |versions|
  {
    if versions == map[] then 0
    else
      var v :| v in versions;
      |versions[v]| + TotalLength(versions - {v})
  }

  /** The features whose version is not `v`. */
  ghost function Without(features: map<string, string>, v: string): (others: map<string, string>)
    ensures others.Keys == features.Keys - (set f | f in features && features[f] == v)
    ensures forall f :: f in others ==> others[f] == features[f]
  {
    map f | f in features && features[f] != v :: features[f]
  }

  /** Dropping one version from a grouping groups the features of the other versions. */
  lemma GroupedWithout(features: map<string, string>, versions: map<string, seq<string>>, v: string)
    requires Grouped(features, versions) && v in versions
    ensures Grouped(Without(features, v), versions - {v})
  {
  }

  /** The list of version `v` is as long as the number of features that have that version. */
  lemma ListLength(features: map<string, string>, versions: map<string, seq<string>>, v: string)
    requires Grouped(features, versions) && v in versions
    ensures |versions[v]| == |set f | f in features && features[f] == v|
  {
    assert (set f | f in versions[v]) == (set f | f in features && features[f] == v);
    StrictlySortedCard(versions[v]);
  }

  /** The features split into those of version `v` and the others. */
  lemma PartitionSize(features: map<string, string>, v: string)
    ensures |features| == |Without(features, v)| + |set f | f in features && features[f] == v|
  {
  }

  /** Every feature is listed exactly once: the lists together are as long as the input has entries. */
  lemma {:induction false} GroupedTotalLength(features: map<string, string>, versions: map<string, seq<string>>)
    requires Grouped(features, versions)
    ensures TotalLength(versions) == |features|
    decreases |versions|
  {
    if versions == map[] {
      assert features.Keys == {};
    } else {
      var v :| v in versions && TotalLength(versions) == |versions[v]| + TotalLength(versions - {v});
      GroupedWithout(features, versions, v);
      GroupedTotalLength(Without(features, v), versions - {v});
      ListLength(features, versions, v);
      PartitionSize(features, v);
    }
  }

  /** The combined length of the parts. */
  function LengthSum(parts: seq<string>): nat
  {
    if parts == [] then 0 else |parts[0]| + LengthSum(parts[1..])
  }

  /**
   * `slice::join`: the parts with `sep` between each two of them. The result
   * starts with the first part and holds every part and one separator per
   * gap between two parts, nothing more.
   */
  function Join(sep: string, parts: seq<string>): (r: string)
    ensures parts == [] ==> r == ""
    ensures parts != [] ==> |parts[0]| <= |r| && r[..|parts[0]|] == parts[0]
    ensures |r| == LengthSum(parts) + (if parts == [] then 0 else (|parts| - 1) * |sep|)
  {
    if parts == [] then ""
    else if |parts| == 1 then parts[0]
    else parts[0] + sep + Join(sep, parts[1..])
  }

  /** Joining is done part by part, in order: a join splits at any part boundary. */
  lemma {:induction false} JoinSplit(sep: string, parts: seq<string>, k: nat)
    requires 0 < k < |parts|
    ensures Join(sep, parts) == Join(sep, parts[..k]) + sep + Join(sep, parts[k..])
  {
    if k > 1 {
      JoinSplit(sep, parts[1..], k - 1);
      assert parts[1..][..k - 1] == parts[..k][1..];
      assert parts[1..][k - 1..] == parts[k..];
    } else {
      assert parts[..1] == [parts[0]];
      assert parts[1..] == parts[k..];
    }
  }

  /** One `version: f1/f2` segment of the banner. */
  function Segment(version: string, features: seq<string>): (r: string)
    ensures |version| + 2 <= |r| && r[..|version| + 2] == version + ": "
    ensures |r| == |version| + 2 + LengthSum(features) + (if features == [] then 0 else |features| - 1)
  {
    version + ": " + Join("/", features)
  }

  /** The segments of the entries, in order. */
  function Segments(entries: seq<(string, seq<string>)>): (r: seq<string>)
    ensures |r| == |entries|
    ensures forall k :: 0 <= k < |r| ==> r[k] == Segment(entries[k].0, entries[k].1)
  {
    seq(|entries|, k requires 0 <= k < |entries| => Segment(entries[k].0, entries[k].1))
  }

  /**
   * `format_version_with_features`: a single entry prints as its bare
   * version; otherwise every entry prints as a segment, in order, and the
   * segments are joined by " - " (no entry at all gives the empty string,
   * so the "Unknown version" branch can never be taken).
   */
  function FormatVersionWithFeatures(entries: seq<(string, seq<string>)>): (s: string)
    ensures |entries| == 0 ==> s == ""
    ensures |entries| == 1 ==> s == entries[0].0
    ensures |entries| >= 2 ==>
      s == Segment(entries[0].0, entries[0].1) + " - " + Join(" - ", Segments(entries[1..]))
  {
    if |entries| == 1 then entries[0].0
    else
      assert |entries| >= 2 ==> Segments(entries)[1..] == Segments(entries[1..]);
      Join(" - ", Segments(entries))
  }

  /** With two or more entries the banner begins with the first entry's segment and then the separator. */
  lemma FormatStartsWithFirstSegment(entries: seq<(string, seq<string>)>)
    requires |entries| >= 2
    ensures var head := Segment(entries[0].0, entries[0].1) + " - ";
      |head| <= |FormatVersionWithFeatures(entries)| && FormatVersionWithFeatures(entries)[..|head|] == head
  {
  }

  /** The banner of a split list of entries is the banners of both halves, joined, when each half has two entries or more. */
  lemma FormatConcat(a: seq<(string, seq<string>)>, b: seq<(string, seq<string>)>)
    requires |a| >= 2 && |b| >= 2
    ensures FormatVersionWithFeatures(a + b) ==
      FormatVersionWithFeatures(a) + " - " + FormatVersionWithFeatures(b)
  {
    var e := a + b;
    var segments := Segments(e);
    assert segments[..|a|] == Segments(a);
    assert segments[|a|..] == Segments(b);
    JoinSplit(" - ", segments, |a|);
    assert FormatVersionWithFeatures(e) == Join(" - ", segments);
  }

  // The examples of the unit tests in src/common.rs.

  /** Three features of two versions group into two sorted lists, whatever the iteration order. */
  lemma ExtractTwoVersionsExample(versions: map<string, seq<string>>)
    requires Grouped(map["gamestate" := "snakepipe@1.0.0(rust)", "throttle" := "snakepipe@1.0.0(node)",
                         "render" := "snakepipe@1.0.0(rust)"], versions)
    ensures versions == map["snakepipe@1.0.0(rust)" := ["gamestate", "render"],
                            "snakepipe@1.0.0(node)" := ["throttle"]]
  {
    var features := map["gamestate" := "snakepipe@1.0.0(rust)", "throttle" := "snakepipe@1.0.0(node)",
                         "render" := "snakepipe@1.0.0(rust)"];
    var expected := map["snakepipe@1.0.0(rust)" := ["gamestate", "render"],
                        "snakepipe@1.0.0(node)" := ["throttle"]];
    assert features.Values == {"snakepipe@1.0.0(rust)", "snakepipe@1.0.0(node)"} by {
      assert features["gamestate"] == "snakepipe@1.0.0(rust)";
      assert features["throttle"] == "snakepipe@1.0.0(node)";
    }
    assert Less("gamestate", "render");
    assert Grouped(features, expected);
    GroupedUnique(features, versions, expected);
  }

  /** A single entry prints as its bare version, however many features it lists. */
  lemma FormatOneVersionExample(version: string, f1: string, f2: string, f3: string)
    ensures FormatVersionWithFeatures([(version, [f1, f2, f3])]) == version
  {
  }

  /** Two entries print as two segments, in order, the features of each joined by "/". */
  lemma FormatTwoVersionsExample(v1: string, f1: string, f2: string, v2: string, f3: string)
    ensures FormatVersionWithFeatures([(v1, [f1, f2]), (v2, [f3])])
      == v1 + ": " + f1 + "/" + f2 + " - " + v2 + ": " + f3
  {
    var entries := [(v1, [f1, f2]), (v2, [f3])];
    assert Join("/", [f1, f2]) == f1 + "/" + f2 by {
      assert [f1, f2][1..] == [f2];
    }
    assert entries[1..] == [(v2, [f3])];
    assert Segments(entries[1..]) == [v2 + ": " + f3];
  }
}
