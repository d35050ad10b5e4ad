/**
  Region assignment: which layout region each of a row's fields is placed in.
  A field list is an ordered PHP array from field name to field definition
  (the definition type `D` is opaque here); a region map is an ordered array
  from region name to such a field list.
 */
module RegionAssignment {
  import opened OrderedMap
  import opened PluginOptions

  /** Is `region` one of the selected layout's region names? */
  predicate SelectedLayoutHasRegion(regionNames: set<string>, region: string)
  {
    region in regionNames
  }

  /** Is the field assigned to a region that the selected layout has? */
  predicate FieldHasValidAssignment(o: Options, regionNames: set<string>, fieldName: string)
  {
    SelectedLayoutHasRegion(regionNames, GetAssignedRegion(o, fieldName))
  }

  /** The region a field is placed in: its assigned region when that is valid,
      the default region (itself never checked) otherwise. */
  function TargetRegion(o: Options, regionNames: set<string>, fieldName: string): (region: string)
    ensures region in regionNames || region == GetDefaultRegion(o)
    ensures fieldName !in o.assignedRegions ==> region == GetDefaultRegion(o) || (region == "" && "" in regionNames)
  {
    if FieldHasValidAssignment(o, regionNames, fieldName) then GetAssignedRegion(o, fieldName)
    else GetDefaultRegion(o)
  }

  /** `$map[$region][$fieldName] = $definition`: creates the region's bucket
      when it is missing, then puts the field into it. */
  function Assign<D>(regionMap: seq<(string, seq<(string, D)>)>, region: string, fieldName: string, definition: D)
    : (r: seq<(string, seq<(string, D)>)>)
    ensures Keys(r) == if region in Keys(regionMap) then Keys(regionMap) else Keys(regionMap) + [region]
    ensures region in Keys(r) && fieldName in Keys(Get(r, region)) && Get(Get(r, region), fieldName) == definition
    ensures region !in Keys(regionMap) ==> Keys(Get(r, region)) == [fieldName]
    ensures region in Keys(regionMap) ==>
      var before := Get(regionMap, region);
      && Keys(Get(r, region)) == (if fieldName in Keys(before) then Keys(before) else Keys(before) + [fieldName])
      && forall f :: f in Keys(before) && f != fieldName ==> Get(Get(r, region), f) == Get(before, f)
    ensures forall x :: x in Keys(regionMap) && x != region ==> Get(r, x) == Get(regionMap, x)
    ensures DistinctKeys(regionMap) ==> DistinctKeys(r)
  {
    var bucket := if region in Keys(regionMap) then Get(regionMap, region) else [];
    Put(regionMap, region, Put(bucket, fieldName, definition))
  }

  /** Assigning to a region that has no bucket yet appends a one-field bucket. */
  lemma AssignToNewRegion<D>(regionMap: seq<(string, seq<(string, D)>)>, region: string, fieldName: string, definition: D)
    requires region !in Keys(regionMap)
    ensures Assign(regionMap, region, fieldName, definition) == regionMap + [(region, [(fieldName, definition)])]
  {
    var empty: seq<(string, D)> := [];
    assert fieldName !in Keys(empty);
    assert Put(empty, fieldName, definition) == [(fieldName, definition)];
  }

  /** Assigning a new field to the `k`-th region appends it to that bucket. */
  lemma AssignToKnownRegion<D>(regionMap: seq<(string, seq<(string, D)>)>, k: nat, fieldName: string, definition: D)
    requires k < |regionMap| && forall j :: 0 <= j < k ==> regionMap[j].0 != regionMap[k].0
    requires fieldName !in Keys(regionMap[k].1)
    ensures Assign(regionMap, regionMap[k].0, fieldName, definition)
         == regionMap[k := (regionMap[k].0, regionMap[k].1 + [(fieldName, definition)])]
  {
    IndexOfIsFirst(regionMap, regionMap[k].0, k);
  }

  /** The region map that the loop over `fields` builds, one field at a time
      from an empty map. */
  function Resolve<D>(fields: seq<(string, D)>, o: Options, regionNames: set<string>)
    : (regionMap: seq<(string, seq<(string, D)>)>)
    ensures regionMap == [] <==> fields == []
    decreases |fields|
  {
    if fields == [] then []
    else
      var last := fields[|fields| - 1];
      Assign(Resolve(fields[..|fields| - 1], o, regionNames), TargetRegion(o, regionNames, last.0), last.0, last.1)
  }

  /** Extending the processed prefix by one field applies one assignment. */
  lemma ResolveExtend<D>(fields: seq<(string, D)>, o: Options, regionNames: set<string>, i: nat)
    requires i < |fields|
    ensures Resolve(fields[..i + 1], o, regionNames)
      == Assign(Resolve(fields[..i], o, regionNames), TargetRegion(o, regionNames, fields[i].0), fields[i].0, fields[i].1)
  {
    assert fields[..i + 1][..i] == fields[..i];
  }

  // ---------------------------------------------------------------------
  // An independent description of the same map: regions in the order they
  // are first targeted, each holding the fields that target it, in order.
  // ---------------------------------------------------------------------

  /** The region each field targets, in field order. */
  function Targets<D>(fields: seq<(string, D)>, o: Options, regionNames: set<string>): (ts: seq<string>)
    ensures |ts| == |fields|
    ensures forall i :: 0 <= i < |fields| ==> ts[i] == TargetRegion(o, regionNames, fields[i].0)
  {
    seq(|fields|, i requires 0 <= i < |fields| => TargetRegion(o, regionNames, fields[i].0))
  }

  /** The distinct elements of `s`, in the order of their first occurrence. */
  function FirstSeen(s: seq<string>): (d: seq<string>)
    ensures forall x :: x in d <==> x in s
    ensures forall i, j :: 0 <= i < j < |d| ==> d[i] != d[j]
    decreases |s|
  {
    if s == [] then []
    else
      var prefix := FirstSeen(s[..|s| - 1]);
      if s[|s| - 1] in prefix then prefix else prefix + [s[|s| - 1]]
  }

  /** The position of the first occurrence of `x` in `s`. */
  function FirstIndex(s: seq<string>, x: string): (i: nat)
    requires x in s
    ensures i < |s| && s[i] == x
    ensures forall j :: 0 <= j < i ==> s[j] != x
  {
    if s[0] == x then 0 else FirstIndex(s[1..], x) + 1
  }

  /** The fields that target `region`, in field order. */
  function FieldsFor<D>(fields: seq<(string, D)>, o: Options, regionNames: set<string>, region: string)
    : (bucket: seq<(string, D)>)
    ensures forall i :: 0 <= i < |bucket| ==> bucket[i] in fields && TargetRegion(o, regionNames, bucket[i].0) == region
    ensures forall i :: 0 <= i < |fields| && TargetRegion(o, regionNames, fields[i].0) == region ==> fields[i] in bucket
    decreases |fields|
  {
    if fields == [] then []
    else
      var last := fields[|fields| - 1];
      FieldsFor(fields[..|fields| - 1], o, regionNames, region)
        + (if TargetRegion(o, regionNames, last.0) == region then [last] else [])
  }

  /** The region map described region by region. */
  function Grouping<D>(fields: seq<(string, D)>, o: Options, regionNames: set<string>)
    : (regionMap: seq<(string, seq<(string, D)>)>)
    ensures Keys(regionMap) == FirstSeen(Targets(fields, o, regionNames))
  {
    var regions := FirstSeen(Targets(fields, o, regionNames));
    seq(|regions|, i requires 0 <= i < |regions| => (regions[i], FieldsFor(fields, o, regionNames, regions[i])))
  }

  /** `a` is `b` with some elements deleted: the order of what is left is kept. */
  ghost predicate IsSubsequence<T>(a: seq<T>, b: seq<T>)
    decreases |b|
  {
    if a == [] then true
    else if b == [] then false
    else (a[|a| - 1] == b[|b| - 1] && IsSubsequence(a[..|a| - 1], b[..|b| - 1]))
         || IsSubsequence(a, b[..|b| - 1])
  }

  /** The field `e` sits in the bucket of `region`. */
  ghost predicate PlacedIn<D>(regionMap: seq<(string, seq<(string, D)>)>, region: string, e: (string, D))
  {
    region in Keys(regionMap) && e in Get(regionMap, region)
  }

  // ---------------------------------------------------------------------
  // The loop's map is the region-by-region description.
  // ---------------------------------------------------------------------

  /** Looking a region up in the grouping finds the fields that target it,
      and a region no field targets has no bucket. */
  lemma GroupingBucket<D>(fields: seq<(string, D)>, o: Options, regionNames: set<string>, region: string)
    ensures var g := Grouping(fields, o, regionNames);
      (if region in Keys(g) then Get(g, region) else []) == FieldsFor(fields, o, regionNames, region)
  {
    if region in Keys(Grouping(fields, o, regionNames)) {
      GroupingBucketTargeted(fields, o, regionNames, region);
    } else {
      GroupingBucketUntargeted(fields, o, regionNames, region);
    }
  }

  lemma GroupingBucketTargeted<D>(fields: seq<(string, D)>, o: Options, regionNames: set<string>, region: string)
    requires region in Keys(Grouping(fields, o, regionNames))
    ensures Get(Grouping(fields, o, regionNames), region) == FieldsFor(fields, o, regionNames, region)
  {
    var g := Grouping(fields, o, regionNames);
    var regions := FirstSeen(Targets(fields, o, regionNames));
    var k :| 0 <= k < |regions| && regions[k] == region;
    GroupingAt(fields, o, regionNames, k);
    IndexOfIsFirst(g, region, k);
  }

  lemma GroupingBucketUntargeted<D>(fields: seq<(string, D)>, o: Options, regionNames: set<string>, region: string)
    requires region !in Keys(Grouping(fields, o, regionNames))
    ensures FieldsFor(fields, o, regionNames, region) == []
  {
    var targets := Targets(fields, o, regionNames);
    assert region !in targets;
    assert forall j :: 0 <= j < |fields| ==> targets[j] != region;
  }

  /** Adding one more field to the list adds it to the end of its target's
      bucket, creating that bucket at the end when the region is new. */
  lemma GroupingStep<D>(fields: seq<(string, D)>, o: Options, regionNames: set<string>)
    requires fields != []
    ensures var n := |fields|;
      var t := TargetRegion(o, regionNames, fields[n - 1].0);
      Grouping(fields, o, regionNames)
        == Put(Grouping(fields[..n - 1], o, regionNames), t, FieldsFor(fields[..n - 1], o, regionNames, t) + [fields[n - 1]])
  {
    var n := |fields|;
    var prefix, last := fields[..n - 1], fields[n - 1];
    var t := TargetRegion(o, regionNames, last.0);
    var before := Grouping(prefix, o, regionNames);
    var regions := FirstSeen(Targets(prefix, o, regionNames));
    var grown := FieldsFor(prefix, o, regionNames, t) + [last];
    if t in regions {
      var k :| 0 <= k < |regions| && regions[k] == t;
      assert before[k].0 == t && forall j :: 0 <= j < k ==> before[j].0 != t by {
        assert Keys(before) == regions;
      }
      PutAt(before, k, grown);
      GroupingStepKnownRegion(fields, o, regionNames, k);
    } else {
      assert grown == [last] by {
        GroupingBucketUntargeted(prefix, o, regionNames, t);
      }
      PutAbsent(before, t, grown);
      GroupingStepNewRegion(fields, o, regionNames);
    }
  }

  /** The step when the last field targets the `k`-th region already seen. */
  lemma GroupingStepKnownRegion<D>(fields: seq<(string, D)>, o: Options, regionNames: set<string>, k: nat)
    requires fields != []
    requires var n := |fields|;
      var regions := FirstSeen(Targets(fields[..n - 1], o, regionNames));
      k < |regions| && regions[k] == TargetRegion(o, regionNames, fields[n - 1].0)
    ensures var n := |fields|;
      var t := TargetRegion(o, regionNames, fields[n - 1].0);
      Grouping(fields, o, regionNames)
        == Grouping(fields[..n - 1], o, regionNames)[k := (t, FieldsFor(fields[..n - 1], o, regionNames, t) + [fields[n - 1]])]
  {
    var n := |fields|;
    var prefix, last := fields[..n - 1], fields[n - 1];
    var t := TargetRegion(o, regionNames, last.0);
    var regions := FirstSeen(Targets(prefix, o, regionNames));
    var before := Grouping(prefix, o, regionNames);
    var after := before[k := (t, FieldsFor(prefix, o, regionNames, t) + [last])];
    var expected := Grouping(fields, o, regionNames);
    assert FirstSeen(Targets(fields, o, regionNames)) == regions by {
      assert Targets(fields, o, regionNames)[..n - 1] == Targets(prefix, o, regionNames);
    }
    assert |before| == |regions| == |expected| by {
      assert |Keys(before)| == |before| && |Keys(expected)| == |expected|;
    }
    forall i | 0 <= i < |regions| ensures after[i] == expected[i] {
      GroupingStepKnownRegionAt(fields, o, regionNames, k, i);
    }
  }

  /** One bucket of GroupingStepKnownRegion: the `k`-th grows by the last
      field, every other bucket is the same as before. */
  lemma GroupingStepKnownRegionAt<D>(fields: seq<(string, D)>, o: Options, regionNames: set<string>, k: nat, i: nat)
    requires fields != []
    requires var n := |fields|;
      var regions := FirstSeen(Targets(fields[..n - 1], o, regionNames));
      k < |regions| && i < |regions| && regions[k] == TargetRegion(o, regionNames, fields[n - 1].0)
      && FirstSeen(Targets(fields, o, regionNames)) == regions
    ensures var n := |fields|;
      var t := TargetRegion(o, regionNames, fields[n - 1].0);
      var before := Grouping(fields[..n - 1], o, regionNames);
      i < |before| && i < |Grouping(fields, o, regionNames)|
      && before[k := (t, FieldsFor(fields[..n - 1], o, regionNames, t) + [fields[n - 1]])][i]
         == Grouping(fields, o, regionNames)[i]
  {
    var n := |fields|;
    var prefix, last := fields[..n - 1], fields[n - 1];
    var t := TargetRegion(o, regionNames, last.0);
    var regions := FirstSeen(Targets(prefix, o, regionNames));
    GroupingAtStep(fields, o, regionNames, i);
    GroupingAt(prefix, o, regionNames, i);
    if i != k {
      assert regions[i] != t;
      var bucket := FieldsFor(prefix, o, regionNames, regions[i]);
      assert bucket + [] == bucket;
    }
  }

  /** The `i`-th bucket of the grouping, in terms of the fields before the last one. */
  lemma GroupingAtStep<D>(fields: seq<(string, D)>, o: Options, regionNames: set<string>, i: nat)
    requires fields != [] && i < |FirstSeen(Targets(fields, o, regionNames))|
    ensures var n := |fields|;
      var r := FirstSeen(Targets(fields, o, regionNames))[i];
      |Grouping(fields, o, regionNames)| == |FirstSeen(Targets(fields, o, regionNames))|
      && Grouping(fields, o, regionNames)[i]
         == (r, FieldsFor(fields[..n - 1], o, regionNames, r)
                + (if TargetRegion(o, regionNames, fields[n - 1].0) == r then [fields[n - 1]] else []))
  {
    GroupingAt(fields, o, regionNames, i);
    FieldsForStep(fields, o, regionNames, FirstSeen(Targets(fields, o, regionNames))[i]);
  }

  /** The step when the last field targets a region no earlier field targets. */
  lemma GroupingStepNewRegion<D>(fields: seq<(string, D)>, o: Options, regionNames: set<string>)
    requires fields != []
    requires var n := |fields|;
      TargetRegion(o, regionNames, fields[n - 1].0) !in FirstSeen(Targets(fields[..n - 1], o, regionNames))
    ensures var n := |fields|;
      var t := TargetRegion(o, regionNames, fields[n - 1].0);
      Grouping(fields, o, regionNames) == Grouping(fields[..n - 1], o, regionNames) + [(t, [fields[n - 1]])]
  {
    var n := |fields|;
    var prefix, last := fields[..n - 1], fields[n - 1];
    var t := TargetRegion(o, regionNames, last.0);
    var regions := FirstSeen(Targets(prefix, o, regionNames));
    var before := Grouping(prefix, o, regionNames);
    var after := before + [(t, [last])];
    var expected := Grouping(fields, o, regionNames);
    NewRegionIsAppended(fields, o, regionNames);
    assert |before| == |regions| by {
      assert |Keys(before)| == |before|;
    }
    forall i | 0 <= i < |regions| + 1 ensures after[i] == expected[i] {
      if i < |regions| {
        NewRegionKeepsEarlierBucket(fields, o, regionNames, i);
      } else {
        NewRegionBucket(fields, o, regionNames);
      }
    }
  }

  /** A newly targeted region is appended to the first-seen regions. */
  lemma NewRegionIsAppended<D>(fields: seq<(string, D)>, o: Options, regionNames: set<string>)
    requires fields != []
    requires var n := |fields|;
      TargetRegion(o, regionNames, fields[n - 1].0) !in FirstSeen(Targets(fields[..n - 1], o, regionNames))
    ensures var n := |fields|;
      FirstSeen(Targets(fields, o, regionNames))
        == FirstSeen(Targets(fields[..n - 1], o, regionNames)) + [TargetRegion(o, regionNames, fields[n - 1].0)]
  {
    var n := |fields|;
    assert Targets(fields, o, regionNames)[..n - 1] == Targets(fields[..n - 1], o, regionNames);
  }

  /** Regions seen before the new one keep their buckets. */
  lemma NewRegionKeepsEarlierBucket<D>(fields: seq<(string, D)>, o: Options, regionNames: set<string>, i: nat)
    requires fields != []
    requires var n := |fields|;
      TargetRegion(o, regionNames, fields[n - 1].0) !in FirstSeen(Targets(fields[..n - 1], o, regionNames))
    requires i < |FirstSeen(Targets(fields[..|fields| - 1], o, regionNames))|
    ensures |FirstSeen(Targets(fields, o, regionNames))| > i
    ensures Grouping(fields, o, regionNames)[i] == Grouping(fields[..|fields| - 1], o, regionNames)[i]
  {
    var n := |fields|;
    var prefix := fields[..n - 1];
    var regions := FirstSeen(Targets(prefix, o, regionNames));
    NewRegionIsAppended(fields, o, regionNames);
    GroupingAt(fields, o, regionNames, i);
    GroupingAt(prefix, o, regionNames, i);
    var r := regions[i];
    assert r != TargetRegion(o, regionNames, fields[n - 1].0);
    FieldsForStep(fields, o, regionNames, r);
    assert FieldsFor(fields, o, regionNames, r) == FieldsFor(prefix, o, regionNames, r);
  }

  /** The new region's bucket holds just the last field. */
  lemma NewRegionBucket<D>(fields: seq<(string, D)>, o: Options, regionNames: set<string>)
    requires fields != []
    requires var n := |fields|;
      TargetRegion(o, regionNames, fields[n - 1].0) !in FirstSeen(Targets(fields[..n - 1], o, regionNames))
    ensures var n := |fields|;
      var k := |FirstSeen(Targets(fields[..n - 1], o, regionNames))|;
      k < |Grouping(fields, o, regionNames)|
      && Grouping(fields, o, regionNames)[k] == (TargetRegion(o, regionNames, fields[n - 1].0), [fields[n - 1]])
  {
    var n := |fields|;
    var prefix, last := fields[..n - 1], fields[n - 1];
    var t := TargetRegion(o, regionNames, last.0);
    var k := |FirstSeen(Targets(prefix, o, regionNames))|;
    assert FirstSeen(Targets(fields, o, regionNames))[k] == t by {
      NewRegionIsAppended(fields, o, regionNames);
    }
    GroupingAt(fields, o, regionNames, k);
    assert FieldsFor(fields, o, regionNames, t) == [last] by {
      assert FieldsFor(prefix, o, regionNames, t) == [] by {
        GroupingBucketUntargeted(prefix, o, regionNames, t);
      }
      FieldsForStep(fields, o, regionNames, t);
    }
  }

  /** The bucket of `region` grows by the last field exactly when that field targets `region`. */
  lemma FieldsForStep<D>(fields: seq<(string, D)>, o: Options, regionNames: set<string>, region: string)
    requires fields != []
    ensures var n := |fields|;
      FieldsFor(fields, o, regionNames, region)
        == FieldsFor(fields[..n - 1], o, regionNames, region)
           + (if TargetRegion(o, regionNames, fields[n - 1].0) == region then [fields[n - 1]] else [])
  {
  }

  /** The `i`-th region of the grouping, with its bucket. */
  lemma GroupingAt<D>(fields: seq<(string, D)>, o: Options, regionNames: set<string>, i: nat)
    requires i < |FirstSeen(Targets(fields, o, regionNames))|
    ensures var regions := FirstSeen(Targets(fields, o, regionNames));
      |Grouping(fields, o, regionNames)| == |regions|
      && Grouping(fields, o, regionNames)[i] == (regions[i], FieldsFor(fields, o, regionNames, regions[i]))
  {
  }

  /** A field whose name differs from every name in the list is not in any
      bucket built from that list. */
  lemma FreshNameNotInBucket<D>(fields: seq<(string, D)>, o: Options, regionNames: set<string>, region: string, name: string)
    requires forall j :: 0 <= j < |fields| ==> fields[j].0 != name
    ensures name !in Keys(FieldsFor(fields, o, regionNames, region))
  {
  }

  /** One step of the loop, once the map so far is the grouping of the
      fields so far: the new field goes at the end of its target's bucket. */
  lemma ResolveStep<D>(fields: seq<(string, D)>, o: Options, regionNames: set<string>)
    requires fields != [] && DistinctKeys(fields)
    requires Resolve(fields[..|fields| - 1], o, regionNames) == Grouping(fields[..|fields| - 1], o, regionNames)
    ensures var n := |fields|;
      var t := TargetRegion(o, regionNames, fields[n - 1].0);
      Resolve(fields, o, regionNames)
        == Put(Resolve(fields[..n - 1], o, regionNames), t, FieldsFor(fields[..n - 1], o, regionNames, t) + [fields[n - 1]])
  {
    var n := |fields|;
    var prefix, last := fields[..n - 1], fields[n - 1];
    var t := TargetRegion(o, regionNames, last.0);
    var before := Resolve(prefix, o, regionNames);
    var bucket := FieldsFor(prefix, o, regionNames, t);
    assert Resolve(fields, o, regionNames) == Assign(before, t, last.0, last.1);
    assert Assign(before, t, last.0, last.1) == Put(before, t, Put(bucket, last.0, last.1)) by {
      GroupingBucket(prefix, o, regionNames, t);
    }
    assert Put(bucket, last.0, last.1) == bucket + [last] by {
      LastFieldNotInBucket(fields, o, regionNames, t);
      PutAbsent(bucket, last.0, last.1);
    }
  }

  /** With distinct field names, the last field is in no bucket built from the
      fields before it. */
  lemma LastFieldNotInBucket<D>(fields: seq<(string, D)>, o: Options, regionNames: set<string>, region: string)
    requires fields != [] && DistinctKeys(fields)
    ensures fields[|fields| - 1].0 !in Keys(FieldsFor(fields[..|fields| - 1], o, regionNames, region))
  {
    var prefix := fields[..|fields| - 1];
    assert forall j :: 0 <= j < |prefix| ==> prefix[j].0 != fields[|fields| - 1].0 by {
      assert forall j :: 0 <= j < |prefix| ==> prefix[j] == fields[j];
    }
    FreshNameNotInBucket(prefix, o, regionNames, region, fields[|fields| - 1].0);
  }

  /** Building the map field by field gives exactly the grouping: regions in
      first-targeted order, each with the fields that target it, in order. */
  lemma {:induction false} ResolveIsGrouping<D>(fields: seq<(string, D)>, o: Options, regionNames: set<string>)
    requires DistinctKeys(fields)
    ensures Resolve(fields, o, regionNames) == Grouping(fields, o, regionNames)
    decreases |fields|
  {
    if fields != [] {
      ResolveIsGrouping(fields[..|fields| - 1], o, regionNames);
      ResolveStep(fields, o, regionNames);
      GroupingStep(fields, o, regionNames);
    }
  }

  // ---------------------------------------------------------------------
  // What the region map promises.
  // ---------------------------------------------------------------------

  /** Region keys of the grouping are distinct. */
  lemma GroupingKeysDistinct<D>(fields: seq<(string, D)>, o: Options, regionNames: set<string>)
    ensures DistinctKeys(Grouping(fields, o, regionNames))
  {
    var g := Grouping(fields, o, regionNames);
    forall i, j | 0 <= i < j < |g| ensures g[i].0 != g[j].0 {
      assert Keys(g)[i] == g[i].0 && Keys(g)[j] == g[j].0;
    }
  }

  /** Every bucket of the grouping is non-empty and holds only fields that
      target its region. */
  lemma GroupingBucketsSound<D>(fields: seq<(string, D)>, o: Options, regionNames: set<string>)
    ensures var g := Grouping(fields, o, regionNames);
      && (forall i :: 0 <= i < |g| ==> g[i].1 != [])
      && (forall i, j :: 0 <= i < |g| && 0 <= j < |g[i].1| ==>
            g[i].1[j] in fields && TargetRegion(o, regionNames, g[i].1[j].0) == g[i].0)
  {
    var g := Grouping(fields, o, regionNames);
    var targets := Targets(fields, o, regionNames);
    var regions := FirstSeen(targets);
    forall i | 0 <= i < |g| ensures g[i].1 != [] && g[i] == (regions[i], FieldsFor(fields, o, regionNames, regions[i])) {
      GroupingAt(fields, o, regionNames, i);
      assert regions[i] in targets;
      var k :| 0 <= k < |targets| && targets[k] == regions[i];
      assert fields[k] in g[i].1;
    }
  }

  /** Every field of the view sits in the grouping's bucket of its target. */
  lemma GroupingPlacesEveryField<D>(fields: seq<(string, D)>, o: Options, regionNames: set<string>)
    ensures var g := Grouping(fields, o, regionNames);
      forall k :: 0 <= k < |fields| ==> PlacedIn(g, TargetRegion(o, regionNames, fields[k].0), fields[k])
  {
    var g := Grouping(fields, o, regionNames);
    var targets := Targets(fields, o, regionNames);
    forall k | 0 <= k < |fields| ensures PlacedIn(g, TargetRegion(o, regionNames, fields[k].0), fields[k]) {
      var t := TargetRegion(o, regionNames, fields[k].0);
      assert targets[k] == t;
      GroupingBucket(fields, o, regionNames, t);
    }
  }

  /** The map partitions the fields: region keys are distinct, no bucket is
      empty, every bucket holds only fields of the view that target its
      region, and every field of the view sits in its target's bucket. */
  lemma ResolvePartitionsFields<D>(fields: seq<(string, D)>, o: Options, regionNames: set<string>)
    requires DistinctKeys(fields)
    ensures var m := Resolve(fields, o, regionNames);
      && DistinctKeys(m)
      && (forall i :: 0 <= i < |m| ==> m[i].1 != [])
      && (forall i, j :: 0 <= i < |m| && 0 <= j < |m[i].1| ==>
            m[i].1[j] in fields && TargetRegion(o, regionNames, m[i].1[j].0) == m[i].0)
      && (forall k :: 0 <= k < |fields| ==> PlacedIn(m, TargetRegion(o, regionNames, fields[k].0), fields[k]))
  {
    ResolveIsGrouping(fields, o, regionNames);
    GroupingKeysDistinct(fields, o, regionNames);
    GroupingBucketsSound(fields, o, regionNames);
    GroupingPlacesEveryField(fields, o, regionNames);
  }

  /** A field's name is in a bucket exactly when the bucket is that of the
      field's target region. */
  lemma NameInBucketIff<D>(fields: seq<(string, D)>, o: Options, regionNames: set<string>, k: nat, i: nat)
    requires DistinctKeys(fields) && k < |fields|
    requires i < |Resolve(fields, o, regionNames)|
    ensures var m := Resolve(fields, o, regionNames);
      fields[k].0 in Keys(m[i].1) <==> m[i].0 == TargetRegion(o, regionNames, fields[k].0)
  {
    var m := Resolve(fields, o, regionNames);
    var name := fields[k].0;
    var t := TargetRegion(o, regionNames, name);
    if name in Keys(m[i].1) {
      var j :| 0 <= j < |m[i].1| && Keys(m[i].1)[j] == name;
      var e := m[i].1[j];
      assert e in fields && TargetRegion(o, regionNames, e.0) == m[i].0 by {
        ResolvePartitionsFields(fields, o, regionNames);
      }
      var p :| 0 <= p < |fields| && fields[p] == e;
      assert p == k;
    }
    if m[i].0 == t {
      assert PlacedIn(m, t, fields[k]) && DistinctKeys(m) by {
        ResolvePartitionsFields(fields, o, regionNames);
      }
      assert IndexOf(m, t) == i;
      KeyOfMember(m[i].1, fields[k]);
    }
  }

  /** Each field's name is in exactly one bucket: the one of its target region. */
  lemma FieldInExactlyOneBucket<D>(fields: seq<(string, D)>, o: Options, regionNames: set<string>, k: nat)
    requires DistinctKeys(fields) && k < |fields|
    ensures var m := Resolve(fields, o, regionNames);
      var name := fields[k].0;
      && (exists i :: 0 <= i < |m| && name in Keys(m[i].1))
      && (forall i :: 0 <= i < |m| ==> (name in Keys(m[i].1) <==> m[i].0 == TargetRegion(o, regionNames, name)))
      && (forall i, j :: 0 <= i < |m| && 0 <= j < |m| && name in Keys(m[i].1) && name in Keys(m[j].1) ==> i == j)
  {
    var m := Resolve(fields, o, regionNames);
    var t := TargetRegion(o, regionNames, fields[k].0);
    forall i | 0 <= i < |m| ensures fields[k].0 in Keys(m[i].1) <==> m[i].0 == t {
      NameInBucketIff(fields, o, regionNames, k, i);
    }
    ResolvePartitionsFields(fields, o, regionNames);
    assert PlacedIn(m, t, fields[k]);
    var i0 := IndexOf(m, t);
    assert fields[k].0 in Keys(m[i0].1);
  }

  /** No name other than the view's field names appears in any bucket. */
  lemma NoStrayFieldNames<D>(fields: seq<(string, D)>, o: Options, regionNames: set<string>)
    requires DistinctKeys(fields)
    ensures var m := Resolve(fields, o, regionNames);
      forall i, name :: 0 <= i < |m| && name in Keys(m[i].1) ==> name in Keys(fields)
  {
    var m := Resolve(fields, o, regionNames);
    ResolvePartitionsFields(fields, o, regionNames);
    forall i, name | 0 <= i < |m| && name in Keys(m[i].1) ensures name in Keys(fields) {
      var j :| 0 <= j < |m[i].1| && Keys(m[i].1)[j] == name;
      KeyOfMember(fields, m[i].1[j]);
    }
  }

  /** A field assigned to a region of the selected layout is placed there. */
  lemma ValidAssignmentIsHonoured<D>(fields: seq<(string, D)>, o: Options, regionNames: set<string>, k: nat)
    requires DistinctKeys(fields) && k < |fields|
    requires GetAssignedRegion(o, fields[k].0) in regionNames
    ensures PlacedIn(Resolve(fields, o, regionNames), GetAssignedRegion(o, fields[k].0), fields[k])
  {
    ResolvePartitionsFields(fields, o, regionNames);
  }

  /** A field whose assignment (the empty string when it has none) is not a
      region of the selected layout is placed under the default region, which
      is used as it is even when the layout does not have it either. */
  lemma OtherFieldsGoToDefaultRegion<D>(fields: seq<(string, D)>, o: Options, regionNames: set<string>, k: nat)
    requires DistinctKeys(fields) && k < |fields|
    requires GetAssignedRegion(o, fields[k].0) !in regionNames
    ensures PlacedIn(Resolve(fields, o, regionNames), GetDefaultRegion(o), fields[k])
  {
    ResolvePartitionsFields(fields, o, regionNames);
  }

  /** A field with no entry in `assigned_regions` reads as assigned to the
      empty string: it lands under the region "" when the layout has such a
      region, and under the default region otherwise. */
  lemma UnassignedFieldPlacement<D>(fields: seq<(string, D)>, o: Options, regionNames: set<string>, k: nat)
    requires DistinctKeys(fields) && k < |fields|
    requires fields[k].0 !in o.assignedRegions
    ensures PlacedIn(Resolve(fields, o, regionNames), if "" in regionNames then "" else GetDefaultRegion(o), fields[k])
  {
    ResolvePartitionsFields(fields, o, regionNames);
  }

  /** Every bucket lists its fields in the order of the view's field list. */
  lemma BucketsKeepFieldOrder<D>(fields: seq<(string, D)>, o: Options, regionNames: set<string>)
    requires DistinctKeys(fields)
    ensures var m := Resolve(fields, o, regionNames);
      forall i :: 0 <= i < |m| ==> IsSubsequence(m[i].1, fields)
  {
    var m := Resolve(fields, o, regionNames);
    var regions := FirstSeen(Targets(fields, o, regionNames));
    ResolveIsGrouping(fields, o, regionNames);
    forall i | 0 <= i < |m| ensures IsSubsequence(m[i].1, fields) {
      GroupingAt(fields, o, regionNames, i);
      FieldsForIsSubsequence(fields, o, regionNames, regions[i]);
    }
  }

  /** The fields that target a region form a subsequence of the field list. */
  lemma {:induction false} FieldsForIsSubsequence<D>(fields: seq<(string, D)>, o: Options, regionNames: set<string>, region: string)
    ensures IsSubsequence(FieldsFor(fields, o, regionNames, region), fields)
    decreases |fields|
  {
    if fields != [] {
      var n := |fields|;
      var prefix, last := fields[..n - 1], fields[n - 1];
      var before := FieldsFor(prefix, o, regionNames, region);
      FieldsForIsSubsequence(prefix, o, regionNames, region);
      if TargetRegion(o, regionNames, last.0) == region {
        var b := before + [last];
        assert FieldsFor(fields, o, regionNames, region) == b;
        assert b[..|b| - 1] == before;
      } else {
        assert FieldsFor(fields, o, regionNames, region) == before;
        if before != [] {
          assert fields[..n - 1] == prefix;
        }
      }
    }
  }

  /** The elements of FirstSeen(s) are ordered by their first occurrence in `s`. */
  ghost predicate InFirstOccurrenceOrder(s: seq<string>)
  {
    forall i, j :: 0 <= i < j < |FirstSeen(s)| ==> FirstIndex(s, FirstSeen(s)[i]) < FirstIndex(s, FirstSeen(s)[j])
  }

  /** FirstSeen lists the elements in the order of their first occurrence. */
  lemma {:induction false} FirstSeenOrder(s: seq<string>)
    ensures InFirstOccurrenceOrder(s)
    decreases |s|
  {
    if s != [] {
      FirstSeenOrder(s[..|s| - 1]);
      if s[|s| - 1] in FirstSeen(s[..|s| - 1]) {
        FirstSeenOrderRepeat(s);
      } else {
        FirstSeenOrderFresh(s);
      }
    }
  }

  /** The step of FirstSeenOrder when the last element already occurred. */
  lemma FirstSeenOrderRepeat(s: seq<string>)
    requires s != [] && s[|s| - 1] in FirstSeen(s[..|s| - 1])
    requires InFirstOccurrenceOrder(s[..|s| - 1])
    ensures InFirstOccurrenceOrder(s)
  {
    var prefix := s[..|s| - 1];
    var d := FirstSeen(prefix);
    assert FirstSeen(s) == d;
    forall i, j | 0 <= i < j < |d| ensures FirstIndex(s, d[i]) < FirstIndex(s, d[j]) {
      FirstIndexOfPrefix(s, d[i]);
      FirstIndexOfPrefix(s, d[j]);
    }
  }

  /** The step of FirstSeenOrder when the last element occurs for the first time. */
  lemma FirstSeenOrderFresh(s: seq<string>)
    requires s != [] && s[|s| - 1] !in FirstSeen(s[..|s| - 1])
    requires InFirstOccurrenceOrder(s[..|s| - 1])
    ensures InFirstOccurrenceOrder(s)
  {
    var d := FirstSeen(s);
    forall i, j | 0 <= i < j < |d| ensures FirstIndex(s, d[i]) < FirstIndex(s, d[j]) {
      FirstSeenOrderFreshPair(s, i, j);
    }
  }

  /** One pair of FirstSeenOrderFresh: the new element comes last, and the
      earlier ones keep the first positions they had in the prefix. */
  lemma FirstSeenOrderFreshPair(s: seq<string>, i: nat, j: nat)
    requires s != [] && s[|s| - 1] !in FirstSeen(s[..|s| - 1])
    requires InFirstOccurrenceOrder(s[..|s| - 1])
    requires i < j < |FirstSeen(s)|
    ensures FirstIndex(s, FirstSeen(s)[i]) < FirstIndex(s, FirstSeen(s)[j])
  {
    var n := |s|;
    var prefix, x := s[..n - 1], s[n - 1];
    var before := FirstSeen(prefix);
    var d := FirstSeen(s);
    assert d == before + [x];
    assert d[i] == before[i] && before[i] in before;
    FirstIndexOfPrefix(s, before[i]);
    if j < |before| {
      assert d[j] == before[j] && before[j] in before;
      FirstIndexOfPrefix(s, before[j]);
    } else {
      FirstIndexAt(s, x, n - 1);
    }
  }

  /** An element already in the prefix is first found where the prefix has it. */
  lemma FirstIndexOfPrefix(s: seq<string>, y: string)
    requires s != [] && y in s[..|s| - 1]
    ensures FirstIndex(s, y) == FirstIndex(s[..|s| - 1], y)
  {
    var prefix := s[..|s| - 1];
    var i := FirstIndex(prefix, y);
    assert forall j :: 0 <= j <= i ==> s[j] == prefix[j];
    FirstIndexAt(s, y, i);
  }

  /** The first position holding `x` is the one FirstIndex finds. */
  lemma FirstIndexAt(s: seq<string>, x: string, i: nat)
    requires i < |s| && s[i] == x
    requires forall j :: 0 <= j < i ==> s[j] != x
    ensures FirstIndex(s, x) == i
  {
  }

  /** Regions appear in the map in the order in which some field first
      targeted them, and exactly the targeted regions appear. */
  lemma RegionsInFirstTargetedOrder<D>(fields: seq<(string, D)>, o: Options, regionNames: set<string>)
    requires DistinctKeys(fields)
    ensures var m := Resolve(fields, o, regionNames);
      var targets := Targets(fields, o, regionNames);
      && (forall r :: r in Keys(m) <==> r in targets)
      && (forall i, j :: 0 <= i < j < |m| ==> FirstIndex(targets, m[i].0) < FirstIndex(targets, m[j].0))
  {
    var m := Resolve(fields, o, regionNames);
    var targets := Targets(fields, o, regionNames);
    ResolveIsGrouping(fields, o, regionNames);
    FirstSeenOrder(targets);
    var regions := FirstSeen(targets);
    assert Keys(m) == regions;
    forall i, j | 0 <= i < j < |m| ensures FirstIndex(targets, m[i].0) < FirstIndex(targets, m[j].0) {
      assert Keys(m)[i] == m[i].0 && Keys(m)[j] == m[j].0;
      assert m[i].0 == regions[i] && m[j].0 == regions[j];
      assert FirstIndex(targets, regions[i]) < FirstIndex(targets, regions[j]);
    }
  }

  /** With the default region and the assignments left unset, whatever the
      layout, every field reads as assigned to "" and the default region is ""
      too, so all fields land, in order, in one region "". */
  lemma UnsetRegionsUseOneRegion<D>(layout: string, fields: seq<(string, D)>, regionNames: set<string>)
    requires DistinctKeys(fields) && fields != []
    ensures Resolve(fields, Options(layout, "", map[]), regionNames) == [("", fields)]
  {
    var o := Options(layout, "", map[]);
    var targets := Targets(fields, o, regionNames);
    var regions := FirstSeen(targets);
    assert forall i :: 0 <= i < |fields| ==> TargetRegion(o, regionNames, fields[i].0) == "";
    assert regions == [""] by {
      FirstSeenOfConstant(targets, "");
    }
    var g := Grouping(fields, o, regionNames);
    assert |g| == 1 && g[0] == ("", fields) by {
      GroupingAt(fields, o, regionNames, 0);
      FieldsForAll(fields, o, regionNames, "");
    }
    assert g == [("", fields)];
    ResolveIsGrouping(fields, o, regionNames);
  }

  /** When every field targets `region`, its bucket is the whole field list. */
  lemma {:induction false} FieldsForAll<D>(fields: seq<(string, D)>, o: Options, regionNames: set<string>, region: string)
    requires forall i :: 0 <= i < |fields| ==> TargetRegion(o, regionNames, fields[i].0) == region
    ensures FieldsFor(fields, o, regionNames, region) == fields
    decreases |fields|
  {
    if fields != [] {
      var n := |fields|;
      FieldsForAll(fields[..n - 1], o, regionNames, region);
      assert fields[..n - 1] + [fields[n - 1]] == fields;
    }
  }

  /** A non-empty sequence of one repeated element has just that element first-seen. */
  lemma {:induction false} FirstSeenOfConstant(s: seq<string>, x: string)
    requires s != [] && forall i :: 0 <= i < |s| ==> s[i] == x
    ensures FirstSeen(s) == [x]
    decreases |s|
  {
    if |s| > 1 {
      FirstSeenOfConstant(s[..|s| - 1], x);
    }
  }
}
