/**
  The "Layout fields" row plugin: renders one result row of a view by placing
  each field into a region of the selected layout. The plugin caches the
  region map, renders region by region by narrowing the view's field list to
  one bucket at a time, and hands the rendered regions to the layout.
 */
module FieldsRow {
  import opened Wrappers
  import opened OrderedMap
  import opened PluginOptions
  import opened RegionAssignment

  /** The view the plugin belongs to; `field` is its ordered list of field
      handlers, keyed by field name, which rendering reads. */
  class View<D> {
    var field: seq<(string, D)>

    constructor (field: seq<(string, D)>)
      ensures this.field == field
    {
      this.field := field;
    }
  }

  /** Rendering the current row with a given visible field list: the row
      plugin's parent rendering followed by the framework renderer, run in a
      render context of its own. Its result is the produced markup. */
  type Renderer<!D> = seq<(string, D)> -> string

  /** Empty markup means nothing was rendered, which the plugin reports as
      "no markup generated" (`None`). */
  function MarkupOrNothing(markup: string): (r: Option<string>)
    ensures r.None? <==> markup == ""
    ensures r.Some? ==> r.value == markup
  {
    if markup == "" then None else Some(markup)
  }

  /** What rendering every region of `regionMap` yields: each region with a
      non-empty bucket whose rendering produced markup, keyed by region. */
  function RenderedRegions<D>(render: Renderer<D>, regionMap: seq<(string, seq<(string, D)>)>): (build: seq<(string, string)>)
    ensures |build| <= |regionMap|
    decreases |regionMap|
  {
    if regionMap == [] then []
    else
      var (region, fieldsToRender) := regionMap[|regionMap| - 1];
      var build := RenderedRegions(render, regionMap[..|regionMap| - 1]);
      if fieldsToRender == [] then build
      else
        match MarkupOrNothing(render(fieldsToRender))
        case Some(markup) => Put(build, region, markup)
        case None => build
  }

  /** The regions rendered from the first `i + 1` entries of `regionMap`:
      those of the first `i`, plus entry `i` when its bucket renders to markup. */
  lemma RenderedRegionsPrefix<D>(render: Renderer<D>, regionMap: seq<(string, seq<(string, D)>)>, i: nat)
    requires i < |regionMap|
    ensures var (region, fieldsToRender) := regionMap[i];
      var before := RenderedRegions(render, regionMap[..i]);
      RenderedRegions(render, regionMap[..i + 1]) ==
        if fieldsToRender == [] then before
        else match MarkupOrNothing(render(fieldsToRender))
          case Some(markup) => Put(before, region, markup)
          case None => before
  {
    assert regionMap[..i + 1][..i] == regionMap[..i];
  }

  /** One region more: it is appended when its bucket is non-empty and
      renders to markup, and it was not among the regions rendered before. */
  lemma RenderedRegionsStep<D>(render: Renderer<D>, regionMap: seq<(string, seq<(string, D)>)>)
    requires regionMap != [] && DistinctKeys(regionMap)
    ensures var n := |regionMap|;
      var (region, fieldsToRender) := regionMap[n - 1];
      var before := RenderedRegions(render, regionMap[..n - 1]);
      && region !in Keys(before)
      && RenderedRegions(render, regionMap)
         == if fieldsToRender != [] && render(fieldsToRender) != "" then before + [(region, render(fieldsToRender))] else before
  {
    var n := |regionMap|;
    var prefix := regionMap[..n - 1];
    var region := regionMap[n - 1].0;
    RenderedKeysFromMap(render, prefix);
    assert forall j :: 0 <= j < n - 1 ==> Keys(prefix)[j] == regionMap[j].0 != region;
  }

  /** The rendered regions are distinct and come in the region map's order. */
  lemma {:induction false} RenderedRegionsInMapOrder<D>(render: Renderer<D>, regionMap: seq<(string, seq<(string, D)>)>)
    requires DistinctKeys(regionMap)
    ensures var build := RenderedRegions(render, regionMap);
      DistinctKeys(build) && IsSubsequence(Keys(build), Keys(regionMap))
    decreases |regionMap|
  {
    if regionMap != [] {
      var n := |regionMap|;
      var prefix := regionMap[..n - 1];
      var before := RenderedRegions(render, prefix);
      var build := RenderedRegions(render, regionMap);
      RenderedRegionsInMapOrder(render, prefix);
      RenderedRegionsStep(render, regionMap);
      assert Keys(regionMap)[..n - 1] == Keys(prefix);
      if build != before {
        assert Keys(build) == Keys(before) + [regionMap[n - 1].0];
        assert Keys(build)[..|Keys(build)| - 1] == Keys(before);
      }
    }
  }

  /** A region of the map is rendered exactly when its bucket is non-empty and
      its rendering produced markup: empty buckets are skipped and regions
      without markup are left out. */
  lemma {:induction false} RenderedRegionsMembership<D>(render: Renderer<D>, regionMap: seq<(string, seq<(string, D)>)>)
    requires DistinctKeys(regionMap)
    ensures var build := RenderedRegions(render, regionMap);
      forall i :: 0 <= i < |regionMap| ==>
        (regionMap[i].0 in Keys(build) <==> regionMap[i].1 != [] && render(regionMap[i].1) != "")
    decreases |regionMap|
  {
    if regionMap != [] {
      var n := |regionMap|;
      var prefix := regionMap[..n - 1];
      var build := RenderedRegions(render, regionMap);
      RenderedRegionsMembership(render, prefix);
      RenderedRegionsStep(render, regionMap);
      forall i | 0 <= i < n ensures regionMap[i].0 in Keys(build) <==> regionMap[i].1 != [] && render(regionMap[i].1) != "" {
        if i < n - 1 {
          assert regionMap[i] == prefix[i] && regionMap[i].0 != regionMap[n - 1].0;
        }
      }
    }
  }

  /** Each rendered region holds the markup its bucket rendered to. */
  lemma {:induction false} RenderedRegionsMarkup<D>(render: Renderer<D>, regionMap: seq<(string, seq<(string, D)>)>)
    requires DistinctKeys(regionMap)
    ensures var build := RenderedRegions(render, regionMap);
      forall i :: 0 <= i < |regionMap| && regionMap[i].0 in Keys(build) ==>
        Get(build, regionMap[i].0) == render(regionMap[i].1)
    decreases |regionMap|
  {
    if regionMap != [] {
      var n := |regionMap|;
      var prefix := regionMap[..n - 1];
      var (region, fieldsToRender) := regionMap[n - 1];
      var before := RenderedRegions(render, prefix);
      var build := RenderedRegions(render, regionMap);
      RenderedRegionsMarkup(render, prefix);
      RenderedRegionsStep(render, regionMap);
      if build == before {
        forall i | 0 <= i < n && regionMap[i].0 in Keys(build) ensures Get(build, regionMap[i].0) == render(regionMap[i].1) {
          assert i < n - 1 && regionMap[i] == prefix[i];
        }
      } else {
        RenderedMarkupAdded(render, regionMap);
      }
    }
  }

  /** The step of RenderedRegionsMarkup when the last region is rendered. */
  lemma RenderedMarkupAdded<D>(render: Renderer<D>, regionMap: seq<(string, seq<(string, D)>)>)
    requires DistinctKeys(regionMap) && regionMap != []
    requires var prefix := regionMap[..|regionMap| - 1];
      var before := RenderedRegions(render, prefix);
      forall i :: 0 <= i < |prefix| && prefix[i].0 in Keys(before) ==> Get(before, prefix[i].0) == render(prefix[i].1)
    requires RenderedRegions(render, regionMap) != RenderedRegions(render, regionMap[..|regionMap| - 1])
    ensures var build := RenderedRegions(render, regionMap);
      forall i :: 0 <= i < |regionMap| && regionMap[i].0 in Keys(build) ==>
        Get(build, regionMap[i].0) == render(regionMap[i].1)
  {
    var n := |regionMap|;
    var prefix := regionMap[..n - 1];
    var (region, fieldsToRender) := regionMap[n - 1];
    var before := RenderedRegions(render, prefix);
    var build := RenderedRegions(render, regionMap);
    assert build == Put(before, region, render(fieldsToRender)) by {
      RenderedRegionsStep(render, regionMap);
      PutAbsent(before, region, render(fieldsToRender));
    }
    forall i | 0 <= i < n && regionMap[i].0 in Keys(build) ensures Get(build, regionMap[i].0) == render(regionMap[i].1) {
      if i < n - 1 {
        assert regionMap[i] == prefix[i] && regionMap[i].0 != region;
        assert regionMap[i].0 in Keys(before);
      }
    }
  }

  /** Every rendered region is a region of the region map. */
  lemma {:induction false} RenderedKeysFromMap<D>(render: Renderer<D>, regionMap: seq<(string, seq<(string, D)>)>)
    ensures forall region :: region in Keys(RenderedRegions(render, regionMap)) ==> region in Keys(regionMap)
    decreases |regionMap|
  {
    if regionMap != [] {
      var n := |regionMap|;
      var prefix := regionMap[..n - 1];
      RenderedKeysFromMap(render, prefix);
      assert Keys(regionMap) == Keys(prefix) + [regionMap[n - 1].0];
    }
  }

  /** For a row's generated region map, a region ends up rendered exactly
      when some field targets it and the fields targeting it render to
      markup: the generated map has no empty bucket to skip. */
  lemma RenderedRowRegions<D>(render: Renderer<D>, fields: seq<(string, D)>, o: Options, regionNames: set<string>)
    requires DistinctKeys(fields)
    ensures var build := RenderedRegions(render, Resolve(fields, o, regionNames));
      forall region :: region in Keys(build) <==>
        region in Targets(fields, o, regionNames) && render(FieldsFor(fields, o, regionNames, region)) != ""
  {
    var m := Resolve(fields, o, regionNames);
    var build := RenderedRegions(render, m);
    ResolvePartitionsFields(fields, o, regionNames);
    RegionsInFirstTargetedOrder(fields, o, regionNames);
    RenderedKeysFromMap(render, m);
    RenderedRegionsMembership(render, m);
    forall region | region in Keys(m)
      ensures region in Keys(build) <==> render(FieldsFor(fields, o, regionNames, region)) != ""
    {
      var i := IndexOf(m, region);
      assert m[i].1 == FieldsFor(fields, o, regionNames, region) by {
        ResolveIsGrouping(fields, o, regionNames);
        GroupingBucket(fields, o, regionNames, region);
      }
    }
  }

  /** A layout's render array: either the rendered regions left as they are,
      or the selected layout (named by its id) built from them. */
  datatype LayoutRenderArray =
    | Unbuilt(regions: seq<(string, string)>)
    | Built(layout: string, regions: seq<(string, string)>)

  /** The render array for the rendered regions: no layout is created when
      nothing was rendered, and the empty input comes back as it is. */
  function BuildLayoutRenderArray(o: Options, renderedRegions: seq<(string, string)>): (r: LayoutRenderArray)
    ensures r.regions == renderedRegions
    ensures r.Built? <==> renderedRegions != []
    ensures r.Built? ==> r.layout == GetLayout(o)
  {
    if renderedRegions != [] then Built(GetLayout(o), renderedRegions)
    else Unbuilt(renderedRegions)
  }

  /** The row plugin. */
  class Fields<D> {
    const view: View<D>
    var options: Options
    /** The cached region map; empty until generated. */
    var regionMap: seq<(string, seq<(string, D)>)>

    constructor (view: View<D>, options: Options)
      ensures this.view == view && this.options == options && regionMap == []
    {
      this.view := view;
      this.options := options;
      regionMap := [];
    }

    /** Rebuilds the region map from the view's fields: each field goes to
        its assigned region when the selected layout has that region, to the
        default region otherwise. `regionNames` are the region names of the
        selected layout. */
    method GenerateRegionMap(regionNames: set<string>)
      modifies this`regionMap
      ensures regionMap == Resolve(view.field, options, regionNames)
    {
      var fields := view.field;
      regionMap := [];
      var i := 0;
      while i < |fields|
        invariant 0 <= i <= |fields|
        invariant regionMap == Resolve(fields[..i], options, regionNames)
      {
        var (fieldName, definition) := fields[i];
        var region := if FieldHasValidAssignment(options, regionNames, fieldName)
                      then GetAssignedRegion(options, fieldName)
                      else GetDefaultRegion(options);
        ResolveExtend(fields, options, regionNames, i);
        regionMap := Assign(regionMap, region, fieldName, definition);
        i := i + 1;
      }
      assert fields[..|fields|] == fields;
    }

    /** The region map, generated only while the cached one is empty. */
    method GetRegionMap(regionNames: set<string>) returns (m: seq<(string, seq<(string, D)>)>)
      modifies this`regionMap
      ensures old(regionMap) != [] ==> regionMap == old(regionMap)
      ensures old(regionMap) == [] ==> regionMap == Resolve(view.field, options, regionNames)
      ensures old(regionMap) == [] ==> (regionMap == [] <==> view.field == [])
      ensures m == regionMap
    {
      if regionMap == [] {
        GenerateRegionMap(regionNames);
      }
      m := regionMap;
    }

    /** Renders one bucket: the view's field list is narrowed to exactly
        `fieldsToRender` while the renderer runs and is restored afterwards,
        whether or not markup was produced. `None` stands for "no markup
        generated". */
    method RenderFields(render: Renderer<D>, fieldsToRender: seq<(string, D)>)
      returns (markup: Option<string>)
      modifies view
      ensures view.field == old(view.field)
      ensures markup == MarkupOrNothing(render(fieldsToRender))
    {
      var originalFields := view.field;
      view.field := fieldsToRender;
      var rendered := render(view.field);
      view.field := originalFields;
      markup := MarkupOrNothing(rendered);
    }

    /** Renders every non-empty bucket of `regionMap`, keeping the regions
        that produced markup, in the map's order. */
    method RenderFieldsIntoRegions(render: Renderer<D>, regionMap: seq<(string, seq<(string, D)>)>)
      returns (build: seq<(string, string)>)
      modifies view
      ensures view.field == old(view.field)
      ensures build == RenderedRegions(render, regionMap)
    {
      build := [];
      var i := 0;
      while i < |regionMap|
        invariant 0 <= i <= |regionMap|
        invariant view.field == old(view.field)
        invariant build == RenderedRegions(render, regionMap[..i])
      {
        var (region, fieldsToRender) := regionMap[i];
        if fieldsToRender != [] {
          var markup := RenderFields(render, fieldsToRender);
          if markup.Some? {
            build := Put(build, region, markup.value);
          }
        }
        assert build == RenderedRegions(render, regionMap[..i + 1]) by {
          RenderedRegionsPrefix(render, regionMap, i);
        }
        i := i + 1;
      }
      assert regionMap[..|regionMap|] == regionMap;
    }

    /** Renders the row: the (cached) region map, then the regions, then the layout. */
    method Render(render: Renderer<D>, regionNames: set<string>) returns (r: LayoutRenderArray)
      modifies this`regionMap, view
      ensures view.field == old(view.field)
      ensures old(regionMap) != [] ==> regionMap == old(regionMap)
      ensures old(regionMap) == [] ==> regionMap == Resolve(view.field, options, regionNames)
      ensures r == BuildLayoutRenderArray(options, RenderedRegions(render, regionMap))
    {
      var m := GetRegionMap(regionNames);
      var build := RenderFieldsIntoRegions(render, m);
      r := BuildLayoutRenderArray(options, build);
    }
  }
}
