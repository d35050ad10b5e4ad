# Layout fields row plugin: region assignment

This project models the core of the "Layout fields" Views row plugin, the
part that places each field of a result row into a region of a layout. The
model is written in Dafny and its properties are proved.

- **Options.** The plugin stores three options:
  - `layout`, the id of the selected layout;
  - `default_region`;
  - `assigned_regions`, which maps a field name to a region name.

  The getters read them as they are. A field with no entry in
  `assigned_regions` reads as assigned to `""` (`PluginOptions`).
- **Region assignment.** The region map is built by walking the view's
  fields in order.
  - A field goes to its assigned region when the selected layout has that
    region.
  - Otherwise it goes to the default region, which is never checked itself.
  - The field is then appended under that region key, and the region's
    bucket is created on first use (`RegionAssignment`).
  - PHP's ordered arrays are sequences of key/value pairs with
    insertion-order semantics (`OrderedMap`). `$a[$k] = $v` is `Put`: it
    overwrites in place when the key is present and appends otherwise.
  - The loop is specified by the fold `Resolve`. The independent reference
    definition is `Grouping`: regions in the order they are first targeted,
    each holding the fields that target it, in field order.
  - `ResolveIsGrouping` proves the two equal. From it follow:
    - every field lands in exactly one bucket, its target's;
    - no other name appears in any bucket;
    - a valid assignment is honoured, and the default region is used
      otherwise;
    - buckets keep field order;
    - regions appear in first-targeted order.
- **The row plugin** (`FieldsRow.Fields`) is a class over a `View` object
  whose `field` list rendering reads. It has four operations:
  - it regenerates the cached region map only while that map is empty;
  - it renders each non-empty bucket by narrowing `view.field` to the
    bucket and restoring the list afterwards;
  - it drops regions whose rendering gave no markup, which models the
    no-markup-generated exception as `None`;
  - it hands the rendered regions to the layout unless there are none.
- **The stand-alone `RegionMap` class** (`RegionMaps.RegionMap`) builds the
  same map in its constructor and returns it from `getMap`.

The region names of the selected layout are a parameter, `regionNames`,
because they come from the layout plugin manager. Field definitions have an
opaque type `D`. Rendering a row with a given field list is a function
value, `Renderer<D>`, from that list to markup. The empty string means that
no markup was generated.

Lemmas about the region map require `DistinctKeys(fields)`. That condition
is not a precondition of the plugin: `view->field` is a PHP array, so its
keys are distinct. The methods themselves require nothing.

## Model

| member | source | states |
|---|---|---|
| PluginOptions.DefaultOptions | src/Plugin/views/row/Fields.php:62-71 | Unconfigured options: the layout and default region are `""`, and every field's assigned region reads as `""`. |
| PluginOptions.GetLayout | src/FieldsPluginOptions.php:28-30 | Returns exactly the stored `layout` option. It is a function, so it changes nothing. It also models `getSelectedLayoutMachineName` (Fields.php:126-128). |
| PluginOptions.GetDefaultRegion | src/FieldsPluginOptions.php:37-39 | Returns exactly the stored `default_region` option. It also models `getDefaultRegionMachineName` (Fields.php:144-146). |
| PluginOptions.GetAssignedRegion | src/FieldsPluginOptions.php:50-57 | Returns the configured region when `assigned_regions` has an entry for the field, and `""` when it has none. It also models `getAssignedRegionMachineName` (Fields.php:157-164). |
| RegionAssignment.TargetRegion | src/Plugin/views/row/Fields.php:280 | The chosen region is either a region of the layout or the default region. A field without an entry gets the default, or `""` when the layout has a region `""`. |
| RegionAssignment.Assign | src/Plugin/views/row/Fields.php:281 | `$map[$region][$field] = $def` (also RegionMap.php:40): the region key is kept in place or appended at the end. Afterwards the region's bucket maps the field to the definition. A new bucket holds only that field. An existing bucket keeps its other entries and order, gaining the field at its end if it was absent. Other regions are unchanged, and distinct keys stay distinct. |
| RegionAssignment.AssignToNewRegion | src/Plugin/views/row/Fields.php:281 | `$map[$region][$field] = $def` for a region with no bucket yet appends a new one-field bucket at the end of the map. |
| RegionAssignment.AssignToKnownRegion | src/Plugin/views/row/Fields.php:281 | The same assignment for an existing region appends the field to the end of that region's bucket, in place. |
| RegionAssignment.Resolve | src/Plugin/views/row/Fields.php:277-283 | The map the loop builds is empty exactly when the field list is empty. |
| RegionAssignment.ResolveExtend | src/Plugin/views/row/Fields.php:279-282 | One more loop iteration applies exactly one assignment of the next field to its target region. |
| RegionAssignment.Grouping | src/Plugin/views/row/Fields.php:277-283 | The reference map's region keys are the targeted regions, distinct and in first-seen order. |
| RegionAssignment.ResolveIsGrouping | src/Plugin/views/row/Fields.php:277-283 | The loop's map equals the reference grouping: regions in first-targeted order, each with exactly the fields that target it, in field order. |
| RegionAssignment.ResolvePartitionsFields | src/Plugin/views/row/Fields.php:277-283 | Region keys are distinct and no bucket is empty. Every bucket holds only fields of the view that target its region, and every field sits in its target's bucket. |
| RegionAssignment.FieldInExactlyOneBucket | src/Plugin/views/row/Fields.php:277-283 | Every field name is in some bucket. It is in a bucket exactly when that bucket's region is its target, so it is in exactly one bucket. |
| RegionAssignment.NoStrayFieldNames | src/Plugin/views/row/Fields.php:277-283 | Every name in any bucket is a field name of the view. |
| RegionAssignment.ValidAssignmentIsHonoured | src/Plugin/views/row/Fields.php:303-316 | A field whose assigned region is a region of the selected layout is placed under that region. |
| RegionAssignment.OtherFieldsGoToDefaultRegion | src/Plugin/views/row/Fields.php:280 | A field whose assignment is not a layout region is placed under the default region, even when the layout lacks that region too. |
| RegionAssignment.UnassignedFieldPlacement | src/Plugin/views/row/Fields.php:157-164 | A field with no entry is placed under `""` when the layout has a region `""`, and under the default region otherwise. |
| RegionAssignment.BucketsKeepFieldOrder | src/Plugin/views/row/Fields.php:279-281 | Every bucket is a subsequence of the view's field list, so fields keep their relative order. |
| RegionAssignment.RegionsInFirstTargetedOrder | src/Plugin/views/row/Fields.php:279-281 | The map's keys are exactly the targeted regions. They are ordered by the first field that targets each one. |
| RegionAssignment.UnsetRegionsUseOneRegion | src/Plugin/views/row/Fields.php:62-71 | With the default region and the assignments unset, whatever the layout, any non-empty field list becomes a single region `""` holding all fields in order. |
| FieldsRow.MarkupOrNothing | src/Plugin/views/row/Fields.php:235-238 | Markup counts as not generated (`None`) exactly when it is empty. Otherwise it is returned as is. |
| FieldsRow.RenderedRegions | src/Plugin/views/row/Fields.php:184-198 | The result of the foreach over the region map. Its own contract states only that at most one region is rendered per map entry. Its meaning is fixed by the three lemmas `RenderedRegionsInMapOrder`, `RenderedRegionsMembership` and `RenderedRegionsMarkup`. |
| FieldsRow.RenderedRegionsInMapOrder | src/Plugin/views/row/Fields.php:184-198 | The rendered regions have distinct keys, and their keys are a subsequence of the region map's keys. |
| FieldsRow.RenderedRegionsMembership | src/Plugin/views/row/Fields.php:186-194 | A region of the map is rendered exactly when its bucket is non-empty and rendering that bucket produced markup. Empty buckets and no-markup regions are left out without error. |
| FieldsRow.RenderedRegionsMarkup | src/Plugin/views/row/Fields.php:189 | Each rendered region holds the markup of rendering exactly its own bucket. |
| FieldsRow.RenderedKeysFromMap | src/Plugin/views/row/Fields.php:184-198 | Every rendered region is a key of the region map. |
| FieldsRow.RenderedRowRegions | src/Plugin/views/row/Fields.php:169-198 | For a generated map, a region is rendered exactly when some field targets it and its fields render to non-empty markup. |
| FieldsRow.BuildLayoutRenderArray | src/Plugin/views/row/Fields.php:328-335 | The regions are passed on unchanged. A layout, the selected one, is built exactly when some region was rendered, so empty input comes back as it is. |
| FieldsRow.Fields.GenerateRegionMap | src/Plugin/views/row/Fields.php:277-283 | The loop leaves `regionMap` equal to `Resolve` of the view's fields, whatever it held before. Only `regionMap` changes. |
| FieldsRow.Fields.GetRegionMap | src/Plugin/views/row/Fields.php:266-272 | A non-empty cached map is returned unchanged. An empty one is regenerated, and stays empty only when the view has no fields. The result is the cached map. |
| FieldsRow.Fields.RenderFields | src/Plugin/views/row/Fields.php:210-239 | The markup is that of rendering exactly the bucket. The view's original field list is restored whether or not markup was produced. The result is `None` exactly for empty markup. |
| FieldsRow.Fields.RenderFieldsIntoRegions | src/Plugin/views/row/Fields.php:184-198 | The loop's result equals `RenderedRegions` of the map, and the view's field list ends as it started. |
| FieldsRow.Fields.Render | src/Plugin/views/row/Fields.php:169-173 | The result is the layout render array of the regions rendered from the cached or newly generated map. The view's field list is unchanged. |
| RegionMaps.RegionMap.constructor | src/RegionMap.php:27-31 | Construction generates the map at once: it equals `Resolve` of the plugin's view fields and options. |
| RegionMaps.RegionMap.GetMap | src/RegionMap.php:23-25 | Returns the stored map and modifies nothing. |
| RegionMaps.RegionMap.GenerateRegionMap | src/RegionMap.php:36-42 | The map is reset and rebuilt, ending equal to `Resolve` of the plugin's fields. It does not depend on the map's previous value, so a second call on unchanged inputs gives the same map. |

`SelectedLayoutHasRegion` (Fields.php:314-316, RegionMap.php:62-64) and
`FieldHasValidAssignment` (Fields.php:303-305, RegionMap.php:51-53) are
predicates used by `TargetRegion` and by both `GenerateRegionMap` loops.
The remaining lemmas (`GroupingStep`, `ResolveStep`, `FirstSeenOrder` and
the like) are proof steps.

## Left out

- Building the options form (`buildOptionsForm`, Fields.php:76-119): this is settings-form UI. Its fallback to the first layout is UI only.
- `create` and the plugin constructor (Fields.php:47-57): these are dependency-injection wiring and parent-class calls.
- The framework rendering (`executeInRenderContext`, `parent::render`, `$renderer->render`, Fields.php:221-230): this becomes the function value `render` applied to the narrowed field list.
- FieldsRow.Fields.RenderFields: an exception thrown by the renderer itself is not modelled. In the source that path would skip the restore at Fields.php:233, because the restore is not in a `finally` block. In the model the renderer always returns normally.
- FieldsRow.Fields.RenderFields: the renderer is a function of the field list it is given. The contract therefore states which list is rendered, not that the framework reads it from the narrowed `view.field`. The method still narrows and restores `view.field` as the source does.
- The layout plugin manager (`getDefinition`, `createInstance`, `->build`): these are calls into another library. The layout's region names are the parameter `regionNames`.
- FieldsRow.BuildLayoutRenderArray: states only which layout is built and from which regions. What the layout's `build` returns is opaque and is represented by `Built(layout, regions)`.
- `getSelectedLayoutDefinition` and `getRegionNamesForSelectedLayout` (Fields.php:135-137 and 290-294, RegionMap.php:71-75): these are replaced by the `regionNames` parameter. RegionMap.php:72 calls `getSelectedLayoutDefinition` on `FieldsPluginOptions`, which does not define it. The model does not follow the call into a missing method; it passes the region set instead.
- The layout lookup for an unknown layout id: `getDefinition` (Fields.php:135-137) throws, and `generateRegionMap` reaches it for every field through Fields.php:280, 304, 315 and 291. That includes the default layout id `""`. The model presumes that the selected layout exists and that `regionNames` is its region set. No map is built when the lookup throws.
- PHP's loose `in_array` comparison (Fields.php:315, RegionMap.php:63): the model uses exact string-set membership.
- PHP's `empty()` on markup: the model treats only the empty string as no markup. `empty("0")` and markup objects are not modelled, and `#markup` is kept as a plain string.
- `isset` on an entry whose value is `null`: an entry of `assigned_regions` is either a string or absent.
- RegionMaps.RegionMap: reads its options through `FieldsPluginOptions`. In the model that wrapper wraps the same plugin, so the options are `plugin.options`.
- `NoMarkupGeneratedException` (src/Plugin/views/row/NoMarkupGeneratedException.php): it holds no logic. It is the `None` case of `MarkupOrNothing`.
