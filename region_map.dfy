/**
  The stand-alone region map: the same assignment as the row plugin's, built
  as soon as the object is constructed and reading the plugin's options
  through the `FieldsPluginOptions` getters.
 */
module RegionMaps {
  import opened PluginOptions
  import opened RegionAssignment
  import opened FieldsRow

  class RegionMap<D> {
    /** The row plugin whose view's fields are placed; its options are the
        ones the plugin-options getters read. */
    const plugin: Fields<D>
    var regionMap: seq<(string, seq<(string, D)>)>

    /** Builds the map straight away. `regionNames` are the region names of
        the selected layout. */
    constructor (plugin: Fields<D>, regionNames: set<string>)
      ensures this.plugin == plugin
      ensures regionMap == Resolve(plugin.view.field, plugin.options, regionNames)
    {
      this.plugin := plugin;
      regionMap := [];
      new;
      GenerateRegionMap(regionNames);
    }

    /** The stored map, unchanged. */
    method GetMap() returns (m: seq<(string, seq<(string, D)>)>)
      ensures m == regionMap
    {
      m := regionMap;
    }

    /** Rebuilds the map from scratch: what it held before plays no part, so
        calling it again on unchanged inputs gives the same map. */
    method GenerateRegionMap(regionNames: set<string>)
      modifies this`regionMap
      ensures regionMap == Resolve(plugin.view.field, plugin.options, regionNames)
    {
      var fields := plugin.view.field;
      var pluginOptions := plugin.options;
      regionMap := [];
      var i := 0;
      while i < |fields|
        invariant 0 <= i <= |fields|
        invariant regionMap == Resolve(fields[..i], pluginOptions, regionNames)
      {
        var (fieldName, definition) := fields[i];
        var region := if FieldHasValidAssignment(pluginOptions, regionNames, fieldName)
                      then GetAssignedRegion(pluginOptions, fieldName)
                      else GetDefaultRegion(pluginOptions);
        ResolveExtend(fields, pluginOptions, regionNames, i);
        regionMap := Assign(regionMap, region, fieldName, definition);
        i := i + 1;
      }
      assert fields[..|fields|] == fields;
    }
  }
}
