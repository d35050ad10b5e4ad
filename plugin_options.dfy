/**
  The row plugin's three options (`layout`, `default_region`,
  `assigned_regions`) and the read-only getters over them. The row plugin's
  own getters and the `FieldsPluginOptions` wrapper read the same options in
  the same way, so both are modelled by the functions below.
 */
module PluginOptions {

  /** The plugin's stored options: the selected layout's id, the default
      region and the per-field region assignments. */
  datatype Options = Options(layout: string, defaultRegion: string, assignedRegions: map<string, string>)

  /** The options before anything is configured: every option is empty. */
  function DefaultOptions(): (o: Options)
    ensures GetLayout(o) == "" && GetDefaultRegion(o) == ""
    ensures forall fieldName :: GetAssignedRegion(o, fieldName) == ""
  {
    Options("", "", map[])
  }

  /** The machine name of the selected layout, exactly as stored. */
  function GetLayout(o: Options): (layout: string)
    ensures layout == o.layout
  {
    o.layout
  }

  /** The machine name of the default region, exactly as stored. */
  function GetDefaultRegion(o: Options): (region: string)
    ensures region == o.defaultRegion
  {
    o.defaultRegion
  }

  /** The region assigned to a field, or the empty string when the field has
      no entry in `assigned_regions`. */
  function GetAssignedRegion(o: Options, fieldName: string): (region: string)
    ensures fieldName in o.assignedRegions ==> region == o.assignedRegions[fieldName]
    ensures fieldName !in o.assignedRegions ==> region == ""
  {
    if fieldName in o.assignedRegions then o.assignedRegions[fieldName] else ""
  }
}
