/**
 The fixed region catalog: for each region label the incidence export and
 the RR-TB prevalence export, and the labels the region selector offers.
 */
module Catalog {
  import opened Wrappers

  /** The two source files of one region. */
  datatype Sources = Sources(incidence: string, rr: string)

  const DataFiles: map<string, Sources> := map[
    "Global" := Sources(
      "GTB_report_2025_incidence.csv",
      "GTB_report_2025_RR_prevalence.csv"),
    "WHO African Region" := Sources(
      "African_region_report_2025_incidence.csv",
      "African_region_report_2025_RR_prevalence.csv"),
    "WHO/PAHO Region of the Americas" := Sources(
      "Region_of_the_Americas_report_2025_incidence.csv",
      "Region_of_the_Americas_report_2025_RR_prevalence.csv"),
    "WHO Eastern Mediterranean Region" := Sources(
      "Eastern_Mediterranean_region_report_2025_incidence.csv",
      "Eastern_Mediterranean_region_report_2025_RR_prevalence.csv"),
    "WHO European Region" := Sources(
      "European_region_report_2025_incidence.csv",
      "European_region_report_2025_RR_prevalence.csv"),
    "WHO South-East Asia Region" := Sources(
      "South_East_Asia_Region_report_2025_incidence.csv",
      "South_East_Asia_Region_report_2025_RR_prevalence.csv"),
    "WHO Western Pacific Region" := Sources(
      "Western_Pacific_Region_report_2025_incidence.csv",
      "Western_Pacific_Region_report_2025_RR_prevalence.csv")
  ]

  /** The choices of the region selector, in display order. */
  const RegionOptions: seq<string> := [
    "Global",
    "WHO African Region",
    "WHO/PAHO Region of the Americas",
    "WHO Eastern Mediterranean Region",
    "WHO European Region",
    "WHO South-East Asia Region",
    "WHO Western Pacific Region"
  ]

  /** `DATA_FILES.get(region_key)`. */
  function Lookup(key: string): (r: Option<Sources>)
    ensures r.Some? <==> key in DataFiles
    ensures r.Some? ==> r.value == DataFiles[key]
  {
    if key in DataFiles then Some(DataFiles[key]) else None
  }

  /** Every selector choice names a catalog entry, once, and every entry is
      offered; each entry names two different, non-empty files. */
  lemma SelectorMatchesCatalog()
    ensures forall i :: 0 <= i < |RegionOptions| ==> Lookup(RegionOptions[i]).Some?
    ensures forall i, j :: 0 <= i < j < |RegionOptions| ==> RegionOptions[i] != RegionOptions[j]
    ensures forall key :: key in DataFiles ==> key in RegionOptions
    ensures forall key :: key in DataFiles ==>
      DataFiles[key].incidence != "" && DataFiles[key].rr != "" && DataFiles[key].incidence != DataFiles[key].rr
  {
  }
}
