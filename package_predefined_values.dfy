/** The package's predefined_values module: it holds the severity list and nothing
    else; in particular it defines no section-type registry. */
module PackagePredefinedValues {
  import opened Results
  import PredefinedValues

  const ErrorSeverity: seq<string> := [
    "Recoverable (also called non-fatal uncorrected)",
    "Fatal",
    "Corrected",
    "Informational"
  ]

  /** The registry the package's printer asks for: absent. */
  const SectionTypes: Option<map<string, PredefinedValues.SectionType>> := None

  /** The package list is the root list, name for name: four names, indexed 0 to 3. */
  lemma SameSeverityNames()
    ensures ErrorSeverity == PredefinedValues.ErrorSeverity
    ensures |ErrorSeverity| == 4 && ErrorSeverity[1] == "Fatal"
  {
    PredefinedValues.SeverityTable();
  }
}
