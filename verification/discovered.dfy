/** The records the analysis discovers and hands to the report, and the tagged item the
    report's processor queues (one case per `Enqueue` overload). */
module Discovered {
  import opened Wrappers
  import opened Utf16

  /** A public API declaration. */
  datatype DiscoveredApi = DiscoveredApi(
    api: Text,
    declarationUrl: Text,
    targetFramework: Text,
    excludeFromUnusedReport: bool)

  /** A reference to an API; `referenceUrl` is null for a reference in generated source. */
  datatype DiscoveredReference = DiscoveredReference(
    api: Text,
    apiVersion: Text,
    repository: Text,
    referencingSymbol: Text,
    referenceUrl: Option<Text>,
    targetFramework: Text)

  /** Where the current API declarations come from. */
  datatype DeclarationSource = DeclarationSource(repositoryUrl: Text, branch: Text, commit: Text)

  /** An item of the report's queue. The queue holds `object`s and the report throws on an
      unknown type, which the three `Enqueue` overloads make impossible; a closed sum has
      no fourth case. */
  datatype Item =
    | SourceItem(source: DeclarationSource)
    | ApiItem(api: DiscoveredApi)
    | ReferenceItem(reference: DiscoveredReference)
}
