/** The records the core passes between the search endpoints and the store:
    the structured filter spec and one compiled search query. */
module SearchSpecs {

  /** A filter spec (`spec_json`). A field the stored JSON lacks or holds as
      `null` reads as the empty sequence (or the empty `location`), which is
      how every core function treats it. */
  datatype SearchSpec = SearchSpec(
    companies: seq<string>,
    jobTitles: seq<string>,
    locations: seq<string>,
    location: string,
    keywords: seq<string>,
    exclusions: seq<string>,
    rankingCriteria: seq<string>)

  /** The spec with every field empty. */
  const EmptySpec := SearchSpec([], [], [], "", [], [], [])

  /** One compiled search query record. */
  datatype Query = Query(queryType: string, queryLabel: string, queryText: string)
}
