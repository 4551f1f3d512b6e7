/**
 * The values the data table works with: the rows the artworks provider
 * returns, and the outcome of one page request as the component sees it
 * once the network call and the JSON parse are over.
 */
module Records {

  datatype Option<+T> = None | Some(value: T)

  /** Record identities, as kept in the selection set. */
  type RecordId = string

  /**
   * One row of the table. Identity is `id` alone; the display columns
   * (title, place of origin, artist, inscriptions, dates) are carried
   * uninterpreted.
   */
  datatype Row = Row(id: RecordId, attributes: map<string, string>)

  /** The `pagination` object of a response body; only `total` is read. */
  datatype Pagination = Pagination(total: int)

  /**
   * What one page request ends with: either it threw (network failure,
   * unparsable body), or it produced a body whose `data` array and
   * `pagination` object may each be missing.
   */
  datatype FetchOutcome =
    | FetchFailed
    | Body(data: Option<seq<Row>>, pagination: Option<Pagination>)

  /** The body carries at least one row: the only case that replaces the table. */
  predicate HasRows(outcome: FetchOutcome)
  {
    outcome.Body? && outcome.data.Some? && |outcome.data.value| > 0
  }
}
