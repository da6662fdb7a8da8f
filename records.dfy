/** The one persisted entity: a publication record as written to the JSON array. */
module Records {

  /** The `type` tag of a record: the bibliography section the item sat in. */
  datatype PubType = Journal | Book

  /**
   * One entry of the output array. `year` is 0 when no year was found;
   * `doi` and `note` are empty when absent. The JSON key `type` is the
   * field `kind` here, since `type` is a reserved word.
   */
  datatype Publication = Publication(
    year: int,
    title: string,
    authors: string,
    venue: string,
    doi: string,
    note: string,
    kind: PubType)
}
