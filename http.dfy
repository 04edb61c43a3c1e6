/** The JSON envelope every candidate endpoint and the error handler answer with. */
module Http {
  import opened Basics
  import opened CandidateSchema

  /** A page descriptor `{page, limit}`. */
  datatype PageRef = PageRef(page: int, limit: int)

  /** The `pagination` object: `next` and `prev` are each present or not. */
  datatype Pagination = Pagination(next: Option<PageRef>, prev: Option<PageRef>)

  /** What the envelope carries beside `success`. */
  datatype Body =
    | Listing(count: nat, pagination: Pagination, data: seq<Candidate>)
    | SearchListing(count: nat, pagination: Pagination, total: nat, data: seq<Candidate>)
    | Record(candidate: Candidate)
    | NoData
    | Uploaded(fileName: string, filePath: string)
    | Message(text: string)
    | Messages(texts: seq<string>)

  /** An HTTP status with its JSON envelope `{success, ...}`. */
  datatype Response = Response(status: int, success: bool, body: Body)

  /** What every controller answers when an operation throws. */
  const ServerError := Response(500, false, Message("Server Error"))
}
