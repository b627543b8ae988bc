/**
 * The metadata fetcher, without its transport: the HTTP exchange for each
 * project is a parameter, and only the mapping from a response to the
 * stored record is modelled.
 */
module Metadata {

  /** What the hosting API answered: a status code and the decoded JSON body. */
  datatype Response = Response(status: int, body: string)

  /** A project's metadata record: the API's body, or the error sentinel `{"error": ...}`. */
  datatype Record = Descriptor(body: string) | ErrorRecord(error: string)

  const NotFoundMessage: string := "Project not found"

  /** Status 200 keeps the body; every other status becomes the not-found sentinel. */
  function RecordFor(response: Response): (m: Record)
    ensures m.Descriptor? <==> response.status == 200
    ensures m.Descriptor? ==> m.body == response.body
    ensures m.ErrorRecord? ==> m.error == NotFoundMessage
  {
    if response.status == 200 then Descriptor(response.body) else ErrorRecord(NotFoundMessage)
  }

  /**
   * fetch_project_metadata: one record per requested name; `lookup` stands
   * for the GET request to the project's contents URL.
   */
  method FetchProjectMetadata(names: seq<string>, lookup: string -> Response)
    returns (metadata: map<string, Record>)
    ensures forall p :: p in metadata <==> p in names
    ensures forall p | p in metadata :: metadata[p] == RecordFor(lookup(p))
  {
    metadata := map[];
    for i := 0 to |names|
      invariant forall p :: p in metadata <==> p in names[..i]
      invariant forall p | p in metadata :: metadata[p] == RecordFor(lookup(p))
    {
      var project := names[i];
      metadata := metadata[project := RecordFor(lookup(project))];
    }
    assert names[..|names|] == names;
  }
}
