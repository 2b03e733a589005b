/**
 * The alignment records the engine consumes, as an alignment-report parser would build them.
 * Parsing the report itself is not part of this model.
 */
module Blast {

  /** One high-scoring pair: 1-based target coordinates (either order), the two frames, the alignment length. */
  datatype Hsp = Hsp(hitFrom: int, hitTo: int, queryFrame: int, hitFrame: int, alignLen: int)

  /** One hit: the pipe-delimited target identifier, its accession and definition, and its HSPs. */
  datatype Hit = Hit(hitId: string, accession: string, definition: string, hsps: seq<Hsp>)

  /** One alignment report: the query length shared by all its hits, and the hits. */
  datatype Report = Report(queryLen: int, hits: seq<Hit>)
}
