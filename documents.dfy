/**
 * The LangChain `Document` the pipeline passes around: the chunk text plus the
 * metadata keys the core writes and reads. A missing key is `None`, so each
 * `metadata.get(key, default)` of the source is `GetOr(default)` here.
 */
module Documents {
  import opened Types
  import Text

  datatype Metadata = Metadata(
    page: Option<int>,          // 1-based page number
    source: Option<string>,     // file name of the PDF
    chunkIndex: Option<nat>,    // position of the chunk in the document's chunk list
    chunkLength: Option<nat>)   // number of characters of the chunk text

  datatype Document = Document(content: string, meta: Metadata)

  /** One nearest-neighbour hit: a document and its relevance score (1.0 is a perfect match). */
  datatype Hit = Hit(doc: Document, score: real)

  /** `f"{page}"` for `metadata.get("page", "?")`. */
  function PageText(doc: Document): string
  {
    match doc.meta.page
    case Some(p) => Text.IntToString(p)
    case None => "?"
  }

  /** `metadata.get("source", default)`. */
  function SourceOr(doc: Document, default: string): string
  {
    doc.meta.source.GetOr(default)
  }

  function DocsOf(hits: seq<Hit>): (docs: seq<Document>)
    ensures |docs| == |hits|
    ensures forall i :: 0 <= i < |hits| ==> docs[i] == hits[i].doc
  {
    seq(|hits|, i requires 0 <= i < |hits| => hits[i].doc)
  }

  /** The chunk texts of a list of documents, in order. */
  function Contents(docs: seq<Document>): (texts: seq<string>)
    ensures |texts| == |docs|
    ensures forall i :: 0 <= i < |docs| ==> texts[i] == docs[i].content
  {
    seq(|docs|, i requires 0 <= i < |docs| => docs[i].content)
  }

  lemma ContentsAppend(a: seq<Document>, b: seq<Document>)
    ensures Contents(a + b) == Contents(a) + Contents(b)
  {
  }

  function ScoresOf(hits: seq<Hit>): (scores: seq<real>)
    ensures |scores| == |hits|
    ensures forall i :: 0 <= i < |hits| ==> scores[i] == hits[i].score
  {
    seq(|hits|, i requires 0 <= i < |hits| => hits[i].score)
  }

  /** Scores never increase along the list (the order the backend returns its hits in). */
  ghost predicate DescendingByScore(hits: seq<Hit>)
  {
    forall i, j :: 0 <= i < j < |hits| ==> hits[i].score >= hits[j].score
  }
}
