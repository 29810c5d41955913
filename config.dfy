/** The tunables of the pipeline, as one record with the program's defaults. */
module Config {

  datatype Settings = Settings(
    chunkSize: nat,        // maximal characters per chunk, handed to the splitter
    chunkOverlap: nat,     // characters shared by neighbouring chunks, handed to the splitter
    topK: nat,             // number of nearest neighbours asked of the backend
    minSimilarity: real)   // hits scoring below this are discarded

  /** chunk size 500, overlap 50, top-k 3, minimum similarity 0.3 */
  const Defaults: Settings := Settings(500, 50, 3, 0.3)
}
