# A verified model of a PDF question-answering pipeline's retrieval core

The modelled program reads a PDF and cuts it into chunks. It indexes the chunks in a vector database. To answer a question it fetches the most similar chunks, removes near-duplicates, and hands the language model a numbered context along with page references. This project models in Dafny the logic the program writes itself:

- **Text cleaning and chunk bookkeeping** (`pdf_processor.py`, module `PdfProcessing`):
  - collapsing runs of newlines, and stripping lines and the whole text;
  - removing soft hyphens;
  - the 50-character page filter with 1-based page numbers;
  - the empty-PDF error;
  - the 30-character chunk filter with a running chunk index;
  - the integer chunk statistics.
- **The idempotent index layer** (`vector_store.py`, module `VectorIndex`):
  - a `VectorStore` class whose state is the set of stored ids;
  - content-derived ids;
  - `add_documents`, which skips known ids and uploads in batches;
  - `similarity_search`, with its empty-store error and score filter;
  - the count and emptiness queries.
- **Retriever post-processing** (`retriever.py`, module `Retriever`):
  - word-set Jaccard similarity;
  - near-duplicate removal against every previously kept hit;
  - the numbered context;
  - first-seen source labels sorted stably by page;
  - the `retrieve` facade, including its error handling.

Supporting modules:

- `Types`: `Option`, `Result` and the exceptions the core raises.
- `Text`: the Python `str` operations the core uses (`isspace`, `strip`, `lower`, `split`, `join`, `replace`, `isdigit`, `int`/`str` conversion). `Words` (`split()`) is characterised by `WordsExactly`, `Lower` is idempotent, and the character-set conversions `LowerChar` and `IsDigit` are definitions only.
- `Sorting`: a stable insertion sort, standing for Python's `sorted(key=...)`.
- `Seqs`: order-preserving subsequences, witnessed by index sequences, and `Filter`, a list comprehension with an `if`.
- `Documents`: the LangChain document with its metadata keys. A missing key is `None`.
- `Config`: the default settings.

Library calls are not modelled. They become parameters:

- PDF reading: the sequence of raw page texts.
- The text splitter: `split: string -> seq<string>`.
- MD5: `digest: string -> string`.
- Chroma's nearest-neighbour query: a `BackendReply`, which is either a list of scored hits or the exception the backend raises.

Scores are `real`. The defaults of the configuration (chunk size 500, overlap 50, top-k 3, minimum similarity 0.3) are the constant `Config.Defaults`, which `Retriever.Retriever.WithDefaults` uses.

Which definition models which source function (the table below names the lemmas that state what each one means):

- `pdf_processor.py`: `_clean_text` is `PdfProcessing.CleanText`, built from `CollapseNewlines` (the `re.sub`), `StripLines` (strip each line) and `RemoveChar`. `_extract_pages` is `KeptPages`, `_create_chunks` is `AllDocs` over `PageDocs`, and `get_stats` is `GetStats`.
- `vector_store.py`: `_compute_doc_id` is `DocId` of `IdInput`. The first loop of `add_documents` is `NewDocs`, and its outcome is `AddOutcome` with `IdsAfterAdd`. `similarity_search` is `SearchOutcome` with `FilterByScore`.
- `retriever.py`: `_jaccard_similarity` is `Jaccard` of two `WordSet`s. `_deduplicate` is `Deduplicated`, built from `KeptAfter`. `_build_context` is `Context`, the join of one `Section` per hit. `_extract_sources` is `SourcesOf`, which sorts the `FirstSeen` labels by `SortKey`. `retrieve` is `RetrieveOutcome`, which fills its record with `ResultOf`.

## Model

| member | source | states |
|---|---|---|
| Text.StripSpec | pdf_processor.py:186 | `strip()` returns one slice of its input that neither starts nor ends with whitespace, and everything dropped on either side is whitespace |
| Text.StripUnchanged | pdf_processor.py:192 | a text without whitespace at either end is left as it is by `strip()` |
| Text.TrimStartSpec | pdf_processor.py:186 | the left strip drops exactly the leading whitespace and keeps a suffix that does not start with whitespace |
| Text.TrimEndSpec | pdf_processor.py:186 | the right strip drops exactly the trailing whitespace and keeps a prefix that does not end with whitespace |
| Text.WordsSpec | retriever.py:199-200 | every word of `Words` (`split()`) is non-empty and holds no whitespace |
| Text.WordsExactly | retriever.py:199-200 | `w` is a word of `split()` iff it occurs in the text non-empty and free of whitespace, with whitespace or an end of the text on either side: the words are exactly the maximal runs of non-whitespace |
| Text.LowerIdempotent | retriever.py:199-200 | `lower()` of a lower-cased text changes nothing |
| Text.WordsOfTwo | retriever.py:199-200 | two words with one space between them split into exactly those two words |
| Text.SplitOn | pdf_processor.py:186 | `split("\n")` gives at least one part, and no part contains the separator |
| Text.JoinSplitOn | pdf_processor.py:186-187 | joining the parts of `split(c)` with `c` gives back the original text |
| Text.SplitOnJoin | pdf_processor.py:186-187 | splitting on `c` a `c`-join of parts that hold no `c` gives back exactly those parts |
| Text.JoinHasParts | retriever.py:236 | every part of a join occurs as a substring of the joined text |
| Text.JoinStartsWithFirst | retriever.py:236 | a join of a non-empty list starts with its first part |
| Text.RemoveChar | pdf_processor.py:190 | `replace(c, "")` leaves no `c`, and every other character is present afterwards iff it was present before (order and multiplicity in the next two rows) |
| Text.RemoveCharSpec | pdf_processor.py:190 | the result is the input at a strictly increasing list of positions, and a position is on that list iff its character is not `c` |
| Text.RemoveCharCount | pdf_processor.py:190 | every other character stays exactly as often as it occurred, and the length drops by the number of `c`s |
| Text.FilterStrip | pdf_processor.py:192 | `strip()` removes whitespace only: for any character test that rejects whitespace, the characters passing it are the same, in order, before and after |
| Text.FilterJoin | pdf_processor.py:187 | joining parts whose passing characters agree one for one gives texts whose passing characters agree, for any test that rejects the separator |
| Text.ParseNatToString | retriever.py:260 | `int()` of the decimal text of a natural number gives back that number |
| Text.IntToStringDigits | retriever.py:260 | the decimal text of an integer is all digits iff the integer is not negative |
| Sorting.SortBy | retriever.py:260 | sorting is a permutation of its input |
| Sorting.SortByStable | retriever.py:260 | the sorted list is ordered by key, and elements with equal keys keep their input order (stability) |
| Sorting.InsertSorted | retriever.py:260 | inserting into a sorted list keeps it sorted |
| Seqs.FilterPositions | vector_store.py:192-194 | a list comprehension with an `if` is the input at a strictly increasing list of positions, and a position is on that list iff its element passes the test |
| Seqs.SubsequenceSamePositions | retriever.py:165-181 | two selections of the same list at the same set of positions are the same list |
| PdfProcessing.NewlineRun | pdf_processor.py:183 | the length of the maximal run of newlines at the start of a text |
| PdfProcessing.CollapseNewlinesSpec | pdf_processor.py:183 | after the substitution no three newlines follow each other, a text not starting with a newline still does not, and only newlines were removed |
| PdfProcessing.CollapseBetween | pdf_processor.py:183 | `CollapseNewlines` (the `re.sub`) on a maximal run of newlines between a text not ending and a text not starting with a newline: three or more become exactly two newlines, one or two are kept, and the two sides are substituted on their own |
| PdfProcessing.CollapseRun | pdf_processor.py:183 | a maximal run of newlines in front of text becomes two newlines when it has three or more, and is kept as it is otherwise |
| PdfProcessing.CollapseAppend | pdf_processor.py:183 | cutting the text right after a character other than a newline cuts no run: the substitution of the whole is the substitution of the two parts |
| PdfProcessing.CollapseNoNewline | pdf_processor.py:183 | text without a newline passes through the substitution unchanged |
| PdfProcessing.StripLinesSplit | pdf_processor.py:186-187 | the lines of `StripLines(s)` are the stripped lines of `s`, one for one |
| PdfProcessing.FilterStripLines | pdf_processor.py:186-187 | stripping every line removes whitespace only: the characters passing any test that rejects whitespace are the same, in order |
| PdfProcessing.FilterCollapse | pdf_processor.py:183 | the substitution removes newlines only: the characters passing any test that rejects newlines are the same, in order |
| PdfProcessing.CleanText | pdf_processor.py:180-192 | the cleaned text holds no soft hyphen and has no whitespace at either end (its content in the next row) |
| PdfProcessing.CleanTextKeepsPrinted | pdf_processor.py:180-192 | cleaning loses and invents no printed character: the characters that are neither whitespace nor U+00AD are those of the input, in order |
| PdfProcessing.CleanTextCanKeepTripleNewline | pdf_processor.py:183-187 | `word\n\n \nword` cleans to `word\n\n\nword`: stripping after the substitution can re-create three newlines, so "no triple newline" does not hold of the cleaned text |
| PdfProcessing.ExtractPages | pdf_processor.py:143-163 | the page loop returns exactly the kept pages |
| PdfProcessing.KeptPagesFrom | pdf_processor.py:143-161 | every page of `KeptPages` (`_extract_pages`) is the raw page with its 1-based number, it passed the filter (stripped length at least 50), and its text is cleaned |
| PdfProcessing.KeptPagesIncreasing | pdf_processor.py:143-161 | page numbers strictly increase along the kept pages |
| PdfProcessing.KeptPagesComplete | pdf_processor.py:143-161 | every raw page that passes the filter appears among the kept pages under its number |
| PdfProcessing.KeptPosition | pdf_processor.py:143-161 | gives the position of a passing raw page among the kept pages |
| PdfProcessing.KeptPagesEmpty | pdf_processor.py:143-163 | no page is kept iff every raw page is too short |
| PdfProcessing.LoadAndSplit | pdf_processor.py:87-110 | raises `RuntimeError` iff no page survives; otherwise returns the chunk documents of the kept pages |
| PdfProcessing.CreateChunks | pdf_processor.py:210-238 | the nested loop returns exactly the documents of all pages, in page order, with one running chunk counter |
| PdfProcessing.PageChunkDocs | pdf_processor.py:217-236 | the inner loop returns the documents of one page's kept chunks, numbered on from the counter's value |
| PdfProcessing.PageDocsSpec | pdf_processor.py:217-236 | every document of a page is an untrimmed chunk of that page that passed the 30-character filter, with the page's number, the source name, consecutive chunk indices and its own length |
| PdfProcessing.PageDocsContents | pdf_processor.py:213-236 | the texts of one page's documents (`PageDocs`) are that page's chunks of at least 30 characters after stripping, each in its own place and in the splitter's order: the input at a strictly increasing list of positions, a position being on it iff its chunk passes the filter |
| PdfProcessing.AllDocsSpec | pdf_processor.py:210-238 | document `i` has chunk index `i` (never reset per page), comes from a page of the input, has that page's number and the source name, and its length field is its content length |
| PdfProcessing.AllDocsContents | pdf_processor.py:210-238 | the texts of all documents (`AllDocs`, `_create_chunks`) are the kept chunks of each page, page after page, so their number is the sum over the pages of the kept chunks |
| PdfProcessing.Min | pdf_processor.py:261 | `min` of a non-empty list is an element and bounds every element from below |
| PdfProcessing.Max | pdf_processor.py:262 | `max` of a non-empty list is an element and bounds every element from above |
| PdfProcessing.SumBounds | pdf_processor.py:260-263 | a sum of lengths lies between count times minimum and count times maximum |
| PdfProcessing.PageSetSize | pdf_processor.py:264 | the number of distinct page values is at least 1 for a non-empty list and at most the list length |
| PdfProcessing.GetStats | pdf_processor.py:252-265 | empty input gives only `count: 0`. Otherwise: `count` is the length; `min_length` and `max_length` are document lengths that bound all others; `total_chars` is their sum and lies between the two bounds times `count`; `unique_pages` counts the distinct page values |
| VectorIndex.SameContentSameId | vector_store.py:256-257 | `DocId`, the digest of `IdInput`, is the same for two documents with the same source name and content |
| VectorIndex.IdInputAmbiguous | vector_store.py:256 | the hashed text does not separate source and content: `("a__", "b")` and `("a", "__b")` hash the same text |
| VectorIndex.NewDocsSpec | vector_store.py:121-127 | `NewDocs` is exactly the given documents whose id is not stored, in their order; new plus skipped is the input length |
| VectorIndex.NewDocsAllKnown | vector_store.py:121-134 | when every id is already stored, nothing is new |
| VectorIndex.BatchesSpec | vector_store.py:141-148 | the batches `range(0, n, size)` cut out partition the list in order; each holds 1 to `size` items; there are `ceil(n / size)` of them |
| VectorIndex.AddStoresAll | vector_store.py:113-154 | after an add with a positive batch size (`IdsAfterAdd`) the id of every given document is stored; a non-positive batch size stores nothing; no stored id is lost |
| VectorIndex.AddTwiceAddsNothing | vector_store.py:99-101 | adding the same documents a second time returns 0, uploads nothing and leaves the ids unchanged |
| VectorIndex.AddCountsRepeats | vector_store.py:113-127 | a new document given twice in one call is counted twice but adds one id, because the known ids are not updated inside the loop |
| VectorIndex.AddGrowth | vector_store.py:140-154 | the stored ids grow by at most the count returned |
| VectorIndex.ElementsSize | vector_store.py:238 | a set built from a list is no larger than the list |
| VectorIndex.FilterByScoreSpec | vector_store.py:192-194 | `FilterByScore` keeps the hits scoring at least the threshold and drops the others, each at its own position and in order (the input at a strictly increasing list of positions, a position being on it iff its score passes), so a descending order survives |
| VectorIndex.DescendingSubsequence | vector_store.py:192-194 | an order-preserving subsequence of a descending hit list is descending |
| VectorIndex.SearchOutcomeSpec | vector_store.py:181-202 | `SearchOutcome`: an empty store raises `RuntimeError`; a backend exception escapes unchanged; a successful result is the answered hits at a strictly increasing list of positions, a position being on it iff its hit scores at or above the threshold, so every passing hit is kept once per occurrence, in the backend's order |
| VectorIndex.VectorStore.constructor | vector_store.py:39-87 | the store opens on the ids already persisted, with nothing uploaded |
| VectorIndex.VectorStore.IsEmpty | vector_store.py:204-215 | empty iff the collection holds no id |
| VectorIndex.VectorStore.GetDocumentCount | vector_store.py:217-227 | returns the collection's count |
| VectorIndex.VectorStore.GetExistingIds | vector_store.py:229-240 | returns the stored ids |
| VectorIndex.VectorStore.Store | vector_store.py:150 | one upload adds the batch's ids to the stored ones and records the batch |
| VectorIndex.VectorStore.SelectNew | vector_store.py:117-127 | the first loop yields the new documents, their ids and the number skipped |
| VectorIndex.VectorStore.UploadBatches | vector_store.py:140-154 | the batch loop uploads the new documents in order, in batches of the given size; it adds exactly their ids and returns their number |
| VectorIndex.VectorStore.AddDocuments | vector_store.py:89-154 | return value, ids afterwards and uploads are those of `AddOutcome`, `IdsAfterAdd` and `Uploads` (0 when nothing is new, `ValueError` for batch size 0, otherwise the number of new documents) |
| VectorIndex.VectorStore.SimilaritySearch | vector_store.py:156-202 | the result is the empty-store check followed by the threshold filter of the backend's reply |
| Retriever.RetrievalResult.TopScore | retriever.py:46-49 | 0 when there is no score, otherwise the maximum of the scores |
| Retriever.EmptyResult | retriever.py:97 | the record for the query has no documents, nothing found, top score 0, empty context and no sources |
| Retriever.MaxOf | retriever.py:49 | `max` of a non-empty list is an element and bounds every element from above |
| Retriever.JaccardRange | retriever.py:199-208 | the similarity lies in [0, 1] |
| Retriever.JaccardSymmetric | retriever.py:199-208 | the similarity is symmetric |
| Retriever.JaccardOne | retriever.py:199-208 | `Jaccard` (`_jaccard_similarity`) is 1 iff both texts have the same non-empty `WordSet` |
| Retriever.JaccardDisjoint | retriever.py:202-208 | texts without a common word have similarity 0 |
| Retriever.WordSetSpec | retriever.py:199-200 | `WordSet` holds exactly the maximal runs of non-whitespace of the lower-cased text |
| Retriever.JaccardIgnoresCase | retriever.py:199-208 | lower-casing either text first does not change the similarity |
| Retriever.KeptAfterSubsequence | retriever.py:165-181 | the hits kept so far are an order-preserving subsequence that starts at the first hit |
| Retriever.KeptAfterDistinct | retriever.py:167-181 | no kept hit reaches the threshold against any hit kept before it |
| Retriever.KeptAfterCovers | retriever.py:167-181 | every hit looked at is kept or reaches the threshold against a kept hit |
| Retriever.DuplicateOfPositions | retriever.py:169-178 | the inner loop's duplicate test against the kept hits is a search for a kept position whose text reaches the threshold |
| Retriever.KeptIndicesGreedy | retriever.py:165-181 | after the first `n` hits, a position is kept iff its text is below the threshold against the text at every position kept before it |
| Retriever.GreedyAgrees | retriever.py:165-181 | two lists of positions that follow that greedy rule hold the same positions |
| Retriever.DeduplicatedGreedy | retriever.py:162-183 | `Deduplicated` (`_deduplicate`, built from `KeptAfter`) is the input at a strictly increasing list of positions, and a position is on that list iff its hit is below the threshold against every hit kept before it |
| Retriever.DeduplicatedUnique | retriever.py:162-183 | the greedy rule decides the result: any order-preserving selection whose positions follow it is `Deduplicated` |
| Retriever.DeduplicatedKeepsFirst | retriever.py:162-165 | at most one hit comes back unchanged; otherwise the first hit is kept first |
| Retriever.DeduplicatedOrder | retriever.py:165-183 | the result is an order-preserving subsequence, so a descending score order survives |
| Retriever.DeduplicatedSpec | retriever.py:162-183 | at most one hit comes back as it is; otherwise the first hit is kept first; the result is the input at positions that follow the greedy rule; no two kept hits are duplicates; every dropped hit is a duplicate of a kept one; a descending order is kept |
| Retriever.DeduplicatedRepeat | retriever.py:162-183 | at the threshold `retrieve` passes (0.90) a hit repeated twice is kept once, unless its text has no word (Jaccard being 0 then) |
| Retriever.Deduplicate | retriever.py:143-183 | the nested loops with the duplicate flag and `break` compute exactly the deduplicated list |
| Retriever.SectionEndsWithContent | retriever.py:230-233 | a section contains the chunk text |
| Retriever.ContextSpec | retriever.py:224-236 | `Context`, the join of one `Section` per hit, is empty iff there are no hits; it starts with section 1; every section and every chunk text occurs in it |
| Retriever.BuildContext | retriever.py:210-236 | the loop and the join build exactly the context |
| Retriever.KeysOfSpec | retriever.py:249-257 | a key is in the seen set iff some hit has that key |
| Retriever.PageTextIsWord | retriever.py:252-258 | the page text is non-empty and holds no whitespace and no underscore |
| Retriever.SortKeyOfLabel | retriever.py:260 | the sort key of "Seite p" is the page number when it is not negative; a missing page ("?") or a negative one ("-3") has a non-digit last token and sorts as 0 |
| Retriever.FirstSeenCount | retriever.py:248-258 | one label per distinct key, so there are at most as many labels as hits |
| Retriever.FirstSeenCover | retriever.py:248-258 | every hit's label is among the first-seen labels when the label follows from the key |
| Retriever.SourceLabelFollowsKey | retriever.py:252-258 | hits with the same `source_p{page}` key have the same "Seite {page}" label |
| Retriever.SameKeySameLabel | retriever.py:252-258 | equal keys give equal labels |
| Retriever.KeyTailShorter | retriever.py:254 | when two keys are equal and the second page text has no underscore, it is no longer than the first |
| Retriever.KeyDeterminesSource | retriever.py:254 | with the same page text, equal keys mean equal sources |
| Retriever.SourcesSpec | retriever.py:248-260 | `SourcesOf`, the `FirstSeen` labels sorted by `SortKey`, is sorted by page key and a permutation of the first-seen labels; equal keys keep first-seen order (stable); each hit's label appears; there are at most as many sources as hits |
| Retriever.SourcesCanRepeat | retriever.py:248-258 | two different sources on the same page both yield "Seite p" |
| Retriever.ExtractSources | retriever.py:238-260 | the loop over a growing seen set, followed by the sort, computes exactly the sources |
| Retriever.RetrieveSpec | retriever.py:97-141 | `RetrieveOutcome` fails iff a non-empty store's backend raises something other than `RuntimeError`; its record (`ResultOf`) always carries the query and as many scores as documents; it finds something iff the store is not empty and the backend returns a hit at or above the threshold; when nothing is found the record is the empty one (no documents or scores, empty context, no sources) |
| Retriever.RetrieveTopScore | retriever.py:119-130 | for a descending backend answer, the first document is the best hit and the top score is its score |
| Retriever.ResultOfDescending | retriever.py:122-124 | a record filled from descending hits starts with the best hit and has its score on top |
| Retriever.Unzip | retriever.py:122-124 | the loop copies every hit's document and score, in order |
| Retriever.Retriever.constructor | retriever.py:61-77 | the retriever keeps its store, top-k and threshold |
| Retriever.Retriever.WithDefaults | retriever.py:61-77 | without explicit settings the retriever takes the configured top-k (3) and minimum similarity (0.3) |
| Retriever.Retriever.Retrieve | retriever.py:79-141 | `retrieve` is the search of its store followed by the outcome function: `RuntimeError` or no hits give the empty result, other exceptions escape, and otherwise the deduplicated hits are formatted and labelled |

## Left out

- PDF opening and reading (PyMuPDF): the raw text of each page is an input, and the `FileNotFoundError` and `RuntimeError` of opening a file are not modelled.
- The text splitter (LangChain): a function parameter. Chunk size and overlap are only passed to it, so no size or overlap property is claimed.
- Embeddings and the nearest-neighbour search (HuggingFace, Chroma): the backend reply is a parameter. Top-k is stored by the retriever but not modelled further, because it is only forwarded to the backend. The conversion of relevance scores is not modelled.
- VectorIndex.VectorStore.Store: an upload always succeeds. In the program `db.add_documents` can raise (an embedding or database failure); the exception then leaves `add_documents`, the remaining batches are not sent, and the batches sent before stay stored. That failure path is not modelled.
- VectorIndex.AddCountsRepeats: the stored collection is modelled as a set of ids, so a batch that holds the same id twice adds it once. This is an assumption of the model, not something the program shows; a database that rejects repeated ids within one add would raise there instead.
- MD5: an abstract deterministic function `digest`. No collision reasoning.
- VectorIndex.VectorStore.IsEmpty: the exception fallbacks of `is_empty`, `get_document_count` and `_get_existing_ids` (true, 0, empty set) are not modelled, because the backend here does not raise on counting.
- Logging, the progress bar and console output.
- Floating point: scores, thresholds and the Jaccard ratio are exact reals, and only comparisons are used. `avg_length` of `get_stats` is a float division and is left out.
- Text.LowerChar: the lower-casing covers ASCII and Latin-1 capitals only, not all of Unicode.
- Text.IsDigit: ASCII digits only. Labels come from integer formatting, so the Unicode digits for which Python's `int()` would behave differently never reach the sort key.
- Retriever.SortKey: the `IndexError` that Python raises for a label without any word is not modelled, and the key is 0 there. Every label is "Seite p" with a non-empty page text, so the case cannot arise.
- Retriever.Deduplicate: the similarity measure is a parameter; `retrieve` uses it with the Jaccard similarity.
- `main.py`, `llm_chain.py` and `utils.py` are not part of this model.
