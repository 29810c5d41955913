/**
 * The vector database wrapper: content-hash ids, duplicate skipping, batched
 * upload and the thresholded similarity search.
 *
 * The embedding model and the Chroma collection are not modelled as such. The
 * collection is represented by the set of ids it holds (its `count()` is the
 * size of that set) and by a ghost log of the batches handed to it. The MD5
 * hex digest is the parameter `digest`. The nearest-neighbour query is the
 * backend's reply, passed in as a value.
 */
module VectorIndex {
  import opened Types
  import opened Documents
  import Seqs

  /** The string `_compute_doc_id` hashes: the source name (or ""), two underscores, the content. */
  function IdInput(doc: Document): string
  {
    SourceOr(doc, "") + "__" + doc.content
  }

  /** `_compute_doc_id`: the digest of `IdInput`. */
  function DocId(digest: string -> string, doc: Document): string
  {
    digest(IdInput(doc))
  }

  /** Documents with the same source name and content get the same id, whatever else differs. */
  lemma SameContentSameId(digest: string -> string, d1: Document, d2: Document)
    requires SourceOr(d1, "") == SourceOr(d2, "") && d1.content == d2.content
    ensures DocId(digest, d1) == DocId(digest, d2)
  {
  }

  /**
   * The id input does not separate the source name from the content: a source
   * ending in "__" and a content starting with "__" can be traded for each
   * other, so two different documents get the same id even with no hash
   * collision, and the second is skipped as already present.
   */
  lemma IdInputAmbiguous(digest: string -> string, src: string, text: string, meta: Metadata)
    ensures var d1 := Document("__" + text, meta.(source := Some(src)));
            var d2 := Document(text, meta.(source := Some(src + "__")));
            d1 != d2 && DocId(digest, d1) == DocId(digest, d2)
  {
    var d1 := Document("__" + text, meta.(source := Some(src)));
    var d2 := Document(text, meta.(source := Some(src + "__")));
    assert IdInput(d1) == src + "____" + text by {
      assert IdInput(d1) == src + "__" + ("__" + text);
    }
    assert IdInput(d2) == src + "____" + text by {
      assert IdInput(d2) == (src + "__") + "__" + text;
    }
    assert |d1.content| != |d2.content|;
  }

  function IdsOf(digest: string -> string, docs: seq<Document>): (ids: seq<string>)
    ensures |ids| == |docs|
    ensures forall i :: 0 <= i < |docs| ==> ids[i] == DocId(digest, docs[i])
  {
    seq(|docs|, i requires 0 <= i < |docs| => DocId(digest, docs[i]))
  }

  /** `set(xs)`. */
  function Elements(xs: seq<string>): (s: set<string>)
    ensures forall x :: x in s <==> x in xs
  {
    set x | x in xs
  }

  // ---------------------------------------------------------------------------
  // Duplicate skipping
  // ---------------------------------------------------------------------------

  /** The documents whose id is not among `existing`, in their order. */
  function NewDocs(digest: string -> string, existing: set<string>, docs: seq<Document>): seq<Document>
  {
    if docs == [] then []
    else
      var n := |docs|;
      var prev := NewDocs(digest, existing, docs[..n - 1]);
      if DocId(digest, docs[n - 1]) in existing then prev else prev + [docs[n - 1]]
  }

  /** How many documents were skipped because their id is already present. */
  function Skipped(digest: string -> string, existing: set<string>, docs: seq<Document>): nat
  {
    if docs == [] then 0
    else
      var n := |docs|;
      Skipped(digest, existing, docs[..n - 1]) + (if DocId(digest, docs[n - 1]) in existing then 1 else 0)
  }

  /**
   * The new documents are exactly the documents with an unknown id, in their
   * original order, and every document is either new or skipped.
   */
  lemma {:induction false} NewDocsSpec(digest: string -> string, existing: set<string>, docs: seq<Document>)
    ensures forall d :: d in NewDocs(digest, existing, docs) <==> d in docs && DocId(digest, d) !in existing
    ensures |NewDocs(digest, existing, docs)| + Skipped(digest, existing, docs) == |docs|
    ensures Seqs.IsSubsequence(NewDocs(digest, existing, docs), docs)
  {
    if docs != [] {
      var n := |docs|;
      var init := docs[..n - 1];
      NewDocsSpec(digest, existing, init);
      var prev := NewDocs(digest, existing, init);
      var idx: seq<nat> :| Seqs.SubsequenceAt(prev, init, idx);
      assert docs == init + [docs[n - 1]];
      if DocId(digest, docs[n - 1]) in existing {
        Seqs.SubsequenceExtend(prev, init, idx, docs[n - 1]);
        assert Seqs.SubsequenceAt(NewDocs(digest, existing, docs), docs, idx);
      } else {
        Seqs.SubsequenceAppend(prev, init, idx, docs[n - 1]);
        assert Seqs.SubsequenceAt(NewDocs(digest, existing, docs), docs, idx + [n - 1]);
      }
    } else {
      assert Seqs.SubsequenceAt(NewDocs(digest, existing, docs), docs, []);
    }
  }

  /** Documents that are all already present produce no new documents. */
  lemma {:induction false} NewDocsAllKnown(digest: string -> string, existing: set<string>, docs: seq<Document>)
    requires forall d :: d in docs ==> DocId(digest, d) in existing
    ensures NewDocs(digest, existing, docs) == []
  {
    if docs != [] {
      var init := docs[..|docs| - 1];
      assert forall d :: d in init ==> d in docs;
      NewDocsAllKnown(digest, existing, init);
    }
  }

  // ---------------------------------------------------------------------------
  // Batches
  // ---------------------------------------------------------------------------

  function MinInt(a: int, b: int): int
  {
    if a <= b then a else b
  }

  /** `[xs[i:i + size] for i in range(start, len(xs), size)]`. */
  function BatchesFrom<T>(xs: seq<T>, size: nat, start: nat): seq<seq<T>>
    requires size > 0
    decreases |xs| - start
  {
    if start >= |xs| then []
    else [xs[start..MinInt(start + size, |xs|)]] + BatchesFrom(xs, size, start + size)
  }

  function Batches<T>(xs: seq<T>, size: nat): seq<seq<T>>
    requires size > 0
  {
    BatchesFrom(xs, size, 0)
  }

  function Flatten<T>(bs: seq<seq<T>>): seq<T>
  {
    if bs == [] then [] else bs[0] + Flatten(bs[1..])
  }

  /**
   * The batches cover the list exactly once and in order, each holds between one
   * and `size` elements, and there are as few of them as that allows:
   * all but the last are full.
   */
  lemma BatchesFromSpec<T>(xs: seq<T>, size: nat, start: nat)
    requires size > 0 && start <= |xs|
    ensures Flatten(BatchesFrom(xs, size, start)) == xs[start..]
    ensures forall b :: b in BatchesFrom(xs, size, start) ==> 1 <= |b| <= size
    ensures var m := |BatchesFrom(xs, size, start)|;
      (m - 1) * size < |xs| - start <= m * size || (m == 0 && start == |xs|)
  {
    BatchesFromFlatten(xs, size, start);
    BatchesFromSizes(xs, size, start);
    BatchesFromCount(xs, size, start);
  }

  lemma {:induction false} BatchesFromFlatten<T>(xs: seq<T>, size: nat, start: nat)
    requires size > 0 && start <= |xs|
    ensures Flatten(BatchesFrom(xs, size, start)) == xs[start..]
    decreases |xs| - start
  {
    if start < |xs| {
      var end := MinInt(start + size, |xs|);
      var all := BatchesFrom(xs, size, start);
      var rest := BatchesFrom(xs, size, start + size);
      assert all[1..] == rest;
      assert xs[start..] == xs[start..end] + xs[end..];
      if start + size <= |xs| {
        BatchesFromFlatten(xs, size, start + size);
      } else {
        assert xs[end..] == [];
      }
    }
  }

  lemma {:induction false} BatchesFromSizes<T>(xs: seq<T>, size: nat, start: nat)
    requires size > 0 && start <= |xs|
    ensures forall b :: b in BatchesFrom(xs, size, start) ==> 1 <= |b| <= size
    decreases |xs| - start
  {
    if start + size <= |xs| {
      BatchesFromSizes(xs, size, start + size);
    }
  }

  lemma {:induction false} BatchesFromCount<T>(xs: seq<T>, size: nat, start: nat)
    requires size > 0 && start <= |xs|
    ensures var m := |BatchesFrom(xs, size, start)|;
      (m - 1) * size < |xs| - start <= m * size || (m == 0 && start == |xs|)
    decreases |xs| - start
  {
    if start < |xs| {
      var rest := BatchesFrom(xs, size, start + size);
      if start + size <= |xs| {
        BatchesFromCount(xs, size, start + size);
        var m := |rest|;
        assert (m + 1) * size == m * size + size;
        assert (m + 1 - 1) * size == m * size;
        assert m * size == (m - 1) * size + size;
      } else {
        assert (1 - 1) * size == 0 && 1 * size == size;
      }
    }
  }

  lemma BatchesSpec<T>(xs: seq<T>, size: nat)
    requires size > 0
    ensures Flatten(Batches(xs, size)) == xs
    ensures forall b :: b in Batches(xs, size) ==> 1 <= |b| <= size
    ensures var m := |Batches(xs, size)|; (m - 1) * size < |xs| <= m * size || (m == 0 && xs == [])
  {
    BatchesFromSpec(xs, size, 0);
    assert xs[0..] == xs;
  }

  // ---------------------------------------------------------------------------
  // add_documents
  // ---------------------------------------------------------------------------

  /**
   * What `add_documents` returns: 0 when nothing is new; a `ValueError` from
   * `range` when something is new and the batch size is 0; 0 when the batch
   * size is negative (the range is empty); otherwise the number of new
   * documents.
   */
  function AddOutcome(digest: string -> string, existing: set<string>, docs: seq<Document>, batchSize: int): Result<nat, Raised>
  {
    var unseen := NewDocs(digest, existing, docs);
    if unseen == [] then Ok(0)
    else if batchSize == 0 then Err(ValueError)
    else if batchSize < 0 then Ok(0)
    else Ok(|unseen|)
  }

  /** The batches `add_documents` hands to the database. */
  function Uploads(digest: string -> string, existing: set<string>, docs: seq<Document>, batchSize: int): seq<seq<Document>>
  {
    var unseen := NewDocs(digest, existing, docs);
    if unseen == [] || batchSize <= 0 then [] else Batches(unseen, batchSize)
  }

  /** The ids the collection holds afterwards. */
  function IdsAfterAdd(digest: string -> string, existing: set<string>, docs: seq<Document>, batchSize: int): set<string>
  {
    var unseen := NewDocs(digest, existing, docs);
    if unseen == [] || batchSize <= 0 then existing else existing + Elements(IdsOf(digest, unseen))
  }

  /**
   * A successful add with a positive batch size stores the id of every given
   * document; for a `ValueError` or a negative batch size nothing is stored.
   */
  lemma AddStoresAll(digest: string -> string, existing: set<string>, docs: seq<Document>, batchSize: int)
    ensures batchSize > 0 ==>
      forall d :: d in docs ==> DocId(digest, d) in IdsAfterAdd(digest, existing, docs, batchSize)
    ensures batchSize <= 0 ==> IdsAfterAdd(digest, existing, docs, batchSize) == existing
    ensures existing <= IdsAfterAdd(digest, existing, docs, batchSize)
  {
    NewDocsSpec(digest, existing, docs);
    var unseen := NewDocs(digest, existing, docs);
    forall d | d in docs && DocId(digest, d) !in existing
      ensures DocId(digest, d) in Elements(IdsOf(digest, unseen))
    {
      var i :| 0 <= i < |unseen| && unseen[i] == d;
      assert IdsOf(digest, unseen)[i] == DocId(digest, d);
    }
  }

  /**
   * Adding the same documents a second time adds nothing: the call returns 0 and
   * hands nothing to the database (the duplicate detection the content hash is for).
   */
  lemma AddTwiceAddsNothing(digest: string -> string, existing: set<string>, docs: seq<Document>, batchSize: int)
    requires batchSize > 0
    ensures var after := IdsAfterAdd(digest, existing, docs, batchSize);
      && AddOutcome(digest, after, docs, batchSize) == Ok(0)
      && Uploads(digest, after, docs, batchSize) == []
      && IdsAfterAdd(digest, after, docs, batchSize) == after
  {
    AddStoresAll(digest, existing, docs, batchSize);
    NewDocsAllKnown(digest, IdsAfterAdd(digest, existing, docs, batchSize), docs);
  }

  /**
   * The count returned is the number of documents with an unknown id, so a
   * document given twice in one call is counted twice while the collection
   * gains a single id.
   */
  lemma AddCountsRepeats(digest: string -> string, existing: set<string>, d: Document, batchSize: int)
    requires batchSize > 0 && DocId(digest, d) !in existing
    ensures AddOutcome(digest, existing, [d, d], batchSize) == Ok(2)
    ensures IdsAfterAdd(digest, existing, [d, d], batchSize) == existing + {DocId(digest, d)}
  {
    assert [d, d][..1] == [d];
    assert [d][..0] == [];
    assert NewDocs(digest, existing, [d]) == [d];
    var unseen := NewDocs(digest, existing, [d, d]);
    assert unseen == [d] + [d];
    var id := DocId(digest, d);
    assert IdsOf(digest, unseen) == [id, id];
    assert Elements(IdsOf(digest, unseen)) == {id};
  }

  /** The collection grows by at most the count returned. */
  lemma {:induction false} AddGrowth(digest: string -> string, existing: set<string>, docs: seq<Document>, batchSize: int)
    requires AddOutcome(digest, existing, docs, batchSize).Ok?
    ensures |IdsAfterAdd(digest, existing, docs, batchSize)| <= |existing| + AddOutcome(digest, existing, docs, batchSize).value
  {
    var unseen := NewDocs(digest, existing, docs);
    if unseen != [] && batchSize > 0 {
      ElementsSize(IdsOf(digest, unseen));
    }
  }

  lemma {:induction false} ElementsSize(xs: seq<string>)
    ensures |Elements(xs)| <= |xs|
  {
    if xs != [] {
      var init := xs[..|xs| - 1];
      ElementsSize(init);
      assert Elements(xs) == Elements(init) + {xs[|xs| - 1]} by {
        assert xs == init + [xs[|xs| - 1]];
      }
    }
  }

  // ---------------------------------------------------------------------------
  // similarity_search
  // ---------------------------------------------------------------------------

  /** What the backend's scored nearest-neighbour query gives: hits, or an exception it raises. */
  datatype BackendReply = Answered(hits: seq<Hit>) | Failed(error: Raised)

  /** `[(doc, score) for doc, score in results if score >= min_similarity]`. */
  function FilterByScore(hits: seq<Hit>, minSimilarity: real): seq<Hit>
  {
    if hits == [] then []
    else
      var n := |hits|;
      var prev := FilterByScore(hits[..n - 1], minSimilarity);
      if hits[n - 1].score >= minSimilarity then prev + [hits[n - 1]] else prev
  }

  /**
   * The filter keeps exactly the hits scoring at least the threshold, each
   * occurrence at its own position and in order, so a list sorted by
   * descending score stays sorted.
   */
  lemma FilterByScoreSpec(hits: seq<Hit>, minSimilarity: real)
    ensures forall h :: h in FilterByScore(hits, minSimilarity) <==> h in hits && h.score >= minSimilarity
    ensures Seqs.IsSubsequence(FilterByScore(hits, minSimilarity), hits)
    ensures exists idx ::
      && Seqs.SubsequenceAt(FilterByScore(hits, minSimilarity), hits, idx)
      && forall k :: 0 <= k < |hits| ==> (k in idx <==> hits[k].score >= minSimilarity)
    ensures DescendingByScore(hits) ==> DescendingByScore(FilterByScore(hits, minSimilarity))
  {
    var keep := (h: Hit) => h.score >= minSimilarity;
    FilterByScoreIsFilter(hits, minSimilarity, keep);
    Seqs.FilterMembers(hits, keep);
    Seqs.FilterPositions(hits, keep);
    DescendingSubsequence(FilterByScore(hits, minSimilarity), hits, Seqs.FilterIndices(hits, keep));
  }

  lemma {:induction false} FilterByScoreIsFilter(hits: seq<Hit>, minSimilarity: real, keep: Hit -> bool)
    requires forall h :: keep(h) <==> h.score >= minSimilarity
    ensures FilterByScore(hits, minSimilarity) == Seqs.Filter(hits, keep)
  {
    if hits != [] {
      FilterByScoreIsFilter(hits[..|hits| - 1], minSimilarity, keep);
    }
  }

  /** An order-preserving subsequence of a descending list is descending. */
  lemma DescendingSubsequence(a: seq<Hit>, b: seq<Hit>, idx: seq<nat>)
    requires Seqs.SubsequenceAt(a, b, idx)
    ensures DescendingByScore(b) ==> DescendingByScore(a)
  {
    if DescendingByScore(b) {
      forall i, j | 0 <= i < j < |a|
        ensures a[i].score >= a[j].score
      {
        assert a[i] == b[idx[i]] && a[j] == b[idx[j]];
      }
    }
  }

  /**
   * `similarity_search`: a `RuntimeError` when the collection is empty, the
   * backend's own exception when it raises one, otherwise the hits that pass
   * the threshold.
   */
  function SearchOutcome(count: nat, reply: BackendReply, minSimilarity: real): Result<seq<Hit>, Raised>
  {
    if count == 0 then Err(RuntimeError)
    else
      match reply
      case Failed(e) => Err(e)
      case Answered(hits) => Ok(FilterByScore(hits, minSimilarity))
  }

  /** Every successful search result keeps each answered hit passing the threshold, at its own position, in the backend's order. */
  lemma SearchOutcomeSpec(count: nat, reply: BackendReply, minSimilarity: real)
    ensures count == 0 ==> SearchOutcome(count, reply, minSimilarity) == Err(RuntimeError)
    ensures count > 0 && reply.Failed? ==> SearchOutcome(count, reply, minSimilarity) == Err(reply.error)
    ensures SearchOutcome(count, reply, minSimilarity).Ok? ==>
      var r := SearchOutcome(count, reply, minSimilarity).value;
      && reply.Answered?
      && (forall h :: h in r <==> h in reply.hits && h.score >= minSimilarity)
      && Seqs.IsSubsequence(r, reply.hits)
      && (exists idx ::
        && Seqs.SubsequenceAt(r, reply.hits, idx)
        && forall k :: 0 <= k < |reply.hits| ==> (k in idx <==> reply.hits[k].score >= minSimilarity))
      && (DescendingByScore(reply.hits) ==> DescendingByScore(r))
  {
    if reply.Answered? {
      FilterByScoreSpec(reply.hits, minSimilarity);
    }
  }

  // ---------------------------------------------------------------------------
  // The store object
  // ---------------------------------------------------------------------------

  class VectorStore {
    /** The ids the collection holds. */
    var ids: set<string>
    /** Every batch handed to the collection, in order. */
    ghost var uploads: seq<seq<Document>>
    /** The hex digest used for document ids. */
    const digest: string -> string

    /** Opens a collection that already holds the ids `persisted`. */
    constructor (digest: string -> string, persisted: set<string>)
      ensures this.digest == digest && ids == persisted && uploads == []
    {
      this.digest := digest;
      ids := persisted;
      uploads := [];
    }

    /** `_collection.count()`. */
    function Count(): nat
      reads this
    {
      |ids|
    }

    method IsEmpty() returns (b: bool)
      ensures b <==> ids == {}
    {
      b := |ids| == 0;
    }

    method GetDocumentCount() returns (n: nat)
      ensures n == Count()
    {
      n := |ids|;
    }

    /** `_get_existing_ids`. */
    method GetExistingIds() returns (s: set<string>)
      ensures s == ids
    {
      s := ids;
    }

    /** The collection's `add_documents` for one batch. */
    method Store(batchDocs: seq<Document>, batchIds: seq<string>)
      modifies this
      ensures ids == old(ids) + Elements(batchIds)
      ensures uploads == old(uploads) + [batchDocs]
    {
      ids := ids + Elements(batchIds);
      uploads := uploads + [batchDocs];
    }

    /** The first loop of `add_documents`: split the documents into new ones and skipped ones. */
    method SelectNew(documents: seq<Document>, existing: set<string>)
      returns (newDocs: seq<Document>, newIds: seq<string>, skipped: nat)
      ensures newDocs == NewDocs(digest, existing, documents)
      ensures newIds == IdsOf(digest, newDocs)
      ensures skipped == Skipped(digest, existing, documents)
    {
      newDocs, newIds, skipped := [], [], 0;
      for k := 0 to |documents|
        invariant newDocs == NewDocs(digest, existing, documents[..k])
        invariant newIds == IdsOf(digest, newDocs)
        invariant skipped == Skipped(digest, existing, documents[..k])
      {
        assert documents[..k + 1][..k] == documents[..k];
        var doc := documents[k];
        var docId := DocId(digest, doc);
        if docId in existing {
          skipped := skipped + 1;
        } else {
          newDocs := newDocs + [doc];
          newIds := newIds + [docId];
        }
      }
      assert documents[..|documents|] == documents;
    }

    /**
     * `add_documents`: skip documents whose id is present, then upload the new
     * ones in batches of `batchSize`, returning how many were handed over.
     */
    method AddDocuments(documents: seq<Document>, batchSize: int) returns (r: Result<nat, Raised>)
      modifies this
      ensures r == AddOutcome(digest, old(ids), documents, batchSize)
      ensures ids == IdsAfterAdd(digest, old(ids), documents, batchSize)
      ensures uploads == old(uploads) + Uploads(digest, old(ids), documents, batchSize)
    {
      var existing := GetExistingIds();
      var newDocs, newIds, skipped := SelectNew(documents, existing);
      if newDocs == [] {
        return Ok(0);
      }
      if batchSize == 0 {
        return Err(ValueError);
      }
      if batchSize < 0 {
        return Ok(0);
      }
      var added := UploadBatches(newDocs, newIds, batchSize);
      return Ok(added);
    }

    /** The batch loop of `add_documents`: one upload per slice of `size` documents and their ids. */
    method UploadBatches(newDocs: seq<Document>, newIds: seq<string>, size: nat) returns (added: nat)
      requires size > 0 && |newIds| == |newDocs|
      modifies this
      ensures added == |newDocs|
      ensures ids == old(ids) + Elements(newIds)
      ensures uploads == old(uploads) + Batches(newDocs, size)
    {
      added := 0;
      var i: nat := 0;
      while i < |newDocs|
        invariant i <= |newDocs| + size - 1
        invariant added == MinInt(i, |newDocs|)
        invariant old(uploads) + Batches(newDocs, size) == uploads + BatchesFrom(newDocs, size, i)
        invariant ids == old(ids) + Elements(newIds[..MinInt(i, |newIds|)])
        decreases |newDocs| - i
      {
        var end := MinInt(i + size, |newDocs|);
        var batchDocs := newDocs[i..end];
        var batchIds := newIds[i..end];
        ghost var done := uploads;
        ghost var doneIds := ids;
        Store(batchDocs, batchIds);
        UploadStep(done, newDocs, size, i);
        IdsStep(doneIds, newIds, i, end);
        added := added + |batchDocs|;
        i := i + size;
      }
      assert newIds[..|newIds|] == newIds;
    }

    /** `similarity_search` on the backend's reply: the check for an empty collection, then the filter. */
    method SimilaritySearch(reply: BackendReply, minSimilarity: real) returns (r: Result<seq<Hit>, Raised>)
      ensures r == SearchOutcome(Count(), reply, minSimilarity)
    {
      var empty := IsEmpty();
      if empty {
        return Err(RuntimeError);
      }
      match reply
      case Failed(e) =>
        return Err(e);
      case Answered(results) =>
        var filtered := FilterByScore(results, minSimilarity);
        return Ok(filtered);
    }
  }

  /** One batch moves from the pending batches to the uploaded ones. */
  lemma UploadStep<T>(done: seq<seq<T>>, xs: seq<T>, size: nat, i: nat)
    requires size > 0 && i < |xs|
    ensures done + BatchesFrom(xs, size, i)
         == (done + [xs[i..MinInt(i + size, |xs|)]]) + BatchesFrom(xs, size, i + size)
  {
    var b := xs[i..MinInt(i + size, |xs|)];
    assert BatchesFrom(xs, size, i) == [b] + BatchesFrom(xs, size, i + size);
  }

  /** The ids of one more batch join the stored ones. */
  lemma IdsStep(stored: set<string>, xs: seq<string>, i: nat, end: nat)
    requires i <= end <= |xs|
    ensures stored + Elements(xs[..i]) + Elements(xs[i..end]) == stored + Elements(xs[..end])
  {
    assert xs[..end] == xs[..i] + xs[i..end];
  }
}
