/**
  The records of the per-user vector store, abstracted from their embeddings:
  each keeps its text and the two metadata keys the pipeline reads or writes,
  `source` (set by the document loaders) and `doc_id` (set by the pipeline).
 */
module Records {
  import opened Common

  datatype Metadata = Metadata(source: Option<string>, docId: Option<int>)

  datatype Record = Record(pageContent: string, metadata: Metadata)

  /** Python truthiness of an optional integer: `None` and `0` are false. */
  predicate Truthy(docId: Option<int>) {
    docId.Some? && docId.value != 0
  }

  /** `chunk.metadata['doc_id'] = docId`. */
  function Tag(chunk: Record, docId: int): Record {
    chunk.(metadata := chunk.metadata.(docId := Some(docId)))
  }

  /**
    The chunks as `process_document` hands them to the store: tagged with the
    document id when it is truthy, untouched otherwise.
   */
  function Tagged(chunks: seq<Record>, docId: Option<int>): (out: seq<Record>)
    ensures |out| == |chunks|
    ensures forall i :: 0 <= i < |chunks| ==>
      out[i].pageContent == chunks[i].pageContent && out[i].metadata.source == chunks[i].metadata.source
    ensures Truthy(docId) ==> forall i :: 0 <= i < |out| ==> out[i].metadata.docId == docId
    ensures !Truthy(docId) ==> out == chunks
  {
    if Truthy(docId) then seq(|chunks|, i requires 0 <= i < |chunks| => Tag(chunks[i], docId.value)) else chunks
  }

  /** The store's `where={"doc_id": docId}` filter. */
  predicate HasDocId(r: Record, docId: int) {
    r.metadata.docId == Some(docId)
  }

  /** The records that survive `delete_document(docId)`, in their stored order. */
  function Without(records: seq<Record>, docId: int): seq<Record>
    decreases |records|
  {
    if records == [] then []
    else
      var last := records[|records| - 1];
      Without(records[..|records| - 1], docId) + (if HasDocId(last, docId) then [] else [last])
  }

  /** How many records carry `doc_id == docId`. */
  function CountWith(records: seq<Record>, docId: int): nat
    decreases |records|
  {
    if records == [] then 0
    else CountWith(records[..|records| - 1], docId) + (if HasDocId(records[|records| - 1], docId) then 1 else 0)
  }

  /**
    Deleting by document id keeps exactly the records that do not carry that
    id, and removes as many records as carry it.
   */
  lemma {:induction false} WithoutKeepsExactlyOthers(records: seq<Record>, docId: int)
    ensures forall r :: r in Without(records, docId) <==> r in records && !HasDocId(r, docId)
    ensures |Without(records, docId)| + CountWith(records, docId) == |records|
    decreases |records|
  {
    if records != [] {
      var init := records[..|records| - 1];
      WithoutKeepsExactlyOthers(init, docId);
      assert records == init + [records[|records| - 1]];
    }
  }

  /** The filter works record by record: it distributes over concatenation, so the survivors keep their relative order. */
  lemma {:induction false} WithoutConcat(a: seq<Record>, b: seq<Record>, docId: int)
    ensures Without(a + b, docId) == Without(a, docId) + Without(b, docId)
    decreases |b|
  {
    if b == [] {
      assert a + b == a;
    } else {
      var init := b[..|b| - 1];
      WithoutConcat(a, init, docId);
      assert (a + b)[..|a + b| - 1] == a + init;
      assert (a + b)[|a + b| - 1] == b[|b| - 1];
    }
  }

  /** Deleting an id that no record carries changes nothing. */
  lemma {:induction false} WithoutNoMatch(records: seq<Record>, docId: int)
    requires forall i :: 0 <= i < |records| ==> !HasDocId(records[i], docId)
    ensures Without(records, docId) == records
    decreases |records|
  {
    if records != [] {
      var init := records[..|records| - 1];
      var last := records[|records| - 1];
      assert !HasDocId(last, docId);
      WithoutNoMatch(init, docId);
      assert Without(records, docId) == init + [last];
      assert init + [last] == records;
    }
  }

  /** Deleting the same document twice is the same as deleting it once. */
  lemma WithoutIdempotent(records: seq<Record>, docId: int)
    ensures Without(Without(records, docId), docId) == Without(records, docId)
  {
    WithoutKeepsExactlyOthers(records, docId);
    WithoutNoMatch(Without(records, docId), docId);
  }

  /** When every record carries the id, all of them are counted. */
  lemma {:induction false} CountWithAll(records: seq<Record>, docId: int)
    requires forall i :: 0 <= i < |records| ==> HasDocId(records[i], docId)
    ensures CountWith(records, docId) == |records|
    decreases |records|
  {
    if records != [] {
      CountWithAll(records[..|records| - 1], docId);
    }
  }

  /** Every chunk stored under a truthy id is removed by deleting that id. */
  lemma TaggedAllDeleted(chunks: seq<Record>, docId: int)
    requires docId != 0
    ensures Without(Tagged(chunks, Some(docId)), docId) == []
  {
    var t := Tagged(chunks, Some(docId));
    WithoutKeepsExactlyOthers(t, docId);
    CountWithAll(t, docId);
  }

  /**
    Adding a document's chunks under a fresh truthy id and then deleting that
    id restores the store, so the count drops by exactly the number of chunks
    added.
   */
  lemma AddThenDelete(store: seq<Record>, chunks: seq<Record>, docId: int)
    requires docId != 0
    requires forall r :: r in store ==> !HasDocId(r, docId)
    ensures Without(store + Tagged(chunks, Some(docId)), docId) == store
    ensures |store + Tagged(chunks, Some(docId))| - |Without(store + Tagged(chunks, Some(docId)), docId)| == |chunks|
  {
    WithoutConcat(store, Tagged(chunks, Some(docId)), docId);
    WithoutNoMatch(store, docId);
    TaggedAllDeleted(chunks, docId);
  }

  /** Chunks stored without a truthy id are never removed by deleting an id they do not already carry. */
  lemma UntaggedSurviveDelete(store: seq<Record>, chunks: seq<Record>, docId: Option<int>, d: int)
    requires !Truthy(docId)
    requires forall r :: r in chunks ==> !HasDocId(r, d)
    ensures Without(store + Tagged(chunks, docId), d) == Without(store, d) + chunks
  {
    WithoutConcat(store, chunks, d);
    WithoutNoMatch(chunks, d);
  }
}
