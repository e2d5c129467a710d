/**
  `RAGPipeline`: one user's vector store, modelled as the sequence of its
  records, with ingestion, query, deletion by document, clearing and
  counting. Every call into code outside the repository (the document
  loaders and the text splitter, the embedding-backed store, the retriever,
  the chat model, the filesystem) is a parameter: either the value that code
  returns or a flag saying that it raised.
 */
module Pipeline {
  import opened Common
  import opened Text
  import opened Records
  import opened Naming
  import opened Answer
  import Upload

  /** The document loaders the pipeline dispatches to. */
  datatype Loader = PyPdfLoader | Docx2txtLoader | TextLoader

  /** The `ValueError` raised for a file type no loader reads. */
  datatype LoadError = UnsupportedFileType(ext: string) {
    function Message(): string {
      "Unsupported file type: " + ext
    }
  }

  /** The `loaders` dictionary of `_load_documents`. */
  function LoaderFor(ext: string): Option<Loader> {
    if ext == ".pdf" then Some(PyPdfLoader)
    else if ext == ".docx" then Some(Docx2txtLoader)
    else if ext == ".txt" then Some(TextLoader)
    else None
  }

  /**
    The loader `_load_documents` picks for a path: the lower-cased extension
    looked up in the table, or the error naming that extension.
   */
  function SelectLoader(filePath: string): (r: Result<Loader, LoadError>)
    ensures r.Ok? <==> Lower(Extension(filePath)) in [".pdf", ".docx", ".txt"]
    ensures r.Err? ==> r.error == UnsupportedFileType(Lower(Extension(filePath)))
  {
    var ext := Lower(Extension(filePath));
    match LoaderFor(ext)
    case Some(loader) => Ok(loader)
    case None => Err(UnsupportedFileType(ext))
  }

  /** The three loaders read each of their extensions in any letter case. */
  lemma SelectLoaderByExtension(stem: string, ext: string)
    requires HasNonDot(stem, LastIndex(stem, '/') + 1, |stem|)
    requires Lower(ext) in [".pdf", ".docx", ".txt"]
    ensures Lower(ext) == ".pdf" ==> SelectLoader(stem + ext) == Ok(PyPdfLoader)
    ensures Lower(ext) == ".docx" ==> SelectLoader(stem + ext) == Ok(Docx2txtLoader)
    ensures Lower(ext) == ".txt" ==> SelectLoader(stem + ext) == Ok(TextLoader)
  {
    assert Extension(stem + ext) == ext by {
      Upload.WhitelistDotted(Lower(ext));
      DottedLower(ext);
      ExtensionOfName(stem, ext);
    }
  }

  /**
    Every file the pipeline can load passes the upload whitelist, and the
    whitelist admits exactly one extension no loader reads: `.doc`.
   */
  lemma LoadableIffWhitelistedButDoc(filePath: string)
    ensures SelectLoader(filePath).Ok? <==>
      Lower(Extension(filePath)) in Upload.ALLOWED_EXTENSIONS && Lower(Extension(filePath)) != ".doc"
  {
  }

  /** An upload the validator accepts but the pipeline cannot load: a `.doc` file within the size limit. */
  lemma DocUploadAcceptedButNotLoadable(name: string, size: int)
    requires Lower(Extension(name)) == ".doc"
    requires size <= Upload.MAX_UPLOAD_SIZE
    ensures Upload.ValidateFile(Upload.UploadedFile(name, size)).Ok?
    ensures SelectLoader(name) == Err(UnsupportedFileType(".doc"))
  {
  }

  class RagPipeline {
    const userId: int
    const collectionName: string
    const persistDir: string
    /** The records of the user's collection, in insertion order. */
    var store: seq<Record>

    /**
      Opens the user's collection under `baseDir`; `persisted` is what an
      earlier pipeline for the same user left in it.
     */
    constructor (userId: int, baseDir: string, persisted: seq<Record>)
      ensures this.userId == userId
      ensures collectionName == CollectionName(userId)
      ensures persistDir == PersistDir(baseDir, userId)
      ensures store == persisted
    {
      this.userId := userId;
      collectionName := CollectionName(userId);
      persistDir := PersistDir(baseDir, userId);
      store := persisted;
    }

    /**
      `process_document`. `loaded` is what loading the file and splitting the
      loaded documents produce (`None` if the loader raises); `addFails` says
      the store raises while adding. On success the (possibly tagged) chunks
      are appended and their number returned; on any failure nothing is
      added and 0 is returned.
     */
    method ProcessDocument(filePath: string, docId: Option<int>, loaded: Option<seq<Record>>, addFails: bool)
      returns (added: nat)
      modifies this
      ensures SelectLoader(filePath).Err? || loaded.None? || addFails ==> added == 0 && store == old(store)
      ensures SelectLoader(filePath).Ok? && loaded.Some? && !addFails ==>
        added == |loaded.value| && store == old(store) + Tagged(loaded.value, docId)
    {
      var loader := SelectLoader(filePath);
      if loader.Err? || loaded.None? {
        return 0;
      }
      var chunks := loaded.value;
      if Truthy(docId) {
        var i := 0;
        while i < |chunks|
          invariant 0 <= i <= |chunks|
          invariant |chunks| == |loaded.value|
          invariant forall j :: 0 <= j < i ==> chunks[j] == Tag(loaded.value[j], docId.value)
          invariant forall j :: i <= j < |chunks| ==> chunks[j] == loaded.value[j]
        {
          chunks := chunks[i := Tag(chunks[i], docId.value)];
          i := i + 1;
        }
      }
      if addFails {
        return 0;
      }
      store := store + chunks;
      added := |chunks|;
    }

    /**
      `query`. `retrieve` stands for the top-5 similarity search
      over the store (`None` if it raises) and `chat` for the chat model
      (`None` if it raises). Besides the result, `asked` is the prompt sent
      to the chat model, `None` when it is not called.
     */
    method Query(question: string, retrieve: (seq<Record>, string) -> Option<seq<Record>>, chat: string -> Option<string>)
      returns (result: QueryResult, asked: Option<string>)
      ensures retrieve(store, question).None? ==> result == ErrorResult() && asked == None
      ensures retrieve(store, question) == Some([]) ==> result == NoDocumentsResult() && asked == None
      ensures match retrieve(store, question)
        case Some(docs) =>
          docs != [] ==>
            && asked == Some(Prompt(Context(docs), question))
            && result == (match chat(asked.value)
                          case None => ErrorResult()
                          case Some(answer) => QueryResult(answer, Citations(docs)))
        case None => true
      ensures Distinct(TitlesOf(result.sources))
      ensures forall c :: c in result.sources ==> c.kind == SOURCE_KIND
    {
      var found := retrieve(store, question);
      if found.None? {
        return ErrorResult(), None;
      }
      var docs := found.value;
      if docs == [] {
        return NoDocumentsResult(), None;
      }
      var context := Context(docs);
      var prompt := Prompt(context, question);
      asked := Some(prompt);
      var reply := chat(prompt);
      if reply.None? {
        return ErrorResult(), asked;
      }
      var sources := ExtractSources(docs);
      CitationsWellFormed(docs);
      result := QueryResult(reply.value, sources);
    }

    /**
      `delete_document`: removes exactly the records tagged with `docId` and
      keeps the others in order; `fails` says the store raises, and then
      nothing changes and the result is false. Deleting an id that no record
      carries succeeds.
     */
    method DeleteDocument(docId: int, fails: bool) returns (ok: bool)
      modifies this
      ensures ok == !fails
      ensures store == if fails then old(store) else Without(old(store), docId)
    {
      if fails {
        return false;
      }
      var kept := [];
      var i := 0;
      while i < |store|
        invariant 0 <= i <= |store|
        invariant kept == Without(store[..i], docId)
      {
        assert store[..i + 1][..i] == store[..i];
        if !HasDocId(store[i], docId) {
          kept := kept + [store[i]];
        }
        i := i + 1;
      }
      assert store[..i] == store;
      store := kept;
      ok := true;
    }

    /**
      `clear_all`: deletes the collection and then its persist directory.
      If deleting the collection raises, nothing changes; if only removing
      the directory raises, the store is already empty. Either failure
      yields false.
     */
    method ClearAll(deleteFails: bool, removeDirFails: bool) returns (ok: bool)
      modifies this
      ensures ok == (!deleteFails && !removeDirFails)
      ensures store == if deleteFails then old(store) else []
    {
      if deleteFails {
        return false;
      }
      store := [];
      ok := !removeDirFails;
    }

    /** `get_document_count`: the number of stored records, or 0 if the store raises. */
    method GetDocumentCount(fails: bool) returns (count: nat)
      ensures fails ==> count == 0
      ensures !fails ==> count == |store|
    {
      if fails {
        return 0;
      }
      count := |store|;
    }
  }

  /**
    A document ingested under a truthy id is gone after deleting that id:
    the count returns to what it was before ingestion.
   */
  method IngestThenDelete(p: RagPipeline, filePath: string, docId: int, loaded: seq<Record>)
    requires docId != 0
    requires SelectLoader(filePath).Ok?
    requires forall r :: r in p.store ==> !HasDocId(r, docId)
    modifies p
    ensures p.store == old(p.store)
  {
    var added := p.ProcessDocument(filePath, Some(docId), Some(loaded), false);
    assert p.store == old(p.store) + Tagged(loaded, Some(docId));
    var ok := p.DeleteDocument(docId, false);
    AddThenDelete(old(p.store), loaded, docId);
  }

  /** After a successful clear the count is 0, and a later ingestion starts from an empty store. */
  method ClearThenIngest(p: RagPipeline, filePath: string, loaded: seq<Record>) returns (count: int)
    requires SelectLoader(filePath).Ok?
    modifies p
    ensures count == 0
    ensures p.store == loaded
  {
    var ok := p.ClearAll(false, false);
    count := p.GetDocumentCount(false);
    var added := p.ProcessDocument(filePath, None, Some(loaded), false);
    assert added == |loaded|;
  }
}
