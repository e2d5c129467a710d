# RAG chatbot core: a Dafny model

This project models the part of the chatbot backend that manages each user's
document index and turns retrieved passages into answers: the `RAGPipeline`
class of `rag/rag_pipeline.py` and the upload check
`DocumentUploadSerializer.validate_file` of `rag/serializers.py`.

The user's Chroma collection is modelled as the sequence of its records
(`Pipeline.RagPipeline.store`). Each record keeps its `page_content` and the
two metadata keys the code touches: `source` and the optional `doc_id`. The
class has these operations:

- ingestion (`ProcessDocument`): the path's extension picks a loader, the
  chunks are tagged with a truthy `doc_id`, then appended to the store;
- query (`Query`): the retrieval result, the context and prompt, the chat
  call, and the loop that collects deduplicated sources;
- deletion by document (`DeleteDocument`), clearing (`ClearAll`) and counting
  (`GetDocumentCount`).

The rest of the system is represented by parameters. A call into a library
(loader plus splitter, store writes, retriever, chat model, filesystem) is
either the value it returns or a flag saying it raised. Each `except` branch
of the source is the path taken when such a flag is set.

Modules: `Common` (Option, Result), `Text` (Python's `str.lower`,
`os.path.splitext`, `os.path.basename`, `str.join`), `Records` (records,
tagging, the delete filter), `Naming` (collection name and persist
directory), `Upload` (the validator), `Answer` (query post-processing) and
`Pipeline` (loader dispatch and the class).

Four behaviours of the code a caller might not expect; the model follows
the code:

- `delete_document` returns a boolean, not the number of records removed.
- `process_document` returns 0 both on failure and for a document that
  yields no chunks.
- `clear_all` can report failure after the collection is already gone,
  when only removing the directory fails.
- The upload whitelist admits `.doc`, which no loader reads. Such a
  document is stored, but ingesting it adds no chunks.

## Model

| member | source | states |
|---|---|---|
| Text.Lower | rag/rag_pipeline.py:53 | `str.lower` keeps the length, lower-cases each ASCII capital and leaves every other character alone |
| Text.LowerIdempotent | rag/serializers.py:12 | lower-casing an already lower-cased extension changes nothing |
| Text.LastIndex | rag/rag_pipeline.py:53 | `rfind` returns the last index holding the character, or -1 when it is absent |
| Text.ExtensionStart | rag/rag_pipeline.py:53 | the extension starts at the last dot of the last component when a non-dot character precedes that dot in the component; otherwise it starts at the end of the path, and then every dot of the last component has only dots before it |
| Text.ExtensionNoDot | rag/rag_pipeline.py:53 | a last component without a dot has the empty extension |
| Text.ExtensionOnlyLeadingDots | rag/rag_pipeline.py:53 | a last component whose characters before its last dot are all dots (`.bashrc`, `..x`) has the empty extension |
| Text.DotfileHasNoExtension | rag/serializers.py:12 | `.bashrc` and `dir/.bashrc` have the empty extension, so the whitelist refuses them |
| Text.DottedHasNoExtension | rag/serializers.py:12 | a name that is only a dotted suffix (`.pdf`) has the empty extension, its dot being a leading one |
| Text.Extension | rag/rag_pipeline.py:53 | `splitext(...)[1]` is empty or a dot followed by neither a dot nor a `/`, and it is a suffix of the path |
| Text.ExtensionOfName | rag/serializers.py:12 | a name whose last component has a non-dot character, followed by `.ext`, has extension `.ext` (so `a.tar.pdf` selects `.pdf`) |
| Text.ExtensionLower | rag/serializers.py:12 | taking the extension commutes with lower-casing, so the case-insensitive comparison is well defined |
| Text.Basename | rag/rag_pipeline.py:103 | `basename` is the suffix after the last `/` and holds no `/` |
| Text.BasenameNoSlash | rag/rag_pipeline.py:103 | a path without `/` is its own base name |
| Text.BasenameFollowsSlash | rag/rag_pipeline.py:103 | a base name shorter than the path follows a `/` |
| Text.BasenameOfJoin | rag/rag_pipeline.py:103 | the base name of `dir/name` is `name` |
| Text.Join | rag/rag_pipeline.py:88 | `sep.join(parts)`: the parts in order with one separator between neighbours; `JoinAt`, `JoinSeparatorAfter` and `JoinLastEnds` state where each part and separator sits |
| Text.JoinAt | rag/rag_pipeline.py:88 | in `sep.join(parts)`, part `k` appears at the sum of the earlier parts' lengths plus one separator each, in list order |
| Text.JoinSeparatorAfter | rag/rag_pipeline.py:88 | a separator follows every joined part except the last, and the next part starts right after it |
| Text.JoinLastEnds | rag/rag_pipeline.py:88 | the last joined part ends the string: no separator trails it |
| Records.Tagged | rag/rag_pipeline.py:68-70 | with a truthy `doc_id` every chunk carries that `doc_id`; with `None` or 0 the chunks are untouched; texts and sources are always kept |
| Records.Without | rag/rag_pipeline.py:115-117 | the store left by `get(where={"doc_id": id})` followed by `delete(ids=...)`: the records not carrying the id, in order; characterised by `WithoutKeepsExactlyOthers` and `WithoutConcat` |
| Records.WithoutKeepsExactlyOthers | rag/rag_pipeline.py:115-117 | deleting by `doc_id` keeps exactly the records not carrying that id and removes as many as carry it |
| Records.WithoutConcat | rag/rag_pipeline.py:115-117 | the delete filter works record by record, so the survivors keep their relative order |
| Records.WithoutNoMatch | rag/rag_pipeline.py:116 | when no record matches, nothing is deleted |
| Records.WithoutIdempotent | rag/rag_pipeline.py:112-118 | a second deletion of the same id changes nothing |
| Records.CountWithAll | rag/rag_pipeline.py:115 | when every record carries the id, the filter matches all of them |
| Records.TaggedAllDeleted | rag/rag_pipeline.py:69-70 | every chunk ingested under a truthy id is removed by deleting that id |
| Records.AddThenDelete | rag/rag_pipeline.py:64-121 | ingesting under a fresh truthy id and then deleting it restores the store; the count drops by exactly the number of chunks added |
| Records.UntaggedSurviveDelete | rag/rag_pipeline.py:68 | chunks ingested with `doc_id` `None` or 0 survive every later deletion of an id they do not carry |
| Naming.NatToString | rag/rag_pipeline.py:30 | `str(n)` of a natural number is a non-empty string of decimal digits that starts with `0` only for 0 itself (no leading zero) |
| Naming.IntToString | rag/rag_pipeline.py:30 | `str(i)` is non-empty and starts with `-` exactly for negative `i` |
| Naming.ParseNatToString | rag/rag_pipeline.py:30 | reading back the decimal form of a number gives the number |
| Naming.IntToStringInjective | rag/rag_pipeline.py:30 | distinct user ids have distinct decimal forms |
| Naming.CollectionName | rag/rag_pipeline.py:30 | `COLLECTION_NAME_TEMPLATE.format(user_id=...)` with the template `user_{user_id}_docs` of line 18: `user_`, the decimal user id, `_docs`; `CollectionNameInjective` states that it separates users |
| Naming.CollectionNameInjective | rag/rag_pipeline.py:30 | two users never share the collection name `user_{id}_docs` |
| Naming.PathJoin | rag/rag_pipeline.py:31 | `os.path.join(a, b)` ends in `b` |
| Naming.PersistDir | rag/rag_pipeline.py:31 | `os.path.join(VECTOR_STORE_BASE_DIR, f"user_{user_id}")`, with the base directory a parameter; `PersistDirInjective` states that it separates users |
| Naming.PersistDirInjective | rag/rag_pipeline.py:31 | under one base directory, two users never share a persist directory |
| Upload.ValidateFile | rag/serializers.py:11-26 | accepts the file unchanged exactly when its lower-cased extension is `.pdf`, `.doc`, `.docx` or `.txt` and its size is at most 10 MB. A bad extension is reported before the size, and a good extension with too large a size gives the size error |
| Upload.SizeLimitBoundary | rag/serializers.py:20-24 | exactly 10 x 1024 x 1024 bytes is accepted and one byte more is refused |
| Upload.ValidateIgnoresCase | rag/serializers.py:12-18 | changing the letter case of the file name never changes the verdict |
| Upload.AcceptsNamedFile | rag/serializers.py:12-18 | a name whose last component has a non-dot character before a whitelisted extension, in any letter case, is accepted within the size limit (`.pdf` alone is not) |
| Upload.BareExtensionRefused | rag/serializers.py:12-18 | a name that is only a dotted suffix, such as `.pdf`, has the empty extension and is refused whatever its size |
| Pipeline.LoaderFor | rag/rag_pipeline.py:54-55 | the `loaders` dictionary and its `get`: `.pdf`, `.docx` and `.txt` map to their loaders and every other key to nothing; `SelectLoader` states the resulting dispatch |
| Pipeline.SelectLoader | rag/rag_pipeline.py:52-57 | a loader is chosen exactly for lower-cased `.pdf`, `.docx` and `.txt`; any other extension gives the unsupported-type error naming that extension |
| Pipeline.SelectLoaderByExtension | rag/rag_pipeline.py:53-55 | when the last component has a non-dot character before the extension, `.pdf` goes to the PDF loader, `.docx` to the DOCX loader and `.txt` to the text loader, in any letter case (`.pdf` alone has no extension and loads nothing) |
| Pipeline.LoadableIffWhitelistedButDoc | rag/rag_pipeline.py:54 | the pipeline can load a file exactly when the upload whitelist admits its extension and that extension is not `.doc` |
| Pipeline.DocUploadAcceptedButNotLoadable | rag/serializers.py:13 | a `.doc` upload within the size limit passes validation, but the pipeline rejects it as an unsupported file type |
| Pipeline.RagPipeline.constructor | rag/rag_pipeline.py:28-41 | the pipeline opens collection `user_{id}_docs`, persisted under `<base>/user_{id}`, with the user's records already stored there |
| Pipeline.RagPipeline.ProcessDocument | rag/rag_pipeline.py:64-76 | an unsupported extension, a loader failure or a store failure returns 0 and leaves the store unchanged. Otherwise the (possibly tagged) chunks are appended in order and their number is returned |
| Pipeline.RagPipeline.Query | rag/rag_pipeline.py:82-110 | a failed retrieval gives the error result and an empty one gives "No relevant documents found.", both without calling the chat model. Otherwise the prompt holds the joined context and then the question; a failed chat call gives the error result and a successful one gives the reply with the citations. Sources are always distinct and typed "personal_document" |
| Pipeline.RagPipeline.DeleteDocument | rag/rag_pipeline.py:112-121 | on success, removes exactly the records tagged with the id, keeps the others and returns true, even when nothing matched. On failure it returns false and nothing changes |
| Pipeline.RagPipeline.ClearAll | rag/rag_pipeline.py:123-131 | after the collection is deleted the store is empty. Success is reported only when removing the directory also succeeds; if the collection deletion fails, nothing changes |
| Pipeline.RagPipeline.GetDocumentCount | rag/rag_pipeline.py:133-138 | the count is the number of stored records, or 0 when the store raises |
| Pipeline.IngestThenDelete | rag/rag_pipeline.py:64-121 | ingesting a document under a fresh truthy id and deleting it leaves the store as it was |
| Pipeline.ClearThenIngest | rag/rag_pipeline.py:123-138 | after a clear that empties the store the count returned is 0, and a successful next ingestion leaves exactly the new chunks in the store |
| Answer.Titles | rag/rag_pipeline.py:102-103 | one title per retrieved record, in retrieval order: the base name of its `source`, or `Unknown` |
| Answer.SourceTitle | rag/rag_pipeline.py:103 | `os.path.basename(doc.metadata.get("source", "Unknown"))`; `UnsourcedTitle`, `RelativeSourceTitle`, `Basename` and `BasenameFollowsSlash` state its cases |
| Answer.UnsourcedTitle | rag/rag_pipeline.py:103 | a record without a `source` is cited as `Unknown` |
| Answer.RelativeSourceTitle | rag/rag_pipeline.py:103 | a record whose `source` holds no `/` is cited by that `source` |
| Answer.FirstIndex | rag/rag_pipeline.py:104 | the first index holding a title, or the length when it is absent |
| Answer.Citations | rag/rag_pipeline.py:101-106 | the `sources` list: one `personal_document` entry per title, in the order titles are first retrieved; `CitationsWellFormed` and `CitationsFirstSeenOrder` characterise it and `ExtractSources` computes it with the loop |
| Answer.CitationsWellFormed | rag/rag_pipeline.py:101-107 | the sources cite every retrieved title and no other, each once, all typed "personal_document", and never more than the retrieved records |
| Answer.CitationsFirstSeenOrder | rag/rag_pipeline.py:101-106 | of two sources, the earlier one's title was retrieved first |
| Answer.ExtractSources | rag/rag_pipeline.py:101-106 | the loop with the `seen` set computes exactly the first-seen deduplicated citations |
| Answer.Context | rag/rag_pipeline.py:88 | the retrieved page contents joined with a blank line; `ContextHoldsTexts` states where each text sits |
| Answer.Prompt | rag/rag_pipeline.py:89-100 | `prompt.format(context=..., question=...)` for the template of lines 90-97, held character for character in `PROMPT`; `PromptEmbedsRetrievedTexts` states what the filled prompt holds |
| Answer.ContextHoldsTexts | rag/rag_pipeline.py:88 | the context holds each retrieved text at its place, in retrieval order, a blank line after every text but the last, and the last text ends the context |
| Answer.PromptEmbedsRetrievedTexts | rag/rag_pipeline.py:88-100 | a prompt filled from the context holds each retrieved text at its place, in retrieval order. Consecutive texts are separated by a blank line, and the template's middle part (`\n\nQuestion: ` for the prompt `query` sends) and the question follow the last one |

## Left out

- The text splitter (`RecursiveCharacterTextSplitter` with `CHUNK_SIZE` 500 and `CHUNK_OVERLAP` 100) is library code outside the repository. Its output, together with the loaders' output, enters `ProcessDocument` as the `loaded` parameter, and no windowing rule is assumed.
- The document loaders (PDF, DOCX and text parsing) are foreign calls. Their result is the same `loaded` parameter, `None` when they raise.
- Embeddings, Chroma's storage and similarity ranking involve floating point and library internals. Retrieval is the function parameter `retrieve` over the stored records, with no claim that it returns at most the 5 records `get_retriever` asks for or only stored ones.
- The HuggingFace endpoint and chat model construction are foreign calls. The chat call is the function parameter `chat`, which may fail.
- Pipeline.RagPipeline.DeleteDocument: a failure is modelled as leaving the store unchanged. What Chroma leaves behind when `delete` raises after a partial removal is library behaviour and is not captured.
- Pipeline.RagPipeline.ProcessDocument: a failed `add_documents` is modelled as adding nothing. Whether Chroma can keep part of a failed batch is library behaviour, and whether it raises on an empty batch is covered only by the `addFails` flag.
- Pipeline.RagPipeline.ClearAll: after `delete_collection` the model's store is simply empty. Whether later calls on the same pipeline object reach a recreated collection or raise depends on the library and is not modelled.
- Filesystem effects (`os.makedirs`, the `os.path.exists`/`shutil.rmtree` pair) are left out; only the failure of `rmtree` is kept, as a flag.
- Logging is left out. The unused `chat_history` argument of `query` and `get_retriever`'s search parameters (`k` = 5) are not modelled.
- Text.Lower: `str.lower` is modelled on ASCII only. No non-ASCII character lower-cases to a letter of `pdf`, `doc`, `docx` or `txt`, so every whitelist and loader verdict agrees with Python's.
- Text.Extension: `os.path` is taken to be the POSIX flavour, where `/` is the only separator.
- Records: metadata keys other than `source` and `doc_id` (such as a PDF page number) are not modelled. `source` is always a string when present.
- Concurrency, atomic rollback across calls and tie-breaking in retrieval are not implemented by the source and are not modelled.
- Django views, URL routing, ORM models, file removal on document deletion and the background scheduler in `rag/tasks.py` are outside this model.
