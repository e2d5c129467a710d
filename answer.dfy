/**
  What `RAGPipeline.query` does with the records the retriever returns: the
  two sentinel results, the context string, the prompt, and the list of cited
  sources.
 */
module Answer {
  import opened Common
  import opened Text
  import opened Records

  const NO_DOCUMENTS_ANSWER: string := "No relevant documents found."
  const QUERY_ERROR_ANSWER: string := "Error during query."
  /** The `source` used for a record whose metadata has none. */
  const UNKNOWN_SOURCE: string := "Unknown"
  /** The `type` of every cited source. */
  const SOURCE_KIND: string := "personal_document"
  const CONTEXT_SEPARATOR: string := "\n\n"

  /** A prompt template cut at its two placeholders `{context}` and `{question}`: the text before, between and after them. */
  datatype Template = Template(head: string, middle: string, tail: string) {
    /** `template.format(context=context, question=question)`. */
    function Fill(context: string, question: string): string {
      head + context + middle + question + tail
    }
  }

  /** The template `query` formats. */
  const PROMPT: Template := Template(
    "You are a helpful assistant answering questions based on user's documents.\n\nContext:\n",
    "\n\nQuestion: ",
    "\n\nAnswer:")

  /** One entry of `sources`: `{"title": title, "type": kind}`. */
  datatype Citation = Citation(title: string, kind: string)

  /** The dictionary `query` returns: `{"answer": answer, "sources": sources}`. */
  datatype QueryResult = QueryResult(answer: string, sources: seq<Citation>)

  function NoDocumentsResult(): QueryResult {
    QueryResult(NO_DOCUMENTS_ANSWER, [])
  }

  function ErrorResult(): QueryResult {
    QueryResult(QUERY_ERROR_ANSWER, [])
  }

  /**
    `os.path.basename(doc.metadata.get("source", "Unknown"))`: the base name
    of the record's source, or "Unknown" when it has none.
   */
  function SourceTitle(r: Record): string {
    Basename(r.metadata.source.GetOr(UNKNOWN_SOURCE))
  }

  /** A record without a `source` is cited as "Unknown". */
  lemma UnsourcedTitle(r: Record)
    requires r.metadata.source.None?
    ensures SourceTitle(r) == UNKNOWN_SOURCE
  {
    var u := UNKNOWN_SOURCE;
    assert forall k :: 0 <= k < |u| ==> u[k] != '/' by {
      assert u == ['U', 'n', 'k', 'n', 'o', 'w', 'n'];
    }
    BasenameNoSlash(u);
  }

  /** A record whose `source` holds no `/` is cited by that `source` itself. */
  lemma RelativeSourceTitle(r: Record)
    requires r.metadata.source.Some?
    requires forall k :: 0 <= k < |r.metadata.source.value| ==> r.metadata.source.value[k] != '/'
    ensures SourceTitle(r) == r.metadata.source.value
  {
    BasenameNoSlash(r.metadata.source.value);
  }

  /** The title of every retrieved record, in retrieval order, duplicates included. */
  function Titles(docs: seq<Record>): (ts: seq<string>)
    ensures |ts| == |docs| && forall i :: 0 <= i < |docs| ==> ts[i] == SourceTitle(docs[i])
  {
    seq(|docs|, i requires 0 <= i < |docs| => SourceTitle(docs[i]))
  }

  function TitlesOf(cs: seq<Citation>): (ts: seq<string>)
    ensures |ts| == |cs| && forall i :: 0 <= i < |cs| ==> ts[i] == cs[i].title
  {
    seq(|cs|, i requires 0 <= i < |cs| => cs[i].title)
  }

  predicate Distinct(s: seq<string>) {
    forall i, j :: 0 <= i < j < |s| ==> s[i] != s[j]
  }

  /** The index of the first occurrence of `t` in `s`, or `|s|` when there is none. */
  function FirstIndex(s: seq<string>, t: string): (k: nat)
    ensures k <= |s|
    ensures k < |s| ==> s[k] == t
    ensures forall j :: 0 <= j < k ==> s[j] != t
    decreases |s|
  {
    if s == [] then 0 else if s[0] == t then 0 else 1 + FirstIndex(s[1..], t)
  }

  /** The first index of `t` is the only index satisfying the conditions of its contract. */
  lemma FirstIndexIs(s: seq<string>, t: string, k: nat)
    requires k <= |s|
    requires k < |s| ==> s[k] == t
    requires forall j :: 0 <= j < k ==> s[j] != t
    ensures FirstIndex(s, t) == k
  {
  }

  /** The first occurrence of a title does not move when something is appended after it. */
  lemma FirstIndexAppend(s: seq<string>, x: string, t: string)
    requires t in s
    ensures FirstIndex(s + [x], t) == FirstIndex(s, t)
  {
    var k := FirstIndex(s, t);
    assert (s + [x])[k] == t;
    forall j | 0 <= j < k ensures (s + [x])[j] != t {
      assert (s + [x])[j] == s[j];
    }
    FirstIndexIs(s + [x], t, k);
  }

  /**
    The `sources` of a successful query, as the loop at the end of `query`
    builds them: one citation per distinct title, in the order of its first
    retrieval.
   */
  function Citations(docs: seq<Record>): seq<Citation>
    decreases |docs|
  {
    if docs == [] then []
    else
      var earlier := Citations(docs[..|docs| - 1]);
      var t := SourceTitle(docs[|docs| - 1]);
      if t in TitlesOf(earlier) then earlier else earlier + [Citation(t, SOURCE_KIND)]
  }

  /**
    The citations name every retrieved title and nothing else, each exactly
    once and with type "personal_document", and there are never more of them
    than retrieved records (so at most five for a top-5 retrieval).
   */
  lemma {:induction false} CitationsWellFormed(docs: seq<Record>)
    ensures Distinct(TitlesOf(Citations(docs)))
    ensures forall t :: t in TitlesOf(Citations(docs)) <==> t in Titles(docs)
    ensures forall c :: c in Citations(docs) ==> c.kind == SOURCE_KIND
    ensures |Citations(docs)| <= |docs|
    decreases |docs|
  {
    if docs != [] {
      var init := docs[..|docs| - 1];
      var earlier := Citations(init);
      var t := SourceTitle(docs[|docs| - 1]);
      CitationsWellFormed(init);
      TitlesSnoc(docs);
      if t in TitlesOf(earlier) {
        assert Citations(docs) == earlier;
      } else {
        var c := Citation(t, SOURCE_KIND);
        assert Citations(docs) == earlier + [c];
        TitlesOfSnoc(earlier, c);
        DistinctAppend(TitlesOf(earlier), t);
      }
    }
  }

  /** The titles of a non-empty retrieval are those of all but its last record, then the last one's. */
  lemma TitlesSnoc(docs: seq<Record>)
    requires docs != []
    ensures Titles(docs) == Titles(docs[..|docs| - 1]) + [SourceTitle(docs[|docs| - 1])]
  {
  }

  /** Appending a citation appends its title. */
  lemma TitlesOfSnoc(cs: seq<Citation>, c: Citation)
    ensures TitlesOf(cs + [c]) == TitlesOf(cs) + [c.title]
  {
  }

  /** Appending a new title keeps a list of titles free of duplicates. */
  lemma DistinctAppend(s: seq<string>, t: string)
    requires Distinct(s) && t !in s
    ensures Distinct(s + [t])
  {
    forall i, j | 0 <= i < j < |s| + 1 ensures (s + [t])[i] != (s + [t])[j] {
      assert (s + [t])[i] == s[i];
      if j == |s| {
        assert s[i] in s;
      } else {
        assert (s + [t])[j] == s[j];
      }
    }
  }

  /** Of two citations, the earlier one's title occurs first in `ts`. */
  ghost predicate FirstSeenOrdered(cs: seq<Citation>, ts: seq<string>) {
    forall i, j :: 0 <= i < j < |cs| ==> FirstIndex(ts, cs[i].title) < FirstIndex(ts, cs[j].title) < |ts|
  }

  /** One step of the loop keeps the citations in first-seen order. */
  lemma FirstSeenOrderedStep(cs: seq<Citation>, ts: seq<string>, t: string)
    requires FirstSeenOrdered(cs, ts)
    requires forall i :: 0 <= i < |cs| ==> cs[i].title in ts
    requires t !in TitlesOf(cs) ==> t !in ts
    ensures FirstSeenOrdered(if t in TitlesOf(cs) then cs else cs + [Citation(t, SOURCE_KIND)], ts + [t])
  {
    var ts' := ts + [t];
    forall i | 0 <= i < |cs| ensures FirstIndex(ts', cs[i].title) == FirstIndex(ts, cs[i].title) < |ts| {
      FirstIndexAppend(ts, t, cs[i].title);
    }
    if t !in TitlesOf(cs) {
      var cs' := cs + [Citation(t, SOURCE_KIND)];
      FirstIndexIs(ts', t, |ts|);
      forall i, j | 0 <= i < j < |cs'|
        ensures FirstIndex(ts', cs'[i].title) < FirstIndex(ts', cs'[j].title) < |ts'|
      {
        assert cs'[i] == cs[i];
        if j < |cs| {
          assert cs'[j] == cs[j];
        }
      }
    }
  }

  /**
    The citations keep the order of first appearance: of two citations, the
    earlier one's title was retrieved first.
   */
  lemma {:induction false} CitationsFirstSeenOrder(docs: seq<Record>)
    ensures FirstSeenOrdered(Citations(docs), Titles(docs))
    decreases |docs|
  {
    if docs != [] {
      var init := docs[..|docs| - 1];
      var t := SourceTitle(docs[|docs| - 1]);
      var earlier := Citations(init);
      CitationsFirstSeenOrder(init);
      assert forall i :: 0 <= i < |earlier| ==> earlier[i].title in Titles(init) by {
        CitationsWellFormed(init);
        forall i | 0 <= i < |earlier| ensures earlier[i].title in Titles(init) {
          assert TitlesOf(earlier)[i] == earlier[i].title;
        }
      }
      assert t !in TitlesOf(earlier) ==> t !in Titles(init) by {
        CitationsWellFormed(init);
      }
      TitlesSnoc(docs);
      FirstSeenOrderedStep(earlier, Titles(init), t);
    }
  }

  /**
    The loop of `query` that builds `sources`, keeping the titles already
    cited in `seen`; it computes `Citations(docs)`.
   */
  method ExtractSources(docs: seq<Record>) returns (sources: seq<Citation>)
    ensures sources == Citations(docs)
  {
    sources := [];
    var seen: set<string> := {};
    var i := 0;
    while i < |docs|
      invariant 0 <= i <= |docs|
      invariant sources == Citations(docs[..i])
      invariant forall t :: t in seen <==> t in TitlesOf(sources)
    {
      var srcFile := SourceTitle(docs[i]);
      assert docs[..i + 1][..i] == docs[..i];
      if srcFile !in seen {
        assert TitlesOf(sources + [Citation(srcFile, SOURCE_KIND)]) == TitlesOf(sources) + [srcFile];
        sources := sources + [Citation(srcFile, SOURCE_KIND)];
        seen := seen + {srcFile};
      }
      i := i + 1;
    }
    assert docs[..i] == docs;
  }

  function PageContents(docs: seq<Record>): (texts: seq<string>)
    ensures |texts| == |docs| && forall i :: 0 <= i < |docs| ==> texts[i] == docs[i].pageContent
  {
    seq(|docs|, i requires 0 <= i < |docs| => docs[i].pageContent)
  }

  /** `"\n\n".join([doc.page_content for doc in docs])`. */
  function Context(docs: seq<Record>): string {
    Join(PageContents(docs), CONTEXT_SEPARATOR)
  }

  /** The prompt `query` sends to the chat model. */
  function Prompt(context: string, question: string): string {
    PROMPT.Fill(context, question)
  }

  /** The context sits right after the template's head. */
  lemma FillContextSlice(t: Template, context: string, question: string, i: int, j: int)
    requires 0 <= i <= j <= |context|
    ensures t.Fill(context, question)[|t.head| + i..|t.head| + j] == context[i..j]
  {
    var rest := context + t.middle + question + t.tail;
    assert t.Fill(context, question) == t.head + rest;
    SliceOfAppend(t.head, rest, i, j);
    assert rest[i..j] == context[i..j];
  }

  /** The question, introduced by the template's middle part, follows the context. */
  lemma FillQuestionSlice(t: Template, context: string, question: string)
    ensures var h := |t.head| + |context|;
      t.Fill(context, question)[h..h + |t.middle| + |question|] == t.middle + question
  {
    var rest := t.middle + question + t.tail;
    assert t.Fill(context, question) == (t.head + context) + rest;
    SliceOfAppend(t.head + context, rest, 0, |t.middle| + |question|);
    assert rest[..|t.middle| + |question|] == t.middle + question;
  }

  /**
    The context holds the retrieved texts in retrieval order: text `k` sits at
    `Offset(PageContents(docs), CONTEXT_SEPARATOR, k)`, a blank line follows
    every text but the last, and the last one ends the context.
   */
  lemma ContextHoldsTexts(docs: seq<Record>, k: nat)
    requires k < |docs|
    ensures var o := Offset(PageContents(docs), CONTEXT_SEPARATOR, k);
      o + |docs[k].pageContent| <= |Context(docs)| && Context(docs)[o..o + |docs[k].pageContent|] == docs[k].pageContent
    ensures var e := Offset(PageContents(docs), CONTEXT_SEPARATOR, k) + |docs[k].pageContent|;
      k + 1 < |docs| ==> e + 2 <= |Context(docs)| && Context(docs)[e..e + 2] == CONTEXT_SEPARATOR
    ensures var e := Offset(PageContents(docs), CONTEXT_SEPARATOR, k) + |docs[k].pageContent|;
      k + 1 == |docs| ==> e == |Context(docs)|
  {
    var texts := PageContents(docs);
    assert texts[k] == docs[k].pageContent;
    JoinAt(texts, CONTEXT_SEPARATOR, k);
    if k + 1 < |docs| {
      JoinSeparatorAfter(texts, CONTEXT_SEPARATOR, k);
    } else {
      JoinLastEnds(texts, CONTEXT_SEPARATOR);
    }
  }

  /**
    A prompt built from the context holds the retrieved texts in retrieval
    order, each at its place in the context, a blank line between consecutive
    ones, and the question after all of them. This holds for every template,
    `PROMPT` among them.
   */
  lemma PromptEmbedsRetrievedTexts(t: Template, docs: seq<Record>, question: string, k: nat)
    requires k < |docs|
    ensures var o := |t.head| + Offset(PageContents(docs), CONTEXT_SEPARATOR, k);
      o + |docs[k].pageContent| <= |t.head| + |Context(docs)| &&
      t.Fill(Context(docs), question)[o..o + |docs[k].pageContent|] == docs[k].pageContent
    ensures var e := |t.head| + Offset(PageContents(docs), CONTEXT_SEPARATOR, k) + |docs[k].pageContent|;
      k + 1 < |docs| ==> e + 2 <= |t.head| + |Context(docs)| && t.Fill(Context(docs), question)[e..e + 2] == CONTEXT_SEPARATOR
    ensures var e := |t.head| + Offset(PageContents(docs), CONTEXT_SEPARATOR, k) + |docs[k].pageContent|;
      k + 1 == |docs| ==> t.Fill(Context(docs), question)[e..e + |t.middle| + |question|] == t.middle + question
  {
    var c := Context(docs);
    var o := Offset(PageContents(docs), CONTEXT_SEPARATOR, k);
    var e := o + |docs[k].pageContent|;
    ContextHoldsTexts(docs, k);
    FillContextSlice(t, c, question, o, e);
    if k + 1 < |docs| {
      FillContextSlice(t, c, question, e, e + 2);
    } else {
      FillQuestionSlice(t, c, question);
    }
  }
}
