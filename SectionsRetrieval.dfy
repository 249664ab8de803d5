/** `get_sections_content`: validate the arguments, resolve the document,
    match the heading patterns, expand the matched sections to their
    subtrees in path order, and render the result as Markdown.

    The document table and the section table are passed in as sequences;
    the two SQL queries are the functions of `SectionStore`. */
module SectionsRetrieval {
  import opened Basics
  import opened Paths
  import opened PatternMatch
  import opened SectionStore
  import opened Markdown

  /** An element of `section_list` as the caller passes it: a Python `str`,
      or a value of any other type. */
  datatype Identifier = Text(text: string) | NotText

  /** The exceptions `get_sections_content` raises. */
  datatype Error =
    | MissingDocId                  // "Missing required argument: doc_id"
    | MissingSectionList            // "Missing required argument: section_list"
    | IdentifierNotText             // "All section identifiers must be strings"
    | DocumentNotFound(id: DocId)   // "Document with ID ... not found in the database."
    | NoSectionsFound               // "No sections found for document ..."
    | HierarchicalSearchFailed      // "Failed to perform hierarchical search ..."
    | RetrievalFailed(cause: Error) // the `except` clause's wrapping re-raise

  /** `get_document_by_id`: the first document with the given id, if any. */
  function FindDocument(documents: seq<Document>, id: DocId): (r: Option<Document>)
    ensures r.Some? ==> r.value in documents && r.value.id == id
    ensures r.None? <==> forall d :: d in documents ==> d.id != id
    decreases |documents|
  {
    if documents == [] then None
    else if documents[0].id == id then Some(documents[0])
    else
      assert forall d :: d in documents ==> d == documents[0] || d in documents[1..];
      FindDocument(documents[1..], id)
  }

  predicate AllText(ids: seq<Identifier>)
  {
    forall i :: 0 <= i < |ids| ==> ids[i].Text?
  }

  /** The arguments pass the three checks made before the `try`. */
  predicate ValidArguments(docId: Option<DocId>, sectionList: Option<seq<Identifier>>)
  {
    docId.Some? && sectionList.Some? && |sectionList.value| > 0 && AllText(sectionList.value)
  }

  function Texts(ids: seq<Identifier>): (r: seq<string>)
    requires AllText(ids)
    ensures |r| == |ids|
    ensures forall p :: p in r <==> Text(p) in ids
  {
    var r := seq(|ids|, i requires 0 <= i < |ids| => ids[i].text);
    assert forall i :: 0 <= i < |ids| ==> ids[i] == Text(r[i]);
    r
  }

  /** The patterns a valid `section_list` carries. */
  function PatternsOf(sectionList: Option<seq<Identifier>>): seq<string>
    requires sectionList.Some? && AllText(sectionList.value)
  {
    Texts(sectionList.value)
  }

  /** The columns the subtree query selects: heading, level, content. */
  function ContentOf(s: Section): SectionContent
  {
    SectionContent(s.heading, s.level, s.content)
  }

  function Contents(sections: seq<Section>): seq<SectionContent>
  {
    seq(|sections|, i requires 0 <= i < |sections| => ContentOf(sections[i]))
  }

  /** `get_sections_content(db_conn, doc_id, section_list)`.  Each failure is
      an early exit, checked in this order; the three argument checks raise
      directly, the later ones are wrapped by the `except` clause.  The
      "hierarchical search failed" exit is never taken. */
  method GetSectionsContent(
    documents: seq<Document>, store: seq<Section>,
    docId: Option<DocId>, sectionList: Option<seq<Identifier>>)
    returns (r: Result<string, Error>)
    ensures docId.None? ==> r == Failure(MissingDocId)
    ensures docId.Some? && (sectionList.None? || sectionList.value == []) ==>
      r == Failure(MissingSectionList)
    ensures docId.Some? && sectionList.Some? && sectionList.value != [] && !AllText(sectionList.value) ==>
      r == Failure(IdentifierNotText)
    ensures ValidArguments(docId, sectionList) && FindDocument(documents, docId.value).None? ==>
      r == Failure(RetrievalFailed(DocumentNotFound(docId.value)))
    ensures ValidArguments(docId, sectionList) && FindDocument(documents, docId.value).Some? ==>
      var matched := MatchSections(store, docId.value, PatternsOf(sectionList));
      && (matched == [] ==> r == Failure(RetrievalFailed(NoSectionsFound)))
      && (matched != [] ==> r == Success(Render(FindDocument(documents, docId.value).value.spec,
                                                Contents(ExpandSubtrees(store, docId.value, PathsOf(matched))))))
    ensures r != Failure(RetrievalFailed(HierarchicalSearchFailed))
  {
    if docId.None? {
      return Failure(MissingDocId);
    }
    if sectionList.None? || |sectionList.value| == 0 {
      return Failure(MissingSectionList);
    }
    var ids := sectionList.value;
    var i := 0;
    while i < |ids|
      invariant 0 <= i <= |ids|
      invariant forall k :: 0 <= k < i ==> ids[k].Text?
    {
      if ids[i].NotText? {
        return Failure(IdentifierNotText);
      }
      i := i + 1;
    }
    var patterns := Texts(ids);

    var document := FindDocument(documents, docId.value);
    if document.None? {
      return Failure(RetrievalFailed(DocumentNotFound(docId.value)));
    }
    var doc := document.value;

    var sections := MatchSections(store, doc.id, patterns);
    if |sections| == 0 {
      return Failure(RetrievalFailed(NoSectionsFound));
    }

    var sectionsPath := PathsOf(sections);
    var sectionsContent := ExpandSubtrees(store, doc.id, sectionsPath);
    MatchedSectionsExpand(store, doc.id, patterns);
    if |sectionsContent| == 0 {
      return Failure(RetrievalFailed(HierarchicalSearchFailed));
    }

    var markdown := GenerateMarkdown(doc.spec, Contents(sectionsContent));
    return Success(markdown);
  }

  /** The worked example's table: section 5.2 with its child 5.2.1, and a
      sibling 5.20 whose heading starts with the same characters. */
  function ExampleStore(): seq<Section>
  {
    [Section(1, "5.2 Random Access", ["5", "2"], 1, "Intro text"),
     Section(1, "5.20 Something", ["5", "20"], 1, "Other"),
     Section(1, "5.2.1 Contention", ["5", "2", "1"], 2, "Detail")]
  }

  /** Pattern "5.2" selects section 5.2 only: "5.20 ..." and "5.2.1 ..." do
      not continue with a space after the pattern. */
  lemma ExampleMatch()
    ensures MatchSections(ExampleStore(), 1, ["5.2"]) == [ExampleStore()[0]]
  {
    var t := ExampleStore();
    TokenBoundaryExamples();
    assert MatchesAny(t[0].heading, ["5.2"]);
    assert !MatchesAny(t[1].heading, ["5.2"]);
    assert !MatchesAny(t[2].heading, ["5.2"]) by {
      HeadingMatchesMeaning(t[2].heading, "5.2");
      assert Lower(t[2].heading)[3] == '.';
    }
    assert t == [t[0]] + [t[1]] + [t[2]];
    var keep := (s: Section) => s.documentId == 1 && MatchesAny(s.heading, ["5.2"]);
    FilterAppend([t[0]] + [t[1]], [t[2]], keep);
    FilterAppend([t[0]], [t[1]], keep);
  }

  /** The paths of the example: 5.2.1 lies under 5.2, 5.20 does not. */
  lemma ExamplePaths()
    ensures IsDescendantOrSelf(["5", "2"], ["5", "2"])
    ensures IsDescendantOrSelf(["5", "2", "1"], ["5", "2"])
    ensures !IsDescendantOrSelf(["5", "20"], ["5", "2"])
  {
    assert ["5", "2", "1"][..2] == ["5", "2"];
    assert ["5", "20"][1] != ["5", "2"][1];
  }

  /** A section, an unrelated sibling and a child of the first: expanding
      the first gives it and its child, in that order. */
  lemma ExpandParentAndChild(a: Section, b: Section, c: Section, docId: DocId)
    requires a.documentId == docId && c.documentId == docId
    requires IsDescendantOrSelf(c.path, a.path) && !IsDescendantOrSelf(b.path, a.path)
    ensures ExpandSubtrees([a, b, c], docId, [a.path]) == [a, c]
  {
    var roots := [a.path];
    var keep := (s: Section) => s.documentId == docId && InSomeSubtree(s.path, roots);
    assert a.path in roots && IsDescendantOrSelf(a.path, a.path);
    assert forall m :: m in roots ==> m == a.path;
    assert keep(a) && keep(c) && !keep(b);
    assert [a, b, c] == [a] + [b] + [c];
    FilterAppend([a] + [b], [c], keep);
    FilterAppend([a], [b], keep);
    assert Filter([a], keep) == [a];
    assert Filter([b], keep) == [];
    assert Filter([c], keep) == [c];
    DescendantNeverSortsFirst(a.path, c.path);
    SortTwo(a, c);
  }

  /** Expanding section 5.2 gives 5.2 and then its child 5.2.1, not 5.20. */
  lemma ExampleExpand()
    ensures ExpandSubtrees(ExampleStore(), 1, [["5", "2"]]) == [ExampleStore()[0], ExampleStore()[2]]
  {
    var t := ExampleStore();
    ExamplePaths();
    assert t == [t[0], t[1], t[2]];
    ExpandParentAndChild(t[0], t[1], t[2], 1);
  }

  lemma ContentsOfTwo(a: Section, b: Section)
    ensures Contents([a, b]) == [ContentOf(a), ContentOf(b)]
  {
  }

  /** Two rows already in path order stay in that order. */
  lemma SortTwo(a: Section, b: Section)
    requires !PathLess(b.path, a.path)
    ensures SortByPath([a, b]) == [a, b]
  {
    assert [a, b][1..] == [b];
    assert [b][1..] == [];
    assert SortByPath([b]) == [b];
  }

  /** The two expanded rows render as the worked example's text. */
  lemma ExampleRendered()
    ensures Render("38.331", Contents([ExampleStore()[0], ExampleStore()[2]]))
            == "# 38.331" + "\n\n" + "# 5.2 Random Access" + "\n\n" + "Intro text"
               + "\n\n" + "## 5.2.1 Contention" + "\n\n" + "Detail"
  {
    var store := ExampleStore();
    ContentsOfTwo(store[0], store[2]);
    assert ContentOf(store[0]) == SectionContent("5.2 Random Access", 1, "Intro text");
    assert ContentOf(store[2]) == SectionContent("5.2.1 Contention", 2, "Detail");
    RenderExample();
  }

  function ExampleDocument(): Document
  {
    Document(1, "38.331", "17.0.0", 17)
  }

  /** The example request: document 1, pattern "5.2". */
  lemma ExampleArguments()
    ensures FindDocument([ExampleDocument()], 1) == Some(ExampleDocument())
    ensures ValidArguments(Some(1), Some([Text("5.2")]))
    ensures PatternsOf(Some([Text("5.2")])) == ["5.2"]
  {
  }

  /** The example request goes through every stage: a match, its expansion
      and the rendered text. */
  lemma ExamplePipeline()
    ensures MatchSections(ExampleStore(), 1, ["5.2"]) != []
    ensures Render(ExampleDocument().spec,
                   Contents(ExpandSubtrees(ExampleStore(), 1, PathsOf(MatchSections(ExampleStore(), 1, ["5.2"])))))
            == "# 38.331" + "\n\n" + "# 5.2 Random Access" + "\n\n" + "Intro text"
               + "\n\n" + "## 5.2.1 Contention" + "\n\n" + "Detail"
  {
    var store := ExampleStore();
    ExampleMatch();
    assert PathsOf([store[0]]) == [["5", "2"]];
    ExampleExpand();
    ExampleRendered();
  }

  /** End to end: asking for "5.2" in document 38.331 renders section 5.2
      followed by its subsection, and leaves out 5.20. */
  method ExampleRetrieval() returns (r: Result<string, Error>)
    ensures r == Success("# 38.331" + "\n\n" + "# 5.2 Random Access" + "\n\n" + "Intro text"
                         + "\n\n" + "## 5.2.1 Contention" + "\n\n" + "Detail")
  {
    ExampleArguments();
    ExamplePipeline();
    r := GetSectionsContent([ExampleDocument()], ExampleStore(), Some(1), Some([Text("5.2")]));
  }
}
