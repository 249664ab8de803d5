# Section retrieval and Markdown rendering, modelled in Dafny

This project models the core of a FastAPI service that serves 3GPP
specification data. The core has three parts:

- **Section retrieval.** `get_sections_content` takes a document id and a
  list of heading patterns. It validates the arguments, looks up the
  document, and selects every section whose heading starts with one of the
  patterns followed by a space (SQL `ILIKE pattern || ' %'`). It then
  expands each selected section to its whole `ltree` subtree
  (`path <@ ANY (paths) ORDER BY path`) and renders the rows as one
  Markdown text.
- **Markdown rendering.** `generate_markdown` writes a title line, then
  for each section a heading line and, when the content is not blank, the
  content as stored. Each is followed by a blank line. It joins the lines
  with newlines and strips the result.
- **Route layer.** `get_procedure_names_and_entities` groups procedure rows
  by their document key `(id, spec, version, release)`.
  `get_graph_versions` turns an empty version history into "not found".

The modules follow the program's structure:

- `Basics`: `Option`, `Result`, and an order-keeping `Filter`.
- `Paths`: `ltree` paths as sequences of labels. `<@` is the prefix
  relation and `ORDER BY path` is the lexicographic order, in which a
  proper prefix sorts first.
- `PatternMatch`: `LIKE`/`ILIKE` as written (`%`, `_`, backslash escape)
  over ASCII-lowered strings. It also says what the heading condition
  means.
- `SectionStore`: the document and section tables as sequences of rows.
  The two section queries are pure functions: a filter, and a filter
  followed by an insertion sort by path.
- `Markdown`: `generate_markdown` as a method. Its loop appends to
  `md_lines` and is proved against the specification function `Render`.
- `SectionsRetrieval`: `get_sections_content` as a method with its ordered
  early exits, plus an end-to-end worked example.
- `FetchRoutes`: the `doc_map` grouping as a method. A Python dict keeps
  insertion order, so `doc_map` is a `map` plus the list of its keys in
  insertion order. `VersionHistory` models the history mapping.

Where the code and the system's specification disagree, the model follows the
code:

- **Content is not trimmed.** Content goes into `md_lines` exactly as
  stored. Only the blank test uses `content.strip()`. The final strip of
  the whole text removes trailing whitespace of the last section's
  content.
- **Errors after validation are wrapped.** "document not found", "no
  sections found" and "hierarchical search failed" are raised inside the
  `try`. The generic `except` re-raises each of them wrapped, so they
  appear as `RetrievalFailed(cause)`. The cause is kept, so they are still
  told apart.
- **Real LIKE semantics.** Patterns are matched with the SQL `LIKE`
  semantics, meta-characters included. The patterns are not assumed free
  of them. For meta-free patterns, `HeadingMatchesMeaning` proves that the
  condition is exactly "the lowered heading starts with the lowered
  pattern and a space".
- **Labels sort as text.** `ltree` compares two labels byte by byte over
  their UTF-8 encodings, and then by length. UTF-8 byte order is Unicode
  code-point order, so this is the same order as `LabelLess`, which
  compares characters (code points) with a proper prefix first.
  `ORDER BY path` thus compares labels as text, so
  section 5.10 comes before 5.9 (`LabelsCompareAsText`). Document order
  is numeric only while sibling numbers have the same number of digits.
- **Level zero or below.** A level of zero or less gives the heading
  prefix `""`, as Python's `"#" * level` does.

Determinism needs no lemma of its own. `GenerateMarkdown` and
`GetSectionsContent` are each specified to return one function of their
inputs.

## Model

| member | source | states |
|---|---|---|
| `Basics.Filter` | src/db/sections_content_retrieval.py:44-62 | a `WHERE` filter keeps exactly the rows that satisfy the condition, each as often as before |
| `Paths.IsDescendantOrSelf` | src/db/sections_content_retrieval.py:90 | `ltree`'s `<@`: a path lies in the subtree of another exactly when the other is a prefix of it |
| `Paths.LabelLess` | src/db/sections_content_retrieval.py:91 | labels compare as text, character by character, a proper prefix first |
| `Paths.PathLess` | src/db/sections_content_retrieval.py:91 | `ORDER BY path`: paths compare label by label, a proper prefix first |
| `Paths.LabelOrderIsStrictTotal` | src/db/sections_content_retrieval.py:91 | the order on labels is irreflexive, transitive and total |
| `Paths.PathOrderIsStrictTotal` | src/db/sections_content_retrieval.py:91 | `ORDER BY path` is a strict total order on paths |
| `Paths.LexIrreflexive` | src/db/sections_content_retrieval.py:91 | lexicographic order over a strict total element order is irreflexive |
| `Paths.LexTransitive` | src/db/sections_content_retrieval.py:91 | lexicographic order over a strict total element order is transitive |
| `Paths.LexTotal` | src/db/sections_content_retrieval.py:91 | any two different sequences are ordered one way or the other |
| `Paths.AncestorSortsFirst` | src/db/sections_content_retrieval.py:90-91 | a path sorts before each proper descendant (parent before child) |
| `Paths.DescendantNeverSortsFirst` | src/db/sections_content_retrieval.py:90-91 | no path sorts before one of its ancestors |
| `Paths.SubtreeIsContiguous` | src/db/sections_content_retrieval.py:90-91 | a path that sorts between a path and one of its descendants lies in that path's subtree |
| `Paths.LabelsCompareAsText` | src/db/sections_content_retrieval.py:91 | labels compare as text, so path 5.10 sorts before 5.9 |
| `PatternMatch.LowerChar` | src/db/sections_content_retrieval.py:53 | ILIKE's case folding: the result is never an upper-case letter, an upper-case letter becomes a lower-case one, and every other character is kept |
| `PatternMatch.Lower` | src/db/sections_content_retrieval.py:53 | ILIKE's lowering of a whole string: same length, and no upper-case letter is left |
| `PatternMatch.LowerIdempotent` | src/db/sections_content_retrieval.py:53 | lowering an already lowered string changes nothing |
| `PatternMatch.Like` | src/db/sections_content_retrieval.py:53 | `LIKE` with `%` for any run of characters, `_` for one character and backslash as the escape |
| `PatternMatch.ILike` | src/db/sections_content_retrieval.py:53 | `ILIKE` is `LIKE` after both sides are lowered |
| `PatternMatch.HeadingMatches` | src/db/sections_content_retrieval.py:53 | the condition for one pattern: the heading is `ILIKE` the pattern followed by a space and `%` |
| `PatternMatch.MatchesAny` | src/db/sections_content_retrieval.py:50-54 | the `EXISTS` over `unnest(patterns)`: some pattern's condition holds |
| `PatternMatch.LikeTrailingWildcard` | src/db/sections_content_retrieval.py:53 | the trailing `%` of the heading condition matches every string |
| `PatternMatch.LikeLiteralPrefix` | src/db/sections_content_retrieval.py:53 | for a meta-free literal, `s LIKE lit || '%'` holds exactly when `lit` is a prefix of `s` |
| `PatternMatch.HeadingMatchesMeaning` | src/db/sections_content_retrieval.py:53 | for a meta-free pattern, `heading ILIKE pattern || ' %'` holds iff, ignoring case, the heading starts with the pattern and a space |
| `PatternMatch.MatchIsTokenBoundary` | src/db/sections_content_retrieval.py:53 | a matching heading has a space right after the pattern, and its first characters equal the pattern up to case |
| `PatternMatch.TokenBoundaryExamples` | src/db/sections_content_retrieval.py:49-54 | "5.2" matches "5.2 Random Access" but not "5.20 Something"; "ABC" matches "abc Title" |
| `SectionStore.MatchSections` | src/db/sections_content_retrieval.py:44-62 | the first query returns exactly the rows of the document whose heading matches some pattern |
| `SectionStore.MatchSectionsMeaning` | src/db/sections_content_retrieval.py:49-54 | with meta-free patterns, a row is matched iff, ignoring case, its heading starts with some pattern and a space |
| `SectionStore.PathsOf` | src/db/sections_content_retrieval.py:73 | `sections_path` has one entry per matched row; every matched row's path is in it, and every entry is the path of some matched row |
| `SectionStore.InSomeSubtree` | src/db/sections_content_retrieval.py:90 | `path <@ ANY (paths)`: the path lies under at least one matched path |
| `SectionStore.SubtreeRows` | src/db/sections_content_retrieval.py:88-90 | the rows of the document under some matched path, before sorting |
| `SectionStore.ExpandSubtrees` | src/db/sections_content_retrieval.py:83-99 | the second query: those rows, `ORDER BY path` |
| `SectionStore.InsertByPath` | src/db/sections_content_retrieval.py:91 | inserting a row adds it to the multiset of rows and keeps a path-sorted list sorted |
| `SectionStore.SortByPath` | src/db/sections_content_retrieval.py:91 | `ORDER BY path` returns a permutation of its rows, sorted by path |
| `SectionStore.ExpandSubtreesContents` | src/db/sections_content_retrieval.py:83-99 | the second query holds exactly the document's rows under some matched path, each as often as in the table, sorted by path |
| `SectionStore.ParentBeforeDescendants` | src/db/sections_content_retrieval.py:91 | in the expansion a section comes before every one of its descendants |
| `SectionStore.SortedAncestorFirst` | src/db/sections_content_retrieval.py:91 | in any path-sorted list, a proper ancestor comes before its descendant |
| `SectionStore.SubtreesAreContiguous` | src/db/sections_content_retrieval.py:90-91 | in the expansion, whatever lies between a section and one of its descendants is in that section's subtree |
| `SectionStore.SortedSubtreeContiguous` | src/db/sections_content_retrieval.py:90-91 | in any path-sorted list, the entries between a section and one of its descendants are in that section's subtree |
| `SectionStore.ExpansionStrictlyOrdered` | src/db/sections_content_retrieval.py:89-91 | when paths are unique within the document, the expansion strictly increases in path order, so no section appears twice |
| `SectionStore.DistinctPaths` | src/db/sections_content_retrieval.py:89-91 | rows taken from the document, each no more often than in the table, have pairwise different paths when paths are unique within the document |
| `SectionStore.UniqueRowOccursOnce` | src/db/sections_content_retrieval.py:89-91 | when paths are unique within the document, each of its rows occurs once in the table |
| `SectionStore.MatchedSectionsExpand` | src/db/sections_content_retrieval.py:89-104 | a non-empty match always gives a non-empty expansion, so the "hierarchical search failed" exit cannot be taken |
| `Markdown.HasText` | src/lib/generate_markdown.py:34 | `content.strip()` is truthy exactly when the content is not all whitespace |
| `Markdown.IsSpace` | src/lib/generate_markdown.py:34-38 | the characters Python's `str.isspace` accepts, which `strip()` removes |
| `Markdown.Strip` | src/lib/generate_markdown.py:34-38 | `str.strip`: whitespace removed from both ends |
| `Markdown.HeadingLine` | src/lib/generate_markdown.py:29 | `md_heading`: the level's hashes, a space and the heading |
| `Markdown.SectionLines` | src/lib/generate_markdown.py:29-36 | the lines one section appends: heading line and blank line, then content and blank line when the content has text |
| `Markdown.TitleLines` | src/lib/generate_markdown.py:18-21 | the title line `# doc_name` and the blank line after it |
| `Markdown.BodyLines` | src/lib/generate_markdown.py:23-36 | the lines the sections append, section by section in input order |
| `Markdown.Lines` | src/lib/generate_markdown.py:18-36 | the complete `md_lines`: title lines, then body lines; the invariant of the loop in `GenerateMarkdown` |
| `Markdown.Join` | src/lib/generate_markdown.py:38 | `"\n".join(lines)` |
| `Markdown.Render` | src/lib/generate_markdown.py:17-38 | the returned text: title and section lines, joined with newlines, stripped |
| `Markdown.StripIsSlice` | src/lib/generate_markdown.py:38 | `str.strip` returns a contiguous slice that neither starts nor ends with whitespace |
| `Markdown.StripEmptyIffBlank` | src/lib/generate_markdown.py:34 | `s.strip()` is empty exactly when `s` is all whitespace |
| `Markdown.StripEndDropsBlankSuffix` | src/lib/generate_markdown.py:38 | trailing whitespace appended to a text disappears under the final strip |
| `Markdown.StripEndNewline` | src/lib/generate_markdown.py:38 | a text not ending in whitespace loses exactly one appended newline under the final strip |
| `Markdown.KeptIffHasText` | src/lib/generate_markdown.py:34-36 | the content branch is taken exactly when the content is not all whitespace |
| `Markdown.HeadingLineIs` | src/lib/generate_markdown.py:29 | the heading line is `level` hashes, a space and the heading |
| `Markdown.Repeat` | src/lib/generate_markdown.py:29 | `"#" * level` has `max(level, 0)` characters, all `#` |
| `Markdown.GenerateMarkdown` | src/lib/generate_markdown.py:17-38 | the loop builds `md_lines` section by section; the result is `Render(doc_name, sections)` |
| `Markdown.LinesAppend` | src/lib/generate_markdown.py:23-36 | one loop iteration appends exactly the current section's lines to `md_lines` |
| `Markdown.BodyLinesAppend` | src/lib/generate_markdown.py:23-36 | one more section appends exactly its own lines after the earlier sections' lines |
| `Markdown.BodyLinesPrefix` | src/lib/generate_markdown.py:23-36 | the lines of the first k sections are a prefix of all the lines, so sections appear in input order |
| `Markdown.SectionBlock` | src/lib/generate_markdown.py:29-36 | each section puts its heading line and a blank line at its offset; blank content adds nothing more; other content adds itself, untrimmed, and a blank line |
| `Markdown.JoinStartsWithFirstLine` | src/lib/generate_markdown.py:38 | the joined text starts with its first line |
| `Markdown.RenderShape` | src/lib/generate_markdown.py:20-38 | the output is never empty, always starts with `#`, and never ends in whitespace |
| `Markdown.EmptySectionList` | src/lib/generate_markdown.py:20-21 | with no sections the output is `"# " + doc_name` after the strip: exactly it when the name ends in a non-space, `"#"` for an empty name |
| `Markdown.BodyTextAppend` | src/lib/generate_markdown.py:23-36 | the text of the section lines grows by one section's text per section |
| `Markdown.JoinConcat` | src/lib/generate_markdown.py:38 | joining two non-empty line lists is joining each and putting a newline between |
| `Markdown.SectionTextIsJoin` | src/lib/generate_markdown.py:29-36 | a section's text is a newline followed by its joined lines |
| `Markdown.JoinedLines` | src/lib/generate_markdown.py:18-38 | before the strip, the output is the title line, a newline, and the sections' texts in order |
| `Markdown.SectionTextWithContent` | src/lib/generate_markdown.py:29-36 | a section with content gives its heading line, a blank line, its content and a blank line |
| `Markdown.TwoSectionsBodyText` | src/lib/generate_markdown.py:23-36 | two sections with content give their texts back to back |
| `Markdown.RenderTwoSections` | src/lib/generate_markdown.py:20-38 | the closed form of the output for two sections with content |
| `Markdown.RenderExample` | src/lib/generate_markdown.py:20-38 | the worked example renders as `# 38.331`, `# 5.2 Random Access`, `Intro text`, `## 5.2.1 Contention`, `Detail`, separated by blank lines |
| `Markdown.ExampleHeadingLines` | src/lib/generate_markdown.py:29 | level 1 gives the heading prefix `#`, level 2 gives `##` |
| `SectionsRetrieval.FindDocument` | src/db/sections_content_retrieval.py:34-39 | the lookup finds a document with the requested id, and finds nothing exactly when there is no such document |
| `SectionsRetrieval.Error` | src/db/sections_content_retrieval.py:25-39 | the exceptions raised: the three argument errors, "not found", "no sections" (65-67), "hierarchical search failed" (102-104), and the wrapping re-raise (116-120) |
| `SectionsRetrieval.AllText` | src/db/sections_content_retrieval.py:29-30 | every element of `section_list` is a string |
| `SectionsRetrieval.ValidArguments` | src/db/sections_content_retrieval.py:25-30 | `doc_id` is present, `section_list` is present and non-empty, and all its elements are strings |
| `SectionsRetrieval.Texts` | src/db/sections_content_retrieval.py:29 | an all-string `section_list` yields one pattern per element, and a string is a pattern exactly when it is an element of the list |
| `SectionsRetrieval.PatternsOf` | src/db/sections_content_retrieval.py:57-60 | the patterns passed to the first query: the strings of `section_list` |
| `SectionsRetrieval.ContentOf` | src/db/sections_content_retrieval.py:84-87 | the columns the second query selects: heading, level and content |
| `SectionsRetrieval.Contents` | src/db/sections_content_retrieval.py:84-87 | the (heading, level, content) entry of each row of the second query, in row order; a definition |
| `SectionsRetrieval.GetSectionsContent` | src/db/sections_content_retrieval.py:9-120 | the argument checks fail first, in order, before the tables are read; then come "not found" and "no sections", both wrapped; otherwise the result is the rendering of the expansion under the document's spec; "hierarchical search failed" is never returned |
| `SectionsRetrieval.ExampleMatch` | src/db/sections_content_retrieval.py:44-62 | in the example table, pattern "5.2" selects only section 5.2 |
| `SectionsRetrieval.ExamplePaths` | src/db/sections_content_retrieval.py:90 | in the example, path 5.2.1 lies under 5.2 and path 5.20 does not |
| `SectionsRetrieval.ExpandParentAndChild` | src/db/sections_content_retrieval.py:83-99 | expanding a section next to an unrelated sibling and its own child gives the section, then the child |
| `SectionsRetrieval.ExampleExpand` | src/db/sections_content_retrieval.py:83-99 | expanding 5.2 in the example table gives 5.2 and then 5.2.1 |
| `SectionsRetrieval.SortTwo` | src/db/sections_content_retrieval.py:91 | two rows already in path order keep that order |
| `SectionsRetrieval.ExampleRendered` | src/db/sections_content_retrieval.py:112-114 | the example's expanded rows render as the worked example's text |
| `SectionsRetrieval.ExamplePipeline` | src/db/sections_content_retrieval.py:44-114 | the example request matches, expands and renders to the worked example's text |
| `SectionsRetrieval.ExampleRetrieval` | src/db/sections_content_retrieval.py:9-114 | end to end, asking for "5.2" in document 38.331 returns the worked example's text |
| `FetchRoutes.GroupProcedures` | src/routes/fetch_routes.py:50-83 | the two loops over `doc_map` return `Grouped(rows)` |
| `FetchRoutes.KeyOf` | src/routes/fetch_routes.py:52-57 | `doc_key`: the row's document id, spec, version and release |
| `FetchRoutes.ItemOf` | src/routes/fetch_routes.py:60-66 | the `ProcedureListItem` built from a row: procedure id, name and entities |
| `FetchRoutes.EntryOf` | src/routes/fetch_routes.py:74-82 | the `ProceduresByDocument` built from a key and its procedures |
| `FetchRoutes.Entries` | src/routes/fetch_routes.py:67-82 | the response loop: one entry per key, in the keys' order |
| `FetchRoutes.KeysInOrder` | src/routes/fetch_routes.py:50-59 | the keys of `doc_map`, in the order the first loop inserts them |
| `FetchRoutes.ItemsWithKey` | src/routes/fetch_routes.py:58-66 | `doc_map[k]`: the procedures of the rows with key `k`, appended in row order |
| `FetchRoutes.Grouped` | src/routes/fetch_routes.py:67-83 | the response: one entry per key of `doc_map` in insertion order, carrying its procedures |
| `FetchRoutes.NoRowsNoItems` | src/routes/fetch_routes.py:58-59 | a key no row carries has no procedures |
| `FetchRoutes.KeysCoverRows` | src/routes/fetch_routes.py:51-59 | the keys of `doc_map` are exactly the keys of the rows |
| `FetchRoutes.KeysDistinct` | src/routes/fetch_routes.py:58-59 | no key is inserted twice |
| `FetchRoutes.FirstOccurrence` | src/routes/fetch_routes.py:58-59 | the index of the first row carrying a key that occurs in the rows |
| `FetchRoutes.FirstOccurrenceUnique` | src/routes/fetch_routes.py:58-59 | the first row carrying a key is at one index only |
| `FetchRoutes.KeysInFirstOccurrenceOrder` | src/routes/fetch_routes.py:58-82 | groups appear in the order in which their key first occurs in the rows |
| `FetchRoutes.KeyIndices` | src/routes/fetch_routes.py:51-66 | the indices of the rows with a given key, increasing, every such row included |
| `FetchRoutes.GroupKeepsRowOrder` | src/routes/fetch_routes.py:60-66 | a group holds one procedure per row with its key, in row order |
| `FetchRoutes.EntriesShape` | src/routes/fetch_routes.py:67-82 | the response has one entry per key, carrying that key's procedures |
| `FetchRoutes.GroupedEntries` | src/routes/fetch_routes.py:50-82 | entry g carries the g-th key and the procedures of exactly the rows with that key, in row order |
| `FetchRoutes.RowInExactlyOneGroup` | src/routes/fetch_routes.py:51-66 | every row lands in a group with its own key, in no other group, and keys are distinct across groups |
| `FetchRoutes.EntriesGrow` | src/routes/fetch_routes.py:60-66 | one more row adds one procedure per occurrence of its key among the entries |
| `FetchRoutes.GroupSizesSumToRows` | src/routes/fetch_routes.py:51-66 | the groups hold as many procedures as there are rows, so no row is lost or duplicated |
| `FetchRoutes.DistinctCount` | src/routes/fetch_routes.py:58-59 | a key listed once in a duplicate-free key list has multiplicity one |
| `FetchRoutes.DistinctCardinality` | src/routes/fetch_routes.py:67-82 | a duplicate-free key list has as many keys as it has elements |
| `FetchRoutes.ResponseCountsDistinctKeys` | src/routes/fetch_routes.py:67-83 | the response has one entry per distinct document key, and it is empty iff there are no rows |
| `FetchRoutes.VersionHistory` | src/routes/fetch_routes.py:187-201 | no rows gives "not found"; otherwise one item per row, in row order, with the row's fields carried unchanged |

## Left out

- Database I/O is not modelled: the async connection, cursors and SQL text. The tables are sequences (`documents`, `store`) passed in, and each query is a function over them.
- `get_document_by_id` is modelled as `FindDocument`, a lookup of the first document with the id. src/db/document.py is not part of this model.
- The unspecified row order of the first query is not modelled. The query has no `ORDER BY`, so the model keeps storage order. Ties in `ORDER BY path` can only come from equal paths, which `ExpansionStrictlyOrdered` rules out when paths are unique.
- Both queries read one consistent table: `store` is the same value for the first query (src/db/sections_content_retrieval.py:57-62) and the second (lines 94-99). Under PostgreSQL's default READ COMMITTED isolation each statement sees its own snapshot, so a concurrent delete or re-ingest between them could make the second query see other rows, or none. Concurrent writes are not modelled. `MatchedSectionsExpand`, and the clause of `GetSectionsContent` that "hierarchical search failed" is never returned, hold only under this assumption.
- Logging is left out, because it only observes.
- The HTTP status mapping, pydantic response models and error message texts are left out. Errors are constructors of `Error` and `HistoryError`.
- The other routes and their queries are left out, because their results only pass through.
- Case folding covers ASCII only. PostgreSQL's locale-dependent lower-casing of other letters is not modelled.
- A `LIKE` pattern ending in a lone backslash is refused by PostgreSQL. The model matches it as a literal backslash. Heading conditions always end in `' %'`, so this case never arises.
- The exceptions that `generate_markdown` catches and re-raises come only from ill-typed rows. Typed `SectionContent` values rule them out.
- The `try` cannot fail inside the model. So the wrapping of store failures such as connectivity errors is not modelled. `RetrievalFailed` carries only the errors the code itself raises there.
- `doc_id` is a `UUID4` and is always truthy, so "missing" is `None`.
- A non-list `section_list` is not modelled; the argument is a list or `None`.
- Identifiers are natural numbers and `created_at` is a string: their values are only compared or passed through.
