/** The section table and the two queries the retrieval runs against it.
    The table is a sequence of rows in storage order; each query is a filter
    over it.  The subtree query ends in `ORDER BY path`, modelled as an
    insertion sort by `Paths.PathLess`. */
module SectionStore {
  import opened Basics
  import opened Paths
  import opened PatternMatch

  /** A row of the `document` table (the fields this model reads). */
  datatype Document = Document(id: DocId, spec: string, version: string, release: int)

  /** A row of the `section` table. */
  datatype Section = Section(documentId: DocId, heading: string, path: Path, level: int, content: string)

  /** Within one document, no two rows share a path. */
  ghost predicate PathsUnique(store: seq<Section>, docId: DocId)
  {
    forall i, j ::
      (0 <= i < |store| && 0 <= j < |store| && i != j
       && store[i].documentId == docId && store[j].documentId == docId) ==> store[i].path != store[j].path
  }

  /** First query: the sections of `docId` whose heading matches some pattern,
      in storage order (the query has no ORDER BY). */
  function MatchSections(store: seq<Section>, docId: DocId, patterns: seq<string>): (r: seq<Section>)
    ensures forall s :: s in r <==> s in store && s.documentId == docId && MatchesAny(s.heading, patterns)
  {
    Filter(store, (s: Section) => s.documentId == docId && MatchesAny(s.heading, patterns))
  }

  /** For patterns free of LIKE's meta-characters, a section is matched
      exactly when, ignoring case, its heading starts with some pattern
      followed by a space. */
  lemma MatchSectionsMeaning(store: seq<Section>, docId: DocId, patterns: seq<string>)
    requires forall p :: p in patterns ==> NoMetaCharacters(p)
    ensures forall s :: s in MatchSections(store, docId, patterns) <==>
      s in store && s.documentId == docId && exists p :: p in patterns && MatchesPattern(s.heading, p)
  {
    forall s: Section, p | p in patterns ensures HeadingMatches(s.heading, p) <==> MatchesPattern(s.heading, p) {
      HeadingMatchesMeaning(s.heading, p);
    }
  }

  /** `[section["path"] for section in sections]` */
  function PathsOf(sections: seq<Section>): (r: seq<Path>)
    ensures |r| == |sections|
    ensures forall s :: s in sections ==> s.path in r
    ensures forall p :: p in r ==> exists s :: s in sections && s.path == p
  {
    var r := seq(|sections|, i requires 0 <= i < |sections| => sections[i].path);
    assert forall i :: 0 <= i < |sections| ==> r[i] == sections[i].path;
    r
  }

  /** `path <@ ANY (roots)` */
  predicate InSomeSubtree(path: Path, roots: seq<Path>)
  {
    exists m :: m in roots && IsDescendantOrSelf(path, m)
  }

  /** Non-decreasing in path order. */
  predicate SortedByPath(s: seq<Section>)
  {
    forall i, j :: 0 <= i < j < |s| ==> !PathLess(s[j].path, s[i].path)
  }

  function InsertByPath(x: Section, s: seq<Section>): (r: seq<Section>)
    ensures multiset(r) == multiset(s) + multiset{x}
    ensures SortedByPath(s) ==> SortedByPath(r)
    decreases |s|
  {
    if s == [] then [x]
    else if PathLess(s[0].path, x.path) then
      var rest := InsertByPath(x, s[1..]);
      assert s == [s[0]] + s[1..];
      InsertedAfterHead(x, s, rest);
      [s[0]] + rest
    else
      InsertedAtHead(x, s);
      [x] + s
  }

  lemma InsertedAfterHead(x: Section, s: seq<Section>, rest: seq<Section>)
    requires |s| > 0 && PathLess(s[0].path, x.path)
    requires multiset(rest) == multiset(s[1..]) + multiset{x}
    requires SortedByPath(s) ==> SortedByPath(rest)
    ensures SortedByPath(s) ==> SortedByPath([s[0]] + rest)
  {
    if SortedByPath(s) {
      PathOrderIsStrictTotal();
      forall j | 0 <= j < |rest| ensures !PathLess(rest[j].path, s[0].path) {
        assert rest[j] in multiset(rest);
        if rest[j] != x {
          assert rest[j] in multiset(s[1..]);
          var k :| 0 <= k < |s[1..]| && s[1..][k] == rest[j];
          assert s[k + 1] == rest[j];
        }
      }
      var r := [s[0]] + rest;
      forall i, j | 0 <= i < j < |r| ensures !PathLess(r[j].path, r[i].path) {
        if i > 0 {
          assert r[i] == rest[i - 1] && r[j] == rest[j - 1];
        } else {
          assert r[j] == rest[j - 1];
        }
      }
    }
  }

  lemma InsertedAtHead(x: Section, s: seq<Section>)
    requires |s| > 0 && !PathLess(s[0].path, x.path)
    ensures SortedByPath(s) ==> SortedByPath([x] + s)
  {
    if SortedByPath(s) {
      PathOrderIsStrictTotal();
      var r := [x] + s;
      forall i, j | 0 <= i < j < |r| ensures !PathLess(r[j].path, r[i].path) {
        if i > 0 {
          assert r[i] == s[i - 1] && r[j] == s[j - 1];
        } else {
          assert r[j] == s[j - 1];
          if j > 1 {
            assert !PathLess(s[j - 1].path, s[0].path);
          }
        }
      }
    }
  }

  /** `ORDER BY path`: a sorted permutation of the rows. */
  function SortByPath(s: seq<Section>): (r: seq<Section>)
    ensures multiset(r) == multiset(s)
    ensures SortedByPath(r)
    decreases |s|
  {
    if s == [] then []
    else
      assert s == [s[0]] + s[1..];
      InsertByPath(s[0], SortByPath(s[1..]))
  }

  /** The rows the subtree query selects, before sorting. */
  function SubtreeRows(store: seq<Section>, docId: DocId, roots: seq<Path>): seq<Section>
  {
    Filter(store, (s: Section) => s.documentId == docId && InSomeSubtree(s.path, roots))
  }

  /** Second query: every section of `docId` in the subtree of some root,
      `ORDER BY path`. */
  function ExpandSubtrees(store: seq<Section>, docId: DocId, roots: seq<Path>): seq<Section>
  {
    SortByPath(SubtreeRows(store, docId, roots))
  }

  /** Subtree completeness: the expansion holds exactly the sections of the
      document lying under some root, each as often as it occurs in the
      table, and is sorted by path. */
  lemma ExpandSubtreesContents(store: seq<Section>, docId: DocId, roots: seq<Path>)
    ensures forall s :: s in ExpandSubtrees(store, docId, roots) <==>
      s in store && s.documentId == docId && InSomeSubtree(s.path, roots)
    ensures forall s :: s in ExpandSubtrees(store, docId, roots) ==>
      multiset(ExpandSubtrees(store, docId, roots))[s] == multiset(store)[s]
    ensures SortedByPath(ExpandSubtrees(store, docId, roots))
  {
    var rows := SubtreeRows(store, docId, roots);
    var r := ExpandSubtrees(store, docId, roots);
    assert multiset(r) == multiset(rows);
    forall s ensures s in r <==> s in rows {
      assert s in r <==> s in multiset(r);
      assert s in rows <==> s in multiset(rows);
    }
  }

  /** Document order: a section comes before each of its descendants. */
  lemma ParentBeforeDescendants(store: seq<Section>, docId: DocId, roots: seq<Path>)
    ensures var r := ExpandSubtrees(store, docId, roots);
      forall i, j :: 0 <= i < |r| && 0 <= j < |r| && IsDescendantOrSelf(r[j].path, r[i].path) && r[j].path != r[i].path ==> i < j
  {
    var r := ExpandSubtrees(store, docId, roots);
    forall i, j | 0 <= i < |r| && 0 <= j < |r| && IsDescendantOrSelf(r[j].path, r[i].path) && r[j].path != r[i].path
      ensures i < j
    {
      SortedAncestorFirst(r, i, j);
    }
  }

  lemma SortedAncestorFirst(r: seq<Section>, i: int, j: int)
    requires SortedByPath(r)
    requires 0 <= i < |r| && 0 <= j < |r|
    requires IsDescendantOrSelf(r[j].path, r[i].path) && r[j].path != r[i].path
    ensures i < j
  {
    AncestorSortsFirst(r[i].path, r[j].path);
  }

  /** Sibling subtrees are not interleaved: whatever lies between a section
      and one of its descendants belongs to that section's subtree. */
  lemma SubtreesAreContiguous(store: seq<Section>, docId: DocId, roots: seq<Path>, i: int, k: int, j: int)
    requires 0 <= i <= k <= j < |ExpandSubtrees(store, docId, roots)|
    requires IsDescendantOrSelf(ExpandSubtrees(store, docId, roots)[j].path, ExpandSubtrees(store, docId, roots)[i].path)
    ensures IsDescendantOrSelf(ExpandSubtrees(store, docId, roots)[k].path, ExpandSubtrees(store, docId, roots)[i].path)
  {
    SortedSubtreeContiguous(ExpandSubtrees(store, docId, roots), i, k, j);
  }

  lemma SortedSubtreeContiguous(r: seq<Section>, i: int, k: int, j: int)
    requires SortedByPath(r)
    requires 0 <= i <= k <= j < |r|
    requires IsDescendantOrSelf(r[j].path, r[i].path)
    ensures IsDescendantOrSelf(r[k].path, r[i].path)
  {
    if i < k && k < j {
      SubtreeIsContiguous(r[i].path, r[j].path, r[k].path);
    }
  }

  /** With unique paths in the document, the expansion is strictly increasing
      in path order, so no section appears twice. */
  lemma ExpansionStrictlyOrdered(store: seq<Section>, docId: DocId, roots: seq<Path>, i: int, j: int)
    requires PathsUnique(store, docId)
    requires 0 <= i < j < |ExpandSubtrees(store, docId, roots)|
    ensures PathLess(ExpandSubtrees(store, docId, roots)[i].path, ExpandSubtrees(store, docId, roots)[j].path)
  {
    var r := ExpandSubtrees(store, docId, roots);
    ExpandSubtreesContents(store, docId, roots);
    DistinctPaths(store, docId, r, i, j);
    PathOrderIsStrictTotal();
  }

  lemma DistinctPaths(store: seq<Section>, docId: DocId, r: seq<Section>, i: int, j: int)
    requires PathsUnique(store, docId)
    requires forall s :: s in r ==> s in store && s.documentId == docId && multiset(r)[s] == multiset(store)[s]
    requires 0 <= i < j < |r|
    ensures r[i].path != r[j].path
  {
    if r[i].path == r[j].path {
      assert r[i] in r && r[j] in r;
      var a :| 0 <= a < |store| && store[a] == r[i];
      var b :| 0 <= b < |store| && store[b] == r[j];
      if a == b {
        // the same row twice: it occurs at least twice in r, once in the table
        assert r == r[..i] + [r[i]] + r[i + 1..j] + [r[j]] + r[j + 1..];
        assert multiset(r)[r[i]] >= 2;
        UniqueRowOccursOnce(store, docId, a);
      }
    }
  }

  lemma UniqueRowOccursOnce(store: seq<Section>, docId: DocId, a: int)
    requires PathsUnique(store, docId)
    requires 0 <= a < |store| && store[a].documentId == docId
    ensures multiset(store)[store[a]] == 1
  {
    var x := store[a];
    assert store == store[..a] + [x] + store[a + 1..];
    assert forall b :: 0 <= b < |store| && b != a ==> store[b] != x;
    assert x !in store[..a];
    assert x !in store[a + 1..];
    assert multiset(store) == multiset(store[..a]) + multiset{x} + multiset(store[a + 1..]);
  }

  /** Each matched section lies in its own subtree, so a non-empty match
      always gives a non-empty expansion, provided both queries read the
      same table (here: the same `store`). */
  lemma MatchedSectionsExpand(store: seq<Section>, docId: DocId, patterns: seq<string>)
    requires MatchSections(store, docId, patterns) != []
    ensures ExpandSubtrees(store, docId, PathsOf(MatchSections(store, docId, patterns))) != []
  {
    var matched := MatchSections(store, docId, patterns);
    var roots := PathsOf(matched);
    var s := matched[0];
    assert s in matched;
    assert roots[0] == s.path && IsDescendantOrSelf(s.path, roots[0]);
    assert InSomeSubtree(s.path, roots);
    ExpandSubtreesContents(store, docId, roots);
    assert s in ExpandSubtrees(store, docId, roots);
  }
}
