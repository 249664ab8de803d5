/** The hierarchical path model behind the `ltree` column `section.path`.
    A path is the sequence of its labels; label `A.1.2` is `["A", "1", "2"]`.
    `q <@ p` ("q is a descendant of p, or p itself") is the prefix relation,
    and `ORDER BY path` is the lexicographic order on labels, where a proper
    prefix sorts first.  Labels are compared character by character, a
    shorter label before its extensions, as `ltree` compares them. */
module Paths {

  type Label = string
  type Path = seq<Label>

  /** `candidate <@ ancestor`: the candidate lies in the subtree rooted at `ancestor`. */
  predicate IsDescendantOrSelf(candidate: Path, ancestor: Path)
  {
    ancestor <= candidate
  }

  /** A strict total order on the elements of a sequence. */
  ghost predicate StrictTotalOrder<T(!new)>(less: (T, T) -> bool)
  {
    && (forall x :: !less(x, x))
    && (forall x, y, z :: less(x, y) && less(y, z) ==> less(x, z))
    && (forall x, y :: x != y ==> less(x, y) || less(y, x))
  }

  /** Lexicographic order: compare element by element; at the first
      difference the element order decides; a proper prefix comes first. */
  function LexLess<T(==)>(a: seq<T>, b: seq<T>, less: (T, T) -> bool): bool
    decreases |a|
  {
    if |a| == 0 then |b| > 0
    else if |b| == 0 then false
    else if a[0] == b[0] then LexLess(a[1..], b[1..], less)
    else less(a[0], b[0])
  }

  function CharLess(c: char, d: char): bool { c < d }

  /** The order of two labels: character by character, a proper prefix
      first. `ltree` compares the labels' UTF-8 bytes and then their
      lengths; UTF-8 byte order is code-point order, so the two agree. */
  function LabelLess(x: Label, y: Label): bool
  {
    LexLess(x, y, CharLess)
  }

  /** The order `ORDER BY path` sorts by: label by label, a proper prefix
      first. Labels compare as text, not as numbers, so this is a pre-order
      of the section tree in which sibling "10" comes before sibling "9"
      (see `LabelsCompareAsText`). */
  function PathLess(p: Path, q: Path): bool
  {
    LexLess(p, q, LabelLess)
  }

  lemma {:induction false} LexIrreflexive<T(!new)>(a: seq<T>, less: (T, T) -> bool)
    requires StrictTotalOrder(less)
    ensures !LexLess(a, a, less)
    decreases |a|
  {
    if |a| > 0 {
      LexIrreflexive(a[1..], less);
    }
  }

  lemma {:induction false} LexTransitive<T(!new)>(a: seq<T>, b: seq<T>, c: seq<T>, less: (T, T) -> bool)
    requires StrictTotalOrder(less)
    requires LexLess(a, b, less) && LexLess(b, c, less)
    ensures LexLess(a, c, less)
    decreases |a|
  {
    if |a| > 0 && a[0] == b[0] && b[0] == c[0] {
      LexTransitive(a[1..], b[1..], c[1..], less);
    }
  }

  lemma {:induction false} LexTotal<T(!new)>(a: seq<T>, b: seq<T>, less: (T, T) -> bool)
    requires StrictTotalOrder(less)
    requires a != b
    ensures LexLess(a, b, less) || LexLess(b, a, less)
    decreases |a|
  {
    if |a| > 0 && |b| > 0 && a[0] == b[0] {
      assert a == [a[0]] + a[1..] && b == [b[0]] + b[1..];
      LexTotal(a[1..], b[1..], less);
    }
  }

  lemma LabelOrderIsStrictTotal()
    ensures StrictTotalOrder(LabelLess)
  {
    assert StrictTotalOrder(CharLess);
    forall x: Label ensures !LabelLess(x, x) {
      LexIrreflexive(x, CharLess);
    }
    forall x: Label, y: Label, z: Label | LabelLess(x, y) && LabelLess(y, z)
      ensures LabelLess(x, z)
    {
      LexTransitive(x, y, z, CharLess);
    }
    forall x: Label, y: Label | x != y ensures LabelLess(x, y) || LabelLess(y, x) {
      LexTotal(x, y, CharLess);
    }
  }

  /** `ORDER BY path` is a strict total order on paths: irreflexive,
      transitive, and any two different paths are comparable. */
  lemma PathOrderIsStrictTotal()
    ensures forall p :: !PathLess(p, p)
    ensures forall p, q, r :: PathLess(p, q) && PathLess(q, r) ==> PathLess(p, r)
    ensures forall p, q :: p != q ==> PathLess(p, q) || PathLess(q, p)
  {
    LabelOrderIsStrictTotal();
    forall p: Path ensures !PathLess(p, p) {
      LexIrreflexive(p, LabelLess);
    }
    forall p: Path, q: Path, r: Path | PathLess(p, q) && PathLess(q, r)
      ensures PathLess(p, r)
    {
      LexTransitive(p, q, r, LabelLess);
    }
    forall p: Path, q: Path | p != q ensures PathLess(p, q) || PathLess(q, p) {
      LexTotal(p, q, LabelLess);
    }
  }

  /** A section sorts before every section of its subtree (parent before child). */
  lemma {:induction false} AncestorSortsFirst(p: Path, q: Path)
    requires IsDescendantOrSelf(q, p) && p != q
    ensures PathLess(p, q)
    decreases |p|
  {
    if |p| > 0 {
      assert q[0] == p[0];
      assert p[1..] <= q[1..];
      AncestorSortsFirst(p[1..], q[1..]);
    }
  }

  /** No section sorts before its own ancestor. */
  lemma DescendantNeverSortsFirst(p: Path, q: Path)
    requires IsDescendantOrSelf(q, p)
    ensures !PathLess(q, p)
  {
    LabelOrderIsStrictTotal();
    LexIrreflexive(p, LabelLess);
    if p != q && PathLess(q, p) {
      AncestorSortsFirst(p, q);
      LexTransitive(p, q, p, LabelLess);
      assert false;
    }
  }

  /** Subtrees are never interleaved: a path that sorts between a section
      and one of its descendants is itself in that section's subtree. */
  lemma {:induction false} SubtreeIsContiguous(a: Path, b: Path, c: Path)
    requires IsDescendantOrSelf(b, a)
    requires !PathLess(c, a) && !PathLess(b, c)
    ensures IsDescendantOrSelf(c, a)
    decreases |a|
  {
    LabelOrderIsStrictTotal();
    if |a| > 0 && c != a && c != b {
      // c sorts strictly between a and b, so it starts with a's first label
      assert |c| > 0;
      if c[0] == a[0] {
        SubtreeIsContiguous(a[1..], b[1..], c[1..]);
        assert c == [c[0]] + c[1..];
      } else {
        assert false;
      }
    }
  }

  /** Labels are text: section 5.10 sorts before section 5.9, as `ltree`
      orders them, not in numeric document order. */
  lemma LabelsCompareAsText()
    ensures PathLess(["5", "10"], ["5", "9"])
    ensures !PathLess(["5", "9"], ["5", "10"])
  {
    assert LabelLess("10", "9");
    assert !LabelLess("9", "10");
  }
}
