/**
 * The table of contents of the book reader: the flat outline a PDF yields, the TOCNode
 * hierarchy built from it, the pre-order that takes a hierarchy back to an outline, and the
 * nesting shape that `build_tree` gives every hierarchy it builds.
 *
 * `Outline` is a recursive reference definition of the hierarchy; the stack-based builder in
 * module TreeBuilder is proved to return exactly `Outline(entries)`.
 */
module Toc {

  /** One outline entry `(level, title, page)`, as the PDF library's outline reader lists it. */
  datatype Entry = Entry(level: int, title: string, page: int)

  /** A TOCNode: an outline entry placed in the hierarchy, children in insertion order. */
  datatype TocNode = TocNode(level: int, title: string, page: int, children: seq<TocNode>)

  /** The level of the synthetic root node `TOCNode(0, "root", None)`. */
  const RootLevel := 0

  function EntryOf(node: TocNode): Entry {
    Entry(node.level, node.title, node.page)
  }

  /** The entries of a forest in pre-order: each node before its children, siblings in order. */
  function Flatten(forest: seq<TocNode>): (entries: seq<Entry>)
    ensures |entries| >= |forest|
    decreases forest
  {
    if forest == [] then []
    else [EntryOf(forest[0])] + Flatten(forest[0].children) + Flatten(forest[1..])
  }

  /**
   * The nesting every forest built under a parent of level `parent` has: each node is strictly
   * deeper than its parent, and the levels of siblings never increase from left to right (an
   * entry that is deeper than the sibling before it would have been nested below that sibling).
   */
  predicate WellNested(forest: seq<TocNode>, parent: int)
    decreases forest
  {
    if forest == [] then true
    else
      && forest[0].level > parent
      && WellNested(forest[0].children, forest[0].level)
      && (|forest| > 1 ==> forest[1].level <= forest[0].level)
      && WellNested(forest[1..], parent)
  }

  /** The length of the longest prefix of `entries` whose levels are all deeper than `level`. */
  function DeeperRun(entries: seq<Entry>, level: int): (n: nat)
    ensures n <= |entries|
    ensures forall i :: 0 <= i < n ==> entries[i].level > level
    ensures n < |entries| ==> entries[n].level <= level
  {
    if entries == [] || entries[0].level <= level then 0 else 1 + DeeperRun(entries[1..], level)
  }

  /**
   * Reference definition of the hierarchy of an outline: the first entry takes as descendants
   * the run of entries after it that are deeper than it; the rest of the outline follows as
   * its later siblings.
   */
  function Outline(entries: seq<Entry>): (forest: seq<TocNode>)
    decreases |entries|
  {
    if entries == [] then []
    else
      var e, n := entries[0], DeeperRun(entries[1..], entries[0].level);
      [TocNode(e.level, e.title, e.page, Outline(entries[1..n + 1]))] + Outline(entries[n + 1..])
  }

  lemma {:induction false} FlattenAppend(a: seq<TocNode>, b: seq<TocNode>)
    ensures Flatten(a + b) == Flatten(a) + Flatten(b)
    decreases a
  {
    if a != [] {
      assert (a + b)[0] == a[0];
      assert (a + b)[1..] == a[1..] + b;
      FlattenAppend(a[1..], b);
    } else {
      assert a + b == b;
    }
  }

  /** Pre-order gives back the outline: no entry is dropped, duplicated or moved. */
  lemma {:induction false} OutlineRoundTrip(entries: seq<Entry>)
    ensures Flatten(Outline(entries)) == entries
    decreases |entries|
  {
    if entries != [] {
      var e, n := entries[0], DeeperRun(entries[1..], entries[0].level);
      var node := TocNode(e.level, e.title, e.page, Outline(entries[1..n + 1]));
      var rest := Outline(entries[n + 1..]);
      OutlineRoundTrip(entries[1..n + 1]);
      OutlineRoundTrip(entries[n + 1..]);
      assert ([node] + rest)[0] == node;
      assert ([node] + rest)[1..] == rest;
      assert entries == [e] + entries[1..n + 1] + entries[n + 1..];
    }
  }

  /** Every forest the reference builder makes has the nesting shape of `build_tree`. */
  lemma {:induction false} OutlineWellNested(entries: seq<Entry>, parent: int)
    requires forall i :: 0 <= i < |entries| ==> entries[i].level > parent
    ensures WellNested(Outline(entries), parent)
    decreases |entries|
  {
    if entries != [] {
      var e, n := entries[0], DeeperRun(entries[1..], entries[0].level);
      var node := TocNode(e.level, e.title, e.page, Outline(entries[1..n + 1]));
      var rest := Outline(entries[n + 1..]);
      OutlineWellNested(entries[1..n + 1], e.level);
      OutlineWellNested(entries[n + 1..], parent);
      if rest != [] {
        assert rest[0].level == entries[n + 1].level <= e.level;
      }
      var forest := [node] + rest;
      assert forest[1..] == rest;
    }
  }

  /** Every entry below a well-nested forest is deeper than the forest's parent. */
  lemma {:induction false} WellNestedDeeper(forest: seq<TocNode>, parent: int)
    requires WellNested(forest, parent)
    ensures forall i :: 0 <= i < |Flatten(forest)| ==> Flatten(forest)[i].level > parent
    decreases forest
  {
    if forest != [] {
      WellNestedDeeper(forest[0].children, forest[0].level);
      WellNestedDeeper(forest[1..], parent);
    }
  }

  lemma {:induction false} DeeperRunExact(deeper: seq<Entry>, rest: seq<Entry>, level: int)
    requires forall i :: 0 <= i < |deeper| ==> deeper[i].level > level
    requires rest != [] ==> rest[0].level <= level
    ensures DeeperRun(deeper + rest, level) == |deeper|
    decreases |deeper|
  {
    if deeper != [] {
      assert (deeper + rest)[1..] == deeper[1..] + rest;
      DeeperRunExact(deeper[1..], rest, level);
    } else {
      assert deeper + rest == rest;
    }
  }

  /** Pre-order of a forest split into its first tree and the rest. */
  lemma FlattenCons(forest: seq<TocNode>)
    requires forest != []
    ensures Flatten(forest) == [EntryOf(forest[0])] + Flatten(forest[0].children) + Flatten(forest[1..])
  {
  }

  /** A well-nested forest split into its first tree and the rest. */
  lemma WellNestedCons(forest: seq<TocNode>, parent: int)
    requires WellNested(forest, parent) && forest != []
    ensures forest[0].level > parent && WellNested(forest[0].children, forest[0].level)
    ensures WellNested(forest[1..], parent)
    ensures |forest| > 1 ==> forest[1].level <= forest[0].level
  {
  }

  /** The reference builder on an entry followed by its descendants and then its later siblings. */
  lemma OutlineSplit(e: Entry, kids: seq<Entry>, tail: seq<Entry>)
    requires forall i :: 0 <= i < |kids| ==> kids[i].level > e.level
    requires tail != [] ==> tail[0].level <= e.level
    ensures Outline([e] + kids + tail) == [TocNode(e.level, e.title, e.page, Outline(kids))] + Outline(tail)
  {
    var entries := [e] + kids + tail;
    assert entries[1..] == kids + tail;
    DeeperRunExact(kids, tail, e.level);
    assert entries[1..|kids| + 1] == kids;
    assert entries[|kids| + 1..] == tail;
  }

  /** A well-nested forest is the only one with its pre-order: it is the reference hierarchy. */
  lemma {:induction false} WellNestedUnique(forest: seq<TocNode>, parent: int)
    requires WellNested(forest, parent)
    ensures Outline(Flatten(forest)) == forest
    decreases forest
  {
    if forest != [] {
      var t, rest := forest[0], forest[1..];
      WellNestedCons(forest, parent);
      var kids, tail := Flatten(t.children), Flatten(rest);
      FlattenCons(forest);
      WellNestedDeeper(t.children, t.level);
      if rest != [] {
        FlattenCons(rest);
      }
      OutlineSplit(EntryOf(t), kids, tail);
      WellNestedUnique(t.children, t.level);
      WellNestedUnique(rest, parent);
      assert forest == [t] + rest;
    }
  }

  /**
   * The hierarchy of an outline whose levels are all at least 1 is characterised by two
   * facts alone: its pre-order is the outline and it is well nested below the root.
   */
  lemma OutlineCharacterised(entries: seq<Entry>, forest: seq<TocNode>)
    requires forall i :: 0 <= i < |entries| ==> entries[i].level > RootLevel
    ensures (Flatten(forest) == entries && WellNested(forest, RootLevel)) <==> forest == Outline(entries)
  {
    if Flatten(forest) == entries && WellNested(forest, RootLevel) {
      WellNestedUnique(forest, RootLevel);
    }
    if forest == Outline(entries) {
      OutlineRoundTrip(entries);
      OutlineWellNested(entries, RootLevel);
    }
  }

  /** An empty outline has an empty hierarchy. */
  lemma {:induction false} OutlineEmpty(entries: seq<Entry>)
    ensures Outline(entries) == [] <==> entries == []
  {
    OutlineRoundTrip(entries);
  }

  /** The leaf of the node for `entry`, an entry with no children. */
  function Leaf(entry: Entry): TocNode {
    TocNode(entry.level, entry.title, entry.page, [])
  }

  /** Entries that all share one level become sibling leaves under the root, in input order. */
  lemma {:induction false} SameLevelSiblings(entries: seq<Entry>, level: int)
    requires forall i :: 0 <= i < |entries| ==> entries[i].level == level
    ensures Outline(entries) == seq(|entries|, i requires 0 <= i < |entries| => Leaf(entries[i]))
    decreases |entries|
  {
    if entries != [] {
      assert DeeperRun(entries[1..], level) == 0;
      assert entries[1..0 + 1] == [];
      SameLevelSiblings(entries[1..], level);
    }
  }

  /** A forest that is a single path: one top node, each node with at most one child. */
  predicate IsChain(forest: seq<TocNode>)
    decreases forest
  {
    |forest| == 1 && (forest[0].children == [] || IsChain(forest[0].children))
  }

  /** Strictly increasing levels become one chain, each node the only child of the one before. */
  lemma {:induction false} IncreasingChain(entries: seq<Entry>)
    requires entries != []
    requires forall i, j :: 0 <= i < j < |entries| ==> entries[i].level < entries[j].level
    ensures IsChain(Outline(entries))
    decreases |entries|
  {
    var rest := entries[1..];
    DeeperRunExact(rest, [], entries[0].level);
    assert rest + [] == rest;
    assert entries[1..|rest| + 1] == rest;
    assert entries[|rest| + 1..] == [];
    if rest != [] {
      IncreasingChain(rest);
    }
  }
}
