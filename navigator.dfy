/**
 * The table-of-contents sidebar of app.py without its user interface: `display_toc_navigation`
 * walks the forest and `render_node` turns each node into either a collapsible group (a node
 * with children) or a bookmark button (a leaf). Pressing a button reads page `page - 1`.
 *
 * The sidebar is modelled as the sequence of widgets the walk emits, in order: a group is
 * opened, its children's widgets follow, and the group is closed.
 */
module Navigator {
  import opened Wrappers
  import opened Toc
  import Pages

  /** What the walk places in the sidebar. */
  datatype Widget =
    | OpenGroup(title: string)             // `st.sidebar.expander(...)` entered
    | CloseGroup                           // the expander's `with` block left
    | Bookmark(title: string, page: int)   // `st.button(...)` for a leaf

  /** `render_node(node)`: a group around the children if there are any, else a button. */
  function RenderNode(node: TocNode): (widgets: seq<Widget>)
    ensures widgets != []
    ensures widgets[0].OpenGroup? <==> node.children != []
    ensures widgets[0].Bookmark? <==> node.children == []
    ensures node.children == [] ==> widgets == [Bookmark(node.title, node.page)]
    ensures node.children != [] ==> widgets[0] == OpenGroup(node.title) && widgets[|widgets| - 1] == CloseGroup
    decreases node, 1
  {
    if node.children != [] then
      [OpenGroup(node.title)] + RenderNodes(node.children) + [CloseGroup]
    else
      [Bookmark(node.title, node.page)]
  }

  /** `for child in node.children: render_node(child)`, also the loop of `display_toc_navigation`. */
  function RenderNodes(forest: seq<TocNode>): (widgets: seq<Widget>)
    ensures |widgets| >= |forest|
    ensures forest == [] <==> widgets == []
    decreases forest, 0
  {
    if forest == [] then [] else RenderNode(forest[0]) + RenderNodes(forest[1..])
  }

  /** Siblings are rendered one after the other: the walk of `a + b` is the walk of `a`, then of `b`. */
  lemma {:induction false} RenderNodesAppend(a: seq<TocNode>, b: seq<TocNode>)
    ensures RenderNodes(a + b) == RenderNodes(a) + RenderNodes(b)
    decreases |a|
  {
    if a == [] {
      assert a + b == b;
    } else {
      assert (a + b)[0] == a[0];
      assert (a + b)[1..] == a[1..] + b;
      RenderNodesAppend(a[1..], b);
    }
  }

  /** `display_toc_navigation(toc)`: the sidebar of the whole table of contents. */
  function DisplayTocNavigation(toc: seq<TocNode>): (widgets: seq<Widget>)
    ensures widgets == [] <==> toc == []
    ensures toc != [] ==> widgets[0] == RenderNode(toc[0])[0]
  {
    RenderNodes(toc)
  }

  /** The widgets that carry an entry: the groups and buttons, without the group ends. */
  function Headings(widgets: seq<Widget>): seq<Widget> {
    if widgets == [] then []
    else if widgets[0].CloseGroup? then Headings(widgets[1..])
    else [widgets[0]] + Headings(widgets[1..])
  }

  /**
   * The sidebar read straight off the flat outline: an entry is shown as a group exactly when
   * the entry after it is deeper, and as a button otherwise.
   */
  function OutlineHeadings(entries: seq<Entry>): seq<Widget> {
    if entries == [] then []
    else
      var e := entries[0];
      var w := if |entries| > 1 && entries[1].level > e.level then OpenGroup(e.title) else Bookmark(e.title, e.page);
      [w] + OutlineHeadings(entries[1..])
  }

  lemma {:induction false} HeadingsAppend(a: seq<Widget>, b: seq<Widget>)
    ensures Headings(a + b) == Headings(a) + Headings(b)
    decreases |a|
  {
    if a == [] {
      assert a + b == b;
    } else {
      assert (a + b)[0] == a[0];
      assert (a + b)[1..] == a[1..] + b;
      HeadingsAppend(a[1..], b);
    }
  }

  /** Two outlines side by side read as one, unless the second starts deeper than the first ends. */
  lemma {:induction false} OutlineHeadingsAppend(a: seq<Entry>, b: seq<Entry>)
    requires a != [] && b != [] ==> b[0].level <= a[|a| - 1].level
    ensures OutlineHeadings(a + b) == OutlineHeadings(a) + OutlineHeadings(b)
    decreases |a|
  {
    if a == [] {
      assert a + b == b;
    } else {
      assert (a + b)[0] == a[0];
      assert (a + b)[1..] == a[1..] + b;
      if |a| == 1 && b != [] {
        assert (a + b)[1] == b[0];
      } else if |a| > 1 {
        assert (a + b)[1] == a[1];
      }
      OutlineHeadingsAppend(a[1..], b);
    }
  }

  /** An entry followed by a deeper one is read as a group. */
  lemma OutlineHeadingsGroup(e: Entry, tail: seq<Entry>)
    requires tail != [] && tail[0].level > e.level
    ensures OutlineHeadings([e] + tail) == [OpenGroup(e.title)] + OutlineHeadings(tail)
  {
    assert ([e] + tail)[1..] == tail;
  }

  /** An entry followed by nothing deeper is read as a button. */
  lemma OutlineHeadingsBookmark(e: Entry, tail: seq<Entry>)
    requires tail != [] ==> tail[0].level <= e.level
    ensures OutlineHeadings([e] + tail) == [Bookmark(e.title, e.page)] + OutlineHeadings(tail)
  {
    assert ([e] + tail)[1..] == tail;
  }

  /** The headings of a group: its own, then its children's. */
  lemma GroupHeadings(node: TocNode)
    requires node.children != []
    ensures Headings(RenderNode(node)) == [OpenGroup(node.title)] + Headings(RenderNodes(node.children))
  {
    HeadingsAppend([OpenGroup(node.title)] + RenderNodes(node.children), [CloseGroup]);
    HeadingsAppend([OpenGroup(node.title)], RenderNodes(node.children));
    assert Headings([CloseGroup]) == [];
  }

  /** A leaf is one button, and the entry after it is not deeper. */
  lemma {:induction false} LeafFollowsOutline(node: TocNode, rest: seq<Entry>)
    requires node.children == []
    requires rest != [] ==> rest[0].level <= node.level
    ensures [Bookmark(node.title, node.page)] + OutlineHeadings(rest)
         == OutlineHeadings([EntryOf(node)] + Flatten(node.children) + rest)
  {
    assert [EntryOf(node)] + Flatten(node.children) + rest == [EntryOf(node)] + rest;
    OutlineHeadingsBookmark(EntryOf(node), rest);
  }

  /** A group opens, then its children's part of the outline follows. */
  lemma {:induction false} GroupFollowsOutline(node: TocNode, rest: seq<Entry>)
    requires node.children != [] && WellNested(node.children, node.level)
    requires rest != [] ==> rest[0].level <= node.level
    ensures [OpenGroup(node.title)] + OutlineHeadings(Flatten(node.children)) + OutlineHeadings(rest)
         == OutlineHeadings([EntryOf(node)] + Flatten(node.children) + rest)
  {
    var kids := Flatten(node.children);
    WellNestedDeeper(node.children, node.level);
    OutlineHeadingsGroup(EntryOf(node), kids + rest);
    OutlineHeadingsAppend(kids, rest);
    assert [EntryOf(node)] + kids + rest == [EntryOf(node)] + (kids + rest);
  }

  /**
   * The walk emits, in pre-order, a group for every entry that has children and a button for
   * every leaf: for a well-nested forest its headings are the outline's, read entry by entry.
   */
  lemma {:induction false} SidebarFollowsOutline(forest: seq<TocNode>, parent: int)
    requires WellNested(forest, parent)
    ensures Headings(RenderNodes(forest)) == OutlineHeadings(Flatten(forest))
    decreases forest
  {
    if forest != [] {
      var t, rest := forest[0], forest[1..];
      WellNestedCons(forest, parent);
      FlattenCons(forest);
      SidebarFollowsOutline(t.children, t.level);
      SidebarFollowsOutline(rest, parent);
      if rest != [] {
        FlattenCons(rest);
      }
      if t.children == [] {
        LeafFollowsOutline(t, Flatten(rest));
      } else {
        GroupHeadings(t);
        GroupFollowsOutline(t, Flatten(rest));
      }
      HeadingsAppend(RenderNode(t), RenderNodes(rest));
    }
  }

  /** The sidebar of the forest `build_tree` returns, read off the outline alone. */
  lemma {:induction false} SidebarOfOutline(entries: seq<Entry>)
    requires forall i :: 0 <= i < |entries| ==> entries[i].level > RootLevel
    ensures Headings(DisplayTocNavigation(Outline(entries))) == OutlineHeadings(entries)
  {
    OutlineWellNested(entries, RootLevel);
    OutlineRoundTrip(entries);
    SidebarFollowsOutline(Outline(entries), RootLevel);
  }

  /** `current_section` after a button press, without the summary. */
  datatype Section = Section(title: string, page: int, text: string)

  /**
   * Pressing the bookmark of a leaf: the text of page `page` counting from 1, which is index
   * `page - 1`, and the message when that page is not in the document.
   */
  function SelectBookmark(doc: seq<string>, bookmark: Widget): (section: Section)
    requires bookmark.Bookmark?
    ensures section.title == bookmark.title && section.page == bookmark.page
    ensures 1 <= bookmark.page <= |doc| ==> section.text == doc[bookmark.page - 1]
    ensures !(1 <= bookmark.page <= |doc|) ==> section.text == Pages.PageNotFound
  {
    Section(bookmark.title, bookmark.page, Pages.ExtractTextFromPage(doc, bookmark.page - 1))
  }

  /** The press as written, through the unguarded page index; `None` where the index fails. */
  function SelectBookmarkAsWritten(doc: seq<string>, bookmark: Widget): (section: Option<Section>)
    requires bookmark.Bookmark?
    ensures section.Some? <==> bookmark.page >= 1 - |doc|
    ensures section.Some? ==> section.value.title == bookmark.title && section.value.page == bookmark.page
    ensures 1 <= bookmark.page <= |doc| ==> section.Some? && section.value.text == doc[bookmark.page - 1]
    ensures bookmark.page > |doc| ==> section.Some? && section.value.text == Pages.PageNotFound
    ensures 1 - |doc| <= bookmark.page < 1 ==> section.Some? && section.value.text == doc[|doc| + bookmark.page - 1]
  {
    match Pages.ExtractTextAsWritten(doc, bookmark.page - 1)
    case Some(text) => Some(Section(bookmark.title, bookmark.page, text))
    case None => None
  }

  /**
   * A bookmark whose target is outside the document (page -1) shows the page before the last
   * where the corrected press shows the message; every page from 1 on is read the same by both.
   */
  lemma OutsideBookmarkShowsWrongPage(doc: seq<string>, title: string)
    requires |doc| >= 2
    ensures SelectBookmarkAsWritten(doc, Bookmark(title, -1)) == Some(Section(title, -1, doc[|doc| - 2]))
    ensures SelectBookmark(doc, Bookmark(title, -1)).text == Pages.PageNotFound
  {
    Pages.OutsidePageReadsFromEnd(doc);
  }

  /** On every page number from 1 on, the press as written and the corrected press agree. */
  lemma SelectBookmarkAgrees(doc: seq<string>, bookmark: Widget)
    requires bookmark.Bookmark? && bookmark.page >= 1
    ensures SelectBookmarkAsWritten(doc, bookmark) == Some(SelectBookmark(doc, bookmark))
  {
    Pages.ExtractTextAgrees(doc, bookmark.page - 1);
  }
}
