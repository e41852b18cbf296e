# Book reader table of contents, modelled in Dafny

The book reader (app.py) opens a PDF and reads its outline, a flat list of
`(level, title, page)` entries. `build_tree` turns that outline into a forest of
`TOCNode`s. The forest is shown as a sidebar: chapters with sections become
collapsible groups, and leaves become bookmark buttons. Pressing a bookmark
reads the text of its page. The reader can also read a page aloud, cutting the
text into chunks of at most `CHUNK_CHAR_LIMIT` (3000) characters.

The project models that core in five modules:

- `Wrappers` (wrappers.dfy): `Option` and `Result`.
- `Toc` (toc.dfy): outline entries and `TOCNode`s as datatypes.
  - `Flatten` is pre-order.
  - `WellNested` is the nesting shape every built forest has. Every child is
    strictly deeper than its parent, the root counting as level 0. A node is
    never shallower than the sibling after it.
  - `Outline` is a recursive reference definition of the forest of an outline.
- `TreeBuilder` (tree_builder.dfy): `build_tree` as a method whose `for` and
  `while` loops move a stack of open nodes, with the stack invariant.
  - It is proved to return exactly `Outline(flatToc)` when every level is at
    least 1.
  - Otherwise it returns the index of the entry that pops the root and makes
    `stack[-1]` fail.
- `Pages` (pages.dfy): the bounds rule of `extract_text_from_page`, and
  `chunk_text`.
- `Navigator` (navigator.dfy): `render_node` and `display_toc_navigation`
  without Streamlit.
  - They emit a sequence of widgets: group opened, group closed, bookmark.
  - Pressing a bookmark gives the section shown.

A document is its sequence of page texts. An outline is a sequence of entries.
Both are parameters, standing in for what the PDF library reads from the file.

## Model

| member | source | states |
|---|---|---|
| TreeBuilder.BuildTree | app.py:35-48 | Succeeds exactly when every level is at least 1. Then the forest's pre-order is the input, the forest is well nested below the level-0 root, and it equals the reference hierarchy `Outline(flatToc)`. Otherwise the error names the first entry of level 0 or less, which pops the root so that `stack[-1]` fails. |
| TreeBuilder.PopDeeper | app.py:43-44 | Pops every open node that is not shallower than the new level, keeping the stack invariant. The stack is left empty exactly when the level does not exceed the root's 0. Otherwise the node left on top is shallower than the level, and its last child is not shallower. |
| TreeBuilder.CloseAll | app.py:45-48 | The root's children once the outline is exhausted. They hold exactly the entries the stack stands for, well nested, and they form the reference hierarchy of those entries. |
| TreeBuilder.PopKeepsShape | app.py:37-46 | The stack invariant: the root at the bottom, levels strictly increasing upwards, gathered children well nested. A pop keeps it and keeps the outline the stack stands for. The popped node becomes the last child of the node below it. |
| TreeBuilder.PushKeepsShape | app.py:40-46 | Pushing the node of entry `k` onto a stack whose top is shallower keeps the invariant. The outline the stack stands for grows by exactly that entry, and the entry's level is above the root's. |
| TreeBuilder.StackTopLevel | app.py:36-37 | The node on top of a well-shaped stack is at least as deep as the root. |
| TreeBuilder.Pop | app.py:44-45 | `stack.pop()` removes exactly one node, so popping the root leaves the stack empty. What else changes is stated by TreeBuilder.PopEffect. |
| TreeBuilder.PopEffect | app.py:44-45 | A pop leaves the nodes below the new top unchanged. The new top keeps its own entry and gains the popped node as its last child. |
| TreeBuilder.WellNestedSnoc | app.py:45 | Appending a deeper child that is no deeper than the last sibling keeps the nesting. |
| TreeBuilder.PopPending | app.py:44-45 | A pop does not change the pre-order the stack stands for. |
| TreeBuilder.PushPending | app.py:45-46 | A push adds exactly the new entry at the end of that pre-order. |
| TreeBuilder.FlattenGrown | app.py:45 | Adding a last child puts its entries after the parent's existing subtree. |
| Toc.Flatten | app.py:26-31 | Pre-order of a forest has at least one entry per tree. The order of the entries is stated by Toc.FlattenAppend and Toc.OutlineRoundTrip. |
| Toc.DeeperRun | app.py:43 | Length of the run of entries deeper than a level: all of the run is deeper, and the entry after it is not. |
| Toc.FlattenAppend | app.py:45 | Pre-order of two forests side by side is the concatenation of their pre-orders. |
| Toc.OutlineRoundTrip | app.py:39-46 | Pre-order of the reference hierarchy gives back the outline: no entry is dropped, duplicated or moved. |
| Toc.OutlineWellNested | app.py:36-45 | When all entries are deeper than a parent level, the reference hierarchy is well nested below it. |
| Toc.WellNestedDeeper | app.py:43-45 | Every entry in a well-nested forest is deeper than the forest's parent. |
| Toc.DeeperRunExact | app.py:43 | The deeper run of a deeper block followed by a shallower entry is exactly that block. |
| Toc.OutlineSplit | app.py:43-46 | An entry, its deeper descendants, then a shallower tail: the entry takes the descendants as children and the tail follows as siblings. |
| Toc.WellNestedUnique | app.py:36-48 | A well-nested forest is the reference hierarchy of its own pre-order: no other forest has that shape and that pre-order. |
| Toc.OutlineCharacterised | app.py:35-48 | For levels of at least 1, a forest has the outline as pre-order and is well nested below the root if and only if it is the reference hierarchy. |
| Toc.OutlineEmpty | app.py:36-48 | The hierarchy is empty if and only if the outline is. |
| Toc.SameLevelSiblings | app.py:43-46 | Entries that all share one level become sibling leaves, in input order. |
| Toc.IncreasingChain | app.py:43-46 | Strictly increasing levels become one chain, each node the only child of the one before it. |
| Navigator.RenderNode | app.py:51-61 | A node is shown as a group exactly when it has children: the group opens with its title and ends with a close. What lies between is stated, heading by heading, by Navigator.GroupHeadings. A leaf is exactly one bookmark with its title and page. |
| Navigator.RenderNodes | app.py:55-56 | At least one widget per child, and the result is empty exactly when there are no children. The order is stated by Navigator.RenderNodesAppend and Navigator.SidebarFollowsOutline. |
| Navigator.RenderNodesAppend | app.py:55-56 | Siblings are rendered one after the other: the widgets of two forests side by side are the widgets of the first, then those of the second. |
| Navigator.HeadingsAppend | app.py:55-56 | Dropping group ends commutes with placing widget sequences side by side. |
| Navigator.OutlineHeadingsAppend | app.py:53-58 | Two outlines read as one, unless the second starts deeper than the first ends. |
| Navigator.OutlineHeadingsGroup | app.py:53-54 | An entry followed by a deeper one is read as a group. |
| Navigator.OutlineHeadingsBookmark | app.py:57-58 | An entry not followed by a deeper one is read as a bookmark. |
| Navigator.GroupHeadings | app.py:53-56 | The headings of a group are its own, then its children's. |
| Navigator.LeafFollowsOutline | app.py:57-58 | A leaf's bookmark is its entry's heading. |
| Navigator.GroupFollowsOutline | app.py:53-56 | A group's headings follow its part of the outline. |
| Navigator.SidebarFollowsOutline | app.py:51-58 | The walk visits a well-nested forest in pre-order. It shows a group for every entry whose next entry is deeper and a bookmark for every other entry. |
| Navigator.DisplayTocNavigation | app.py:152-155 | The sidebar is empty exactly when the table of contents is, and it begins with the widgets of the first chapter. Navigator.SidebarOfOutline states the order of the rest. |
| Navigator.SidebarOfOutline | app.py:152-155 | The sidebar of the forest `build_tree` returns can be read off the flat outline alone. |
| Navigator.SelectBookmark | app.py:58-61 | Pressing a bookmark for page `p` gives the title, the page and the text at index `p - 1` when `1 <= p <= len(doc)`, and "Page not found." otherwise (corrected as under Findings). |
| Navigator.SelectBookmarkAsWritten | app.py:58-61 | The press as written keeps the title and page. It shows the page at index `p - 1` for `1 <= p <= len(doc)` and "Page not found." past the end. For `1 - len(doc) <= p <= 0` it shows the page counted from the end. Below that there is no section. |
| Navigator.OutsideBookmarkShowsWrongPage | app.py:58-59 | A bookmark for page -1 shows, as written, the page before the last. The corrected press shows the message. |
| Navigator.SelectBookmarkAgrees | app.py:58-59 | For every page from 1 on, the press as written and the corrected press agree. |
| Pages.ExtractTextAsWritten | app.py:71-75 | As written: "Page not found." from `len(doc)` on; the page itself inside the document; for `-len(doc) <= i < 0`, the page counted from the end; below `-len(doc)`, no text. |
| Pages.ExtractTextFromPage | app.py:71-75 | The text at an index inside the document, and "Page not found." for any index outside it. |
| Pages.OutsidePageReadsFromEnd | app.py:73-74 | As written, index -2 reads the page before the last instead of failing the bounds test. |
| Pages.ExtractTextAgrees | app.py:73-75 | On every index that is not negative, the code as written and the corrected reader agree: the page below `len(doc)`, the message from there on. |
| Pages.ChunkText | app.py:78-79 | Every chunk is non-empty and at most `limit` long. All but the last are exactly `limit` long. There are no chunks exactly when the text is empty. |
| Pages.ChunkTextDefault | app.py:78-79 | With the default limit `CHUNK_CHAR_LIMIT` of 3000 (app.py:18), every chunk is non-empty and at most 3000 characters long. All but the last are exactly 3000 long. There are no chunks exactly when the text is empty. |
| Pages.ChunksConcat | app.py:79 | Joining the chunks gives back the text. |
| Pages.ChunkCount | app.py:79 | The number of chunks is the number of `limit` steps needed to cover the text: `(n - 1) * limit < len(text) <= n * limit`. |
| Pages.ChunkAt | app.py:79 | Chunk `k` is `text[k*limit : k*limit + limit]`, clipped at the end, and its start lies inside the text. This is the comprehension over `range(0, len(text), limit)`. |
| Pages.ChunksAfterFirst | app.py:79 | Past the first chunk, the chunks are those of the text after its first `limit` characters. |
| Pages.ShiftedSlice | app.py:79 | Slice `k - 1` of the text after `limit` characters is slice `k` of the text. |

## Left out

- The Streamlit user interface and session state are not modelled (app.py:21-23, 152-153, 158-221). This includes the expander and button widgets themselves, the sidebar title, the label formatting, and the rule that the outline is built only while the session's toc is empty. The sidebar is modelled as the widget sequence the walk emits.
- `summarize_text` (a call to the OpenAI service) is not modelled. A selected section therefore carries no summary.
- `read_aloud` is not modelled: it uses network speech services, asynchronous I/O, the file cache and an exception fallback. `wave_file` (audio file output) and `get_cache_filename` (a SHA-1 based UUID) are left out for the same reasons.
- `get_voice_samples` is a path join and is not modelled.
- `pymupdf.open`, `get_toc` and `get_text` are library I/O. The outline and the page texts are parameters instead, and `extract_pdf_toc` is `BuildTree` applied to that outline.
- main.py is not part of this model. It holds text-to-speech through a shell command and a regex-based chapter splitter.
- Node identity and aliasing are not modelled. In the source a node is appended to its parent's `children` when it is pushed and keeps growing through the shared reference. The model keeps nodes as values, attaches a node to its parent when it is popped, and closes the nodes still open after the loop. The forest returned is the same, and `BuildTree` states it outright as `Outline(flatToc)`.
- The root's page is `None` in the source and 0 here. It is never read.
- When `build_tree` raises, the nodes built before the failing entry are already linked into the root. The model only reports which entry failed.
- Pages.ChunkText: requires `limit > 0`. Its only caller passes the default 3000. A `limit` of 0 makes Python's `range` raise ValueError, and a negative one yields no chunks; neither is modelled.
- Toc.SameLevelSiblings: stated for an outline whose entries all share one level, not for two equal-level neighbours inside a larger outline. That case follows from `Outline` making the later entry a sibling whenever it is not deeper.
- Toc.IncreasingChain: stated for a whole outline of strictly increasing levels, not for such a run inside a larger outline.
- Pages.ExtractTextAsWritten: a negative index is modelled as Python sequence indexing, counted from the end and failing (`None`) below `-len(doc)`. This is an assumption about the PDF library's document indexing, which app.py does not show. The same holds for Navigator.SelectBookmarkAsWritten.
- Titles and page texts are Dafny strings. Text extraction, encodings and Unicode are not modelled.

## Findings

| source | as written | input that shows it | evidently intended | confidence | as-written member | corrected member |
|---|---|---|---|---|---|---|
| app.py:59, app.py:73-75 | A press reads index `page - 1`, and the only bounds test is `page_number < len(doc)`. A negative index passes it, and Python counts it from the end of the document. | A bookmark whose outline target lies outside the document. The PDF library reports page -1 for such targets, so index -2 reads the page before the last; page 0 reads the last page. | "Page not found." for every index outside `0 <= i < len(doc)` | medium, not executed; assumes the document's indexing follows Python's negative-index convention | Pages.OutsidePageReadsFromEnd | Pages.ExtractTextFromPage |
