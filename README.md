# epubbuilder in Dafny

A model of `EpubBook`, the object that epubbuilder fills with meta data, content items, a
reading order (the spine), a guide and a table-of-contents tree, and then writes out as an
EPUB archive with `create_book`.

The model is split into modules:

- `Builder.EpubBook` (builder.dfy) is a class with the book's fields. Its methods update
  those fields in place, as the Python methods do, and each is proved against the value
  functions of the other modules.
- `Book` (book.dfy) holds the whole book as a value (`BookState`) and its invariant
  (`StateValid`). It has the pages `create_book` renders (`TitlePageMade`, `TocPageMade`)
  and the archive `create_book` produces (`BookArchive`).
- `Catalog` (catalog.dfy) covers the image, html and css items. Each kind is a map from
  dest_path to item. Ids are `<kind>_<n>`, and the getters sort by the id string.
- `ReadingOrder` (spine.dfy) covers spine entries, the default order and `get_spine`.
- `Guide` (guide.dfy) covers guide references and `get_guide`.
- `Metadata` (metatags.dfy) covers `get_meta_tags`.
- `TocTree` (toc.dfy) is the table-of-contents tree. The tree is an arena (a sequence of
  nodes) in which node 0 is the root and parents and children are positions. It covers
  adding a node, the height, pre-order play-order numbering and `get_index_str`.
- `Packaging` (packaging.dfy) is the list of archive entries. Each entry has a name, a
  compression method, the data and whether it is UTF-8 encoded.
- `Strings`, `Sorting` and `Outcomes` are supporting modules:
  - decimal rendering and Python's string order;
  - sorting a set by a string key, and `max`;
  - `Option`, `Result` and the errors.

The book calls out to several external collaborators. Each becomes a field of the
datatype `Book.Env`:

- template rendering (genshi);
- the rendered container.xml;
- `mimetypes.guess_type`;
- the extension that `os.path.splitext` splits off;
- `imghdr.what`.

The clock-based `uuid.uuid1()` is a constructor parameter. File and stream contents are
given as values.

Every Python `assert` on a precondition becomes an `Err` result. When an assert fails, the
method changes nothing. The three set-once pages are the exception: `add_cover`,
`add_title_page` and `add_toc_page` run their steps one after the other (store the item,
add the spine entry, add the guide entry), and a later step that fails leaves the earlier
steps done, exactly as in the source.

The two asserts of the private page renderers, `assert self.title_page` (line 258) and
`assert self.toc_page` (line 281), are instead `requires` of `Builder.EpubBook.MakeTitlePage`
and `Builder.EpubBook.MakeTocPage`. `create_book` calls the renderers only under
`if self.title_page:` and `if self.toc_page:` (lines 409-412), so those asserts always hold
there.

## Where the code and its documented behaviour differ

The model follows the code in each case.

- `create_book` renders the table-of-contents page (`__make_toc_page`,
  epubbuilder/epubbuilder.py:277-285) and content.opf before `__write_toc_ncx` runs
  `assign_play_order` (line 368).
  - Those two documents therefore see the play orders of the previous `create_book` call,
    or 0 on the first call.
  - Only toc.ncx is rendered against freshly assigned play orders. See `Book.BookArchive`
    and `Builder.EpubBook.WriteBook`.
- The default spine order is one more than the largest order so far (line 309). It is not
  kept clear of the fixed orders of the cover, title and table-of-contents pages.
  - An item added with the default order right after the cover gets -299. It is then read
    before a title page added later (`ReadingOrder.DefaultAfterCoverPrecedesTitlePage`).
  - Two pages added after the three fixed pages get -99 and -98, not 1 and 2
    (`ReadingOrder.FixedPagesThenTwoDefaults`).
- A default order on an empty spine crashes (see Findings). `Builder.EpubBook.AddSpineItem`
  follows the code and fails there with `EmptySpine`; `ReadingOrder.DefaultOrder` is the
  evidently intended default, which the lemmas about default orders use.

## Model

| member | source | states |
|---|---|---|
| Builder.EpubBook.constructor | epubbuilder/epubbuilder.py:85-109 | a new book is the initial state (language en-US, empty title, no items, pages or guide, the tree only its root recorded at depth 0) and satisfies the invariant |
| Book.InitialStateValid | epubbuilder/epubbuilder.py:93-109 | the initial state satisfies the book invariant |
| Builder.EpubBook.SetTitle | epubbuilder/epubbuilder.py:111-115 | the title becomes the given one, nothing else changes |
| Builder.EpubBook.SetLanguage | epubbuilder/epubbuilder.py:117-121 | the language becomes the given one, nothing else changes |
| Builder.EpubBook.AddCreator | epubbuilder/epubbuilder.py:123-127 | the (name, role) pair is appended to the creators |
| Builder.EpubBook.AddAuthor | epubbuilder/epubbuilder.py:123-127 | without a role the creator is appended with the default role `aut` |
| Builder.EpubBook.AddMeta | epubbuilder/epubbuilder.py:129-133 | the (name, value, attributes) triple is appended to the meta data |
| Builder.EpubBook.GetMetaTags | epubbuilder/epubbuilder.py:135-148 | the loop's result is the tag list of the recorded meta data |
| Metadata.MetaTags | epubbuilder/epubbuilder.py:139-148 | `get_meta_tags` yields one tag triple per recorded meta datum |
| Metadata.BeginTag | epubbuilder/epubbuilder.py:141-145 | the begin tag starts with `<dc:` and the name and is closed by `>` |
| Metadata.EndTag | epubbuilder/epubbuilder.py:146 | the end tag is `</dc:` and the name closed by `>`, nothing more |
| Metadata.MetaTagsAt | epubbuilder/epubbuilder.py:139-148 | one triple per meta datum, in order; the k-th is (begin tag of datum k, its value unchanged, its end tag) |
| Metadata.BeginTagShape | epubbuilder/epubbuilder.py:141-145 | a begin tag starts with `<dc:` and the name, holds each attribute's ` opf:k="v"` after those before it, and ends with `>` |
| Metadata.BeginTagWithoutAttrs | epubbuilder/epubbuilder.py:141-145 | without attributes the begin tag is exactly `<dc:` + name + `>` |
| Metadata.AttrsTextPrefix | epubbuilder/epubbuilder.py:143-144 | the text of the first j attributes is a prefix of the text of them all |
| Metadata.EndTagMatches | epubbuilder/epubbuilder.py:141-146 | the end tag is `</dc:` + name + `>` and names the element the begin tag opens |
| Catalog.ItemsOfKind | epubbuilder/epubbuilder.py:150-166 | `get_image/html/css_items` list every item of the kind exactly once, strictly sorted by id |
| Catalog.AllItems | epubbuilder/epubbuilder.py:168-176 | `get_all_items` lists exactly the items of the three kinds, strictly sorted by id |
| Catalog.AllIdsInjective | epubbuilder/epubbuilder.py:168-176 | no two items of the whole catalog share an id |
| Catalog.TenBeforeTwo | epubbuilder/epubbuilder.py:154 | ids compare as strings: `<kind>_10` sorts before `<kind>_2` |
| Catalog.GetterPutsTenBeforeTwo | epubbuilder/epubbuilder.py:150-166 | with ten or more items of a kind the getter lists `<kind>_10` ahead of `<kind>_2` |
| Catalog.AllItemsGroupedByKind | epubbuilder/epubbuilder.py:168-176 | in `get_all_items` every css item precedes every html item, which precedes every image item |
| Catalog.Added | epubbuilder/epubbuilder.py:182-192 | storing a new item under a fresh dest_path adds exactly one item |
| Catalog.AddedKeepsKindValid | epubbuilder/epubbuilder.py:182-192 | after an addition the kind's ids are still exactly `<kind>_1` .. `<kind>_<count>`, each used once, every item under its own dest_path |
| Catalog.ItemIdInjective | epubbuilder/epubbuilder.py:183 | two ordinals with the same id are equal |
| Catalog.IdKindDistinct | epubbuilder/epubbuilder.py:183 | ids of different kinds differ |
| Catalog.NewIdUnused | epubbuilder/epubbuilder.py:183 | the id `<kind>_<count+1>` is not yet used by the kind |
| Catalog.IdPresent | epubbuilder/epubbuilder.py:183 | each id `<kind>_1` .. `<kind>_<count>` belongs to some item |
| Catalog.ContentReplacedKeepsKindValid | epubbuilder/epubbuilder.py:263-266 | replacing an item's content keeps the kind's ids and keys valid |
| Builder.EpubBook.AddImage | epubbuilder/epubbuilder.py:178-193 | a duplicate dest_path fails and leaves the images unchanged; otherwise the image `image_<n+1>` with the guessed mime type and the source's bytes is stored under its dest_path and returned |
| Book.ImageAddedValid | epubbuilder/epubbuilder.py:178-193 | adding an image under a fresh dest_path keeps the book's content invariant |
| Builder.EpubBook.AddHtml | epubbuilder/epubbuilder.py:207-218 | a duplicate dest_path fails and leaves the html items unchanged; otherwise `html_<n+1>` with the xhtml mime type and the given html is stored and returned |
| Book.HtmlAddedValid | epubbuilder/epubbuilder.py:207-218 | adding an html item under a fresh dest_path keeps the content invariant |
| Builder.EpubBook.AddCss | epubbuilder/epubbuilder.py:220-235 | a duplicate dest_path fails and leaves the css items unchanged; otherwise `css_<n+1>` with the css mime type and the content is stored and returned |
| Book.CssAddedValid | epubbuilder/epubbuilder.py:220-235 | adding a css item under a fresh dest_path keeps the content invariant |
| Builder.EpubBook.AddHtmlForImage | epubbuilder/epubbuilder.py:195-205 | the image page rendered against the book is added as html item `<dest_path>.html`, with the same failure as `add_html` |
| Book.CoverPath | epubbuilder/epubbuilder.py:243-248 | a given non-empty dest_path is used as is; otherwise "cover" plus the path's extension, or "cover." plus the sniffed type for a stream, failing exactly when a stream's type is unknown |
| Builder.EpubBook.AddCover | epubbuilder/epubbuilder.py:237-252 | a second cover fails with nothing changed; otherwise the image, its html page, a non-linear spine entry at -300 and the "cover" guide entry are added in that order, each failure leaving the earlier steps done |
| Builder.EpubBook.AddCoverImage | epubbuilder/epubbuilder.py:242-249 | the cover image is stored under the cover's dest_path and recorded as the cover, or the step fails with nothing changed |
| Builder.EpubBook.AddCoverPage | epubbuilder/epubbuilder.py:250-252 | the cover's html page, its spine entry at -300 and the "cover" guide entry are added |
| Builder.EpubBook.AddTitlePage | epubbuilder/epubbuilder.py:268-275 | a second title page fails with nothing changed; otherwise title-page.html with the given html, a linear spine entry at -200 and the "title-page" guide entry |
| Builder.EpubBook.AddTocPage | epubbuilder/epubbuilder.py:287-294 | a second table-of-contents page fails with nothing changed; otherwise an empty toc.html, a non-linear spine entry at -100 and the "toc" guide entry |
| Builder.EpubBook.AddSpineItem | epubbuilder/epubbuilder.py:302-310 | an unregistered html item fails with the spine unchanged; a missing order on an empty spine fails with `EmptySpine` and the spine unchanged, as `max` raises in the source; otherwise (order, item, linear) is appended, the order defaulting to one more than the largest so far |
| ReadingOrder.MaxOrder | epubbuilder/epubbuilder.py:308 | the maximum order of a non-empty spine: no entry exceeds it and some entry has it |
| ReadingOrder.DefaultOrderAsWritten | epubbuilder/epubbuilder.py:307-309 | the default as written fails exactly on the empty spine, and otherwise exceeds every order |
| ReadingOrder.DefaultOrder | epubbuilder/epubbuilder.py:307-309 | the intended default exceeds every order, is one more than the largest, and is 1 on an empty spine |
| ReadingOrder.DefaultOrderAsWrittenFailsOnEmpty | epubbuilder/epubbuilder.py:308-309 | on the empty spine the code as written fails where the intended default is 1 |
| ReadingOrder.DefaultOrderAgrees | epubbuilder/epubbuilder.py:307-309 | on a non-empty spine the code as written and the intended default agree |
| ReadingOrder.Insert | epubbuilder/epubbuilder.py:300 | inserting into a sorted spine keeps it sorted and adds exactly that entry |
| ReadingOrder.SortSpine | epubbuilder/epubbuilder.py:296-300 | `get_spine` is a permutation of the spine in non-decreasing order |
| ReadingOrder.SortSpineSameEntries | epubbuilder/epubbuilder.py:296-300 | an entry is in the sorted spine exactly when it is in the spine |
| ReadingOrder.SortedPlacesSmallerFirst | epubbuilder/epubbuilder.py:296-300 | in the sorted spine an entry of smaller order comes first |
| ReadingOrder.SortSortedSpine | epubbuilder/epubbuilder.py:296-300 | sorting a spine whose orders strictly increase leaves it as it is |
| ReadingOrder.FixedPagesFirst | epubbuilder/epubbuilder.py:251-300 | cover, title and table-of-contents pages (orders -300, -200, -100) come before every page of positive order, whatever the insertion order |
| ReadingOrder.DefaultAfterCoverPrecedesTitlePage | epubbuilder/epubbuilder.py:302-310 | a default-order item added right after the cover gets -299 and is read before a title page added later |
| ReadingOrder.FixedPagesThenTwoDefaults | epubbuilder/epubbuilder.py:302-310 | after cover, title and table-of-contents pages two default-order pages get -99 and -98 and the spine sorts as it was built |
| Builder.EpubBook.AddGuideItem | epubbuilder/epubbuilder.py:318-323 | a guide type already present fails with the guide unchanged; otherwise the entry is stored under its type |
| Guide.StoreKeepsValid | epubbuilder/epubbuilder.py:323 | storing an entry under its own type keeps every entry under its own type |
| Guide.TypesInjective | epubbuilder/epubbuilder.py:316 | no two guide entries share a type |
| Guide.GetGuide | epubbuilder/epubbuilder.py:312-316 | `get_guide` lists every guide entry exactly once, strictly sorted by type |
| Guide.FixedTypesOrder | epubbuilder/epubbuilder.py:312-316 | "cover" sorts before "title-page", which sorts before "toc" |
| Book.TitlePageMade | epubbuilder/epubbuilder.py:254-266 | making the title page changes only the html items and keeps the content invariant |
| Book.TitlePageMadeOnce | epubbuilder/epubbuilder.py:254-266 | only the title page's content changes, and only when it was empty; a title page with content of its own is kept; once rendered non-empty, making it again changes nothing |
| Book.TocPageMade | epubbuilder/epubbuilder.py:277-285 | making the table-of-contents page changes only the html items and keeps the content invariant |
| Book.PagesMade | epubbuilder/epubbuilder.py:410-413 | the pages `create_book` makes change only the html items and keep the content invariant |
| Builder.EpubBook.MakeTitlePage | epubbuilder/epubbuilder.py:254-266 | the method's new state is the title page made from the old state |
| Builder.EpubBook.MakeTocPage | epubbuilder/epubbuilder.py:277-285 | the method's new state is the table-of-contents page made from the old state |
| Builder.EpubBook.MakePages | epubbuilder/epubbuilder.py:410-413 | the title page is made before the table-of-contents page |
| TocTree.Attach | epubbuilder/epubbuilder.py:341-349 | the new node is the parent's new last child, one level below it, with index equal to the parent's child count, with the given href and title and no children |
| TocTree.AttachKeeps | epubbuilder/epubbuilder.py:347 | adding a node changes no existing node except the parent, and the parent only by its new last child |
| TocTree.AttachWellFormed | epubbuilder/epubbuilder.py:341-349 | adding a node keeps the tree well formed (parents earlier, depth one more than the parent, children listed with their indices) |
| TocTree.AttachKeepsLast | epubbuilder/epubbuilder.py:351 | recording the new node as the last at its depth keeps `last_node_at_depth` the latest node of each depth present |
| TocTree.RootAloneValid | epubbuilder/epubbuilder.py:108-109 | the root alone, recorded at depth 0, is a valid tree |
| TocTree.Listed | epubbuilder/epubbuilder.py:347-349 | every node other than the root is its parent's child at position index |
| TocTree.TreeHasRoot | epubbuilder/epubbuilder.py:108 | a valid tree holds the parentless root, with one play order per node |
| TocTree.AddNodeKeepsTreeValid | epubbuilder/epubbuilder.py:337-352 | `add_toc_map_node` keeps the tree, its play orders and `last_node_at_depth` valid |
| Builder.EpubBook.AddTocMapNode | epubbuilder/epubbuilder.py:337-352 | the node is attached under the given parent (the root when none is given), recorded as the last node at its depth, and its position returned; the tree stays valid |
| TocTree.Height | epubbuilder/epubbuilder.py:331-335 | `get_toc_map_height` is a recorded depth that no node exceeds, and 0 while the tree is only its root |
| TocTree.PreOrder | epubbuilder/epubbuilder.py:44-51 | a subtree's pre-order starts at its root and lists only nodes of the subtree |
| TocTree.PreOrderDescends | epubbuilder/epubbuilder.py:50-51 | every node in a subtree's pre-order descends from the subtree's root |
| TocTree.PreOrderDistinct | epubbuilder/epubbuilder.py:50-51 | a pre-order lists no node twice |
| TocTree.RootPreOrderIsPermutation | epubbuilder/epubbuilder.py:44-51 | the root's pre-order lists every node exactly once |
| TocTree.PlayOrders | epubbuilder/epubbuilder.py:37-51 | one play order per node: the k-th node of the root's pre-order gets k |
| TocTree.NumberSubtree | epubbuilder/epubbuilder.py:44-51 | `__assign_play_order` on a subtree gives one order per node and moves the counter past the subtree's root |
| TocTree.NumberChildren | epubbuilder/epubbuilder.py:50-51 | the loop over the children gives one order per node and never moves the counter back |
| TocTree.PlayOrderNumbering | epubbuilder/epubbuilder.py:37-51 | the root gets 0 and every node its position in the pre-order; the numbers 0 .. n-1 are each used exactly once |
| TocTree.NumberSubtreeNumbers | epubbuilder/epubbuilder.py:44-51 | the recursive numbering of a subtree numbers its pre-order consecutively from the counter, returns the counter past it, and leaves other nodes alone |
| TocTree.NumberChildrenNumbers | epubbuilder/epubbuilder.py:50-51 | the loop over children numbers their subtrees one after another |
| TocTree.NumberedIsPlayOrders | epubbuilder/epubbuilder.py:37-51 | any numbering of the root's pre-order from 0 is the play-order numbering |
| TocTree.NumberingIsPlayOrders | epubbuilder/epubbuilder.py:37-42 | the numbering from counter 0 gives every node its pre-order position, whatever the orders before |
| TocTree.NumberingAgainChangesNothing | epubbuilder/epubbuilder.py:37-42 | assigning the play orders again on an unchanged tree reproduces them |
| Builder.EpubBook.AssignFrom | epubbuilder/epubbuilder.py:44-51 | the recursive method with its child loop computes the subtree numbering and the next counter |
| Builder.EpubBook.AssignPlayOrder | epubbuilder/epubbuilder.py:37-42 | after `assign_play_order` every node's play order is its pre-order position |
| TocTree.IndexStr | epubbuilder/epubbuilder.py:53-64 | at depth 0 or 1 the index alone; the only failure is a node of depth greater than 1 without a parent |
| TocTree.IndexStrComponents | epubbuilder/epubbuilder.py:53-64 | in a well-formed tree `get_index_str` never fails, and has depth-1 dots for a node deeper than 1 |
| TocTree.IndexStrHasDot | epubbuilder/epubbuilder.py:60-62 | below depth 1 the index string is the parent's string, a dot and the index |
| TocTree.IndexStrInjective | epubbuilder/epubbuilder.py:53-64 | apart from the root, no two nodes share an index string |
| TocTree.RootSharesFirstIndexStr | epubbuilder/epubbuilder.py:58-59 | the root and the first top-level node both give "1" |
| TocTree.SampleBuilt | epubbuilder/epubbuilder.py:337-352 | four `add_toc_map_node` calls build the tree root -> A -> {A1, A2}, root -> B |
| TocTree.SampleIndexStrs | epubbuilder/epubbuilder.py:53-64 | in that tree A, A1, A2 and B give 1, 1.1, 1.2 and 2 |
| TocTree.SamplePreOrder | epubbuilder/epubbuilder.py:44-51 | that tree's pre-order is root, A, A1, A2, B |
| TocTree.SamplePlayOrders | epubbuilder/epubbuilder.py:37-51 | root, A, A1, A2 and B get play orders 0, 1, 2, 3 and 4 |
| Strings.NatToString | epubbuilder/epubbuilder.py:183 | decimal digits of a natural, one digit exactly below 10 |
| Strings.NatToStringInjective | epubbuilder/epubbuilder.py:183 | distinct ordinals give distinct digit strings |
| Strings.LessTotal | epubbuilder/epubbuilder.py:154 | Python's string order is total |
| Strings.LessTransitive | epubbuilder/epubbuilder.py:154 | Python's string order is transitive |
| Strings.LessAfterPrefix | epubbuilder/epubbuilder.py:154 | a common prefix does not change how two strings compare |
| Sorting.SortedByKey | epubbuilder/epubbuilder.py:154 | `sorted(..., key=...)` of a set with distinct keys lists each member once in increasing key order |
| Sorting.MaxOf | epubbuilder/epubbuilder.py:335 | `max` of a non-empty set is a member no member exceeds |
| Packaging.JoinPath | epubbuilder/epubbuilder.py:392 | `os.path.join`: an absolute path replaces the directory; otherwise one `/` between them |
| Packaging.JoinPathInjective | epubbuilder/epubbuilder.py:392 | distinct dest_paths give distinct names under OEBPS |
| Packaging.ItemEntry | epubbuilder/epubbuilder.py:387-394 | an item is written under OEBPS/<dest_path>, deflated, UTF-8 encoded unless its mime type starts with "image"; a missing mime type fails |
| Packaging.ItemEntries | epubbuilder/epubbuilder.py:387-394 | one entry per item in order, failing exactly when some item has no mime type |
| Builder.EpubBook.WriteItems | epubbuilder/epubbuilder.py:383-394 | the loop writes exactly the item entries |
| Packaging.Archive | epubbuilder/epubbuilder.py:403-420 | writing fails exactly when some item has no mime type; otherwise four entries more than items, the stored mimetype entry first |
| Packaging.ArchiveLayout | epubbuilder/epubbuilder.py:403-420 | the archive is the stored mimetype entry, one OEBPS entry per item in order, then container.xml, content.opf and toc.ncx |
| Packaging.EntriesLayout | epubbuilder/epubbuilder.py:414-418 | the layout of the entries around the written items |
| Packaging.ArchiveHoldsItem | epubbuilder/epubbuilder.py:387-394 | every item written is in the archive after the mimetype entry |
| Packaging.MimetypeUnique | epubbuilder/epubbuilder.py:396-401 | no entry but the first is named `mimetype` |
| Packaging.ItemNamesDistinct | epubbuilder/epubbuilder.py:391-394 | items with distinct dest_paths get entries of distinct names |
| Book.PlayOrdersAssigned | epubbuilder/epubbuilder.py:368 | the book after `assign_play_order`: only the play orders change, each becomes the node's pre-order position, and the invariant holds |
| Book.NoMimeIsImage | epubbuilder/epubbuilder.py:190 | only image items can lack a mime type |
| Book.CatalogArchiveFails | epubbuilder/epubbuilder.py:387-389 | writing the catalog fails exactly when an image's mime type could not be guessed |
| Book.CatalogArchiveHolds | epubbuilder/epubbuilder.py:387-394 | every image, html and css item is written under OEBPS/ after the mimetype entry |
| Book.BookArchive | epubbuilder/epubbuilder.py:403-420 | the book's archive fails exactly when an image's mime type is unknown; otherwise it opens with the stored mimetype entry |
| Book.BookArchiveHoldsItems | epubbuilder/epubbuilder.py:403-420 | a book's archive fails exactly when an image's mime type is unknown; otherwise every item, the pages and cover included, is in it |
| Builder.EpubBook.WriteTocNcx | epubbuilder/epubbuilder.py:364-372 | the play orders are assigned and toc.ncx is rendered against the book so numbered |
| Builder.EpubBook.WriteBook | epubbuilder/epubbuilder.py:414-418 | the entries written are the book's archive; the play orders are assigned only after the items were written |
| Builder.EpubBook.CreateBook | epubbuilder/epubbuilder.py:403-420 | the result is the archive of the book with its pages made, and the new state is that book, with play orders assigned when writing succeeds |

## Left out

- Reading files and streams (epubbuilder/epubbuilder.py:185-189, 226-230): image bytes and
  css text are given as values, and the file handles are not modelled.
- The external libraries are `Book.Env` parameters and are not modelled:
  `mimetypes.guess_type`, `imghdr.what`, `os.path.splitext`, genshi templates. The same
  goes for `uuid.uuid1`, which is the constructor's `uuid` parameter.
- The zip file itself: compression, byte layout and closing the archive. `create_book`
  yields the list of entries it writes, with their names, compression method and data.
  UTF-8 encoding (line 390) is only a flag on the entry.
- Builder.EpubBook.CreateBook: when an item has no mime type, the result is `Err`. The
  source leaves a zip file that holds the entries written so far; the model does not
  return those entries.
- The source's `AssertionError`s, and the `TypeError`/`AttributeError` of line 248 and
  line 389, become `Err` values of `Outcomes.Error`. Running Python with `-O`, which drops
  the assertions, is not modelled.
- Item and node identity: items are named by their dest_path (their key), and nodes by
  their position in the arena. The spine, cover, title page and table-of-contents page
  refer to items by dest_path.
- ReadingOrder.SortSpine: entries of equal order keep the order in which they were added.
  The source's `sorted(self.spine)` would compare the EpubItem objects next, by their
  address under Python 2, which is arbitrary.
- Builder.EpubBook.AddTocMapNode: the parent must be a node of this book's tree, given by
  its position. The source also accepts a TocMapNode that belongs to no tree, or to
  another book's tree. An arena cannot represent such a node.
- `get_toc_map_root` (lines 325-329): the root is node 0 of `tocNodes`, so there is no
  separate accessor.
- `__write_mime_type`, `__write_container_xml` and `__write_content_opf` (lines 354-362,
  374-381, 396-401) appear only as their fixed entries in `Packaging.Archive` and
  `Builder.EpubBook.WriteBook`.
- Dictionary order: the attributes of `add_meta` are given as a sequence, in the order
  `iteritems` yields them.
- `test()` and setup.py are not part of this model.

## Findings

| source | as written | input that shows it | evidently intended | confidence | as-written member | corrected member |
|---|---|---|---|---|---|---|
| epubbuilder/epubbuilder.py:308 | the maximum of the spine's orders is taken before testing whether the spine is empty, so `max` raises on an empty spine and the `else 0` branch of line 309 is never reached | `add_spine_item(item)` with no order on a book whose spine is empty; `ReadingOrder.DefaultOrderAsWrittenFailsOnEmpty` exhibits it, and `ReadingOrder.DefaultOrderAgrees` shows the two agree on every other spine | the first default order is 0 + 1 = 1 | not executed | ReadingOrder.DefaultOrderAsWritten | ReadingOrder.DefaultOrder |
