/** The EpubBook object: the fields the builder's methods update in place. */
module Builder {
  import opened Outcomes
  import opened Catalog
  import opened ReadingOrder
  import opened Guide
  import opened Metadata
  import opened TocTree
  import opened Packaging
  import opened Book

  class EpubBook {
    var uuid: string
    var lang: string
    var title: string
    var creators: seq<(string, string)>
    var metaInfo: seq<Meta>
    var imageItems: map<string, Item>
    var htmlItems: map<string, Item>
    var cssItems: map<string, Item>
    var coverImage: Option<string>
    var titlePage: Option<string>
    var tocPage: Option<string>
    var spine: seq<SpineEntry>
    var guide: map<string, GuideEntry>
    var tocNodes: seq<TocNode>
    var playOrder: seq<int>
    var lastNodeAtDepth: map<nat, nat>

    function State(): BookState
      reads this
    {
      BookState(uuid, lang, title, creators, metaInfo, imageItems, htmlItems, cssItems,
                coverImage, titlePage, tocPage, spine, guide, tocNodes, playOrder, lastNodeAtDepth)
    }

    /** ContentValid(State()), stated on the fields themselves. */
    ghost predicate Valid()
      reads this`imageItems, this`htmlItems, this`cssItems, this`guide
      reads this`coverImage, this`titlePage, this`tocPage, this`spine
    {
      PartsValid(imageItems, htmlItems, cssItems, guide, coverImage, titlePage, tocPage, spine)
    }

    /** The table of contents is a well-formed tree with one play order per node; kept
        apart from Valid() because only the methods on the tree need it. Together the two
        are StateValid(State()). */
    ghost predicate TocValid()
      reads this`tocNodes, this`playOrder, this`lastNodeAtDepth
    {
      TreeValid(tocNodes, playOrder, lastNodeAtDepth)
    }

    /** A new book; the uuid (`uuid.uuid1()`, from the clock) is given. */
    constructor(uuid: string)
      ensures State() == InitialState(uuid)
      ensures Valid() && TocValid()
    {
      this.uuid := uuid;
      lang := DefaultLanguage;
      title := "";
      creators := [];
      metaInfo := [];
      imageItems := map[];
      htmlItems := map[];
      cssItems := map[];
      coverImage := None;
      titlePage := None;
      tocPage := None;
      spine := [];
      guide := map[];
      tocNodes := [Root];
      playOrder := [0];
      lastNodeAtDepth := map[0 := 0];
      InitialStateValid(uuid);
    }

    method SetTitle(title: string)
      requires Valid()
      modifies this`title
      ensures Valid() && this.title == title
    {
      this.title := title;
    }

    method SetLanguage(lang: string)
      requires Valid()
      modifies this`lang
      ensures Valid() && this.lang == lang
    {
      this.lang := lang;
    }

    /** `add_creator(name, role)`. */
    method AddCreator(name: string, role: string)
      requires Valid()
      modifies this`creators
      ensures Valid() && creators == old(creators) + [(name, role)]
    {
      creators := creators + [(name, role)];
    }

    /** `add_creator(name)`: the role defaults to DefaultCreatorRole, the author. */
    method AddAuthor(name: string)
      requires Valid()
      modifies this`creators
      ensures Valid() && creators == old(creators) + [(name, DefaultCreatorRole)]
    {
      AddCreator(name, DefaultCreatorRole);
    }

    method AddMeta(name: string, value: string, attrs: seq<(string, string)>)
      requires Valid()
      modifies this`metaInfo
      ensures Valid() && metaInfo == old(metaInfo) + [Meta(name, value, attrs)]
    {
      metaInfo := metaInfo + [Meta(name, value, attrs)];
    }

    /** `get_meta_tags`: builds each begin tag attribute by attribute. */
    method GetMetaTags() returns (tags: seq<(string, string, string)>)
      ensures tags == MetaTags(metaInfo)
    {
      tags := [];
      for i := 0 to |metaInfo|
        invariant tags == MetaTags(metaInfo[..i])
      {
        var m := metaInfo[i];
        var begintag := "<dc:" + m.name;
        for j := 0 to |m.attrs|
          invariant begintag == "<dc:" + m.name + AttrsText(m.attrs[..j])
        {
          begintag := begintag + " opf:" + m.attrs[j].0 + "=\"" + m.attrs[j].1 + "\"";
          assert m.attrs[..j + 1][..j] == m.attrs[..j];
        }
        assert m.attrs[..|m.attrs|] == m.attrs;
        begintag := begintag + ">";
        var endtag := "</dc:" + m.name + ">";
        tags := tags + [(begintag, m.value, endtag)];
        assert metaInfo[..i + 1][..i] == metaInfo[..i];
      }
      assert metaInfo[..|metaInfo|] == metaInfo;
    }

    // -------------------------------------------------------------------------------
    // The catalog

    /** `add_image`: the next image id, the mime type guessed from the dest_path, the bytes
        of the source; a dest_path already used by an image fails and changes nothing. */
    method AddImage(env: Env, src: ImageSource, destPath: string) returns (r: Result<Item>)
      requires Valid()
      modifies this`imageItems
      ensures Valid()
      ensures destPath in old(imageItems) ==> r == Err(DuplicatePath) && imageItems == old(imageItems)
      ensures destPath !in old(imageItems) ==>
                && imageItems == Added(old(imageItems), Image, destPath, env.guessType(destPath), Binary(src.data))
                && r == Ok(imageItems[destPath])
    {
      if destPath in imageItems {
        return Err(DuplicatePath);
      }
      ImageAddedValid(imageItems, htmlItems, cssItems, guide, coverImage, titlePage, tocPage, spine, destPath, env.guessType(destPath), Binary(src.data));
      imageItems := Added(imageItems, Image, destPath, env.guessType(destPath), Binary(src.data));
      r := Ok(imageItems[destPath]);
    }

    /** `add_html`: the next html id, the xhtml mime type and the given html; a dest_path
        already used by an html item fails and changes nothing. */
    method AddHtml(destPath: string, html: string) returns (r: Result<Item>)
      requires Valid()
      modifies this`htmlItems
      ensures Valid()
      ensures destPath in old(htmlItems) ==> r == Err(DuplicatePath) && htmlItems == old(htmlItems)
      ensures destPath !in old(htmlItems) ==>
                && htmlItems == Added(old(htmlItems), Html, destPath, Some(XhtmlMimeType), Text(html))
                && r == Ok(htmlItems[destPath])
    {
      if destPath in htmlItems {
        return Err(DuplicatePath);
      }
      HtmlAddedValid(imageItems, htmlItems, cssItems, guide, coverImage, titlePage, tocPage, spine, destPath, Text(html));
      htmlItems := Added(htmlItems, Html, destPath, Some(XhtmlMimeType), Text(html));
      r := Ok(htmlItems[destPath]);
    }

    /** `add_css`: the next css id, the css mime type and the text read from the source. */
    method AddCss(content: string, destPath: string) returns (r: Result<Item>)
      requires Valid()
      modifies this`cssItems
      ensures Valid()
      ensures destPath in old(cssItems) ==> r == Err(DuplicatePath) && cssItems == old(cssItems)
      ensures destPath !in old(cssItems) ==>
                && cssItems == Added(old(cssItems), Css, destPath, Some(CssMimeType), Text(content))
                && r == Ok(cssItems[destPath])
    {
      if destPath in cssItems {
        return Err(DuplicatePath);
      }
      CssAddedValid(imageItems, htmlItems, cssItems, guide, coverImage, titlePage, tocPage, spine, destPath, Text(content));
      cssItems := Added(cssItems, Css, destPath, Some(CssMimeType), Text(content));
      r := Ok(cssItems[destPath]);
    }

    /** `add_html_for_image`: an html page `<dest_path>.html` showing the image, rendered
        against the book as it is. */
    method AddHtmlForImage(env: Env, image: Item) returns (r: Result<Item>)
      requires Valid()
      modifies this`htmlItems
      ensures Valid()
      ensures image.destPath + ".html" in old(htmlItems) ==> r == Err(DuplicatePath) && htmlItems == old(htmlItems)
      ensures image.destPath + ".html" !in old(htmlItems) ==>
                && htmlItems == Added(old(htmlItems), Html, image.destPath + ".html", Some(XhtmlMimeType),
                                      Text(env.render(ImagePage(image), old(State()))))
                && r == Ok(htmlItems[image.destPath + ".html"])
    {
      var html := env.render(ImagePage(image), State());
      r := AddHtml(image.destPath + ".html", html);
    }

    // -------------------------------------------------------------------------------
    // Spine and guide

    /** `add_spine_item`: appends (order, item, linear); without an order, one more than the
        largest so far. The item must be a registered html item. As in the source, a missing
        order on an empty spine fails: `max` of no orders raises before the emptiness test. */
    method AddSpineItem(item: string, linear: bool, order: Option<int>) returns (r: Result<()>)
      requires Valid()
      modifies this`spine
      ensures Valid()
      ensures item !in old(htmlItems) ==> r == Err(ItemNotFound) && spine == old(spine)
      ensures item in old(htmlItems) && order.None? && old(spine) == [] ==>
                r == Err(EmptySpine) && spine == old(spine)
      ensures item in old(htmlItems) && (order.Some? || old(spine) != []) ==>
                && r == Ok(())
                && spine == old(spine) + [SpineEntry(if order.Some? then order.value else DefaultOrder(old(spine)), item, linear)]
    {
      if item !in htmlItems {
        return Err(ItemNotFound);
      }
      var o: int;
      if order.None? {
        var d := DefaultOrderAsWritten(spine);
        if d.Err? {
          return Err(d.error);
        }
        DefaultOrderAgrees(spine);
        o := d.value;
      } else {
        o := order.value;
      }
      spine := spine + [SpineEntry(o, item, linear)];
      r := Ok(());
    }

    /** `add_guide_item`: one reference per guide type. */
    method AddGuideItem(href: string, title: string, guideType: string) returns (r: Result<()>)
      requires Valid()
      modifies this`guide
      ensures Valid()
      ensures guideType in old(guide) ==> r == Err(DuplicateGuideType) && guide == old(guide)
      ensures guideType !in old(guide) ==>
                r == Ok(()) && guide == old(guide)[guideType := GuideEntry(href, title, guideType)]
    {
      if guideType in guide {
        return Err(DuplicateGuideType);
      }
      StoreKeepsValid(guide, GuideEntry(href, title, guideType));
      guide := guide[guideType := GuideEntry(href, title, guideType)];
      r := Ok(());
    }

    // -------------------------------------------------------------------------------
    // The pages set at most once

    /** `add_cover`: the image, an html page for it, a non-linear spine entry at CoverOrder
        and the "cover" guide reference, in that order. As in the source, a step that fails
        leaves the earlier steps done: the cover is recorded as soon as its image is added. */
    method AddCover(env: Env, src: ImageSource, destPath: Option<string>) returns (r: Result<()>)
      requires Valid()
      modifies this`imageItems, this`coverImage, this`htmlItems, this`spine, this`guide
      ensures Valid()
      ensures old(coverImage).Some? ==> r == Err(AlreadySet) && unchanged(this)
      ensures old(coverImage).None? && CoverPath(env, src, destPath).Err? ==>
                r == Err(UnknownImageType) && unchanged(this)
      ensures old(coverImage).None? && CoverPath(env, src, destPath).Ok? && CoverPath(env, src, destPath).value in old(imageItems) ==>
                r == Err(DuplicatePath) && unchanged(this)
      ensures old(coverImage).None? && CoverPath(env, src, destPath).Ok? && CoverPath(env, src, destPath).value !in old(imageItems) ==>
                var dest := CoverPath(env, src, destPath).value;
                var page := dest + ".html";
                && imageItems == Added(old(imageItems), Image, dest, env.guessType(dest), Binary(src.data))
                && coverImage == Some(dest)
                && (page in old(htmlItems) ==>
                      r == Err(DuplicatePath) && htmlItems == old(htmlItems) && spine == old(spine) && guide == old(guide))
                && (page !in old(htmlItems) ==>
                      && htmlItems == Added(old(htmlItems), Html, page, Some(XhtmlMimeType),
                           Text(env.render(ImagePage(imageItems[dest]), old(State()).(imageItems := imageItems, coverImage := coverImage))))
                      && spine == old(spine) + [SpineEntry(CoverOrder, page, false)]
                      && ("cover" in old(guide) ==> r == Err(DuplicateGuideType) && guide == old(guide))
                      && ("cover" !in old(guide) ==> r == Ok(()) && guide == old(guide)["cover" := GuideEntry(page, "Cover", "cover")]))
    {
      if coverImage.Some? {
        return Err(AlreadySet);
      }
      var dest := AddCoverImage(env, src, destPath);
      if dest.Err? {
        return Err(dest.error);
      }
      ghost var s := State();
      r := AddCoverPage(env, dest.value);
      assert s == old(State()).(imageItems := imageItems, coverImage := coverImage);
    }

    /** The first steps of `add_cover`: the image under the cover's dest_path, recorded as
        the cover. */
    method AddCoverImage(env: Env, src: ImageSource, destPath: Option<string>) returns (r: Result<string>)
      requires Valid() && coverImage.None?
      modifies this`imageItems, this`coverImage
      ensures Valid()
      ensures CoverPath(env, src, destPath).Err? ==> r == Err(UnknownImageType) && unchanged(this)
      ensures CoverPath(env, src, destPath).Ok? && CoverPath(env, src, destPath).value in old(imageItems) ==>
                r == Err(DuplicatePath) && unchanged(this)
      ensures CoverPath(env, src, destPath).Ok? && CoverPath(env, src, destPath).value !in old(imageItems) ==>
                var dest := CoverPath(env, src, destPath).value;
                && r == Ok(dest)
                && imageItems == Added(old(imageItems), Image, dest, env.guessType(dest), Binary(src.data))
                && coverImage == Some(dest)
    {
      var path := CoverPath(env, src, destPath);
      if path.Err? {
        return Err(path.error);
      }
      var image := AddImage(env, src, path.value);
      if image.Err? {
        return Err(image.error);
      }
      coverImage := Some(path.value);
      r := Ok(path.value);
    }

    /** The last steps of `add_cover`: the html page for the cover image, its non-linear
        spine entry and the "cover" guide reference. */
    method AddCoverPage(env: Env, dest: string) returns (r: Result<()>)
      requires Valid() && dest in imageItems
      modifies this`htmlItems, this`spine, this`guide
      ensures Valid()
      ensures dest + ".html" in old(htmlItems) ==> r == Err(DuplicatePath) && unchanged(this)
      ensures dest + ".html" !in old(htmlItems) ==>
                var page := dest + ".html";
                && htmlItems == Added(old(htmlItems), Html, page, Some(XhtmlMimeType),
                     Text(env.render(ImagePage(imageItems[dest]), old(State()))))
                && spine == old(spine) + [SpineEntry(CoverOrder, page, false)]
                && ("cover" in old(guide) ==> r == Err(DuplicateGuideType) && guide == old(guide))
                && ("cover" !in old(guide) ==> r == Ok(()) && guide == old(guide)["cover" := GuideEntry(page, "Cover", "cover")])
    {
      var page := AddHtmlForImage(env, imageItems[dest]);
      if page.Err? {
        return Err(page.error);
      }
      var added := AddSpineItem(page.value.destPath, false, Some(CoverOrder));
      r := AddGuideItem(page.value.destPath, "Cover", "cover");
    }

    /** `add_title_page`: the html item title-page.html, a linear spine entry at
        TitlePageOrder and the "title-page" guide reference. */
    method AddTitlePage(html: string) returns (r: Result<()>)
      requires Valid()
      modifies this`htmlItems, this`titlePage, this`spine, this`guide
      ensures Valid()
      ensures old(titlePage).Some? ==> r == Err(AlreadySet) && unchanged(this)
      ensures old(titlePage).None? && TitlePagePath in old(htmlItems) ==> r == Err(DuplicatePath) && unchanged(this)
      ensures old(titlePage).None? && TitlePagePath !in old(htmlItems) ==>
                && htmlItems == Added(old(htmlItems), Html, TitlePagePath, Some(XhtmlMimeType), Text(html))
                && titlePage == Some(TitlePagePath)
                && spine == old(spine) + [SpineEntry(TitlePageOrder, TitlePagePath, true)]
                && ("title-page" in old(guide) ==> r == Err(DuplicateGuideType) && guide == old(guide))
                && ("title-page" !in old(guide) ==>
                      r == Ok(()) && guide == old(guide)["title-page" := GuideEntry(TitlePagePath, "Title Page", "title-page")])
    {
      if titlePage.Some? {
        return Err(AlreadySet);
      }
      var page := AddHtml(TitlePagePath, html);
      if page.Err? {
        return Err(page.error);
      }
      titlePage := Some(TitlePagePath);
      var added := AddSpineItem(TitlePagePath, true, Some(TitlePageOrder));
      r := AddGuideItem(TitlePagePath, "Title Page", "title-page");
    }

    /** `add_toc_page`: the html item toc.html (empty until `create_book` renders it), a
        non-linear spine entry at TocPageOrder and the "toc" guide reference. */
    method AddTocPage() returns (r: Result<()>)
      requires Valid()
      modifies this`htmlItems, this`tocPage, this`spine, this`guide
      ensures Valid()
      ensures old(tocPage).Some? ==> r == Err(AlreadySet) && unchanged(this)
      ensures old(tocPage).None? && TocPagePath in old(htmlItems) ==> r == Err(DuplicatePath) && unchanged(this)
      ensures old(tocPage).None? && TocPagePath !in old(htmlItems) ==>
                && htmlItems == Added(old(htmlItems), Html, TocPagePath, Some(XhtmlMimeType), Text(""))
                && tocPage == Some(TocPagePath)
                && spine == old(spine) + [SpineEntry(TocPageOrder, TocPagePath, false)]
                && ("toc" in old(guide) ==> r == Err(DuplicateGuideType) && guide == old(guide))
                && ("toc" !in old(guide) ==>
                      r == Ok(()) && guide == old(guide)["toc" := GuideEntry(TocPagePath, "Table of Contents", "toc")])
    {
      if tocPage.Some? {
        return Err(AlreadySet);
      }
      var page := AddHtml(TocPagePath, "");
      if page.Err? {
        return Err(page.error);
      }
      tocPage := Some(TocPagePath);
      var added := AddSpineItem(TocPagePath, false, Some(TocPageOrder));
      r := AddGuideItem(TocPagePath, "Table of Contents", "toc");
    }

    // -------------------------------------------------------------------------------
    // The table of contents

    /** `add_toc_map_node`: a new last child of the parent (the root when none is given),
        one level below it, recorded as the last node at its depth. */
    method AddTocMapNode(href: string, title: string, parent: Option<nat>) returns (node: nat)
      requires TocValid()
      requires parent.Some? ==> parent.value < |tocNodes|
      modifies this`tocNodes, this`playOrder, this`lastNodeAtDepth
      ensures TocValid()
      ensures var p := if parent.Some? then parent.value else 0;
              && node == |old(tocNodes)|
              && tocNodes == Attach(old(tocNodes), p, href, title)
              && playOrder == old(playOrder) + [0]
              && lastNodeAtDepth == old(lastNodeAtDepth)[old(tocNodes)[p].depth + 1 := |old(tocNodes)|]
    {
      var nodes, orders, last := tocNodes, playOrder, lastNodeAtDepth;
      TreeHasRoot(nodes, orders, last);
      var p := if parent.Some? then parent.value else 0;
      AddNodeKeepsTreeValid(nodes, orders, last, p, href, title);
      node := |nodes|;
      tocNodes, playOrder, lastNodeAtDepth := Attach(nodes, p, href, title), orders + [0], last[nodes[p].depth + 1 := |nodes|];
    }

    /** `__assign_play_order` on the subtree at i: numbers its nodes in pre-order from next
        and returns the number after the last one used. */
    method AssignFrom(i: nat, next: int) returns (after: int)
      requires WellFormed(tocNodes) && i < |tocNodes| && |playOrder| == |tocNodes|
      modifies this`playOrder
      ensures (playOrder, after) == NumberSubtree(tocNodes, old(playOrder), i, next)
      decreases |tocNodes| - i
    {
      playOrder := playOrder[i := next];
      after := next + 1;
      ghost var po1 := playOrder;
      var children := tocNodes[i].children;
      for j := 0 to |children|
        invariant (playOrder, after) == NumberChildren(tocNodes, po1, i, j, next + 1)
      {
        after := AssignFrom(children[j], after);
      }
    }

    /** `assign_play_order`: every node's play order becomes its position in the pre-order
        of the whole tree. */
    method AssignPlayOrder()
      requires TocValid()
      modifies this`playOrder
      ensures TocValid()
      ensures playOrder == PlayOrders(tocNodes)
    {
      var after := AssignFrom(0, 0);
      NumberingIsPlayOrders(tocNodes, old(playOrder));
    }

    // -------------------------------------------------------------------------------
    // create_book

    method MakeTitlePage(env: Env)
      requires Valid() && titlePage.Some?
      modifies this`htmlItems
      ensures Valid() && State() == TitlePageMade(env, old(State()))
    {
      if IsEmpty(htmlItems[TitlePagePath].content) {
        var html := env.render(TitlePageTemplate, State());
        ContentReplacedKeepsKindValid(htmlItems, Html, TitlePagePath, Text(html));
        htmlItems := htmlItems[TitlePagePath := htmlItems[TitlePagePath].(content := Text(html))];
      }
    }

    method MakeTocPage(env: Env)
      requires Valid() && tocPage.Some?
      modifies this`htmlItems
      ensures Valid() && State() == TocPageMade(env, old(State()))
    {
      var html := env.render(TocPageTemplate, State());
      ContentReplacedKeepsKindValid(htmlItems, Html, TocPagePath, Text(html));
      htmlItems := htmlItems[TocPagePath := htmlItems[TocPagePath].(content := Text(html))];
    }

    /** `__write_items`: one entry per item, in id order. */
    method WriteItems(items: seq<Item>) returns (r: Result<seq<Entry>>)
      ensures r == ItemEntries(items)
    {
      var written: seq<Entry> := [];
      for k := 0 to |items|
        invariant ItemEntries(items[..k]) == Ok(written)
      {
        assert items[..k + 1][..k] == items[..k];
        var item := items[k];
        if item.mimeType.None? {
          assert 0 <= k < |items| && items[k].mimeType.None?;
          return Err(MissingMimeType);
        }
        var utf8 := !StartsWith(item.mimeType.value, "image");
        written := written + [Entry(JoinPath("OEBPS", item.destPath), Deflated, item.content, utf8)];
      }
      assert items[..|items|] == items;
      r := Ok(written);
    }

    /** `__write_toc_ncx`: assigns the play orders, then renders toc.ncx against the book
        so numbered. */
    method WriteTocNcx(env: Env) returns (e: Entry)
      requires Valid() && TocValid()
      modifies this`playOrder
      ensures TocValid() && State() == PlayOrdersAssigned(old(State()))
      ensures e == Entry(NcxName, Deflated, Text(env.render(TocNcx, State())), false)
    {
      AssignPlayOrder();
      assert State() == PlayOrdersAssigned(old(State()));
      e := Entry(NcxName, Deflated, Text(env.render(TocNcx, State())), false);
    }

    /** `create_book`: makes the title and table-of-contents pages, then writes the book. */
    method CreateBook(env: Env) returns (r: Result<seq<Entry>>)
      requires Valid() && TocValid()
      modifies this`htmlItems, this`playOrder
      ensures Valid() && TocValid()
      ensures var s := PagesMade(env, old(State()));
              && r == BookArchive(env, s)
              && State() == (if r.Ok? then PlayOrdersAssigned(s) else s)
    {
      MakePages(env);
      ghost var s := State();
      r := WriteBook(env);
      assert s == PagesMade(env, old(State()));
    }

    /** The first half of `create_book`: the title page, then the table-of-contents page. */
    method MakePages(env: Env)
      requires Valid()
      modifies this`htmlItems
      ensures Valid() && State() == PagesMade(env, old(State()))
    {
      if titlePage.Some? {
        MakeTitlePage(env);
      }
      if tocPage.Some? {
        MakeTocPage(env);
      }
    }

    /** The writing half of `create_book`: the mimetype, the items, container.xml,
        content.opf and (after assigning the play orders) toc.ncx, returned as the list of
        entries. */
    method WriteBook(env: Env) returns (r: Result<seq<Entry>>)
      requires Valid() && TocValid()
      modifies this`playOrder
      ensures TocValid()
      ensures r == BookArchive(env, old(State()))
      ensures State() == (if r.Ok? then PlayOrdersAssigned(old(State())) else old(State()))
    {
      ghost var s := State();
      var items := AllItems(imageItems, htmlItems, cssItems);
      var written := WriteItems(items);
      if written.Err? {
        return Err(written.error);
      }
      var container := env.containerXml;
      var opf := env.render(ContentOpf, State());
      var ncx := WriteTocNcx(env);
      r := Ok([Entry(MimetypeName, Stored, Text(EpubMimeType), false)]
              + written.value
              + [Entry(ContainerName, Deflated, Text(container), false),
                 Entry(OpfName, Deflated, Text(opf), false),
                 ncx]);
    }
  }
}
