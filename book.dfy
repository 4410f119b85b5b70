/** EpubBook: the object a caller fills with meta data, items, spine, guide and
    table-of-contents nodes, and then turns into an archive with `create_book`. */
module Book {
  import opened Outcomes
  import opened Catalog
  import opened ReadingOrder
  import opened Guide
  import opened Metadata
  import opened TocTree
  import opened Packaging

  /** Everything an EpubBook holds, as one value. Items are referred to by dest_path: the
      cover by its key among the images, the title and table-of-contents pages by theirs
      among the html items, spine entries by theirs among the html items. */
  datatype BookState = BookState(
    uuid: string, lang: string, title: string,
    creators: seq<(string, string)>, metaInfo: seq<Meta>,
    imageItems: map<string, Item>, htmlItems: map<string, Item>, cssItems: map<string, Item>,
    coverImage: Option<string>, titlePage: Option<string>, tocPage: Option<string>,
    spine: seq<SpineEntry>, guide: map<string, GuideEntry>,
    tocNodes: seq<TocNode>, playOrder: seq<int>, lastNodeAtDepth: map<nat, nat>)

  /** The templates the book renders. */
  datatype Template = ImagePage(item: Item) | TitlePageTemplate | TocPageTemplate | ContentOpf | TocNcx

  /** What the model takes from outside: rendering a template against the book as it is at
      that moment, the rendered container.xml, `mimetypes.guess_type`, the extension
      `os.path.splitext` splits off, and `imghdr.what`. */
  datatype Env = Env(
    render: (Template, BookState) -> string,
    containerXml: string,
    guessType: string -> Option<string>,
    extension: string -> string,
    imageType: seq<byte> -> Option<string>)

  /** An image (or cover) source: a file path with the bytes read from it, or a stream. */
  datatype ImageSource = FromPath(path: string, data: seq<byte>) | FromStream(data: seq<byte>)

  const DefaultLanguage := "en-US"
  const DefaultCreatorRole := "aut"
  const TitlePagePath := "title-page.html"
  const TocPagePath := "toc.html"

  function InitialState(uuid: string): BookState {
    BookState(uuid, DefaultLanguage, "", [], [], map[], map[], map[], None, None, None, [], map[],
              [Root], [0], map[0 := 0])
  }

  /** The catalog: each kind's ids and keys as `add_<kind>` assigns them, and the fixed mime
      types of html and css items. */
  ghost predicate ItemsValid(images: map<string, Item>, htmls: map<string, Item>, csss: map<string, Item>) {
    && CatalogValid(images, htmls, csss)
    && (forall p :: p in htmls ==> htmls[p].mimeType == Some(XhtmlMimeType))
    && (forall p :: p in csss ==> csss[p].mimeType == Some(CssMimeType))
  }

  /** The cover, title page, table-of-contents page and spine entries name items that exist. */
  ghost predicate ReferencesValid(images: map<string, Item>, htmls: map<string, Item>, cover: Option<string>,
                                  titlePage: Option<string>, tocPage: Option<string>, spine: seq<SpineEntry>) {
    && (cover.Some? ==> cover.value in images)
    && (titlePage.Some? ==> titlePage == Some(TitlePagePath) && TitlePagePath in htmls)
    && (tocPage.Some? ==> tocPage == Some(TocPagePath) && TocPagePath in htmls)
    && (forall k :: 0 <= k < |spine| ==> spine[k].item in htmls)
  }

  /** ContentValid, on the parts it constrains: what EpubBook's fields satisfy. */
  ghost predicate PartsValid(images: map<string, Item>, htmls: map<string, Item>, csss: map<string, Item>,
                             guide: map<string, GuideEntry>, cover: Option<string>, titlePage: Option<string>,
                             tocPage: Option<string>, spine: seq<SpineEntry>) {
    && ItemsValid(images, htmls, csss)
    && GuideValid(guide)
    && ReferencesValid(images, htmls, cover, titlePage, tocPage, spine)
  }

  /** Adding an image, an html item or a css item under a fresh dest_path keeps the parts
      valid. */
  lemma ImageAddedValid(images: map<string, Item>, htmls: map<string, Item>, csss: map<string, Item>,
                        guide: map<string, GuideEntry>, cover: Option<string>, titlePage: Option<string>,
                        tocPage: Option<string>, spine: seq<SpineEntry>,
                        destPath: string, mimeType: Option<string>, content: Content)
    requires PartsValid(images, htmls, csss, guide, cover, titlePage, tocPage, spine) && destPath !in images
    ensures PartsValid(Added(images, Image, destPath, mimeType, content), htmls, csss, guide, cover, titlePage, tocPage, spine)
  {
    AddedKeepsKindValid(images, Image, destPath, mimeType, content);
  }

  lemma HtmlAddedValid(images: map<string, Item>, htmls: map<string, Item>, csss: map<string, Item>,
                       guide: map<string, GuideEntry>, cover: Option<string>, titlePage: Option<string>,
                       tocPage: Option<string>, spine: seq<SpineEntry>, destPath: string, content: Content)
    requires PartsValid(images, htmls, csss, guide, cover, titlePage, tocPage, spine) && destPath !in htmls
    ensures PartsValid(images, Added(htmls, Html, destPath, Some(XhtmlMimeType), content), csss, guide, cover, titlePage, tocPage, spine)
  {
    AddedKeepsKindValid(htmls, Html, destPath, Some(XhtmlMimeType), content);
  }

  lemma CssAddedValid(images: map<string, Item>, htmls: map<string, Item>, csss: map<string, Item>,
                      guide: map<string, GuideEntry>, cover: Option<string>, titlePage: Option<string>,
                      tocPage: Option<string>, spine: seq<SpineEntry>, destPath: string, content: Content)
    requires PartsValid(images, htmls, csss, guide, cover, titlePage, tocPage, spine) && destPath !in csss
    ensures PartsValid(images, htmls, Added(csss, Css, destPath, Some(CssMimeType), content), guide, cover, titlePage, tocPage, spine)
  {
    AddedKeepsKindValid(csss, Css, destPath, Some(CssMimeType), content);
  }

  /** The catalog, the guide and the references into the catalog are consistent. */
  ghost predicate ContentValid(s: BookState) {
    PartsValid(s.imageItems, s.htmlItems, s.cssItems, s.guide, s.coverImage, s.titlePage, s.tocPage, s.spine)
  }

  /** What every reachable book satisfies. */
  ghost predicate StateValid(s: BookState) {
    ContentValid(s) && TreeValid(s.tocNodes, s.playOrder, s.lastNodeAtDepth)
  }

  lemma InitialStateValid(uuid: string)
    ensures StateValid(InitialState(uuid))
  {
    RootAloneValid();
  }

  /** The cover's dest_path: the one given, unless it is missing or empty; then "cover" plus
      the source path's extension, or, for a stream, "cover." plus the sniffed image type
      (an unrecognised type makes the concatenation fail). */
  function CoverPath(env: Env, src: ImageSource, destPath: Option<string>): (r: Result<string>)
    ensures destPath.Some? && destPath.value != "" ==> r == Ok(destPath.value)
    ensures r.Err? <==> (destPath.None? || destPath.value == "") && src.FromStream? && env.imageType(src.data).None?
    ensures r.Ok? && (destPath.None? || destPath.value == "") ==> StartsWith(r.value, "cover")
  {
    if destPath.Some? && destPath.value != "" then Ok(destPath.value)
    else match src
      case FromPath(p, _) => Ok("cover" + env.extension(p))
      case FromStream(data) =>
        match env.imageType(data)
        case None => Err(UnknownImageType)
        case Some(t) => Ok("cover." + t)
  }

  // ---------------------------------------------------------------------------------
  // The pages `create_book` renders before writing

  /** `__make_title_page`: a title page added with empty html gets the rendered template; one
      added with html of its own keeps it. */
  function TitlePageMade(env: Env, s: BookState): (r: BookState)
    requires ContentValid(s)
    ensures ContentValid(r) && r == s.(htmlItems := r.htmlItems)
  {
    if s.titlePage.Some? && IsEmpty(s.htmlItems[TitlePagePath].content) then
      ContentReplacedKeepsKindValid(s.htmlItems, Html, TitlePagePath, Text(env.render(TitlePageTemplate, s)));
      s.(htmlItems := s.htmlItems[TitlePagePath := s.htmlItems[TitlePagePath].(content := Text(env.render(TitlePageTemplate, s)))])
    else s
  }

  /** `__make_toc_page`: the table-of-contents page always gets the rendered template. */
  function TocPageMade(env: Env, s: BookState): (r: BookState)
    requires ContentValid(s)
    ensures ContentValid(r) && r == s.(htmlItems := r.htmlItems)
  {
    if s.tocPage.Some? then
      ContentReplacedKeepsKindValid(s.htmlItems, Html, TocPagePath, Text(env.render(TocPageTemplate, s)));
      s.(htmlItems := s.htmlItems[TocPagePath := s.htmlItems[TocPagePath].(content := Text(env.render(TocPageTemplate, s)))])
    else s
  }

  /** The pages `create_book` makes before writing: the title page, then the
      table-of-contents page. */
  function PagesMade(env: Env, s: BookState): (r: BookState)
    requires ContentValid(s)
    ensures ContentValid(r) && r == s.(htmlItems := r.htmlItems)
  {
    TocPageMade(env, TitlePageMade(env, s))
  }

  /** Making the title page changes nothing but that page's content, and only when it was
      empty; once it holds a non-empty rendering, making it again changes nothing. */
  lemma TitlePageMadeOnce(env: Env, s: BookState)
    requires ContentValid(s)
    ensures var r := TitlePageMade(env, s);
            && r.htmlItems.Keys == s.htmlItems.Keys
            && (forall p :: p in s.htmlItems && p != TitlePagePath ==> r.htmlItems[p] == s.htmlItems[p])
            && r == s.(htmlItems := r.htmlItems)
            && (s.titlePage.Some? && !IsEmpty(s.htmlItems[TitlePagePath].content) ==> r == s)
            && (env.render(TitlePageTemplate, s) != "" ==> TitlePageMade(env, r) == r)
  {
  }

  /** The entries `create_book` writes, given the book after its pages are made. The
      table-of-contents page and content.opf are rendered before the play orders are
      assigned; toc.ncx after. */
  function BookArchive(env: Env, s: BookState): (r: Result<seq<Entry>>)
    requires StateValid(s)
    ensures r.Err? <==> exists q :: q in s.imageItems && s.imageItems[q].mimeType.None?
    ensures r.Ok? ==> |r.value| >= 4 && r.value[0] == Entry(MimetypeName, Stored, Text(EpubMimeType), false)
  {
    CatalogArchiveFails(s.imageItems, s.htmlItems, s.cssItems, env.containerXml,
                        env.render(ContentOpf, s), env.render(TocNcx, PlayOrdersAssigned(s)));
    Archive(AllItems(s.imageItems, s.htmlItems, s.cssItems), env.containerXml,
            env.render(ContentOpf, s), env.render(TocNcx, PlayOrdersAssigned(s)))
  }

  /** The book after `assign_play_order`: every node's play order is its position in the
      pre-order of the tree, and nothing else changes. */
  function PlayOrdersAssigned(s: BookState): (r: BookState)
    requires StateValid(s)
    ensures StateValid(r) && r == s.(playOrder := r.playOrder)
    ensures r.playOrder == PlayOrders(s.tocNodes)
  {
    s.(playOrder := PlayOrders(s.tocNodes))
  }

  /** Only images can lack a mime type. */
  lemma NoMimeIsImage(images: map<string, Item>, htmls: map<string, Item>, csss: map<string, Item>, x: Item)
    requires ItemsValid(images, htmls, csss)
    requires x in images.Values || x in htmls.Values || x in csss.Values
    requires x.mimeType.None?
    ensures exists q :: q in images && images[q] == x
  {
  }

  /** Writing the catalog fails exactly when an image's mime type could not be guessed. */
  lemma CatalogArchiveFails(images: map<string, Item>, htmls: map<string, Item>, csss: map<string, Item>,
                            containerXml: string, opf: string, ncx: string)
    requires ItemsValid(images, htmls, csss)
    ensures Archive(AllItems(images, htmls, csss), containerXml, opf, ncx).Err? <==>
              exists q :: q in images && images[q].mimeType.None?
  {
    var items := AllItems(images, htmls, csss);
    if exists q :: q in images && images[q].mimeType.None? {
      var q :| q in images && images[q].mimeType.None?;
      UnguessedImageListed(images, htmls, csss, q);
    }
    if exists k :: 0 <= k < |items| && items[k].mimeType.None? {
      var k :| 0 <= k < |items| && items[k].mimeType.None?;
      NoMimeIsImage(images, htmls, csss, items[k]);
    }
  }

  /** An image without a mime type is among the items written. */
  lemma UnguessedImageListed(images: map<string, Item>, htmls: map<string, Item>, csss: map<string, Item>, q: string)
    requires CatalogValid(images, htmls, csss) && q in images && images[q].mimeType.None?
    ensures exists k :: 0 <= k < |AllItems(images, htmls, csss)| && AllItems(images, htmls, csss)[k].mimeType.None?
  {
    var items := AllItems(images, htmls, csss);
    assert images[q] in images.Values;
    assert images[q] in items;
    var k :| 0 <= k < |items| && items[k] == images[q];
  }

  /** Every item of the catalog is written under OEBPS/, after the mimetype entry. */
  lemma CatalogArchiveHolds(images: map<string, Item>, htmls: map<string, Item>, csss: map<string, Item>,
                            containerXml: string, opf: string, ncx: string, p: string)
    requires CatalogValid(images, htmls, csss)
    requires Archive(AllItems(images, htmls, csss), containerXml, opf, ncx).Ok?
    requires p in htmls || p in csss || p in images
    ensures var e := Archive(AllItems(images, htmls, csss), containerXml, opf, ncx).value;
            exists k :: 1 <= k < |e| && e[k].name == JoinPath("OEBPS", p)
  {
    var x := if p in htmls then htmls[p] else if p in csss then csss[p] else images[p];
    assert x.destPath == p;
    ArchiveHoldsItem(AllItems(images, htmls, csss), containerXml, opf, ncx, x);
  }

  /** A book's archive fails exactly when an image's mime type could not be guessed; the
      title and table-of-contents pages, like every html and css item, are written under
      OEBPS/, the cover image too. */
  lemma BookArchiveHoldsItems(env: Env, s: BookState, p: string)
    requires StateValid(s)
    ensures BookArchive(env, s).Err? <==> exists q :: q in s.imageItems && s.imageItems[q].mimeType.None?
    ensures BookArchive(env, s).Ok? && (p in s.htmlItems || p in s.cssItems || p in s.imageItems) ==>
              exists k :: 1 <= k < |BookArchive(env, s).value| && BookArchive(env, s).value[k].name == JoinPath("OEBPS", p)
  {
    var opf, ncx := env.render(ContentOpf, s), env.render(TocNcx, PlayOrdersAssigned(s));
    CatalogArchiveFails(s.imageItems, s.htmlItems, s.cssItems, env.containerXml, opf, ncx);
    if BookArchive(env, s).Ok? && (p in s.htmlItems || p in s.cssItems || p in s.imageItems) {
      CatalogArchiveHolds(s.imageItems, s.htmlItems, s.cssItems, env.containerXml, opf, ncx, p);
    }
  }
}
