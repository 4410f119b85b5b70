/** The archive `create_book` writes: the `mimetype` entry, every item under OEBPS/ in id
    order, then META-INF/container.xml, OEBPS/content.opf and OEBPS/toc.ncx. */
module Packaging {
  import opened Outcomes
  import opened Catalog

  datatype Compression = Stored | Deflated

  /** A zip entry. `utf8` marks content that is UTF-8 encoded on the way in. */
  datatype Entry = Entry(name: string, compression: Compression, data: Content, utf8: bool)

  const MimetypeName := "mimetype"
  const EpubMimeType := "application/epub+zip"
  const ContainerName := "META-INF/container.xml"
  const OpfName := "OEBPS/content.opf"
  const NcxName := "OEBPS/toc.ncx"

  /** POSIX `os.path.join(dir, p)`: an absolute p replaces dir; otherwise a `/` goes
      between them unless dir is empty or already ends with one. */
  function JoinPath(dir: string, p: string): (r: string)
    ensures |p| > 0 && p[0] == '/' ==> r == p
    ensures (|p| == 0 || p[0] != '/') && |dir| > 0 && dir[|dir| - 1] != '/' ==> r == dir + "/" + p
  {
    if |p| > 0 && p[0] == '/' then p
    else if dir == "" || dir[|dir| - 1] == '/' then dir + p
    else dir + "/" + p
  }

  /** Under OEBPS distinct dest_paths give distinct entry names. */
  lemma JoinPathInjective(p: string, q: string)
    requires JoinPath("OEBPS", p) == JoinPath("OEBPS", q)
    ensures p == q
  {
    var r := JoinPath("OEBPS", p);
    if (|p| == 0 || p[0] != '/') && (|q| == 0 || q[0] != '/') {
      assert p == r[6..] && q == r[6..];
    }
  }

  /** Whether s starts with t, as Python's `s.startswith(t)`. */
  predicate StartsWith(s: string, t: string) {
    |t| <= |s| && s[..|t|] == t
  }

  /** The entry `__write_items` writes for one item: its content under OEBPS/, UTF-8 encoded
      unless the mime type starts with "image". An item without a mime type makes
      `startswith` fail. */
  function ItemEntry(item: Item): (r: Result<Entry>)
    ensures r.Err? <==> item.mimeType.None?
    ensures r.Err? ==> r.error == MissingMimeType
    ensures r.Ok? ==> (&& r.value.name == JoinPath("OEBPS", item.destPath)
                       && r.value.compression == Deflated && r.value.data == item.content
                       && (r.value.utf8 <==> !StartsWith(item.mimeType.value, "image")))
  {
    match item.mimeType
    case None => Err(MissingMimeType)
    case Some(m) => Ok(Entry(JoinPath("OEBPS", item.destPath), Deflated, item.content, !StartsWith(m, "image")))
  }

  /** The full list of entries, given the items in the order they are written and the three
      rendered documents. */
  function Archive(items: seq<Item>, containerXml: string, opf: string, ncx: string): (r: Result<seq<Entry>>)
    ensures r.Err? <==> exists k :: 0 <= k < |items| && items[k].mimeType.None?
    ensures r.Err? ==> r.error == MissingMimeType
    ensures r.Ok? ==> |r.value| == |items| + 4 && r.value[0] == Entry(MimetypeName, Stored, Text(EpubMimeType), false)
  {
    match ItemEntries(items)
    case Err(e) => Err(e)
    case Ok(written) =>
      Ok([Entry(MimetypeName, Stored, Text(EpubMimeType), false)]
         + written
         + [Entry(ContainerName, Deflated, Text(containerXml), false),
            Entry(OpfName, Deflated, Text(opf), false),
            Entry(NcxName, Deflated, Text(ncx), false)])
  }

  /** The entries for the items, one per item in order; the first item without a mime type
      stops the writing. */
  function ItemEntries(items: seq<Item>): (r: Result<seq<Entry>>)
    ensures r.Err? <==> exists k :: 0 <= k < |items| && items[k].mimeType.None?
    ensures r.Err? ==> r.error == MissingMimeType
    ensures r.Ok? ==> |r.value| == |items| && forall k :: 0 <= k < |items| ==> ItemEntry(items[k]) == Ok(r.value[k])
    decreases |items|
  {
    if items == [] then Ok([])
    else
      var front := items[..|items| - 1];
      assert forall k :: 0 <= k < |front| ==> front[k] == items[k];
      match ItemEntries(front)
      case Err(e) => Err(e)
      case Ok(written) =>
        match ItemEntry(items[|items| - 1])
        case Err(e) => Err(e)
        case Ok(last) => Ok(written + [last])
  }

  /** The layout of a finished archive: `mimetype` first and stored, holding
      "application/epub+zip"; then one deflated entry per item, in order, under OEBPS/;
      then container.xml, content.opf and toc.ncx. Writing fails exactly when some item has
      no mime type. */
  lemma ArchiveLayout(items: seq<Item>, containerXml: string, opf: string, ncx: string)
    ensures var a := Archive(items, containerXml, opf, ncx);
            a.Err? <==> exists k :: 0 <= k < |items| && items[k].mimeType.None?
    ensures var a := Archive(items, containerXml, opf, ncx);
            a.Ok? ==>
              var e, n := a.value, |items|;
              && |e| == n + 4
              && e[0] == Entry(MimetypeName, Stored, Text(EpubMimeType), false)
              && (forall k :: 0 <= k < n ==>
                    e[k + 1].name == JoinPath("OEBPS", items[k].destPath) && e[k + 1].data == items[k].content)
              && e[n + 1].name == ContainerName && e[n + 2].name == OpfName && e[n + 3].name == NcxName
              && e[n + 2].data == Text(opf) && e[n + 3].data == Text(ncx)
              && (forall k :: 1 <= k < |e| ==> e[k].compression == Deflated)
  {
    if ItemEntries(items).Ok? {
      EntriesLayout(items, ItemEntries(items).value, containerXml, opf, ncx);
    }
  }

  lemma EntriesLayout(items: seq<Item>, written: seq<Entry>, containerXml: string, opf: string, ncx: string)
    requires ItemEntries(items) == Ok(written)
    ensures var e, n := Archive(items, containerXml, opf, ncx).value, |items|;
            && |e| == n + 4
            && e[0] == Entry(MimetypeName, Stored, Text(EpubMimeType), false)
            && (forall k :: 0 <= k < n ==>
                  e[k + 1].name == JoinPath("OEBPS", items[k].destPath) && e[k + 1].data == items[k].content)
            && e[n + 1].name == ContainerName && e[n + 2].name == OpfName && e[n + 3].name == NcxName
            && e[n + 2].data == Text(opf) && e[n + 3].data == Text(ncx)
            && (forall k :: 1 <= k < |e| ==> e[k].compression == Deflated)
  {
    var head := [Entry(MimetypeName, Stored, Text(EpubMimeType), false)];
    var tail := [Entry(ContainerName, Deflated, Text(containerXml), false),
                 Entry(OpfName, Deflated, Text(opf), false),
                 Entry(NcxName, Deflated, Text(ncx), false)];
    assert Archive(items, containerXml, opf, ncx).value == head + written + tail;
    ConcatLayout(items, written, head, tail);
  }

  /** The layout of the mimetype entry, the written entries and the three documents laid
      end to end. */
  lemma ConcatLayout(items: seq<Item>, written: seq<Entry>, head: seq<Entry>, tail: seq<Entry>)
    requires |written| == |items| && forall k :: 0 <= k < |items| ==> ItemEntry(items[k]) == Ok(written[k])
    requires |head| == 1 && |tail| == 3 && tail[0].compression == tail[1].compression == tail[2].compression == Deflated
    ensures var e, n := head + written + tail, |items|;
            && |e| == n + 4 && e[0] == head[0]
            && (forall k :: 0 <= k < n ==>
                  e[k + 1].name == JoinPath("OEBPS", items[k].destPath) && e[k + 1].data == items[k].content)
            && e[n + 1] == tail[0] && e[n + 2] == tail[1] && e[n + 3] == tail[2]
            && (forall k :: 1 <= k < |e| ==> e[k].compression == Deflated)
  {
    var e := head + written + tail;
    forall k | 0 <= k < |items|
      ensures e[k + 1] == written[k]
    {
    }
    forall k | 1 <= k < |e|
      ensures e[k].compression == Deflated
    {
      if k <= |written| {
        assert e[k] == written[k - 1] && ItemEntry(items[k - 1]) == Ok(written[k - 1]);
      } else {
        assert e[k] == tail[k - 1 - |written|];
      }
    }
  }

  /** Every item is written, after the mimetype entry, under its dest_path in OEBPS. */
  lemma ArchiveHoldsItem(items: seq<Item>, containerXml: string, opf: string, ncx: string, x: Item)
    requires Archive(items, containerXml, opf, ncx).Ok? && x in items
    ensures var e := Archive(items, containerXml, opf, ncx).value;
            exists k :: 1 <= k < |e| && e[k].name == JoinPath("OEBPS", x.destPath)
  {
    var e := Archive(items, containerXml, opf, ncx).value;
    var written := ItemEntries(items).value;
    var k :| 0 <= k < |items| && items[k] == x;
    assert e[k + 1] == written[k];
  }

  /** The `mimetype` entry is the only one of that name: every other entry name starts with
      "OEBPS", "META-INF" or `/`. */
  lemma MimetypeUnique(items: seq<Item>, containerXml: string, opf: string, ncx: string, k: nat)
    requires Archive(items, containerXml, opf, ncx).Ok?
    requires 1 <= k < |Archive(items, containerXml, opf, ncx).value|
    ensures Archive(items, containerXml, opf, ncx).value[k].name != MimetypeName
  {
    var e := Archive(items, containerXml, opf, ncx).value;
    ArchiveLayout(items, containerXml, opf, ncx);
    if k <= |items| {
      var p := items[k - 1].destPath;
      if |p| > 0 && p[0] == '/' {
        assert e[k].name[0] == '/';
      } else {
        assert e[k].name[0] == 'O';
      }
    } else {
      assert e[k].name[0] in {'M', 'O'};
    }
  }

  /** Items with distinct dest_paths get distinct entry names. */
  lemma ItemNamesDistinct(items: seq<Item>, containerXml: string, opf: string, ncx: string, i: nat, j: nat)
    requires Archive(items, containerXml, opf, ncx).Ok?
    requires i < j < |items| && items[i].destPath != items[j].destPath
    ensures Archive(items, containerXml, opf, ncx).value[i + 1].name != Archive(items, containerXml, opf, ncx).value[j + 1].name
  {
    ArchiveLayout(items, containerXml, opf, ncx);
    if JoinPath("OEBPS", items[i].destPath) == JoinPath("OEBPS", items[j].destPath) {
      JoinPathInjective(items[i].destPath, items[j].destPath);
    }
  }
}
