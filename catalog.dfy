/** The content catalog: image, html and css items, one map per kind keyed by dest_path,
    with ids `<kind>_<ordinal>` and getters that sort by the id string. */
module Catalog {
  import opened Outcomes
  import opened Strings
  import opened Sorting

  newtype byte = x: int | 0 <= x < 256

  /** An item's content: text for html and css, raw bytes for images. */
  datatype Content = Text(text: string) | Binary(bytes: seq<byte>)

  /** Python truthiness of the content: an empty string or byte string is false. */
  predicate IsEmpty(c: Content) {
    match c
    case Text(t) => t == ""
    case Binary(b) => b == []
  }

  /** An EpubItem. The mime type of an image is whatever `mimetypes.guess_type` makes of its
      dest_path, which is None for an unknown extension. */
  datatype Item = Item(id: string, destPath: string, mimeType: Option<string>, content: Content)

  datatype Kind = Image | Html | Css

  function Prefix(k: Kind): string {
    match k
    case Image => "image"
    case Html => "html"
    case Css => "css"
  }

  /** The id given to the n-th item of kind k. */
  function ItemId(k: Kind, n: nat): string {
    Prefix(k) + "_" + NatToString(n)
  }

  const XhtmlMimeType := "application/xhtml+xml"
  const CssMimeType := "text/css"

  function IdKey(x: Item): string { x.id }

  /** The ids used in a map. */
  function IdSet(m: map<string, Item>): set<string> {
    set p | p in m :: m[p].id
  }

  /** `<kind>_1` .. `<kind>_<n>`. */
  function IdRange(k: Kind, n: nat): set<string> {
    set j | 1 <= j <= n :: ItemId(k, j)
  }

  /** The invariant of one kind's map after any sequence of additions: every item is stored
      under its own dest_path, and the ids are exactly `<kind>_1` .. `<kind>_<count>`,
      each used once. */
  ghost predicate KindValid(m: map<string, Item>, k: Kind) {
    && (forall p :: p in m ==> m[p].destPath == p)
    && IdSet(m) == IdRange(k, |m|)
    && (forall p, q :: p in m && q in m && m[p].id == m[q].id ==> p == q)
  }

  lemma {:induction false} ItemIdInjective(k: Kind, a: nat, b: nat)
    requires ItemId(k, a) == ItemId(k, b)
    ensures a == b
  {
    var p := Prefix(k) + "_";
    assert ItemId(k, a)[|p|..] == NatToString(a);
    assert ItemId(k, b)[|p|..] == NatToString(b);
    NatToStringInjective(a, b);
  }

  /** The map after `add_<kind>` stored `item` under `destPath` (the duplicate case fails
      before the map is touched). */
  function Added(m: map<string, Item>, k: Kind, destPath: string, mimeType: Option<string>, content: Content): (r: map<string, Item>)
    requires destPath !in m
    ensures |r| == |m| + 1
  {
    m[destPath := Item(ItemId(k, |m| + 1), destPath, mimeType, content)]
  }

  /** Adding an item with a fresh dest_path keeps the kind's invariant: the new id
      `<kind>_<count+1>` is used by no earlier item. */
  lemma AddedKeepsKindValid(m: map<string, Item>, k: Kind, destPath: string, mimeType: Option<string>, content: Content)
    requires KindValid(m, k) && destPath !in m
    ensures KindValid(Added(m, k, destPath, mimeType, content), k)
  {
    var r := Added(m, k, destPath, mimeType, content);
    IdSetAdded(m, destPath, r[destPath]);
    IdRangeStep(k, |m|);
    NewIdUnused(m, k);
    assert forall p :: p in m ==> m[p].id in IdSet(m);
    forall p, q | p in r && q in r && r[p].id == r[q].id
      ensures p == q
    {
      if p != destPath && q != destPath {
        assert m[p].id == m[q].id;
      }
    }
  }

  lemma IdSetAdded(m: map<string, Item>, destPath: string, x: Item)
    requires destPath !in m
    ensures IdSet(m[destPath := x]) == IdSet(m) + {x.id}
  {
    var r := m[destPath := x];
    forall id | id in IdSet(r) ensures id in IdSet(m) + {x.id} {
      var p :| p in r && r[p].id == id;
      if p != destPath {
        assert m[p].id == id;
      }
    }
    forall id | id in IdSet(m) + {x.id} ensures id in IdSet(r) {
      if id != x.id {
        var p :| p in m && m[p].id == id;
        assert r[p].id == id;
      } else {
        assert r[destPath].id == id;
      }
    }
  }

  lemma IdRangeStep(k: Kind, n: nat)
    ensures IdRange(k, n + 1) == IdRange(k, n) + {ItemId(k, n + 1)}
  {
    forall j | 1 <= j <= n + 1 ensures ItemId(k, j) in IdRange(k, n) + {ItemId(k, n + 1)} {
      if j <= n {
        assert ItemId(k, j) in IdRange(k, n);
      }
    }
  }

  lemma NewIdUnused(m: map<string, Item>, k: Kind)
    requires KindValid(m, k)
    ensures ItemId(k, |m| + 1) !in IdSet(m)
  {
    if ItemId(k, |m| + 1) in IdRange(k, |m|) {
      var j :| 1 <= j <= |m| && ItemId(k, j) == ItemId(k, |m| + 1);
      ItemIdInjective(k, j, |m| + 1);
    }
  }

  /** Replacing an item's content (as rendering the title or table-of-contents page does)
      keeps the kind's invariant: ids and dest_paths stay as they were. */
  lemma ContentReplacedKeepsKindValid(m: map<string, Item>, k: Kind, p: string, c: Content)
    requires KindValid(m, k) && p in m
    ensures KindValid(m[p := m[p].(content := c)], k)
  {
    var r := m[p := m[p].(content := c)];
    assert r.Keys == m.Keys;
    SameIdsKeepKindValid(m, r, k);
  }

  /** A map with the same keys, ids and dest_paths as a valid one is valid. */
  lemma SameIdsKeepKindValid(m: map<string, Item>, r: map<string, Item>, k: Kind)
    requires KindValid(m, k) && r.Keys == m.Keys
    requires forall q :: q in m ==> r[q].id == m[q].id && r[q].destPath == m[q].destPath
    ensures KindValid(r, k)
  {
    assert |r| == |r.Keys| == |m.Keys| == |m|;
    assert IdSet(r) == IdSet(m) by {
      forall id | id in IdSet(r) ensures id in IdSet(m) {
        var q :| q in r && r[q].id == id;
        assert m[q].id == id;
      }
      forall id | id in IdSet(m) ensures id in IdSet(r) {
        var q :| q in m && m[q].id == id;
        assert r[q].id == id;
      }
    }
  }

  function DestPathKey(x: Item): string { x.destPath }

  lemma KindIdsInjective(m: map<string, Item>, k: Kind)
    requires KindValid(m, k)
    ensures KeyInjective(m.Values, IdKey)
  {
    forall x, y | x in m.Values && y in m.Values && IdKey(x) == IdKey(y)
      ensures x == y
    {
      var p :| p in m && m[p] == x;
      var q :| q in m && m[q] == y;
    }
  }

  /** `get_image_items` / `get_html_items` / `get_css_items`: the kind's items sorted by id. */
  function ItemsOfKind(m: map<string, Item>, k: Kind): (r: seq<Item>)
    requires KindValid(m, k)
    ensures StrictlySorted(r, IdKey)
    ensures |r| == |m|
    ensures forall x :: x in r <==> x in m.Values
    ensures forall p :: p in m ==> m[p] in r
  {
    KindIdsInjective(m, k);
    ValuesCount(m, DestPathKey);
    SortedByKey(m.Values, IdKey)
  }

  /** An id's kind is told apart by its first character. */
  lemma IdKindDistinct(k1: Kind, a: nat, k2: Kind, b: nat)
    requires k1 != k2
    ensures ItemId(k1, a) != ItemId(k2, b)
  {
    assert ItemId(k1, a)[0] == Prefix(k1)[0];
    assert ItemId(k2, b)[0] == Prefix(k2)[0];
  }

  lemma IdOfValue(m: map<string, Item>, k: Kind, x: Item) returns (n: nat)
    requires KindValid(m, k) && x in m.Values
    ensures 1 <= n <= |m| && x.id == ItemId(k, n)
  {
    var p :| p in m && m[p] == x;
    assert x.id in IdSet(m);
    n :| 1 <= n <= |m| && ItemId(k, n) == x.id;
  }

  ghost predicate CatalogValid(images: map<string, Item>, htmls: map<string, Item>, csss: map<string, Item>) {
    KindValid(images, Image) && KindValid(htmls, Html) && KindValid(csss, Css)
  }

  lemma AllIdsInjective(images: map<string, Item>, htmls: map<string, Item>, csss: map<string, Item>)
    requires CatalogValid(images, htmls, csss)
    ensures KeyInjective(images.Values + htmls.Values + csss.Values, IdKey)
  {
    KindIdsInjective(images, Image);
    KindIdsInjective(htmls, Html);
    KindIdsInjective(csss, Css);
    forall x, y | x in images.Values + htmls.Values + csss.Values && y in images.Values + htmls.Values + csss.Values && IdKey(x) == IdKey(y)
      ensures x == y
    {
      var kx, nx := KindAndOrdinal(images, htmls, csss, x);
      var ky, ny := KindAndOrdinal(images, htmls, csss, y);
      if kx != ky {
        IdKindDistinct(kx, nx, ky, ny);
      }
    }
  }

  lemma KindAndOrdinal(images: map<string, Item>, htmls: map<string, Item>, csss: map<string, Item>, x: Item) returns (k: Kind, n: nat)
    requires CatalogValid(images, htmls, csss)
    requires x in images.Values + htmls.Values + csss.Values
    ensures x.id == ItemId(k, n)
    ensures k == Image ==> x in images.Values
    ensures k == Html ==> x in htmls.Values
    ensures k == Css ==> x in csss.Values
  {
    if x in images.Values {
      k := Image;
      n := IdOfValue(images, k, x);
    } else if x in htmls.Values {
      k := Html;
      n := IdOfValue(htmls, k, x);
    } else {
      k := Css;
      n := IdOfValue(csss, k, x);
    }
  }

  /** `get_all_items`: the items of all three kinds sorted together by id. */
  function AllItems(images: map<string, Item>, htmls: map<string, Item>, csss: map<string, Item>): (r: seq<Item>)
    requires CatalogValid(images, htmls, csss)
    ensures StrictlySorted(r, IdKey)
    ensures forall x :: x in r <==> x in images.Values || x in htmls.Values || x in csss.Values
  {
    AllIdsInjective(images, htmls, csss);
    SortedByKey(images.Values + htmls.Values + csss.Values, IdKey)
  }

  /** The id order is the string order, not the numeric one: `<kind>_10` sorts before
      `<kind>_2`. */
  lemma TenBeforeTwo(k: Kind)
    ensures Less(ItemId(k, 10), ItemId(k, 2))
  {
    var p := Prefix(k) + "_";
    assert NatToString(10) == "10";
    assert NatToString(2) == "2";
    assert Less("10", "2");
    LessAfterPrefix(p, "10", "2");
  }

  /** Each of `<kind>_1` .. `<kind>_<count>` is the id of some item. */
  lemma IdPresent(m: map<string, Item>, k: Kind, n: nat) returns (p: string)
    requires KindValid(m, k) && 1 <= n <= |m|
    ensures p in m && m[p].id == ItemId(k, n)
  {
    assert ItemId(k, n) in IdRange(k, |m|);
    p :| p in m && m[p].id == ItemId(k, n);
  }

  /** With ten or more items of a kind, the getter lists `<kind>_10` ahead of `<kind>_2`. */
  lemma {:induction false} GetterPutsTenBeforeTwo(m: map<string, Item>, k: Kind)
    requires KindValid(m, k) && |m| >= 10
    ensures exists i, j :: 0 <= i < j < |ItemsOfKind(m, k)|
                        && ItemsOfKind(m, k)[i].id == ItemId(k, 10)
                        && ItemsOfKind(m, k)[j].id == ItemId(k, 2)
  {
    var r := ItemsOfKind(m, k);
    var p10 := IdPresent(m, k, 10);
    var p2 := IdPresent(m, k, 2);
    assert m[p10] in r && m[p2] in r;
    var i :| 0 <= i < |r| && r[i] == m[p10];
    var j :| 0 <= j < |r| && r[j] == m[p2];
    TenBeforeTwo(k);
    SortedPositions(r, IdKey, i, j);
  }

  /** Across kinds, `get_all_items` lists every css item first, then every html item, then
      every image item ("css_" < "html_" < "image_"). */
  lemma {:induction false} AllItemsGroupedByKind(images: map<string, Item>, htmls: map<string, Item>, csss: map<string, Item>, i: int, j: int)
    requires CatalogValid(images, htmls, csss)
    requires 0 <= i < |AllItems(images, htmls, csss)| && 0 <= j < |AllItems(images, htmls, csss)|
    requires var r := AllItems(images, htmls, csss);
             (r[i] in csss.Values && r[j] in htmls.Values) || (r[i] in htmls.Values && r[j] in images.Values)
    ensures i < j
  {
    var r := AllItems(images, htmls, csss);
    if r[i] in csss.Values && r[j] in htmls.Values {
      var a := IdOfValue(csss, Css, r[i]);
      var b := IdOfValue(htmls, Html, r[j]);
      assert Less(r[i].id, r[j].id) by {
        assert r[i].id[0] == 'c' && r[j].id[0] == 'h';
      }
      SortedPositions(r, IdKey, i, j);
    } else {
      var a := IdOfValue(htmls, Html, r[i]);
      var b := IdOfValue(images, Image, r[j]);
      assert Less(r[i].id, r[j].id) by {
        assert r[i].id[0] == 'h' && r[j].id[0] == 'i';
      }
      SortedPositions(r, IdKey, i, j);
    }
  }
}
