/** The spine: the reading order of the book's html items. Each entry is
    (order, item, linear), and `get_spine` lists the entries sorted by order. The cover,
    title and table-of-contents pages go in with fixed orders below every default order. */
module ReadingOrder {
  import opened Outcomes

  /** A spine entry; the item is named by its dest_path, its key in the html catalog. */
  datatype SpineEntry = SpineEntry(order: int, item: string, linear: bool)

  const CoverOrder: int := -300
  const TitlePageOrder: int := -200
  const TocPageOrder: int := -100

  /** Python's `max(order for order, _, _ in spine)` on a non-empty spine. */
  function MaxOrder(spine: seq<SpineEntry>): (m: int)
    requires |spine| > 0
    ensures forall k :: 0 <= k < |spine| ==> spine[k].order <= m
    ensures exists k :: 0 <= k < |spine| && spine[k].order == m
  {
    if |spine| == 1 then spine[0].order
    else
      var front := MaxOrder(spine[..|spine| - 1]);
      var last := spine[|spine| - 1].order;
      assert forall k :: 0 <= k < |spine| - 1 ==> spine[k] == spine[..|spine| - 1][k];
      if front < last then last else front
  }

  /** The default order of `add_spine_item` exactly as written: the maximum is taken before
      the emptiness test, so on an empty spine `max` raises and the default "0 + 1" is never
      reached. */
  function DefaultOrderAsWritten(spine: seq<SpineEntry>): (r: Result<int>)
    ensures r.Err? <==> spine == []
    ensures r.Ok? ==> forall k :: 0 <= k < |spine| ==> spine[k].order < r.value
  {
    if spine == [] then Err(EmptySpine)
    else Ok(MaxOrder(spine) + 1)
  }

  /** The default order the code evidently intends: one more than the largest order so far,
      or 1 on an empty spine. */
  function DefaultOrder(spine: seq<SpineEntry>): (r: int)
    ensures forall k :: 0 <= k < |spine| ==> spine[k].order < r
    ensures spine == [] ==> r == 1
    ensures spine != [] ==> exists k :: 0 <= k < |spine| && spine[k].order == r - 1
  {
    if spine == [] then 1 else MaxOrder(spine) + 1
  }

  /** On the empty spine the code as written fails where the intended default is 1. */
  lemma DefaultOrderAsWrittenFailsOnEmpty()
    ensures DefaultOrderAsWritten([]) == Err(EmptySpine)
    ensures DefaultOrder([]) == 1
  {
  }

  /** Elsewhere the two agree. */
  lemma DefaultOrderAgrees(spine: seq<SpineEntry>)
    requires spine != []
    ensures DefaultOrderAsWritten(spine) == Ok(DefaultOrder(spine))
  {
  }

  // ---------------------------------------------------------------------------------
  // get_spine

  predicate SortedByOrder(r: seq<SpineEntry>) {
    forall a, b :: 0 <= a < b < |r| ==> r[a].order <= r[b].order
  }

  /** Every order strictly above the one before it: no two entries tie, so the source's
      tie-break on the item objects never comes into play. */
  predicate StrictlyByOrder(r: seq<SpineEntry>) {
    forall a, b :: 0 <= a < b < |r| ==> r[a].order < r[b].order
  }

  /** Puts e into the sorted r after every entry whose order is at most e's. */
  function Insert(e: SpineEntry, r: seq<SpineEntry>): (s: seq<SpineEntry>)
    requires SortedByOrder(r)
    ensures SortedByOrder(s)
    ensures multiset(s) == multiset(r) + multiset{e}
    ensures |s| == |r| + 1
    decreases |r|
  {
    if r == [] || r[|r| - 1].order <= e.order then r + [e]
    else
      var front := r[..|r| - 1];
      assert r == front + [r[|r| - 1]];
      var s := Insert(e, front);
      BoundedByLast(r, e, s);
      s + [r[|r| - 1]]
  }

  /** Every entry of s, a rearrangement of the sorted r without its last entry plus an e
      that orders before that last entry, orders no later than it. */
  lemma BoundedByLast(r: seq<SpineEntry>, e: SpineEntry, s: seq<SpineEntry>)
    requires SortedByOrder(r) && r != [] && e.order < r[|r| - 1].order
    requires multiset(s) == multiset(r[..|r| - 1]) + multiset{e}
    ensures forall k :: 0 <= k < |s| ==> s[k].order <= r[|r| - 1].order
  {
    var front := r[..|r| - 1];
    forall k | 0 <= k < |s| ensures s[k].order <= r[|r| - 1].order {
      assert s[k] in multiset(s);
      if s[k] != e {
        assert s[k] in multiset(front);
        var j :| 0 <= j < |front| && front[j] == s[k];
        assert r[j] == s[k];
      }
    }
  }

  /** `get_spine`: the entries ordered by their order. Python compares whole entries, so
      entries of equal order would next be told apart by their item objects; here they keep
      the order in which they were added. */
  function SortSpine(spine: seq<SpineEntry>): (r: seq<SpineEntry>)
    ensures SortedByOrder(r)
    ensures multiset(r) == multiset(spine)
    ensures |r| == |spine|
    decreases |spine|
  {
    if spine == [] then []
    else
      var front := spine[..|spine| - 1];
      assert spine == front + [spine[|spine| - 1]];
      Insert(spine[|spine| - 1], SortSpine(front))
  }

  /** In the sorted spine an entry of smaller order comes first; with the corrected default
      the entries the code numbers itself therefore keep the order in which they were added,
      after all that was there before. */
  lemma SortedPlacesSmallerFirst(spine: seq<SpineEntry>, i: int, j: int)
    requires 0 <= i < |SortSpine(spine)| && 0 <= j < |SortSpine(spine)|
    requires SortSpine(spine)[i].order < SortSpine(spine)[j].order
    ensures i < j
  {
  }

  /** Every entry of the sorted spine comes from the spine, and every entry of the spine is
      in the sorted one. */
  lemma SortSpineSameEntries(spine: seq<SpineEntry>, e: SpineEntry)
    ensures e in SortSpine(spine) <==> e in spine
  {
    assert e in SortSpine(spine) <==> e in multiset(SortSpine(spine));
    assert e in spine <==> e in multiset(spine);
  }

  /** The cover, title and table-of-contents pages come before every entry whose order is
      positive, such as the intended `DefaultOrder` of an empty spine. */
  lemma FixedPagesFirst(spine: seq<SpineEntry>, i: int, j: int)
    requires 0 <= i < |SortSpine(spine)| && 0 <= j < |SortSpine(spine)|
    requires SortSpine(spine)[i].order in {CoverOrder, TitlePageOrder, TocPageOrder}
    requires SortSpine(spine)[j].order > 0
    ensures i < j
  {
    SortedPlacesSmallerFirst(spine, i, j);
  }

  /** An item added with the default order right after the cover (and before the title page)
      is numbered -299 and so is read before the title page. */
  lemma DefaultAfterCoverPrecedesTitlePage(cover: string, chapter: string, title: string)
    ensures var cv := SpineEntry(CoverOrder, cover, false);
            var c := SpineEntry(DefaultOrder([cv]), chapter, true);
            var t := SpineEntry(TitlePageOrder, title, true);
            && c.order == -299
            && SortSpine([cv, c, t]) == [cv, c, t]
  {
    var cv := SpineEntry(CoverOrder, cover, false);
    assert MaxOrder([cv]) == CoverOrder;
    var c := SpineEntry(DefaultOrder([cv]), chapter, true);
    var t := SpineEntry(TitlePageOrder, title, true);
    SortSortedSpine([cv, c, t]);
  }

  /** An entry ordered no earlier than the last goes at the end. */
  lemma InsertAfterLast(e: SpineEntry, r: seq<SpineEntry>)
    requires SortedByOrder(r) && r != [] && r[|r| - 1].order <= e.order
    ensures Insert(e, r) == r + [e]
  {
  }

  /** `sorted` leaves a spine whose orders strictly increase as it is. */
  lemma {:induction false} SortSortedSpine(spine: seq<SpineEntry>)
    requires StrictlyByOrder(spine)
    ensures SortSpine(spine) == spine
    decreases |spine|
  {
    if spine != [] {
      var front, e := spine[..|spine| - 1], spine[|spine| - 1];
      assert spine == front + [e];
      StrictFront(spine);
      SortSortedSpine(front);
      if front != [] {
        LastBelow(spine);
        InsertAfterLast(e, front);
      }
    }
  }

  /** The last two entries are in order. */
  lemma LastBelow(spine: seq<SpineEntry>)
    requires StrictlyByOrder(spine) && |spine| >= 2
    ensures spine[..|spine| - 1][|spine| - 2].order <= spine[|spine| - 1].order
  {
  }

  /** Dropping the last entry keeps the orders strictly increasing. */
  lemma StrictFront(spine: seq<SpineEntry>)
    requires StrictlyByOrder(spine) && spine != []
    ensures StrictlyByOrder(spine[..|spine| - 1]) && SortedByOrder(spine[..|spine| - 1])
  {
    var front := spine[..|spine| - 1];
    assert forall k :: 0 <= k < |front| ==> front[k] == spine[k];
  }

  /** A cover, a title page and a table-of-contents page, then two pages added with the
      default order: the default orders are -99 and -98, and the spine sorts as it was
      built. */
  lemma FixedPagesThenTwoDefaults(cover: string, title: string, toc: string, p1: string, p2: string)
    ensures var fixed := [SpineEntry(CoverOrder, cover, false), SpineEntry(TitlePageOrder, title, true),
                          SpineEntry(TocPageOrder, toc, false)];
            var e1 := SpineEntry(DefaultOrder(fixed), p1, true);
            var e2 := SpineEntry(DefaultOrder(fixed + [e1]), p2, true);
            && e1.order == -99 && e2.order == -98
            && SortSpine(fixed + [e1, e2]) == fixed + [e1, e2]
  {
    var fixed := [SpineEntry(CoverOrder, cover, false), SpineEntry(TitlePageOrder, title, true),
                  SpineEntry(TocPageOrder, toc, false)];
    assert MaxOrder(fixed) == TocPageOrder;
    var e1 := SpineEntry(DefaultOrder(fixed), p1, true);
    assert MaxOrder(fixed + [e1]) == -99;
    var e2 := SpineEntry(DefaultOrder(fixed + [e1]), p2, true);
    SortSortedSpine(fixed + [e1, e2]);
  }
}
