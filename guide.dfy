/** The guide: at most one (href, title, type) reference per guide type, listed by type. */
module Guide {
  import opened Strings
  import opened Sorting

  datatype GuideEntry = GuideEntry(href: string, title: string, guideType: string)

  function TypeKey(e: GuideEntry): string { e.guideType }

  /** The guide dictionary maps each type to the entry of that type. */
  ghost predicate GuideValid(guide: map<string, GuideEntry>) {
    forall t :: t in guide ==> guide[t].guideType == t
  }

  /** Storing an entry under its own type keeps the guide valid. */
  lemma StoreKeepsValid(guide: map<string, GuideEntry>, e: GuideEntry)
    requires GuideValid(guide)
    ensures GuideValid(guide[e.guideType := e])
  {
  }

  lemma TypesInjective(guide: map<string, GuideEntry>)
    requires GuideValid(guide)
    ensures KeyInjective(guide.Values, TypeKey)
  {
    forall x, y | x in guide.Values && y in guide.Values && TypeKey(x) == TypeKey(y)
      ensures x == y
    {
      var p :| p in guide && guide[p] == x;
      var q :| q in guide && guide[q] == y;
    }
  }

  /** `get_guide`: every entry of the guide once, sorted by guide type. */
  function GetGuide(guide: map<string, GuideEntry>): (r: seq<GuideEntry>)
    requires GuideValid(guide)
    ensures StrictlySorted(r, TypeKey)
    ensures |r| == |guide|
    ensures forall e :: e in r <==> e in guide.Values
    ensures forall t :: t in guide ==> guide[t] in r
  {
    TypesInjective(guide);
    ValuesCount(guide, TypeKey);
    SortedByKey(guide.Values, TypeKey)
  }

  /** The three reference types the book itself adds, in the order `get_guide` lists them. */
  lemma FixedTypesOrder()
    ensures Less("cover", "title-page") && Less("title-page", "toc")
  {
    assert "title-page"[1..] == "itle-page" && "toc"[1..] == "oc";
  }
}
