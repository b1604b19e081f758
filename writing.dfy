/**
 * The writing listing's filter: a free-text query answered by a full-text
 * index, an AND filter over keyword tags and a choice between newest-first
 * and relevance order, resolved to the ids of the cards to show, in order,
 * and then applied to the page.
 *
 * The full-text index is a parameter: `search(q)` is the list of ids the
 * index ranks for the query `q`, best first.
 */
module Writing {
  import opened Wrappers
  import opened Seqs
  import opened Items
  import Dom

  // ---------------------------------------------------------------------
  // String.prototype.trim

  /** The characters `trim` removes: white space and line terminators. */
  predicate IsSpace(c: char) {
    || c == '\t' || c == '\n' || c == '\U{000B}' || c == '\U{000C}' || c == '\r'
    || c == ' ' || c == '\U{00A0}' || c == '\U{1680}'
    || ('\U{2000}' <= c <= '\U{200A}')
    || c == '\U{2028}' || c == '\U{2029}' || c == '\U{202F}' || c == '\U{205F}'
    || c == '\U{3000}' || c == '\U{FEFF}'
  }

  /** Drops the white space in front. */
  function TrimStart(s: string): (r: string)
    ensures |r| <= |s| && r == s[|s| - |r|..]
    ensures r == [] || !IsSpace(r[0])
    ensures forall i | 0 <= i < |s| - |r| :: IsSpace(s[i])
  {
    if s != [] && IsSpace(s[0]) then TrimStart(s[1..]) else s
  }

  /** Drops the white space at the end. */
  function TrimEnd(s: string): (r: string)
    ensures |r| <= |s| && r == s[..|r|]
    ensures r == [] || !IsSpace(r[|r| - 1])
    ensures forall i | |r| <= i < |s| :: IsSpace(s[i])
  {
    if s != [] && IsSpace(s[|s| - 1]) then TrimEnd(s[..|s| - 1]) else s
  }

  /** `s.trim()` */
  function Trim(s: string): string {
    TrimEnd(TrimStart(s))
  }

  /**
   * `trim` cuts a run of white space off each end and nothing else: the
   * result is a slice of the input that neither begins nor ends with white
   * space, and it is empty exactly when the input is all white space.
   */
  lemma TrimSpec(s: string)
    ensures exists i, j | 0 <= i <= j <= |s| :: Trim(s) == s[i..j]
    ensures Trim(s) == [] || (!IsSpace(Trim(s)[0]) && !IsSpace(Trim(s)[|Trim(s)| - 1]))
    ensures Trim(s) == [] <==> forall i | 0 <= i < |s| :: IsSpace(s[i])
  {
    var a := TrimStart(s);
    var r := TrimEnd(a);
    var i := |s| - |a|;
    assert r == s[i..i + |r|];
    if r != [] {
      assert r[0] == a[0];
    } else {
      // nothing of `s` survives `trimStart`: were `a` not empty, its first
      // character would both be white space and not be
      assert a == [];
    }
  }

  /** Trimming twice is trimming once. */
  lemma TrimIdempotent(s: string)
    ensures Trim(Trim(s)) == Trim(s)
  {
    var r := Trim(s);
    TrimSpec(s);
    if r != [] {
      assert TrimStart(r) == r;
    }
  }

  // ---------------------------------------------------------------------
  // The resolver

  /**
   * The ids to show, in order. With a query that is not blank: the index's
   * ranking for the trimmed query, cut down to ids with every selected tag,
   * then put newest first unless the order is "relevance". With a blank
   * query: every item id newest first, cut down to ids with every selected
   * tag. Both date sorts are stable.
   */
  function Visible(items: seq<Item>, search: string -> seq<string>, query: string,
                   selected: set<string>, sort: string): seq<string>
  {
    if Trim(query) != "" then
      var ranked := search(Trim(query));
      var tagged := if |selected| > 0 then Filter(ranked, HasAllTags(items, selected)) else ranked;
      if sort != "relevance" then SortDesc(tagged, DateInMap(items)) else tagged
    else
      var ordered := SortDesc(Ids(items), DateOf(items));
      if |selected| > 0 then Filter(ordered, HasAllTags(items, selected)) else ordered
  }

  /** The ids the resolver draws from: the ranking, or every item when the query is blank. */
  function Pool(items: seq<Item>, search: string -> seq<string>, query: string): seq<string> {
    if Trim(query) != "" then search(Trim(query)) else Ids(items)
  }

  /** With no tag selected, the tag test keeps everything, whichever lookup it reads through. */
  lemma NoTagsKeepAll(s: seq<string>, items: seq<Item>, selected: set<string>)
    requires |selected| == 0
    ensures Filter(s, HasAllTags(items, selected)) == s
    ensures Filter(s, HasAllTagsInMap(items, selected)) == s
  {
    forall i | 0 <= i < |s| ensures HasAllTags(items, selected)(s[i]) && HasAllTagsInMap(items, selected)(s[i]) {
    }
    FilterAllKept(s, HasAllTags(items, selected));
    FilterAllKept(s, HasAllTagsInMap(items, selected));
  }

  /**
   * Whatever the query and the order, the resolver shows the ids of its
   * pool that carry every selected tag, filtered and sorted: the result is
   * the pool cut down to the tagged ids, and nothing else.
   */
  lemma VisibleContents(items: seq<Item>, search: string -> seq<string>, query: string,
                        selected: set<string>, sort: string)
    ensures multiset(Visible(items, search, query, selected, sort))
         == multiset(Filter(Pool(items, search, query), HasAllTags(items, selected)))
  {
    var tags, date := HasAllTags(items, selected), DateOf(items);
    var pool := Pool(items, search, query);
    if |selected| == 0 {
      NoTagsKeepAll(pool, items, selected);
    }
    if Trim(query) == "" && |selected| > 0 {
      FilterSortDesc(pool, tags, date);
    }
  }

  /**
   * An id is shown exactly when it is in the pool (the ranking, or the
   * items when the query is blank) and its item carries every selected tag.
   */
  lemma VisibleMembers(items: seq<Item>, search: string -> seq<string>, query: string,
                       selected: set<string>, sort: string, id: string)
    ensures id in Visible(items, search, query, selected, sort)
        <==> id in Pool(items, search, query)
             && forall t | t in selected :: t in KeywordsFor(items, id)
  {
    var pool := Pool(items, search, query);
    VisibleContents(items, search, query, selected, sort);
    FilterMember(pool, HasAllTags(items, selected), id);
    assert id in Visible(items, search, query, selected, sort)
       <==> id in multiset(Visible(items, search, query, selected, sort));
  }

  /**
   * With a blank query the order is newest first whatever the sort choice,
   * and items of the same date keep the order of the item list.
   */
  lemma BlankQueryOrder(items: seq<Item>, search: string -> seq<string>, query: string,
                        selected: set<string>, sort: string, other: string, d: int)
    requires Trim(query) == ""
    ensures var v := Visible(items, search, query, selected, sort);
      && SortedDesc(v, DateOf(items))
      && Filter(v, KeyIs(DateOf(items), d))
         == Filter(Filter(Ids(items), HasAllTags(items, selected)), KeyIs(DateOf(items), d))
      && v == Visible(items, search, query, selected, other)
  {
    var tags, date := HasAllTags(items, selected), DateOf(items);
    if |selected| == 0 {
      NoTagsKeepAll(Ids(items), items, selected);
    } else {
      FilterSortDesc(Ids(items), tags, date);
    }
    SortDescStable(Filter(Ids(items), tags), date, d);
  }

  /** With a query and the "relevance" order, the index's ranking is kept as it is. */
  lemma RelevanceKeepsRanking(items: seq<Item>, search: string -> seq<string>, query: string,
                              selected: set<string>)
    requires Trim(query) != ""
    ensures Visible(items, search, query, selected, "relevance")
         == Filter(search(Trim(query)), HasAllTags(items, selected))
  {
    if |selected| == 0 {
      NoTagsKeepAll(search(Trim(query)), items, selected);
    }
  }

  /**
   * With a query and any other order, the results are newest first, and
   * results of the same date keep their ranking order. This sort reads the
   * dates through the `Map` lookup.
   */
  lemma NewestWithQuery(items: seq<Item>, search: string -> seq<string>, query: string,
                        selected: set<string>, sort: string, d: int)
    requires Trim(query) != "" && sort != "relevance"
    ensures var v := Visible(items, search, query, selected, sort);
      && SortedDesc(v, DateInMap(items))
      && Filter(v, KeyIs(DateInMap(items), d))
         == Filter(Filter(search(Trim(query)), HasAllTags(items, selected)), KeyIs(DateInMap(items), d))
  {
    var ranked := search(Trim(query));
    if |selected| == 0 {
      NoTagsKeepAll(ranked, items, selected);
    }
    SortDescStable(Filter(ranked, HasAllTags(items, selected)), DateInMap(items), d);
  }

  /**
   * No id is shown twice, given distinct item ids and a ranking without
   * repeats.
   */
  lemma VisibleNoDup(items: seq<Item>, search: string -> seq<string>, query: string,
                     selected: set<string>, sort: string)
    requires UniqueIds(items)
    requires Trim(query) != "" ==> NoDup(search(Trim(query)))
    ensures NoDup(Visible(items, search, query, selected, sort))
  {
    var pool := Pool(items, search, query);
    if Trim(query) == "" {
      UniqueIdsNoDup(items);
    }
    FilterNoDup(pool, HasAllTags(items, selected));
    VisibleContents(items, search, query, selected, sort);
    NoDupPermutation(Filter(pool, HasAllTags(items, selected)), Visible(items, search, query, selected, sort));
  }

  /**
   * After "Clear", every item id is shown as often as it occurs, newest
   * first; with distinct ids, each exactly once.
   */
  lemma ClearedShowsAll(items: seq<Item>, search: string -> seq<string>)
    ensures var v := Visible(items, search, "", {}, "newest");
      && multiset(v) == multiset(Ids(items)) && SortedDesc(v, DateOf(items))
      && (UniqueIds(items) ==> NoDup(v))
  {
    var v := Visible(items, search, "", {}, "newest");
    TrimSpec("");
    SortDescStable(Ids(items), DateOf(items), 0);
    if UniqueIds(items) {
      UniqueIdsNoDup(items);
      NoDupPermutation(Ids(items), v);
    }
  }

  // ---------------------------------------------------------------------
  // The component

  /** The writing filter's state and its handlers. */
  class WritingFilter {
    const items: seq<Item>
    const search: string -> seq<string>
    const listSelector: string
    const counterSelector: string
    const emptySelector: string
    var query: string
    var selected: set<string>
    var sort: string
    var visibleIds: seq<string>

    /**
     * The first render: empty query, no tags, newest first, and every item
     * id shown in the order given until the resolver runs.
     */
    constructor(items: seq<Item>, search: string -> seq<string>,
                listSelector: string, counterSelector: string, emptySelector: string)
      ensures this.items == items && this.search == search
      ensures this.listSelector == listSelector && this.counterSelector == counterSelector
      ensures this.emptySelector == emptySelector
      ensures query == "" && selected == {} && sort == "newest" && visibleIds == Ids(items)
    {
      this.items := items;
      this.search := search;
      this.listSelector := listSelector;
      this.counterSelector := counterSelector;
      this.emptySelector := emptySelector;
      query := "";
      selected := {};
      sort := "newest";
      visibleIds := Ids(items);
    }

    /** The tag chips: `allTags`. */
    function AllTags(): (r: seq<string>)
      ensures StrictlyAscending(r)
      ensures forall k :: k in r <==> k in AllKeywords(items)
    {
      TagCatalog(items)
    }

    /** A tag chip click. */
    method ToggleTag(tag: string)
      modifies this
      ensures selected == Toggled(old(selected), tag)
      ensures query == old(query) && sort == old(sort) && visibleIds == old(visibleIds)
    {
      var next := selected;
      if tag in next {
        next := next - {tag};
      } else {
        next := next + {tag};
      }
      selected := next;
    }

    /** "Clear": no tags, empty query, newest first. */
    method ClearFilters()
      modifies this
      ensures selected == {} && query == "" && sort == "newest"
      ensures visibleIds == old(visibleIds)
    {
      selected := {};
      query := "";
      sort := "newest";
    }

    /** Typing in the search box. */
    method SetQuery(q: string)
      modifies this
      ensures query == q
      ensures selected == old(selected) && sort == old(sort) && visibleIds == old(visibleIds)
    {
      query := q;
    }

    /** Choosing an order. */
    method SetSort(s: string)
      modifies this
      ensures sort == s
      ensures selected == old(selected) && query == old(query) && visibleIds == old(visibleIds)
    {
      sort := s;
    }

    /** The resolver effect: recomputes the ids to show from the current state. */
    method Resolve()
      modifies this
      ensures visibleIds == Visible(items, search, query, selected, sort)
      ensures query == old(query) && selected == old(selected) && sort == old(sort)
    {
      var ids: seq<string>;
      var q := Trim(query);
      if q != "" {
        ids := search(q);
        if |selected| > 0 {
          ids := Filter(ids, HasAllTags(items, selected));
        }
        if sort != "relevance" {
          ids := SortDesc(ids, DateInMap(items));
        }
      } else {
        ids := SortDesc(Ids(items), DateOf(items));
        if |selected| > 0 {
          ids := Filter(ids, HasAllTags(items, selected));
        }
      }
      visibleIds := ids;
    }

    /**
     * The DOM effect: the list container under `listSelector`, the
     * placeholder and the counter, with `<shown> of <items>` in the counter.
     */
    method ApplyToPage(page: Dom.Page)
      requires Dom.ContainerAt(page, [listSelector]) != null ==>
        Dom.UniqueSlugs(Dom.ContainerAt(page, [listSelector]).children)
      modifies Dom.ContainerAt(page, [listSelector]), Dom.PlaceholderAt(page, emptySelector),
        Dom.CounterAt(page, counterSelector)
      ensures var c, e, n := Dom.ContainerAt(page, [listSelector]), Dom.PlaceholderAt(page, emptySelector),
        Dom.CounterAt(page, counterSelector);
        && (c == null && e != null ==> e.hidden == old(e.hidden))
        && (c == null && n != null ==> n.text == old(n.text))
        && (c != null ==> c.children == Dom.Reconciled(old(c.children), visibleIds))
        && (c != null && e != null ==> e.hidden == (|visibleIds| > 0))
        && (c != null && n != null ==> n.text == Dom.CounterText(|visibleIds|, |items|))
    {
      Dom.Reconcile(visibleIds, |items|, Dom.ContainerAt(page, [listSelector]),
        Dom.PlaceholderAt(page, emptySelector), Dom.CounterAt(page, counterSelector));
    }
  }
}
