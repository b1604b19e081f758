/**
 * The projects listing's filter: a fixed newest-first order of all items,
 * computed once, and an AND filter over keyword tags that shows a subset
 * of that order; then the same DOM step as the writing listing, with a
 * container found through a chain of fallback selectors.
 */
module Projects {
  import opened Wrappers
  import opened Seqs
  import opened Items
  import Dom
  import Writing

  /** The container selectors tried in order when the page does not pass its own. */
  const FallbackSelectors: seq<string> :=
    [".projects-grid[data-list=\"projects\"]", ".projects-grid"]

  /** `baseOrder`: a copy of the items sorted newest first (stable), as ids. */
  function BaseOrder(items: seq<Item>): seq<string> {
    Ids(SortDesc(items, ItemDate))
  }

  /**
   * With distinct ids, the base order is the item ids put newest first by
   * the date each id names: the same order the writing listing computes.
   */
  lemma BaseOrderByIds(items: seq<Item>)
    requires UniqueIds(items)
    ensures BaseOrder(items) == SortDesc(Ids(items), DateOf(items))
  {
    DateOfOwnId(items);
    SortDescMap(items, ItemId, ItemDate, DateOf(items));
  }

  /**
   * The base order lists every item id once, newest first, and ids of the
   * same date in the order of the item list.
   */
  lemma BaseOrderSpec(items: seq<Item>, d: int)
    requires UniqueIds(items)
    ensures multiset(BaseOrder(items)) == multiset(Ids(items))
    ensures NoDup(BaseOrder(items))
    ensures SortedDesc(BaseOrder(items), DateOf(items))
    ensures Filter(BaseOrder(items), KeyIs(DateOf(items), d)) == Filter(Ids(items), KeyIs(DateOf(items), d))
  {
    BaseOrderByIds(items);
    SortDescStable(Ids(items), DateOf(items), d);
    UniqueIdsNoDup(items);
    NoDupPermutation(Ids(items), BaseOrder(items));
  }

  /**
   * The ids to show: the base order, cut down to ids with every selected
   * tag, the keywords read through the `Map` from id to item.
   */
  function Visible(items: seq<Item>, selected: set<string>): seq<string> {
    if |selected| == 0 then BaseOrder(items)
    else Filter(BaseOrder(items), HasAllTagsInMap(items, selected))
  }

  /**
   * Whatever the selection, the ids shown are the base order with the ids
   * lacking a selected tag left out: a subsequence of the base order.
   */
  lemma VisibleInBaseOrder(items: seq<Item>, selected: set<string>)
    ensures Visible(items, selected) == Filter(BaseOrder(items), HasAllTagsInMap(items, selected))
  {
    if |selected| == 0 {
      Writing.NoTagsKeepAll(BaseOrder(items), items, selected);
    }
  }

  /**
   * AND semantics: with distinct ids, an id is shown exactly when it is an
   * item id and that item carries every selected tag; no id is shown twice
   * and the ids shown are newest first.
   */
  lemma VisibleSpec(items: seq<Item>, selected: set<string>, id: string)
    requires UniqueIds(items)
    ensures id in Visible(items, selected)
        <==> id in Ids(items) && forall t | t in selected :: t in KeywordsInMap(items, id)
    ensures NoDup(Visible(items, selected))
    ensures SortedDesc(Visible(items, selected), DateOf(items))
  {
    var base, tags := BaseOrder(items), HasAllTagsInMap(items, selected);
    VisibleInBaseOrder(items, selected);
    BaseOrderSpec(items, 0);
    FilterMember(base, tags, id);
    assert id in base <==> id in multiset(base);
    FilterNoDup(base, tags);
    FilterSorted(base, tags, DateOf(items));
  }

  /**
   * Once the selection is cleared the whole base order shows again: every
   * item id once, newest first.
   */
  lemma ClearedShowsBaseOrder(items: seq<Item>)
    requires UniqueIds(items)
    ensures Visible(items, {}) == BaseOrder(items)
    ensures multiset(Visible(items, {})) == multiset(Ids(items))
    ensures SortedDesc(Visible(items, {}), DateOf(items))
  {
    BaseOrderSpec(items, 0);
  }

  /**
   * With a repeated id, the tag test reads the keywords of the last item
   * with that id, and the id is shown once for each item that carries it.
   */
  lemma RepeatedIdReadsLastItem()
    ensures var items := [Item("a", Some([]), 1), Item("a", Some(["x"]), 0)];
      Visible(items, {"x"}) == ["a", "a"]
  {
    var items := [Item("a", Some([]), 1), Item("a", Some(["x"]), 0)];
    assert FindLast(items, "a") == Some(items[1]);
    assert HasAllTagsInMap(items, {"x"})("a");
    assert BaseOrder(items) == ["a", "a"];
  }

  /** Selecting more tags narrows the list further, still in base order. */
  lemma MoreTagsNarrow(items: seq<Item>, selected: set<string>, more: set<string>)
    requires selected <= more
    ensures Visible(items, more) == Filter(Visible(items, selected), HasAllTagsInMap(items, more))
  {
    VisibleInBaseOrder(items, selected);
    VisibleInBaseOrder(items, more);
    FilterNarrow(BaseOrder(items), HasAllTagsInMap(items, selected), HasAllTagsInMap(items, more));
  }

  /**
   * With distinct ids, the projects listing shows what the writing listing
   * shows for a blank query and the same tags.
   */
  lemma AgreesWithBlankWritingQuery(items: seq<Item>, search: string -> seq<string>, query: string,
                                    selected: set<string>, sort: string)
    requires UniqueIds(items) && Writing.Trim(query) == ""
    ensures Visible(items, selected) == Writing.Visible(items, search, query, selected, sort)
  {
    BaseOrderByIds(items);
    forall id | id in BaseOrder(items)
      ensures HasAllTagsInMap(items, selected)(id) == HasAllTags(items, selected)(id)
    {
      InMapAgrees(items, selected, id);
    }
    FilterSameOn(BaseOrder(items), HasAllTagsInMap(items, selected), HasAllTags(items, selected));
  }

  // ---------------------------------------------------------------------
  // The component

  /** The projects filter's state and its handlers. */
  class ProjectsFilter {
    const items: seq<Item>
    const listSelector: string
    const counterSelector: string
    const emptySelector: string
    const baseOrder: seq<string>
    var selected: set<string>
    var visibleIds: seq<string>

    /** `baseOrder` is the memoised base order of the items. */
    ghost predicate Valid() {
      baseOrder == BaseOrder(items)
    }

    /** The first render: the base order computed once, no tags, everything shown. */
    constructor(items: seq<Item>, listSelector: string, counterSelector: string, emptySelector: string)
      ensures this.items == items && this.listSelector == listSelector
      ensures this.counterSelector == counterSelector && this.emptySelector == emptySelector
      ensures Valid()
      ensures selected == {} && visibleIds == BaseOrder(items)
    {
      this.items := items;
      this.listSelector := listSelector;
      this.counterSelector := counterSelector;
      this.emptySelector := emptySelector;
      var sorted := SortDesc(items, ItemDate);
      baseOrder := Ids(sorted);
      selected := {};
      visibleIds := Ids(sorted);
    }

    /** The tag chips: `allTags`. */
    function AllTags(): (r: seq<string>)
      ensures StrictlyAscending(r)
      ensures forall k :: k in r <==> k in AllKeywords(items)
    {
      TagCatalog(items)
    }

    /** A tag chip click. */
    method ToggleTag(tag: string)
      modifies this
      ensures selected == Toggled(old(selected), tag)
      ensures visibleIds == old(visibleIds)
    {
      var next := selected;
      if tag in next {
        next := next - {tag};
      } else {
        next := next + {tag};
      }
      selected := next;
    }

    /** "Clear": the selection only; this page has no query or order control. */
    method ClearFilters()
      modifies this
      ensures selected == {} && visibleIds == old(visibleIds)
    {
      selected := {};
    }

    /** The filter effect: recomputes the ids to show from the selection. */
    method Resolve()
      requires Valid()
      modifies this
      ensures visibleIds == Visible(items, selected)
      ensures selected == old(selected)
    {
      if |selected| == 0 {
        visibleIds := baseOrder;
        return;
      }
      var filtered := Filter(baseOrder, HasAllTagsInMap(items, selected));
      visibleIds := filtered;
    }

    /** The container: `listSelector`, else the two fallback selectors, in that order. */
    function ContainerOn(page: Dom.Page): (r: Dom.Container?)
      ensures listSelector in page.lists ==> r == page.lists[listSelector]
      ensures listSelector !in page.lists && FallbackSelectors[0] in page.lists
        ==> r == page.lists[FallbackSelectors[0]]
      ensures (listSelector !in page.lists && FallbackSelectors[0] !in page.lists
               && FallbackSelectors[1] in page.lists) ==> r == page.lists[FallbackSelectors[1]]
      ensures (listSelector !in page.lists && FallbackSelectors[0] !in page.lists
               && FallbackSelectors[1] !in page.lists) ==> r == null
    {
      var chain := [listSelector] + FallbackSelectors;
      assert chain[0] == listSelector && chain[1] == FallbackSelectors[0] && chain[2] == FallbackSelectors[1];
      Dom.ContainerAt(page, chain)
    }

    /** The DOM effect, on the container the selector chain finds. */
    method ApplyToPage(page: Dom.Page)
      requires ContainerOn(page) != null ==> Dom.UniqueSlugs(ContainerOn(page).children)
      modifies ContainerOn(page), Dom.PlaceholderAt(page, emptySelector), Dom.CounterAt(page, counterSelector)
      ensures var c, e, n := ContainerOn(page), Dom.PlaceholderAt(page, emptySelector),
        Dom.CounterAt(page, counterSelector);
        && (c == null && e != null ==> e.hidden == old(e.hidden))
        && (c == null && n != null ==> n.text == old(n.text))
        && (c != null ==> c.children == Dom.Reconciled(old(c.children), visibleIds))
        && (c != null && e != null ==> e.hidden == (|visibleIds| > 0))
        && (c != null && n != null ==> n.text == Dom.CounterText(|visibleIds|, |items|))
    {
      Dom.Reconcile(visibleIds, |items|, ContainerOn(page),
        Dom.PlaceholderAt(page, emptySelector), Dom.CounterAt(page, counterSelector));
    }
  }
}
