/**
 * The content items both listing pages receive, and what the pages derive
 * from them before any filtering: the id, keyword and date lookups of the
 * filter callbacks, the sorted tag catalog (`allTags`) and the tag toggle.
 */
module Items {
  import opened Wrappers
  import opened Seqs

  /**
   * One card's data. Dates are timestamps; `keywords` may be absent, and
   * every reader treats an absent list as empty (`keywords || []`).
   */
  datatype Item = Item(id: string, keywords: Option<seq<string>>, date: int)

  function KeywordsOf(it: Item): seq<string> {
    if it.keywords.Some? then it.keywords.value else []
  }

  function ItemId(it: Item): string { it.id }

  function ItemDate(it: Item): int { it.date }

  /** `items.map(i => i.id)` */
  function Ids(items: seq<Item>): seq<string> {
    MapSeq(items, ItemId)
  }

  /** The content collection gives every entry a distinct id. */
  ghost predicate UniqueIds(items: seq<Item>) {
    forall i, j | 0 <= i < j < |items| :: items[i].id != items[j].id
  }

  lemma IdsAppend(a: seq<Item>, b: seq<Item>)
    ensures Ids(a + b) == Ids(a) + Ids(b)
  {
  }

  /** The first item with the id in `items` is at `k`. */
  ghost predicate FirstAt(items: seq<Item>, id: string, v: Item) {
    exists k | 0 <= k < |items| :: items[k] == v && forall j | 0 <= j < k :: items[j].id != id
  }

  /** The last item with the id in `items` is at `k`. */
  ghost predicate LastAt(items: seq<Item>, id: string, v: Item) {
    exists k | 0 <= k < |items| :: items[k] == v && forall j | k < j < |items| :: items[j].id != id
  }

  lemma FirstAtCons(items: seq<Item>, id: string, v: Item)
    requires items != [] && items[0].id != id && FirstAt(items[1..], id, v)
    ensures FirstAt(items, id, v)
  {
    var k :| 0 <= k < |items[1..]| && items[1..][k] == v && forall j | 0 <= j < k :: items[1..][j].id != id;
    assert items[k + 1] == v;
    forall j | 0 <= j < k + 1 ensures items[j].id != id {
      if j > 0 {
        assert items[j] == items[1..][j - 1];
      }
    }
  }

  lemma LastAtSnoc(items: seq<Item>, id: string, v: Item)
    requires items != [] && items[|items| - 1].id != id && LastAt(items[..|items| - 1], id, v)
    ensures LastAt(items, id, v)
  {
    var init := items[..|items| - 1];
    var k :| 0 <= k < |init| && init[k] == v && forall j | k < j < |init| :: init[j].id != id;
    assert items[k] == v;
    forall j | k < j < |items| ensures items[j].id != id {
      if j < |init| {
        assert items[j] == init[j];
      }
    }
  }

  /** `items.find(i => i.id === id)`: the first item with that id, if any. */
  function Find(items: seq<Item>, id: string): (r: Option<Item>)
    ensures r.Some? ==> r.value in items && r.value.id == id && FirstAt(items, id, r.value)
    ensures r.None? <==> id !in Ids(items)
  {
    if items == [] then None
    else if items[0].id == id then Some(items[0])
    else
      var r := Find(items[1..], id);
      assert Ids(items) == [items[0].id] + Ids(items[1..]);
      if r.Some? then FirstAtCons(items, id, r.value); r else r
  }

  /**
   * `new Map(items.map(i => [i.id, i])).get(id)`: a later item overwrites
   * an earlier one with the same id, so the last item with that id, if any.
   */
  function FindLast(items: seq<Item>, id: string): (r: Option<Item>)
    ensures r.Some? ==> r.value.id == id && LastAt(items, id, r.value)
    ensures r.None? <==> id !in Ids(items)
  {
    if items == [] then None
    else if items[|items| - 1].id == id then Some(items[|items| - 1])
    else
      var init := items[..|items| - 1];
      var r := FindLast(init, id);
      assert items == init + [items[|items| - 1]];
      IdsAppend(init, [items[|items| - 1]]);
      if r.Some? then LastAtSnoc(items, id, r.value); r else r
  }

  /** With distinct ids, the `Map` lookup and `find` return the same item. */
  lemma MapAgreesWithFind(items: seq<Item>, id: string)
    requires UniqueIds(items)
    ensures FindLast(items, id) == Find(items, id)
  {
    var a, b := FindLast(items, id), Find(items, id);
    if a.Some? {
      var i :| 0 <= i < |items| && items[i] == a.value && forall j | i < j < |items| :: items[j].id != id;
      var k :| 0 <= k < |items| && items[k] == b.value && forall j | 0 <= j < k :: items[j].id != id;
      assert i == k;
    }
  }

  /** With distinct ids, looking an item's id up finds that item. */
  lemma {:induction false} FindOwnId(items: seq<Item>, k: nat)
    requires UniqueIds(items) && k < |items|
    ensures Find(items, items[k].id) == Some(items[k])
  {
    if k > 0 {
      assert items[0].id != items[k].id;
      FindOwnId(items[1..], k - 1);
    }
  }

  /** `item?.keywords || []` for the item the id names. */
  function KeywordsFor(items: seq<Item>, id: string): seq<string> {
    match Find(items, id)
    case None => []
    case Some(it) => KeywordsOf(it)
  }

  /** `byId.get(id)?.keywords || []`, through the `Map` lookup. */
  function KeywordsInMap(items: seq<Item>, id: string): seq<string> {
    match FindLast(items, id)
    case None => []
    case Some(it) => KeywordsOf(it)
  }

  /**
   * The AND tag test of both filters: every selected tag is among the
   * keywords of the item the id names (an unknown id has no keywords).
   */
  function HasAllTags(items: seq<Item>, selected: set<string>): string -> bool {
    id => forall t | t in selected :: t in KeywordsFor(items, id)
  }

  /** The same AND test, reading keywords through the `Map` lookup. */
  function HasAllTagsInMap(items: seq<Item>, selected: set<string>): string -> bool {
    id => forall t | t in selected :: t in KeywordsInMap(items, id)
  }

  /**
   * The date the newest-first comparators read for an id. Every id the
   * pages sort is an item id, so the default of 0 is never read.
   */
  function DateOf(items: seq<Item>): string -> int {
    id => match Find(items, id) case Some(it) => it.date case None => 0
  }

  /** The date a comparator reads for an id through the `Map` lookup. */
  function DateInMap(items: seq<Item>): string -> int {
    id => match FindLast(items, id) case Some(it) => it.date case None => 0
  }

  /** With distinct ids, the `Map`-based readers agree with the `find`-based ones. */
  lemma InMapAgrees(items: seq<Item>, selected: set<string>, id: string)
    requires UniqueIds(items)
    ensures KeywordsInMap(items, id) == KeywordsFor(items, id)
    ensures HasAllTagsInMap(items, selected)(id) == HasAllTags(items, selected)(id)
    ensures DateInMap(items)(id) == DateOf(items)(id)
  {
    MapAgreesWithFind(items, id);
  }

  lemma DateOfOwnId(items: seq<Item>)
    requires UniqueIds(items)
    ensures forall it | it in items :: DateOf(items)(ItemId(it)) == ItemDate(it)
  {
    forall it | it in items ensures DateOf(items)(ItemId(it)) == ItemDate(it) {
      var k :| 0 <= k < |items| && items[k] == it;
      FindOwnId(items, k);
    }
  }

  lemma UniqueIdsNoDup(items: seq<Item>)
    requires UniqueIds(items)
    ensures NoDup(Ids(items))
  {
    DistinctNoDup(Ids(items));
  }

  // ---------------------------------------------------------------------
  // Tag catalog

  /**
   * The order `Array.prototype.sort` gives strings when called without a
   * comparator: lexicographic, character by character, a proper prefix first.
   */
  predicate Before(a: string, b: string) {
    if a == [] then b != []
    else if b == [] then false
    else if a[0] != b[0] then a[0] < b[0]
    else Before(a[1..], b[1..])
  }

  lemma {:induction false} BeforeIrreflexive(a: string)
    ensures !Before(a, a)
  {
    if a != [] {
      BeforeIrreflexive(a[1..]);
    }
  }

  lemma {:induction false} BeforeTransitive(a: string, b: string, c: string)
    requires Before(a, b) && Before(b, c)
    ensures Before(a, c)
  {
    if a != [] && b != [] && c != [] && a[0] == b[0] && b[0] == c[0] {
      BeforeTransitive(a[1..], b[1..], c[1..]);
    }
  }

  lemma {:induction false} BeforeTotal(a: string, b: string)
    requires a != b
    ensures Before(a, b) || Before(b, a)
  {
    if a != [] && b != [] && a[0] == b[0] {
      assert a == [a[0]] + a[1..] && b == [b[0]] + b[1..];
      BeforeTotal(a[1..], b[1..]);
    }
  }

  ghost predicate StrictlyAscending(s: seq<string>) {
    forall i, j | 0 <= i < j < |s| :: Before(s[i], s[j])
  }

  /** Adds `k` to an ascending list of distinct strings, unless it is there. */
  function AddSorted(k: string, s: seq<string>): (r: seq<string>)
    ensures forall x :: x in r <==> x == k || x in s
  {
    if s == [] then [k]
    else if k == s[0] then s
    else if Before(k, s[0]) then [k] + s
    else [s[0]] + AddSorted(k, s[1..])
  }

  lemma {:induction false} AddSortedAscending(k: string, s: seq<string>)
    requires StrictlyAscending(s)
    ensures StrictlyAscending(AddSorted(k, s))
  {
    if s != [] && k != s[0] && Before(k, s[0]) {
      forall j | 0 < j < |s| ensures Before(k, s[j]) {
        BeforeTransitive(k, s[0], s[j]);
      }
    } else if s != [] && k != s[0] {
      BeforeTotal(k, s[0]);
      var rest := AddSorted(k, s[1..]);
      assert StrictlyAscending(s[1..]) by {
        forall i, j | 0 <= i < j < |s[1..]| ensures Before(s[1..][i], s[1..][j]) {
          assert s[1..][i] == s[i + 1] && s[1..][j] == s[j + 1];
        }
      }
      AddSortedAscending(k, s[1..]);
      forall y | y in rest ensures Before(s[0], y) {
        if y != k {
          var j :| 0 <= j < |s[1..]| && s[1..][j] == y;
          assert s[j + 1] == y;
        }
      }
      assert ([s[0]] + rest)[1..] == rest;
    }
  }

  /**
   * `new Set()` filled by `add` in the order given, then
   * `Array.from(set).sort()`.
   */
  function SortedSet(ks: seq<string>): seq<string> {
    if ks == [] then [] else AddSorted(ks[|ks| - 1], SortedSet(ks[..|ks| - 1]))
  }

  lemma {:induction false} SortedSetSpec(ks: seq<string>)
    ensures StrictlyAscending(SortedSet(ks))
    ensures forall x :: x in SortedSet(ks) <==> x in ks
  {
    if ks != [] {
      var init := ks[..|ks| - 1];
      SortedSetSpec(init);
      AddSortedAscending(ks[|ks| - 1], SortedSet(init));
      assert ks == init + [ks[|ks| - 1]];
    }
  }

  /** Every keyword of every item, item by item (the nested `forEach`). */
  function AllKeywords(items: seq<Item>): seq<string> {
    if items == [] then [] else KeywordsOf(items[0]) + AllKeywords(items[1..])
  }

  lemma {:induction false} AllKeywordsMembers(items: seq<Item>, k: string)
    ensures k in AllKeywords(items) <==> exists i | 0 <= i < |items| :: k in KeywordsOf(items[i])
  {
    if items != [] {
      AllKeywordsMembers(items[1..], k);
      if k in AllKeywords(items[1..]) {
        var i :| 0 <= i < |items[1..]| && k in KeywordsOf(items[1..][i]);
        assert items[i + 1] == items[1..][i];
      }
      if exists i | 0 <= i < |items| :: k in KeywordsOf(items[i]) {
        var i :| 0 <= i < |items| && k in KeywordsOf(items[i]);
        if i > 0 {
          assert items[1..][i - 1] == items[i];
        }
      }
    }
  }

  /**
   * `allTags`, computed the same way by both pages: the keywords of all
   * items, each once, in ascending order.
   */
  function TagCatalog(items: seq<Item>): (r: seq<string>)
    ensures StrictlyAscending(r)
    ensures forall k :: k in r <==> k in AllKeywords(items)
  {
    SortedSetSpec(AllKeywords(items));
    SortedSet(AllKeywords(items))
  }

  /**
   * The catalog is strictly ascending (so free of repeats) and holds a
   * string exactly when some item lists it among its keywords.
   */
  lemma TagCatalogSpec(items: seq<Item>, k: string)
    ensures StrictlyAscending(TagCatalog(items))
    ensures k in TagCatalog(items) <==> exists i | 0 <= i < |items| :: k in KeywordsOf(items[i])
  {
    AllKeywordsMembers(items, k);
  }

  // ---------------------------------------------------------------------
  // Tag toggle

  /** `toggleTag`: a copy of the selection with `tag` removed if present, added if not. */
  function Toggled(selected: set<string>, tag: string): (r: set<string>)
    ensures tag in r <==> tag !in selected
    ensures forall u | u != tag :: u in r <==> u in selected
  {
    if tag in selected then selected - {tag} else selected + {tag}
  }

  /** Toggling the same tag twice restores the selection. */
  lemma ToggledTwice(selected: set<string>, tag: string)
    ensures Toggled(Toggled(selected, tag), tag) == selected
  {
  }
}
