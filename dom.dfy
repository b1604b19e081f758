/**
 * The DOM side of both listing pages: the list container whose card
 * children are shown, hidden and re-appended in the resolved order, the
 * "no results" placeholder, the "<n> of <total>" counter, and the ordered
 * selector fallback used to find the container.
 *
 * The container is a flat sequence of children. A card carries its
 * `data-slug`; other children carry none and are never touched.
 */
module Dom {
  import opened Wrappers
  import opened Seqs

  datatype Node = Node(slug: Option<string>, hidden: bool)

  /** The list container; its children are reordered in place. */
  class Container {
    var children: seq<Node>
  }

  /** The "no results" element. */
  class Placeholder {
    var hidden: bool
  }

  /** The result counter element. */
  class Counter {
    var text: string
  }

  /**
   * What `document.querySelector` can find on the page, per selector: the
   * same element may be reachable under several selectors.
   */
  datatype Page = Page(
    lists: map<string, Container>,
    placeholders: map<string, Placeholder>,
    counters: map<string, Counter>)

  // ---------------------------------------------------------------------
  // Selector fallback

  /**
   * `querySelector(s1) || querySelector(s2) || ...`: the element of the
   * first selector that finds one, or nothing when none does.
   */
  function Locate<T(==)>(found: map<string, T>, selectors: seq<string>): (r: Option<T>)
    ensures r.None? <==> forall i | 0 <= i < |selectors| :: selectors[i] !in found
    ensures r.Some? ==> exists i | 0 <= i < |selectors| ::
      && selectors[i] in found && r.value == found[selectors[i]]
      && forall j | 0 <= j < i :: selectors[j] !in found
  {
    if selectors == [] then None
    else if selectors[0] in found then Some(found[selectors[0]])
    else
      var r := Locate(found, selectors[1..]);
      assert forall i | 1 <= i < |selectors| :: selectors[i] == selectors[1..][i - 1];
      if r.Some? then
        var i :| 0 <= i < |selectors[1..]| && selectors[1..][i] in found && r.value == found[selectors[1..][i]]
                 && forall j | 0 <= j < i :: selectors[1..][j] !in found;
        assert selectors[i + 1] == selectors[1..][i];
        assert forall j | 0 <= j < i + 1 :: selectors[j] !in found by {
          forall j | 0 <= j < i + 1 ensures selectors[j] !in found {
            if j > 0 { assert selectors[j] == selectors[1..][j - 1]; }
          }
        }
        r
      else r
  }

  function ContainerAt(page: Page, selectors: seq<string>): Container? {
    match Locate(page.lists, selectors)
    case Some(c) => c
    case None => null
  }

  function PlaceholderAt(page: Page, selector: string): Placeholder? {
    if selector in page.placeholders then page.placeholders[selector] else null
  }

  function CounterAt(page: Page, selector: string): Counter? {
    if selector in page.counters then page.counters[selector] else null
  }

  // ---------------------------------------------------------------------
  // The counter text

  function DigitChar(d: nat): (c: char)
    requires d < 10
    ensures '0' <= c <= '9' && (c as int) - ('0' as int) == d
  {
    (('0' as int) + d) as char
  }

  predicate AllDigits(s: string) {
    forall i | 0 <= i < |s| :: '0' <= s[i] <= '9'
  }

  /** The decimal text JavaScript prints for a non-negative integer. */
  function Decimal(n: nat): (r: string)
    ensures |r| >= 1 && AllDigits(r)
  {
    if n < 10 then [DigitChar(n)] else Decimal(n / 10) + [DigitChar(n % 10)]
  }

  /** The number a string of decimal digits denotes. */
  function DecimalValue(s: string): nat
    requires AllDigits(s)
  {
    if s == [] then 0
    else DecimalValue(s[..|s| - 1]) * 10 + ((s[|s| - 1] as int) - ('0' as int))
  }

  lemma {:induction false} DecimalRoundTrip(n: nat)
    ensures DecimalValue(Decimal(n)) == n
  {
    if n >= 10 {
      DecimalRoundTrip(n / 10);
      var d := Decimal(n);
      assert d[..|d| - 1] == Decimal(n / 10);
    }
  }

  /** `${shown} of ${total}` */
  function CounterText(shown: nat, total: nat): string {
    Decimal(shown) + " of " + Decimal(total)
  }

  /** The position of the first space, if any. */
  function FirstSpace(s: string): (r: Option<nat>)
    ensures r.Some? ==> r.value < |s| && s[r.value] == ' ' && forall k | 0 <= k < r.value :: s[k] != ' '
    ensures r.None? ==> forall k | 0 <= k < |s| :: s[k] != ' '
  {
    if s == [] then None
    else if s[0] == ' ' then Some(0)
    else
      match FirstSpace(s[1..])
      case None => None
      case Some(k) => Some(k + 1)
  }

  /** Reads back the two numbers from a counter text. */
  function ParseCounter(s: string): Option<(nat, nat)> {
    match FirstSpace(s)
    case None => None
    case Some(i) =>
      if i + 4 <= |s| && s[i..i + 4] == " of " && AllDigits(s[..i]) && AllDigits(s[i + 4..])
      then Some((DecimalValue(s[..i]), DecimalValue(s[i + 4..])))
      else None
  }

  /** The counter text names both numbers unambiguously. */
  lemma CounterRoundTrip(shown: nat, total: nat)
    ensures ParseCounter(CounterText(shown, total)) == Some((shown, total))
  {
    var a, b := Decimal(shown), Decimal(total);
    var s := CounterText(shown, total);
    assert s == a + " of " + b;
    assert s[|a|] == ' ';
    forall k | 0 <= k < |a| ensures s[k] != ' ' {
      assert s[k] == a[k];
    }
    assert FirstSpace(s) == Some(|a|);
    assert s[..|a|] == a;
    assert s[|a|..|a| + 4] == " of ";
    assert s[|a| + 4..] == b;
    DecimalRoundTrip(shown);
    DecimalRoundTrip(total);
  }

  // ---------------------------------------------------------------------
  // Reconciliation, as functions of the children

  /** The card names one of the ids. */
  predicate Named(n: Node, ids: seq<string>) {
    n.slug.Some? && n.slug.value in ids
  }

  /** Children that the re-append pass does not move. */
  function Stays(ids: seq<string>): Node -> bool {
    n => !Named(n, ids)
  }

  /** `el.hidden = !show.has(slug)` for a card; other children unchanged. */
  function Flag(n: Node, ids: seq<string>): Node {
    if n.slug.Some? then n.(hidden := n.slug.value !in ids) else n
  }

  /** The hide pass over every card. */
  function FlagAll(cs: seq<Node>, ids: seq<string>): (r: seq<Node>)
    ensures |r| == |cs| && forall k | 0 <= k < |cs| :: r[k] == Flag(cs[k], ids)
  {
    seq(|cs|, k requires 0 <= k < |cs| => Flag(cs[k], ids))
  }

  /**
   * The first card with the slug, if any. `byId.get(id)` returns the last
   * one; the two coincide when slugs are distinct (`UniqueSlugs`).
   */
  function CardFor(cs: seq<Node>, id: string): (r: Option<Node>)
    ensures r.Some? ==> r.value in cs && r.value.slug == Some(id)
    ensures r.None? ==> forall n | n in cs :: n.slug != Some(id)
  {
    if cs == [] then None
    else if cs[0].slug == Some(id) then Some(cs[0])
    else CardFor(cs[1..], id)
  }

  function HasCard(cs: seq<Node>): string -> bool {
    id => CardFor(cs, id).Some?
  }

  /**
   * `container.appendChild(el)` for the card of `id`: the card leaves its
   * place and becomes the last child; nothing happens when there is none.
   */
  function MoveToEnd(cs: seq<Node>, id: string): seq<Node> {
    match CardFor(cs, id)
    case None => cs
    case Some(n) => Filter(cs, Stays([id])) + [n]
  }

  /**
   * With a repeated slug the specification drops cards: both cards with the
   * slug leave, and only the first comes back.
   */
  lemma RepeatedSlugDropsCard()
    ensures MoveToEnd([Node(Some("a"), false), Node(Some("a"), true)], "a") == [Node(Some("a"), false)]
  {
    var cs := [Node(Some("a"), false), Node(Some("a"), true)];
    assert CardFor(cs, "a") == Some(cs[0]);
    assert Filter(cs, Stays(["a"])) == [];
  }

  /** The re-append pass: one `MoveToEnd` per id, in order. */
  function AppendAll(cs: seq<Node>, ids: seq<string>): seq<Node>
    decreases |ids|
  {
    if ids == [] then cs else MoveToEnd(AppendAll(cs, ids[..|ids| - 1]), ids[|ids| - 1])
  }

  /** What the reconcile step makes of the container's children. */
  function Reconciled(cs: seq<Node>, ids: seq<string>): seq<Node> {
    AppendAll(FlagAll(cs, ids), ids)
  }

  /** The cards of the ids, in id order, skipping ids without a card. */
  function CardsOf(cs: seq<Node>, ids: seq<string>): seq<Node>
    decreases |ids|
  {
    if ids == [] then []
    else
      CardsOf(cs, ids[..|ids| - 1])
        + match CardFor(cs, ids[|ids| - 1]) case Some(n) => [n] case None => []
  }

  function SlugText(n: Node): string {
    if n.slug.Some? then n.slug.value else ""
  }

  /** The position of the first card with the slug, as the in-place pass finds it. */
  function IndexOf(cs: seq<Node>, id: string): (r: Option<nat>)
    ensures r.Some? ==> r.value < |cs| && cs[r.value].slug == Some(id)
    ensures r.None? ==> CardFor(cs, id).None?
  {
    if cs == [] then None
    else if cs[0].slug == Some(id) then Some(0)
    else
      match IndexOf(cs[1..], id)
      case None => None
      case Some(k) => Some(k + 1)
  }

  /** No two cards share a slug. */
  ghost predicate UniqueSlugs(cs: seq<Node>) {
    forall i, j | 0 <= i < j < |cs| :: SlugAt(cs, i).Some? ==> SlugAt(cs, i) != SlugAt(cs, j)
  }

  function SlugAt(cs: seq<Node>, k: nat): Option<string>
    requires k < |cs|
  {
    cs[k].slug
  }

  // ---------------------------------------------------------------------
  // Lemmas

  lemma SameSlugSameNode(cs: seq<Node>, x: Node, y: Node)
    requires UniqueSlugs(cs) && x in cs && y in cs && x.slug.Some? && x.slug == y.slug
    ensures x == y
  {
    var i :| 0 <= i < |cs| && cs[i] == x;
    var j :| 0 <= j < |cs| && cs[j] == y;
    assert SlugAt(cs, i) == SlugAt(cs, j);
  }

  lemma UniqueSlugsCons(h: Node, t: seq<Node>)
    ensures UniqueSlugs([h] + t) <==>
      (h.slug.Some? ==> forall y | y in t :: y.slug != h.slug) && UniqueSlugs(t)
  {
    var s := [h] + t;
    assert forall k | 0 <= k < |t| :: s[k + 1] == t[k];
    if (h.slug.Some? ==> forall y | y in t :: y.slug != h.slug) && UniqueSlugs(t) {
      forall i, j | 0 <= i < j < |s| && SlugAt(s, i).Some? ensures SlugAt(s, i) != SlugAt(s, j) {
        if i == 0 {
          assert s[j] in t;
        } else {
          assert SlugAt(s, i) == SlugAt(t, i - 1) && SlugAt(s, j) == SlugAt(t, j - 1);
        }
      }
    }
    if UniqueSlugs(s) {
      forall y | y in t && h.slug.Some? ensures y.slug != h.slug {
        var j :| 0 <= j < |t| && t[j] == y;
        assert SlugAt(s, 0) == h.slug && SlugAt(s, j + 1) == y.slug;
      }
      forall i, j | 0 <= i < j < |t| && SlugAt(t, i).Some? ensures SlugAt(t, i) != SlugAt(t, j) {
        assert SlugAt(s, i + 1) == SlugAt(t, i) && SlugAt(s, j + 1) == SlugAt(t, j);
      }
    }
  }

  lemma {:induction false} FilterUnique(cs: seq<Node>, p: Node -> bool)
    requires UniqueSlugs(cs)
    ensures UniqueSlugs(Filter(cs, p))
  {
    if cs != [] {
      var h, t := cs[0], cs[1..];
      assert cs == [h] + t;
      UniqueSlugsCons(h, t);
      FilterUnique(t, p);
      FilterCons(h, t, p);
      if p(h) {
        forall y | y in Filter(t, p) ensures y in t {
          FilterMember(t, p, y);
        }
        UniqueSlugsCons(h, Filter(t, p));
      } else {
        assert [] + Filter(t, p) == Filter(t, p);
      }
    }
  }

  lemma UniqueSlugsAppend(a: seq<Node>, b: seq<Node>)
    requires UniqueSlugs(a) && UniqueSlugs(b)
    requires forall x, y | x in a && y in b && x.slug.Some? :: x.slug != y.slug
    ensures UniqueSlugs(a + b)
  {
    var s := a + b;
    forall i, j | 0 <= i < j < |s| && SlugAt(s, i).Some? ensures SlugAt(s, i) != SlugAt(s, j) {
      if j < |a| {
        assert SlugAt(s, i) == SlugAt(a, i) && SlugAt(s, j) == SlugAt(a, j);
      } else if i < |a| {
        assert s[i] == a[i] && s[j] == b[j - |a|];
      } else {
        assert SlugAt(s, i) == SlugAt(b, i - |a|) && SlugAt(s, j) == SlugAt(b, j - |a|);
      }
    }
  }

  /** With distinct slugs, removing every card with slug `a` cuts out the one at `k`. */
  lemma {:induction false} RemoveOnly(w: seq<Node>, a: string, k: nat)
    requires UniqueSlugs(w) && k < |w| && w[k].slug == Some(a)
    ensures Filter(w, Stays([a])) == w[..k] + w[k + 1..]
  {
    var h, t := w[0], w[1..];
    assert w == [h] + t;
    UniqueSlugsCons(h, t);
    FilterCons(h, t, Stays([a]));
    if k == 0 {
      forall i | 0 <= i < |t| ensures Stays([a])(t[i]) {
        assert t[i] in t;
      }
      FilterAllKept(t, Stays([a]));
    } else {
      assert t[k - 1] == w[k];
      RemoveOnly(t, a, k - 1);
      assert h.slug != Some(a) by {
        assert t[k - 1] in t;
      }
      assert w[..k] == [h] + t[..k - 1];
      assert w[k + 1..] == t[k..];
    }
  }

  /**
   * With distinct slugs, moving the card at `k` is cutting it out and
   * appending it: no child is added or lost and the slugs stay distinct.
   */
  lemma MoveAt(cs: seq<Node>, id: string, k: nat)
    requires UniqueSlugs(cs) && k < |cs| && cs[k].slug == Some(id)
    ensures MoveToEnd(cs, id) == cs[..k] + cs[k + 1..] + [cs[k]]
    ensures multiset(MoveToEnd(cs, id)) == multiset(cs)
    ensures UniqueSlugs(MoveToEnd(cs, id))
  {
    var n := CardFor(cs, id).value;
    SameSlugSameNode(cs, n, cs[k]);
    RemoveOnly(cs, id, k);
    assert cs == cs[..k] + [cs[k]] + cs[k + 1..];
    var w := Filter(cs, Stays([id]));
    FilterUnique(cs, Stays([id]));
    forall x, y | x in w && y in [n] && x.slug.Some? ensures x.slug != y.slug {
      FilterMember(cs, Stays([id]), x);
    }
    UniqueSlugsAppend(w, [n]);
  }

  /** With distinct slugs, the re-append pass only reorders the children. */
  lemma {:induction false} AppendAllPermutes(cs: seq<Node>, ids: seq<string>)
    requires UniqueSlugs(cs)
    ensures multiset(AppendAll(cs, ids)) == multiset(cs)
    ensures UniqueSlugs(AppendAll(cs, ids))
    decreases |ids|
  {
    if ids != [] {
      var r, a := ids[..|ids| - 1], ids[|ids| - 1];
      AppendAllPermutes(cs, r);
      var c := AppendAll(cs, r);
      if CardFor(c, a).Some? {
        var k :| 0 <= k < |c| && c[k] == CardFor(c, a).value;
        MoveAt(c, a, k);
      }
    }
  }

  lemma {:induction false} CardForAppend(a: seq<Node>, b: seq<Node>, id: string)
    ensures CardFor(a + b, id) == if CardFor(a, id).Some? then CardFor(a, id) else CardFor(b, id)
  {
    if a != [] {
      assert (a + b)[1..] == a[1..] + b;
      CardForAppend(a[1..], b, id);
    } else {
      assert a + b == b;
    }
  }

  /** Filtering that keeps every card with the slug finds the same card. */
  lemma {:induction false} CardForFilter(cs: seq<Node>, p: Node -> bool, id: string)
    requires forall n | n in cs && n.slug == Some(id) :: p(n)
    ensures CardFor(Filter(cs, p), id) == CardFor(cs, id)
  {
    if cs != [] {
      var h, t := cs[0], cs[1..];
      assert cs == [h] + t;
      CardForFilter(t, p, id);
      FilterCons(h, t, p);
      if p(h) {
        assert ([h] + Filter(t, p))[1..] == Filter(t, p);
      } else {
        assert [] + Filter(t, p) == Filter(t, p);
      }
    }
  }

  /** Every card listed by `CardsOf` is a child whose slug is one of the ids. */
  lemma {:induction false} CardsOfMembers(cs: seq<Node>, ids: seq<string>)
    ensures forall n | n in CardsOf(cs, ids) :: n in cs && Named(n, ids)
    decreases |ids|
  {
    if ids != [] {
      var r, a := ids[..|ids| - 1], ids[|ids| - 1];
      assert ids == r + [a];
      CardsOfMembers(cs, r);
    }
  }

  /** Among the listed cards, the card of an id is the one the children give it. */
  lemma {:induction false} CardForCardsOf(cs: seq<Node>, ids: seq<string>, id: string)
    requires NoDup(ids) && id in ids
    ensures CardFor(CardsOf(cs, ids), id) == CardFor(cs, id)
    decreases |ids|
  {
    var r, a := ids[..|ids| - 1], ids[|ids| - 1];
    assert ids == r + [a];
    NoDupSnoc(r, a);
    var last := match CardFor(cs, a) case Some(n) => [n] case None => [];
    CardForAppend(CardsOf(cs, r), last, id);
    CardsOfMembers(cs, r);
    if id == a {
      assert CardFor(CardsOf(cs, r), a).None?;
      if CardFor(cs, a).Some? {
        assert last == [CardFor(cs, a).value];
      }
    } else {
      CardForCardsOf(cs, r, id);
    }
  }

  /** `CardsOf` only looks at the card each id names. */
  lemma {:induction false} CardsOfSameCards(a: seq<Node>, b: seq<Node>, ids: seq<string>)
    requires forall id | id in ids :: CardFor(a, id) == CardFor(b, id)
    ensures CardsOf(a, ids) == CardsOf(b, ids)
    decreases |ids|
  {
    if ids != [] {
      var r := ids[..|ids| - 1];
      assert forall id | id in r :: id in ids;
      CardsOfSameCards(a, b, r);
    }
  }

  /** Read as slugs, the moved cards are the ids that have a card, in id order. */
  lemma {:induction false} CardsOfOrder(cs: seq<Node>, ids: seq<string>)
    ensures MapSeq(CardsOf(cs, ids), SlugText) == Filter(ids, HasCard(cs))
    decreases |ids|
  {
    if ids != [] {
      var r, a := ids[..|ids| - 1], ids[|ids| - 1];
      assert ids == r + [a];
      CardsOfOrder(cs, r);
      FilterAppend(r, [a], HasCard(cs));
      FilterCons(a, [], HasCard(cs));
      var last := match CardFor(cs, a) case Some(n) => [n] case None => [];
      var m1, m2 := MapSeq(CardsOf(cs, r), SlugText), MapSeq(last, SlugText);
      assert MapSeq(CardsOf(cs, r) + last, SlugText) == m1 + m2;
      assert [] + Filter([], HasCard(cs)) == [];
      assert [a] + Filter([], HasCard(cs)) == [a];
    }
  }

  lemma {:induction false} FilterStaysSnoc(cs: seq<Node>, r: seq<string>, a: string)
    ensures Filter(Filter(cs, Stays(r)), Stays([a])) == Filter(cs, Stays(r + [a]))
  {
    if cs != [] {
      var h, t := cs[0], cs[1..];
      assert cs == [h] + t;
      FilterStaysSnoc(t, r, a);
      FilterCons(h, t, Stays(r));
      FilterCons(h, t, Stays(r + [a]));
      if Stays(r)(h) {
        FilterCons(h, Filter(t, Stays(r)), Stays([a]));
      } else {
        assert [] + Filter(t, Stays(r)) == Filter(t, Stays(r));
      }
    }
  }

  /** The facts one step of `AppendAllShape` rests on, for a new id `a`. */
  lemma ShapeStepFacts(cs: seq<Node>, r: seq<string>, a: string)
    requires a !in r
    ensures var w, p := Filter(cs, Stays(r)), CardsOf(cs, r);
      && CardFor(w + p, a) == CardFor(cs, a)
      && Filter(p, Stays([a])) == p
      && Filter(w, Stays([a])) == Filter(cs, Stays(r + [a]))
      && CardsOf(cs, r + [a]) == p + match CardFor(cs, a) case Some(n) => [n] case None => []
  {
    var w, p := Filter(cs, Stays(r)), CardsOf(cs, r);
    CardsOfMembers(cs, r);
    CardForFilter(cs, Stays(r), a);
    CardForAppend(w, p, a);
    assert CardFor(p, a).None?;
    FilterStaysSnoc(cs, r, a);
    forall i | 0 <= i < |p| ensures Stays([a])(p[i]) {
      assert p[i] in p;
    }
    FilterAllKept(p, Stays([a]));
    assert (r + [a])[..|r + [a]| - 1] == r;
  }

  /** One step of `AppendAllShape`: moving the card of a new id `a`. */
  lemma ShapeStep(cs: seq<Node>, r: seq<string>, a: string)
    requires a !in r
    ensures MoveToEnd(Filter(cs, Stays(r)) + CardsOf(cs, r), a)
         == Filter(cs, Stays(r + [a])) + CardsOf(cs, r + [a])
  {
    var w, p := Filter(cs, Stays(r)), CardsOf(cs, r);
    ShapeStepFacts(cs, r, a);
    match CardFor(cs, a)
    case None =>
      forall i | 0 <= i < |w| ensures Stays([a])(w[i]) {
        FilterMember(cs, Stays(r), w[i]);
      }
      FilterAllKept(w, Stays([a]));
      assert p + [] == p;
    case Some(c) =>
      FilterAppend(w, p, Stays([a]));
  }

  /**
   * The re-append pass leaves the children it does not name where they were,
   * in their order, and ends the container with the named cards in id order.
   */
  lemma {:induction false} AppendAllShape(cs: seq<Node>, ids: seq<string>)
    requires NoDup(ids)
    ensures AppendAll(cs, ids) == Filter(cs, Stays(ids)) + CardsOf(cs, ids)
    decreases |ids|
  {
    if ids == [] {
      FilterAllKept(cs, Stays(ids));
    } else {
      var r, a := ids[..|ids| - 1], ids[|ids| - 1];
      assert ids == r + [a];
      NoDupSnoc(r, a);
      AppendAllShape(cs, r);
      ShapeStep(cs, r, a);
    }
  }

  lemma FlagAllKeepsSlugs(cs: seq<Node>, ids: seq<string>)
    ensures UniqueSlugs(cs) ==> UniqueSlugs(FlagAll(cs, ids))
    ensures forall id :: HasCard(FlagAll(cs, ids))(id) == HasCard(cs)(id)
  {
    var f := FlagAll(cs, ids);
    assert forall k | 0 <= k < |cs| :: SlugAt(f, k) == SlugAt(cs, k);
    forall id ensures HasCard(f)(id) == HasCard(cs)(id) {
      if CardFor(f, id).Some? {
        var k :| 0 <= k < |f| && f[k] == CardFor(f, id).value;
        assert cs[k] in cs;
      }
      if CardFor(cs, id).Some? {
        var k :| 0 <= k < |cs| && cs[k] == CardFor(cs, id).value;
        assert f[k] in f;
      }
    }
  }

  /** The children after one reconcile step are among the flagged children. */
  lemma ShapeMembers(h: seq<Node>, ids: seq<string>, n: Node)
    requires n in Filter(h, Stays(ids)) + CardsOf(h, ids)
    ensures n in h
  {
    if n in Filter(h, Stays(ids)) {
      FilterMember(h, Stays(ids), n);
    } else {
      CardsOfMembers(h, ids);
    }
  }

  /**
   * The reconcile step on the children: every card is hidden exactly when
   * its slug is not among the ids; the children that are not moved keep
   * their order at the front; the moved cards come last, in id order, with
   * ids that have no card skipped.
   */
  lemma ReconciledSpec(cs: seq<Node>, ids: seq<string>)
    requires NoDup(ids)
    ensures var r := Reconciled(cs, ids);
      && (forall n | n in r && n.slug.Some? :: n.hidden == (n.slug.value !in ids))
      && r == Filter(FlagAll(cs, ids), Stays(ids)) + CardsOf(FlagAll(cs, ids), ids)
      && MapSeq(CardsOf(FlagAll(cs, ids), ids), SlugText) == Filter(ids, HasCard(cs))
  {
    var f := FlagAll(cs, ids);
    FlagAllKeepsSlugs(cs, ids);
    AppendAllShape(f, ids);
    CardsOfOrder(f, ids);
    FilterSameOn(ids, HasCard(f), HasCard(cs));
    forall n | n in Reconciled(cs, ids) && n.slug.Some? ensures n.hidden == (n.slug.value !in ids) {
      ShapeMembers(f, ids, n);
      var k :| 0 <= k < |f| && f[k] == n;
    }
  }

  /** With distinct slugs, the reconcile step adds and loses no child. */
  lemma ReconciledPermutes(cs: seq<Node>, ids: seq<string>)
    requires UniqueSlugs(cs)
    ensures multiset(Reconciled(cs, ids)) == multiset(FlagAll(cs, ids))
    ensures UniqueSlugs(Reconciled(cs, ids))
  {
    FlagAllKeepsSlugs(cs, ids);
    AppendAllPermutes(FlagAll(cs, ids), ids);
  }

  /** The children after one reconcile step are already flagged for the same ids. */
  lemma ReflagFixed(h: seq<Node>, ids: seq<string>)
    requires forall n | n in h :: Flag(n, ids) == n
    ensures var x := Filter(h, Stays(ids)) + CardsOf(h, ids); FlagAll(x, ids) == x
  {
    var x := Filter(h, Stays(ids)) + CardsOf(h, ids);
    forall k | 0 <= k < |x| ensures Flag(x[k], ids) == x[k] {
      ShapeMembers(h, ids, x[k]);
    }
  }

  /** Each id names the same card after one reconcile step as before it. */
  lemma CardsAgain(h: seq<Node>, ids: seq<string>, id: string)
    requires NoDup(ids) && id in ids
    ensures CardFor(Filter(h, Stays(ids)) + CardsOf(h, ids), id) == CardFor(h, id)
  {
    var w, p := Filter(h, Stays(ids)), CardsOf(h, ids);
    CardForAppend(w, p, id);
    if CardFor(w, id).Some? {
      FilterMember(h, Stays(ids), CardFor(w, id).value);
    }
    CardForCardsOf(h, ids, id);
  }

  /** After one reconcile step, the children that stayed are exactly the ones that stay again. */
  lemma StayedStay(h: seq<Node>, ids: seq<string>)
    ensures var w, p := Filter(h, Stays(ids)), CardsOf(h, ids);
      Filter(w + p, Stays(ids)) == w
  {
    var w, p := Filter(h, Stays(ids)), CardsOf(h, ids);
    FilterAppend(w, p, Stays(ids));
    forall i | 0 <= i < |w| ensures Stays(ids)(w[i]) {
      FilterMember(h, Stays(ids), w[i]);
    }
    FilterAllKept(w, Stays(ids));
    CardsOfMembers(h, ids);
    forall i | 0 <= i < |p| ensures !Stays(ids)(p[i]) {
      assert p[i] in p;
    }
    FilterNoneKept(p, Stays(ids));
    assert w + [] == w;
  }

  /** One reconcile step leaves the children in the shape a second step keeps. */
  lemma ShapeFixed(h: seq<Node>, ids: seq<string>)
    requires NoDup(ids)
    ensures var x := Filter(h, Stays(ids)) + CardsOf(h, ids);
      Filter(x, Stays(ids)) + CardsOf(x, ids) == x
  {
    var x := Filter(h, Stays(ids)) + CardsOf(h, ids);
    StayedStay(h, ids);
    forall id | id in ids ensures CardFor(x, id) == CardFor(h, id) {
      CardsAgain(h, ids, id);
    }
    CardsOfSameCards(x, h, ids);
  }

  /** Running the reconcile step again with the same ids changes nothing. */
  lemma ReconciledIdempotent(cs: seq<Node>, ids: seq<string>)
    requires NoDup(ids)
    ensures Reconciled(Reconciled(cs, ids), ids) == Reconciled(cs, ids)
  {
    var h := FlagAll(cs, ids);
    AppendAllShape(h, ids);
    forall n | n in h ensures Flag(n, ids) == n {
      var j :| 0 <= j < |h| && h[j] == n;
    }
    ReflagFixed(h, ids);
    var x := Filter(h, Stays(ids)) + CardsOf(h, ids);
    AppendAllShape(x, ids);
    ShapeFixed(h, ids);
  }

  // ---------------------------------------------------------------------
  // The reconcile effect

  lemma AppendAllPrefix(cs: seq<Node>, ids: seq<string>, j: nat)
    requires j < |ids|
    ensures AppendAll(cs, ids[..j + 1]) == MoveToEnd(AppendAll(cs, ids[..j]), ids[j])
  {
    assert ids[..j + 1][..j] == ids[..j];
  }

  /** The hide pass: `el.hidden = !show.has(slug)` for every card, in place. */
  method HideCards(container: Container, ids: seq<string>)
    modifies container
    ensures container.children == FlagAll(old(container.children), ids)
  {
    ghost var before := container.children;
    var i := 0;
    while i < |container.children|
      invariant |container.children| == |before| && 0 <= i <= |before|
      invariant forall k | 0 <= k < i :: container.children[k] == Flag(before[k], ids)
      invariant forall k | i <= k < |before| :: container.children[k] == before[k]
    {
      var el := container.children[i];
      if el.slug.Some? {
        container.children := container.children[i := el.(hidden := el.slug.value !in ids)];
      }
      i := i + 1;
    }
  }

  /** The re-append pass: `container.appendChild(byId.get(id))` for every id with a card. */
  method AppendCards(container: Container, ids: seq<string>)
    requires UniqueSlugs(container.children)
    modifies container
    ensures container.children == AppendAll(old(container.children), ids)
  {
    ghost var before := container.children;
    for j := 0 to |ids|
      invariant container.children == AppendAll(before, ids[..j])
      invariant UniqueSlugs(container.children)
    {
      var at := IndexOf(container.children, ids[j]);
      AppendAllPrefix(before, ids, j);
      if at.Some? {
        var cs := container.children;
        MoveAt(cs, ids[j], at.value);
        container.children := cs[..at.value] + cs[at.value + 1..] + [cs[at.value]];
      }
    }
    assert ids[..|ids|] == ids;
  }

  /**
   * The DOM effect of both listing pages, given the elements the page's
   * selectors found: nothing at all when there is no container; otherwise
   * the hide pass, the re-append pass, the placeholder and the counter.
   */
  method Reconcile(ids: seq<string>, total: nat, container: Container?, empty: Placeholder?, counter: Counter?)
    requires container != null ==> UniqueSlugs(container.children)
    modifies container, empty, counter
    ensures container == null && empty != null ==> empty.hidden == old(empty.hidden)
    ensures container == null && counter != null ==> counter.text == old(counter.text)
    ensures container != null ==> container.children == Reconciled(old(container.children), ids)
    ensures container != null && empty != null ==> empty.hidden == (|ids| > 0)
    ensures container != null && counter != null ==> counter.text == CounterText(|ids|, total)
  {
    if container == null {
      return;
    }
    FlagAllKeepsSlugs(container.children, ids);
    HideCards(container, ids);
    AppendCards(container, ids);
    if empty != null {
      empty.hidden := |ids| > 0;
    }
    if counter != null {
      counter.text := Decimal(|ids|) + " of " + Decimal(total);
    }
  }
}
