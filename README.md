# Listing filters and Atom feed of a personal research site

This project models, in Dafny, the client-side logic of the site's two listing pages (writing and projects) and the assembly of its Atom feed.

- **Writing listing (`WritingFilter`).** The filter state is a free-text query, a set of selected keyword tags and a sort key (`newest` or `relevance`). A resolver turns the state into the ids to show. For a non-blank trimmed query it:
  - takes the search index's ranking;
  - keeps only ids whose item has every selected tag;
  - sorts the result newest first with a stable sort, unless the sort key is `relevance`.

  For a blank query it sorts every item newest first and then applies the tag filter.

  A reconciler then writes the result into the page:
  - it hides every card whose slug is not shown;
  - it moves the shown cards to the end of their container, in the order of the ids;
  - it hides or shows the "no results" element;
  - it writes `"<shown> of <total>"` into the counter.
- **Projects listing (`ProjectsFilter`).**
  - A newest-first base order of all items is computed once. An AND filter over the selected tags shows a subsequence of it.
  - The same reconciler runs on a container found through a chain of three selectors.
  - "Clear" only empties the selection.
- **Atom feed (`atom.xml.js`).**
  - An escaper for the five entities XML 1.0 predefines (section 4.6 of XML 1.0, Fifth Edition).
  - The project and post entries, merged and sorted newest first.
  - The fallbacks for summary, author and site origin. The entries are built with the corrected author names and origin (see "Findings"); the code as written is modelled beside them.
  - The feed's `updated` date, taken from the newest entry (section 4.2.15 of RFC 4287).
  - The per-entry `category` (section 4.2.2 of RFC 4287) and `author` markup.

Modules:

- `Wrappers` (`wrappers.dfy`): `Option`.
- `Seqs` (`seqs.dfy`): `Filter`, `MapSeq`, and the stable descending insertion sort `SortDesc` that models `Array.prototype.sort` with a `(a, b) => key(b) - key(a)` comparator. It carries lemmas on filtering, sortedness, stability and duplicates.
- `Items` (`items.dfy`): the listing item (`id`, optional `keywords`, `date`) and lookup by id two ways: `Find`, the first item with the id as `items.find` returns it, and `FindLast`, the last one, as `new Map(items.map(i => [i.id, i])).get` returns it since later entries overwrite earlier ones. `KeywordsInMap`, `HasAllTagsInMap` and `DateInMap` read through `FindLast`; with distinct ids both lookups agree. It also holds:
  - the tag catalog: the keyword union, de-duplicated and sorted with the default string order;
  - tag toggling.
- `Dom` (`dom.dfy`): the page parts the listings touch. Cards are values with an optional `data-slug` and a `hidden` flag. A container is a class whose `children` sequence is updated in place. There are classes for the empty-state element and the counter, and a `Page` maps selectors to them. The module holds:
  - the reconcile specification (`FlagAll`, `AppendAll`, `Reconciled`) with its lemmas;
  - the imperative passes `HideCards`, `AppendCards` and `Reconcile`.
- `Writing` (`writing.dfy`): JavaScript's `trim`, the resolver `Visible`, and the `WritingFilter` class that holds the state and its handlers.
- `Projects` (`projects.dfy`): `BaseOrder`, the tag filter `Visible`, and the `ProjectsFilter` class with its selector fallback.
- `Atom` (`atom.dfy`): `Esc` with a decoder and safety lemmas, the entry records, the merged list, `updated`, and the category and author markup with a reader that parses it back.

The page code's side effects are modelled as explicit calls on the component objects, in this order:

1. a handler (`ToggleTag`, `ClearFilters`, `SetQuery`, `SetSort`);
2. `Resolve`;
3. `ApplyToPage`.

## Model

| member | source | states |
|---|---|---|
| `Writing.Visible` | src/components/WritingFilter.jsx:40-69 | the resolver itself, with no contract of its own; its properties are the rows `Writing.VisibleContents`, `VisibleMembers`, `BlankQueryOrder`, `RelevanceKeepsRanking`, `NewestWithQuery`, `VisibleNoDup` and `ClearedShowsAll` |
| `Writing.Trim` | src/components/WritingFilter.jsx:42 | `query.trim()`, with no contract of its own; its properties are `Writing.TrimSpec` and `Writing.TrimIdempotent` |
| `Projects.BaseOrder` | src/components/ProjectsFilter.jsx:11-14 | `baseOrder`, with no contract of its own; its properties are `Projects.BaseOrderByIds` and `Projects.BaseOrderSpec` |
| `Projects.Visible` | src/components/ProjectsFilter.jsx:35-45 | the tag-filter effect's result, with no contract of its own; its properties are `Projects.VisibleInBaseOrder`, `VisibleSpec`, `ClearedShowsBaseOrder`, `MoreTagsNarrow`, `RepeatedIdReadsLastItem` and `AgreesWithBlankWritingQuery` |
| `Dom.MoveToEnd` | src/components/WritingFilter.jsx:81 | one `appendChild` call, with no contract of its own; its properties are `Dom.MoveAt` and `Dom.ShapeStep` |
| `Dom.AppendAll` | src/components/WritingFilter.jsx:81 | the re-append pass, with no contract of its own; its properties are `Dom.AppendAllPermutes` and `Dom.AppendAllShape`, and `Dom.AppendCards` computes it in place |
| `Dom.Reconciled` | src/components/WritingFilter.jsx:75-81 | the hide pass then the re-append pass, with no contract of its own; its properties are `Dom.ReconciledSpec`, `ReconciledPermutes` and `ReconciledIdempotent` |
| `Atom.Esc` | src/pages/atom.xml.js:12-18 | `esc`, the five chained replacements, with no contract of its own; its properties are `Atom.EscIsOnePass`, `EscAppend`, `EscSafe`, `UnescapeEsc` and `EscIdentity` |
| `Atom.AllEntries` | src/pages/atom.xml.js:20-39 | the merged, sorted entry list, with no contract of its own; its properties are `Atom.AllEntriesSpec` and `Atom.UpdatedIsNewest` |
| `Atom.Updated` | src/pages/atom.xml.js:41 | the `updated` date, with no contract of its own; its property is `Atom.UpdatedIsNewest` |
| `Atom.Categories` | src/pages/atom.xml.js:46-48 | the category markup of one entry, with no contract of its own; its property is `Atom.CategoriesRoundTrip` |
| `Atom.Authors` | src/pages/atom.xml.js:49-52 | the author markup of one entry, with no contract of its own; its properties are `Atom.AuthorsRoundTrip` and `Atom.PostAuthors` |
| `Dom.RepeatedSlugDropsCard` | src/components/WritingFilter.jsx:81 | with two cards sharing a slug, the reconcile specification's move keeps only the first of them, which is why `Dom.Reconcile` requires distinct slugs |
| `Seqs.SortDesc` | src/components/WritingFilter.jsx:54-58 | the stable newest-first `sort` with a `key(b) - key(a)` comparator, with no contract of its own; the same sort serves `src/components/ProjectsFilter.jsx:12` and `src/pages/atom.xml.js:39`; its properties are `Seqs.SortDescStable` and `Seqs.FilterSortDesc` |
| `Seqs.SortDescStable` | src/components/WritingFilter.jsx:54 | the date sort yields a permutation of its input, newest first, and entries with the same date keep their input order (stability of `Array.prototype.sort`) |
| `Seqs.FilterSortDesc` | src/components/WritingFilter.jsx:44-55 | filtering after the stable sort gives the same list as sorting after the filter |
| `Seqs.FilterNoDup` | src/components/ProjectsFilter.jsx:39-43 | `filter` over a list without duplicates leaves none |
| `Seqs.FilterSorted` | src/components/ProjectsFilter.jsx:39-43 | `filter` keeps a newest-first list newest first |
| `Items.HasAllTags` | src/components/WritingFilter.jsx:45-50 | the tag test over `items.find`, with no contract of its own; the same test is at lines 60-65; its properties are `Writing.VisibleMembers` and `Items.InMapAgrees` |
| `Items.HasAllTagsInMap` | src/components/ProjectsFilter.jsx:38-43 | the tag test over `byId.get`, with no contract of its own; its properties are `Projects.VisibleSpec`, `Projects.RepeatedIdReadsLastItem` and `Items.InMapAgrees` |
| `Items.DateOf` | src/components/WritingFilter.jsx:58 | the date read through `items.find`, with no contract of its own; its properties are `Items.DateOfOwnId` and `Writing.BlankQueryOrder` |
| `Items.DateInMap` | src/components/WritingFilter.jsx:53-54 | the date read through `m.get`, with no contract of its own; its properties are `Items.InMapAgrees` and `Writing.NewestWithQuery` |
| `Items.Find` | src/components/WritingFilter.jsx:46 | `items.find` by id returns the first item of the list with that id, and returns nothing exactly when no item has that id |
| `Items.FindLast` | src/components/ProjectsFilter.jsx:38-40 | `new Map(items.map(i => [i.id, i])).get(id)` returns the last item of the list with that id (later entries overwrite earlier ones), and nothing exactly when no item has that id |
| `Items.MapAgreesWithFind` | src/components/ProjectsFilter.jsx:38-40 | with distinct ids, the `Map` lookup and `find` return the same item |
| `Items.InMapAgrees` | src/components/WritingFilter.jsx:53-54 | with distinct ids, keywords, the AND tag test and dates read through the `Map` agree with those read through `find` |
| `Items.FindOwnId` | src/components/WritingFilter.jsx:58 | with distinct ids, `find` on an item's own id returns that item |
| `Items.DateOfOwnId` | src/components/WritingFilter.jsx:58 | with distinct ids, the date looked up through an item's id is that item's date |
| `Items.SortedSetSpec` | src/components/WritingFilter.jsx:22-24 | the set of collected keywords, turned into an array and sorted, is strictly ascending and holds exactly the collected keywords |
| `Items.AllKeywordsMembers` | src/components/WritingFilter.jsx:23 | a string is collected exactly when some item's keywords contain it, with missing keywords read as none |
| `Items.TagCatalog` | src/components/WritingFilter.jsx:21-25 | the tag list is strictly ascending (so it has no duplicates) and holds exactly the keywords of the items |
| `Items.TagCatalogSpec` | src/components/WritingFilter.jsx:21-25 | a string is a tag chip iff some item's keywords contain it; the chips are strictly ascending |
| `Items.Toggled` | src/components/WritingFilter.jsx:33-37 | toggling flips the membership of the clicked tag and leaves every other tag's membership unchanged |
| `Items.ToggledTwice` | src/components/WritingFilter.jsx:33-37 | toggling the same tag twice restores the selection |
| `Dom.Locate` | src/components/ProjectsFilter.jsx:49-51 | the chain of `querySelector` calls joined by JavaScript's or finds the element of the first selector that matches, and finds nothing exactly when no selector matches |
| `Dom.CounterText` | src/components/WritingFilter.jsx:87 | the counter text `"<shown> of <total>"`, with no contract of its own; its properties are `Dom.DecimalRoundTrip` and `Dom.CounterRoundTrip` |
| `Dom.DecimalRoundTrip` | src/components/WritingFilter.jsx:87 | the decimal text of a count reads back as that count |
| `Dom.CounterRoundTrip` | src/components/WritingFilter.jsx:87 | the counter text `"<shown> of <total>"` determines both numbers |
| `Dom.FlagAll` | src/components/WritingFilter.jsx:78-79 | the hide pass keeps the cards in place and sets each slugged card's `hidden` iff its slug is not shown; cards without a slug are untouched |
| `Dom.CardFor` | src/components/WritingFilter.jsx:76 | the card found for a slug is a child with that slug; nothing is found only when no child has that slug |
| `Dom.IndexOf` | src/components/WritingFilter.jsx:81 | the position found for an id holds a card with that slug; none is found only when there is no such card |
| `Dom.MoveAt` | src/components/WritingFilter.jsx:81 | `appendChild` of a child with a distinct slug removes it from its place and puts it last: same cards, slugs still distinct |
| `Dom.AppendAllPermutes` | src/components/WritingFilter.jsx:81 | the append pass only reorders the children, and slugs stay distinct |
| `Dom.AppendAllShape` | src/components/WritingFilter.jsx:81 | after the append pass (ids without repeats), the other children stay first in their old order, then come the cards of the shown ids in id order |
| `Dom.CardsOfOrder` | src/components/WritingFilter.jsx:81 | the moved cards carry exactly the shown ids that have a card, in id order; ids without a card are skipped |
| `Dom.ReconciledSpec` | src/components/WritingFilter.jsx:75-81 | for ids without repeats, after both passes every slugged card is hidden iff its slug is not shown; the cards not moved (no slug, or a slug not shown) come first in their old order, then the shown cards in id order, skipping ids with no card |
| `Dom.ReconciledPermutes` | src/components/WritingFilter.jsx:75-81 | reconciling changes only flags and order: the children are a permutation of the flagged children, slugs still distinct |
| `Dom.ReconciledIdempotent` | src/components/WritingFilter.jsx:75-81 | for ids without repeats, reconciling again with the same ids changes neither order nor flags |
| `Dom.HideCards` | src/components/WritingFilter.jsx:79 | the `forEach` loop over the cards leaves the container's children equal to the hide pass of the old children |
| `Dom.AppendCards` | src/components/WritingFilter.jsx:81 | the `forEach` loop of `appendChild` calls, done in place, leaves the children equal to the append pass of the old children |
| `Dom.Reconcile` | src/components/WritingFilter.jsx:71-88 | with no container nothing changes; otherwise the children are reconciled, the empty element is hidden iff some id is shown, and the counter reads `"<shown> of <total>"` |
| `Writing.TrimStart` | src/components/WritingFilter.jsx:42 | the leading run of white space is removed and nothing else |
| `Writing.TrimEnd` | src/components/WritingFilter.jsx:42 | the trailing run of white space is removed and nothing else |
| `Writing.TrimSpec` | src/components/WritingFilter.jsx:42 | `trim` returns a slice of its input that neither begins nor ends with white space, and is empty iff the input is all white space |
| `Writing.TrimIdempotent` | src/components/WritingFilter.jsx:42-43 | trimming the trimmed query changes nothing |
| `Writing.NoTagsKeepAll` | src/components/WritingFilter.jsx:59-66 | with no tag selected, no id is dropped by the tag filter |
| `Writing.VisibleContents` | src/components/WritingFilter.jsx:40-69 | the ids shown are, counted with multiplicity, the ids of the pool (ranking or all items) that carry every selected tag |
| `Writing.VisibleMembers` | src/components/WritingFilter.jsx:44-50 | AND semantics: an id is shown iff it is in the pool and its item carries every selected tag |
| `Writing.BlankQueryOrder` | src/components/WritingFilter.jsx:56-66 | for a blank or white-space query, the ids shown are newest first, same-date ids keep item order, and the result is the same whatever the sort key (`relevance` falls back to newest) |
| `Writing.RelevanceKeepsRanking` | src/components/WritingFilter.jsx:43-51 | for a query and `relevance`, the result is the search ranking with the ids lacking a selected tag removed, in ranking order |
| `Writing.NewestWithQuery` | src/components/WritingFilter.jsx:52-55 | for a query and any other sort key, the result is newest first by the dates read through the `Map` (last item per id), and same-date ids keep ranking order |
| `Writing.VisibleNoDup` | src/components/WritingFilter.jsx:40-69 | with distinct item ids and a ranking without repeats, no id is shown twice |
| `Writing.ClearedShowsAll` | src/components/WritingFilter.jsx:38 | after "Clear", every item id is shown as often as it occurs, newest first; with distinct ids, no id is shown twice |
| `Writing.WritingFilter.constructor` | src/components/WritingFilter.jsx:28-31 | initial state: empty query, no tags, `newest`, every item id shown in item order |
| `Writing.WritingFilter.AllTags` | src/components/WritingFilter.jsx:21-25 | the tag chips are strictly ascending and are exactly the items' keywords |
| `Writing.WritingFilter.ToggleTag` | src/components/WritingFilter.jsx:33-37 | the selection becomes the toggled selection; query, sort and shown ids are unchanged |
| `Writing.WritingFilter.ClearFilters` | src/components/WritingFilter.jsx:38 | query `""`, no tags and sort `newest`, whatever the previous state |
| `Writing.WritingFilter.SetQuery` | src/components/WritingFilter.jsx:109 | the query is stored as typed, untrimmed; nothing else changes |
| `Writing.WritingFilter.SetSort` | src/components/WritingFilter.jsx:112 | the sort key is stored; nothing else changes |
| `Writing.WritingFilter.Resolve` | src/components/WritingFilter.jsx:40-69 | the shown ids become the resolver's result for the current state, which is left unchanged |
| `Writing.WritingFilter.ApplyToPage` | src/components/WritingFilter.jsx:71-88 | the reconcile step on the container `listSelector` finds, with the page's empty element and counter |
| `Projects.BaseOrderByIds` | src/components/ProjectsFilter.jsx:11-14 | sorting items and then taking their ids equals sorting the ids by their items' dates |
| `Projects.BaseOrderSpec` | src/components/ProjectsFilter.jsx:10-14 | the base order is a permutation of all item ids without repeats, newest first, with same-date ids in collection order |
| `Projects.VisibleInBaseOrder` | src/components/ProjectsFilter.jsx:35-45 | whatever the selection, the ids shown are the base order with ids lacking a selected tag removed; with no tags it is the base order itself |
| `Projects.VisibleSpec` | src/components/ProjectsFilter.jsx:37-44 | AND semantics, with distinct ids: an id is shown iff it is an item id whose item (read through the `Map`) has every selected tag; no repeats, newest first |
| `Projects.RepeatedIdReadsLastItem` | src/components/ProjectsFilter.jsx:38-42 | with a repeated id, the tag test reads the last item with that id: two items `a` (the newer without tag `x`, the older with it) show `["a", "a"]` for the selection `{x}` |
| `Projects.ClearedShowsBaseOrder` | src/components/ProjectsFilter.jsx:32-36 | with the selection cleared, the shown ids are the base order: every item id once, newest first |
| `Projects.MoreTagsNarrow` | src/components/ProjectsFilter.jsx:37-44 | selecting more tags only removes ids, keeping the order |
| `Projects.AgreesWithBlankWritingQuery` | src/components/ProjectsFilter.jsx:35-45 | with distinct ids, the projects result equals the writing resolver's result for a blank query and the same tags |
| `Projects.ProjectsFilter.constructor` | src/components/ProjectsFilter.jsx:11-25 | the base order is computed once, nothing is selected, and the base order is shown |
| `Projects.ProjectsFilter.AllTags` | src/components/ProjectsFilter.jsx:17-21 | the tag chips are strictly ascending and are exactly the items' keywords |
| `Projects.ProjectsFilter.ToggleTag` | src/components/ProjectsFilter.jsx:27-31 | the selection becomes the toggled selection; the shown ids are unchanged |
| `Projects.ProjectsFilter.ClearFilters` | src/components/ProjectsFilter.jsx:32 | only the selection is emptied; this page has no query or sort to reset |
| `Projects.ProjectsFilter.Resolve` | src/components/ProjectsFilter.jsx:35-45 | the shown ids become the base order with the AND tag filter applied (the base order itself when nothing is selected) |
| `Projects.ProjectsFilter.ContainerOn` | src/components/ProjectsFilter.jsx:49-51 | the container is `listSelector`'s, else `.projects-grid[data-list="projects"]`'s, else `.projects-grid`'s, else none |
| `Projects.ProjectsFilter.ApplyToPage` | src/components/ProjectsFilter.jsx:48-71 | with no container found the step changes nothing; otherwise the cards are reconciled, and the empty element and counter are set as on the writing page |
| `Atom.ReplaceAllAppend` | src/pages/atom.xml.js:14 | a global one-character replace works piece by piece over a concatenation |
| `Atom.EscIsOnePass` | src/pages/atom.xml.js:12-18 | the five chained replacements equal one left-to-right pass that maps each special character to its entity and passes every other character through in order |
| `Atom.EscAppend` | src/pages/atom.xml.js:12-18 | escaping a concatenation is concatenating the escapes |
| `Atom.EscSafe` | src/pages/atom.xml.js:12-18 | the escaped text holds no `<`, `>`, `"` or `'`, and each `&` in it begins one of the five entities |
| `Atom.UnescapeEsc` | src/pages/atom.xml.js:14-18 | since `&` is replaced first, nothing is escaped twice, and decoding the five entities gives back the input |
| `Atom.EscIdentity` | src/pages/atom.xml.js:12-18 | the escaper leaves a text without special characters as it is |
| `Atom.OrElse` | src/pages/atom.xml.js:33 | JavaScript's `a or b` on an optional string: a present, non-empty `a`, else `b` |
| `Atom.ProjectSummary` | src/pages/atom.xml.js:24 | a project's summary is `tldr` if non-empty, else `abstract` if non-empty, else `""` |
| `Atom.PostEntry` | src/pages/atom.xml.js:30-38 | a post entry has kind `writing`, the default author alone, and the summary, or `""` when it is missing or empty |
| `Atom.ProjectEntry` | src/pages/atom.xml.js:21-29 | a project entry has kind `project`, the project's title, date and keywords, the summary `tldr`, then `abstract`, then `""`, one author name per author in order, and the URL under `/projects/` |
| `Atom.ProjectAuthorsAsWritten` | src/pages/atom.xml.js:27 | `authors.map(String)` as written, with no contract of its own; its properties are `Atom.AuthorRecordLosesName` and `Atom.AuthorsAsWrittenAgree` |
| `Atom.AuthorRecordLosesName` | src/pages/atom.xml.js:27 | as written, an author given as a record becomes `[object Object]`, not its name |
| `Atom.ProjectAuthors` | src/pages/atom.xml.js:27 | the project's author names, one per author in order, whichever form each author takes |
| `Atom.AuthorsAsWrittenAgree` | src/pages/atom.xml.js:27 | the authors as written agree with the names iff every author is a plain name (or a record literally named `[object Object]`) |
| `Atom.OriginAsWritten` | src/pages/atom.xml.js:10 | the origin as written: `site.toString()`, else the default origin,, with no contract of its own; its property is `Atom.OriginDoubleSlash` |
| `Atom.OriginDoubleSlash` | src/pages/atom.xml.js:10 | as written, a site URL printed with its closing slash gives project URLs with `//projects/` |
| `Atom.Origin` | src/pages/atom.xml.js:10 | the origin used for URLs never ends in a slash |
| `Atom.OriginSlashInsensitive` | src/pages/atom.xml.js:10-35 | the site with or without its closing slash gives the same origin, and the default origin is used as is |
| `Atom.FeedEntries` | src/pages/atom.xml.js:10-39 | the feed's entry list on the corrected origin, with no contract of its own; its properties are `Atom.AllEntriesSpec` and `Atom.OriginSlashInsensitive` |
| `Atom.EntryXml` | src/pages/atom.xml.js:54-65 | one `<entry>` element, with no contract of its own; only its author and category parts are stated, by `Atom.AuthorsRoundTrip` and `Atom.CategoriesRoundTrip`, as "Left out" says |
| `Atom.EntriesXml` | src/pages/atom.xml.js:44-67 | the entries' text joined with nothing between, with no contract of its own; its properties are `Atom.EntriesXmlAppend` and `Atom.EntriesXmlSingle` |
| `Atom.EntriesXmlAppend` | src/pages/atom.xml.js:44-67 | the text of a concatenation of entry lists is the concatenation of their texts |
| `Atom.EntriesXmlSingle` | src/pages/atom.xml.js:44-67 | a single entry's list text is exactly that entry's element |
| `Atom.ProjectEntriesKind` | src/pages/atom.xml.js:21-29 | one entry per project, each of kind `project` |
| `Atom.PostEntriesKind` | src/pages/atom.xml.js:30-38 | one entry per post, none of kind `project` |
| `Atom.AllEntriesSpec` | src/pages/atom.xml.js:20-39 | the merged list has one entry per project and per post, and as many project entries as projects; it is a permutation of projects-then-posts, newest first, and same-date entries keep that order |
| `Atom.UpdatedIsNewest` | src/pages/atom.xml.js:41 | `updated` is the date of an entry that is at least as new as every entry, or the current time when there are none |
| `Atom.ElementsRoundTrip` | src/pages/atom.xml.js:47 | a run of `open + esc(x) + close` elements, one per text, reads back as the texts in order |
| `Atom.CategoriesRoundTrip` | src/pages/atom.xml.js:46-48 | the categories read back as the keywords in order followed by exactly one `type:<kind>` |
| `Atom.AuthorsRoundTrip` | src/pages/atom.xml.js:49-52 | the author elements read back as the entry's names in order, or as the default author alone when there are none |
| `Atom.PostAuthors` | src/pages/atom.xml.js:36 | a post's author markup always names the default author, and only that author |

## Left out

- Full-text search (MiniSearch indexing, prefix and fuzzy matching, ranking) is a foreign library. `mini.search` is the function parameter `search: string -> seq<string>`, assumed to return ids of the items the index was built from. Where a lemma needs it (`Writing.VisibleNoDup`), the ranking is assumed to have no repeats.
- There are no impact-based sorts (citations, stars). The sort selector offers only `newest` and `relevance`, and the projects page has no sort control. Any sort key other than `relevance` sorts by date, as the code does.
- Not modelled: React's scheduling (`useState` batching, `useMemo` and `useEffect` dependency tracking) and the `open` toggle of the filter panel. The pipeline is a sequence of explicit calls: a handler, then `Resolve`, then `ApplyToPage`.
- The JSX markup and buttons are presentational. Only the `onChange` handlers for the query and sort are modelled, as `SetQuery` and `SetSort`.
- Selector matching is a lookup in a map from selector to element. `querySelectorAll('[data-slug]')` is read as the container's direct children.
- Cards are values, so element identity and aliasing between containers are not modelled.
- `Dom.Reconcile` requires that the children's slugs are distinct:
  - with repeated slugs, the source's `Map` keeps the last card per slug and moves only that one;
  - the reconcile specification `Dom.MoveToEnd` removes every card with that slug and appends only the first one, so with repeated slugs cards are dropped;
  - the two agree when slugs are distinct, which is what `Dom.Reconcile` requires.
- Item ids are assumed distinct in the lemmas about order and repeats. The lookups themselves follow the code for repeated ids too: `items.find` is `Items.Find` (first match), and the `Map` from id to item is `Items.FindLast` (last match), used by the projects tag filter and by the writing resolver's date sort for a non-blank query.
- Atom.ProjectEntry: builds the author list with the corrected `Atom.ProjectAuthors`, so an author record gives its name; the code as written gives `[object Object]` (`Atom.ProjectAuthorsAsWritten`, see "Findings").
- Atom.FeedEntries: builds entry URLs on the corrected `Atom.Origin`, without the closing slash of the site URL; the code as written keeps it and emits `//projects/` and `//writing/` (`Atom.OriginAsWritten`, see "Findings").
- Dates are integer timestamps. `new Date(...)` parsing, invalid dates (`NaN` in the comparator) and `toISOString` are not modelled; the feed's ISO rendering is the function parameter `iso`. `Date.now()` is the parameter `now` of `Atom.Updated`.
- `Items.SortedSetSpec`: the default `sort()` compares UTF-16 code units; the model compares characters as code points. The two orders differ only for characters outside the Basic Multilingual Plane.
- `esc`'s default argument (`s = ''`) and `String(s)` on non-strings are not modelled; `Atom.Esc` takes a string.
- The feed document around the entries (lines 69-78 of `src/pages/atom.xml.js`), the `Response` object and `getCollection` are I/O and fixed text. `Atom.EntryXml` renders one entry's text, but no property is proved about the full entry text beyond its category and author markup; of `Atom.EntriesXml` only the join is stated.
- `src/pages/rss.xml.js` and `src/pages/writing/rss.xml.js` wrap a library that is not part of this model. `src/content/config.ts` is used only for the shape of projects, posts and authors.
- `Items.DateOf` and `Items.DateInMap` return 0 for an id with no item, where the source would throw (`m.get(B).date` in the query-branch sort of `src/components/WritingFilter.jsx:54` reads a property of `undefined`). `search` is assumed to return item ids, since the search index is built from the items; for an id outside the items the model sorts it as date 0 instead of failing. The blank-query sort only looks up item ids.

## Findings

| source | as written | input that shows it | evidently intended | confidence | as-written member | corrected member |
|---|---|---|---|---|---|---|
| src/pages/atom.xml.js:27 | the authors are mapped through `String`, which stringifies each author, but the project schema (src/content/config.ts:3-11) also allows `{ name, url, highlight, equal }` records | a project whose author is `{ name: "Ada Lovelace", highlight: true }` gets `<name>[object Object]</name>` | the author's `name` for records, the string itself otherwise | medium, not executed | `Atom.AuthorRecordLosesName` (on `Atom.ProjectAuthorsAsWritten`) | `Atom.ProjectAuthors`, with `Atom.AuthorsAsWrittenAgree` |
| src/pages/atom.xml.js:10 | `origin` is `site.toString()`, and a URL's text form for a bare host ends in `/`; lines 26 and 35 then add another `/` | `site` = `https://logotechnologia.com/` gives `https://logotechnologia.com//projects/<slug>/` | origin without its closing slash: `https://logotechnologia.com/projects/<slug>/` | medium, not executed | `Atom.OriginDoubleSlash` (on `Atom.OriginAsWritten`) | `Atom.Origin`, with `Atom.OriginSlashInsensitive` |
