/**
 * The Atom feed: the XML escaper for the five entities XML 1.0 predefines
 * (section 4.6 of XML 1.0, Fifth Edition), the merged newest-first entry
 * list of projects and posts, the feed's `updated` date (section 4.2.15 of
 * RFC 4287), and the per-entry category (section 4.2.2 of RFC 4287) and
 * author markup.
 *
 * Dates are timestamps; rendering one as ISO 8601 text is a parameter
 * `iso`, and the current time is a parameter `now`.
 */
module Atom {
  import opened Wrappers
  import opened Seqs

  // ---------------------------------------------------------------------
  // The escaper

  /** `s.replace(/c/g, rep)` for a one-character pattern. */
  function ReplaceAll(s: string, c: char, rep: string): string {
    if s == [] then [] else (if s[0] == c then rep else [s[0]]) + ReplaceAll(s[1..], c, rep)
  }

  /** `esc`: five global replacements, `&` first. */
  function Esc(s: string): string {
    ReplaceAll(ReplaceAll(ReplaceAll(ReplaceAll(ReplaceAll(
      s, '&', "&amp;"), '<', "&lt;"), '>', "&gt;"), '"', "&quot;"), '\'', "&apos;")
  }

  /** What a single character becomes in the escaped text. */
  function EscChar(c: char): string {
    if c == '&' then "&amp;"
    else if c == '<' then "&lt;"
    else if c == '>' then "&gt;"
    else if c == '"' then "&quot;"
    else if c == '\'' then "&apos;"
    else [c]
  }

  /** Escaping character by character, in one pass. */
  function EscOnePass(s: string): string {
    if s == [] then [] else EscChar(s[0]) + EscOnePass(s[1..])
  }

  predicate Special(c: char) {
    c == '&' || c == '<' || c == '>' || c == '"' || c == '\''
  }

  lemma {:induction false} ReplaceAllAppend(a: string, b: string, c: char, rep: string)
    ensures ReplaceAll(a + b, c, rep) == ReplaceAll(a, c, rep) + ReplaceAll(b, c, rep)
  {
    if a == [] {
      assert a + b == b;
    } else {
      assert (a + b)[0] == a[0] && (a + b)[1..] == a[1..] + b;
      ReplaceAllAppend(a[1..], b, c, rep);
    }
  }

  lemma {:induction false} ReplaceAllAbsent(s: string, c: char, rep: string)
    requires c !in s
    ensures ReplaceAll(s, c, rep) == s
  {
    if s != [] {
      assert s[0] in s;
      assert forall x | x in s[1..] :: x in s;
      ReplaceAllAbsent(s[1..], c, rep);
    }
  }

  lemma ReplaceAllOne(x: char, c: char, rep: string)
    ensures ReplaceAll([x], c, rep) == if x == c then rep else [x]
  {
    assert [x][1..] == [];
  }

  /** A character that is none of the five passes through all of them. */
  lemma EscOfPlain(x: char)
    requires !Special(x)
    ensures Esc([x]) == [x]
  {
    ReplaceAllOne(x, '&', "&amp;");
    ReplaceAllOne(x, '<', "&lt;");
    ReplaceAllOne(x, '>', "&gt;");
    ReplaceAllOne(x, '"', "&quot;");
    ReplaceAllOne(x, '\'', "&apos;");
  }

  /** The chain of passes escapes one character as `EscChar` does. */
  lemma EscOfChar(x: char)
    ensures Esc([x]) == EscChar(x)
  {
    if !Special(x) {
      EscOfPlain(x);
    } else if x == '&' {
      ReplaceAllOne(x, '&', "&amp;");
      PassesAfterAmp("&amp;");
    } else if x == '<' {
      ReplaceAllOne(x, '&', "&amp;");
      ReplaceAllOne(x, '<', "&lt;");
      PassesAfterLt("&lt;");
    } else if x == '>' {
      ReplaceAllOne(x, '&', "&amp;");
      ReplaceAllOne(x, '<', "&lt;");
      ReplaceAllOne(x, '>', "&gt;");
      PassesAfterGt("&gt;");
    } else if x == '"' {
      ReplaceAllOne(x, '&', "&amp;");
      ReplaceAllOne(x, '<', "&lt;");
      ReplaceAllOne(x, '>', "&gt;");
      ReplaceAllOne(x, '"', "&quot;");
      ReplaceAllAbsent("&quot;", '\'', "&apos;");
    } else {
      ReplaceAllOne(x, '&', "&amp;");
      ReplaceAllOne(x, '<', "&lt;");
      ReplaceAllOne(x, '>', "&gt;");
      ReplaceAllOne(x, '"', "&quot;");
      ReplaceAllOne(x, '\'', "&apos;");
    }
  }

  /** The passes after the first leave text without `<`, `>`, `"` and `'` alone. */
  lemma PassesAfterAmp(t: string)
    requires '<' !in t && '>' !in t && '"' !in t && '\'' !in t
    ensures ReplaceAll(ReplaceAll(ReplaceAll(ReplaceAll(t, '<', "&lt;"), '>', "&gt;"), '"', "&quot;"), '\'', "&apos;") == t
  {
    ReplaceAllAbsent(t, '<', "&lt;");
    PassesAfterLt(t);
  }

  lemma PassesAfterLt(t: string)
    requires '>' !in t && '"' !in t && '\'' !in t
    ensures ReplaceAll(ReplaceAll(ReplaceAll(t, '>', "&gt;"), '"', "&quot;"), '\'', "&apos;") == t
  {
    ReplaceAllAbsent(t, '>', "&gt;");
    PassesAfterGt(t);
  }

  lemma PassesAfterGt(t: string)
    requires '"' !in t && '\'' !in t
    ensures ReplaceAll(ReplaceAll(t, '"', "&quot;"), '\'', "&apos;") == t
  {
    ReplaceAllAbsent(t, '"', "&quot;");
    ReplaceAllAbsent(t, '\'', "&apos;");
  }

  lemma EscAppend(a: string, b: string)
    ensures Esc(a + b) == Esc(a) + Esc(b)
  {
    var a1, b1 := ReplaceAll(a, '&', "&amp;"), ReplaceAll(b, '&', "&amp;");
    ReplaceAllAppend(a, b, '&', "&amp;");
    var a2, b2 := ReplaceAll(a1, '<', "&lt;"), ReplaceAll(b1, '<', "&lt;");
    ReplaceAllAppend(a1, b1, '<', "&lt;");
    var a3, b3 := ReplaceAll(a2, '>', "&gt;"), ReplaceAll(b2, '>', "&gt;");
    ReplaceAllAppend(a2, b2, '>', "&gt;");
    var a4, b4 := ReplaceAll(a3, '"', "&quot;"), ReplaceAll(b3, '"', "&quot;");
    ReplaceAllAppend(a3, b3, '"', "&quot;");
    ReplaceAllAppend(a4, b4, '\'', "&apos;");
  }

  /**
   * Replacing `&` first means no entity a later pass inserts is escaped
   * again: the chain of passes is the one-pass, per-character escape.
   */
  lemma {:induction false} EscIsOnePass(s: string)
    ensures Esc(s) == EscOnePass(s)
  {
    if s == [] {
      assert Esc(s) == [];
    } else {
      assert s == [s[0]] + s[1..];
      EscAppend([s[0]], s[1..]);
      EscOfChar(s[0]);
      EscIsOnePass(s[1..]);
    }
  }

  /** `s` begins with `p`. */
  predicate StartsWith(s: string, p: string) {
    |p| <= |s| && s[..|p|] == p
  }

  /** Reads the five entities back, one at a time, left to right. */
  function Unescape(s: string): string
    decreases |s|
  {
    if s == [] then []
    else if s[0] != '&' then [s[0]] + Unescape(s[1..])
    else if StartsWith(s, "&amp;") then "&" + Unescape(s[5..])
    else if StartsWith(s, "&lt;") then "<" + Unescape(s[4..])
    else if StartsWith(s, "&gt;") then ">" + Unescape(s[4..])
    else if StartsWith(s, "&quot;") then "\"" + Unescape(s[6..])
    else if StartsWith(s, "&apos;") then "'" + Unescape(s[6..])
    else "&" + Unescape(s[1..])
  }

  /** Text that differs from `p` at position `i` does not begin with `p`. */
  lemma NotStartsWith(s: string, p: string, i: nat)
    requires i < |p| && i < |s| && s[i] != p[i]
    ensures !StartsWith(s, p)
  {
  }

  lemma UnescapeStep(c: char, rest: string)
    ensures Unescape(EscChar(c) + rest) == [c] + Unescape(rest)
  {
    var e := EscChar(c);
    var s := e + rest;
    assert s[..|e|] == e;
    assert s[|e|..] == rest;
    assert s[0] == e[0];
    if c == '<' || c == '>' || c == '"' {
      assert s[1] == e[1];
      NotStartsWith(s, "&amp;", 1);
      if c != '<' {
        NotStartsWith(s, "&lt;", 1);
      }
      if c == '"' {
        NotStartsWith(s, "&gt;", 1);
      }
    } else if c == '\'' {
      assert s[1] == e[1] && s[2] == e[2];
      NotStartsWith(s, "&amp;", 2);
      NotStartsWith(s, "&lt;", 1);
      NotStartsWith(s, "&gt;", 1);
      NotStartsWith(s, "&quot;", 1);
    }
  }

  /** Decoding the five entities inverts `esc`. */
  lemma {:induction false} UnescapeEsc(s: string)
    ensures Unescape(Esc(s)) == s
  {
    EscIsOnePass(s);
    UnescapeOnePass(s);
  }

  lemma {:induction false} UnescapeOnePass(s: string)
    ensures Unescape(EscOnePass(s)) == s
  {
    if s != [] {
      UnescapeStep(s[0], EscOnePass(s[1..]));
      UnescapeOnePass(s[1..]);
      assert s == [s[0]] + s[1..];
    }
  }

  /** An entity starts at position `i`. */
  predicate EntityAt(r: string, i: nat) {
    && i <= |r|
    && var t := r[i..];
    && (StartsWith(t, "&amp;") || StartsWith(t, "&lt;") || StartsWith(t, "&gt;")
        || StartsWith(t, "&quot;") || StartsWith(t, "&apos;"))
  }

  lemma EntityAtShift(a: string, b: string, i: nat)
    requires i <= |b| && EntityAt(b, i)
    ensures EntityAt(a + b, |a| + i)
  {
    assert (a + b)[|a| + i..] == b[i..];
  }

  lemma EntityAtFront(e: string, b: string)
    requires EntityAt(e, 0)
    ensures EntityAt(e + b, 0)
  {
    var t := e + b;
    assert t[0..] == t && e[0..] == e;
    if StartsWith(e, "&amp;") { assert t[..5] == e[..5]; }
    if StartsWith(e, "&lt;") { assert t[..4] == e[..4]; }
    if StartsWith(e, "&gt;") { assert t[..4] == e[..4]; }
    if StartsWith(e, "&quot;") { assert t[..6] == e[..6]; }
    if StartsWith(e, "&apos;") { assert t[..6] == e[..6]; }
  }

  /** The escaped text of one character: safe, and any `&` begins an entity. */
  lemma EscCharSafe(c: char)
    ensures forall i | 0 <= i < |EscChar(c)| :: !Special(EscChar(c)[i]) || (EscChar(c)[i] == '&' && i == 0)
    ensures Special(c) ==> EntityAt(EscChar(c), 0)
  {
    var e := EscChar(c);
    assert e[0..] == e;
  }

  /**
   * The escaped text holds no `<`, `>`, `"` or `'`, and each `&` in it is
   * the start of one of the five entities.
   */
  lemma {:induction false} EscSafe(s: string)
    ensures forall i | 0 <= i < |Esc(s)| :: Esc(s)[i] !in "<>\"'"
    ensures forall i | 0 <= i < |Esc(s)| && Esc(s)[i] == '&' :: EntityAt(Esc(s), i)
  {
    EscIsOnePass(s);
    OnePassSafe(s);
  }

  lemma {:induction false} OnePassSafe(s: string)
    ensures forall i | 0 <= i < |EscOnePass(s)| :: EscOnePass(s)[i] !in "<>\"'"
    ensures forall i | 0 <= i < |EscOnePass(s)| && EscOnePass(s)[i] == '&' :: EntityAt(EscOnePass(s), i)
  {
    if s != [] {
      var e, rest := EscChar(s[0]), EscOnePass(s[1..]);
      var r := e + rest;
      OnePassSafe(s[1..]);
      EscCharSafe(s[0]);
      forall i | 0 <= i < |r| ensures r[i] !in "<>\"'" {
        if i >= |e| {
          assert r[i] == rest[i - |e|];
        } else {
          assert r[i] == e[i];
        }
      }
      forall i | 0 <= i < |r| && r[i] == '&' ensures EntityAt(r, i) {
        if i >= |e| {
          assert r[i] == rest[i - |e|];
          EntityAtShift(e, rest, i - |e|);
        } else {
          assert r[i] == e[i];
          EntityAtFront(e, rest);
        }
      }
    }
  }

  /** On text without the five special characters, `esc` changes nothing. */
  lemma {:induction false} EscIdentity(s: string)
    requires forall i | 0 <= i < |s| :: !Special(s[i])
    ensures Esc(s) == s
  {
    EscIsOnePass(s);
    OnePassIdentity(s);
  }

  lemma {:induction false} OnePassIdentity(s: string)
    requires forall i | 0 <= i < |s| :: !Special(s[i])
    ensures EscOnePass(s) == s
  {
    if s != [] {
      assert forall i | 0 <= i < |s[1..]| :: s[1..][i] == s[i + 1];
      OnePassIdentity(s[1..]);
      assert s == [s[0]] + s[1..];
    }
  }

  // ---------------------------------------------------------------------
  // Entries

  /**
   * A project author: a plain name, or a record with a name and optional
   * fields.
   */
  datatype Author =
    | AuthorName(name: string)
    | AuthorRecord(name: string, url: Option<string>, highlight: Option<bool>, equal: Option<bool>)

  datatype Project = Project(slug: string, title: string, date: int, tldr: Option<string>,
                             abstractText: Option<string>, authors: seq<Author>, keywords: seq<string>)

  datatype Post = Post(slug: string, title: string, date: int, summary: Option<string>, keywords: seq<string>)

  datatype Kind = ProjectKind | WritingKind

  /** The `type` field: the text the `type:` category carries. */
  function KindText(k: Kind): string {
    match k
    case ProjectKind => "project"
    case WritingKind => "writing"
  }

  datatype Entry = Entry(kind: Kind, title: string, summary: string, date: int, url: string,
                         authors: seq<string>, keywords: seq<string>)

  const DefaultAuthor: string := "Christos Tsirigotis"
  const DefaultOrigin: string := "https://logotechnologia.com"

  function EntryDate(e: Entry): int { e.date }

  /** `a || b` for an optional string: an absent or empty string falls through. */
  function OrElse(a: Option<string>, b: string): (r: string)
    ensures a.Some? && a.value != "" ==> r == a.value
    ensures a.None? || a.value == "" ==> r == b
  {
    if a.Some? && a.value != "" then a.value else b
  }

  /** A project's summary: `tldr || abstract || ''`. */
  function ProjectSummary(p: Project): (r: string)
    ensures p.tldr.Some? && p.tldr.value != "" ==> r == p.tldr.value
    ensures (p.tldr.None? || p.tldr.value == "") && p.abstractText.Some? && p.abstractText.value != ""
      ==> r == p.abstractText.value
    ensures (p.tldr.None? || p.tldr.value == "") && (p.abstractText.None? || p.abstractText.value == "")
      ==> r == ""
  {
    OrElse(p.tldr, OrElse(p.abstractText, ""))
  }

  /** `String(a)` for an author: the name, or `[object Object]` for a record. */
  function JsString(a: Author): string {
    match a
    case AuthorName(n) => n
    case AuthorRecord(_, _, _, _) => "[object Object]"
  }

  /** `(p.data.authors || []).map(String)`, as the feed computes it. */
  function ProjectAuthorsAsWritten(authors: seq<Author>): seq<string> {
    MapSeq(authors, JsString)
  }

  function AuthorNameOf(a: Author): string { a.name }

  /** The author names of a project, whichever form each author takes. */
  function ProjectAuthors(authors: seq<Author>): (r: seq<string>)
    ensures |r| == |authors| && forall i | 0 <= i < |authors| :: r[i] == authors[i].name
  {
    MapSeq(authors, AuthorNameOf)
  }

  /**
   * The computed author list agrees with the names exactly when every
   * author is a plain name or a record whose name is `[object Object]`.
   */
  lemma AuthorsAsWrittenAgree(authors: seq<Author>)
    ensures ProjectAuthorsAsWritten(authors) == ProjectAuthors(authors)
        <==> forall i | 0 <= i < |authors| :: authors[i].AuthorName? || authors[i].name == "[object Object]"
  {
    var w, c := ProjectAuthorsAsWritten(authors), ProjectAuthors(authors);
    if forall i | 0 <= i < |authors| :: authors[i].AuthorName? || authors[i].name == "[object Object]" {
      assert forall i | 0 <= i < |authors| :: w[i] == c[i];
    }
  }

  /** A project author given as a record shows up as `[object Object]`. */
  lemma AuthorRecordLosesName()
    ensures var a := [AuthorRecord("Ada Lovelace", None, Some(true), None)];
      ProjectAuthorsAsWritten(a) == ["[object Object]"] && ProjectAuthors(a) == ["Ada Lovelace"]
  {
    var a := [AuthorRecord("Ada Lovelace", None, Some(true), None)];
    assert ProjectAuthorsAsWritten(a)[0] == "[object Object]";
  }

  /** `(site && site.toString()) || 'https://logotechnologia.com'`, as the feed computes it. */
  function OriginAsWritten(site: Option<string>): string {
    OrElse(site, DefaultOrigin)
  }

  /** `s` without the slashes it ends with. */
  function DropTrailingSlashes(s: string): (r: string)
    ensures |r| <= |s| && r == s[..|r|] && (r == [] || r[|r| - 1] != '/')
    ensures forall i | |r| <= i < |s| :: s[i] == '/'
  {
    if s != [] && s[|s| - 1] == '/' then DropTrailingSlashes(s[..|s| - 1]) else s
  }

  /** The site origin, with the slash that a URL's text form ends in dropped. */
  function Origin(site: Option<string>): (r: string)
    ensures r == [] || r[|r| - 1] != '/'
  {
    DropTrailingSlashes(OrElse(site, DefaultOrigin))
  }

  /** `${origin}/<section>/${slug}/` */
  function EntryUrl(origin: string, section: string, slug: string): string {
    origin + "/" + section + "/" + slug + "/"
  }

  /**
   * The site given as a URL prints with a closing slash, so the computed
   * project URL has two slashes in a row before `projects`.
   */
  lemma OriginDoubleSlash(slug: string)
    ensures var url := EntryUrl(OriginAsWritten(Some("https://logotechnologia.com/")), "projects", slug);
      url[..38] == "https://logotechnologia.com//projects/"
  {
  }

  /**
   * With the slash dropped, the site given with or without its closing
   * slash yields the same entry URL, the one the default origin gives.
   */
  lemma OriginSlashInsensitive(site: string, section: string, slug: string)
    requires site != [] && site[|site| - 1] != '/'
    ensures Origin(Some(site + "/")) == Origin(Some(site)) == site
    ensures EntryUrl(Origin(None), section, slug) == EntryUrl(DefaultOrigin, section, slug)
  {
    assert (site + "/")[..|site|] == site;
    assert DropTrailingSlashes(DefaultOrigin) == DefaultOrigin;
  }

  /**
   * A project entry: `tldr || abstract || ''` as its summary, the author
   * names in order, and the project's own date and keywords.
   */
  function ProjectEntry(origin: string, p: Project): (e: Entry)
    ensures e.kind == ProjectKind && e.title == p.title && e.date == p.date
    ensures e.summary == ProjectSummary(p)
    ensures e.authors == ProjectAuthors(p.authors)
    ensures |e.authors| == |p.authors| && forall i | 0 <= i < |p.authors| :: e.authors[i] == p.authors[i].name
    ensures e.keywords == p.keywords
    ensures e.url == EntryUrl(origin, "projects", p.slug)
  {
    Entry(ProjectKind, p.title, ProjectSummary(p), p.date, EntryUrl(origin, "projects", p.slug),
          ProjectAuthors(p.authors), p.keywords)
  }

  /** A post entry: `summary || ''`, and always the default author alone. */
  function PostEntry(origin: string, p: Post): (e: Entry)
    ensures e.kind == WritingKind && e.authors == [DefaultAuthor]
    ensures e.summary == if p.summary.Some? then p.summary.value else ""
  {
    Entry(WritingKind, p.title, OrElse(p.summary, ""), p.date, EntryUrl(origin, "writing", p.slug),
          [DefaultAuthor], p.keywords)
  }

  function IsProjectEntry(e: Entry): bool { e.kind == ProjectKind }

  function ProjectEntries(origin: string, projects: seq<Project>): seq<Entry>
  {
    if projects == [] then [] else [ProjectEntry(origin, projects[0])] + ProjectEntries(origin, projects[1..])
  }

  function PostEntries(origin: string, posts: seq<Post>): seq<Entry>
  {
    if posts == [] then [] else [PostEntry(origin, posts[0])] + PostEntries(origin, posts[1..])
  }

  /** Projects then posts, then the stable newest-first sort. */
  function AllEntries(origin: string, projects: seq<Project>, posts: seq<Post>): seq<Entry> {
    SortDesc(ProjectEntries(origin, projects) + PostEntries(origin, posts), EntryDate)
  }

  /** The feed's entries for a site: URLs built on the origin without its closing slash. */
  function FeedEntries(site: Option<string>, projects: seq<Project>, posts: seq<Post>): seq<Entry> {
    AllEntries(Origin(site), projects, posts)
  }

  lemma {:induction false} ProjectEntriesKind(origin: string, projects: seq<Project>)
    ensures |ProjectEntries(origin, projects)| == |projects|
    ensures Filter(ProjectEntries(origin, projects), IsProjectEntry) == ProjectEntries(origin, projects)
  {
    if projects != [] {
      ProjectEntriesKind(origin, projects[1..]);
      FilterCons(ProjectEntry(origin, projects[0]), ProjectEntries(origin, projects[1..]), IsProjectEntry);
    }
  }

  lemma {:induction false} PostEntriesKind(origin: string, posts: seq<Post>)
    ensures |PostEntries(origin, posts)| == |posts|
    ensures Filter(PostEntries(origin, posts), IsProjectEntry) == []
  {
    if posts != [] {
      PostEntriesKind(origin, posts[1..]);
      FilterCons(PostEntry(origin, posts[0]), PostEntries(origin, posts[1..]), IsProjectEntry);
    }
  }

  /**
   * The merged list has one entry per project and per post (as many
   * project entries as projects), newest first; entries of the same date
   * keep their merged order, projects before posts.
   */
  lemma AllEntriesSpec(origin: string, projects: seq<Project>, posts: seq<Post>, d: int)
    ensures var all := AllEntries(origin, projects, posts);
      && |all| == |projects| + |posts|
      && |Filter(all, IsProjectEntry)| == |projects|
      && SortedDesc(all, EntryDate)
      && multiset(all) == multiset(ProjectEntries(origin, projects) + PostEntries(origin, posts))
      && Filter(all, KeyIs(EntryDate, d))
         == Filter(ProjectEntries(origin, projects) + PostEntries(origin, posts), KeyIs(EntryDate, d))
  {
    var pe, qe := ProjectEntries(origin, projects), PostEntries(origin, posts);
    ProjectEntriesKind(origin, projects);
    PostEntriesKind(origin, posts);
    SortDescStable(pe + qe, EntryDate, d);
    FilterSortDesc(pe + qe, IsProjectEntry, EntryDate);
    FilterAppend(pe, qe, IsProjectEntry);
    assert pe + [] == pe;
    assert |AllEntries(origin, projects, posts)| == |multiset(pe + qe)|;
  }

  /** `all[0]?.date || Date.now()`: a date object is never falsy. */
  function Updated(all: seq<Entry>, now: int): int {
    if |all| > 0 then all[0].date else now
  }

  lemma NewestFirst(all: seq<Entry>)
    requires |all| > 0 && SortedDesc(all, EntryDate)
    ensures forall e | e in all :: e.date <= all[0].date
  {
    forall e | e in all ensures e.date <= all[0].date {
      var j :| 0 <= j < |all| && all[j] == e;
      if j > 0 {
        assert EntryDate(all[0]) >= EntryDate(all[j]);
      }
    }
  }

  /** The feed's `updated` is the newest entry date, or the time now when there is none. */
  lemma UpdatedIsNewest(origin: string, projects: seq<Project>, posts: seq<Post>, now: int)
    ensures var all := AllEntries(origin, projects, posts);
      && (|all| == 0 ==> Updated(all, now) == now)
      && (|all| > 0 ==> exists e | e in all :: e.date == Updated(all, now))
      && forall e | e in all :: e.date <= Updated(all, now)
  {
    var all := AllEntries(origin, projects, posts);
    SortDescSorted(ProjectEntries(origin, projects) + PostEntries(origin, posts), EntryDate);
    if |all| > 0 {
      NewestFirst(all);
    }
  }

  // ---------------------------------------------------------------------
  // Categories and authors

  /** `open + esc(x) + close` for each `x`, joined with nothing between. */
  function Elements(open: string, close: string, xs: seq<string>): string {
    if xs == [] then "" else open + Esc(xs[0]) + close + Elements(open, close, xs[1..])
  }

  const CategoryOpen: string := "<category term=\""
  const CategoryClose: string := "\" />"
  const AuthorOpen: string := "<author><name>"
  const AuthorClose: string := "</name></author>"

  /** One category per keyword, in order, then the `type:` category. */
  function Categories(e: Entry): string {
    Elements(CategoryOpen, CategoryClose, e.keywords)
      + CategoryOpen + "type:" + Esc(KindText(e.kind)) + CategoryClose
  }

  /** One author element per name, or the default author when there is none. */
  function Authors(e: Entry): string {
    if |e.authors| > 0 then Elements(AuthorOpen, AuthorClose, e.authors)
    else AuthorOpen + DefaultAuthor + AuthorClose
  }

  /** The text up to the first `c`. */
  function TakeUntil(s: string, c: char): (r: string)
    ensures |r| <= |s| && r == s[..|r|] && c !in r
  {
    if s == [] || s[0] == c then [] else [s[0]] + TakeUntil(s[1..], c)
  }

  lemma {:induction false} TakeUntilPrefix(a: string, b: string, c: char)
    requires c !in a && b != [] && b[0] == c
    ensures TakeUntil(a + b, c) == a
  {
    if a == [] {
      assert a + b == b;
    } else {
      assert (a + b)[0] == a[0] && (a + b)[1..] == a[1..] + b;
      assert a[0] in a;
      assert forall x | x in a[1..] :: x in a;
      TakeUntilPrefix(a[1..], b, c);
      assert a == [a[0]] + a[1..];
    }
  }

  /**
   * Reads a run of `open + text + close` elements back, decoding the text;
   * the text of an element runs up to the first character of `close`.
   */
  function ParseElements(open: string, close: string, s: string): Option<seq<string>>
    requires |open| > 0 && |close| > 0
    decreases |s|
  {
    if s == [] then Some([])
    else if !StartsWith(s, open) then None
    else
      var body := s[|open|..];
      var text := TakeUntil(body, close[0]);
      var after := body[|text|..];
      if !StartsWith(after, close) then None
      else
        match ParseElements(open, close, after[|close|..])
        case None => None
        case Some(rest) => Some([Unescape(text)] + rest)
  }

  /** An escaped text never holds `close`'s first character when that is one `esc` removes. */
  lemma EscAvoids(x: string, c: char)
    requires c in "<>\"'"
    ensures c !in Esc(x)
  {
    EscSafe(x);
  }

  /** Reading one element off the front. */
  lemma ParseOneElement(open: string, close: string, x: string, rest: string)
    requires |open| > 0 && |close| > 0 && close[0] in "<>\"'"
    ensures ParseElements(open, close, open + Esc(x) + close + rest)
         == match ParseElements(open, close, rest)
            case None => None
            case Some(xs) => Some([x] + xs)
  {
    var e := Esc(x);
    var s := open + e + close + rest;
    assert s == open + (e + (close + rest));
    assert s[..|open|] == open;
    var body := s[|open|..];
    assert body == e + (close + rest);
    EscAvoids(x, close[0]);
    TakeUntilPrefix(e, close + rest, close[0]);
    assert body[|e|..] == close + rest;
    assert (close + rest)[..|close|] == close && (close + rest)[|close|..] == rest;
    UnescapeEsc(x);
  }

  /** The elements read back as the texts they were made from. */
  lemma {:induction false} ElementsRoundTrip(open: string, close: string, xs: seq<string>)
    requires |open| > 0 && |close| > 0 && close[0] in "<>\"'"
    ensures ParseElements(open, close, Elements(open, close, xs)) == Some(xs)
  {
    if xs != [] {
      ParseOneElement(open, close, xs[0], Elements(open, close, xs[1..]));
      ElementsRoundTrip(open, close, xs[1..]);
      assert [xs[0]] + xs[1..] == xs;
    }
  }

  lemma TypeCategory(k: Kind)
    ensures "type:" + Esc(KindText(k)) == Esc("type:" + KindText(k))
  {
    EscIdentity(KindText(k));
    EscIdentity("type:" + KindText(k));
  }

  lemma ElementsSnoc(open: string, close: string, xs: seq<string>, y: string)
    ensures Elements(open, close, xs + [y]) == Elements(open, close, xs) + (open + Esc(y) + close)
  {
    if xs == [] {
      assert [] + [y] == [y];
      assert [y][1..] == [];
    } else {
      assert (xs + [y])[1..] == xs[1..] + [y];
      ElementsSnoc(open, close, xs[1..], y);
    }
  }

  /**
   * The category markup reads back as the keywords, in order, followed by
   * exactly one `type:` category for the entry's kind.
   */
  lemma CategoriesRoundTrip(e: Entry)
    ensures ParseElements(CategoryOpen, CategoryClose, Categories(e))
         == Some(e.keywords + ["type:" + KindText(e.kind)])
  {
    var ty := "type:" + KindText(e.kind);
    TypeCategory(e.kind);
    ElementsSnoc(CategoryOpen, CategoryClose, e.keywords, ty);
    assert Categories(e) == Elements(CategoryOpen, CategoryClose, e.keywords + [ty]);
    ElementsRoundTrip(CategoryOpen, CategoryClose, e.keywords + [ty]);
  }

  /**
   * The author markup reads back as the entry's author names, in order,
   * or as the default author alone when the entry has none.
   */
  lemma AuthorsRoundTrip(e: Entry)
    ensures ParseElements(AuthorOpen, AuthorClose, Authors(e))
         == Some(if |e.authors| > 0 then e.authors else [DefaultAuthor])
  {
    if |e.authors| == 0 {
      DefaultAuthorParses();
    } else {
      ElementsRoundTrip(AuthorOpen, AuthorClose, e.authors);
    }
  }

  /** One element around a text `esc` leaves alone reads back as that text. */
  lemma PlainElement(open: string, close: string, x: string)
    requires |open| > 0 && |close| > 0 && close[0] in "<>\"'" && Esc(x) == x
    ensures ParseElements(open, close, open + x + close) == Some([x])
  {
    ParseOneElement(open, close, x, "");
    assert open + x + close + "" == open + x + close;
    assert [x] + [] == [x];
  }

  lemma DefaultAuthorParses()
    ensures ParseElements(AuthorOpen, AuthorClose, AuthorOpen + DefaultAuthor + AuthorClose) == Some([DefaultAuthor])
  {
    DefaultAuthorPlain();
    PlainElement(AuthorOpen, AuthorClose, DefaultAuthor);
  }

  lemma DefaultAuthorPlain()
    ensures Esc(DefaultAuthor) == DefaultAuthor
  {
    forall i | 0 <= i < |DefaultAuthor| ensures !Special(DefaultAuthor[i]) {
    }
    EscIdentity(DefaultAuthor);
  }

  /** A post entry always names the default author, and only that one. */
  lemma PostAuthors(origin: string, p: Post)
    ensures ParseElements(AuthorOpen, AuthorClose, Authors(PostEntry(origin, p))) == Some([DefaultAuthor])
  {
    AuthorsRoundTrip(PostEntry(origin, p));
  }

  /** One `<entry>` element, with its whitespace. */
  function EntryXml(e: Entry, iso: int -> string): string {
    "\n        <entry>\n          <title>" + Esc(e.title) + "</title>\n          <id>" + e.url
      + "</id>\n          <link href=\"" + e.url + "\" rel=\"alternate\" />\n          <updated>"
      + iso(e.date) + "</updated>\n          <published>" + iso(e.date)
      + "</published>\n          <summary>" + Esc(e.summary) + "</summary>\n          "
      + Authors(e) + "\n          " + Categories(e) + "\n        </entry>\n      "
  }

  /** The entries of the feed, in feed order, joined with nothing between. */
  function EntriesXml(all: seq<Entry>, iso: int -> string): string {
    if all == [] then "" else EntryXml(all[0], iso) + EntriesXml(all[1..], iso)
  }

  /**
   * `.map(...).join('')`: the text of a list of entries is the text of its
   * first part followed by the text of the rest, with nothing between.
   */
  lemma {:induction false} EntriesXmlAppend(a: seq<Entry>, b: seq<Entry>, iso: int -> string)
    ensures EntriesXml(a + b, iso) == EntriesXml(a, iso) + EntriesXml(b, iso)
  {
    if a == [] {
      assert a + b == b;
    } else {
      assert (a + b)[0] == a[0] && (a + b)[1..] == a[1..] + b;
      EntriesXmlAppend(a[1..], b, iso);
    }
  }

  /** Each entry contributes exactly its own element, in feed order. */
  lemma EntriesXmlSingle(e: Entry, iso: int -> string)
    ensures EntriesXml([e], iso) == EntryXml(e, iso)
  {
    assert [e][1..] == [];
  }
}
