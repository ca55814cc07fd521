/** The feed step: the pages of the site, optionally restricted to some
    groups, projected into feed entries whose fields come from the page with
    fallbacks to the site's values. The feed library that serialises the
    result is not part of this model: the feed is returned as data, together
    with the output files it would be written to. */
module Feed {
  import opened Wrappers
  import opened Strings

  // ---------------------------------------------------------------------
  // `joinUrl`
  // ---------------------------------------------------------------------

  /** `while a[-1] == '/': a = a[:-1]`: indexing the string once it is
      empty is an `IndexError`. */
  function TrimEnd(a: string): (r: Result<string>)
    ensures r.Ok? <==> exists i :: 0 <= i < |a| && a[i] != '/'
    ensures r.Err? ==> r.error == IndexError
    ensures r.Ok? ==>
      && 0 < |r.value| <= |a|
      && r.value == a[..|r.value|]
      && r.value[|r.value| - 1] != '/'
      && forall i :: |r.value| <= i < |a| ==> a[i] == '/'
  {
    if |a| == 0 then Err(IndexError)
    else if a[|a| - 1] == '/' then
      var r := TrimEnd(a[..|a| - 1]);
      assert forall i :: 0 <= i < |a| - 1 ==> a[..|a| - 1][i] == a[i];
      r
    else Ok(a)
  }

  /** `while b[0] == '/': b = b[1:]`, with the same `IndexError`. */
  function TrimStart(b: string): (r: Result<string>)
    ensures r.Ok? <==> exists i :: 0 <= i < |b| && b[i] != '/'
    ensures r.Err? ==> r.error == IndexError
    ensures r.Ok? ==>
      && 0 < |r.value| <= |b|
      && r.value == b[|b| - |r.value|..]
      && r.value[0] != '/'
      && forall i :: 0 <= i < |b| - |r.value| ==> b[i] == '/'
  {
    if |b| == 0 then Err(IndexError)
    else if b[0] == '/' then
      var r := TrimStart(b[1..]);
      assert forall i :: 1 <= i < |b| ==> b[1..][i - 1] == b[i];
      r
    else Ok(b)
  }

  /** `joinUrl(a, b)`: the two parts joined by exactly one slash. It fails
      when either part has no character other than a slash. */
  function JoinUrl(a: string, b: string): (r: Result<string>)
    ensures r.Ok? <==> (exists i :: 0 <= i < |a| && a[i] != '/') && (exists i :: 0 <= i < |b| && b[i] != '/')
    ensures r.Err? ==> r.error == IndexError
  {
    var head :- TrimEnd(a);
    var tail :- TrimStart(b);
    Ok(head + "/" + tail)
  }

  /** Trailing slashes after a part that does not end in one are dropped. */
  lemma {:induction false} TrimEndSlashes(a: string, n: nat)
    requires |a| > 0 && a[|a| - 1] != '/'
    ensures TrimEnd(a + Repeat('/', n)) == Ok(a)
  {
    if n > 0 {
      var s := a + Repeat('/', n);
      assert s[|s| - 1] == '/';
      assert s[..|s| - 1] == a + Repeat('/', n - 1);
      TrimEndSlashes(a, n - 1);
    } else {
      assert a + Repeat('/', 0) == a;
    }
  }

  /** Leading slashes before a part that does not start with one are dropped. */
  lemma {:induction false} TrimStartSlashes(b: string, n: nat)
    requires |b| > 0 && b[0] != '/'
    ensures TrimStart(Repeat('/', n) + b) == Ok(b)
  {
    if n > 0 {
      var s := Repeat('/', n) + b;
      assert s[0] == '/';
      assert s[1..] == Repeat('/', n - 1) + b;
      TrimStartSlashes(b, n - 1);
    } else {
      assert Repeat('/', 0) + b == b;
    }
  }

  /** However many slashes surround the seam, the join has exactly one. */
  lemma JoinUrlSlashes(a: string, n: nat, m: nat, b: string)
    requires |a| > 0 && a[|a| - 1] != '/'
    requires |b| > 0 && b[0] != '/'
    ensures JoinUrl(a + Repeat('/', n), Repeat('/', m) + b) == Ok(a + "/" + b)
  {
    TrimEndSlashes(a, n);
    TrimStartSlashes(b, m);
  }

  /** An extra slash on either side of the seam changes nothing. */
  lemma JoinUrlExtraSlash(a: string, b: string)
    ensures JoinUrl(a + "/", b) == JoinUrl(a, b)
    ensures JoinUrl(a, "/" + b) == JoinUrl(a, b)
  {
    var a' := a + "/";
    assert a'[..|a'| - 1] == a;
    var b' := "/" + b;
    assert b'[1..] == b;
  }

  // ---------------------------------------------------------------------
  // Pages, configuration and entries
  // ---------------------------------------------------------------------

  /** A text attribute that may be `None`. */
  type Text = Option<string>

  /** Python truthiness of a text attribute: present and non-empty. */
  predicate Truthy(t: Text) {
    t.Some? && t.value != ""
  }

  /** The attributes of a page that the feed reads. Dates are instants on
      one time line; a missing date is `None` (a datetime is always truthy). */
  datatype FeedPage = FeedPage(
    id: Text, feedId: Text, url: string, title: Text,
    updated: Option<int>, date: Option<int>,
    author: Text, content: Text, summary: Text, contributor: Text,
    rights: Text, group: Text)

  datatype FeedConfig = FeedConfig(id: string)

  datatype SiteConfig = SiteConfig(title: Text, author: Text, rights: Text)

  /** One feed entry; an optional field the code does not set is `None`. */
  datatype Entry = Entry(
    id: Text, title: Text, updated: Option<int>, author: Text,
    content: Text, summary: Text, contributor: Text,
    published: Option<int>, rights: Text)

  /** The first truthy text of `ts`, or nothing. */
  function FirstTruthy(ts: seq<Text>): (r: Text)
    ensures r.Some? ==> Truthy(r) && r in ts
    ensures r.None? ==> forall i :: 0 <= i < |ts| ==> !Truthy(ts[i])
  {
    if |ts| == 0 then None
    else if Truthy(ts[0]) then ts[0]
    else FirstTruthy(ts[1..])
  }

  /** The body of the loop of `makeFeed` for one page. The id is the page's
      own feed id when the page has an id, else the page's url under the
      feed id; an `IndexError` of `joinUrl` propagates. */
  function MakeEntry(feed: FeedConfig, site: SiteConfig, page: FeedPage): (r: Result<Entry>)
    ensures Truthy(page.id) ==> r.Ok? && r.value.id == page.feedId
    ensures !Truthy(page.id) ==>
      && (r.Ok? <==> JoinUrl(feed.id, page.url).Ok?)
      && (r.Ok? ==> r.value.id == Some(JoinUrl(feed.id, page.url).value))
      && (r.Err? ==> r.error == IndexError)
    ensures r.Ok? ==>
      && r.value.title == page.title
      && r.value.content == page.content
      && r.value.published == page.date
      && (page.updated.Some? ==> r.value.updated == page.updated)
      && (page.updated.None? ==> r.value.updated == page.date)
      && (Truthy(page.author) ==> r.value.author == page.author)
      && (!Truthy(page.author) ==> r.value.author == site.author)
      && r.value.rights == FirstTruthy([page.rights, site.rights])
      && (r.value.summary.Some? <==> Truthy(page.summary))
      && (r.value.summary.Some? ==> r.value.summary == page.summary)
      && (r.value.contributor.Some? <==> Truthy(page.contributor))
      && (r.value.contributor.Some? ==> r.value.contributor == page.contributor)
  {
    var id :- if Truthy(page.id) then Ok(page.feedId) else
      var joined :- JoinUrl(feed.id, page.url);
      Ok(Some(joined));
    Ok(Entry(
      id, page.title,
      if page.updated.Some? then page.updated else page.date,
      if Truthy(page.author) then page.author else site.author,
      page.content,
      if Truthy(page.summary) then page.summary else None,
      if Truthy(page.contributor) then page.contributor else None,
      page.date,
      if Truthy(page.rights) then page.rights
      else if Truthy(site.rights) then site.rights
      else None))
  }

  // ---------------------------------------------------------------------
  // The feed's updated value
  // ---------------------------------------------------------------------

  /** 1970-01-01, the instant a page without a date counts as. */
  const Epoch: int := 0

  /** `x.date if x.date else datetime.datetime(1970, 1, 1)` */
  function Stamp(p: FeedPage): int {
    if p.date.Some? then p.date.value else Epoch
  }

  /** Page `i` is the first page of maximal stamp. */
  ghost predicate FirstLatestAt(pages: seq<FeedPage>, i: int) {
    && 0 <= i < |pages|
    && (forall j :: 0 <= j < |pages| ==> Stamp(pages[j]) <= Stamp(pages[i]))
    && (forall j :: 0 <= j < i ==> Stamp(pages[j]) < Stamp(pages[i]))
  }

  /** The scan `max` makes: the best page so far is replaced only by a
      strictly later one. */
  function LatestFrom(pages: seq<FeedPage>, best: nat, i: nat): (r: nat)
    requires best < i <= |pages|
    requires forall j :: 0 <= j < i ==> Stamp(pages[j]) <= Stamp(pages[best])
    requires forall j :: 0 <= j < best ==> Stamp(pages[j]) < Stamp(pages[best])
    ensures FirstLatestAt(pages, r)
    decreases |pages| - i
  {
    if i == |pages| then best
    else if Stamp(pages[i]) > Stamp(pages[best]) then LatestFrom(pages, i, i + 1)
    else LatestFrom(pages, best, i + 1)
  }

  /** `max(pages, key=...)`: the first page with the latest date; an empty
      sequence is a `ValueError`. */
  function Latest(pages: seq<FeedPage>): (r: Result<FeedPage>)
    ensures r.Err? <==> |pages| == 0
    ensures r.Err? ==> r.error == ValueError
    ensures r.Ok? ==> exists i :: FirstLatestAt(pages, i) && pages[i] == r.value
  {
    if |pages| == 0 then Err(ValueError)
    else
      var i := LatestFrom(pages, 0, 1);
      Ok(pages[i])
  }

  // ---------------------------------------------------------------------
  // The group filter and `makeFeed`
  // ---------------------------------------------------------------------

  /** `page.group in groups` */
  predicate InGroups(page: FeedPage, groups: seq<string>) {
    page.group.Some? && page.group.value in groups
  }

  /** The pages of the listed groups, in order. */
  function FilterGroups(pages: seq<FeedPage>, groups: seq<string>): (r: seq<FeedPage>)
    ensures |r| <= |pages|
    ensures forall p :: p in r <==> p in pages && InGroups(p, groups)
  {
    if |pages| == 0 then []
    else
      var rest := FilterGroups(pages[1..], groups);
      assert forall p :: p in pages <==> p == pages[0] || p in pages[1..];
      if InGroups(pages[0], groups) then [pages[0]] + rest else rest
  }

  /** Filtering keeps the pages' order: it works piece by piece. */
  lemma {:induction false} FilterGroupsAppend(a: seq<FeedPage>, b: seq<FeedPage>, groups: seq<string>)
    ensures FilterGroups(a + b, groups) == FilterGroups(a, groups) + FilterGroups(b, groups)
    decreases |a|
  {
    if |a| == 0 {
      assert a + b == b;
    } else {
      assert (a + b)[0] == a[0];
      assert (a + b)[1..] == a[1..] + b;
      FilterGroupsAppend(a[1..], b, groups);
    }
  }

  /** `if groups: if page.group not in groups: continue`: an empty (or
      absent) group list keeps every page. */
  function Selected(pages: seq<FeedPage>, groups: seq<string>): (r: seq<FeedPage>)
    ensures |groups| == 0 ==> r == pages
    ensures |groups| > 0 ==> forall p :: p in r <==> p in pages && InGroups(p, groups)
  {
    if |groups| == 0 then pages else FilterGroups(pages, groups)
  }

  /** The files the feed is written to. */
  datatype Output = Atom(path: string) | Rss(path: string)

  /** The feed as data: id, title, the page that `updated` is set to, the
      entries, and the outputs written. */
  datatype Feed = Feed(id: string, title: Text, updated: FeedPage, entries: seq<Entry>, outputs: seq<Output>)

  /** `makeFeed(...)`: `max` is taken over all pages, the entries over the
      selected ones; the atom file is written before the rss file, and with
      neither the call ends in a `RuntimeError`. */
  function MakeFeed(feed: FeedConfig, site: SiteConfig, pages: seq<FeedPage>, groups: seq<string>,
                    atomFile: Text, rssFile: Text): (r: Result<Feed>)
    ensures |pages| == 0 ==> r == Err(ValueError)
    ensures r.Ok? ==> Truthy(atomFile) || Truthy(rssFile)
    ensures r.Ok? ==> exists i :: FirstLatestAt(pages, i) && pages[i] == r.value.updated
    ensures r.Ok? ==>
      var selected := Selected(pages, groups);
      && |r.value.entries| == |selected|
      && forall i :: 0 <= i < |selected| ==> MakeEntry(feed, site, selected[i]) == Ok(r.value.entries[i])
    ensures r.Ok? ==>
      r.value.outputs ==
        (if Truthy(atomFile) then [Atom(atomFile.value)] else []) +
        (if Truthy(rssFile) then [Rss(rssFile.value)] else [])
  {
    var updated :- Latest(pages);
    var entries :- MapAll((p: FeedPage) => MakeEntry(feed, site, p), Selected(pages, groups));
    var outputs :=
      (if Truthy(atomFile) then [Atom(atomFile.value)] else []) +
      (if Truthy(rssFile) then [Rss(rssFile.value)] else []);
    if !(Truthy(atomFile) || Truthy(rssFile)) then
      Err(RuntimeError("You must provide either an atom or an rss output file"))
    else
      Ok(Feed(feed.id, site.title, updated, entries, outputs))
  }

  /** The feed fails for lack of an output exactly when it has pages, every
      selected page makes an entry, and neither output file is given. */
  lemma MakeFeedNoOutput(feed: FeedConfig, site: SiteConfig, pages: seq<FeedPage>, groups: seq<string>,
                         atomFile: Text, rssFile: Text)
    requires |pages| > 0
    requires forall i :: 0 <= i < |Selected(pages, groups)| ==> MakeEntry(feed, site, Selected(pages, groups)[i]).Ok?
    ensures MakeFeed(feed, site, pages, groups, atomFile, rssFile).Err? <==> !Truthy(atomFile) && !Truthy(rssFile)
    ensures !Truthy(atomFile) && !Truthy(rssFile) ==>
      MakeFeed(feed, site, pages, groups, atomFile, rssFile) == Err(RuntimeError("You must provide either an atom or an rss output file"))
  {
  }
}
