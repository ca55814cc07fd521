/** The package's stand-alone build script: one index document and a
    directory of posts, each converted by Markdown with the "meta" extension,
    turned into records for a single template. The posts are sorted by date
    and every record gets the url `<slug>.html`.

    Markdown conversion is handed in as `convert`, which returns the HTML and
    the document's metadata (each key mapped to its list of lines). Reading
    files, the template and the asset copy are not part of this model. */
module BlogScript {
  import opened Wrappers
  import opened Strings
  import opened Paths
  import opened Sorting

  /** The metadata of one converted document. */
  type MetaLines = map<string, seq<string>>

  /** `md.convert(text)` together with the `md.Meta` it leaves behind. */
  type Converter = string -> (string, MetaLines)

  /** A post or the index, as the dict the script builds. The index has no
      date or description; `url` is set only once all records exist. */
  datatype Record = Record(
    title: string, slug: string, date: Option<string>, description: Option<string>,
    content: string, url: Option<string>)

  /** The exit the script takes on bad metadata (`sys.exit(1)`). */
  const BadMetadata: Error := Exit(1)

  /** `md.Meta[key][0]`, with both a `KeyError` and an `IndexError` ending
      the script. */
  function FirstLine(meta: MetaLines, key: string): (r: Result<string>)
    ensures r.Ok? <==> key in meta && |meta[key]| > 0
    ensures r.Ok? ==> r.value == meta[key][0]
    ensures r.Err? ==> r.error == BadMetadata
  {
    if key in meta && |meta[key]| > 0 then Ok(meta[key][0]) else Err(BadMetadata)
  }

  /** The index record: the first title line, the slug "index", and the
      converted document as content. */
  function IndexRecord(convert: Converter, text: string): (r: Result<Record>)
    ensures
      var (html, meta) := convert(text);
      && (r.Ok? <==> "title" in meta && |meta["title"]| > 0)
      && (r.Err? ==> r.error == BadMetadata)
      && (r.Ok? ==> r.value == Record(meta["title"][0], "index", None, None, html, None))
  {
    var (html, meta) := convert(text);
    var title :- FirstLine(meta, "title");
    Ok(Record(title, "index", None, None, html, None))
  }

  /** The record of the post in file `name`: title, date and description
      must each have a first line; the slug is the file name without its
      extension; the description is converted on its own. */
  function PostRecord(convert: Converter, name: string, text: string): (r: Result<Record>)
    ensures
      var (html, meta) := convert(text);
      && (r.Ok? <==> forall k :: k in ["title", "date", "description"] ==> k in meta && |meta[k]| > 0)
      && (r.Err? ==> r.error == BadMetadata)
      && (r.Ok? ==>
            && r.value.title == meta["title"][0]
            && r.value.date == Some(meta["date"][0])
            && r.value.description == Some(convert(meta["description"][0]).0)
            && r.value.content == html
            && r.value.url.None?)
    ensures r.Ok? ==> r.value.slug + SplitExt(name).1 == name
  {
    var (html, meta) := convert(text);
    var title :- FirstLine(meta, "title");
    var date :- FirstLine(meta, "date");
    var description :- FirstLine(meta, "description");
    Ok(Record(title, StripExt(name), Some(date), Some(convert(description).0), html, None))
  }

  /** `posts.sort(key=lambda x: x["date"])`: dates are compared as strings. */
  function DateKey(): Record -> Key {
    (r: Record) => StrKey(if r.date.Some? then r.date.value else "")
  }

  /** `page["url"] = f"{slug}.html"` */
  function WithUrl(r: Record): (r': Record)
    ensures r'.url == Some(r.slug + ".html")
    ensures r' == r.(url := r'.url)
  {
    r.(url := Some(r.slug + ".html"))
  }

  function WithUrls(rs: seq<Record>): (r: seq<Record>)
    ensures |r| == |rs|
    ensures forall i :: 0 <= i < |rs| ==> r[i] == WithUrl(rs[i])
  {
    if |rs| == 0 then [] else [WithUrl(rs[0])] + WithUrls(rs[1..])
  }

  /** The records the template sees: the index, and the posts sorted by
      date, every one with its url. The posts are given as (file name,
      text) pairs in listing order; the first bad document ends the script. */
  datatype Site = Site(index: Record, posts: seq<Record>)

  function BuildRecords(convert: Converter, indexText: string, postFiles: seq<(string, string)>): (r: Result<Site>)
    ensures IndexRecord(convert, indexText).Err? ==> r == Err(BadMetadata)
    ensures r.Ok? ==> IndexRecord(convert, indexText).Ok? && r.value.index == WithUrl(IndexRecord(convert, indexText).value)
    ensures r.Ok? <==> IndexRecord(convert, indexText).Ok? && forall i :: 0 <= i < |postFiles| ==> PostRecord(convert, postFiles[i].0, postFiles[i].1).Ok?
    ensures r.Ok? ==>
      var posts := MapAll((f: (string, string)) => PostRecord(convert, f.0, f.1), postFiles).value;
      && |r.value.posts| == |postFiles|
      && r.value.posts == WithUrls(Sort(posts, DateKey(), false))
  {
    var index :- IndexRecord(convert, indexText);
    var posts :- MapAll((f: (string, string)) => PostRecord(convert, f.0, f.1), postFiles);
    Ok(Site(WithUrl(index), WithUrls(Sort(posts, DateKey(), false))))
  }

  /** Every record's url is its slug with ".html". */
  predicate UrlsFromSlugs(site: Site) {
    && site.index.url == Some(site.index.slug + ".html")
    && forall i :: 0 <= i < |site.posts| ==> site.posts[i].url == Some(site.posts[i].slug + ".html")
  }

  /** Every post is there once, ascending by date, posts with equal dates
      in listing order; the index is named "index" and every url names its
      record's own slug. */
  lemma BuildRecordsPosts(convert: Converter, indexText: string, postFiles: seq<(string, string)>)
    requires BuildRecords(convert, indexText, postFiles).Ok?
    ensures
      var posts := MapAll((f: (string, string)) => PostRecord(convert, f.0, f.1), postFiles).value;
      var site := BuildRecords(convert, indexText, postFiles).value;
      var sorted := Sort(posts, DateKey(), false);
      && multiset(sorted) == multiset(posts)
      && Sorted(sorted, DateKey(), false)
      && (forall k :: WithKey(sorted, DateKey(), k) == WithKey(posts, DateKey(), k))
      && site.index.slug == "index"
      && UrlsFromSlugs(site)
  {
    var index := IndexRecord(convert, indexText).value;
    assert index.slug == "index";
  }

  /** The files the script writes: `output/index.html` for the index, then
      `output/<slug>.html` for each post in order. */
  function OutputPaths(site: Site): (r: seq<string>)
    ensures |r| == |site.posts| + 1
  {
    ["output/index.html"] + seq(|site.posts|, i requires 0 <= i < |site.posts| => "output/" + site.posts[i].slug + ".html")
  }

  /** Each file written is the record's url under `output/`, so the links
      the template builds from urls reach the written pages. */
  lemma OutputPathsMatchUrls(site: Site)
    requires site.index.slug == "index" && UrlsFromSlugs(site)
    ensures
      var paths := OutputPaths(site);
      var records := [site.index] + site.posts;
      forall i :: 0 <= i < |paths| ==> records[i].url.Some? && paths[i] == "output/" + records[i].url.value
  {
    var paths := OutputPaths(site);
    var records := [site.index] + site.posts;
    forall i | 0 <= i < |paths|
      ensures records[i].url.Some? && paths[i] == "output/" + records[i].url.value
    {
      if i > 0 {
        assert records[i] == site.posts[i - 1];
      }
    }
  }
}
