/** The content step of the site build: reading the configured page and
    asset collections into a nested dict of page records and asset paths,
    and the set of page files the render step writes.

    The file system is a value: the contents of the regular files and the
    listings of the directories. Markdown conversion, the TOML parser and
    template rendering are not part of this model; they are handed in as
    functions. */
module Build {
  import opened Wrappers
  import opened Strings
  import opened Paths
  import opened Dicts
  import opened Toml
  import opened Sorting
  import Meta

  // ---------------------------------------------------------------------
  // Files and markdown
  // ---------------------------------------------------------------------

  /** The regular files with their contents, and the directories with
      their listings (the names `os.listdir` returns, in its order). */
  datatype FileSystem = FileSystem(files: map<string, string>, listings: map<string, seq<string>>)

  /** `open(path).read()` */
  function ReadFile(fs: FileSystem, path: string): (r: Result<string>)
    ensures r.Ok? <==> path in fs.files
    ensures r.Ok? ==> r.value == fs.files[path]
    ensures r.Err? ==> r.error == FileNotFound(path)
  {
    if path in fs.files then Ok(fs.files[path]) else Err(FileNotFound(path))
  }

  /** `os.listdir(path)` */
  function ListDir(fs: FileSystem, path: string): (r: Result<seq<string>>)
    ensures r.Ok? <==> path in fs.listings
    ensures r.Ok? ==> r.value == fs.listings[path]
    ensures r.Err? ==> r.error == FileNotFound(path)
  {
    if path in fs.listings then Ok(fs.listings[path]) else Err(FileNotFound(path))
  }

  /** The markdown instance: its source normalisation before the text is
      split into lines, the TOML parser of the front-matter preprocessor, and
      the rest of the pipeline from preprocessed lines to html. */
  datatype Markdown = Markdown(
    normalize: string -> string,
    loads: string -> Result<Table>,
    render: seq<string> -> string)

  /** `md.convert(text)` followed by reading `md.Meta`, with the metadata
      reset for the document: the html and the front matter. */
  function Convert(md: Markdown, text: string): (r: Result<(string, Table)>)
    ensures
      var lines := Split(md.normalize(text), '\n');
      !Meta.IsBegin(lines[0]) ==> r == Ok((md.render(lines), map[]))
  {
    var lines := Split(md.normalize(text), '\n');
    var (meta, body) :- Meta.Run(md.loads, Meta.Reset(), lines);
    Ok((md.render(body), meta))
  }

  // ---------------------------------------------------------------------
  // `loadPage`
  // ---------------------------------------------------------------------

  /** The url of the page read from `path`: the path without its extension,
      with ".html" appended. */
  function PageUrl(path: string): (url: string)
    ensures EndsWith(url, ".html")
    ensures StartsWith(url, StripExt(path)) && |url| == |StripExt(path)| + 5
  {
    var url := StripExt(path) + ".html";
    assert url[|url| - 5..] == ".html";
    assert url[..|StripExt(path)|] == StripExt(path);
    url
  }

  /** `loadPage(path, md)`: the page's front matter with `url` set and the
      html stored under `content`; a front matter that already has a
      `content` key is refused with a bare `KeyError`. */
  function LoadPage(fs: FileSystem, md: Markdown, path: string): (r: Result<Table>)
    ensures path !in fs.files ==> r == Err(FileNotFound(path))
    ensures path in fs.files && Convert(md, fs.files[path]).Err? ==> r == Err(Convert(md, fs.files[path]).error)
    ensures path in fs.files && Convert(md, fs.files[path]).Ok? ==>
      var (html, meta) := Convert(md, fs.files[path]).value;
      && ("content" in meta ==> r == Err(BareKeyError))
      && ("content" !in meta ==>
            && r.Ok?
            && r.value.Keys == meta.Keys + {"url", "content"}
            && r.value["url"] == Str(PageUrl(path))
            && r.value["content"] == Str(html)
            && forall k :: k in meta && k != "url" ==> r.value[k] == meta[k])
  {
    var body :- ReadFile(fs, path);
    var (html, meta) :- Convert(md, body);
    var meta' := meta["url" := Str(PageUrl(path))];
    if "content" in meta' then Err(BareKeyError)
    else Ok(meta'["content" := Str(html)])
  }

  // ---------------------------------------------------------------------
  // `readSiteFiles`
  // ---------------------------------------------------------------------

  /** A collection of the configuration: explicit files, directories whose
      regular files form one list each, and the optional sort keys. An
      absent list is an empty one. */
  datatype Collection = Collection(
    files: seq<string>,
    directories: seq<string>,
    sortBy: Option<string>,
    sortByReverse: Option<string>)

  /** An entry of a collection: one file's data, or the list of a
      directory's files' data. */
  datatype Entry<D> = Single(data: D) | Listing(items: seq<D>)

  /** The contents of a collection: page records for "pages", paths for
      every other collection. */
  datatype Section = Pages(pages: Dict<string, Entry<Table>>) | Assets(assets: Dict<string, Entry<string>>)

  /** A TOML list of strings. */
  function StrList(vs: seq<Value>): (r: Result<seq<string>>)
    ensures r.Ok? <==> forall i :: 0 <= i < |vs| ==> vs[i].Str?
    ensures r.Ok? ==> |r.value| == |vs| && forall i :: 0 <= i < |vs| ==> vs[i] == Str(r.value[i])
    ensures r.Err? ==> r.error == TypeError
  {
    if |vs| == 0 then Ok([])
    else if !vs[0].Str? then Err(TypeError)
    else
      var rest := StrList(vs[1..]);
      assert forall i :: 1 <= i < |vs| ==> vs[i] == vs[1..][i - 1];
      if rest.Err? then Err(TypeError) else Ok([vs[0].s] + rest.value)
  }

  function StrItems(v: Value): (r: Result<seq<string>>)
    ensures v.Array? ==> r == StrList(v.items)
    ensures !v.Array? ==> r == Err(TypeError)
  {
    if v.Array? then StrList(v.items) else Err(TypeError)
  }

  /** An optional sort key, which names a front-matter key. */
  function SortKeyOf(v: Option<Value>): (r: Result<Option<string>>)
    ensures r.Ok? <==> v.None? || v.value.Str?
    ensures r.Ok? ==> (r.value.Some? <==> v.Some?) && (r.value.Some? ==> v.value == Str(r.value.value))
    ensures r.Err? ==> r.error == TypeError
  {
    match v
    case None => Ok(None)
    case Some(Str(s)) => Ok(Some(s))
    case Some(_) => Err(TypeError)
  }

  /** `key` is absent or holds a list of strings. */
  predicate ListAt(m: Table, key: string) {
    key in m ==> m[key].Array? && forall i :: 0 <= i < |m[key].items| ==> m[key].items[i].Str?
  }

  /** `xs` is the list of strings under `key`, or empty when it is absent. */
  predicate ListIs(m: Table, key: string, xs: seq<string>) {
    && (key !in m ==> xs == [])
    && (key in m ==> m[key].Array? && |m[key].items| == |xs| && forall i :: 0 <= i < |xs| ==> m[key].items[i] == Str(xs[i]))
  }

  /** `key` is absent or holds a string. */
  predicate KeyAt(m: Table, key: string) {
    key in m ==> m[key].Str?
  }

  function ListOf(m: Table, key: string): (r: Result<seq<string>>)
    ensures r.Ok? <==> ListAt(m, key)
    ensures r.Ok? ==> ListIs(m, key, r.value)
    ensures r.Err? ==> r.error == TypeError
  {
    if key in m then StrItems(m[key]) else Ok([])
  }

  /** A collection read from its configuration table as the build step
      reads it (`"files" in fileCollection`, `fileCollection["sortBy"]`):
      a missing list is an empty one, and each sort key is present exactly
      when its own entry is. */
  function CollectionOf(m: Table): (r: Result<Collection>)
    ensures r.Ok? <==> ListAt(m, "files") && ListAt(m, "directories") && KeyAt(m, "sortBy") && KeyAt(m, "sortByReverse")
    ensures r.Err? ==> r.error == TypeError
    ensures r.Ok? ==> ListIs(m, "files", r.value.files) && ListIs(m, "directories", r.value.directories)
    ensures r.Ok? ==> (r.value.sortBy.Some? <==> "sortBy" in m) && (r.value.sortBy.Some? ==> m["sortBy"] == Str(r.value.sortBy.value))
    ensures r.Ok? ==> (r.value.sortByReverse.Some? <==> "sortByReverse" in m) && (r.value.sortByReverse.Some? ==> m["sortByReverse"] == Str(r.value.sortByReverse.value))
  {
    var files :- ListOf(m, "files");
    var directories :- ListOf(m, "directories");
    var sortBy :- SortKeyOf(if "sortBy" in m then Some(m["sortBy"]) else None);
    var sortByReverse :- SortKeyOf(if "sortByReverse" in m then Some(m["sortByReverse"]) else None);
    Ok(Collection(files, directories, sortBy, sortByReverse))
  }

  /** The key an explicit file is stored under: its base name without
      extension. */
  function FileName(path: string): (name: string)
    ensures '/' !in name
  {
    var b := Basename(path);
    RootOfSlashFree(b);
    StripExt(b)
  }

  /** The key is the base name with its extension, as `SplitExt` pins it,
      removed: for "posts/a.tar.gz" it is "a.tar", for "posts/.bashrc" it
      is ".bashrc". */
  lemma FileNameIsStem(path: string)
    ensures FileName(path) == SplitExt(Basename(path)).0
    ensures FileName(path) + SplitExt(Basename(path)).1 == Basename(path)
    ensures SplitExt(Basename(path)).1 != "" <==> HasExtension(Basename(path))
    ensures SplitExt(Basename(path)).1 != "" ==> '.' !in SplitExt(Basename(path)).1[1..]
  {
  }

  /** The data stored for an explicit asset file, as the source writes it:
      the file's path joined with its own stripped name. */
  function AssetPathAsWritten(path: string): (p: string)
    ensures Basename(p) == FileName(path)
    ensures StartsWith(p, path)
  {
    BasenameOfJoin(path, FileName(path));
    JoinPath(path, FileName(path))
  }

  /** The data stored for an explicit asset file, as the documentation
      ("assetPaths are just the full path to the file") and the directory
      case intend: its path. */
  function AssetPath(path: string): string {
    path
  }

  /** For a file with an extension the written asset path names a file
      inside a directory named like the asset itself, so it is never the
      asset's path. */
  lemma AssetPathAsWrittenWrong()
    ensures AssetPathAsWritten("site.css") == "site.css/site"
    ensures AssetPathAsWritten("site.css") != AssetPath("site.css")
  {
    SiteCssName();
    JoinSiteCss();
  }

  lemma JoinSiteCss()
    ensures JoinPath("site.css", "site") == "site.css/site"
  {
    var name := "site";
    var dir := "site.css";
    assert name[0] == 's';
    assert !StartsWith(name, "/");
    assert dir[|dir| - 1] == 's';
    assert !EndsWith(dir, "/");
    assert dir + "/" + name == "site.css/site";
  }

  lemma SiteCssName()
    ensures Basename("site.css") == "site.css"
    ensures FileName("site.css") == "site"
  {
    assert LastIndex("site.css", '/') == -1 by {
      LastIndexIs("site.css", '/', -1);
    }
    assert LastIndex("site.css", '.') == 4 by {
      LastIndexIs("site.css", '.', 4);
    }
    assert OnlyDots("site.css", 0, 4) == false;
    assert StripExt("site.css") == "site";
  }

  /** The paths of the regular files of a directory listing, in listing
      order; subdirectories are skipped. */
  function RegularFiles(fs: FileSystem, dir: string, names: seq<string>): (paths: seq<string>)
    ensures |paths| <= |names|
    ensures forall p :: p in paths <==> p in fs.files && exists n :: n in names && p == JoinPath(dir, n)
  {
    if |names| == 0 then []
    else
      var rest := RegularFiles(fs, dir, names[1..]);
      var p := JoinPath(dir, names[0]);
      assert forall n :: n in names <==> n == names[0] || n in names[1..];
      if p in fs.files then [p] + rest else rest
  }

  /** Listing more names adds their regular files after the others: one
      path per regular file, in listing order. */
  lemma {:induction false} RegularFilesAppend(fs: FileSystem, dir: string, a: seq<string>, b: seq<string>)
    ensures RegularFiles(fs, dir, a + b) == RegularFiles(fs, dir, a) + RegularFiles(fs, dir, b)
    ensures |a| == 1 ==> RegularFiles(fs, dir, a) == if JoinPath(dir, a[0]) in fs.files then [JoinPath(dir, a[0])] else []
    decreases |a|
  {
    if |a| > 0 {
      assert (a + b)[0] == a[0];
      assert (a + b)[1..] == a[1..] + b;
      RegularFilesAppend(fs, dir, a[1..], b);
    } else {
      assert a + b == b;
    }
  }

  /** The explicit files of a collection, stored left to right under their
      names: a later file with the same name replaces the earlier one in
      its place. */
  function ReadFiles<D>(load: string -> Result<D>, paths: seq<string>, acc: Dict<string, Entry<D>>): (r: Result<Dict<string, Entry<D>>>) {
    ReadFilesBy(FileName, load, paths, acc)
  }

  /** The loop of `ReadFiles`, for any way `nameOf` of naming a file. It
      succeeds exactly when every file loads, and otherwise fails with the
      error of the first file that does not. */
  function ReadFilesBy<D>(nameOf: string -> string, load: string -> Result<D>, paths: seq<string>,
                          acc: Dict<string, Entry<D>>): (r: Result<Dict<string, Entry<D>>>)
    ensures r.Ok? <==> forall i :: 0 <= i < |paths| ==> load(paths[i]).Ok?
    ensures r.Err? ==> exists i :: 0 <= i < |paths| && load(paths[i]) == Err(r.error) && forall j :: 0 <= j < i ==> load(paths[j]).Ok?
    decreases |paths|
  {
    if |paths| == 0 then Ok(acc)
    else
      var data :- load(paths[0]);
      var r := ReadFilesBy(nameOf, load, paths[1..], Put(acc, nameOf(paths[0]), Single(data)));
      assert forall i :: 1 <= i < |paths| ==> paths[i] == paths[1..][i - 1];
      r
  }

  /** A directory's entry: the data of its regular files, in listing
      order, arranged. A missing directory is `FileNotFound`, and every
      regular file in it must load. */
  function DirectoryData<D>(fs: FileSystem, load: string -> Result<D>, arrange: seq<D> -> Result<seq<D>>, dir: string): (r: Result<seq<D>>)
    ensures dir !in fs.listings ==> r == Err(FileNotFound(dir))
    ensures r.Ok? ==> dir in fs.listings && forall p :: p in RegularFiles(fs, dir, fs.listings[dir]) ==> load(p).Ok?
  {
    var listing :- ListDir(fs, dir);
    var loaded :- MapAll(load, RegularFiles(fs, dir, listing));
    arrange(loaded)
  }

  /** The directories of a collection, each stored under its path. It
      succeeds exactly when every directory can be read. */
  function ReadDirectories<D>(fs: FileSystem, load: string -> Result<D>, arrange: seq<D> -> Result<seq<D>>,
                              dirs: seq<string>, acc: Dict<string, Entry<D>>): (r: Result<Dict<string, Entry<D>>>)
    ensures r.Ok? <==> forall i :: 0 <= i < |dirs| ==> DirectoryData(fs, load, arrange, dirs[i]).Ok?
    decreases |dirs|
  {
    if |dirs| == 0 then Ok(acc)
    else
      var items :- DirectoryData(fs, load, arrange, dirs[0]);
      var r := ReadDirectories(fs, load, arrange, dirs[1..], Put(acc, dirs[0], Listing(items)));
      assert forall i :: 1 <= i < |dirs| ==> dirs[i] == dirs[1..][i - 1];
      r
  }

  /** One collection: its explicit files first, loaded by `fileLoad`, then
      its directories, whose files are loaded by `dirLoad`. It succeeds
      exactly when every explicit file loads and every directory can be
      read. */
  function ReadCollection<D>(fs: FileSystem, fileLoad: string -> Result<D>, dirLoad: string -> Result<D>,
                             arrange: seq<D> -> Result<seq<D>>, coll: Collection): (r: Result<Dict<string, Entry<D>>>)
    ensures r.Ok? <==>
      && (forall i :: 0 <= i < |coll.files| ==> fileLoad(coll.files[i]).Ok?)
      && (forall i :: 0 <= i < |coll.directories| ==> DirectoryData(fs, dirLoad, arrange, coll.directories[i]).Ok?)
  {
    var withFiles :- ReadFiles(fileLoad, coll.files, []);
    ReadDirectories(fs, dirLoad, arrange, coll.directories, withFiles)
  }

  // ---------------------------------------------------------------------
  // Sorting a directory's pages
  // ---------------------------------------------------------------------

  /** The order Python gives a front-matter value, if it has one this model
      covers: strings, integers (booleans count as 0 and 1) and datetimes. */
  function KeyOf(v: Value): Option<Key> {
    match v
    case Str(s) => Some(StrKey(s))
    case Int(i) => Some(IntKey(i))
    case Bool(b) => Some(IntKey(if b then 1 else 0))
    case DateTime(t) => Some(DateKey(t))
    case _ => None
  }

  /** The sort key of a page for the front-matter key `k`. */
  function PageKey(k: string): Table -> Key {
    (p: Table) => if k in p && KeyOf(p[k]).Some? then KeyOf(p[k]).value else IntKey(0)
  }

  /** Every page's value for `k` has an order, and all of one kind, so that
      Python can compare any two of them. */
  predicate Comparable(pages: seq<Table>, k: string)
    requires forall i :: 0 <= i < |pages| ==> k in pages[i]
  {
    forall i :: 0 <= i < |pages| ==>
      && KeyOf(pages[0][k]).Some?
      && KeyOf(pages[i][k]).Some?
      && Rank(KeyOf(pages[i][k]).value) == Rank(KeyOf(pages[0][k]).value)
  }

  /** `pages.sort(key=lambda x: x[k], reverse=desc)`: every key is read
      first, so a page without `k` is a `KeyError`; two values Python cannot
      compare are a `TypeError`; otherwise a stable sort. */
  function SortPages(pages: seq<Table>, k: string, desc: bool): (r: Result<seq<Table>>)
    ensures (exists i :: 0 <= i < |pages| && k !in pages[i]) ==> r == Err(KeyError(k))
    ensures r.Ok? <==> (forall i :: 0 <= i < |pages| ==> k in pages[i]) && (|pages| < 2 || Comparable(pages, k))
    ensures r.Ok? ==>
      && multiset(r.value) == multiset(pages)
      && Sorted(r.value, PageKey(k), desc)
      && forall key :: WithKey(r.value, PageKey(k), key) == WithKey(pages, PageKey(k), key)
    ensures r.Err? ==> r.error == KeyError(k) || r.error == TypeError
  {
    if exists i :: 0 <= i < |pages| && k !in pages[i] then Err(KeyError(k))
    else if |pages| >= 2 && !Comparable(pages, k) then Err(TypeError)
    else Ok(Sort(pages, PageKey(k), desc))
  }

  /** The sort step for a directory's pages: ascending by "sortBy" if set,
      else descending by "sortByReverse" if set, else listing order. */
  function SortListing(pages: seq<Table>, coll: Collection): (r: Result<seq<Table>>)
    ensures coll.sortBy.None? && coll.sortByReverse.None? ==> r == Ok(pages)
    ensures r.Ok? ==> multiset(r.value) == multiset(pages)
    ensures r.Ok? && coll.sortBy.Some? ==>
      && Sorted(r.value, PageKey(coll.sortBy.value), false)
      && forall key :: WithKey(r.value, PageKey(coll.sortBy.value), key) == WithKey(pages, PageKey(coll.sortBy.value), key)
    ensures r.Ok? && coll.sortBy.None? && coll.sortByReverse.Some? ==>
      && Sorted(r.value, PageKey(coll.sortByReverse.value), true)
      && forall key :: WithKey(r.value, PageKey(coll.sortByReverse.value), key) == WithKey(pages, PageKey(coll.sortByReverse.value), key)
  {
    if coll.sortBy.Some? then SortPages(pages, coll.sortBy.value, false)
    else if coll.sortByReverse.Some? then SortPages(pages, coll.sortByReverse.value, true)
    else Ok(pages)
  }

  /** The page loader and sort step of a "pages" collection, and the
      (identity) ones of any other collection. */
  function PageLoader(fs: FileSystem, md: Markdown): string -> Result<Table> {
    (p: string) => LoadPage(fs, md, p)
  }

  function PageArranger(coll: Collection): seq<Table> -> Result<seq<Table>> {
    (pages: seq<Table>) => SortListing(pages, coll)
  }

  /** The data of an asset file found in a directory: its path. */
  function AssetLoader(): string -> Result<string> {
    (p: string) => Ok(p)
  }

  /** The data of an explicit asset file, given how it is derived from the
      path: `AssetPathAsWritten` in the source, `AssetPath` as intended. */
  function AssetFileLoader(assetFile: string -> string): string -> Result<string> {
    (p: string) => Ok(assetFile(p))
  }

  function AssetArranger(): seq<string> -> Result<seq<string>> {
    (paths: seq<string>) => Ok(paths)
  }

  /** One collection of the configuration, read as its kind demands: the
      "pages" collection as page records, any other as asset paths. An
      asset collection fails only on a directory that does not exist; a
      page collection needs every page to load and every directory to be
      read and sorted. */
  function ReadSection(fs: FileSystem, md: Markdown, assetFile: string -> string, fileType: string, coll: Collection): (r: Result<Section>)
    ensures r.Ok? ==> (r.value.Pages? <==> fileType == "pages")
    ensures fileType == "pages" ==>
      (r.Ok? <==>
        && (forall i :: 0 <= i < |coll.files| ==> LoadPage(fs, md, coll.files[i]).Ok?)
        && (forall i :: 0 <= i < |coll.directories| ==> DirectoryData(fs, PageLoader(fs, md), PageArranger(coll), coll.directories[i]).Ok?))
    ensures fileType != "pages" ==> (r.Ok? <==> forall i :: 0 <= i < |coll.directories| ==> coll.directories[i] in fs.listings)
  {
    if fileType == "pages" then
      var d :- ReadCollection(fs, PageLoader(fs, md), PageLoader(fs, md), PageArranger(coll), coll);
      Ok(Pages(d))
    else
      AssetDirectoriesRead(fs, coll.directories);
      var d :- ReadCollection(fs, AssetFileLoader(assetFile), AssetLoader(), AssetArranger(), coll);
      Ok(Assets(d))
  }

  /** `readSiteFiles(contentFiles, md)` as the source writes it: every
      collection, in the configuration's order, stored under its name, with
      an explicit asset file stored as `AssetPathAsWritten` of its path. */
  function ReadSiteFiles(fs: FileSystem, md: Markdown, contentFiles: Dict<string, Collection>): (r: Result<Dict<string, Section>>)
  {
    ReadSections(fs, md, AssetPathAsWritten, contentFiles, [])
  }

  /** `readSiteFiles` with an explicit asset file stored as its path, as the
      directory case and the documentation have it. */
  function ReadSiteFilesCorrected(fs: FileSystem, md: Markdown, contentFiles: Dict<string, Collection>): (r: Result<Dict<string, Section>>)
  {
    ReadSections(fs, md, AssetPath, contentFiles, [])
  }

  function ReadSections(fs: FileSystem, md: Markdown, assetFile: string -> string, todo: Dict<string, Collection>,
                        acc: Dict<string, Section>): (r: Result<Dict<string, Section>>)
  {
    ReadEach(SectionReader(fs, md, assetFile), todo, acc)
  }

  function SectionReader(fs: FileSystem, md: Markdown, assetFile: string -> string): (string, Collection) -> Result<Section> {
    (fileType: string, coll: Collection) => ReadSection(fs, md, assetFile, fileType, coll)
  }

  /** The loop of `readSiteFiles`: each collection read with `read` and
      stored under its name, in order; the first failure stops it. */
  function ReadEach(read: (string, Collection) -> Result<Section>, todo: Dict<string, Collection>,
                    acc: Dict<string, Section>): (r: Result<Dict<string, Section>>)
    decreases |todo|
  {
    if |todo| == 0 then Ok(acc)
    else
      var section :- read(todo[0].0, todo[0].1);
      ReadEach(read, todo[1..], Put(acc, todo[0].0, section))
  }

  // ---------------------------------------------------------------------
  // `buildContentFiles`
  // ---------------------------------------------------------------------

  /** One rendered page: the file written, the template used, the page. */
  datatype Write = Write(target: string, template: string, page: Table)

  /** The writes done before the build stopped, and why it stopped. */
  datatype Outcome = Outcome(writes: seq<Write>, failure: Option<Error>)

  /** `buildOneFile(page)`: the template named by the page must be known;
      the output file is `<buildDir>/<url>`. */
  function BuildOne(buildDir: string, templates: set<string>, page: Table): (r: Result<Write>)
    ensures r.Ok? <==>
      && "template" in page && page["template"].Str? && page["template"].s in templates
      && "url" in page && page["url"].Str?
    ensures r.Ok? ==> r.value.page == page && page["template"] == Str(r.value.template)
    ensures r.Ok? ==>
      && StartsWith(r.value.target, buildDir + "/")
      && page["url"] == Str(r.value.target[|buildDir| + 1..])
    ensures "template" !in page ==> r == Err(KeyError("template"))
    ensures "template" in page && page["template"].Str? && page["template"].s !in templates ==> r == Err(KeyError(page["template"].s))
    ensures "template" in page && page["template"].Str? && page["template"].s in templates && "url" !in page ==> r == Err(KeyError("url"))
  {
    if "template" !in page then Err(KeyError("template"))
    else
      var t := page["template"];
      if !t.Str? then Err(TypeError)
      else if t.s !in templates then Err(KeyError(t.s))
      else if "url" !in page then Err(KeyError("url"))
      else if !page["url"].Str? then Err(TypeError)
      else
        var target := buildDir + "/" + page["url"].s;
        assert target[..|buildDir| + 1] == buildDir + "/";
        assert target[|buildDir| + 1..] == page["url"].s;
        Ok(Write(target, t.s, page))
  }

  /** Pages rendered one after the other until one fails. */
  function WritePages(buildDir: string, templates: set<string>, pages: seq<Table>): (r: Outcome)
    ensures |r.writes| <= |pages|
    decreases |pages|
  {
    if |pages| == 0 then Outcome([], None)
    else
      match BuildOne(buildDir, templates, pages[0])
      case Err(e) => Outcome([], Some(e))
      case Ok(w) =>
        var rest := WritePages(buildDir, templates, pages[1..]);
        Outcome([w] + rest.writes, rest.failure)
  }

  /** The loop of `buildContentFiles` over the "pages" dict: a single page
      is rendered, a list is rendered element by element. */
  function WriteEntries(buildDir: string, templates: set<string>, entries: Dict<string, Entry<Table>>): (r: Outcome)
    decreases |entries|
  {
    if |entries| == 0 then Outcome([], None)
    else
      var first := match entries[0].1
        case Single(page) => WritePages(buildDir, templates, [page])
        case Listing(pages) => WritePages(buildDir, templates, pages);
      if first.failure.Some? then first
      else
        var rest := WriteEntries(buildDir, templates, entries[1..]);
        Outcome(first.writes + rest.writes, rest.failure)
  }

  /** `buildContentFiles(siteConfig, content, templates, buildConfig)` as
      the files written; `content["pages"]` must exist, and holds page
      records since `readSiteFiles` reads the "pages" collection as pages. */
  function ContentWrites(buildDir: string, templates: set<string>, content: Dict<string, Section>): (r: Outcome)
    requires Get(content, "pages").Some? ==> Get(content, "pages").value.Pages?
    ensures Get(content, "pages").None? ==> r == Outcome([], Some(KeyError("pages")))
  {
    match Get(content, "pages")
    case None => Outcome([], Some(KeyError("pages")))
    case Some(section) => if section.Pages? then WriteEntries(buildDir, templates, section.pages) else Outcome([], None)
  }

  // ---------------------------------------------------------------------
  // Properties of `readSiteFiles`
  // ---------------------------------------------------------------------

  /** The index of the last path that `nameOf` names `name`, or -1. */
  function LastNamed(nameOf: string -> string, paths: seq<string>, name: string): (j: int)
    ensures -1 <= j < |paths|
    ensures j >= 0 ==> nameOf(paths[j]) == name
    ensures forall i :: j < i < |paths| ==> nameOf(paths[i]) != name
  {
    if |paths| == 0 then -1
    else
      var j := LastNamed(nameOf, paths[1..], name);
      if j >= 0 then j + 1
      else if nameOf(paths[0]) == name then 0
      else -1
  }

  /** After reading the explicit files, the entry under a name is the data
      of the last file with that name; other keys keep their entries. Every
      file was loaded. */
  lemma {:induction false} ReadFilesGet<D>(nameOf: string -> string, load: string -> Result<D>, paths: seq<string>,
                                           acc: Dict<string, Entry<D>>, name: string)
    requires ReadFilesBy(nameOf, load, paths, acc).Ok?
    ensures forall i :: 0 <= i < |paths| ==> load(paths[i]).Ok?
    ensures
      var j := LastNamed(nameOf, paths, name);
      Get(ReadFilesBy(nameOf, load, paths, acc).value, name) == if j >= 0 then Some(Single(load(paths[j]).value)) else Get(acc, name)
    decreases |paths|
  {
    if |paths| > 0 {
      var acc' := ReadFilesStep(nameOf, load, paths, acc);
      ReadFilesGet(nameOf, load, paths[1..], acc', name);
      var j' := LastNamed(nameOf, paths[1..], name);
      if j' >= 0 {
        assert paths[1..][j'] == paths[j' + 1];
      }
      forall i | 1 <= i < |paths| ensures load(paths[i]).Ok? {
        assert paths[i] == paths[1..][i - 1];
      }
    }
  }

  /** One step of reading explicit files: the first file is loaded and
      stored under its name. */
  lemma ReadFilesStep<D>(nameOf: string -> string, load: string -> Result<D>, paths: seq<string>,
                         acc: Dict<string, Entry<D>>) returns (acc': Dict<string, Entry<D>>)
    requires |paths| > 0 && ReadFilesBy(nameOf, load, paths, acc).Ok?
    ensures load(paths[0]).Ok?
    ensures acc' == Put(acc, nameOf(paths[0]), Single(load(paths[0]).value))
    ensures ReadFilesBy(nameOf, load, paths[1..], acc') == ReadFilesBy(nameOf, load, paths, acc)
  {
    acc' := Put(acc, nameOf(paths[0]), Single(load(paths[0]).value));
  }

  /** Storing keeps the keys already there, in their places, in front. */
  lemma PutKeepsPrefix<K(!new), V>(d: Dict<K, V>, k: K, v: V)
    ensures |Keys(d)| <= |Keys(Put(d, k, v))|
    ensures Keys(Put(d, k, v))[..|Keys(d)|] == Keys(d)
  {
  }

  /** Reading files keeps the keys already there, in front. */
  lemma {:induction false} ReadFilesKeepsPrefix<D>(nameOf: string -> string, load: string -> Result<D>, paths: seq<string>,
                                                   acc: Dict<string, Entry<D>>)
    requires ReadFilesBy(nameOf, load, paths, acc).Ok?
    ensures |Keys(acc)| <= |Keys(ReadFilesBy(nameOf, load, paths, acc).value)|
    ensures Keys(ReadFilesBy(nameOf, load, paths, acc).value)[..|Keys(acc)|] == Keys(acc)
    decreases |paths|
  {
    if |paths| > 0 {
      var acc' := ReadFilesStep(nameOf, load, paths, acc);
      PutKeepsPrefix(acc, nameOf(paths[0]), Single(load(paths[0]).value));
      ReadFilesKeepsPrefix(nameOf, load, paths[1..], acc');
      var r := Keys(ReadFilesBy(nameOf, load, paths, acc).value);
      assert r[..|Keys(acc')|][..|Keys(acc)|] == r[..|Keys(acc)|];
    }
  }

  /** After reading the directories, the entry under a listed directory is
      its arranged data; other keys keep their entries. Every listed
      directory was read. */
  lemma {:induction false} ReadDirectoriesGet<D>(fs: FileSystem, load: string -> Result<D>, arrange: seq<D> -> Result<seq<D>>,
                                                 dirs: seq<string>, acc: Dict<string, Entry<D>>, key: string)
    requires ReadDirectories(fs, load, arrange, dirs, acc).Ok?
    ensures forall i :: 0 <= i < |dirs| ==> DirectoryData(fs, load, arrange, dirs[i]).Ok?
    ensures Get(ReadDirectories(fs, load, arrange, dirs, acc).value, key) ==
      if key in dirs then Some(Listing(DirectoryData(fs, load, arrange, key).value)) else Get(acc, key)
    decreases |dirs|
  {
    if |dirs| > 0 {
      var acc' := Put(acc, dirs[0], Listing(DirectoryData(fs, load, arrange, dirs[0]).value));
      assert ReadDirectories(fs, load, arrange, dirs, acc) == ReadDirectories(fs, load, arrange, dirs[1..], acc');
      ReadDirectoriesGet(fs, load, arrange, dirs[1..], acc', key);
      assert forall i :: 1 <= i < |dirs| ==> dirs[i] == dirs[1..][i - 1];
      assert key in dirs <==> key == dirs[0] || key in dirs[1..];
    }
  }

  /** Reading directories keeps the keys already there, in front. */
  lemma {:induction false} ReadDirectoriesKeepsPrefix<D>(fs: FileSystem, load: string -> Result<D>, arrange: seq<D> -> Result<seq<D>>,
                                                         dirs: seq<string>, acc: Dict<string, Entry<D>>)
    requires ReadDirectories(fs, load, arrange, dirs, acc).Ok?
    ensures |Keys(acc)| <= |Keys(ReadDirectories(fs, load, arrange, dirs, acc).value)|
    ensures Keys(ReadDirectories(fs, load, arrange, dirs, acc).value)[..|Keys(acc)|] == Keys(acc)
    decreases |dirs|
  {
    if |dirs| > 0 {
      var acc' := Put(acc, dirs[0], Listing(DirectoryData(fs, load, arrange, dirs[0]).value));
      PutKeepsPrefix(acc, dirs[0], Listing(DirectoryData(fs, load, arrange, dirs[0]).value));
      ReadDirectoriesKeepsPrefix(fs, load, arrange, dirs[1..], acc');
      var r := Keys(ReadDirectories(fs, load, arrange, dirs, acc).value);
      assert r[..|Keys(acc')|][..|Keys(acc)|] == r[..|Keys(acc)|];
    }
  }

  /** Reading a collection reads its explicit files, then its directories
      into the same dict. */
  lemma ReadCollectionParts<D>(fs: FileSystem, fileLoad: string -> Result<D>, dirLoad: string -> Result<D>,
                               arrange: seq<D> -> Result<seq<D>>, coll: Collection)
    returns (files: Dict<string, Entry<D>>)
    requires ReadCollection(fs, fileLoad, dirLoad, arrange, coll).Ok?
    ensures ReadFilesBy(FileName, fileLoad, coll.files, []) == Ok(files)
    ensures ReadDirectories(fs, dirLoad, arrange, coll.directories, files) == ReadCollection(fs, fileLoad, dirLoad, arrange, coll)
  {
    files := ReadFiles(fileLoad, coll.files, []).value;
  }

  /** A collection's keys: those of its explicit files come first. */
  lemma ReadCollectionKeys<D>(fs: FileSystem, fileLoad: string -> Result<D>, dirLoad: string -> Result<D>,
                              arrange: seq<D> -> Result<seq<D>>, coll: Collection)
    requires ReadCollection(fs, fileLoad, dirLoad, arrange, coll).Ok?
    ensures ReadFiles(fileLoad, coll.files, []).Ok?
    ensures
      var files := ReadFiles(fileLoad, coll.files, []).value;
      var all := ReadCollection(fs, fileLoad, dirLoad, arrange, coll).value;
      && |Keys(files)| <= |Keys(all)|
      && Keys(all)[..|Keys(files)|] == Keys(files)
  {
    var files := ReadCollectionParts(fs, fileLoad, dirLoad, arrange, coll);
    ReadDirectoriesKeepsPrefix(fs, dirLoad, arrange, coll.directories, files);
  }

  /** A collection's entries: each directory path holds the directory's
      arranged data, and any other name holds the last explicit file of
      that name, if there is one. */
  lemma ReadCollectionGet<D>(fs: FileSystem, fileLoad: string -> Result<D>, dirLoad: string -> Result<D>,
                             arrange: seq<D> -> Result<seq<D>>, coll: Collection, key: string)
    requires ReadCollection(fs, fileLoad, dirLoad, arrange, coll).Ok?
    ensures forall i :: 0 <= i < |coll.files| ==> fileLoad(coll.files[i]).Ok?
    ensures forall i :: 0 <= i < |coll.directories| ==> DirectoryData(fs, dirLoad, arrange, coll.directories[i]).Ok?
    ensures
      var j := LastNamed(FileName, coll.files, key);
      var all := ReadCollection(fs, fileLoad, dirLoad, arrange, coll).value;
      && (key in coll.directories ==> Get(all, key) == Some(Listing(DirectoryData(fs, dirLoad, arrange, key).value)))
      && (key !in coll.directories && j >= 0 ==> Get(all, key) == Some(Single(fileLoad(coll.files[j]).value)))
      && (key !in coll.directories && j < 0 ==> Get(all, key).None?)
  {
    var files := ReadCollectionParts(fs, fileLoad, dirLoad, arrange, coll);
    var all := ReadCollection(fs, fileLoad, dirLoad, arrange, coll).value;
    ReadFilesGet(FileName, fileLoad, coll.files, [], key);
    ReadDirectoriesGet(fs, dirLoad, arrange, coll.directories, files, key);
    assert Get(all, key) == if key in coll.directories then Some(Listing(DirectoryData(fs, dirLoad, arrange, key).value)) else Get(files, key);
  }

  /** Assets are never loaded or sorted: an asset directory's entry is the
      paths of its regular files in listing order, and reading it fails
      only on a missing directory. */
  lemma AssetDirectoryData(fs: FileSystem, dir: string)
    ensures DirectoryData(fs, AssetLoader(), AssetArranger(), dir) ==
      if dir in fs.listings then Ok(RegularFiles(fs, dir, fs.listings[dir])) else Err(FileNotFound(dir))
  {
    if dir in fs.listings {
      var paths := RegularFiles(fs, dir, fs.listings[dir]);
      var loaded := MapAll(AssetLoader(), paths);
      assert loaded.Ok?;
      assert loaded.value == paths;
    }
  }

  lemma AssetDirectoriesRead(fs: FileSystem, dirs: seq<string>)
    ensures forall i :: 0 <= i < |dirs| ==> (DirectoryData(fs, AssetLoader(), AssetArranger(), dirs[i]).Ok? <==> dirs[i] in fs.listings)
  {
    forall i | 0 <= i < |dirs|
      ensures DirectoryData(fs, AssetLoader(), AssetArranger(), dirs[i]).Ok? <==> dirs[i] in fs.listings
    {
      AssetDirectoryData(fs, dirs[i]);
    }
  }

  /** A page directory's entry holds every page loaded from its regular
      files, in listing order unless the collection names a sort key, and
      then sorted stably by it. */
  lemma PageDirectoryData(fs: FileSystem, md: Markdown, coll: Collection, dir: string)
    requires DirectoryData(fs, PageLoader(fs, md), PageArranger(coll), dir).Ok?
    ensures dir in fs.listings
    ensures MapAll(PageLoader(fs, md), RegularFiles(fs, dir, fs.listings[dir])).Ok?
    ensures
      var loaded := MapAll(PageLoader(fs, md), RegularFiles(fs, dir, fs.listings[dir])).value;
      var entry := DirectoryData(fs, PageLoader(fs, md), PageArranger(coll), dir).value;
      && multiset(entry) == multiset(loaded)
      && (coll.sortBy.None? && coll.sortByReverse.None? ==> entry == loaded)
      && (coll.sortBy.Some? ==> Sorted(entry, PageKey(coll.sortBy.value), false))
      && (coll.sortBy.None? && coll.sortByReverse.Some? ==> Sorted(entry, PageKey(coll.sortByReverse.value), true))
  {
  }

  /** The corrected asset path agrees with the directory case: a file
      reached through a directory listing and the same path listed as an
      explicit file are stored as the same path. As written they are not
      (`AssetPathAsWrittenWrong`). */
  lemma AssetEntriesAgree(fs: FileSystem, dir: string, name: string)
    requires dir in fs.listings && name in fs.listings[dir]
    requires JoinPath(dir, name) in fs.files
    ensures DirectoryData(fs, AssetLoader(), AssetArranger(), dir).Ok?
    ensures JoinPath(dir, name) in DirectoryData(fs, AssetLoader(), AssetArranger(), dir).value
    ensures AssetFileLoader(AssetPath)(JoinPath(dir, name)) == Ok(JoinPath(dir, name))
  {
    var paths := RegularFiles(fs, dir, fs.listings[dir]);
    AssetFileLoaderApply(AssetPath, JoinPath(dir, name));
    AssetDirectoryData(fs, dir);
    assert DirectoryData(fs, AssetLoader(), AssetArranger(), dir) == Ok(paths);
    RegularFileListed(fs, dir, fs.listings[dir], name);
    assert JoinPath(dir, name) in paths;
  }

  lemma AssetFileLoaderApply(assetFile: string -> string, p: string)
    ensures AssetFileLoader(assetFile)(p) == Ok(assetFile(p))
  {
  }

  /** A listed name that is a regular file has its path in the listing's
      regular files. */
  lemma RegularFileListed(fs: FileSystem, dir: string, names: seq<string>, name: string)
    requires name in names && JoinPath(dir, name) in fs.files
    ensures JoinPath(dir, name) in RegularFiles(fs, dir, names)
  {
  }

  /** Explicit asset files are never read, so reading them cannot fail;
      each is stored as `assetFile` of its path. */
  lemma AssetFilesUnread(assetFile: string -> string, coll: Collection)
    ensures ReadFiles(AssetFileLoader(assetFile), coll.files, []).Ok?
    ensures forall i :: 0 <= i < |coll.files| ==> AssetFileLoader(assetFile)(coll.files[i]) == Ok(assetFile(coll.files[i]))
  {
  }

  /** An asset collection's entries: a directory path holds the paths of
      the directory's regular files in listing order, and any other name
      holds `assetFile` of the last explicit file with that name. */
  lemma AssetSectionGet(fs: FileSystem, md: Markdown, assetFile: string -> string, fileType: string, coll: Collection, key: string)
    requires fileType != "pages"
    requires ReadSection(fs, md, assetFile, fileType, coll).Ok?
    ensures ReadSection(fs, md, assetFile, fileType, coll).value.Assets?
    ensures
      var j := LastNamed(FileName, coll.files, key);
      var entries := ReadSection(fs, md, assetFile, fileType, coll).value.assets;
      && (key in coll.directories ==> key in fs.listings && Get(entries, key) == Some(Listing(RegularFiles(fs, key, fs.listings[key]))))
      && (key !in coll.directories && j >= 0 ==> Get(entries, key) == Some(Single(assetFile(coll.files[j]))))
      && (key !in coll.directories && j < 0 ==> Get(entries, key).None?)
  {
    ReadCollectionGet(fs, AssetFileLoader(assetFile), AssetLoader(), AssetArranger(), coll, key);
    if key in coll.directories {
      AssetDirectoryData(fs, key);
    }
  }

  /** A page collection's entries: a directory path holds its pages, and
      any other name holds the page loaded from the last explicit file with
      that name. */
  lemma PageSectionGet(fs: FileSystem, md: Markdown, assetFile: string -> string, coll: Collection, key: string)
    requires ReadSection(fs, md, assetFile, "pages", coll).Ok?
    ensures ReadSection(fs, md, assetFile, "pages", coll).value.Pages?
    ensures
      var j := LastNamed(FileName, coll.files, key);
      var entries := ReadSection(fs, md, assetFile, "pages", coll).value.pages;
      && (key in coll.directories ==>
            Get(entries, key) == Some(Listing(DirectoryData(fs, PageLoader(fs, md), PageArranger(coll), key).value)))
      && (key !in coll.directories && j >= 0 ==> Get(entries, key) == Some(Single(LoadPage(fs, md, coll.files[j]).value)))
      && (key !in coll.directories && j < 0 ==> Get(entries, key).None?)
  {
    ReadCollectionGet(fs, PageLoader(fs, md), PageLoader(fs, md), PageArranger(coll), coll, key);
  }

  /** The sections read so far are pages exactly under the name "pages". */
  ghost predicate PagesUnderPages(d: Dict<string, Section>) {
    forall k :: Get(d, k).Some? ==> (Get(d, k).value.Pages? <==> k == "pages")
  }

  /** `readSiteFiles` stores one section per collection of the
      configuration, in its order, reading "pages" (and only it) as pages. */
  lemma ReadSectionsSpec(fs: FileSystem, md: Markdown, assetFile: string -> string,
                         todo: Dict<string, Collection>, acc: Dict<string, Section>)
    requires ReadSections(fs, md, assetFile, todo, acc).Ok?
    requires PagesUnderPages(acc)
    ensures PagesUnderPages(ReadSections(fs, md, assetFile, todo, acc).value)
    ensures forall k :: k in Keys(ReadSections(fs, md, assetFile, todo, acc).value) <==> k in Keys(acc) || k in Keys(todo)
  {
    var read := SectionReader(fs, md, assetFile);
    forall k, c | read(k, c).Ok? ensures read(k, c).value.Pages? <==> k == "pages" {
      SectionReaderApply(fs, md, assetFile, k, c);
    }
    ReadEachSpec(read, todo, acc);
  }

  lemma SectionReaderApply(fs: FileSystem, md: Markdown, assetFile: string -> string, fileType: string, coll: Collection)
    ensures SectionReader(fs, md, assetFile)(fileType, coll) == ReadSection(fs, md, assetFile, fileType, coll)
  {
  }

  lemma {:induction false} ReadEachSpec(read: (string, Collection) -> Result<Section>,
                                        todo: Dict<string, Collection>, acc: Dict<string, Section>)
    requires ReadEach(read, todo, acc).Ok?
    requires PagesUnderPages(acc)
    requires forall k, c :: read(k, c).Ok? ==> (read(k, c).value.Pages? <==> k == "pages")
    ensures PagesUnderPages(ReadEach(read, todo, acc).value)
    ensures forall k :: k in Keys(ReadEach(read, todo, acc).value) <==> k in Keys(acc) || k in Keys(todo)
    decreases |todo|
  {
    if |todo| > 0 {
      var s := read(todo[0].0, todo[0].1).value;
      var acc' := Put(acc, todo[0].0, s);
      ReadEachSpec(read, todo[1..], acc');
      assert forall k :: k in Keys(todo) <==> k == todo[0].0 || k in Keys(todo[1..]) by {
        assert Keys(todo) == [todo[0].0] + Keys(todo[1..]);
      }
    }
  }

  /** Each configured collection's section is that collection read on its
      own; a name not configured keeps what it had. */
  lemma ReadSectionsGet(fs: FileSystem, md: Markdown, assetFile: string -> string,
                        todo: Dict<string, Collection>, acc: Dict<string, Section>, key: string)
    requires DistinctKeys(todo)
    requires ReadSections(fs, md, assetFile, todo, acc).Ok?
    ensures Get(todo, key).Some? ==>
      && ReadSection(fs, md, assetFile, key, Get(todo, key).value).Ok?
      && Get(ReadSections(fs, md, assetFile, todo, acc).value, key) == Some(ReadSection(fs, md, assetFile, key, Get(todo, key).value).value)
    ensures Get(todo, key).None? ==> Get(ReadSections(fs, md, assetFile, todo, acc).value, key) == Get(acc, key)
  {
    ReadEachGet(SectionReader(fs, md, assetFile), todo, acc, key);
    if Get(todo, key).Some? {
      SectionReaderApply(fs, md, assetFile, key, Get(todo, key).value);
    }
  }

  lemma {:induction false} ReadEachGet(read: (string, Collection) -> Result<Section>,
                                       todo: Dict<string, Collection>, acc: Dict<string, Section>, key: string)
    requires DistinctKeys(todo)
    requires ReadEach(read, todo, acc).Ok?
    ensures Get(todo, key).Some? ==>
      && read(key, Get(todo, key).value).Ok?
      && Get(ReadEach(read, todo, acc).value, key) == Some(read(key, Get(todo, key).value).value)
    ensures Get(todo, key).None? ==> Get(ReadEach(read, todo, acc).value, key) == Get(acc, key)
    decreases |todo|
  {
    if |todo| > 0 {
      var s := read(todo[0].0, todo[0].1).value;
      var acc' := Put(acc, todo[0].0, s);
      assert DistinctKeys(todo[1..]) by {
        assert forall i :: 0 <= i < |todo[1..]| ==> todo[1..][i] == todo[i + 1];
      }
      ReadEachGet(read, todo[1..], acc', key);
      if key == todo[0].0 {
        assert Get(todo[1..], key).None? by {
          assert forall i :: 0 <= i < |todo[1..]| ==> Keys(todo[1..])[i] == todo[i + 1].0;
        }
      }
    }
  }

  /** The content `readSiteFiles` returns has a section for every
      collection and no other, each section is its collection read on its
      own, and it is fit for `buildContentFiles`. */
  lemma ReadSiteFilesSpec(fs: FileSystem, md: Markdown, contentFiles: Dict<string, Collection>)
    requires DistinctKeys(contentFiles)
    requires ReadSiteFiles(fs, md, contentFiles).Ok?
    ensures forall k :: k in Keys(ReadSiteFiles(fs, md, contentFiles).value) <==> k in Keys(contentFiles)
    ensures
      var content := ReadSiteFiles(fs, md, contentFiles).value;
      Get(content, "pages").Some? ==> Get(content, "pages").value.Pages?
    ensures forall k :: Get(contentFiles, k).Some? ==>
      && ReadSection(fs, md, AssetPathAsWritten, k, Get(contentFiles, k).value).Ok?
      && Get(ReadSiteFiles(fs, md, contentFiles).value, k) == Some(ReadSection(fs, md, AssetPathAsWritten, k, Get(contentFiles, k).value).value)
  {
    ReadSectionsSpec(fs, md, AssetPathAsWritten, contentFiles, []);
    forall k | Get(contentFiles, k).Some?
      ensures ReadSection(fs, md, AssetPathAsWritten, k, Get(contentFiles, k).value).Ok?
      ensures Get(ReadSiteFiles(fs, md, contentFiles).value, k) == Some(ReadSection(fs, md, AssetPathAsWritten, k, Get(contentFiles, k).value).value)
    {
      ReadSectionsGet(fs, md, AssetPathAsWritten, contentFiles, [], k);
    }
  }

  /** As written, the content stores an explicit asset file under its stem
      as its path joined with that stem (`site.css` as `site.css/site`). */
  lemma ReadSiteFilesAssetFile(fs: FileSystem, md: Markdown, contentFiles: Dict<string, Collection>, fileType: string, key: string)
    requires DistinctKeys(contentFiles)
    requires ReadSiteFiles(fs, md, contentFiles).Ok?
    requires fileType != "pages" && Get(contentFiles, fileType).Some?
    requires
      var coll := Get(contentFiles, fileType).value;
      key !in coll.directories && LastNamed(FileName, coll.files, key) >= 0
    ensures
      var coll := Get(contentFiles, fileType).value;
      var section := Get(ReadSiteFiles(fs, md, contentFiles).value, fileType);
      && section.Some? && section.value.Assets?
      && Get(section.value.assets, key) == Some(Single(AssetPathAsWritten(coll.files[LastNamed(FileName, coll.files, key)])))
  {
    ReadSiteFilesSpec(fs, md, contentFiles);
    AssetSectionGet(fs, md, AssetPathAsWritten, fileType, Get(contentFiles, fileType).value, key);
  }

  /** With the correction, the same entry is the file's own path. */
  lemma ReadSiteFilesCorrectedAssetFile(fs: FileSystem, md: Markdown, contentFiles: Dict<string, Collection>, fileType: string, key: string)
    requires DistinctKeys(contentFiles)
    requires ReadSiteFilesCorrected(fs, md, contentFiles).Ok?
    requires fileType != "pages" && Get(contentFiles, fileType).Some?
    requires
      var coll := Get(contentFiles, fileType).value;
      key !in coll.directories && LastNamed(FileName, coll.files, key) >= 0
    ensures
      var coll := Get(contentFiles, fileType).value;
      var section := Get(ReadSiteFilesCorrected(fs, md, contentFiles).value, fileType);
      && section.Some? && section.value.Assets?
      && Get(section.value.assets, key) == Some(Single(coll.files[LastNamed(FileName, coll.files, key)]))
  {
    ReadSectionsGet(fs, md, AssetPath, contentFiles, [], fileType);
    AssetSectionGet(fs, md, AssetPath, fileType, Get(contentFiles, fileType).value, key);
  }

  // ---------------------------------------------------------------------
  // Properties of `buildContentFiles`
  // ---------------------------------------------------------------------

  /** Every page of the "pages" dict in order: a single page, or each
      page of a list. */
  function AllPages(entries: Dict<string, Entry<Table>>): seq<Table>
    decreases |entries|
  {
    if |entries| == 0 then []
    else
      (match entries[0].1 case Single(p) => [p] case Listing(ps) => ps) + AllPages(entries[1..])
  }

  lemma {:induction false} WritePagesAppend(buildDir: string, templates: set<string>, a: seq<Table>, b: seq<Table>)
    ensures WritePages(buildDir, templates, a + b) ==
      var first := WritePages(buildDir, templates, a);
      if first.failure.Some? then first
      else
        var rest := WritePages(buildDir, templates, b);
        Outcome(first.writes + rest.writes, rest.failure)
    decreases |a|
  {
    if |a| == 0 {
      assert a + b == b;
    } else {
      assert (a + b)[0] == a[0];
      assert (a + b)[1..] == a[1..] + b;
      WritePagesAppend(buildDir, templates, a[1..], b);
    }
  }

  /** Rendering the dict entry by entry is rendering all its pages in
      order. */
  lemma {:induction false} WriteEntriesAllPages(buildDir: string, templates: set<string>, entries: Dict<string, Entry<Table>>)
    ensures WriteEntries(buildDir, templates, entries) == WritePages(buildDir, templates, AllPages(entries))
    decreases |entries|
  {
    if |entries| > 0 {
      var first := match entries[0].1 case Single(p) => [p] case Listing(ps) => ps;
      WriteEntriesAllPages(buildDir, templates, entries[1..]);
      WritePagesAppend(buildDir, templates, first, AllPages(entries[1..]));
    }
  }

  /** The pages are rendered in order, each once; the build stops at the
      first page that fails, after writing all pages before it. */
  lemma {:induction false} WritePagesSpec(buildDir: string, templates: set<string>, pages: seq<Table>)
    ensures
      var r := WritePages(buildDir, templates, pages);
      && (forall i :: 0 <= i < |r.writes| ==> BuildOne(buildDir, templates, pages[i]) == Ok(r.writes[i]))
      && (r.failure.None? ==> |r.writes| == |pages|)
      && (r.failure.Some? ==> |r.writes| < |pages| && BuildOne(buildDir, templates, pages[|r.writes|]) == Err(r.failure.value))
    decreases |pages|
  {
    if |pages| > 0 {
      WritePagesSpec(buildDir, templates, pages[1..]);
      var r := WritePages(buildDir, templates, pages);
      if BuildOne(buildDir, templates, pages[0]).Ok? {
        var rest := WritePages(buildDir, templates, pages[1..]);
        assert r.writes == [BuildOne(buildDir, templates, pages[0]).value] + rest.writes;
        assert forall i :: 1 <= i < |pages| ==> pages[i] == pages[1..][i - 1];
      }
    }
  }

  /** `buildContentFiles` renders every page of the "pages" dict exactly
      once, in dict order, each to `<buildDir>/<url>`, until a page fails. */
  lemma ContentWritesSpec(buildDir: string, templates: set<string>, content: Dict<string, Section>)
    requires Get(content, "pages").Some? && Get(content, "pages").value.Pages?
    ensures
      var pages := AllPages(Get(content, "pages").value.pages);
      var r := ContentWrites(buildDir, templates, content);
      && |r.writes| <= |pages|
      && (forall i :: 0 <= i < |r.writes| ==>
            && r.writes[i].page == pages[i]
            && "url" in pages[i]
            && pages[i]["url"].Str?
            && r.writes[i].target == buildDir + "/" + pages[i]["url"].s)
      && (r.failure.None? ==> |r.writes| == |pages|)
      && (r.failure.Some? ==> |r.writes| < |pages| && BuildOne(buildDir, templates, pages[|r.writes|]) == Err(r.failure.value))
  {
    var entries := Get(content, "pages").value.pages;
    WriteEntriesAllPages(buildDir, templates, entries);
    WritePagesSpec(buildDir, templates, AllPages(entries));
    var r := ContentWrites(buildDir, templates, content);
    forall i | 0 <= i < |r.writes|
      ensures r.writes[i].target == buildDir + "/" + AllPages(entries)[i]["url"].s
    {
      var t := r.writes[i].target;
      assert t == t[..|buildDir| + 1] + t[|buildDir| + 1..];
    }
  }
}
