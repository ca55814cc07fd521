/** The configuration records built from the sections of the site's TOML
    configuration: the site description, the build directory, and the file
    lists of a content collection. A missing required key is a `KeyError`
    naming that key; optional keys fall back to defaults. */
module Config {
  import opened Wrappers
  import opened Toml

  /** `map[key]` */
  function Lookup(m: Table, key: string): (r: Result<Value>)
    ensures r.Ok? <==> key in m
    ensures r.Ok? ==> r.value == m[key]
    ensures r.Err? ==> r.error == KeyError(key)
  {
    if key in m then Ok(m[key]) else Err(KeyError(key))
  }

  /** `map[key] if key in map else default` */
  function LookupOr(m: Table, key: string, default: Value): (v: Value)
    ensures key in m ==> v == m[key]
    ensures key !in m ==> v == default
  {
    if key in m then m[key] else default
  }

  /** A `KeyError` for the first key of `keys` that `m` lacks. */
  predicate FirstMissing(keys: seq<string>, m: Table, e: Error) {
    && e.KeyError?
    && e.key !in m
    && exists i :: 0 <= i < |keys| && keys[i] == e.key && forall j :: 0 <= j < i ==> keys[j] in m
  }

  const SiteKeys: seq<string> := ["title", "subtitle", "description"]

  datatype SiteConfig = SiteConfig(title: Value, subtitle: Value, description: Value)

  /** `SiteConfig(map)`: succeeds exactly when title, subtitle and
      description are all present, and copies them; otherwise the error
      names the first one missing. */
  function MakeSiteConfig(m: Table): (r: Result<SiteConfig>)
    ensures r.Ok? <==> forall k :: k in SiteKeys ==> k in m
    ensures r.Ok? ==> r.value.title == m["title"] && r.value.subtitle == m["subtitle"] && r.value.description == m["description"]
    ensures r.Err? ==> FirstMissing(SiteKeys, m, r.error)
  {
    assert SiteKeys[0] == "title" && SiteKeys[1] == "subtitle" && SiteKeys[2] == "description";
    var title :- Lookup(m, "title");
    var subtitle :- Lookup(m, "subtitle");
    var description :- Lookup(m, "description");
    Ok(SiteConfig(title, subtitle, description))
  }

  datatype BuildConfig = BuildConfig(buildDirectory: Value)

  /** `BuildConfig(map)`: succeeds exactly when `buildDirectory` is present. */
  function MakeBuildConfig(m: Table): (r: Result<BuildConfig>)
    ensures r.Ok? <==> "buildDirectory" in m
    ensures r.Ok? ==> r.value.buildDirectory == m["buildDirectory"]
    ensures r.Err? ==> r.error == KeyError("buildDirectory")
  {
    var dir :- Lookup(m, "buildDirectory");
    Ok(BuildConfig(dir))
  }

  datatype FilesConfig = FilesConfig(files: Value, directories: Value)

  /** `FilesConfig(map)`: never fails; a missing list is an empty one. */
  function MakeFilesConfig(m: Table): (r: FilesConfig)
    ensures "files" in m ==> r.files == m["files"]
    ensures "files" !in m ==> r.files == Array([])
    ensures "directories" in m ==> r.directories == m["directories"]
    ensures "directories" !in m ==> r.directories == Array([])
  {
    FilesConfig(LookupOr(m, "files", Array([])), LookupOr(m, "directories", Array([])))
  }

  /** `PagesConfig` as the source writes it: the flag it stores is named
      `sortReverse`, read from the key "sortReverse" but guarded by the key
      "sortByReverse", and the declared `sortByReverse` field is never set. */
  datatype PagesConfigAsWritten = PagesConfigAsWritten(files: Value, directories: Value, sortBy: Option<Value>, sortReverse: Value)

  function MakePagesConfigAsWritten(m: Table): (r: Result<PagesConfigAsWritten>)
    ensures r.Err? <==> "sortByReverse" in m && "sortReverse" !in m
    ensures r.Err? ==> r.error == KeyError("sortReverse")
    ensures r.Ok? ==> r.value.files == MakeFilesConfig(m).files && r.value.directories == MakeFilesConfig(m).directories
    ensures r.Ok? && "sortByReverse" !in m ==> r.value.sortReverse == Bool(false)
    ensures r.Ok? && "sortByReverse" in m ==> r.value.sortReverse == m["sortReverse"]
  {
    var base := MakeFilesConfig(m);
    var sortBy := if "sortBy" in m then Some(m["sortBy"]) else None;
    var sortReverse :- if "sortByReverse" in m then Lookup(m, "sortReverse") else Ok(Bool(false));
    Ok(PagesConfigAsWritten(base.files, base.directories, sortBy, sortReverse))
  }

  /** `PagesConfig` as its declared fields and the build step's use of
      "sortByReverse" intend: both sort keys are optional and copied. */
  datatype PagesConfig = PagesConfig(files: Value, directories: Value, sortBy: Option<Value>, sortByReverse: Option<Value>)

  function MakePagesConfig(m: Table): (r: PagesConfig)
    ensures r.files == MakeFilesConfig(m).files && r.directories == MakeFilesConfig(m).directories
    ensures r.sortBy.Some? <==> "sortBy" in m
    ensures r.sortBy.Some? ==> r.sortBy.value == m["sortBy"]
    ensures r.sortByReverse.Some? <==> "sortByReverse" in m
    ensures r.sortByReverse.Some? ==> r.sortByReverse.value == m["sortByReverse"]
  {
    var base := MakeFilesConfig(m);
    PagesConfig(
      base.files, base.directories,
      if "sortBy" in m then Some(m["sortBy"]) else None,
      if "sortByReverse" in m then Some(m["sortByReverse"]) else None)
  }

  /** As written, a collection that asks for a descending sort by "date"
      cannot be configured: the constructor looks up "sortReverse" instead. */
  lemma SortByReverseRejected()
    ensures MakePagesConfigAsWritten(map["sortByReverse" := Str("date")]) == Err(KeyError("sortReverse"))
    ensures MakePagesConfig(map["sortByReverse" := Str("date")]).sortByReverse == Some(Str("date"))
  {
  }

  /** As written, a "sortReverse" flag without "sortByReverse" is ignored. */
  lemma SortReverseIgnored()
    ensures MakePagesConfigAsWritten(map["sortReverse" := Bool(true)]).Ok?
    ensures MakePagesConfigAsWritten(map["sortReverse" := Bool(true)]).value.sortReverse == Bool(false)
  {
  }
}
