# A Dafny model of the static site generator's core

The generator builds a website from Markdown documents. Its core, modelled
here as pure functions over immutable values, is:

- **Admonition** (`admonition.dfy`): the block processor that turns a
  `!!! note "Title"` directive and its indented body into a Bulma "message"
  box. It covers the directive pattern, the search of a block for the first
  directive line, `test`, `get_class_and_title` and `run`. Continuation blocks
  are parsed into the last message box.
- **Meta** (`meta.dfy`): the front-matter preprocessor. A first line starting
  with `---` opens TOML front matter, which runs to the first line starting
  with `---` or `...`.
- **Config** (`config.dfy`): the configuration records. Required keys raise a
  `KeyError`; optional keys have defaults.
- **Build** (`build.dfy`):
  - `loadPage`: a page's front matter plus `url` and `content`;
  - `readSiteFiles`: the configured collections read into a dict. Explicit
    files are keyed by their stem and directories by their path. Page
    directories are sorted by `sortBy` or `sortByReverse`. An asset
    directory holds its files' paths, and an explicit asset file holds what
    line 60 stores (its path joined with its stem), with the plain path as
    the corrected variant;
  - `buildContentFiles`: the pages rendered, each to `<buildDir>/<url>`.
- **Feed** (`feed.dfy`): `joinUrl`, the group filter, how the fields of a feed
  entry are chosen, the feed's `updated` page, and the check that at least one
  output file is given.
- **BlogScript** (`blogscript.dfy`): the package's stand-alone build script.
  It builds the index and post records, sorts the posts by date and sets the
  urls.
- **Support modules**:
  - `Wrappers`: `Option`, `Result`, the Python exceptions as values, and
    `MapAll`;
  - `Strings`: `startswith`, `lower`, `capitalize`, `split`, `join`;
  - `Paths`: `posixpath.basename`, `splitext` and `join`;
  - `Dicts`: insertion-ordered dicts;
  - `Sorting`: Python's stable `list.sort` with `reverse`, over the values
    Python can compare;
  - `Toml`: parsed TOML values.

The host library's work is passed in as function values: Python-Markdown's
`detab` and `parseChunk` (a `Host`), `markdown.convert`, `toml.loads`, and
template rendering. An exception is an `Err` value, and the first failure
ends the build.

Some places where the model follows the code's surprising behaviour:

- A directory's files are listed in `os.listdir` order. Subdirectories are
  skipped, not descended into.
- Sorting uses the collection's `sortBy` / `sortByReverse` front-matter keys.
  There is no date-specific sort.
- A page that lacks the sort key raises `KeyError`. It is not treated as the
  earliest date.
- Duplicate names are not checked for. A later explicit file with the same
  stem replaces the earlier one in its place, and a directory entry replaces a
  file entry with the same key.
- A continuation block is parsed into the last message box itself, not into
  its body `div`.

## Model

| member | source | states |
|---|---|---|
| `Admonition.ParseDirectiveIsDirectiveLine` | static_site_gen/admonition.py:38 | A line parses to groups `d` exactly when it has the shape `!!!`, an optional space, a `[\w-]` name list, an optional quoted title after spaces, then trailing spaces. Both directions are proved against an independent grammar predicate. |
| `Admonition.SearchFirst` | static_site_gen/admonition.py:52 | The match is on the first line the directive parser accepts, and no earlier line is accepted. Without a match, no line is accepted. |
| `Admonition.SearchSpec` | static_site_gen/admonition.py:38 | `RE.search` finds a match exactly when some line of the block is a directive line. The match is the first such line, with that line's groups. |
| `Admonition.SearchSplitsBlock` | static_site_gen/admonition.py:55 | The text before the match, the matched line and `block[m.end():]` rebuild the block. `block[m.end():]` is everything after the newline that ends the directive line. |
| `Admonition.LastChild` | static_site_gen/admonition.py:42 | `lastChild` is present exactly when the parent has children, and it is the last one. |
| `Admonition.TestSpec` | static_site_gen/admonition.py:41-47 | The processor claims a block exactly when (1) some line is a directive line, or (2) the block starts with `tab_length` spaces and the parent's last child has a class containing "message". |
| `Admonition.CollapseSpaces` | static_site_gen/admonition.py:82 | `RE_SPACES.sub` leaves no two spaces in a row and keeps every other character in order. It keeps the first character and is the identity on strings without a double space. |
| `Admonition.CollapseSpacesWords` | static_site_gen/admonition.py:82 | A run of spaces becomes exactly one space: the space-separated words are unchanged, and so are the first `split(" ")` piece and the last character. With `NoDoubleSpace` this fixes the result. |
| `Admonition.DefaultTitleOf` | static_site_gen/admonition.py:87 | For a class with no upper-case letters, the default title is the first word of the class with its first letter upper-cased. |
| `Admonition.ClassAndTitle` | static_site_gen/admonition.py:80-92 | The class is the names lower-cased with space runs collapsed, and it has the same space-separated words as the lower-cased names. The title is the quoted one when non-empty, none for `""`, or the default title when none is given. A valid directive gets a title exactly when its title is not `""`. |
| `Admonition.RunAsWritten` | static_site_gen/admonition.py:49-78 | `run` as written: the first block is consumed and the detab leftover is put back at the front of the queue when non-empty. The text before the match is discarded. |
| `Admonition.RunAsWrittenAgrees` | static_site_gen/admonition.py:52-55 | When the directive line is the block's first line, or there is no directive, `run` as written equals the corrected `run`, so the properties below hold of it. |
| `Admonition.Run` | static_site_gen/admonition.py:49-78 | The corrected `run`: the same queue behaviour, with the text before the match handed to the block parser first. |
| `Admonition.RunQueue` | static_site_gen/admonition.py:74-78 | The queue loses exactly its first block. The detab leftover goes to its front exactly when it is non-empty, and the other blocks keep their order. |
| `Admonition.RunDirective` | static_site_gen/admonition.py:59-72 | With a directive, exactly one element is appended and earlier children are untouched. It is a `div` of class `message <klass>`, a `message-header` paragraph holding the title when the title is truthy, then the parsed `message-body` div. |
| `Admonition.RunContinuation` | static_site_gen/admonition.py:69-72 | Without a directive, no element is created. The detabbed block is parsed into the last child, and the other children are unchanged. |
| `Admonition.RunDirectiveBody` | static_site_gen/admonition.py:67-72 | With a host whose `parseChunk` keeps tag and attributes (`ValidHost`), the box's last child is still the `div` of class `message-body` after the body is parsed into it. |
| `Admonition.RunContinuationContinues` | static_site_gen/admonition.py:43-72 | With such a host, a continuation keeps the box's class, so the next block indented by a full tab is claimed too. |
| `Admonition.RunBlankTitle` | static_site_gen/admonition.py:63-66 | An explicit `""` title produces a box without a header. |
| `Admonition.RunThenContinues` | static_site_gen/admonition.py:43-47 | After a directive, the next block indented by a full tab is claimed as the box's continuation. |
| `Admonition.RunAsWrittenDropsLeadingText` | static_site_gen/admonition.py:52-55 | As written, putting a non-directive line in front of a block with a directive changes neither the tree nor the queue. |
| `Admonition.RunKeepsLeadingText` | static_site_gen/admonition.py:52-55 | The corrected `run` keeps the children parsed from such a line, and the box follows them. |
| `Meta.IsBeginSpec` | static_site_gen/mdExtensions/meta.py:24 | `BEGIN_RE.match` succeeds exactly when some prefix of the line is `---` followed by nothing or by a whitespace character and anything. |
| `Meta.IsEndSpec` | static_site_gen/mdExtensions/meta.py:25 | `END_RE.match` succeeds exactly when some prefix of the line is `---` or `...` followed by nothing or by a whitespace character and anything. |
| `Meta.Reset` | static_site_gen/mdExtensions/meta.py:37-38 | A fresh document's metadata is empty. |
| `Meta.SplitFront` | static_site_gen/mdExtensions/meta.py:50-56 | The lines are split into the front matter (no end marker in it), the first end marker, and the rest. The three parts rebuild the input, and without a marker nothing is left over. |
| `Meta.Run` | static_site_gen/mdExtensions/meta.py:44-58 | Without an opening `---` line the lines pass through and `Meta` is unchanged. Otherwise a TOML error propagates, or `Meta` is the parsed front matter and the lines after the closing marker are handed on. |
| `Meta.RunRoundTrip` | static_site_gen/mdExtensions/meta.py:47-58 | The opening line, the front matter, the closing line and the output lines rebuild the input. The output is a suffix of the input. |
| `Meta.RunBodyAfterFirstEnd` | static_site_gen/mdExtensions/meta.py:50-53 | The closing marker is the first end line after the opening one. The front matter is the lines between the markers, and the output is the lines after the closing marker. |
| `Meta.RunWithoutEnd` | static_site_gen/mdExtensions/meta.py:50-56 | Without a closing marker, every line after the opening one is front matter and nothing is handed on. |
| `Meta.AccumulateSplits` | static_site_gen/mdExtensions/meta.py:55-56 | The accumulated front-matter text splits back into the front-matter lines plus a final empty piece. |
| `Config.MakeSiteConfig` | static_site_gen/config_structs.py:15-22 | Succeeds exactly when title, subtitle and description are all present, and copies them. Otherwise the `KeyError` names the first missing key. |
| `Config.MakeBuildConfig` | static_site_gen/config_structs.py:29-34 | Succeeds exactly when `buildDirectory` is present. Otherwise the error is `KeyError("buildDirectory")`. |
| `Config.MakeFilesConfig` | static_site_gen/config_structs.py:42-44 | Never fails. Each of `files` and `directories` is copied when present, else it is an empty list. |
| `Config.MakePagesConfigAsWritten` | static_site_gen/config_structs.py:52-55 | As written: `sortBy` is copied or None. `sortReverse` is False unless "sortByReverse" is present; then it is `map["sortReverse"]`, and a missing "sortReverse" is a `KeyError`. |
| `Config.MakePagesConfig` | static_site_gen/config_structs.py:47-54 | Corrected: `files` and `directories` are as in `FilesConfig`. `sortBy` and `sortByReverse` are each copied when present and None otherwise. |
| `Config.SortByReverseRejected` | static_site_gen/config_structs.py:55 | As written, `{"sortByReverse": "date"}` is refused with `KeyError("sortReverse")`. The corrected record keeps the key. |
| `Config.SortReverseIgnored` | static_site_gen/config_structs.py:55 | As written, `{"sortReverse": true}` alone yields `sortReverse == False`. |
| `Build.Convert` | static_site_gen/build.py:90-91 | A document without front matter converts to its rendered lines with empty metadata. |
| `Build.PageUrl` | static_site_gen/build.py:92 | The url is the path without its extension followed by ".html". |
| `Build.LoadPage` | static_site_gen/build.py:85-96 | A missing file or conversion error propagates. Front matter that already has `content` is refused with a bare `KeyError`. Otherwise the record has exactly the front-matter keys plus `url` and `content`, with the front-matter values kept. |
| `Build.FileName` | static_site_gen/build.py:56 | The key of an explicit file has no slash. |
| `Build.FileNameIsStem` | static_site_gen/build.py:56 | The key is the root `splitext` gives for the base name, so the key followed by the extension is the base name. The extension is non-empty exactly when the base name has one, and then it is a dot followed by no other dot. |
| `Build.CollectionOf` | static_site_gen/build.py:54-76 | The raw collection table is read as the loop reads it, with `"files" in fileCollection` and `fileCollection["sortBy"]`. It succeeds exactly when `files` and `directories` are each absent or a list of strings and each sort key is absent or a string; otherwise `TypeError`. The lists are the table's lists in order, or empty when absent, and each sort key is present exactly when its entry is, with its value. |
| `Build.AssetPathAsWritten` | static_site_gen/build.py:60 | As written, an explicit asset's data is a path under the asset's own path, named by the asset's stem. |
| `Build.AssetPathAsWrittenWrong` | static_site_gen/build.py:60 | As written, the asset `site.css` is stored as `site.css/site`, which is not its path. |
| `Build.AssetEntriesAgree` | static_site_gen/build.py:71 | With the corrected asset path, a file reached through a directory listing and the same file listed explicitly are stored as the same path. |
| `Build.RegularFiles` | static_site_gen/build.py:66-67 | A directory's entries are the joined paths of listed names that are regular files. |
| `Build.RegularFilesAppend` | static_site_gen/build.py:66-67 | The entries of a listing split into two parts are those of the first part followed by those of the second. A single name gives its path exactly when it is a regular file, so the entries are one per regular file, in listing order. |
| `Build.ReadFilesBy` | static_site_gen/build.py:54-61 | Reading the explicit files succeeds exactly when every file loads. Otherwise the error is that of the first file that fails. |
| `Build.DirectoryData` | static_site_gen/build.py:64-72 | A directory that is not there raises `FileNotFoundError` with its path. On success the directory exists and every regular file in it loaded. |
| `Build.ReadDirectories` | static_site_gen/build.py:63-81 | Reading the directories succeeds exactly when every directory can be read. |
| `Build.ReadCollection` | static_site_gen/build.py:53-81 | A collection reads exactly when every explicit file loads and every directory can be read. |
| `Build.ReadSection` | static_site_gen/build.py:51-81 | A collection is read as pages exactly when its name is "pages". A page collection succeeds exactly when every page loads and every directory is read and sorted. An asset collection fails only on a directory that does not exist. |
| `Build.LastNamed` | static_site_gen/build.py:55-61 | Finds the last explicit file with a given key, the one whose data survives. |
| `Build.ReadFilesGet` | static_site_gen/build.py:54-61 | After the explicit files are read, each key holds the data of the last file with that stem, and every file was loaded. |
| `Build.ReadDirectoriesGet` | static_site_gen/build.py:63-81 | After the directories are read, each directory path holds that directory's arranged data, and other keys are unchanged. |
| `Build.ReadCollectionKeys` | static_site_gen/build.py:53-81 | The explicit files' keys come first in a collection, in their order. |
| `Build.ReadCollectionGet` | static_site_gen/build.py:53-81 | A directory path holds the directory's list. Any other key holds the last explicit file with that stem, or nothing. |
| `Build.SortPages` | static_site_gen/build.py:73-80 | A page without the key gives `KeyError(key)`, and the sort succeeds exactly when all pages have the key and their values can be compared. The result is then a permutation, sorted ascending or descending, and stable. |
| `Build.SortListing` | static_site_gen/build.py:73-80 | `sortBy` wins over `sortByReverse`. With neither, the listing order is kept. The result is a stable, sorted permutation. |
| `Build.PageDirectoryData` | static_site_gen/build.py:64-81 | A page directory's list is a permutation of the pages loaded from its regular files. It is in listing order unless a sort key is configured, and then sorted by it. |
| `Build.AssetDirectoryData` | static_site_gen/build.py:66-72 | An asset directory's list is exactly its regular files' paths in listing order. It fails only when the directory is missing. |
| `Build.AssetFilesUnread` | static_site_gen/build.py:55-61 | Explicit asset files are never opened, so reading them cannot fail, and each is stored as `assetFile` of its path: `os.path.join(path, name)` as written (`AssetPathAsWritten`). |
| `Build.AssetSectionGet` | static_site_gen/build.py:55-81 | In an asset section, a directory path holds its regular files' paths in listing order. Any other key holds `assetFile` of the last explicit file with that stem, or nothing. |
| `Build.PageSectionGet` | static_site_gen/build.py:55-81 | In the "pages" section, a directory path holds its loaded and sorted pages. Any other key holds the page loaded from the last explicit file with that stem, or nothing. |
| `Build.ReadSectionsSpec` | static_site_gen/build.py:51-61 | Each collection is read as pages exactly when its name is "pages". The result's keys are the collection names. |
| `Build.ReadSectionsGet` | static_site_gen/build.py:51-61 | Each configured name holds its collection read on its own, and other names keep what they had. |
| `Build.ReadSiteFilesSpec` | static_site_gen/build.py:48-82 | The content has a section for every configured collection and no other, "pages" holds page records, and each section is its collection read on its own. |
| `Build.ReadSiteFilesAssetFile` | static_site_gen/build.py:55-61 | As written, an explicit asset file is stored under its stem as its path joined with that stem. |
| `Build.ReadSiteFilesCorrectedAssetFile` | static_site_gen/build.py:55-61 | In the corrected reading, the same entry is the file's own path. |
| `Build.BuildOne` | static_site_gen/build.py:135-142 | Succeeds exactly when the page has a string template that is known and a string url. A missing template, an unknown template name and a missing url are each the `KeyError` Python raises. On success the template used is the page's, and the target is `<buildDir>/<url>`. |
| `Build.ContentWrites` | static_site_gen/build.py:145 | Without a "pages" section the build fails with `KeyError("pages")` and writes nothing. |
| `Build.WritePagesSpec` | static_site_gen/build.py:147-151 | Pages are rendered in order, each once. The build stops at the first failing page, after writing every page before it. |
| `Build.WriteEntriesAllPages` | static_site_gen/build.py:145-151 | Rendering the dict entry by entry equals rendering all its pages in dict order. |
| `Build.ContentWritesSpec` | static_site_gen/build.py:144-151 | Every page of the "pages" dict is written once, in order, to `<buildDir>/<url>`, up to the first failure. |
| `Dicts.Put` | static_site_gen/build.py:61 | `d[k] = v` keeps an existing key's position and appends a new one. Every other key keeps its value. |
| `Paths.SplitExt` | static_site_gen/build.py:56 | `splitext` splits a path into a root and an extension. The extension is non-empty exactly when the last path component has a dot after some non-dot character, and then it starts with a dot and holds no other dot or slash. |
| `Paths.SplitExtAt` | static_site_gen/build.py:56 | Such a path splits at its last dot. |
| `Paths.SplitExtNone` | static_site_gen/build.py:56 | Any other path is all root. |
| `Paths.SplitExtLastDot` | static_site_gen/build.py:56 | `notes/a.tar.gz` splits into `notes/a.tar` and `.gz`. |
| `Paths.SplitExtDotFile` | static_site_gen/build.py:56 | `.bashrc` has no extension. |
| `Paths.SplitExtDottedDirectory` | static_site_gen/build.py:56 | A dot in a directory name is not an extension: `v1.0/readme` has none. |
| `Sorting.Sort` | static_site_gen/build.py:75-80 | Python's `list.sort` is a permutation, sorted (reversed when asked), and stable: equal keys keep their order. |
| `Wrappers.MapAll` | static_site_gen/build.py:66-72 | Loading a list succeeds exactly when every element loads. The error is that of the first failing element. |
| `Feed.TrimEnd` | static_site_gen/feed.py:63-64 | Removes all trailing slashes, and raises `IndexError` exactly when the text has no other character. |
| `Feed.TrimStart` | static_site_gen/feed.py:65-66 | Removes all leading slashes, and raises `IndexError` exactly when the text has no other character. |
| `Feed.JoinUrl` | static_site_gen/feed.py:62-67 | `joinUrl` succeeds exactly when both parts have a character other than a slash. |
| `Feed.JoinUrlSlashes` | static_site_gen/feed.py:62-67 | However many slashes surround the seam, the result is `a + "/" + b`. |
| `Feed.JoinUrlExtraSlash` | static_site_gen/feed.py:63-66 | An extra slash on either side of the seam changes nothing. |
| `Feed.MakeEntry` | static_site_gen/feed.py:36-53 | The entry id is the page's feed id when the page has an id, else `joinUrl(feed id, url)`. `updated` falls back to the date, author to the site author, and rights to the site rights or none. |
| `Feed.LatestFrom` | static_site_gen/feed.py:13 | The scan `max` makes returns the first page of latest date, a missing date counting as 1970-01-01. |
| `Feed.Latest` | static_site_gen/feed.py:13 | `max` over no pages is a `ValueError`. Otherwise it returns the first page of latest date. |
| `Feed.FilterGroups` | static_site_gen/feed.py:32-34 | A page is kept exactly when its group is one of the listed groups. |
| `Feed.FilterGroupsAppend` | static_site_gen/feed.py:31-35 | Filtering keeps page order: it distributes over concatenation. |
| `Feed.Selected` | static_site_gen/feed.py:31-35 | With no groups every page gets an entry. Otherwise exactly the pages of the listed groups do. |
| `Feed.MakeFeed` | static_site_gen/feed.py:8-60 | Empty pages are a `ValueError`. On success there is one entry per selected page, in order, the updated page is the first latest one, and the atom output precedes the rss output. |
| `Feed.MakeFeedNoOutput` | static_site_gen/feed.py:55-60 | When the entries can be made, the feed fails exactly when neither output file is given, with the `RuntimeError`. |
| `BlogScript.FirstLine` | static_site_gen/__main__.py:39 | `Meta[key][0]` exists exactly when the key is present with at least one line. Otherwise the script exits with status 1. |
| `BlogScript.IndexRecord` | static_site_gen/__main__.py:37-45 | The index record is the first title line, slug "index" and the html. A missing or empty title exits with status 1. |
| `BlogScript.PostRecord` | static_site_gen/__main__.py:47-64 | A post needs title, date and description lines, otherwise the script exits with status 1. The slug is the file name without its extension, and the description is converted. |
| `BlogScript.WithUrl` | static_site_gen/__main__.py:68-70 | Only the url changes, and it becomes `<slug>.html`. |
| `BlogScript.BuildRecords` | static_site_gen/__main__.py:34-70 | Succeeds exactly when the index and every post have their metadata. The posts are the records sorted by date, each with its url. |
| `BlogScript.BuildRecordsPosts` | static_site_gen/__main__.py:65-70 | The posts are a stable, ascending-by-date permutation of the files' records. Every record's url is its slug with ".html". |
| `BlogScript.OutputPathsMatchUrls` | static_site_gen/__main__.py:81-91 | Each file written is `output/` followed by that record's url. |

## Left out

- `cli.py` is not part of this model. It holds the click commands, the local
  server and the example-site copying, and it depends on a module that is not
  shown.
- `buildSite` and `buildAssetFiles` are left out: they are configuration
  loading, template loading, clearing the build directory and copying files.
  Only the write-set of `buildContentFiles` is modelled, as data.
- File contents, directory listings and `isfile` are a `FileSystem` value.
  The stand-alone script's reads, `chdir` and asset copy are left out.
- Python-Markdown internals are passed in as functions and constrained only
  by what the code relies on: `detab`, `parseChunk`, `lastChild`,
  `markdown.convert`, and the text normalisation before preprocessing.
  Extension registration (`extendMarkdown`, `makeExtension`) is left out.
- `toml.loads`, jinja2 rendering and feedgen serialisation are passed in as
  functions or left out. So are the feed-header setter calls.
- `md.Meta` is shared across documents in the source. It is modelled as reset
  for every document, so front matter or a `content` key left by an earlier
  page does not carry over.
- `\w`, `\s`, `lower` and `capitalize` are modelled on ASCII only.
- Dates are integers on one time line. Float TOML values are not modelled.
- `Build.KeyOf`: lists and inline tables used as sort keys are reported as
  `TypeError`, although Python compares lists element by element.
- `Build.BuildOne`: a template or url that is not a string is reported as
  `TypeError`. Python would look up or format whatever value is there.
- `Build.CollectionOf`: a string given where a list of paths is expected is a
  `TypeError` here. Python would iterate its characters. A non-string sort key
  is also a `TypeError`.
- `Build.Convert`: the model states only the case without front matter. The
  front-matter case is stated by `Meta.Run`.
- The `ContentFile` dataclass is left out: it has no behaviour. As written,
  its field `meta: Dict[Any]` (config_structs.py:65) raises `TypeError` when
  the class body runs, because `Dict` takes two parameters, so the module
  cannot be imported. The other records are modelled as if it could.
- `Build.ReadSiteFilesSpec` and `Build.ReadSectionsGet` assume the
  configuration's names are distinct, as the keys of a Python dict are.
- `Admonition.RunDirectiveBody` and `Admonition.RunContinuationContinues`
  hold for a host whose `parseChunk` keeps tag and attributes, which is all
  that the code relies on from Python-Markdown.

## Findings

| source | as written | input that shows it | evidently intended | confidence | as-written member | corrected member |
|---|---|---|---|---|---|---|
| static_site_gen/admonition.py:52-55 | Only `block[m.end():]` is used after the search, so the lines before the directive line are discarded. | The block `"Intro\n!!! note\n    body"`: "Intro" appears nowhere in the tree (`RunAsWrittenDropsLeadingText`). | Hand `block[:m.start()]` to the block parser before the box, as later versions of the upstream admonition extension do (`RunKeepsLeadingText`). | medium, not executed | `Admonition.RunAsWritten` | `Admonition.Run` |
| static_site_gen/build.py:60 | An explicit asset is stored as `os.path.join(path, name)`, its path joined with its own stem. | The asset path `site.css` is stored as `site.css/site` (`AssetPathAsWrittenWrong`). | The asset's own path, as the docstring ("assetPaths are just the full path to the file") and the directory case at line 71 do (`AssetEntriesAgree`). | high, not executed | `Build.ReadSiteFilesAssetFile` | `Build.ReadSiteFilesCorrectedAssetFile` |
| static_site_gen/config_structs.py:55 | The flag is read from "sortReverse" but guarded by "sortByReverse". The declared `sortByReverse` field is never set. | `{"sortByReverse": "date"}` raises `KeyError("sortReverse")` (`SortByReverseRejected`). | `sortByReverse` is copied like `sortBy`, matching its declaration and its use in `readSiteFiles` (`MakePagesConfig`). | high, not executed | `Config.MakePagesConfigAsWritten` | `Config.MakePagesConfig` |
