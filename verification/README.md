# deken search-index core, in Dafny

deken is the package manager of Pure Data: it finds "externals" (plugin libraries) and
installs them. This project models the pure core behind deken's search proxy and its
helper scripts:

- **`split_unescape`** (`Utilities.SplitUnescape`). The left-to-right tokenizer with an
  escape character, an `unescape` flag and a `maxsplit` limit. It is modelled as the
  scanner the code runs (`Utilities.Scan`), and it is proved equal to an independent
  front-to-back description (`Utilities.Tokens`).
- **`getNameVersion`** (`Utilities.GetNameVersion`). It reads the package name and version
  from an archive file name: cut at the suffix marker and at `(`, split at every `-v`, then
  tidy both halves. The two listing scripts carry copies with the suffix fixed to
  `-externals` (`PuredataInfo.NameVersion`).
- **`LibrarySearch`**. The in-memory library index: `libs` maps a library to the keys of its
  releases, and `db` maps a key to its dump lines. `refresh` rebuilds both maps from a
  tab-separated dump. `search` returns the lines of every key whose library name contains
  some needle, key by key in sorted order. The state is an immutable `LibraryIndex`.
  Operations return a new state, or `Failed` when a line cannot be unpacked.
- **`ObjectSearch`**. The object index: object name to a set of files. Its only working
  branch is the retraction of a file that has gone missing.
- **The listing scripts** `puredata_info.py` and `puredata_info_list.py` (modules
  `PuredataInfo` and `PuredataInfoList`). They cover:
  - the query-string multi-map;
  - the filter on archive file names;
  - the title rule;
  - the tab-separated row.
- **The apt helper plugin** (`AptHelper`). It covers:
  - `stripSuffix`, which strips a prefix;
  - `hasDependency`;
  - the name index built by `getPackages`;
  - `getOrigin`. Origins are records with optional attributes, and the undefined
    `fallback_uploader` is an error result.
- **`check_pyversions`** from the build script (`Setup`). The interpreter version is a
  parameter.

Supporting modules:

- `Wrappers`: `Option` and `Result`.
- `Strings`: the Python `str` operations used by the code (`split`, `join`, `strip`, `in`,
  `endswith`, `lower`, `replace`).
- `StringOrder`: code-point order on strings, and `sorted` of a set of strings.

Where the code does something surprising, the model does the same:

- `refresh` stops with `Failed` at the first non-empty line that has fewer than two tabs:
  Python's `ValueError` escapes the loop, so one bad line aborts the refresh. The lines before
  the bad one stay indexed, because the maps are changed in place line by line before the
  exception. The index from before the refresh is lost, because the maps were reset first
  (`librarysearch.py` lines 42-43).
- A trailing lone escape survives in both `unescape` modes.
- `getOrigin` returns a triple when there is no origin (`AptHelper.NoOrigin`).
- `ObjectSearch.refresh` of a file that exists fails, because the name `read` is not
  defined.

## Model

| member | source | states |
|---|---|---|
| Utilities.SplitUnescape | developer/server/proxy/utilities.py:36-63 | `maxsplit == 0` gives exactly `[s]`. Otherwise there is at least one token, at most one more than the delimiters in `s`, and at most `maxsplit + 1` when `maxsplit > 0` |
| Utilities.ScanMatchesTokens | developer/server/proxy/utilities.py:42-62 | From any point of the scan, the result is the tokens already closed, then the reference tokens of the rest with the open token glued to the first |
| Utilities.SplitUnescapeIsTokens | developer/server/proxy/utilities.py:36-63 | For every non-zero `maxsplit`, the scanner equals the independent front-to-back token description |
| Utilities.TokensBounds | developer/server/proxy/utilities.py:52-62 | The reference description never has more tokens than delimiters plus one, nor more than the limit plus one |
| Utilities.SplitUnescapeJoin | developer/server/proxy/utilities.py:52-62 | Without escapes and without a limit, joining the tokens with the delimiter gives back the input |
| Utilities.EscapedCharIsLiteral | developer/server/proxy/utilities.py:43-51 | An escaped character never splits, the delimiter included. It joins the current token, with the escape kept only when `unescape` is false |
| Utilities.UnescapedDelimiterSplits | developer/server/proxy/utilities.py:52-59 | An unescaped delimiter closes the token. When that uses up `maxsplit`, the rest is the last token verbatim |
| Utilities.SplitUnescapeRemainder | developer/server/proxy/utilities.py:57-59 | With `maxsplit = k > 0` and `k` splits made, the last token is the input after some delimiter, untouched |
| Utilities.SplitUnescapeTrailingEscape | developer/server/proxy/utilities.py:43-51 | An escape added after an even run of escapes (so not escaping anything) is kept exactly once, at the end of the last token, in both modes and under every non-zero `maxsplit` |
| Utilities.EscapedDelimiterThenTrailingEscape | developer/server/proxy/utilities.py:43-51 | With unescaping, an escaped delimiter followed by plain text and a lone escape is one token, holding the bare delimiter and ending in the escape |
| Utilities.SplitUnescapePlain | developer/server/proxy/utilities.py:60-63 | Text without escapes and delimiters is a single token |
| Utilities.PlainThenTrailingEscape | developer/server/proxy/utilities.py:49-51 | Plain text followed by a lone escape is one token that ends in the escape |
| Utilities.TwoPlainTokens | developer/server/proxy/utilities.py:52-62 | Two plain tokens around one delimiter come back apart under any non-zero limit |
| Utilities.ThreePlainTokens | developer/server/proxy/utilities.py:52-62 | Three plain tokens come back apart without a limit |
| Utilities.FirstSplitOnly | developer/server/proxy/utilities.py:57-59 | With `maxsplit = 1`, everything after the first delimiter is kept whole |
| Utilities.EscapedDelimiterJoins | developer/server/proxy/utilities.py:43-48 | With unescaping on, an escaped delimiter between plain texts leaves one token holding the bare delimiter |
| Utilities.EscapedEscapeThenDelimiter | developer/server/proxy/utilities.py:43-48 | A doubled escape before a delimiter is one literal escape (two without unescaping), and the delimiter still splits |
| Utilities.EscapedThenFirstSplit | developer/server/proxy/utilities.py:52-59 | An escaped delimiter does not count towards `maxsplit` |
| Utilities.DoctestPlainSplit | developer/server/proxy/utilities.py:25-26 | `'foo,bar'` splits at the comma into `foo` and `bar` |
| Utilities.DoctestEscapedDelimiter | developer/server/proxy/utilities.py:27-28 | `'foo$,bar'` with escape `$` is the single token `foo,bar` |
| Utilities.DoctestEscapedEscape | developer/server/proxy/utilities.py:29-32 | `'foo$$,bar'` gives `['foo$', 'bar']` when unescaping and `['foo$$', 'bar']` otherwise |
| Utilities.DoctestTrailingEscape | developer/server/proxy/utilities.py:33-34 | `'foo$'` gives `['foo$']` in both modes |
| Utilities.DoctestLikeEscapedThenTrailing | developer/server/proxy/utilities.py:43-51 | `'a$,b$'` with unescaping gives `['a,b$']` |
| Utilities.SpaceSplitUnlimited | developer/server/proxy/utilities.py:23-63 | Space-separated words split into all their words |
| Utilities.SpaceSplitOnce | developer/server/proxy/objectsearch.py:47 | With `maxsplit=1` on spaces, the object name comes off the front and the rest stays whole |
| Utilities.SpaceSplitOnceEscaped | developer/server/proxy/objectsearch.py:47 | A backslash-escaped space stays inside the object name |
| Utilities.Tidy | developer/server/proxy/utilities.py:71-75 | The tidied text occurs in the input, and it neither starts nor ends with whitespace |
| Utilities.TidyTrimmed | developer/server/proxy/utilities.py:71-75 | The tidied text is a stretch `x[i..j]` of the input, and every character dropped before or after it is `-` or whitespace |
| Utilities.Stem | developer/server/proxy/utilities.py:67 | The cut file name is a prefix of the file name, and it holds neither the suffix marker nor `(` |
| Utilities.StemCut | developer/server/proxy/utilities.py:67 | The cut ends where the first occurrence of the suffix marker or the first `(` begins, whichever is earlier: neither begins inside it, and one begins right after it unless it is the whole file name |
| Utilities.NameVersionOfStem | developer/server/proxy/utilities.py:68-75 | Name and version occur in the stem, the version holds no `-v`, and neither has surrounding whitespace |
| Utilities.GetNameVersion | developer/server/proxy/utilities.py:66-75 | The parser is total. Name and version occur in the file name, hold neither the suffix nor `(`, and have no surrounding whitespace. The version holds no `-v` |
| Utilities.NameVersionSplitsAtLastMarker | developer/server/proxy/utilities.py:68-74 | Without `-v` the version is empty. Otherwise the version is the tidied part after the last `-v`, and the name is the earlier parts rejoined with `-v` and tidied |
| Utilities.TidyKeeps | developer/server/proxy/utilities.py:71-75 | Text that starts and ends with a printable character other than `-` is left alone |
| Utilities.TidyDropsDash | developer/server/proxy/utilities.py:71 | One trailing dash after tidy text, as left before `-externals`, is dropped |
| Utilities.StemAtParen | developer/server/proxy/utilities.py:67 | A file name with a `(` before the suffix is cut at the `(` |
| Utilities.StemAtSuffix | developer/server/proxy/utilities.py:67 | A file name without `(` is cut at the suffix |
| Utilities.StemWhole | developer/server/proxy/utilities.py:67 | A file name with neither the suffix nor `(` is its own stem |
| Utilities.NameVersionOfTwoParts | developer/server/proxy/utilities.py:68-75 | A stem with exactly one `-v` gives its two sides, tidied |
| Utilities.NameVersionClean | developer/server/proxy/utilities.py:68-75 | Tidy sides of a single `-v` come back unchanged |
| Utilities.NameVersionDashed | developer/server/proxy/utilities.py:68-75 | The shape `<name>-v<version>-...` gives `(name, version)` |
| Utilities.NameVersionUnversioned | developer/server/proxy/utilities.py:72-75 | A tidy stem without `-v` is the name, and the version is empty |
| NameVersionExamples.GemExample | developer/server/proxy/librarysearch.py:27 | `Gem-v0.93.3-(Windows-i386-32)-externals.zip` parses to `("Gem", "0.93.3")` |
| NameVersionExamples.Patch2svgExample | developer/server/proxy/librarysearch.py:28 | `patch2svg-plugin-v0.1--externals.zip` parses to `("patch2svg-plugin", "0.1")` |
| NameVersionExamples.ZexyExample | developer/server/proxy/utilities.py:66-75 | A version with a dash inside, followed by an architecture tag, is kept whole |
| NameVersionExamples.UnversionedExample | developer/server/proxy/utilities.py:72-75 | A name without `-v` parses with an empty version |
| LibrarySearch.Fields | developer/server/proxy/librarysearch.py:47 | Unpacking a line into three names succeeds exactly when it has at least two tabs. The parts are then the text before the first tab, the text between the first two tabs, and the rest |
| LibrarySearch.KeyOf | developer/server/proxy/librarysearch.py:49-51 | The key is a release of its library, and it is the bare library name exactly when the version is empty |
| LibrarySearch.LibraryOfKey | developer/server/proxy/librarysearch.py:49-51 | A `/`-free library name is the part of the key before the first `/`, and the version is the part after it |
| LibrarySearch.ParseLine | developer/server/proxy/librarysearch.py:47-51 | A line is filed exactly when it has two tabs. Its library name holds no `/`, and its key is a release of that library. Which library and key: `ParseLineOf` below |
| LibrarySearch.SplitOnceTab | developer/server/proxy/librarysearch.py:47 | Splitting at most once at the first tab cuts a tab-free head from the rest |
| LibrarySearch.FieldsOf | developer/server/proxy/librarysearch.py:47 | A line built from a tab-free description, a tab-free url and any rest unpacks into exactly those three parts |
| LibrarySearch.AfterLastOf | developer/server/proxy/librarysearch.py:48 | `url.split("/")[-1]` of a directory, a `/` and a `/`-free file name is that file name |
| LibrarySearch.ParseLineOf | developer/server/proxy/librarysearch.py:47-51 | For every line of tab-free description and url whose url is a directory and a file name: the library is the name `getNameVersion` finds in the file name, and the key is that name, followed by `/` and the version when the version is not empty |
| LibrarySearch.ParseLineBareUrl | developer/server/proxy/librarysearch.py:47-51 | The same for a url with no `/` at all: the whole url is the file name |
| LibrarySearch.GemLineEntry | developer/server/proxy/librarysearch.py:27 | The first line of the sample dump is filed under the library `Gem` and the key `Gem/0.93.3` |
| LibrarySearch.AcceptableIffTwoTabs | developer/server/proxy/librarysearch.py:45-47 | A line is accepted exactly when it is empty or holds at least two tabs |
| LibrarySearch.Add | developer/server/proxy/librarysearch.py:52-57 | Filing a line appends its key to its library's list and the line to its key's list, and changes nothing else |
| LibrarySearch.Create | developer/server/proxy/librarysearch.py:34-40 | An empty dump gives the empty index. Any other dump is a `refresh` |
| LibrarySearch.BuildAppends | developer/server/proxy/librarysearch.py:44-57 | When every line unpacks, the build succeeds. Each key's lines are its old lines plus the dump lines under that key, in order, and likewise for each library's keys |
| LibrarySearch.BuildStops | developer/server/proxy/librarysearch.py:44-47 | The first line that cannot be unpacked stops the build, with exactly the lines before it filed |
| LibrarySearch.BuildSucceedsIff | developer/server/proxy/librarysearch.py:44-57 | The build succeeds exactly when every non-empty line unpacks |
| LibrarySearch.RefreshFilesEveryLine | developer/server/proxy/librarysearch.py:41-57 | After a successful `refresh`, `db[k]` is exactly the non-empty lines with key `k`, in input order, and `libs[p]` is the key of each line of library `p`. A key or library is present exactly when some line names it |
| LibrarySearch.RefreshFailsOnShortLine | developer/server/proxy/librarysearch.py:42-47 | A non-empty line with fewer than two tabs makes `refresh` fail after the reset, keeping only the lines before it |
| LibrarySearch.RefreshIdempotent | developer/server/proxy/librarysearch.py:41-43 | The result does not depend on the previous state, so refreshing twice with the same dump is refreshing once |
| LibrarySearch.LinesUnderMembers | developer/server/proxy/librarysearch.py:44-57 | A line is filed under `k` exactly when it is a non-empty dump line whose key is `k` |
| LibrarySearch.LinesUnderCounts | developer/server/proxy/librarysearch.py:57 | A filed line occurs under its own key as often as in the dump, and under no other key |
| LibrarySearch.KeysOfMembers | developer/server/proxy/librarysearch.py:56 | A key is listed for a library exactly when some dump line has that library and key |
| LibrarySearch.ParseLineFilesUnderOwnLibrary | developer/server/proxy/librarysearch.py:48-51 | Every line is filed under a release of its own library |
| LibrarySearch.AddConsistent | developer/server/proxy/librarysearch.py:52-57 | Filing a line under a release of its library keeps the two maps consistent |
| LibrarySearch.AddLibsListed | developer/server/proxy/librarysearch.py:52-57 | After filing, every listed key is still a key of `db` and a release of its library |
| LibrarySearch.AddDbCovered | developer/server/proxy/librarysearch.py:52-57 | After filing, every key of `db` is still listed for some library |
| LibrarySearch.BuildConsistent | developer/server/proxy/librarysearch.py:44-57 | A build keeps the two maps consistent, even when it stops early |
| LibrarySearch.RefreshConsistent | developer/server/proxy/librarysearch.py:41-57 | After every `refresh`, successful or failed, every listed key is in `db` and is its library's name or starts with it and `/`. Every key of `db` is listed |
| LibrarySearch.Gather | developer/server/proxy/librarysearch.py:65-67 | A line is gathered exactly when it is under one of the keys |
| LibrarySearch.MatchingKeysInDb | developer/server/proxy/librarysearch.py:59-67 | On a consistent index, every key the search picks has lines in `db`, so `db[k]` cannot fail |
| LibrarySearch.Search | developer/server/proxy/librarysearch.py:58-68 | A line is in the result exactly when it is under a key whose library name contains some needle |
| LibrarySearch.SearchInSortedKeyOrder | developer/server/proxy/librarysearch.py:65-67 | The result is the lines of the matching keys, gathered in strictly increasing key order, so each key contributes once |
| LibrarySearch.NoNeedlesNoResults | developer/server/proxy/librarysearch.py:58-64 | No needles select no key and give no lines |
| LibrarySearch.EmptyNeedleMatchesAll | developer/server/proxy/librarysearch.py:61-64 | The empty needle selects every key of the index |
| LibrarySearch.NeedlesCombine | developer/server/proxy/librarysearch.py:59-64 | The keys selected by `a + b` are the union of those selected by `a` and by `b` |
| LibrarySearch.GatherCount | developer/server/proxy/librarysearch.py:65-67 | Over distinct keys, a line occurs in the result as often as under the one key that may hold it |
| LibrarySearch.ParseLineKeyDeterminesLibrary | developer/server/proxy/librarysearch.py:48-51 | Two lines with the same key have the same library |
| LibrarySearch.MatchingKeysAfterBuild | developer/server/proxy/librarysearch.py:59-64 | On a built index, the search picks exactly the keys of the non-empty dump lines whose library matches a needle |
| LibrarySearch.MatchingKeyFromLine | developer/server/proxy/librarysearch.py:59-64 | Every picked key comes from such a line |
| LibrarySearch.LineGivesMatchingKey | developer/server/proxy/librarysearch.py:59-64 | Every such line's key is picked |
| LibrarySearch.DbAfterBuild | developer/server/proxy/librarysearch.py:44-57 | On a built index, `db[k]` is the dump lines under `k`, in order |
| LibrarySearch.SearchSoundAfterBuild | developer/server/proxy/librarysearch.py:41-68 | Every line a search returns is a dump line whose library matches a needle |
| LibrarySearch.SearchCompleteAfterBuild | developer/server/proxy/librarysearch.py:41-68 | Every dump line whose library matches a needle is returned |
| LibrarySearch.SearchAfterBuild | developer/server/proxy/librarysearch.py:41-68 | After a build, a line is returned exactly when it is a non-empty dump line whose library contains a needle |
| LibrarySearch.SearchCountsAfterBuild | developer/server/proxy/librarysearch.py:41-68 | Each selected line is returned as often as it occurs in the dump, and no other line is returned |
| LibrarySearch.SearchAfterRefresh | developer/server/proxy/librarysearch.py:41-68 | `refresh` followed by `search` returns each line of a matching library as often as the dump holds it, and nothing else |
| StringOrder.SortSet | developer/server/proxy/librarysearch.py:66 | `sorted(keys)` lists each member of the set once, in strictly increasing order |
| StringOrder.SortedUnique | developer/server/proxy/librarysearch.py:66 | A set has only one strictly increasing listing |
| StringOrder.SortSetIsTheSortedListing | developer/server/proxy/librarysearch.py:66 | Any strictly increasing listing of the set is `sorted(keys)` |
| ObjectSearch.Retract | developer/server/proxy/objectsearch.py:48-50 | After the retraction the file is in no bucket, every other file stays in its buckets, no bucket grows, and the set of object names is unchanged |
| ObjectSearch.Refresh | developer/server/proxy/objectsearch.py:41-50 | `refresh` fails exactly when the file exists. A missing file is retracted from every bucket, and no object name is added or removed |
| ObjectSearch.RetractIdempotent | developer/server/proxy/objectsearch.py:49-50 | Retracting a file twice is retracting it once |
| ObjectSearch.RetractCommutes | developer/server/proxy/objectsearch.py:49-50 | Retracting two files in either order gives the same index |
| ObjectSearch.RetractUnknown | developer/server/proxy/objectsearch.py:49-50 | Retracting a file that no bucket holds changes nothing |
| ObjectSearch.RefreshKeepsEmpty | developer/server/proxy/objectsearch.py:36-50 | The index a new `ObjectSearch` starts with stays empty through any `refresh` |
| PuredataInfo.ParseArg | server/puredata_info.py:12-16 | A piece with `=` is its key, `=` and value, and the key holds no `=`, so the value may hold `=`. A piece without `=` is a key with value `""` |
| PuredataInfo.AddArg | server/puredata_info.py:17-20 | The value is appended to its key's list, and every other key is unchanged |
| PuredataInfo.CollectValues | server/puredata_info.py:11-20 | After the loop, each key's values are its old values plus the values the pieces give it, in order. A key is present exactly when it was present before or some piece gives it a value |
| PuredataInfo.ParseQueryValues | server/puredata_info.py:9-20 | An empty query gives no arguments. Otherwise each key's values are, in query order, the values of the `&`-pieces with that key, and a key is present exactly when it has a value |
| PuredataInfo.ParseQueryKeys | server/puredata_info.py:11-16 | Every key holds neither `&` nor `=` |
| PuredataInfo.ParseArgAt | server/puredata_info.py:13 | A piece `k=v` with an `=`-free key reads back as `(k, v)` |
| PuredataInfo.QueryExample | server/puredata_info.py:9-20 | `a=1&a=2=3&b` gives `a` the values `1` and `2=3`, and gives `b` the value `""` |
| PuredataInfo.FileNameOf | server/puredata_info.py:56 | The file name is everything after the last `/`: the url ends in `/` followed by it and it holds no `/`; a url without `/` is its own file name |
| PuredataInfo.IsArchiveEndings | server/puredata_info.py:58-64 | The suffix loop accepts exactly the names ending in `-externals.zip`, `-externals.tgz` or `-externals.tar.gz` |
| PuredataInfo.NoNameListsEveryArchive | server/puredata_info.py:55-73 | Without a `name` argument, an item is listed exactly when its lower-cased file name is an archive name |
| PuredataInfo.EmptyNameListsEveryArchive | server/puredata_info.py:65-72 | An empty `name` value lets every archive through |
| PuredataInfo.UpperCaseNameMatchesNothing | server/puredata_info.py:57-72 | `name` values are not lower-cased, so values that each hold an upper-case letter list nothing |
| PuredataInfo.NameVersion | server/puredata_info.py:23-32 | The copy equals the shared parser with suffix `-externals`. Its parts occur in the file name and hold neither `(` nor `-externals` |
| PuredataInfo.Sanitize | server/puredata_info.py:37 | Each tab becomes a space and every other character stays where it was, so no tab is left and the length is kept |
| PuredataInfo.VersionedTitleParts | server/puredata_info.py:40 | `name/version (title)` contains the name, the version and the title |
| PuredataInfo.UnversionedTitleParts | server/puredata_info.py:42 | `name (title)` contains the name and the title |
| PuredataInfo.ComposeTitle | server/puredata_info.py:37-42 | The composed title always mentions the name, the version and the sanitized title. It holds a tab only if the name or the version does. A title that is not kept is replaced by one that starts with the name, then has `/` and the version when the version is not empty, and ends with ` (title)`, with nothing else in between |
| PuredataInfo.TitleKeptIff | server/puredata_info.py:38-42 | The sanitized title is kept exactly when it already contains both the name and the version |
| PuredataInfo.TitleReplaced | server/puredata_info.py:38-42 | A title that is not kept becomes `name/version (title)`, or `name (title)` when the version is empty: its length, its leading name, the `/` and version, and the bracketed sanitized title at its end pin it down. Splitting it once at `/` gives back the name when the name has no `/` |
| PuredataInfo.ComposeTitleVersioned | server/puredata_info.py:38-40 | The title `graphics` of `Gem` 0.93.3 becomes `Gem/0.93.3 (graphics)` |
| PuredataInfo.ComposeTitleUnversioned | server/puredata_info.py:38-42 | The title `x` of an unversioned `zexy` becomes `zexy (x)` |
| PuredataInfo.SplitFour | server/puredata_info.py:45 | Four tab-free fields joined by tabs split back into the same four fields |
| PuredataInfo.ShowPackageFields | server/puredata_info.py:35-45 | If the url and file name hold no tab, a row reads back as title, url, owner and date, with tabs in owner and date replaced |
| PuredataInfoList.InfoListedIsListed | developer/server/puredata_info_list.py:37-43 | Every file the first script lists, under any query, the second lists too |
| PuredataInfoList.ListIsInfoPlusObjectLists | developer/server/puredata_info_list.py:37-43 | Without a query, the second script lists exactly the first one's archives plus the `-objects.txt` files |
| PuredataInfoList.StripTabFree | developer/server/puredata_info_list.py:24 | Stripping a tab-free date leaves it tab-free |
| PuredataInfoList.RowsAgree | developer/server/puredata_info_list.py:24-26 | Its row has the first script's fields with url and title swapped and the date also stripped |
| PuredataInfoList.ShowListPackageFields | developer/server/puredata_info_list.py:16-26 | If the url and file name hold no tab, a row reads back as url, title, owner and stripped date |
| PuredataInfoList.UnversionedTitle | developer/server/puredata_info_list.py:19-23 | With an empty version, only the name decides whether the title is kept |
| PuredataInfoList.ObjectListExample | developer/server/puredata_info_list.py:5-9 | `tof-v0.2.0-objects.txt` has no `-externals`, so its version is `0.2.0-objects.txt` |
| AptHelper.StripSuffix | deken-extra-plugins/deken-xtra-apt-helper.py:75-78 | When `s` starts with the argument, the result is the rest of `s`. Otherwise it is `s` unchanged |
| AptHelper.StripSuffixOfPrefixed | deken-extra-plugins/deken-xtra-apt-helper.py:75-78 | It undoes prepending |
| AptHelper.StripSuffixKeepsSuffix | deken-extra-plugins/deken-xtra-apt-helper.py:75-78 | Despite its name, it leaves a trailing occurrence of the argument alone in a string that does not also start with it |
| AptHelper.HasDependency | deken-extra-plugins/deken-xtra-apt-helper.py:81-89 | True exactly when some alternative of some dependency group is named in the set |
| AptHelper.PdDeps | deken-extra-plugins/deken-xtra-apt-helper.py:93-98 | A float size of 64 selects the 64-bit Pd set, and every other size the 32-bit set. Both hold the GUI |
| AptHelper.Names | deken-extra-plugins/deken-xtra-apt-helper.py:112-114 | A name is in the result exactly when it, `pd-` followed by it, or `pd64-` followed by it is the short name or a provided name; so the short name and every provided name are in it |
| AptHelper.File | deken-extra-plugins/deken-xtra-apt-helper.py:115-117 | The version joins the set of each given name, and nothing else changes |
| AptHelper.FileVersionsFinds | deken-extra-plugins/deken-xtra-apt-helper.py:108-117 | A version is found under a name exactly when it was before, or it is one of the package's versions, depends on Pd, and has that name |
| AptHelper.FilePackagesFinds | deken-extra-plugins/deken-xtra-apt-helper.py:100-117 | The cache loop files a version under a name exactly when some considered package files it there |
| AptHelper.NameIndexFinds | deken-extra-plugins/deken-xtra-apt-helper.py:100-117 | A version is found under a name exactly when its package is not Pd's own and has the wanted architecture, the version depends on Pd of the float size, and the name is one of its names |
| AptHelper.PdPrefixedNames | deken-extra-plugins/deken-xtra-apt-helper.py:112-117 | A `pd-` package is found under its short name and under the name without `pd-` |
| AptHelper.PuredataPackagesSkipped | deken-extra-plugins/deken-xtra-apt-helper.py:103-104 | Packages whose short name starts with `puredata` contribute nothing |
| AptHelper.Trusted | deken-extra-plugins/deken-xtra-apt-helper.py:137 | The result holds exactly the trusted origins, and is no longer than the input |
| AptHelper.TrustedCount | deken-extra-plugins/deken-xtra-apt-helper.py:137 | Each trusted origin is kept as many times as it occurs, and no untrusted one is kept |
| AptHelper.TrustedConcat | deken-extra-plugins/deken-xtra-apt-helper.py:137 | Filtering a concatenation is concatenating the filtered parts, so the kept origins stay in input order |
| AptHelper.TrustedOfTrusted | deken-extra-plugins/deken-xtra-apt-helper.py:137 | Filtering twice is filtering once |
| AptHelper.TrustedPreferred | deken-extra-plugins/deken-xtra-apt-helper.py:137-141 | Once a trusted origin exists, the untrusted ones play no part |
| AptHelper.NoOriginsFallBack | deken-extra-plugins/deken-xtra-apt-helper.py:143-144 | With no origin, the result is the triple of fallback origin, fallback date and `None` |
| AptHelper.FirstTruthy | deken-extra-plugins/deken-xtra-apt-helper.py:153-161 | The result is empty exactly when all values are empty. Otherwise it is the first non-empty value: it occurs at some index, and every value before that index is empty |
| AptHelper.UnlabelledOrigin | deken-extra-plugins/deken-xtra-apt-helper.py:152-155 | From an unset origin, one record fails exactly when it has an empty label and an empty origin. Otherwise it yields that record's own value |
| AptHelper.UnlabelledFirstStep | deken-extra-plugins/deken-xtra-apt-helper.py:149-155 | The failing case is decided by the first record, or by the rest when the first contributes nothing |
| AptHelper.ScanIsFirstTruthy | deken-extra-plugins/deken-xtra-apt-helper.py:146-163 | The loop with its early exit computes, per field, the first truthy value over the origins. It fails exactly when an unlabelled origin comes before any labelled one |
| AptHelper.GetOriginIsFirstTruthy | deken-extra-plugins/deken-xtra-apt-helper.py:125-174 | `getOrigin` fails exactly on an unlabelled origin before any labelled one among the candidates. Otherwise it summarises the first truthy origin, codename and component |
| AptHelper.DebianExample | deken-extra-plugins/deken-xtra-apt-helper.py:165-174 | A trusted Debian origin gives `("Debian", "bookworm/main")` |
| AptHelper.MissingCodenameExample | deken-extra-plugins/deken-xtra-apt-helper.py:166-170 | A component without a codename is shown as `???/main` |
| AptHelper.UnlabelledExample | deken-extra-plugins/deken-xtra-apt-helper.py:153 | An origin with empty label and empty origin reaches the undefined `fallback_uploader` |
| Setup.CheckPyVersions | developer/setup.py:17-20 | True exactly when some entry agrees with the version on all the components both have |
| Setup.NoVersionsNoMatch | developer/setup.py:17-20 | No entries give `False` |
| Setup.EmptyEntryMatchesAll | developer/setup.py:18 | The empty entry `()` matches every version |
| Setup.Py2OrPy3 | developer/setup.py:11-12 | `((2,), (3,))` accepts exactly the versions with major number 2 or 3 |
| Setup.Py2OrPy342 | developer/setup.py:14-15 | `((2,), (3,4,2))` accepts exactly the 2.x versions and 3.4.2 |

## Left out

- File reading, the Zope request and catalogue, the apt cache, and the network. The dump, the
  query string, each catalogue item's title, date, owner and url, and the apt packages and
  origins are all parameters.
- `fnmatch` matching and `itertools.chain` in `getPackages` (apt helper lines 118-122): glob
  matching is library code. The model stops at the name index that the patterns are matched
  against.
- `showPackages`, `parseArgs` and `main` of the apt helper. They print, parse the command
  line and probe the native architecture. Note that `showPackages` unpacks the result of
  `getOrigin` into two names, so the triple of line 144 would not unpack there; the model
  keeps the triple as `AptHelper.NoOrigin`.
- `ObjectSearch.search`, whose body is `pass`, and the insertion branch of
  `ObjectSearch.refresh`. That branch calls the undefined `read` (line 45), so it can only
  raise; it is modelled as the error `ReadUndefined` rather than as an insertion.
- The `__main__` blocks, `DekenServer.py`, `librarywatch.py`, `pydeken.py` and the installer
  hooks, which are server, file-watching and packaging plumbing. The rest of `setup.py`
  (py2exe/py2app set-up) is left out too.
- The Zope `printed` accumulation and `html_quote`/`url_unquote`. The url arrives already
  unquoted.
- Strings.Lower: only ASCII letters are lower-cased; Python's full Unicode case mapping is
  not modelled.
- Utilities.GetNameVersion: requires a non-empty suffix. Python's `split` raises
  `ValueError` on an empty separator (utilities.py line 67); that error is not modelled.
- Utilities.SplitUnescape: `delim` and `escape` are single characters. Python accepts any
  string there, but a value of another length never equals one character (lines 42 and 52),
  so such calls are not modelled.
- Setup.CheckPyVersions: the version is a sequence of integers. The release-level string of
  `sys.version_info` is not modelled; it only matters for entries with four or more parts.
- AptHelper.Considered: a missing architecture (`None`) is modelled as `""`. Both skip the
  architecture filter.
- AptHelper.GetOrigin: the `trusted`/`untrusted` marker arguments are assigned to a
  variable that is never read, so they are not parameters.
- LibrarySearch.Search: that `search` leaves the index unchanged holds by
  construction, because the index is an immutable value. No separate lemma states it.
- LibrarySearch.SearchSoundAfterBuild: it assumes that two lines with the same key belong
  to the same library. `LibrarySearch.ParseLineKeyDeterminesLibrary` proves this for the
  real line parser.
