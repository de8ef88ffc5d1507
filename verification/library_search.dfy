/** librarysearch.py: the in-memory index of library releases behind the proxy's library
    search. It is rebuilt wholesale from a tab-separated dump (one release file per line:
    description, url, uploader, date) and searched by substrings of library names. */
module LibrarySearch {

  import opened Wrappers
  import opened Strings
  import opened Utilities
  import opened StringOrder
  import NameVersionExamples

  /** `libs` maps a library name to the keys of its release lines (one per line, repeats
      kept); `db` maps a key (`name` or `name/version`) to its lines, in input order. */
  datatype LibraryIndex = LibraryIndex(libs: map<string, seq<string>>, db: map<string, seq<string>>)

  /** The state right after the reset at the start of `refresh`. */
  const Empty := LibraryIndex(map[], map[])

  /** Where one line is filed: the library and the key of its release. */
  datatype Entry = Entry(pkg: string, key: string)

  /** `refresh` either files every line, or stops at a line it cannot unpack (Python's
      ValueError) leaving what was filed before it. */
  datatype Outcome = Done(index: LibraryIndex) | Failed(index: LibraryIndex, line: string)

  function Get(m: map<string, seq<string>>, k: string): seq<string> {
    if k in m then m[k] else []
  }

  // ---------------------------------------------------------------------------
  // One line
  // ---------------------------------------------------------------------------

  /** `line.split("\t", 2)` unpacked into three names: the description, the url and the
      rest; `None` where the unpacking raises. */
  function Fields(line: string): (r: Option<(string, string, string)>)
    ensures r.None? <==> CountChar(line, '\t') < 2
    ensures r.Some? ==> && r.value.0 + "\t" + r.value.1 + "\t" + r.value.2 == line
                        && '\t' !in r.value.0 && '\t' !in r.value.1
  {
    match SplitOnce(line, "\t")
    case None =>
      NoTab(line);
      None
    case Some((descr, rest)) =>
      match SplitOnce(rest, "\t")
      case None =>
        OneTab(line, descr, rest);
        None
      case Some((url, tail)) =>
        TwoTabs(line, descr, rest, url, tail);
        Some((descr, url, tail))
  }

  /** A line with one tab, the rest after it tab-free. */
  lemma OneTab(line: string, descr: string, rest: string)
    requires descr + "\t" + rest == line && !Contains(descr, "\t") && !Contains(rest, "\t")
    ensures CountChar(line, '\t') == 1
  {
    TabAfterField(line, descr, rest);
    NoTab(rest);
  }

  /** A line cut at its first two tabs. */
  lemma TwoTabs(line: string, descr: string, rest: string, url: string, tail: string)
    requires descr + "\t" + rest == line && !Contains(descr, "\t")
    requires url + "\t" + tail == rest && !Contains(url, "\t")
    ensures CountChar(line, '\t') >= 2
    ensures descr + "\t" + url + "\t" + tail == line && '\t' !in descr && '\t' !in url
  {
    TabAfterField(line, descr, rest);
    ContainsSingle(url, '\t');
    assert Contains(rest, "\t") by {
      assert rest == url + "\t" + tail;
      ContainsMiddle(url, "\t", tail);
    }
    TabPresent(rest);
    assert descr + "\t" + (url + "\t" + tail) == descr + "\t" + url + "\t" + tail;
  }

  lemma NoTab(s: string)
    requires !Contains(s, "\t")
    ensures CountChar(s, '\t') == 0
  {
    ContainsSingle(s, '\t');
    CountCharAbsent(s, '\t');
  }

  lemma TabPresent(s: string)
    requires Contains(s, "\t")
    ensures CountChar(s, '\t') > 0
  {
    ContainsSingle(s, '\t');
    CountCharAbsent(s, '\t');
  }

  lemma TabAfterField(line: string, descr: string, rest: string)
    requires descr + "\t" + rest == line && !Contains(descr, "\t")
    ensures '\t' !in descr && CountChar(line, '\t') == 1 + CountChar(rest, '\t')
  {
    ContainsSingle(descr, '\t');
    CountCharAbsent(descr, '\t');
    CountCharConcat(descr + "\t", rest, '\t');
    CountCharConcat(descr, "\t", '\t');
  }

  /** The key of a release: the library name, followed by `/version` when there is one. */
  function KeyOf(pkg: string, ver: string): (k: string)
    ensures BelongsTo(k, pkg)
    ensures k == pkg <==> ver == ""
  {
    if ver == "" then pkg else pkg + "/" + ver
  }

  /** A library name without `/` is recovered from the key as the part before the first
      `/`, and the version as the rest. */
  lemma LibraryOfKey(pkg: string, ver: string)
    requires '/' !in pkg
    ensures BeforeFirst(KeyOf(pkg, ver), "/") == pkg
    ensures ver != "" ==> KeyOf(pkg, ver)[|pkg| + 1..] == ver
  {
    if ver == "" {
      BeforeFirstNone(pkg, "/", '/');
    } else {
      BeforeFirstAt(pkg, "/", ver, 0);
    }
  }

  /** librarysearch.py lines 47-51: the library and key of a line, from the file name at
      the end of its url. */
  function ParseLine(line: string): (r: Option<Entry>)
    ensures r.None? <==> CountChar(line, '\t') < 2
    ensures r.Some? ==> '/' !in r.value.pkg && BeforeFirst(r.value.key, "/") == r.value.pkg
    ensures r.Some? ==> BelongsTo(r.value.key, r.value.pkg)
  {
    match Fields(line)
    case None => None
    case Some((_, url, _)) =>
      var file := AfterLast(url, "/");
      var (pkg, ver) := GetNameVersion(file, ExternalsMarker);
      ContainsSingle(file, '/');
      ContainsMonotone(file, pkg, "/");
      ContainsSingle(pkg, '/');
      LibraryOfKey(pkg, ver);
      Some(Entry(pkg, KeyOf(pkg, ver)))
  }

  /** Splitting once at a tab that follows a tab-free head gives the head and the rest. */
  lemma SplitOnceTab(a: string, t: string)
    requires '\t' !in a
    ensures SplitOnce(a + "\t" + t, "\t") == Some((a, t))
  {
    BeforeFirstAt(a, "\t", t, 0);
    assert (a + "\t" + t)[|a| + 1..] == t;
  }

  /** A line built from a tab-free description and url unpacks into exactly those fields. */
  lemma FieldsOf(descr: string, url: string, rest: string)
    requires '\t' !in descr && '\t' !in url
    ensures Fields(descr + "\t" + url + "\t" + rest) == Some((descr, url, rest))
  {
    assert descr + "\t" + url + "\t" + rest == descr + "\t" + (url + "\t" + rest);
    SplitOnceTab(descr, url + "\t" + rest);
    SplitOnceTab(url, rest);
  }

  /** The file name of a url is what follows its last `/`. */
  lemma AfterLastOf(dir: string, file: string)
    requires '/' !in file
    ensures AfterLast(dir + "/" + file, "/") == file
  {
    var s := dir + "/" + file;
    var r := AfterLast(s, "/");
    ContainsSingle(s, '/');
    assert s[|dir|] == '/';
    ContainsSingle(r, '/');
    assert EndsWith(s, "/" + file);
    SlashFreeTails(s, r, file);
  }

  /** Two `/`-free tails that each follow a `/` are the same tail. */
  lemma SlashFreeTails(s: string, r: string, t: string)
    requires EndsWith(s, "/" + r) && EndsWith(s, "/" + t) && '/' !in r && '/' !in t
    ensures r == t
  {
    if |r| < |t| {
      SlashInLongerTail(s, r, t);
      assert false;
    } else if |t| < |r| {
      SlashInLongerTail(s, t, r);
      assert false;
    } else {
      assert r == s[|s| - |r|..] == t;
    }
  }

  /** A longer tail of `s` holds the `/` in front of a shorter one. */
  lemma SlashInLongerTail(s: string, r: string, t: string)
    requires EndsWith(s, "/" + r) && EndsWith(s, t) && |r| < |t|
    ensures t[|t| - |r| - 1] == '/'
  {
    assert t[|t| - |r| - 1] == s[|s| - |r| - 1] == ("/" + r)[0];
  }

  /** librarysearch.py lines 47-51 for every line: a line whose url ends in `/file` is filed
      under the name `getNameVersion` reads off `file`, and under the key of that name and
      version. */
  lemma ParseLineOf(descr: string, dir: string, file: string, rest: string)
    requires '\t' !in descr && '\t' !in dir && '\t' !in file && '/' !in file
    ensures var nv := GetNameVersion(file, ExternalsMarker);
            ParseLine(descr + "\t" + (dir + "/" + file) + "\t" + rest) == Some(Entry(nv.0, KeyOf(nv.0, nv.1)))
  {
    FieldsOf(descr, dir + "/" + file, rest);
    AfterLastOf(dir, file);
  }

  /** A url without `/` is itself the file name. */
  lemma ParseLineBareUrl(descr: string, url: string, rest: string)
    requires '\t' !in descr && '\t' !in url && '/' !in url
    ensures var nv := GetNameVersion(url, ExternalsMarker);
            ParseLine(descr + "\t" + url + "\t" + rest) == Some(Entry(nv.0, KeyOf(nv.0, nv.1)))
  {
    FieldsOf(descr, url, rest);
    ContainsSingle(url, '/');
  }

  /** The first line of the sample dump quoted in librarysearch.py (line 27), in its
      description, directory, file name and trailing fields. */
  const GemDescr := "Gem/0.93.3 " + "(deken " + "installable " + "file for " + "W32 32bit/" + "i386))"
  const GemDir := "http://" + "puredata.info/" + "downloads/" + "gem/" + "releases/" + "0.93.3"
  const GemRest := "zmoelnig" + "\t" + "2016-05-20 22:10:28"
  const GemLine := GemDescr + "\t" + (GemDir + "/" + NameVersionExamples.GemArchive) + "\t" + GemRest

  /** The fields of the Gem line hold no tab, and its file name no `/`; each fact is its own
      lemma, which keeps the long literals out of `GemLineEntry`'s proof. */
  lemma GemDescrTabFree()
    ensures '\t' !in GemDescr
  {
  }

  lemma GemDirTabFree()
    ensures '\t' !in GemDir
  {
  }

  lemma GemArchiveTabFree()
    ensures '\t' !in NameVersionExamples.GemArchive
  {
  }

  lemma GemArchiveSlashFree()
    ensures '/' !in NameVersionExamples.GemArchive
  {
  }

  /** The Gem line is filed under the library `Gem` and the key `Gem/0.93.3`. */
  lemma GemLineEntry()
    ensures ParseLine(GemLine) == Some(Entry("Gem", "Gem/0.93.3"))
  {
    NameVersionExamples.GemExample();
    GemDescrTabFree();
    GemDirTabFree();
    GemArchiveTabFree();
    GemArchiveSlashFree();
    ParseLineOf(GemDescr, GemDir, NameVersionExamples.GemArchive, GemRest);
    GemKey();
  }

  /** The key of release 0.93.3 of `Gem`. */
  lemma GemKey()
    ensures KeyOf("Gem", "0.93.3") == "Gem/0.93.3"
  {
  }

  /** A line parser: where a line is filed, or `None` where unpacking it raises. The
      index operations take it as a parameter; `Refresh` passes `ParseLine`. */
  type Parser = string -> Option<Entry>

  /** Empty lines are skipped; any other line must unpack. */
  predicate Acceptable(line: string, parse: Parser) {
    line == "" || parse(line).Some?
  }

  predicate AllAcceptable(lines: seq<string>, parse: Parser) {
    forall i | 0 <= i < |lines| :: Acceptable(lines[i], parse)
  }

  /** For the real parser, a line is acceptable exactly when it is empty or holds at least
      two tabs. */
  lemma AcceptableIffTwoTabs(line: string)
    ensures Acceptable(line, ParseLine) <==> line == "" || CountChar(line, '\t') >= 2
  {
  }

  // ---------------------------------------------------------------------------
  // refresh
  // ---------------------------------------------------------------------------

  /** Lines 52-57: file `line` under its library and key. */
  function Add(idx: LibraryIndex, line: string, e: Entry): (r: LibraryIndex)
    ensures r.libs.Keys == idx.libs.Keys + {e.pkg} && r.db.Keys == idx.db.Keys + {e.key}
    ensures Get(r.libs, e.pkg) == Get(idx.libs, e.pkg) + [e.key]
    ensures Get(r.db, e.key) == Get(idx.db, e.key) + [line]
    ensures forall p | p != e.pkg :: Get(r.libs, p) == Get(idx.libs, p)
    ensures forall k | k != e.key :: Get(r.db, k) == Get(idx.db, k)
  {
    LibraryIndex(idx.libs[e.pkg := Get(idx.libs, e.pkg) + [e.key]],
                 idx.db[e.key := Get(idx.db, e.key) + [line]])
  }

  /** The loop of lines 44-57 over the lines of the dump, starting from `idx`. */
  function Build(idx: LibraryIndex, lines: seq<string>, parse: Parser): Outcome
    decreases |lines|
  {
    if |lines| == 0 then Done(idx)
    else if lines[0] == "" then Build(idx, lines[1..], parse)
    else match parse(lines[0])
      case None => Failed(idx, lines[0])
      case Some(e) => Build(Add(idx, lines[0], e), lines[1..], parse)
  }

  /** `LibrarySearch.refresh(data)`: both maps are reset first, so `idx` plays no part. */
  function Refresh(idx: LibraryIndex, data: string): Outcome {
    Build(Empty, Split(data, "\n"), ParseLine)
  }

  /** `LibrarySearch(data)`: an empty dump leaves the index empty. */
  function Create(data: string): (r: Outcome)
    ensures data == "" ==> r == Done(Empty)
    ensures data != "" ==> r == Refresh(Empty, data)
  {
    if data == "" then Done(Empty) else Refresh(Empty, data)
  }

  // ---------------------------------------------------------------------------
  // What refresh computes, stated line by line
  // ---------------------------------------------------------------------------

  /** The lines filed under `key`, in input order. */
  function LinesUnder(lines: seq<string>, key: string, parse: Parser): seq<string> {
    if |lines| == 0 then []
    else
      var here := lines[0] != "" && parse(lines[0]).Some? && parse(lines[0]).value.key == key;
      (if here then [lines[0]] else []) + LinesUnder(lines[1..], key, parse)
  }

  /** The keys of the lines of library `pkg`, in input order, one per line. */
  function KeysOf(lines: seq<string>, pkg: string, parse: Parser): seq<string> {
    if |lines| == 0 then []
    else
      var here := lines[0] != "" && parse(lines[0]).Some? && parse(lines[0]).value.pkg == pkg;
      (if here then [parse(lines[0]).value.key] else []) + KeysOf(lines[1..], pkg, parse)
  }

  /** What one line does to the index: nothing if empty, else `Add` under its entry. */
  function Step(idx: LibraryIndex, line: string, parse: Parser): LibraryIndex
    requires Acceptable(line, parse)
  {
    if line == "" then idx else Add(idx, line, parse(line).value)
  }

  lemma AcceptableTail(lines: seq<string>, parse: Parser)
    requires |lines| > 0 && AllAcceptable(lines, parse)
    ensures Acceptable(lines[0], parse) && AllAcceptable(lines[1..], parse)
  {
    forall i | 0 <= i < |lines[1..]| ensures Acceptable(lines[1..][i], parse) {
      assert lines[1..][i] == lines[i + 1];
    }
  }

  lemma LinesUnderHere(lines: seq<string>, k: string, parse: Parser)
    requires |lines| > 0
    ensures LinesUnder(lines, k, parse)
         == (if lines[0] != "" && parse(lines[0]).Some? && parse(lines[0]).value.key == k then [lines[0]] else [])
            + LinesUnder(lines[1..], k, parse)
  {
  }

  lemma StepDbElsewhere(idx: LibraryIndex, line: string, k: string, parse: Parser)
    requires Acceptable(line, parse) && !(line != "" && parse(line).value.key == k)
    ensures Get(Step(idx, line, parse).db, k) == Get(idx.db, k)
    ensures k in Step(idx, line, parse).db <==> k in idx.db
  {
  }

  lemma StepDbHere(idx: LibraryIndex, line: string, k: string, parse: Parser)
    requires Acceptable(line, parse) && line != "" && parse(line).value.key == k
    ensures Get(Step(idx, line, parse).db, k) == Get(idx.db, k) + [line]
    ensures k in Step(idx, line, parse).db
  {
  }

  lemma StepDb(idx: LibraryIndex, lines: seq<string>, k: string, parse: Parser)
    requires |lines| > 0 && Acceptable(lines[0], parse)
    ensures Get(Step(idx, lines[0], parse).db, k) + LinesUnder(lines[1..], k, parse)
         == Get(idx.db, k) + LinesUnder(lines, k, parse)
  {
    if lines[0] != "" && parse(lines[0]).value.key == k {
      StepDbFiles(idx, lines, k, parse);
    } else {
      StepDbSkips(idx, lines, k, parse);
    }
  }

  lemma StepDbFiles(idx: LibraryIndex, lines: seq<string>, k: string, parse: Parser)
    requires |lines| > 0 && Acceptable(lines[0], parse) && lines[0] != "" && parse(lines[0]).value.key == k
    ensures Get(Step(idx, lines[0], parse).db, k) + LinesUnder(lines[1..], k, parse)
         == Get(idx.db, k) + LinesUnder(lines, k, parse)
  {
    var line := lines[0];
    LinesUnderHere(lines, k, parse);
    StepDbHere(idx, line, k, parse);
    AppendAssoc(Get(idx.db, k), line, LinesUnder(lines[1..], k, parse));
  }

  lemma AppendAssoc(a: seq<string>, x: string, b: seq<string>)
    ensures (a + [x]) + b == a + ([x] + b)
  {
  }

  lemma StepDbSkips(idx: LibraryIndex, lines: seq<string>, k: string, parse: Parser)
    requires |lines| > 0 && Acceptable(lines[0], parse) && !(lines[0] != "" && parse(lines[0]).value.key == k)
    ensures Get(Step(idx, lines[0], parse).db, k) + LinesUnder(lines[1..], k, parse)
         == Get(idx.db, k) + LinesUnder(lines, k, parse)
  {
    LinesUnderHere(lines, k, parse);
    StepDbElsewhere(idx, lines[0], k, parse);
    assert LinesUnder(lines, k, parse) == LinesUnder(lines[1..], k, parse);
  }

  lemma StepKeys(idx: LibraryIndex, lines: seq<string>, k: string, parse: Parser)
    requires |lines| > 0 && Acceptable(lines[0], parse)
    ensures k in Step(idx, lines[0], parse).db || LinesUnder(lines[1..], k, parse) != []
        <==> k in idx.db || LinesUnder(lines, k, parse) != []
  {
    var line := lines[0];
    LinesUnderHere(lines, k, parse);
    if line != "" && parse(line).value.key == k {
      StepDbHere(idx, line, k, parse);
    } else {
      StepDbElsewhere(idx, line, k, parse);
    }
  }

  lemma KeysOfHere(lines: seq<string>, p: string, parse: Parser)
    requires |lines| > 0 && lines[0] != "" && parse(lines[0]).Some? && parse(lines[0]).value.pkg == p
    ensures KeysOf(lines, p, parse) == [parse(lines[0]).value.key] + KeysOf(lines[1..], p, parse)
  {
  }

  lemma StepElsewhere(idx: LibraryIndex, lines: seq<string>, p: string, parse: Parser)
    requires |lines| > 0 && Acceptable(lines[0], parse)
    requires !(lines[0] != "" && parse(lines[0]).value.pkg == p)
    ensures Get(Step(idx, lines[0], parse).libs, p) == Get(idx.libs, p)
    ensures KeysOf(lines, p, parse) == KeysOf(lines[1..], p, parse)
  {
  }

  lemma StepLibs(idx: LibraryIndex, lines: seq<string>, p: string, parse: Parser)
    requires |lines| > 0 && Acceptable(lines[0], parse)
    ensures Get(Step(idx, lines[0], parse).libs, p) + KeysOf(lines[1..], p, parse)
         == Get(idx.libs, p) + KeysOf(lines, p, parse)
  {
    var line := lines[0];
    var rest := KeysOf(lines[1..], p, parse);
    if line != "" && parse(line).value.pkg == p {
      var e := parse(line).value;
      KeysOfHere(lines, p, parse);
      StepIsAdd(idx, lines, p, parse);
      AddAppendsKey(idx, line, p, e);
      assert Get(idx.libs, p) + [e.key] + rest == Get(idx.libs, p) + ([e.key] + rest);
    } else {
      StepElsewhere(idx, lines, p, parse);
    }
  }
  lemma AddAppendsKey(idx: LibraryIndex, line: string, p: string, e: Entry)
    requires e.pkg == p
    ensures Get(Add(idx, line, e).libs, p) == Get(idx.libs, p) + [e.key]
  {
  }
  lemma StepIsAdd(idx: LibraryIndex, lines: seq<string>, p: string, parse: Parser)
    requires |lines| > 0 && Acceptable(lines[0], parse)
    requires lines[0] != "" && parse(lines[0]).value.pkg == p
    ensures Step(idx, lines[0], parse) == Add(idx, lines[0], parse(lines[0]).value)
  {
  }

  lemma StepLibraries(idx: LibraryIndex, lines: seq<string>, p: string, parse: Parser)
    requires |lines| > 0 && Acceptable(lines[0], parse)
    ensures p in Step(idx, lines[0], parse).libs || KeysOf(lines[1..], p, parse) != []
        <==> p in idx.libs || KeysOf(lines, p, parse) != []
  {
    var line := lines[0];
    var rest := KeysOf(lines[1..], p, parse);
    var next := Step(idx, line, parse);
    if line != "" && parse(line).value.pkg == p {
      var e := parse(line).value;
      assert KeysOf(lines, p, parse) == [e.key] + rest;
      assert p in next.libs;
    } else {
      assert KeysOf(lines, p, parse) == rest;
      assert p in next.libs <==> p in idx.libs;
    }
  }

  /** Building on top of `idx` appends each line's contribution to what `idx` holds. */
  lemma {:induction false} BuildAppends(idx: LibraryIndex, lines: seq<string>, parse: Parser)
    requires AllAcceptable(lines, parse)
    ensures Build(idx, lines, parse).Done?
    ensures forall k :: Get(Build(idx, lines, parse).index.db, k) == Get(idx.db, k) + LinesUnder(lines, k, parse)
    ensures forall p :: Get(Build(idx, lines, parse).index.libs, p) == Get(idx.libs, p) + KeysOf(lines, p, parse)
    ensures forall k :: k in Build(idx, lines, parse).index.db <==> k in idx.db || LinesUnder(lines, k, parse) != []
    ensures forall p :: p in Build(idx, lines, parse).index.libs <==> p in idx.libs || KeysOf(lines, p, parse) != []
    decreases |lines|
  {
    if |lines| > 0 {
      AcceptableTail(lines, parse);
      var next := Step(idx, lines[0], parse);
      assert Build(idx, lines, parse) == Build(next, lines[1..], parse);
      BuildAppends(next, lines[1..], parse);
      var r := Build(idx, lines, parse).index;
      forall k ensures Get(r.db, k) == Get(idx.db, k) + LinesUnder(lines, k, parse)
                    && (k in r.db <==> k in idx.db || LinesUnder(lines, k, parse) != []) {
        StepDb(idx, lines, k, parse);
        StepKeys(idx, lines, k, parse);
      }
      forall p ensures Get(r.libs, p) == Get(idx.libs, p) + KeysOf(lines, p, parse)
                    && (p in r.libs <==> p in idx.libs || KeysOf(lines, p, parse) != []) {
        StepLibs(idx, lines, p, parse);
        StepLibraries(idx, lines, p, parse);
      }
    }
  }

  /** The first line that cannot be unpacked. */
  function FirstUnacceptable(lines: seq<string>, parse: Parser): (i: nat)
    requires !AllAcceptable(lines, parse)
    ensures i < |lines| && !Acceptable(lines[i], parse)
    ensures AllAcceptable(lines[..i], parse)
    decreases |lines|
  {
    if !Acceptable(lines[0], parse) then 0
    else
      assert !AllAcceptable(lines[1..], parse) by {
        var j :| 0 <= j < |lines| && !Acceptable(lines[j], parse);
        assert lines[1..][j - 1] == lines[j];
      }
      var i := FirstUnacceptable(lines[1..], parse);
      assert lines[..i + 1] == [lines[0]] + lines[1..][..i];
      1 + i
  }

  /** A line that cannot be unpacked stops the build, with the lines before it filed. */
  lemma {:induction false} BuildStops(idx: LibraryIndex, lines: seq<string>, parse: Parser)
    requires !AllAcceptable(lines, parse)
    ensures var i := FirstUnacceptable(lines, parse);
            Build(idx, lines, parse) == Failed(Build(idx, lines[..i], parse).index, lines[i])
    decreases |lines|
  {
    var i := FirstUnacceptable(lines, parse);
    if i > 0 {
      var next := Step(idx, lines[0], parse);
      assert !AllAcceptable(lines[1..], parse) by {
        assert lines[1..][i - 1] == lines[i];
      }
      BuildStops(next, lines[1..], parse);
      assert lines[..i][0] == lines[0] && lines[..i][1..] == lines[1..][..i - 1];
    } else {
      assert lines[..0] == [];
    }
  }

  /** `refresh` succeeds exactly when every non-empty line unpacks. */
  lemma BuildSucceedsIff(idx: LibraryIndex, lines: seq<string>, parse: Parser)
    ensures Build(idx, lines, parse).Done? <==> AllAcceptable(lines, parse)
  {
    if AllAcceptable(lines, parse) {
      BuildAppends(idx, lines, parse);
    } else {
      BuildStops(idx, lines, parse);
    }
  }

  /** The lines of the dump, for `refresh`. */
  function DumpLines(data: string): seq<string> {
    Split(data, "\n")
  }

  /** After a successful `refresh`, `db[k]` holds exactly the lines filed under `k`, in
      input order, and `libs[p]` the key of every line of library `p`; a key or library is
      present exactly when some line mentions it. */
  lemma RefreshFilesEveryLine(idx: LibraryIndex, data: string)
    requires AllAcceptable(DumpLines(data), ParseLine)
    ensures Refresh(idx, data).Done?
    ensures var r := Refresh(idx, data).index;
            && (forall k :: Get(r.db, k) == LinesUnder(DumpLines(data), k, ParseLine))
            && (forall p :: Get(r.libs, p) == KeysOf(DumpLines(data), p, ParseLine))
            && (forall k :: k in r.db <==> LinesUnder(DumpLines(data), k, ParseLine) != [])
            && (forall p :: p in r.libs <==> KeysOf(DumpLines(data), p, ParseLine) != [])
  {
    BuildAppends(Empty, DumpLines(data), ParseLine);
  }

  /** A non-empty line with fewer than two tabs makes `refresh` fail at the first such line,
      after the reset: the index then holds just the lines before it. */
  lemma RefreshFailsOnShortLine(idx: LibraryIndex, data: string)
    requires !AllAcceptable(DumpLines(data), ParseLine)
    ensures var lines := DumpLines(data);
            var i := FirstUnacceptable(lines, ParseLine);
            && lines[i] != "" && CountChar(lines[i], '\t') < 2
            && Refresh(idx, data) == Failed(Build(Empty, lines[..i], ParseLine).index, lines[i])
  {
    BuildStops(Empty, DumpLines(data), ParseLine);
  }

  /** The reset makes the result independent of the old state, so refreshing twice with the
      same dump is refreshing once. */
  lemma RefreshIdempotent(idx: LibraryIndex, other: LibraryIndex, data: string)
    ensures Refresh(idx, data) == Refresh(other, data)
    ensures Refresh(Refresh(idx, data).index, data) == Refresh(idx, data)
  {
  }

  // ---------------------------------------------------------------------------
  // Membership of the line-by-line descriptions
  // ---------------------------------------------------------------------------

  lemma {:induction false} LinesUnderMembers(lines: seq<string>, k: string, parse: Parser, line: string)
    ensures line in LinesUnder(lines, k, parse)
        <==> line in lines && line != "" && parse(line).Some? && parse(line).value.key == k
    decreases |lines|
  {
    if |lines| > 0 {
      LinesUnderMembers(lines[1..], k, parse, line);
      assert lines == [lines[0]] + lines[1..];
    }
  }

  /** Each filed line occurs under its own key exactly as often as in the dump, and under no
      other key. */
  lemma {:induction false} LinesUnderCounts(lines: seq<string>, k: string, parse: Parser, line: string)
    requires line != "" && parse(line).Some?
    ensures multiset(LinesUnder(lines, k, parse))[line]
         == if parse(line).value.key == k then multiset(lines)[line] else 0
    decreases |lines|
  {
    if |lines| > 0 {
      LinesUnderCounts(lines[1..], k, parse, line);
      assert lines == [lines[0]] + lines[1..];
    }
  }

  lemma {:induction false} KeysOfMembers(lines: seq<string>, p: string, parse: Parser, k: string)
    ensures k in KeysOf(lines, p, parse)
        <==> exists i | 0 <= i < |lines| :: lines[i] != "" && parse(lines[i]) == Some(Entry(p, k))
    decreases |lines|
  {
    if |lines| > 0 {
      KeysOfMembers(lines[1..], p, parse, k);
      if k in KeysOf(lines[1..], p, parse) {
        var i :| 0 <= i < |lines[1..]| && lines[1..][i] != "" && parse(lines[1..][i]) == Some(Entry(p, k));
        assert lines[i + 1] == lines[1..][i];
      }
      if exists i | 0 <= i < |lines| :: lines[i] != "" && parse(lines[i]) == Some(Entry(p, k)) {
        var i :| 0 <= i < |lines| && lines[i] != "" && parse(lines[i]) == Some(Entry(p, k));
        if i > 0 {
          assert lines[1..][i - 1] == lines[i];
        }
      }
    }
  }

  // ---------------------------------------------------------------------------
  // Consistency of the two maps
  // ---------------------------------------------------------------------------

  /** Key `k` is a release of library `p`. */
  predicate BelongsTo(k: string, p: string) {
    k == p || p + "/" <= k
  }

  /** Every key listed for a library is a key of `db` and a release of that library. */
  predicate LibsListed(idx: LibraryIndex) {
    forall p, i | p in idx.libs && 0 <= i < |idx.libs[p]| ::
      idx.libs[p][i] in idx.db && BelongsTo(idx.libs[p][i], p)
  }

  /** Every key of `db` is listed for some library. */
  predicate DbCovered(idx: LibraryIndex) {
    forall k | k in idx.db :: exists p | p in idx.libs :: k in idx.libs[p]
  }

  /** The two maps agree: `LibsListed` and `DbCovered`. */
  predicate Consistent(idx: LibraryIndex) {
    LibsListed(idx) && DbCovered(idx)
  }

  /** A parser that files every line under a release of the line's own library. */
  ghost predicate FilesUnderOwnLibrary(parse: Parser) {
    forall line | parse(line).Some? :: BelongsTo(parse(line).value.key, parse(line).value.pkg)
  }

  lemma ParseLineFilesUnderOwnLibrary()
    ensures FilesUnderOwnLibrary(ParseLine)
  {
    forall line | ParseLine(line).Some?
      ensures BelongsTo(ParseLine(line).value.key, ParseLine(line).value.pkg)
    {
    }
  }

  lemma AddConsistent(idx: LibraryIndex, line: string, e: Entry)
    requires Consistent(idx) && BelongsTo(e.key, e.pkg)
    ensures Consistent(Add(idx, line, e))
  {
    AddLibsListed(idx, line, e);
    AddDbCovered(idx, line, e);
  }

  lemma AddLibsListed(idx: LibraryIndex, line: string, e: Entry)
    requires LibsListed(idx) && BelongsTo(e.key, e.pkg)
    ensures LibsListed(Add(idx, line, e))
  {
    var r := Add(idx, line, e);
    forall p, i | p in r.libs && 0 <= i < |r.libs[p]|
      ensures r.libs[p][i] in r.db && BelongsTo(r.libs[p][i], p)
    {
      if p == e.pkg {
        assert r.libs[p] == Get(idx.libs, p) + [e.key];
        if i < |Get(idx.libs, p)| {
          assert r.libs[p][i] == idx.libs[p][i];
        }
      } else {
        assert r.libs[p] == Get(idx.libs, p) == idx.libs[p];
      }
    }
  }

  lemma AddDbCovered(idx: LibraryIndex, line: string, e: Entry)
    requires DbCovered(idx)
    ensures DbCovered(Add(idx, line, e))
  {
    var r := Add(idx, line, e);
    forall k | k in r.db
      ensures exists p | p in r.libs :: k in r.libs[p]
    {
      if k == e.key {
        assert r.libs[e.pkg] == Get(idx.libs, e.pkg) + [e.key];
        assert k in r.libs[e.pkg];
      } else {
        var p :| p in idx.libs && k in idx.libs[p];
        assert r.libs[p] == Get(idx.libs, p) || r.libs[p] == Get(idx.libs, p) + [e.key];
        assert k in r.libs[p];
      }
    }
  }

  lemma {:induction false} BuildConsistent(idx: LibraryIndex, lines: seq<string>, parse: Parser)
    requires Consistent(idx) && FilesUnderOwnLibrary(parse)
    ensures Consistent(Build(idx, lines, parse).index)
    decreases |lines|
  {
    if |lines| > 0 && lines[0] != "" && parse(lines[0]).Some? {
      AddConsistent(idx, lines[0], parse(lines[0]).value);
      BuildConsistent(Add(idx, lines[0], parse(lines[0]).value), lines[1..], parse);
    } else if |lines| > 0 && lines[0] == "" {
      BuildConsistent(idx, lines[1..], parse);
    }
  }

  /** The two maps agree after every `refresh`, whether it succeeded or failed. */
  lemma RefreshConsistent(idx: LibraryIndex, data: string)
    ensures Consistent(Refresh(idx, data).index)
  {
    ParseLineFilesUnderOwnLibrary();
    BuildConsistent(Empty, DumpLines(data), ParseLine);
  }

  // ---------------------------------------------------------------------------
  // search
  // ---------------------------------------------------------------------------

  /** Some needle is a substring of the library name (case-sensitive). */
  predicate MatchesAny(name: string, needles: seq<string>) {
    exists n | n in needles :: Contains(name, n)
  }

  /** The key set gathered by lines 59-64: every key listed for a matching library. */
  function MatchingKeys(idx: LibraryIndex, needles: seq<string>): set<string> {
    set p, k | p in idx.libs && k in idx.libs[p] && MatchesAny(p, needles) :: k
  }

  /** Lines 65-67: the lines of each key in turn. */
  function Gather(db: map<string, seq<string>>, keys: seq<string>): (r: seq<string>)
    ensures forall line :: line in r <==> exists i | 0 <= i < |keys| :: line in Get(db, keys[i])
  {
    if |keys| == 0 then []
    else
      var rest := Gather(db, keys[1..]);
      assert forall i | 1 <= i < |keys| :: keys[i] == keys[1..][i - 1];
      Get(db, keys[0]) + rest
  }

  lemma MatchingKeysInDb(idx: LibraryIndex, needles: seq<string>)
    requires Consistent(idx)
    ensures MatchingKeys(idx, needles) <= idx.db.Keys
  {
    forall k | k in MatchingKeys(idx, needles)
      ensures k in idx.db
    {
      var p :| p in idx.libs && k in idx.libs[p] && MatchesAny(p, needles);
      var i :| 0 <= i < |idx.libs[p]| && idx.libs[p][i] == k;
    }
  }

  /** `LibrarySearch.search(needles)`: the lines of the matching keys, key by key in sorted
      order, each key once. */
  function Search(idx: LibraryIndex, needles: seq<string>): (r: seq<string>)
    requires Consistent(idx)
    ensures forall line :: line in r <==> exists k | k in MatchingKeys(idx, needles) :: line in idx.db[k]
  {
    MatchingKeysInDb(idx, needles);
    var keys := SortSet(MatchingKeys(idx, needles));
    Gather(idx.db, keys)
  }

  /** The order of the result: any strictly sorted listing of the matching keys, gathered. */
  lemma SearchInSortedKeyOrder(idx: LibraryIndex, needles: seq<string>, keys: seq<string>)
    requires Consistent(idx)
    requires StrictlySorted(keys) && forall k :: k in keys <==> k in MatchingKeys(idx, needles)
    ensures Search(idx, needles) == Gather(idx.db, keys)
  {
    SortedUnique(SortSet(MatchingKeys(idx, needles)), keys);
  }

  /** No needles, no results. */
  lemma NoNeedlesNoResults(idx: LibraryIndex)
    requires Consistent(idx)
    ensures MatchingKeys(idx, []) == {}
    ensures Search(idx, []) == []
  {
  }

  /** The empty needle is a substring of every name, so it selects every key. */
  lemma EmptyNeedleMatchesAll(idx: LibraryIndex, needles: seq<string>)
    requires Consistent(idx) && "" in needles
    ensures MatchingKeys(idx, needles) == idx.db.Keys
  {
    MatchingKeysInDb(idx, needles);
    forall k | k in idx.db
      ensures k in MatchingKeys(idx, needles)
    {
      var p :| p in idx.libs && k in idx.libs[p];
      assert ContainsAt(p, "", 0);
      assert MatchesAny(p, needles);
    }
  }

  /** Needles combine with "or". */
  lemma NeedlesCombine(idx: LibraryIndex, a: seq<string>, b: seq<string>)
    ensures MatchingKeys(idx, a + b) == MatchingKeys(idx, a) + MatchingKeys(idx, b)
  {
    forall p ensures MatchesAny(p, a + b) <==> MatchesAny(p, a) || MatchesAny(p, b) {
      if MatchesAny(p, a + b) {
        var n :| n in a + b && Contains(p, n);
        assert n in a || n in b;
      }
    }
  }

  /** Over distinct keys, a line occurs in the gathered result as often as under the one
      key that may hold it. */
  lemma {:induction false} GatherCount(db: map<string, seq<string>>, keys: seq<string>, line: string, k0: string)
    requires forall i, j | 0 <= i < j < |keys| :: keys[i] != keys[j]
    requires forall i | 0 <= i < |keys| && keys[i] != k0 :: line !in Get(db, keys[i])
    ensures multiset(Gather(db, keys))[line] == if k0 in keys then multiset(Get(db, k0))[line] else 0
    decreases |keys|
  {
    if |keys| > 0 {
      var rest := keys[1..];
      forall i, j | 0 <= i < j < |rest| ensures rest[i] != rest[j] {
        assert rest[i] == keys[i + 1] && rest[j] == keys[j + 1];
      }
      forall i | 0 <= i < |rest| && rest[i] != k0 ensures line !in Get(db, rest[i]) {
        assert rest[i] == keys[i + 1];
      }
      GatherCount(db, rest, line, k0);
      assert Gather(db, keys) == Get(db, keys[0]) + Gather(db, rest);
      if keys[0] == k0 {
        forall i | 0 <= i < |rest| ensures rest[i] != k0 {
          assert rest[i] == keys[i + 1];
        }
        assert k0 !in rest;
      } else {
        assert k0 in keys <==> k0 in rest;
      }
    }
  }

  // ---------------------------------------------------------------------------
  // search after refresh
  // ---------------------------------------------------------------------------

  /** Lines with the same key belong to the same library. */
  ghost predicate KeyDeterminesLibrary(parse: Parser) {
    forall a, b | parse(a).Some? && parse(b).Some? && parse(a).value.key == parse(b).value.key ::
      parse(a).value.pkg == parse(b).value.pkg
  }

  lemma ParseLineKeyDeterminesLibrary()
    ensures KeyDeterminesLibrary(ParseLine)
  {
    forall a, b | ParseLine(a).Some? && ParseLine(b).Some? && ParseLine(a).value.key == ParseLine(b).value.key
      ensures ParseLine(a).value.pkg == ParseLine(b).value.pkg
    {
    }
  }

  /** The line-level meaning of a search on a built index. */
  predicate Selected(line: string, needles: seq<string>, parse: Parser) {
    line != "" && parse(line).Some? && MatchesAny(parse(line).value.pkg, needles)
  }

  /** Some nonempty line of the dump has key `k` and a library the needles match. */
  predicate KeyMatchedBy(lines: seq<string>, parse: Parser, needles: seq<string>, k: string) {
    exists i | 0 <= i < |lines| :: lines[i] != "" && parse(lines[i]).Some? && parse(lines[i]).value.key == k
                                   && MatchesAny(parse(lines[i]).value.pkg, needles)
  }

  lemma MatchingKeysAfterBuild(lines: seq<string>, parse: Parser, needles: seq<string>, k: string)
    requires AllAcceptable(lines, parse)
    ensures k in MatchingKeys(Build(Empty, lines, parse).index, needles)
        <==> exists i | 0 <= i < |lines| :: lines[i] != "" && parse(lines[i]).Some? && parse(lines[i]).value.key == k
                                            && MatchesAny(parse(lines[i]).value.pkg, needles)
  {
    if k in MatchingKeys(Build(Empty, lines, parse).index, needles) {
      MatchingKeyFromLine(lines, parse, needles, k);
    }
    if KeyMatchedBy(lines, parse, needles, k) {
      LineGivesMatchingKey(lines, parse, needles, k);
    }
  }

  /** A key the search picks comes from a matching line. */
  lemma MatchingKeyFromLine(lines: seq<string>, parse: Parser, needles: seq<string>, k: string)
    requires AllAcceptable(lines, parse)
    requires k in MatchingKeys(Build(Empty, lines, parse).index, needles)
    ensures KeyMatchedBy(lines, parse, needles, k)
  {
    var idx := Build(Empty, lines, parse).index;
    BuildAppends(Empty, lines, parse);
    var p :| p in idx.libs && k in idx.libs[p] && MatchesAny(p, needles);
    assert idx.libs[p] == Get(idx.libs, p) == KeysOf(lines, p, parse);
    KeysOfMembers(lines, p, parse, k);
    var i :| 0 <= i < |lines| && lines[i] != "" && parse(lines[i]) == Some(Entry(p, k));
    assert parse(lines[i]).value.pkg == p;
  }

  /** A matching line's key is picked by the search. */
  lemma LineGivesMatchingKey(lines: seq<string>, parse: Parser, needles: seq<string>, k: string)
    requires AllAcceptable(lines, parse)
    requires KeyMatchedBy(lines, parse, needles, k)
    ensures k in MatchingKeys(Build(Empty, lines, parse).index, needles)
  {
    var idx := Build(Empty, lines, parse).index;
    BuildAppends(Empty, lines, parse);
    var i :| 0 <= i < |lines| && lines[i] != "" && parse(lines[i]).Some? && parse(lines[i]).value.key == k
             && MatchesAny(parse(lines[i]).value.pkg, needles);
    var p := parse(lines[i]).value.pkg;
    assert parse(lines[i]) == Some(Entry(p, k));
    KeysOfMembers(lines, p, parse, k);
    assert Get(idx.libs, p) == KeysOf(lines, p, parse);
    assert p in idx.libs && k in idx.libs[p];
  }

  lemma DbAfterBuild(lines: seq<string>, parse: Parser, k: string)
    requires AllAcceptable(lines, parse)
    ensures Get(Build(Empty, lines, parse).index.db, k) == LinesUnder(lines, k, parse)
  {
    BuildAppends(Empty, lines, parse);
  }

  lemma SearchSoundAfterBuild(lines: seq<string>, parse: Parser, needles: seq<string>, line: string)
    requires AllAcceptable(lines, parse) && KeyDeterminesLibrary(parse)
    requires Consistent(Build(Empty, lines, parse).index)
    ensures line in Search(Build(Empty, lines, parse).index, needles) ==> line in lines && Selected(line, needles, parse)
  {
    var idx := Build(Empty, lines, parse).index;
    if line in Search(idx, needles) {
      var k :| k in MatchingKeys(idx, needles) && line in idx.db[k];
      DbAfterBuild(lines, parse, k);
      assert idx.db[k] == Get(idx.db, k) == LinesUnder(lines, k, parse);
      LinesUnderMembers(lines, k, parse, line);
      MatchingKeysAfterBuild(lines, parse, needles, k);
    }
  }

  lemma SearchCompleteAfterBuild(lines: seq<string>, parse: Parser, needles: seq<string>, line: string)
    requires AllAcceptable(lines, parse)
    requires Consistent(Build(Empty, lines, parse).index)
    ensures line in lines && Selected(line, needles, parse) ==> line in Search(Build(Empty, lines, parse).index, needles)
  {
    var idx := Build(Empty, lines, parse).index;
    if line in lines && Selected(line, needles, parse) {
      var k := parse(line).value.key;
      var i :| 0 <= i < |lines| && lines[i] == line;
      MatchingKeysAfterBuild(lines, parse, needles, k);
      MatchingKeysInDb(idx, needles);
      DbAfterBuild(lines, parse, k);
      LinesUnderMembers(lines, k, parse, line);
      assert idx.db[k] == Get(idx.db, k) == LinesUnder(lines, k, parse);
    }
  }

  /** After a successful build, a search returns exactly the dump lines whose library matches
      a needle. */
  lemma SearchAfterBuild(lines: seq<string>, parse: Parser, needles: seq<string>, line: string)
    requires AllAcceptable(lines, parse) && FilesUnderOwnLibrary(parse) && KeyDeterminesLibrary(parse)
    ensures Consistent(Build(Empty, lines, parse).index)
    ensures line in Search(Build(Empty, lines, parse).index, needles)
        <==> line in lines && Selected(line, needles, parse)
  {
    assert Consistent(Empty);
    BuildConsistent(Empty, lines, parse);
    SearchSoundAfterBuild(lines, parse, needles, line);
    SearchCompleteAfterBuild(lines, parse, needles, line);
  }

  /** ...and each selected line as often as it occurs in the dump. */
  lemma SearchCountsAfterBuild(lines: seq<string>, parse: Parser, needles: seq<string>, line: string)
    requires AllAcceptable(lines, parse) && FilesUnderOwnLibrary(parse) && KeyDeterminesLibrary(parse)
    ensures Consistent(Build(Empty, lines, parse).index)
    ensures multiset(Search(Build(Empty, lines, parse).index, needles))[line]
         == if Selected(line, needles, parse) then multiset(lines)[line] else 0
  {
    var idx := Build(Empty, lines, parse).index;
    SearchAfterBuild(lines, parse, needles, line);
    if Selected(line, needles, parse) {
      var k0 := parse(line).value.key;
      var keys := SortSet(MatchingKeys(idx, needles));
      SortedDistinct(keys);
      BuildAppends(Empty, lines, parse);
      forall i | 0 <= i < |keys| && keys[i] != k0 ensures line !in Get(idx.db, keys[i]) {
        LinesUnderMembers(lines, keys[i], parse, line);
      }
      GatherCount(idx.db, keys, line, k0);
      assert Search(idx, needles) == Gather(idx.db, keys);
      LinesUnderCounts(lines, k0, parse, line);
      if line in lines {
        var i :| 0 <= i < |lines| && lines[i] == line;
        MatchingKeysAfterBuild(lines, parse, needles, k0);
      } else {
        assert multiset(lines)[line] == 0;
      }
    } else {
      assert line !in Search(idx, needles);
    }
  }

  /** The end-to-end property of `refresh` followed by `search`. */
  lemma SearchAfterRefresh(idx: LibraryIndex, data: string, needles: seq<string>, line: string)
    requires AllAcceptable(DumpLines(data), ParseLine)
    ensures Consistent(Refresh(idx, data).index)
    ensures multiset(Search(Refresh(idx, data).index, needles))[line]
         == if Selected(line, needles, ParseLine) then multiset(DumpLines(data))[line] else 0
  {
    ParseLineFilesUnderOwnLibrary();
    ParseLineKeyDeterminesLibrary();
    SearchCountsAfterBuild(DumpLines(data), ParseLine, needles, line);
  }
}
