/** The listing script of the package server (`server/puredata_info.py`): it reads the query
    string, keeps the externals archives (optionally only those matching a `name`), and
    prints one tab-separated row per archive. The catalogue and the request are reduced to
    plain strings. */
module PuredataInfo {
  import opened Wrappers
  import opened Strings
  import opened Utilities

  // ---------------------------------------------------------------------------
  // query string
  // ---------------------------------------------------------------------------

  /** `args`: each query key with its values, in the order they were given. */
  type Args = map<string, seq<string>>

  /** The values given for `key` (none when it was never given). */
  function Values(args: Args, key: string): seq<string> {
    if key in args then args[key] else []
  }

  /** Lines 12-16: a piece splits at its first `=`; without one it is a key with value `""`. */
  function ParseArg(piece: string): (r: (string, string))
    ensures Contains(piece, "=") ==> r.0 + "=" + r.1 == piece && '=' !in r.0
    ensures !Contains(piece, "=") ==> r == (piece, "")
    ensures r.0 <= piece
  {
    match SplitOnce(piece, "=")
    case Some(kv) =>
      ContainsSingle(kv.0, '=');
      kv
    case None => (piece, "")
  }

  /** Lines 17-20: append a value to its key. */
  function AddArg(args: Args, kv: (string, string)): (r: Args)
    ensures r.Keys == args.Keys + {kv.0}
    ensures Values(r, kv.0) == Values(args, kv.0) + [kv.1]
    ensures forall k | k != kv.0 :: Values(r, k) == Values(args, k)
  {
    args[kv.0 := Values(args, kv.0) + [kv.1]]
  }

  /** The loop of lines 11-20 over the pieces. */
  function Collect(args: Args, pieces: seq<string>): Args
    decreases |pieces|
  {
    if |pieces| == 0 then args else Collect(AddArg(args, ParseArg(pieces[0])), pieces[1..])
  }

  /** Lines 9-20: an empty query string gives no arguments. */
  function ParseQuery(qs: string): Args {
    if qs == "" then map[] else Collect(map[], Split(qs, "&"))
  }

  /** The values of `key` among the pieces, in order: the reference for `Collect`. */
  function ValuesFor(pieces: seq<string>, key: string): seq<string> {
    if |pieces| == 0 then [] else PieceValue(pieces[0], key) + ValuesFor(pieces[1..], key)
  }

  /** The value one piece gives `key`, if any. */
  function PieceValue(piece: string, key: string): seq<string> {
    var kv := ParseArg(piece);
    if kv.0 == key then [kv.1] else []
  }

  /** One argument added, seen from a single key. */
  lemma AddArgAt(args: Args, kv: (string, string), key: string)
    ensures Values(AddArg(args, kv), key) == Values(args, key) + (if kv.0 == key then [kv.1] else [])
    ensures key in AddArg(args, kv) <==> key in args || kv.0 == key
  {
    if kv.0 != key {
      assert Values(args, key) + [] == Values(args, key);
    }
  }

  lemma {:induction false} CollectValues(args: Args, pieces: seq<string>, key: string)
    ensures Values(Collect(args, pieces), key) == Values(args, key) + ValuesFor(pieces, key)
    ensures key in Collect(args, pieces) <==> key in args || ValuesFor(pieces, key) != []
    decreases |pieces|
  {
    if |pieces| > 0 {
      var next := AddArg(args, ParseArg(pieces[0]));
      CollectValues(next, pieces[1..], key);
      CollectStep(args, pieces, key, Collect(next, pieces[1..]));
    } else {
      assert Values(args, key) + [] == Values(args, key);
    }
  }

  /** The step of `CollectValues`: the first piece, then the rest as already collected. */
  lemma CollectStep(args: Args, pieces: seq<string>, key: string, later: Args)
    requires |pieces| > 0
    requires var next := AddArg(args, ParseArg(pieces[0]));
      && later == Collect(next, pieces[1..])
      && Values(later, key) == Values(next, key) + ValuesFor(pieces[1..], key)
      && (key in later <==> key in next || ValuesFor(pieces[1..], key) != [])
    ensures Values(Collect(args, pieces), key) == Values(args, key) + ValuesFor(pieces, key)
    ensures key in Collect(args, pieces) <==> key in args || ValuesFor(pieces, key) != []
  {
    var kv := ParseArg(pieces[0]);
    var next := AddArg(args, kv);
    var here := PieceValue(pieces[0], key);
    var rest := ValuesFor(pieces[1..], key);
    assert Collect(args, pieces) == later;
    assert Values(next, key) == Values(args, key) + here && (key in next <==> key in args || kv.0 == key) by {
      AddArgAt(args, kv, key);
    }
    assert ValuesFor(pieces, key) == here + rest;
    SeqAssoc(Values(args, key), here, rest);
  }

  lemma SeqAssoc(a: seq<string>, b: seq<string>, c: seq<string>)
    ensures (a + b) + c == a + (b + c)
  {
  }

  lemma {:induction false} ValuesForKey(pieces: seq<string>, key: string)
    requires ValuesFor(pieces, key) != []
    ensures exists i | 0 <= i < |pieces| :: ParseArg(pieces[i]).0 == key
    decreases |pieces|
  {
    if ParseArg(pieces[0]).0 != key {
      ValuesForKey(pieces[1..], key);
      var i :| 0 <= i < |pieces[1..]| && ParseArg(pieces[1..][i]).0 == key;
      assert pieces[i + 1] == pieces[1..][i];
    }
  }

  /** Repeated keys accumulate their values in query order. */
  lemma ParseQueryValues(qs: string, key: string)
    ensures Values(ParseQuery(qs), key) == if qs == "" then [] else ValuesFor(Split(qs, "&"), key)
    ensures key in ParseQuery(qs) <==> Values(ParseQuery(qs), key) != []
  {
    if qs != "" {
      CollectValues(map[], Split(qs, "&"), key);
    }
  }

  /** A key is the text of one piece before its first `=`: it holds neither `&` nor `=`. */
  lemma ParseQueryKeys(qs: string, key: string)
    requires key in ParseQuery(qs)
    ensures '&' !in key && '=' !in key
  {
    var pieces := Split(qs, "&");
    CollectValues(map[], pieces, key);
    ValuesForKey(pieces, key);
    var i :| 0 <= i < |pieces| && ParseArg(pieces[i]).0 == key;
    SplitFacts(qs, "&");
    ContainsSingle(pieces[i], '&');
    ContainsSingle(pieces[i], '=');
    if Contains(pieces[i], "=") {
    } else {
      assert key == pieces[i];
    }
  }

  /** A piece `k=v` with an `=`-free key reads back as `(k, v)`. */
  lemma ParseArgAt(k: string, v: string)
    requires '=' !in k
    ensures ParseArg(k + "=" + v) == (k, v)
  {
    var piece := k + "=" + v;
    assert ContainsAt(piece, "=", |k|);
    var r := ParseArg(piece);
    forall j | 0 <= j < |k| ensures piece[j] != '=' {
      assert piece[j] == k[j];
    }
    forall j | 0 <= j < |r.0| ensures piece[j] != '=' {
      assert piece[j] == (r.0 + "=" + r.1)[j] == r.0[j];
    }
    assert piece[|r.0|] == '=';
    assert |r.0| == |k|;
    assert r.0 == piece[..|k|] == k;
    assert r.1 == piece[|k| + 1..] == v;
  }

  /** Three fields free of a one-character separator, joined by it, split back apart. */
  lemma SplitThree(a: string, b: string, d: string, c: char)
    requires c !in a && c !in b && c !in d
    ensures Split(a + [c] + b + [c] + d, [c]) == [a, b, d]
  {
    assert a + [c] + b + [c] + d == a + [c] + (b + [c] + d);
    assert Split(b + [c] + d, [c]) == [b, d] by {
      SplitWithout(d, c);
      SplitAfterField(b, c, d);
    }
    SplitAfterField(a, c, b + [c] + d);
  }

  /** `a=1&a=2=3&b` */
  const ExampleQuery := "a=1" + "&" + "a=2=3" + "&" + "b"

  lemma QueryExampleSplit()
    ensures Split(ExampleQuery, "&") == ["a=1", "a=2=3", "b"]
  {
    SplitThree("a=1", "a=2=3", "b", '&');
  }

  /** A piece `k=v` gives its value to key `k` only. */
  lemma PieceValueAt(k: string, v: string, key: string)
    requires '=' !in k
    ensures PieceValue(k + "=" + v, key) == if k == key then [v] else []
  {
    ParseArgAt(k, v);
  }

  /** A bare key gives it the empty value. */
  lemma PieceValueBare(k: string, key: string)
    requires '=' !in k
    ensures PieceValue(k, key) == if k == key then [""] else []
  {
    ContainsSingle(k, '=');
  }

  /** The values of three pieces, seen from one key. */
  lemma ValuesForThree(a: string, b: string, d: string, key: string)
    ensures ValuesFor([a, b, d], key) == PieceValue(a, key) + PieceValue(b, key) + PieceValue(d, key)
  {
    var va, vb, vd := PieceValue(a, key), PieceValue(b, key), PieceValue(d, key);
    assert ValuesFor([d], key) == vd by {
      assert [d][1..] == [];
      assert vd + [] == vd;
    }
    assert ValuesFor([b, d], key) == vb + vd by {
      assert [b, d][1..] == [d];
    }
    assert ValuesFor([a, b, d], key) == va + (vb + vd) by {
      assert [a, b, d][1..] == [b, d];
    }
    assert va + (vb + vd) == va + vb + vd;
  }

  /** A query of three pieces, seen from one key. */
  lemma QueryOfThree(qs: string, a: string, b: string, d: string, key: string)
    requires qs != "" && Split(qs, "&") == [a, b, d]
    ensures Values(ParseQuery(qs), key) == PieceValue(a, key) + PieceValue(b, key) + PieceValue(d, key)
  {
    ParseQueryValues(qs, key);
    ValuesForThree(a, b, d, key);
  }

  /** The shape of the example below: a key given twice, then a bare key. */
  lemma RepeatedThenBare(qs: string, k: string, v1: string, v2: string, bare: string, key: string)
    requires '=' !in k && '=' !in bare
    requires qs != "" && Split(qs, "&") == [k + "=" + v1, k + "=" + v2, bare]
    ensures Values(ParseQuery(qs), key)
         == (if k == key then [v1, v2] else []) + (if bare == key then [""] else [])
  {
    QueryOfThree(qs, k + "=" + v1, k + "=" + v2, bare, key);
    PieceValueAt(k, v1, key);
    PieceValueAt(k, v2, key);
    PieceValueBare(bare, key);
  }

  /** `a=1&a=2=3&b`: a value keeps its later `=`, a bare key gets `""`. */
  lemma QueryExample()
    ensures Values(ParseQuery(ExampleQuery), "a") == ["1", "2=3"]
    ensures Values(ParseQuery(ExampleQuery), "b") == [""]
  {
    QueryExampleSplit();
    assert |ExampleQuery| > 0;
    assert "a=1" == "a" + "=" + "1" && "a=2=3" == "a" + "=" + "2=3";
    RepeatedThenBare(ExampleQuery, "a", "1", "2=3", "b", "a");
    RepeatedThenBare(ExampleQuery, "a", "1", "2=3", "b", "b");
  }

  // ---------------------------------------------------------------------------
  // which files are listed
  // ---------------------------------------------------------------------------

  /** Line 49. */
  const ArchiveSuffixes: seq<string> := ["zip", "tgz", "tar.gz"]

  /** Line 56: the last path segment of the url. */
  function FileNameOf(url: string): (r: string)
    ensures EndsWith(url, r) && '/' !in r
    ensures '/' !in url ==> r == url
    ensures '/' in url ==> EndsWith(url, "/" + r)
  {
    var r := AfterLast(url, "/");
    ContainsSingle(r, '/');
    ContainsSingle(url, '/');
    r
  }

  /** Lines 58-62, on the lower-cased file name. */
  predicate IsArchive(lowered: string) {
    exists s | s in ArchiveSuffixes :: EndsWith(lowered, ExternalsMarker + "." + s)
  }

  /** Lines 65-70: some `name` value occurs in the lower-cased file name. The values
      themselves are not lower-cased. */
  predicate NameMatches(lowered: string, names: seq<string>) {
    exists n | n in names :: Contains(lowered, n)
  }

  /** Lines 55-72: whether the item at `url` is listed. */
  predicate AcceptedByInfo(url: string, args: Args) {
    var filename := Lower(FileNameOf(url));
    IsArchive(filename) && ("name" !in args || NameMatches(filename, args["name"]))
  }

  /** The suffix test spelled out: one of the three archive endings, in any letter case. */
  lemma IsArchiveEndings(lowered: string)
    ensures IsArchive(lowered) <==> || EndsWith(lowered, "-externals.zip")
                                    || EndsWith(lowered, "-externals.tgz")
                                    || EndsWith(lowered, "-externals.tar.gz")
  {
    assert ExternalsMarker + "." + "zip" == "-externals.zip";
    assert ExternalsMarker + "." + "tgz" == "-externals.tgz";
    assert ExternalsMarker + "." + "tar.gz" == "-externals.tar.gz";
  }

  /** Without a `name` argument every archive is listed. */
  lemma NoNameListsEveryArchive(url: string, args: Args)
    requires "name" !in args
    ensures AcceptedByInfo(url, args) <==> IsArchive(Lower(FileNameOf(url)))
  {
  }

  /** An empty `name` value matches every file name. */
  lemma EmptyNameListsEveryArchive(url: string, args: Args)
    requires "name" in args && "" in args["name"]
    ensures AcceptedByInfo(url, args) <==> IsArchive(Lower(FileNameOf(url)))
  {
    assert ContainsAt(Lower(FileNameOf(url)), "", 0);
  }

  /** Name values are compared with the lower-cased file name as given, so a value holding
      an upper-case letter never matches anything. */
  lemma UpperCaseNameMatchesNothing(url: string, args: Args)
    requires "name" in args
    requires forall n | n in args["name"] :: exists i | 0 <= i < |n| :: IsUpper(n[i])
    ensures !AcceptedByInfo(url, args)
  {
    var filename := Lower(FileNameOf(url));
    forall n | n in args["name"]
      ensures !Contains(filename, n)
    {
      var i :| 0 <= i < |n| && IsUpper(n[i]);
      forall j | 0 <= j <= |filename| - |n|
        ensures !ContainsAt(filename, n, j)
      {
        assert filename[j..j + |n|][i] == filename[j + i];
        assert !IsUpper(filename[j + i]);
      }
    }
  }

  // ---------------------------------------------------------------------------
  // the row of one file
  // ---------------------------------------------------------------------------

  /** Lines 23-32: the copy of `getNameVersion` with the suffix fixed to `-externals`. */
  function NameVersion(filename: string): (r: (string, string))
    ensures r == GetNameVersion(filename, ExternalsMarker)
    ensures Contains(filename, r.0) && Contains(filename, r.1)
    ensures '(' !in r.0 && '(' !in r.1
    ensures !Contains(r.0, ExternalsMarker) && !Contains(r.1, ExternalsMarker)
  {
    GetNameVersion(filename, ExternalsMarker)
  }

  /** `.replace('\t', ' ')`. */
  function Sanitize(s: string): (r: string)
    ensures '\t' !in r && |r| == |s|
    ensures forall i | 0 <= i < |s| && s[i] != '\t' :: r[i] == s[i]
    ensures forall i | 0 <= i < |s| && s[i] == '\t' :: r[i] == ' '
  {
    ReplaceChar(s, '\t', ' ')
  }

  /** The parts of `name/version (title)` all occur in it. */
  lemma VersionedTitleParts(name: string, version: string, t: string)
    ensures var r := name + "/" + version + " (" + t + ")";
      Contains(r, name) && Contains(r, version) && Contains(r, t)
      && ('\t' in r ==> '\t' in name || '\t' in version || '\t' in t)
  {
    var r := name + "/" + version + " (" + t + ")";
    assert Contains(r, name) by {
      assert r == "" + name + ("/" + version + " (" + t + ")");
      ContainsMiddle("", name, "/" + version + " (" + t + ")");
    }
    assert Contains(r, version) by {
      assert r == (name + "/") + version + (" (" + t + ")");
      ContainsMiddle(name + "/", version, " (" + t + ")");
    }
    assert Contains(r, t) by {
      assert r == (name + "/" + version + " (") + t + ")";
      ContainsMiddle(name + "/" + version + " (", t, ")");
    }
  }

  /** The parts of `name (title)` all occur in it, and so does the empty version. */
  lemma UnversionedTitleParts(name: string, t: string)
    ensures var r := name + " (" + t + ")";
      Contains(r, name) && Contains(r, "") && Contains(r, t)
      && ('\t' in r ==> '\t' in name || '\t' in t)
  {
    var r := name + " (" + t + ")";
    assert Contains(r, name) by {
      assert r == "" + name + (" (" + t + ")");
      ContainsMiddle("", name, " (" + t + ")");
    }
    assert Contains(r, t) by {
      assert r == (name + " (") + t + ")";
      ContainsMiddle(name + " (", t, ")");
    }
    assert ContainsAt(r, "", 0);
  }

  /** Lines 37-42: keep the (sanitized) title if it mentions both name and version,
      otherwise prefix it with them. */
  function ComposeTitle(name: string, version: string, title: string): (r: string)
    ensures Contains(r, name) && Contains(r, version) && Contains(r, Sanitize(title))
    ensures '\t' in r ==> '\t' in name || '\t' in version
    ensures !Contains(Sanitize(title), name) || !Contains(Sanitize(title), version) ==>
      |r| == |name| + (if version == "" then 0 else |version| + 1) + |Sanitize(title)| + 3
      && r[..|name|] == name
      && (version != "" ==> r[|name|] == '/' && r[|name| + 1..|name| + 1 + |version|] == version)
      && EndsWith(r, " (" + Sanitize(title) + ")")
  {
    var t := Sanitize(title);
    if !Contains(t, name) || !Contains(t, version) then
      if version != "" then
        VersionedTitleParts(name, version, t);
        VersionedLayout(name, version, t);
        name + "/" + version + " (" + t + ")"
      else
        UnversionedTitleParts(name, t);
        UnversionedLayout(name, t);
        name + " (" + t + ")"
    else
      assert ContainsAt(t, t, 0);
      t
  }

  /** The title is kept exactly when it already names the package and version. */
  lemma TitleKeptIff(name: string, version: string, title: string)
    ensures ComposeTitle(name, version, title) == Sanitize(title)
        <==> Contains(Sanitize(title), name) && Contains(Sanitize(title), version)
  {
    var t := Sanitize(title);
    if !Contains(t, name) || !Contains(t, version) {
      assert |ComposeTitle(name, version, title)| > |t|;
    }
  }

  /** Lines 38-42, the replaced title read back: it starts with the name, followed by `/`
      and the version when there is one, and ends with the sanitized title in brackets,
      preceded by a space; nothing else is in it. A `/`-free name is what splitting once at
      `/` cuts off. */
  lemma TitleReplaced(name: string, version: string, title: string)
    requires !Contains(Sanitize(title), name) || !Contains(Sanitize(title), version)
    ensures var r := ComposeTitle(name, version, title); var t := Sanitize(title);
      |r| == |name| + (if version == "" then 0 else |version| + 1) + |t| + 3
      && r[..|name|] == name
      && (version != "" ==> r[|name|] == '/' && r[|name| + 1..|name| + 1 + |version|] == version)
      && EndsWith(r, " (" + t + ")")
    ensures var r := ComposeTitle(name, version, title); var t := Sanitize(title);
      version != "" && '/' !in name ==> SplitOnce(r, "/") == Some((name, version + " (" + t + ")"))
  {
    var t := Sanitize(title);
    if version != "" {
      assert ComposeTitle(name, version, title) == name + "/" + version + " (" + t + ")";
      VersionedLayout(name, version, t);
    } else {
      assert ComposeTitle(name, version, title) == name + " (" + t + ")";
      UnversionedLayout(name, t);
    }
  }

  /** The layout of `name/version (t)`. */
  lemma VersionedLayout(name: string, version: string, t: string)
    ensures var r := name + "/" + version + " (" + t + ")";
      |r| == |name| + |version| + |t| + 4
      && r[..|name|] == name && r[|name|] == '/' && r[|name| + 1..|name| + 1 + |version|] == version
      && EndsWith(r, " (" + t + ")")
      && ('/' !in name ==> SplitOnce(r, "/") == Some((name, version + " (" + t + ")")))
  {
    var r := name + "/" + version + " (" + t + ")";
    assert r == name + "/" + (version + " (" + t + ")");
    assert r[|name| + 1..|name| + 1 + |version|] == version;
    assert r[|r| - |" (" + t + ")"|..] == " (" + t + ")";
    if '/' !in name {
      BeforeFirstAt(name, "/", version + " (" + t + ")", 0);
      assert r[|name| + 1..] == version + " (" + t + ")";
    }
  }

  /** The layout of `name (t)`. */
  lemma UnversionedLayout(name: string, t: string)
    ensures var r := name + " (" + t + ")";
      |r| == |name| + |t| + 3 && r[..|name|] == name && EndsWith(r, " (" + t + ")")
  {
    var r := name + " (" + t + ")";
    assert r == name + (" (" + t + ")");
    assert r[|r| - |" (" + t + ")"|..] == " (" + t + ")";
  }

  /** A title that does not name the package is replaced, with the version. */
  lemma ComposeTitleVersioned()
    ensures ComposeTitle("Gem", "0.93.3", "graphics") == "Gem/0.93.3 (graphics)"
  {
    NotNamed("graphics", "Gem", 'G');
    TabFreeSanitized("graphics");
    ReplacedTabFree("Gem", "0.93.3", "graphics");
    GemTitleText();
  }

  lemma GemTitleText()
    ensures "Gem" + "/" + "0.93.3" + " (" + "graphics" + ")" == "Gem/0.93.3 (graphics)"
  {
  }

  /** An unversioned title that does not name the package is replaced, without `/`. */
  lemma ComposeTitleUnversioned()
    ensures ComposeTitle("zexy", "", "x") == "zexy (x)"
  {
    NotNamed("x", "zexy", 'z');
    TabFreeSanitized("x");
    ReplacedTabFree("zexy", "", "x");
    assert "zexy" + " (" + "x" + ")" == "zexy (x)";
  }

  /** A tab-free title that is not kept is composed from its three parts. */
  lemma ReplacedTabFree(name: string, version: string, t: string)
    requires Sanitize(t) == t && (!Contains(t, name) || !Contains(t, version))
    ensures ComposeTitle(name, version, t)
         == if version == "" then name + " (" + t + ")" else name + "/" + version + " (" + t + ")"
  {
  }

  /** A text lacking a character of `name` does not contain `name`. */
  lemma NotNamed(t: string, name: string, c: char)
    requires c in name && c !in t
    ensures !Contains(t, name)
  {
    ContainsSingle(name, c);
    ContainsSingle(t, c);
    if Contains(t, name) {
      ContainsMonotone(t, name, [c]);
    }
  }

  /** Sanitizing tab-free text leaves it as it is. */
  lemma TabFreeSanitized(s: string)
    requires '\t' !in s
    ensures Sanitize(s) == s
  {
    var r := Sanitize(s);
    forall i | 0 <= i < |s|
      ensures r[i] == s[i]
    {
      assert s[i] in s;
    }
  }

  /** Lines 43-45: title, url, owner and date, tab-separated. */
  function InfoRow(title: string, url: string, owner: string, date: string): string {
    title + "\t" + url + "\t" + Sanitize(owner) + "\t" + Sanitize(date)
  }

  lemma SplitField(a: string, rest: string)
    requires '\t' !in a
    ensures Split(a + "\t" + rest, "\t") == [a] + Split(rest, "\t")
  {
    assert a + "\t" + rest == a + ['\t'] + rest;
    SplitAfterField(a, '\t', rest);
  }

  /** Splitting four tab-free fields joined by tabs gives them back. */
  lemma SplitFour(a: string, b: string, c: string, d: string)
    requires '\t' !in a && '\t' !in b && '\t' !in c && '\t' !in d
    ensures Split(a + "\t" + b + "\t" + c + "\t" + d, "\t") == [a, b, c, d]
  {
    var cd := c + "\t" + d;
    var bcd := b + "\t" + cd;
    assert a + "\t" + b + "\t" + c + "\t" + d == a + "\t" + bcd;
    assert Split(cd, "\t") == [c, d] by {
      SplitWithout(d, '\t');
      SplitField(c, d);
    }
    assert Split(bcd, "\t") == [b, c, d] by {
      SplitField(b, cd);
    }
    SplitField(a, bcd);
  }

  /** `showPackage(obj, url, filename)`, with the catalogue object's title, date and owner
      passed in. */
  function ShowPackage(title: string, date: string, owner: string, url: string, filename: string): string {
    var nv := NameVersion(filename);
    InfoRow(ComposeTitle(nv.0, nv.1, title), url, owner, date)
  }

  lemma TabFreeContains(s: string, t: string)
    requires Contains(s, t) && '\t' !in s
    ensures '\t' !in t
  {
    var i :| 0 <= i <= |s| - |t| && ContainsAt(s, t, i);
    forall j | 0 <= j < |t| ensures t[j] != '\t' {
      assert t[j] == s[i + j];
    }
  }

  /** A row reads back as its four fields as long as the url and the file name hold no tab:
      the title, whose package part is not sanitized, is then tab-free too. */
  lemma ShowPackageFields(title: string, date: string, owner: string, url: string, filename: string)
    requires '\t' !in url && '\t' !in filename
    ensures var nv := NameVersion(filename);
      Split(ShowPackage(title, date, owner, url, filename), "\t")
        == [ComposeTitle(nv.0, nv.1, title), url, Sanitize(owner), Sanitize(date)]
  {
    var nv := NameVersion(filename);
    TabFreeContains(filename, nv.0);
    TabFreeContains(filename, nv.1);
    SplitFour(ComposeTitle(nv.0, nv.1, title), url, Sanitize(owner), Sanitize(date));
  }
}
