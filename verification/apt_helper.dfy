/** The pure part of the apt plugin for deken (`deken-xtra-apt-helper.py`): which Debian
    packages count as Pd externals and under which names they are found, and how a package
    version's origin is summarised. The apt cache is replaced by plain records. */
module AptHelper {
  import opened Wrappers

  // ---------------------------------------------------------------------------
  // stripSuffix
  // ---------------------------------------------------------------------------

  /** Lines 75-78: despite its name, drops a leading `prefix`. */
  function StripSuffix(s: string, prefix: string): (r: string)
    ensures prefix <= s ==> prefix + r == s
    ensures !(prefix <= s) ==> r == s
  {
    if prefix <= s then s[|prefix|..] else s
  }

  /** Stripping undoes prepending. */
  lemma StripSuffixOfPrefixed(prefix: string, t: string)
    ensures StripSuffix(prefix + t, prefix) == t
  {
    assert prefix <= prefix + t;
  }

  /** What it strips is a prefix: a trailing occurrence is left alone when the string
      does not also start with it. */
  lemma StripSuffixKeepsSuffix(s: string, suffix: string)
    requires |suffix| <= |s| && !(suffix <= s)
    ensures StripSuffix(s + suffix, suffix) == s + suffix
  {
    assert (s + suffix)[..|suffix|] == s[..|suffix|];
  }

  // ---------------------------------------------------------------------------
  // hasDependency
  // ---------------------------------------------------------------------------

  /** A package version from the apt cache: its dependency groups (each a list of
      alternatives, by package name) and the virtual packages it provides. */
  datatype Version = Version(id: string, dependencies: seq<seq<string>>, provided: seq<string>)

  /** Some alternative of some dependency group is one of `deps`. */
  predicate DependsOn(v: Version, deps: set<string>) {
    exists i, j | 0 <= i < |v.dependencies| && 0 <= j < |v.dependencies[i]| :: v.dependencies[i][j] in deps
  }

  /** Lines 81-89: the nested loop, returning at the first hit. */
  method HasDependency(v: Version, deps: set<string>) returns (r: bool)
    ensures r <==> DependsOn(v, deps)
  {
    var i := 0;
    while i < |v.dependencies|
      invariant 0 <= i <= |v.dependencies|
      invariant forall i', j | 0 <= i' < i && 0 <= j < |v.dependencies[i']| :: v.dependencies[i'][j] !in deps
    {
      var d := v.dependencies[i];
      var j := 0;
      while j < |d|
        invariant 0 <= j <= |d|
        invariant forall j' | 0 <= j' < j :: d[j'] !in deps
      {
        if d[j] in deps {
          return true;
        }
        j := j + 1;
      }
      i := i + 1;
    }
    return false;
  }

  // ---------------------------------------------------------------------------
  // getPackages: the name index
  // ---------------------------------------------------------------------------

  /** Line 93. */
  const Pd32Deps: set<string> := {"puredata-core", "puredata", "puredata-gui", "pd"}
  /** Line 94. */
  const Pd64Deps: set<string> := {"puredata64-core", "puredata64", "puredata-gui", "pd64"}

  /** Lines 95-98: 64-bit Pd for a float size of 64, 32-bit Pd for anything else. */
  function PdDeps(floatsize: int): (r: set<string>)
    ensures floatsize == 64 ==> "pd64" in r && "pd" !in r
    ensures floatsize != 64 ==> "pd" in r && "pd64" !in r
    ensures "puredata-gui" in r
  {
    if floatsize == 64 then Pd64Deps else Pd32Deps
  }

  /** A binary package: its short name, its architecture and its versions. */
  datatype Package = Package(shortname: string, architecture: string, versions: seq<Version>)

  /** Lines 103-107: packages of Pd itself and of another architecture are skipped. An
      empty `arch` (Python `None` or `""`) does not filter. */
  predicate Considered(p: Package, arch: string) {
    !("puredata" <= p.shortname) && (arch == "" || p.architecture == arch)
  }

  /** Lines 112-113: the short name and the names the version provides. */
  function OwnNames(p: Package, v: Version): set<string> {
    {p.shortname} + set n | n in v.provided
  }

  /** Lines 112-114: the short name and the provided names, each also without a leading
      `pd-` or `pd64-`. */
  function Names(p: Package, v: Version): (r: set<string>)
    ensures p.shortname in r
    ensures forall n | n in v.provided :: n in r
    ensures forall n :: n in r <==> n in OwnNames(p, v) || "pd-" + n in OwnNames(p, v) || "pd64-" + n in OwnNames(p, v)
  {
    var names := OwnNames(p, v);
    var r := names + (set n | n in names :: StripSuffix(n, "pd-")) + (set n | n in names :: StripSuffix(n, "pd64-"));
    assert forall n :: n in r <==> n in names || "pd-" + n in names || "pd64-" + n in names by {
      forall n | "pd-" + n in names
        ensures n in r
      {
        StripSuffixOfPrefixed("pd-", n);
      }
      forall n | "pd64-" + n in names
        ensures n in r
      {
        StripSuffixOfPrefixed("pd64-", n);
      }
    }
    r
  }

  /** `packages`: name -> package versions found under it. */
  type NameIndex = map<string, set<Version>>

  function Found(index: NameIndex, n: string): set<Version> {
    if n in index then index[n] else {}
  }

  /** Lines 115-117 for every name: `v` joins the set of each of `names`. */
  function File(index: NameIndex, names: set<string>, v: Version): (r: NameIndex)
    ensures r.Keys == index.Keys + names
    ensures forall n :: Found(r, n) == Found(index, n) + (if n in names then {v} else {})
  {
    map n | n in index.Keys + names :: Found(index, n) + (if n in names then {v} else {})
  }

  /** Lines 108-117: the versions of one considered package. */
  function FileVersions(index: NameIndex, p: Package, versions: seq<Version>, deps: set<string>): NameIndex
    decreases |versions|
  {
    if |versions| == 0 then index
    else
      var v := versions[0];
      var next := if DependsOn(v, deps) then File(index, Names(p, v), v) else index;
      FileVersions(next, p, versions[1..], deps)
  }

  /** Lines 100-117: the loop over the apt cache. */
  function FilePackages(index: NameIndex, pkgs: seq<Package>, arch: string, deps: set<string>): NameIndex
    decreases |pkgs|
  {
    if |pkgs| == 0 then index
    else
      var p := pkgs[0];
      var next := if Considered(p, arch) then FileVersions(index, p, p.versions, deps) else index;
      FilePackages(next, pkgs[1..], arch, deps)
  }

  /** The name index `getPackages` builds before matching the requested patterns. */
  function NameIndexOf(pkgs: seq<Package>, arch: string, floatsize: int): NameIndex {
    FilePackages(map[], pkgs, arch, PdDeps(floatsize))
  }

  /** Version `v` of package `p` is found under name `n`. */
  predicate FiledUnder(p: Package, v: Version, n: string, arch: string, deps: set<string>) {
    Considered(p, arch) && v in p.versions && DependsOn(v, deps) && n in Names(p, v)
  }

  lemma {:induction false} FileVersionsFinds(index: NameIndex, p: Package, versions: seq<Version>,
                                             deps: set<string>, n: string, v: Version)
    ensures v in Found(FileVersions(index, p, versions, deps), n)
        <==> v in Found(index, n) || (v in versions && DependsOn(v, deps) && n in Names(p, v))
    decreases |versions|
  {
    if |versions| > 0 {
      var w := versions[0];
      var next := if DependsOn(w, deps) then File(index, Names(p, w), w) else index;
      FileVersionsFinds(next, p, versions[1..], deps, n, v);
      assert versions == [w] + versions[1..];
    }
  }

  lemma {:induction false} FilePackagesFinds(index: NameIndex, pkgs: seq<Package>, arch: string,
                                             deps: set<string>, n: string, v: Version)
    ensures v in Found(FilePackages(index, pkgs, arch, deps), n)
        <==> v in Found(index, n) || exists k | 0 <= k < |pkgs| :: FiledUnder(pkgs[k], v, n, arch, deps)
    decreases |pkgs|
  {
    if |pkgs| > 0 {
      var p := pkgs[0];
      var next := if Considered(p, arch) then FileVersions(index, p, p.versions, deps) else index;
      FileVersionsFinds(index, p, p.versions, deps, n, v);
      FilePackagesFinds(next, pkgs[1..], arch, deps, n, v);
      if exists k | 0 <= k < |pkgs[1..]| :: FiledUnder(pkgs[1..][k], v, n, arch, deps) {
        var k :| 0 <= k < |pkgs[1..]| && FiledUnder(pkgs[1..][k], v, n, arch, deps);
        assert pkgs[k + 1] == pkgs[1..][k];
      }
      if exists k | 0 <= k < |pkgs| :: FiledUnder(pkgs[k], v, n, arch, deps) {
        var k :| 0 <= k < |pkgs| && FiledUnder(pkgs[k], v, n, arch, deps);
        if k > 0 {
          assert pkgs[1..][k - 1] == pkgs[k];
        }
      }
    }
  }

  /** A version is found under a name exactly when its package is considered, it depends on
      Pd of the requested float size, and the name is one of its names. */
  lemma NameIndexFinds(pkgs: seq<Package>, arch: string, floatsize: int, n: string, v: Version)
    ensures v in Found(NameIndexOf(pkgs, arch, floatsize), n)
        <==> exists k | 0 <= k < |pkgs| :: FiledUnder(pkgs[k], v, n, arch, PdDeps(floatsize))
  {
    FilePackagesFinds(map[], pkgs, arch, PdDeps(floatsize), n, v);
  }

  /** A `pd-` package is found under its short name and under the name without `pd-`. */
  lemma PdPrefixedNames(name: string, arch: string, v: Version)
    requires DependsOn(v, Pd32Deps)
    ensures var p := Package("pd-" + name, arch, [v]);
      var index := NameIndexOf([p], arch, 32);
      v in Found(index, "pd-" + name) && v in Found(index, name)
  {
    var p := Package("pd-" + name, arch, [v]);
    assert !("puredata" <= p.shortname) by {
      assert p.shortname[1] == 'd' && "puredata"[1] == 'u';
    }
    StripSuffixOfPrefixed("pd-", name);
    assert name in Names(p, v);
    NameIndexFinds([p], arch, 32, "pd-" + name, v);
    NameIndexFinds([p], arch, 32, name, v);
  }

  /** Pd's own packages are never found. */
  lemma PuredataPackagesSkipped(pkgs: seq<Package>, arch: string, floatsize: int, n: string, v: Version)
    requires forall k | 0 <= k < |pkgs| :: "puredata" <= pkgs[k].shortname
    ensures v !in Found(NameIndexOf(pkgs, arch, floatsize), n)
  {
    NameIndexFinds(pkgs, arch, floatsize, n, v);
  }

  // ---------------------------------------------------------------------------
  // getOrigin
  // ---------------------------------------------------------------------------

  /** An apt origin record. `None` stands for an attribute the record does not have (reading
      it raises `AttributeError`); `Some("")` for one that is present but falsy. */
  datatype Origin = Origin(
    trusted: bool,
    repoLabel: Option<string>,
    origin: Option<string>,
    codename: Option<string>,
    archive: Option<string>,
    component: Option<string>)

  /** The three fields collected so far; `""` is Python's `None` (both are falsy). */
  datatype Fields = Fields(origin: string, codename: string, component: string)

  /** Why `getOrigin` raised: line 153 names `fallback_uploader`, which is not defined. */
  datatype Failure = UndefinedUploader

  /** What `getOrigin` returns: a pair, or the triple of line 144 when there is no origin. */
  datatype OriginSummary =
    | Pair(uploader: string, archive: Option<string>)
    | NoOrigin(uploader: string, date: Option<string>)

  /** Line 153: `origin or o.label or o.origin or fallback_uploader` (the field `label` is
      `repoLabel` here, `label` being a Dafny keyword), with the `AttributeError` of a
      missing attribute leaving `origin` as it was. */
  function OriginStep(cur: string, o: Origin): Result<string, Failure> {
    if cur != "" then Ok(cur)
    else match o.repoLabel
      case None => Ok(cur)
      case Some(l) =>
        if l != "" then Ok(l)
        else match o.origin
          case None => Ok(cur)
          case Some(x) => if x != "" then Ok(x) else Err(UndefinedUploader)
  }

  /** Line 157: `codename or o.codename or o.archive`. */
  function CodenameStep(cur: string, o: Origin): string {
    if cur != "" then cur
    else match o.codename
      case None => cur
      case Some(c) =>
        if c != "" then c
        else match o.archive
          case None => cur
          case Some(a) => a
  }

  /** Line 161: `component or o.component`. */
  function ComponentStep(cur: string, o: Origin): string {
    if cur != "" then cur
    else match o.component
      case None => cur
      case Some(c) => c
  }

  predicate AllSet(f: Fields) {
    f.origin != "" && f.codename != "" && f.component != ""
  }

  /** Lines 149-163: stop once all three are set; otherwise update each from the origin. */
  function Scan(origins: seq<Origin>, f: Fields): Result<Fields, Failure>
    decreases |origins|
  {
    if |origins| == 0 || AllSet(f) then Ok(f)
    else
      var o := origins[0];
      match OriginStep(f.origin, o)
      case Err(e) => Err(e)
      case Ok(origin) =>
        Scan(origins[1..], Fields(origin, CodenameStep(f.codename, o), ComponentStep(f.component, o)))
  }

  /** Lines 137-141: the trusted origins if there are any, else all of them. */
  function Trusted(origins: seq<Origin>): (r: seq<Origin>)
    ensures |r| <= |origins|
    ensures forall i | 0 <= i < |r| :: r[i].trusted && r[i] in origins
    ensures forall i | 0 <= i < |origins| && origins[i].trusted :: origins[i] in r
  {
    if |origins| == 0 then []
    else
      (if origins[0].trusted then [origins[0]] else []) + Trusted(origins[1..])
  }

  /** Each trusted origin is kept as often as it occurs; no untrusted one is kept. */
  lemma {:induction false} TrustedCount(origins: seq<Origin>, o: Origin)
    ensures multiset(Trusted(origins))[o] == if o.trusted then multiset(origins)[o] else 0
    decreases |origins|
  {
    if |origins| > 0 {
      TrustedCount(origins[1..], o);
      assert origins == [origins[0]] + origins[1..];
    }
  }

  /** The trusted origins keep their order: filtering a concatenation filters each part. */
  lemma {:induction false} TrustedConcat(a: seq<Origin>, b: seq<Origin>)
    ensures Trusted(a + b) == Trusted(a) + Trusted(b)
    decreases |a|
  {
    if |a| > 0 {
      var h := if a[0].trusted then [a[0]] else [];
      assert (a + b)[0] == a[0] && (a + b)[1..] == a[1..] + b;
      assert Trusted(a + b) == h + Trusted(a[1..] + b);
      TrustedConcat(a[1..], b);
      assert Trusted(a) == h + Trusted(a[1..]);
      assert h + (Trusted(a[1..]) + Trusted(b)) == (h + Trusted(a[1..])) + Trusted(b);
    } else {
      assert a + b == b;
    }
  }

  function Candidates(origins: seq<Origin>): seq<Origin> {
    if Trusted(origins) != [] then Trusted(origins) else origins
  }

  /** Lines 165-174: the origin, defaulted, and `codename/component`. */
  function Summarise(f: Fields, fallbackOrigin: string, fallbackDate: Option<string>): OriginSummary {
    var origin := if f.origin != "" then f.origin else fallbackOrigin;
    if f.codename != "" || f.component != "" then
      if f.component == "" then Pair(origin, Some(f.codename))
      else Pair(origin, Some((if f.codename != "" then f.codename else "???") + "/" + f.component))
    else Pair(origin, fallbackDate)
  }

  /** `getOrigin(versioned_pkg, fallback_origin, fallback_date)`. The `trusted`/`untrusted`
      markers are assigned to a variable that is never read, so they are not parameters. */
  function GetOrigin(origins: seq<Origin>, fallbackOrigin: string, fallbackDate: Option<string>)
    : Result<OriginSummary, Failure>
  {
    var cands := Candidates(origins);
    if cands == [] then Ok(NoOrigin(fallbackOrigin, fallbackDate))
    else match Scan(cands, Fields("", "", ""))
      case Err(e) => Err(e)
      case Ok(f) => Ok(Summarise(f, fallbackOrigin, fallbackDate))
  }

  // --- the reference: first truthy value per field ---

  /** The value line 153 would take from `o` alone (`""` when it takes none). */
  function OriginOf(o: Origin): string {
    match o.repoLabel
    case None => ""
    case Some(l) => if l != "" then l else match o.origin case None => "" case Some(x) => x
  }

  /** `o` makes line 153 reach `fallback_uploader`. */
  predicate Unlabelled(o: Origin) {
    o.repoLabel == Some("") && o.origin == Some("")
  }

  function CodenameOf(o: Origin): string {
    CodenameStep("", o)
  }

  function ComponentOf(o: Origin): string {
    ComponentStep("", o)
  }

  /** The first non-empty value among `values`, or `""`. */
  function FirstTruthy(values: seq<string>): (r: string)
    ensures r == "" <==> forall i | 0 <= i < |values| :: values[i] == ""
    ensures r != "" ==> r in values
    ensures r != "" ==> exists i | 0 <= i < |values| :: values[i] == r && forall j | 0 <= j < i :: values[j] == ""
  {
    if |values| == 0 then "" else if values[0] != "" then values[0] else FirstTruthy(values[1..])
  }

  function Map(origins: seq<Origin>, f: Origin -> string): (r: seq<string>)
    ensures |r| == |origins| && forall i | 0 <= i < |origins| :: r[i] == f(origins[i])
  {
    if |origins| == 0 then [] else [f(origins[0])] + Map(origins[1..], f)
  }

  /** An unlabelled origin comes before any origin that names one. */
  predicate UnlabelledFirst(origins: seq<Origin>) {
    exists i | 0 <= i < |origins| :: Unlabelled(origins[i]) && forall j | 0 <= j < i :: OriginOf(origins[j]) == ""
  }

  lemma UnlabelledOrigin(o: Origin)
    ensures Unlabelled(o) ==> OriginOf(o) == ""
    ensures OriginStep("", o) == if Unlabelled(o) then Err(UndefinedUploader) else Ok(OriginOf(o))
  {
  }

  lemma UnlabelledFirstStep(origins: seq<Origin>)
    requires |origins| > 0
    ensures UnlabelledFirst(origins)
        <==> Unlabelled(origins[0]) || (OriginOf(origins[0]) == "" && UnlabelledFirst(origins[1..]))
  {
    var rest := origins[1..];
    if UnlabelledFirst(origins) && !Unlabelled(origins[0]) {
      var i :| 0 <= i < |origins| && Unlabelled(origins[i]) && forall j | 0 <= j < i :: OriginOf(origins[j]) == "";
      assert i > 0;
      assert rest[i - 1] == origins[i];
      forall j | 0 <= j < i - 1 ensures OriginOf(rest[j]) == "" {
        assert rest[j] == origins[j + 1];
      }
    }
    if OriginOf(origins[0]) == "" && UnlabelledFirst(rest) {
      var i :| 0 <= i < |rest| && Unlabelled(rest[i]) && forall j | 0 <= j < i :: OriginOf(rest[j]) == "";
      assert origins[i + 1] == rest[i];
      forall j | 0 <= j < i + 1 ensures OriginOf(origins[j]) == "" {
        if j > 0 {
          assert origins[j] == rest[j - 1];
        }
      }
    }
    if Unlabelled(origins[0]) {
      assert Unlabelled(origins[0]);
    }
  }

  lemma MapTail(origins: seq<Origin>, f: Origin -> string)
    requires |origins| > 0
    ensures Map(origins, f) == [f(origins[0])] + Map(origins[1..], f)
  {
  }

  /** The loop with its early exit computes, field by field, the first truthy value over all
      origins, and fails exactly when an unlabelled origin comes before any labelled one. */
  lemma {:induction false} ScanIsFirstTruthy(origins: seq<Origin>, f: Fields)
    ensures Scan(origins, f).Err? <==> f.origin == "" && UnlabelledFirst(origins)
    ensures Scan(origins, f).Ok? ==>
      && Scan(origins, f).value.origin == (if f.origin != "" then f.origin else FirstTruthy(Map(origins, OriginOf)))
      && Scan(origins, f).value.codename == (if f.codename != "" then f.codename else FirstTruthy(Map(origins, CodenameOf)))
      && Scan(origins, f).value.component == (if f.component != "" then f.component else FirstTruthy(Map(origins, ComponentOf)))
    decreases |origins|
  {
    if |origins| == 0 {
      assert !UnlabelledFirst(origins);
    } else if AllSet(f) {
    } else {
      var o := origins[0];
      UnlabelledOrigin(o);
      UnlabelledFirstStep(origins);
      MapTail(origins, OriginOf);
      MapTail(origins, CodenameOf);
      MapTail(origins, ComponentOf);
      if OriginStep(f.origin, o).Ok? {
        var next := Fields(OriginStep(f.origin, o).value, CodenameStep(f.codename, o), ComponentStep(f.component, o));
        ScanIsFirstTruthy(origins[1..], next);
      }
    }
  }

  /** With no origin at all, the fallbacks come back as the triple of line 144. */
  lemma NoOriginsFallBack(fallbackOrigin: string, fallbackDate: Option<string>)
    ensures GetOrigin([], fallbackOrigin, fallbackDate) == Ok(NoOrigin(fallbackOrigin, fallbackDate))
  {
  }

  /** Untrusted origins play no part once a trusted one exists. */
  lemma TrustedPreferred(origins: seq<Origin>, fallbackOrigin: string, fallbackDate: Option<string>)
    requires exists i | 0 <= i < |origins| :: origins[i].trusted
    ensures GetOrigin(origins, fallbackOrigin, fallbackDate) == GetOrigin(Trusted(origins), fallbackOrigin, fallbackDate)
  {
    TrustedOfTrusted(origins);
  }

  lemma {:induction false} TrustedOfTrusted(origins: seq<Origin>)
    ensures Trusted(Trusted(origins)) == Trusted(origins)
    decreases |origins|
  {
    if |origins| > 0 {
      TrustedOfTrusted(origins[1..]);
      var rest := Trusted(origins[1..]);
      if origins[0].trusted {
        assert ([origins[0]] + rest)[1..] == rest;
      } else {
        assert Trusted(origins) == rest;
      }
    }
  }

  /** `getOrigin` against the reference: it fails exactly on an unlabelled origin before any
      labelled one, and otherwise summarises the first truthy value of each field. */
  lemma GetOriginIsFirstTruthy(origins: seq<Origin>, fallbackOrigin: string, fallbackDate: Option<string>)
    requires origins != []
    ensures var cands := Candidates(origins);
      && (GetOrigin(origins, fallbackOrigin, fallbackDate).Err? <==> UnlabelledFirst(cands))
      && (GetOrigin(origins, fallbackOrigin, fallbackDate).Ok? ==>
            GetOrigin(origins, fallbackOrigin, fallbackDate).value
              == Summarise(Fields(FirstTruthy(Map(cands, OriginOf)), FirstTruthy(Map(cands, CodenameOf)),
                                  FirstTruthy(Map(cands, ComponentOf))),
                           fallbackOrigin, fallbackDate))
  {
    assert Candidates(origins) != [];
    ScanIsFirstTruthy(Candidates(origins), Fields("", "", ""));
  }

  /** A Debian origin: `Debian`, `bookworm/main`. */
  lemma DebianExample()
    ensures GetOrigin([Origin(true, Some("Debian"), Some("Debian"), Some("bookworm"), Some("stable"), Some("main"))],
                      "apt", None)
         == Ok(Pair("Debian", Some("bookworm/main")))
  {
    var o := Origin(true, Some("Debian"), Some("Debian"), Some("bookworm"), Some("stable"), Some("main"));
    assert Trusted([o]) == [o] by {
      assert Trusted([o][1..]) == [];
    }
    var f := Fields("Debian", "bookworm", "main");
    assert Scan([o], Fields("", "", "")) == Scan([], f) == Ok(f);
    assert "bookworm" + "/" + "main" == "bookworm/main";
  }

  /** A component without a codename is shown as `???/component`. */
  lemma MissingCodenameExample()
    ensures GetOrigin([Origin(false, Some("local"), None, None, Some(""), Some("main"))], "apt", None)
         == Ok(Pair("local", Some("???/main")))
  {
    var o := Origin(false, Some("local"), None, None, Some(""), Some("main"));
    assert Trusted([o]) == [] by {
      assert Trusted([o][1..]) == [];
    }
    var f := Fields("local", "", "main");
    assert Scan([o], Fields("", "", "")) == Scan([], f) == Ok(f);
    assert "???" + "/" + "main" == "???/main";
  }

  /** An origin whose label and origin are both empty reaches the undefined name. */
  lemma UnlabelledExample()
    ensures GetOrigin([Origin(true, Some(""), Some(""), Some("bookworm"), None, Some("main"))], "apt", None)
         == Err(UndefinedUploader)
  {
    var o := Origin(true, Some(""), Some(""), Some("bookworm"), None, Some("main"));
    assert Trusted([o]) == [o] by {
      assert Trusted([o][1..]) == [];
    }
  }
}
