/** The interpreter-version check of the build script (`check_pyversions`), with the running
    interpreter's version passed in. */
module Setup {

  /** Entry `v` agrees with `version` on the components both have (Python's `zip`). */
  predicate AgreesOnCommonPrefix(v: seq<int>, version: seq<int>) {
    forall i | 0 <= i < |v| && i < |version| :: v[i] == version[i]
  }

  /** Some entry agrees with the version. */
  predicate Accepts(versions: seq<seq<int>>, version: seq<int>) {
    exists k | 0 <= k < |versions| :: AgreesOnCommonPrefix(versions[k], version)
  }

  /** Lines 17-20: true as soon as one entry agrees with the version on their common prefix. */
  method CheckPyVersions(versions: seq<seq<int>>, version: seq<int>) returns (r: bool)
    ensures r <==> Accepts(versions, version)
  {
    var k := 0;
    while k < |versions|
      invariant 0 <= k <= |versions|
      invariant forall m | 0 <= m < k :: !AgreesOnCommonPrefix(versions[m], version)
    {
      var v := versions[k];
      // line 18: all(x == y for x, y in zip(v, version))
      var all := true;
      var i := 0;
      while i < |v| && i < |version|
        invariant 0 <= i <= |v|
        invariant all <==> forall j | 0 <= j < i && j < |version| :: v[j] == version[j]
      {
        if v[i] != version[i] {
          all := false;
        }
        i := i + 1;
      }
      if all {
        return true;
      }
      k := k + 1;
    }
    return false;
  }

  /** No entries, no match. */
  lemma NoVersionsNoMatch(version: seq<int>)
    ensures !Accepts([], version)
  {
  }

  /** The empty entry `()` matches every version. */
  lemma EmptyEntryMatchesAll(versions: seq<seq<int>>, version: seq<int>)
    requires [] in versions
    ensures Accepts(versions, version)
  {
    var k :| 0 <= k < |versions| && versions[k] == [];
    assert AgreesOnCommonPrefix(versions[k], version);
  }

  /** `((2,), (3,))` accepts any version whose major number is 2 or 3. */
  lemma Py2OrPy3(version: seq<int>)
    requires |version| > 0
    ensures Accepts([[2], [3]], version) <==> version[0] == 2 || version[0] == 3
  {
    var vs: seq<seq<int>> := [[2], [3]];
    assert AgreesOnCommonPrefix(vs[0], version) <==> version[0] == 2;
    assert AgreesOnCommonPrefix(vs[1], version) <==> version[0] == 3;
  }

  /** `((2,), (3, 4, 2))` accepts any 2.x and, of the 3.x, only 3.4.2. */
  lemma Py2OrPy342(version: seq<int>)
    requires |version| >= 3
    ensures Accepts([[2], [3, 4, 2]], version) <==> version[0] == 2 || version[..3] == [3, 4, 2]
  {
    var vs: seq<seq<int>> := [[2], [3, 4, 2]];
    assert AgreesOnCommonPrefix(vs[0], version) <==> version[0] == 2;
    assert AgreesOnCommonPrefix(vs[1], version) <==> version[..3] == [3, 4, 2] by {
      if version[..3] == [3, 4, 2] {
        assert version[0] == 3 && version[1] == 4 && version[2] == 2;
      }
    }
  }
}
