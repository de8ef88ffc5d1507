/** Worked examples of `getNameVersion` on archive names that appear in the proxy's
    sources and data. Each name is built from its parts (name, `-v`, version, the
    architecture tag, `-externals`, the extension), and each example is taken in steps (the
    stem, then its split at `-v`) so that no proof has to evaluate a long literal. */
module NameVersionExamples {

  import opened Strings
  import opened Utilities

  /** Text without a `v` and with `-v` in front of more text without a `v` splits once. */
  lemma VersionSplit(name: string, rest: string)
    requires 'v' !in name && 'v' !in rest
    ensures Split(name + VersionMarker + rest, VersionMarker) == [name, rest]
  {
    assert VersionMarker[1] == 'v' && VersionMarker[..1] == "-";
    SplitAt(name, VersionMarker, rest, 1);
    SplitNone(rest, VersionMarker, 'v');
  }

  // The two archive names quoted in librarysearch.py (lines 27-28), an architecture-tagged
  // name with a dash inside its version, and an unversioned one.

  /** `Gem-v0.93.3-(Windows-i386-32)-externals.zip` */
  const GemStemText := "Gem" + VersionMarker + ("0.93.3" + "-")
  const GemArchive := GemStemText + "(" + "Windows-i386-32)" + ExternalsMarker + ".zip"

  /** `patch2svg-plugin-v0.1--externals.zip` */
  const Patch2svgStemText := "patch2svg" + ("-plugin" + VersionMarker + ("0.1" + "-"))
  const Patch2svgArchive := Patch2svgStemText + ExternalsMarker + ".zip"

  /** `zexy-v2.2.5-2-(Linux-amd64-64)-externals.tgz` */
  const ZexyStemText := "zexy" + VersionMarker + ("2.2.5-2" + "-")
  const ZexyArchive := ZexyStemText + "(" + "Linux-amd64-64)" + ExternalsMarker + ".tgz"

  /** `helloworld(Linux-amd64-64)-externals.zip` */
  const HelloArchive := "helloworld" + "(" + "Linux-amd64-64)" + ExternalsMarker + ".zip"

  lemma GemStem()
    ensures Stem(GemArchive, ExternalsMarker) == GemStemText
  {
    // the `x` of the marker occurs in neither the stem nor the architecture tag
    StemAtParen(GemStemText, "Windows-i386-32)", ".zip", ExternalsMarker, 2);
  }

  lemma GemStemSplit()
    ensures Split(Stem(GemArchive, ExternalsMarker), VersionMarker) == ["Gem", "0.93.3" + "-"]
    ensures Clean("Gem") && Clean("0.93.3")
  {
    GemStem();
    VersionSplit("Gem", "0.93.3" + "-");
  }

  lemma GemExample()
    ensures GetNameVersion(GemArchive, ExternalsMarker) == ("Gem", "0.93.3")
  {
    GemStemSplit();
    NameVersionDashed(GemArchive, ExternalsMarker, "Gem", "0.93.3");
  }

  lemma Patch2svgStem()
    ensures Stem(Patch2svgArchive, ExternalsMarker) == Patch2svgStemText
  {
    StemAtSuffix(Patch2svgStemText, ".zip", ExternalsMarker, 2);
  }

  /** "svg" holds a `v`, so the split is taken past the dash-free "patch2svg". */
  lemma Patch2svgSplit()
    ensures Split(Patch2svgStemText, VersionMarker) == ["patch2svg" + "-plugin", "0.1" + "-"]
  {
    VersionSplit("-plugin", "0.1" + "-");
    assert VersionMarker[0] == '-';
    SplitPrefixFreeTwo("patch2svg", "-plugin" + VersionMarker + ("0.1" + "-"), VersionMarker,
                       "-plugin", "0.1" + "-");
  }

  /** The stem of the patch2svg archive splits into its clean name and its dashed version. */
  lemma Patch2svgStemSplit()
    ensures Split(Stem(Patch2svgArchive, ExternalsMarker), VersionMarker) == ["patch2svg-plugin", "0.1" + "-"]
    ensures Clean("patch2svg-plugin") && Clean("0.1")
  {
    Patch2svgStem();
    Patch2svgSplit();
    assert "patch2svg" + "-plugin" == "patch2svg-plugin";
  }

  lemma Patch2svgExample()
    ensures GetNameVersion(Patch2svgArchive, ExternalsMarker) == ("patch2svg-plugin", "0.1")
  {
    Patch2svgStemSplit();
    NameVersionDashed(Patch2svgArchive, ExternalsMarker, "patch2svg-plugin", "0.1");
  }

  lemma ZexyStem()
    ensures Stem(ZexyArchive, ExternalsMarker) == ZexyStemText
  {
    // "zexy" and "Linux" hold an `x`: the `t` of the marker is used instead
    StemAtParen(ZexyStemText, "Linux-amd64-64)", ".tgz", ExternalsMarker, 3);
  }

  lemma ZexyStemSplit()
    ensures Split(Stem(ZexyArchive, ExternalsMarker), VersionMarker) == ["zexy", "2.2.5-2" + "-"]
    ensures Clean("zexy") && Clean("2.2.5-2")
  {
    ZexyStem();
    VersionSplit("zexy", "2.2.5-2" + "-");
  }

  lemma ZexyExample()
    ensures GetNameVersion(ZexyArchive, ExternalsMarker) == ("zexy", "2.2.5-2")
  {
    ZexyStemSplit();
    NameVersionDashed(ZexyArchive, ExternalsMarker, "zexy", "2.2.5-2");
  }

  lemma HelloStem()
    ensures Stem(HelloArchive, ExternalsMarker) == "helloworld"
  {
    StemAtParen("helloworld", "Linux-amd64-64)", ".zip", ExternalsMarker, 3);
  }

  lemma UnversionedExample()
    ensures GetNameVersion(HelloArchive, ExternalsMarker) == ("helloworld", "")
  {
    HelloStem();
    SplitNone("helloworld", VersionMarker, 'v');
    NameVersionUnversioned(HelloArchive, ExternalsMarker);
  }
}
