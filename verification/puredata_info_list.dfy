/** The second listing script (`developer/server/puredata_info_list.py`): it also lists the
    object lists (`-objects.txt`), takes no query, and puts the url first. It shares the file
    name parser and the title rule with `PuredataInfo`. */
module PuredataInfoList {
  import opened Strings
  import opened Utilities
  import opened PuredataInfo

  /** Lines 35-43: archives and object lists are listed; there is no name filter. */
  predicate AcceptedByList(url: string) {
    var filename := Lower(FileNameOf(url));
    IsArchive(filename) || EndsWith(filename, "-objects.txt")
  }

  /** Every file the first script lists, under any query, this one lists too. */
  lemma InfoListedIsListed(url: string, args: Args)
    ensures AcceptedByInfo(url, args) ==> AcceptedByList(url)
  {
  }

  /** Without a query the two scripts differ exactly by the object lists. */
  lemma ListIsInfoPlusObjectLists(url: string)
    ensures AcceptedByList(url)
        <==> AcceptedByInfo(url, map[]) || EndsWith(Lower(FileNameOf(url)), "-objects.txt")
  {
  }

  /** Lines 16-26: url, title, owner and date, tab-separated; the date is also stripped. */
  function ListRow(title: string, url: string, owner: string, date: string): string {
    url + "\t" + title + "\t" + Sanitize(owner) + "\t" + Strip(Sanitize(date), Whitespace)
  }

  /** `showPackage(obj, url, filename)` of this script. */
  function ShowListPackage(title: string, date: string, owner: string, url: string, filename: string): string {
    var nv := NameVersion(filename);
    ListRow(ComposeTitle(nv.0, nv.1, title), url, owner, date)
  }

  lemma StripTabFree(s: string)
    requires '\t' !in s
    ensures '\t' !in Strip(s, Whitespace)
  {
    TabFreeContains(s, Strip(s, Whitespace));
  }

  /** The row of this script is the row of the first one with url and title swapped and the
      date stripped. */
  lemma RowsAgree(title: string, url: string, owner: string, date: string)
    requires '\t' !in title && '\t' !in url
    ensures var info := Split(InfoRow(title, url, owner, date), "\t");
      && |info| == 4
      && Split(ListRow(title, url, owner, date), "\t") == [info[1], info[0], info[2], Strip(info[3], Whitespace)]
  {
    StripTabFree(Sanitize(date));
    SplitFour(title, url, Sanitize(owner), Sanitize(date));
    SplitFour(url, title, Sanitize(owner), Strip(Sanitize(date), Whitespace));
  }

  /** A row reads back as url, title, owner and date when the url and file name hold no tab. */
  lemma ShowListPackageFields(title: string, date: string, owner: string, url: string, filename: string)
    requires '\t' !in url && '\t' !in filename
    ensures var nv := NameVersion(filename);
      Split(ShowListPackage(title, date, owner, url, filename), "\t")
        == [url, ComposeTitle(nv.0, nv.1, title), Sanitize(owner), Strip(Sanitize(date), Whitespace)]
  {
    var nv := NameVersion(filename);
    TabFreeContains(filename, nv.0);
    TabFreeContains(filename, nv.1);
    StripTabFree(Sanitize(date));
    SplitFour(url, ComposeTitle(nv.0, nv.1, title), Sanitize(owner), Strip(Sanitize(date), Whitespace));
  }

  /** When the parsed version is empty only the name decides whether the title is kept. */
  lemma UnversionedTitle(name: string, title: string)
    ensures ComposeTitle(name, "", title) == Sanitize(title) <==> Contains(Sanitize(title), name)
  {
    TitleKeptIff(name, "", title);
    assert ContainsAt(Sanitize(title), "", 0);
  }

  /** `tof-v0.2.0-objects.txt` */
  const ObjectList := "tof" + VersionMarker + "0.2.0-objects.txt"

  lemma ObjectListStem()
    ensures Stem(ObjectList, ExternalsMarker) == ObjectList
  {
    // the `x` of the marker occurs in `.txt`; its `r` does not occur in the name
    assert ExternalsMarker[5] == 'r';
    StemWhole(ObjectList, ExternalsMarker, 'r');
  }

  lemma ObjectListSplit()
    ensures Split(ObjectList, VersionMarker) == ["tof", "0.2.0-objects.txt"]
  {
    assert VersionMarker[1] == 'v';
    SplitAt("tof", VersionMarker, "0.2.0-objects.txt", 1);
    SplitNone("0.2.0-objects.txt", VersionMarker, 'v');
  }

  /** An object list has no `-externals`, so its version keeps the rest of the file name. */
  lemma ObjectListExample()
    ensures NameVersion(ObjectList) == ("tof", "0.2.0-objects.txt")
  {
    ObjectListStem();
    ObjectListSplit();
    NameVersionClean(ObjectList, ExternalsMarker, "tof", "0.2.0-objects.txt");
  }
}
