/**
 * The category table of the folder sorter and its match test
 * `filename.lower().endswith('.' + extension)`.
 *
 * The sorter walks the table in its written order and, inside a category,
 * the extension set in an unspecified order. Because no extension in the
 * table contains a '.', and no extension belongs to two categories, at most
 * one (category, extension) pair can match a filename: `MatchUnique`.
 */
module Categories {
  import opened Wrappers
  import opened AsciiText

  datatype Category = Category(name: string, extensions: set<string>)

  /**
   * The table, in the order the sorter visits it. The Videos entry holds
   * the single extension "wmvmov": the two literals 'wmv' 'mov' are written
   * without a comma between them and so are concatenated.
   */
  const Table: seq<Category> := [
    Category("gDesktop Plugins", {"gg", "ggc"}),
    Category("Torrents", {"torrent"}),
    Category("Docs", {"doc", "xls", "ppt", "mdb", "pub",
                      "docx", "pptx", "xlsx", "pdf", "rtf",
                      "ppsx", "csv", "vcf", "txt", "text"}),
    Category("Images", {"jpg", "jpeg", "png", "gif", "psd",
                        "psb", "ai", "svg", "dng"}),
    Category("Videos", {"mpg", "mp4", "mkv", "srt", "wmvmov"}),
    Category("Audio", {"mp3", "wma"}),
    Category("Programming", {"py", "pyc", "pyo", "pyw", "pl", "v",
                             "c", "dat", "ecf", "unitypackage"}),
    Category("Executables", {"exe", "msi", "apk", "bat", "jar",
                             "jnlp", "swf", "reg", "vbox-extpack"}),
    Category("Compressed", {"rar", "zip", "iso", "tgz", "gz", "7z",
                            "ova"})
  ]

  const Images: nat := 3
  const Videos: nat := 4

  /**
   * The test the sorter applies to one filename and one extension: the
   * lower-cased name is some stem followed by '.' and the extension.
   */
  predicate Matches(filename: string, extension: string)
    ensures Matches(filename, extension) <==> exists stem :: Lower(filename) == stem + ("." + extension)
  {
    EndsWith(Lower(filename), "." + extension)
  }

  /** Some extension of category `k` matches `filename`. */
  predicate CategoryMatches(filename: string, k: nat)
    requires k < |Table|
  {
    exists e :: e in Table[k].extensions && Matches(filename, e)
  }

  /** The first of the first `n` categories that matches `filename`. */
  function FirstMatch(filename: string, n: nat): (r: Option<nat>)
    requires n <= |Table|
    ensures r.Some? ==> r.value < n && CategoryMatches(filename, r.value)
    ensures r.Some? ==> forall k: nat :: k < r.value ==> !CategoryMatches(filename, k)
    ensures r.None? ==> forall k: nat :: k < n ==> !CategoryMatches(filename, k)
  {
    if n == 0 then None
    else match FirstMatch(filename, n - 1)
      case Some(k) => Some(k)
      case None => if CategoryMatches(filename, n - 1) then Some(n - 1) else None
  }

  /**
   * The index of the category a file is sorted into: a category that
   * matches, and None exactly when no category matches.
   */
  function Classify(filename: string): (r: Option<nat>)
    ensures r.Some? ==> r.value < |Table| && CategoryMatches(filename, r.value)
    ensures r.None? ==> forall k :: 0 <= k < |Table| ==> !CategoryMatches(filename, k)
  {
    FirstMatch(filename, |Table|)
  }

  /** The position of the last '.' in `s`. */
  function LastDot(s: string): (r: Option<nat>)
    ensures r.Some? ==> r.value < |s| && s[r.value] == '.' && '.' !in s[r.value + 1..]
    ensures r.None? ==> '.' !in s
  {
    if s == [] then None
    else if s[|s| - 1] == '.' then Some(|s| - 1)
    else
      var r := LastDot(s[..|s| - 1]);
      assert s == s[..|s| - 1] + [s[|s| - 1]];
      r
  }

  /** The lower-cased text after the final '.' of a filename, if it has one. */
  function Extension(filename: string): Option<string> {
    var l := Lower(filename);
    match LastDot(l)
    case None => None
    case Some(i) => Some(l[i + 1..])
  }

  /** No extension of the table contains a '.'. */
  lemma NoDotInExtensions()
    ensures forall k, e :: 0 <= k < |Table| && e in Table[k].extensions ==> '.' !in e
  {
  }

  /** No extension belongs to two categories. */
  lemma ExtensionsDisjoint()
    ensures forall k1, k2, e ::
      0 <= k1 < |Table| && 0 <= k2 < |Table| && e in Table[k1].extensions && e in Table[k2].extensions
      ==> k1 == k2
  {
    Row0Disjoint(); Row1Disjoint(); Row2Disjoint(); Row3Disjoint();
    Row4Disjoint(); Row5Disjoint(); Row6Disjoint(); Row7Disjoint();
  }

  lemma Row0Disjoint()
    ensures forall j :: 0 < j < |Table| ==> Table[0].extensions !! Table[j].extensions
  {
  }

  lemma Row1Disjoint()
    ensures forall j :: 1 < j < |Table| ==> Table[1].extensions !! Table[j].extensions
  {
  }

  lemma Row2Disjoint()
    ensures forall j :: 2 < j < |Table| ==> Table[2].extensions !! Table[j].extensions
  {
    Row2DisjointFromMedia();
    Row2DisjointFromPrograms();
  }

  lemma Row2DisjointFromMedia()
    ensures Table[2].extensions !! Table[3].extensions
    ensures Table[2].extensions !! Table[4].extensions
    ensures Table[2].extensions !! Table[5].extensions
  {
    assert Table[2].extensions !! Table[3].extensions;
    assert Table[2].extensions !! Table[4].extensions;
  }

  lemma Row2DisjointFromPrograms()
    ensures Table[2].extensions !! Table[6].extensions
    ensures Table[2].extensions !! Table[7].extensions
    ensures Table[2].extensions !! Table[8].extensions
  {
    assert Table[2].extensions !! Table[6].extensions;
    assert Table[2].extensions !! Table[7].extensions;
  }

  lemma Row3Disjoint()
    ensures forall j :: 3 < j < |Table| ==> Table[3].extensions !! Table[j].extensions
  {
  }

  lemma Row4Disjoint()
    ensures forall j :: 4 < j < |Table| ==> Table[4].extensions !! Table[j].extensions
  {
  }

  lemma Row5Disjoint()
    ensures forall j :: 5 < j < |Table| ==> Table[5].extensions !! Table[j].extensions
  {
  }

  lemma Row6Disjoint()
    ensures forall j :: 6 < j < |Table| ==> Table[6].extensions !! Table[j].extensions
  {
  }

  lemma Row7Disjoint()
    ensures forall j :: 7 < j < |Table| ==> Table[7].extensions !! Table[j].extensions
  {
  }

  /**
   * For an extension without a '.', the suffix test holds exactly when the
   * extension is the text after the final '.' of the lower-cased name.
   */
  lemma MatchesIffExtension(filename: string, e: string)
    requires '.' !in e
    ensures Matches(filename, e) <==> Extension(filename) == Some(e)
  {
    var l := Lower(filename);
    var d := LastDot(l);
    if Matches(filename, e) {
      var p := |l| - |e| - 1;
      assert l[p..] == "." + e;
      assert l[p] == '.';
      assert l[p + 1..] == e;
    }
    if Extension(filename) == Some(e) {
      var i := d.value;
      assert l[i..] == "." + e;
    }
  }

  /** Two matching extensions are the same extension. */
  lemma MatchingExtensionsEqual(filename: string, e1: string, e2: string)
    requires '.' !in e1 && '.' !in e2
    requires Matches(filename, e1) && Matches(filename, e2)
    ensures e1 == e2
  {
    MatchesIffExtension(filename, e1);
    MatchesIffExtension(filename, e2);
  }

  /**
   * A category that matches is the category the file is classified into:
   * no other category can match the same name.
   */
  lemma {:induction false} MatchUnique(filename: string, k: nat)
    requires k < |Table| && CategoryMatches(filename, k)
    ensures Classify(filename) == Some(k)
  {
    var c := Classify(filename);
    assert c.Some?;
    var j := c.value;
    var e1 :| e1 in Table[k].extensions && Matches(filename, e1);
    var e2 :| e2 in Table[j].extensions && Matches(filename, e2);
    NoDotInExtensions();
    MatchingExtensionsEqual(filename, e1, e2);
    ExtensionsDisjoint();
  }

  /** A file is classified into `k` exactly when its extension is one of `k`'s. */
  lemma ClassifyByExtension(filename: string, k: nat)
    requires k < |Table|
    ensures Classify(filename) == Some(k) <==>
      Extension(filename).Some? && Extension(filename).value in Table[k].extensions
  {
    NoDotInExtensions();
    if Classify(filename) == Some(k) {
      var e :| e in Table[k].extensions && Matches(filename, e);
      MatchesIffExtension(filename, e);
    }
    if Extension(filename).Some? && Extension(filename).value in Table[k].extensions {
      MatchesIffExtension(filename, Extension(filename).value);
      MatchUnique(filename, k);
    }
  }

  /** A file whose extension is in no category is classified nowhere. */
  lemma UnclassifiedByExtension(filename: string)
    ensures Classify(filename).None? <==>
      forall k :: 0 <= k < |Table| ==>
        !(Extension(filename).Some? && Extension(filename).value in Table[k].extensions)
  {
    forall k | 0 <= k < |Table|
      ensures Classify(filename) == Some(k) <==>
        Extension(filename).Some? && Extension(filename).value in Table[k].extensions
    {
      ClassifyByExtension(filename, k);
    }
  }

  /** Classification only looks at the lower-cased name. */
  lemma ClassifyIgnoresCase(a: string, b: string)
    requires Lower(a) == Lower(b)
    ensures Classify(a) == Classify(b)
  {
    FirstMatchIgnoresCase(a, b, |Table|);
  }

  lemma {:induction false} FirstMatchIgnoresCase(a: string, b: string, n: nat)
    requires Lower(a) == Lower(b) && n <= |Table|
    ensures FirstMatch(a, n) == FirstMatch(b, n)
  {
    if n > 0 {
      FirstMatchIgnoresCase(a, b, n - 1);
      assert CategoryMatches(a, n - 1) == CategoryMatches(b, n - 1);
    }
  }

  /** A file whose extension is in no category is not sorted. */
  lemma UnknownExtensionIsUnsorted(filename: string)
    requires Extension(filename).Some?
    requires forall k :: 0 <= k < |Table| ==> Extension(filename).value !in Table[k].extensions
    ensures Classify(filename) == None
  {
    var c := Classify(filename);
    if c.Some? {
      ClassifyByExtension(filename, c.value);
    }
  }

  /** The extension of `stem + "." + ext` is `ext`, for a lower-case `ext` without a dot. */
  lemma ExtensionOfSuffixed(stem: string, ext: string)
    requires '.' !in ext && Lower(ext) == ext
    ensures Extension(stem + "." + ext) == Some(ext)
  {
    LowerAppend(stem, "." + ext);
    LowerAppend(".", ext);
    assert Lower(".") == ".";
    MatchesIffExtension(stem + "." + ext, ext);
  }

  /**
   * Because the literals 'wmv' 'mov' are concatenated, neither ".mov" nor
   * ".wmv" files are sorted at all.
   */
  lemma MovAndWmvAreUnsorted(stem: string, ext: string)
    requires ext == "mov" || ext == "wmv"
    ensures Classify(stem + "." + ext) == None
  {
    ExtensionOfSuffixed(stem, ext);
    HalvesOfWmvmovNotInTable();
    UnknownExtensionIsUnsorted(stem + "." + ext);
  }

  lemma HalvesOfWmvmovNotInTable()
    ensures forall k :: 0 <= k < |Table| ==> "mov" !in Table[k].extensions && "wmv" !in Table[k].extensions
  {
  }

  /** Only the concatenated extension ".wmvmov" reaches Videos. */
  lemma WmvmovIsAVideo(stem: string)
    ensures Classify(stem + ".wmvmov") == Some(Videos)
  {
    ExtensionOfSuffixed(stem, "wmvmov");
    assert stem + "." + "wmvmov" == stem + ".wmvmov";
    ClassifyByExtension(stem + ".wmvmov", Videos);
  }

  /** The match is case-insensitive on the filename: "photo.JPG" is an image. */
  lemma UpperCaseJpgIsAnImage()
    ensures Classify("photo.JPG") == Some(Images)
  {
    ClassifyIgnoresCase("photo.JPG", "photo.jpg");
    ExtensionOfSuffixed("photo", "jpg");
    assert "photo" + "." + "jpg" == "photo.jpg";
    ClassifyByExtension("photo.jpg", Images);
  }
}
