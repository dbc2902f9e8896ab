/**
 * `getAllArticles`: which file to load for each article folder, loading
 * them all, dropping records without metadata and repeated slugs, and
 * ordering by date, newest first.
 */
module ArticleListing {
  import opened Wrappers
  import opened JsStrings
  import opened ContentStore
  import opened ArticleLoader
  import opened SlugIndex

  // ---------------------------------------------------------------------
  // Without a locale: a folder → file map, English locale files first.
  // ---------------------------------------------------------------------

  /** A JavaScript `Map` from folder to file: its keys in insertion order, and its entries. */
  datatype FolderFiles = FolderFiles(folders: seq<string>, files: map<string, string>)

  ghost predicate InsertionOrdered(ff: FolderFiles) {
    && (forall i, j :: 0 <= i < j < |ff.folders| ==> ff.folders[i] != ff.folders[j])
    && (forall f :: f in ff.files <==> f in ff.folders)
  }

  /** `map.set(folder, file)`: a new key goes last, an existing key keeps its place. */
  function SetFolder(ff: FolderFiles, folder: string, file: string): (r: FolderFiles)
    requires InsertionOrdered(ff)
    ensures InsertionOrdered(r)
    ensures r.files == ff.files[folder := file]
    ensures ff.folders <= r.folders
  {
    if folder in ff.files then FolderFiles(ff.folders, ff.files[folder := file])
    else FolderFiles(ff.folders + [folder], ff.files[folder := file])
  }

  /** `Array.from(map.values())` */
  function Values(ff: FolderFiles): (r: seq<string>)
    requires InsertionOrdered(ff)
    ensures |r| == |ff.folders|
    ensures forall i :: 0 <= i < |r| ==> r[i] == ff.files[ff.folders[i]]
  {
    seq(|ff.folders|, i requires 0 <= i < |ff.folders| => ff.files[ff.folders[i]])
  }

  /** The first pass: each English locale file under its folder. */
  function EnglishPass(files: seq<string>): (ff: FolderFiles)
    ensures InsertionOrdered(ff)
    decreases |files|
  {
    if files == [] then FolderFiles([], map[])
    else
      var ff := EnglishPass(files[..|files| - 1]);
      var f := files[|files| - 1];
      if Contains(f, LocalePage(En)) then SetFolder(ff, ReplaceFirst(f, LocalePage(En), ""), f) else ff
  }

  /** The second pass: each legacy file under its folder, unless the folder is already present. */
  function LegacyPass(ff0: FolderFiles, files: seq<string>): (ff: FolderFiles)
    requires InsertionOrdered(ff0)
    ensures InsertionOrdered(ff)
    decreases |files|
  {
    if files == [] then ff0
    else
      var ff := LegacyPass(ff0, files[..|files| - 1]);
      var f := files[|files| - 1];
      var folder := ReplaceFirst(f, PageFile, "");
      if folder !in ff.files then SetFolder(ff, folder, f) else ff
  }

  /** The folder → file map of the default listing. */
  function DefaultFolderFiles(store: Store): FolderFiles {
    LegacyPass(EnglishPass(LocaleFiles(store)), LegacyFiles(store))
  }

  /** The file `getAllArticles` loads for a folder: the locale's own page if the glob found it, else the legacy page. */
  function Preferred(folder: string, locale: Locale, localeFiles: seq<string>): string {
    if folder + LocalePage(locale) in localeFiles then folder + LocalePage(locale) else folder + PageFile
  }

  lemma {:induction false} EnglishPassFacts(files: seq<string>)
    requires forall f :: f in files ==> IsLocaleFile(f)
    ensures var ff := EnglishPass(files);
            && (forall folder :: folder in ff.files <==> folder + LocalePage(En) in files)
            && (forall folder :: folder in ff.files ==>
                  IsFolderName(folder) && ff.files[folder] == folder + LocalePage(En))
    decreases |files|
  {
    if files != [] {
      var init := files[..|files| - 1];
      var f := files[|files| - 1];
      assert forall g :: g in files <==> g in init || g == f;
      EnglishPassFacts(init);
      LocaleFileFolder(f, En);
    }
  }

  lemma {:induction false} LegacyPassFacts(ff0: FolderFiles, files: seq<string>)
    requires InsertionOrdered(ff0)
    requires forall f :: f in files ==> IsLegacyFile(f)
    ensures var ff := LegacyPass(ff0, files);
            && (forall folder :: folder in ff.files <==>
                  folder in ff0.files || (IsFolderName(folder) && folder + PageFile in files))
            && (forall folder :: folder in ff.files ==>
                  ff.files[folder] == if folder in ff0.files then ff0.files[folder] else folder + PageFile)
    decreases |files|
  {
    if files != [] {
      var init := files[..|files| - 1];
      var f := files[|files| - 1];
      assert forall g :: g in files <==> g in init || g == f;
      LegacyPassFacts(ff0, init);
      LegacyFileFolder(f);
    }
  }

  /**
   * Without a locale, one file per folder that has an English page or a
   * legacy page: the English page when there is one, else the legacy page.
   */
  lemma DefaultFilesChoice(store: Store)
    ensures var ff := DefaultFolderFiles(store);
            && (forall i, j :: 0 <= i < j < |ff.folders| ==> ff.folders[i] != ff.folders[j])
            && (forall folder :: folder in ff.folders <==> IsFolderName(folder) && HasEnglishSource(store, folder))
            && (forall i :: 0 <= i < |ff.folders| ==>
                  Values(ff)[i] == Preferred(ff.folders[i], En, LocaleFiles(store)))
  {
    var e := EnglishPass(LocaleFiles(store));
    EnglishPassFacts(LocaleFiles(store));
    LegacyPassFacts(e, LegacyFiles(store));
    forall folder | folder + LocalePage(En) in LocaleFiles(store) ensures IsFolderName(folder) {
      LocaleFileFolder(folder + LocalePage(En), En);
    }
  }

  // ---------------------------------------------------------------------
  // With a locale: legacy files then locale files, one per folder.
  // ---------------------------------------------------------------------

  /** The loop state: `uniqueFolders`, the folders in the order they were first seen, and `filesToProcess`. */
  datatype Picked = Picked(seen: set<string>, folders: seq<string>, files: seq<string>)

  /** The folder step: a folder seen for the first time gets its preferred file. */
  function AddFolder(p: Picked, folder: string, locale: Locale, localeFiles: seq<string>): Picked {
    if folder in p.seen then p
    else Picked(p.seen + {folder}, p.folders + [folder], p.files + [Preferred(folder, locale, localeFiles)])
  }

  /** One iteration: the locale's files and legacy files name a folder; the other locale's files are skipped. */
  function PickStep(p: Picked, file: string, locale: Locale, localeFiles: seq<string>): Picked {
    if Contains(file, LocalePage(locale)) then
      AddFolder(p, ReplaceFirst(file, LocalePage(locale), ""), locale, localeFiles)
    else if Contains(file, LocalePage(En)) || Contains(file, LocalePage(Fr)) then p
    else AddFolder(p, ReplaceFirst(file, PageFile, ""), locale, localeFiles)
  }

  function Pick(files: seq<string>, locale: Locale, localeFiles: seq<string>): Picked
    decreases |files|
  {
    if files == [] then Picked({}, [], [])
    else PickStep(Pick(files[..|files| - 1], locale, localeFiles), files[|files| - 1], locale, localeFiles)
  }

  /** The state after the loop over `[...legacyFiles, ...localeFiles]`. */
  function LocalePicked(store: Store, locale: Locale): Picked {
    Pick(LegacyFiles(store) + LocaleFiles(store), locale, LocaleFiles(store))
  }

  /** What the pick loop keeps true of the folders seen in `files`. */
  ghost predicate PickedFrom(p: Picked, files: seq<string>, locale: Locale, localeFiles: seq<string>) {
    && |p.files| == |p.folders|
    && (forall i, j :: 0 <= i < j < |p.folders| ==> p.folders[i] != p.folders[j])
    && (forall folder :: folder in p.seen <==> folder in p.folders)
    && (forall i :: 0 <= i < |p.folders| ==>
          IsFolderName(p.folders[i]) && p.files[i] == Preferred(p.folders[i], locale, localeFiles))
    && (forall folder :: IsFolderName(folder) ==>
          (folder in p.seen <==> folder + LocalePage(locale) in files || folder + PageFile in files))
  }

  /** A legacy page and a locale page are never the same path. */
  lemma PageShapesDiffer(folder: string, other: string, l: Locale)
    requires IsFolderName(folder)
    ensures folder + PageFile != other + LocalePage(l)
  {
    if |folder| == |other| + 3 {
      assert (other + LocalePage(l))[|other|] == '/';
      assert (folder + PageFile)[|other|] == folder[|other|];
    }
  }

  /** A file that names exactly `folder` keeps the loop's facts when `folder` is added. */
  lemma AddFolderKeeps(p: Picked, init: seq<string>, f: string, folder: string, locale: Locale, localeFiles: seq<string>)
    requires PickedFrom(p, init, locale, localeFiles)
    requires IsFolderName(folder)
    requires forall other :: IsFolderName(other) ==>
               ((f == other + LocalePage(locale) || f == other + PageFile) <==> other == folder)
    ensures PickedFrom(AddFolder(p, folder, locale, localeFiles), init + [f], locale, localeFiles)
  {
    var files := init + [f];
    assert forall g :: g in files <==> g in init || g == f;
  }

  /** A file that names no folder keeps the loop's facts unchanged. */
  lemma SkipKeeps(p: Picked, init: seq<string>, f: string, locale: Locale, localeFiles: seq<string>)
    requires PickedFrom(p, init, locale, localeFiles)
    requires forall other :: IsFolderName(other) ==> f != other + LocalePage(locale) && f != other + PageFile
    ensures PickedFrom(p, init + [f], locale, localeFiles)
  {
    var files := init + [f];
    assert forall g :: g in files <==> g in init || g == f;
  }

  /** A locale file names its folder only when it is of the loop's locale, and is skipped otherwise. */
  lemma PickStepKeepsLocale(p: Picked, init: seq<string>, f: string, locale: Locale, localeFiles: seq<string>)
    requires PickedFrom(p, init, locale, localeFiles)
    requires IsLocaleFile(f)
    ensures PickedFrom(PickStep(p, f, locale, localeFiles), init + [f], locale, localeFiles)
  {
    LocaleFileFolder(f, locale);
    forall folder | IsFolderName(folder) ensures f != folder + PageFile {
      var g, l' := LocaleFileShape(f);
      PageShapesDiffer(folder, g, l');
    }
    if Contains(f, LocalePage(locale)) {
      var folder := ReplaceFirst(f, LocalePage(locale), "");
      forall other | IsFolderName(other) && f == other + LocalePage(locale) ensures other == folder {
        assert |other| == |folder|;
        assert other == f[..|folder|];
      }
      AddFolderKeeps(p, init, f, folder, locale, localeFiles);
    } else {
      SkipKeeps(p, init, f, locale, localeFiles);
    }
  }

  /** A legacy file names its folder. */
  lemma PickStepKeepsLegacy(p: Picked, init: seq<string>, f: string, locale: Locale, localeFiles: seq<string>)
    requires PickedFrom(p, init, locale, localeFiles)
    requires IsLegacyFile(f)
    ensures PickedFrom(PickStep(p, f, locale, localeFiles), init + [f], locale, localeFiles)
  {
    LegacyFileFolder(f);
    forall folder | IsFolderName(folder) ensures f != folder + LocalePage(locale) {
      LocaleFilePatterns(folder, locale, locale);
    }
    AddFolderKeeps(p, init, f, ReplaceFirst(f, PageFile, ""), locale, localeFiles);
  }

  lemma PickStepKeeps(p: Picked, init: seq<string>, f: string, locale: Locale, localeFiles: seq<string>)
    requires PickedFrom(p, init, locale, localeFiles)
    requires IsLocaleFile(f) || IsLegacyFile(f)
    ensures PickedFrom(PickStep(p, f, locale, localeFiles), init + [f], locale, localeFiles)
  {
    if IsLocaleFile(f) {
      PickStepKeepsLocale(p, init, f, locale, localeFiles);
    } else {
      PickStepKeepsLegacy(p, init, f, locale, localeFiles);
    }
  }

  lemma {:induction false} PickFacts(files: seq<string>, locale: Locale, localeFiles: seq<string>)
    requires forall f :: f in files ==> IsLocaleFile(f) || IsLegacyFile(f)
    ensures PickedFrom(Pick(files, locale, localeFiles), files, locale, localeFiles)
    decreases |files|
  {
    if files != [] {
      var init := files[..|files| - 1];
      assert files == init + [files[|files| - 1]];
      PickFacts(init, locale, localeFiles);
      PickStepKeeps(Pick(init, locale, localeFiles), init, files[|files| - 1], locale, localeFiles);
    }
  }

  /**
   * With a locale, one file per folder that has a page of that locale or a
   * legacy page: the locale's page when the glob found it, else the legacy
   * page; a page of the other locale is never chosen.
   */
  lemma LocaleFilesChoice(store: Store, locale: Locale)
    ensures var p := LocalePicked(store, locale);
            && |p.files| == |p.folders|
            && (forall i, j :: 0 <= i < j < |p.folders| ==> p.folders[i] != p.folders[j])
            && (forall folder :: folder in p.folders <==>
                  IsFolderName(folder)
                  && (folder + LocalePage(locale) in LocaleFiles(store) || folder + PageFile in LegacyFiles(store)))
            && (forall i :: 0 <= i < |p.folders| ==> p.files[i] == Preferred(p.folders[i], locale, LocaleFiles(store)))
  {
    var all := LegacyFiles(store) + LocaleFiles(store);
    PickFacts(all, locale, LocaleFiles(store));
    forall folder | IsFolderName(folder)
      ensures folder + LocalePage(locale) in all <==> folder + LocalePage(locale) in LocaleFiles(store)
      ensures folder + PageFile in all <==> folder + PageFile in LegacyFiles(store)
    {
      LocaleFilePatterns(folder, locale, locale);
      if folder + LocalePage(locale) in LegacyFiles(store) {
        LegacyFileFolder(folder + LocalePage(locale));
      }
      if folder + PageFile in LocaleFiles(store) {
        var g, l' := LocaleFileShape(folder + PageFile);
        PageShapesDiffer(folder, g, l');
      }
    }
  }

  // ---------------------------------------------------------------------
  // Loading, de-duplicating and ordering.
  // ---------------------------------------------------------------------

  /** The files `getAllArticles` loads. */
  function FilesToProcess(store: Store, locale: Option<Locale>): seq<string> {
    match locale
    case None => Values(DefaultFolderFiles(store))
    case Some(l) => LocalePicked(store, l).files
  }

  /** `Promise.all(files.map(importArticle))`: every record, or an error if any load fails. */
  function ImportAll(store: Store, files: seq<string>, locale: Locale): (r: Result<seq<Option<ArticleWithSlug>>, Error>)
    ensures r.Ok? ==> |r.value| == |files|
    ensures r.Ok? ==> forall i :: 0 <= i < |files| ==> ImportArticle(store, files[i], locale) == Ok(r.value[i])
    ensures r.Err? <==> exists i :: 0 <= i < |files| && ImportArticle(store, files[i], locale).Err?
    decreases |files|
  {
    if files == [] then Ok([])
    else
      match ImportArticle(store, files[0], locale)
      case Err(e) => Err(e)
      case Ok(a) =>
        match ImportAll(store, files[1..], locale)
        case Err(e) =>
          var i :| 0 <= i < |files[1..]| && ImportArticle(store, files[1..][i], locale).Err?;
          assert files[i + 1] == files[1..][i];
          Err(e)
        case Ok(rest) =>
          assert forall i :: 0 < i < |files| ==> files[i] == files[1..][i - 1];
          Ok([a] + rest)
  }

  function SlugSet(articles: seq<ArticleWithSlug>): set<string> {
    set a | a in articles :: a.slug
  }

  predicate DistinctSlugs(articles: seq<ArticleWithSlug>) {
    forall i, j :: 0 <= i < j < |articles| ==> articles[i].slug != articles[j].slug
  }

  /**
   * The `seenSlugs` filter: records without metadata are dropped, and of
   * several records with one slug only the first is kept.
   */
  function Dedupe(xs: seq<Option<ArticleWithSlug>>): (r: seq<ArticleWithSlug>)
    ensures DistinctSlugs(r)
    ensures forall a :: a in r ==> Some(a) in xs
    ensures forall i :: 0 <= i < |xs| && xs[i].Some? ==> xs[i].value.slug in SlugSet(r)
    decreases |xs|
  {
    if xs == [] then []
    else
      var init := xs[..|xs| - 1];
      var d := Dedupe(init);
      var x := xs[|xs| - 1];
      assert forall i :: 0 <= i < |init| ==> xs[i] == init[i];
      if x.None? || x.value.slug in SlugSet(d) then d else d + [x.value]
  }

  /** A record whose slug no earlier record has is kept. */
  lemma {:induction false} DedupeKeepsFirst(xs: seq<Option<ArticleWithSlug>>, i: nat)
    requires i < |xs| && xs[i].Some?
    requires forall j :: 0 <= j < i && xs[j].Some? ==> xs[j].value.slug != xs[i].value.slug
    ensures xs[i].value in Dedupe(xs)
    decreases |xs|
  {
    var init := xs[..|xs| - 1];
    if i < |init| {
      DedupeKeepsFirst(init, i);
    } else {
      assert forall j :: 0 <= j < |init| ==> init[j] == xs[j];
    }
  }

  predicate SortedByDateDesc(articles: seq<ArticleWithSlug>) {
    forall i, j :: 0 <= i < j < |articles| ==> articles[i].date >= articles[j].date
  }

  /** Places `a` before the first record not newer than it. */
  function InsertByDate(a: ArticleWithSlug, sorted: seq<ArticleWithSlug>): (r: seq<ArticleWithSlug>)
    ensures multiset(r) == multiset(sorted) + multiset{a}
    ensures forall b :: b in r <==> b == a || b in sorted
    decreases |sorted|
  {
    if sorted == [] || sorted[0].date <= a.date then [a] + sorted
    else
      assert sorted == [sorted[0]] + sorted[1..];
      [sorted[0]] + InsertByDate(a, sorted[1..])
  }

  /** Inserting into a newest-first sequence keeps it newest first. */
  lemma {:induction false} InsertByDateSorted(a: ArticleWithSlug, sorted: seq<ArticleWithSlug>)
    requires SortedByDateDesc(sorted)
    ensures SortedByDateDesc(InsertByDate(a, sorted))
    decreases |sorted|
  {
    if !(sorted == [] || sorted[0].date <= a.date) {
      var tail := sorted[1..];
      InsertByDateSorted(a, tail);
      var rest := InsertByDate(a, tail);
      assert InsertByDate(a, sorted) == [sorted[0]] + rest;
      forall k | 0 <= k < |rest| ensures rest[k].date <= sorted[0].date {
        assert rest[k] in rest;
        if rest[k] != a {
          var m :| 0 <= m < |tail| && tail[m] == rest[k];
          assert sorted[m + 1] == rest[k];
        }
      }
    }
  }

  /** Inserting a record whose slug is new keeps slugs distinct. */
  lemma {:induction false} InsertByDateDistinct(a: ArticleWithSlug, sorted: seq<ArticleWithSlug>)
    ensures DistinctSlugs(sorted) && a.slug !in SlugSet(sorted) ==> DistinctSlugs(InsertByDate(a, sorted))
    decreases |sorted|
  {
    if !DistinctSlugs(sorted) || a.slug in SlugSet(sorted) {
    } else if sorted == [] || sorted[0].date <= a.date {
      assert forall k :: 0 <= k < |sorted| ==> sorted[k] in sorted;
    } else {
      var tail := sorted[1..];
      assert forall k :: 0 <= k < |tail| ==> tail[k] == sorted[k + 1];
      assert forall b :: b in tail ==> b in sorted;
      InsertByDateDistinct(a, tail);
      var rest := InsertByDate(a, tail);
      assert InsertByDate(a, sorted) == [sorted[0]] + rest;
      assert a.slug != sorted[0].slug;
      forall k | 0 <= k < |rest| ensures rest[k].slug != sorted[0].slug {
        assert rest[k] in rest;
        if rest[k] != a {
          var m :| 0 <= m < |tail| && tail[m] == rest[k];
          assert sorted[m + 1] == rest[k];
        }
      }
    }
  }

  /** `.sort((a, z) => date(z) - date(a))`: newest first, the same records, distinct slugs stay distinct. */
  function SortByDate(articles: seq<ArticleWithSlug>): (r: seq<ArticleWithSlug>)
    ensures SortedByDateDesc(r)
    ensures multiset(r) == multiset(articles)
    ensures DistinctSlugs(articles) ==> DistinctSlugs(r)
    decreases |articles|
  {
    if articles == [] then []
    else
      var sortedTail := SortByDate(articles[1..]);
      assert articles == [articles[0]] + articles[1..];
      InsertByDateSorted(articles[0], sortedTail);
      SortedTailFacts(articles, sortedTail);
      InsertByDateDistinct(articles[0], sortedTail);
      InsertByDate(articles[0], sortedTail)
  }

  /** The sorted tail holds the tail's records, so with distinct slugs the head's slug is not among them. */
  lemma SortedTailFacts(articles: seq<ArticleWithSlug>, sortedTail: seq<ArticleWithSlug>)
    requires articles != [] && multiset(sortedTail) == multiset(articles[1..])
    requires DistinctSlugs(articles[1..]) ==> DistinctSlugs(sortedTail)
    ensures DistinctSlugs(articles) ==> DistinctSlugs(sortedTail) && articles[0].slug !in SlugSet(sortedTail)
  {
    var tail := articles[1..];
    assert forall b :: b in sortedTail ==> b in tail by {
      forall b | b in sortedTail ensures b in tail {
        assert b in multiset(sortedTail);
      }
    }
    if DistinctSlugs(articles) {
      assert forall k, m :: 0 <= k < m < |tail| ==> tail[k] == articles[k + 1] && tail[m] == articles[m + 1];
      forall b | b in tail ensures b.slug != articles[0].slug {
        var k :| 0 <= k < |tail| && tail[k] == b;
        assert articles[k + 1] == b;
      }
    }
  }

  /** `getAllArticles(locale)`: the sorted, de-duplicated records, or the first load error. */
  function AllArticles(store: Store, locale: Option<Locale>): Result<seq<ArticleWithSlug>, Error> {
    var l := if locale.Some? then locale.value else En;
    match ImportAll(store, FilesToProcess(store, locale), l)
    case Err(e) => Err(e)
    case Ok(xs) => Ok(SortByDate(Dedupe(xs)))
  }

  /** The no-locale passes of `getAllArticles` over the two globs. */
  method CollectDefaultFiles(localeFiles: seq<string>, legacyFiles: seq<string>) returns (filesToProcess: seq<string>)
    ensures filesToProcess == Values(LegacyPass(EnglishPass(localeFiles), legacyFiles))
  {
    var folderToFile := FolderFiles([], map[]);
    for i := 0 to |localeFiles|
      invariant folderToFile == EnglishPass(localeFiles[..i])
    {
      var file := localeFiles[i];
      assert localeFiles[..i + 1][..i] == localeFiles[..i];
      if Contains(file, LocalePage(En)) {
        var folder := ReplaceFirst(file, LocalePage(En), "");
        folderToFile := SetFolder(folderToFile, folder, file);
      }
    }
    assert localeFiles[..|localeFiles|] == localeFiles;
    ghost var afterFirstPass := folderToFile;
    for i := 0 to |legacyFiles|
      invariant folderToFile == LegacyPass(afterFirstPass, legacyFiles[..i])
    {
      var file := legacyFiles[i];
      assert legacyFiles[..i + 1][..i] == legacyFiles[..i];
      var folder := ReplaceFirst(file, PageFile, "");
      if folder !in folderToFile.files {
        folderToFile := SetFolder(folderToFile, folder, file);
      }
    }
    assert legacyFiles[..|legacyFiles|] == legacyFiles;
    filesToProcess := Values(folderToFile);
  }

  /** One more file is one more step of the pick. */
  lemma PickSnoc(files: seq<string>, i: nat, locale: Locale, localeFiles: seq<string>)
    requires i < |files|
    ensures Pick(files[..i + 1], locale, localeFiles)
            == PickStep(Pick(files[..i], locale, localeFiles), files[i], locale, localeFiles)
  {
    assert files[..i + 1][..i] == files[..i];
  }

  /** The locale loop of `getAllArticles` over `[...legacyFiles, ...localeFiles]`. */
  method PickFilesToProcess(legacyFiles: seq<string>, localeFiles: seq<string>, locale: Locale)
    returns (filesToProcess: seq<string>)
    ensures filesToProcess == Pick(legacyFiles + localeFiles, locale, localeFiles).files
  {
    var allFiles := legacyFiles + localeFiles;
    var uniqueFolders: set<string> := {};
    ghost var folders: seq<string> := [];
    filesToProcess := [];
    for i := 0 to |allFiles|
      invariant Picked(uniqueFolders, folders, filesToProcess) == Pick(allFiles[..i], locale, localeFiles)
    {
      var file := allFiles[i];
      PickSnoc(allFiles, i, locale, localeFiles);
      var folder: string;
      if Contains(file, LocalePage(locale)) {
        folder := ReplaceFirst(file, LocalePage(locale), "");
      } else if Contains(file, LocalePage(En)) || Contains(file, LocalePage(Fr)) {
        continue;
      } else {
        folder := ReplaceFirst(file, PageFile, "");
      }
      if folder !in uniqueFolders {
        uniqueFolders := uniqueFolders + {folder};
        folders := folders + [folder];
        var localeFile := folder + LocalePage(locale);
        if localeFile in localeFiles {
          filesToProcess := filesToProcess + [localeFile];
        } else {
          filesToProcess := filesToProcess + [folder + PageFile];
        }
      }
    }
    assert allFiles[..|allFiles|] == allFiles;
  }

  /** The `seenSlugs` filter over the loaded records. */
  method DedupeBySlug(articles: seq<Option<ArticleWithSlug>>) returns (unique: seq<ArticleWithSlug>)
    ensures unique == Dedupe(articles)
  {
    var seenSlugs: set<string> := {};
    unique := [];
    for i := 0 to |articles|
      invariant unique == Dedupe(articles[..i])
      invariant seenSlugs == SlugSet(unique)
    {
      var article := articles[i];
      assert articles[..i + 1][..i] == articles[..i];
      if article.Some? && article.value.slug !in seenSlugs {
        seenSlugs := seenSlugs + {article.value.slug};
        unique := unique + [article.value];
      }
    }
    assert articles[..|articles|] == articles;
  }

  /** `getAllArticles(locale)`: distinct slugs, newest first. */
  method GetAllArticles(store: Store, locale: Option<Locale>) returns (r: Result<seq<ArticleWithSlug>, Error>)
    ensures r == AllArticles(store, locale)
    ensures r.Ok? ==> DistinctSlugs(r.value) && SortedByDateDesc(r.value)
  {
    var legacyFiles := LegacyFiles(store);
    var localeFiles := LocaleFiles(store);
    var filesToProcess: seq<string>;
    var l: Locale;
    if locale.None? {
      filesToProcess := CollectDefaultFiles(localeFiles, legacyFiles);
      l := En;
    } else {
      filesToProcess := PickFilesToProcess(legacyFiles, localeFiles, locale.value);
      l := locale.value;
    }
    var articles := ImportAll(store, filesToProcess, l);
    if articles.Err? {
      return Err(articles.error);
    }
    var unique := DedupeBySlug(articles.value);
    r := Ok(SortByDate(unique));
  }

  /**
   * Every listed record is the record of one of the files processed, and
   * every processed file's record has its slug listed (possibly through an
   * earlier record with the same slug).
   */
  lemma ListingRecords(store: Store, locale: Option<Locale>)
    requires AllArticles(store, locale).Ok?
    ensures var files := FilesToProcess(store, locale);
            var l := if locale.Some? then locale.value else En;
            var r := AllArticles(store, locale).value;
            && (forall a :: a in r ==>
                  exists i :: 0 <= i < |files| && ImportArticle(store, files[i], l) == Ok(Some(a)))
            && (forall i :: 0 <= i < |files| ==>
                  ImportArticle(store, files[i], l).Ok? && ImportArticle(store, files[i], l).value.Some? ==>
                  ImportArticle(store, files[i], l).value.value.slug in SlugSet(r))
  {
    var files := FilesToProcess(store, locale);
    var l := if locale.Some? then locale.value else En;
    var xs := ImportAll(store, files, l).value;
    var d := Dedupe(xs);
    var r := SortByDate(d);
    forall a | a in r ensures exists i :: 0 <= i < |files| && ImportArticle(store, files[i], l) == Ok(Some(a)) {
      assert a in multiset(r);
      assert Some(a) in xs;
      var i :| 0 <= i < |xs| && xs[i] == Some(a);
    }
    forall i | 0 <= i < |files| && ImportArticle(store, files[i], l).Ok? && ImportArticle(store, files[i], l).value.Some?
      ensures ImportArticle(store, files[i], l).value.value.slug in SlugSet(r)
    {
      var b :| b in d && b.slug == xs[i].value.slug;
      assert b in multiset(d);
      assert b in r;
    }
  }

  /**
   * A folder with only a French page is listed for French, but no slug maps
   * to it, so `getArticle` never loads it.
   */
  lemma FrenchOnlyFolderUnreachable(store: Store, folder: string)
    requires folder + LocalePage(Fr) in LocaleFiles(store)
    requires !HasEnglishSource(store, folder)
    ensures folder + LocalePage(Fr) in FilesToProcess(store, Some(Fr))
    ensures forall slug :: slug in SlugToFolder(store) ==> SlugToFolder(store)[slug] != folder
  {
    LocaleFileFolder(folder + LocalePage(Fr), Fr);
    LocaleFilesChoice(store, Fr);
    var p := LocalePicked(store, Fr);
    var i :| 0 <= i < |p.folders| && p.folders[i] == folder;
    assert p.files[i] == folder + LocalePage(Fr);
    forall slug | slug in SlugToFolder(store) ensures SlugToFolder(store)[slug] != folder {
      SlugMapFolders(store, slug);
    }
  }

  /** A folder's English page, when it exists, is one the locale glob found. */
  lemma EnglishPageGlobbed(store: Store, folder: string)
    requires Listed(store) && IsFolderName(folder)
    ensures folder + LocalePage(En) in store.docs <==> folder + LocalePage(En) in LocaleFiles(store)
    ensures folder + PageFile in store.docs <==> folder + PageFile in LegacyFiles(store)
  {
    FolderPaths(folder);
  }

  /**
   * Every slug the default (English) listing shows is in the slug map, and
   * `getArticle` loads it in English.
   */
  lemma EnglishListingResolves(store: Store, a: ArticleWithSlug)
    requires Listed(store)
    requires AllArticles(store, None).Ok? && a in AllArticles(store, None).value
    ensures a.slug in SlugToFolder(store)
    ensures ArticleFor(SlugToFolder(store), store, a.slug, En).Ok?
  {
    var files := FilesToProcess(store, None);
    ListingRecords(store, None);
    var i :| 0 <= i < |files| && ImportArticle(store, files[i], En) == Ok(Some(a));
    DefaultFilesChoice(store);
    var ff := DefaultFolderFiles(store);
    var folder := ff.folders[i];
    assert folder in ff.folders;
    EnglishPageGlobbed(store, folder);
    if folder + LocalePage(En) in LocaleFiles(store) {
      ImportLocaleFile(store, folder, En);
    } else {
      ImportLegacyFile(store, folder, En);
    }
    SlugMapCovers(store, folder);
    var owner := SlugToFolder(store)[a.slug];
    SlugMapFolders(store, a.slug);
    EnglishPageGlobbed(store, owner);
  }

  /**
   * No folder keeps a legacy page beside its English page. When one does,
   * the legacy page still claims its own slug for the folder, while the
   * listing and `getArticle` show the English page.
   */
  ghost predicate NoShadowedLegacyPage(store: Store) {
    forall folder :: folder + LocalePage(En) in store.docs ==> folder + PageFile !in store.docs
  }

  /**
   * When no legacy page sits beside an English page, the article that
   * `getArticle` loads for a slug of the English listing carries that slug.
   */
  lemma EnglishListingSlugMatches(store: Store, a: ArticleWithSlug)
    requires Listed(store) && NoShadowedLegacyPage(store)
    requires AllArticles(store, None).Ok? && a in AllArticles(store, None).value
    ensures a.slug in SlugToFolder(store)
    ensures var r := ArticleFor(SlugToFolder(store), store, a.slug, En);
            r.Ok? && SlugOf(r.value.article, SlugToFolder(store)[a.slug]) == a.slug
  {
    EnglishListingResolves(store, a);
    var owner := SlugToFolder(store)[a.slug];
    SlugMapFolders(store, a.slug);
    EnglishPageGlobbed(store, owner);
    if owner + LocalePage(En) in store.docs {
      assert owner + PageFile !in store.docs;
    }
  }
}
