/**
 * The article module's entry points that share the slug map: building and
 * caching the map, `getArticle`, and `getArticleOgImageSrc`, which finds
 * the URL of an article's preview image. The process working directory is
 * a parameter; the file system is the content store.
 */
module Articles {
  import opened Wrappers
  import opened JsStrings
  import opened ContentStore
  import opened ArticleLoader
  import opened SlugIndex
  import opened NodePaths
  import opened PreviewImage

  /** `src/app/articles` below the working directory. */
  const ArticlesDir: seq<string> := ["src", "app", "articles"]

  /** A content file to read: its key in the store and its directory below the articles root. */
  datatype Candidate = Candidate(key: string, dir: seq<string>)

  /** `mdxCandidates.find(existsSync)`: the locale file first, then the legacy file. */
  function MdxCandidate(store: Store, folder: string, locale: Locale): (c: Option<Candidate>)
    ensures folder + LocalePage(locale) in store.docs ==>
              c == Some(Candidate(folder + LocalePage(locale), [folder, Dir(locale)]))
    ensures folder + LocalePage(locale) !in store.docs && folder + PageFile in store.docs ==>
              c == Some(Candidate(folder + PageFile, [folder]))
    ensures c.None? <==> folder + LocalePage(locale) !in store.docs && folder + PageFile !in store.docs
    ensures c.Some? ==> c.value.key in store.docs
  {
    if folder + LocalePage(locale) in store.docs then Some(Candidate(folder + LocalePage(locale), [folder, Dir(locale)]))
    else if folder + PageFile in store.docs then Some(Candidate(folder + PageFile, [folder]))
    else None
  }

  /**
   * The check applied to the resolved image before it is imported: the
   * program's test that the printed image path starts with the printed root
   * path, or the intended test that the root is a prefix of the image path
   * segment by segment.
   */
  datatype RootGuard = StringPrefix | SegmentPrefix

  predicate Admits(guard: RootGuard, root: seq<string>, image: seq<string>) {
    match guard
    case StringPrefix => RootGuardAsWritten(root, image)
    case SegmentPrefix => WithinRoot(root, image)
  }

  /**
   * Where the chosen import of a content file resolves, relative to the
   * file's directory; none without image imports, and none when the guard
   * rejects the resolved path.
   */
  function ImagePath(guard: RootGuard, root: seq<string>, mdxPath: seq<string>, mdx: string): (image: Option<seq<string>>)
    ensures ImageImports(mdx, 0) == [] ==> image.None?
    ensures image.Some? ==> Admits(guard, root, image.value)
    ensures ChosenImportPath(mdx).Some? ==>
              var resolved := Resolve(Dirname(mdxPath), ChosenImportPath(mdx).value);
              image == if Admits(guard, root, resolved) then Some(resolved) else None
    ensures image.Some? ==> exists i :: 0 <= i < |ImageImports(mdx, 0)|
                              && image.value == Resolve(Dirname(mdxPath), ImageImports(mdx, 0)[i].from)
  {
    match ChosenImportPath(mdx)
    case None => None
    case Some(from) =>
      var image := Resolve(Dirname(mdxPath), from);
      if Admits(guard, root, image) then Some(image) else None
  }

  /** `toPosixPath(relative(articlesRootAbs, imageAbsPath))`: the path the asset is imported by. */
  function AssetKey(root: seq<string>, image: seq<string>): string {
    ToPosixPath(Join(Relative(root, image), "/"))
  }

  /** `mod.default ?? mod` as a URL: a string, or an object's string `src`; none for a missing asset or any other value. */
  function AssetSrc(store: Store, key: string): (src: Option<string>)
    ensures src.Some? <==> key in store.assets
                            && (store.assets[key].UrlString? || (store.assets[key].ImageObject? && store.assets[key].src.Some?))
    ensures src.Some? && store.assets[key].UrlString? ==> src.value == store.assets[key].url
    ensures src.Some? && store.assets[key].ImageObject? ==> src == store.assets[key].src
  {
    if key !in store.assets then None
    else
      match store.assets[key]
      case UrlString(url) => Some(url)
      case ImageObject(src) => src
      case OtherValue => None
  }

  /**
   * `getArticleOgImageSrc(slug, locale)` under a root guard: total, it
   * never fails. It is none for an unknown slug, for a folder without a
   * locale or legacy page, and whenever the guard rejects the image or the
   * image does not load as a URL. The program uses `StringPrefix`.
   */
  function OgImageSrc(guard: RootGuard, store: Store, cwd: seq<string>, slugToFolder: map<string, string>,
                      slug: string, locale: Locale): (src: Option<string>)
    ensures slug !in slugToFolder ==> src.None?
    ensures src.Some? ==> var folder := slugToFolder[slug];
              folder + LocalePage(locale) in store.docs || folder + PageFile in store.docs
    ensures src.Some? ==> exists image :: Admits(guard, cwd + ArticlesDir, image)
                            && AssetSrc(store, AssetKey(cwd + ArticlesDir, image)) == src
  {
    if slug !in slugToFolder || slugToFolder[slug] == "" then None
    else
      var folder := slugToFolder[slug];
      var root := cwd + ArticlesDir;
      match MdxCandidate(store, folder, locale)
      case None => None
      case Some(c) =>
        match ImagePath(guard, root, root + c.dir + ["page.mdx"], store.docs[c.key].source)
        case None => None
        case Some(image) => AssetSrc(store, AssetKey(root, image))
  }

  /** The articles root and the directories of a folder's content files are normalised paths. */
  lemma ContentDirsNormal(cwd: seq<string>, folder: string, locale: Locale)
    requires Normal(cwd) && IsSegment(folder)
    ensures Normal(cwd + ArticlesDir + [folder])
    ensures Normal(cwd + ArticlesDir + [folder, Dir(locale)])
  {
    var root := cwd + ArticlesDir;
    assert IsSegment("src") && IsSegment("app") && IsSegment("articles");
    assert Normal(root) by {
      forall k | 0 <= k < |root| ensures IsSegment(root[k]) {
        if k >= |cwd| {
          assert root[k] == ArticlesDir[k - |cwd|];
        }
      }
    }
    assert IsSegment(Dir(locale));
    assert (root + [folder, Dir(locale)])[..|root|] == root;
  }

  /** A globbed folder name is one path segment. */
  lemma FolderIsSegment(folder: string)
    requires IsFolderName(folder)
    ensures IsSegment(folder)
  {
    assert folder[0] != '.';
    assert folder != "." && folder != "..";
  }

  /**
   * An image below the root: normalised, inside the root segment by
   * segment, and imported by its own segments after the root, none of
   * them `..`.
   */
  predicate BelowRoot(root: seq<string>, image: seq<string>) {
    && Normal(image) && WithinRoot(root, image)
    && AssetKey(root, image) == ToPosixPath(Join(image[|root|..], "/"))
    && (forall k :: |root| <= k < |image| ==> image[k] != "..")
  }

  /** From a normalised directory, an image the segment-wise guard admits is below the root. */
  lemma ImagePathBelowRoot(root: seq<string>, dir: seq<string>, mdx: string)
    requires Normal(root + dir)
    requires ImagePath(SegmentPrefix, root, root + dir + ["page.mdx"], mdx).Some?
    ensures BelowRoot(root, ImagePath(SegmentPrefix, root, root + dir + ["page.mdx"], mdx).value)
  {
    assert Dirname(root + dir + ["page.mdx"]) == root + dir;
    var image := ImagePath(SegmentPrefix, root, root + dir + ["page.mdx"], mdx).value;
    WithinRootStaysInside(root, image);
    assert forall k :: |root| <= k < |image| ==> image[k] == Relative(root, image)[k - |root|];
  }

  /**
   * Under the segment-wise guard, with the slug map the store yields and a
   * normalised working directory, a preview image is looked up only by a
   * path below the articles root.
   */
  lemma OgImageStaysInRoot(store: Store, cwd: seq<string>, slug: string, locale: Locale)
    requires Normal(cwd)
    requires OgImageSrc(SegmentPrefix, store, cwd, SlugToFolder(store), slug, locale).Some?
    ensures exists image :: BelowRoot(cwd + ArticlesDir, image)
              && OgImageSrc(SegmentPrefix, store, cwd, SlugToFolder(store), slug, locale)
                 == AssetSrc(store, AssetKey(cwd + ArticlesDir, image))
  {
    var folder := SlugToFolder(store)[slug];
    var root := cwd + ArticlesDir;
    SlugMapFolders(store, slug);
    FolderIsSegment(folder);
    var c := MdxCandidate(store, folder, locale).value;
    ContentDirsNormal(cwd, folder, locale);
    assert c.dir == [folder] || c.dir == [folder, Dir(locale)];
    ImagePathBelowRoot(root, c.dir, store.docs[c.key].source);
  }

  /** The cases where the preview image is none, in the order they are checked. */
  lemma OgImageNullCases(guard: RootGuard, store: Store, cwd: seq<string>, slugToFolder: map<string, string>,
                         slug: string, locale: Locale)
    requires slug in slugToFolder
    ensures var folder, root := slugToFolder[slug], cwd + ArticlesDir;
            var c := MdxCandidate(store, folder, locale);
            var src := OgImageSrc(guard, store, cwd, slugToFolder, slug, locale);
            && (folder == "" ==> src.None?)
            && (c.None? ==> src.None?)
            && (c.Some? && ImageImports(store.docs[c.value.key].source, 0) == [] ==> src.None?)
            && (c.Some? && ChosenImportPath(store.docs[c.value.key].source).Some?
                && !Admits(guard, root, Resolve(root + c.value.dir, ChosenImportPath(store.docs[c.value.key].source).value))
                ==> src.None?)
            && (c.Some? && ChosenImportPath(store.docs[c.value.key].source).Some?
                && AssetSrc(store, AssetKey(root, Resolve(root + c.value.dir,
                                                          ChosenImportPath(store.docs[c.value.key].source).value))).None?
                ==> src.None?)
  {
    var folder, root := slugToFolder[slug], cwd + ArticlesDir;
    var c := MdxCandidate(store, folder, locale);
    if c.Some? {
      assert Dirname(root + c.value.dir + ["page.mdx"]) == root + c.value.dir;
    }
  }

  /**
   * The preview image is the URL of the asset that the chosen import names,
   * resolved from the directory of the page read, provided the guard admits
   * that path; otherwise there is none.
   */
  lemma OgImageIsChosenAsset(guard: RootGuard, store: Store, cwd: seq<string>, slugToFolder: map<string, string>,
                             slug: string, locale: Locale)
    requires slug in slugToFolder && slugToFolder[slug] != ""
    requires MdxCandidate(store, slugToFolder[slug], locale).Some?
    ensures var c, root := MdxCandidate(store, slugToFolder[slug], locale).value, cwd + ArticlesDir;
            var mdx := store.docs[c.key].source;
            ChosenImportPath(mdx).Some? ==>
              var image := Resolve(root + c.dir, ChosenImportPath(mdx).value);
              OgImageSrc(guard, store, cwd, slugToFolder, slug, locale)
              == if Admits(guard, root, image) then AssetSrc(store, AssetKey(root, image)) else None
  {
    var c, root := MdxCandidate(store, slugToFolder[slug], locale).value, cwd + ArticlesDir;
    assert Dirname(root + c.dir + ["page.mdx"]) == root + c.dir;
  }

  /**
   * When the page uses an imported image, the preview image comes from the
   * last import declaring the first such name.
   */
  lemma OgImageOfFirstUsed(guard: RootGuard, store: Store, cwd: seq<string>, slugToFolder: map<string, string>,
                           slug: string, locale: Locale) returns (i: nat)
    requires slug in slugToFolder && slugToFolder[slug] != ""
    requires MdxCandidate(store, slugToFolder[slug], locale).Some?
    requires var mdx := store.docs[MdxCandidate(store, slugToFolder[slug], locale).value.key].source;
             FirstIn(UsedNames(mdx, 0), Names(ImageImports(mdx, 0))).Some?
    ensures var c, root := MdxCandidate(store, slugToFolder[slug], locale).value, cwd + ArticlesDir;
            var mdx := store.docs[c.key].source;
            var imports := ImageImports(mdx, 0);
            && i < |imports|
            && imports[i].name == FirstIn(UsedNames(mdx, 0), Names(imports)).value
            && (forall j :: i < j < |imports| ==> imports[j].name != imports[i].name)
            && var image := Resolve(root + c.dir, imports[i].from);
               OgImageSrc(guard, store, cwd, slugToFolder, slug, locale)
               == if Admits(guard, root, image) then AssetSrc(store, AssetKey(root, image)) else None
  {
    var c := MdxCandidate(store, slugToFolder[slug], locale).value;
    i := ChosenIsFirstUsed(store.docs[c.key].source);
    OgImageIsChosenAsset(guard, store, cwd, slugToFolder, slug, locale);
  }

  /** When the page uses no imported image, the preview image comes from the first import. */
  lemma OgImageWithoutUsage(guard: RootGuard, store: Store, cwd: seq<string>, slugToFolder: map<string, string>,
                            slug: string, locale: Locale)
    requires slug in slugToFolder && slugToFolder[slug] != ""
    requires MdxCandidate(store, slugToFolder[slug], locale).Some?
    requires var mdx := store.docs[MdxCandidate(store, slugToFolder[slug], locale).value.key].source;
             ImageImports(mdx, 0) != [] && FirstIn(UsedNames(mdx, 0), Names(ImageImports(mdx, 0))).None?
    ensures var c, root := MdxCandidate(store, slugToFolder[slug], locale).value, cwd + ArticlesDir;
            var mdx := store.docs[c.key].source;
            var image := Resolve(root + c.dir, ImageImports(mdx, 0)[0].from);
            OgImageSrc(guard, store, cwd, slugToFolder, slug, locale)
            == if Admits(guard, root, image) then AssetSrc(store, AssetKey(root, image)) else None
  {
    var c := MdxCandidate(store, slugToFolder[slug], locale).value;
    ChosenWithoutUsage(store.docs[c.key].source);
    OgImageIsChosenAsset(guard, store, cwd, slugToFolder, slug, locale);
  }

  /**
   * On one page the two guards agree except on an image that the string
   * test admits and that lies outside the root.
   */
  lemma ImagePathGuardsAgree(cwd: seq<string>, mdxPath: seq<string>, mdx: string)
    ensures var root := cwd + ArticlesDir;
            var program := ImagePath(StringPrefix, root, mdxPath, mdx);
            var intended := ImagePath(SegmentPrefix, root, mdxPath, mdx);
            && (intended.Some? ==> program == intended)
            && (program.Some? && intended.None? ==>
                  RootGuardAsWritten(root, program.value) && !WithinRoot(root, program.value))
  {
    var root := cwd + ArticlesDir;
    if ChosenImportPath(mdx).Some? {
      var image := Resolve(Dirname(mdxPath), ChosenImportPath(mdx).value);
      if WithinRoot(root, image) {
        WithinRootPassesGuard(root, image);
      }
    }
  }

  /**
   * The two guards agree except on images that the string test admits and
   * that lie outside the root: whatever the segment-wise guard yields, the
   * program yields too, and where only the program yields an image, it
   * comes from such an escaping path.
   */
  lemma GuardsDisagreeOnlyOutside(store: Store, cwd: seq<string>, slugToFolder: map<string, string>,
                                  slug: string, locale: Locale)
    ensures var root := cwd + ArticlesDir;
            var program := OgImageSrc(StringPrefix, store, cwd, slugToFolder, slug, locale);
            var intended := OgImageSrc(SegmentPrefix, store, cwd, slugToFolder, slug, locale);
            && (intended.Some? ==> program == intended)
            && (program.Some? && intended.None? ==>
                  exists image :: RootGuardAsWritten(root, image) && !WithinRoot(root, image)
                                  && AssetSrc(store, AssetKey(root, image)) == program)
  {
    var root := cwd + ArticlesDir;
    if slug in slugToFolder && slugToFolder[slug] != "" {
      var c := MdxCandidate(store, slugToFolder[slug], locale);
      if c.Some? {
        var mdxPath, mdx := root + c.value.dir + ["page.mdx"], store.docs[c.value.key].source;
        ImagePathGuardsAgree(cwd, mdxPath, mdx);
        var program := ImagePath(StringPrefix, root, mdxPath, mdx);
        if program.Some? && ImagePath(SegmentPrefix, root, mdxPath, mdx).None? {
          assert RootGuardAsWritten(root, program.value) && !WithinRoot(root, program.value);
        }
      }
    }
  }

  /** The import of the sibling example: `import a from '../../articles-old/a.png';` */
  const SiblingImport := ImageImport("a", "../../articles-old/a.png")

  /**
   * A store whose legacy page `post/page.mdx` holds only the sibling import,
   * with the asset stored under the key the program imports it by.
   */
  const SiblingStore := Store(
    ["post/page.mdx"],
    map["post/page.mdx" := Doc(None, "", ImportStatement(SiblingImport))],
    map["../articles-old/a.png" := UrlString("/_next/static/media/a.png")])

  /** The sibling import's path has no quote. */
  lemma SiblingQuoteFree()
    ensures QuoteFree(SiblingImport.from)
  {
    var from := SiblingImport.from;
    forall k | 0 <= k < |from| ensures !IsQuote(from[k]) {
      assert from[k] in "../../articles-old/a.png";
    }
  }

  /** The sibling import is one the import pattern accepts. */
  lemma SiblingWellFormed()
    ensures WellFormedImport(SiblingImport)
  {
    var from := SiblingImport.from;
    assert from[|from| - 4..] == ".png";
    SiblingQuoteFree();
  }

  /** The page's only import is the one chosen. */
  lemma SiblingChosen()
    ensures ChosenImportPath(SiblingStore.docs["post/page.mdx"].source) == Some(SiblingImport.from)
  {
    SiblingWellFormed();
    SingleImportChosen(SiblingImport);
  }

  /** `'../../articles-old/a.png'.split('/')` */
  lemma SiblingSplit()
    ensures Split(SiblingImport.from, '/') == [".."] + ([".."] + (["articles-old"] + ["a.png"]))
  {
    assert SiblingImport.from == ".." + ['/'] + (".." + ['/'] + ("articles-old" + ['/'] + "a.png"));
    SplitFour("..", "..", "articles-old", "a.png", '/');
  }

  /** Normalising the split sibling import from `<root>/post`. */
  lemma SiblingNormalizes(dir: seq<string>)
    ensures Normalize(dir + ["articles", "post"], [".."] + ([".."] + (["articles-old"] + ["a.png"])))
            == dir + ["articles-old", "a.png"]
  {
    NormalizeCons(dir + ["articles", "post"], "..", [".."] + (["articles-old"] + ["a.png"]));
    assert Step(dir + ["articles", "post"], "..") == dir + ["articles"];
    NormalizeCons(dir + ["articles"], "..", ["articles-old"] + ["a.png"]);
    assert Step(dir + ["articles"], "..") == dir;
    NormalizeCons(dir, "articles-old", ["a.png"]);
    NormalizeCons(dir + ["articles-old"], "a.png", []);
    assert ["a.png"] + [] == ["a.png"];
  }

  /** From `<root>/post`, the sibling import resolves into `articles-old`. */
  lemma SiblingResolves(dir: seq<string>)
    ensures Resolve(dir + ["articles", "post"], SiblingImport.from) == dir + ["articles-old", "a.png"]
  {
    SiblingSplit();
    assert SiblingImport.from[0] == '.';
    SiblingNormalizes(dir);
  }

  /** The sibling image's path relative to the root, joined with '/'. */
  lemma SiblingJoin()
    ensures Join(["..", "articles-old", "a.png"], "/") == "../articles-old/a.png"
  {
    JoinThree("..", "articles-old", "a.png", "/");
    assert ".." + "/" + ("articles-old" + "/" + "a.png") == "../articles-old/a.png";
  }

  /** The program imports that image by the key `../articles-old/a.png`. */
  lemma SiblingKey()
    ensures AssetKey(["srv"] + ArticlesDir, ["srv", "src", "app", "articles-old", "a.png"]) == "../articles-old/a.png"
  {
    RootGuardAsWrittenAdmitsSibling();
    assert ["srv"] + ArticlesDir == ["srv", "src", "app", "articles"];
    SiblingJoin();
    ToPosixPathPlain("../articles-old/a.png");
  }

  /** The folder `post` has only a legacy page, so that page is the candidate. */
  lemma SiblingCandidate()
    ensures MdxCandidate(SiblingStore, "post", En) == Some(Candidate("post/page.mdx", ["post"]))
  {
    assert "post" + PageFile == "post/page.mdx";
    assert |"post" + LocalePage(En)| != |"post/page.mdx"|;
  }

  /** From the page `<root>/post/page.mdx`, the chosen import resolves into `articles-old`. */
  lemma SiblingPageResolves()
    ensures var root := ["srv", "src", "app", "articles"];
            Resolve(Dirname(root + ["post"] + ["page.mdx"]), SiblingImport.from)
            == ["srv", "src", "app", "articles-old", "a.png"]
  {
    var root := ["srv", "src", "app", "articles"];
    assert Dirname(root + ["post"] + ["page.mdx"]) == ["srv", "src", "app"] + ["articles", "post"];
    SiblingResolves(["srv", "src", "app"]);
    assert ["srv", "src", "app"] + ["articles-old", "a.png"] == ["srv", "src", "app", "articles-old", "a.png"];
  }

  /** The program's guard admits the sibling image; the segment-wise guard does not. */
  lemma SiblingImagePath(guard: RootGuard)
    ensures var root := ["srv", "src", "app", "articles"];
            ImagePath(guard, root, root + ["post"] + ["page.mdx"], SiblingStore.docs["post/page.mdx"].source)
            == if guard == StringPrefix then Some(["srv", "src", "app", "articles-old", "a.png"]) else None
  {
    SiblingChosen();
    SiblingPageResolves();
    RootGuardAsWrittenAdmitsSibling();
  }

  /**
   * With working directory `/srv`, the program serves the image of the
   * sibling directory `src/app/articles-old`, which the segment-wise guard
   * rejects.
   */
  lemma SiblingImageServed()
    ensures OgImageSrc(StringPrefix, SiblingStore, ["srv"], map["post" := "post"], "post", En)
            == Some("/_next/static/media/a.png")
    ensures OgImageSrc(SegmentPrefix, SiblingStore, ["srv"], map["post" := "post"], "post", En) == None
  {
    var root := ["srv"] + ArticlesDir;
    assert root == ["srv", "src", "app", "articles"];
    SiblingCandidate();
    SiblingImagePath(StringPrefix);
    SiblingImagePath(SegmentPrefix);
    SiblingKey();
  }

  /**
   * The module-level state of the article module: the content store and
   * working directory it reads, and the slug map cached by the first call
   * that builds it.
   */
  class ArticleCache {
    const store: Store
    const cwd: seq<string>
    var slugToFolderCache: Option<map<string, string>>

    /** A cached map is the one the store yields. */
    ghost predicate Valid()
      reads this
    {
      slugToFolderCache.Some? ==> slugToFolderCache.value == SlugToFolder(store)
    }

    constructor(store: Store, cwd: seq<string>)
      ensures this.store == store && this.cwd == cwd
      ensures slugToFolderCache == None && Valid()
    {
      this.store := store;
      this.cwd := cwd;
      slugToFolderCache := None;
    }

    /**
     * `buildSlugToFolderMap`: the cached map when there is one; otherwise
     * English locale files, then legacy files, each claim a free slug for
     * its folder, and the result is cached.
     */
    method BuildSlugToFolderMap() returns (m: map<string, string>)
      requires Valid()
      modifies this
      ensures Valid()
      ensures m == SlugToFolder(store)
      ensures slugToFolderCache == Some(m)
      ensures old(slugToFolderCache).Some? ==> m == old(slugToFolderCache).value
    {
      if slugToFolderCache.Some? {
        return slugToFolderCache.value;
      }
      var localeFiles := LocaleFiles(store);
      var legacyFiles := LegacyFiles(store);
      m := map[];
      for i := 0 to |localeFiles|
        invariant m == ClaimAll(map[], EnglishClaims(store, localeFiles[..i]))
      {
        var file := localeFiles[i];
        EnglishClaimsSnoc(store, localeFiles, i);
        if Contains(file, LocalePage(En)) {
          var folder := ReplaceFirst(file, LocalePage(En), "");
          var slug := SlugOf(store.docs[file].article, folder);
          ClaimAllSnoc(map[], EnglishClaims(store, localeFiles[..i]), Claim(slug, folder));
          if slug !in m {
            m := m[slug := folder];
          }
        } else {
          assert EnglishClaims(store, localeFiles[..i + 1]) == EnglishClaims(store, localeFiles[..i]);
        }
      }
      assert localeFiles[..|localeFiles|] == localeFiles;
      var english := m;
      for i := 0 to |legacyFiles|
        invariant m == ClaimAll(english, LegacyClaims(store, legacyFiles[..i]))
      {
        var file := legacyFiles[i];
        LegacyClaimsSnoc(store, legacyFiles, i);
        var folder := ReplaceFirst(file, PageFile, "");
        var slug := SlugOf(store.docs[file].article, folder);
        ClaimAllSnoc(english, LegacyClaims(store, legacyFiles[..i]), Claim(slug, folder));
        if slug !in m {
          m := m[slug := folder];
        }
      }
      assert legacyFiles[..|legacyFiles|] == legacyFiles;
      ClaimAllAppend(map[], EnglishClaims(store, localeFiles), LegacyClaims(store, legacyFiles));
      slugToFolderCache := Some(m);
    }

    /** `getArticle(slug, locale)`: an unknown slug fails, a known one loads its folder by the fallback chain. */
    method GetArticle(slug: string, locale: Locale) returns (r: Result<ArticleModule, Error>)
      requires Valid()
      modifies this
      ensures Valid() && slugToFolderCache == Some(SlugToFolder(store))
      ensures r == ArticleFor(SlugToFolder(store), store, slug, locale)
    {
      var slugToFolder := BuildSlugToFolderMap();
      if slug !in slugToFolder || slugToFolder[slug] == "" {
        return Err(ArticleNotFound(slug));
      }
      var folder := slugToFolder[slug];
      r := LoadFolder(store, folder, locale);
    }

    /** `getArticleOgImageSrc(slug, locale)` */
    method GetArticleOgImageSrc(slug: string, locale: Locale) returns (src: Option<string>)
      requires Valid()
      modifies this
      ensures Valid() && slugToFolderCache == Some(SlugToFolder(store))
      ensures src == OgImageSrc(StringPrefix, store, cwd, SlugToFolder(store), slug, locale)
    {
      var slugToFolder := BuildSlugToFolderMap();
      src := OgImageSrc(StringPrefix, store, cwd, slugToFolder, slug, locale);
    }
  }
}
