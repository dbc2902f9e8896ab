/**
 * The read-only content store under `src/app/articles` as the article
 * loader sees it: which relative paths exist, what importing a content file
 * yields (its `article` front matter, its rendered body, its raw text), and
 * what importing an image asset yields. Globbing, dynamic `import()` and
 * `existsSync` are lookups in this store.
 */
module ContentStore {
  import opened Wrappers
  import opened JsStrings

  datatype Locale = En | Fr

  /** The locale's directory name, as in `folder/<locale>/page.mdx`. */
  function Dir(l: Locale): string {
    if l == En then "en" else "fr"
  }

  function Opposite(l: Locale): Locale {
    if l == En then Fr else En
  }

  /**
   * The `article` export of a content file. An absent field is the empty
   * string; `date` is the publication date as an ordered key.
   */
  datatype Meta = Meta(
    title: string, description: string, author: string,
    date: int, lang: Option<string>, slug: string)

  /** The record built by spreading an absent `article` export. */
  const NoMeta := Meta("", "", "", 0, None, "")

  /** A content file: its `article` export (if any), its default export (the rendered body), its raw text. */
  datatype Doc = Doc(article: Option<Meta>, body: string, source: string)

  /** What importing an image yields (`mod.default ?? mod`): a URL string, an object with or without a string `src`, or anything else. */
  datatype Asset = UrlString(url: string) | ImageObject(src: Option<string>) | OtherValue

  /**
   * The store: the paths in the order the file system lists them, the
   * content files by relative path, and the image assets by relative path.
   */
  datatype Store = Store(listing: seq<string>, docs: map<string, Doc>, assets: map<string, Asset>)

  /** Why a load fails: an unknown slug, or an import of a path that does not exist. */
  datatype Error = ArticleNotFound(slug: string) | ModuleNotFound(path: string)

  const PageFile := "/page.mdx"
  const TranslatedFile := "/translated.mdx"

  /** `/<locale>/page.mdx` */
  function LocalePage(l: Locale): string {
    "/" + Dir(l) + PageFile
  }

  /** What the glob wildcard `*` matches: one non-empty path segment that is not hidden. */
  predicate IsFolderName(f: string) {
    f != [] && f[0] != '.' && Free(f, '/')
  }

  /** A path matched by the legacy glob: `<folder>/page.mdx`. */
  predicate IsLegacyFile(p: string) {
    |p| > |PageFile| && EndsWith(p, PageFile) && IsFolderName(p[..|p| - |PageFile|])
  }

  /** A path matched by the locale glob: `<folder>/en/page.mdx` or `<folder>/fr/page.mdx`. */
  predicate IsLocaleFile(p: string) {
    |p| > |LocalePage(En)|
    && (EndsWith(p, LocalePage(En)) || EndsWith(p, LocalePage(Fr)))
    && IsFolderName(p[..|p| - |LocalePage(En)|])
  }

  /** The legacy glob or the locale glob over the listing, in listing order. */
  function Glob(paths: seq<string>, docs: map<string, Doc>, legacy: bool): (r: seq<string>)
    decreases |paths|
    ensures forall p :: p in r ==> p in docs
    ensures forall p :: p in r <==>
              p in paths && p in docs && (if legacy then IsLegacyFile(p) else IsLocaleFile(p))
  {
    if paths == [] then []
    else
      var rest := Glob(paths[1..], docs, legacy);
      var p := paths[0];
      if p in docs && (if legacy then IsLegacyFile(p) else IsLocaleFile(p)) then [p] + rest else rest
  }

  function LegacyFiles(store: Store): seq<string> {
    Glob(store.listing, store.docs, true)
  }

  function LocaleFiles(store: Store): seq<string> {
    Glob(store.listing, store.docs, false)
  }

  /** `await import(path)`: the file's exports, or the error it throws when the path does not exist. */
  function Import(store: Store, path: string): (r: Result<Doc, Error>)
    ensures r.Ok? <==> path in store.docs
    ensures r.Ok? ==> r.value == store.docs[path]
  {
    if path in store.docs then Ok(store.docs[path]) else Err(ModuleNotFound(path))
  }

  /** `article?.slug || folder`: the explicit slug when present and non-empty, else the folder name. */
  function SlugOf(article: Option<Meta>, folder: string): (slug: string)
    ensures article.Some? && article.value.slug != "" ==> slug == article.value.slug
    ensures !(article.Some? && article.value.slug != "") ==> slug == folder
  {
    if article.Some? && article.value.slug != "" then article.value.slug else folder
  }

  // ---------------------------------------------------------------------
  // The string operations on globbed paths: which patterns a path contains
  // and what replacing them leaves.
  // ---------------------------------------------------------------------

  lemma LocalePageIndex(l: Locale, l': Locale)
    ensures IndexOf(LocalePage(l), LocalePage(l')) == if l == l' then Some(0) else None
  {
    var s, p := LocalePage(l), LocalePage(l');
    assert OccursAt(p, p, 0);
    if l != l' {
      assert s[1] != p[1];
      assert s[0..|p|][1] == s[1];
    }
  }

  lemma PageFileIndex()
    ensures IndexOf(PageFile, PageFile) == Some(0)
    ensures forall l :: IndexOf(PageFile, LocalePage(l)) == None
  {
    assert OccursAt(PageFile, PageFile, 0);
  }

  /** In `F/<l>/page.mdx`, the pattern `/<l'>/page.mdx` occurs exactly when l == l', and removing it leaves F. */
  lemma LocaleFilePatterns(f: string, l: Locale, l': Locale)
    requires IsFolderName(f)
    ensures Contains(f + LocalePage(l), LocalePage(l')) <==> l == l'
    ensures ReplaceFirst(f + LocalePage(l), LocalePage(l), "") == f
  {
    LocalePageIndex(l, l');
    IndexOfPastSlashFree(f, LocalePage(l), LocalePage(l'));
    StripSuffixPastSlashFree(f, LocalePage(l));
  }

  /** A legacy `F/page.mdx` contains no locale pattern; removing `/page.mdx` leaves F. */
  lemma LegacyFilePatterns(f: string)
    requires IsFolderName(f)
    ensures forall l :: !Contains(f + PageFile, LocalePage(l))
    ensures Contains(f + PageFile, PageFile)
    ensures ReplaceFirst(f + PageFile, PageFile, "") == f
    ensures ReplaceFirst(f + PageFile, PageFile, TranslatedFile) == f + TranslatedFile
  {
    PageFileIndex();
    forall l ensures !Contains(f + PageFile, LocalePage(l)) {
      IndexOfPastSlashFree(f, PageFile, LocalePage(l));
    }
    IndexOfPastSlashFree(f, PageFile, PageFile);
    assert (f + PageFile)[..|f|] == f;
    assert (f + PageFile)[|f| + |PageFile|..] == [];
  }

  /** A legacy glob match is `F/page.mdx` for the folder F it names. */
  lemma LegacyFileShape(p: string)
    requires IsLegacyFile(p)
    ensures var f := p[..|p| - |PageFile|]; IsFolderName(f) && p == f + PageFile
  {
    assert p == p[..|p| - |PageFile|] + p[|p| - |PageFile|..];
  }

  /** A locale glob match is `F/<l>/page.mdx` for the folder F and the locale l it names. */
  lemma LocaleFileShape(p: string) returns (f: string, l: Locale)
    requires IsLocaleFile(p)
    ensures IsFolderName(f) && p == f + LocalePage(l)
  {
    f := p[..|p| - |LocalePage(En)|];
    l := if EndsWith(p, LocalePage(En)) then En else Fr;
    assert p == f + p[|p| - |LocalePage(En)|..];
  }

  /**
   * For a locale glob match: it contains the pattern of locale `l` exactly
   * when it is `F/<l>/page.mdx`, removing the pattern then leaves the folder
   * F, and a match not of locale `l` is of the other locale.
   */
  lemma LocaleFileFolder(f: string, l: Locale)
    requires IsLocaleFile(f)
    ensures Contains(f, LocalePage(l)) ==>
              var folder := ReplaceFirst(f, LocalePage(l), "");
              IsFolderName(folder) && f == folder + LocalePage(l)
    ensures !Contains(f, LocalePage(l)) ==> Contains(f, LocalePage(Opposite(l)))
    ensures forall folder :: f == folder + LocalePage(l) ==> IsFolderName(folder) && Contains(f, LocalePage(l))
  {
    var folder, l' := LocaleFileShape(f);
    LocaleFilePatterns(folder, l', l);
    LocaleFilePatterns(folder, l', Opposite(l));
    forall folder' | f == folder' + LocalePage(l) ensures folder' == folder {
      assert |folder'| == |folder|;
      assert folder' == f[..|folder|] == folder;
    }
  }

  /** For a legacy glob match `F/page.mdx`: no locale pattern occurs in it, and removing `/page.mdx` leaves F. */
  lemma LegacyFileFolder(f: string)
    requires IsLegacyFile(f)
    ensures var folder := ReplaceFirst(f, PageFile, "");
            IsFolderName(folder) && f == folder + PageFile
            && ReplaceFirst(f, PageFile, TranslatedFile) == folder + TranslatedFile
    ensures forall l :: !Contains(f, LocalePage(l))
    ensures forall folder :: f == folder + PageFile ==> folder == ReplaceFirst(f, PageFile, "")
  {
    LegacyFileShape(f);
    var folder := f[..|f| - |PageFile|];
    LegacyFilePatterns(folder);
    forall folder' | f == folder' + PageFile ensures folder' == folder {
      assert |folder'| == |folder|;
      assert folder' == f[..|folder|];
    }
  }

  /** The paths of a folder have the shapes the globs match. */
  lemma FolderPaths(folder: string)
    requires IsFolderName(folder)
    ensures IsLegacyFile(folder + PageFile)
    ensures forall l :: IsLocaleFile(folder + LocalePage(l))
  {
    assert (folder + PageFile)[..|folder|] == folder;
    assert (folder + LocalePage(En))[..|folder|] == folder;
    assert (folder + LocalePage(Fr))[..|folder|] == folder;
  }

  /** Every content file is listed: the globs see every page that exists. */
  predicate Listed(store: Store) {
    forall p :: p in store.docs ==> p in store.listing
  }
}
