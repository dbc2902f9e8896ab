/**
 * Loading one article: the locale-specific file first, then the legacy
 * single-file layout (English: the legacy `page.mdx`; French: metadata from
 * the legacy `page.mdx`, body from `translated.mdx`), and the listing record
 * `importArticle` builds from a globbed file.
 */
module ArticleLoader {
  import opened Wrappers
  import opened JsStrings
  import opened ContentStore

  /** A listing record: the article's metadata with the computed slug, its folder and whether another language exists. */
  datatype ArticleWithSlug = ArticleWithSlug(
    title: string, description: string, author: string, date: int, lang: Option<string>,
    slug: string, folder: string, hasTranslation: bool)

  /** What `getArticle` resolves to: the `article` metadata (if any) and the rendered body. */
  datatype ArticleModule = ArticleModule(article: Option<Meta>, body: string)

  function ModuleOf(doc: Doc): ArticleModule {
    ArticleModule(doc.article, doc.body)
  }

  /** `{ ...mainModule.article, lang: 'fr' }` */
  function FrenchSplice(main: Option<Meta>): (m: Meta)
    ensures m.lang == Some("fr")
    ensures main.Some? ==> m == main.value.(lang := Some("fr"))
  {
    (if main.Some? then main.value else NoMeta).(lang := Some("fr"))
  }

  /**
   * The fallback chain shared by `importArticle` and `getArticle`: the
   * locale-specific file if it exists; otherwise, for English the legacy
   * file, for French the legacy file's metadata (marked French) with the
   * translated file's body. A missing file on the fallback path is an error.
   */
  function LoadArticle(store: Store, localePath: string, legacyPath: string,
                       translatedPath: string, locale: Locale): (r: Result<ArticleModule, Error>)
    ensures localePath in store.docs ==> r == Ok(ModuleOf(store.docs[localePath]))
    ensures localePath !in store.docs && locale == En ==>
              (r.Ok? <==> legacyPath in store.docs)
              && (r.Ok? ==> r.value == ModuleOf(store.docs[legacyPath]))
    ensures localePath !in store.docs && locale == Fr ==>
              (r.Ok? <==> legacyPath in store.docs && translatedPath in store.docs)
              && (r.Ok? ==> r.value == ArticleModule(
                                Some(FrenchSplice(store.docs[legacyPath].article)),
                                store.docs[translatedPath].body))
    ensures r.Err? ==> r.error.ModuleNotFound?
  {
    if localePath in store.docs then Ok(ModuleOf(store.docs[localePath]))
    else if locale == En then
      match Import(store, legacyPath)
      case Err(e) => Err(e)
      case Ok(doc) => Ok(ModuleOf(doc))
    else
      match Import(store, legacyPath)
      case Err(e) => Err(e)
      case Ok(main) =>
        match Import(store, translatedPath)
        case Err(e) => Err(e)
        case Ok(translated) => Ok(ArticleModule(Some(FrenchSplice(main.article)), translated.body))
  }

  /** `existsSync` of the other locale's file or of `translated.mdx` in the folder. */
  predicate HasTranslation(store: Store, folder: string, locale: Locale) {
    folder + LocalePage(Opposite(locale)) in store.docs || folder + TranslatedFile in store.docs
  }

  /** The record built from a loaded `article` export; none when the file exports no metadata. */
  function WithSlug(store: Store, article: Option<Meta>, folder: string, locale: Locale): (a: Option<ArticleWithSlug>)
    ensures a.Some? <==> article.Some?
    ensures a.Some? ==> a.value.slug == SlugOf(article, folder) && a.value.folder == folder
    ensures a.Some? ==> a.value.hasTranslation == HasTranslation(store, folder, locale)
    ensures a.Some? ==> var m := article.value;
              a.value.title == m.title && a.value.description == m.description
              && a.value.author == m.author && a.value.date == m.date && a.value.lang == m.lang
  {
    match article
    case None => None
    case Some(m) =>
      Some(ArticleWithSlug(m.title, m.description, m.author, m.date, m.lang,
                           SlugOf(article, folder), folder, HasTranslation(store, folder, locale)))
  }

  /**
   * `importArticle(file, locale)`: a file containing `/<locale>/page.mdx` is
   * imported directly; another file ending in `/page.mdx` goes through the
   * fallback chain for its folder; anything else yields no article.
   */
  function ImportArticle(store: Store, file: string, locale: Locale): (r: Result<Option<ArticleWithSlug>, Error>)
    ensures Contains(file, LocalePage(locale)) ==>
              r == if file in store.docs
                   then Ok(WithSlug(store, store.docs[file].article, ReplaceFirst(file, LocalePage(locale), ""), locale))
                   else Err(ModuleNotFound(file))
    ensures !Contains(file, LocalePage(locale)) && EndsWith(file, PageFile) ==>
              var folder := ReplaceFirst(file, PageFile, "");
              var m := LoadArticle(store, folder + LocalePage(locale), file,
                                   ReplaceFirst(file, PageFile, TranslatedFile), locale);
              r == if m.Ok? then Ok(WithSlug(store, m.value.article, folder, locale)) else Err(m.error)
    ensures !Contains(file, LocalePage(locale)) && !EndsWith(file, PageFile) ==> r == Ok(None)
    ensures r.Err? ==> r.error.ModuleNotFound?
    ensures r.Ok? && r.value.Some? ==> r.value.value.hasTranslation == HasTranslation(store, r.value.value.folder, locale)
  {
    if Contains(file, LocalePage(locale)) then
      match Import(store, file)
      case Err(e) => Err(e)
      case Ok(doc) => Ok(WithSlug(store, doc.article, ReplaceFirst(file, LocalePage(locale), ""), locale))
    else if EndsWith(file, PageFile) then
      var folder := ReplaceFirst(file, PageFile, "");
      match LoadArticle(store, folder + LocalePage(locale), file,
                        ReplaceFirst(file, PageFile, TranslatedFile), locale)
      case Err(e) => Err(e)
      case Ok(m) => Ok(WithSlug(store, m.article, folder, locale))
    else Ok(None)
  }

  /** The article a folder's files yield in a locale, by `getArticle`'s chain. */
  function LoadFolder(store: Store, folder: string, locale: Locale): Result<ArticleModule, Error> {
    LoadArticle(store, folder + LocalePage(locale), folder + PageFile, folder + TranslatedFile, locale)
  }

  /** `getArticle(slug, locale)` against the slug map: an unknown slug is an error, a known one loads its folder. */
  function ArticleFor(slugToFolder: map<string, string>, store: Store, slug: string, locale: Locale)
    : (r: Result<ArticleModule, Error>)
    ensures slug !in slugToFolder ==> r == Err(ArticleNotFound(slug))
    ensures slug in slugToFolder && slugToFolder[slug] == "" ==> r == Err(ArticleNotFound(slug))
    ensures slug in slugToFolder && slugToFolder[slug] != "" ==> r == LoadFolder(store, slugToFolder[slug], locale)
  {
    if slug !in slugToFolder || slugToFolder[slug] == "" then Err(ArticleNotFound(slug))
    else LoadFolder(store, slugToFolder[slug], locale)
  }

  /** For a globbed locale file of the requested locale, the record comes from that file and names its folder. */
  lemma ImportLocaleFile(store: Store, folder: string, locale: Locale)
    requires IsFolderName(folder)
    ensures var file := folder + LocalePage(locale);
            ImportArticle(store, file, locale) ==
              if file in store.docs then Ok(WithSlug(store, store.docs[file].article, folder, locale))
              else Err(ModuleNotFound(file))
  {
    LocaleFilePatterns(folder, locale, locale);
  }

  /** For a legacy file, `importArticle` and `getArticle` walk the same chain for its folder. */
  lemma ImportLegacyFile(store: Store, folder: string, locale: Locale)
    requires IsFolderName(folder)
    ensures ImportArticle(store, folder + PageFile, locale) ==
              match LoadFolder(store, folder, locale)
              case Err(e) => Err(e)
              case Ok(m) => Ok(WithSlug(store, m.article, folder, locale))
  {
    LegacyFilePatterns(folder);
  }
}
