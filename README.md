# Articles, captions, language toggle, predictions and table of contents

This project models the content-resolution layer of a bilingual (English and
French) personal blog, together with four of its article components.

Articles live under `src/app/articles`. A folder is in one of two layouts:

- a legacy layout: `page.mdx`, plus an optional French body in `translated.mdx`;
- a partitioned layout: `en/page.mdx` and/or `fr/page.mdx`.

`src/lib/articles.ts` covers four operations.

- **Slug map.** It builds a slug → folder map and caches it for the life of the
  process. English locale pages claim their slug (the `article.slug` export, or
  the folder name) before legacy pages do, and a slug once claimed keeps its
  folder.
- **Loading one article.** `getArticle` and `importArticle` load an article
  through a fallback chain:
  1. the locale's own page;
  2. for English, the legacy page;
  3. for French, the legacy metadata tagged `lang: 'fr'` spliced with the body of
     `translated.mdx`.
- **Listing.** `getAllArticles` lists articles with one record per slug (the first
  one wins), newest first.
- **Preview image.** `getArticleOgImageSrc` finds a social-preview image. It scans
  the page's source for image imports and `<Image|Figure src={…}>` usages and
  picks the first import that is used. It resolves that import against the
  page's directory, checks that the printed result starts with the printed
  articles root, and returns the imported asset's URL.

The components are these:

- `Figure` splits a caption's markdown links `[text](href)` into text and link
  parts.
- `LanguageToggle` switches the path between `/en/articles…` and
  `/fr/articles…`. It holds `mounted`, `isLoading` and `hasTranslation`.
- `Prediction` maps a confidence score to a colour band and a label.
- `TableOfContents` numbers its entries, normalises anchors and indents
  level-3 entries.

The file system is a value, `ContentStore.Store`. It holds the listing order, the
content files with their `article` export, default export and raw text, and the
image assets. A dynamic `import` becomes `ContentStore.Import`, which fails
exactly when the path is absent. `process.cwd()` is a parameter. Paths in
`node_paths.dfy` are sequences of segments. Node's `resolve`, `dirname`,
`relative` and `join` are modelled there for absolute POSIX paths.

The three regular expressions are modelled as matchers tried at each index:
the import pattern of `extractImageImports`, the usage pattern of
`extractFirstUsedImageName` and the caption link pattern of `Figure`. A global
`exec` loop is the leftmost match at or after `lastIndex`
(`JsStrings.ExecFrom`).

## Model

| member | source | states |
|---|---|---|
| JsStrings.IndexFrom | src/lib/articles.ts:42 | `indexOf` finds the leftmost occurrence at or after the start index, and none means no occurrence anywhere after it |
| JsStrings.ReplaceFirst | src/lib/articles.ts:43 | a string pattern replaces only its first occurrence: the input is unchanged when the pattern is absent; otherwise the result is the text before the leftmost occurrence, the replacement, then the text after it, and the length changes by the replacement's length difference |
| JsStrings.ReplaceAllChar | src/lib/articles.ts:270-272 | the global replacement of one character changes exactly the positions holding that character and keeps the length |
| JsStrings.Split | src/lib/articles.ts:346 | splitting a path on '/' yields at least one piece, and no piece contains the separator |
| JsStrings.SplitJoin | src/lib/articles.ts:346 | joining the pieces of a split with the separator gives the original string back |
| JsStrings.SplitFree | src/lib/articles.ts:346 | a string without the separator splits into itself alone |
| JsStrings.SplitCons | src/lib/articles.ts:346 | a separator-free piece followed by the separator is the first piece of the split, and the rest splits on its own |
| JsStrings.SplitFour | src/lib/articles.ts:346 | four separator-free pieces joined by the separator split back into those four pieces |
| JsStrings.JoinThree | src/lib/articles.ts:349 | three segments joined by a separator are the first, the separator, the second, the separator and the third |
| JsStrings.IndexOfPastSlashFree | src/lib/articles.ts:42-43 | in `folder + tail`, where the folder has no '/', a '/'-led pattern is found exactly where it is found in the tail, shifted by the folder's length |
| JsStrings.StripSuffixPastSlashFree | src/lib/articles.ts:43 | removing a '/'-led suffix from `folder + suffix` gives back the folder |
| JsStrings.ExecFrom | src/lib/articles.ts:285 | a global regex `exec` from `lastIndex` returns a position in range where the pattern does match |
| JsStrings.ExecLeftmost | src/lib/articles.ts:285 | the match `exec` returns is the leftmost one: the pattern matches nowhere between `lastIndex` and it |
| JsStrings.ExecNone | src/lib/articles.ts:285 | when `exec` returns null the pattern matches nowhere from `lastIndex` on |
| ContentStore.Glob | src/lib/articles.ts:32-38 | a glob lists exactly the existing files whose path has the legacy shape `<folder>/page.mdx`, or the locale shape `<folder>/{en,fr}/page.mdx` |
| ContentStore.Import | src/lib/articles.ts:44 | a dynamic import succeeds exactly when the file exists, and it yields that file's exports |
| ContentStore.SlugOf | src/lib/articles.ts:45 | the slug is the `article.slug` export when there is one and it is non-empty, and otherwise the folder name |
| ContentStore.LocalePageIndex | src/lib/articles.ts:42 | `/en/page.mdx` and `/fr/page.mdx` contain themselves and not each other |
| ContentStore.PageFileIndex | src/lib/articles.ts:200 | `/page.mdx` contains neither locale page |
| ContentStore.LocaleFilePatterns | src/lib/articles.ts:74-76 | a locale page's path contains exactly its own locale's pattern, and removing that pattern gives the folder |
| ContentStore.LegacyFilePatterns | src/lib/articles.ts:77-79 | a legacy page's path contains no locale pattern; removing `/page.mdx` gives the folder, and the `translated.mdx` rewrite gives the folder's translated file |
| ContentStore.LegacyFileShape | src/lib/articles.ts:36-38 | every legacy glob match is a folder name followed by `/page.mdx` |
| ContentStore.LocaleFileShape | src/lib/articles.ts:32-34 | every locale glob match is a folder name followed by the page of some locale |
| ContentStore.LocaleFileFolder | src/lib/articles.ts:41-43 | for a locale glob match, the `includes` test holds for exactly one locale, and the `replace` recovers the folder |
| ContentStore.LegacyFileFolder | src/lib/articles.ts:53-54 | for a legacy glob match, the `replace` recovers the folder uniquely, and no locale pattern occurs in the path |
| ContentStore.FolderPaths | src/lib/articles.ts:32-38 | every folder's legacy page and locale pages have the shapes the globs match |
| ArticleLoader.FrenchSplice | src/lib/articles.ts:98-104 | the spliced metadata is the main page's metadata with `lang` set to `fr` |
| ArticleLoader.LoadArticle | src/lib/articles.ts:84-106 | the fallback chain: the locale's page when it exists; otherwise the legacy page for English, or the spliced legacy metadata and translated body for French, which succeeds only when both files exist; failures are missing-module errors |
| ArticleLoader.WithSlug | src/lib/articles.ts:116-138 | a record exists exactly when the module exports metadata; its slug is the metadata slug or the folder; `hasTranslation` says whether the other locale's page or `translated.mdx` exists; the other fields are copied |
| ArticleLoader.ArticleFor | src/lib/articles.ts:235-268 | an unknown slug, or one mapped to an empty folder, fails with article-not-found; a known slug loads its folder by the fallback chain |
| ArticleLoader.ImportArticle | src/lib/articles.ts:66-139 | a file containing `/<locale>/page.mdx` is imported itself (missing: a not-found error) and its folder is the file with that part removed; another file ending in `/page.mdx` goes through the fallback chain for its folder; any other file gives no record; every error is a not-found error, and a record's `hasTranslation` is its folder's |
| ArticleLoader.ImportLocaleFile | src/lib/articles.ts:74-76 | importing a folder's page for the requested locale yields that page's record, or a missing-module error |
| ArticleLoader.ImportLegacyFile | src/lib/articles.ts:77-106 | importing a legacy page goes through the same fallback chain as `getArticle` for its folder |
| SlugIndex.EnglishClaims | src/lib/articles.ts:41-50 | the English pass claims, for exactly the folders with an English page, that page's slug for the folder |
| SlugIndex.LegacyClaims | src/lib/articles.ts:53-60 | the legacy pass claims, for exactly the folders with a legacy page, that page's slug for the folder |
| SlugIndex.ClaimAllSnoc | src/lib/articles.ts:46-48 | one more claim takes its slug only when the slug is still free |
| SlugIndex.EnglishClaimsSnoc | src/lib/articles.ts:41-50 | one more globbed file adds a claim exactly when it is an English page |
| SlugIndex.LegacyClaimsSnoc | src/lib/articles.ts:53-60 | one more legacy file adds its claim |
| SlugIndex.ClaimAllKeys | src/lib/articles.ts:46-48 | the map's slugs are the slugs already present plus every slug claimed |
| SlugIndex.ClaimAllKeeps | src/lib/articles.ts:46 | a slug that is already mapped never changes its folder |
| SlugIndex.ClaimAllFirst | src/lib/articles.ts:46-48 | a new slug is mapped to the folder of its first claim |
| SlugIndex.ClaimAllFrom | src/lib/articles.ts:46-48 | every added slug maps to a folder that actually claimed it |
| SlugIndex.ClaimAllAppend | src/lib/articles.ts:41-60 | the two passes in a row act as one pass over the English claims followed by the legacy claims |
| SlugIndex.SlugMapFolders | src/lib/articles.ts:24-64 | every folder in the map is a globbed folder whose English or legacy page names the slug it is mapped from |
| SlugIndex.SlugMapCovers | src/lib/articles.ts:24-64 | every slug named by an English page or a legacy page is in the map |
| SlugIndex.EnglishClaimsWin | src/lib/articles.ts:40-60 | a slug named by an English page always maps to a folder whose English page names it, so a legacy page never takes it |
| SlugIndex.FirstClaimOf | src/lib/articles.ts:46-48 | a claimed slug has a first claim naming it |
| ArticleListing.SetFolder | src/lib/articles.ts:160 | `Map.set` stores the file for the folder, keeps insertion order and distinct keys, and appends only a new key |
| ArticleListing.Values | src/lib/articles.ts:173 | `Array.from(map.values())` lists each key's file in insertion order |
| ArticleListing.EnglishPass | src/lib/articles.ts:157-162 | the first no-locale pass yields an insertion-ordered folder → file map |
| ArticleListing.LegacyPass | src/lib/articles.ts:165-170 | the second no-locale pass keeps the map insertion-ordered |
| ArticleListing.EnglishPassFacts | src/lib/articles.ts:157-162 | after the first pass, the folders are exactly those with an English page, each mapped to that page |
| ArticleListing.LegacyPassFacts | src/lib/articles.ts:165-170 | the second pass adds exactly the legacy folders not yet present, mapped to their legacy page, and leaves the others alone |
| ArticleListing.DefaultFilesChoice | src/lib/articles.ts:152-173 | without a locale, each folder with an English or a legacy page is processed once, from its English page when there is one, else from its legacy page |
| ArticleListing.PageShapesDiffer | src/lib/articles.ts:196-205 | a legacy page is never also a locale page |
| ArticleListing.PickStepKeeps | src/lib/articles.ts:196-217 | one iteration of the locale loop keeps the loop's invariant: distinct folders, exactly those seen, each with its preferred file |
| ArticleListing.AddFolderKeeps | src/lib/articles.ts:207-216 | a file that names exactly one folder keeps the loop's invariant when that folder is added |
| ArticleListing.SkipKeeps | src/lib/articles.ts:200-202 | a file that names no folder of the loop's locale keeps the invariant unchanged |
| ArticleListing.PickStepKeepsLocale | src/lib/articles.ts:198-216 | a locale file keeps the invariant: its folder is added for the loop's locale, and it is skipped for the other |
| ArticleListing.PickStepKeepsLegacy | src/lib/articles.ts:203-216 | a legacy file keeps the invariant by adding its folder |
| ArticleListing.PickFacts | src/lib/articles.ts:196-217 | the locale loop over any glob output satisfies that invariant |
| ArticleListing.LocaleFilesChoice | src/lib/articles.ts:191-217 | with a locale, each folder with that locale's page or a legacy page is processed once, from the locale's page when the glob found it, else from the legacy page |
| ArticleListing.ImportAll | src/lib/articles.ts:175-177 | `Promise.all` yields every file's record in order, and fails exactly when some file's import fails |
| ArticleListing.Dedupe | src/lib/articles.ts:180-187 | the filter keeps no null and no repeated slug, keeps only input records, and loses no slug |
| ArticleListing.DedupeKeepsFirst | src/lib/articles.ts:182-186 | the first record carrying a slug is the one kept |
| ArticleListing.InsertByDate | src/lib/articles.ts:188 | inserting a record yields a permutation of the sorted list plus that record |
| ArticleListing.InsertByDateSorted | src/lib/articles.ts:188 | inserting into a newest-first list keeps it newest first |
| ArticleListing.InsertByDateDistinct | src/lib/articles.ts:188 | inserting a record with a new slug keeps the slugs distinct |
| ArticleListing.SortByDate | src/lib/articles.ts:188 | the sort yields a newest-first permutation of its input and keeps distinct slugs distinct |
| ArticleListing.SortedTailFacts | src/lib/articles.ts:188 | when the slugs are distinct, the head's slug is not among the sorted tail's |
| ArticleListing.CollectDefaultFiles | src/lib/articles.ts:154-173 | the two no-locale loops compute the files of the two passes |
| ArticleListing.PickFilesToProcess | src/lib/articles.ts:192-217 | the locale loop computes the picked files |
| ArticleListing.PickSnoc | src/lib/articles.ts:196-217 | one more file is one more step of the pick |
| ArticleListing.DedupeBySlug | src/lib/articles.ts:224-231 | the `seenSlugs` filter loop computes the de-duplicated records |
| ArticleListing.GetAllArticles | src/lib/articles.ts:141-233 | the listing has distinct slugs and is newest first |
| ArticleListing.ListingRecords | src/lib/articles.ts:141-233 | every listed record is the record of some processed file, and every processed file's record has its slug listed |
| ArticleListing.FrenchOnlyFolderUnreachable | src/lib/articles.ts:196-217 | a folder with only a French page is listed for French, but no slug in the slug map points to it |
| ArticleListing.EnglishPageGlobbed | src/lib/articles.ts:32-38 | for a store whose listing shows every file, a folder's English and legacy pages are globbed exactly when they exist |
| ArticleListing.EnglishListingResolves | src/lib/articles.ts:141-268 | every slug of the no-locale listing is in the slug map, and `getArticle` for it in English succeeds |
| ArticleListing.EnglishListingSlugMatches | src/lib/articles.ts:24-64 | when no folder keeps a legacy page beside its English page, the article `getArticle` loads in English for a listed slug carries that slug |
| Articles.MdxCandidate | src/lib/articles.ts:322-328 | the page read is the locale's page when it exists, else the legacy page, else none |
| Articles.ImagePath | src/lib/articles.ts:331-347 | no image imports means no image; the chosen import, resolved against the page's directory, is the image exactly when the root check admits it; an image is one of the page's imports and is admitted by the check (the program's check is the string `startsWith`) |
| Articles.AssetSrc | src/lib/articles.ts:352-359 | the URL is the string default export, or the object's string `src`; a missing asset or any other value gives none |
| Articles.OgImageSrc | src/lib/articles.ts:311-363 | an unknown slug gives no image; an image comes only from a folder whose locale or legacy page exists, and from an asset that the root check admits; which asset it is, is stated by `Articles.OgImageIsChosenAsset` |
| Articles.ContentDirsNormal | src/lib/articles.ts:320-325 | the directories joined from a normalised working directory and a folder are normalised |
| Articles.FolderIsSegment | src/lib/articles.ts:322-325 | a globbed folder name is one path segment |
| Articles.ImagePathBelowRoot | src/lib/articles.ts:346-349 | under the segment-wise check, an admitted image is a normalised path below the root, and its import key is its path below the root with no `..` |
| Articles.OgImageStaysInRoot | src/lib/articles.ts:346-353 | under the segment-wise check, a preview image always comes from an asset below the articles root |
| Articles.GuardsDisagreeOnlyOutside | src/lib/articles.ts:346-353 | whenever the segment-wise check yields an image, the program's `startsWith` check yields the same one; where only the program's check yields an image, that image passes `startsWith` but lies outside the root |
| Articles.ImagePathGuardsAgree | src/lib/articles.ts:346-347 | on one page, the program's check yields the segment-wise check's image whenever that one yields one, and an image only the program's check yields passes `startsWith` but lies outside the root |
| Articles.SiblingCandidate | src/lib/articles.ts:322-328 | a folder with only a legacy page reads that page |
| Articles.SiblingQuoteFree | src/lib/articles.ts:282-283 | the sibling import's path has no quote |
| Articles.SiblingWellFormed | src/lib/articles.ts:282-283 | the sibling import is one the import pattern accepts |
| Articles.SiblingChosen | src/lib/articles.ts:331-344 | a page whose one import is `../../articles-old/a.png` chooses that import |
| Articles.SiblingSplit | src/lib/articles.ts:346 | that import splits into `..`, `..`, `articles-old`, `a.png` |
| Articles.SiblingNormalizes | src/lib/articles.ts:346 | normalising those pieces from `<dir>/articles/post` gives `<dir>/articles-old/a.png` |
| Articles.SiblingResolves | src/lib/articles.ts:346 | resolving that import from `<dir>/articles/post` gives `<dir>/articles-old/a.png` |
| Articles.SiblingPageResolves | src/lib/articles.ts:346 | from the page `<root>/post/page.mdx`, the sibling import resolves into `articles-old` |
| Articles.SiblingImagePath | src/lib/articles.ts:331-347 | the program's check admits that image and the segment-wise check rejects it |
| Articles.SiblingJoin | src/lib/articles.ts:349 | the sibling image's relative path joined with '/' is `../articles-old/a.png` |
| Articles.SiblingKey | src/lib/articles.ts:349 | the program imports that image by the key `../articles-old/a.png` |
| Articles.SiblingImageServed | src/lib/articles.ts:311-363 | with working directory `/srv`, the program returns the URL of the image in `src/app/articles-old`, and the segment-wise check gives no image |
| Articles.OgImageNullCases | src/lib/articles.ts:316-359 | a missing folder, a missing page, a page without image imports, a resolved image that the root check rejects, or an asset that is neither a string nor an object with a string `src` each give no image |
| Articles.OgImageIsChosenAsset | src/lib/articles.ts:311-359 | for a known folder with a page, the preview image is the URL of the asset named by the chosen import, resolved from the page's directory, when the root check admits it, and none otherwise |
| Articles.OgImageOfFirstUsed | src/lib/articles.ts:305-359 | when the page uses an imported image, the preview image is the asset of the last import declaring the first used name |
| Articles.OgImageWithoutUsage | src/lib/articles.ts:305-359 | when the page uses no imported image, the preview image is the asset of the first import |
| Articles.ArticleCache.constructor | src/lib/articles.ts:22 | the cache starts empty |
| Articles.ArticleCache.BuildSlugToFolderMap | src/lib/articles.ts:24-64 | the two loops build the slug map; a cached map is returned as it was, and the map built is cached |
| Articles.ArticleCache.GetArticle | src/lib/articles.ts:235-268 | `getArticle` on the cached slug map follows the fallback chain and fills the cache |
| Articles.ArticleCache.GetArticleOgImageSrc | src/lib/articles.ts:311-363 | the preview image is computed with the program's `startsWith` check on the cached slug map, and the cache is filled; which image that is follows from `Articles.OgImageIsChosenAsset` and `Articles.OgImageOfFirstUsed` |
| NodePaths.Normalize | src/lib/articles.ts:346 | normalising from a normalised path with '/'-free parts yields a normalised path |
| NodePaths.Resolve | src/lib/articles.ts:346 | `resolve` from a normalised directory yields a normalised path |
| NodePaths.Dirname | src/lib/articles.ts:346 | `dirname` drops exactly the last segment |
| NodePaths.CommonPrefixLength | src/lib/articles.ts:349 | the common prefix is shared and cannot be extended |
| NodePaths.Relative | src/lib/articles.ts:349 | `relative` from a prefix of the target is the rest of the target |
| NodePaths.ToPosixPathPlain | src/lib/articles.ts:349 | a path without backslashes is left unchanged |
| NodePaths.ToPosixPath | src/lib/articles.ts:270-272 | every backslash becomes '/', every other character is unchanged, and the length is kept |
| NodePaths.JoinAppend | src/lib/articles.ts:320 | joining two non-empty segment lists is joining each and putting the separator between |
| NodePaths.WithinRootPassesGuard | src/lib/articles.ts:347 | an image inside the root passes the `startsWith` guard |
| NodePaths.WithinRootStaysInside | src/lib/articles.ts:347-349 | an image inside the root has a relative path with no `..`, which leads back to the image |
| NodePaths.SiblingImportResolves | src/lib/articles.ts:346 | `../../articles-old/a.png` from `<cwd>/src/app/articles/post` resolves into the sibling directory `articles-old` |
| NodePaths.SiblingPassesGuard | src/lib/articles.ts:347 | any sibling directory whose name extends the root's last segment passes the `startsWith` guard |
| NodePaths.RootGuardAsWrittenAdmitsSibling | src/lib/articles.ts:346-349 | an image in `articles-old` passes the guard although it is outside the root, and its relative path starts with `..` |
| PreviewImage.SpanSpaces | src/lib/articles.ts:282 | `\s*`/`\s+` runs end at the first non-space character |
| PreviewImage.SpanIdent | src/lib/articles.ts:282 | the `[A-Za-z0-9_$]+` run ends at the first non-name character |
| PreviewImage.FindQuote | src/lib/articles.ts:282 | `[^'"]+` ends at the first quote |
| PreviewImage.LastLineEnd | src/lib/articles.ts:282 | the greedy `\s*$` under the multiline flag ends at the last line end it can reach |
| PreviewImage.ImportHeadAt | src/lib/articles.ts:282 | `import\s+name\s+from\s+` matched at a position yields a name and an opening quote |
| PreviewImage.ImportTailAt | src/lib/articles.ts:282 | the quoted path that is matched is quote-free and has an image extension |
| PreviewImage.ImportAt | src/lib/articles.ts:282 | a match of the import pattern starts at a line start, begins with `import`, and captures a name and a quote-free image path |
| PreviewImage.NextImport | src/lib/articles.ts:285 | `importRe.exec` finds a match of the pattern at or after `lastIndex` |
| PreviewImage.NextImportLeftmost | src/lib/articles.ts:285 | no import statement starts between `lastIndex` and the match found |
| PreviewImage.NextImportNone | src/lib/articles.ts:285 | when `exec` returns null, no import statement starts from `lastIndex` on |
| PreviewImage.ImageImports | src/lib/articles.ts:279-290 | every collected import has an image extension |
| PreviewImage.ExtractImageImports | src/lib/articles.ts:279-290 | the `exec` loop collects the imports matched from the start of the file, in order |
| PreviewImage.ImportStatementRoundTrip | src/lib/articles.ts:279-290 | a written `import name from 'path';` line is parsed back into exactly that import |
| PreviewImage.StatementHead | src/lib/articles.ts:282 | the head of a written import statement matches with its name |
| PreviewImage.StatementTail | src/lib/articles.ts:282 | the tail of a written import statement matches with its path, up to the end |
| PreviewImage.FindClose | src/lib/articles.ts:294 | `[^>]*` ends at the first '>' |
| PreviewImage.SrcAt | src/lib/articles.ts:294 | `\bsrc={name}` captures an identifier |
| PreviewImage.LastSrc | src/lib/articles.ts:294 | the backtracked `[^>]*\bsrc=` takes an identifier |
| PreviewImage.LastSrcFound | src/lib/articles.ts:294 | the greedy `[^>]*` takes the last `src={…}` before the closing '>' |
| PreviewImage.LastSrcNone | src/lib/articles.ts:294 | with no `src={…}` captured, there is none inside the tag |
| PreviewImage.LastSrcIs | src/lib/articles.ts:294 | the last `src={…}` inside the tag is the one captured |
| PreviewImage.UsageAt | src/lib/articles.ts:294 | a usage match is a tag that opens with '<' and closes with '>' |
| PreviewImage.NextUsage | src/lib/articles.ts:297 | `usageRe.exec` finds a match that ends after `lastIndex` |
| PreviewImage.NextUsageFound | src/lib/articles.ts:297 | the usage found is the leftmost match at or after `lastIndex` |
| PreviewImage.NextUsageNone | src/lib/articles.ts:297 | when `exec` returns null, no usage starts from `lastIndex` on |
| PreviewImage.FirstIn | src/lib/articles.ts:297-302 | the result is the first used name that is imported, or none when no used name is imported |
| PreviewImage.ExtractFirstUsedImageName | src/lib/articles.ts:292-303 | the `exec` loop returns the first used name that is imported |
| PreviewImage.TagShape | src/lib/articles.ts:294 | a written `<Image src={name} />` has the tag name, a word boundary and its closing '>' where the pattern needs them |
| PreviewImage.TagSrc | src/lib/articles.ts:294 | in a written tag, `src={name}` is the only source attribute |
| PreviewImage.ImageTagRoundTrip | src/lib/articles.ts:292-303 | a written `<Image src={name} />` is matched whole and yields exactly that name |
| PreviewImage.ImportMap | src/lib/articles.ts:334 | the map's keys are the imported names, and each name maps to the path of its last import |
| PreviewImage.ChosenImportPath | src/lib/articles.ts:331-344 | a path is chosen exactly when the page has image imports, and it is one of their paths |
| PreviewImage.ChosenIsFirstUsed | src/lib/articles.ts:334-342 | when an imported name is used, the chosen path is that name's last import |
| PreviewImage.LastDeclaration | src/lib/articles.ts:334 | every imported name has a last import declaring it |
| PreviewImage.ChosenWithoutUsage | src/lib/articles.ts:340-342 | when no imported name is used, the first import's path is chosen |
| PreviewImage.SingleImportChosen | src/lib/articles.ts:331-342 | a page holding one written `import name from 'path';` takes its preview from that path, whether or not the name is used |
| Figure.FindChar | src/components/mdx/Figure.tsx:10 | `[^\]]+` and `[^)]+` runs end at the first closing character |
| Figure.MatchAt | src/components/mdx/Figure.tsx:10 | a link match spells `[text](href)`, with a non-empty text free of ']' and a non-empty href free of ')' |
| Figure.NextMatch | src/components/mdx/Figure.tsx:15 | `linkRegex.exec` finds a link at or after `lastIndex` |
| Figure.NextMatchLeftmost | src/components/mdx/Figure.tsx:15 | no link starts between `lastIndex` and the match found |
| Figure.NextMatchNone | src/components/mdx/Figure.tsx:15 | when `exec` returns null, no link starts from `lastIndex` on |
| Figure.LinkPartsStep | src/components/mdx/Figure.tsx:15-25 | one match contributes the gap before it (when non-empty), then the link, then the scan goes on after the match |
| Figure.LinkPartsEnd | src/components/mdx/Figure.tsx:27-29 | with no further match, the rest of the caption is one text part, or nothing |
| Figure.ScanStep | src/components/mdx/Figure.tsx:15-25 | one iteration of the loop keeps "parts so far plus the parts still to come is the whole result" |
| Figure.RenderAppend | src/components/mdx/Figure.tsx:9-32 | writing back two part lists one after the other is writing back their concatenation |
| Figure.RoundTrip | src/components/mdx/Figure.tsx:9-32 | writing the parts back (text as is, links as `[text](href)`) gives the caption back exactly |
| Figure.RenderPieces | src/components/mdx/Figure.tsx:16-24 | the gap, the link and the rest written back are the caption from `lastIndex` on |
| Figure.PartsShape | src/components/mdx/Figure.tsx:9-32 | no text part is empty, and a text part is always followed by a link |
| Figure.NoLinkCaption | src/components/mdx/Figure.tsx:27-29 | a caption without links is one text part, and an empty caption has no parts |
| Figure.ParseMarkdownLinks | src/components/mdx/Figure.tsx:9-32 | the loop's parts give the caption back exactly, with no empty text and no two texts in a row |
| Figure.FigureCaption | src/components/mdx/Figure.tsx:42-46 | a caption element appears exactly for a non-empty caption, and its parts give the caption back |
| LanguageToggle.OtherLocale | src/components/LanguageToggle.tsx:56-57 | the other locale differs from the current one, and is French exactly when the path is not under `/fr/articles` |
| LanguageToggle.SlugOf | src/components/LanguageToggle.tsx:60-61 | a slug is found only for `/{en,fr}/articles/<slug>`, and it is non-empty and has no '/' |
| LanguageToggle.SlugOfArticlePath | src/components/LanguageToggle.tsx:60-61 | every individual article path yields its slug |
| LanguageToggle.ReplaceLocale | src/components/LanguageToggle.tsx:105 | a leading `/en` or `/fr` becomes the target locale and the rest of the path is kept; other paths are unchanged |
| LanguageToggle.SwitchTwiceRestores | src/components/LanguageToggle.tsx:100-109 | switching stays on an article page of the other locale with the same rest of the path, and switching twice gives the original path |
| LanguageToggle.Toggle.constructor | src/components/LanguageToggle.tsx:47-49 | the state starts unmounted, not loading, and with the translation unknown |
| LanguageToggle.Toggle.Renders | src/components/LanguageToggle.tsx:89-91 | the toggle renders exactly on `/en/articles…` and `/fr/articles…` paths, and then a click goes to the locale-replaced path, never to the fallback |
| LanguageToggle.Toggle.IsDisabled | src/components/LanguageToggle.tsx:120 | the button is disabled while loading and when the translation is known to be missing; an unanswered check does not disable it |
| LanguageToggle.Toggle.IsCheckingTranslation | src/components/LanguageToggle.tsx:121 | the check is pending exactly on an article page whose translation is still unknown; listing pages never check, and while checking only loading disables the button |
| LanguageToggle.Toggle.ClickSwitches | src/components/LanguageToggle.tsx:94 | a click acts exactly when the toggle is mounted and not disabled |
| LanguageToggle.Toggle.Mount | src/components/LanguageToggle.tsx:63-65 | mounting sets `mounted` and changes nothing else |
| LanguageToggle.Toggle.CheckTranslation | src/components/LanguageToggle.tsx:68-87 | the translation is known afterwards: always present on listing pages, else the HEAD response's status; the check is no longer pending |
| LanguageToggle.Toggle.HandleLocaleChange | src/components/LanguageToggle.tsx:93-118 | a guarded click changes nothing; otherwise it sets loading and navigates once to the switch target |
| LanguageToggle.Toggle.LoadingTimerFires | src/components/LanguageToggle.tsx:115-117 | the timer clears the loading flag and changes nothing else |
| Prediction.Reached | src/components/mdx/Prediction.tsx:8-39 | the number of thresholds a confidence reaches is at most their count |
| Prediction.ConfidenceColor | src/components/mdx/Prediction.tsx:8-31 | the colour band is the number of thresholds (65, 80) that the confidence reaches |
| Prediction.ConfidenceLabel | src/components/mdx/Prediction.tsx:33-39 | the label's rank is the number of thresholds (50, 65, 75, 85) that the confidence reaches |
| Prediction.ReachedMonotone | src/components/mdx/Prediction.tsx:8-39 | a higher confidence reaches at least as many thresholds |
| Prediction.ConfidenceMonotone | src/components/mdx/Prediction.tsx:8-39 | a higher confidence never gets a lower label or a lower colour |
| Prediction.BandsAgree | src/components/mdx/Prediction.tsx:8-39 | Low and Medium are exactly the rose band; Moderate is amber; High is amber or emerald; Very High is emerald |
| Prediction.LabelTextsDistinct | src/components/mdx/Prediction.tsx:34-38 | different labels have different texts |
| TableOfContents.AnchorId | src/components/mdx/TableOfContents.tsx:37-39 | the id is the anchor with at most one leading '#' removed, and one is removed exactly when the anchor starts with '#' |
| TableOfContents.LevelOf | src/components/mdx/TableOfContents.tsx:40 | a missing level is 2 |
| TableOfContents.Entries | src/components/mdx/TableOfContents.tsx:36-51 | one entry per item in order, numbered from 1 with the item's title; indented exactly at level 3; the href is the anchor itself when it starts with '#', and the anchor with '#' in front otherwise |
| TableOfContents.OneHashIsOptional | src/components/mdx/TableOfContents.tsx:37-39 | an anchor with or without its leading '#' links to the same id |

## Left out

- The module-level cache is one field of `Articles.ArticleCache`. Concurrent first calls that race to build it are not modelled; each call runs to completion.
- `await` and `Promise.all`: imports run in sequence. When several imports fail, the model reports one of them, not necessarily the one JavaScript would report first.
- React rendering, `fetch`, `router.push` and `setTimeout` are not modelled as such. The HEAD response's status is a parameter of `Toggle.CheckTranslation`. A navigation is an entry appended to `navigations`. The 300 ms timer is the separate `Toggle.LoadingTimerFires` step.
- The toggle's labels, tooltips and markup (`getAriaLabel`, `getTitle`, `getTooltipMessage`, the button and its icons) are left out. They are display text only.
- The markup and colours of `Prediction`, `Figure` and `TableOfContents` are not modelled. Only the chosen band, label, parts and entries are.
- A locale is `en` or `fr`. `getArticle` and `getAllArticles` accept any string, and other strings are not modelled. `getAllArticles()` without a locale and with `''` are both `None`.
- Dates are integer keys. Date strings that JavaScript parses to `NaN`, and the comparator misbehaving on them, are not modelled.
- ArticleListing.SortByDate: it is proved to be a newest-first permutation. The stability of `Array.prototype.sort` on equal dates is not stated.
- The file system is the `ContentStore.Store` value. `fast-glob`'s own listing order is the store's listing order. `existsSync` is membership in the store.
- `readFile` of a page that `existsSync` reports is taken to succeed and to return the page's source.
- Paths are absolute POSIX paths, as segment lists. Windows drive letters and backslash separators are not modelled beyond `toPosixPath`.
- The regex engine in general is not modelled, only the three patterns this code uses. Of the import pattern, the `^…$` anchors under the multiline flag are modelled over the whole page text.
- PreviewImage.NextUsage: its contract gives only the range of the match. That it is the leftmost match is stated separately by `PreviewImage.NextUsageFound`.
- PreviewImage.ImportStatementRoundTrip: the round trip is stated for a page holding one written import statement, not for a page of many lines.
- The `try`/`catch` in `getArticleOgImageSrc` has no counterpart: every step in the model is total, and each error becomes a `None` result.
- One failed import rejects the whole `getAllArticles` call (`Promise.all`): no folder is skipped (`ArticleListing.ImportAll`).
- A slug of `getAllArticles(locale)` is not always loadable with `getArticle(slug, locale)`. For the no-locale listing it is (`ArticleListing.EnglishListingResolves`). For French, a folder with only `fr/page.mdx` is listed, but its slug is never in the slug map, so `getArticle` throws (`ArticleListing.FrenchOnlyFolderUnreachable`).
- EnglishListingResolves: it states that `getArticle` succeeds, not that it loads an article carrying the listed slug. That fails when a folder keeps a legacy `page.mdx` beside its `en/page.mdx`. Take folder F with `en/page.mdx` (slug `a`) and `page.mdx` (slug `s`), and folder G with `page.mdx` (slug `s`). The legacy pass gives slug `s` to F, but the listing shows G's record under `s`. Loading `s` then reads F's English page, whose slug is `a`. `ArticleListing.EnglishListingSlugMatches` proves the slug matches when no folder keeps both pages.
- ImagePathBelowRoot: stated for the segment-wise check only. The program's `startsWith` check also admits sibling directories such as `articles-old` (`Articles.SiblingImageServed`).
- OgImageStaysInRoot: stated for the segment-wise check only. With the program's check, `Articles.GuardsDisagreeOnlyOutside` bounds the difference to images that pass `startsWith` but lie outside the root.
- OgImageNullCases: its last case is a rejection by whichever check is passed in. The program's `startsWith` check rejects fewer images than the segment-wise one.
- GetArticleOgImageSrc: it uses the program's `startsWith` check, so the preview image may come from a sibling directory of the articles root, as in the finding below.
- TOC heading extraction and the pages that call these functions (sitemap, RSS feed, article pages) are not part of this model.

## Findings

| source | as written | input that shows it | evidently intended | confidence | as-written member | corrected member |
|---|---|---|---|---|---|---|
| src/lib/articles.ts:347 | the path-traversal guard is `imageAbsPath.startsWith(articlesRootAbs)`, a prefix test on strings | with working directory `/srv`, page `src/app/articles/post/page.mdx` importing `../../articles-old/a.png`: the image resolves to `/srv/src/app/articles-old/a.png`, which starts with `/srv/src/app/articles`, so the guard passes and the import path becomes `../app/articles/../articles-old/a.png`, outside the articles root | the image must lie inside the articles directory segment by segment (a prefix of path segments, or a prefix test against the root followed by the separator) | not executed | Articles.SiblingImageServed | Articles.OgImageStaysInRoot |

`Articles.ImagePath` and `Articles.OgImageSrc` take the check as a parameter (`Articles.RootGuard`):

- `StringPrefix` is the program's check. `Articles.ArticleCache.GetArticleOgImageSrc` uses it.
- `SegmentPrefix` is the corrected check, under which `Articles.OgImageStaysInRoot` holds.

`Articles.GuardsDisagreeOnlyOutside` proves the two agree everywhere except on such sibling images.
