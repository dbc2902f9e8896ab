/**
 * The slug → folder map `buildSlugToFolderMap` builds: every English
 * locale file, then every legacy file, claims its slug (the `article.slug`
 * export, or the folder name) for its folder; a slug already claimed is
 * never reassigned.
 */
module SlugIndex {
  import opened Wrappers
  import opened JsStrings
  import opened ContentStore

  /** One file's claim: its slug and its folder. */
  datatype Claim = Claim(slug: string, folder: string)

  /** The claim of a file whose folder is what remains after removing `pattern`. */
  function FileClaim(store: Store, file: string, pattern: string): Claim
    requires file in store.docs
  {
    var folder := ReplaceFirst(file, pattern, "");
    Claim(SlugOf(store.docs[file].article, folder), folder)
  }

  /** The claims of the English locale files among `files`, in order. */
  function EnglishClaims(store: Store, files: seq<string>): (cs: seq<Claim>)
    requires forall f :: f in files ==> f in store.docs && IsLocaleFile(f)
    ensures forall c :: c in cs ==>
              IsFolderName(c.folder) && c.folder + LocalePage(En) in files
              && c.slug == SlugOf(store.docs[c.folder + LocalePage(En)].article, c.folder)
    ensures forall folder :: folder + LocalePage(En) in files ==>
              Claim(SlugOf(store.docs[folder + LocalePage(En)].article, folder), folder) in cs
    decreases |files|
  {
    if files == [] then []
    else
      var init := files[..|files| - 1];
      var f := files[|files| - 1];
      assert forall g :: g in files <==> g in init || g == f;
      var cs := EnglishClaims(store, init);
      LocaleFileFolder(f, En);
      if Contains(f, LocalePage(En)) then cs + [FileClaim(store, f, LocalePage(En))] else cs
  }

  /** The claims of the legacy files `files`, in order. */
  function LegacyClaims(store: Store, files: seq<string>): (cs: seq<Claim>)
    requires forall f :: f in files ==> f in store.docs && IsLegacyFile(f)
    ensures forall c :: c in cs ==>
              IsFolderName(c.folder) && c.folder + PageFile in files
              && c.slug == SlugOf(store.docs[c.folder + PageFile].article, c.folder)
    ensures forall folder :: folder + PageFile in files ==>
              Claim(SlugOf(store.docs[folder + PageFile].article, folder), folder) in cs
    decreases |files|
  {
    if files == [] then []
    else
      var init := files[..|files| - 1];
      var f := files[|files| - 1];
      assert forall g :: g in files <==> g in init || g == f;
      var cs := LegacyClaims(store, init);
      LegacyFileFolder(f);
      cs + [FileClaim(store, f, PageFile)]
  }

  /** `if (!slugToFolder.has(slug)) slugToFolder.set(slug, folder)` over the claims, in order. */
  function ClaimAll(m: map<string, string>, cs: seq<Claim>): map<string, string>
    decreases |cs|
  {
    if cs == [] then m
    else
      var r := ClaimAll(m, cs[..|cs| - 1]);
      var c := cs[|cs| - 1];
      if c.slug in r then r else r[c.slug := c.folder]
  }

  /** One more claim: it takes its slug only when the slug is still free. */
  lemma ClaimAllSnoc(m: map<string, string>, cs: seq<Claim>, c: Claim)
    ensures ClaimAll(m, cs + [c]) ==
            var r := ClaimAll(m, cs); if c.slug in r then r else r[c.slug := c.folder]
  {
    assert (cs + [c])[..|cs + [c]| - 1] == cs;
  }

  /** The English claims of one more file: its claim when it is an English page. */
  lemma EnglishClaimsSnoc(store: Store, files: seq<string>, i: nat)
    requires i < |files| && forall f :: f in files ==> f in store.docs && IsLocaleFile(f)
    ensures EnglishClaims(store, files[..i + 1]) ==
            EnglishClaims(store, files[..i])
            + if Contains(files[i], LocalePage(En)) then [FileClaim(store, files[i], LocalePage(En))] else []
  {
    assert files[..i + 1][..i] == files[..i];
  }

  /** The legacy claims of one more file. */
  lemma LegacyClaimsSnoc(store: Store, files: seq<string>, i: nat)
    requires i < |files| && forall f :: f in files ==> f in store.docs && IsLegacyFile(f)
    ensures LegacyClaims(store, files[..i + 1]) ==
            LegacyClaims(store, files[..i]) + [FileClaim(store, files[i], PageFile)]
  {
    assert files[..i + 1][..i] == files[..i];
  }

  /** The slugs the claims name. */
  function Slugs(cs: seq<Claim>): set<string> {
    set c | c in cs :: c.slug
  }

  /** The slugs of the result are those of `m` and those the claims name. */
  lemma {:induction false} ClaimAllKeys(m: map<string, string>, cs: seq<Claim>)
    ensures ClaimAll(m, cs).Keys == m.Keys + Slugs(cs)
    decreases |cs|
  {
    if cs != [] {
      ClaimAllKeys(m, cs[..|cs| - 1]);
      assert cs == cs[..|cs| - 1] + [cs[|cs| - 1]];
      assert Slugs(cs) == Slugs(cs[..|cs| - 1]) + {cs[|cs| - 1].slug};
    }
  }

  /** A slug already in the map keeps its folder. */
  lemma {:induction false} ClaimAllKeeps(m: map<string, string>, cs: seq<Claim>, k: string)
    requires k in m
    ensures k in ClaimAll(m, cs) && ClaimAll(m, cs)[k] == m[k]
    decreases |cs|
  {
    if cs != [] {
      ClaimAllKeeps(m, cs[..|cs| - 1], k);
    }
  }

  /** A slug not in `m` goes to the folder of its first claim. */
  lemma {:induction false} ClaimAllFirst(m: map<string, string>, cs: seq<Claim>, i: nat)
    requires i < |cs| && cs[i].slug !in m
    requires forall j :: 0 <= j < i ==> cs[j].slug != cs[i].slug
    ensures cs[i].slug in ClaimAll(m, cs) && ClaimAll(m, cs)[cs[i].slug] == cs[i].folder
    decreases |cs|
  {
    var init := cs[..|cs| - 1];
    if i < |init| {
      ClaimAllFirst(m, init, i);
    } else {
      ClaimAllKeys(m, init);
    }
  }

  /** Every slug the claims add maps to a folder that some claim names with it. */
  lemma {:induction false} ClaimAllFrom(m: map<string, string>, cs: seq<Claim>, k: string)
    requires k in ClaimAll(m, cs) && k !in m
    ensures Claim(k, ClaimAll(m, cs)[k]) in cs
    decreases |cs|
  {
    var init := cs[..|cs| - 1];
    if cs != [] && k in ClaimAll(m, init) {
      ClaimAllFrom(m, init, k);
      assert Claim(k, ClaimAll(m, init)[k]) in init;
    }
  }

  /** Claiming `a` then `b` is claiming `a + b`. */
  lemma {:induction false} ClaimAllAppend(m: map<string, string>, a: seq<Claim>, b: seq<Claim>)
    ensures ClaimAll(m, a + b) == ClaimAll(ClaimAll(m, a), b)
    decreases |b|
  {
    if b == [] {
      assert a + b == a;
    } else {
      assert (a + b)[..|a + b| - 1] == a + b[..|b| - 1];
      ClaimAllAppend(m, a, b[..|b| - 1]);
    }
  }

  /** All claims, English locale files first, then legacy files. */
  function AllClaims(store: Store): seq<Claim> {
    EnglishClaims(store, LocaleFiles(store)) + LegacyClaims(store, LegacyFiles(store))
  }

  /** The map `buildSlugToFolderMap` returns. */
  function SlugToFolder(store: Store): map<string, string> {
    ClaimAll(map[], AllClaims(store))
  }

  /** A folder with an English page or a legacy page: the files the slug map is built from. */
  predicate HasEnglishSource(store: Store, folder: string) {
    folder + LocalePage(En) in LocaleFiles(store) || folder + PageFile in LegacyFiles(store)
  }

  /** The English page or the legacy page of `folder` names `slug`. */
  predicate ClaimedBy(store: Store, slug: string, folder: string) {
    || (folder + LocalePage(En) in LocaleFiles(store)
        && slug == SlugOf(store.docs[folder + LocalePage(En)].article, folder))
    || (folder + PageFile in LegacyFiles(store)
        && slug == SlugOf(store.docs[folder + PageFile].article, folder))
  }

  /**
   * Every folder in the map is a globbed folder whose English page or legacy
   * page names the slug mapped to it. A folder with only a French page is
   * never in the map.
   */
  lemma SlugMapFolders(store: Store, k: string)
    requires k in SlugToFolder(store)
    ensures IsFolderName(SlugToFolder(store)[k]) && ClaimedBy(store, k, SlugToFolder(store)[k])
  {
    var e := EnglishClaims(store, LocaleFiles(store));
    var g := LegacyClaims(store, LegacyFiles(store));
    ClaimAllFrom(map[], e + g, k);
    var c := Claim(k, SlugToFolder(store)[k]);
    assert c in e || c in g;
  }

  /** Every slug an English or legacy page claims is in the map. */
  lemma SlugMapCovers(store: Store, folder: string)
    requires HasEnglishSource(store, folder)
    ensures folder + LocalePage(En) in LocaleFiles(store) ==>
              SlugOf(store.docs[folder + LocalePage(En)].article, folder) in SlugToFolder(store)
    ensures folder + PageFile in LegacyFiles(store) ==>
              SlugOf(store.docs[folder + PageFile].article, folder) in SlugToFolder(store)
  {
    var cs := AllClaims(store);
    ClaimAllKeys(map[], cs);
    var e := EnglishClaims(store, LocaleFiles(store));
    var g := LegacyClaims(store, LegacyFiles(store));
    if folder + LocalePage(En) in LocaleFiles(store) {
      var c := Claim(SlugOf(store.docs[folder + LocalePage(En)].article, folder), folder);
      assert c in cs;
    }
    if folder + PageFile in LegacyFiles(store) {
      var c := Claim(SlugOf(store.docs[folder + PageFile].article, folder), folder);
      assert c in cs;
    }
  }

  /** The first claim naming `k`. */
  lemma {:induction false} FirstClaimOf(cs: seq<Claim>, k: string) returns (i: nat)
    requires k in Slugs(cs)
    ensures i < |cs| && cs[i].slug == k
    ensures forall j :: 0 <= j < i ==> cs[j].slug != k
    decreases |cs|
  {
    if cs[0].slug == k {
      i := 0;
    } else {
      var c :| c in cs && c.slug == k;
      assert c in cs[1..];
      var i' := FirstClaimOf(cs[1..], k);
      i := i' + 1;
    }
  }

  /**
   * A slug an English locale page claims maps to a folder whose English
   * page claims it: legacy pages never take a slug an English page claims.
   */
  lemma EnglishClaimsWin(store: Store, folder: string)
    requires folder + LocalePage(En) in LocaleFiles(store)
    ensures SlugOf(store.docs[folder + LocalePage(En)].article, folder) in SlugToFolder(store)
    ensures var slug := SlugOf(store.docs[folder + LocalePage(En)].article, folder);
            var owner := SlugToFolder(store)[slug];
            owner + LocalePage(En) in LocaleFiles(store)
            && slug == SlugOf(store.docs[owner + LocalePage(En)].article, owner)
  {
    var slug := SlugOf(store.docs[folder + LocalePage(En)].article, folder);
    var e := EnglishClaims(store, LocaleFiles(store));
    var g := LegacyClaims(store, LegacyFiles(store));
    assert Claim(slug, folder) in e;
    var i := FirstClaimOf(e, slug);
    assert forall j :: 0 <= j < i ==> (e + g)[j] == e[j];
    ClaimAllFirst(map[], e + g, i);
    assert e[i] in e;
  }
}
