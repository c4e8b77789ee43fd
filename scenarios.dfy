/**
 * The cases the repository's unit tests exercise, each stated as a lemma about
 * every manifest whose properties are the ones the test writes. A successful
 * read is `Parsed(manifest)`, a failed one `Unavailable`; no fallback set is
 * `None`.
 *
 * Names are written as concatenations of short words. A name written as one
 * literal would have the verifier evaluate Slugify on the whole of it; here
 * the slug of each word is evaluated on its own and the words are joined by
 * SlugifyAppend, or SlugifyFixesSlugText applies to a name already in the
 * slug alphabet.
 */
module Scenarios {
  import opened Options
  import opened JsText
  import opened Json
  import opened Slug
  import opened Version
  import opened CliMetadata

  lemma OneDotZeroIsVersion()
    ensures IsVersionText("1.0.0")
  {
    RenderParses(VersionParts("1", "0", "0", None));
    assert Render(VersionParts("1", "0", "0", None)) == "1.0.0";
  }

  /** A manifest whose three fields are all acceptable comes back field for field from both entry points. */
  lemma ReturnedAsIs(manifest: Json, n: string, v: string, d: string)
    requires Property(manifest, BinKey) == None && Property(manifest, NameKey) == Some(JString(n))
    requires Property(manifest, VersionKey) == Some(JString(v))
    requires Property(manifest, DescriptionKey) == Some(JString(d))
    requires IsSlugText(n) && n != [] && IsVersionText(v) && d != [] && !IsJsWhitespace(d[0])
    ensures GetCliMetadataAsync(Parsed(manifest), None) == Metadata(n, v, d)
    ensures GetCliMetadataSync(Parsed(manifest), None) == Metadata(n, v, d)
  {
    SlugifyFixesSlugText(n);
    assert HasNonWhitespace(d) by { assert !IsJsWhitespace(d[0]); }
    WellFormedManifestKept(manifest, NoFallbacks, n, v, d);
    EntryPointsResolveLoadedOrEmpty(Parsed(manifest), None);
  }

  lemma MockTexts()
    ensures IsSlugText("mock" + "-cli") && "mock" + "-cli" != []
    ensures IsSlugText("mock" + "-cli" + "-sync") && "mock" + "-cli" + "-sync" != []
    ensures "A mock CLI for testing." != [] && !IsJsWhitespace("A mock CLI for testing."[0])
    ensures "A mock CLI for sync testing." != [] && !IsJsWhitespace("A mock CLI for sync testing."[0])
  {
  }

  /** The valid mock manifest of the asynchronous tests. */
  lemma MockManifestReturnedAsIs(manifest: Json)
    requires Property(manifest, BinKey) == None
    requires Property(manifest, NameKey) == Some(JString("mock" + "-cli"))
    requires Property(manifest, VersionKey) == Some(JString("1.0.0"))
    requires Property(manifest, DescriptionKey) == Some(JString("A mock CLI for testing."))
    ensures GetCliMetadataAsync(Parsed(manifest), None) == Metadata("mock" + "-cli", "1.0.0", "A mock CLI for testing.")
  {
    MockTexts();
    OneDotZeroIsVersion();
    ReturnedAsIs(manifest, "mock" + "-cli", "1.0.0", "A mock CLI for testing.");
  }

  /** The valid mock manifest of the synchronous tests. */
  lemma SyncMockManifestReturnedAsIs(manifest: Json)
    requires Property(manifest, BinKey) == None
    requires Property(manifest, NameKey) == Some(JString("mock" + "-cli" + "-sync"))
    requires Property(manifest, VersionKey) == Some(JString("1.0.0"))
    requires Property(manifest, DescriptionKey) == Some(JString("A mock CLI for sync testing."))
    ensures GetCliMetadataSync(Parsed(manifest), None) == Metadata("mock" + "-cli" + "-sync", "1.0.0", "A mock CLI for sync testing.")
  {
    MockTexts();
    OneDotZeroIsVersion();
    ReturnedAsIs(manifest, "mock" + "-cli" + "-sync", "1.0.0", "A mock CLI for sync testing.");
  }

  /** An unreadable manifest with only a name fallback. */
  lemma UnavailableUsesFallbacks()
    ensures GetCliMetadataAsync(Unavailable, Some(Fallbacks(Some("fallback-cli"), None, None)))
              == Metadata("fallback-cli", "0.0.0", "No description available.")
    ensures GetCliMetadataSync(Unavailable, Some(Fallbacks(Some("fallback-name"), None, None)))
              == Metadata("fallback-name", "0.0.0", "No description available.")
  {
  }

  lemma SlugOfMy() ensures Slugify("My") == "my" {}
  lemma SlugOfSpaceCli() ensures Slugify(" CLI") == "-cli" {}
  lemma SlugOfSpaceApp() ensures Slugify(" App") == "-app" {}
  lemma SlugOfSpaceSy() ensures Slugify(" Sy") == "-sy" {}
  lemma SlugOfNc() ensures Slugify("nc") == "nc" {}

  /** `"My CLI App"` slugifies to `"my-cli-app"`. */
  lemma MyCliAppSlug()
    ensures Slugify("My" + " CLI" + " App") == "my" + "-cli" + "-app"
  {
    SlugOfMy();
    SlugOfSpaceCli();
    SlugifyAppend("My", " CLI");
    SlugOfSpaceApp();
    SlugifyAppend("My" + " CLI", " App");
  }

  /** `"My Sync App"` slugifies to `"my-sync-app"`. */
  lemma MySyncAppSlug()
    ensures Slugify("My" + " Sy" + "nc" + " App") == "my" + "-sy" + "nc" + "-app"
  {
    SlugOfMy();
    SlugOfSpaceSy();
    SlugifyAppend("My", " Sy");
    SlugOfNc();
    SlugifyAppend("My" + " Sy", "nc");
    SlugOfSpaceApp();
    SlugifyAppend("My" + " Sy" + "nc", " App");
  }

  /** A name with capitals and spaces is slugified. */
  lemma NameIsSlugified(manifest: Json)
    requires Property(manifest, BinKey) == None
    requires Property(manifest, NameKey) == Some(JString("My" + " CLI" + " App"))
    ensures GetCliMetadataAsync(Parsed(manifest), None).name == "my" + "-cli" + "-app"
  {
    MyCliAppSlug();
    NameUsedWithoutBin(manifest, "My" + " CLI" + " App");
    ManifestNameKept(manifest, NoFallbacks, "my" + "-cli" + "-app");
  }

  lemma SyncNameIsSlugified(manifest: Json)
    requires Property(manifest, BinKey) == None
    requires Property(manifest, NameKey) == Some(JString("My" + " Sy" + "nc" + " App"))
    ensures GetCliMetadataSync(Parsed(manifest), None).name == "my" + "-sy" + "nc" + "-app"
  {
    MySyncAppSlug();
    NameUsedWithoutBin(manifest, "My" + " Sy" + "nc" + " App");
    ManifestNameKept(manifest, NoFallbacks, "my" + "-sy" + "nc" + "-app");
  }

  /** A one-member `bin` object whose key is already a valid CLI name gives that key. */
  lemma BinKeyIsName(manifest: Json, key: string)
    requires IsCliNameValid(key)
    requires Property(manifest, BinKey) == Some(JObject([(key, JString("./index.js"))]))
    ensures GetCliMetadataAsync(Parsed(manifest), None).name == key
    ensures GetCliMetadataSync(Parsed(manifest), None).name == key
  {
    SlugifyFixesSlugText(key);
    FirstBinKeyTakesPrecedence(manifest, key);
    ManifestNameKept(manifest, NoFallbacks, key);
  }

  lemma BinKeyTexts()
    ensures IsSlugText("my" + "-cli" + "-from" + "-bin")
    ensures IsSlugText("my" + "-sync" + "-cli")
  {
  }

  /** The first key of `bin` wins over `name`. */
  lemma BinKeyWinsOverName(manifest: Json)
    requires Property(manifest, NameKey) == Some(JString("my-app"))
    requires Property(manifest, BinKey) == Some(JObject([("my" + "-cli" + "-from" + "-bin", JString("./index.js"))]))
    ensures GetCliMetadataAsync(Parsed(manifest), None).name == "my" + "-cli" + "-from" + "-bin"
  {
    BinKeyTexts();
    BinKeyIsName(manifest, "my" + "-cli" + "-from" + "-bin");
  }

  lemma SyncBinKeyWinsOverName(manifest: Json)
    requires Property(manifest, NameKey) == Some(JString("my-app"))
    requires Property(manifest, BinKey) == Some(JObject([("my" + "-sync" + "-cli", JString("./index.js"))]))
    ensures GetCliMetadataSync(Parsed(manifest), None).name == "my" + "-sync" + "-cli"
  {
    BinKeyTexts();
    BinKeyIsName(manifest, "my" + "-sync" + "-cli");
  }

  lemma MalformedVersionTexts()
    ensures !IsVersionText("invalid") && !IsVersionText("not-semver")
  {
    assert LeadingDigits("invalid") == 0;
    assert LeadingDigits("not-semver") == 0;
  }

  /** Versions that do not match the pattern fall back to `"0.0.0"`. */
  lemma MalformedVersionsRejected(manifest: Json, v: string)
    requires v == "invalid" || v == "not-semver"
    requires Property(manifest, VersionKey) == Some(JString(v))
    ensures GetCliMetadataAsync(Parsed(manifest), None).version == "0.0.0"
    ensures GetCliMetadataSync(Parsed(manifest), None).version == "0.0.0"
  {
    MalformedVersionTexts();
    InvalidVersionIsAbsent(manifest, NoFallbacks);
    EntryPointsResolveLoadedOrEmpty(Parsed(manifest), None);
  }

  lemma BlankTexts(d: string)
    requires d == "   " || d == " "
    ensures !HasNonWhitespace(d)
  {
  }

  /** Whitespace-only descriptions fall back to the literal. */
  lemma BlankDescriptionsRejected(manifest: Json, d: string)
    requires d == "   " || d == " "
    requires Property(manifest, DescriptionKey) == Some(JString(d))
    ensures GetCliMetadataAsync(Parsed(manifest), None).description == "No description available."
    ensures GetCliMetadataSync(Parsed(manifest), None).description == "No description available."
  {
    BlankTexts(d);
    DescriptionKeptIffNonBlank(manifest, NoFallbacks, d);
    EntryPointsResolveLoadedOrEmpty(Parsed(manifest), None);
  }

  /**
   * `Object.keys` lists array-index keys first, so a `bin` object written with
   * `"tool"` before `"2"` yields the name `"2"`.
   */
  lemma IndexKeyListedFirst()
    ensures ObjectFirstKey(JObject([("tool", JString("./a.js")), ("2", JString("./b.js"))])) == Some("2")
  {
    assert !IsArrayIndex("tool");
    assert IsArrayIndex("2");
  }
}
