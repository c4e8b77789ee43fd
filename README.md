# cli-metadata-extractor: the metadata resolver

This project models the metadata resolver of cli-metadata-extractor
(`src/cli-metadata.js`) in Dafny, and proves what it promises. Given a parsed
`package.json` and an optional set of fallback values, the resolver returns a
`{name, version, description}` triple:

- the **name** is the slug of the first key of an object-typed `bin`, else of
  a string `bin`, else of a string `name`, and is kept only when it is a
  non-empty word over `[a-z0-9-_]`;
- the **version** is a string `version` matching
  `^\d+\.\d+\.\d+(-[\w\d-.]+)?$`, returned verbatim;
- the **description** is a string `description` that is not blank after
  `trim()`, returned untrimmed;
- each field falls back to the caller's fallback and then to `"unknown-cli"`,
  `"0.0.0"` or `"No description available."`. Because of `||`, an empty
  string counts as absent.

The two entry points, `getCliMetadata` and `getCliMetadataSync`, read the
file and call `JSON.parse`. Here that step is replaced by its outcome: either
`Unavailable` or `Parsed(value)`. Any failure gives the fallback-only triple.

Modules:

| file | module | what it holds |
|---|---|---|
| `options.dfy` | `Options` | `Option` |
| `js_text.dfy` | `JsText` | JavaScript's whitespace set (`\s` and `trim`), digits, ASCII letters, `trim` |
| `json.dfy` | `Json` | parsed JSON values, property reads (a repeated key keeps its last value), `Object.keys(...)[0]` |
| `slug.dfy` | `Slug` | `slugify` and `isCliNameValid` |
| `version.dfy` | `Version` | the version pattern as a recogniser, and a parse/render pair that describes it |
| `metadata.dfy` | `CliMetadata` | the three extractors, the defaulting, the two entry points |
| `scenarios.dfy` | `Scenarios` | the repository's unit-test cases, each stated for every manifest that has the test's fields |

Three details of the source that the model keeps:

- `Object.keys(bin)[0]` lists array-index keys (`"0"` to `"4294967294"`)
  first, in ascending numeric order, then the other keys in creation order;
  the model does the same.
- A non-empty `bin` array has first key `"0"`; an empty one has no first key.
- A manifest that parses to `null` makes the destructuring throw, so it takes
  the `catch` branch.

## Model

| member | source | states |
|---|---|---|
| JsText.LeadingWhitespace | src/cli-metadata.js:133 | the count of leading characters `trim()` removes: all of them are whitespace and the next character, if any, is not |
| JsText.TrailingWhitespaceStart | src/cli-metadata.js:133 | where the trailing whitespace `trim()` removes begins: everything from there on is whitespace and the character before it, if any, is not |
| JsText.Trim | src/cli-metadata.js:133 | `trim()` leaves the input with a run of leading and a run of trailing whitespace removed, and what it leaves neither starts nor ends with whitespace |
| JsText.TrimEmptyIffBlank | src/cli-metadata.js:133 | `trim().length > 0` holds exactly when the string has a non-whitespace character |
| JsText.TrimUnique | src/cli-metadata.js:133 | any cut of the input into leading whitespace, a middle that is empty or starts and ends with a non-whitespace character, and trailing whitespace has the trimmed string as its middle |
| Json.Lookup | src/cli-metadata.js:92 | reading a property finds nothing exactly when no member has the key; otherwise it finds the value of the last member with that key |
| Json.LeastIndexKey | src/cli-metadata.js:96 | none exactly when no key is an array index; otherwise an array-index key of some member that `Object.keys` lists no later than any other key |
| Json.FirstMemberKey | src/cli-metadata.js:96 | some key exactly when the object has members, and that key is one `Object.keys` lists first |
| Json.LookupAppendOther | src/cli-metadata.js:92 | a member added under another key does not change a property read |
| Json.LookupAppendSame | src/cli-metadata.js:92 | a member added under a key is what a read of that key finds, whatever came before |
| Json.LookupUnique | src/cli-metadata.js:92 | a key that occurs once is read from its one member |
| Slug.StripNonSlug | src/cli-metadata.js:90 | the result lies in `[a-z0-9-_]`, and is non-empty exactly when the input has a character of that class |
| Slug.Slugify | src/cli-metadata.js:86-91 | every character of a slug is in `[a-z0-9-_]` |
| Slug.SlugifyFixesSlugText | src/cli-metadata.js:86-91 | a string already in the slug alphabet is its own slug |
| Slug.SlugifyIdempotent | src/cli-metadata.js:86-91 | slugifying twice gives what slugifying once gives |
| Slug.SlugValidIffNonEmpty | src/cli-metadata.js:83-91 | `isCliNameValid` accepts a slug exactly when it is non-empty |
| Slug.SlugAcceptedIff | src/cli-metadata.js:83-91 | a candidate's slug is valid exactly when one of its characters is whitespace, a slug character, or a capital whose lower-case form contains an ASCII character (`A`–`Z`, U+212A, U+0130) |
| Slug.WhitespaceRunIsOneHyphen | src/cli-metadata.js:89 | a non-empty run of whitespace, and nothing else, slugifies to a single `-` |
| Slug.LowerAppend | src/cli-metadata.js:88 | lower-casing works character by character: it distributes over concatenation |
| Slug.CollapseAppend | src/cli-metadata.js:89 | collapsing whitespace runs over a concatenation is collapsing each part, the second one starting in the run state the first one ends in |
| Slug.StripAppend | src/cli-metadata.js:90 | stripping distributes over concatenation |
| Slug.SlugifyAppend | src/cli-metadata.js:86-91 | cutting a candidate anywhere except inside a whitespace run cuts its slug the same way |
| Slug.CollapseSurvivorsIff | src/cli-metadata.js:89-90 | after collapsing, a slug character is left exactly when the input had whitespace or a slug character |
| Slug.LowerSurvivorsIff | src/cli-metadata.js:88 | after lower-casing, whitespace or a slug character is present exactly when the input had a character that contributes to the slug |
| Version.LeadingDigits | src/cli-metadata.js:125 | the count of leading digits: the prefix it names is all digits and the next character is not a digit |
| Version.SplitDigits | src/cli-metadata.js:125 | the input splits into a digit prefix and a rest that does not start with a digit |
| Version.Parse | src/cli-metadata.js:125 | a string the version pattern accepts splits into well-formed major, minor, patch and optional pre-release parts that render back to the string |
| Version.RenderParses | src/cli-metadata.js:125 | every rendering of well-formed parts is accepted by the pattern and parses back to the same parts |
| Version.VersionTextIff | src/cli-metadata.js:125 | the pattern accepts exactly the renderings of well-formed parts |
| Version.RenderInjective | src/cli-metadata.js:125 | two well-formed versions render alike only when their parts are equal |
| Version.SplitDigitsOfGroup | src/cli-metadata.js:125 | a digit group followed by a non-digit splits at the group's end |
| CliMetadata.Or | src/cli-metadata.js:21-26 | `a \|\| b` for a string: `a` when it is present and non-empty, `b` otherwise |
| CliMetadata.AcceptSlug | src/cli-metadata.js:98-100 | a candidate is accepted exactly when one of its characters contributes to the slug, and what is accepted is a valid CLI name |
| CliMetadata.GetCliName | src/cli-metadata.js:82-120 | any name found is a valid CLI name |
| CliMetadata.NameFrom | src/cli-metadata.js:92-119 | any name found from `bin` and `name` is a valid CLI name |
| CliMetadata.GetCliVersion | src/cli-metadata.js:122-129 | a version is returned exactly when `version` is a string the pattern accepts, and it is that string verbatim |
| CliMetadata.GetCliDescription | src/cli-metadata.js:131-136 | a description is returned exactly when `description` is a string with a non-whitespace character, and it is that string untrimmed |
| CliMetadata.DefaultsAreWellFormed | src/cli-metadata.js:21-26 | `"unknown-cli"` is a valid CLI name, `"0.0.0"` matches the version pattern, and `"No description available."` is not blank |
| CliMetadata.GetMetadataFromPackage | src/cli-metadata.js:19-28 | every field is non-empty, and each is a valid value of its kind unless it is the caller's own fallback |
| CliMetadata.FallbackOnly | src/cli-metadata.js:46-50 | every field of the fallback-only triple is non-empty |
| CliMetadata.GetCliMetadataAsync | src/cli-metadata.js:39-52 | every field of the result is non-empty |
| CliMetadata.GetCliMetadataSync | src/cli-metadata.js:67-80 | every field of the result is non-empty |
| CliMetadata.FirstAccepted | src/cli-metadata.js:94-119 | none exactly when every candidate is rejected; otherwise the accepted form of some candidate all of whose predecessors are rejected |
| CliMetadata.GetCliNameIsFirstAccepted | src/cli-metadata.js:94-119 | the name is the first accepted candidate in the order: first key of an object `bin`, a string `bin`, a string `name` |
| CliMetadata.NameFromIsFirstAccepted | src/cli-metadata.js:94-119 | the same precedence, stated on the destructured `bin` and `name` |
| CliMetadata.FirstOfThree | src/cli-metadata.js:94-119 | first acceptance over three candidate slots tries the slots in order |
| CliMetadata.FirstAcceptedAppend | src/cli-metadata.js:94-119 | first acceptance over a slot followed by more candidates tries the slot first |
| CliMetadata.FirstBinKeyTakesPrecedence | src/cli-metadata.js:94-103 | an object `bin` whose first key has a valid slug decides the name, whatever `name` and the later keys hold |
| CliMetadata.OnlyFirstBinKeyExamined | src/cli-metadata.js:94-118 | when the first key of an object or array `bin` gives no valid slug, the name comes from `name` alone |
| CliMetadata.NameUsedWithoutBin | src/cli-metadata.js:112-118 | without `bin`, a string `name` with a valid slug gives that slug |
| CliMetadata.ManifestNameKept | src/cli-metadata.js:21 | a name found in the manifest beats the fallback |
| CliMetadata.NameIndependent | src/cli-metadata.js:21 | the resolved name depends only on `name`, `bin` and the name fallback |
| CliMetadata.VersionIndependent | src/cli-metadata.js:22 | the resolved version depends only on `version` and the version fallback |
| CliMetadata.DescriptionIndependent | src/cli-metadata.js:23-26 | the resolved description depends only on `description` and the description fallback |
| CliMetadata.AddedMemberTouchesOnlyItsField | src/cli-metadata.js:20-27 | adding or overriding one manifest member changes only the field that reads it |
| CliMetadata.AddedMemberKeepsName | src/cli-metadata.js:21 | a member other than `name` or `bin` does not change the name |
| CliMetadata.AddedMemberKeepsVersion | src/cli-metadata.js:22 | a member other than `version` does not change the version |
| CliMetadata.AddedMemberKeepsDescription | src/cli-metadata.js:23-26 | a member other than `description` does not change the description |
| CliMetadata.AddedMemberKeepsProperty | src/cli-metadata.js:92 | a member under another key does not change a property read |
| CliMetadata.NoManifestNameUsesFallback | src/cli-metadata.js:21 | when the manifest yields no valid name, the name resolves as on the failure path |
| CliMetadata.InvalidVersionIsAbsent | src/cli-metadata.js:22 | a version that is not a matching string resolves as on the failure path |
| CliMetadata.ValidVersionKept | src/cli-metadata.js:22 | a matching version is kept verbatim, whatever the fallback |
| CliMetadata.VersionTextNonEmpty | src/cli-metadata.js:125 | a matching version is non-empty |
| CliMetadata.DescriptionKeptIffNonBlank | src/cli-metadata.js:23-26 | a non-blank description is kept untrimmed; a blank one resolves as on the failure path |
| CliMetadata.WellFormedManifestKept | src/cli-metadata.js:19-28 | a manifest without `bin` whose name is a valid CLI name, whose version matches and whose description is not blank resolves to those three strings |
| CliMetadata.FallbackOnlyIsEmptyManifest | src/cli-metadata.js:45-51 | the failure path gives what resolving `{}` gives |
| CliMetadata.NonObjectManifestIsEmpty | src/cli-metadata.js:92 | an array, string, number or boolean has none of the four properties, so it resolves as `{}`; for `null` the destructuring throws, and the fallback triple it gets here is what the entry points' `catch` branch (src/cli-metadata.js:45-51, 73-79) returns |
| CliMetadata.EntryPointsResolveLoadedOrEmpty | src/cli-metadata.js:39-80 | both entry points resolve the parsed manifest, or `{}` when it is unavailable, against the fallbacks or `{}` in their place |
| CliMetadata.SyncAgreesWithAsync | src/cli-metadata.js:39-80 | the blocking and non-blocking entry points agree on every input |
| CliMetadata.MissingFallbacksActAsEmpty | src/cli-metadata.js:40 | a nullish or omitted fallback set behaves as `{}` |
| CliMetadata.EmptyFallbacksActAsAbsent | src/cli-metadata.js:47-49 | empty-string fallbacks are falsy and act as no fallbacks |
| CliMetadata.NothingGivesLiterals | src/cli-metadata.js:45-51 | with no usable manifest and no fallbacks, the triple is the three literals |
| Scenarios.OneDotZeroIsVersion | __tests__/unit/cli-metadata.test.js:15-19 | `"1.0.0"` matches the version pattern |
| Scenarios.ReturnedAsIs | __tests__/unit/cli-metadata.test.js:70-78 | a manifest without `bin`, with a slug-alphabet name, a matching version and a description not starting with whitespace comes back as is from both entry points |
| Scenarios.MockManifestReturnedAsIs | __tests__/unit/cli-metadata.test.js:70-78 | the async test's mock manifest resolves to `mock-cli`, `1.0.0`, `A mock CLI for testing.` |
| Scenarios.SyncMockManifestReturnedAsIs | __tests__/unit/cli-metadata.test.js:126-134 | the sync test's mock manifest resolves to `mock-cli-sync`, `1.0.0`, `A mock CLI for sync testing.` |
| Scenarios.UnavailableUsesFallbacks | __tests__/unit/cli-metadata.test.js:80-89 | an unreadable manifest with only a name fallback gives that name and the two literals (async `fallback-cli`; sync `fallback-name`, lines 136-145) |
| Scenarios.MyCliAppSlug | __tests__/unit/cli-metadata.test.js:91-94 | `"My CLI App"` slugifies to `"my-cli-app"` |
| Scenarios.MySyncAppSlug | __tests__/unit/cli-metadata.test.js:147-150 | `"My Sync App"` slugifies to `"my-sync-app"` |
| Scenarios.NameIsSlugified | __tests__/unit/cli-metadata.test.js:91-94 | a manifest named `"My CLI App"` without `bin` resolves to the name `"my-cli-app"` |
| Scenarios.SyncNameIsSlugified | __tests__/unit/cli-metadata.test.js:147-150 | a manifest named `"My Sync App"` without `bin` resolves to the name `"my-sync-app"` |
| Scenarios.BinKeyIsName | __tests__/unit/cli-metadata.test.js:96-99 | a one-member `bin` whose key is a valid CLI name gives that key from both entry points |
| Scenarios.BinKeyWinsOverName | __tests__/unit/cli-metadata.test.js:96-99 | `bin: { "my-cli-from-bin": ... }` wins over `name: "my-app"` |
| Scenarios.SyncBinKeyWinsOverName | __tests__/unit/cli-metadata.test.js:152-155 | `bin: { "my-sync-cli": ... }` wins over `name: "my-app"` |
| Scenarios.MalformedVersionTexts | __tests__/unit/cli-metadata.test.js:29-32 | `"invalid"` and `"not-semver"` do not match the version pattern |
| Scenarios.MalformedVersionsRejected | __tests__/unit/cli-metadata.test.js:101-104 | a manifest with version `"invalid"` or `"not-semver"` resolves to version `"0.0.0"` from both entry points |
| Scenarios.BlankTexts | __tests__/unit/cli-metadata.test.js:33-37 | `"   "` and `" "` have no non-whitespace character |
| Scenarios.BlankDescriptionsRejected | __tests__/unit/cli-metadata.test.js:106-109 | a manifest with description `"   "` or `" "` resolves to `"No description available."` from both entry points |
| Scenarios.IndexKeyListedFirst | src/cli-metadata.js:96 | a `bin` object written with `"tool"` before `"2"` has first key `"2"` |

## Left out

- Reading the file (`fsPromises.readFile`, `readFileSync`) and `JSON.parse` are not modelled. They are foreign I/O and parsing, and are replaced by their outcome: `Unavailable` or `Parsed(value)`. JSON numbers are kept as their literal text, because nothing reads them.
- The Promise of `getCliMetadata` is not modelled: the asynchronous entry point is a function like the blocking one.
- `toLowerCase` is exact only on the characters whose lower-case form contains an ASCII character: `A`–`Z`, U+212A and U+0130. Every other character is kept as it is. Its real lower-case form has no ASCII character and no whitespace, so the strip step removes both alike.
- Strings are sequences of Unicode scalar values. Lone UTF-16 surrogates cannot be written.
- Fallback values are `Option<string>`. A non-string truthy fallback, which `||` would pass through, is not modelled.
- Lower, CollapseRuns, CollapseWhitespace and ObjectFirstKey carry no contract of their own. They are specified by the lemmas about them (`LowerAppend`, `CollapseAppend`, `SlugAcceptedIff`, `FirstMemberKey`, `IndexKeyListedFirst`).
- Property has no contract of its own (the destructured reads, src/cli-metadata.js:92). It is specified by `Lookup` and `NonObjectManifestIsEmpty`.
- IsCliNameValid has no contract of its own (src/cli-metadata.js:83-85). It is specified by `SlugValidIffNonEmpty` and `SlugAcceptedIff`.
- IsVersionText has no contract of its own (src/cli-metadata.js:125). It is specified by `VersionTextIff`.
- FallbacksOrEmpty has no contract of its own (`fallbackValues || {}`, src/cli-metadata.js:40 and 68). It is specified by `MissingFallbacksActAsEmpty`.
- CandidatesFrom and NameCandidates have no contract of their own (the candidate order, src/cli-metadata.js:94-118). They are specified by `GetCliNameIsFirstAccepted` and `NameFromIsFirstAccepted`.
- GetCliName: its own contract says only that a found name is valid. Its precedence is stated by GetCliNameIsFirstAccepted, FirstBinKeyTakesPrecedence and OnlyFirstBinKeyExamined.
