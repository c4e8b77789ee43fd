/**
 * The metadata resolver: `_getCliName`, `_getCliVersion`,
 * `_getCliDescription`, the defaulting of `_getMetadataFromPackage`, and the
 * two entry points `getCliMetadata` and `getCliMetadataSync`, whose file read
 * and `JSON.parse` are replaced by their outcome.
 */
module CliMetadata {
  import opened Options
  import opened JsText
  import opened Json
  import opened Slug
  import opened Version

  /** The resolved triple; every field is a non-empty string. */
  datatype Metadata = Metadata(name: string, version: string, description: string)

  /**
   * The caller's fallback set. A field that is absent or falsy is `None` or
   * the empty string; a truthy fallback that is not a string is not modelled.
   */
  datatype Fallbacks = Fallbacks(name: Option<string>, version: Option<string>, description: Option<string>)

  const NoFallbacks: Fallbacks := Fallbacks(None, None, None)

  const DefaultName: string := "unknown-cli"
  const DefaultVersion: string := "0.0.0"
  const DefaultDescription: string := "No description available."

  /** The manifest text as the file read and `JSON.parse` leave it. */
  datatype Loaded =
    | Unavailable          // the read failed or the text is not JSON
    | Parsed(value: Json)

  /**
   * JavaScript's `a || b` for a string-or-undefined `a`: `a` unless it is
   * undefined or the empty string, which is falsy.
   */
  function Or(a: Option<string>, b: string): (r: string)
    ensures a.Some? && a.value != [] ==> r == a.value
    ensures a.None? || a.value == [] ==> r == b
  {
    if a.Some? && a.value != [] then a.value else b
  }

  /** The slug of `candidate` when `isCliNameValid` accepts it. */
  function AcceptSlug(candidate: string): (r: Option<string>)
    ensures r.Some? ==> IsCliNameValid(r.value)
    ensures r.Some? <==> exists i :: 0 <= i < |candidate| && Contributes(candidate[i])
  {
    var slug := Slugify(candidate);
    SlugAcceptedIff(candidate);
    if IsCliNameValid(slug) then Some(slug) else None
  }

  /**
   * `_getCliName`: the slug of the first key of an object-typed `bin`, else the
   * slug of a string `bin`, else the slug of a string `name`, each only when
   * it is a valid CLI name.
   */
  function GetCliName(manifest: Json): (r: Option<string>)
    ensures r.Some? ==> IsCliNameValid(r.value)
  {
    NameFrom(Property(manifest, BinKey), Property(manifest, NameKey))
  }

  /** `_getCliName` after `const { name, bin } = packageJson`. */
  function NameFrom(bin: Option<Json>, name: Option<Json>): (r: Option<string>)
    ensures r.Some? ==> IsCliNameValid(r.value)
  {
    var firstKey := if bin.Some? then ObjectFirstKey(bin.value) else None;
    if firstKey.Some? && firstKey.value != [] && AcceptSlug(firstKey.value).Some? then
      AcceptSlug(firstKey.value)
    else if bin.Some? && bin.value.JString? && AcceptSlug(bin.value.s).Some? then
      AcceptSlug(bin.value.s)
    else if name.Some? && name.value.JString? && AcceptSlug(name.value.s).Some? then
      AcceptSlug(name.value.s)
    else
      None
  }

  /** `_getCliVersion`: a string `version` that matches the pattern, verbatim. */
  function GetCliVersion(manifest: Json): (r: Option<string>)
    ensures r.Some? <==> exists v :: Property(manifest, VersionKey) == Some(JString(v)) && IsVersionText(v)
    ensures r.Some? ==> Property(manifest, VersionKey) == Some(JString(r.value))
  {
    match Property(manifest, VersionKey)
    case Some(JString(v)) => if IsVersionText(v) then Some(v) else None
    case _ => None
  }

  /**
   * `_getCliDescription`: a string `description` whose trimmed form is not
   * empty, returned untrimmed.
   */
  function GetCliDescription(manifest: Json): (r: Option<string>)
    ensures r.Some? <==> exists d :: Property(manifest, DescriptionKey) == Some(JString(d)) && HasNonWhitespace(d)
    ensures r.Some? ==> Property(manifest, DescriptionKey) == Some(JString(r.value))
  {
    match Property(manifest, DescriptionKey)
    case Some(JString(d)) =>
      TrimEmptyIffBlank(d);
      if |Trim(d)| > 0 then Some(d) else None
    case _ => None
  }

  lemma DefaultsAreWellFormed()
    ensures IsCliNameValid(DefaultName)
    ensures IsVersionText(DefaultVersion)
    ensures HasNonWhitespace(DefaultDescription)
  {
    assert !IsJsWhitespace(DefaultDescription[0]);
    RenderParses(VersionParts("0", "0", "0", None));
    assert Render(VersionParts("0", "0", "0", None)) == DefaultVersion;
  }

  /**
   * `_getMetadataFromPackage`. Every field is non-empty, and each is a valid
   * value of its kind unless it is the caller's own fallback.
   */
  function GetMetadataFromPackage(manifest: Json, fallbacks: Fallbacks): (r: Metadata)
    ensures |r.name| > 0 && |r.version| > 0 && |r.description| > 0
    ensures IsCliNameValid(r.name) || Some(r.name) == fallbacks.name
    ensures IsVersionText(r.version) || Some(r.version) == fallbacks.version
    ensures HasNonWhitespace(r.description) || Some(r.description) == fallbacks.description
  {
    DefaultsAreWellFormed();
    Metadata(
      Or(GetCliName(manifest), Or(fallbacks.name, DefaultName)),
      Or(GetCliVersion(manifest), Or(fallbacks.version, DefaultVersion)),
      Or(GetCliDescription(manifest), Or(fallbacks.description, DefaultDescription)))
  }

  /** The `catch` branch of both entry points: the triple built from the fallbacks alone. */
  function FallbackOnly(fallbacks: Fallbacks): (r: Metadata)
    ensures |r.name| > 0 && |r.version| > 0 && |r.description| > 0
  {
    Metadata(
      Or(fallbacks.name, DefaultName),
      Or(fallbacks.version, DefaultVersion),
      Or(fallbacks.description, DefaultDescription))
  }

  /** `fallbackValues || {}`, with the parameter's default `{}` when omitted. */
  function FallbacksOrEmpty(fallbackValues: Option<Fallbacks>): Fallbacks {
    if fallbackValues.Some? then fallbackValues.value else NoFallbacks
  }

  /**
   * `getCliMetadata`. Reading a property of `null` throws inside the `try`, so
   * a manifest that parses to `null` also takes the `catch` branch.
   */
  function GetCliMetadataAsync(loaded: Loaded, fallbackValues: Option<Fallbacks>): (r: Metadata)
    ensures |r.name| > 0 && |r.version| > 0 && |r.description| > 0
  {
    var fallbacks := FallbacksOrEmpty(fallbackValues);
    match loaded
    case Unavailable => FallbackOnly(fallbacks)
    case Parsed(JNull) => FallbackOnly(fallbacks)
    case Parsed(manifest) => GetMetadataFromPackage(manifest, fallbacks)
  }

  /** `getCliMetadataSync`: the same steps with a blocking read. */
  function GetCliMetadataSync(loaded: Loaded, fallbackValues: Option<Fallbacks>): (r: Metadata)
    ensures |r.name| > 0 && |r.version| > 0 && |r.description| > 0
  {
    var fallbacks := FallbacksOrEmpty(fallbackValues);
    match loaded
    case Unavailable => FallbackOnly(fallbacks)
    case Parsed(JNull) => FallbackOnly(fallbacks)
    case Parsed(manifest) => GetMetadataFromPackage(manifest, fallbacks)
  }

  /** The candidates `_getCliName` tries, highest precedence first. */
  function NameCandidates(manifest: Json): seq<string> {
    CandidatesFrom(Property(manifest, BinKey), Property(manifest, NameKey))
  }

  function CandidatesFrom(bin: Option<Json>, name: Option<Json>): seq<string> {
    var firstKey := if bin.Some? then ObjectFirstKey(bin.value) else None;
    (if firstKey.Some? && firstKey.value != [] then [firstKey.value] else [])
      + ((if bin.Some? && bin.value.JString? then [bin.value.s] else [])
      + (if name.Some? && name.value.JString? then [name.value.s] else []))
  }

  /** The result of `accept` on the first candidate it accepts, if it accepts any. */
  function FirstAccepted(candidates: seq<string>, accept: string -> Option<string>): (r: Option<string>)
    ensures r.None? <==> forall i :: 0 <= i < |candidates| ==> accept(candidates[i]).None?
    ensures r.Some? ==> exists i :: 0 <= i < |candidates| && accept(candidates[i]) == r
                          && forall j :: 0 <= j < i ==> accept(candidates[j]).None?
  {
    if candidates == [] then None
    else if accept(candidates[0]).Some? then accept(candidates[0])
    else
      var r := FirstAccepted(candidates[1..], accept);
      assert forall i :: 0 < i < |candidates| ==> candidates[i] == candidates[1..][i - 1];
      if r.Some? then
        ghost var i :| 0 <= i < |candidates[1..]| && accept(candidates[1..][i]) == r
                       && forall j :: 0 <= j < i ==> accept(candidates[1..][j]).None?;
        ghost var i' := i + 1;
        assert accept(candidates[i']) == r;
        r
      else
        r
  }

  /**
   * The name is the first accepted candidate in the order: the first key of
   * an object-typed `bin`, a string `bin`, a string `name`.
   */
  lemma GetCliNameIsFirstAccepted(manifest: Json)
    ensures GetCliName(manifest) == FirstAccepted(NameCandidates(manifest), AcceptSlug)
  {
    NameFromIsFirstAccepted(Property(manifest, BinKey), Property(manifest, NameKey));
  }

  lemma NameFromIsFirstAccepted(bin: Option<Json>, name: Option<Json>)
    ensures NameFrom(bin, name) == FirstAccepted(CandidatesFrom(bin, name), AcceptSlug)
  {
    var firstKey := if bin.Some? then ObjectFirstKey(bin.value) else None;
    var c1 := if firstKey.Some? && firstKey.value != [] then [firstKey.value] else [];
    var c2 := if bin.Some? && bin.value.JString? then [bin.value.s] else [];
    var c3 := if name.Some? && name.value.JString? then [name.value.s] else [];
    FirstOfThree(c1, c2, c3, AcceptSlug);
  }

  lemma FirstOfThree(c1: seq<string>, c2: seq<string>, c3: seq<string>, accept: string -> Option<string>)
    requires |c1| <= 1 && |c2| <= 1 && |c3| <= 1
    ensures FirstAccepted(c1 + (c2 + c3), accept)
            == if c1 != [] && accept(c1[0]).Some? then accept(c1[0])
               else if c2 != [] && accept(c2[0]).Some? then accept(c2[0])
               else if c3 != [] && accept(c3[0]).Some? then accept(c3[0])
               else None
  {
    FirstAcceptedAppend(c1, c2 + c3, accept);
    FirstAcceptedAppend(c2, c3, accept);
    FirstAcceptedAppend(c3, [], accept);
    assert c3 + [] == c3;
  }

  lemma FirstAcceptedAppend(a: seq<string>, b: seq<string>, accept: string -> Option<string>)
    requires |a| <= 1
    ensures FirstAccepted(a + b, accept) == if a != [] && accept(a[0]).Some? then accept(a[0]) else FirstAccepted(b, accept)
  {
    if a != [] {
      assert (a + b)[1..] == b;
    } else {
      assert a + b == b;
    }
  }

  /**
   * An object-typed `bin` whose first key yields a valid slug decides the name,
   * whatever `name` holds and whatever the later keys of `bin` are.
   */
  lemma FirstBinKeyTakesPrecedence(manifest: Json, key: string)
    requires Property(manifest, BinKey).Some?
    requires ObjectFirstKey(Property(manifest, BinKey).value) == Some(key)
    requires IsCliNameValid(Slugify(key))
    ensures GetCliName(manifest) == Some(Slugify(key))
  {
  }

  /**
   * Only the first key of an object-typed `bin` is examined: when it yields no
   * valid slug, the name comes from `name` alone.
   */
  lemma OnlyFirstBinKeyExamined(manifest: Json)
    requires Property(manifest, BinKey).Some?
    requires Property(manifest, BinKey).value.JObject? || Property(manifest, BinKey).value.JArray?
    requires var k := ObjectFirstKey(Property(manifest, BinKey).value); k.None? || !IsCliNameValid(Slugify(k.value))
    ensures GetCliName(manifest) == match Property(manifest, NameKey)
                                    case Some(JString(n)) => AcceptSlug(n)
                                    case _ => None
  {
  }

  /** Without a `bin`, the name is the slug of a string `name` when that slug is valid. */
  lemma NameUsedWithoutBin(manifest: Json, n: string)
    requires Property(manifest, BinKey).None? && Property(manifest, NameKey) == Some(JString(n))
    requires IsCliNameValid(Slugify(n))
    ensures GetCliName(manifest) == Some(Slugify(n))
  {
  }

  /** A name the manifest yields beats the fallback. */
  lemma ManifestNameKept(manifest: Json, fallbacks: Fallbacks, n: string)
    requires GetCliName(manifest) == Some(n)
    ensures GetMetadataFromPackage(manifest, fallbacks).name == n
  {
  }

  /** The resolved name depends on nothing but `name`, `bin` and the name fallback. */
  lemma NameIndependent(m1: Json, m2: Json, f1: Fallbacks, f2: Fallbacks)
    requires Property(m1, NameKey) == Property(m2, NameKey) && Property(m1, BinKey) == Property(m2, BinKey)
    requires f1.name == f2.name
    ensures GetMetadataFromPackage(m1, f1).name == GetMetadataFromPackage(m2, f2).name
  {
  }

  /** The resolved version depends on nothing but `version` and the version fallback. */
  lemma VersionIndependent(m1: Json, m2: Json, f1: Fallbacks, f2: Fallbacks)
    requires Property(m1, VersionKey) == Property(m2, VersionKey) && f1.version == f2.version
    ensures GetMetadataFromPackage(m1, f1).version == GetMetadataFromPackage(m2, f2).version
  {
  }

  /** The resolved description depends on nothing but `description` and its fallback. */
  lemma DescriptionIndependent(m1: Json, m2: Json, f1: Fallbacks, f2: Fallbacks)
    requires Property(m1, DescriptionKey) == Property(m2, DescriptionKey) && f1.description == f2.description
    ensures GetMetadataFromPackage(m1, f1).description == GetMetadataFromPackage(m2, f2).description
  {
  }

  /**
   * Adding (or overriding, by a later duplicate) one member of the manifest
   * changes only the field that reads it.
   */
  lemma AddedMemberTouchesOnlyItsField(members: seq<(string, Json)>, key: string, v: Json, fallbacks: Fallbacks)
    ensures var before := GetMetadataFromPackage(JObject(members), fallbacks);
            var after := GetMetadataFromPackage(JObject(members + [(key, v)]), fallbacks);
            && (key != "name" && key != "bin" ==> after.name == before.name)
            && (key != "version" ==> after.version == before.version)
            && (key != "description" ==> after.description == before.description)
  {
    if key != "name" && key != "bin" {
      AddedMemberKeepsName(members, key, v, fallbacks);
    }
    if key != "version" {
      AddedMemberKeepsVersion(members, key, v, fallbacks);
    }
    if key != "description" {
      AddedMemberKeepsDescription(members, key, v, fallbacks);
    }
  }

  lemma AddedMemberKeepsVersion(members: seq<(string, Json)>, key: string, v: Json, fallbacks: Fallbacks)
    requires key != "version"
    ensures GetMetadataFromPackage(JObject(members + [(key, v)]), fallbacks).version
            == GetMetadataFromPackage(JObject(members), fallbacks).version
  {
    AddedMemberKeepsProperty(members, key, v, VersionKey);
    VersionIndependent(JObject(members), JObject(members + [(key, v)]), fallbacks, fallbacks);
  }

  lemma AddedMemberKeepsDescription(members: seq<(string, Json)>, key: string, v: Json, fallbacks: Fallbacks)
    requires key != "description"
    ensures GetMetadataFromPackage(JObject(members + [(key, v)]), fallbacks).description
            == GetMetadataFromPackage(JObject(members), fallbacks).description
  {
    AddedMemberKeepsProperty(members, key, v, DescriptionKey);
    DescriptionIndependent(JObject(members), JObject(members + [(key, v)]), fallbacks, fallbacks);
  }

  lemma AddedMemberKeepsName(members: seq<(string, Json)>, key: string, v: Json, fallbacks: Fallbacks)
    requires key != "name" && key != "bin"
    ensures GetMetadataFromPackage(JObject(members + [(key, v)]), fallbacks).name
            == GetMetadataFromPackage(JObject(members), fallbacks).name
  {
    AddedMemberKeepsProperty(members, key, v, NameKey);
    AddedMemberKeepsProperty(members, key, v, BinKey);
    NameIndependent(JObject(members), JObject(members + [(key, v)]), fallbacks, fallbacks);
  }

  lemma AddedMemberKeepsProperty(members: seq<(string, Json)>, key: string, v: Json, k: Key)
    requires KeyText(k) != key
    ensures Property(JObject(members + [(key, v)]), k) == Property(JObject(members), k)
  {
    LookupAppendOther(members, KeyText(k), key, v);
  }

  /** When the manifest yields no name, the name resolves as on the failure path. */
  lemma NoManifestNameUsesFallback(manifest: Json, fallbacks: Fallbacks)
    requires GetCliName(manifest).None?
    ensures GetMetadataFromPackage(manifest, fallbacks).name == FallbackOnly(fallbacks).name
  {
  }

  /**
   * A version that is not a string matching the pattern counts as absent: the
   * field resolves as on the failure path.
   */
  lemma InvalidVersionIsAbsent(manifest: Json, fallbacks: Fallbacks)
    requires forall v :: Property(manifest, VersionKey) == Some(JString(v)) ==> !IsVersionText(v)
    ensures GetMetadataFromPackage(manifest, fallbacks).version == FallbackOnly(fallbacks).version
  {
  }

  /** A matching version is kept verbatim, whatever the fallback. */
  lemma ValidVersionKept(manifest: Json, fallbacks: Fallbacks, v: string)
    requires Property(manifest, VersionKey) == Some(JString(v)) && IsVersionText(v)
    ensures GetMetadataFromPackage(manifest, fallbacks).version == v
  {
    VersionTextNonEmpty(v);
  }

  lemma VersionTextNonEmpty(v: string)
    requires IsVersionText(v)
    ensures |v| > 0
  {
  }

  /**
   * A blank description counts as absent; any other string description is
   * kept untrimmed.
   */
  lemma DescriptionKeptIffNonBlank(manifest: Json, fallbacks: Fallbacks, d: string)
    requires Property(manifest, DescriptionKey) == Some(JString(d))
    ensures HasNonWhitespace(d) ==> GetMetadataFromPackage(manifest, fallbacks).description == d
    ensures !HasNonWhitespace(d) ==> GetMetadataFromPackage(manifest, fallbacks).description == FallbackOnly(fallbacks).description
  {
  }

  /**
   * A manifest without `bin` whose name is already a valid CLI name, whose
   * version matches and whose description is not blank resolves to exactly
   * those three strings, whatever the fallbacks.
   */
  lemma WellFormedManifestKept(manifest: Json, fallbacks: Fallbacks, n: string, v: string, d: string)
    requires Property(manifest, BinKey) == None && Property(manifest, NameKey) == Some(JString(n))
    requires Property(manifest, VersionKey) == Some(JString(v))
    requires Property(manifest, DescriptionKey) == Some(JString(d))
    requires IsCliNameValid(n) && IsVersionText(v) && HasNonWhitespace(d)
    ensures GetMetadataFromPackage(manifest, fallbacks) == Metadata(n, v, d)
  {
    SlugifyFixesSlugText(n);
    NameUsedWithoutBin(manifest, n);
    ValidVersionKept(manifest, fallbacks, v);
    DescriptionKeptIffNonBlank(manifest, fallbacks, d);
  }

  /** The failure path gives what resolving an empty manifest gives. */
  lemma FallbackOnlyIsEmptyManifest(fallbacks: Fallbacks)
    ensures FallbackOnly(fallbacks) == GetMetadataFromPackage(JObject([]), fallbacks)
  {
  }

  /** A manifest that is not an object has none of the four properties, so it acts as `{}`. */
  lemma NonObjectManifestIsEmpty(manifest: Json, fallbacks: Fallbacks)
    requires !manifest.JObject?
    ensures GetMetadataFromPackage(manifest, fallbacks) == FallbackOnly(fallbacks)
  {
  }

  /**
   * Both entry points resolve the parsed manifest, or an empty one when it is
   * unavailable, against the fallback set or `{}` in its place.
   */
  lemma EntryPointsResolveLoadedOrEmpty(loaded: Loaded, fallbackValues: Option<Fallbacks>)
    ensures var manifest := if loaded.Parsed? then loaded.value else JObject([]);
            && GetCliMetadataAsync(loaded, fallbackValues) == GetMetadataFromPackage(manifest, FallbacksOrEmpty(fallbackValues))
            && GetCliMetadataSync(loaded, fallbackValues) == GetMetadataFromPackage(manifest, FallbacksOrEmpty(fallbackValues))
  {
    FallbackOnlyIsEmptyManifest(FallbacksOrEmpty(fallbackValues));
    if loaded.Parsed? && loaded.value.JNull? {
      NonObjectManifestIsEmpty(JNull, FallbacksOrEmpty(fallbackValues));
    }
  }

  /** The blocking and non-blocking entry points agree on every input. */
  lemma SyncAgreesWithAsync(loaded: Loaded, fallbackValues: Option<Fallbacks>)
    ensures GetCliMetadataSync(loaded, fallbackValues) == GetCliMetadataAsync(loaded, fallbackValues)
  {
  }

  /** A `null` or omitted fallback set behaves as `{}`. */
  lemma MissingFallbacksActAsEmpty(loaded: Loaded)
    ensures GetCliMetadataAsync(loaded, None) == GetCliMetadataAsync(loaded, Some(NoFallbacks))
    ensures GetCliMetadataSync(loaded, None) == GetCliMetadataSync(loaded, Some(NoFallbacks))
  {
  }

  /** An empty-string fallback is falsy for `||`, so it acts as no fallback at all. */
  lemma EmptyFallbacksActAsAbsent(loaded: Loaded)
    ensures GetCliMetadataAsync(loaded, Some(Fallbacks(Some(""), Some(""), Some(""))))
            == GetCliMetadataAsync(loaded, None)
    ensures GetCliMetadataSync(loaded, Some(Fallbacks(Some(""), Some(""), Some(""))))
            == GetCliMetadataSync(loaded, None)
  {
  }

  /** With no usable manifest and no fallbacks, the triple is the three literals. */
  lemma NothingGivesLiterals(loaded: Loaded)
    requires loaded.Unavailable? || !loaded.value.JObject?
    ensures GetCliMetadataAsync(loaded, None) == Metadata(DefaultName, DefaultVersion, DefaultDescription)
  {
    if loaded.Parsed? {
      NonObjectManifestIsEmpty(loaded.value, NoFallbacks);
    }
  }
}
