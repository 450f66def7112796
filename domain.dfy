// The updater's records and enumerations: the browser families, the
// extension sources, the parsed extension descriptor, the shared
// GitHub-releases defaults and the per-extension result.
module Domain {
  import opened Common

  datatype BrowserType = Chromium | Firefox

  datatype ExtensionSource = ChromeStore | Amo | Bpc | Url | GithubReleases

  /** The enum member name, as string interpolation prints it. */
  function BrowserName(b: BrowserType): string {
    match b
    case Chromium => "Chromium"
    case Firefox => "Firefox"
  }

  function SourceName(s: ExtensionSource): string {
    match s
    case ChromeStore => "ChromeStore"
    case Amo => "Amo"
    case Bpc => "Bpc"
    case Url => "Url"
    case GithubReleases => "GithubReleases"
  }

  /** BrowserType.GetFileExtension: the package suffix of each family. */
  function GetFileExtension(b: BrowserType): (ext: string)
    ensures ext == (if b == Chromium then "crx" else "xpi")
  {
    if b == Chromium then "crx" else "xpi"
  }

  /** BrowserType.SupportsSource. */
  predicate SupportsSource(b: BrowserType, s: ExtensionSource) {
    match s
    case ChromeStore => b == Chromium
    case Amo => b == Firefox
    case Bpc => true
    case Url => true
    case GithubReleases => true
  }

  /** The support table as sets: the Chrome Web Store serves Chromium only,
      addons.mozilla.org serves Firefox only, the other three serve both. */
  lemma SupportMatrix()
    ensures (set s: ExtensionSource | SupportsSource(Chromium, s)) == {ChromeStore, Bpc, Url, GithubReleases}
    ensures (set s: ExtensionSource | SupportsSource(Firefox, s)) == {Amo, Bpc, Url, GithubReleases}
  {
    var c := set s: ExtensionSource | SupportsSource(Chromium, s);
    var f := set s: ExtensionSource | SupportsSource(Firefox, s);
    assert forall s: ExtensionSource :: s in c <==> s != Amo;
    assert forall s: ExtensionSource :: s in f <==> s != ChromeStore;
  }

  /** The source name as written in the configuration file. */
  function SourceTag(s: ExtensionSource): string {
    match s
    case ChromeStore => "chrome-store"
    case Amo => "amo"
    case Bpc => "bpc"
    case Url => "url"
    case GithubReleases => "github-releases"
  }

  /** `source`, defaulting to "chrome-store"; hyphens removed, then, as
      Enum.TryParse does, surrounding white space trimmed and the name matched
      case-insensitively against the enum names; anything unknown falls back
      to ChromeStore. Replace("-", "") is written as SubstChar, which equals
      ReplaceAll for a one-character pattern (Common.ReplaceOneChar). */
  function ParseSource(sourceStr: Option<string>): ExtensionSource {
    SourceOfKey(LowerAscii(Trim(SubstChar(OrElse(sourceStr, Some("chrome-store")).value, '-', ""))))
  }

  /** The enum member whose lower-cased name is `name`, else ChromeStore. */
  function SourceOfKey(name: string): ExtensionSource {
    if name == "chromestore" then ChromeStore
    else if name == "amo" then Amo
    else if name == "bpc" then Bpc
    else if name == "url" then Url
    else if name == "githubreleases" then GithubReleases
    else ChromeStore
  }

  /** A name without hyphens or surrounding white space parses as the source
      its lower-cased text names. */
  lemma ParsesWithoutHyphen(text: string, s: ExtensionSource)
    requires '-' !in text
    requires text != [] && !IsWhiteSpace(text[0]) && !IsWhiteSpace(text[|text| - 1])
    requires SourceOfKey(LowerAscii(text)) == s
    ensures ParseSource(Some(text)) == s
  {
    SubstCharAbsent(text, '-', "");
    TrimNoWhiteEnds(text);
  }

  /** A name with one hyphen parses as the source its text, without the
      hyphen and lower-cased, names. */
  lemma ParsesHyphenated(a: string, b: string, s: ExtensionSource)
    requires '-' !in a && '-' !in b
    requires a != [] && b != [] && !IsWhiteSpace(a[0]) && !IsWhiteSpace(b[|b| - 1])
    requires SourceOfKey(LowerAscii(a + b)) == s
    ensures ParseSource(Some(a + "-" + b)) == s
  {
    DropChar(a, b, '-');
    assert a + "-" + b == a + ['-'] + b;
    TrimNoWhiteEnds(a + b);
  }

  lemma ChromeStoreTagParses()
    ensures ParseSource(Some("chrome" + "-" + "store")) == ChromeStore
  {
    assert "chrome" + "store" == "chromestore";
    assert LowerAscii("chromestore") == "chromestore";
    ParsesHyphenated("chrome", "store", ChromeStore);
  }

  lemma GithubReleasesTagParses()
    ensures ParseSource(Some("github" + "-" + "releases")) == GithubReleases
  {
    assert "github" + "releases" == "githubreleases";
    assert LowerAscii("githubreleases") == "githubreleases";
    ParsesHyphenated("github", "releases", GithubReleases);
  }

  lemma HyphenatedTagsSplit()
    ensures "chrome-store" == "chrome" + "-" + "store"
    ensures "github-releases" == "github" + "-" + "releases"
  {
  }

  /** The hyphenated spelling used in configuration files parses back. */
  lemma ParseSourceTag(s: ExtensionSource)
    ensures ParseSource(Some(SourceTag(s))) == s
  {
    match s
    case ChromeStore =>
      ChromeStoreTagParses();
      HyphenatedTagsSplit();
    case Amo =>
      assert LowerAscii("amo") == "amo";
      ParsesWithoutHyphen("amo", Amo);
    case Bpc =>
      assert LowerAscii("bpc") == "bpc";
      ParsesWithoutHyphen("bpc", Bpc);
    case Url =>
      assert LowerAscii("url") == "url";
      ParsesWithoutHyphen("url", Url);
    case GithubReleases =>
      GithubReleasesTagParses();
      HyphenatedTagsSplit();
  }

  lemma LowerSourceNames()
    ensures LowerAscii("ChromeStore") == "chromestore"
    ensures LowerAscii("Amo") == "amo"
    ensures LowerAscii("Bpc") == "bpc"
    ensures LowerAscii("Url") == "url"
    ensures LowerAscii("GithubReleases") == "githubreleases"
  {
  }

  /** The enum member name parses back. */
  lemma ParseSourceName(s: ExtensionSource)
    ensures ParseSource(Some(SourceName(s))) == s
  {
    LowerSourceNames();
    match s
    case ChromeStore => ParsesWithoutHyphen("ChromeStore", ChromeStore);
    case Amo => ParsesWithoutHyphen("Amo", Amo);
    case Bpc => ParsesWithoutHyphen("Bpc", Bpc);
    case Url => ParsesWithoutHyphen("Url", Url);
    case GithubReleases => ParsesWithoutHyphen("GithubReleases", GithubReleases);
  }

  /** Both spellings map back to their source: the hyphenated one used in
      configuration files and the enum member name itself. */
  lemma ParseSourceRoundTrip(s: ExtensionSource)
    ensures ParseSource(Some(SourceTag(s))) == s
    ensures ParseSource(Some(SourceName(s))) == s
  {
    ParseSourceTag(s);
    ParseSourceName(s);
  }

  /** White space around the name is ignored, as Enum.TryParse trims it:
      " amo " is AMO, not the ChromeStore fallback. */
  lemma SurroundingSpaceIgnored(t: string)
    requires t != [] && '-' !in t && !IsWhiteSpace(t[0]) && !IsWhiteSpace(t[|t| - 1])
    ensures ParseSource(Some(" " + t + " ")) == ParseSource(Some(t))
  {
    var spaced := " " + t + " ";
    assert '-' !in spaced;
    SubstCharAbsent(spaced, '-', "");
    SubstCharAbsent(t, '-', "");
    TrimNoWhiteEnds(t);
    TrimSpaced(t);
  }

  /** A missing `source` means the Chrome Web Store. */
  lemma MissingSourceIsChromeStore()
    ensures ParseSource(None) == ChromeStore
  {
    ParseSourceRoundTrip(ChromeStore);
  }

  /** One `[[extensions]]` table after parsing; every optional field is a
      nullable string. */
  datatype Extension = Extension(
    id: string,
    name: Option<string>,
    source: ExtensionSource,
    url: Option<string>,
    condition: Option<string>,
    owner: Option<string>,
    repo: Option<string>,
    pattern: Option<string>,
    version: Option<string>)

  /** `[config.sources.github-releases]`: run-wide defaults. */
  datatype GithubReleaseConfig = GithubReleaseConfig(owner: Option<string>, repo: Option<string>, pattern: Option<string>)

  const NoGithubConfig := GithubReleaseConfig(None, None, None)

  /** ExtensionResult: a failure carries only the error; a success carries
      the rendered entry, the version and the permissions. */
  datatype ExtensionResult = ExtensionResult(
    extension: Extension,
    error: Option<Error>,
    nixEntry: Option<string>,
    version: Option<string>,
    permissions: Option<seq<string>>)

  function Failed(ext: Extension, e: Error): (r: ExtensionResult)
    ensures r.extension == ext && r.error == Some(e)
    ensures r.nixEntry.None? && r.version.None? && r.permissions.None?
  {
    ExtensionResult(ext, Some(e), None, None, None)
  }

  /** The shape every result the updater builds has: exactly one of error and
      entry is set, and version and permissions go with the entry. */
  predicate WellFormed(r: ExtensionResult) {
    (r.error.Some? <==> r.nixEntry.None?)
    && (r.nixEntry.Some? <==> r.version.Some?)
    && (r.nixEntry.Some? <==> r.permissions.Some?)
  }

  /** string.IsNullOrEmpty(ext.Condition): the extension is guarded. */
  predicate HasCondition(e: Extension) {
    !IsNullOrEmpty(e.condition)
  }
}
