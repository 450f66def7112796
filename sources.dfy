// ExtensionSourceHandler: turning an extension into a download URL. The
// unsupported-source guard, the `url` pass-through and the GitHub-releases
// resolution are modelled in full; the Chrome Web Store, AMO and GitHub
// APIs and the `git ls-remote` subprocess are collaborators in an Io record.
module Sources {
  import opened Common
  import opened Domain
  import opened Process

  /** The status and Location header of a response fetched without
      following redirects. */
  datatype HttpResponse = HttpResponse(status: int, location: Option<string>)

  /** AmoAddon.current_version.file.url, each level nullable: `url` is
      declared non-nullable but is null when the JSON omits it. */
  datatype AmoFile = AmoFile(url: Option<string>)
  datatype AmoVersion = AmoVersion(file: Option<AmoFile>)
  datatype AmoAddon = AmoAddon(currentVersion: Option<AmoVersion>)

  /** GitHubRelease: `tag_name` and `name`, both nullable. */
  datatype GitHubRelease = GitHubRelease(tagName: Option<string>, name: Option<string>)

  /** The world the handlers talk to. Each HTTP collaborator yields an error
      for a failed request or a non-success status (EnsureSuccessStatusCode)
      and otherwise the deserialized body. */
  datatype Io = Io(
    chromeStoreGet: string -> Result<HttpResponse>,
    amoGet: string -> Result<AmoAddon>,
    githubGet: (string, Option<string>) -> Result<GitHubRelease>,
    run: Runner,
    envToken: Option<string>)

  // ---------------------------------------------------------------------
  // FetchUrlAsync: the guard and the dispatch
  // ---------------------------------------------------------------------

  function UnsupportedMessage(source: ExtensionSource, browser: BrowserType): string {
    "Source '" + SourceName(source) + "' is not supported for " + BrowserName(browser) + " browser"
  }

  /** FetchUrlAsync: the URL (null when a handler finds none) or the error,
      whether returned or thrown by the handler. */
  function FetchUrl(ext: Extension, config: GithubReleaseConfig, browser: BrowserType,
                    browserVersion: Option<string>, io: Io): (r: Result<Option<string>>)
    ensures !SupportsSource(browser, ext.source) ==> r == Err(Raised(UnsupportedMessage(ext.source, browser)))
    ensures SupportsSource(browser, ext.source) ==>
      r == match ext.source
        case ChromeStore => FetchChromeStoreUrl(ext.id, browserVersion, io)
        case Amo => Ok(FetchAmoUrl(ext.id, io))
        case Bpc => FetchBpcUrl(browser, io)
        case Url => FetchUrlSource(ext)
        case GithubReleases => FetchGithubReleaseUrl(ext, config, browser, io)
  {
    if !SupportsSource(browser, ext.source) then Err(Raised(UnsupportedMessage(ext.source, browser)))
    else Handler(ext, config, browser, browserVersion, io)
  }

  /** The handler FetchUrlAsync dispatches to for the extension's source. */
  function Handler(ext: Extension, config: GithubReleaseConfig, browser: BrowserType,
                   browserVersion: Option<string>, io: Io): Result<Option<string>>
  {
    match ext.source
    case ChromeStore => FetchChromeStoreUrl(ext.id, browserVersion, io)
    case Amo => Ok(FetchAmoUrl(ext.id, io))
    case Bpc => FetchBpcUrl(browser, io)
    case Url => FetchUrlSource(ext)
    case GithubReleases => FetchGithubReleaseUrl(ext, config, browser, io)
  }

  /** An unsupported pair is rejected before any handler runs: the outcome
      does not depend on the network, the subprocesses or the token. */
  lemma UnsupportedRunsNoHandler(ext: Extension, config: GithubReleaseConfig, browser: BrowserType,
                                 browserVersion: Option<string>, io1: Io, io2: Io)
    requires !SupportsSource(browser, ext.source)
    ensures FetchUrl(ext, config, browser, browserVersion, io1) == FetchUrl(ext, config, browser, browserVersion, io2)
    ensures FetchUrl(ext, config, browser, browserVersion, io1).Err?
  {
  }

  /** The guard rejects exactly the Chrome Web Store for Firefox and AMO
      for Chromium: those two pairs get the unsupported-source error, and
      every other pair reaches its handler. */
  lemma RejectedPairs(ext: Extension, config: GithubReleaseConfig, browser: BrowserType,
                      browserVersion: Option<string>, io: Io)
    ensures var rejected := (ext.source == ChromeStore && browser == Firefox) || (ext.source == Amo && browser == Chromium);
      (rejected <==> !SupportsSource(browser, ext.source))
      && (rejected ==> FetchUrl(ext, config, browser, browserVersion, io) == Err(Raised(UnsupportedMessage(ext.source, browser))))
      && (!rejected ==> FetchUrl(ext, config, browser, browserVersion, io) == Handler(ext, config, browser, browserVersion, io))
  {
  }

  // ---------------------------------------------------------------------
  // The `url` source
  // ---------------------------------------------------------------------

  function NoUrlMessage(id: string): string {
    "Extension '" + id + "' has source 'url' but no 'url' field specified"
  }

  /** FetchUrlSource: the configured URL unchanged, or an error naming the
      extension when it is missing or empty. */
  function FetchUrlSource(ext: Extension): (r: Result<Option<string>>)
    ensures r.Ok? <==> !IsNullOrEmpty(ext.url)
    ensures r.Ok? ==> r.value == ext.url
    ensures r.Err? ==> r.error == Raised(NoUrlMessage(ext.id))
  {
    if IsNullOrEmpty(ext.url) then Err(Raised(NoUrlMessage(ext.id))) else Ok(ext.url)
  }

  // ---------------------------------------------------------------------
  // Chrome Web Store, AMO and BPC: the requests are collaborators
  // ---------------------------------------------------------------------

  const ChromeStoreBase := "https://clients2.google.com/service/update2/crx?response=redirect&acceptformat=crx2,crx3&prodversion="

  /** The update-service query; the two parameters are taken raw. */
  function ChromeStoreQuery(id: string, prodVersion: string): string {
    ChromeStoreBase
      + prodVersion + "&x=id=" + id + "&installsource=ondemand&uc"
  }

  /** FetchChromeStoreUrlAsync: asks for the package as Chromium
      `browserVersion` (143 when unknown) and takes the Location of a 301 or
      302; any other status gives no URL. */
  function FetchChromeStoreUrl(id: string, browserVersion: Option<string>, io: Io): (r: Result<Option<string>>)
    ensures var response := io.chromeStoreGet(ChromeStoreQuery(id, OrElse(browserVersion, Some(DefaultChromiumVersion)).value));
      (response.Err? ==> r == Err(response.error))
      && (response.Ok? && (response.value.status == 301 || response.value.status == 302) ==> r == Ok(response.value.location))
      && (response.Ok? && response.value.status != 301 && response.value.status != 302 ==> r == Ok(None))
  {
    var response := io.chromeStoreGet(ChromeStoreQuery(id, OrElse(browserVersion, Some(DefaultChromiumVersion)).value));
    if response.Err? then Err(response.error)
    else if response.value.status == 302 || response.value.status == 301 then Ok(response.value.location)
    else Ok(None)
  }

  function AmoQuery(slug: string): string {
    "https://addons.mozilla.org/api/v5/addons/addon/" + slug + "/"
  }

  /** FetchAmoUrlAsync: the file URL of the current version; every failure
      is caught and logged, so the outcome is then only "no URL". */
  function FetchAmoUrl(slug: string, io: Io): (url: Option<string>)
    ensures url.Some? <==>
      (io.amoGet(AmoQuery(slug)).Ok?
      && io.amoGet(AmoQuery(slug)).value.currentVersion.Some?
      && io.amoGet(AmoQuery(slug)).value.currentVersion.value.file.Some?
      && io.amoGet(AmoQuery(slug)).value.currentVersion.value.file.value.url.Some?)
    ensures url.Some? ==> url == io.amoGet(AmoQuery(slug)).value.currentVersion.value.file.value.url
  {
    var addon := io.amoGet(AmoQuery(slug));
    if addon.Err? then None
    else match addon.value.currentVersion
      case Some(AmoVersion(Some(file))) => file.url
      case _ => None
  }

  const BpcRepo := "https://gitflic.ru/project/magnolia1234/bpc_uploads.git"

  const NoBpcCommit := "Failed to get latest commit for BPC"

  function BpcFileName(browser: BrowserType): string {
    if browser == Chromium then "bypass-paywalls-chrome-clean-latest.crx" else "bypass_paywalls_clean-latest.xpi"
  }

  function BpcUrl(browser: BrowserType, commit: string): string {
    "https://gitflic.ru/project/magnolia1234/bpc_uploads/blob/raw?file=" + BpcFileName(browser)
      + "&inline=false&commit=" + commit
  }

  /** FetchBpcUrlAsync: the first tab-separated field of `git ls-remote`'s
      answer is the commit; a failed subprocess or an empty commit is an
      error. */
  function FetchBpcUrl(browser: BrowserType, io: Io): (r: Result<Option<string>>)
    ensures var out := RunAsync(io.run, "git", "ls-remote " + BpcRepo + " HEAD");
      (out.Err? ==> r == Err(out.error))
      && (out.Ok? && BeforeFirst(out.value, '\t') == [] ==> r == Err(Raised(NoBpcCommit)))
      && (out.Ok? && BeforeFirst(out.value, '\t') != [] ==>
        r == Ok(Some(BpcUrl(browser, BeforeFirst(out.value, '\t')))) && '\t' !in BeforeFirst(out.value, '\t'))
  {
    var out := RunAsync(io.run, "git", "ls-remote " + BpcRepo + " HEAD");
    if out.Err? then Err(out.error)
    else
      var commit := BeforeFirst(out.value, '\t');
      if commit == [] then Err(Raised(NoBpcCommit)) else Ok(Some(BpcUrl(browser, commit)))
  }

  // ---------------------------------------------------------------------
  // GitHub releases
  // ---------------------------------------------------------------------

  const NoOwner := "GitHub release source requires 'owner' field"
  const NoRepo := "GitHub release source requires 'repo' field"
  const NoLatestTag := "Failed to get latest release version from GitHub API"

  function LatestReleaseQuery(owner: string, repo: string): string {
    "https://api.github.com/repos/" + owner + "/" + repo + "/releases/latest"
  }

  /** FetchLatestGithubReleaseVersionAsync: `tag_name`, or `name` only when
      `tag_name` is null, with every leading 'v' removed; null or empty is
      an error. */
  function LatestReleaseVersion(owner: string, repo: string, io: Io): (r: Result<string>)
    ensures var release := io.githubGet(LatestReleaseQuery(owner, repo), GetToken(io.envToken, io.run));
      (release.Err? ==> r == Err(release.error))
      && (release.Ok? ==>
        var tag := OrElse(release.value.tagName, release.value.name);
        (IsNullOrEmpty(tag) ==> r == Err(Raised(NoLatestTag)))
        && (!IsNullOrEmpty(tag) ==> r == Ok(TrimStart(tag.value, 'v'))))
  {
    var release := io.githubGet(LatestReleaseQuery(owner, repo), GetToken(io.envToken, io.run));
    if release.Err? then Err(release.error)
    else
      var tag := OrElse(release.value.tagName, release.value.name);
      if IsNullOrEmpty(tag) then Err(Raised(NoLatestTag)) else Ok(TrimStart(tag.value, 'v'))
  }

  /** An empty but present `tag_name` does not fall back to `name`. */
  lemma EmptyTagDoesNotFallBack(owner: string, repo: string, io: Io)
    requires io.githubGet(LatestReleaseQuery(owner, repo), GetToken(io.envToken, io.run)).Ok?
    requires io.githubGet(LatestReleaseQuery(owner, repo), GetToken(io.envToken, io.run)).value.tagName == Some([])
    ensures LatestReleaseVersion(owner, repo, io) == Err(Raised(NoLatestTag))
  {
  }

  /** `pattern.Replace("{version}", v).Replace("{name}", id).Replace("{id}", id)`. */
  function SubstitutePlaceholders(pattern: string, version: string, id: string): string {
    ReplaceAll(ReplaceAll(ReplaceAll(pattern, "{version}", version), "{name}", id), "{id}", id)
  }

  function BuildGithubUrl(owner: string, repo: string, path: string): string {
    "https://github.com/" + owner + "/" + repo + "/" + path
  }

  function BuildGithubReleaseDownloadUrl(owner: string, repo: string, version: string, assetName: string, extension: string): string {
    "https://github.com/" + owner + "/" + repo + "/releases/download/v" + version + "/" + assetName + "." + extension
  }

  /** The version a GitHub-releases extension resolves to: an explicit
      version other than "latest" with every leading 'v' removed, else the
      latest release's tag. */
  function GithubVersion(ext: Extension, owner: string, repo: string, io: Io): (r: Result<string>)
    ensures OrElse(ext.version, Some("latest")).value != "latest" ==> r == Ok(TrimStart(ext.version.value, 'v'))
    ensures OrElse(ext.version, Some("latest")).value == "latest" ==> r == LatestReleaseVersion(owner, repo, io)
  {
    var version := OrElse(ext.version, Some("latest")).value;
    if version != "latest" then Ok(TrimStart(version, 'v')) else LatestReleaseVersion(owner, repo, io)
  }

  /** FetchGithubReleaseUrlAsync. Owner and repo come from the extension,
      then from `[config.sources.github-releases]`; the pattern likewise. */
  function FetchGithubReleaseUrl(ext: Extension, config: GithubReleaseConfig, browser: BrowserType, io: Io): (r: Result<Option<string>>)
    ensures OrElse(ext.owner, config.owner).None? ==> r == Err(Raised(NoOwner))
    ensures OrElse(ext.owner, config.owner).Some? && OrElse(ext.repo, config.repo).None? ==> r == Err(Raised(NoRepo))
    ensures OrElse(ext.owner, config.owner).Some? && OrElse(ext.repo, config.repo).Some? ==>
      var owner := OrElse(ext.owner, config.owner).value;
      var repo := OrElse(ext.repo, config.repo).value;
      var pattern := OrElse(ext.pattern, config.pattern);
      var version := GithubVersion(ext, owner, repo, io);
      (version.Err? ==> r == Err(version.error))
      && (version.Ok? && !IsNullOrEmpty(pattern) ==>
        r == Ok(Some(BuildGithubUrl(owner, repo, SubstitutePlaceholders(pattern.value, version.value, ext.id)))))
      && (version.Ok? && IsNullOrEmpty(pattern) ==>
        r == Ok(Some(BuildGithubReleaseDownloadUrl(owner, repo, version.value, ext.id, GetFileExtension(browser)))))
    ensures r.Ok? ==>
      var owner := OrElse(ext.owner, config.owner).value;
      var repo := OrElse(ext.repo, config.repo).value;
      var pattern := OrElse(ext.pattern, config.pattern);
      var version := GithubVersion(ext, owner, repo, io);
      version.Ok?
      && (!IsNullOrEmpty(pattern) ==>
        r == Ok(Some(BuildGithubUrl(owner, repo, SubstitutePlaceholders(pattern.value, version.value, ext.id)))))
      && (IsNullOrEmpty(pattern) ==>
        r == Ok(Some(BuildGithubReleaseDownloadUrl(owner, repo, version.value, ext.id, GetFileExtension(browser)))))
  {
    var owner := OrElse(ext.owner, config.owner);
    if owner.None? then Err(Raised(NoOwner))
    else
      var repo := OrElse(ext.repo, config.repo);
      if repo.None? then Err(Raised(NoRepo))
      else
        var pattern := OrElse(ext.pattern, config.pattern);
        var version := GithubVersion(ext, owner.value, repo.value, io);
        if version.Err? then Err(version.error)
        else if !IsNullOrEmpty(pattern) then
          Ok(Some(BuildGithubUrl(owner.value, repo.value, SubstitutePlaceholders(pattern.value, version.value, ext.id))))
        else
          Ok(Some(BuildGithubReleaseDownloadUrl(owner.value, repo.value, version.value, ext.id, GetFileExtension(browser))))
  }

  /** An explicit version is used without asking GitHub: the URL does not
      depend on the API, the token or the subprocesses. */
  lemma ExplicitVersionIsOffline(ext: Extension, config: GithubReleaseConfig, browser: BrowserType, io1: Io, io2: Io)
    requires ext.version.Some? && ext.version.value != "latest"
    ensures FetchGithubReleaseUrl(ext, config, browser, io1) == FetchGithubReleaseUrl(ext, config, browser, io2)
  {
  }

  /** The resolved version never starts with 'v', however many the
      configured or published version had. */
  lemma ResolvedVersionHasNoLeadingV(ext: Extension, owner: string, repo: string, io: Io)
    requires GithubVersion(ext, owner, repo, io).Ok?
    ensures var v := GithubVersion(ext, owner, repo, io).value;
      v == [] || v[0] != 'v'
  {
  }

  /** Without a pattern the URL is
      `https://github.com/{owner}/{repo}/releases/download/v{ver}/{id}.{crx|xpi}`,
      so it ends in the extension's id and the browser's package suffix. */
  lemma DefaultAssetPath(ext: Extension, config: GithubReleaseConfig, browser: BrowserType, io: Io)
    requires FetchGithubReleaseUrl(ext, config, browser, io).Ok?
    requires IsNullOrEmpty(OrElse(ext.pattern, config.pattern))
    ensures var url := FetchGithubReleaseUrl(ext, config, browser, io).value.value;
      var owner := OrElse(ext.owner, config.owner).value;
      var repo := OrElse(ext.repo, config.repo).value;
      var version := GithubVersion(ext, owner, repo, io).value;
      url == "https://github.com/" + owner + "/" + repo + "/releases/download/v" + version
        + "/" + ext.id + "." + GetFileExtension(browser)
    ensures var url := FetchGithubReleaseUrl(ext, config, browser, io).value.value;
      var suffix := "/" + ext.id + "." + GetFileExtension(browser);
      |url| >= |suffix| && url[|url| - |suffix|..] == suffix
  {
    var owner := OrElse(ext.owner, config.owner).value;
    var repo := OrElse(ext.repo, config.repo).value;
    var version := GithubVersion(ext, owner, repo, io).value;
    var url := FetchGithubReleaseUrl(ext, config, browser, io).value.value;
    assert url == BuildGithubReleaseDownloadUrl(owner, repo, version, ext.id, GetFileExtension(browser));
    DownloadUrlSplits(owner, repo, version, ext.id, GetFileExtension(browser));
  }

  lemma DownloadUrlSplits(owner: string, repo: string, version: string, id: string, extension: string)
    ensures var prefix := "https://github.com/" + owner + "/" + repo + "/releases/download/v" + version;
      var suffix := "/" + id + "." + extension;
      var url := BuildGithubReleaseDownloadUrl(owner, repo, version, id, extension);
      url == prefix + suffix && url[|url| - |suffix|..] == suffix
  {
    var prefix := "https://github.com/" + owner + "/" + repo + "/releases/download/v" + version;
    var suffix := "/" + id + "." + extension;
    EndsWithSuffix(prefix, suffix);
  }

  lemma EndsWithSuffix(prefix: string, suffix: string)
    ensures var s := prefix + suffix; s[|s| - |suffix|..] == suffix
  {
  }

  /** A pattern without placeholders is used as the path unchanged. */
  lemma PlainPatternIsPath(pattern: string, version: string, id: string)
    requires !Occurs(pattern, "{version}") && !Occurs(pattern, "{name}") && !Occurs(pattern, "{id}")
    ensures SubstitutePlaceholders(pattern, version, id) == pattern
  {
    ReplaceAllAbsent(pattern, "{version}", version);
    ReplaceAllAbsent(pattern, "{name}", id);
    ReplaceAllAbsent(pattern, "{id}", id);
  }

  /** The substitutions run in sequence, so placeholder text inside the
      version is itself substituted: a version of "{id}" puts the id into a
      "{version}" pattern. */
  lemma SubstitutionOrderMatters(id: string)
    ensures SubstitutePlaceholders("{version}", "{id}", id) == id
  {
    ReplaceWhole("{version}", "{id}");
    ReplaceAllAbsent("{id}", "{name}", id);
    ReplaceWhole("{id}", id);
  }
}
