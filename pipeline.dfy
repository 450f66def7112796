// ProcessExtensionQuiet and the loop that runs it once per extension: the
// order in which failures are reported, the temporary download file, and
// the shape of every result.
module Pipeline {
  import opened Common
  import opened Domain
  import opened Process
  import opened Archive
  import opened Sources
  import opened Nix

  /** How the download into the temporary file ends. `File.Create` runs only
      after the HTTP stream is open, so a request that fails leaves no file,
      while a copy that fails leaves a created file behind. */
  datatype Download =
    | NotCreated(message: string)
    | CreatedThenFailed(message: string)
    | Downloaded(bytes: seq<bv8>)

  /** The collaborators ProcessExtensionQuiet reaches: the resolvers, the
      HTTP download, SHA-256 and the ZIP reader. */
  datatype Env = Env(
    io: Io,
    download: string -> Download,
    sha256: seq<bv8> -> seq<bv8>,
    open: seq<bv8> -> ArchiveRead)

  /** The temporary directory, as the set of paths that exist in it. */
  class TempFiles {
    var present: set<string>

    constructor()
      ensures present == {}
    {
      present := {};
    }

    /** File.Create. */
    method Create(path: string)
      modifies this
      ensures present == old(present) + {path}
    {
      present := present + {path};
    }

    /** `if (File.Exists(path)) File.Delete(path)`. */
    method DeleteIfExists(path: string)
      modifies this
      ensures present == old(present) - {path}
    {
      present := present - {path};
    }
  }

  const NoDownloadUrl := "Failed to get download URL"

  function DownloadFailed(message: string): string {
    "Failed to download: " + message
  }

  /** CalculateNixHashAsync: the lower-case hex SHA-256 of the file handed to
      `nix hash to-sri --type sha256`, trimmed. */
  function NixHash(bytes: seq<bv8>, env: Env): (r: Result<string>)
    ensures var out := RunAsync(env.io.run, "nix", "hash to-sri --type sha256 " + HexLower(env.sha256(bytes)));
      (r.Ok? <==> out.Ok?) && (r.Ok? ==> r.value == Trim(out.value)) && (r.Err? ==> r.error == out.error)
  {
    var out := RunAsync(env.io.run, "nix", "hash to-sri --type sha256 " + HexLower(env.sha256(bytes)));
    if out.Err? then Err(out.error) else Ok(Trim(out.value))
  }

  /** The result once the hash and the manifest have been read: the hash
      failure first, then the manifest failure, otherwise the entry built
      from the URL, the hash, the version and the permissions. */
  function Assemble(ext: Extension, url: string, hash: Result<string>, meta: Result<(string, seq<string>)>,
                    browser: BrowserType): (r: ExtensionResult)
    ensures WellFormed(r) && r.extension == ext
    ensures r.nixEntry.Some? <==> hash.Ok? && meta.Ok?
    ensures r.nixEntry.Some? ==>
      r.version == Some(meta.value.0) && r.permissions == Some(meta.value.1)
      && r.nixEntry == Some(Generate(ext, url, hash.value, meta.value.0, meta.value.1, browser))
    ensures r.nixEntry.None? ==> r.error == Some(if hash.Err? then hash.error else meta.error)
  {
    if hash.Err? then Failed(ext, hash.error)
    else if meta.Err? then Failed(ext, meta.error)
    else
      var (version, permissions) := meta.value;
      ExtensionResult(ext, None, Some(Generate(ext, url, hash.value, version, permissions, browser)),
                      Some(version), Some(permissions))
  }

  /** The downloaded file, once it is on disk: hash, then manifest, then the
      entry. */
  function FromDownload(ext: Extension, url: string, bytes: seq<bv8>, browser: BrowserType, env: Env): ExtensionResult {
    Assemble(ext, url, NixHash(bytes, env), ExtractVersionAndPermissions(bytes, env.open), browser)
  }

  /** The result ProcessExtensionQuiet returns for one extension. */
  function Outcome(ext: Extension, config: GithubReleaseConfig, browser: BrowserType,
                   browserVersion: Option<string>, env: Env): (r: ExtensionResult)
    ensures WellFormed(r) && r.extension == ext
  {
    AfterResolution(ext, FetchUrl(ext, config, browser, browserVersion, env.io), browser, env)
  }

  /** The result once resolution has answered `fetched`. */
  function AfterResolution(ext: Extension, fetched: Result<Option<string>>, browser: BrowserType, env: Env): (r: ExtensionResult)
    ensures WellFormed(r) && r.extension == ext
    ensures fetched.Err? ==> r.error == Some(fetched.error)
    ensures fetched.Ok? && IsNullOrEmpty(fetched.value) ==> r.error == Some(Raised(NoDownloadUrl))
    ensures fetched.Ok? && !IsNullOrEmpty(fetched.value) && !env.download(fetched.value.value).Downloaded? ==>
      r.error == Some(Raised(DownloadFailed(env.download(fetched.value.value).message)))
    ensures fetched.Ok? && !IsNullOrEmpty(fetched.value) && env.download(fetched.value.value).Downloaded? ==>
      r == FromDownload(ext, fetched.value.value, env.download(fetched.value.value).bytes, browser, env)
    ensures r.nixEntry.Some? ==>
      fetched.Ok? && !IsNullOrEmpty(fetched.value) && env.download(fetched.value.value).Downloaded?
  {
    if fetched.Err? then Failed(ext, fetched.error)
    else if IsNullOrEmpty(fetched.value) then Failed(ext, Raised(NoDownloadUrl))
    else
      var url := fetched.value.value;
      match env.download(url)
      case NotCreated(m) => Failed(ext, Raised(DownloadFailed(m)))
      case CreatedThenFailed(m) => Failed(ext, Raised(DownloadFailed(m)))
      case Downloaded(bytes) => FromDownload(ext, url, bytes, browser, env)
  }

  /** The order of the checks: a resolution error wins over everything, a
      missing URL comes next, then a failed download; a downloaded file
      gives FromDownload's result (the hash error, then the manifest error,
      then the entry), and an entry comes only from a downloaded file.
      Every result is well formed. */
  lemma OutcomeMeaning(ext: Extension, config: GithubReleaseConfig, browser: BrowserType,
                       browserVersion: Option<string>, env: Env)
    ensures var r := Outcome(ext, config, browser, browserVersion, env);
      var fetched := FetchUrl(ext, config, browser, browserVersion, env.io);
      WellFormed(r) && r.extension == ext
      && (fetched.Err? ==> r.error == Some(fetched.error))
      && (fetched.Ok? && IsNullOrEmpty(fetched.value) ==> r.error == Some(Raised(NoDownloadUrl)))
      && (fetched.Ok? && !IsNullOrEmpty(fetched.value) && !env.download(fetched.value.value).Downloaded? ==>
            r.error == Some(Raised(DownloadFailed(env.download(fetched.value.value).message))))
      && (fetched.Ok? && !IsNullOrEmpty(fetched.value) && env.download(fetched.value.value).Downloaded? ==>
            r == FromDownload(ext, fetched.value.value, env.download(fetched.value.value).bytes, browser, env))
      && (r.nixEntry.Some? ==>
            fetched.Ok? && !IsNullOrEmpty(fetched.value) && env.download(fetched.value.value).Downloaded?)
  {
    var fetched := FetchUrl(ext, config, browser, browserVersion, env.io);
    assert Outcome(ext, config, browser, browserVersion, env) == AfterResolution(ext, fetched, browser, env);
  }

  /** Whether the source leaves the temporary file behind: the download
      created it and then failed, and that failure returns from outside the
      try/finally that deletes it. */
  predicate LeavesTempFile(ext: Extension, config: GithubReleaseConfig, browser: BrowserType,
                           browserVersion: Option<string>, env: Env) {
    var fetched := FetchUrl(ext, config, browser, browserVersion, env.io);
    fetched.Ok? && !IsNullOrEmpty(fetched.value) && env.download(fetched.value.value).CreatedThenFailed?
  }

  /** ProcessExtensionQuiet as written: the download's own catch returns
      before the try/finally that deletes the temporary file is entered. */
  method ProcessExtensionQuiet(ext: Extension, config: GithubReleaseConfig, browser: BrowserType,
                               browserVersion: Option<string>, env: Env, fs: TempFiles, temp: string)
    returns (r: ExtensionResult)
    requires temp !in fs.present
    modifies fs
    ensures r == Outcome(ext, config, browser, browserVersion, env)
    ensures fs.present == old(fs.present)
                          + (if LeavesTempFile(ext, config, browser, browserVersion, env) then {temp} else {})
  {
    var fetched := FetchUrl(ext, config, browser, browserVersion, env.io);
    if fetched.Err? {
      return Failed(ext, fetched.error);
    }
    if IsNullOrEmpty(fetched.value) {
      return Failed(ext, Raised(NoDownloadUrl));
    }
    var url := fetched.value.value;
    var download := env.download(url);
    if !download.NotCreated? {
      fs.Create(temp);
    }
    if !download.Downloaded? {
      return Failed(ext, Raised(DownloadFailed(download.message)));
    }
    r := FromDownload(ext, url, download.bytes, browser, env);
    fs.DeleteIfExists(temp);
  }

  /** A concrete run that leaves the temporary file behind: a `url` source
      whose download creates the file and then fails. */
  lemma FailedCopyLeavesTempFile(env: Env)
    requires forall u :: env.download(u) == CreatedThenFailed("connection reset")
    ensures var ext := Extension("abc", None, Url, Some("https://example.org/a.crx"), None, None, None, None, None);
      LeavesTempFile(ext, NoGithubConfig, Chromium, None, env)
      && Outcome(ext, NoGithubConfig, Chromium, None, env).error
         == Some(Raised(DownloadFailed("connection reset")))
  {
  }

  /** ProcessExtensionQuiet with the download inside the try/finally: the
      result is the same and the temporary file is gone on every exit. */
  method ProcessExtensionCleaned(ext: Extension, config: GithubReleaseConfig, browser: BrowserType,
                                 browserVersion: Option<string>, env: Env, fs: TempFiles, temp: string)
    returns (r: ExtensionResult)
    requires temp !in fs.present
    modifies fs
    ensures r == Outcome(ext, config, browser, browserVersion, env)
    ensures fs.present == old(fs.present)
  {
    var fetched := FetchUrl(ext, config, browser, browserVersion, env.io);
    if fetched.Err? {
      return Failed(ext, fetched.error);
    }
    if IsNullOrEmpty(fetched.value) {
      return Failed(ext, Raised(NoDownloadUrl));
    }
    var url := fetched.value.value;
    var download := env.download(url);
    if !download.NotCreated? {
      fs.Create(temp);
    }
    if !download.Downloaded? {
      r := Failed(ext, Raised(DownloadFailed(download.message)));
    } else {
      r := FromDownload(ext, url, download.bytes, browser, env);
    }
    fs.DeleteIfExists(temp);
  }

  /** The temporary files the first `n` extensions leave behind. */
  function LeftBehind(exts: seq<Extension>, temps: seq<string>, n: nat, config: GithubReleaseConfig,
                      browser: BrowserType, browserVersion: Option<string>, env: Env): set<string>
    requires n <= |exts| == |temps|
  {
    set k | 0 <= k < n && LeavesTempFile(exts[k], config, browser, browserVersion, env) :: temps[k]
  }

  lemma LeftBehindStep(exts: seq<Extension>, temps: seq<string>, n: nat, config: GithubReleaseConfig,
                       browser: BrowserType, browserVersion: Option<string>, env: Env)
    requires n < |exts| == |temps|
    ensures LeftBehind(exts, temps, n + 1, config, browser, browserVersion, env)
      == LeftBehind(exts, temps, n, config, browser, browserVersion, env)
         + (if LeavesTempFile(exts[n], config, browser, browserVersion, env) then {temps[n]} else {})
  {
  }

  /** A later extension's path is not among the files the earlier ones
      left behind, when the paths are distinct. */
  lemma LeftBehindExcludes(exts: seq<Extension>, temps: seq<string>, n: nat, j: nat, config: GithubReleaseConfig,
                           browser: BrowserType, browserVersion: Option<string>, env: Env)
    requires n <= j < |exts| == |temps|
    requires forall a, b :: 0 <= a < b < |temps| ==> temps[a] != temps[b]
    ensures temps[j] !in LeftBehind(exts, temps, n, config, browser, browserVersion, env)
  {
  }

  /** ProcessExtensionsWithProgress, one extension at a time, as written: it
      runs ProcessExtensionQuiet, so exactly one result per extension, in
      order, each the outcome for that extension, and the temporary file of
      every extension whose download created it and then failed is left
      behind. Every run gets a fresh GUID-named path, so the paths are
      distinct and new. */
  method ProcessExtensions(exts: seq<Extension>, config: GithubReleaseConfig, browser: BrowserType,
                           browserVersion: Option<string>, env: Env, fs: TempFiles, temps: seq<string>)
    returns (results: seq<ExtensionResult>)
    requires |temps| == |exts|
    requires forall k :: 0 <= k < |temps| ==> temps[k] !in fs.present
    requires forall j, k :: 0 <= j < k < |temps| ==> temps[j] != temps[k]
    modifies fs
    ensures |results| == |exts|
    ensures forall k :: 0 <= k < |exts| ==> results[k] == Outcome(exts[k], config, browser, browserVersion, env)
    ensures fs.present == old(fs.present) + LeftBehind(exts, temps, |exts|, config, browser, browserVersion, env)
  {
    ghost var start := fs.present;
    results := [];
    for i := 0 to |exts|
      invariant |results| == i
      invariant forall k :: 0 <= k < i ==> results[k] == Outcome(exts[k], config, browser, browserVersion, env)
      invariant fs.present == start + LeftBehind(exts, temps, i, config, browser, browserVersion, env)
    {
      results := ProcessNext(exts, i, config, browser, browserVersion, env, fs, temps, start, results);
    }
  }

  /** One turn of the loop in ProcessExtensions. */
  method ProcessNext(exts: seq<Extension>, i: nat, config: GithubReleaseConfig, browser: BrowserType,
                     browserVersion: Option<string>, env: Env, fs: TempFiles, temps: seq<string>,
                     ghost start: set<string>, results: seq<ExtensionResult>)
    returns (next: seq<ExtensionResult>)
    requires i < |exts| == |temps|
    requires forall k :: 0 <= k < |temps| ==> temps[k] !in start
    requires forall j, k :: 0 <= j < k < |temps| ==> temps[j] != temps[k]
    requires |results| == i
    requires forall k :: 0 <= k < i ==> results[k] == Outcome(exts[k], config, browser, browserVersion, env)
    requires fs.present == start + LeftBehind(exts, temps, i, config, browser, browserVersion, env)
    modifies fs
    ensures |next| == i + 1
    ensures forall k :: 0 <= k < i + 1 ==> next[k] == Outcome(exts[k], config, browser, browserVersion, env)
    ensures fs.present == start + LeftBehind(exts, temps, i + 1, config, browser, browserVersion, env)
  {
    LeftBehindExcludes(exts, temps, i, i, config, browser, browserVersion, env);
    var r := ProcessExtensionQuiet(exts[i], config, browser, browserVersion, env, fs, temps[i]);
    LeftBehindStep(exts, temps, i, config, browser, browserVersion, env);
    next := results + [r];
  }

  /** The same loop over ProcessExtensionCleaned: the same results, and no
      temporary file left behind. */
  method ProcessExtensionsCleaned(exts: seq<Extension>, config: GithubReleaseConfig, browser: BrowserType,
                                  browserVersion: Option<string>, env: Env, fs: TempFiles, temps: seq<string>)
    returns (results: seq<ExtensionResult>)
    requires |temps| == |exts|
    requires forall k :: 0 <= k < |temps| ==> temps[k] !in fs.present
    modifies fs
    ensures |results| == |exts|
    ensures forall k :: 0 <= k < |exts| ==> results[k] == Outcome(exts[k], config, browser, browserVersion, env)
    ensures fs.present == old(fs.present)
  {
    results := [];
    for i := 0 to |exts|
      invariant |results| == i
      invariant forall k :: 0 <= k < i ==> results[k] == Outcome(exts[k], config, browser, browserVersion, env)
      invariant fs.present == old(fs.present)
    {
      var r := ProcessExtensionCleaned(exts[i], config, browser, browserVersion, env, fs, temps[i]);
      results := results + [r];
    }
  }
}
