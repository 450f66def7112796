# Browser extensions updater — a verified model

`modules/scripts/browser-extensions-update.cs` reads a TOML list of browser
extensions. For each extension it resolves a download URL from the source
it names: the Chrome Web Store, addons.mozilla.org (AMO), the
bypass-paywalls-clean (BPC) repository, a plain URL, or a GitHub release.
It then downloads the package and computes its Nix hash. From the CRX or
XPI archive it reads the manifest version and permissions. Finally it writes
a Nix file with one entry per extension, either for Chromium or for Firefox.

This project models the deterministic core of that script in Dafny and
proves what it promises.

| file | module | what it holds |
|---|---|---|
| `common.dfy` | `Common` | `Option`, `Result`, the error kinds, and the .NET string operations the script relies on: `Replace`, `Trim`, `TrimStart`, `Split(c)[0]`, `??`, hex encoding |
| `domain.dfy` | `Domain` | `BrowserType`, `ExtensionSource`, the support table, the file-extension table, source-name parsing, and the `Extension`, `GithubReleaseConfig` and `ExtensionResult` records |
| `config.dfy` | `Config` | `ParseGithubConfig`, `TryParseExtension` and `ParseToml` over an abstract TOML tree |
| `archive.dfy` | `Archive` | `FindPattern`, the CRX→ZIP cut, and the version and permission rules over an abstract manifest |
| `process.dfy` | `Process` | `ProcessUtils.ParseArguments`, `GitHubUtils.GetToken`, and the Chromium major-version parse with its `"143"` fallback |
| `sources.dfy` | `Sources` | `FetchUrlAsync`: the support guard, the five handlers, and GitHub release URL construction |
| `nix.dfy` | `Nix` | `NixEntryGenerator.Escape` and `Generate`, and the text `GenerateNixFile` assembles |
| `pipeline.dfy` | `Pipeline` | `ProcessExtensionQuiet` (its outcome order and the temporary download file) and the per-extension loop |

Every collaborator the script reaches is a parameter of the model:
- HTTP requests
- subprocesses
- SHA-256
- the ZIP reader
- JSON and TOML decoding
- the `GITHUB_TOKEN` variable

Each one is a function value whose answer, or failure, the model takes as
given.

An exception is modelled as `Err(e)` of `Result`. The per-extension catch
stores it as `ExtensionResult.error`.

Several quirks of the script are kept as written:
- At line 389, `A && B || C` means a non-string element of
  `optional_permissions` fails the whole extension.
- `TrimStart('v')` removes every leading `v`.
- An empty but present `tag_name` does not fall back to `name`.
- The placeholders are substituted in sequence.
- An unknown `source` means the Chrome Web Store.
- A Firefox attribute key is the raw id, not the escaped one.
- A conditional Firefox entry is placed, wrapped in `lib.optionals`,
  directly inside the attribute set.
- A condition is passed through `Escape` although it is inserted as a Nix
  expression.

## Model

| member | source | states |
|---|---|---|
| Archive.IndexFrom | modules/scripts/browser-extensions-update.cs:401-407 | the result is -1 or the first index at or after `from` where the pattern occurs; -1 means there is no occurrence from there on |
| Archive.FindPattern | modules/scripts/browser-extensions-update.cs:401-407 | the index loop returns the least `i` with `data[i..i+|pattern|] == pattern`, with `0 <= i <= |data|-|pattern|`, and -1 exactly when there is no match |
| Archive.IndexOfMeaning | modules/scripts/browser-extensions-update.cs:401-407 | the first occurrence is found, and one is found whenever the pattern occurs |
| Archive.ArchiveBytes | modules/scripts/browser-extensions-update.cs:331-350 | a file shorter than 4 bytes ends the stream; a file not starting with `Cr24` is used whole; a CRX file is cut at its first `PK\x03\x04` or fails with "Could not find ZIP archive within CRX file" |
| Archive.CrxArchiveStartsAtFirstSignature | modules/scripts/browser-extensions-update.cs:336-345 | the archive cut from a CRX file starts with the ZIP signature, and no earlier signature exists |
| Archive.CrxWithoutZipFails | modules/scripts/browser-extensions-update.cs:339-342 | a CRX file without a ZIP signature is rejected |
| Archive.GetString | modules/scripts/browser-extensions-update.cs:363-365 | a JSON string gives its text, a JSON null gives null, and every other kind throws |
| Archive.SelectVersionMeaning | modules/scripts/browser-extensions-update.cs:363-368 | a non-empty `version` is the version; otherwise `version_name` when it is a non-empty string; otherwise "Could not extract version from manifest" |
| Archive.ReadManifest | modules/scripts/browser-extensions-update.cs:362-394 | a manifest that is not a JSON object, a version error and a permission error fail in that order; otherwise the result is the selected non-empty version and the selected permissions |
| Archive.Strings | modules/scripts/browser-extensions-update.cs:373-376 | a text is in the result exactly when the array holds it as a JSON string element, and the result is no longer than the array |
| Archive.StringsAppend | modules/scripts/browser-extensions-update.cs:373-376 | the filter works element by element: the strings of a joined array are those of its first part followed by those of its second, so the array's order is kept |
| Archive.UrlLike | modules/scripts/browser-extensions-update.cs:386-390 | a text is kept exactly when the array holds it as a string element containing `/` or `*` |
| Archive.UrlLikeAppend | modules/scripts/browser-extensions-update.cs:386-390 | the URL-like strings of a joined array are those of its first part followed by those of its second, so the array's order is kept |
| Archive.OptionalHostsMeaning | modules/scripts/browser-extensions-update.cs:386-390 | the filter as written succeeds exactly when every element is a string, and then keeps the strings containing `/` or `*` in order; otherwise the first non-string element decides the error |
| Archive.ExtractVersionAndPermissions | modules/scripts/browser-extensions-update.cs:324-397 | a failed cut, a corrupt archive and a missing manifest.json are errors; an archive holding a manifest gives exactly what reading that manifest gives, so a success carries a non-empty version |
| Archive.SelectPermissionsMeaning | modules/scripts/browser-extensions-update.cs:370-394 | the permissions are the strings of `permissions`, then those of `host_permissions` when it is an array, else the URL-like `optional_permissions`; order and duplicates are kept |
| Archive.NullOptionalPermissionFails | modules/scripts/browser-extensions-update.cs:386-390 | a JSON null among `optional_permissions` with no `host_permissions` array fails the extension |
| Common.OrElse | modules/scripts/browser-extensions-update.cs:742-747 | `a ?? b` falls back only when `a` is null |
| Common.TrimStartWhere | modules/scripts/browser-extensions-update.cs:752 | the result is the longest suffix that does not start with a dropped character, and everything cut off was dropped |
| Common.TrimEndWhere | modules/scripts/browser-extensions-update.cs:549 | the result is the longest prefix that does not end with a dropped character, and everything cut off was dropped |
| Common.BeforeFirst | modules/scripts/browser-extensions-update.cs:715 | `Split(c)[0]` is the prefix before the first `c`, or the whole text when there is none |
| Common.HexLower | modules/scripts/browser-extensions-update.cs:314 | two lower-case hex digits per byte: the digits at `2i` and `2i+1` are those of the high and the low nibble of byte `i` |
| Common.HexLowerDecodes | modules/scripts/browser-extensions-update.cs:314 | the two digits written for each byte decode back to its value, so the hex text loses nothing |
| Common.ReplaceOneChar | modules/scripts/browser-extensions-update.cs:877 | replacing a one-character pattern is a per-character map |
| Config.StringField | modules/scripts/browser-extensions-update.cs:152-156 | `table[key]?.AsString?.Value` is non-null exactly when the key holds a string, and is that string |
| Config.ParseGithubConfig | modules/scripts/browser-extensions-update.cs:118-131 | a missing `config`, `sources` or `github-releases` level gives the empty defaults; a level that is present but not a table throws `NullReference`; a table at the end gives its `owner`, `repo` and `pattern` string fields |
| Config.TryParseExtension | modules/scripts/browser-extensions-update.cs:133-171 | an extension is produced exactly when `id` is a non-empty string; it holds that id, the parsed source and the `name`, `url`, `condition`, `owner`, `repo`, `pattern` and `version` string fields; the flag ends up true exactly when it was true or the condition is non-empty |
| Config.ParseToml | modules/scripts/browser-extensions-update.cs:173-192 | the loop that appends extensions and raises `hasConditions` computes the parse of the whole file |
| Config.ParseExtensionArray | modules/scripts/browser-extensions-update.cs:185-189 | the foreach over the `[[extensions]]` array gives the specified list and flag, or throws at a non-table element |
| Config.ParseItemsIds | modules/scripts/browser-extensions-update.cs:185-189 | the parsed extensions are exactly the tables with a non-empty id, in file order |
| Config.ParseItemsFlag | modules/scripts/browser-extensions-update.cs:142-143 | `hasConditions` holds exactly when some parsed extension has a non-empty condition |
| Config.ParseTomlMeaning | modules/scripts/browser-extensions-update.cs:173-192 | every parsed id is non-empty, the ids follow the file, the flag means "some extension is guarded", and the config is the parsed `github-releases` table |
| Domain.GetFileExtension | modules/scripts/browser-extensions-update.cs:578-579 | Chromium packages are `crx` and Firefox packages are `xpi` |
| Domain.SupportMatrix | modules/scripts/browser-extensions-update.cs:581-589 | the Chrome Web Store is Chromium-only, AMO is Firefox-only, and BPC, URL and GitHub releases serve both |
| Domain.ParseSourceRoundTrip | modules/scripts/browser-extensions-update.cs:145-146 | each source's configuration spelling and its enum name both parse back to that source |
| Domain.MissingSourceIsChromeStore | modules/scripts/browser-extensions-update.cs:145 | a missing `source` means the Chrome Web Store |
| Domain.SurroundingSpaceIgnored | modules/scripts/browser-extensions-update.cs:146 | white space around a source name does not change the parsed source, as `Enum.TryParse` trims it |
| Domain.Failed | modules/scripts/browser-extensions-update.cs:256-260 | a failure result names its extension and carries the error, with no entry, no version and no permissions |
| Nix.EscapeIsPerChar | modules/scripts/browser-extensions-update.cs:876-877 | the five chained `Replace` calls map `\` to `\\`, `"` to `\"`, `$` to `\$`, `[` to `[[` and `]` to `]]`, each character independently |
| Nix.EscapeAppend | modules/scripts/browser-extensions-update.cs:876-877 | Escape distributes over concatenation |
| Nix.EscapeLengthAndIdentity | modules/scripts/browser-extensions-update.cs:876-877 | Escape adds one character per special character, never shortens, and is the identity on text without the five characters |
| Nix.NixRoundTrip | modules/scripts/browser-extensions-update.cs:876-877 | Nix reads an escaped text back as the original exactly when the text holds no square bracket |
| Nix.GeneratedFieldsReadBack | modules/scripts/browser-extensions-update.cs:820-846 | each field line of an entry carries the escaped value, which reads back as the raw id, URL, hash or version when it has no bracket |
| Nix.FirefoxPermissionsShape | modules/scripts/browser-extensions-update.cs:848-864 | `mozPermissions` appears exactly when there are permissions, and then lists each escaped permission, in order |
| Nix.OrdinalTotal | modules/scripts/browser-extensions-update.cs:415 | the id order is total |
| Nix.OrdinalLessTransitive | modules/scripts/browser-extensions-update.cs:415 | the id order is transitive |
| Nix.InsertSorted | modules/scripts/browser-extensions-update.cs:415 | inserting into a list sorted by id keeps it sorted |
| Nix.SortById | modules/scripts/browser-extensions-update.cs:413-418 | `OrderBy(Id)` returns a permutation of its input that is sorted by id, and it is stable: the results with any one id keep their input order |
| Nix.Emitted | modules/scripts/browser-extensions-update.cs:413-418 | a result is selected exactly when it has an entry and its condition is absent (or present, for the conditional part) |
| Nix.Ordered | modules/scripts/browser-extensions-update.cs:413-418 | each part is sorted by id, is a permutation of the selection, and holds only results with an entry and the right kind of condition |
| Nix.EmittedExactly | modules/scripts/browser-extensions-update.cs:413-418 | every result with an entry lands in exactly one part, as often as it occurs; a result without an entry lands in none |
| Nix.ChromiumFileLayout | modules/scripts/browser-extensions-update.cs:411-446 | the header comments come first; `  config,` is present exactly when `hasConditions`; the unconditional entries come in order, then each conditional entry wrapped in `lib.optionals (Escape(condition))`, then `]` |
| Nix.FirefoxFileLayout | modules/scripts/browser-extensions-update.cs:447-462 | the header comments and the signature come first, with no `config,`; then the unconditional entries keyed by the raw id, then the conditional ones, then `  }` |
| Nix.FirefoxUnits | modules/scripts/browser-extensions-update.cs:453-458 | the attribute set's entries are the unconditional entries keyed by their raw id, in order, then the conditional ones wrapped in `lib.optionals` |
| Nix.GenerateNixFile | modules/scripts/browser-extensions-update.cs:409-462 | the header appends, then the branch for the browser, produce exactly the specified file text |
| Nix.AppendEntries | modules/scripts/browser-extensions-update.cs:436-437 | the loop appends each unconditional Chromium entry in order |
| Nix.AppendOptionals | modules/scripts/browser-extensions-update.cs:439-445 | the loop appends each conditional Chromium entry inside its `lib.optionals` wrapper |
| Nix.BuildChromiumFile | modules/scripts/browser-extensions-update.cs:425-446 | the Chromium branch's appends produce exactly the Chromium file: the head with `config,` when guarded, the entries, the wrapped conditional entries and `]` |
| Nix.BuildFirefoxFile | modules/scripts/browser-extensions-update.cs:447-462 | the Firefox branch's appends produce exactly the Firefox file: the head, the attribute set's entries and `  }` |
| Nix.AppendFirefoxEntries | modules/scripts/browser-extensions-update.cs:459-460 | the foreach appends the entries to the builder in order |
| Pipeline.NixHash | modules/scripts/browser-extensions-update.cs:309-317 | the hash is the trimmed answer of `nix hash to-sri --type sha256` on the lower-case hex digest, and its failure is the step's failure |
| Pipeline.Assemble | modules/scripts/browser-extensions-update.cs:276-283 | once the file is on disk, an entry is produced exactly when hashing and manifest reading succeed, and it is generated from the URL, hash, version and permissions; otherwise the hash failure, then the manifest failure, is the error |
| Pipeline.Outcome | modules/scripts/browser-extensions-update.cs:249-287 | every result of `ProcessExtensionQuiet` is well formed (an error or an entry with its version and permissions, never both) and names its extension |
| Pipeline.AfterResolution | modules/scripts/browser-extensions-update.cs:254-285 | a resolution error wins, then an empty URL gives "Failed to get download URL", then a failed download gives "Failed to download: …"; a completed download gives exactly the result of hashing and reading that file; an entry exists only after a completed download |
| Pipeline.OutcomeMeaning | modules/scripts/browser-extensions-update.cs:249-287 | the outcome order of `ProcessExtensionQuiet`, stated on the resolved URL: the same four cases, the last one being exactly the result built from the downloaded file |
| Pipeline.ProcessExtensionQuiet | modules/scripts/browser-extensions-update.cs:249-287 | as written: the result is the outcome, and the temporary file remains exactly when the download created it and then failed |
| Pipeline.FailedCopyLeavesTempFile | modules/scripts/browser-extensions-update.cs:266-272 | a download that creates the file and then fails leaves it behind and reports "Failed to download: …" |
| Pipeline.ProcessExtensionCleaned | modules/scripts/browser-extensions-update.cs:249-287 | the same result, with no temporary file left on any exit |
| Pipeline.ProcessExtensions | modules/scripts/browser-extensions-update.cs:213-237 | as written, over `ProcessExtensionQuiet`: one result per extension, in order, each the outcome for that extension; afterwards the temporary directory holds what it held before plus the file of every extension whose download created it and then failed |
| Pipeline.ProcessExtensionsCleaned | modules/scripts/browser-extensions-update.cs:213-237 | the corrected loop, over `ProcessExtensionCleaned`: the same results, and the temporary directory is left as it was found |
| Process.ParseArguments | modules/scripts/browser-extensions-update.cs:503-536 | the character loop computes the specified token list |
| Process.TokensClean | modules/scripts/browser-extensions-update.cs:503-536 | no token is empty and no token keeps a single quote |
| Process.TokensUnquoted | modules/scripts/browser-extensions-update.cs:503-536 | without quotes, the tokens are the input split on spaces with empty pieces removed |
| Process.QuotedIsOneToken | modules/scripts/browser-extensions-update.cs:513-516 | a single-quoted region is one token, spaces and all |
| Process.GetToken | modules/scripts/browser-extensions-update.cs:541-556 | a non-empty `GITHUB_TOKEN` wins; otherwise the trimmed `gh auth token` output when it starts with `gho_`; otherwise none |
| Process.ChromiumMajorVersion | modules/scripts/browser-extensions-update.cs:290-306 | a cached version wins; otherwise, when `nix eval` answers and the text before the first dot of its trimmed, unquoted answer parses as an integer, that text; otherwise "143" |
| Process.ChromiumVersionFromNixEval | modules/scripts/browser-extensions-update.cs:297-300 | a quoted dotted version on one line whose major part parses as an integer gives that major part |
| Process.ChromiumVersion143 | modules/scripts/browser-extensions-update.cs:297-300 | the answer `"143.0.7499.40"` on one line gives "143" |
| Sources.FetchUrl | modules/scripts/browser-extensions-update.cs:638-657 | an unsupported pair gives "Source '…' is not supported for … browser"; otherwise the source's own handler decides |
| Sources.UnsupportedRunsNoHandler | modules/scripts/browser-extensions-update.cs:645-646 | for an unsupported pair the outcome does not depend on any collaborator and is an error |
| Sources.RejectedPairs | modules/scripts/browser-extensions-update.cs:581-589 | the guard rejects exactly the Chrome Web Store for Firefox and AMO for Chromium: those pairs give "Source '…' is not supported for … browser", and every other pair goes to its source's handler |
| Sources.FetchUrlSource | modules/scripts/browser-extensions-update.cs:733-738 | the URL is returned unchanged when it is non-empty; otherwise the error names the id |
| Sources.FetchChromeStoreUrl | modules/scripts/browser-extensions-update.cs:659-682 | the update service is asked with `prodversion` defaulting to 143, and only a 301 or 302 yields its Location |
| Sources.FetchAmoUrl | modules/scripts/browser-extensions-update.cs:684-706 | a URL is returned exactly when the API answers and the current version, its file and the file's `url` are all present, and it is that `url`; every failure gives null |
| Sources.FetchBpcUrl | modules/scripts/browser-extensions-update.cs:708-731 | the commit is the first tab-separated field of `git ls-remote`; an empty commit is an error |
| Sources.LatestReleaseVersion | modules/scripts/browser-extensions-update.cs:772-793 | the tag is `tag_name ?? name` with every leading `v` removed; an empty tag is an error |
| Sources.EmptyTagDoesNotFallBack | modules/scripts/browser-extensions-update.cs:788-791 | an empty but present `tag_name` is an error even when `name` is set |
| Sources.GithubVersion | modules/scripts/browser-extensions-update.cs:747-757 | an explicit version loses its leading `v`s; "latest" or no version asks GitHub |
| Sources.FetchGithubReleaseUrl | modules/scripts/browser-extensions-update.cs:740-770 | owner and repo come from the extension, then the config, else the matching error; with both, a version error is returned unchanged, and a resolved version gives `https://github.com/{owner}/{repo}/` plus the substituted pattern, or the default release-asset URL when there is no pattern |
| Sources.ExplicitVersionIsOffline | modules/scripts/browser-extensions-update.cs:750-753 | with an explicit version the URL does not depend on any collaborator |
| Sources.ResolvedVersionHasNoLeadingV | modules/scripts/browser-extensions-update.cs:752 | a resolved version never starts with `v` |
| Sources.DefaultAssetPath | modules/scripts/browser-extensions-update.cs:768-769 | without a pattern the URL is `https://github.com/{owner}/{repo}/releases/download/v{version}/{id}.{crx|xpi}`, so it ends in `/{id}.{crx|xpi}` |
| Sources.PlainPatternIsPath | modules/scripts/browser-extensions-update.cs:759-765 | a pattern without placeholders is the path unchanged |
| Sources.SubstitutionOrderMatters | modules/scripts/browser-extensions-update.cs:761-764 | a version equal to `{id}` is itself replaced by the id, because the substitutions run in sequence |

## Left out

- Network I/O: the update-service request, the AMO API, the GitHub API and the download stream. Each is a function parameter whose answer is taken as given.
- Subprocesses: `git ls-remote`, `nix hash to-sri`, `nix eval`, `gh auth token`, `nixfmt` and `nix-instantiate --parse`. They are one `Runner` parameter; process start-up and exit codes are folded into its `Result`.
- SHA-256, ZIP decompression, JSON decoding and TOML parsing are not modelled. Their outputs are abstract values.
- Concurrency: the `SemaphoreSlim`, `Task.WhenAll` and `lock` of `ProcessExtensionsWithProgress` are not modelled. The model processes extensions one at a time, in input order; the real results arrive in completion order.
- Spectre.Console progress, logging, the figlet banner and the System.CommandLine entry point (lines 21-116) are not modelled. This includes the input-file check, the browser-name parse, the "no extensions" and "errors" exits, and the `nixfmt`/validation steps after writing.
- Writing the output file and creating its directory are not modelled; `Nix.GenerateNixFile` returns the text.
- The temporary ZIP file that `ExtractVersionAndPermissionsAsync` writes for a CRX package is not modelled; the archive bytes are passed to the ZIP reader directly.
- `UriBuilder` and `Uri.EscapeDataString` are not modelled: URLs and queries are the raw strings before escaping and normalisation.
- Nix.SortById: orders ids ordinally, code point by code point, where `OrderBy` uses the current culture's comparison.
- Domain.ParseSource: trims surrounding white space and matches the hyphen-stripped member names case-insensitively, as `Enum.TryParse` does. It does not accept what `Enum.TryParse` also accepts: numeric values, comma-separated lists of names, and case folding beyond ASCII. The white space it trims is that of `Char.IsWhiteSpace` (`Common.IsWhiteSpace`).
- Process.GetToken: `StartsWith("gho_")` at line 550 is modelled as an ordinal prefix test. The source's call uses the current culture's comparison, which ignores characters such as the soft hyphen U+00AD; so an output beginning with such a character followed by `gho_` is a token there and no token here.
- Nix.Generate: entries are modelled as lists of lines with relative indentation, not the byte-exact text of the raw string literals.
- Library exception messages (HTTP, JSON, process) are not modelled. They are kept as `External(message)` or as an error kind such as `NullReference`.
- `Guid.NewGuid()` is not modelled: the temporary download paths are parameters of `Pipeline.ProcessExtensions`, distinct from each other and from the files already present.
- The progress-bar increments inside `ProcessExtensionQuiet` are not modelled.

## Findings

| source | as written | input that shows it | evidently intended | confidence | as-written member | corrected member |
|---|---|---|---|---|---|---|
| modules/scripts/browser-extensions-update.cs:264-285 | the download's own `catch` returns before the `try`/`finally` that deletes the temporary file is entered, so a copy that fails after `File.Create` leaves `<guid>.crx`/`.xpi` in the temporary directory | a `url` extension whose download stream opens and then breaks during `CopyToAsync` | the temporary file is deleted on every exit, as the `finally` at line 285 does for later failures | high; not executed | Pipeline.ProcessExtensionQuiet, Pipeline.FailedCopyLeavesTempFile, Pipeline.ProcessExtensions | Pipeline.ProcessExtensionCleaned, Pipeline.ProcessExtensionsCleaned |
