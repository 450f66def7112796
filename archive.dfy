// Reading the version and the permissions out of a downloaded package:
// locating the ZIP archive inside a CRX file, then choosing the version and
// assembling the permission list from manifest.json. ZIP and JSON decoding
// are collaborators; the model sees the decoded manifest as a Json tree.
module Archive {
  import opened Common

  // ---------------------------------------------------------------------
  // FindPattern
  // ---------------------------------------------------------------------

  /** True when `pattern` occurs in `data` at index `i`. */
  predicate MatchAt(data: seq<bv8>, pattern: seq<bv8>, i: int) {
    0 <= i && i + |pattern| <= |data| && data[i..i + |pattern|] == pattern
  }

  /** The first index at or after `from` where `pattern` occurs, or -1. */
  function IndexFrom(data: seq<bv8>, pattern: seq<bv8>, from: nat): (r: int)
    ensures r == -1 || (from <= r && MatchAt(data, pattern, r))
    ensures forall j :: from <= j && (r == -1 || j < r) ==> !MatchAt(data, pattern, j)
    decreases |data| - from
  {
    if from + |pattern| > |data| then -1
    else if data[from..from + |pattern|] == pattern then from
    else IndexFrom(data, pattern, from + 1)
  }

  /** The least index where `pattern` occurs in `data`, or -1. */
  function IndexOf(data: seq<bv8>, pattern: seq<bv8>): int {
    IndexFrom(data, pattern, 0)
  }

  /** FindPattern: the index loop with an early return on the first match. */
  method FindPattern(data: seq<bv8>, pattern: seq<bv8>) returns (index: int)
    ensures index == IndexOf(data, pattern)
    ensures index == -1 <==> forall j :: !MatchAt(data, pattern, j)
    ensures index != -1 ==>
      0 <= index <= |data| - |pattern| && MatchAt(data, pattern, index)
      && forall j :: 0 <= j < index ==> !MatchAt(data, pattern, j)
  {
    var i := 0;
    while i <= |data| - |pattern|
      invariant 0 <= i
      invariant i <= |data| - |pattern| + 1 || i == 0
      invariant IndexFrom(data, pattern, i) == IndexOf(data, pattern)
      decreases |data| - i
    {
      if data[i..i + |pattern|] == pattern {
        return i;
      }
      i := i + 1;
    }
    return -1;
  }

  /** IndexOf finds the first occurrence, and finds one whenever there is one. */
  lemma IndexOfMeaning(data: seq<bv8>, pattern: seq<bv8>)
    ensures var r := IndexOf(data, pattern);
      (r == -1 <==> forall j :: !MatchAt(data, pattern, j))
      && (r != -1 ==>
        0 <= r <= |data| - |pattern| && MatchAt(data, pattern, r)
        && forall j :: 0 <= j < r ==> !MatchAt(data, pattern, j))
  {
  }

  // ---------------------------------------------------------------------
  // Locating the archive
  // ---------------------------------------------------------------------

  /** "Cr24", the CRX magic. */
  const CrxMagic: seq<bv8> := [0x43, 0x72, 0x32, 0x34]

  /** PK\x03\x04, the ZIP local file header signature (PKWARE APPNOTE.TXT
      section 4.3.7). */
  const ZipMagic: seq<bv8> := [0x50, 0x4B, 0x03, 0x04]

  const NoZipInCrx := "Could not find ZIP archive within CRX file"

  /** The bytes handed to the ZIP reader: a CRX file is cut at its first ZIP
      signature; any other file is used whole. The first four bytes are read
      exactly, so a shorter file fails. */
  function ArchiveBytes(file: seq<bv8>): (r: Result<seq<bv8>>)
    ensures |file| < 4 ==> r == Err(EndOfStream)
    ensures |file| >= 4 && file[..4] != CrxMagic ==> r == Ok(file)
    ensures |file| >= 4 && file[..4] == CrxMagic ==>
      (IndexOf(file, ZipMagic) == -1 ==> r == Err(Raised(NoZipInCrx)))
      && (IndexOf(file, ZipMagic) != -1 ==> r == Ok(file[IndexOf(file, ZipMagic)..]))
  {
    if |file| < 4 then Err(EndOfStream)
    else if file[..4] == CrxMagic then
      var offset := IndexOf(file, ZipMagic);
      if offset < 0 then Err(Raised(NoZipInCrx)) else Ok(file[offset..])
    else Ok(file)
  }

  /** The archive cut out of a CRX file starts with the ZIP signature, and
      no earlier position of the file holds one. */
  lemma CrxArchiveStartsAtFirstSignature(file: seq<bv8>)
    requires |file| >= 4 && file[..4] == CrxMagic && ArchiveBytes(file).Ok?
    ensures var zip := ArchiveBytes(file).value;
      |zip| >= 4 && zip[..4] == ZipMagic
      && zip == file[|file| - |zip|..]
      && forall j :: 0 <= j < |file| - |zip| ==> !MatchAt(file, ZipMagic, j)
  {
    var k := IndexOf(file, ZipMagic);
    assert MatchAt(file, ZipMagic, k);
    assert file[k..][..4] == file[k..k + 4];
  }

  /** A CRX file without any ZIP signature is rejected. */
  lemma CrxWithoutZipFails(file: seq<bv8>)
    requires |file| >= 4 && file[..4] == CrxMagic
    requires forall j :: !MatchAt(file, ZipMagic, j)
    ensures ArchiveBytes(file) == Err(Raised(NoZipInCrx))
  {
    IndexOfMeaning(file, ZipMagic);
  }

  // ---------------------------------------------------------------------
  // The manifest
  // ---------------------------------------------------------------------

  /** A JSON value, reduced to the kinds the updater distinguishes; numbers
      and booleans are JOther. */
  datatype Json = JString(s: string) | JNull | JArray(items: seq<Json>) | JObject(fields: map<string, Json>) | JOther

  /** JsonElement.GetString(): the text of a string, null for a JSON null,
      and an exception for any other kind. */
  function GetString(j: Json): (r: Result<Option<string>>)
    ensures r.Ok? <==> j.JString? || j.JNull?
    ensures j.JString? ==> r == Ok(Some(j.s))
    ensures j.JNull? ==> r == Ok(None)
    ensures r.Err? ==> r.error == NotAJsonString
  {
    match j
    case JString(s) => Ok(Some(s))
    case JNull => Ok(None)
    case _ => Err(NotAJsonString)
  }

  /** `TryGetProperty(key, out v) ? v.GetString() : null`. */
  function PropertyString(root: map<string, Json>, key: string): Result<Option<string>> {
    if key in root then GetString(root[key]) else Ok(None)
  }

  const NoVersion := "Could not extract version from manifest"

  /** The version: `version` when it is a non-empty string, otherwise
      `version_name` when that key is present, and an error when the outcome
      is still null or empty. Reading either key as a string may throw. */
  function SelectVersion(root: map<string, Json>): Result<string> {
    var v := PropertyString(root, "version");
    if v.Err? then Err(v.error)
    else
      var w := if IsNullOrEmpty(v.value) && "version_name" in root then GetString(root["version_name"]) else v;
      if w.Err? then Err(w.error)
      else if IsNullOrEmpty(w.value) then Err(Raised(NoVersion))
      else Ok(w.value.value)
  }

  /** The version rule in both directions: a non-empty `version` string is
      the answer; failing that a non-empty `version_name` string is; when
      neither key yields a non-empty string, extraction fails with
      "Could not extract version from manifest". A successful answer always
      comes from one of the two keys. */
  lemma SelectVersionMeaning(root: map<string, Json>)
    ensures "version" in root && root["version"].JString? && root["version"].s != [] ==>
      SelectVersion(root) == Ok(root["version"].s)
    ensures (PropertyString(root, "version").Ok? && IsNullOrEmpty(PropertyString(root, "version").value)
      && "version_name" in root && root["version_name"].JString? && root["version_name"].s != []) ==>
      SelectVersion(root) == Ok(root["version_name"].s)
    ensures (PropertyString(root, "version").Ok? && IsNullOrEmpty(PropertyString(root, "version").value)
      && PropertyString(root, "version_name").Ok? && IsNullOrEmpty(PropertyString(root, "version_name").value)) ==>
      SelectVersion(root) == Err(Raised(NoVersion))
    ensures SelectVersion(root).Ok? ==>
      SelectVersion(root).value != []
      && ((PropertyString(root, "version") == Ok(Some(SelectVersion(root).value)))
        || (PropertyString(root, "version_name") == Ok(Some(SelectVersion(root).value))))
  {
  }

  /** The string elements of an array, in order; other kinds are skipped. */
  function Strings(items: seq<Json>): (r: seq<string>)
    ensures |r| <= |items|
    ensures forall s :: s in r <==> JString(s) in items
    decreases |items|
  {
    if items == [] then []
    else
      var init, last := items[..|items| - 1], items[|items| - 1];
      assert items == init + [last];
      Strings(init) + (if last.JString? then [last.s] else [])
  }

  /** The filter keeps the order of the array: it works element by element,
      a string element contributing its text and any other nothing. */
  lemma {:induction false} StringsAppend(a: seq<Json>, b: seq<Json>)
    ensures Strings(a + b) == Strings(a) + Strings(b)
    decreases |b|
  {
    if b == [] {
      assert a + b == a;
    } else {
      var w, init, last := a + b, b[..|b| - 1], b[|b| - 1];
      assert w[..|w| - 1] == a + init && w[|w| - 1] == last;
      assert Strings(w) == Strings(a + init) + (if last.JString? then [last.s] else []);
      assert Strings(b) == Strings(init) + (if last.JString? then [last.s] else []);
      StringsAppend(a, init);
    }
  }

  /** A one-element array contributes its text exactly when it is kept. */
  lemma StringsOne(j: Json)
    ensures Strings([j]) == if j.JString? then [j.s] else []
  {
    assert [j][..0] == [];
  }


  /** The `optional_permissions` filter exactly as it is written:
      `kind == String && GetString().Contains('/') || GetString().Contains('*')`.
      A string is kept when it holds '/' or '*'; for any other element the
      right operand reads GetString(), which is null for a JSON null (so
      Contains throws) and throws for every other kind. */
  function OptionalHosts(items: seq<Json>): (r: Result<seq<string>>)
    decreases |items|
  {
    if items == [] then Ok([])
    else
      var prev := OptionalHosts(items[..|items| - 1]);
      var p := items[|items| - 1];
      if prev.Err? then prev
      else match p
        case JString(s) => Ok(prev.value + (if '/' in s || '*' in s then [s] else []))
        case JNull => Err(NullReference)
        case _ => Err(NotAJsonString)
  }

  /** A permission naming hosts: it holds '/' or '*'. */
  predicate HostLike(s: string) {
    '/' in s || '*' in s
  }

  /** The strings holding '/' or '*', in order: what the filter was meant
      to keep. */
  function UrlLike(items: seq<Json>): (r: seq<string>)
    ensures forall s :: s in r <==> JString(s) in items && HostLike(s)
    decreases |items|
  {
    if items == [] then []
    else
      var init, p := items[..|items| - 1], items[|items| - 1];
      assert items == init + [p];
      UrlLike(init) + (if p.JString? && HostLike(p.s) then [p.s] else [])
  }

  /** The URL-like filter keeps the order of the array as well. */
  /** UrlLike on one more element, unfolded. */
  lemma UrlLikeSnoc(init: seq<Json>, last: Json)
    ensures UrlLike(init + [last]) == UrlLike(init) + (if last.JString? && HostLike(last.s) then [last.s] else [])
  {
    var w := init + [last];
    assert w[..|w| - 1] == init && w[|w| - 1] == last;
  }

  lemma {:induction false} UrlLikeAppend(a: seq<Json>, b: seq<Json>)
    ensures UrlLike(a + b) == UrlLike(a) + UrlLike(b)
    decreases |b|
  {
    if b == [] {
      assert a + b == a;
    } else {
      var init, last := b[..|b| - 1], b[|b| - 1];
      assert b == init + [last];
      assert a + b == (a + init) + [last];
      UrlLikeSnoc(a + init, last);
      UrlLikeSnoc(init, last);
      UrlLikeAppend(a, init);
    }
  }

  /** A one-element array contributes its text exactly when it is kept. */
  lemma UrlLikeOne(j: Json)
    ensures UrlLike([j]) == if j.JString? && HostLike(j.s) then [j.s] else []
  {
    assert [j][..0] == [];
  }


  /** The `optional_permissions` filter succeeds exactly when every element
      is a string, and then keeps the URL-like ones in order; otherwise the
      first element that is not a string decides the exception. */
  lemma {:induction false} OptionalHostsMeaning(items: seq<Json>)
    ensures OptionalHosts(items).Ok? <==> forall k :: 0 <= k < |items| ==> items[k].JString?
    ensures OptionalHosts(items).Ok? ==> OptionalHosts(items).value == UrlLike(items)
    ensures OptionalHosts(items).Err? ==>
      exists k :: 0 <= k < |items| && !items[k].JString?
        && (forall j :: 0 <= j < k ==> items[j].JString?)
        && OptionalHosts(items).error == (if items[k].JNull? then NullReference else NotAJsonString)
    decreases |items|
  {
    if items != [] {
      var init := items[..|items| - 1];
      OptionalHostsMeaning(init);
      assert forall k :: 0 <= k < |init| ==> init[k] == items[k];
      if OptionalHosts(init).Err? {
        var k :| 0 <= k < |init| && !init[k].JString?
          && (forall j :: 0 <= j < k ==> init[j].JString?)
          && OptionalHosts(init).error == (if init[k].JNull? then NullReference else NotAJsonString);
        assert !items[k].JString?;
      } else if !items[|items| - 1].JString? {
        var k := |items| - 1;
        assert forall j :: 0 <= j < k ==> items[j].JString?;
      }
    }
  }

  /** `root[key]` when it is present and an array. */
  predicate HasArray(root: map<string, Json>, key: string) {
    key in root && root[key].JArray?
  }

  /** The permissions: the strings of `permissions`, followed by the strings
      of `host_permissions` when that is an array, or else by the URL-like
      entries of `optional_permissions` when that is an array. */
  function SelectPermissions(root: map<string, Json>): Result<seq<string>> {
    var permissions := if HasArray(root, "permissions") then Strings(root["permissions"].items) else [];
    var hosts :=
      if HasArray(root, "host_permissions") then Ok(Strings(root["host_permissions"].items))
      else if HasArray(root, "optional_permissions") then OptionalHosts(root["optional_permissions"].items)
      else Ok([]);
    if hosts.Err? then Err(hosts.error) else Ok(permissions + hosts.value)
  }

  /** What reading manifest.json out of the archive bytes gives; a ZIP
      reader and a JSON parser stand behind it. */
  datatype ArchiveRead =
    | Corrupt(error: Error)       // the bytes are no ZIP archive, or manifest.json is no JSON
    | NoManifestEntry             // the archive has no manifest.json
    | ManifestDoc(root: Json)     // the parsed manifest

  const NoManifest := "manifest.json not found in extension archive"

  /** The version and the permissions of the manifest itself. */
  function ReadManifest(doc: Json): (r: Result<(string, seq<string>)>)
    ensures r.Ok? <==> doc.JObject? && SelectVersion(doc.fields).Ok? && SelectPermissions(doc.fields).Ok?
    ensures r.Ok? ==> r.value == (SelectVersion(doc.fields).value, SelectPermissions(doc.fields).value) && r.value.0 != []
    ensures !doc.JObject? ==> r == Err(NotAJsonObject)
    ensures doc.JObject? && SelectVersion(doc.fields).Err? ==> r == Err(SelectVersion(doc.fields).error)
    ensures doc.JObject? && SelectVersion(doc.fields).Ok? && SelectPermissions(doc.fields).Err? ==>
      r == Err(SelectPermissions(doc.fields).error)
  {
    if !doc.JObject? then Err(NotAJsonObject)
    else
      var version := SelectVersion(doc.fields);
      if version.Err? then Err(version.error)
      else
        var permissions := SelectPermissions(doc.fields);
        if permissions.Err? then Err(permissions.error)
        else Ok((version.value, permissions.value))
  }

  /** ExtractVersionAndPermissionsAsync over the package bytes; `open`
      stands for ZipFile.OpenReadAsync, GetEntry("manifest.json") and
      JsonDocument.Parse. */
  function ExtractVersionAndPermissions(file: seq<bv8>, open: seq<bv8> -> ArchiveRead): (r: Result<(string, seq<string>)>)
    ensures ArchiveBytes(file).Err? ==> r == Err(ArchiveBytes(file).error)
    ensures ArchiveBytes(file).Ok? && open(ArchiveBytes(file).value).Corrupt? ==>
      r == Err(open(ArchiveBytes(file).value).error)
    ensures ArchiveBytes(file).Ok? && open(ArchiveBytes(file).value).NoManifestEntry? ==> r == Err(Raised(NoManifest))
    ensures ArchiveBytes(file).Ok? && open(ArchiveBytes(file).value).ManifestDoc? ==>
      r == ReadManifest(open(ArchiveBytes(file).value).root)
    ensures r.Ok? ==>
      r.value.0 != [] && open(ArchiveBytes(file).value).ManifestDoc?
      && r == ReadManifest(open(ArchiveBytes(file).value).root)
  {
    var zip := ArchiveBytes(file);
    if zip.Err? then Err(zip.error)
    else match open(zip.value)
      case Corrupt(e) => Err(e)
      case NoManifestEntry => Err(Raised(NoManifest))
      case ManifestDoc(root) => ReadManifest(root)
  }

  /** The permission list in full: the strings of `permissions` come first,
      in order and with duplicates; then the strings of `host_permissions`
      when it is an array; only otherwise the URL-like strings of
      `optional_permissions`, which fails as soon as one of its elements is
      not a string. */
  lemma SelectPermissionsMeaning(root: map<string, Json>)
    ensures var permissions := if HasArray(root, "permissions") then Strings(root["permissions"].items) else [];
      (HasArray(root, "host_permissions") ==>
        SelectPermissions(root) == Ok(permissions + Strings(root["host_permissions"].items)))
      && (!HasArray(root, "host_permissions") && !HasArray(root, "optional_permissions") ==>
        SelectPermissions(root) == Ok(permissions))
      && (!HasArray(root, "host_permissions") && HasArray(root, "optional_permissions") ==>
        (SelectPermissions(root).Ok? <==>
          forall k :: 0 <= k < |root["optional_permissions"].items| ==> root["optional_permissions"].items[k].JString?)
        && (SelectPermissions(root).Ok? ==>
          SelectPermissions(root) == Ok(permissions + UrlLike(root["optional_permissions"].items))))
  {
    var permissions := if HasArray(root, "permissions") then Strings(root["permissions"].items) else [];
    assert permissions + [] == permissions;
    if HasArray(root, "optional_permissions") {
      OptionalHostsMeaning(root["optional_permissions"].items);
    }
  }

  /** The precedence quirk: a JSON null among `optional_permissions` (with
      no `host_permissions` array) fails the whole extraction, even when
      the manifest has a valid version. */
  lemma NullOptionalPermissionFails(file: seq<bv8>, open: seq<bv8> -> ArchiveRead, k: nat)
    requires ArchiveBytes(file).Ok? && open(ArchiveBytes(file).value).ManifestDoc?
    requires var doc := open(ArchiveBytes(file).value).root;
      doc.JObject? && SelectVersion(doc.fields).Ok?
      && !HasArray(doc.fields, "host_permissions") && HasArray(doc.fields, "optional_permissions")
      && k < |doc.fields["optional_permissions"].items|
      && doc.fields["optional_permissions"].items[k] == JNull
    ensures ExtractVersionAndPermissions(file, open).Err?
  {
    var doc := open(ArchiveBytes(file).value).root;
    OptionalHostsMeaning(doc.fields["optional_permissions"].items);
  }
}
