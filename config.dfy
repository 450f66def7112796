// Reading the TOML configuration once Tommy has parsed it: the run-wide
// GitHub-releases defaults, one Extension per `[[extensions]]` table, and
// the flag that tells whether any extension carries a condition.
module Config {
  import opened Common
  import opened Domain

  /** A parsed TOML node, reduced to the kinds the updater distinguishes. */
  datatype Toml = TString(s: string) | TTable(entries: map<string, Toml>) | TArray(items: seq<Toml>) | TOther

  /** `table[key]?.AsString?.Value`: a missing key yields a lazy node and a
      node of another kind yields a null AsString, so both give null. */
  function StringField(table: map<string, Toml>, key: string): (r: Option<string>)
    ensures r.Some? <==> key in table && table[key].TString?
    ensures r.Some? ==> r.value == table[key].s
  {
    if key in table && table[key].TString? then Some(table[key].s) else None
  }

  /** Where a path of keys leads in nested tables: a key is missing, a
      value on the way is not a table, or the table at the end. */
  datatype Lookup = Missing | NotATable | Found(entries: map<string, Toml>)

  /** Follows `path` through nested tables, stopping at the first missing key
      or the first value that is not a table. */
  function Walk(table: map<string, Toml>, path: seq<string>): Lookup
    decreases |path|
  {
    if path == [] then Found(table)
    else if path[0] !in table then Missing
    else if !table[path[0]].TTable? then NotATable
    else Walk(table[path[0]].entries, path[1..])
  }

  const GithubConfigPath: seq<string> := ["config", "sources", "github-releases"]

  /** ParseGithubConfig: `[config.sources.github-releases]`; a missing level
      gives the empty defaults, while a level that exists but is not a table
      has a null AsTable and the next access throws. */
  function ParseGithubConfig(root: map<string, Toml>): (r: Result<GithubReleaseConfig>)
    ensures Walk(root, GithubConfigPath).Missing? ==> r == Ok(NoGithubConfig)
    ensures Walk(root, GithubConfigPath).NotATable? ==> r == Err(NullReference)
    ensures Walk(root, GithubConfigPath).Found? ==>
      var gh := Walk(root, GithubConfigPath).entries;
      r == Ok(GithubReleaseConfig(StringField(gh, "owner"), StringField(gh, "repo"), StringField(gh, "pattern")))
  {
    if "config" !in root then Ok(NoGithubConfig)
    else match root["config"]
      case TTable(config) =>
        if "sources" !in config then Ok(NoGithubConfig)
        else (match config["sources"]
          case TTable(sources) =>
            if "github-releases" !in sources then Ok(NoGithubConfig)
            else (match sources["github-releases"]
              case TTable(gh) =>
                Ok(GithubReleaseConfig(StringField(gh, "owner"), StringField(gh, "repo"), StringField(gh, "pattern")))
              case _ => Err(NullReference))
          case _ => Err(NullReference))
      case _ => Err(NullReference)
  }

  /** TryParseExtension: a table without a non-empty string `id` is skipped;
      otherwise every field is read as a nullable string, and the shared
      flag is raised when the condition is non-empty. */
  function TryParseExtension(table: map<string, Toml>, hasConditions: bool): (r: (Option<Extension>, bool))
    ensures r.0.Some? <==> !IsNullOrEmpty(StringField(table, "id"))
    ensures r.0.Some? ==>
      r.0.value == Extension(StringField(table, "id").value, StringField(table, "name"),
        ParseSource(StringField(table, "source")), StringField(table, "url"), StringField(table, "condition"),
        StringField(table, "owner"), StringField(table, "repo"), StringField(table, "pattern"),
        StringField(table, "version"))
      && r.0.value.id != []
    ensures r.1 <==> hasConditions || (r.0.Some? && HasCondition(r.0.value))
  {
    var id := StringField(table, "id");
    if IsNullOrEmpty(id) then (None, hasConditions)
    else
      var condition := StringField(table, "condition");
      var ext := Extension(
        id.value,
        StringField(table, "name"),
        ParseSource(StringField(table, "source")),
        StringField(table, "url"),
        condition,
        StringField(table, "owner"),
        StringField(table, "repo"),
        StringField(table, "pattern"),
        StringField(table, "version"));
      (Some(ext), hasConditions || !IsNullOrEmpty(condition))
  }

  datatype ParsedConfig = ParsedConfig(extensions: seq<Extension>, config: GithubReleaseConfig, hasConditions: bool)

  /** The extensions and flag after the first `items`: an element that is not
      a table has a null AsTable and the lookup of its id throws. */
  function ParseItems(items: seq<Toml>): Result<(seq<Extension>, bool)>
    decreases |items|
  {
    if items == [] then Ok(([], false))
    else
      var prev := ParseItems(items[..|items| - 1]);
      var last := items[|items| - 1];
      if prev.Err? then prev
      else if !last.TTable? then Err(NullReference)
      else
        var step := TryParseExtension(last.entries, prev.value.1);
        Ok((prev.value.0 + (if step.0.Some? then [step.0.value] else []), step.1))
  }

  /** ParseItems on one more element, unfolded. */
  lemma ParseItemsSnoc(init: seq<Toml>, last: Toml)
    ensures ParseItems(init + [last]) ==
      if ParseItems(init).Err? then ParseItems(init)
      else if !last.TTable? then Err(NullReference)
      else
        var step := TryParseExtension(last.entries, ParseItems(init).value.1);
        Ok((ParseItems(init).value.0 + (if step.0.Some? then [step.0.value] else []), step.1))
  {
    var w := init + [last];
    assert w[..|w| - 1] == init;
  }

  /** The whole of ParseToml over the parsed root table. */
  function ParseTomlSpec(root: map<string, Toml>): Result<ParsedConfig> {
    var config := ParseGithubConfig(root);
    if config.Err? then Err(config.error)
    else if "extensions" !in root then Ok(ParsedConfig([], config.value, false))
    else if !root["extensions"].TArray? then Err(NullReference)
    else
      var parsed := ParseItems(root["extensions"].items);
      if parsed.Err? then Err(parsed.error) else Ok(ParsedConfig(parsed.value.0, config.value, parsed.value.1))
  }

  /** ParseToml: the `[[extensions]]` loop appends each parsed extension
      and raises `hasConditions` through the reference parameter. */
  method ParseToml(root: map<string, Toml>) returns (r: Result<ParsedConfig>)
    ensures r == ParseTomlSpec(root)
  {
    var config := ParseGithubConfig(root);
    if config.Err? {
      return Err(config.error);
    }
    var extensions: seq<Extension> := [];
    var hasConditions := false;
    if "extensions" !in root {
      return Ok(ParsedConfig(extensions, config.value, hasConditions));
    }
    if !root["extensions"].TArray? {
      return Err(NullReference);
    }
    var parsed := ParseExtensionArray(root["extensions"].items);
    if parsed.Err? {
      return Err(parsed.error);
    }
    r := Ok(ParsedConfig(parsed.value.0, config.value, parsed.value.1));
  }

  /** The foreach over `table["extensions"].AsArray.Children`. */
  method ParseExtensionArray(items: seq<Toml>) returns (r: Result<(seq<Extension>, bool)>)
    ensures r == ParseItems(items)
  {
    var extensions: seq<Extension> := [];
    var hasConditions := false;
    for i := 0 to |items|
      invariant ParseItems(items[..i]) == Ok((extensions, hasConditions))
    {
      if !items[i].TTable? {
        ParseItemsErrStays(items, i + 1);
        assert items[..|items|] == items;
        return Err(NullReference);
      }
      ParseItemsStep(items, i, extensions, hasConditions);
      var parsed := TryParseExtension(items[i].entries, hasConditions);
      if parsed.0.Some? {
        extensions := extensions + [parsed.0.value];
      } else {
        assert extensions + [] == extensions;
      }
      hasConditions := parsed.1;
    }
    assert items[..|items|] == items;
    r := Ok((extensions, hasConditions));
  }

  /** One more table element, after a prefix that parsed. */
  lemma ParseItemsStep(items: seq<Toml>, i: nat, extensions: seq<Extension>, hasConditions: bool)
    requires i < |items| && items[i].TTable?
    requires ParseItems(items[..i]) == Ok((extensions, hasConditions))
    ensures var parsed := TryParseExtension(items[i].entries, hasConditions);
      ParseItems(items[..i + 1]) == Ok((extensions + (if parsed.0.Some? then [parsed.0.value] else []), parsed.1))
  {
    assert items[..i + 1] == items[..i] + [items[i]];
    ParseItemsSnoc(items[..i], items[i]);
  }

  /** Once an element fails, the failure is the result of every longer prefix. */
  lemma {:induction false} ParseItemsErrStays(items: seq<Toml>, n: nat)
    requires 0 < n <= |items|
    requires ParseItems(items[..n - 1]).Ok? && !items[n - 1].TTable?
    ensures ParseItems(items) == Err(NullReference)
    decreases |items| - n
  {
    assert items[..n][..n - 1] == items[..n - 1];
    if n < |items| {
      ParseItemsErrStaysFrom(items, n);
    } else {
      assert items[..n] == items;
    }
  }

  lemma {:induction false} ParseItemsErrStaysFrom(items: seq<Toml>, n: nat)
    requires 0 < n <= |items|
    requires ParseItems(items[..n]) == Err(NullReference)
    ensures ParseItems(items) == Err(NullReference)
    decreases |items| - n
  {
    if n < |items| {
      assert items[..n + 1][..n] == items[..n];
      ParseItemsErrStaysFrom(items, n + 1);
    } else {
      assert items[..n] == items;
    }
  }

  /** The ids, in order, of the elements that are tables with a non-empty
      string `id`. */
  function KeptIds(items: seq<Toml>): seq<string>
    decreases |items|
  {
    if items == [] then []
    else
      var last := items[|items| - 1];
      KeptIds(items[..|items| - 1])
      + (if last.TTable? && !IsNullOrEmpty(StringField(last.entries, "id")) then [StringField(last.entries, "id").value] else [])
  }

  function Ids(exts: seq<Extension>): seq<string>
    decreases |exts|
  {
    if exts == [] then [] else Ids(exts[..|exts| - 1]) + [exts[|exts| - 1].id]
  }

  /** Parsing the extension list keeps exactly the tables with a non-empty
      id, in file order. */
  lemma {:induction false} ParseItemsIds(items: seq<Toml>)
    requires ParseItems(items).Ok?
    ensures Ids(ParseItems(items).value.0) == KeptIds(items)
    decreases |items|
  {
    if items != [] {
      var init := items[..|items| - 1];
      ParseItemsIds(init);
      var prev := ParseItems(init).value.0;
      var cur := ParseItems(items).value.0;
      if |cur| > |prev| {
        assert cur[..|cur| - 1] == prev;
      } else {
        assert cur == prev;
      }
    }
  }

  /** Every parsed extension has a non-empty id. */
  lemma {:induction false} ParseItemsNonEmptyIds(items: seq<Toml>)
    requires ParseItems(items).Ok?
    ensures forall k :: 0 <= k < |ParseItems(items).value.0| ==> ParseItems(items).value.0[k].id != []
    decreases |items|
  {
    if items != [] {
      ParseItemsNonEmptyIds(items[..|items| - 1]);
    }
  }

  /** The flag is raised exactly when a parsed extension has a non-empty
      condition. */
  lemma {:induction false} ParseItemsFlag(items: seq<Toml>)
    requires ParseItems(items).Ok?
    ensures ParseItems(items).value.1 <==>
      exists k :: 0 <= k < |ParseItems(items).value.0| && HasCondition(ParseItems(items).value.0[k])
    decreases |items|
  {
    if items != [] {
      var init := items[..|items| - 1];
      ParseItemsFlag(init);
      var prev := ParseItems(init).value;
      var last := items[|items| - 1];
      var step := TryParseExtension(last.entries, prev.1);
      assert ParseItems(items).value == (prev.0 + (if step.0.Some? then [step.0.value] else []), step.1);
      FlagStep(prev.0, prev.1, step.0, step.1);
    }
  }

  /** The flag after one more element: raised before, or raised by the new
      extension's condition. */
  lemma FlagStep(exts: seq<Extension>, flag: bool, next: Option<Extension>, nextFlag: bool)
    requires flag <==> exists k :: 0 <= k < |exts| && HasCondition(exts[k])
    requires nextFlag <==> flag || (next.Some? && HasCondition(next.value))
    ensures var cur := exts + (if next.Some? then [next.value] else []);
      nextFlag <==> exists k :: 0 <= k < |cur| && HasCondition(cur[k])
  {
    var cur := exts + (if next.Some? then [next.value] else []);
    if next.Some? {
      if nextFlag {
        if HasCondition(next.value) {
          assert HasCondition(cur[|cur| - 1]);
        } else {
          var k :| 0 <= k < |exts| && HasCondition(exts[k]);
          assert cur[k] == exts[k];
        }
      }
      forall k | 0 <= k < |cur| && HasCondition(cur[k]) ensures nextFlag {
        if k < |exts| { assert cur[k] == exts[k]; }
      }
    } else {
      assert cur == exts;
    }
  }

  /** ParseToml keeps the `[[extensions]]` tables with a non-empty id in
      order, and `hasConditions` holds exactly when one of them is guarded. */
  lemma ParseTomlMeaning(root: map<string, Toml>)
    requires ParseTomlSpec(root).Ok?
    ensures var p := ParseTomlSpec(root).value;
      (forall k :: 0 <= k < |p.extensions| ==> p.extensions[k].id != [])
      && (p.hasConditions <==> exists k :: 0 <= k < |p.extensions| && HasCondition(p.extensions[k]))
      && ("extensions" in root ==> Ids(p.extensions) == KeptIds(root["extensions"].items))
      && p.config == ParseGithubConfig(root).value
  {
    if "extensions" in root {
      var items := root["extensions"].items;
      ParseItemsIds(items);
      ParseItemsNonEmptyIds(items);
      ParseItemsFlag(items);
    }
  }
}
