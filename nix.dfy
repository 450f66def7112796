// NixEntryGenerator and GenerateNixFile: escaping text for a Nix string,
// the per-browser entry shapes, and the assembly of the generated file.
module Nix {
  import opened Common
  import opened Domain

  // ---------------------------------------------------------------------
  // Escape
  // ---------------------------------------------------------------------

  /** NixEntryGenerator.Escape: five string.Replace calls in a row. */
  function Escape(s: string): string {
    ReplaceAll(ReplaceAll(ReplaceAll(ReplaceAll(ReplaceAll(s, "\\", "\\\\"), "\"", "\\\""), "$", "\\$"), "[", "[["), "]", "]]")
  }

  /** The replacement each character gets. */
  function EscapeChar(c: char): (r: string)
    ensures |r| >= 1
  {
    if c == '\\' then "\\\\"
    else if c == '"' then "\\\""
    else if c == '$' then "\\$"
    else if c == '[' then "[["
    else if c == ']' then "]]"
    else [c]
  }

  predicate Special(c: char) {
    c == '\\' || c == '"' || c == '$' || c == '[' || c == ']'
  }

  /** Escaping character by character. */
  function EscapeMap(s: string): string
    decreases |s|
  {
    if s == [] then [] else EscapeChar(s[0]) + EscapeMap(s[1..])
  }

  /** The five replacements as per-character maps. */
  function Stages(s: string): string {
    SubstChar(SubstChar(SubstChar(SubstChar(SubstChar(s, '\\', "\\\\"), '"', "\\\""), '$', "\\$"), '[', "[["), ']', "]]")
  }

  lemma EscapeIsStages(s: string)
    ensures Escape(s) == Stages(s)
  {
    var s1 := ReplaceAll(s, "\\", "\\\\");
    ReplaceOneChar(s, '\\', "\\\\");
    var s2 := ReplaceAll(s1, "\"", "\\\"");
    ReplaceOneChar(s1, '"', "\\\"");
    var s3 := ReplaceAll(s2, "$", "\\$");
    ReplaceOneChar(s2, '$', "\\$");
    var s4 := ReplaceAll(s3, "[", "[[");
    ReplaceOneChar(s3, '[', "[[");
    ReplaceOneChar(s4, ']', "]]");
  }

  lemma StagesAppend(a: string, b: string)
    ensures Stages(a + b) == Stages(a) + Stages(b)
  {
    SubstCharAppend(a, b, '\\', "\\\\");
    var a1, b1 := SubstChar(a, '\\', "\\\\"), SubstChar(b, '\\', "\\\\");
    SubstCharAppend(a1, b1, '"', "\\\"");
    var a2, b2 := SubstChar(a1, '"', "\\\""), SubstChar(b1, '"', "\\\"");
    SubstCharAppend(a2, b2, '$', "\\$");
    var a3, b3 := SubstChar(a2, '$', "\\$"), SubstChar(b2, '$', "\\$");
    SubstCharAppend(a3, b3, '[', "[[");
    var a4, b4 := SubstChar(a3, '[', "[["), SubstChar(b3, '[', "[[");
    SubstCharAppend(a4, b4, ']', "]]");
  }

  /** One stage applied to a string that is the stage's character alone or
      does not hold it. */
  lemma Stage(t: string, c: char, rep: string)
    requires t == [c] || c !in t
    ensures SubstChar(t, c, rep) == if t == [c] then rep else t
  {
    if t == [c] {
      assert t[..0] == [];
    } else {
      SubstCharAbsent(t, c, rep);
    }
  }

  /** The stages after the first leave a string alone that holds none of
      their characters. */
  lemma LaterStagesAbsent(t: string)
    requires '"' !in t && '$' !in t && '[' !in t && ']' !in t
    ensures SubstChar(SubstChar(SubstChar(SubstChar(t, '"', "\\\""), '$', "\\$"), '[', "[["), ']', "]]") == t
  {
    SubstCharAbsent(t, '"', "\\\"");
    SubstCharAbsent(t, '$', "\\$");
    SubstCharAbsent(t, '[', "[[");
    SubstCharAbsent(t, ']', "]]");
  }

  lemma StagesBackslash(c: char)
    requires c == '\\'
    ensures Stages([c]) == "\\\\"
  {
    Stage([c], '\\', "\\\\");
    LaterStagesAbsent("\\\\");
  }

  lemma StagesQuote(c: char)
    requires c == '"'
    ensures Stages([c]) == "\\\""
  {
    SubstCharAbsent([c], '\\', "\\\\");
    Stage([c], '"', "\\\"");
    SubstCharAbsent("\\\"", '$', "\\$");
    SubstCharAbsent("\\\"", '[', "[[");
    SubstCharAbsent("\\\"", ']', "]]");
  }

  lemma StagesDollar(c: char)
    requires c == '$'
    ensures Stages([c]) == "\\$"
  {
    SubstCharAbsent([c], '\\', "\\\\");
    SubstCharAbsent([c], '"', "\\\"");
    Stage([c], '$', "\\$");
    SubstCharAbsent("\\$", '[', "[[");
    SubstCharAbsent("\\$", ']', "]]");
  }

  lemma StagesOpen(c: char)
    requires c == '['
    ensures Stages([c]) == "[["
  {
    SubstCharAbsent([c], '\\', "\\\\");
    SubstCharAbsent([c], '"', "\\\"");
    SubstCharAbsent([c], '$', "\\$");
    Stage([c], '[', "[[");
    SubstCharAbsent("[[", ']', "]]");
  }

  lemma StagesClose(c: char)
    requires c == ']'
    ensures Stages([c]) == "]]"
  {
    SubstCharAbsent([c], '\\', "\\\\");
    SubstCharAbsent([c], '"', "\\\"");
    SubstCharAbsent([c], '$', "\\$");
    SubstCharAbsent([c], '[', "[[");
    Stage([c], ']', "]]");
  }

  lemma StagesPlain(c: char)
    requires !Special(c)
    ensures Stages([c]) == [c]
  {
    SubstCharAbsent([c], '\\', "\\\\");
    LaterStagesAbsent([c]);
  }

  /** The five stages applied to one character give its escape. */
  lemma StagesChar(c: char)
    ensures Stages([c]) == EscapeChar(c)
  {
    if c == '\\' {
      StagesBackslash(c);
    } else if c == '"' {
      StagesQuote(c);
    } else if c == '$' {
      StagesDollar(c);
    } else if c == '[' {
      StagesOpen(c);
    } else if c == ']' {
      StagesClose(c);
    } else {
      StagesPlain(c);
    }
  }

  /** Escape maps each character independently: `\` to `\\`, `"` to `\"`,
      `$` to `\$`, `[` to `[[`, `]` to `]]`, and keeps every other one. */
  lemma {:induction false} EscapeIsPerChar(s: string)
    ensures Escape(s) == EscapeMap(s)
    decreases |s|
  {
    EscapeIsStages(s);
    if s == [] {
      assert Stages([]) == [];
    } else {
      assert s == [s[0]] + s[1..];
      StagesAppend([s[0]], s[1..]);
      StagesChar(s[0]);
      EscapeIsPerChar(s[1..]);
      EscapeIsStages(s[1..]);
    }
  }

  /** Escape distributes over concatenation. */
  lemma EscapeAppend(a: string, b: string)
    ensures Escape(a + b) == Escape(a) + Escape(b)
  {
    EscapeIsStages(a + b);
    EscapeIsStages(a);
    EscapeIsStages(b);
    StagesAppend(a, b);
  }

  /** The number of characters Escape doubles. */
  function SpecialCount(s: string): nat
    decreases |s|
  {
    if s == [] then 0 else (if Special(s[0]) then 1 else 0) + SpecialCount(s[1..])
  }

  lemma {:induction false} EscapeMapLength(s: string)
    ensures |EscapeMap(s)| == |s| + SpecialCount(s)
    decreases |s|
  {
    if s != [] {
      EscapeMapLength(s[1..]);
    }
  }

  lemma {:induction false} EscapeMapIdentity(s: string)
    requires forall i :: 0 <= i < |s| ==> !Special(s[i])
    ensures EscapeMap(s) == s
    decreases |s|
  {
    if s != [] {
      EscapeMapIdentity(s[1..]);
      assert [s[0]] + s[1..] == s;
    }
  }

  /** Escape never shortens its input, grows it by one character per
      special character, and leaves a string without them unchanged. */
  lemma EscapeLengthAndIdentity(s: string)
    ensures |Escape(s)| == |s| + SpecialCount(s) >= |s|
    ensures (forall i :: 0 <= i < |s| ==> !Special(s[i])) ==> Escape(s) == s
  {
    EscapeIsPerChar(s);
    EscapeMapLength(s);
    if forall i :: 0 <= i < |s| ==> !Special(s[i]) {
      EscapeMapIdentity(s);
    }
  }

  // ---------------------------------------------------------------------
  // Reading an escaped text back as the body of a Nix "..." string
  // ---------------------------------------------------------------------

  /** The character a backslash escape stands for in a Nix string. */
  function Unescaped(c: char): char {
    if c == 'n' then '\n' else if c == 'r' then '\r' else if c == 't' then '\t' else c
  }

  function Prepend(c: char, rest: Option<string>): Option<string> {
    if rest.Some? then Some([c] + rest.value) else None
  }

  /** The value of `t` between the quotes of a Nix string: backslash
      escapes are resolved; a bare `"`, a `${` interpolation or a trailing
      lone backslash leave no plain string value. */
  function NixStringValue(t: string): Option<string>
    decreases |t|
  {
    if t == [] then Some([])
    else if t[0] == '\\' then (if |t| == 1 then None else Prepend(Unescaped(t[1]), NixStringValue(t[2..])))
    else if t[0] == '"' then None
    else if t[0] == '$' && |t| >= 2 && t[1] == '{' then None
    else Prepend(t[0], NixStringValue(t[1..]))
  }

  /** What Nix reads back from an escaped text: brackets stay doubled. */
  function DoubleBrackets(s: string): string
    decreases |s|
  {
    if s == [] then []
    else BracketPiece(s[0]) + DoubleBrackets(s[1..])
  }

  lemma NixReadsPlain(c: char, rest: string)
    requires c != '\\' && c != '"' && c != '$'
    ensures NixStringValue([c] + rest) == Prepend(c, NixStringValue(rest))
  {
    assert ([c] + rest)[1..] == rest;
  }

  /** What Nix reads back for one escaped character. */
  function BracketPiece(c: char): string {
    if c == '[' then "[[" else if c == ']' then "]]" else [c]
  }

  lemma NixReadsEscapedSpecial(c: char, rest: string, v: string)
    requires c == '\\' || c == '"' || c == '$'
    requires NixStringValue(rest) == Some(v)
    ensures NixStringValue(EscapeChar(c) + rest) == Some([c] + v)
  {
    var t := EscapeChar(c) + rest;
    assert t[0] == '\\' && t[1] == c && t[2..] == rest;
  }

  lemma NixReadsEscapedBracket(c: char, rest: string, v: string)
    requires c == '[' || c == ']'
    requires NixStringValue(rest) == Some(v)
    ensures NixStringValue(EscapeChar(c) + rest) == Some(BracketPiece(c) + v)
  {
    assert EscapeChar(c) + rest == [c] + ([c] + rest);
    NixReadsPlain(c, [c] + rest);
    NixReadsPlain(c, rest);
    assert BracketPiece(c) + v == [c] + ([c] + v);
  }

  lemma NixReadsEscapeChar(c: char, rest: string, v: string)
    requires NixStringValue(rest) == Some(v)
    ensures NixStringValue(EscapeChar(c) + rest) == Some(BracketPiece(c) + v)
  {
    if c == '\\' || c == '"' || c == '$' {
      NixReadsEscapedSpecial(c, rest, v);
    } else if c == '[' || c == ']' {
      NixReadsEscapedBracket(c, rest, v);
    } else {
      NixReadsPlain(c, rest);
    }
  }

  lemma {:induction false} NixReadsEscapeMap(s: string)
    ensures NixStringValue(EscapeMap(s)) == Some(DoubleBrackets(s))
    decreases |s|
  {
    if s != [] {
      NixReadsEscapeMap(s[1..]);
      NixReadsEscapeChar(s[0], EscapeMap(s[1..]), DoubleBrackets(s[1..]));
    }
  }

  lemma {:induction false} DoubleBracketsLength(s: string)
    ensures |DoubleBrackets(s)| >= |s|
    ensures |DoubleBrackets(s)| == |s| <==> '[' !in s && ']' !in s
    ensures '[' !in s && ']' !in s ==> DoubleBrackets(s) == s
    decreases |s|
  {
    if s != [] {
      DoubleBracketsLength(s[1..]);
      assert s == [s[0]] + s[1..];
    }
  }

  /** Nix reads an escaped text back as the original exactly when it holds
      no square bracket: Escape doubles brackets, which Nix strings keep. */
  lemma NixRoundTrip(s: string)
    ensures NixStringValue(Escape(s)) == Some(s) <==> '[' !in s && ']' !in s
  {
    EscapeIsPerChar(s);
    NixReadsEscapeMap(s);
    DoubleBracketsLength(s);
  }

  // ---------------------------------------------------------------------
  // Entries
  // ---------------------------------------------------------------------

  function Quoted(s: string): string {
    "\"" + s + "\""
  }

  /** The lines of a Chromium entry; its arguments are already escaped. */
  function ChromiumEntryLines(id: string, url: string, hash: string, version: string): seq<string> {
    ["{",
     "  id = " + Quoted(id) + ";",
     "  crxPath = pkgs.fetchurl {",
     "    url = " + Quoted(url) + ";",
     "    name = " + Quoted(id + ".crx") + ";",
     "    hash = " + Quoted(hash) + ";",
     "  };",
     "  version = " + Quoted(version) + ";",
     "}"]
  }

  /** The `meta` body of a Firefox entry: `mozPermissions` only when the
      permission list is non-empty, one escaped, quoted permission per line
      in order. */
  function FirefoxMetaLines(permissions: seq<string>): seq<string> {
    if |permissions| == 0 then ["platforms = platforms.all;"]
    else ["platforms = platforms.all;", "mozPermissions = ["] + PermissionLines(permissions) + ["];"]
  }

  function PermissionLines(permissions: seq<string>): (r: seq<string>)
    ensures |r| == |permissions|
    ensures forall k :: 0 <= k < |r| ==> r[k] == "  " + Quoted(Escape(permissions[k]))
    decreases |permissions|
  {
    if permissions == [] then []
    else PermissionLines(permissions[..|permissions| - 1]) + ["  " + Quoted(Escape(permissions[|permissions| - 1]))]
  }

  function Indent(lines: seq<string>): (r: seq<string>)
    ensures |r| == |lines|
    ensures forall k :: 0 <= k < |r| ==> r[k] == "    " + lines[k]
    decreases |lines|
  {
    if lines == [] then [] else Indent(lines[..|lines| - 1]) + ["    " + lines[|lines| - 1]]
  }

  /** The lines of a Firefox entry; its arguments are already escaped. */
  function FirefoxEntryLines(id: string, url: string, hash: string, version: string, permissions: seq<string>): seq<string> {
    FirefoxFields(id, url, hash, version)
    + Indent(FirefoxMetaLines(permissions))
    + ["  };",
       "}"]
  }

  /** The opening brace, the five field lines and the opening of `meta`. */
  function FirefoxFields(id: string, url: string, hash: string, version: string): seq<string> {
    ["{",
     "  pname = " + Quoted(id) + ";",
     "  version = " + Quoted(version) + ";",
     "  addonId = " + Quoted(id) + ";",
     "  url = " + Quoted(url) + ";",
     "  sha256 = " + Quoted(hash) + ";",
     "  meta = with lib; {"]
  }

  /** Lines joined by newlines. */
  function Lines(lines: seq<string>): string {
    Join(lines, "\n")
  }

  /** NixEntryGenerator.Generate: id, URL, hash and version are escaped
      before they are placed. */
  function Generate(ext: Extension, url: string, hash: string, version: string,
                    permissions: seq<string>, browser: BrowserType): string {
    Lines(EntryLines(ext, url, hash, version, permissions, browser))
  }

  function EntryLines(ext: Extension, url: string, hash: string, version: string,
                      permissions: seq<string>, browser: BrowserType): seq<string> {
    var id := Escape(ext.id);
    if browser == Chromium then ChromiumEntryLines(id, Escape(url), Escape(hash), Escape(version))
    else FirefoxEntryLines(id, Escape(url), Escape(hash), Escape(version), permissions)
  }

  predicate NoBrackets(s: string) {
    '[' !in s && ']' !in s
  }

  /** The quoted text of a field line, read as a Nix string, is the raw
      value when that value has no square bracket: for Chromium the id, URL,
      hash and version lines, for Firefox pname, version, addonId, URL and
      sha256. */
  lemma GeneratedFieldsReadBack(ext: Extension, url: string, hash: string, version: string,
                                permissions: seq<string>, browser: BrowserType)
    requires NoBrackets(ext.id) && NoBrackets(url) && NoBrackets(hash) && NoBrackets(version)
    ensures var lines := EntryLines(ext, url, hash, version, permissions, browser);
      NixStringValue(Escape(ext.id)) == Some(ext.id) && NixStringValue(Escape(url)) == Some(url)
      && NixStringValue(Escape(hash)) == Some(hash) && NixStringValue(Escape(version)) == Some(version)
      && (browser == Chromium ==>
            lines[1] == "  id = " + Quoted(Escape(ext.id)) + ";"
            && lines[3] == "    url = " + Quoted(Escape(url)) + ";"
            && lines[5] == "    hash = " + Quoted(Escape(hash)) + ";"
            && lines[7] == "  version = " + Quoted(Escape(version)) + ";")
      && (browser == Firefox ==>
            lines[1] == "  pname = " + Quoted(Escape(ext.id)) + ";"
            && lines[2] == "  version = " + Quoted(Escape(version)) + ";"
            && lines[3] == "  addonId = " + Quoted(Escape(ext.id)) + ";"
            && lines[4] == "  url = " + Quoted(Escape(url)) + ";"
            && lines[5] == "  sha256 = " + Quoted(Escape(hash)) + ";")
  {
    NixRoundTrip(ext.id);
    NixRoundTrip(url);
    NixRoundTrip(hash);
    NixRoundTrip(version);
    if browser == Chromium {
      ChromiumFieldLines(ext, url, hash, version, permissions);
    } else {
      FirefoxFieldLines(ext, url, hash, version, permissions);
    }
  }

  lemma ChromiumFieldLines(ext: Extension, url: string, hash: string, version: string, permissions: seq<string>)
    ensures var lines := EntryLines(ext, url, hash, version, permissions, Chromium);
      lines[1] == "  id = " + Quoted(Escape(ext.id)) + ";"
      && lines[3] == "    url = " + Quoted(Escape(url)) + ";"
      && lines[5] == "    hash = " + Quoted(Escape(hash)) + ";"
      && lines[7] == "  version = " + Quoted(Escape(version)) + ";"
  {
  }

  lemma FirefoxFieldLines(ext: Extension, url: string, hash: string, version: string, permissions: seq<string>)
    ensures var lines := EntryLines(ext, url, hash, version, permissions, Firefox);
      lines[1] == "  pname = " + Quoted(Escape(ext.id)) + ";"
      && lines[2] == "  version = " + Quoted(Escape(version)) + ";"
      && lines[3] == "  addonId = " + Quoted(Escape(ext.id)) + ";"
      && lines[4] == "  url = " + Quoted(Escape(url)) + ";"
      && lines[5] == "  sha256 = " + Quoted(Escape(hash)) + ";"
  {
    var fields := FirefoxFields(Escape(ext.id), Escape(url), Escape(hash), Escape(version));
    FrontOf(fields, Indent(FirefoxMetaLines(permissions)), ["  };", "}"]);
  }

  /** The first part of a three-part concatenation is its front. */
  lemma FrontOf<T>(a: seq<T>, b: seq<T>, c: seq<T>)
    ensures (a + b + c)[..|a|] == a
  {
  }

  /** A Firefox entry mentions `mozPermissions` exactly when there are
      permissions, and then lists each of them, escaped, in order. */
  lemma FirefoxPermissionsShape(permissions: seq<string>)
    ensures "mozPermissions = [" in FirefoxMetaLines(permissions) <==> |permissions| > 0
    ensures |permissions| > 0 ==>
      var meta := FirefoxMetaLines(permissions);
      |meta| == |permissions| + 3
      && forall k :: 0 <= k < |permissions| ==> meta[k + 2] == "  " + Quoted(Escape(permissions[k]))
  {
    if |permissions| > 0 {
      var meta := FirefoxMetaLines(permissions);
      assert meta[1] == "mozPermissions = [";
      forall k | 0 <= k < |permissions| ensures meta[k + 2] == "  " + Quoted(Escape(permissions[k])) {
        assert meta[k + 2] == PermissionLines(permissions)[k];
      }
    }
  }

  // ---------------------------------------------------------------------
  // Ordering the results
  // ---------------------------------------------------------------------

  /** Ordinal order on strings: code point by code point, a proper prefix
      first. */
  predicate OrdinalLess(a: string, b: string)
    decreases |a|
  {
    b != [] && (a == [] || a[0] < b[0] || (a[0] == b[0] && OrdinalLess(a[1..], b[1..])))
  }

  lemma {:induction false} OrdinalLessIrreflexive(a: string)
    ensures !OrdinalLess(a, a)
    decreases |a|
  {
    if a != [] {
      OrdinalLessIrreflexive(a[1..]);
    }
  }

  lemma {:induction false} OrdinalLessTransitive(a: string, b: string, c: string)
    requires OrdinalLess(a, b) && OrdinalLess(b, c)
    ensures OrdinalLess(a, c)
    decreases |a|
  {
    if a != [] && a[0] == b[0] && b[0] == c[0] {
      OrdinalLessTransitive(a[1..], b[1..], c[1..]);
    }
  }

  lemma {:induction false} OrdinalTotal(a: string, b: string)
    ensures OrdinalLess(a, b) || OrdinalLess(b, a) || a == b
    decreases |a|
  {
    if a != [] && b != [] && a[0] == b[0] {
      OrdinalTotal(a[1..], b[1..]);
      if a[1..] == b[1..] {
        assert a == [a[0]] + a[1..] && b == [b[0]] + b[1..];
      }
    }
  }

  predicate IdLessEq(x: ExtensionResult, y: ExtensionResult) {
    !OrdinalLess(y.extension.id, x.extension.id)
  }

  predicate SortedById(s: seq<ExtensionResult>) {
    forall i, j :: 0 <= i < j < |s| ==> IdLessEq(s[i], s[j])
  }

  /** Places `x` after every element whose id is not greater, so that equal
      ids keep their arrival order. */
  function Insert(s: seq<ExtensionResult>, x: ExtensionResult): seq<ExtensionResult>
    decreases |s|
  {
    if s == [] then [x]
    else if OrdinalLess(x.extension.id, s[0].extension.id) then [x] + s
    else [s[0]] + Insert(s[1..], x)
  }

  lemma ConsSorted(h: ExtensionResult, t: seq<ExtensionResult>)
    requires SortedById(t)
    requires forall y :: y in t ==> IdLessEq(h, y)
    ensures SortedById([h] + t)
  {
    var r := [h] + t;
    forall i, j | 0 <= i < j < |r| ensures IdLessEq(r[i], r[j]) {
      if i == 0 {
        assert r[j] in t;
      } else {
        assert r[i] == t[i - 1] && r[j] == t[j - 1];
      }
    }
  }

  lemma {:induction false} InsertMultiset(s: seq<ExtensionResult>, x: ExtensionResult)
    ensures multiset(Insert(s, x)) == multiset(s) + multiset{x}
    decreases |s|
  {
    if s != [] && !OrdinalLess(x.extension.id, s[0].extension.id) {
      InsertMultiset(s[1..], x);
      assert s == [s[0]] + s[1..];
    }
  }

  /** Inserting into a list sorted by id keeps it sorted. */
  lemma {:induction false} InsertSorted(s: seq<ExtensionResult>, x: ExtensionResult)
    requires SortedById(s)
    ensures SortedById(Insert(s, x))
    decreases |s|
  {
    if s == [] {
    } else if OrdinalLess(x.extension.id, s[0].extension.id) {
      forall y | y in s ensures IdLessEq(x, y) {
        var k :| 0 <= k < |s| && s[k] == y;
        if OrdinalLess(y.extension.id, x.extension.id) {
          OrdinalLessTransitive(y.extension.id, x.extension.id, s[0].extension.id);
          if k == 0 {
            OrdinalLessIrreflexive(y.extension.id);
          }
          assert false;
        }
      }
      ConsSorted(x, s);
    } else {
      InsertSorted(s[1..], x);
      InsertMultiset(s[1..], x);
      var rest := Insert(s[1..], x);
      forall y | y in rest ensures IdLessEq(s[0], y) {
        assert y in multiset(rest);
        if y == x {
          OrdinalTotal(x.extension.id, s[0].extension.id);
        } else {
          assert y in multiset(s[1..]);
          var k :| 0 <= k < |s[1..]| && s[1..][k] == y;
          assert IdLessEq(s[0], s[k + 1]);
        }
      }
      ConsSorted(s[0], rest);
    }
  }

  /** The results whose id is `key`, in their order. */
  function WithId(s: seq<ExtensionResult>, key: string): seq<ExtensionResult>
    decreases |s|
  {
    if s == [] then []
    else (if s[0].extension.id == key then [s[0]] else []) + WithId(s[1..], key)
  }

  lemma {:induction false} WithIdAppend(a: seq<ExtensionResult>, b: seq<ExtensionResult>, key: string)
    ensures WithId(a + b, key) == WithId(a, key) + WithId(b, key)
    decreases |a|
  {
    if a == [] {
      assert a + b == b;
    } else {
      var head := if a[0].extension.id == key then [a[0]] else [];
      assert (a + b)[0] == a[0] && (a + b)[1..] == a[1..] + b;
      assert WithId(a + b, key) == head + WithId(a[1..] + b, key);
      assert WithId(a, key) == head + WithId(a[1..], key);
      WithIdAppend(a[1..], b, key);
    }
  }

  /** In a sorted list whose head has an id greater than `x`'s, nothing has
      `x`'s id. */
  lemma {:induction false} NoneWithSmallerId(s: seq<ExtensionResult>, x: ExtensionResult)
    requires SortedById(s) && s != [] && OrdinalLess(x.extension.id, s[0].extension.id)
    ensures WithId(s, x.extension.id) == []
    decreases |s|
  {
    if s[0].extension.id == x.extension.id {
      OrdinalLessIrreflexive(x.extension.id);
    }
    if |s| > 1 {
      assert IdLessEq(s[0], s[1]);
      if !OrdinalLess(x.extension.id, s[1].extension.id) {
        OrdinalTotal(x.extension.id, s[1].extension.id);
        if x.extension.id == s[1].extension.id {
          OrdinalLessIrreflexive(x.extension.id);
        } else {
          OrdinalLessTransitive(s[1].extension.id, x.extension.id, s[0].extension.id);
        }
      }
      NoneWithSmallerId(s[1..], x);
    }
  }

  /** `x` goes in front of a list whose head has a greater id. */
  lemma InsertStableFront(s: seq<ExtensionResult>, x: ExtensionResult, key: string)
    requires SortedById(s) && s != [] && OrdinalLess(x.extension.id, s[0].extension.id)
    ensures WithId(Insert(s, x), key) == WithId(s, key) + (if x.extension.id == key then [x] else [])
  {
    assert Insert(s, x) == [x] + s;
    assert ([x] + s)[1..] == s;
    if x.extension.id == key {
      NoneWithSmallerId(s, x);
    }
  }

  /** `x` goes past a head whose id is not greater. */
  lemma InsertStablePast(s: seq<ExtensionResult>, x: ExtensionResult, key: string)
    requires s != [] && !OrdinalLess(x.extension.id, s[0].extension.id)
    requires WithId(Insert(s[1..], x), key) == WithId(s[1..], key) + (if x.extension.id == key then [x] else [])
    ensures WithId(Insert(s, x), key) == WithId(s, key) + (if x.extension.id == key then [x] else [])
  {
    var head := if s[0].extension.id == key then [s[0]] else [];
    var rest := Insert(s[1..], x);
    assert Insert(s, x) == [s[0]] + rest;
    assert ([s[0]] + rest)[1..] == rest;
    assert WithId(Insert(s, x), key) == head + WithId(rest, key);
    assert WithId(s, key) == head + WithId(s[1..], key);
  }

  /** Insert puts `x` after every element with the same id. */
  lemma {:induction false} InsertStable(s: seq<ExtensionResult>, x: ExtensionResult, key: string)
    requires SortedById(s)
    ensures WithId(Insert(s, x), key) == WithId(s, key) + (if x.extension.id == key then [x] else [])
    decreases |s|
  {
    if s == [] {
      assert WithId([x], key) == (if x.extension.id == key then [x] else []) + WithId([], key);
    } else if OrdinalLess(x.extension.id, s[0].extension.id) {
      InsertStableFront(s, x, key);
    } else {
      assert SortedById(s[1..]);
      InsertStable(s[1..], x, key);
      InsertStablePast(s, x, key);
    }
  }

  /** Inserting the next element into a sorted copy of the elements before
      it keeps every id's results in arrival order. */
  lemma InsertLastStable(sorted: seq<ExtensionResult>, init: seq<ExtensionResult>, last: ExtensionResult)
    requires SortedById(sorted)
    requires forall key :: WithId(sorted, key) == WithId(init, key)
    ensures forall key :: WithId(Insert(sorted, last), key) == WithId(init + [last], key)
  {
    forall key ensures WithId(Insert(sorted, last), key) == WithId(init + [last], key) {
      InsertStable(sorted, last, key);
      WithIdAppend(init, [last], key);
      assert WithId([last], key) == (if last.extension.id == key then [last] else []) + WithId([], key);
    }
  }

  /** OrderBy(r => r.Extension.Id): a stable insertion sort. The results
      with any one id come out in the order they went in. */
  function SortById(s: seq<ExtensionResult>): (r: seq<ExtensionResult>)
    ensures SortedById(r)
    ensures multiset(r) == multiset(s)
    ensures forall key :: WithId(r, key) == WithId(s, key)
    decreases |s|
  {
    if s == [] then []
    else
      var init, last := s[..|s| - 1], s[|s| - 1];
      var sorted := SortById(init);
      InsertSorted(sorted, last);
      InsertMultiset(sorted, last);
      InsertLastStable(sorted, init, last);
      assert s == init + [last];
      Insert(sorted, last)
  }

  // ---------------------------------------------------------------------
  // The generated file
  // ---------------------------------------------------------------------

  /** The results that have an entry and whose condition is present
      (`conditional`) or absent, in their original order. */
  function Emitted(results: seq<ExtensionResult>, conditional: bool): (r: seq<ExtensionResult>)
    ensures forall x :: x in r <==> x in results && x.nixEntry.Some? && HasCondition(x.extension) == conditional
    decreases |results|
  {
    if results == [] then []
    else
      var x := results[|results| - 1];
      Emitted(results[..|results| - 1], conditional)
      + (if x.nixEntry.Some? && HasCondition(x.extension) == conditional then [x] else [])
  }

  const HeaderLines := ["# This file is auto-generated by an update script", "# DO NOT edit manually"]

  /** One appended line per unconditional Chromium entry. */
  function EntryUnits(s: seq<ExtensionResult>): (r: seq<string>)
    requires forall k :: 0 <= k < |s| ==> s[k].nixEntry.Some?
    ensures |r| == |s|
    ensures forall k :: 0 <= k < |s| ==> r[k] == s[k].nixEntry.value
    decreases |s|
  {
    if s == [] then [] else EntryUnits(s[..|s| - 1]) + [s[|s| - 1].nixEntry.value]
  }

  /** A conditional Chromium entry wrapped in `lib.optionals`. */
  function OptionalsBlock(r: ExtensionResult): seq<string>
    requires r.nixEntry.Some? && r.extension.condition.Some?
  {
    ["  (lib.optionals (" + Escape(r.extension.condition.value) + ") [", r.nixEntry.value, "  ])"]
  }

  function OptionalsUnits(s: seq<ExtensionResult>): (r: seq<string>)
    requires forall k :: 0 <= k < |s| ==> s[k].nixEntry.Some? && s[k].extension.condition.Some?
    ensures |r| == 3 * |s|
    ensures forall k :: 0 <= k < |s| ==> r[3 * k..3 * k + 3] == OptionalsBlock(s[k])
    decreases |s|
  {
    if s == [] then []
    else
      var init := s[..|s| - 1];
      var prev := OptionalsUnits(init);
      var block := OptionalsBlock(s[|s| - 1]);
      BlocksBeforeTail(prev, init, block);
      SliceOfSuffix(prev, block);
      prev + block
  }

  /** An unconditional Firefox entry: the attribute key is the raw id, not
      the escaped one. */
  function FirefoxAttribute(r: ExtensionResult): string
    requires r.nixEntry.Some?
  {
    "    " + Quoted(r.extension.id) + " = buildFirefoxXpiAddon " + r.nixEntry.value + ";"
  }

  function FirefoxOptional(r: ExtensionResult): string
    requires r.nixEntry.Some? && r.extension.condition.Some?
  {
    "    (lib.optionals (" + Escape(r.extension.condition.value) + ") [\n      buildFirefoxXpiAddon "
      + r.nixEntry.value + "\n    ]);"
  }

  /** `unconditionalEntries.Select(...)`: one keyed attribute per entry. */
  function AttributeUnits(us: seq<ExtensionResult>): (r: seq<string>)
    requires forall k :: 0 <= k < |us| ==> us[k].nixEntry.Some?
    ensures |r| == |us|
    ensures forall k :: 0 <= k < |us| ==> r[k] == FirefoxAttribute(us[k])
    decreases |us|
  {
    if us == [] then [] else AttributeUnits(us[..|us| - 1]) + [FirefoxAttribute(us[|us| - 1])]
  }

  /** The `AddRange` query: one wrapped entry per conditional result. */
  function FirefoxOptionalUnits(cs: seq<ExtensionResult>): (r: seq<string>)
    requires forall k :: 0 <= k < |cs| ==> cs[k].nixEntry.Some? && cs[k].extension.condition.Some?
    ensures |r| == |cs|
    ensures forall k :: 0 <= k < |cs| ==> r[k] == FirefoxOptional(cs[k])
    decreases |cs|
  {
    if cs == [] then [] else FirefoxOptionalUnits(cs[..|cs| - 1]) + [FirefoxOptional(cs[|cs| - 1])]
  }

  /** The `entries` list inside the Firefox attribute set: the unconditional
      entries, then the conditional ones. */
  function FirefoxUnits(us: seq<ExtensionResult>, cs: seq<ExtensionResult>): (r: seq<string>)
    requires forall k :: 0 <= k < |us| ==> us[k].nixEntry.Some?
    requires forall k :: 0 <= k < |cs| ==> cs[k].nixEntry.Some? && cs[k].extension.condition.Some?
    ensures |r| == |us| + |cs|
    ensures forall k :: 0 <= k < |us| ==> r[k] == FirefoxAttribute(us[k])
    ensures forall k :: 0 <= k < |cs| ==> r[|us| + k] == FirefoxOptional(cs[k])
  {
    AttributeUnits(us) + FirefoxOptionalUnits(cs)
  }

  function ConfigParam(hasConditions: bool): seq<string> {
    if hasConditions then ["  config,"] else []
  }

  /** The emitted results of one kind, ordered by id. */
  function Ordered(results: seq<ExtensionResult>, conditional: bool): (r: seq<ExtensionResult>)
    ensures SortedById(r)
    ensures multiset(r) == multiset(Emitted(results, conditional))
    ensures forall k :: 0 <= k < |r| ==> r[k].nixEntry.Some? && HasCondition(r[k].extension) == conditional
  {
    var s := SortById(Emitted(results, conditional));
    assert forall k :: 0 <= k < |s| ==> s[k] in multiset(s);
    s
  }

  predicate HaveEntries(s: seq<ExtensionResult>) {
    forall k :: 0 <= k < |s| ==> s[k].nixEntry.Some?
  }

  predicate HaveEntriesAndConditions(s: seq<ExtensionResult>) {
    forall k :: 0 <= k < |s| ==> s[k].nixEntry.Some? && s[k].extension.condition.Some?
  }

  function ChromiumHead(hasConditions: bool): seq<string> {
    HeaderLines + ["{", "  pkgs,"] + ConfigParam(hasConditions) + ["  lib,", "  ...", "}:", "lib.flatten ["]
  }

  function ChromiumFile(us: seq<ExtensionResult>, cs: seq<ExtensionResult>, hasConditions: bool): seq<string>
    requires HaveEntries(us) && HaveEntriesAndConditions(cs)
  {
    ChromiumHead(hasConditions) + EntryUnits(us) + (OptionalsUnits(cs) + ["]"])
  }

  function FirefoxHead(): seq<string> {
    HeaderLines + ["{ buildFirefoxXpiAddon, fetchurl, lib, stdenv }:", "  {"]
  }

  function FirefoxFile(us: seq<ExtensionResult>, cs: seq<ExtensionResult>): seq<string>
    requires HaveEntries(us) && HaveEntriesAndConditions(cs)
  {
    FirefoxHead() + FirefoxUnits(us, cs) + ["  }"]
  }

  /** The appended lines of the generated file, one per AppendLine (a unit
      may itself hold newlines). */
  function NixFileLines(results: seq<ExtensionResult>, hasConditions: bool, browser: BrowserType): seq<string> {
    var us := Ordered(results, false);
    var cs := Ordered(results, true);
    if browser == Chromium then ChromiumFile(us, cs, hasConditions) else FirefoxFile(us, cs)
  }

  /** Every result with an entry is emitted exactly once per occurrence,
      among the conditional entries when it has a condition and among the
      unconditional ones otherwise; a result without an entry is not. */
  lemma EmittedExactly(results: seq<ExtensionResult>, r: ExtensionResult)
    ensures multiset(Ordered(results, false))[r] + multiset(Ordered(results, true))[r]
      == if r.nixEntry.Some? then multiset(results)[r] else 0
    ensures r.nixEntry.Some? ==> multiset(Ordered(results, HasCondition(r.extension)))[r] == multiset(results)[r]
  {
    EmittedCount(results, r, false);
    EmittedCount(results, r, true);
  }

  lemma {:induction false} EmittedCount(results: seq<ExtensionResult>, r: ExtensionResult, conditional: bool)
    ensures multiset(Emitted(results, conditional))[r]
      == if r.nixEntry.Some? && HasCondition(r.extension) == conditional then multiset(results)[r] else 0
    decreases |results|
  {
    if results != [] {
      var init := results[..|results| - 1];
      EmittedCount(init, r, conditional);
      assert results == init + [results[|results| - 1]];
    }
  }

  /** Chromium layout: the two header comments, the argument set with
      `config,` exactly when some extension is guarded, then every
      unconditional entry in order, then every conditional entry wrapped in
      `lib.optionals`, then the closing bracket. */
  lemma ChromiumFileLayout(us: seq<ExtensionResult>, cs: seq<ExtensionResult>, hasConditions: bool)
    requires HaveEntries(us) && HaveEntriesAndConditions(cs)
    ensures var lines := ChromiumFile(us, cs, hasConditions);
      var o := if hasConditions then 9 else 8;
      |lines| == o + |us| + 3 * |cs| + 1
      && lines[..2] == HeaderLines
      && (lines[4] == "  config," <==> hasConditions)
      && (forall k :: 0 <= k < |us| ==> lines[o + k] == us[k].nixEntry.value)
      && (forall k :: 0 <= k < |cs| ==>
            lines[o + |us| + 3 * k..o + |us| + 3 * k + 3] == OptionalsBlock(cs[k]))
      && lines[|lines| - 1] == "]"
  {
    ChromiumFileFrame(us, cs, hasConditions);
    ChromiumFileEntries(us, cs, hasConditions);
    ChromiumFileBlocks(us, cs, hasConditions);
  }

  /** The size, the header, the `config,` line and the closing bracket. */
  lemma ChromiumFileFrame(us: seq<ExtensionResult>, cs: seq<ExtensionResult>, hasConditions: bool)
    requires HaveEntries(us) && HaveEntriesAndConditions(cs)
    ensures var lines := ChromiumFile(us, cs, hasConditions);
      |lines| == (if hasConditions then 9 else 8) + |us| + 3 * |cs| + 1
      && lines[..2] == HeaderLines
      && (lines[4] == "  config," <==> hasConditions)
      && lines[|lines| - 1] == "]"
  {
    var head := ChromiumHead(hasConditions);
    ChromiumHeadFacts(hasConditions);
    var lines := ChromiumFile(us, cs, hasConditions);
    assert lines[..|head|] == head;
  }

  /** The unconditional entries, after the head. */
  lemma ChromiumFileEntries(us: seq<ExtensionResult>, cs: seq<ExtensionResult>, hasConditions: bool)
    requires HaveEntries(us) && HaveEntriesAndConditions(cs)
    ensures var lines := ChromiumFile(us, cs, hasConditions);
      var o := if hasConditions then 9 else 8;
      forall k :: 0 <= k < |us| ==> lines[o + k] == us[k].nixEntry.value
  {
    forall k | 0 <= k < |us|
      ensures ChromiumFile(us, cs, hasConditions)[(if hasConditions then 9 else 8) + k] == us[k].nixEntry.value
    {
      ChromiumEntryAt(us, cs, hasConditions, k);
    }
  }

  /** The wrapped conditional entries, after the unconditional ones. */
  lemma ChromiumFileBlocks(us: seq<ExtensionResult>, cs: seq<ExtensionResult>, hasConditions: bool)
    requires HaveEntries(us) && HaveEntriesAndConditions(cs)
    ensures var lines := ChromiumFile(us, cs, hasConditions);
      var o := if hasConditions then 9 else 8;
      forall k :: 0 <= k < |cs| ==>
        lines[o + |us| + 3 * k..o + |us| + 3 * k + 3] == OptionalsBlock(cs[k])
  {
    ChromiumHeadLength(hasConditions);
    BlocksPlaced(ChromiumFile(us, cs, hasConditions), if hasConditions then 9 else 8,
      ChromiumHead(hasConditions), |us|, cs, EntryUnits(us), OptionalsUnits(cs));
  }

  /** One unconditional entry, at its line. */
  lemma ChromiumEntryAt(us: seq<ExtensionResult>, cs: seq<ExtensionResult>, hasConditions: bool, k: nat)
    requires HaveEntries(us) && HaveEntriesAndConditions(cs) && k < |us|
    ensures ChromiumFile(us, cs, hasConditions)[(if hasConditions then 9 else 8) + k] == us[k].nixEntry.value
  {
    ChromiumHeadLength(hasConditions);
    MiddleAt(ChromiumHead(hasConditions), EntryUnits(us), OptionalsUnits(cs) + ["]"], k);
  }

  /** The blocks in place after a head of `o` lines and `n` entries, stated
      over any lines that hold them. */
  lemma BlocksPlaced(lines: seq<string>, o: nat, head: seq<string>, n: nat,
                     cs: seq<ExtensionResult>, eu: seq<string>, ou: seq<string>)
    requires HaveEntriesAndConditions(cs)
    requires |eu| == n
    requires |ou| == 3 * |cs| && forall k :: 0 <= k < |cs| ==> ou[3 * k..3 * k + 3] == OptionalsBlock(cs[k])
    requires |head| == o && lines == head + eu + (ou + ["]"])
    ensures forall k :: 0 <= k < |cs| ==>
      lines[o + n + 3 * k..o + n + 3 * k + 3] == OptionalsBlock(cs[k])
  {
    forall k | 0 <= k < |cs|
      ensures lines[o + n + 3 * k..o + n + 3 * k + 3] == OptionalsBlock(cs[k])
    {
      SliceAfter(head, eu, ou, ["]"], 3 * k, 3 * k + 3);
    }
  }

  /** Where a slice of the third part of a concatenation sits. */
  lemma SliceAfter<T>(head: seq<T>, mid: seq<T>, ou: seq<T>, tail: seq<T>, i: nat, j: nat)
    requires i <= j <= |ou|
    ensures (head + mid + (ou + tail))[|head| + |mid| + i..|head| + |mid| + j] == ou[i..j]
  {
    var lines := head + mid + (ou + tail);
    assert lines[|head| + |mid|..] == ou + tail;
    SliceOfPrefix(ou, tail, i, j);
  }

  /** The three-line blocks keep their places when lines follow them. */
  lemma BlocksBeforeTail(ou: seq<string>, cs: seq<ExtensionResult>, tail: seq<string>)
    requires HaveEntriesAndConditions(cs) && |ou| == 3 * |cs|
    requires forall k :: 0 <= k < |cs| ==> ou[3 * k..3 * k + 3] == OptionalsBlock(cs[k])
    ensures forall k :: 0 <= k < |cs| ==> (ou + tail)[3 * k..3 * k + 3] == OptionalsBlock(cs[k])
  {
    forall k | 0 <= k < |cs| ensures (ou + tail)[3 * k..3 * k + 3] == OptionalsBlock(cs[k]) {
      SliceOfPrefix(ou, tail, 3 * k, 3 * k + 3);
    }
  }

  lemma SliceOfSuffix<T>(a: seq<T>, b: seq<T>)
    ensures (a + b)[|a|..|a| + |b|] == b
  {
  }

  /** Where an element of the middle part of a three-part concatenation sits. */
  lemma MiddleAt<T>(head: seq<T>, mid: seq<T>, tail: seq<T>, k: nat)
    requires k < |mid|
    ensures (head + mid + tail)[|head| + k] == mid[k]
  {
  }

  lemma SliceOfPrefix<T>(a: seq<T>, b: seq<T>, i: nat, j: nat)
    requires i <= j <= |a|
    ensures (a + b)[i..j] == a[i..j]
  {
  }

  lemma ChromiumHeadLength(hasConditions: bool)
    ensures |ChromiumHead(hasConditions)| == if hasConditions then 9 else 8
  {
  }

  lemma ChromiumHeadFacts(hasConditions: bool)
    ensures var head := ChromiumHead(hasConditions);
      |head| == (if hasConditions then 9 else 8) && head[..2] == HeaderLines
      && (head[4] == "  config," <==> hasConditions)
  {
  }

  /** Firefox layout: the two header comments and the signature, then every
      unconditional entry keyed by its raw id, then every conditional entry,
      then the closing brace. */
  lemma FirefoxFileLayout(us: seq<ExtensionResult>, cs: seq<ExtensionResult>)
    requires HaveEntries(us) && HaveEntriesAndConditions(cs)
    ensures var lines := FirefoxFile(us, cs);
      |lines| == 4 + |us| + |cs| + 1
      && lines[..2] == HeaderLines
      && lines[2] == "{ buildFirefoxXpiAddon, fetchurl, lib, stdenv }:"
      && "  config," !in lines[..4]
      && (forall k :: 0 <= k < |us| ==> lines[4 + k] == FirefoxAttribute(us[k]))
      && (forall k :: 0 <= k < |cs| ==> lines[4 + |us| + k] == FirefoxOptional(cs[k]))
      && lines[|lines| - 1] == "  }"
  {
    FirefoxFileFrame(us, cs);
    FirefoxFileBody(us, cs);
  }

  lemma FirefoxHeadFacts()
    ensures var head := FirefoxHead();
      |head| == 4 && head[..2] == HeaderLines
      && head[2] == "{ buildFirefoxXpiAddon, fetchurl, lib, stdenv }:"
      && "  config," !in head
  {
    var head := FirefoxHead();
    assert |"  config,"| == 9;
    assert forall k :: 0 <= k < 4 ==> |head[k]| != 9;
  }

  /** The size, the header and signature, and the closing brace. */
  lemma FirefoxFileFrame(us: seq<ExtensionResult>, cs: seq<ExtensionResult>)
    requires HaveEntries(us) && HaveEntriesAndConditions(cs)
    ensures var lines := FirefoxFile(us, cs);
      |lines| == 4 + |us| + |cs| + 1
      && lines[..2] == HeaderLines
      && lines[2] == "{ buildFirefoxXpiAddon, fetchurl, lib, stdenv }:"
      && "  config," !in lines[..4]
      && lines[|lines| - 1] == "  }"
  {
    FirefoxHeadFacts();
    var lines := FirefoxFile(us, cs);
    assert lines[..4] == FirefoxHead();
    assert lines[..4][..2] == lines[..2];
  }

  /** The keyed entries, then the wrapped ones, after the head. */
  lemma FirefoxFileBody(us: seq<ExtensionResult>, cs: seq<ExtensionResult>)
    requires HaveEntries(us) && HaveEntriesAndConditions(cs)
    ensures var lines := FirefoxFile(us, cs);
      (forall k :: 0 <= k < |us| ==> lines[4 + k] == FirefoxAttribute(us[k]))
      && (forall k :: 0 <= k < |cs| ==> lines[4 + |us| + k] == FirefoxOptional(cs[k]))
  {
    forall k | 0 <= k < |us| ensures FirefoxFile(us, cs)[4 + k] == FirefoxAttribute(us[k]) {
      FirefoxUnitAt(us, cs, k);
    }
    forall k | 0 <= k < |cs| ensures FirefoxFile(us, cs)[4 + |us| + k] == FirefoxOptional(cs[k]) {
      FirefoxUnitAt(us, cs, |us| + k);
    }
  }

  /** One entry of the attribute set, at its line. */
  lemma FirefoxUnitAt(us: seq<ExtensionResult>, cs: seq<ExtensionResult>, k: nat)
    requires HaveEntries(us) && HaveEntriesAndConditions(cs) && k < |us| + |cs|
    ensures FirefoxFile(us, cs)[4 + k] == FirefoxUnits(us, cs)[k]
  {
    FirefoxHeadLength();
    MiddleAt(FirefoxHead(), FirefoxUnits(us, cs), ["  }"], k);
  }

  lemma FirefoxHeadLength()
    ensures |FirefoxHead()| == 4
  {
  }

  /** The file text: every unit followed by a newline. */
  function NixFileText(units: seq<string>): string
    decreases |units|
  {
    if units == [] then [] else NixFileText(units[..|units| - 1]) + units[|units| - 1] + "\n"
  }

  /** GenerateNixFile: fills the StringBuilder unit by unit, then the text
      is what the builder holds. Creating the directory and writing the file
      are not modelled; the text is returned. */
  method GenerateNixFile(results: seq<ExtensionResult>, hasConditions: bool, browser: BrowserType)
    returns (text: string)
    ensures text == NixFileText(NixFileLines(results, hasConditions, browser))
  {
    var unconditional := Ordered(results, false);
    var conditional := Ordered(results, true);
    var sb: seq<string>;
    if browser == Chromium {
      sb := BuildChromiumFile(unconditional, conditional, hasConditions);
    } else {
      sb := BuildFirefoxFile(unconditional, conditional);
    }
    text := Render(sb);
  }

  /** The Chromium branch of GenerateNixFile: the head, the entries, the
      wrapped conditional entries and the closing bracket. */
  method BuildChromiumFile(unconditional: seq<ExtensionResult>, conditional: seq<ExtensionResult>, hasConditions: bool)
    returns (sb: seq<string>)
    requires HaveEntries(unconditional) && HaveEntriesAndConditions(conditional)
    ensures sb == ChromiumFile(unconditional, conditional, hasConditions)
  {
    sb := HeaderLines;
    sb := sb + ["{", "  pkgs,"] + ConfigParam(hasConditions) + ["  lib,", "  ...", "}:", "lib.flatten ["];
    assert sb == ChromiumHead(hasConditions);
    sb := AppendEntries(sb, unconditional);
    sb := AppendOptionals(sb, conditional);
    ghost var withEntries := ChromiumHead(hasConditions) + EntryUnits(unconditional);
    assert sb + ["]"] == withEntries + (OptionalsUnits(conditional) + ["]"]);
    sb := sb + ["]"];
  }

  /** The Firefox branch of GenerateNixFile: the head, the attribute set's
      entries and the closing brace. */
  method BuildFirefoxFile(unconditional: seq<ExtensionResult>, conditional: seq<ExtensionResult>)
    returns (sb: seq<string>)
    requires HaveEntries(unconditional) && HaveEntriesAndConditions(conditional)
    ensures sb == FirefoxFile(unconditional, conditional)
  {
    sb := HeaderLines;
    sb := sb + ["{ buildFirefoxXpiAddon, fetchurl, lib, stdenv }:", "  {"];
    assert sb == FirefoxHead();
    var entries := FirefoxUnits(unconditional, conditional);
    sb := AppendFirefoxEntries(sb, entries);
    sb := sb + ["  }"];
  }

  /** The foreach over the unconditional Chromium entries. */
  method AppendEntries(sb: seq<string>, us: seq<ExtensionResult>) returns (r: seq<string>)
    requires forall k :: 0 <= k < |us| ==> us[k].nixEntry.Some?
    ensures r == sb + EntryUnits(us)
  {
    r := sb;
    for i := 0 to |us|
      invariant r == sb + EntryUnits(us[..i])
    {
      assert us[..i + 1][..i] == us[..i];
      r := r + [us[i].nixEntry.value];
    }
    assert us[..|us|] == us;
  }

  /** The foreach over the conditional Chromium entries. */
  method AppendOptionals(sb: seq<string>, cs: seq<ExtensionResult>) returns (r: seq<string>)
    requires forall k :: 0 <= k < |cs| ==> cs[k].nixEntry.Some? && cs[k].extension.condition.Some?
    ensures r == sb + OptionalsUnits(cs)
  {
    r := sb;
    for i := 0 to |cs|
      invariant r == sb + OptionalsUnits(cs[..i])
    {
      assert cs[..i + 1][..i] == cs[..i];
      var condition := Escape(cs[i].extension.condition.value);
      r := r + ["  (lib.optionals (" + condition + ") [", cs[i].nixEntry.value, "  ])"];
    }
    assert cs[..|cs|] == cs;
  }

  /** `foreach (var t in entries) sb.AppendLine(t)`: every line, in order. */
  method AppendFirefoxEntries(sb: seq<string>, entries: seq<string>) returns (r: seq<string>)
    ensures r == sb + entries
  {
    r := sb;
    for i := 0 to |entries|
      invariant r == sb + entries[..i]
    {
      assert entries[..i + 1] == entries[..i] + [entries[i]];
      r := r + [entries[i]];
    }
    assert entries[..|entries|] == entries;
  }

  /** StringBuilder.ToString after AppendLine of each unit. */
  method Render(units: seq<string>) returns (text: string)
    ensures text == NixFileText(units)
  {
    text := [];
    for i := 0 to |units|
      invariant text == NixFileText(units[..i])
    {
      assert units[..i + 1][..i] == units[..i];
      text := text + units[i] + "\n";
    }
    assert units[..|units|] == units;
  }
}
