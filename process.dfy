// ProcessUtils and GitHubUtils: how a command-line string is split into
// process arguments, how a subprocess is reached, which GitHub token is
// used, and how the Chromium major version is read from `nix eval`.
module Process {
  import opened Common

  // ---------------------------------------------------------------------
  // ParseArguments: a state machine over the characters, driven by inQuotes.
  // ---------------------------------------------------------------------

  /** The loop state of ParseArguments: finished arguments, the argument
      being built, and whether a single quote is open. */
  datatype ArgState = ArgState(args: seq<string>, current: string, inQuotes: bool)

  const StartState := ArgState([], [], false)

  /** One character: a quote toggles quoting and is dropped; a space outside
      quotes ends a non-empty argument; anything else is kept. */
  function Step(st: ArgState, c: char): ArgState {
    if c == '\'' then st.(inQuotes := !st.inQuotes)
    else if c == ' ' && !st.inQuotes then
      (if |st.current| > 0 then ArgState(st.args + [st.current], [], st.inQuotes) else st)
    else st.(current := st.current + [c])
  }

  /** The state after reading all of `s`, from the left. */
  function Scan(s: string): ArgState
    decreases |s|
  {
    if s == [] then StartState else Step(Scan(s[..|s| - 1]), s[|s| - 1])
  }

  /** The arguments ParseArguments returns for `s`. */
  function Tokens(s: string): seq<string> {
    var st := Scan(s);
    if |st.current| > 0 then st.args + [st.current] else st.args
  }

  /** ProcessUtils.ParseArguments. */
  method ParseArguments(arguments: string) returns (args: seq<string>)
    ensures args == Tokens(arguments)
    ensures forall k :: 0 <= k < |args| ==> args[k] != [] && '\'' !in args[k]
  {
    args := [];
    var current: string := [];
    var inQuotes := false;
    for i := 0 to |arguments|
      invariant ArgState(args, current, inQuotes) == Scan(arguments[..i])
    {
      var c := arguments[i];
      if c == '\'' {
        inQuotes := !inQuotes;
      } else if c == ' ' && !inQuotes {
        if |current| > 0 {
          args := args + [current];
          current := [];
        }
      } else {
        current := current + [c];
      }
      assert arguments[..i + 1][..i] == arguments[..i];
    }
    assert arguments[..|arguments|] == arguments;
    if |current| > 0 {
      args := args + [current];
    }
    TokensClean(arguments);
  }

  predicate Clean(t: string) {
    t != [] && '\'' !in t
  }

  lemma {:induction false} ScanClean(s: string)
    ensures forall k :: 0 <= k < |Scan(s).args| ==> Clean(Scan(s).args[k])
    ensures '\'' !in Scan(s).current
    decreases |s|
  {
    if s != [] {
      ScanClean(s[..|s| - 1]);
    }
  }

  /** No argument is empty and no argument keeps a single quote. */
  lemma TokensClean(s: string)
    ensures forall k :: 0 <= k < |Tokens(s)| ==> Clean(Tokens(s)[k])
  {
    ScanClean(s);
  }

  /** s.Split(' '): the pieces between spaces, empty ones included. */
  function SplitSpaces(s: string): (pieces: seq<string>)
    ensures |pieces| >= 1
    decreases |s|
  {
    if s == [] then [[]]
    else
      var p := SplitSpaces(s[..|s| - 1]);
      if s[|s| - 1] == ' ' then p + [[]] else p[..|p| - 1] + [p[|p| - 1] + [s[|s| - 1]]]
  }

  /** The pieces that are not empty, in order. */
  function NonEmpty(pieces: seq<string>): seq<string>
    decreases |pieces|
  {
    if pieces == [] then []
    else NonEmpty(pieces[..|pieces| - 1]) + (if pieces[|pieces| - 1] == [] then [] else [pieces[|pieces| - 1]])
  }

  lemma {:induction false} ScanUnquoted(s: string)
    requires '\'' !in s
    ensures var p := SplitSpaces(s);
      Scan(s) == ArgState(NonEmpty(p[..|p| - 1]), p[|p| - 1], false)
    decreases |s|
  {
    if s != [] {
      var init := s[..|s| - 1];
      assert '\'' !in init by {
        forall k | 0 <= k < |init| ensures init[k] != '\'' { assert init[k] == s[k]; }
      }
      ScanUnquoted(init);
      var p := SplitSpaces(init);
      if s[|s| - 1] == ' ' {
        assert (p + [[]])[..|p|] == p;
        assert p == p[..|p| - 1] + [p[|p| - 1]];
      } else {
        var q := p[..|p| - 1] + [p[|p| - 1] + [s[|s| - 1]]];
        assert q[..|q| - 1] == p[..|p| - 1];
      }
    }
  }

  /** Without single quotes, the arguments are the string split on spaces
      with the empty pieces removed. */
  lemma TokensUnquoted(s: string)
    requires '\'' !in s
    ensures Tokens(s) == NonEmpty(SplitSpaces(s))
  {
    ScanUnquoted(s);
    var p := SplitSpaces(s);
    assert p == p[..|p| - 1] + [p[|p| - 1]];
  }

  lemma {:induction false} ScanOpenQuote(s: string)
    requires '\'' !in s
    ensures Scan(['\''] + s) == ArgState([], s, true)
    decreases |s|
  {
    if s == [] {
      assert Scan(['\'']) == Step(Scan([]), '\'');
    } else {
      var init := s[..|s| - 1];
      assert '\'' !in init by {
        forall k | 0 <= k < |init| ensures init[k] != '\'' { assert init[k] == s[k]; }
      }
      ScanOpenQuote(init);
      var w := ['\''] + s;
      assert w[..|w| - 1] == ['\''] + init;
      assert init + [s[|s| - 1]] == s;
    }
  }

  /** A single-quoted region is one argument, spaces and all. */
  lemma QuotedIsOneToken(s: string)
    requires s != [] && '\'' !in s
    ensures Tokens(['\''] + s + ['\'']) == [s]
  {
    ScanOpenQuote(s);
    var w := ['\''] + s + ['\''];
    assert w[..|w| - 1] == ['\''] + s;
  }

  // ---------------------------------------------------------------------
  // ProcessUtils.RunAsync: the subprocess itself is a collaborator.
  // ---------------------------------------------------------------------

  /** A subprocess collaborator: given the program and its argument list it
      yields stdout, or an error when the process cannot start or exits with a
      non-zero code. */
  type Runner = (string, seq<string>) -> Result<string>

  /** RunAsync(command, arguments): the argument string is split by
      ParseArguments before the process is started. */
  function RunAsync(run: Runner, command: string, arguments: string): Result<string> {
    run(command, Tokens(arguments))
  }

  // ---------------------------------------------------------------------
  // GitHubUtils.GetToken
  // ---------------------------------------------------------------------

  /** GetToken: GITHUB_TOKEN when it is set and non-empty; otherwise the
      trimmed output of `gh auth token` when it starts with "gho_"; otherwise
      no token. */
  function GetToken(envToken: Option<string>, run: Runner): (t: Option<string>)
    ensures !IsNullOrEmpty(envToken) ==> t == envToken
    ensures IsNullOrEmpty(envToken) && t.Some? ==>
      StartsWith(t.value, "gho_") && RunAsync(run, "gh", "auth token").Ok?
      && t == Some(Trim(RunAsync(run, "gh", "auth token").value))
    ensures IsNullOrEmpty(envToken) && t.None? ==>
      RunAsync(run, "gh", "auth token").Err? || !StartsWith(Trim(RunAsync(run, "gh", "auth token").value), "gho_")
    ensures t.Some? ==> t.value != []
  {
    if !IsNullOrEmpty(envToken) then envToken
    else
      var out := RunAsync(run, "gh", "auth token");
      if out.Ok? && Trim(out.value) != [] && StartsWith(Trim(out.value), "gho_") then Some(Trim(out.value))
      else None
  }

  // ---------------------------------------------------------------------
  // GetChromiumMajorVersionAsync
  // ---------------------------------------------------------------------

  const DefaultChromiumVersion := "143"

  const ChromiumVersionQuery := "eval --impure --expr 'with import <nixpkgs> {}; lib.getVersion chromium'"

  /** The white space int.TryParse skips around a number. */
  predicate IsNumberWhite(c: char) {
    c == ' ' || '\t' <= c <= '\r'
  }

  predicate AllDigits(s: string) {
    forall i :: 0 <= i < |s| ==> '0' <= s[i] <= '9'
  }

  /** The value of a string of decimal digits, read from the left. */
  function DigitsValue(s: string): nat
    requires AllDigits(s)
    decreases |s|
  {
    if s == [] then 0 else 10 * DigitsValue(s[..|s| - 1]) + (s[|s| - 1] as int - '0' as int)
  }

  /** int.TryParse(s, out _) with NumberStyles.Integer: optional surrounding
      white space, an optional sign, at least one digit, and a value that fits
      in a 32-bit signed integer. */
  predicate ParsesAsInt32(s: string) {
    var t := TrimStartWhere(TrimEndWhere(s, IsNumberWhite), IsNumberWhite);
    var signed := |t| > 0 && (t[0] == '-' || t[0] == '+');
    var digits := if signed then t[1..] else t;
    |digits| > 0 && AllDigits(digits)
    && DigitsValue(digits) <= (if signed && t[0] == '-' then 0x8000_0000 else 0x7FFF_FFFF)
  }

  /** output.Trim().Trim('"').Split('.')[0]. */
  function MajorPart(output: string): string {
    BeforeFirst(TrimChar(Trim(output), '"'), '.')
  }

  /** GetChromiumMajorVersionAsync: a cached version wins; otherwise the
      major part of `nix eval`'s answer when it parses as an integer, returned
      as text; otherwise "143". */
  function ChromiumMajorVersion(cached: Option<string>, run: Runner): (v: string)
    ensures cached.Some? ==> v == cached.value
    ensures cached.None? ==> v == DefaultChromiumVersion || ParsesAsInt32(v)
    ensures cached.None? && RunAsync(run, "nix", ChromiumVersionQuery).Err? ==> v == DefaultChromiumVersion
    ensures cached.None? && RunAsync(run, "nix", ChromiumVersionQuery).Ok? ==>
      var major := MajorPart(RunAsync(run, "nix", ChromiumVersionQuery).value);
      (ParsesAsInt32(major) ==> v == major) && (!ParsesAsInt32(major) ==> v == DefaultChromiumVersion)
    ensures cached.None? && v != DefaultChromiumVersion ==> '.' !in v && v != []
  {
    if cached.Some? then cached.value
    else
      var out := RunAsync(run, "nix", ChromiumVersionQuery);
      if out.Ok? && ParsesAsInt32(MajorPart(out.value)) then MajorPart(out.value)
      else DefaultChromiumVersion
  }

  /** Trim() removes the line break after a quoted answer. */
  lemma TrimQuotedLine(q: string)
    requires |q| >= 2 && q[0] == '"' && q[|q| - 1] == '"'
    ensures Trim(q + "\n") == q
  {
    TrimEndStep(q, '\n', IsWhiteSpace);
    assert q == q[..|q| - 1] + ['"'];
    TrimEndStep(q[..|q| - 1], '"', IsWhiteSpace);
    assert q == ['"'] + q[1..];
    TrimStartStep('"', q[1..], IsWhiteSpace);
  }

  lemma StripClosingQuote(open: string)
    requires |open| >= 2 && open[|open| - 1] != '"'
    ensures TrimEndWhere(open + "\"", Is('"')) == open
  {
    assert Is('"')('"') && !Is('"')(open[|open| - 1]);
    TrimEndStep(open, '"', Is('"'));
    assert open == open[..|open| - 1] + [open[|open| - 1]];
    TrimEndStep(open[..|open| - 1], open[|open| - 1], Is('"'));
  }

  lemma StripOpeningQuote(v: string)
    requires v != [] && v[0] != '"'
    ensures TrimStartWhere("\"" + v, Is('"')) == v
  {
    assert Is('"')('"') && !Is('"')(v[0]);
    TrimStartStep('"', v, Is('"'));
    assert v == [v[0]] + v[1..];
    TrimStartStep(v[0], v[1..], Is('"'));
  }

  /** Trim('"') removes the surrounding quotes and nothing else. */
  lemma StripQuotes(v: string)
    requires v != [] && v[0] != '"' && v[|v| - 1] != '"'
    ensures TrimChar("\"" + v + "\"", '"') == v
  {
    StripClosingQuote("\"" + v);
    StripOpeningQuote(v);
  }

  /** The major part of a dotted version is the text before its first dot. */
  lemma MajorOfDotted(major: string, rest: string)
    requires '.' !in major
    ensures BeforeFirst(major + "." + rest, '.') == major
  {
    var s := major + "." + rest;
    assert s[..|major|] == major;
    assert s[|major|] == '.';
  }

  lemma ParsesThreeDigits()
    ensures ParsesAsInt32("143")
  {
    assert "143" == "14" + ['3'] && "143" == ['1'] + "43";
    TrimEndStep("14", '3', IsNumberWhite);
    TrimStartStep('1', "43", IsNumberWhite);
    assert "143"[..2] == "14" && "14"[..1] == "1" && "1"[..0] == [];
    assert DigitsValue("1") == 1;
    assert DigitsValue("14") == 14;
    assert DigitsValue("143") == 143;
  }

  /** The major part of a quoted dotted version on one line. */
  lemma MajorPartOfQuoted(major: string, rest: string)
    requires major != [] && major[0] != '"' && '.' !in major
    requires rest == [] || rest[|rest| - 1] != '"'
    ensures MajorPart("\"" + major + "." + rest + "\"\n") == major
  {
    var v := major + "." + rest;
    assert v[0] == major[0];
    assert v[|v| - 1] != '"';
    var q := "\"" + v + "\"";
    assert "\"" + major + "." + rest + "\"\n" == q + "\n";
    TrimQuotedLine(q);
    StripQuotes(v);
    MajorOfDotted(major, rest);
  }

  /** `nix eval` prints the version as a quoted Nix string; the text before
      its first dot is the browser version when it parses as an integer. */
  lemma ChromiumVersionFromNixEval(run: Runner, major: string, rest: string)
    requires major != [] && major[0] != '"' && '.' !in major && ParsesAsInt32(major)
    requires rest == [] || rest[|rest| - 1] != '"'
    requires RunAsync(run, "nix", ChromiumVersionQuery) == Ok("\"" + major + "." + rest + "\"\n")
    ensures ChromiumMajorVersion(None, run) == major
  {
    MajorPartOfQuoted(major, rest);
  }

  lemma NixEvalAnswerSplits()
    ensures "\"143.0.7499.40\"\n" == "\"" + "143" + "." + "0.7499.40" + "\"\n"
    ensures "143" != [] && "143"[0] != '"' && '.' !in "143"
    ensures "0.7499.40"[|"0.7499.40"| - 1] != '"'
  {
    assert "143" == ['1', '4', '3'];
  }

  /** The answer `"143.0.7499.40"` gives version 143. */
  lemma ChromiumVersion143(run: Runner)
    requires RunAsync(run, "nix", ChromiumVersionQuery) == Ok("\"143.0.7499.40\"\n")
    ensures ChromiumMajorVersion(None, run) == "143"
  {
    ParsesThreeDigits();
    NixEvalAnswerSplits();
    ChromiumVersionFromNixEval(run, "143", "0.7499.40");
  }
}
