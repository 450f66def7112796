// Shared vocabulary of the model: optional values, results, the errors the
// updater raises or receives, and the .NET string operations it relies on,
// each characterised by its contract.
module Common {

  datatype Option<+T> = None | Some(value: T)

  /** A computation that either yields a value or ends in an exception. */
  datatype Result<+T> = Ok(value: T) | Err(error: Error)

  /** What an exception carries up to the per-extension catch, whose message
      becomes ExtensionResult.Error. Library exception texts are not modelled. */
  datatype Error =
    | Raised(message: string)     // an error the updater itself raises or returns, with its text
    | External(message: string)   // thrown by a collaborator (HTTP, process, archive), message kept
    | NullReference               // a member access through null
    | NotAJsonString              // JsonElement.GetString() on an element that is neither string nor null
    | NotAJsonObject              // JsonElement.TryGetProperty on an element that is not an object
    | EndOfStream                 // Stream.ReadExactly on a stream shorter than the buffer

  /** string.IsNullOrEmpty on a nullable string. */
  predicate IsNullOrEmpty(s: Option<string>) {
    s.None? || s.value == []
  }

  /** The C# `a ?? b` on nullable values: only null falls back. */
  function OrElse<T>(a: Option<T>, b: Option<T>): (r: Option<T>)
    ensures a.Some? ==> r == a
    ensures a.None? ==> r == b
  {
    if a.Some? then a else b
  }

  predicate ContainsChar(s: string, c: char) {
    c in s
  }

  /** Ordinal string.StartsWith. */
  predicate StartsWith(s: string, prefix: string) {
    |prefix| <= |s| && s[..|prefix|] == prefix
  }

  /** True when `pat` occurs in `s` at index `i`. */
  predicate OccursAt(s: string, pat: string, i: nat) {
    i + |pat| <= |s| && s[i..i + |pat|] == pat
  }

  predicate Occurs(s: string, pat: string) {
    exists i: nat | i <= |s| :: OccursAt(s, pat, i)
  }

  /** string.Replace(pat, rep): every non-overlapping occurrence of `pat`,
      scanning left to right, is replaced by `rep` (ordinal comparison). */
  function ReplaceAll(s: string, pat: string, rep: string): string
    requires pat != []
    decreases |s|
  {
    if |s| < |pat| then s
    else if s[..|pat|] == pat then rep + ReplaceAll(s[|pat|..], pat, rep)
    else [s[0]] + ReplaceAll(s[1..], pat, rep)
  }

  /** Replacing a pattern that does not occur leaves the string unchanged. */
  lemma {:induction false} ReplaceAllAbsent(s: string, pat: string, rep: string)
    requires pat != []
    requires !Occurs(s, pat)
    ensures ReplaceAll(s, pat, rep) == s
    decreases |s|
  {
    if |s| >= |pat| {
      assert !OccursAt(s, pat, 0);
      assert s[..|pat|] != pat;
      forall i: nat | i <= |s[1..]| ensures !OccursAt(s[1..], pat, i) {
        if OccursAt(s[1..], pat, i) {
          assert s[1..][i..i + |pat|] == s[i + 1..i + 1 + |pat|];
          assert OccursAt(s, pat, i + 1);
        }
      }
      ReplaceAllAbsent(s[1..], pat, rep);
      assert [s[0]] + s[1..] == s;
    }
  }

  /** A string that is exactly the pattern becomes exactly the replacement. */
  lemma ReplaceWhole(pat: string, rep: string)
    requires pat != []
    ensures ReplaceAll(pat, pat, rep) == rep
  {
    assert pat[..|pat|] == pat;
    assert ReplaceAll(pat[|pat|..], pat, rep) == [];
  }

  /** Replacing one character by a string, character by character. */
  function SubstChar(s: string, c: char, rep: string): string
    decreases |s|
  {
    if |s| == 0 then []
    else SubstChar(s[..|s| - 1], c, rep) + (if s[|s| - 1] == c then rep else [s[|s| - 1]])
  }

  /** The per-character map distributes over concatenation. */
  lemma {:induction false} SubstCharAppend(a: string, b: string, c: char, rep: string)
    ensures SubstChar(a + b, c, rep) == SubstChar(a, c, rep) + SubstChar(b, c, rep)
    decreases |b|
  {
    if b == [] {
      assert a + b == a;
    } else {
      var w := a + b;
      assert w[..|w| - 1] == a + b[..|b| - 1];
      assert w[|w| - 1] == b[|b| - 1];
      SubstCharAppend(a, b[..|b| - 1], c, rep);
    }
  }

  /** Replacing a character that does not occur changes nothing. */
  lemma {:induction false} SubstCharAbsent(s: string, c: char, rep: string)
    requires c !in s
    ensures SubstChar(s, c, rep) == s
    decreases |s|
  {
    if s != [] {
      SubstCharAbsent(s[..|s| - 1], c, rep);
      assert s[..|s| - 1] + [s[|s| - 1]] == s;
    }
  }

  /** For a one-character pattern, string.Replace is a per-character map. */
  lemma {:induction false} ReplaceOneChar(s: string, c: char, rep: string)
    ensures ReplaceAll(s, [c], rep) == SubstChar(s, c, rep)
    decreases |s|
  {
    if s != [] {
      ReplaceOneChar(s[1..], c, rep);
      assert s[..1] == [s[0]];
      assert [s[0]] + s[1..] == s;
      SubstCharAppend([s[0]], s[1..], c, rep);
      assert [s[0]][..0] == [];
    }
  }

  /** Two pieces free of `c` joined by one `c`, with the `c` removed. */
  lemma DropChar(a: string, b: string, c: char)
    requires c !in a && c !in b
    ensures SubstChar(a + [c] + b, c, "") == a + b
  {
    SubstCharAppend(a + [c], b, c, "");
    SubstCharAppend(a, [c], c, "");
    assert SubstChar([c], c, "") == [] by {
      assert [c][..0] == [];
    }
    SubstCharAbsent(a, c, "");
    SubstCharAbsent(b, c, "");
    assert SubstChar(a + [c], c, "") == a;
  }

  /** The characters string.Trim() removes: Char.IsWhiteSpace, that is the
      Unicode space, line and paragraph separators and U+0009..U+000D, U+0085. */
  predicate IsWhiteSpace(c: char) {
    c == ' ' || ('\t' <= c <= '\r') || c == '\U{85}' || c == '\U{A0}' || c == '\U{1680}'
    || ('\U{2000}' <= c <= '\U{200A}') || c == '\U{2028}' || c == '\U{2029}'
    || c == '\U{202F}' || c == '\U{205F}' || c == '\U{3000}'
  }

  /** Drops the longest prefix whose characters satisfy `drop`. */
  function TrimStartWhere(s: string, drop: char -> bool): (r: string)
    ensures |r| <= |s| && r == s[|s| - |r|..]
    ensures forall i :: 0 <= i < |s| - |r| ==> drop(s[i])
    ensures r == [] || !drop(r[0])
  {
    if s != [] && drop(s[0]) then TrimStartWhere(s[1..], drop) else s
  }

  /** Drops the longest suffix whose characters satisfy `drop`. */
  function TrimEndWhere(s: string, drop: char -> bool): (r: string)
    ensures |r| <= |s| && r == s[..|r|]
    ensures forall i :: |r| <= i < |s| ==> drop(s[i])
    ensures r == [] || !drop(r[|r| - 1])
  {
    if s != [] && drop(s[|s| - 1]) then TrimEndWhere(s[..|s| - 1], drop) else s
  }

  /** The test "is the character `c`". */
  function Is(c: char): char -> bool {
    ch => ch == c
  }

  /** string.TrimStart(c): removes every leading `c`, not just one. */
  function TrimStart(s: string, c: char): string {
    TrimStartWhere(s, Is(c))
  }

  /** string.Trim(c). */
  function TrimChar(s: string, c: char): string {
    TrimStartWhere(TrimEndWhere(s, Is(c)), Is(c))
  }

  /** A last character that is not dropped stops TrimEnd; one that is dropped
      is removed. */
  lemma TrimEndStep(s: string, c: char, drop: char -> bool)
    ensures !drop(c) ==> TrimEndWhere(s + [c], drop) == s + [c]
    ensures drop(c) ==> TrimEndWhere(s + [c], drop) == TrimEndWhere(s, drop)
  {
    assert (s + [c])[..|s|] == s;
  }

  /** A first character that is not dropped stops TrimStart; one that is
      dropped is removed. */
  lemma TrimStartStep(c: char, s: string, drop: char -> bool)
    ensures !drop(c) ==> TrimStartWhere([c] + s, drop) == [c] + s
    ensures drop(c) ==> TrimStartWhere([c] + s, drop) == TrimStartWhere(s, drop)
  {
    assert ([c] + s)[1..] == s;
  }

  /** string.Trim(). */
  function Trim(s: string): string {
    TrimStartWhere(TrimEndWhere(s, IsWhiteSpace), IsWhiteSpace)
  }

  /** Trim() leaves a string alone that starts and ends with non-white-space. */
  lemma TrimNoWhiteEnds(s: string)
    requires s != [] && !IsWhiteSpace(s[0]) && !IsWhiteSpace(s[|s| - 1])
    ensures Trim(s) == s
  {
  }

  lemma TrimEndSpaced(t: string)
    requires t != [] && !IsWhiteSpace(t[|t| - 1])
    ensures TrimEndWhere(" " + t + " ", IsWhiteSpace) == " " + t
  {
    TrimEndStep(" " + t, ' ', IsWhiteSpace);
  }

  lemma TrimStartSpaced(t: string)
    requires t != [] && !IsWhiteSpace(t[0])
    ensures TrimStartWhere(" " + t, IsWhiteSpace) == t
  {
    TrimStartStep(' ', t, IsWhiteSpace);
  }

  /** One space on each side of a name is trimmed away. */
  lemma TrimSpaced(t: string)
    requires t != [] && !IsWhiteSpace(t[0]) && !IsWhiteSpace(t[|t| - 1])
    ensures Trim(" " + t + " ") == t
  {
    TrimEndSpaced(t);
    TrimStartSpaced(t);
  }

  /** s.Split(c)[0]: the text before the first `c`, or all of `s`. */
  function BeforeFirst(s: string, c: char): (r: string)
    ensures |r| <= |s| && r == s[..|r|]
    ensures c !in r
    ensures |r| < |s| ==> s[|r|] == c
  {
    if s == [] || s[0] == c then [] else [s[0]] + BeforeFirst(s[1..], c)
  }

  function LowerChar(c: char): char {
    if 'A' <= c <= 'Z' then (c as int + 32) as char else c
  }

  /** ASCII letters folded to lower case (Enum.TryParse with ignoreCase). */
  function LowerAscii(s: string): (r: string)
    ensures |r| == |s|
  {
    seq(|s|, i requires 0 <= i < |s| => LowerChar(s[i]))
  }

  /** Concatenation of a sequence of strings. */
  function Concat(parts: seq<string>): string {
    if parts == [] then [] else parts[0] + Concat(parts[1..])
  }

  /** string.Join(sep, parts). */
  function Join(parts: seq<string>, sep: string): string {
    if parts == [] then []
    else if |parts| == 1 then parts[0]
    else parts[0] + sep + Join(parts[1..], sep)
  }

  function HexDigit(n: nat): (c: char)
    requires n < 16
    ensures '0' <= c <= '9' || 'a' <= c <= 'f'
  {
    if n < 10 then ('0' as int + n) as char else ('a' as int + n - 10) as char
  }

  /** Convert.ToHexString(bytes).ToLowerInvariant(): two lower-case digits
      per byte, the high nibble first. */
  function HexLower(bytes: seq<bv8>): (r: string)
    ensures |r| == 2 * |bytes|
    ensures forall i :: 0 <= i < |r| ==> '0' <= r[i] <= '9' || 'a' <= r[i] <= 'f'
    ensures forall i :: 0 <= i < |bytes| ==>
      r[2 * i] == HexDigit(bytes[i] as nat / 16) && r[2 * i + 1] == HexDigit(bytes[i] as nat % 16)
  {
    if bytes == [] then []
    else
      var rest := HexLower(bytes[1..]);
      HexPrepend(bytes, rest);
      [HexDigit(bytes[0] as nat / 16), HexDigit(bytes[0] as nat % 16)] + rest
  }

  /** The digits of the first byte put before the digits of the others. */
  lemma HexPrepend(bytes: seq<bv8>, rest: string)
    requires bytes != [] && |rest| == 2 * (|bytes| - 1)
    requires forall i :: 0 <= i < |rest| ==> '0' <= rest[i] <= '9' || 'a' <= rest[i] <= 'f'
    requires forall i :: 0 <= i < |bytes| - 1 ==>
      rest[2 * i] == HexDigit(bytes[i + 1] as nat / 16) && rest[2 * i + 1] == HexDigit(bytes[i + 1] as nat % 16)
    ensures var r := [HexDigit(bytes[0] as nat / 16), HexDigit(bytes[0] as nat % 16)] + rest;
      (forall i :: 0 <= i < |r| ==> '0' <= r[i] <= '9' || 'a' <= r[i] <= 'f')
      && forall i :: 0 <= i < |bytes| ==>
        r[2 * i] == HexDigit(bytes[i] as nat / 16) && r[2 * i + 1] == HexDigit(bytes[i] as nat % 16)
  {
    var r := [HexDigit(bytes[0] as nat / 16), HexDigit(bytes[0] as nat % 16)] + rest;
    forall i | 2 <= i < |r| ensures '0' <= r[i] <= '9' || 'a' <= r[i] <= 'f' {
      assert r[i] == rest[i - 2];
    }
    forall i | 0 < i < |bytes|
      ensures r[2 * i] == HexDigit(bytes[i] as nat / 16) && r[2 * i + 1] == HexDigit(bytes[i] as nat % 16)
    {
      assert r[2 * i] == rest[2 * (i - 1)];
      assert r[2 * i + 1] == rest[2 * (i - 1) + 1];
    }
  }

  /** The value of a lower-case hex digit (0 for any other character). */
  function HexValue(c: char): (n: nat)
    ensures n < 16
  {
    if '0' <= c <= '9' then c as int - '0' as int
    else if 'a' <= c <= 'f' then c as int - 'a' as int + 10
    else 0
  }

  lemma HexDigitValue(n: nat)
    requires n < 16
    ensures HexValue(HexDigit(n)) == n
  {
  }

  /** The hex text loses nothing: the two digits written for byte `i`
      decode back to its value. */
  lemma HexLowerDecodes(bytes: seq<bv8>, i: nat)
    requires i < |bytes|
    ensures var h := HexLower(bytes);
      16 * HexValue(h[2 * i]) + HexValue(h[2 * i + 1]) == bytes[i] as nat
  {
    var h := HexLower(bytes);
    var n := bytes[i] as nat;
    assert h[2 * i] == HexDigit(n / 16) && h[2 * i + 1] == HexDigit(n % 16);
    HexDigitValue(n / 16);
    HexDigitValue(n % 16);
    assert 16 * (n / 16) + n % 16 == n;
  }
}
