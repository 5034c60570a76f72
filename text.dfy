/**
 * The string primitives both programs rely on: `std::string::find`, `find_first_of`,
 * `find_first_not_of`, `String.IndexOf`, and the digit tests behind `isInteger` and `int.Parse`.
 */
module Text {
  import opened Wrappers

  predicate IsDigit(c: char) { '0' <= c <= '9' }

  predicate AllDigits(s: string) { forall i | 0 <= i < |s| :: IsDigit(s[i]) }

  predicate StartsWith(s: string, prefix: string) { |prefix| <= |s| && s[..|prefix|] == prefix }

  predicate EndsWith(s: string, suffix: string) { |suffix| <= |s| && s[|s| - |suffix|..] == suffix }

  /** `pat` occurs in `s` starting at index `i`. */
  predicate OccursAt(s: string, pat: string, i: nat) { i + |pat| <= |s| && s[i..i + |pat|] == pat }

  /** `pat` occurs somewhere in `s`. */
  predicate Contains(s: string, pat: string) { exists i: nat | i <= |s| :: OccursAt(s, pat, i) }

  /** First occurrence of `pat` in `s` at or after `from`. */
  function FindFrom(s: string, pat: string, from: nat): (r: Option<nat>)
    decreases |s| - from
    ensures r.Some? ==> from <= r.value && OccursAt(s, pat, r.value)
    ensures forall j: nat | from <= j && (r.None? || j < r.value) :: !OccursAt(s, pat, j)
  {
    if from + |pat| > |s| then None
    else if s[from..from + |pat|] == pat then Some(from)
    else FindFrom(s, pat, from + 1)
  }

  /** First occurrence of `pat` in `s` (`std::string::find`, ordinal `String.IndexOf`). */
  function Find(s: string, pat: string): (r: Option<nat>)
    ensures r.Some? ==> OccursAt(s, pat, r.value)
    ensures forall j: nat | r.None? || j < r.value :: !OccursAt(s, pat, j)
  {
    FindFrom(s, pat, 0)
  }

  /** Index of the first character of `s` that belongs to `cs` (`find_first_of`). */
  function IndexOfAny(s: string, cs: set<char>): (r: Option<nat>)
    ensures r.Some? ==> r.value < |s| && s[r.value] in cs
    ensures forall j | 0 <= j < |s| && (r.None? || j < r.value) :: s[j] !in cs
  {
    if s == [] then None
    else if s[0] in cs then Some(0)
    else match IndexOfAny(s[1..], cs)
      case None => None
      case Some(i) => Some(i + 1)
  }

  /** The first position holding a character of `cs` is what `IndexOfAny` reports. */
  lemma IndexOfAnyAt(s: string, cs: set<char>, n: nat)
    requires n < |s| && s[n] in cs
    requires forall j | 0 <= j < n :: s[j] !in cs
    ensures IndexOfAny(s, cs) == Some(n)
  {
  }

  /** Index of the first occurrence of the character `c` (`find(char)`, `IndexOf(char)`). */
  function IndexOfChar(s: string, c: char): (r: Option<nat>)
    ensures r.Some? <==> c in s
    ensures r.Some? ==> r.value < |s| && s[r.value] == c && c !in s[..r.value]
  {
    var r := IndexOfAny(s, {c});
    assert r.Some? ==> c !in s[..r.value] by {
      if r.Some? {
        forall j | 0 <= j < r.value ensures s[..r.value][j] != c { }
      }
    }
    r
  }

  /** Index of the last occurrence of the character `c` (`rfind(char)`, `LastIndexOf(char)`). */
  function LastIndexOfChar(s: string, c: char): (r: Option<nat>)
    ensures r.Some? <==> c in s
    ensures r.Some? ==> r.value < |s| && s[r.value] == c && c !in s[r.value + 1..]
  {
    if s == [] then None
    else match LastIndexOfChar(s[1..], c)
      case Some(i) =>
        assert s[i + 2..] == s[1..][i + 1..];
        Some(i + 1)
      case None =>
        assert s == [s[0]] + s[1..];
        if s[0] == c then Some(0) else None
  }

  /** Index of the first character of `s` that is NOT in `cs` (`find_first_not_of`). */
  function FindFirstNotOf(s: string, cs: set<char>): (r: Option<nat>)
    ensures r.Some? ==> r.value < |s| && s[r.value] !in cs
    ensures forall j | 0 <= j < |s| && (r.None? || j < r.value) :: s[j] in cs
  {
    if s == [] then None
    else if s[0] !in cs then Some(0)
    else match FindFirstNotOf(s[1..], cs)
      case None => None
      case Some(i) => Some(i + 1)
  }

  const DecimalDigits: set<char> := {'0', '1', '2', '3', '4', '5', '6', '7', '8', '9'}

  lemma DecimalDigitsAreDigits(c: char)
    ensures c in DecimalDigits <==> IsDigit(c)
  {
  }

  /** Length of the longest prefix of `s` made of decimal digits. */
  function DigitRun(s: string): (n: nat)
    ensures n <= |s| && AllDigits(s[..n])
    ensures n < |s| ==> !IsDigit(s[n])
  {
    if s == [] || !IsDigit(s[0]) then 0
    else
      var n := 1 + DigitRun(s[1..]);
      assert s[..n] == [s[0]] + s[1..][..n - 1];
      n
  }

  /** The value of a non-empty decimal digit string, most significant digit first. */
  function DigitsValue(s: string): nat
    requires AllDigits(s)
  {
    if s == [] then 0
    else DigitsValue(s[..|s| - 1]) * 10 + (s[|s| - 1] as int - '0' as int)
  }

  /** The shortest decimal representation of `n`. */
  function NatToDigits(n: nat): (s: string)
    ensures |s| > 0 && AllDigits(s)
    ensures DigitsValue(s) == n
  {
    var d := ['0' + (n % 10) as char];
    if n < 10 then
      assert d[..0] == [];
      d
    else
      var s := NatToDigits(n / 10) + d;
      assert s[..|s| - 1] == NatToDigits(n / 10);
      s
  }

  /** ASCII lower-casing of one character. */
  function LowerChar(c: char): char
  {
    if 'A' <= c <= 'Z' then c - 'A' + 'a' else c
  }

  /** ASCII lower-casing of a string (`String.ToLower` restricted to ASCII letters). */
  function Lower(s: string): (r: string)
    ensures |r| == |s|
    ensures forall i | 0 <= i < |s| :: r[i] == LowerChar(s[i])
  {
    if s == [] then [] else [LowerChar(s[0])] + Lower(s[1..])
  }

  /**
   * The lines `std::getline` yields on `s`: split at each `'\n'`; a final line without a
   * newline still counts, but a trailing newline does not start an empty line.
   */
  function Lines(s: string): seq<string>
    decreases |s|
  {
    if s == [] then []
    else match IndexOfChar(s, '\n')
      case None => [s]
      case Some(i) => [s[..i]] + Lines(s[i + 1..])
  }

  /** A line followed by a newline is read back as that line, then whatever follows. */
  lemma LinesCons(a: string, rest: string)
    requires '\n' !in a
    ensures Lines(a + "\n" + rest) == [a] + Lines(rest)
  {
    var s := a + "\n" + rest;
    var r := IndexOfChar(s, '\n');
    assert s[|a|] == '\n';
    assert r == Some(|a|) by {
      assert s[..|a|] == a;
    }
    assert s[..|a|] == a && s[|a| + 1..] == rest;
  }

  /** The first position holding `c` is what `IndexOfChar` reports. */
  lemma IndexOfCharAt(s: string, c: char, k: nat)
    requires k < |s| && s[k] == c && c !in s[..k]
    ensures IndexOfChar(s, c) == Some(k)
  {
  }

  /** A leading zero does not change the value of a digit string. */
  lemma {:induction false} DigitsValueLeadingZero(s: string)
    requires AllDigits(s)
    ensures AllDigits("0" + s) && DigitsValue("0" + s) == DigitsValue(s)
  {
    var z := "0" + s;
    assert AllDigits(z) by {
      assert forall i | 1 <= i < |z| :: z[i] == s[i - 1];
    }
    if s != [] {
      assert z[..|z| - 1] == "0" + s[..|s| - 1];
      assert AllDigits(s[..|s| - 1]) by {
        assert forall i | 0 <= i < |s| - 1 :: s[..|s| - 1][i] == s[i];
      }
      DigitsValueLeadingZero(s[..|s| - 1]);
    }
  }
}
