/** The handful of Python `str` builtins the pipeline relies on:
    `splitlines`, `strip`, `isupper`, the regex class `\w`, `join` and `str(int)`. */
module PyStr {

  /** Python's `str.isspace`, over the complete set of code points it accepts. */
  predicate IsSpace(c: char) {
    var n := c as int;
    n == 0x20 || (0x09 <= n <= 0x0D) || (0x1C <= n <= 0x1F) || n == 0x85 || n == 0xA0
    || n == 0x1680 || (0x2000 <= n <= 0x200A) || n == 0x2028 || n == 0x2029
    || n == 0x202F || n == 0x205F || n == 0x3000
  }

  /** The code points at which Python's `str.splitlines` breaks a line. */
  predicate IsLineBreak(c: char) {
    var n := c as int;
    (0x0A <= n <= 0x0D) || (0x1C <= n <= 0x1E) || n == 0x85 || n == 0x2028 || n == 0x2029
  }

  predicate IsAsciiUpper(c: char) { 'A' <= c <= 'Z' }
  predicate IsAsciiLower(c: char) { 'a' <= c <= 'z' }
  predicate IsAsciiLetter(c: char) { IsAsciiUpper(c) || IsAsciiLower(c) }
  predicate IsAsciiDigit(c: char) { '0' <= c <= '9' }

  /** The regex class `\w`, restricted to ASCII: letters, digits and `_`. */
  predicate IsWordChar(c: char) { IsAsciiLetter(c) || IsAsciiDigit(c) || c == '_' }

  predicate NoBreak(s: string) {
    forall k | 0 <= k < |s| :: !IsLineBreak(s[k])
  }

  predicate AllSpace(s: string) {
    forall k | 0 <= k < |s| :: IsSpace(s[k])
  }

  /** What `strip` leaves: nothing, or a string that starts and ends with a non-space. */
  predicate Stripped(s: string) {
    s == [] || (!IsSpace(s[0]) && !IsSpace(s[|s| - 1]))
  }

  // ---------------------------------------------------------------------------
  // str.splitlines()

  /** Index of the first line break of `s`, or `|s|` when there is none. */
  function FirstBreak(s: string): (i: nat)
    ensures i <= |s|
    ensures i < |s| ==> IsLineBreak(s[i])
    ensures NoBreak(s[..i])
  {
    if s == [] || IsLineBreak(s[0]) then 0
    else
      var j := FirstBreak(s[1..]);
      assert s[..1 + j] == [s[0]] + s[1..][..j];
      1 + j
  }

  /** Python `s.splitlines()`: the line terminators are removed, `"\r\n"` counts as one
      terminator, a final terminator does not start an empty line, and `""` has no lines. */
  function SplitLines(s: string): (lines: seq<string>)
    ensures forall k | 0 <= k < |lines| :: NoBreak(lines[k])
    ensures s == [] <==> lines == []
    decreases |s|
  {
    if s == [] then []
    else
      var i := FirstBreak(s);
      if i == |s| then [s]
      else
        var next := if s[i] == '\r' && i + 1 < |s| && s[i + 1] == '\n' then i + 2 else i + 1;
        [s[..i]] + SplitLines(s[next..])
  }

  lemma SplitLinesNoBreak(s: string)
    requires NoBreak(s)
    ensures SplitLines(s) == if s == [] then [] else [s]
  {
    if s != [] {
      var i := FirstBreak(s);
      assert i == |s|;
    }
  }

  /** A line followed by `"\n"` contributes exactly that line. */
  lemma SplitLinesCons(x: string, rest: string)
    requires NoBreak(x)
    ensures SplitLines(x + "\n" + rest) == [x] + SplitLines(rest)
  {
    SplitLinesBreak(x, '\n', rest);
  }

  /** A line ended by any single terminator contributes exactly that line, except
      that a `'\r'` directly followed by `'\n'` is not a terminator on its own. */
  lemma SplitLinesBreak(x: string, b: char, rest: string)
    requires NoBreak(x) && IsLineBreak(b)
    requires !(b == '\r' && rest != [] && rest[0] == '\n')
    ensures SplitLines(x + [b] + rest) == [x] + SplitLines(rest)
  {
    var s := x + [b] + rest;
    FirstBreakAt(x, b, rest);
    assert s[|x|] == b;
    assert s[..|x|] == x;
    assert s[|x| + 1..] == rest;
  }

  /** `"\r\n"` is one terminator: it ends one line and starts no empty one. */
  lemma SplitLinesCrLf(x: string, rest: string)
    requires NoBreak(x)
    ensures SplitLines(x + "\r\n" + rest) == [x] + SplitLines(rest)
  {
    var s := x + "\r\n" + rest;
    assert s == x + ['\r'] + ("\n" + rest);
    FirstBreakAt(x, '\r', "\n" + rest);
    assert s[|x|] == '\r' && s[|x| + 1] == '\n';
    assert s[..|x|] == x;
    assert s[|x| + 2..] == rest;
  }

  lemma {:induction false} FirstBreakAt(x: string, b: char, rest: string)
    requires NoBreak(x) && IsLineBreak(b)
    ensures FirstBreak(x + [b] + rest) == |x|
  {
    var s := x + [b] + rest;
    if x != [] {
      assert s[1..] == x[1..] + [b] + rest;
      FirstBreakAt(x[1..], b, rest);
    }
  }

  // ---------------------------------------------------------------------------
  // str.strip()

  function LeadingSpaces(s: string): (n: nat)
    ensures n <= |s|
    ensures forall k | 0 <= k < n :: IsSpace(s[k])
    ensures n < |s| ==> !IsSpace(s[n])
  {
    if s == [] || !IsSpace(s[0]) then 0
    else 1 + LeadingSpaces(s[1..])
  }

  function TrailingSpaces(s: string): (n: nat)
    ensures n <= |s|
    ensures forall k | |s| - n <= k < |s| :: IsSpace(s[k])
    ensures n < |s| ==> !IsSpace(s[|s| - n - 1])
    decreases |s|
  {
    if s == [] || !IsSpace(s[|s| - 1]) then 0
    else 1 + TrailingSpaces(s[..|s| - 1])
  }

  /** Python `s.strip()`: the longest run of whitespace is removed from each end.
      The result is a slice of `s` with only whitespace around it, and it is empty
      exactly when `s` is all whitespace. */
  function Strip(s: string): (r: string)
    ensures Stripped(r)
    ensures r == [] <==> AllSpace(s)
    ensures |r| <= |s|
  {
    var i := LeadingSpaces(s);
    if i == |s| then
      assert s[..i] == s && s[i..] == [];
      []
    else
      var j := |s| - TrailingSpaces(s);
      assert i < j;
      var r := s[i..j];
      assert r[0] == s[i] && r[|r| - 1] == s[j - 1];
      assert !AllSpace(s) by { assert !IsSpace(s[i]); }
      r
  }

  /** `strip` returns the slice of `s` between its leading and its trailing whitespace. */
  lemma StripIsSlice(s: string)
    ensures exists i, j :: 0 <= i <= j <= |s| && Strip(s) == s[i..j] && AllSpace(s[..i]) && AllSpace(s[j..])
  {
    var i := LeadingSpaces(s);
    if i == |s| {
      assert Strip(s) == s[i..i] && s[..i] == s;
    } else {
      var j := |s| - TrailingSpaces(s);
      assert Strip(s) == s[i..j];
      assert AllSpace(s[..i]) && AllSpace(s[j..]);
    }
  }

  lemma StripNoBreak(s: string)
    ensures NoBreak(s) ==> NoBreak(Strip(s))
  {
    StripIsSlice(s);
    var i, j :| 0 <= i <= j <= |s| && Strip(s) == s[i..j] && AllSpace(s[..i]) && AllSpace(s[j..]);
    assert forall k | 0 <= k < j - i :: Strip(s)[k] == s[i + k];
  }

  lemma StripStripped(s: string)
    requires Stripped(s)
    ensures Strip(s) == s
  {
    if s != [] {
      assert LeadingSpaces(s) == 0;
      assert TrailingSpaces(s) == 0;
    }
  }

  /** `s[:n]` */
  function Take(s: string, n: nat): (r: string)
    ensures r <= s
    ensures |s| <= n ==> r == s
    ensures |s| > n ==> |r| == n
  {
    if |s| <= n then s else s[..n]
  }

  // ---------------------------------------------------------------------------
  // str.isupper()

  /** Python `s.isupper()`: the string has at least one cased character and none of
      its cased characters is lower-case. Letters are ASCII. */
  predicate IsUpper(s: string) {
    (exists k :: 0 <= k < |s| && IsAsciiUpper(s[k])) && (forall k | 0 <= k < |s| :: !IsAsciiLower(s[k]))
  }

  /** The same test as CPython computes it: scan the string, fail on a lower-case
      letter, and succeed at the end only if some cased letter was seen. */
  function IsUpperFrom(s: string, sawCased: bool): bool
    decreases |s|
  {
    if s == [] then sawCased
    else if IsAsciiLower(s[0]) then false
    else IsUpperFrom(s[1..], sawCased || IsAsciiUpper(s[0]))
  }

  /** The scan started without a cased letter decides exactly `isupper()`. */
  lemma IsUpperMeaning(s: string)
    ensures IsUpperFrom(s, false) <==> IsUpper(s)
  {
    IsUpperFromMeaning(s, false);
  }

  lemma {:induction false} IsUpperFromMeaning(s: string, saw: bool)
    ensures IsUpperFrom(s, saw) <==>
      (saw || exists k :: 0 <= k < |s| && IsAsciiUpper(s[k])) && (forall k | 0 <= k < |s| :: !IsAsciiLower(s[k]))
    decreases |s|
  {
    if s != [] {
      IsUpperFromMeaning(s[1..], saw || IsAsciiUpper(s[0]));
      if exists k :: 0 <= k < |s| && IsAsciiUpper(s[k]) {
        var k :| 0 <= k < |s| && IsAsciiUpper(s[k]);
        if k > 0 { assert s[1..][k - 1] == s[k]; }
      }
      if exists k :: 0 <= k < |s| - 1 && IsAsciiUpper(s[1..][k]) {
        var k :| 0 <= k < |s| - 1 && IsAsciiUpper(s[1..][k]);
        assert s[k + 1] == s[1..][k];
      }
      if forall k | 0 <= k < |s| - 1 :: !IsAsciiLower(s[1..][k]) {
        assert forall k | 1 <= k < |s| :: s[k] == s[1..][k - 1];
      }
    }
  }

  // ---------------------------------------------------------------------------
  // sep.join(xs)

  function Join(xs: seq<string>, sep: string): string
    decreases |xs|
  {
    if xs == [] then []
    else if |xs| == 1 then xs[0]
    else xs[0] + sep + Join(xs[1..], sep)
  }

  /** Joining two non-empty lists is joining their joins. */
  lemma {:induction false} JoinAppend(xs: seq<string>, ys: seq<string>, sep: string)
    requires xs != [] && ys != []
    ensures Join(xs + ys, sep) == Join(xs, sep) + sep + Join(ys, sep)
    decreases |xs|
  {
    if |xs| == 1 {
      assert (xs + ys)[1..] == ys;
    } else {
      assert (xs + ys)[1..] == xs[1..] + ys;
      JoinAppend(xs[1..], ys, sep);
    }
  }

  // ---------------------------------------------------------------------------
  // str(n) for a non-negative int

  function DigitChar(d: nat): (c: char)
    requires d < 10
    ensures IsAsciiDigit(c) && c as int - '0' as int == d
  {
    (('0' as int) + d) as char
  }

  predicate AllDigits(s: string) {
    forall k | 0 <= k < |s| :: IsAsciiDigit(s[k])
  }

  /** Python `str(n)`: decimal digits, no sign and no leading zero. */
  function NatToString(n: nat): (s: string)
    ensures s != [] && AllDigits(s)
    ensures |s| > 1 ==> s[0] != '0'
    decreases n
  {
    if n < 10 then [DigitChar(n)]
    else
      var p := NatToString(n / 10);
      p + [DigitChar(n % 10)]
  }

  /** Reads a string of decimal digits back as a number. */
  function ParseDecimal(s: string): nat
    requires AllDigits(s)
    decreases |s|
  {
    if s == [] then 0
    else 10 * ParseDecimal(s[..|s| - 1]) + (s[|s| - 1] as int - '0' as int)
  }

  lemma {:induction false} ParseNatToString(n: nat)
    ensures ParseDecimal(NatToString(n)) == n
    decreases n
  {
    if n >= 10 {
      var s := NatToString(n);
      assert s[..|s| - 1] == NatToString(n / 10);
      ParseNatToString(n / 10);
    }
  }

  lemma NatToStringInjective(m: nat, n: nat)
    requires NatToString(m) == NatToString(n)
    ensures m == n
  {
    ParseNatToString(m);
    ParseNatToString(n);
  }
}
