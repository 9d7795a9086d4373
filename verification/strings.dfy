/** String helpers that mirror the JavaScript built-ins the scripts call:
    `String.prototype.trim`, `split('-')[0]`, `Array.prototype.join(', ')`
    and `toUpperCase` on ASCII letters. */
module Strings {

  /** JavaScript's WhiteSpace and LineTerminator code points, the set that
      `trim()` removes (ECMAScript 2023, sections 12.2 and 12.3): TAB, VT, FF,
      ZWNBSP, the Unicode Zs category, LF, CR, LS and PS. */
  predicate IsJsWhitespace(c: char) {
    || c == '\U{9}' || c == '\U{B}' || c == '\U{C}' || c == ' '
    || c == '\U{A0}' || c == '\U{FEFF}' || c == '\U{1680}'
    || ('\U{2000}' <= c <= '\U{200A}') || c == '\U{202F}' || c == '\U{205F}' || c == '\U{3000}'
    || c == '\U{A}' || c == '\U{D}' || c == '\U{2028}' || c == '\U{2029}'
  }

  predicate AllWhitespace(s: string) {
    forall i :: 0 <= i < |s| ==> IsJsWhitespace(s[i])
  }

  /** The number of white-space characters `s` starts with. */
  function LeadingSpace(s: string): (n: nat)
    ensures n <= |s| && AllWhitespace(s[..n])
    ensures n == |s| || !IsJsWhitespace(s[n])
  {
    if s != [] && IsJsWhitespace(s[0]) then
      var n := 1 + LeadingSpace(s[1..]);
      assert s[..n] == [s[0]] + s[1..][..n - 1];
      n
    else 0
  }

  /** Where the white space that `s` ends with begins. */
  function TrailingSpaceStart(s: string): (n: nat)
    ensures n <= |s| && AllWhitespace(s[n..])
    ensures n == 0 || !IsJsWhitespace(s[n - 1])
  {
    if s != [] && IsJsWhitespace(s[|s| - 1]) then
      var n := TrailingSpaceStart(s[..|s| - 1]);
      assert s[n..] == s[..|s| - 1][n..] + [s[|s| - 1]];
      n
    else |s|
  }

  /** `s.trim()`: drops the leading white space, then the trailing. */
  function Trim(s: string): string
  {
    var t := s[LeadingSpace(s)..];
    t[..TrailingSpaceStart(t)]
  }

  /** What `trim()` returns is the slice of `s` between two runs of white
      space, and it neither starts nor ends with white space. */
  lemma TrimIsInnerSlice(s: string) returns (i: nat, j: nat)
    ensures i <= j <= |s| && Trim(s) == s[i..j]
    ensures AllWhitespace(s[..i]) && AllWhitespace(s[j..])
    ensures Trim(s) == [] || (!IsJsWhitespace(Trim(s)[0]) && !IsJsWhitespace(Trim(s)[|Trim(s)| - 1]))
  {
    i := LeadingSpace(s);
    var t := s[i..];
    var k := TrailingSpaceStart(t);
    j := i + k;
    assert t[..k] == s[i..j];
    assert t[k..] == s[j..];
  }

  /** A query is blank for `!q.trim()` exactly when every character is
      white space. */
  lemma {:induction false} TrimEmptyIffAllWhitespace(s: string)
    ensures Trim(s) == [] <==> AllWhitespace(s)
  {
    var i, j := TrimIsInnerSlice(s);
    if Trim(s) == [] {
      forall n | 0 <= n < |s| ensures IsJsWhitespace(s[n]) {
        if n < i { assert s[n] == s[..i][n]; } else { assert s[n] == s[j..][n - j]; }
      }
    } else {
      assert Trim(s)[0] == s[i];
      assert !IsJsWhitespace(s[i]);
    }
  }

  /** A string that starts and ends with a non-white-space character is its own trim. */
  lemma TrimOfTrimmed(s: string)
    requires s == [] || (!IsJsWhitespace(s[0]) && !IsJsWhitespace(s[|s| - 1]))
    ensures Trim(s) == s
  {
  }

  /** `s.split(sep)[0]`: the part of `s` before the first `sep`, or all of `s`. */
  function PrefixBefore(s: string, sep: char): (r: string)
    ensures |r| <= |s| && r == s[..|r|]
    ensures sep !in r
    ensures |r| < |s| ==> s[|r|] == sep
  {
    if s == [] then []
    else if s[0] == sep then []
    else [s[0]] + PrefixBefore(s[1..], sep)
  }

  /** Splitting a text at the first `sep` gives back the part before it. */
  lemma {:induction false} PrefixBeforeSeparated(w: string, sep: char, rest: string)
    requires sep !in w
    ensures PrefixBefore(w + [sep] + rest, sep) == w
  {
    if w != [] {
      assert (w + [sep] + rest)[1..] == w[1..] + [sep] + rest;
      PrefixBeforeSeparated(w[1..], sep, rest);
    }
  }

  /** `xs.join(sep)`. */
  function Join(xs: seq<string>, sep: string): (r: string)
    ensures xs == [] ==> r == []
    ensures |xs| == 1 ==> r == xs[0]
  {
    if xs == [] then []
    else if |xs| == 1 then xs[0]
    else xs[0] + sep + Join(xs[1..], sep)
  }

  function TotalLength(xs: seq<string>): nat {
    if xs == [] then 0 else |xs[0]| + TotalLength(xs[1..])
  }

  /** The joined text holds every part plus one separator between each
      neighbouring pair, and starts with the first part. */
  lemma {:induction false} JoinLength(xs: seq<string>, sep: string)
    requires xs != []
    ensures |Join(xs, sep)| == TotalLength(xs) + (|xs| - 1) * |sep|
    ensures Join(xs, sep)[..|xs[0]|] == xs[0]
  {
    if |xs| > 1 {
      JoinLength(xs[1..], sep);
    }
  }

  /** With a non-empty separator the joined text is empty only for no parts
      or a single empty part: the case where `|| 'N/A'` takes over. */
  lemma {:induction false} JoinEmptyIff(xs: seq<string>, sep: string)
    requires sep != []
    ensures Join(xs, sep) == [] <==> (xs == [] || xs == [[]])
  {
    if |xs| > 1 {
      JoinLength(xs, sep);
    }
  }

  /** `s.toUpperCase()` on the ASCII letters. */
  function ToUpperAscii(s: string): (r: string)
    ensures |r| == |s|
    ensures forall i :: 0 <= i < |s| ==>
      r[i] == (if 'a' <= s[i] <= 'z' then (s[i] as int - 32) as char else s[i])
    ensures forall i :: 0 <= i < |r| ==> !('a' <= r[i] <= 'z')
  {
    if s == [] then [] else
      [if 'a' <= s[0] <= 'z' then (s[0] as int - 32) as char else s[0]] + ToUpperAscii(s[1..])
  }

  /** Upper-casing text that is already upper case changes nothing. */
  lemma ToUpperAsciiIdempotent(s: string)
    ensures ToUpperAscii(ToUpperAscii(s)) == ToUpperAscii(s)
  {
    var u := ToUpperAscii(s);
    assert forall i :: 0 <= i < |u| ==> ToUpperAscii(u)[i] == u[i];
  }
}
