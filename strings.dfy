/** Python string operations the core relies on, over `string` (a sequence of
    Unicode scalar values, as a Python `str` is a sequence of code points). */
module Strings {

  /** `s.endswith(suffix)` for a single suffix. */
  predicate EndsWith(s: string, suffix: string)
  {
    |suffix| <= |s| && s[|s| - |suffix|..] == suffix
  }

  /** A string that ends with `t`, where `t` ends with `u`, ends with `u`. */
  lemma EndsWithTransitive(s: string, t: string, u: string)
    requires EndsWith(s, t) && EndsWith(t, u)
    ensures EndsWith(s, u)
  {
    assert s[|s| - |u|..] == s[|s| - |t|..][|t| - |u|..];
  }

  /** `str.isspace()` of a one-character string: the characters Python's
      `str.strip()` removes when called without arguments. */
  predicate IsSpace(c: char)
  {
    || '\t' <= c <= '\r'                  // U+0009 .. U+000D
    || '\U{1C}' <= c <= '\U{1F}'          // file, group, record, unit separators
    || c == ' '
    || c == '\U{85}' || c == '\U{A0}' || c == '\U{1680}'
    || '\U{2000}' <= c <= '\U{200A}'
    || c == '\U{2028}' || c == '\U{2029}' || c == '\U{202F}' || c == '\U{205F}'
    || c == '\U{3000}'
  }

  /** Number of whitespace characters at the start of `s`. */
  function LeadingSpace(s: string): (n: nat)
    ensures n <= |s|
    ensures forall k :: 0 <= k < n ==> IsSpace(s[k])
    ensures n < |s| ==> !IsSpace(s[n])
  {
    if s == [] || !IsSpace(s[0]) then 0 else 1 + LeadingSpace(s[1..])
  }

  /** Number of whitespace characters at the end of `s`. */
  function TrailingSpace(s: string): (n: nat)
    ensures n <= |s|
    ensures forall k :: |s| - n <= k < |s| ==> IsSpace(s[k])
    ensures n < |s| ==> !IsSpace(s[|s| - n - 1])
  {
    if s == [] || !IsSpace(s[|s| - 1]) then 0 else 1 + TrailingSpace(s[..|s| - 1])
  }

  /** `s.strip()`: `s` without its leading and trailing whitespace. The
      result is the slice of `s` that starts at the first non-space
      character and ends at the last one; it is empty exactly when `s`
      holds nothing but whitespace. */
  function Strip(s: string): (r: string)
    ensures |r| <= |s|
    ensures LeadingSpace(s) + |r| <= |s| && r == s[LeadingSpace(s)..LeadingSpace(s) + |r|]
    ensures forall k :: LeadingSpace(s) + |r| <= k < |s| ==> IsSpace(s[k])
    ensures r != [] ==> !IsSpace(r[0]) && !IsSpace(r[|r| - 1])
    ensures r == [] <==> forall k :: 0 <= k < |s| ==> IsSpace(s[k])
  {
    var i := LeadingSpace(s);
    if i == |s| then []
    else
      var t := TrailingSpace(s);
      s[i..|s| - t]
  }

  /** `posixpath.join(a, b)` for two components: an absolute `b` replaces `a`,
      otherwise the two are joined with one `/`. */
  function Join(a: string, b: string): (r: string)
    ensures EndsWith(r, b)
    ensures |b| <= |r|
    ensures |b| > 0 && b[0] == '/' ==> r == b
    ensures !(|b| > 0 && b[0] == '/') ==>
      |a| <= |r| && r[..|a|] == a && (|r| == |a| + |b| || (|r| == |a| + |b| + 1 && r[|a|] == '/'))
    ensures !(|b| > 0 && b[0] == '/') ==> (|r| == |a| + |b| <==> a == "" || a[|a| - 1] == '/')
  {
    if |b| > 0 && b[0] == '/' then b
    else if a == "" || a[|a| - 1] == '/' then a + b
    else a + "/" + b
  }

  /** `posixpath.basename(p)`: the part of `p` after its last `/`. */
  function BaseName(p: string): string
  {
    if p == [] || p[|p| - 1] == '/' then []
    else BaseName(p[..|p| - 1]) + [p[|p| - 1]]
  }

  /** A name without `/` placed after a directory prefix is its basename. */
  lemma {:induction false} BaseNameAfterSlash(x: string, b: string)
    requires x == [] || x[|x| - 1] == '/'
    requires forall k :: 0 <= k < |b| ==> b[k] != '/'
    ensures BaseName(x + b) == b
  {
    if b != [] {
      var init, last := b[..|b| - 1], b[|b| - 1];
      assert last != '/';
      assert forall k :: 0 <= k < |init| ==> init[k] != '/';
      BaseNameAfterSlash(x, init);
      assert x + b == (x + init) + [last];
      assert ((x + init) + [last])[..|x + init|] == x + init;
      assert b == init + [last];
    }
  }

  /** Joining a directory with a file name that has no `/` and taking the
      basename gives the file name back. */
  lemma JoinBaseName(a: string, b: string)
    requires forall k :: 0 <= k < |b| ==> b[k] != '/'
    ensures BaseName(Join(a, b)) == b
  {
    if a == "" || a[|a| - 1] == '/' {
      BaseNameAfterSlash(a, b);
    } else {
      BaseNameAfterSlash(a + "/", b);
      assert a + "/" + b == (a + "/") + b;
    }
  }

  /** The decimal digit for `d`. */
  function Digit(d: nat): char
    requires d < 10
  {
    "0123456789"[d]
  }

  /** Value of a decimal digit character. */
  function DigitValue(c: char): nat
    requires '0' <= c <= '9'
  {
    (c as int - '0' as int) as nat
  }

  /** Decimal rendering of `n`, as `f"{n}"` or `str(n)` gives it. */
  function NatToString(n: nat): (r: string)
    ensures |r| >= 1
    ensures forall k :: 0 <= k < |r| ==> '0' <= r[k] <= '9'
    ensures |r| > 1 ==> r[0] != '0'
  {
    if n < 10 then [Digit(n)] else NatToString(n / 10) + [Digit(n % 10)]
  }

  /** Value of a string of decimal digits (the reading `int(s)` gives). */
  function ParseDecimal(s: string): nat
    requires forall k :: 0 <= k < |s| ==> '0' <= s[k] <= '9'
  {
    if s == [] then 0 else ParseDecimal(s[..|s| - 1]) * 10 + DigitValue(s[|s| - 1])
  }

  /** Reading back the decimal rendering of `n` gives `n`. */
  lemma {:induction false} ParseNatToString(n: nat)
    ensures ParseDecimal(NatToString(n)) == n
  {
    var r := NatToString(n);
    if n < 10 {
      assert r[..0] == [];
    } else {
      ParseNatToString(n / 10);
      assert r[..|r| - 1] == NatToString(n / 10);
    }
  }

  /** Distinct numbers have distinct decimal renderings. */
  lemma NatToStringInjective(a: nat, b: nat)
    requires a != b
    ensures NatToString(a) != NatToString(b)
  {
    ParseNatToString(a);
    ParseNatToString(b);
  }

  /** `sep.join(parts)`. */
  function JoinWith(sep: string, parts: seq<string>): string
  {
    if parts == [] then ""
    else if |parts| == 1 then parts[0]
    else parts[0] + sep + JoinWith(sep, parts[1..])
  }

  /** Cutting the parts anywhere between two of them cuts the joined string
      at one separator: the parts appear in order, one `sep` between each
      neighbouring pair. */
  lemma {:induction false} JoinWithSplit(sep: string, parts: seq<string>, k: nat)
    requires 0 < k < |parts|
    ensures JoinWith(sep, parts) == JoinWith(sep, parts[..k]) + sep + JoinWith(sep, parts[k..])
  {
    if k > 1 {
      var tail := parts[1..];
      JoinWithSplit(sep, tail, k - 1);
      assert parts[..k][1..] == tail[..k - 1];
      assert tail[k - 1..] == parts[k..];
      assert parts[..k][0] == parts[0];
    }
  }
}
