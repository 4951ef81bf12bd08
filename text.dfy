/**
 * The handful of Python string operations the importer relies on:
 * `str.isspace`, `strip`/`lstrip`/`rstrip`, `in` on strings, `'\n'.join`
 * and slicing. Strings are sequences of Unicode scalar values, as Python's are.
 */
module Text {
  import opened Basics

  /** The characters for which Python's `str.isspace()` holds (and that `\s` matches). */
  predicate IsSpace(c: char)
  {
    || c == ' ' || c == '\t' || c == '\n' || c == '\r' || c == '\U{000B}' || c == '\U{000C}'
    || ('\U{001C}' <= c <= '\U{001F}') || c == '\U{0085}' || c == '\U{00A0}' || c == '\U{1680}'
    || ('\U{2000}' <= c <= '\U{200A}') || c == '\U{2028}' || c == '\U{2029}' || c == '\U{202F}'
    || c == '\U{205F}' || c == '\U{3000}'
  }

  /**
   * Every character of `s` is whitespace. Stated by recursion rather than a
   * quantifier so that the many `strip` calls of the parser stay cheap to reason
   * about; `AllSpaceAt` gives the pointwise reading.
   */
  predicate AllSpace(s: string)
  {
    s == [] || (IsSpace(s[0]) && AllSpace(s[1..]))
  }

  lemma {:induction false} AllSpaceAt(s: string)
    ensures AllSpace(s) <==> forall k :: 0 <= k < |s| ==> IsSpace(s[k])
  {
    if s != [] {
      AllSpaceAt(s[1..]);
      assert forall k :: 1 <= k < |s| ==> s[k] == s[1..][k - 1];
    }
  }

  lemma {:induction false} AllSpaceAppend(a: string, b: string)
    ensures AllSpace(a + b) <==> AllSpace(a) && AllSpace(b)
  {
    if a == [] {
      assert a + b == b;
    } else {
      AllSpaceAppend(a[1..], b);
      assert (a + b)[1..] == a[1..] + b;
    }
  }

  /** `s.lstrip(' ')`: drops leading space characters only (not tabs). */
  function LStripSpaces(s: string): (r: string)
    ensures |r| <= |s| && r == s[|s| - |r|..]
    ensures forall k :: 0 <= k < |s| - |r| ==> s[k] == ' '
    ensures r == [] || r[0] != ' '
  {
    if s != [] && s[0] == ' ' then LStripSpaces(s[1..]) else s
  }

  /** `s.lstrip()`: drops leading whitespace. */
  function LStrip(s: string): (r: string)
    ensures |r| <= |s| && r == s[|s| - |r|..]
    ensures AllSpace(s[..|s| - |r|])
    ensures r == [] || !IsSpace(r[0])
  {
    if s != [] && IsSpace(s[0]) then
      var r := LStrip(s[1..]);
      assert s[..|s| - |r|][1..] == s[1..][..|s| - 1 - |r|];
      r
    else s
  }

  /** `s.rstrip()`: drops trailing whitespace. */
  function RStrip(s: string): (r: string)
    ensures |r| <= |s| && r == s[..|r|]
    ensures AllSpace(s[|r|..])
    ensures r == [] || !IsSpace(r[|r| - 1])
  {
    if s != [] && IsSpace(s[|s| - 1]) then
      var r := RStrip(s[..|s| - 1]);
      AllSpaceAppend(s[|r|..|s| - 1], [s[|s| - 1]]);
      assert s[|r|..] == s[|r|..|s| - 1] + [s[|s| - 1]];
      r
    else s
  }

  /** `s.strip()`: no whitespace left at either end. */
  function Strip(s: string): (r: string)
    ensures r == [] || (!IsSpace(r[0]) && !IsSpace(r[|r| - 1]))
    ensures |r| <= |s|
  {
    RStrip(LStrip(s))
  }

  /** `s.strip()` is empty exactly when `s` is all whitespace. */
  lemma StripEmptyIffAllSpace(s: string)
    ensures Strip(s) == [] <==> AllSpace(s)
  {
    var l := LStrip(s);
    var p := s[..|s| - |l|];
    assert s == p + l;
    AllSpaceAppend(p, l);
    if l == [] {
      assert Strip(s) == [];
    } else {
      assert !AllSpace(l);
      assert Strip(s) != [];
    }
  }

  /** `s.rstrip('\n\r')`: drops the line terminator `readlines()` leaves on a line. */
  function RStripBreaks(s: string): (r: string)
    ensures |r| <= |s| && r == s[..|r|]
    ensures forall k :: |r| <= k < |s| ==> s[k] == '\n' || s[k] == '\r'
    ensures r == [] || (r[|r| - 1] != '\n' && r[|r| - 1] != '\r')
  {
    if s != [] && (s[|s| - 1] == '\n' || s[|s| - 1] == '\r') then RStripBreaks(s[..|s| - 1]) else s
  }

  /** `pat` occurs in `s` starting at index `i`. */
  predicate OccursAt(s: string, pat: string, i: nat)
  {
    i + |pat| <= |s| && s[i..i + |pat|] == pat
  }

  /** A concatenation occurs at `i` exactly when its two halves occur one after the other. */
  lemma OccursAtConcat(s: string, a: string, b: string, i: nat)
    ensures OccursAt(s, a + b, i) <==> OccursAt(s, a, i) && OccursAt(s, b, i + |a|)
  {
    if OccursAt(s, a + b, i) {
      assert s[i..i + |a|] == (a + b)[..|a|] == a;
      assert s[i + |a|..i + |a| + |b|] == (a + b)[|a|..] == b;
    }
    if OccursAt(s, a, i) && OccursAt(s, b, i + |a|) {
      assert s[i..i + |a + b|] == s[i..i + |a|] + s[i + |a|..i + |a| + |b|];
    }
  }

  /** `s.find(pat, start)`: the leftmost occurrence of `pat` at or after `start`. */
  function IndexOf(s: string, pat: string, start: nat): (r: Option<nat>)
    decreases |s| - start
    ensures r.Some? ==> start <= r.value && OccursAt(s, pat, r.value)
    ensures forall k :: start <= k && (r.None? || k < r.value) ==> !OccursAt(s, pat, k)
  {
    if start + |pat| > |s| then None
    else if OccursAt(s, pat, start) then Some(start)
    else IndexOf(s, pat, start + 1)
  }

  /** Python's `pat in s`. */
  predicate Contains(s: string, pat: string)
  {
    IndexOf(s, pat, 0).Some?
  }

  /** `s[:n]`. */
  function Prefix(s: string, n: nat): (r: string)
    ensures |r| == if |s| < n then |s| else n
    ensures r == s[..|r|]
  {
    if |s| <= n then s else s[..n]
  }

  /** `'\n'.join(parts)`. */
  function JoinLines(parts: seq<string>): string
  {
    if parts == [] then ""
    else if |parts| == 1 then parts[0]
    else parts[0] + "\n" + JoinLines(parts[1..])
  }
}
