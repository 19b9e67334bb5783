/**
 * Character and string helpers for the pieces of Python's `str` and
 * `os.path` that the watcher relies on: `str.lower`, `str.endswith`,
 * substring `in`, `str.isspace`/`str.strip`, `os.path.basename` and
 * `os.path.join`.
 */
module Text {

  /**
   * Lower-casing of one character, as far as it can produce an ASCII letter:
   * ASCII upper-case letters and the KELVIN SIGN (whose lower case is `k`).
   * Every other character is left as it is. `str.lower` changes more of them,
   * but none into an ASCII letter except U+0130, which becomes `i` followed by
   * a combining dot: a string ending in it never ends with an ASCII suffix, so
   * tests against ASCII suffixes agree.
   */
  function FoldChar(c: char): char
  {
    if 'A' <= c <= 'Z' then (c as int + 32) as char
    else if c == '\U{212A}' then 'k'
    else c
  }

  /**
   * `str.lower()` as ASCII tests see it: no ASCII capital is left, and a
   * character changes only when it is an ASCII capital or the KELVIN SIGN.
   */
  function Lower(s: string): (r: string)
    ensures |r| == |s|
    ensures forall i :: 0 <= i < |s| ==> r[i] == FoldChar(s[i])
    ensures forall i :: 0 <= i < |r| ==> !('A' <= r[i] <= 'Z')
    ensures forall i :: 0 <= i < |s| && r[i] != s[i] ==> 'A' <= s[i] <= 'Z' || s[i] == '\U{212A}'
  {
    seq(|s|, i requires 0 <= i < |s| => FoldChar(s[i]))
  }

  /** Lower-casing twice is lower-casing once. */
  lemma LowerIdempotent(s: string)
    ensures Lower(Lower(s)) == Lower(s)
  {
    var r := Lower(s);
    forall i | 0 <= i < |r| ensures Lower(r)[i] == r[i] {
      assert !('A' <= r[i] <= 'Z') && r[i] != '\U{212A}';
    }
  }

  predicate EndsWith(s: string, suffix: string)
  {
    |suffix| <= |s| && s[|s| - |suffix|..] == suffix
  }

  predicate OccursAt(s: string, t: string, i: nat)
  {
    i + |t| <= |s| && s[i..i + |t|] == t
  }

  /** Python's `t in s` for strings. */
  predicate Contains(s: string, t: string)
  {
    exists i | 0 <= i <= |s| - |t| :: OccursAt(s, t, i)
  }

  /** The characters for which Python's `str.isspace` holds (and which `\s` matches). */
  predicate IsSpace(c: char)
  {
    || '\t' <= c <= '\r'
    || '\U{1C}' <= c <= ' '
    || c == '\U{85}' || c == '\U{A0}' || c == '\U{1680}'
    || '\U{2000}' <= c <= '\U{200A}'
    || c == '\U{2028}' || c == '\U{2029}' || c == '\U{202F}'
    || c == '\U{205F}' || c == '\U{3000}'
  }

  function LStrip(s: string): string
  {
    if s != [] && IsSpace(s[0]) then LStrip(s[1..]) else s
  }

  function RStrip(s: string): string
  {
    if s != [] && IsSpace(s[|s| - 1]) then RStrip(s[..|s| - 1]) else s
  }

  /** Python's `str.strip()` with no argument. */
  function Strip(s: string): string
  {
    RStrip(LStrip(s))
  }

  lemma {:induction false} LStripDropsLeadingSpace(s: string)
    ensures var r := LStrip(s);
      && |r| <= |s| && r == s[|s| - |r|..]
      && (r != [] ==> !IsSpace(r[0]))
      && (forall i :: 0 <= i < |s| - |r| ==> IsSpace(s[i]))
  {
    if s != [] && IsSpace(s[0]) {
      var t := s[1..];
      LStripDropsLeadingSpace(t);
      var r := LStrip(t);
      assert LStrip(s) == r;
      assert t[|t| - |r|..] == s[|s| - |r|..];
      forall i | 0 <= i < |s| - |r| ensures IsSpace(s[i]) {
        if i > 0 { assert s[i] == t[i - 1]; }
      }
    }
  }

  lemma {:induction false} RStripDropsTrailingSpace(s: string)
    ensures var r := RStrip(s);
      && |r| <= |s| && r == s[..|r|]
      && (r != [] ==> !IsSpace(r[|r| - 1]))
      && (forall i :: |r| <= i < |s| ==> IsSpace(s[i]))
  {
    if s != [] && IsSpace(s[|s| - 1]) {
      var t := s[..|s| - 1];
      RStripDropsTrailingSpace(t);
      var r := RStrip(t);
      assert RStrip(s) == r;
      assert t[..|r|] == s[..|r|];
      forall i | |r| <= i < |s| ensures IsSpace(s[i]) {
        if i < |s| - 1 { assert s[i] == t[i]; }
      }
    }
  }

  /** `str.strip()` keeps a contiguous block of the input and removes only whitespace around it. */
  lemma StripIsTrimmedSlice(s: string)
    ensures exists a, b :: 0 <= a <= b <= |s| && Strip(s) == s[a..b]
                           && (forall i :: 0 <= i < a ==> IsSpace(s[i]))
                           && (forall i :: b <= i < |s| ==> IsSpace(s[i]))
    ensures Strip(s) != [] ==> !IsSpace(Strip(s)[0]) && !IsSpace(Strip(s)[|Strip(s)| - 1])
  {
    var l := LStrip(s);
    LStripDropsLeadingSpace(s);
    RStripDropsTrailingSpace(l);
    var a := |s| - |l|;
    var b := a + |RStrip(l)|;
    assert Strip(s) == s[a..b];
  }

  /** `str.strip()` only deletes: a character absent from the input is absent from the result. */
  lemma StripKeepsAbsentChar(s: string, c: char)
    requires c !in s
    ensures c !in Strip(s)
  {
    var l := LStrip(s);
    LStripDropsLeadingSpace(s);
    var r := RStrip(l);
    RStripDropsTrailingSpace(l);
    forall i | 0 <= i < |r| ensures r[i] != c {
      assert r[i] == l[i] == s[|s| - |l| + i];
    }
  }

  /** `s` is not empty and its last character is `c`. */
  predicate LastIs(s: string, c: char)
  {
    s != [] && s[|s| - 1] == c
  }

  /** Putting a character in front keeps the last one. */
  lemma LastIsAfter(a: char, s: string, c: char)
    requires LastIs(s, c)
    ensures LastIs([a] + s, c)
  {
  }

  /** `str.strip()` keeps a final character that is not whitespace. */
  lemma StripKeepsLastNonSpace(s: string)
    requires s != [] && !IsSpace(s[|s| - 1])
    ensures LastIs(Strip(s), s[|s| - 1])
  {
    var l := LStrip(s);
    LStripDropsLeadingSpace(s);
    assert l != [] && l[|l| - 1] == s[|s| - 1];
    assert RStrip(l) == l;
  }

  /** A string that neither starts nor ends with whitespace is its own `strip()`. */
  lemma StripUnpadded(s: string)
    requires s != [] && !IsSpace(s[0]) && !IsSpace(s[|s| - 1])
    ensures Strip(s) == s
  {
  }

  /** Whitespace in front of a suffix makes no difference to `str.strip()`. */
  lemma {:induction false} StripAfterSpaces(s: string, a: nat, b: nat)
    requires a <= b <= |s|
    requires forall i :: a <= i < b ==> IsSpace(s[i])
    ensures Strip(s[b..]) == Strip(s[a..])
    decreases b - a
  {
    if a < b {
      StripAfterSpaces(s, a + 1, b);
      assert LStrip(s[a..]) == LStrip(s[a + 1..]) by {
        assert s[a..][0] == s[a];
        assert s[a..][1..] == s[a + 1..];
      }
    }
  }

  /** `os.path.basename`: everything after the last `/`. */
  function Basename(p: string): (r: string)
    ensures '/' !in r
    ensures |r| <= |p| && r == p[|p| - |r|..]
    ensures |r| < |p| ==> p[|p| - |r| - 1] == '/'
  {
    if p == [] || p[|p| - 1] == '/' then []
    else Basename(p[..|p| - 1]) + [p[|p| - 1]]
  }

  /** A path that does not end with `/` has a non-empty basename ending with the path's last character. */
  lemma BasenameKeepsLastChar(p: string)
    requires p != [] && p[|p| - 1] != '/'
    ensures LastIs(Basename(p), p[|p| - 1])
  {
  }

  /** `os.path.join` of two components, without its absolute-component rule. */
  function Join(dir: string, name: string): string
  {
    dir + "/" + name
  }
}
