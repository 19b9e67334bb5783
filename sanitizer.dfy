/**
 * The filename cleaner of `_process_media_file`:
 *
 *   re.sub(r'.*(1tamilblasters|1tamilmv|tamilblasters|torrenting).*?-\s*', '', name,
 *          flags=re.IGNORECASE).strip()
 *
 * modelled as the regular-expression engine evaluates it. `.` matches any
 * character except a newline, `\s` matches what `str.isspace` accepts, and
 * `re.sub` replaces every non-overlapping match, scanning left to right.
 * Tried at a start position, the greedy `.*` backs off from the end of the
 * line, so the match ends at the first `-` after the RIGHTMOST marker of the
 * line that still has a `-` after it, plus the whitespace that follows.
 */
module Sanitizer {
  import opened Wrappers
  import opened Text

  /**
   * A character of the name against a lower-case letter or digit of the
   * pattern under IGNORECASE: simple lower-case equality, plus the extra
   * equivalences Python's engine adds (dotless i, long s).
   */
  predicate MatchesIgnoreCase(c: char, x: char)
  {
    || FoldChar(c) == x
    || (x == 'i' && (c == '\U{130}' || c == '\U{131}'))
    || (x == 's' && c == '\U{17F}')
  }

  /** The marker occurs at `p`, letter by letter under IGNORECASE. */
  predicate MarkerAt(s: string, p: nat, marker: string)
  {
    p + |marker| <= |s| && forall k :: 0 <= k < |marker| ==> MatchesIgnoreCase(s[p + k], marker[k])
  }

  /** The alternatives of the pattern's group, in the order the engine tries them. */
  const Markers: seq<string> := ["1tamilblasters", "1tamilmv", "tamilblasters", "torrenting"]

  /** The length of the first of `Markers[k..]` that matches at `p`; 0 if none does. */
  function MarkerLenFrom(s: string, p: nat, k: nat): nat
    decreases |Markers| - k
  {
    if k >= |Markers| then 0
    else if MarkerAt(s, p, Markers[k]) then |Markers[k]|
    else MarkerLenFrom(s, p, k + 1)
  }

  /** The length of the marker the alternation matches at `p`; 0 if none. */
  function MarkerLen(s: string, p: nat): nat
  {
    MarkerLenFrom(s, p, 0)
  }

  /**
   * No two alternatives match at the same position: the first two differ in
   * letter 6 (`b`/`m`), the `1`-alternatives and the others in letter 0, and
   * the last two in letter 1 (`a`/`o`).
   */
  lemma MarkersExclusive(s: string, p: nat, j: nat, k: nat)
    requires j < k < |Markers| && MarkerAt(s, p, Markers[j])
    ensures !MarkerAt(s, p, Markers[k])
  {
    var x := if j == 0 && k == 1 then 6 else if j <= 1 then 0 else 1;
    assert MatchesIgnoreCase(s[p + x], Markers[j][x]);
    assert !MatchesIgnoreCase(s[p + x], Markers[k][x]);
  }

  /**
   * The alternation matches at most one alternative at a position, so taking
   * the first one that matches is what the engine's backtracking into the
   * group also finds: whichever alternative matches, its length is `MarkerLen`.
   */
  lemma MarkerLenIsTheMatch(s: string, p: nat, k: nat)
    requires k < |Markers| && MarkerAt(s, p, Markers[k])
    ensures MarkerLen(s, p) == |Markers[k]|
  {
    var j := 0;
    while j < k
      invariant j <= k
      invariant MarkerLenFrom(s, p, 0) == MarkerLenFrom(s, p, j)
    {
      if MarkerAt(s, p, Markers[j]) {
        MarkersExclusive(s, p, j, k);
      }
      j := j + 1;
    }
  }

  /** A non-zero `MarkerLen` is the length of an alternative that matches there. */
  lemma {:induction false} MarkerLenFromMatches(s: string, p: nat, k: nat)
    requires MarkerLenFrom(s, p, k) > 0
    ensures exists j :: k <= j < |Markers| && MarkerAt(s, p, Markers[j]) && MarkerLenFrom(s, p, k) == |Markers[j]|
    decreases |Markers| - k
  {
    if !MarkerAt(s, p, Markers[k]) {
      MarkerLenFromMatches(s, p, k + 1);
    }
  }

  /** `MarkerLen` is non-zero exactly where some alternative matches, and then it is that alternative's length. */
  lemma MarkerLenMatches(s: string)
    ensures forall p: nat :: MarkerLen(s, p) > 0 <==> exists k :: 0 <= k < |Markers| && MarkerAt(s, p, Markers[k])
    ensures forall p: nat, k :: 0 <= k < |Markers| && MarkerAt(s, p, Markers[k]) ==> MarkerLen(s, p) == |Markers[k]|
  {
    forall p: nat, k | 0 <= k < |Markers| && MarkerAt(s, p, Markers[k])
      ensures MarkerLen(s, p) == |Markers[k]|
    {
      MarkerLenIsTheMatch(s, p, k);
    }
    forall p: nat | MarkerLen(s, p) > 0
      ensures exists k :: 0 <= k < |Markers| && MarkerAt(s, p, Markers[k])
    {
      MarkerLenFromMatches(s, p, 0);
    }
  }

  /**
   * The length of the marker matched at each position of `s`: non-zero
   * exactly where an alternative of the group matches, and then the length of
   * that alternative.
   */
  function Hits(s: string): (h: seq<nat>)
    ensures |h| == |s|
    ensures forall p :: 0 <= p < |s| ==> h[p] == MarkerLen(s, p)
    ensures forall p :: 0 <= p < |s| ==> (h[p] > 0 <==> exists k :: 0 <= k < |Markers| && MarkerAt(s, p, Markers[k]))
    ensures forall p, k :: 0 <= p < |s| && 0 <= k < |Markers| && MarkerAt(s, p, Markers[k]) ==> h[p] == |Markers[k]|
  {
    MarkerLenMatches(s);
    seq(|s|, p requires 0 <= p < |s| => MarkerLen(s, p))
  }

  /** A marker occurrence at `p` followed later, at `d`, by a `-`. */
  predicate Tagged(s: string, p: nat, d: nat)
  {
    MarkerLen(s, p) > 0 && p + MarkerLen(s, p) <= d < |s| && s[d] == '-'
  }

  /** `Tagged`, read off the table `h` of marker lengths. */
  predicate TaggedDash(s: string, h: seq<nat>, p: nat, d: nat)
  {
    p < |h| && h[p] > 0 && p + h[p] <= d < |s| && s[d] == '-'
  }

  lemma TaggedInTable(s: string, p: nat, d: nat)
    ensures Tagged(s, p, d) <==> TaggedDash(s, Hits(s), p, d)
  {
  }

  lemma UntaggedInTable(s: string, lo: nat)
    requires forall p: nat, d: nat :: lo <= p ==> !Tagged(s, p, d)
    ensures forall p: nat, d: nat :: lo <= p ==> !TaggedDash(s, Hits(s), p, d)
  {
    forall p: nat, d: nat | lo <= p ensures !TaggedDash(s, Hits(s), p, d) {
      TaggedInTable(s, p, d);
    }
  }

  lemma UntaggedFromTable(s: string, lo: nat)
    requires forall p: nat, d: nat :: lo <= p ==> !TaggedDash(s, Hits(s), p, d)
    ensures forall p: nat, d: nat :: lo <= p ==> !Tagged(s, p, d)
  {
    forall p: nat, d: nat | lo <= p ensures !Tagged(s, p, d) {
      TaggedInTable(s, p, d);
    }
  }

  /** The end of the line that contains position `i`: the next newline, or the end of the name. */
  function LineEnd(s: string, i: nat): (e: nat)
    requires i <= |s|
    ensures i <= e <= |s|
    ensures forall k :: i <= k < e ==> s[k] != '\n'
    ensures e < |s| ==> s[e] == '\n'
    decreases |s| - i
  {
    if i == |s| || s[i] == '\n' then i else LineEnd(s, i + 1)
  }

  /** The first `-` in `s[lo..hi]`, or `hi` when there is none. */
  function FirstDash(s: string, lo: nat, hi: nat): (d: nat)
    requires lo <= hi <= |s|
    ensures lo <= d <= hi
    ensures d < hi ==> s[d] == '-'
    ensures forall k :: lo <= k < d ==> s[k] != '-'
    decreases hi - lo
  {
    if lo == hi || s[lo] == '-' then lo else FirstDash(s, lo + 1, hi)
  }

  /** The first index at or after `k` that is not whitespace. */
  function SkipSpace(s: string, k: nat): (q: nat)
    requires k <= |s|
    ensures k <= q <= |s|
    ensures forall i :: k <= i < q ==> IsSpace(s[i])
    ensures q < |s| ==> !IsSpace(s[q])
    decreases |s| - k
  {
    if k < |s| && IsSpace(s[k]) then SkipSpace(s, k + 1) else k
  }

  datatype Tag = Tag(marker: nat, dash: nat)

  /**
   * The backtracking of `.*(markers).*?-` from a start position `i` on the
   * line ending at `e`: marker positions below `j` are tried from the right,
   * and the first `-` after the marker completes the match.
   */
  function TagDash(s: string, h: seq<nat>, i: nat, j: nat, e: nat): (r: Option<Tag>)
    requires |h| == |s| && i <= j <= e <= |s|
    ensures r.Some? ==> i <= r.value.marker < j && r.value.marker <= r.value.dash < e
    decreases j - i
  {
    if j == i then None
    else
      var p := j - 1;
      if h[p] > 0 && p + h[p] <= e && FirstDash(s, p + h[p], e) < e then Some(Tag(p, FirstDash(s, p + h[p], e)))
      else TagDash(s, h, i, p, e)
  }

  /**
   * What the backtracking finds: the rightmost marker below `j` with a `-`
   * after it on the line, and the first such `-`; or nothing when no marker
   * there has one.
   */
  lemma {:induction false} TagDashFindsRightmost(s: string, h: seq<nat>, i: nat, j: nat, e: nat)
    requires |h| == |s| && i <= j <= e <= |s|
    ensures var r := TagDash(s, h, i, j, e);
      r.Some? ==> var p, d := r.value.marker, r.value.dash;
      && TaggedDash(s, h, p, d)
      && (forall k :: p + h[p] <= k < d ==> s[k] != '-')
      && (forall p': nat, d': nat :: p < p' < j && d' < e ==> !TaggedDash(s, h, p', d'))
    ensures TagDash(s, h, i, j, e).None? ==>
      forall p: nat, d: nat :: i <= p < j && d < e ==> !TaggedDash(s, h, p, d)
    decreases j - i
  {
    if j > i {
      var p := j - 1;
      if !(h[p] > 0 && p + h[p] <= e && FirstDash(s, p + h[p], e) < e) {
        TagDashFindsRightmost(s, h, i, p, e);
      }
    }
  }

  /** Backtracking finds nothing where no marker has a `-` after it. */
  lemma {:induction false} TagDashUntagged(s: string, h: seq<nat>, i: nat, j: nat, e: nat)
    requires |h| == |s| && i <= j <= e <= |s|
    requires forall p: nat, d: nat :: i <= p ==> !TaggedDash(s, h, p, d)
    ensures TagDash(s, h, i, j, e).None?
    decreases j - i
  {
    if j > i {
      var p := j - 1;
      if h[p] > 0 && p + h[p] <= e {
        assert !TaggedDash(s, h, p, FirstDash(s, p + h[p], e));
      }
      TagDashUntagged(s, h, i, p, e);
    }
  }

  /**
   * Backtracking from `j` stops at the marker `p` when no marker between them
   * has a `-` after it on the line, and takes the first `-` after `p`.
   */
  lemma {:induction false} TagDashFindsTag(s: string, h: seq<nat>, i: nat, j: nat, e: nat, p: nat, d: nat)
    requires |h| == |s| && i <= p < j <= e <= |s| && d < e
    requires TaggedDash(s, h, p, d)
    requires forall k :: p + h[p] <= k < d ==> s[k] != '-'
    requires forall p': nat, d': nat :: p < p' < j && d' < e ==> !TaggedDash(s, h, p', d')
    ensures TagDash(s, h, i, j, e) == Some(Tag(p, d))
    decreases j - i
  {
    var p' := j - 1;
    if p' == p {
      assert FirstDash(s, p + h[p], e) == d;
    } else {
      if h[p'] > 0 && p' + h[p'] <= e {
        var d' := FirstDash(s, p' + h[p'], e);
        assert d' < e ==> !TaggedDash(s, h, p', d');
      }
      TagDashFindsTag(s, h, i, p', e, p, d);
    }
  }

  /** `re.sub(pattern, '', s)` applied from position `i` on. */
  function Strike(s: string, h: seq<nat>, i: nat): string
    requires |h| == |s| && i <= |s|
    decreases |s| - i
  {
    if i == |s| then []
    else
      var e := LineEnd(s, i);
      match TagDash(s, h, i, e, e)
      case Some(t) => Strike(s, h, SkipSpace(s, t.dash + 1))
      case None => [s[i]] + Strike(s, h, i + 1)
  }

  /** The cleaned link name. */
  function Clean(name: string): string
  {
    Strip(Strike(name, Hits(name), 0))
  }

  /** Where no marker has a `-` after it, the substitution keeps every character. */
  lemma {:induction false} StrikeUntagged(s: string, h: seq<nat>, i: nat)
    requires |h| == |s| && i <= |s|
    requires forall p: nat, d: nat :: i <= p ==> !TaggedDash(s, h, p, d)
    ensures Strike(s, h, i) == s[i..]
    decreases |s| - i
  {
    if i < |s| {
      var e := LineEnd(s, i);
      TagDashUntagged(s, h, i, e, e);
      assert Strike(s, h, i) == [s[i]] + Strike(s, h, i + 1);
      StrikeUntagged(s, h, i + 1);
      assert s[i..] == [s[i]] + s[i + 1..];
    }
  }

  /** Where a match starts at `i`, the substitution resumes after it. */
  lemma StrikeSkipsMatch(s: string, h: seq<nat>, i: nat)
    requires |h| == |s| && i < |s| && TagDash(s, h, i, LineEnd(s, i), LineEnd(s, i)).Some?
    ensures Strike(s, h, i) == Strike(s, h, SkipSpace(s, TagDash(s, h, i, LineEnd(s, i), LineEnd(s, i)).value.dash + 1))
  {
  }

  /** Where no match starts at `i`, the substitution keeps `s[i]`. */
  lemma StrikeKeepsUnmatched(s: string, h: seq<nat>, i: nat)
    requires |h| == |s| && i < |s| && TagDash(s, h, i, LineEnd(s, i), LineEnd(s, i)).None?
    ensures Strike(s, h, i) == [s[i]] + Strike(s, h, i + 1)
  {
  }

  /** The substitution only deletes: a character absent from the input is absent from the result. */
  lemma {:induction false} StrikeKeepsInputChars(s: string, h: seq<nat>, i: nat, c: char)
    requires |h| == |s| && i <= |s|
    requires forall k :: i <= k < |s| ==> s[k] != c
    ensures c !in Strike(s, h, i)
    decreases |s| - i, 1
  {
    if i < |s| {
      if TagDash(s, h, i, LineEnd(s, i), LineEnd(s, i)).Some? {
        SkipKeepsInputChars(s, h, i, c);
      } else {
        StepKeepsInputChars(s, h, i, c);
      }
    }
  }

  /** `StrikeKeepsInputChars` where a match starts at `i`. */
  lemma {:induction false} SkipKeepsInputChars(s: string, h: seq<nat>, i: nat, c: char)
    requires |h| == |s| && i < |s| && TagDash(s, h, i, LineEnd(s, i), LineEnd(s, i)).Some?
    requires forall k :: i <= k < |s| ==> s[k] != c
    ensures c !in Strike(s, h, i)
    decreases |s| - i, 0
  {
    StrikeSkipsMatch(s, h, i);
    StrikeKeepsInputChars(s, h, SkipSpace(s, TagDash(s, h, i, LineEnd(s, i), LineEnd(s, i)).value.dash + 1), c);
  }

  /** `StrikeKeepsInputChars` where no match starts at `i`. */
  lemma {:induction false} StepKeepsInputChars(s: string, h: seq<nat>, i: nat, c: char)
    requires |h| == |s| && i < |s| && TagDash(s, h, i, LineEnd(s, i), LineEnd(s, i)).None?
    requires forall k :: i <= k < |s| ==> s[k] != c
    ensures c !in Strike(s, h, i)
    decreases |s| - i, 0
  {
    StrikeKeepsUnmatched(s, h, i);
    StrikeKeepsInputChars(s, h, i + 1, c);
    assert c !in [s[i]] + Strike(s, h, i + 1);
  }

  /** A match found at `i` ends before a last character that is neither `-` nor whitespace. */
  lemma MatchEndsBeforeLast(s: string, h: seq<nat>, i: nat)
    requires |h| == |s| && i < |s| && TagDash(s, h, i, LineEnd(s, i), LineEnd(s, i)).Some?
    requires s[|s| - 1] != '-' && !IsSpace(s[|s| - 1])
    ensures SkipSpace(s, TagDash(s, h, i, LineEnd(s, i), LineEnd(s, i)).value.dash + 1) < |s|
  {
    var e := LineEnd(s, i);
    TagDashFindsRightmost(s, h, i, e, e);
  }

  /** A last character that is neither `-` nor whitespace is never removed: no match can end after it. */
  lemma {:induction false} StrikeKeepsLastChar(s: string, h: seq<nat>, i: nat)
    requires |h| == |s| && i < |s|
    requires s[|s| - 1] != '-' && !IsSpace(s[|s| - 1])
    ensures LastIs(Strike(s, h, i), s[|s| - 1])
    decreases |s| - i, 1
  {
    if TagDash(s, h, i, LineEnd(s, i), LineEnd(s, i)).Some? {
      SkipKeepsLastChar(s, h, i);
    } else {
      StepKeepsLastChar(s, h, i);
    }
  }

  /** `StrikeKeepsLastChar` where a match starts at `i`. */
  lemma {:induction false} SkipKeepsLastChar(s: string, h: seq<nat>, i: nat)
    requires |h| == |s| && i < |s| && TagDash(s, h, i, LineEnd(s, i), LineEnd(s, i)).Some?
    requires s[|s| - 1] != '-' && !IsSpace(s[|s| - 1])
    ensures LastIs(Strike(s, h, i), s[|s| - 1])
    decreases |s| - i, 0
  {
    MatchEndsBeforeLast(s, h, i);
    StrikeSkipsMatch(s, h, i);
    StrikeKeepsLastChar(s, h, SkipSpace(s, TagDash(s, h, i, LineEnd(s, i), LineEnd(s, i)).value.dash + 1));
  }

  /** `StrikeKeepsLastChar` where no match starts at `i`. */
  lemma {:induction false} StepKeepsLastChar(s: string, h: seq<nat>, i: nat)
    requires |h| == |s| && i < |s| && TagDash(s, h, i, LineEnd(s, i), LineEnd(s, i)).None?
    requires s[|s| - 1] != '-' && !IsSpace(s[|s| - 1])
    ensures LastIs(Strike(s, h, i), s[|s| - 1])
    decreases |s| - i, 0
  {
    StrikeKeepsUnmatched(s, h, i);
    if i + 1 < |s| {
      StrikeKeepsLastChar(s, h, i + 1);
      LastIsAfter(s[i], Strike(s, h, i + 1), s[|s| - 1]);
    } else {
      assert Strike(s, h, i + 1) == [];
    }
  }

  /**
   * On a single line, the substitution removes everything through the first
   * `-` after the last marker that has a `-` after it, and the whitespace after it.
   */
  lemma StrikeSingleLine(s: string, h: seq<nat>, p: nat, d: nat)
    requires |h| == |s| && '\n' !in s
    requires TaggedDash(s, h, p, d)
    requires forall k :: p + h[p] <= k < d ==> s[k] != '-'
    requires forall p': nat, d': nat :: p < p' ==> !TaggedDash(s, h, p', d')
    ensures Strike(s, h, 0) == s[SkipSpace(s, d + 1)..]
  {
    var n := |s|;
    assert LineEnd(s, 0) == n;
    TagDashFindsTag(s, h, 0, n, n, p, d);
    var q := SkipSpace(s, d + 1);
    assert Strike(s, h, 0) == Strike(s, h, q);
    StrikeUntagged(s, h, q);
  }

  /** If no marker occurrence is followed later by a `-`, cleaning only strips whitespace. */
  lemma CleanUntagged(name: string)
    requires forall p: nat, d: nat :: !Tagged(name, p, d)
    ensures Clean(name) == Strip(name)
  {
    UntaggedInTable(name, 0);
    StrikeUntagged(name, Hits(name), 0);
    assert name[0..] == name;
  }

  /** `StrikeSingleLine`, stated with the markers the name actually holds. */
  lemma StrikeThroughLastTag(name: string, p: nat, d: nat)
    requires '\n' !in name
    requires Tagged(name, p, d)
    requires forall k :: p + MarkerLen(name, p) <= k < d ==> name[k] != '-'
    requires forall p': nat, d': nat :: p < p' ==> !Tagged(name, p', d')
    ensures Strike(name, Hits(name), 0) == name[SkipSpace(name, d + 1)..]
  {
    UntaggedInTable(name, p + 1);
    TaggedInTable(name, p, d);
    StrikeSingleLine(name, Hits(name), p, d);
  }

  /**
   * On a single-line name, cleaning removes everything through the first `-`
   * after the last marker occurrence that has a `-` after it.
   */
  lemma CleanSingleLine(name: string, p: nat, d: nat)
    requires '\n' !in name
    requires Tagged(name, p, d)
    requires forall k :: p + MarkerLen(name, p) <= k < d ==> name[k] != '-'
    requires forall p': nat, d': nat :: p < p' ==> !Tagged(name, p', d')
    ensures Clean(name) == Strip(name[d + 1..])
  {
    StrikeThroughLastTag(name, p, d);
    StripAfterSpaces(name, d + 1, SkipSpace(name, d + 1));
  }

  /** On a single-line name the cleaned name is a whitespace-stripped suffix of the name. */
  lemma CleanIsStrippedSuffix(name: string)
    requires '\n' !in name
    ensures exists k :: 0 <= k <= |name| && Clean(name) == Strip(name[k..])
  {
    var n, h := |name|, Hits(name);
    assert LineEnd(name, 0) == n;
    TagDashFindsRightmost(name, h, 0, n, n);
    match TagDash(name, h, 0, n, n)
    case None =>
      UntaggedFromTable(name, 0);
      CleanUntagged(name);
      assert name[0..] == name;
    case Some(t) =>
      UntaggedFromTable(name, t.marker + 1);
      TaggedInTable(name, t.marker, t.dash);
      CleanSingleLine(name, t.marker, t.dash);
  }

  /** A name whose last character is neither `-` nor whitespace never cleans to the empty name. */
  lemma CleanNotEmpty(name: string)
    requires name != [] && name[|name| - 1] != '-' && !IsSpace(name[|name| - 1])
    ensures Clean(name) != []
  {
    var x := Strike(name, Hits(name), 0);
    assert LastIs(x, name[|name| - 1]) by { StrikeKeepsLastChar(name, Hits(name), 0); }
    StripKeepsLastNonSpace(x);
  }

  /** A cleaned basename is still a single path component. */
  lemma CleanKeepsSlashFree(name: string)
    requires '/' !in name
    ensures '/' !in Clean(name)
  {
    var x := Strike(name, Hits(name), 0);
    StrikeKeepsInputChars(name, Hits(name), 0, '/');
    StripKeepsAbsentChar(x, '/');
  }

  /** No marker starts at `p` when its first letters fit none of them. */
  lemma NoMarkerAt(s: string, p: nat)
    requires p < |s| && s[p] != '1'
    requires s[p] == 't' || s[p] == 'T' ==> p + 1 < |s| && s[p + 1] !in "aAoO"
    ensures MarkerLen(s, p) == 0
  {
    assert !MarkerAt(s, p, Markers[0]) by { assert !MatchesIgnoreCase(s[p], Markers[0][0]); }
    assert !MarkerAt(s, p, Markers[1]) by { assert !MatchesIgnoreCase(s[p], Markers[1][0]); }
    assert !MarkerAt(s, p, Markers[2]) by {
      if MatchesIgnoreCase(s[p], Markers[2][0]) { assert !MatchesIgnoreCase(s[p + 1], Markers[2][1]); }
    }
    assert !MarkerAt(s, p, Markers[3]) by {
      if MatchesIgnoreCase(s[p], Markers[3][0]) { assert !MatchesIgnoreCase(s[p + 1], Markers[3][1]); }
    }
    assert MarkerLenFrom(s, p, 3) == 0;
    assert MarkerLenFrom(s, p, 2) == 0;
    assert MarkerLenFrom(s, p, 1) == 0;
  }

  /**
   * A single-line name made of a part holding a marker, one `-`, and the rest:
   * cleaning leaves the rest, stripped.
   */
  lemma CleanTaggedPrefix(prefix: string, rest: string, p: nat)
    requires '\n' !in prefix + "-" + rest
    requires '-' !in prefix && '-' !in rest
    requires 0 < MarkerLen(prefix + "-" + rest, p) && p + MarkerLen(prefix + "-" + rest, p) <= |prefix|
    ensures Clean(prefix + "-" + rest) == Strip(rest)
  {
    var name := prefix + "-" + rest;
    var n, h, d := |name|, Hits(name), |prefix|;
    assert Tagged(name, p, d);
    assert LineEnd(name, 0) == n;
    TagDashFindsRightmost(name, h, 0, n, n);
    TaggedInTable(name, p, d);
    var t := TagDash(name, h, 0, n, n).value;
    forall i | 0 <= i < n && i != d ensures name[i] != '-' {
      if i < d { assert name[i] == prefix[i]; } else { assert name[i] == rest[i - d - 1]; }
    }
    assert t.dash == d;
    UntaggedFromTable(name, t.marker + 1);
    TaggedInTable(name, t.marker, t.dash);
    CleanSingleLine(name, t.marker, t.dash);
    assert name[d + 1..] == rest;
  }

  /** Every alternative is at most 14 letters long, so what follows position `p + 14` cannot change the match at `p`. */
  lemma MarkerLenInPrefix(prefix: string, suffix: string, p: nat)
    requires p + 14 <= |prefix|
    ensures MarkerLen(prefix + suffix, p) == MarkerLen(prefix, p)
  {
    var s := prefix + suffix;
    forall k | 0 <= k < |Markers| ensures MarkerAt(s, p, Markers[k]) == MarkerAt(prefix, p, Markers[k]) {
      assert |Markers[k]| <= 14;
    }
    assert MarkerLenFrom(s, p, 3) == MarkerLenFrom(prefix, p, 3);
    assert MarkerLenFrom(s, p, 2) == MarkerLenFrom(prefix, p, 2);
    assert MarkerLenFrom(s, p, 1) == MarkerLenFrom(prefix, p, 1);
  }

  /** An example: a release site's name in front of ` - ` and the release name. */
  const SiteTag: string := "xyz.1tamilblasters.com "
  const Release: string := "Movie.Name.2020.mkv"

  /** In the site tag, `tamilblasters` (13 letters) matches at position 5; `1tamilblasters` starts at 4. */
  lemma SiteTagHasMarker(tag: string)
    requires tag == SiteTag
    ensures MarkerAt(tag, 5, Markers[2])
  {
    var m := Markers[2];
    assert |m| == 13;
    forall k | 0 <= k < 13 ensures MatchesIgnoreCase(tag[5 + k], m[k]) {
      assert tag[5 + k] == m[k];
    }
  }

  lemma SiteTagMarker(tag: string)
    requires tag == SiteTag
    ensures MarkerLen(tag, 5) == 13
  {
    SiteTagHasMarker(tag);
    assert !MarkerAt(tag, 5, Markers[0]) by { assert !MatchesIgnoreCase(tag[5], Markers[0][0]); }
    assert !MarkerAt(tag, 5, Markers[1]) by { assert !MatchesIgnoreCase(tag[5], Markers[1][0]); }
  }

  lemma SiteTagPlain(tag: string)
    requires tag == SiteTag
    ensures '-' !in tag && '\n' !in tag && |tag| == 23
  {
  }

  lemma ReleasePlain(rest: string)
    requires rest == " " + Release
    ensures '-' !in rest && '\n' !in rest && Strip(rest) == Release
  {
    assert LStrip(rest) == Release;
    assert Release[|Release| - 1] == 'v';
  }

  /** A name tagged with a release site before ` - `: the tag and the separator are removed. */
  lemma CleanSiteTaggedName(tag: string, rest: string)
    requires tag == SiteTag && rest == " " + Release
    ensures Clean(tag + "-" + rest) == Release
  {
    SiteTagPlain(tag);
    ReleasePlain(rest);
    SiteTagMarker(tag);
    MarkerLenInPrefix(tag, "-" + rest, 5);
    assert tag + "-" + rest == tag + ("-" + rest);
    CleanTaggedPrefix(tag, rest, 5);
  }

  /** Where `torrenting` is spelled out, the alternation matches it, all ten letters. */
  lemma TorrentingAt(s: string, p: nat)
    requires p + 10 <= |s| && s[p..p + 10] == Markers[3]
    ensures MarkerLen(s, p) == 10
  {
    var m := Markers[3];
    forall k | 0 <= k < 10 ensures MatchesIgnoreCase(s[p + k], m[k]) {
      assert s[p + k] == s[p..p + 10][k];
    }
    assert s[p] == 't' && s[p + 1] == 'o';
    assert !MarkerAt(s, p, Markers[0]) by { assert !MatchesIgnoreCase(s[p], Markers[0][0]); }
    assert !MarkerAt(s, p, Markers[1]) by { assert !MatchesIgnoreCase(s[p], Markers[1][0]); }
    assert !MarkerAt(s, p, Markers[2]) by { assert !MatchesIgnoreCase(s[p + 1], Markers[2][1]); }
  }

  /**
   * On a line whose only `-` follows a marker at its start `i`, the match runs
   * from `i` through that `-`, and striking resumes after it.
   */
  lemma StrikeLineFrom(s: string, h: seq<nat>, i: nat, d: nat)
    requires |h| == |s| && i < |s| && h[i] > 0 && i + h[i] <= d < LineEnd(s, i) && s[d] == '-'
    requires forall k :: i <= k < LineEnd(s, i) && k != d ==> s[k] != '-'
    ensures Strike(s, h, i) == Strike(s, h, SkipSpace(s, d + 1))
  {
    var e := LineEnd(s, i);
    TagDashFindsRightmost(s, h, i, e, e);
    assert TaggedDash(s, h, i, d);
    assert TagDash(s, h, i, e, e).value.dash == d;
  }

  /** A character with no `-` after it on its line stays: no match can start there. */
  lemma StrikeKeepsDashless(s: string, h: seq<nat>, i: nat)
    requires |h| == |s| && i < |s|
    requires forall k :: i <= k < LineEnd(s, i) ==> s[k] != '-'
    ensures Strike(s, h, i) == [s[i]] + Strike(s, h, i + 1)
  {
    var e := LineEnd(s, i);
    assert TagDash(s, h, i, e, e).None? by {
      TagDashFindsRightmost(s, h, i, e, e);
    }
  }

  /**
   * A line made of a ten-letter marker, a `-` and one letter `c` keeps only
   * `c`: the marker and the `-` are the match.
   */
  lemma StrikeTaggedLetter(s: string, h: seq<nat>, i: nat, c: char)
    requires |h| == |s| && i + 12 <= |s| && h[i] == 10
    requires s[i + 10] == '-' && s[i + 11] == c && c != '-' && c != '\n' && !IsSpace(c)
    requires forall k :: i <= k < i + 10 ==> s[k] != '-' && s[k] != '\n'
    requires i + 12 == |s| || s[i + 12] == '\n'
    ensures Strike(s, h, i) == [c] + Strike(s, h, i + 12)
  {
    assert LineEnd(s, i) == i + 12;
    StrikeLineFrom(s, h, i, i + 10);
    assert SkipSpace(s, i + 11) == i + 11;
    assert LineEnd(s, i + 11) == i + 12;
    StrikeKeepsDashless(s, h, i + 11);
  }

  /**
   * The letters of two lines, each ten marker letters, a `-` and one letter
   * (`a`, then `b`): no marker letter is a `-`, a newline, whitespace or `a`.
   */
  predicate TwoTaggedLetters(name: string)
  {
    && |name| == 25
    && name[10] == '-' && name[11] == 'a' && name[12] == '\n' && name[23] == '-' && name[24] == 'b'
    && (forall k :: 0 <= k < 10 ==> name[k] != '-' && name[k] != '\n' && name[k] != 'a' && !IsSpace(name[k]))
    && (forall k :: 13 <= k < 23 ==> name[k] != '-' && name[k] != '\n' && name[k] != 'a' && !IsSpace(name[k]))
  }

  /** The letters of two such lines, with a marker found at the start of each. */
  predicate TwoTaggedLines(name: string, h: seq<nat>)
  {
    TwoTaggedLetters(name) && |h| == 25 && h[0] == 10 && h[13] == 10
  }

  /** `torrenting-a`, a newline, `torrenting-b` is spelled that way. */
  lemma TwoLinesLetters(m: string, name: string)
    requires m == Markers[3] && name == m + "-a\n" + m + "-b"
    ensures TwoTaggedLetters(name) && name[0..10] == m && name[13..23] == m
  {
    assert forall c :: c in m ==> c != '-' && c != '\n' && c != 'a' && !IsSpace(c);
    forall k | 0 <= k < 10 ensures name[k] == m[k] && name[13 + k] == m[k] { }
  }

  /** `torrenting-a`, a newline, `torrenting-b` is two tagged lines. */
  lemma TwoLinesShape(m: string, name: string)
    requires m == Markers[3] && name == m + "-a\n" + m + "-b"
    ensures TwoTaggedLines(name, Hits(name))
  {
    TwoLinesLetters(m, name);
    TorrentingAt(name, 0);
    TorrentingAt(name, 13);
  }

  /** The first line of `TwoTaggedLines` keeps only its `a`. */
  lemma StrikeFirstTaggedLine(name: string, h: seq<nat>)
    requires TwoTaggedLines(name, h)
    ensures Strike(name, h, 0) == "a" + Strike(name, h, 12)
  {
    StrikeTaggedLetter(name, h, 0, 'a');
  }

  /** The newline between the lines is kept. */
  lemma StrikeBetweenTaggedLines(name: string, h: seq<nat>)
    requires TwoTaggedLines(name, h)
    ensures Strike(name, h, 12) == "\n" + Strike(name, h, 13)
  {
    assert LineEnd(name, 12) == 12;
    StrikeKeepsDashless(name, h, 12);
  }

  /** The second line keeps only its `b`. */
  lemma StrikeSecondTaggedLine(name: string, h: seq<nat>)
    requires TwoTaggedLines(name, h)
    ensures Strike(name, h, 13) == "b"
  {
    StrikeTaggedLetter(name, h, 13, 'b');
  }

  /** Each of the two lines keeps only its letter: the substitution leaves `a`, the newline, `b`. */
  lemma StrikeTwoTaggedLines(name: string, h: seq<nat>)
    requires TwoTaggedLines(name, h)
    ensures Strike(name, h, 0) == "a\nb"
  {
    StrikeFirstTaggedLine(name, h);
    StrikeBetweenTaggedLines(name, h);
    StrikeSecondTaggedLine(name, h);
  }

  /** No suffix of such a name strips to `a`, newline, `b`. */
  lemma TwoTaggedLinesNoSuffix(name: string, h: seq<nat>)
    requires TwoTaggedLines(name, h)
    ensures forall k :: 0 <= k <= |name| ==> Strip(name[k..]) != "a\nb"
  {
    forall k | 0 <= k <= |name| ensures Strip(name[k..]) != "a\nb" {
      if k < 12 {
        assert !IsSpace(name[k]);
        StripUnpadded(name[k..]);
      } else {
        assert 'a' !in name[k..];
        StripKeepsAbsentChar(name[k..], 'a');
      }
    }
  }

  /**
   * Across lines the cleaned name need not be a stripped suffix: the match on
   * each line is removed, so `torrenting-a` + newline + `torrenting-b` cleans
   * to `a` + newline + `b`, which no suffix of it strips to.
   */
  lemma CleanTwoLinesNotSuffix(m: string, name: string)
    requires m == Markers[3] && name == m + "-a\n" + m + "-b"
    ensures Clean(name) == "a\nb"
    ensures forall k :: 0 <= k <= |name| ==> Clean(name) != Strip(name[k..])
  {
    TwoLinesShape(m, name);
    StrikeTwoTaggedLines(name, Hits(name));
    StripUnpadded("a\nb");
    TwoTaggedLinesNoSuffix(name, Hits(name));
  }
}
