/** The string handling the editor relies on: JavaScript's `String.prototype.trim`
    and the case-insensitive `/\.glb$/i` suffix test. */
module Text {

  /** The characters `trim` removes: ECMAScript's WhiteSpace and LineTerminator code points
      (tab, line feed, vertical tab, form feed, carriage return, space, no-break space,
      the space separators of category Zs, line and paragraph separator, byte order mark). */
  predicate IsTrimmable(c: char)
  {
    || c == '\t' || c == '\n' || c == '\U{B}' || c == '\U{C}' || c == '\r' || c == ' '
    || c == '\U{A0}' || c == '\U{1680}' || '\U{2000}' <= c <= '\U{200A}'
    || c == '\U{2028}' || c == '\U{2029}' || c == '\U{202F}' || c == '\U{205F}'
    || c == '\U{3000}' || c == '\U{FEFF}'
  }

  /** True when every character of `s` is removed by `trim`. */
  predicate AllTrimmable(s: string)
  {
    forall k :: 0 <= k < |s| ==> IsTrimmable(s[k])
  }

  /** True when the characters of `s` from index `lo` up to `hi` are all removed by `trim`. */
  predicate AllTrimmableIn(s: string, lo: int, hi: int)
  {
    forall k :: lo <= k < hi && 0 <= k < |s| ==> IsTrimmable(s[k])
  }

  /** The index of the first character at or after `i` that `trim` keeps, or `|s|`. */
  function SkipFrom(s: string, i: nat): (n: nat)
    requires i <= |s|
    ensures i <= n <= |s|
    ensures AllTrimmableIn(s, i, n)
    ensures n < |s| ==> !IsTrimmable(s[n])
    decreases |s| - i
  {
    if i < |s| && IsTrimmable(s[i]) then SkipFrom(s, i + 1) else i
  }

  /** The index just past the last character before `j` and not before `lo` that `trim`
      keeps, or `lo`. */
  function SkipBack(s: string, lo: nat, j: nat): (n: nat)
    requires lo <= j <= |s|
    ensures lo <= n <= j
    ensures AllTrimmableIn(s, n, j)
    ensures n > lo ==> !IsTrimmable(s[n - 1])
    decreases j
  {
    if j > lo && IsTrimmable(s[j - 1]) then SkipBack(s, lo, j - 1) else j
  }

  /** The number of leading characters `trim` removes. */
  function Lead(s: string): (n: nat)
    ensures n <= |s|
    ensures AllTrimmableIn(s, 0, n)
    ensures n < |s| ==> !IsTrimmable(s[n])
  {
    SkipFrom(s, 0)
  }

  /** `s.trim()`: `s` without its maximal trimmable prefix and suffix. */
  function Trim(s: string): (r: string)
    ensures Lead(s) + |r| <= |s|
    ensures r == s[Lead(s)..Lead(s) + |r|]
    ensures AllTrimmableIn(s, 0, Lead(s)) && AllTrimmableIn(s, Lead(s) + |r|, |s|)
    ensures |r| == 0 <==> AllTrimmable(s)
    ensures |r| > 0 ==> !IsTrimmable(r[0]) && !IsTrimmable(r[|r| - 1])
  {
    var i := Lead(s);
    var j := SkipBack(s, i, |s|);
    assert j == i ==> AllTrimmable(s);
    s[i..j]
  }

  /** A string whose ends are not trimmable is left alone by `trim`. */
  lemma TrimKeepsTightString(s: string)
    requires |s| > 0 && !IsTrimmable(s[0]) && !IsTrimmable(s[|s| - 1])
    ensures Trim(s) == s
  {
    assert Lead(s) == 0;
    assert SkipBack(s, 0, |s|) == |s|;
  }

  /** Trimming twice is trimming once. */
  lemma TrimIdempotent(s: string)
    ensures Trim(Trim(s)) == Trim(s)
  {
    if |Trim(s)| > 0 {
      TrimKeepsTightString(Trim(s));
    }
  }

  /** ASCII lower-casing: the case folding a JavaScript regular expression with the `i`
      flag applies to the letters of `.glb` (no non-ASCII character folds onto them). */
  function LowerAscii(c: char): char
  {
    if 'A' <= c <= 'Z' then (c as int + 32) as char else c
  }

  /** The four-character extension `.glb`. */
  const GlbExtension: string := ".glb"

  /** `/\.glb$/i.test(s)`: `s` ends in `.glb`, the letters in either case. */
  predicate EndsWithGlb(s: string)
  {
    && |s| >= 4
    && s[|s| - 4] == '.'
    && LowerAscii(s[|s| - 3]) == 'g'
    && LowerAscii(s[|s| - 2]) == 'l'
    && LowerAscii(s[|s| - 1]) == 'b'
  }

  /** `s.replace(/\.glb$/i, '')`: drops one trailing `.glb` in any case. */
  function StripGlb(s: string): (r: string)
    ensures EndsWithGlb(s) ==> |r| == |s| - 4
    ensures !EndsWithGlb(s) ==> |r| == |s|
    ensures r == s[..|r|]
  {
    if EndsWithGlb(s) then s[..|s| - 4] else s
  }

  /** `StripGlb` undoes the appending of any spelling of `.glb`, exactly once. */
  lemma StripGlbUndoesSuffix(x: string, ext: string)
    requires |ext| == 4 && EndsWithGlb(ext)
    ensures StripGlb(x + ext) == x
  {
    assert (x + ext)[..|x|] == x;
  }

  /** The `.glb` test only looks at the last four characters. */
  lemma EndsWithGlbOfAppend(x: string, ext: string)
    requires |ext| >= 4
    ensures EndsWithGlb(x + ext) <==> EndsWithGlb(ext)
  {
    var s := x + ext;
    assert s[|s| - 4] == ext[|ext| - 4];
    assert s[|s| - 3] == ext[|ext| - 3];
    assert s[|s| - 2] == ext[|ext| - 2];
    assert s[|s| - 1] == ext[|ext| - 1];
  }
}
