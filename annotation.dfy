/**
 * The annotation extractor of slidder: `slidderpath_regex.findall(desc)` for the one
 * fixed pattern
 *
 *     path=([^\s]*\.(?:png|jpg|jpeg|gif|PNG|JPG|JPEG|GIF))
 *
 * written as a scanner rather than a regular-expression engine. The scanner looks for
 * the literal `path=` from left to right; after it, `[^\s]*` greedily takes the whole
 * run of non-whitespace characters and then gives characters back one at a time
 * (`Backtrack`) until a `.` followed by one of the extensions (tried in the order the
 * pattern lists them, `FirstAlternative`) matches. The capture is the text between
 * `path=` and the end of the extension, and scanning resumes after it.
 */
module Annotation {
  import opened Wrappers

  /** The literal that introduces an annotation. */
  const Marker: string := "path="

  /** The alternatives of `img_file_pattern`, in the order the pattern tries them. */
  const Extensions: seq<string> := ["png", "jpg", "jpeg", "gif", "PNG", "JPG", "JPEG", "GIF"]

  /**
   * Python's `\s` for a str pattern: the characters for which `str.isspace()` holds
   * (tab to carriage return, the four information separators, space, NEL, NBSP,
   * the Ogham space mark, the general-punctuation spaces and the ideographic space).
   */
  predicate IsSpace(c: char) {
    var n := c as int;
    (0x09 <= n <= 0x0D) || (0x1C <= n <= 0x20) || n == 0x85 || n == 0xA0 || n == 0x1680
    || (0x2000 <= n <= 0x200A) || n == 0x2028 || n == 0x2029 || n == 0x202F || n == 0x205F
    || n == 0x3000
  }

  predicate IsAsciiLetter(c: char) {
    ('a' <= c <= 'z') || ('A' <= c <= 'Z')
  }

  /** No character of `t` is whitespace. */
  predicate NoSpace(t: string) {
    forall i :: 0 <= i < |t| ==> !IsSpace(t[i])
  }

  predicate HasSuffix(t: string, w: string) {
    |w| <= |t| && t[|t| - |w|..] == w
  }

  /** `t` ends in `.` followed by one of the eight extensions, spelled exactly as listed. */
  predicate EndsWithImageExt(t: string) {
    exists x :: 0 <= x < |Extensions| && HasSuffix(t, "." + Extensions[x])
  }

  /** `s[j..m]` ends in `.` and an extension: a text the capture group can match from `j`. */
  predicate CapturesTo(s: string, j: nat, m: nat) {
    j <= m <= |s| && EndsWithImageExt(s[j..m])
  }

  /** `w` occurs in `s` at position `i` and ends no later than `k`. */
  predicate LiteralAt(s: string, i: nat, k: nat, w: string) {
    i + |w| <= k <= |s| && s[i..i + |w|] == w
  }

  predicate MarkerAt(s: string, i: nat) {
    LiteralAt(s, i, |s|, Marker)
  }

  /** The end of the maximal run of non-whitespace characters that starts at `j`. */
  function RunEnd(s: string, j: nat): (k: nat)
    requires j <= |s|
    ensures j <= k <= |s|
    ensures forall i :: j <= i < k ==> !IsSpace(s[i])
    ensures k < |s| ==> IsSpace(s[k])
    decreases |s| - j
  {
    if j == |s| || IsSpace(s[j]) then j else RunEnd(s, j + 1)
  }

  /**
   * The index of the first alternative among `Extensions[n..]` that occurs at `i`
   * and ends by `k`: the alternation `(?:png|jpg|...)` tried left to right.
   */
  function FirstAlternative(s: string, i: nat, k: nat, n: nat): (r: Option<nat>)
    requires n <= |Extensions|
    ensures r.Some? ==> n <= r.value < |Extensions|
    decreases |Extensions| - n
  {
    if n == |Extensions| then None
    else if LiteralAt(s, i, k, Extensions[n]) then Some(n)
    else FirstAlternative(s, i, k, n + 1)
  }

  /** Where `\.(?:png|...)` ends when tried at position `p`, inside a run that ends at `k`. */
  function DotExtAt(s: string, p: nat, k: nat): (r: Option<nat>)
    requires p < k <= |s|
  {
    if s[p] != '.' then None
    else match FirstAlternative(s, p + 1, k, 0)
      case Some(x) => Some(p + 1 + |Extensions[x]|)
      case None => None
  }

  /** `\.(?:...)` matches at none of the positions `lo` to `hi - 1`. */
  predicate NoDotExtIn(s: string, lo: nat, hi: nat, k: nat)
    requires hi <= k <= |s|
  {
    forall q :: lo <= q < hi ==> DotExtAt(s, q, k).None?
  }

  /**
   * The greedy `[^\s]*` giving characters back: the dot positions `p - 1`, `p - 2`, ..., `j`
   * are tried in turn, and the first at which `\.(?:...)` matches is returned with the
   * end of the match.
   */
  function Backtrack(s: string, j: nat, k: nat, p: nat): (r: Option<(nat, nat)>)
    requires j <= p <= k <= |s|
    ensures r.Some? ==> j <= r.value.0 < p
    decreases p
  {
    if p == j then None
    else
      var d := DotExtAt(s, p - 1, k);
      if d.Some? then Some((p - 1, d.value)) else Backtrack(s, j, k, p - 1)
  }

  /** The alternative the alternation picks does occur at `i`. */
  lemma {:induction false} AlternativeOccurs(s: string, i: nat, k: nat, n: nat)
    requires n <= |Extensions|
    ensures FirstAlternative(s, i, k, n).Some? ==>
      LiteralAt(s, i, k, Extensions[FirstAlternative(s, i, k, n).value])
    decreases |Extensions| - n
  {
    if n < |Extensions| && !LiteralAt(s, i, k, Extensions[n]) {
      AlternativeOccurs(s, i, k, n + 1);
    }
  }

  /** When some alternative from `n` on occurs at `i`, the alternation succeeds. */
  lemma {:induction false} AlternativeFound(s: string, i: nat, k: nat, n: nat, x: nat)
    requires n <= x < |Extensions|
    requires LiteralAt(s, i, k, Extensions[x])
    ensures FirstAlternative(s, i, k, n).Some?
    decreases x - n
  {
    if n < x && !LiteralAt(s, i, k, Extensions[n]) {
      AlternativeFound(s, i, k, n + 1, x);
    }
  }

  /** What backtracking finds is a match of `\.(?:...)`, and none lies to its right. */
  lemma {:induction false} BacktrackFound(s: string, j: nat, k: nat, p: nat)
    requires j <= p <= k <= |s|
    requires Backtrack(s, j, k, p).Some?
    ensures DotExtAt(s, Backtrack(s, j, k, p).value.0, k) == Some(Backtrack(s, j, k, p).value.1)
    ensures NoDotExtIn(s, Backtrack(s, j, k, p).value.0 + 1, p, k)
    decreases p
  {
    if DotExtAt(s, p - 1, k).None? {
      BacktrackFound(s, j, k, p - 1);
    }
  }

  /** When backtracking finds nothing, `\.(?:...)` matches nowhere between `j` and `p`. */
  lemma {:induction false} BacktrackNone(s: string, j: nat, k: nat, p: nat)
    requires j <= p <= k <= |s|
    requires Backtrack(s, j, k, p).None?
    ensures NoDotExtIn(s, j, p, k)
    decreases p
  {
    if p > j {
      BacktrackNone(s, j, k, p - 1);
    }
  }

  /** Every extension is spelled with at least three ASCII letters. */
  lemma ExtensionLetters(x: nat)
    requires x < |Extensions|
    ensures 3 <= |Extensions[x]|
    ensures forall c :: 0 <= c < |Extensions[x]| ==> IsAsciiLetter(Extensions[x][c])
  {
  }

  /** No two extensions share their first three letters. */
  lemma ExtensionPrefixesDistinct(x: nat, y: nat)
    requires x < |Extensions| && y < |Extensions|
    requires 3 <= |Extensions[x]| && 3 <= |Extensions[y]|
    requires Extensions[x][0] == Extensions[y][0] && Extensions[x][2] == Extensions[y][2]
    ensures x == y
  {
  }

  /** At most one alternative can occur at a given position: none is a prefix of another. */
  lemma AlternativesExclusive(s: string, i: nat, k: nat, x: nat, y: nat)
    requires x < |Extensions| && y < |Extensions|
    requires LiteralAt(s, i, k, Extensions[x]) && LiteralAt(s, i, k, Extensions[y])
    ensures x == y
  {
    ExtensionLetters(x);
    ExtensionLetters(y);
    assert Extensions[x][0] == s[i] == Extensions[y][0];
    assert Extensions[x][2] == s[i + 2] == Extensions[y][2];
    ExtensionPrefixesDistinct(x, y);
  }

  /** A text `s[j..m]` whose part from `p` on is `.` and an extension ends with an image extension. */
  lemma DotThenAlternative(s: string, j: nat, p: nat, m: nat, x: nat)
    requires j <= p < m <= |s| && x < |Extensions|
    requires s[p] == '.' && s[p + 1..m] == Extensions[x]
    ensures CapturesTo(s, j, m)
  {
    var t, e := s[j..m], Extensions[x];
    assert t[p - j..] == s[p..m] == [s[p]] + s[p + 1..m];
    assert HasSuffix(t, "." + e);
  }

  /** The letters of an extension found after `p` hold no dot. */
  lemma NoDotInAlternative(s: string, p: nat, m: nat, x: nat)
    requires p < m <= |s| && x < |Extensions|
    requires s[p + 1..m] == Extensions[x]
    ensures forall q :: p < q < m ==> s[q] != '.'
  {
    ExtensionLetters(x);
    forall q | p < q < m
      ensures s[q] != '.'
    {
      assert s[q] == Extensions[x][q - p - 1];
    }
  }

  /** A successful `\.(?:...)` at `p` ends a text that ends with an image extension, and has no dot after `p`. */
  lemma DotExtSound(s: string, j: nat, p: nat, k: nat, m: nat)
    requires j <= p < k <= |s|
    requires DotExtAt(s, p, k) == Some(m)
    ensures s[p] == '.' && p + 1 < m <= k
    ensures CapturesTo(s, j, m)
    ensures forall q :: p < q < m ==> s[q] != '.'
  {
    var x := FirstAlternative(s, p + 1, k, 0).value;
    AlternativeOccurs(s, p + 1, k, 0);
    ExtensionLetters(x);
    assert s[p + 1..m] == Extensions[x];
    DotThenAlternative(s, j, p, m, x);
    NoDotInAlternative(s, p, m, x);
  }

  /** A text `s[j..m]` ending with `.` and `e` has its dot at `m - |e| - 1` and `e` right after it. */
  lemma SuffixInPlace(s: string, j: nat, m: nat, e: string)
    requires j <= m <= |s|
    requires HasSuffix(s[j..m], "." + e)
    ensures j <= m - |e| - 1 && s[m - |e| - 1] == '.' && s[m - |e|..m] == e
  {
    var p := m - |e| - 1;
    assert s[p..m] == s[j..m][|s[j..m]| - |"." + e|..];
    assert s[p + 1..m] == s[p..m][1..];
  }

  /** If alternative `x` follows a dot at `p` and ends at `m`, then `\.(?:...)` tried at `p` ends at `m`. */
  lemma DotExtAtAlternative(s: string, p: nat, m: nat, k: nat, x: nat)
    requires p < m <= k <= |s| && x < |Extensions|
    requires p + 1 + |Extensions[x]| == m
    requires s[p] == '.' && s[p + 1..m] == Extensions[x]
    ensures DotExtAt(s, p, k) == Some(m)
  {
    assert LiteralAt(s, p + 1, k, Extensions[x]);
    AlternativeFound(s, p + 1, k, 0, x);
    var alt := FirstAlternative(s, p + 1, k, 0);
    AlternativeOccurs(s, p + 1, k, 0);
    AlternativesExclusive(s, p + 1, k, x, alt.value);
  }

  /** Every text ending with an image extension is found by `\.(?:...)` tried at its dot. */
  lemma DotExtComplete(s: string, j: nat, m: nat, k: nat) returns (p: nat)
    requires j <= m <= k <= |s|
    requires CapturesTo(s, j, m)
    ensures j <= p < m && DotExtAt(s, p, k) == Some(m)
  {
    var x :| 0 <= x < |Extensions| && HasSuffix(s[j..m], "." + Extensions[x]);
    SuffixInPlace(s, j, m, Extensions[x]);
    p := m - |Extensions[x]| - 1;
    DotExtAtAlternative(s, p, m, k, x);
  }

  /**
   * `DotExtComplete` in the form of an implication, so that proofs by contradiction
   * can use it without a branch whose assumptions already clash.
   */
  lemma DotExtFindsCapture(s: string, j: nat, m: nat, k: nat)
    requires j <= m <= k <= |s|
    ensures CapturesTo(s, j, m) ==> exists p :: j <= p < m && DotExtAt(s, p, k) == Some(m)
  {
    if CapturesTo(s, j, m) {
      var p := DotExtComplete(s, j, m, k);
    }
  }

  /**
   * A match of `\.(?:...)` at `p` that ends at `m` holds no dot after `p`: the last
   * clause of `DotExtSound` as an implication, for the same reason as `DotExtFindsCapture`.
   */
  lemma DotsAfter(s: string, p: nat, k: nat, m: nat)
    requires p < k <= |s|
    ensures DotExtAt(s, p, k) == Some(m) ==> forall q :: p < q < m ==> s[q] != '.'
  {
    if DotExtAt(s, p, k) == Some(m) {
      DotExtSound(s, p, p, k, m);
    }
  }

  /**
   * No text longer than the one found at the right-most successful dot `p` ends with an
   * image extension: its dot would lie right of `p` (where nothing matched), at `p`
   * (where the alternatives exclude each other), or left of `p` (and then `p`, inside
   * its extension, could not be a dot).
   */
  lemma NothingLonger(s: string, j: nat, k: nat, p: nat, m: nat, m': nat)
    requires j <= p < k <= |s|
    requires DotExtAt(s, p, k) == Some(m)
    requires NoDotExtIn(s, p + 1, k, k)
    requires m < m' <= k
    ensures !CapturesTo(s, j, m')
  {
    DotExtSound(s, j, p, k, m);
    forall p' | j <= p' < m'
      ensures DotExtAt(s, p', k) != Some(m')
    {
      if p' < p {
        DotsAfter(s, p', k, m');
      }
    }
    DotExtFindsCapture(s, j, m', k);
  }

  /** The capture the first successful backtracking step finds is the longest one in the run. */
  lemma FoundIsLongest(s: string, j: nat, k: nat, p: nat, m: nat)
    requires j <= k <= |s|
    requires Backtrack(s, j, k, k) == Some((p, m))
    ensures j < m <= k && CapturesTo(s, j, m)
    ensures forall m' :: m < m' <= k ==> !CapturesTo(s, j, m')
  {
    BacktrackFound(s, j, k, k);
    DotExtSound(s, j, p, k, m);
    forall m' | m < m' <= k
      ensures !CapturesTo(s, j, m')
    {
      NothingLonger(s, j, k, p, m, m');
    }
  }

  /** When backtracking finds nothing, no prefix of the run ends with an image extension. */
  lemma NothingFound(s: string, j: nat, k: nat)
    requires j <= k <= |s|
    requires Backtrack(s, j, k, k).None?
    ensures forall m :: j <= m <= k ==> !CapturesTo(s, j, m)
  {
    BacktrackNone(s, j, k, k);
    forall m | j <= m <= k
      ensures !CapturesTo(s, j, m)
    {
      DotExtFindsCapture(s, j, m, k);
    }
  }

  /**
   * The capture the pattern takes from the run `s[j..k]`: the longest prefix of the run
   * that ends in `.` and one of the extensions, or nothing when no prefix does.
   */
  function LongestCapture(s: string, j: nat, k: nat): (r: Option<nat>)
    requires j <= k <= |s|
    ensures r.Some? ==> j < r.value <= k && CapturesTo(s, j, r.value)
    ensures r.Some? ==> forall m :: r.value < m <= k ==> !CapturesTo(s, j, m)
    ensures r.None? ==> forall m :: j <= m <= k ==> !CapturesTo(s, j, m)
  {
    var b := Backtrack(s, j, k, k);
    if b.Some? then
      FoundIsLongest(s, j, k, b.value.0, b.value.1);
      Some(b.value.1)
    else
      NothingFound(s, j, k);
      None
  }

  /** `findall` from position `i` on: every capture is whitespace-free and ends with an image extension. */
  function FindAllFrom(s: string, i: nat): (r: seq<string>)
    requires i <= |s|
    ensures forall t :: 0 <= t < |r| ==> NoSpace(r[t]) && EndsWithImageExt(r[t])
    decreases |s| - i
  {
    if !MarkerAt(s, i) then
      if i == |s| then [] else FindAllFrom(s, i + 1)
    else
      var j := i + |Marker|;
      var k := RunEnd(s, j);
      var c := LongestCapture(s, j, k);
      if c.Some? then
        assert NoSpace(s[j..c.value]);
        [s[j..c.value]] + FindAllFrom(s, c.value)
      else
        FindAllFrom(s, i + 1)
  }

  /** `slidderpath_regex.findall(s)`. */
  function FindAll(s: string): (r: seq<string>)
    ensures forall t :: 0 <= t < |r| ==> NoSpace(r[t]) && EndsWithImageExt(r[t])
  {
    FindAllFrom(s, 0)
  }

  /** The text `path=<name>.<extension>` of a well-formed annotation. */
  function Annotated(name: string, x: nat): string
    requires x < |Extensions|
  {
    Marker + name + "." + Extensions[x]
  }

  lemma SliceLeft(x: string, y: string, i: nat, j: nat)
    requires i <= j <= |x|
    ensures (x + y)[i..j] == x[i..j]
  {
  }

  lemma SliceRight(x: string, y: string)
    ensures (x + y)[|x|..|x| + |y|] == y
  {
  }

  /** Positions without the marker contribute nothing: scanning skips over them. */
  lemma {:induction false} SkipUnmarked(s: string, i: nat, j: nat)
    requires i <= j <= |s|
    requires forall q :: i <= q < j ==> !MarkerAt(s, q)
    ensures FindAllFrom(s, i) == FindAllFrom(s, j)
    decreases j - i
  {
    if i < j {
      SkipUnmarked(s, i + 1, j);
    }
  }

  /** A text without the marker annotates nothing. */
  lemma NoAnnotation(s: string)
    requires forall q :: !MarkerAt(s, q)
    ensures FindAll(s) == []
  {
    SkipUnmarked(s, 0, |s|);
  }

  /** A run that itself ends with an image extension is captured whole. */
  lemma WholeRunCaptured(s: string, j: nat, k: nat)
    requires j <= k <= |s|
    requires CapturesTo(s, j, k)
    ensures LongestCapture(s, j, k) == Some(k)
  {
  }

  /** One step of the scan at a marker whose run holds a capture. */
  lemma CaptureStep(s: string, i: nat, m: nat)
    requires MarkerAt(s, i)
    requires LongestCapture(s, i + |Marker|, RunEnd(s, i + |Marker|)) == Some(m)
    ensures FindAllFrom(s, i) == [s[i + |Marker|..m]] + FindAllFrom(s, m)
  {
  }

  /** A marker whose whole run ends with an image extension yields that run. */
  lemma WholeRunStep(s: string, i: nat, e: nat)
    requires MarkerAt(s, i) && RunEnd(s, i + |Marker|) == e
    requires CapturesTo(s, i + |Marker|, e)
    ensures FindAllFrom(s, i) == [s[i + |Marker|..e]] + FindAllFrom(s, e)
  {
    WholeRunCaptured(s, i + |Marker|, e);
    CaptureStep(s, i, e);
  }

  /** A run of non-whitespace from `j` to `e` followed by whitespace or the end ends at `e`. */
  lemma {:induction false} RunEndAt(s: string, j: nat, e: nat)
    requires j <= e <= |s|
    requires forall q :: j <= q < e ==> !IsSpace(s[q])
    requires e == |s| || IsSpace(s[e])
    ensures RunEnd(s, j) == e
    decreases e - j
  {
    if j < e {
      RunEndAt(s, j + 1, e);
    }
  }

  /** The path of an annotation whose name holds no whitespace holds none either. */
  lemma PathNoSpace(name: string, x: nat)
    requires x < |Extensions| && NoSpace(name)
    ensures NoSpace(name + "." + Extensions[x])
  {
    var path := name + "." + Extensions[x];
    ExtensionLetters(x);
    forall c | 0 <= c < |path|
      ensures !IsSpace(path[c])
    {
      if c > |name| {
        assert path[c] == Extensions[x][c - |name| - 1];
      }
    }
  }

  /** The run after the marker of a well-formed annotation at `i` is the annotation's path. */
  lemma AnnotationRun(s: string, i: nat, name: string, x: nat)
    requires x < |Extensions|
    requires i + |Annotated(name, x)| <= |s| && s[i..i + |Annotated(name, x)|] == Annotated(name, x)
    requires NoSpace(name)
    requires i + |Annotated(name, x)| == |s| || IsSpace(s[i + |Annotated(name, x)|])
    ensures MarkerAt(s, i) && RunEnd(s, i + |Marker|) == i + |Annotated(name, x)|
    ensures s[i + |Marker|..i + |Annotated(name, x)|] == name + "." + Extensions[x]
  {
    var a := Annotated(name, x);
    var capture := name + "." + Extensions[x];
    var j, e := i + |Marker|, i + |a|;
    assert a == Marker + capture;
    assert s[i..j] == a[..|Marker|] == Marker;
    assert s[j..e] == a[|Marker|..] == capture;
    PathNoSpace(name, x);
    forall q | j <= q < e
      ensures !IsSpace(s[q])
    {
      assert s[q] == capture[q - j];
    }
    RunEndAt(s, j, e);
  }

  /**
   * A well-formed annotation at `i` whose path contains no whitespace and which is
   * followed by whitespace or the end of the text is captured whole, and scanning
   * resumes after it.
   */
  lemma AnnotationAt(s: string, i: nat, name: string, x: nat)
    requires x < |Extensions|
    requires i + |Annotated(name, x)| <= |s| && s[i..i + |Annotated(name, x)|] == Annotated(name, x)
    requires NoSpace(name)
    requires i + |Annotated(name, x)| == |s| || IsSpace(s[i + |Annotated(name, x)|])
    ensures FindAllFrom(s, i) == [name + "." + Extensions[x]] + FindAllFrom(s, i + |Annotated(name, x)|)
  {
    var j, e := i + |Marker|, i + |Annotated(name, x)|;
    var capture := name + "." + Extensions[x];
    AnnotationRun(s, i, name, x);
    assert s[j + |name|] == '.' && s[j + |name| + 1..e] == Extensions[x] by {
      assert s[j + |name|..e] == s[j..e][|name|..];
    }
    DotThenAlternative(s, j, j + |name|, e, x);
    WholeRunStep(s, i, e);
  }

  /** An annotation at `i` with no `path=` after it is the last thing the scan finds. */
  lemma LastAnnotation(s: string, i: nat, name: string, x: nat)
    requires x < |Extensions|
    requires i + |Annotated(name, x)| <= |s| && s[i..i + |Annotated(name, x)|] == Annotated(name, x)
    requires NoSpace(name)
    requires i + |Annotated(name, x)| == |s| || IsSpace(s[i + |Annotated(name, x)|])
    requires forall q :: i + |Annotated(name, x)| <= q < |s| ==> !MarkerAt(s, q)
    ensures FindAllFrom(s, i) == [name + "." + Extensions[x]]
  {
    AnnotationAt(s, i, name, x);
    SkipUnmarked(s, i + |Annotated(name, x)|, |s|);
    assert FindAllFrom(s, |s|) == [];
  }

  /**
   * A description holding exactly one well-formed annotation, and no other `path=`,
   * yields exactly that annotation's path.
   */
  lemma SingleAnnotation(pre: string, name: string, x: nat, post: string)
    requires x < |Extensions|
    requires NoSpace(name)
    requires post == [] || IsSpace(post[0])
    requires forall q :: MarkerAt(pre + Annotated(name, x) + post, q) ==> q == |pre|
    ensures FindAll(pre + Annotated(name, x) + post) == [name + "." + Extensions[x]]
  {
    var s := pre + Annotated(name, x) + post;
    var e := |pre + Annotated(name, x)|;
    SkipUnmarked(s, 0, |pre|);
    SliceLeft(pre + Annotated(name, x), post, |pre|, e);
    SliceRight(pre, Annotated(name, x));
    if post != [] {
      assert s[e] == post[0];
    }
    LastAnnotation(s, |pre|, name, x);
  }

  /** From `e` on, the only annotation is the one at `i`. */
  lemma SkipToLast(s: string, e: nat, i: nat, name: string, x: nat)
    requires x < |Extensions| && e <= i
    requires i + |Annotated(name, x)| <= |s| && s[i..i + |Annotated(name, x)|] == Annotated(name, x)
    requires NoSpace(name)
    requires i + |Annotated(name, x)| == |s| || IsSpace(s[i + |Annotated(name, x)|])
    requires forall q :: e <= q < |s| && MarkerAt(s, q) ==> q == i
    ensures FindAllFrom(s, e) == [name + "." + Extensions[x]]
  {
    SkipUnmarked(s, e, i);
    LastAnnotation(s, i, name, x);
  }

  /**
   * Two well-formed annotations, at `i1` and `i2`, each followed by whitespace or the
   * end of the text, with no other `path=` in the text, yield both paths in order.
   */
  lemma TwoAnnotations(s: string, i1: nat, name1: string, x1: nat, i2: nat, name2: string, x2: nat)
    requires x1 < |Extensions| && x2 < |Extensions|
    requires NoSpace(name1) && NoSpace(name2)
    requires i1 + |Annotated(name1, x1)| < i2 && i2 + |Annotated(name2, x2)| <= |s|
    requires s[i1..i1 + |Annotated(name1, x1)|] == Annotated(name1, x1)
    requires IsSpace(s[i1 + |Annotated(name1, x1)|])
    requires s[i2..i2 + |Annotated(name2, x2)|] == Annotated(name2, x2)
    requires i2 + |Annotated(name2, x2)| == |s| || IsSpace(s[i2 + |Annotated(name2, x2)|])
    requires forall q :: MarkerAt(s, q) ==> q == i1 || q == i2
    ensures FindAll(s) == [name1 + "." + Extensions[x1], name2 + "." + Extensions[x2]]
  {
    SkipUnmarked(s, 0, i1);
    AnnotationAt(s, i1, name1, x1);
    SkipToLast(s, i1 + |Annotated(name1, x1)|, i2, name2, x2);
  }
}
