/**
 * Output-file naming of the filters: _safe_out_path and the POSIX os.path.splitext it
 * relies on (split at the last dot of the last path component, unless everything before
 * that dot in the component is dots). _safe_out_path is a helper of app/filters.py; it has a
 * module of its own here because the beauty, background-blur and LUT filters all name their
 * output through it.
 */
module OutPaths {
  import opened Wrappers

  /** str.rfind for one character: the last index of ch in s, or -1. */
  function RFind(s: string, ch: char): (r: int)
    ensures -1 <= r < |s|
    ensures 0 <= r ==> s[r] == ch
    ensures forall k :: r < k < |s| ==> s[k] != ch
  {
    if |s| == 0 then -1
    else if s[|s| - 1] == ch then |s| - 1
    else RFind(s[..|s| - 1], ch)
  }

  predicate AllDots(s: string) {
    forall k :: 0 <= k < |s| ==> s[k] == '.'
  }

  /** The last path component: everything after the last '/'. */
  function Basename(p: string): string {
    p[RFind(p, '/') + 1..]
  }

  /** An extension as splitext produces it: a dot followed by characters that are neither dots nor slashes. */
  predicate IsExtension(e: string) {
    |e| > 0 && e[0] == '.' && forall k :: 1 <= k < |e| ==> e[k] != '.' && e[k] != '/'
  }

  /** A component has an extension when some dot in it follows a character that is not a dot. */
  predicate HasInnerDot(b: string) {
    exists m, k :: 0 <= m < k < |b| && b[m] != '.' && b[k] == '.'
  }

  /** The text from the last dot on, when that dot follows the last '/', is an extension. */
  lemma ExtensionFromLastDot(p: string, sep: int, dot: int)
    requires sep == RFind(p, '/') && dot == RFind(p, '.') && sep < dot
    ensures p[..dot] + p[dot..] == p
    ensures IsExtension(p[dot..])
  {
    var e := p[dot..];
    forall k | 1 <= k < |e| ensures e[k] != '.' && e[k] != '/' {
      assert e[k] == p[dot + k];
    }
  }

  /**
   * os.path.splitext on a POSIX path: (stem, ext) with stem + ext == p, where ext is empty
   * or an extension in the sense of IsExtension.
   */
  function SplitExt(p: string): (r: (string, string))
    ensures r.0 + r.1 == p
    ensures r.1 == "" || IsExtension(r.1)
  {
    var sep := RFind(p, '/');
    var dot := RFind(p, '.');
    if dot > sep && !AllDots(p[sep + 1..dot]) then
      ExtensionFromLastDot(p, sep, dot);
      (p[..dot], p[dot..])
    else
      assert p + "" == p;
      (p, "")
  }

  /**
   * In a component whose last dot is at index d, a dot follows a non-dot character exactly
   * when the part before index d is not all dots.
   */
  lemma InnerDotBeforeLastDot(b: string, d: int)
    requires 0 <= d < |b| && b[d] == '.'
    requires forall k :: d < k < |b| ==> b[k] != '.'
    ensures HasInnerDot(b) <==> !AllDots(b[..d])
  {
    if !AllDots(b[..d]) {
      var m :| 0 <= m < d && b[..d][m] != '.';
      assert b[m] != '.' && b[d] == '.';
    }
    if HasInnerDot(b) {
      var m, k :| 0 <= m < k < |b| && b[m] != '.' && b[k] == '.';
      assert k <= d;
      assert b[..d][m] != '.';
    }
  }

  /** A component without any dot has no extension. */
  lemma NoDotNoInnerDot(b: string)
    requires forall k :: 0 <= k < |b| ==> b[k] != '.'
    ensures !HasInnerDot(b)
  {
  }

  /** Index k of the last component is index sep + 1 + k of the path. */
  lemma BasenameAt(p: string, sep: int)
    requires -1 <= sep < |p|
    ensures |p[sep + 1..]| == |p| - sep - 1
    ensures forall k :: sep < k < |p| ==> p[sep + 1..][k - sep - 1] == p[k]
  {
  }

  /** When the last dot lies in the last component, splitext's test is the inner-dot test. */
  lemma SplitExtWithDot(p: string, sep: int, dot: int)
    requires sep == RFind(p, '/') && dot == RFind(p, '.') && sep < dot
    ensures SplitExt(p).1 != "" <==> HasInnerDot(p[sep + 1..])
  {
    var b := p[sep + 1..];
    var d := dot - sep - 1;
    BasenameAt(p, sep);
    assert p[sep + 1..dot] == b[..d];
    assert b[dot - sep - 1] == p[dot];
    forall k | d < k < |b| ensures b[k] != '.' {
      assert b[k] == p[k + sep + 1];
    }
    InnerDotBeforeLastDot(b, d);
  }

  /** When the last dot lies before the last '/', the last component has no dot at all. */
  lemma SplitExtWithoutDot(p: string, sep: int, dot: int)
    requires sep == RFind(p, '/') && dot == RFind(p, '.') && dot <= sep
    ensures SplitExt(p).1 == "" && !HasInnerDot(p[sep + 1..])
  {
    var b := p[sep + 1..];
    BasenameAt(p, sep);
    forall k | 0 <= k < |b| ensures b[k] != '.' {
      assert b[k] == p[k + sep + 1];
    }
    NoDotNoInnerDot(b);
  }

  /** splitext finds an extension exactly when the last component has a dot after a non-dot character. */
  lemma SplitExtFindsInnerDot(p: string)
    ensures SplitExt(p).1 != "" <==> HasInnerDot(Basename(p))
  {
    var sep, dot := RFind(p, '/'), RFind(p, '.');
    if sep < dot {
      SplitExtWithDot(p, sep, dot);
    } else {
      SplitExtWithoutDot(p, sep, dot);
    }
  }

  /** rfind over a concatenation: the last occurrence lies in the second part if it occurs there. */
  lemma {:induction false} RFindAppend(a: string, b: string, ch: char)
    ensures RFind(a + b, ch) == if RFind(b, ch) >= 0 then |a| + RFind(b, ch) else RFind(a, ch)
    decreases |b|
  {
    if |b| == 0 {
      assert a + b == a;
    } else if b[|b| - 1] == ch {
    } else {
      assert (a + b)[..|a + b| - 1] == a + b[..|b| - 1];
      RFindAppend(a, b[..|b| - 1], ch);
    }
  }

  /** An extension holds its only dot at index 0 and no slash. */
  lemma RFindInExtension(ext: string)
    requires IsExtension(ext)
    ensures RFind(ext, '.') == 0 && RFind(ext, '/') == -1
  {
    var tail := ext[1..];
    assert ext == ['.'] + tail;
    assert forall k :: 0 <= k < |tail| ==> tail[k] == ext[k + 1];
    assert RFind(tail, '.') == -1 && RFind(tail, '/') == -1;
    RFindAppend(['.'], tail, '.');
    RFindAppend(['.'], tail, '/');
  }

  /**
   * Joining a stem whose last component has a non-dot character with an extension splits
   * back into the same two parts.
   */
  lemma SplitExtOfJoin(stem: string, ext: string)
    requires IsExtension(ext)
    requires exists m :: RFind(stem, '/') < m < |stem| && stem[m] != '.'
    ensures SplitExt(stem + ext) == (stem, ext)
  {
    var p := stem + ext;
    RFindInExtension(ext);
    RFindAppend(stem, ext, '.');
    RFindAppend(stem, ext, '/');
    var sep := RFind(stem, '/');
    assert RFind(p, '/') == sep && RFind(p, '.') == |stem|;
    var m :| sep < m < |stem| && stem[m] != '.';
    assert p[sep + 1..|stem|][m - sep - 1] == stem[m];
    assert !AllDots(p[sep + 1..|stem|]);
    assert p[..|stem|] == stem && p[|stem|..] == ext;
  }

  /** Python truthiness of the optional force_ext argument: None and "" are both false. */
  predicate Forced(forceExt: Option<string>) {
    forceExt.Some? && forceExt.value != ""
  }

  /**
   * _safe_out_path: the input's stem, then the suffix, then the forced extension when one is
   * given, otherwise the input's own extension or ".jpg" when it has none.
   */
  function SafeOutPath(path: string, suffix: string, forceExt: Option<string>): (r: string)
    ensures Forced(forceExt) ==> r == SplitExt(path).0 + suffix + forceExt.value
    ensures !Forced(forceExt) && SplitExt(path).1 != "" ==> r == SplitExt(path).0 + suffix + SplitExt(path).1
    ensures !Forced(forceExt) && SplitExt(path).1 == "" ==> r == path + suffix + ".jpg"
  {
    var (base, ext) := SplitExt(path);
    if Forced(forceExt) then base + suffix + forceExt.value
    else base + suffix + (if ext != "" then ext else ".jpg")
  }

  /** The extension the output path ends up with. */
  function OutExtension(path: string, forceExt: Option<string>): string {
    if Forced(forceExt) then forceExt.value
    else if SplitExt(path).1 != "" then SplitExt(path).1
    else ".jpg"
  }

  /**
   * For a suffix without '/' that has a non-dot character (as "_beauty", "_bgblur") and a
   * well-formed forced extension, splitting the output path gives back the input's stem plus
   * the suffix, and the chosen extension.
   */
  lemma SafeOutPathSplits(path: string, suffix: string, forceExt: Option<string>)
    requires forall k :: 0 <= k < |suffix| ==> suffix[k] != '/'
    requires exists k :: 0 <= k < |suffix| && suffix[k] != '.'
    requires Forced(forceExt) ==> IsExtension(forceExt.value)
    ensures SplitExt(SafeOutPath(path, suffix, forceExt)) ==
              (SplitExt(path).0 + suffix, OutExtension(path, forceExt))
  {
    var stem := SplitExt(path).0;
    var k :| 0 <= k < |suffix| && suffix[k] != '.';
    assert RFind(suffix, '/') == -1;
    RFindAppend(stem, suffix, '/');
    assert (stem + suffix)[|stem| + k] == suffix[k];
    if !Forced(forceExt) && SplitExt(path).1 == "" {
      assert stem == path;
      var jpg := ".jpg";
      assert IsExtension(jpg);
    }
    SplitExtOfJoin(stem + suffix, OutExtension(path, forceExt));
  }
}
