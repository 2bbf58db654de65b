/** A simplified model of the three queries the validators make of
    `std::filesystem::path`: `extension()`, `stem()` and `parent_path()`.
    Both '/' and '\\' separate path components, as on Windows. */
module Paths {

  predicate IsSeparator(c: char) {
    c == '/' || c == '\\'
  }

  /** Index of the last separator in `p`, or -1 when there is none. */
  function LastSeparator(p: string): (r: int)
    ensures -1 <= r < |p|
    ensures r >= 0 ==> IsSeparator(p[r])
    ensures forall j :: r < j < |p| ==> !IsSeparator(p[j])
  {
    if p == [] then -1
    else if IsSeparator(p[|p| - 1]) then |p| - 1
    else LastSeparator(p[..|p| - 1])
  }

  /** Index of the last '.' in `s`, or -1 when there is none. */
  function LastDot(s: string): (r: int)
    ensures -1 <= r < |s|
    ensures r >= 0 ==> s[r] == '.'
    ensures forall j :: r < j < |s| ==> s[j] != '.'
  {
    if s == [] then -1
    else if s[|s| - 1] == '.' then |s| - 1
    else LastDot(s[..|s| - 1])
  }

  /** The final path component. */
  function FileName(p: string): (f: string)
    ensures |f| == |p| - LastSeparator(p) - 1 && f == p[|p| - |f|..]
    ensures forall j :: 0 <= j < |f| ==> !IsSeparator(f[j])
  {
    p[LastSeparator(p) + 1..]
  }

  /** Everything before the last separator; empty for a bare file name. */
  function ParentPath(p: string): (d: string)
    ensures LastSeparator(p) < 0 ==> d == [] && FileName(p) == p
    ensures LastSeparator(p) >= 0 ==> |d| < |p| && IsSeparator(p[|d|]) && p == d + [p[|d|]] + FileName(p)
  {
    var s := LastSeparator(p);
    if s < 0 then []
    else
      assert p == p[..s] + [p[s]] + p[s + 1..];
      p[..s]
  }

  /** The suffix of the file name from its last '.', unless that dot is the
      name's first character or the name is ".."; empty otherwise. */
  function Extension(p: string): (e: string)
    ensures |e| <= |FileName(p)| && FileName(p)[|FileName(p)| - |e|..] == e
    ensures e != [] ==> e[0] == '.' && |e| < |FileName(p)|
    ensures forall j :: 1 <= j < |e| ==> e[j] != '.'
  {
    var f := FileName(p);
    var d := LastDot(f);
    if f == ".." || d <= 0 then [] else f[d..]
  }

  /** The file name without its extension. */
  function Stem(p: string): (s: string)
    ensures FileName(p) == s + Extension(p)
    ensures Extension(p) != [] ==> s != []
  {
    var f := FileName(p);
    f[..|f| - |Extension(p)|]
  }

  /** A well-formed extension: a dot followed by at least one character,
      none of which is a dot or a separator. */
  predicate IsPlainExtension(e: string) {
    |e| >= 2 && e[0] == '.' &&
    forall j :: 1 <= j < |e| ==> e[j] != '.' && !IsSeparator(e[j])
  }

  /** Gathers in one place what the contracts of `Stem` and `Extension`
      already state: the file name splits into stem and extension; a
      non-empty extension starts with the name's only trailing dot and has
      a non-empty stem. */
  lemma StemAndExtension(p: string)
    ensures FileName(p) == Stem(p) + Extension(p)
    ensures Extension(p) != [] ==> Extension(p)[0] == '.' && Stem(p) != []
    ensures forall j :: 1 <= j < |Extension(p)| ==> Extension(p)[j] != '.'
  {
  }

  lemma ExtensionEndsPath(p: string, e: string)
    requires IsPlainExtension(e) && Extension(p) == e
    ensures |p| > |e| && p[|p| - |e|..] == e && !IsSeparator(p[|p| - |e| - 1])
  {
    var f := FileName(p);
    var d := LastDot(f);
    assert f != ".." && d > 0 && f[d..] == e;
    assert f[d - 1] == p[|p| - |f| + d - 1];
    assert p[|p| - |e|..] == f[d..];
  }

  lemma PathEndIsExtension(p: string, e: string)
    requires IsPlainExtension(e)
    requires |p| > |e| && p[|p| - |e|..] == e && !IsSeparator(p[|p| - |e| - 1])
    ensures Extension(p) == e
  {
    var n := |p| - |e|;
    forall j | n - 1 <= j < |p| ensures !IsSeparator(p[j]) {
      if j >= n { assert p[j] == e[j - n]; }
    }
    var f := FileName(p);
    assert LastSeparator(p) < n - 1;
    var m := |f| - |e|;
    assert f[m..] == p[n..];
    forall j | m <= j < |f| ensures f[j] == e[j - m] {
      assert f[j] == f[m..][j - m];
    }
    assert LastDot(f) == m;
    assert f != ".." by { assert f[|f| - 1] == e[|e| - 1]; }
  }

  /** A path has a given plain extension exactly when the path text ends
      with it and the character just before it exists and is not a
      separator (so hidden files such as "dir\.java" have no extension). */
  lemma ExtensionIff(p: string, e: string)
    requires IsPlainExtension(e)
    ensures Extension(p) == e <==>
      |p| > |e| && p[|p| - |e|..] == e && !IsSeparator(p[|p| - |e| - 1])
  {
    if Extension(p) == e {
      ExtensionEndsPath(p, e);
    }
    if |p| > |e| && p[|p| - |e|..] == e && !IsSeparator(p[|p| - |e| - 1]) {
      PathEndIsExtension(p, e);
    }
  }
}
