/** `escapeFilePath`: every backslash of a path is doubled and the whole
    path is wrapped in double quotes before it is put on a command line. */
module Escaping {
  import opened Wrappers

  /** The path with every backslash doubled and every other character kept. */
  function Escaped(s: string): string {
    if s == [] then []
    else (if s[0] == '\\' then "\\\\" else [s[0]]) + Escaped(s[1..])
  }

  /** What `escapeFilePath` returns for `s`. */
  function Quote(s: string): string {
    "\"" + Escaped(s) + "\""
  }

  /** Number of backslashes in `s`. */
  function Backslashes(s: string): nat {
    if s == [] then 0 else (if s[0] == '\\' then 1 else 0) + Backslashes(s[1..])
  }

  /** Reads an escaped path back: a doubled backslash becomes one. */
  function Unescape(s: string): string {
    if s == [] then []
    else if |s| >= 2 && s[0] == '\\' && s[1] == '\\' then "\\" + Unescape(s[2..])
    else [s[0]] + Unescape(s[1..])
  }

  /** Strips the surrounding quotes and undoes the escaping. */
  function Unquote(q: string): Option<string> {
    if |q| >= 2 && q[0] == '"' && q[|q| - 1] == '"' then Some(Unescape(q[1..|q| - 1]))
    else None
  }

  /** `std::string::find` for one character: the first index at or after
      `from` holding `c`, or None (npos). */
  function FindFrom(s: string, c: char, from: nat): (r: Option<nat>)
    ensures r.Some? ==> from <= r.value < |s| && s[r.value] == c
    ensures r.Some? ==> forall j :: from <= j < r.value ==> s[j] != c
    ensures r.None? ==> forall j :: from <= j < |s| ==> s[j] != c
    decreases |s| - from
  {
    if from >= |s| then None
    else if s[from] == c then Some(from)
    else FindFrom(s, c, from + 1)
  }

  lemma {:induction false} EscapedAppend(a: string, b: string)
    ensures Escaped(a + b) == Escaped(a) + Escaped(b)
  {
    if a == [] {
      assert a + b == b;
    } else {
      assert (a + b)[1..] == a[1..] + b;
      EscapedAppend(a[1..], b);
    }
  }

  /** A path without backslashes is left as it is. */
  lemma {:induction false} EscapedNoBackslash(s: string)
    requires forall j :: 0 <= j < |s| ==> s[j] != '\\'
    ensures Escaped(s) == s
  {
    if s != [] {
      EscapedNoBackslash(s[1..]);
    }
  }

  /** Escaping adds exactly one character per backslash. */
  lemma {:induction false} EscapedLength(s: string)
    ensures |Escaped(s)| == |s| + Backslashes(s)
  {
    if s != [] {
      EscapedLength(s[1..]);
    }
  }

  /** Escaping loses nothing: the original path can be read back. */
  lemma {:induction false} UnescapeEscaped(s: string)
    ensures Unescape(Escaped(s)) == s
  {
    if s != [] {
      var rest := Escaped(s[1..]);
      UnescapeEscaped(s[1..]);
      if s[0] == '\\' {
        assert Escaped(s) == "\\\\" + rest;
        assert ("\\\\" + rest)[2..] == rest;
      } else {
        assert Escaped(s) == [s[0]] + rest;
        assert ([s[0]] + rest)[1..] == rest;
      }
    }
  }

  /** Reading text back keeps at most one character per output character
      plus one per output backslash, and reaches that length only when
      every backslash of the reading was doubled in the text. */
  lemma {:induction false} UnescapeLength(x: string)
    ensures |x| <= |Unescape(x)| + Backslashes(Unescape(x))
    ensures |x| == |Unescape(x)| + Backslashes(Unescape(x)) ==> x == Escaped(Unescape(x))
  {
    if x != [] {
      if |x| >= 2 && x[0] == '\\' && x[1] == '\\' {
        var u := Unescape(x[2..]);
        UnescapeLength(x[2..]);
        assert Unescape(x) == "\\" + u;
        assert ("\\" + u)[1..] == u;
        if |x| == |Unescape(x)| + Backslashes(Unescape(x)) {
          assert x == "\\\\" + x[2..];
        }
      } else {
        var u := Unescape(x[1..]);
        UnescapeLength(x[1..]);
        assert Unescape(x) == [x[0]] + u;
        assert ([x[0]] + u)[1..] == u;
        if |x| == |Unescape(x)| + Backslashes(Unescape(x)) {
          assert x == [x[0]] + x[1..];
        }
      }
    }
  }

  /** Quoted text of the right length that reads back as `p` is exactly
      the quoted, escaped `p`: the length rules out a lone backslash. */
  lemma QuotedByLength(m: string, p: string)
    requires Unquote(m) == Some(p) && |m| == |p| + Backslashes(p) + 2
    ensures m == Quote(p)
  {
    var inner := m[1..|m| - 1];
    UnescapeLength(inner);
    assert m == "\"" + inner + "\"";
  }

  /** The quoted path is |s| + (backslashes) + 2 long and reads back to `s`;
      so two different paths never produce the same quoted text. */
  lemma QuoteRoundTrip(s: string)
    ensures |Quote(s)| == |s| + Backslashes(s) + 2
    ensures Unquote(Quote(s)) == Some(s)
  {
    EscapedLength(s);
    UnescapeEscaped(s);
    assert Quote(s)[1..|Quote(s)| - 1] == Escaped(s);
  }

  lemma QuoteInjective(s: string, t: string)
    requires Quote(s) == Quote(t)
    ensures s == t
  {
    QuoteRoundTrip(s);
    QuoteRoundTrip(t);
  }

  /** One step of the loop: the characters from `done` up to the next
      backslash at `done + k` are copied, and that backslash is doubled. */
  lemma EscapedStep(s: string, done: nat, k: nat)
    requires done + k < |s| && s[done + k] == '\\'
    requires forall j :: done <= j < done + k ==> s[j] != '\\'
    ensures Escaped(s[..done + k + 1]) == Escaped(s[..done]) + s[done..done + k] + "\\\\"
  {
    var mid := s[done..done + k];
    assert s[..done + k + 1] == s[..done] + mid + "\\";
    EscapedAppend(s[..done] + mid, "\\");
    EscapedAppend(s[..done], mid);
    EscapedNoBackslash(mid);
  }

  /** One pass of the loop body keeps the loop's picture of `escaped`:
      an escaped prefix of the path followed by the untouched rest. */
  lemma ReplaceKeepsPicture(filePath: string, escaped: string, pos: nat, done: nat, at: nat)
    requires done <= |filePath| && pos <= at < |escaped| && escaped[at] == '\\'
    requires forall j :: pos <= j < at ==> escaped[j] != '\\'
    requires escaped[..pos] == Escaped(filePath[..done])
    requires escaped[pos..] == filePath[done..]
    ensures done + (at - pos) + 1 <= |filePath|
    ensures var next := escaped[..at] + "\\\\" + escaped[at + 1..];
      next[..at + 2] == Escaped(filePath[..done + (at - pos) + 1]) &&
      next[at + 2..] == filePath[done + (at - pos) + 1..]
  {
    var k := at - pos;
    assert escaped[at] == filePath[done + k];
    assert forall j :: done <= j < done + k ==> filePath[j] != '\\' by {
      forall j | done <= j < done + k ensures filePath[j] != '\\' {
        assert filePath[j] == escaped[pos + (j - done)];
      }
    }
    EscapedStep(filePath, done, k);
    assert escaped[..at] == escaped[..pos] + escaped[pos..at];
    assert escaped[pos..at] == filePath[done..done + k];
    var next := escaped[..at] + "\\\\" + escaped[at + 1..];
    assert next[..at + 2] == escaped[..at] + "\\\\";
    assert next[at + 2..] == escaped[at + 1..];
  }

  /** Once no backslash is left after `pos`, the loop's picture is the
      fully escaped path. */
  lemma NoneLeftIsEscaped(filePath: string, escaped: string, pos: nat, done: nat)
    requires done <= |filePath| && pos <= |escaped|
    requires forall j :: pos <= j < |escaped| ==> escaped[j] != '\\'
    requires escaped[..pos] == Escaped(filePath[..done])
    requires escaped[pos..] == filePath[done..]
    ensures escaped == Escaped(filePath)
  {
    var rest := filePath[done..];
    forall j | 0 <= j < |rest| ensures rest[j] != '\\' {
      assert rest[j] == escaped[pos + j];
    }
    EscapedNoBackslash(rest);
    EscapedAppend(filePath[..done], rest);
    assert filePath[..done] + rest == filePath;
    calc {
      escaped;
      escaped[..pos] + escaped[pos..];
      Escaped(filePath[..done]) + rest;
      Escaped(filePath);
    }
  }

  /** The in-place loop of `escapeFilePath`: find the next backslash from
      `pos`, replace it by two, skip past both, then add the quotes. */
  method EscapeFilePath(filePath: string) returns (quoted: string)
    ensures quoted == Quote(filePath)
  {
    var escaped := filePath;
    var pos: nat := 0;
    ghost var done: nat := 0;
    var found := FindFrom(escaped, '\\', pos);
    while found.Some?
      invariant done <= |filePath| && pos <= |escaped|
      invariant escaped[..pos] == Escaped(filePath[..done])
      invariant escaped[pos..] == filePath[done..]
      invariant found == FindFrom(escaped, '\\', pos)
      decreases |filePath| - done
    {
      var at := found.value;
      ReplaceKeepsPicture(filePath, escaped, pos, done, at);
      done := done + (at - pos) + 1;
      escaped := escaped[..at] + "\\\\" + escaped[at + 1..];
      pos := at + 2;
      found := FindFrom(escaped, '\\', pos);
    }
    NoneLeftIsEscaped(filePath, escaped, pos, done);
    quoted := "\"" + escaped + "\"";
  }
}
