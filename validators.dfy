/** The four language validators: which files each accepts, the command
    lines it builds, and its two-phase "check, then run" decision. The
    external tool is an oracle `exec` from a command line to the merged
    standard output and standard error text it produces. */
module Validators {
  import opened Wrappers
  import opened Paths
  import opened Escaping

  datatype Lang = Java | Python | PHP | JavaScript

  /** The extension each validator's `isCompatible` compares against. */
  function ExtensionOf(l: Lang): (e: string)
    ensures IsPlainExtension(e)
  {
    match l
    case Java => ".java"
    case Python => ".py"
    case PHP => ".php"
    case JavaScript => ".js"
  }

  /** `isCompatible`: the path's extension is the validator's own. A file
      named only by the extension (a hidden file) is never accepted. */
  predicate IsCompatible(l: Lang, filePath: string)
    ensures IsCompatible(l, filePath) ==> |FileName(filePath)| > |ExtensionOf(l)|
  {
    Extension(filePath) == ExtensionOf(l)
  }

  /** A validator accepts a path exactly when the path text ends with its
      extension and that extension is preceded by a file-name character. */
  lemma CompatibleIff(l: Lang, filePath: string)
    ensures var e := ExtensionOf(l);
      IsCompatible(l, filePath) <==>
        |filePath| > |e| && filePath[|filePath| - |e|..] == e &&
        !IsSeparator(filePath[|filePath| - |e| - 1])
  {
    ExtensionIff(filePath, ExtensionOf(l));
  }

  /** At most one validator accepts any given path. */
  lemma CompatibleUnique(l: Lang, m: Lang, filePath: string)
    requires IsCompatible(l, filePath) && IsCompatible(m, filePath)
    ensures l == m
  {
  }

  /** Every command merges standard error into standard output. */
  const Redirect := " 2>&1"

  /** The program and options of the check phase. */
  function CheckProgram(l: Lang): string {
    match l
    case Java => "javac "
    case Python => "python -m py_compile "
    case PHP => "php -l "
    case JavaScript => "node --check "
  }

  /** The program of the run phase ("java" runs a class, see
      `JavaRunCommand`). */
  function RunProgram(l: Lang): string {
    match l
    case Java => "java "
    case Python => "python "
    case PHP => "php "
    case JavaScript => "node "
  }

  /** The quoted text placed after any prefix reads back as the path. */
  lemma QuotedBetween(pre: string, path: string, post: string)
    ensures var c := pre + Quote(path) + post;
      |c| == |pre| + |Quote(path)| + |post| && pre <= c && c[|c| - |post|..] == post &&
      c[|pre| + |Quote(path)|..] == post &&
      Unquote(c[|pre|..|pre| + |Quote(path)|]) == Some(path)
  {
    var c := pre + Quote(path) + post;
    QuoteRoundTrip(path);
    assert c[|pre|..|pre| + |Quote(path)|] == Quote(path);
    assert c[|c| - |post|..] == post;
    assert c[|pre| + |Quote(path)|..] == post;
  }

  /** The check command line; the text between the program and the
      redirection reads back as the path and has the length of the
      escaped path in quotes, one extra character per backslash. */
  function CheckCommand(l: Lang, filePath: string): (c: string)
    ensures CheckProgram(l) <= c && |c| >= |CheckProgram(l)| + |Redirect|
    ensures |c| == |CheckProgram(l)| + |filePath| + Backslashes(filePath) + 2 + |Redirect|
    ensures c[|c| - |Redirect|..] == Redirect
    ensures Unquote(c[|CheckProgram(l)|..|c| - |Redirect|]) == Some(filePath)
  {
    QuotedBetween(CheckProgram(l), filePath, Redirect);
    QuoteRoundTrip(filePath);
    CheckProgram(l) + Quote(filePath) + Redirect
  }

  /** The layout of the Java run command, for any directory text `q` and
      class name `cls`. */
  lemma JavaLayout(q: string, cls: string)
    ensures var c := "cd " + q + " && java " + cls + Redirect;
      |c| == 3 + |q| + 9 + |cls| + |Redirect| && "cd " <= c &&
      c[3..3 + |q|] == q && c[3 + |q|..] == " && java " + cls + Redirect &&
      c[|c| - |Redirect|..] == Redirect && c[3 + |q| + 9..|c| - |Redirect|] == cls
  {
    var c := "cd " + q + " && java " + cls + Redirect;
    assert c[3..3 + |q|] == q;
    assert c[3 + |q|..] == " && java " + cls + Redirect;
    assert c[3 + |q| + 9..|c| - |Redirect|] == cls;
  }

  /** Java runs the compiled class, named by the file's stem and written
      as it is (not escaped), from the file's quoted directory. */
  function JavaRunCommand(filePath: string): (c: string)
    ensures "cd " <= c && |c| >= 3 + |Quote(ParentPath(filePath))| + 9 + |Redirect|
    ensures Unquote(c[3..3 + |Quote(ParentPath(filePath))|]) == Some(ParentPath(filePath))
    ensures c[3 + |Quote(ParentPath(filePath))|..] == " && java " + Stem(filePath) + Redirect
    ensures c[|c| - |Redirect|..] == Redirect
    ensures c[3 + |Quote(ParentPath(filePath))| + 9..|c| - |Redirect|] == Stem(filePath)
  {
    var q := Quote(ParentPath(filePath));
    JavaLayout(q, Stem(filePath));
    QuoteRoundTrip(ParentPath(filePath));
    "cd " + q + " && java " + Stem(filePath) + Redirect
  }

  /** Java runs the compiled class from the file's directory; the others
      run the file itself. */
  function RunCommand(l: Lang, filePath: string): (c: string)
    ensures |c| >= |Redirect| && c[|c| - |Redirect|..] == Redirect
    ensures l != Java ==>
      (RunProgram(l) <= c && |c| >= |RunProgram(l)| + |Redirect| &&
       |c| == |RunProgram(l)| + |filePath| + Backslashes(filePath) + 2 + |Redirect| &&
       Unquote(c[|RunProgram(l)|..|c| - |Redirect|]) == Some(filePath))
    ensures l == Java ==> c == JavaRunCommand(filePath)
  {
    if l == Java then
      JavaRunCommand(filePath)
    else
      QuotedBetween(RunProgram(l), filePath, Redirect);
      QuoteRoundTrip(filePath);
      RunProgram(l) + Quote(filePath) + Redirect
  }

  /** The quoted path sits between a fixed program prefix and the fixed
      redirection suffix, and it can be read back, so a check command (and
      a non-Java run command) names exactly one file. */
  lemma CommandDeterminesPath(l: Lang, p: string, q: string)
    ensures CheckCommand(l, p) == CheckCommand(l, q) ==> p == q
    ensures l != Java && RunCommand(l, p) == RunCommand(l, q) ==> p == q
  {
    var pre, post := CheckProgram(l), Redirect;
    if CheckCommand(l, p) == CheckCommand(l, q) {
      MiddleOf(pre, Quote(p), post, Quote(q));
      QuoteInjective(p, q);
    }
    pre := RunProgram(l);
    if l != Java && RunCommand(l, p) == RunCommand(l, q) {
      MiddleOf(pre, Quote(p), post, Quote(q));
      QuoteInjective(p, q);
    }
  }

  /** From their contracts alone, the text between the program and the
      redirection of a check command (and of a non-Java run command) is
      exactly what `escapeFilePath` returns for the path. */
  lemma CommandsQuoteThePath(l: Lang, filePath: string)
    ensures var c := CheckCommand(l, filePath);
      c[|CheckProgram(l)|..|c| - |Redirect|] == Quote(filePath)
    ensures l != Java ==> var c := RunCommand(l, filePath);
      c[|RunProgram(l)|..|c| - |Redirect|] == Quote(filePath)
  {
    var c := CheckCommand(l, filePath);
    QuotedByLength(c[|CheckProgram(l)|..|c| - |Redirect|], filePath);
    if l != Java {
      var r := RunCommand(l, filePath);
      QuotedByLength(r[|RunProgram(l)|..|r| - |Redirect|], filePath);
    }
  }

  lemma MiddleOf(pre: string, a: string, post: string, b: string)
    requires pre + a + post == pre + b + post
    ensures a == b
  {
    var s := pre + a + post;
    assert a == s[|pre|..|s| - |post|];
    assert b == (pre + b + post)[|pre|..|s| - |post|];
  }

  /** The Java run command names the class the compile step produced: the
      directory it changes to and the class name put back together with
      ".java" give the compiled file. */
  lemma JavaRunNamesCompiledFile(filePath: string)
    requires IsCompatible(Java, filePath)
    ensures LastSeparator(filePath) < 0 ==> filePath == Stem(filePath) + ".java"
    ensures LastSeparator(filePath) >= 0 ==>
      exists sep :: IsSeparator(sep) &&
        filePath == ParentPath(filePath) + [sep] + Stem(filePath) + ".java"
    ensures Stem(filePath) != []
  {
    StemAndExtension(filePath);
    if LastSeparator(filePath) >= 0 {
      var d := ParentPath(filePath);
      var sep := filePath[|d|];
      assert filePath == d + [sep] + (Stem(filePath) + ".java");
    }
  }

  /** The class name the Java run command passes to `java` (the text
      between " && java " and the redirection), followed by ".java", is
      the name of the compiled file. */
  lemma JavaRunCommandNamesClass(filePath: string)
    requires IsCompatible(Java, filePath)
    ensures var c := RunCommand(Java, filePath);
      var k := 3 + |Quote(ParentPath(filePath))| + |" && java "|;
      k <= |c| - |Redirect| && c[k..|c| - |Redirect|] + ".java" == FileName(filePath)
  {
    StemAndExtension(filePath);
  }

  /** `std::string::find(needle) != npos`. */
  function Contains(s: string, needle: string): (b: bool)
    ensures b ==> |needle| <= |s|
    ensures needle == [] ==> b
    decreases |s|
  {
    if |needle| > |s| then false
    else if s[..|needle|] == needle then true
    else Contains(s[1..], needle)
  }

  predicate OccursAt(s: string, needle: string, i: nat) {
    i + |needle| <= |s| && s[i..i + |needle|] == needle
  }

  lemma OccursShift(s: string, needle: string, i: nat)
    requires s != []
    ensures OccursAt(s, needle, i + 1) <==> OccursAt(s[1..], needle, i)
  {
    if i + 1 + |needle| <= |s| {
      assert s[1..][i..i + |needle|] == s[i + 1..i + 1 + |needle|];
    }
  }

  /** `Contains` finds the needle exactly when it occurs somewhere. */
  lemma {:induction false} ContainsIff(s: string, needle: string)
    ensures Contains(s, needle) <==> exists i: nat :: OccursAt(s, needle, i)
    decreases |s|
  {
    if |needle| > |s| {
    } else if s[..|needle|] == needle {
      assert OccursAt(s, needle, 0);
    } else {
      ContainsIff(s[1..], needle);
      if Contains(s[1..], needle) {
        var i: nat :| OccursAt(s[1..], needle, i);
        OccursShift(s, needle, i);
      } else if i: nat :| OccursAt(s, needle, i) {
        assert i != 0;
        OccursShift(s, needle, i - 1);
        assert false;
      }
    }
  }

  /** The check gate: true when the check output blocks the run phase. */
  predicate CheckFails(l: Lang, output: string): (fails: bool)
    ensures output == [] ==> (fails <==> l == PHP)
  {
    match l
    case Java => output != []
    case Python => output != [] && Contains(output, "SyntaxError")
    case PHP => !Contains(output, "No syntax errors")
    case JavaScript => output != []
  }

  function ErrorPrefix(l: Lang): string {
    if l == Java then "Compilation errors:\n" else "Syntax errors:\n"
  }

  const SuccessBanner := "Compilation successful.\nExecution output:\n"

  /** What one validation produced: the result text and, in order, the
      command lines handed to the tool. */
  datatype Report = Report(result: string, issued: seq<string>)

  /** `validate`: run the check command; if its output blocks, report it
      after the error prefix; otherwise run the program and report its
      output after the success banner. */
  function Validate(l: Lang, filePath: string, exec: string -> string): (r: Report)
    ensures 1 <= |r.issued| <= 2 && r.issued[0] == CheckCommand(l, filePath)
    ensures |r.issued| == 2 <==> !CheckFails(l, exec(CheckCommand(l, filePath)))
    ensures |r.issued| == 2 ==> r.issued[1] == RunCommand(l, filePath)
    ensures r.result ==
      (if |r.issued| == 2 then SuccessBanner else ErrorPrefix(l)) + exec(r.issued[|r.issued| - 1])
  {
    var check := CheckCommand(l, filePath);
    var checkOutput := exec(check);
    if CheckFails(l, checkOutput) then
      Report(ErrorPrefix(l) + checkOutput, [check])
    else
      var run := RunCommand(l, filePath);
      Report(SuccessBanner + exec(run), [check, run])
  }

  /** The gate of each language, stated on the check output: the run phase
      happens exactly when Java's compiler and Node's check print nothing,
      when Python's output has no "SyntaxError" anywhere, and when PHP's
      lint output has "No syntax errors" somewhere. */
  lemma RunsIff(l: Lang, filePath: string, exec: string -> string)
    ensures var out := exec(CheckCommand(l, filePath));
      |Validate(l, filePath, exec).issued| == 2 <==>
        match l
        case Java => out == []
        case Python => !exists i: nat :: OccursAt(out, "SyntaxError", i)
        case PHP => exists i: nat :: OccursAt(out, "No syntax errors", i)
        case JavaScript => out == []
  {
    var out := exec(CheckCommand(l, filePath));
    ContainsIff(out, "SyntaxError");
    ContainsIff(out, "No syntax errors");
  }

  /** Python's extra emptiness test changes nothing, so any check output
      without the marker, including warnings, lets the file run; PHP, on
      the contrary, rejects even an empty lint output. */
  lemma CheckQuirks(out: string)
    ensures !CheckFails(Python, out) <==> !Contains(out, "SyntaxError")
    ensures CheckFails(PHP, [])
  {
  }

  /** The success banner and the error prefixes part ways early, whatever
      output follows them. */
  lemma PrefixesDiffer(l: Lang, out: string)
    ensures !(ErrorPrefix(l) <= SuccessBanner + out)
    ensures !(SuccessBanner <= ErrorPrefix(l) + out)
  {
    var e, b := ErrorPrefix(l), SuccessBanner;
    if l == Java {
      assert e[12] == 'e' && b[12] == 's';
      assert (b + out)[12] == 's' && (e + out)[12] == 'e';
    } else {
      assert e[0] == 'S' && b[0] == 'C';
      assert (b + out)[0] == 'C' && (e + out)[0] == 'S';
    }
  }

  /** The result text says which phase ended the validation: it starts
      with the success banner exactly when the program was run. */
  lemma ResultShowsPhase(l: Lang, filePath: string, exec: string -> string)
    ensures var r := Validate(l, filePath, exec);
      (|r.issued| == 2 <==> SuccessBanner <= r.result) &&
      (|r.issued| == 1 <==> ErrorPrefix(l) <= r.result)
  {
    var r := Validate(l, filePath, exec);
    var out := exec(r.issued[|r.issued| - 1]);
    PrefixesDiffer(l, out);
  }
}
