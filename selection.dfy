/** `getValidator`: pick a validator from the language selection, by file
    extension when the selection is the auto tag, by name otherwise. */
module Selection {
  import opened Wrappers
  import opened Paths
  import opened Validators

  /** The first entry of the language list, meaning "infer from the file". */
  const AutoTag := "Auto-detect"

  /** The language list entry that names each validator explicitly. */
  function TagOf(l: Lang): string {
    match l
    case Java => "Java"
    case Python => "Python"
    case PHP => "PHP"
    case JavaScript => "JavaScript"
  }

  /** `getValidator`: whatever it picks under "Auto-detect" accepts the
      file; under any other entry it picks the validator that entry names. */
  function GetValidator(language: string, filePath: string): (v: Option<Lang>)
    ensures language == AutoTag && v.Some? ==> IsCompatible(v.value, filePath)
    ensures language != AutoTag && v.Some? ==> language == TagOf(v.value)
  {
    if language == AutoTag then
      var extension := Extension(filePath);
      if extension == ".java" then Some(Java)
      else if extension == ".py" then Some(Python)
      else if extension == ".php" then Some(PHP)
      else if extension == ".js" then Some(JavaScript)
      else None
    else if language == "Java" then Some(Java)
    else if language == "Python" then Some(Python)
    else if language == "PHP" then Some(PHP)
    else if language == "JavaScript" then Some(JavaScript)
    else None
  }

  /** Auto-detection picks a validator exactly when that validator accepts
      the file, and picks none when no validator accepts it. */
  lemma AutoDetectIff(filePath: string, l: Lang)
    ensures GetValidator(AutoTag, filePath) == Some(l) <==> IsCompatible(l, filePath)
    ensures GetValidator(AutoTag, filePath) == None <==>
      forall m: Lang :: !IsCompatible(m, filePath)
  {
    if GetValidator(AutoTag, filePath) == None {
      forall m: Lang ensures !IsCompatible(m, filePath) {
        assert ExtensionOf(m) in {".java", ".py", ".php", ".js"};
      }
    } else {
      var k := GetValidator(AutoTag, filePath).value;
      assert IsCompatible(k, filePath);
    }
  }

  /** With any other selection the file plays no part: the validator is the
      one whose list entry was chosen, and an unknown entry gives none. */
  lemma ExplicitTagIff(language: string, filePath: string, l: Lang)
    requires language != AutoTag
    ensures GetValidator(language, filePath) == Some(l) <==> language == TagOf(l)
    ensures GetValidator(language, filePath) == None <==>
      forall m: Lang :: language != TagOf(m)
  {
    if GetValidator(language, filePath) == None {
      forall m: Lang ensures language != TagOf(m) {
        assert TagOf(m) in {"Java", "Python", "PHP", "JavaScript"};
      }
    } else {
      var k := GetValidator(language, filePath).value;
      assert language == TagOf(k);
    }
  }

  /** A plain file name ending in ".py", such as "x.py", is auto-detected
      as Python. */
  lemma AutoDetectsPython(stem: string)
    requires stem != [] && !IsSeparator(stem[|stem| - 1])
    ensures GetValidator(AutoTag, stem + ".py") == Some(Python)
  {
    var p := stem + ".py";
    assert p[|p| - 3..] == ".py" && p[|p| - 4] == stem[|stem| - 1];
    ExtensionIff(p, ".py");
  }

  /** An extension no validator knows, as in "x.xyz", selects nothing. */
  lemma AutoDetectsNothing(stem: string)
    requires stem != [] && !IsSeparator(stem[|stem| - 1])
    ensures GetValidator(AutoTag, stem + ".xyz") == None
  {
    var p, e := stem + ".xyz", ".xyz";
    assert IsPlainExtension(e) by {
      assert e[1] == 'x' && e[2] == 'y' && e[3] == 'z';
    }
    assert p[|p| - 4..] == e && p[|p| - 5] == stem[|stem| - 1];
    ExtensionIff(p, e);
  }

  /** Choosing "Java" for a Python file such as "x.py" still gives the Java
      validator, which then does not accept the file. */
  lemma ExplicitTagWins(stem: string)
    requires stem != [] && !IsSeparator(stem[|stem| - 1])
    ensures GetValidator("Java", stem + ".py") == Some(Java)
    ensures !IsCompatible(Java, stem + ".py")
  {
    AutoDetectsPython(stem);
    AutoDetectIff(stem + ".py", Python);
  }

  /** The lower-case word "auto" is not the auto tag and names no validator. */
  lemma LowerCaseAutoIsUnknown(filePath: string)
    ensures GetValidator("auto", filePath) == None
  {
    var t := "auto";
    assert t[0] == 'a';
    assert t != AutoTag && t != "Java" && t != "Python" && t != "PHP" && t != "JavaScript";
  }
}
