/**
  How the two services' suffix lists line up. The GitHub side decides which changed files are
  sent for analysis; the OpenAI side names the language of each one it receives. The lists were
  written separately and do not agree: four analysed suffixes have no language, and one suffix
  with a language is never analysed.
*/
module ServiceAgreement {
  import opened JavaStrings
  import opened GitHub
  import opened OpenAIClient

  /** The twelve analysed suffixes that the language chain also names. */
  predicate EndsWithKnownLanguage(n: string) {
    EndsWith(n, ".java") || EndsWith(n, ".js") || EndsWith(n, ".jsx") || EndsWith(n, ".ts")
    || EndsWith(n, ".tsx") || EndsWith(n, ".py") || EndsWith(n, ".go") || EndsWith(n, ".rb")
    || EndsWith(n, ".php") || EndsWith(n, ".cpp") || EndsWith(n, ".c") || EndsWith(n, ".cs")
  }

  /** The four analysed suffixes the language chain does not name. */
  predicate EndsWithUnlabelled(n: string) {
    EndsWith(n, ".kt") || EndsWith(n, ".swift") || EndsWith(n, ".scala") || EndsWith(n, ".rs")
  }

  /** Once n ends with e, every suffix of n of length two or more ends like e. */
  lemma TailRules(n: string, e: string)
    requires EndsWith(n, e) && |e| >= 2
    ensures forall x :: EndsWith(n, x) && |x| >= 2 ==> x[|x| - 1] == e[|e| - 1] && x[|x| - 2] == e[|e| - 2]
  {
    EndsWithTail(n, e);
    forall x | EndsWith(n, x) && |x| >= 2
      ensures x[|x| - 1] == e[|e| - 1] && x[|x| - 2] == e[|e| - 2]
    {
      EndsWithTail(n, x);
    }
  }

  /** A name ending with one of the four unlabelled suffixes ends with no labelled one, nor with `.cc`. */
  lemma UnlabelledHasNoLanguage(n: string, e: string)
    requires e == ".kt" || e == ".swift" || e == ".scala" || e == ".rs"
    requires EndsWith(n, e)
    ensures !EndsWithKnownLanguage(n) && !EndsWith(n, ".cc")
  {
    TailRules(n, e);
    assert !EndsWith(n, ".java");
    assert !EndsWith(n, ".js");
    assert !EndsWith(n, ".jsx");
    assert !EndsWith(n, ".ts");
    assert !EndsWith(n, ".tsx");
    assert !EndsWith(n, ".py");
    assert !EndsWith(n, ".go");
    assert !EndsWith(n, ".rb");
    assert !EndsWith(n, ".php");
    assert !EndsWith(n, ".cpp");
    assert !EndsWith(n, ".c");
    assert !EndsWith(n, ".cs");
    assert !EndsWith(n, ".cc");
  }

  /** A `.cc` name ends with none of the sixteen analysed suffixes. */
  lemma CcIsNotAllowed(n: string)
    requires EndsWith(n, ".cc")
    ensures !EndsWithKnownLanguage(n) && !EndsWithUnlabelled(n)
  {
    TailRules(n, ".cc");
    assert !EndsWith(n, ".java");
    assert !EndsWith(n, ".js");
    assert !EndsWith(n, ".jsx");
    assert !EndsWith(n, ".ts");
    assert !EndsWith(n, ".tsx");
    assert !EndsWith(n, ".py");
    assert !EndsWith(n, ".go");
    assert !EndsWith(n, ".rb");
    assert !EndsWith(n, ".php");
    assert !EndsWith(n, ".cpp");
    assert !EndsWith(n, ".c");
    assert !EndsWith(n, ".cs");
    assert !EndsWith(n, ".kt");
    assert !EndsWith(n, ".swift");
    assert !EndsWith(n, ".scala");
    assert !EndsWith(n, ".rs");
  }

  /**
    A file is sent for analysis but labelled "unknown" exactly when it is a Kotlin, Swift, Scala
    or Rust file.
  */
  lemma AnalysedWithoutLanguage(n: string)
    ensures ShouldAnalyzeFile(n) && GetLanguageFromFileName(n) == "unknown" <==> EndsWithUnlabelled(n)
  {
    if EndsWith(n, ".kt") {
      UnlabelledHasNoLanguage(n, ".kt");
    } else if EndsWith(n, ".swift") {
      UnlabelledHasNoLanguage(n, ".swift");
    } else if EndsWith(n, ".scala") {
      UnlabelledHasNoLanguage(n, ".scala");
    } else if EndsWith(n, ".rs") {
      UnlabelledHasNoLanguage(n, ".rs");
    }
  }

  /**
    A file would get a language but is never sent for analysis exactly when it is a `.cc` file,
    which the chain labels "cpp".
  */
  lemma LanguageWithoutAnalysis(n: string)
    ensures !ShouldAnalyzeFile(n) && GetLanguageFromFileName(n) != "unknown" <==> EndsWith(n, ".cc")
    ensures EndsWith(n, ".cc") ==> GetLanguageFromFileName(n) == "cpp"
  {
    if EndsWith(n, ".cc") {
      CcIsNotAllowed(n);
    }
  }
}
