/** `prepare_prompt`: check the two inputs, then place them, stripped, into
    a fixed instruction template. */
module Prompt {
  import opened Wrappers
  import opened Strings
  import opened Schema

  const EmptyInput: string := "Resume text and job description cannot be empty"

  /** An instruction template with two holes: the resume goes between
      `head` and `middle`, the job description between `middle` and `tail`. */
  datatype Template = Template(head: string, middle: string, tail: string)

  /** The template filled in: each part lies where the template puts it. */
  function Fill(t: Template, resume: string, jd: string): (p: string)
    ensures |p| == |t.head| + |resume| + |t.middle| + |jd| + |t.tail|
    ensures StartsWith(t.head, p)
    ensures OccursAt(resume, p, |t.head|)
    ensures OccursAt(t.middle, p, |t.head| + |resume|)
    ensures OccursAt(jd, p, |t.head| + |resume| + |t.middle|)
    ensures p[|p| - |t.tail|..] == t.tail
  {
    var p := t.head + resume + t.middle + jd + t.tail;
    assert p[..|t.head|] == t.head;
    assert p[|t.head|..|t.head| + |resume|] == resume;
    assert p[|t.head| + |resume|..|t.head| + |resume| + |t.middle|] == t.middle;
    assert p[|t.head| + |resume| + |t.middle|..|t.head| + |resume| + |t.middle| + |jd|] == jd;
    p
  }

  /** The opening instructions, abbreviated. */
  const Head: string :=
    "\n    Act as an expert ATS (Applicant Tracking System) and resume analysis engine.\n\n"
    + "    Evaluate the following resume against the provided job description.\n\n"
    + "    Resume:\n    "
  const Middle: string := "\n\n    Job Description:\n    "

  /** The answer format, naming every field of the schema. */
  const FormatIntro: string := "\n\n    Respond ONLY in this JSON format:\n    {\n        \""
  const AfterJdMatch: string := "\": \"percentage between 0-100\",\n        \""
  const AfterKeywords: string := "\": [\"keyword1\", \"keyword2\", ...],\n        \""
  const AfterSummary: string := "\": \"Detailed evaluation.\",\n        \""
  const FormatOutro: string := "\": \"How the score was calculated.\"\n\n    }\n    "
  const Tail: string :=
    FormatIntro + JdMatch + AfterJdMatch + MissingKeywords + AfterKeywords + MatchingKeywords
    + AfterKeywords + ProfileSummary + AfterSummary + ScoreExplanation + FormatOutro

  const Analysis: Template := Template(Head, Middle, Tail)

  /** `prepare_prompt(resume_text, job_description)`: only the empty string
      is rejected; otherwise the analysis template is filled with the
      stripped resume and the stripped job description. */
  function PreparePrompt(resume: string, jd: string): (r: Result<string>)
    ensures r.Err? <==> resume == [] || jd == []
    ensures r.Err? ==> r.message == EmptyInput
    ensures r.Ok? ==> r.value == Fill(Analysis, Strip(resume), Strip(jd))
  {
    if resume == [] || jd == [] then Err(EmptyInput)
    else Ok(Fill(Analysis, Strip(resume), Strip(jd)))
  }

  /** Every accepted prompt contains both stripped inputs verbatim, the
      resume before the job description. */
  lemma PromptCarriesInputs(resume: string, jd: string)
    requires resume != [] && jd != []
    ensures var p := PreparePrompt(resume, jd).value;
            exists i, j :: 0 <= i && i + |Strip(resume)| <= j
                           && OccursAt(Strip(resume), p, i) && OccursAt(Strip(jd), p, j)
  {
    var t, a := Analysis, Strip(resume);
    var i, j := |t.head|, |t.head| + |a| + |t.middle|;
    assert OccursAt(a, PreparePrompt(resume, jd).value, i);
    assert OccursAt(Strip(jd), PreparePrompt(resume, jd).value, j);
  }

  /** Each name placed into a format string occurs in it. */
  lemma NamesInFormat(i0: string, k1: string, a1: string, k2: string, a2: string, k3: string,
                      a3: string, k4: string, a4: string, k5: string, a5: string)
    ensures var p := i0 + k1 + a1 + k2 + a2 + k3 + a3 + k4 + a4 + k5 + a5;
            IsInfix(k1, p) && IsInfix(k2, p) && IsInfix(k3, p) && IsInfix(k4, p) && IsInfix(k5, p)
  {
    var rest5 := a5;
    var rest4 := a4 + k5 + a5;
    var rest3 := a3 + k4 + rest4;
    var rest2 := a2 + k3 + rest3;
    var rest1 := a1 + k2 + rest2;
    var p := i0 + k1 + a1 + k2 + a2 + k3 + a3 + k4 + a4 + k5 + a5;
    assert i0 + k1 + rest1 == p;
    assert i0 + k1 + a1 + k2 + rest2 == p;
    assert i0 + k1 + a1 + k2 + a2 + k3 + rest3 == p;
    assert i0 + k1 + a1 + k2 + a2 + k3 + a3 + k4 + rest4 == p;
    InfixOfConcat(i0, k1, rest1);
    InfixOfConcat(i0 + k1 + a1, k2, rest2);
    InfixOfConcat(i0 + k1 + a1 + k2 + a2, k3, rest3);
    InfixOfConcat(i0 + k1 + a1 + k2 + a2 + k3 + a3, k4, rest4);
    InfixOfConcat(i0 + k1 + a1 + k2 + a2 + k3 + a3 + k4 + a4, k5, rest5);
  }

  /** The answer format names all five fields. */
  lemma TailNamesEveryField()
    ensures forall f :: f in RequiredFields + [ScoreExplanation] ==> IsInfix(f, Tail)
  {
    NamesInFormat(FormatIntro, JdMatch, AfterJdMatch, MissingKeywords, AfterKeywords, MatchingKeywords,
                  AfterKeywords, ProfileSummary, AfterSummary, ScoreExplanation, FormatOutro);
  }

  /** Every accepted prompt names all five fields of the expected answer. */
  lemma PromptNamesEveryField(resume: string, jd: string)
    requires resume != [] && jd != []
    ensures forall f :: f in RequiredFields + [ScoreExplanation] ==> IsInfix(f, PreparePrompt(resume, jd).value)
  {
    TailNamesEveryField();
    var front := Head + Strip(resume) + Middle + Strip(jd);
    forall f | f in RequiredFields + [ScoreExplanation]
      ensures IsInfix(f, PreparePrompt(resume, jd).value)
    {
      InfixExtend(f, Tail, front);
    }
  }

  /** A whitespace-only input passes the check and leaves its hole empty. */
  lemma BlankInputsAccepted(resume: string, jd: string)
    requires resume != [] && Blank(resume) && jd != [] && Blank(jd)
    ensures PreparePrompt(resume, jd) == Ok(Fill(Analysis, [], []))
  {
  }

  /** Text can move between the holes: a resume ending in the middle part of
      the template and a job description starting with it fill alike. */
  lemma {:induction false} FillShifts(t: Template, a: string, b: string, c: string)
    ensures Fill(t, a + t.middle + b, c) == Fill(t, a, b + t.middle + c)
  {
  }

  /** So the prompt does not determine its inputs: a resume that contains the
      job-description heading gives the same prompt as a shorter resume
      paired with a longer job description. */
  lemma PromptAmbiguous(a: string, b: string, c: string)
    requires a != [] && !IsSpace(a[0]) && !IsSpace(a[|a| - 1])
    requires b != [] && !IsSpace(b[0]) && !IsSpace(b[|b| - 1])
    requires c != [] && !IsSpace(c[0]) && !IsSpace(c[|c| - 1])
    ensures PreparePrompt(a + Middle + b, c) == PreparePrompt(a, b + Middle + c)
  {
    var m := Analysis.middle;
    StripKeepsTrimmed(a + m + b);
    StripKeepsTrimmed(b + m + c);
    StripKeepsTrimmed(a);
    StripKeepsTrimmed(c);
    FillShifts(Analysis, a, b, c);
  }
}
