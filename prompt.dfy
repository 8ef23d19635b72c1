/** The prompt handed to the speech-recognition call: a fixed sentence that
    says the audio is a meeting recording, then the caller's meeting summary,
    then the caller's key terms, each only when it is non-empty. */
module Prompt {
  import opened Text

  /** "This is a recording of a meeting." */
  const Base := "これは会議の録音です。"

  /** " The following terms and people may appear in this meeting: " */
  const KeyTermsLead := " この会議では以下の用語や人物が登場する可能性があります: "

  /** The text a non-empty meeting summary contributes. */
  function SummaryPart(summary: string): string {
    if summary != [] then " " + summary else []
  }

  /** The text a non-empty key-terms string contributes. */
  function KeyTermsPart(keyTerms: string): string {
    if keyTerms != [] then KeyTermsLead + keyTerms else []
  }

  /** The initial prompt of `transcribe_audio`: the base sentence, then a
      space and the summary, then the key-terms phrase and the key terms. */
  function InitialPrompt(summary: string, keyTerms: string): (prompt: string)
    ensures |Base| <= |prompt| && prompt[..|Base|] == Base
    ensures |prompt| == |Base| + |SummaryPart(summary)| + |KeyTermsPart(keyTerms)|
    ensures prompt == Base <==> summary == [] && keyTerms == []
    ensures summary != [] ==> prompt[|Base|..|Base| + 1 + |summary|] == " " + summary
    ensures keyTerms != [] ==> prompt[|prompt| - |keyTerms| - |KeyTermsLead|..] == KeyTermsLead + keyTerms
  {
    var withSummary := Base + SummaryPart(summary);
    var prompt := withSummary + KeyTermsPart(keyTerms);
    assert prompt[..|Base|] == Base;
    assert summary != [] ==> prompt[|Base|..|Base| + 1 + |summary|] == " " + summary;
    assert keyTerms != [] ==> prompt[|withSummary|..] == KeyTermsLead + keyTerms;
    prompt
  }

  /** For a given key-terms string, the prompt determines the summary. */
  lemma PromptDeterminesSummary(s1: string, s2: string, keyTerms: string)
    requires InitialPrompt(s1, keyTerms) == InitialPrompt(s2, keyTerms)
    ensures s1 == s2
  {
    var p := InitialPrompt(s1, keyTerms);
    if s1 != [] && s2 != [] {
      assert |s1| == |s2|;
      assert " " + s1 == p[|Base|..|Base| + 1 + |s1|] == " " + s2;
      assert s1 == (" " + s1)[1..];
    }
  }

  /** For a given summary, the prompt determines the key terms. */
  lemma PromptDeterminesKeyTerms(summary: string, k1: string, k2: string)
    requires InitialPrompt(summary, k1) == InitialPrompt(summary, k2)
    ensures k1 == k2
  {
    var p := InitialPrompt(summary, k1);
    if k1 != [] && k2 != [] {
      assert |k1| == |k2|;
      assert KeyTermsLead + k1 == p[|p| - |k1| - |KeyTermsLead|..] == KeyTermsLead + k2;
      assert k1 == (KeyTermsLead + k1)[|KeyTermsLead|..];
    }
  }

  /** The two hints are not delimited from each other: a summary that itself
      ends in the key-terms phrase gives the same prompt as a separate key-terms
      hint. */
  lemma HintsRunTogether(a: string, b: string)
    requires a != [] && b != []
    ensures InitialPrompt(a + KeyTermsLead + b, []) == InitialPrompt(a, b)
  {
    var s := a + KeyTermsLead + b;
    assert InitialPrompt(s, []) == Base + SummaryPart(s) + KeyTermsPart([]);
    assert SummaryPart(s) == " " + s;
    assert InitialPrompt(a, b) == Base + SummaryPart(a) + KeyTermsPart(b);
    Reassociate(" ", a, KeyTermsLead, b);
  }
}
