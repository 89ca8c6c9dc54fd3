/**
 * The deterministic half of `generate_pdf_code`: the two optional prompt
 * clauses that are filled into the request template, and the cleanup of the
 * text-generation service's reply into a program text.
 */
module Synthesizer {
  import opened Wrappers
  import opened Text

  const StylePrefix: string := " Style preferences: "

  /** The fixed block of coding guidelines sent when the caller asks for them. */
  const Guidelines: string :=
    "\n        Important: Use reportlab for PDF generation. Follow these guidelines:"
    + "\n        - Always use Canvas from reportlab.pdfgen"
    + "\n        - Set page size to A4 (595.27, 841.89)"
    + "\n        - Use proper margins (50-100 units)"
    + "\n        - Include proper error handling"
    + "\n        - Save with a unique filename using timestamp"
    + "\n        - Use professional fonts and colors"
    + "\n        "

  /** The markdown fence the reply may be wrapped in, and its tagged opening form. */
  const Fence: string := "```"
  const PythonFence: string := "```python"

  /** The style clause: present exactly when a style preference was given,
      and then it is the fixed prefix followed by the preference verbatim. */
  function StyleClause(stylePreference: string): (r: string)
    ensures r == [] <==> stylePreference == []
    ensures stylePreference != [] ==> r == StylePrefix + stylePreference
    ensures stylePreference == [] ==> r == []
  {
    if stylePreference == [] then [] else StylePrefix + stylePreference
  }

  /** The guidelines block: non-empty exactly when examples are requested. */
  function GuidelinesBlock(includeExamples: bool): (r: string)
    ensures r != [] <==> includeExamples
    ensures includeExamples ==> r == Guidelines
  {
    if includeExamples then Guidelines else []
  }

  /** The three variables the request template is filled with. */
  datatype PromptVars = PromptVars(prompt: string, styleInstructions: string, examples: string)

  function PromptVariables(prompt: string, stylePreference: string, includeExamples: bool): PromptVars {
    PromptVars(prompt, StyleClause(stylePreference), GuidelinesBlock(includeExamples))
  }

  /** The reply cleanup: delete every tagged fence, then every bare fence,
      then strip surrounding whitespace. */
  function CleanCode(reply: string): string {
    Strip(RemoveAll(RemoveAll(reply, PythonFence), Fence))
  }

  /** `generate_pdf_code` with the text-generation call as the parameter
      `generate`: `None` stands for the call raising, which the function
      reports as `None`; otherwise the reply is cleaned, so the program text
      returned has no surrounding whitespace and no fence. */
  function GeneratePdfCode(prompt: string, stylePreference: string, includeExamples: bool,
                           generate: PromptVars -> Option<string>): (r: Option<string>)
    ensures r.None? <==> generate(PromptVariables(prompt, stylePreference, includeExamples)).None?
    ensures r.Some? ==> r.value == CleanCode(generate(PromptVariables(prompt, stylePreference, includeExamples)).value)
    ensures r.Some? ==> IsTrimmed(r.value) && !Contains(r.value, Fence)
  {
    match generate(PromptVariables(prompt, stylePreference, includeExamples))
    case None => None
    case Some(reply) =>
      CleanCodeProperties(reply);
      Some(CleanCode(reply))
  }

  /** After deleting every fence, no fence is left: the left-to-right scan
      never glues two partial fences into a new one. */
  lemma {:induction false} NoFenceAfterRemoval(s: string)
    ensures forall i :: !OccursAt(RemoveAll(s, Fence), Fence, i)
    decreases |s|
  {
    if s != [] {
      if OccursAt(s, Fence, 0) {
        NoFenceAfterRemoval(s[|Fence|..]);
      } else {
        var rest := RemoveAll(s[1..], Fence);
        NoFenceAfterRemoval(s[1..]);
        var r := [s[0]] + rest;
        assert RemoveAll(s, Fence) == r;
        forall i ensures !OccursAt(r, Fence, i) {
          assert r[0] == s[0];
          if i >= 1 {
            OccursInSuffix(r, Fence, 1, i - 1);
            assert r[1..] == rest;
          } else if i == 0 && |r| >= 3 && s[0] == '`' {
            // The fence does not start at s[0], so one of s[1], s[2] is not a
            // backtick, and that is what `r` holds at position 1 or 2.
            assert |s| >= 2;
            if s[1] != '`' {
              assert !OccursAt(s[1..], Fence, 0);
              assert rest[0] == s[1];
            } else {
              assert |s| >= 3 ==> s[2] != '`';
              assert !OccursAt(s[1..], Fence, 0);
              assert rest == [s[1]] + RemoveAll(s[2..], Fence);
              assert |s| >= 3;
              assert !OccursAt(s[2..], Fence, 0);
              assert RemoveAll(s[2..], Fence)[0] == s[2];
              assert r[2] == s[2];
            }
          }
        }
      }
    }
  }

  /** The cleaned program text has no surrounding whitespace and contains no
      fence anywhere. */
  lemma CleanCodeProperties(reply: string)
    ensures IsTrimmed(CleanCode(reply))
    ensures !Contains(CleanCode(reply), Fence)
  {
    var s := RemoveAll(RemoveAll(reply, PythonFence), Fence);
    NoFenceAfterRemoval(RemoveAll(reply, PythonFence));
    var a, b := StripIsTrimmedSlice(s);
    forall i ensures !OccursAt(CleanCode(reply), Fence, i) {
      OccursInSlice(s, Fence, a, b, i);
    }
  }

  /** The usual shape of a fenced reply. */
  function Fenced(code: string): string {
    PythonFence + "\n" + code + "\n" + Fence
  }

  /** Inside "\n" + code + "\n" followed by a fence, no fence starts before
      the final one when `code` holds none. */
  lemma OnlyClosingFence(code: string)
    requires !Contains(code, Fence)
    ensures forall i :: 0 <= i < |code| + 2 ==> !OccursAt("\n" + code + "\n" + Fence, Fence, i)
  {
    var t := "\n" + code + "\n" + Fence;
    var n := |code|;
    assert t[0] == '\n' && t[n + 1] == '\n';
    assert forall k :: 0 <= k < n ==> t[k + 1] == code[k];
    forall i | 0 <= i < n + 2 ensures !OccursAt(t, Fence, i) {
      if 1 <= i && i + 2 <= n {
        assert code[i - 1..i + 2] == t[i..i + 3];
        assert !OccursAt(code, Fence, i - 1);
      }
    }
  }

  /** Deleting tagged fences from a fenced reply removes just the opening one. */
  lemma RemoveOpeningFence(code: string)
    requires !Contains(code, Fence)
    ensures RemoveAll(Fenced(code), PythonFence) == "\n" + code + "\n" + Fence
  {
    var t := "\n" + code + "\n" + Fence;
    assert Fenced(code) == PythonFence + t;
    assert OccursAt(PythonFence + t, PythonFence, 0);
    assert (PythonFence + t)[|PythonFence|..] == t;
    OnlyClosingFence(code);
    forall i ensures !OccursAt(t, PythonFence, i) {
      if OccursAt(t, PythonFence, i) {
        assert t[i..i + |Fence|] == t[i..i + |PythonFence|][..|Fence|];
        assert OccursAt(t, Fence, i);
      }
    }
    RemoveAllAbsent(t, PythonFence);
  }

  /** Deleting bare fences then removes just the closing one. */
  lemma RemoveClosingFence(code: string)
    requires !Contains(code, Fence)
    ensures RemoveAll("\n" + code + "\n" + Fence, Fence) == "\n" + code + "\n"
  {
    var a := "\n" + code + "\n";
    OnlyClosingFence(code);
    assert "\n" + code + "\n" + Fence == a + Fence;
    RemoveAllSkip(a, Fence, Fence);
    assert OccursAt(Fence, Fence, 0);
    assert RemoveAll(Fence, Fence) == [];
  }

  /** Stripping a line break on either side of trimmed text gives the text. */
  lemma StripFramed(code: string)
    requires IsTrimmed(code)
    ensures Strip("\n" + code + "\n") == code
  {
    var a := "\n" + code + "\n";
    var body := code + "\n";
    assert a == ['\n'] + body;
    TrimLeftSpace('\n', body);
    if code == [] {
      assert body == ['\n'] + [];
      TrimLeftSpace('\n', []);
    } else {
      assert body[0] == code[0];
      TrimRightSpace(code, '\n');
    }
  }

  /** Fence round trip: wrapping trimmed, fence-free program text in a
      tagged fence and cleaning it gives the text back exactly. */
  lemma FenceRoundTrip(code: string)
    requires IsTrimmed(code) && !Contains(code, Fence)
    ensures CleanCode(Fenced(code)) == code
  {
    RemoveOpeningFence(code);
    RemoveClosingFence(code);
    StripFramed(code);
  }
}
