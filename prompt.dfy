/** The prompt sent to the model (app.py:194-204): a fixed template around
    the first 6000 characters of the stored document text and the task as
    typed. */
module Prompt {

  /** How many characters of the document reach the prompt (`[:6000]`). */
  const DocumentBudget: nat := 6000

  /** The template's text before the document: a leading newline (the
      f-string opens with one), the expert line, a blank line, the heading. */
  const Preamble := "\nYou are an OpenCV & Image Processing expert.\n\nDocumentation:\n"

  /** Between the document and the task: a blank line and the task heading. */
  const TaskHeading := "\n\nTask:\n"

  /** After the task: a blank line, the instruction line, a final newline. */
  const Closing := "\n\nReturn ONLY valid Python code.\n"

  function Min(a: nat, b: nat): nat
  {
    if a <= b then a else b
  }

  /** `doc[:6000]`: a hard cut, with no regard to words or lines. The
      result is the longest prefix of the document that fits the budget. */
  function DocumentSection(doc: string): (section: string)
    ensures |section| == Min(|doc|, DocumentBudget)
    ensures section <= doc
    ensures |doc| <= DocumentBudget ==> section == doc
  {
    if |doc| <= DocumentBudget then doc else doc[..DocumentBudget]
  }

  /** The f-string: preamble, document section, task heading, the task
      verbatim, closing line, in that order and with nothing else. */
  function ComposePrompt(doc: string, task: string): (prompt: string)
    ensures
      var k := |Preamble| + |DocumentSection(doc)|;
      var t := k + |TaskHeading|;
      && |prompt| == t + |task| + |Closing|
      && prompt[..|Preamble|] == Preamble
      && prompt[|Preamble|..k] == DocumentSection(doc)
      && prompt[k..t] == TaskHeading
      && prompt[t..t + |task|] == task
      && prompt[t + |task|..] == Closing
  {
    var prompt := Preamble + DocumentSection(doc) + TaskHeading + task + Closing;
    var k := |Preamble| + |DocumentSection(doc)|;
    var t := k + |TaskHeading|;
    assert prompt[..|Preamble|] == Preamble;
    assert prompt[|Preamble|..k] == DocumentSection(doc);
    assert prompt[k..t] == TaskHeading;
    assert prompt[t..t + |task|] == task;
    assert prompt[t + |task|..] == Closing;
    prompt
  }

  /** Two tasks give the same prompt over the same document exactly when
      they are the same task: the task reaches the model intact. */
  lemma ComposePromptTaskInjective(doc: string, task1: string, task2: string)
    ensures ComposePrompt(doc, task1) == ComposePrompt(doc, task2) <==> task1 == task2
  {
    if ComposePrompt(doc, task1) == ComposePrompt(doc, task2) {
      var p := ComposePrompt(doc, task1);
      var t := |Preamble| + |DocumentSection(doc)| + |TaskHeading|;
      assert task1 == p[t..t + |task1|];
    }
  }

  /** Two documents give the same prompt for the same task exactly when
      their first 6000 characters agree: nothing past the budget reaches the
      model, and everything before it does. */
  lemma ComposePromptSeesOnlyBudget(doc1: string, doc2: string, task: string)
    ensures ComposePrompt(doc1, task) == ComposePrompt(doc2, task)
            <==> DocumentSection(doc1) == DocumentSection(doc2)
  {
    var s1, s2 := DocumentSection(doc1), DocumentSection(doc2);
    if ComposePrompt(doc1, task) == ComposePrompt(doc2, task) {
      var p := ComposePrompt(doc1, task);
      assert |s1| == |s2|;
      assert s1 == p[|Preamble|..|Preamble| + |s1|];
    }
  }

  /** Text appended to a document that already fills the budget does not
      change the prompt. */
  lemma ComposePromptIgnoresOverflow(doc: string, extra: string, task: string)
    requires |doc| >= DocumentBudget
    ensures ComposePrompt(doc + extra, task) == ComposePrompt(doc, task)
  {
    assert DocumentSection(doc + extra) == DocumentSection(doc) by {
      assert (doc + extra)[..DocumentBudget] == doc[..DocumentBudget];
    }
    ComposePromptSeesOnlyBudget(doc + extra, doc, task);
  }
}
