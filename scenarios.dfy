/** Worked examples: concrete inputs worked through the help desk's pieces. */
module Scenarios {
  import opened Wrappers
  import opened Strings
  import opened Extract
  import opened Clean
  import opened HelpDesk

  /** Two PDF pages with an image-only page between them: the texts are
      joined as they are, with no separator. */
  lemma PdfPagesJoinWithoutSeparator(first: string, second: string)
    ensures PdfText([Some(first), None, Some(second)]) == first + second
  {
    var pages := [Some(first), None, Some(second)];
    var two := [Some(first), None];
    var one := [Some(first)];
    assert pages[..2] == two;
    assert two[..1] == one;
    assert one[..0] == [];
    assert PdfText(one) == first;
    assert PdfText(two) == first;
    assert PdfText(pages) == PdfText(two) + second;
  }

  /** One session: a PDF upload, an empty task, then a task whose reply is a
      fenced block. */
  method SessionWalkthrough()
  {
    var s := new Session();
    var alice, bob := "Alice\n", "Bob\n";
    s.OnUpload(Upload("guide.pdf", [Some(alice), None, Some(bob)], []));
    PdfPagesJoinWithoutSeparator(alice, bob);
    assert s.docContext == alice + bob;

    var sent := s.OnGenerate("", (prompt: string) => None);
    assert sent == None && s.generatedCode == "";

    var body := ExampleBody;
    CleanResponseNotIdempotent();
    var reply := PythonFence + body + Fence;
    sent := s.OnGenerate("add print(x)", (prompt: string) => Some(reply));
    assert sent == Some(Prompt.ComposePrompt(alice + bob, "add print(x)"));
    assert s.generatedCode == body;
    assert s.docContext == alice + bob;

    sent := s.OnGenerate("add print(x)", (prompt: string) => None);
    assert s.generatedCode == body;
  }

  /** The code inside the example reply, and the fenced block's body around it. */
  const ExampleCode := "x = 1\nprint(x)"
  const ExampleBody := "\n" + ExampleCode + "\n"

  /** Cleaning is not idempotent. The reply "```python\nx = 1\nprint(x)\n```"
      cleans to "\nx = 1\nprint(x)\n", which still starts and ends with a
      newline; cleaning that again gives "x = 1\nprint(x)". */
  lemma CleanResponseNotIdempotent()
    ensures CleanResponse(PythonFence + ExampleBody + Fence) == ExampleBody
    ensures CleanResponse(ExampleBody) == ExampleCode != ExampleBody
  {
    var body := ExampleBody;
    assert forall i :: 0 <= i < |body| ==> body[i] != '`';
    FencedBlockCleansToBody(body);
    FencedBlockCleansTwice(body);
    StripUnique("\n", ExampleCode, "\n");
  }
}
