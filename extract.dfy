/** Turning an uploaded file into the text the help desk remembers
    (app.py:167-184). The PDF and slide-deck parsers are outside the model:
    what they report about the file is given as sequences of optional
    strings, one per page or per shape. */
module Extract {
  import opened Wrappers
  import opened Strings

  /** An uploaded file: its name, what the PDF reader reports for each page
      (`extract_text()`, `None` when it yields nothing) and what the slide
      reader reports for each shape of each slide (`Some(text)` when the shape
      has a `text` attribute, `None` otherwise). Only the reading the name
      selects is ever consulted. */
  datatype Upload = Upload(
    name: string,
    pages: seq<Option<string>>,
    slides: seq<seq<Option<string>>>)

  // ---------------- PDF (app.py:170-175) ----------------

  /** What one page adds: its text when it has any (`if text:`), else nothing. */
  function PageText(page: Option<string>): string
  {
    match page
    case Some(text) => text
    case None => ""
  }

  /** The pages' texts joined in page order with no separator. */
  function PdfText(pages: seq<Option<string>>): string
  {
    if pages == [] then ""
    else PdfText(pages[..|pages| - 1]) + PageText(pages[|pages| - 1])
  }

  /** The page loop: grows the text page by page. */
  method ExtractPdf(pages: seq<Option<string>>) returns (text: string)
    ensures text == PdfText(pages)
  {
    text := "";
    for i := 0 to |pages|
      invariant text == PdfText(pages[..i])
    {
      var page := pages[i];
      if page.Some? && page.value != "" {
        text := text + page.value;
      }
      assert pages[..i + 1][..i] == pages[..i];
    }
    assert pages[..|pages|] == pages;
  }

  /** Joining is compositional: the text of a run of pages is the text of
      its first part followed by the text of the rest, nothing between. */
  lemma {:induction false} PdfTextAppend(front: seq<Option<string>>, back: seq<Option<string>>)
    ensures PdfText(front + back) == PdfText(front) + PdfText(back)
    decreases |back|
  {
    if back == [] {
      assert front + back == front;
    } else {
      var init, x := back[..|back| - 1], back[|back| - 1];
      assert (front + back)[..|front + back| - 1] == front + init;
      PdfTextAppend(front, init);
      JoinAssoc(PdfText(front), PdfText(init), PageText(x));
    }
  }

  /** A page's text sits, unchanged, right after the text of the pages
      before it and right before the text of the pages after it. */
  lemma PdfTextAt(before: seq<Option<string>>, page: Option<string>, after: seq<Option<string>>)
    ensures PdfText(before + [page] + after) == PdfText(before) + PageText(page) + PdfText(after)
  {
    assert PdfText([page]) == PageText(page) by {
      assert [page][..0] == [];
      assert PdfText([page]) == PdfText([]) + PageText(page);
    }
    PdfTextAppend(before, [page]);
    PdfTextAppend(before + [page], after);
  }

  /** A page with no text (an image-only page) adds nothing. */
  lemma PdfTextSkipsEmptyPage(before: seq<Option<string>>, page: Option<string>, after: seq<Option<string>>)
    requires page == None || page == Some("")
    ensures PdfText(before + [page] + after) == PdfText(before + after)
  {
    PdfTextAt(before, page, after);
    PdfTextAppend(before, after);
  }

  // ---------------- Slides (app.py:177-182) ----------------

  /** What one shape adds: its text and a newline if it has text at all
      (even empty text), nothing otherwise. */
  function ShapeText(shape: Option<string>): string
  {
    match shape
    case Some(text) => text + "\n"
    case None => ""
  }

  /** The shapes' contributions in shape order. */
  function SlideText(shapes: seq<Option<string>>): string
  {
    if shapes == [] then ""
    else SlideText(shapes[..|shapes| - 1]) + ShapeText(shapes[|shapes| - 1])
  }

  /** The slides' contributions in slide order. */
  function DeckText(slides: seq<seq<Option<string>>>): string
  {
    if slides == [] then ""
    else DeckText(slides[..|slides| - 1]) + SlideText(slides[|slides| - 1])
  }

  /** The nested slide and shape loops: grow the text shape by shape. */
  method ExtractPptx(slides: seq<seq<Option<string>>>) returns (text: string)
    ensures text == DeckText(slides)
  {
    text := "";
    for i := 0 to |slides|
      invariant text == DeckText(slides[..i])
    {
      var shapes := slides[i];
      ghost var before := text;
      for j := 0 to |shapes|
        invariant text == before + SlideText(shapes[..j])
      {
        var shape := shapes[j];
        if shape.Some? {
          text := text + (shape.value + "\n");
        }
        assert shapes[..j + 1][..j] == shapes[..j];
        JoinAssoc(before, SlideText(shapes[..j]), ShapeText(shape));
      }
      assert shapes[..|shapes|] == shapes;
      assert slides[..i + 1][..i] == slides[..i];
    }
    assert slides[..|slides|] == slides;
  }

  /** All shapes of a deck, slide after slide. */
  function Shapes(slides: seq<seq<Option<string>>>): seq<Option<string>>
  {
    if slides == [] then [] else Shapes(slides[..|slides| - 1]) + slides[|slides| - 1]
  }

  /** Sum of |text| + 1 over the shapes that have text. */
  function TextSize(shapes: seq<Option<string>>): nat
  {
    if shapes == [] then 0
    else
      var last := shapes[|shapes| - 1];
      TextSize(shapes[..|shapes| - 1]) + (if last.Some? then |last.value| + 1 else 0)
  }

  lemma {:induction false} SlideTextAppend(front: seq<Option<string>>, back: seq<Option<string>>)
    ensures SlideText(front + back) == SlideText(front) + SlideText(back)
    decreases |back|
  {
    if back == [] {
      assert front + back == front;
    } else {
      var init, x := back[..|back| - 1], back[|back| - 1];
      assert (front + back)[..|front + back| - 1] == front + init;
      SlideTextAppend(front, init);
      JoinAssoc(SlideText(front), SlideText(init), ShapeText(x));
    }
  }

  /** Walking slides and then shapes gives the same text as walking the
      deck's shapes as one list: no separator between slides. */
  lemma {:induction false} DeckTextIsShapeText(slides: seq<seq<Option<string>>>)
    ensures DeckText(slides) == SlideText(Shapes(slides))
    decreases |slides|
  {
    if slides != [] {
      var front := slides[..|slides| - 1];
      DeckTextIsShapeText(front);
      SlideTextAppend(Shapes(front), slides[|slides| - 1]);
    }
  }

  /** Each text-bearing shape adds exactly its text and one newline. */
  lemma {:induction false} SlideTextSize(shapes: seq<Option<string>>)
    ensures |SlideText(shapes)| == TextSize(shapes)
    decreases |shapes|
  {
    if shapes != [] {
      SlideTextSize(shapes[..|shapes| - 1]);
    }
  }

  /** The deck's text is as long as the sum of |text| + 1 over all of its
      text-bearing shapes. */
  lemma DeckTextSize(slides: seq<seq<Option<string>>>)
    ensures |DeckText(slides)| == TextSize(Shapes(slides))
  {
    DeckTextIsShapeText(slides);
    SlideTextSize(Shapes(slides));
  }

  /** A shape contributes its text and a newline, or nothing, in place. */
  lemma SlideTextAt(before: seq<Option<string>>, shape: Option<string>, after: seq<Option<string>>)
    ensures SlideText(before + [shape] + after) == SlideText(before) + ShapeText(shape) + SlideText(after)
  {
    assert SlideText([shape]) == ShapeText(shape) by {
      assert [shape][..0] == [];
      assert SlideText([shape]) == SlideText([]) + ShapeText(shape);
    }
    SlideTextAppend(before, [shape]);
    SlideTextAppend(before + [shape], after);
  }

  // ---------------- Dispatch (app.py:167-184) ----------------

  /** The text an upload leaves behind: the PDF reading for a name ending in
      ".pdf", the slide reading for one ending in ".pptx", and the empty
      string for any other name (the two suffixes cannot both match). */
  function UploadText(upload: Upload): (text: string)
    ensures EndsWith(upload.name, ".pdf") ==> text == PdfText(upload.pages)
    ensures EndsWith(upload.name, ".pptx") ==> text == DeckText(upload.slides)
    ensures !EndsWith(upload.name, ".pdf") && !EndsWith(upload.name, ".pptx") ==> text == ""
  {
    if EndsWith(upload.name, ".pdf") then
      assert !EndsWith(upload.name, ".pptx") by {
        assert upload.name[|upload.name| - 1] == ".pdf"[3];
      }
      PdfText(upload.pages)
    else if EndsWith(upload.name, ".pptx") then DeckText(upload.slides)
    else ""
  }

  /** The upload branch: starts from "" and runs the loop the name selects. */
  method DispatchUpload(upload: Upload) returns (text: string)
    ensures text == UploadText(upload)
  {
    text := "";
    if EndsWith(upload.name, ".pdf") {
      text := ExtractPdf(upload.pages);
    } else if EndsWith(upload.name, ".pptx") {
      text := ExtractPptx(upload.slides);
    }
  }
}
