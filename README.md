# AI Help Desk: a Dafny model

This project models the "AI Help Desk" panel of a Streamlit documentation
browser (`app.py`, lines 157-217). The panel keeps two session values: the
text of the last uploaded document (`doc_context`) and the last code the
model returned (`generated_code`). An upload of a `.pdf` or `.pptx` file
replaces the document text with the text extracted from it. A click on
"Generate" with a non-empty task builds a prompt from a fixed template, the
first 6000 characters of the document text and the task. It sends the
prompt to a chat-completion endpoint, cleans the reply and stores it as the
generated code.

Modules:

- `Wrappers` (`wrappers.dfy`): `Option`.
- `Strings` (`strings.dfy`): the Python `str` operations the panel uses. These are `startswith`, `endswith`, `strip()` and `replace`, on strings of code points.
- `Extract` (`extract.dfy`): the PDF page loop and the slide/shape loops, written as methods with loops. It also holds the functions that specify them and the dispatch on the file name.
- `Prompt` (`prompt.dfy`): the prompt template and the 6000-character cut.
- `Clean` (`clean.dfy`): stripping the reply and deleting Markdown code fences.
- `HelpDesk` (`helpdesk.dfy`): the `Session` class with its two fields and its two events, `OnUpload` and `OnGenerate`.
- `Scenarios` (`scenarios.dfy`): worked examples and a client method that runs one session.

The PDF and slide parsers are outside the model. An upload carries what they
report: one `Option<string>` per PDF page (`extract_text()`), and one
`Option<string>` per shape per slide (`Some` when the shape has a `text`
attribute). The chat-completion call is the parameter
`complete: string -> Option<string>`. `None` stands for a call that raises,
or a reply without content on which `.strip()` raises. Either way the
script run ends before anything is stored.

What the code does, as the model states it:

- The code has no syntax check and no placeholder rejection. Every reply to a non-empty task is cleaned and stored (`Session.OnGenerate`). No accept/reject outcome exists.
- The prompt does not contain the previously generated code. It holds only the template, the document section and the task (`Prompt.ComposePrompt`).
- Fence removal is not followed by a second strip. So "```python\nx = 1\nprint(x)\n```" cleans to "\nx = 1\nprint(x)\n", not "x = 1\nprint(x)". Cleaning is therefore not idempotent (`Scenarios.CleanResponseNotIdempotent`); a second cleaning of any stored code only strips it (`Clean.CleanTwiceIsStrip`).
- The code has no size ceiling and no word-processor branch. A name that ends in neither ".pdf" nor ".pptx" still replaces the document text, with "" (`Extract.UploadText`).
- PDF pages are joined with no separator. Each slide shape's text is followed by one newline.

## Model

| member | source | states |
|---|---|---|
| `HelpDesk.Session.constructor` | app.py:158-162 | a new session holds empty document text and empty generated code, and satisfies the session invariant |
| `HelpDesk.Session.OnUpload` | app.py:167-185 | an upload replaces the document text wholesale with the text extracted for the upload's name; the generated code is unchanged and the invariant is kept |
| `HelpDesk.Session.OnGenerate` | app.py:190-217 | an empty task sends nothing and changes nothing; otherwise the prompt sent is composed from the current document text and the task, the document text is unchanged, and the generated code becomes exactly the cleaned reply (or stays as it was when the call raises); the stored code always stays in cleaned form |
| `Extract.ExtractPdf` | app.py:170-175 | the page loop returns the in-order join of the pages' texts, pages without text adding nothing |
| `Extract.PdfTextAppend` | app.py:172-175 | the text of a run of pages is the text of its first part followed directly by the text of the rest, nothing inserted between |
| `Extract.PdfTextAt` | app.py:172-175 | each page's text appears unchanged between the text of the pages before it and the text of the pages after it |
| `Extract.PdfTextSkipsEmptyPage` | app.py:173-175 | a page that yields no text (None or "") can be deleted without changing the extracted text |
| `Extract.ExtractPptx` | app.py:177-182 | the nested slide and shape loops return the deck text: slides in order, shapes in order within each slide |
| `Extract.SlideTextAppend` | app.py:180-182 | shape contributions concatenate in order with nothing inserted |
| `Extract.SlideTextAt` | app.py:180-182 | each shape with text contributes exactly its text followed by one newline, in its place; a shape without text contributes nothing |
| `Extract.DeckTextIsShapeText` | app.py:179-182 | walking slides and then shapes gives the same text as walking all shapes of the deck as one list, with no separator between slides |
| `Extract.SlideTextSize` | app.py:180-182 | the text of a slide's shapes is as long as the sum of length plus one over its text-bearing shapes |
| `Extract.DeckTextSize` | app.py:179-182 | the deck text is as long as the sum of length plus one over all text-bearing shapes of the deck |
| `Extract.UploadText` | app.py:168-184 | a ".pdf" name yields the PDF text, a ".pptx" name the slide text, and any other name the empty string |
| `Extract.DispatchUpload` | app.py:167-184 | the upload branch returns the text the name selects, starting from the empty string |
| `Prompt.DocumentSection` | app.py:198 | the documentation section is the prefix of the document of length min(length, 6000), and the whole document when it is at most 6000 characters |
| `Prompt.ComposePrompt` | app.py:194-204 | the prompt is the preamble, the document section, the task heading, the task verbatim and the closing instruction, in that order and nothing else |
| `Prompt.ComposePromptTaskInjective` | app.py:200-201 | for one document, two tasks give the same prompt if and only if they are equal |
| `Prompt.ComposePromptSeesOnlyBudget` | app.py:197-198 | for one task, two documents give the same prompt if and only if their first 6000 characters agree |
| `Prompt.ComposePromptIgnoresOverflow` | app.py:198 | text appended to a document of at least 6000 characters never changes the prompt |
| `Strings.LeadingSpace` | app.py:212 | counts exactly the whitespace run at the front of a string |
| `Strings.TrailingSpace` | app.py:212 | counts exactly the whitespace run at the back of a string |
| `Strings.Strip` | app.py:212 | `strip()` returns a slice of the input with only whitespace on both sides that neither starts nor ends with whitespace |
| `Strings.StripUnique` | app.py:212 | whitespace around a stripped string is exactly what `strip()` removes, so the contract of `Strip` determines its result |
| `Strings.StripKeepsStripped` | app.py:212 | `strip()` returns a string that already neither starts nor ends with whitespace unchanged |
| `Strings.StripKeepsAbsentChar` | app.py:212 | `strip()` never introduces a character that the input does not contain |
| `Strings.StripIdempotent` | app.py:212 | stripping twice gives what stripping once gives |
| `Strings.ReplaceAll` | app.py:215 | `replace` with a non-empty pattern and an empty replacement never lengthens the string |
| `Strings.ReplaceAllAtMatch` | app.py:215 | an occurrence of the pattern at the front is replaced and the scan resumes right after it |
| `Strings.ReplaceAllKeepsPrefix` | app.py:215 | a front part holding no character that can start the pattern passes through `replace` unchanged |
| `Clean.CleanResponse` | app.py:212-215 | a reply whose stripped form does not start with three backticks comes back exactly stripped; one that does comes back with no three consecutive backticks anywhere; the result is never longer than the reply and is in cleaned form |
| `Clean.FenceRemovalLeavesNoFence` | app.py:215 | deleting every "```" left to right never leaves a "```" behind |
| `Clean.CleanTwiceIsStrip` | app.py:212-215 | for every reply, cleaning the cleaned reply again gives the cleaned reply stripped: a second cleaning never deletes a fence, it only strips |
| `Clean.CleanedStripsUnfenced` | app.py:212-215 | code in cleaned form, once stripped, never opens with "```" |
| `Clean.FenceFreeStripsUnfenced` | app.py:212-215 | stripping a string that holds no "```" cannot produce one that opens with "```" |
| `Clean.CleanResponseIdempotentUnfenced` | app.py:212-215 | cleaning a reply that does not open with a fence twice gives what cleaning it once gives |
| `Clean.RemoveFencesFromBlock` | app.py:215 | deleting "```python" then "```" from a single fenced block whose body has no backtick leaves the body |
| `Clean.FencedBlockCleansToBody` | app.py:212-215 | a reply that is one Python-fenced block cleans to its body exactly, leading and trailing newlines included |
| `Clean.FencedBlockCleansTwice` | app.py:212-215 | cleaning such a reply a second time gives the stripped body |
| `Scenarios.CleanResponseNotIdempotent` | app.py:212-215 | "```python\nx = 1\nprint(x)\n```" cleans to "\nx = 1\nprint(x)\n", which cleans again to the different "x = 1\nprint(x)" |
| `Scenarios.PdfPagesJoinWithoutSeparator` | app.py:172-175 | pages "A" and "B" with an image-only page between them extract to "A" + "B" |

## Left out

- Page configuration, CSS, header, navigation and the static topic panels (app.py:13-150, 154-155, 230): presentation only.
- The OpenAI client, loading the API key and the request itself (app.py:9-10, 206-210): network I/O. The reply is the parameter `complete`. The model name, the temperature and the single user message are not represented.
- Parsing by `PdfReader`, `Presentation` and `hasattr(shape, "text")` (app.py:171-181): foreign library code. Their results are inputs, and an exception they raise on a malformed file is not modelled.
- The widgets `file_uploader`, `text_input`, `button`, `spinner`, `success`, `warning`, `code` and `download_button` (app.py:165, 185, 188-192, 205, 219-228): UI plumbing. The uploader's extension filter is not modelled. `OnUpload` accepts any name and handles the ones that match neither branch.
- Streamlit's rerun model: the whole script runs again on every interaction, and a file left in the uploader is extracted again each time. Each run's upload is modelled as one `OnUpload` event, so repeated identical uploads are not distinguished.
- `Strings.IsSpace` lists CPython's whitespace characters for `str.strip()`. The proofs rely only on these facts about it: "`" is not whitespace (used by `Clean.FencedBlockCleansToBody` and, through it, by `Clean.FencedBlockCleansTwice`, `Scenarios.CleanResponseNotIdempotent` and `Scenarios.SessionWalkthrough`), "\n" is whitespace, and "x" and ")" are not (used by the worked example).
- Python strings are sequences of code points, and so are Dafny strings here. Surrogate code points, which Python allows in a `str`, are not represented.
- Several users, concurrent sessions and session isolation: the model has one session.
