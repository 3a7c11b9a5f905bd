/** The help desk's session state and its two events (app.py:157-217): a
    file upload, which replaces the remembered document text, and a click on
    "Generate", which sends a prompt to the model and stores the cleaned reply
    as the generated code. */
module HelpDesk {
  import opened Wrappers
  import opened Extract
  import opened Prompt
  import opened Clean

  /** `st.session_state` as far as the help desk uses it. */
  class Session {
    /** The text of the last uploaded document (`doc_context`). */
    var docContext: string
    /** The last cleaned model reply (`generated_code`). */
    var generatedCode: string

    /** Every value ever stored as generated code is in cleaned form. */
    ghost predicate Valid()
      reads this
    {
      Cleaned(generatedCode)
    }

    /** Session start: both fields begin empty (app.py:158-162). */
    constructor ()
      ensures Valid()
      ensures docContext == "" && generatedCode == ""
    {
      docContext := "";
      generatedCode := "";
    }

    /** A file arrives in the uploader (app.py:167-185): the text extracted
        from it replaces the document text wholesale, whatever the name; the
        generated code is not touched. */
    method OnUpload(upload: Upload)
      requires Valid()
      modifies this`docContext
      ensures Valid()
      ensures docContext == UploadText(upload)
      ensures generatedCode == old(generatedCode)
    {
      var text := DispatchUpload(upload);
      docContext := text;
    }

    /** "Generate" is clicked with `task` in the text box (app.py:190-217).
        `complete` stands for the chat-completion call: it maps the prompt it
        is sent to the reply's message text, or to `None` when the call
        raises (a transport error, or a reply with no content, on which
        `.strip()` raises), which ends the run before anything is stored.
        Returns the prompt sent, `None` when nothing was sent. An empty task
        only warns. Otherwise the cleaned reply becomes the generated code,
        with no further check, and the document text stays as it was. */
    method OnGenerate(task: string, complete: string -> Option<string>) returns (sent: Option<string>)
      requires Valid()
      modifies this`generatedCode
      ensures Valid()
      ensures docContext == old(docContext)
      ensures task == "" ==> sent == None && generatedCode == old(generatedCode)
      ensures task != "" ==> sent == Some(ComposePrompt(docContext, task))
      ensures task != "" && complete(ComposePrompt(docContext, task)).Some? ==>
                generatedCode == CleanResponse(complete(ComposePrompt(docContext, task)).value)
      ensures task != "" && complete(ComposePrompt(docContext, task)).None? ==>
                generatedCode == old(generatedCode)
    {
      if task == "" {
        sent := None;
      } else {
        var prompt := ComposePrompt(docContext, task);
        sent := Some(prompt);
        var reply := complete(prompt);
        if reply.Some? {
          generatedCode := CleanResponse(reply.value);
        }
      }
    }
  }
}
