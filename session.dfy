/** The per-browser-session state of the data-analysis assistant and the
    reset rule `init_page` applies to it on every rerun of the page. */
module Session {
  import opened Wrappers

  /** One chat message kept in the session's `messages` list. */
  datatype ChatMessage = ChatMessage(role: string, content: string)

  /** The client of the code-interpreter sandbox. Its behaviour is not part
      of this model; only its identity is: a reset installs a new one. */
  class CodeInterpreterClient {
    constructor () {}
  }

  /** A `ConversationBufferWindowMemory`: the conversation window the agent
      reads into its prompt. It is built once with its settings; how it
      trims the conversation is not part of this model. */
  class WindowMemory {
    const k: nat
    const memoryKey: string
    const returnMessages: bool

    constructor (k: nat, memoryKey: string, returnMessages: bool)
      ensures this.k == k && this.memoryKey == memoryKey && this.returnMessages == returnMessages
    {
      this.k := k;
      this.memoryKey := memoryKey;
      this.returnMessages := returnMessages;
    }

    /** The settings `init_page` builds the memory with. */
    predicate Configured() {
      k == 10 && memoryKey == "chat_history" && returnMessages
    }
  }

  /** `st.session_state`, restricted to the keys the assistant uses. A field
      holding `None` is a key the session does not have yet. */
  class SessionState {
    var messages: Option<seq<ChatMessage>>
    var codeInterpreterClient: Option<CodeInterpreterClient>
    var memory: Option<WindowMemory>
    var customSystemPrompt: Option<string>
    var uploadedFiles: Option<seq<string>>

    /** A new browser session has none of the keys. */
    constructor ()
      ensures messages.None? && codeInterpreterClient.None? && memory.None?
      ensures customSystemPrompt.None? && uploadedFiles.None?
      ensures Consistent()
    {
      messages := None;
      codeInterpreterClient := None;
      memory := None;
      customSystemPrompt := None;
      uploadedFiles := None;
    }

    /** Every key the page reads after `init_page` is present, and the memory
        has the settings `init_page` gives it. */
    predicate Ready()
      reads this
    {
      && messages.Some? && codeInterpreterClient.Some? && memory.Some?
      && customSystemPrompt.Some? && uploadedFiles.Some?
      && memory.value.Configured()
    }

    /** The five keys are only ever written together: either the session has
        none of them or it is ready. */
    predicate Consistent()
      reads this
    {
      Ready() || (messages.None? && codeInterpreterClient.None? && memory.None?
                  && customSystemPrompt.None? && uploadedFiles.None?)
    }

    /** Whether `init_page` resets the session: the clear button was pressed
        or there is no `messages` key. */
    predicate ResetDue(clearPressed: bool)
      reads this
    {
      clearPressed || messages.None?
    }

    /** The reset branch of `init_page`. `clearPressed` is what the sidebar
        button returned on this run and `systemPrompt` is the text of the
        system-prompt file. When a reset is due, the five keys are replaced
        in one step: no messages, a new interpreter client, a new memory
        with window 10 under key "chat_history" returning messages, the
        system prompt just read, and no uploaded files. Otherwise the session
        is left exactly as it was. In a consistent session the page is ready
        afterwards either way. */
    method InitPage(clearPressed: bool, systemPrompt: string)
      modifies this
      ensures old(ResetDue(clearPressed)) ==>
        && messages == Some([])
        && codeInterpreterClient.Some? && fresh(codeInterpreterClient.value)
        && memory.Some? && fresh(memory.value) && memory.value.Configured()
        && customSystemPrompt == Some(systemPrompt)
        && uploadedFiles == Some([])
      ensures !old(ResetDue(clearPressed)) ==> unchanged(this)
      ensures old(Consistent()) ==> Ready()
    {
      if clearPressed || messages.None? {
        messages := Some([]);
        var client := new CodeInterpreterClient();
        codeInterpreterClient := Some(client);
        var window := new WindowMemory(10, "chat_history", true);
        memory := Some(window);
        customSystemPrompt := Some(systemPrompt);
        uploadedFiles := Some([]);
      }
    }
  }
}
