/** `select_model`: the chat model behind each label of the sidebar's model
    radio. */
module ModelSelection {
  import opened Wrappers

  /** The chat-model classes the assistant can build. */
  datatype Provider = OpenAI | Anthropic | GoogleGenAI

  /** A chat model as `select_model` configures it. */
  datatype ChatModel = ChatModel(provider: Provider, modelName: string, temperature: int)

  /** The radio's options, in the order the sidebar shows them. */
  const ModelLabels: seq<string> :=
    ["GPT-4", "Claude 3.5 Sonnet", "Gemini 1.5 Pro", "GPT-3.5 (not recommended)"]

  /** `select_model()`, given the option `choice` the radio returned: the
      model of the first branch of the if-chain whose label equals `choice`.
      Every label of the radio gives a model, always with temperature 0; any
      other string falls through every branch and gives nothing. */
  function SelectModel(choice: string): (r: Option<ChatModel>)
    ensures r.Some? <==> choice in ModelLabels
    ensures r.Some? ==> r.value.temperature == 0
  {
    if choice == "GPT-3.5 (not recommended)" then Some(ChatModel(OpenAI, "gpt-3.5-turbo", 0))
    else if choice == "GPT-4" then Some(ChatModel(OpenAI, "gpt-4o", 0))
    else if choice == "Claude 3.5 Sonnet" then Some(ChatModel(Anthropic, "claude-3-5-sonnet-20240620", 0))
    else if choice == "Gemini 1.5 Pro" then Some(ChatModel(GoogleGenAI, "gemini-1.5-pro-latest", 0))
    else None
  }

  /** The label-to-model table, written out in the radio's order. */
  const ModelTable: seq<(string, Provider, string)> := [
    ("GPT-4", OpenAI, "gpt-4o"),
    ("Claude 3.5 Sonnet", Anthropic, "claude-3-5-sonnet-20240620"),
    ("Gemini 1.5 Pro", GoogleGenAI, "gemini-1.5-pro-latest"),
    ("GPT-3.5 (not recommended)", OpenAI, "gpt-3.5-turbo")
  ]

  /** The radio's k-th option selects the k-th model of the table. */
  lemma {:induction false} SelectModelTable(k: nat)
    requires k < |ModelLabels|
    ensures |ModelTable| == |ModelLabels| && ModelTable[k].0 == ModelLabels[k]
    ensures SelectModel(ModelLabels[k]).Some?
    ensures SelectModel(ModelLabels[k]).value.provider == ModelTable[k].1
    ensures SelectModel(ModelLabels[k]).value.modelName == ModelTable[k].2
  {
  }

  /** Different options select different models (no two labels share a
      model name). */
  lemma {:induction false} SelectModelInjective(a: string, b: string)
    requires SelectModel(a).Some? && SelectModel(b).Some?
    requires SelectModel(a).value.modelName == SelectModel(b).value.modelName
    ensures a == b
  {
  }
}
