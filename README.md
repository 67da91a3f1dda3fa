# Data-analysis assistant: reply decomposition, session reset, agent assembly

This project models the core logic of a chat assistant that answers data
questions with an LLM agent backed by BigQuery and a code-interpreter
sandbox, together with the formatter that turns a table of frequently asked
questions into texts for a vector store.

- **Reply decomposition (`parse_response`).** A model reply can hold
  `<img ... src="...">` tags. The image paths are read out with the
  pattern `<img\s+[^>]*?src="([^"]+)"[^>]*?>`: `findall` gives the captured
  paths, `sub('')` deletes every match, and `strip()` trims the result.
  - `ImgPattern.MatchAt` decides, for one start index, what Python's
    backtracking engine returns for this pattern. `ImgPattern.Instance`
    describes every way the pattern can match. The lemmas prove that
    `MatchAt` returns the instance with the leftmost `src="`.
  - `ResponseParser.ScanBy` is the left-to-right scan that `findall` and
    `sub` share. Where a match starts, the whole tag becomes one piece and
    the scan resumes after it, so matches never overlap. Anywhere else one
    character is kept.
  - `PyStr` models Python's `str.isspace` class, which is also what `\s`
    matches, and `str.strip()`.
- **Session reset (`init_page`).** `Session.SessionState` is a class with
  one field per session key. A field holding `None` is a key the session
  does not have. `InitPage` replaces the five keys together, or leaves the
  session untouched.
- **Model choice (`select_model`).** `ModelSelection.SelectModel` maps each
  radio label to its provider and model name, always with temperature 0. Any
  other string gives `None`.
- **Agent assembly (`create_agent`).** `Agent.CreateAgent` builds the
  agent from:
  - the three tools, in order;
  - the four prompt slots, in order;
  - the selected model;
  - the session's own memory object.
- **Q/A texts.** `QaVectorstore.BuildQaTexts` is the ingestion loop. It
  appends `"question: " + q + "\nanswer: " + a` for each row, in order.
  `ParseQa` reads such a text back.

Three properties one might expect of a reply decomposer do not hold of this
code, and the model follows the code:

- **Idempotence.** Decomposing the cleaned text a second time can extract
  more paths. `ResponseCases.NotIdempotent` shows such a reply: the first
  pass leaves `<img src="b">` behind.
- **Whitespace around a removed tag.** It is not removed. Only the two ends
  of the whole text are stripped.
- **Case-insensitive tags.** The pattern is case-sensitive, so `<IMG` is not
  matched. Other attributes may come before `src`.

## Model

| member | source | states |
|---|---|---|
| PyStr.IsSpace | chapter11/part2/main.py:112-118 | the characters `\s` matches and `strip()` removes: Python's `str.isspace` set, U+0009 to U+000D, U+001C to U+0020, U+0085, U+00A0, U+1680, U+2000 to U+200A, U+2028, U+2029, U+202F, U+205F and U+3000 |
| PyStr.SkipSpace | chapter11/part2/main.py:118 | the first non-whitespace index at or after `i`; everything skipped is whitespace |
| PyStr.SkipSpaceBack | chapter11/part2/main.py:118 | scanning back, the start of the whitespace run that ends the text |
| PyStr.Strip | chapter11/part2/main.py:118 | `strip()` returns a slice of its input, all outside of which is whitespace, and the slice neither begins nor ends with whitespace |
| PyStr.StripUnique | chapter11/part2/main.py:118 | any slice with Strip's two properties is exactly Strip's result, so Strip's contract determines it |
| PyStr.StripKeeps | chapter11/part2/main.py:118 | a text that neither begins nor ends with whitespace is unchanged by `strip()` |
| PyStr.StripTrailing | chapter11/part2/main.py:118 | trailing whitespace does not change the stripped text |
| ImgPattern.FindChar | chapter11/part2/main.py:112 | the index found holds the character searched for |
| ImgPattern.FindCharFirst | chapter11/part2/main.py:112 | no earlier index holds it, so the found index is the first occurrence (this is how `[^"]+` and `[^>]*?>` stop) |
| ImgPattern.ValueAt | chapter11/part2/main.py:112 | the part of the pattern after `src="`: the capture is non-empty and has no `"` |
| ImgPattern.ValueAtSound | chapter11/part2/main.py:112 | each result of ValueAt is an instance of `([^"]+)"[^>]*?>` whose end is one past the first `>` after the closing quote |
| ImgPattern.ValueAtComplete | chapter11/part2/main.py:112 | every such instance is what ValueAt returns (the two together make ValueAt exact) |
| ImgPattern.SrcPos | chapter11/part2/main.py:112 | the `src="` chosen by the lazy `[^>]*?`: from it the rest of the pattern matches |
| ImgPattern.SrcPosCandidate | chapter11/part2/main.py:112 | the chosen `src="` is reachable without crossing `>` |
| ImgPattern.SrcPosEarliest | chapter11/part2/main.py:112 | there is no candidate `src="` before the chosen one, and none at all when nothing is chosen |
| ImgPattern.CandidateShift | chapter11/part2/main.py:112 | skipping one non-`>` character keeps the same later candidates |
| ImgPattern.NoCandidateAcross | chapter11/part2/main.py:112 | the lazy run cannot cross a `>` |
| ImgPattern.MatchAt | chapter11/part2/main.py:112 | the match starting at `i`: it lies inside the reply, is at least 13 characters long, and its capture is non-empty with no `"` |
| ImgPattern.Instance | chapter11/part2/main.py:112 | the language of the pattern: `<img`, a whitespace run, a `>`-free run, `src="`, a non-empty `"`-free group, `"`, a `>`-free run and `>` |
| ImgPattern.InstanceCandidate | chapter11/part2/main.py:112 | every instance of the whole pattern starts with `<img` plus whitespace and makes its `src="` a candidate, whose tail gives the instance's capture |
| ImgPattern.CandidateMatch | chapter11/part2/main.py:112 | a candidate guarantees that a `src="` is chosen, at or before it |
| ImgPattern.MatchAtFrom | chapter11/part2/main.py:112 | once the `src="` is chosen, MatchAt is the tail match after it |
| ImgPattern.MatchAtComplete | chapter11/part2/main.py:112 | wherever an instance of the pattern starts, MatchAt finds a match |
| ImgPattern.MatchAtValue | chapter11/part2/main.py:112 | a match implies the head, a chosen `src="`, and MatchAt equal to the tail after it |
| ImgPattern.CandidateInstance | chapter11/part2/main.py:112 | a head, a candidate and a tail assemble into an instance |
| ImgPattern.EarliestInstance | chapter11/part2/main.py:112 | the chosen `src="` belongs to an instance whose capture is the tail's |
| ImgPattern.MatchAtSound | chapter11/part2/main.py:112 | every match is an instance of the pattern, with the leftmost `src="` of all instances at that start |
| ImgPattern.MatchAtLeftmost | chapter11/part2/main.py:112 | the instance with the leftmost `src="` is the match returned, with its capture and end |
| ImgPattern.MatchAtNeeds | chapter11/part2/main.py:112 | a match needs `<img`, whitespace, a later `src="` followed by a non-`"`, and a later `>` |
| ResponseParser.Cover | chapter11/part2/main.py:115-118 | the text a piece covers has the piece's width |
| ResponseParser.PatternWellFormed | chapter11/part2/main.py:112 | the pattern's matches are long enough and well-placed for the scan to rely on |
| ResponseParser.Step | chapter11/part2/main.py:115-118 | one scan step covers exactly the next piece of the reply; a tag piece is at least 13 characters and captures a non-empty path with no `"` |
| ResponseParser.StepScanned | chapter11/part2/main.py:115-118 | a step is the match starting there, or the single character where none starts |
| ResponseParser.ScanBy | chapter11/part2/main.py:115-118 | the pieces cover the rest of the reply exactly, and every tag piece is well-formed |
| ResponseParser.AllPlainAt | chapter11/part2/main.py:115-118 | the well-formedness of all pieces gives that of each one |
| ResponseParser.Scan | chapter11/part2/main.py:115-118 | the scan of the whole reply covers it exactly; every tag piece is at least 13 characters and captures a non-empty path with no `"` |
| ResponseParser.FindAll | chapter11/part2/main.py:115 | `findall`: the captured paths in order; each is non-empty and holds no `"`, and each accounts for at least 13 characters of the reply |
| ResponseParser.Sub | chapter11/part2/main.py:118 | `sub('', …)`: the text left is shorter than the reply by at least 13 characters per extracted path, and it is the reply itself when no path is extracted |
| ResponseParser.ScanByTiles | chapter11/part2/main.py:115-118 | the scan is a tiling: left to right, each piece is what the pattern dictates where it starts |
| ResponseParser.TilesSameHead | chapter11/part2/main.py:115-118 | two tilings from the same index begin with the same piece |
| ResponseParser.TilesDeterministic | chapter11/part2/main.py:115-118 | two tilings of the same text are equal |
| ResponseParser.TilesUnique | chapter11/part2/main.py:115-118 | the scan is the only tiling, so `findall` and `sub` see the same non-overlapping matches |
| ResponseParser.TilesAt | chapter11/part2/main.py:115-118 | the k-th piece begins where the first k pieces end, and is the match or character there |
| ResponseParser.ScanAt | chapter11/part2/main.py:115-118 | the same, for the scan of the image pattern |
| ResponseParser.PatternOnIs | chapter11/part2/main.py:112 | the scan's matcher is MatchAt at every index of the reply |
| ResponseParser.RawConcat | chapter11/part2/main.py:115-118 | the text covered by joined piece lists is the join of their texts |
| ResponseParser.SrcsOfImages | chapter11/part2/main.py:115 | the paths extracted are the non-empty, `"`-free captures |
| ResponseParser.RawCoversImages | chapter11/part2/main.py:115-118 | the kept text plus 13 characters per path fits in the covered text, and without tag pieces everything is kept |
| ResponseParser.ParseResponse | chapter11/part2/main.py:100-120 | the returned text has no whitespace at either end and is the tag-free text with only end whitespace removed; every path is non-empty and holds no `"`; at most one path per 13 characters of the reply |
| ResponseParser.NoMatchBy | chapter11/part2/main.py:115-118 | where no match starts anywhere, every character is kept and nothing is extracted |
| ResponseParser.NoMatchParse | chapter11/part2/main.py:112-118 | a reply where the pattern matches nowhere gives its stripped self and no paths |
| ResponseCases.CharsOf | chapter11/part2/main.py:118 | one kept piece per character: as many pieces as characters, and the k-th piece keeps the k-th character |
| ResponseCases.KeptConcat | chapter11/part2/main.py:118 | the kept text of joined pieces is the join of the kept texts |
| ResponseCases.SrcsConcat | chapter11/part2/main.py:115 | the paths of joined pieces are the join of the paths, in order |
| ResponseCases.CharsOfKept | chapter11/part2/main.py:115-118 | plain characters are kept verbatim and give no path |
| ResponseCases.TilesChars | chapter11/part2/main.py:115-118 | a run with no match start tiles as its characters |
| ResponseCases.ScanOfTiling | chapter11/part2/main.py:115-118 | any tiling of the reply is its scan |
| ResponseCases.ParseFromScan | chapter11/part2/main.py:115-120 | the returned pair is the stripped kept text and the paths of the scan |
| ResponseCases.NoTagStart | chapter11/part2/main.py:112 | no match starts at a character other than `<` |
| ResponseCases.NoImgParse | chapter11/part2/main.py:112-118 | a reply without lower-case `<img` (for example one with `<IMG`) gives its stripped self and no paths |
| ResponseCases.NoSpaceAfterImgParse | chapter11/part2/main.py:112-118 | so does one where `<img` is never followed by whitespace (for example `<imgsrc=`) |
| ResponseCases.NoSrcQuoteParse | chapter11/part2/main.py:112-118 | so does one with no `src="` (for example a single-quoted `src`) |
| ResponseCases.EmptySrcParse | chapter11/part2/main.py:112-118 | so does one where every `src="` is followed by `"` or the end (`src=""`) |
| ResponseCases.NoCloseParse | chapter11/part2/main.py:112-118 | so does one with no `>` after any `src="` |
| ResponseCases.Tag | chapter11/part2/main.py:112 | the tag `<img src="x"r>` is 12 characters longer than the path and the attributes together |
| ResponseCases.TagHead | chapter11/part2/main.py:112 | such a tag begins with `<img`, a space and `src="` |
| ResponseCases.TagBody | chapter11/part2/main.py:112 | then the path, `"`, the other attributes and `>` |
| ResponseCases.TagMatchAt | chapter11/part2/main.py:112 | a tag with a non-empty `"`-free path and `>`-free attributes is matched whole, capturing the path |
| ResponseCases.PatternTagAt | chapter11/part2/main.py:112-118 | the scan takes such a tag as one piece |
| ResponseCases.PatternNoTag | chapter11/part2/main.py:112 | no match starts inside a `<`-free run |
| ResponseCases.TilesCons | chapter11/part2/main.py:115-118 | a scanned piece followed by a tiling of the rest is a tiling |
| ResponseCases.TilesEnd | chapter11/part2/main.py:115-118 | the empty tiling of the empty rest |
| ResponseCases.LastTagTiles | chapter11/part2/main.py:115-118 | a tag ending the reply tiles as one piece |
| ResponseCases.TextThenTagTiles | chapter11/part2/main.py:115-118 | a `<`-free text then a tag tiles as its characters then the tag |
| ResponseCases.TextThenTagScan | chapter11/part2/main.py:115-118 | and that is the scan |
| ResponseCases.TextThenTagParse | chapter11/part2/main.py:112-120 | a `<`-free text followed by a tag gives the stripped text and the tag's path |
| ResponseCases.TilesTwo | chapter11/part2/main.py:115-118 | two adjacent scanned pieces covering the reply tile it |
| ResponseCases.TwoTagsTiles | chapter11/part2/main.py:115-118 | two adjacent tags tile as two pieces |
| ResponseCases.TwoTagsScan | chapter11/part2/main.py:115-118 | and that is the scan |
| ResponseCases.TwoImages | chapter11/part2/main.py:115-118 | two tag pieces keep no text and give their paths in order |
| ResponseCases.TwoTagsParse | chapter11/part2/main.py:112-120 | two adjacent tags give an empty text and both paths in order of appearance |
| ResponseCases.OrderOfAppearance | chapter11/part2/main.py:115 | `b.png` before `a.png` in the reply gives `["b.png", "a.png"]`: order of appearance, not sorted |
| ResponseCases.AngleInsidePath | chapter11/part2/main.py:112 | a `>` inside the quoted path is part of the capture |
| ResponseCases.DocSentenceClean | chapter11/part2/main.py:104-109 | the example sentence holds no `<` |
| ResponseCases.DocSentenceEnds | chapter11/part2/main.py:104-109 | the example sentence neither begins nor ends with whitespace |
| ResponseCases.DocPathNoQuote | chapter11/part2/main.py:104-109 | the example path holds no `"` |
| ResponseCases.DocTagSimple | chapter11/part2/main.py:104-109 | the example tag is a simple tag: a non-empty path without `"` and attributes without `>` |
| ResponseCases.DocSentenceStrip | chapter11/part2/main.py:104-109 | stripping the sentence and its newline gives the sentence |
| ResponseCases.DocExample | chapter11/part2/main.py:104-109 | the documented reply gives the sentence alone and the one path `./files/file-s4W0rog1pjneOAtWeq21lbDy.png` |
| ResponseCases.TextTiles | chapter11/part2/main.py:115-118 | a `<`-free end of the reply tiles as its characters |
| ResponseCases.TagThenTextTiles | chapter11/part2/main.py:115-118 | a tag then a `<`-free end tiles as the tag then the characters |
| ResponseCases.PrefixTagTextScan | chapter11/part2/main.py:115-118 | a prefix where no match starts, a tag and a `<`-free end scan as characters, tag, characters |
| ResponseCases.PrefixTagTextPieces | chapter11/part2/main.py:115-118 | those pieces keep the prefix and the end, and give only the tag's path |
| ResponseCases.PrefixTagTextParse | chapter11/part2/main.py:112-120 | such a reply gives the stripped prefix-and-end and the tag's path, so unmatched markup before the tag stays verbatim |
| ResponseCases.TagBetween | chapter11/part2/main.py:112 | a tag placed between two texts sits where those texts leave it |
| ResponseCases.FirstPassParts | chapter11/part2/main.py:112 | the idempotence counterexample is `<im`, a tag, and `g src="b">` |
| ResponseCases.FirstPassHead | chapter11/part2/main.py:112 | no match starts in its first three characters |
| ResponseCases.FirstPassText | chapter11/part2/main.py:118 | what remains after removing the tag strips to `<img src="b">` |
| ResponseCases.FirstPass | chapter11/part2/main.py:112-120 | `<im<img src="a">g src="b">` gives the text `<img src="b">` and the path `a` |
| ResponseCases.SecondPass | chapter11/part2/main.py:112-120 | `<img src="b">` gives an empty text and the path `b` |
| ResponseCases.NotIdempotent | chapter11/part2/main.py:112-120 | decomposing the cleaned text of that reply again extracts another path, `b`, so the result differs from the text with no paths |
| Session.WindowMemory.constructor | chapter11/part2/main.py:51-55 | a memory built with its window size, memory key and message mode |
| Session.SessionState.constructor | chapter11/part2/main.py:47 | a new session has none of the keys |
| Session.SessionState.InitPage | chapter11/part2/main.py:46-58 | the reset fires iff clear was pressed or `messages` is absent; then the messages are empty, a new interpreter client and a new memory (window 10, key `chat_history`, returning messages) are installed, the system prompt is the one just read, and there are no uploaded files; otherwise the session is unchanged; a consistent session is ready for the rest of the page afterwards |
| ModelSelection.SelectModel | chapter11/part2/main.py:61-75 | a label gives a model iff it is one of the radio's four options, and every model has temperature 0 |
| ModelSelection.SelectModelTable | chapter11/part2/main.py:62-75 | the radio's k-th option gives the k-th row of the label/provider/model-name table |
| ModelSelection.SelectModelInjective | chapter11/part2/main.py:64-75 | different options give different model names |
| Agent.AgentPrompt | chapter11/part2/main.py:84-89 | the four prompt slots in order: system prompt, `chat_history`, user `{input}`, `agent_scratchpad` |
| Agent.CreateAgent | chapter11/part2/main.py:78-97 | an executor exists iff the session has its system prompt and memory; it runs the selected model, agent and executor share the three tools in order, the prompt is the session's, and the memory is the session's own object |
| Agent.PlaceholderNames | chapter11/part2/main.py:86-88 | a name is listed exactly when some slot of the prompt is a placeholder for it |
| Agent.PromptPlaceholders | chapter11/part2/main.py:84-89 | the prompt's placeholders are `chat_history` then `agent_scratchpad` |
| Agent.AgentOnReadySession | chapter11/part2/main.py:130-133 | after `init_page`, every radio option gives an executor with a model, whose memory fills the prompt's history slot with messages; the only other placeholder is the scratchpad |
| QaVectorstore.FormatQa | chapter10/build_qa_vectorstore.py:25 | a text is `question: `, then the row's question, then `\nanswer: `, then the row's answer, and nothing else |
| QaVectorstore.BuildQaTexts | chapter10/build_qa_vectorstore.py:23-25 | one text per row, and the i-th text is formatted from the i-th row, so the order is kept |
| QaVectorstore.FindSeparator | chapter10/build_qa_vectorstore.py:25 | the first `\nanswer: ` at or after an index |
| QaVectorstore.FindSeparatorFirst | chapter10/build_qa_vectorstore.py:25 | the first occurrence is what the search finds |
| QaVectorstore.ParseAtFirstSeparator | chapter10/build_qa_vectorstore.py:25 | a text whose question part has no line break reads back as its parts |
| QaVectorstore.QaRoundTrip | chapter10/build_qa_vectorstore.py:25 | a row whose question has no line break is recovered from its text |
| QaVectorstore.ParseQaSound | chapter10/build_qa_vectorstore.py:25 | a text that reads back as a row is that row's text |
| QaVectorstore.QaAmbiguous | chapter10/build_qa_vectorstore.py:25 | a question holding `\nanswer: ` is split there, moving its rest into the answer |

## Left out

- The Streamlit page is not modelled: rendering, the sidebar widgets, `display_content` and the chat loop. `InitPage` receives the button's result as a parameter, and `CreateAgent` receives the radio's choice.
- `load_system_prompt` reads a file and caches the result. Its text is `InitPage`'s `systemPrompt` parameter.
- Loading environment variables with dotenv is I/O and is left out.
- The LLM clients, `BigQueryClient`, `CodeInterpreterClient` and `code_interpreter_tool` are foreign code. Their sources are not part of this model.
  - The tools are modelled as three named constants.
  - A client is modelled as an object whose only observable property is its identity.
- `create_tool_calling_agent` and the `AgentExecutor` tool-call loop are library code. That covers iteration, retries and scratchpad handling.
  - The agent and the executor are modelled as records of what they are built from.
  - `verbose=True` is kept as a field.
- `ConversationBufferWindowMemory` is library code, so its windowing is not modelled. It is a value that records k, its key and its message mode.
- The model does not prove that `parse_response` is idempotent, because it is not. `ResponseCases.NotIdempotent` gives the counterexample.
- The model does not prove that interior whitespace is removed, because only the two ends are stripped.
- The rest of `chapter10/build_qa_vectorstore.py` is I/O or foreign code: reading the CSV with pandas, converting cells to strings, embeddings, and saving the FAISS index. The rows arrive as strings.
- `chapter11/part2/gcp_acknowledge.py` loads credentials and makes one BigQuery round trip. It is network I/O.
- `chapter7/main.py` is a static page.
- The radio widget itself is not modelled. It never returns a string outside its options, so in the running page the `None` branch of `select_model` is not reached.
- CreateAgent: a session missing its system prompt or its memory gives `None`, where Python raises (an AttributeError at chapter11/part2/main.py:85, a KeyError at chapter11/part2/main.py:96). A choice outside the radio's options still gives an executor, whose `llm` is `None`; Python would pass `None` to `create_tool_calling_agent` at chapter11/part2/main.py:91, and what that library call then does is not modelled.
