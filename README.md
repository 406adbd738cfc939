# Chat client core, modelled in Dafny

This project models the two parts of a command-line chat client that carry real invariants.

- **The conversation memory** (`ChatMemory`, chat_memory.py) is a fixed system-prompt message plus a double-ended queue bounded to `2 * window_size` role-tagged messages. When the queue is full, appending first drops the oldest entry.
- **The reply shaper and the user turn** (interface.py) cover three steps:
  - normalising what the generation backend returns (text, a record or a list of records) to one text;
  - extracting the assistant's newest utterance by priority-ordered marker rules (`<|assistant|>`, `Assistant:`, `User:` … `Bot:`, otherwise the whole text);
  - limiting the reply to three sentences, then to 300 characters plus an ellipsis.

  `_handle_user_message` ties the shaper to the memory.

The modules are:

- `Wrappers` (`wrappers.dfy`): an `Option` type.
- `Strings` (`strings.dfy`): the Python string built-ins the shaper relies on, as functions over `seq<char>`, with their laws proved. These are the `in` test, `str.split(sep)` (a left-to-right scan for non-overlapping occurrences), `sep.join`, `strip`/`lstrip`/`rstrip`, whitespace `split()`, `endswith` and `rsplit(' ', 1)[0]`. Whitespace is the set Python's `str.isspace` accepts.
- `Memory` (`chat_memory.dfy`): `ChatMemory` is a class whose `memory` field the methods reassign. The deque's behaviour is given by the specification function `LastN`, and `AppendAll` applies it message by message. `Valid()` says the history fits the capacity and holds no system message.
- `Interface` (`interface.dfy`): the extraction and length-limiting functions (the source's pure helpers) and the class `ChatInterface`. Its method `HandleUserMessage` takes the backend as a function parameter `generate`, where `None` stands for a backend call that raised.

Two behaviours of the code are easy to misread:

- **The `User:` rule.** When the text after the last `User:` holds no `Bot:` (and, necessarily, no `Assistant:`), the code falls through to the final rule and returns the *whole* text trimmed, not the remainder after `User:`. `Interface.UserRule` states this.
- **The failure path.** `_handle_user_message` has two outcomes when something goes wrong.
  - The backend shipped with the client (`ModelLoader.generate_response`, model_loader.py:61-63) catches its own errors and returns the sentence "Sorry, I encountered an error generating a response." as ordinary text. The turn shapes that text like any reply and appends it to the history as the assistant's message. In the model this is `generate` returning `Some(Text(FallbackReply))`, and `Interface.PlainTextAnswered` shows that such text passes through unchanged.
  - Only a backend call that raises, or extraction raising on an empty list, takes the `except` branch (interface.py:131-134). There the same sentence is shown but not appended, and the user message stays unanswered in memory. `Interface.ChatInterface.HandleUserMessage` states both outcomes.

The `User:` rule's second test (`"Assistant:" in last_part`, interface.py:165-166) can never succeed: the rule is reached only when the text holds no `Assistant:` at all. `Interface.UserRule` proves the rule equivalent to its `Bot:`-only reading.

## Model

| member | source | states |
|---|---|---|
| Memory.LastN | chat_memory.py:17 | a deque bounded by `n` keeps exactly the last `min(|h|, n)` entries, in order |
| Memory.LastNAbsorb | chat_memory.py:17 | bounding twice is bounding once: what was evicted earlier never affects later contents |
| Memory.AppendAll | chat_memory.py:23-39 | appending any messages one at a time to a history within capacity leaves exactly the most recent `min(|h|+|ms|, n)` of old and new messages, in order, never more than `n` |
| Memory.ChatMemory.constructor | chat_memory.py:9-21 | an empty history, the given window size and the fixed system prompt |
| Memory.ChatMemory.Append | chat_memory.py:17 | `deque.append` with `maxlen`: the new history is the bounded window of old history plus a user or assistant message; the memory stays valid |
| Memory.ChatMemory.AddUserMessage | chat_memory.py:23-30 | the history becomes the bounded window of the old history plus a user message with the given content |
| Memory.ChatMemory.AddAssistantMessage | chat_memory.py:32-39 | the history becomes the bounded window of the old history plus an assistant message with the given content |
| Memory.ChatMemory.GetConversationHistory | chat_memory.py:41-50 | the system prompt first, then every history entry in order, one longer than the history |
| Memory.ChatMemory.ClearMemory | chat_memory.py:52-54 | the history becomes empty and the memory stays valid |
| Memory.ChatMemory.GetMemorySize | chat_memory.py:56-63 | the number of messages (not pairs) held |
| Memory.ChatMemory.GetLastUserMessage | chat_memory.py:65-75 | the backward loop returns what the newest-user-message scan specifies |
| Memory.LastUserContent | chat_memory.py:72-75 | what the scan finds is the content of a user message held in the history |
| Memory.LastUserContentIsNewest | chat_memory.py:65-75 | the scan finds nothing exactly when no user message is held; otherwise it finds a user message with no later user message |
| Memory.AnsweredTurn | chat_memory.py:23-75 | with room for a pair, a user message followed by a reply ends the history as that pair, and the scan then finds the user message |
| Memory.CountRole | chat_memory.py:84-85 | a role count never exceeds the number of messages |
| Memory.RolesPartition | chat_memory.py:84-85 | in a history without system messages, the user and assistant counts add up to its length |
| Memory.UserAndAssistantAtMostAll | chat_memory.py:84-85 | the two role counts never exceed the number of messages |
| Memory.Summarize | chat_memory.py:77-94 | no summary for a zero window, where the usage percentage divides by zero; otherwise the total is the history length, the user and assistant counts are the role counts of the history, the capacity is `2 * window_size`, and complete turns are the smaller of the two counts, all within the total |
| Memory.ChatMemory.GetConversationSummary | chat_memory.py:77-94 | on a valid memory: the total is the number of messages held, the two counts are its user and assistant counts and make up the total, the total is within the reported capacity `2 * window_size`, and the turns are the smaller of the two counts |
| Memory.SummaryExample | chat_memory.py:77-94 | five alternating messages, user first, in a window that holds them: five messages, three from the user, two from the assistant, two turns |
| Strings.Split | interface.py:151 | `str.split(sep)` always yields at least one part |
| Strings.Join | interface.py:179 | `sep.join(parts)` starts with the first part |
| Strings.JoinSplit | interface.py:151 | joining the parts of a split with the same separator gives the text back |
| Strings.SplitFirst | interface.py:154 | the first part is a separator-free prefix; it is the whole text when there is one part, and the separator follows it otherwise |
| Strings.SplitLast | interface.py:153 | the last part is a separator-free suffix, preceded by the separator when there are several parts |
| Strings.SplitCount | interface.py:150-152 | the split has more than one part exactly when the separator occurs |
| Strings.AfterLast | interface.py:153 | `split(sep)[-1]` is a suffix of the text and a substring of it, and holds no separator |
| Strings.AfterFinalOccurrence | interface.py:151-153 | for separators whose first character does not recur in them, the last part is what follows the final occurrence, whatever precedes it |
| Strings.SplitLeading | interface.py:154 | text whose head lacks the separator's first character splits into that head and the split of the rest |
| Strings.SplitJoinLeading | interface.py:177-179 | joining one or more parts that lack the separator's first character, then the separator and more text, and splitting again gives the parts back first |
| Strings.JoinSplitPrefix | interface.py:177-179 | for `n` at least one and fewer than all the parts, the first `n` parts of a split, rejoined and followed by the separator, are a prefix of the text |
| Strings.Trim | interface.py:153 | `strip()` yields a substring with no whitespace at either end, and leaves such text unchanged |
| Strings.TrimStripsEdges | interface.py:153 | `strip()` removes only a leading and a trailing whitespace run: the result sits in the text with nothing but whitespace before and after it |
| Strings.TrimAround | interface.py:153-154 | `strip()` of edge-trimmed text between two whitespace runs is exactly that text |
| Strings.TrimAfterSpaces | interface.py:153 | `strip()` of whitespace followed by edge-trimmed text is that text |
| Strings.Words | interface.py:174 | `str.split()` yields non-empty whitespace-free words |
| Strings.WordsOfJoin | interface.py:174 | splitting words joined by single spaces gives the words back |
| Strings.CollapseWhitespace | interface.py:174 | `" ".join(s.split())` is clean text (no edge whitespace, only plain spaces, never two in a row) with exactly the words of the input; it leaves clean text unchanged |
| Strings.JoinWordsClean | interface.py:174 | words joined by single spaces form clean text |
| Strings.JoinWordsOfClean | interface.py:174 | clean text is the join of its own words |
| Strings.LastIndexOf | interface.py:185 | the index of the last occurrence of a character, or -1, with no occurrence after it |
| Strings.BeforeLast | interface.py:185 | `rsplit(c, 1)[0]` is a prefix ending right before the last `c`, with no `c` after it, or the whole text without `c` |
| Strings.CleanPrefixThen | interface.py:179-185 | a prefix of clean text followed by a non-empty blank-free tail (".", "...") is clean |
| Interface.Normalize | interface.py:139-147 | a list is read through its last record, a record through its content or else its rendering, text as is; an empty list has no text |
| Interface.ExtractAssistantResponse | interface.py:136-169 | fails exactly on an empty list; otherwise the reply has no edge whitespace and is a substring of the normalised text |
| Interface.ExtractText | interface.py:149-169 | whichever marker rule applies, the result has no edge whitespace and is a substring of the text |
| Interface.TagRule | interface.py:150-155 | a text holding `<|assistant|>` is always handled by the chat-template rule |
| Interface.FromChatTemplate | interface.py:150-155 | the chat-template reply holds no `<|`, has no edge whitespace and lies within the text after the last tag |
| Interface.AfterLastReplyLabel | interface.py:166 | the text after the last `Bot:`, or failing that after the last `Assistant:`, is a substring free of the label it was cut at |
| Interface.TrimmedFirstPart | interface.py:153-154 | strip, cut before the first separator and strip again: a separator-free, edge-trimmed substring |
| Interface.LabelRule | interface.py:158-160 | without the tag, a text holding `Assistant:` yields the trimmed text after its last occurrence |
| Interface.UserRule | interface.py:162-169 | without the two higher-priority markers, `User:` text yields the trimmed text after the last `Bot:` following the last `User:`, and otherwise the whole text trimmed |
| Interface.MarkerFreeRule | interface.py:169 | text with none of the markers is only trimmed |
| Interface.ChatTemplateReply | interface.py:150-155 | whatever precedes the final `<|assistant|>`, a non-empty reply with no whitespace at its edges and no `<|` inside (a lone `<` is allowed) comes out exactly, without the whitespace around it, whatever follows the next `<|` |
| Interface.LabelledReply | interface.py:158-160 | in text without `<|assistant|>`, whatever precedes the final `Assistant:`, the result is the trimmed text after it |
| Interface.BotReply | interface.py:162-167 | in a `User:`/`Bot:` transcript, the result is the trimmed text after the `Bot:` that follows the final `User:` |
| Interface.ChatTemplateExample | interface.py:150-155 | template output with a trailing `<|user|>` yields only "Hello there!" |
| Interface.LabelExample | interface.py:158-160 | "User: Is the sky blue?\nAssistant: The sky is blue." yields "The sky is blue." |
| Interface.LimitSentences | interface.py:177-181 | at most `max_sentences` parts leave the text unchanged; more become the first `max_sentences` parts rejoined with ". ", closed with a period unless they already end in one: the result ends in a period, and without that period is a prefix of the text; clean text stays clean |
| Interface.KeptSentencesArePrefix | interface.py:177-179 | the kept sentences, rejoined, are a prefix of the text |
| Interface.SentencesCut | interface.py:177-181 | text running on past `n` period-free sentences becomes exactly those sentences rejoined with ". " and closed with a period |
| Interface.LimitChars | interface.py:184-185 | within `max_chars` the text is unchanged; otherwise it is cut back to before the last space among its first `max_chars` characters, or to all of them when they hold no space, and ends in "..."; never longer than `max_chars + 3`; clean text stays clean |
| Interface.LimitResponseLength | interface.py:171-187 | the result is clean and at most `max_chars + 3` long; text already within both limits comes back exactly as collapsed |
| Interface.SentenceExample | interface.py:171-187 | "One. Two. Three. Four." is cut to "One. Two. Three." |
| Interface.Reply | interface.py:116-120 | no reply exactly when generation raised or returned an empty list; otherwise an edge-trimmed substring of the normalised output |
| Interface.PlainTextAnswered | interface.py:116-126 | a clean, marker-free, single-sentence text within the length limit, such as the backend's own error sentence, is extracted and shaped unchanged |
| Interface.ChatInterface.constructor | interface.py:30-31 | a fresh, valid, empty memory with the given window size |
| Interface.ChatInterface.HandleUserMessage | interface.py:100-134 | the user message is appended and the prompt is the system prompt plus the new history. When the backend returns a reply, the limited reply is shown and appended after the user message. When the call raises or the list is empty, the fallback sentence is shown and the history is the old history plus the user message, windowed |

## Left out

- model_loader.py is not part of this model: generation is the parameter `generate` of `HandleUserMessage`. The shipped backend's output, its error sentence included, is a `Some(Text(...))` result, and `None` stands for a backend call that raises.
- The command loop, its `/exit`, `/clear`, `/info` and `/help` commands, the banners, help and info screens, and all printing (interface.py:11-98, 189 onward) are terminal I/O. Only the text shown at the end of a turn is modelled, as `HandleUserMessage`'s result. The debug line printed on failure is not modelled.
- The `ChatInterface` constructor does not model loading the model or exiting the process when loading fails.
- `memory_usage_percent` is a floating-point quotient and is not modelled. For a zero window, where it divides by zero and Python raises `ZeroDivisionError`, `Summarize` returns `None`.
- Negative window sizes are excluded by the type `nat`, where Python's `deque` raises `ValueError`. The default arguments (`window_size=5`, `max_sentences=3`, `max_chars=300`) become explicit parameters; the interface's two limits are the constants `MaxSentences` and `MaxChars`.
- Interface.Normalize: list elements and records are modelled only by their `content` text and their `str(...)` rendering. The rendering is an input, not computed. A list element that is not a dictionary (where `.get` raises) and non-string content are not modelled.
- Object identity is not modelled. The history snapshot holds the same dictionaries as the deque, but in this model messages are values, so aliasing cannot be observed.
- Characters are Unicode scalar values; Python strings that hold lone surrogates have no counterpart.
