# fleece in Dafny

fleece is an Obsidian plugin that sends selected note text to a local Ollama
server and streams the answer back into the note. Each configured *command*
has a name, a prompt template, a model and a temperature. The plugin registers
one editor command per configured command. The settings tab adds, removes,
updates and resets the list of commands.

An editor command works in four steps:

1. It rewrites the selection as the user's turn, `"👤 " + selection.trim()`.
2. It inserts the marker `"\n\n🤖 "`.
3. It posts `template + "\n\n" + cleaned selection` to `/api/generate`.
4. It reads the newline-delimited JSON reply chunk by chunk, and inserts each
   line's `response` fragment after the marker as it arrives.

This project models that core and proves what it does:

- `text.dfy` (modules `Wrappers`, `Seqs` and `Utf16`). `Seqs` holds the
  sequence algebra the proofs share. In `Utf16`, text is a sequence of UTF-16
  code units, the unit JavaScript uses for lengths and columns. The module
  also defines `trim`, `split('\n')` and join.
- `buffer.dfy` (module `Buffer`). The note as a list of lines, addressed by
  (line, ch) positions, and `replaceRange`. `Editor` is a class whose `lines`
  field each `ReplaceRange` call updates in place.
- `registry.dfy` (module `Registry`). The command list and the Add Command,
  Remove, Update and Reset buttons. `Settings` is a class whose `commands`
  field the buttons reassign.
- `prompt.dfy` (module `Prompt`). The cleaned selection and the request body.
- `stream.dfy` (module `Stream`). What the read loop extracts from the reply,
  and where each fragment is written.
- `engine.dfy` (module `Engine`). The editor command as written. `RunCommand`
  and the methods under it keep the source's two nested loops.
- `corrected.dfy` (module `Corrected`). The same command with the three
  corrections listed under Findings.

The network reply and `JSON.parse` are parameters of the command: a `Reply`
value and a `decode` function.

The model follows the code, including four behaviours a reader might not
expect. Each is either proved about the as-written model or listed under
Findings:

- Add Command also refuses an unset model.
- The user's turn and the marker are written by two separate `replaceRange`
  calls, and neither is rolled back when the request fails.
- The read loop splits each chunk on its own.
- The insertion column ignores line breaks in earlier fragments.

## Model

| member | source | states |
|---|---|---|
| Registry.FindByName | src/OllamaSettingTab.ts:157-161 | The index found names a command with that name, no earlier command has it, and there is none exactly when no command has the name. |
| Registry.Added | src/OllamaSettingTab.ts:152-178 | Adding succeeds exactly when the name is non-empty and new, the prompt is non-empty and the model is set. It then appends the command. The refusals come in the source's order: empty name, duplicate name, empty prompt, unset model. |
| Registry.AddedKeepsUnique | src/OllamaSettingTab.ts:157-178 | A successful add keeps command names pairwise distinct. |
| Registry.Settings.AddCommand | src/OllamaSettingTab.ts:151-181 | On success the list becomes `Added`'s list and no notice is returned. On refusal the list is unchanged and the refusal reason is returned. |
| Registry.Removed | src/OllamaSettingTab.ts:192-195 | The kept commands are exactly those not carrying the name. The list never grows, and the name is gone afterwards. |
| Registry.RemovedAbsent | src/OllamaSettingTab.ts:192-195 | Removing a name no command has leaves the list unchanged. |
| Registry.RemovedIdempotent | src/OllamaSettingTab.ts:192-195 | Removing the same name twice is removing it once. |
| Registry.RemovedKeepsUnique | src/OllamaSettingTab.ts:192-195 | Removing keeps command names pairwise distinct. |
| Registry.RemovedConcat | src/OllamaSettingTab.ts:192-195 | Removal filters each part of a list independently, so the kept commands keep their order. |
| Registry.RemoveUndoesAdd | src/OllamaSettingTab.ts:178-195 | Removing the name of a command that was just added gives back the list from before the add. |
| Registry.Settings.RemoveCommand | src/OllamaSettingTab.ts:191-198 | The list becomes the old list without the commands of that name. |
| Registry.FindInPrefix | src/OllamaSettingTab.ts:213-215 | Extending a list without renaming its commands does not change where a present name is first found. |
| Registry.MergeOneKeeps | src/OllamaSettingTab.ts:213-223 | One default is merged as follows. Names keep their positions, and commands of other names are untouched. The first command of the default's name carries the default's prompt, model and temperature. The list grows by one exactly when the name was absent, and then the default is appended. |
| Registry.MergedKeeps | src/OllamaSettingTab.ts:212-224 | Update never renames or reorders existing commands, and it leaves commands whose name no default has untouched. |
| Registry.MergedCovers | src/OllamaSettingTab.ts:212-224 | With distinct default names, after Update the first command of every default's name carries that default's prompt, model and temperature. |
| Registry.MergedAt | src/OllamaSettingTab.ts:212-224 | With distinct default names, Update overwrites position `i` exactly when it holds the first command of its name and a default has that name. Otherwise the command is kept. |
| Registry.MergedTail | src/OllamaSettingTab.ts:212-224 | With distinct default names, Update appends exactly the defaults whose names were missing, in the order of the defaults. |
| Registry.MergedIdempotent | src/OllamaSettingTab.ts:212-224 | With distinct default names, pressing Update twice is pressing it once. |
| Registry.MergedKeepsUnique | src/OllamaSettingTab.ts:212-224 | Update keeps names pairwise distinct when the list and the defaults each had distinct names. |
| Registry.UpdateAfterReset | src/OllamaSettingTab.ts:212-238 | With distinct default names, Update right after Reset changes nothing. |
| Registry.Settings.UpdateCommands | src/OllamaSettingTab.ts:211-227 | The list becomes the old list with the defaults merged in one after the other, searching the updated list each time. |
| Registry.Settings.ResetCommands | src/OllamaSettingTab.ts:237-240 | The list becomes the defaults. |
| Utf16.TrimSpec | src/Ollama.ts:24-35 | `trim` returns a contiguous slice of its input and cuts only whitespace. The slice starts and ends with non-whitespace, and it is empty exactly when the input is blank (the selection check). |
| Utf16.TrimIdempotent | src/Ollama.ts:60-63 | Trimming twice is trimming once. |
| Utf16.JoinSplit | src/Ollama.ts:39 | Joining the pieces of `split('\n')` with line breaks gives back the text. |
| Utf16.SplitJoin | src/Ollama.ts:39 | Splitting the join of line-break-free pieces gives back the pieces. |
| Buffer.ReplacedSpec | src/Ollama.ts:36 | `replaceRange(t, from, to)` between valid ordered positions works as follows. The text from `from` to `EndPos(from, t)` is exactly `t`, and everything before `from` is kept. What followed `to` now follows `EndPos(from, t)`. The line count changes by the lines removed and the breaks inserted. |
| Buffer.ReplaceInLine | src/Ollama.ts:36 | Replacing part of one line by text without line breaks changes only that line. |
| Buffer.InsertCompose | src/Ollama.ts:112-118 | Inserting `x` at `p`, then `y` where `x` ended, equals inserting `x + y` at `p`. |
| Buffer.Editor.ReplaceRange | src/Ollama.ts:36 | The document becomes the replaced document and stays a document. |
| Prompt.ReplaceCRLFDeletesOnlyCR | src/Ollama.ts:61 | Replacing `\r\n` deletes only carriage returns and keeps every line break and everything else in order. Text in which no carriage return directly precedes a line break is left unchanged, lone carriage returns included. |
| Prompt.ReplaceCRLFPair | src/Ollama.ts:61 | Every `\r\n` becomes `\n`: replacing around one pair is replacing on each side of it, with the pair turned into a line break. With `ReplaceCRLFDeletesOnlyCR` this fixes the result on every input. |
| Prompt.LoneCRKept | src/Ollama.ts:61 | Replacing `\r\n` keeps the lone carriage return of `"a\rb"`. |
| Prompt.CollapseNoNewline | src/Ollama.ts:62 | Text without line breaks is left alone by `replace(/\n+/g, ' ')`. |
| Prompt.CollapseRun | src/Ollama.ts:62 | A line-break-free head followed by a run of line breaks keeps the head and turns the whole run into one space. |
| Prompt.CleanPrompt | src/Ollama.ts:60-63 | The cleaned selection holds no line break. |
| Prompt.CleanPromptJoinsLines | src/Ollama.ts:60-63 | Two lines separated by any run of line breaks are sent as one line with one space between them. |
| Prompt.CleanPromptJoinsCRLFLines | src/Ollama.ts:60-63 | Two lines separated by `\r\n`, without carriage returns and with no whitespace at the outer ends, are sent as one line with one space between them. |
| Prompt.CleanPromptCRLFExample | src/Ollama.ts:60-63 | `"hello\r\nworld"` is sent as `"hello world"`. |
| Prompt.CleanPromptExample | src/Ollama.ts:60-63 | `"hello\nworld"` is sent as `"hello world"`. |
| Prompt.CleanPromptIdempotent | src/Ollama.ts:60-63 | Cleaning a cleaned selection changes nothing. |
| Prompt.PromptLines | src/Ollama.ts:66 | The lines of `template + "\n\n" + cleaned` are the template's lines, an empty line and the cleaned selection. |
| Prompt.BuildRequest | src/Ollama.ts:65-75 | The request goes to `url + "/api/generate"`. Its prompt lines are the template's lines, an empty line and the cleaned selection. The model falls back to the default exactly when the command's model is unset. The temperature is 0.2 exactly when the command's is missing, 0 or 0.2, and is otherwise the command's. |
| Stream.AcceptSpec | src/Ollama.ts:98-104 | A line yields a fragment exactly when it is not blank and decodes to an object with a non-empty `response`, and the fragment is that response. |
| Stream.LineFragmentsAppend | src/Ollama.ts:97-122 | The fragments of two runs of lines are those of the first run followed by those of the second. |
| Stream.LineFragmentsSkip | src/Ollama.ts:98-121 | A blank, unparsable or response-less line is skipped without affecting the lines after it. |
| Stream.StreamedNoNewline | src/Ollama.ts:106-118 | When no fragment holds a line break, streaming them one by one equals inserting their concatenation at the anchor. |
| Stream.StreamedAnchorLine | src/Ollama.ts:106-118 | For line-break-free fragments, the anchor line becomes what stood before the anchor, then the streamed text, then what stood after it. Every other line is unchanged. |
| Stream.StreamedPair | src/Ollama.ts:107-116 | As written, the second fragment goes `\|f\|` columns right of the anchor, whatever `f` holds. |
| Stream.BrokenFragment | src/Ollama.ts:107-110 | For every line `l` and first fragment `x\ny`, a second fragment `z` lands after `l + x` as written, and after `y` with tracking, when the editor clips a column past the end of a line. |
| Stream.StreamedTrackingSpec | src/Ollama.ts:106-118 | With the insert position tracking line breaks, streaming any fragments equals inserting their concatenation at the anchor. |
| Stream.StreamedAgreesWithoutNewlines | src/Ollama.ts:106-118 | Without line breaks in the fragments, the as-written and the tracking streaming give the same note. |
| Stream.TrackingPair | src/Ollama.ts:106-118 | With tracking, the second fragment goes where the first one ends. |
| Stream.TwoChunks | src/Ollama.ts:94-97 | As written, two chunks without line breaks are read as two separate lines. |
| Stream.ChunkBoundaryLosesLine | src/Ollama.ts:94-101 | A reply line cut into two halves that each yield nothing works as follows. Read in one chunk, it yields its fragment. Read in two chunks as written, it yields nothing. With buffering, it yields its fragment. |
| Stream.ChunkBoundaryCounterexample | src/Ollama.ts:94-101 | The line `{}` split after `{` loses its fragment `"h"` as written. |
| Stream.BufferedSpec | src/Ollama.ts:90-97 | After any prefix of the reply, buffered reading has handled exactly the complete lines that arrived, and holds back the unfinished last line. |
| Stream.BufferedFragmentsSpec | src/Ollama.ts:90-97 | Buffered reading yields the fragments of the lines of the whole reply. |
| Stream.BufferedIgnoresChunking | src/Ollama.ts:90-97 | Buffered reading gives the same fragments however the reply is cut into chunks. |
| Engine.MarkerPos | src/Ollama.ts:38-48 | The marker goes one line down per line break of the user's turn. It is at the turn's end when the turn has a line break, and at column `\|turn\|` of the first line otherwise. |
| Engine.MarkerPosIsEnd | src/Ollama.ts:38-48 | The marker position is the end of the user's turn exactly when the selection starts at column 0 or its trimmed text spans several lines. |
| Engine.MarkerPosValid | src/Ollama.ts:38-49 | The marker position is a valid position once the user's turn is written. |
| Engine.MarkerLayout | src/Ollama.ts:44-55 | The marker ends the line at the marker position and adds an empty line. It opens the next line with `"🤖 "` followed by the rest of the cut line, and it ends at line +2, column 3, which is the response anchor. |
| Engine.MarkupAnchor | src/Ollama.ts:35-55 | After the markup, the anchor is where the marker ends. Lines before the marker are those of the rewritten note. The marker line is cut at the marker position, then comes an empty line, and the anchor line is `"🤖 "` plus the rest of the cut line. |
| Engine.ReplyOnAnchorLine | src/Ollama.ts:52-118 | For line-break-free fragments, the anchor line ends up as `"🤖 "`, then all streamed text, then the rest of the marker line. No other line changes. |
| Engine.SingleLineMarkup | src/Ollama.ts:35-49 | For a selection inside one line starting at column `i`, the marker cuts the rewritten line at column `\|turn\|`, which is `i` columns before the turn ends. The end-of-turn markup keeps the turn whole. |
| Engine.MarkerColumnCounterexample | src/Ollama.ts:38-49 | On the line `ab` with `b` selected, the marker splits the user's turn and moves `b` behind `"🤖 "`. |
| Engine.StreamedNewlineCounterexample | src/Ollama.ts:107-110 | As written, fragments `"a\nb"` then `"c"` leave `"c"` on the line above the one the stream continues on, when the editor clips a column past the end of a line. |
| Engine.MarkupAtEndSpec | src/Ollama.ts:38-55 | With the marker at the end of the user's turn, everything before the selection is kept and the turn is exactly the text written and ends its line. An empty line follows, the anchor line is `"🤖 "` plus what followed the selection, and later lines are kept. |
| Engine.MarkupAgreesAtColumnZero | src/Ollama.ts:38-49 | When the selection starts at column 0 or spans lines, the as-written and the end-of-turn markup are equal. |
| Engine.OnlyReadErrorsFollowText | src/Ollama.ts:75-126 | The command completes exactly when the reply is OK, has a body and is read to its end. Every ending reports the streamed text, and only a read error can follow streamed text. |
| Engine.RunCommand | src/Ollama.ts:21-127 | A blank selection changes nothing and sends nothing. Otherwise the method sends the request `BuildRequest` describes from the settings' server URL and default model, and the note becomes the markup with every fragment of every chunk streamed in as written. The outcome reflects the network, the HTTP status and the reader. |
| Engine.WriteMarkup | src/Ollama.ts:35-55 | The note becomes `Markup` of the old note, and the returned anchor is two lines below the marker, at column 3. |
| Engine.StreamReply | src/Ollama.ts:90-123 | The returned text is the concatenation of all fragments, and the note has them inserted as written, chunk after chunk. |
| Engine.StreamChunk | src/Ollama.ts:94-122 | One chunk's lines are handled in order, each fragment inserted `\|streamed so far\|` columns right of the anchor. |
| Engine.WriteLine | src/Ollama.ts:97-121 | A line writes its fragment if it yields one, and otherwise changes nothing. |
| Engine.WriteFragment | src/Ollama.ts:106-118 | The fragment is inserted `\|streamed so far\|` columns right of the anchor and appended to the streamed text. |
| Corrected.RunCommandCorrected | src/Ollama.ts:21-127 | With the three corrections, the request and the ending are as written. The note becomes the end-of-turn markup with the whole reply text, read with buffering, inserted after `"🤖 "`. |
| Corrected.WriteMarkupAtEnd | src/Ollama.ts:35-55 | The note becomes `MarkupAtEnd` of the old note, and the anchor is a valid position two lines below the end of the user's turn, at column 3. |
| Corrected.StreamReplyBuffered | src/Ollama.ts:90-123 | The returned text is the concatenation of the buffered fragments, each inserted where the text streamed so far ends. |
| Corrected.StreamLines | src/Ollama.ts:97-122 | Complete lines are handled in order, each fragment inserted where the streamed text ends. |
| Corrected.WriteFragmentTracking | src/Ollama.ts:106-118 | The fragment is inserted at the end of the streamed text and appended to it. |

## Left out

- The settings tab's rendering is not modelled: text fields, slider, dropdown, headings, and the re-render after each button.
- The model list (`/api/tags`) and the model download (`/api/pull`) are not modelled. Both are UI features outside the command core.
- Persistence is not modelled: `saveSettings` and `loadSettings`, and the merge of stored data over the built-in defaults.
- Changing the server URL or the default model is not modelled. Both are plain field assignments.
- Registering one command per entry (`addPromptCommands`, id equal to name) is left out. That is host API; the model takes the command as a parameter.
- The text of notices and console logging is left out. The model returns which error occurred, not its message.
- `replaceRange` and `getRange` belong to the host editor, which is not part of this model. `Buffer` gives them the host editor's usual semantics: clip positions to the document, order them, and splice. A column past the end of a line is clipped to that line's end. The second finding depends on this clipping: an editor that turned (line, ch) into the offset line start + ch without clipping would place each fragment at the end of the streamed text, and the as-written streaming would then be correct.
- The model's document breaks lines only at `"\n"`. The host editor also starts a new line at `"\r"` and `"\r\n"` in inserted text, but the model keeps a carriage return inside its line. A reply fragment holding `"\r"` is therefore outside what the model says about the host. In particular, the "no other line changes" of `Stream.StreamedAnchorLine` and `Engine.ReplyOnAnchorLine` does not carry over to such a fragment.
- `fetch`, the HTTP connection and `TextDecoder` are left out. A `Reply` value stands for what they produce: the status, the decoded chunks, and whether a read failed.
- A multi-byte UTF-8 sequence cut between two chunks is not modelled. The decoder is created per chunk without `stream: true`, so such a sequence is decoded wrongly; the model's chunks are already UTF-16 text.
- Stream.Accept: `JSON.parse` is the `decode` parameter. It reports only whether the line parsed and the `response` field when that is a string, so truthy non-string responses are not modelled.
- Prompt.BuildRequest: the temperature is a `real`, so IEEE floating point and a NaN temperature are not modelled. The source's `||` would also replace a NaN by 0.2.
- Prompt.BuildRequest: JSON serialisation of the body is not modelled. The result is the body's fields.
- Aliasing is not modelled: the model works on values. Reset stores the built-in defaults array itself, and Update pushes the default objects. Later in-place edits would therefore change the defaults held in memory.
- Registry.Added: fields are text or unset, never `undefined`. A command without a prompt or name field is not modelled.
- Asynchrony is not modelled. Edits made to the note while a reply streams are outside the model, and so is a second command started before the first finishes.
- Engine.RunCommand: a read error ends the stream after the chunks that arrived. The model has the reply's chunks followed by an optional error, not an error in the middle of a chunk.

## Findings

| source | as written | input that shows it | evidently intended | confidence | as-written member | corrected member |
|---|---|---|---|---|---|---|
| src/Ollama.ts:38-49 | The marker column is the length of the user's turn's last line, even when the selection did not start at column 0. | The line `ab` with `b` selected: the marker goes between `👤 ` and `b`, so `b` ends up after `🤖 `. | Put the marker where the user's turn ends (`EndPos`). | high (not executed) | Engine.MarkerColumnCounterexample | Engine.MarkupAtEndSpec |
| src/Ollama.ts:107-110 | The next fragment goes `streamOutput.length` columns right of the anchor on the anchor's line, ignoring line breaks already streamed. | Fragments `"a\nb"` then `"c"`: `"c"` lands on the line above, after `🤖 a`. This holds when the editor clips a column past the end of a line to the line's end, the semantics stated under Left out. An editor that turns (line, ch) into an offset without clipping would put `"c"` after `b`, so the bug depends on that editor behaviour. | Insert each fragment where the streamed text ends. | medium: depends on the editor's clipping (not executed) | Engine.StreamedNewlineCounterexample | Stream.StreamedTrackingSpec |
| src/Ollama.ts:94-101 | Each chunk is split into lines on its own. | A reply line cut between two chunks, such as `{` then `}`: neither half parses, so its fragment is lost. | Hold back the unfinished last line and continue it with the next chunk. | high (not executed) | Stream.ChunkBoundaryCounterexample | Stream.BufferedFragmentsSpec |
