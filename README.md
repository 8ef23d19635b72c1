# Meeting-minutes service, modelled in Dafny

The service takes an uploaded meeting recording and checks its file
extension. It builds a hint prompt from the caller's meeting summary and key
terms, and sends the audio to a speech-recognition service and the transcript
to a chat model. It returns the transcript and the minutes the chat model
wrote. A separate helper, `format_minutes`, turns a transcript into a
Markdown minutes skeleton: a fixed header, the date, then one bullet per
sentence.

The model covers the decision logic of `main.py`:

- `text.dfy` (`Text`): the Python `str` behaviour the code relies on. It
  covers `isspace`, `strip`, `split` on one character, `join` and ASCII
  `lower`.
- `upload.dfy` (`Upload`): the extension check. `os.path.splitext` is
  modelled with POSIX separators.
- `prompt.dfy` (`Prompt`): the initial prompt for speech recognition.
- `minutes.dfy` (`Minutes`): `format_minutes`. It is an imperative loop that
  appends to a string. It is proved against functions that split the text
  into sentences and format the bullets.
- `endpoint.dfy` (`Endpoint`): which reply `transcribe_audio` gives.
  - The two remote calls are function parameters.
  - The file is rejected before either call.
  - Every error is rewrapped by the outer handler. That rewrapping is listed
    under Findings.

## Model

| member | source | states |
|---|---|---|
| Text.IsSpace | main.py:156 | Defines Python's `str.isspace()` for one character. It has no contract of its own; `Strip` and its lemmas are stated in terms of it. |
| Text.LeadingSpace | main.py:156 | The count of leading characters: they are all whitespace, and the next character is not. |
| Text.TrailingSpace | main.py:156 | The count of trailing characters: they are all whitespace, and the one before them is not. |
| Text.AllSpaceSplit | main.py:156 | A string is all whitespace exactly when both halves of any cut are. |
| Text.Strip | main.py:156-157 | `strip()` is empty exactly when the input is all whitespace. Otherwise it starts and ends with a non-space character. It is the contiguous slice of the input left after removing all-whitespace ends. |
| Text.LowerAscii | main.py:47 | Lower-casing keeps the length and maps each character through ASCII case folding. |
| Text.Split | main.py:154 | `split` yields at least one piece, and no piece contains the separator. |
| Text.Join | main.py:51 | Defines Python's `sep.join(parts)`. It has no contract of its own; `JoinSplit`, `SplitJoin` and `JoinContains` state what it does. |
| Text.JoinSplit | main.py:154 | Joining the split pieces with the separator gives back the input. |
| Text.SplitNoSeparator | main.py:154 | A string with no separator splits into itself alone. |
| Text.SplitCons | main.py:154 | How `split` treats the first character. A separator starts a new piece; anything else extends the first piece. |
| Text.SplitAtSeparator | main.py:154 | Splitting `x + sep + y` gives the pieces of `x` followed by the pieces of `y`. |
| Text.SplitJoin | main.py:154 | Splitting separator-free pieces joined by the separator recovers exactly those pieces. |
| Upload.LastIndexOf | main.py:47 | The result is -1 or an index holding the character, and the character does not occur after it. |
| Upload.FoundExtension | main.py:47 | `splitext` finds an extension exactly when the last path component has a dot that follows a non-dot character. |
| Upload.ExtensionWitness | main.py:47 | A non-dot followed by a dot in the last path component puts the last dot after that dot position and the last slash before the non-dot. |
| Upload.Extension | main.py:47 | The extension is empty exactly when there is none. Otherwise it is a suffix of the name: one dot followed by dot-free, slash-free text. |
| Upload.IsSupported | main.py:47-48 | The check itself: the lower-cased extension is one of the seven allowed ones. An accepted name always has an extension. |
| Upload.AllowedShape | main.py:46 | Each allowed extension is a dot followed by dot-free, slash-free text. |
| Upload.LowerKeepsDotAndSlash | main.py:47 | Lower-casing neither creates nor removes dots or slashes. |
| Upload.LastIndexOfLower | main.py:47 | Lower-casing does not move the last dot or the last slash. |
| Upload.ExtensionOfLower | main.py:47 | Taking the extension commutes with lower-casing. |
| Upload.SupportedIgnoresCase | main.py:46-48 | Two names equal after lower-casing are accepted or rejected together. |
| Upload.SupportedIffAllowedSuffix | main.py:46-48 | A name is accepted exactly when it ends, case-insensitively, in an allowed extension preceded by a stem whose last path component has a non-dot character. |
| Upload.SuffixStem | main.py:47 | The last dot of a name with an extension follows a named stem. |
| Upload.AllowedSuffixIsExtension | main.py:47-48 | An allowed suffix after a named stem is, up to case, exactly the extension `splitext` returns. |
| Upload.UpperCaseAccepted | main.py:46-48 | `Meeting.WAV` is accepted. |
| Upload.DotFileRejected | main.py:46-48 | `.wav` is rejected: a leading dot does not start an extension. |
| Prompt.InitialPrompt | main.py:55-59 | The prompt starts with the fixed sentence. Its length is exactly the sentence plus the parts the non-empty hints add. It equals the sentence exactly when both hints are empty. Otherwise a space and the summary follow the sentence, and the key-terms phrase and the terms end it. |
| Prompt.PromptDeterminesSummary | main.py:55-57 | With the key terms fixed, different summaries give different prompts. |
| Prompt.PromptDeterminesKeyTerms | main.py:55-59 | With the summary fixed, different key terms give different prompts. |
| Prompt.HintsRunTogether | main.py:56-59 | The hints are not delimited. A summary `a` + key-terms phrase + `b`, with no key terms, gives the same prompt as summary `a` with key terms `b`. |
| Minutes.BreakAfterStops | main.py:154 | `replace("。", "。\n")`: the result is at least as long as the text, and every `。` in it is followed by a line break. |
| Minutes.Pieces | main.py:154 | The sentence pieces: there is always at least one. |
| Minutes.PiecesCons | main.py:154 | How the sentence splitter treats the first character: a newline starts a new piece, and `。` ends the current piece and starts a new one. |
| Minutes.PiecesShape | main.py:154 | No sentence piece contains a newline, and `。` occurs in a piece only as its last character. |
| Minutes.PiecesRejoin | main.py:154 | No text is lost: concatenating the pieces gives the transcript back. A newline goes after each piece except those ending in `。` and the last. |
| Minutes.Body | main.py:156-157 | A piece gives at most one bullet text. It gives none exactly when the piece is all whitespace; otherwise the text is the stripped piece. |
| Minutes.Bodies | main.py:155-157 | There are no more bullet texts than pieces, and none of them is empty. |
| Minutes.SplitLines | main.py:154-157 | Splitting line-ended text on line breaks gives the lines back, then the split of whatever follows them. |
| Minutes.Bullets | main.py:157 | The bullet block is exactly the lines `- text`, one per text, each ended by a line break. |
| Minutes.HeaderAsLines | main.py:149-151 | The three header statements build exactly seven line-ended lines. |
| Minutes.Header | main.py:149-151 | The header is the lines `# 議事録`, an empty line, `## 日時`, the date, an empty line, `## 議事内容` and an empty line, each ended by a line break. |
| Minutes.HeaderLinesOneLine | main.py:149-151 | No header line holds a line break, as long as the date has none. |
| Minutes.BodiesSnoc | main.py:155-157 | The kept sentences of a longer list are those of the prefix followed by the new piece's. |
| Minutes.BulletsAppend | main.py:157 | The bullets of two lists of sentences are the bullets of each, concatenated. |
| Minutes.BulletsSnoc | main.py:155-157 | Handling one more piece appends exactly its bullet, or nothing for a blank piece. |
| Minutes.FormattedStep | main.py:155-157 | One loop iteration keeps the output equal to the header plus the bullets of the pieces handled so far. |
| Minutes.FormatMinutes | main.py:143-159 | The result is the three-part header with the date, then one `- sentence` line per non-blank piece, stripped, in order. |
| Minutes.SelectedIncreasing | main.py:155-156 | The indices of the kept pieces are valid and strictly increasing, so bullets keep transcript order. |
| Minutes.SelectedComplete | main.py:156 | Every non-blank piece is kept. |
| Minutes.CollectSelected | main.py:155-157 | Each kept value is the value of the piece at its index. |
| Minutes.BodiesCollect | main.py:155-157 | The kept sentences are the stripped non-blank pieces collected in order. |
| Minutes.BodiesSelect | main.py:154-157 | Bullet k is the stripped text of the k-th non-blank piece. The indices increase, and every non-blank piece gets a bullet. |
| Minutes.BodyShape | main.py:156-157 | A stripped, non-blank piece is non-empty, has no whitespace at either end and has no newline. |
| Minutes.BodiesShape | main.py:154-157 | Every bullet text is non-empty, has no whitespace at either end and has no newline. |
| Minutes.BulletLines | main.py:157 | The bullet block splits into exactly one `- text` line per sentence, plus the empty string after the final newline. |
| Minutes.BulletTextsOneLine | main.py:157 | A `- text` line holds no line break when its text holds none. |
| Minutes.TidyBodies | main.py:154-157 | Every bullet text made from a transcript is non-empty, has no whitespace at either end and has no line break. |
| Minutes.MinutesLines | main.py:149-157 | Read line by line, the minutes are the seven header lines with the date on the fourth, then one `- text` line per kept sentence, in order, with each text tidy, and nothing after the final line break. |
| Endpoint.Describe | main.py:139-141 | The text of an exception ends in its detail, after the status code and `: `. |
| Endpoint.StatusCodes | main.py:49-50 | Statuses 400 and 500 print as `400: ` and `500: ` before the detail. |
| Endpoint.UnsupportedDetail | main.py:51 | The rejection detail starts with the unsupported-format message. |
| Endpoint.JoinContains | main.py:51 | Every part of a `join` occurs in the joined text. |
| Endpoint.RejectionNamesEveryExtension | main.py:46-51 | When `setOrder` lists the allowed extensions each once, the rejection detail names every allowed extension. |
| Endpoint.Unexpected | main.py:139-141 | The outer handler always answers 500. Its detail starts with the unexpected-error message and ends with the detail of the exception it caught. |
| Endpoint.TranscribeAudio | main.py:44-141 | Every error the client sees has status 500. A successful reply requires an accepted name and carries what the two calls returned. A rejected name yields the wrapped text of the 400. A failed transcription, or a failed minutes generation after a successful transcription, yields the 500 wrapped twice, carrying that call's message. |
| Endpoint.RejectedBeforeCalls | main.py:46-52 | For a rejected name the reply does not depend on either remote call. |
| Endpoint.TranscribedIff | main.py:44-126 | The reply is a success exactly when the name is accepted and both remote calls succeed. |
| Endpoint.TranscribeAudioIntended | main.py:48-130 | Corrected version: a rejected name gets the 400 with its detail unchanged, and only then. A failed transcription, or a failed minutes generation after a successful transcription, gets one 500 with that call's message. |
| Endpoint.RejectionStatus | main.py:48-52 | For every rejected name the as-written reply is a 500, while the intended one is a 400. |
| Endpoint.SuccessUnchanged | main.py:123-126 | The correction changes no successful reply. |
| Endpoint.TextFileExtension | main.py:47 | `splitext` finds `.txt` in `notes.txt`. |
| Endpoint.TextFileRejected | main.py:46-48 | `notes.txt` is rejected. |

## Left out

- FastAPI routing, the HTML page, templates, static files and the startup check of `OPENAI_API_KEY` are not modelled: they are framework wiring and environment.
- The temporary file is not modelled. That covers creating it, copying the upload into it, reading its size, deleting it, and the error handling around deletion. The model assumes these steps succeed. When they fail, the source also answers 500, which the model does not show. If creating the file fails (main.py:62), the error is wrapped once. If copying or measuring fails (main.py:65-70), it is wrapped twice. Endpoint.TranscribedIff holds only under this assumption.
- Whether the audio sent to the speech-recognition call holds every uploaded byte is not modelled. main.py:74 reopens the file by name while the handle written at main.py:65 is still open and unflushed.
- Logging is not modelled.
- The OpenAI calls are not modelled. They become the parameters `transcribe` (prompt to transcript) and `summarize` (transcript to minutes), each returning a text or the message of the exception it raised. The fixed model names, the language and the system prompt are not modelled.
- Endpoint.TranscribeAudio: a transcript or minutes content of `None` is not modelled. Both results are strings.
- Endpoint.TranscribeAudio: the order in which the allowed extensions appear in the rejection message is a parameter, `setOrder`. Python iterates a set of strings in an order that changes from run to run. The parameter is not constrained, so the model also admits listings Python never produces. `ListsAllowed` states the real constraint, and Endpoint.RejectionNamesEveryExtension uses it.
- Endpoint.TranscribeAudio: `str()` of an `HTTPException` is taken to be `<status>: <detail>`, which is what Starlette's exception class produces.
- Minutes.FormatMinutes: the date line is a parameter. It stands for the current time formatted as `YYYY年MM月DD日 HH:MM`, because the clock is outside the model.
- Minutes.FormatMinutes: the `try`/`except` that logs and re-raises is not modelled. Nothing in the body raises for a string input.
- Text.LowerAscii: `lower()` is modelled on ASCII letters only. Membership in the allowed set is decided the same way as with Python's full Unicode lower-casing. The only non-ASCII characters whose lower case contains an ASCII letter are KELVIN SIGN (to `k`) and LATIN CAPITAL LETTER I WITH DOT ABOVE (to `i` plus a combining dot, which is not ASCII). No allowed extension contains `k` or `i`.
- Upload.Extension: Windows path separators are not modelled; `splitext` is the POSIX one.

## Findings

| source | as written | input that shows it | evidently intended | confidence | as-written member | corrected member |
|---|---|---|---|---|---|---|
| main.py:48-52, 139-141 | The 400 for an unsupported file is raised inside the outer `try`, whose `except Exception` catches every `HTTPException`. The client therefore gets a 500 whose detail is `予期せぬエラーが発生しました: 400: サポートされていないファイル形式です。…`. Failures of the remote calls are likewise wrapped twice, as `…: 500: 処理中にエラーが発生しました: …`. | an upload named `notes.txt` | the 400 with its detail reaches the client, and a failed call gives one 500 | high (not executed) | Endpoint.RejectionStatus | Endpoint.TranscribeAudioIntended |
