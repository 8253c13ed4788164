# Soulingo in Dafny

Soulingo is an English tutor for Turkish speakers that runs in the browser.
The user chats with it, and it answers in one of two ways:

- text that looks like English prose goes to a grammar check;
- any other text goes to a general chat.

The user can also show it a photo. A remote model then names the objects in it, translates them into Turkish and uses each in an example sentence. A notebook keeps the user's own notes and imports plain-text files.

This project models the deterministic core of that application and proves what it does:

- **`Text`**: the ECMAScript white-space class `\s` and `String.prototype.trim`. The trim is proved to strip exactly the white space at both ends.
- **`EnglishClassifier`**: the classifier regular expression `[A-Za-z\s']{5,}(?:\s[A-Za-z\s']{5,}){1,}`, tested unanchored. It is defined as its language (`InPattern`) and as `.test` over every substring (`RegexTest`). A one-pass scan, `IsEnglishMessage`, is proved equal to both. The same proof gives a simple characterisation: some white-space character has five class characters on either side of it.
- **`VisionBlocks`**: the vision-reply regular expression ``\*\*([^*]+)\*\* \(Türkçesi: ([^)]+)\)\nExample: '(.*?)'`` with the `g` flag. It is defined declaratively:
  - `MatchesAt` says where the pattern matches;
  - `IsMatchAll` is `matchAll`: the leftmost match, then a new search from where that match ends.
  
  A backtrack-free scanner (`BlockAt`, `Scan`) is proved to be that search's one and only result.
- **`GeminiService`**: the three operations of the service object. Each is given the API key from the environment and the remote model's reply. Each returns the request it sent, if any, together with the value it returns or the message of the error it throws. `chat` keeps its loop that builds the replayed history.
- **`Constants`**: model names, the system instructions and the introduction, verbatim.
- **`VisionReplyExamples`**: concrete replies and what they parse to.
- **`Conversation`**: the messages the two tutor pages append.
- **`SoulingoPage.Soulingo`**: the current page. Its handlers change the mode, history, loading flag and error in place. It has a chat view and a vision view over the history.
- **`SuolingoPage.Suolingo`**: the older single-chat page. Its image handler first appends a notice naming the file.
- **`ChatInputBox.ChatInput`**: the message box. It has a submit guard and clears the draft after sending.
- **`NotebookPanel.Notebook`**: the notebook. Adding a note prepends it, deleting filters by id, and importing a text file prepends a note headed by the file name.

The remote model is a parameter, `Reply = Thrown | Replied(text)`. A reply without text is `Replied("")`.

An empty API key stands for a missing `process.env.API_KEY`. The client then throws before any `try`, so:

- no request is sent;
- the error's own message reaches the page unchanged.

Clock readings are abstract natural numbers. An identifier such as `Date.now() + '-ai-text'` keeps the clock value and the suffix (`MessageId.StampedId`).

The handlers each run as one atomic step. Anything the user's browser supplies is a parameter:

- the reply;
- the file picked and what reading it produced;
- the clock.

The page handlers test `text.trim()` for emptiness. Their contracts state that test as `AllWhiteSpace(text)`, which `Text.TrimEmptyIff` proves to be the same.

The page handlers do not check `isLoading`. In the code that guard lives in the message box and, on the older page, on the upload button. The model keeps it there, so `Soulingo.HandleFileChange` and both `HandleSendMessage` methods have no precondition on the loading flag.

## Model

| member | source | states |
|---|---|---|
| Text.TrimIsTrim | services/geminiService.ts:27-29 | `Trim(s)` is `s[i..j]` where every character before `i` and from `j` on is white space and `s[i]`, `s[j-1]` are not |
| Text.TrimEmptyIff | Soulingo.tsx:84 | a string trims to `""` exactly when it is all white space |
| Text.TrimUnique | services/geminiService.ts:27-29 | any string with the trim property is `Trim(s)`: the trim is unique |
| Text.TrimIdempotent | services/geminiService.ts:27-29 | trimming a trimmed string changes nothing |
| EnglishClassifier.IsEnglishMessageCorrect | constants.ts:49 | the scan answers `true` iff some substring is in the language of the expression, iff some white-space character has five `[A-Za-z\s']` characters on each side |
| EnglishClassifier.ScanCorrect | constants.ts:49 | the scan from any index succeeds iff an eleven-character window ends at or after that index |
| EnglishClassifier.InPatternShape | constants.ts:49 | every word of the language is at least eleven class characters long |
| EnglishClassifier.EnglishInContext | constants.ts:49 | the test is unanchored: text around an English message keeps it English |
| EnglishClassifier.ShortIsNeverEnglish | constants.ts:49 | no string shorter than eleven characters is classified as English |
| EnglishClassifier.WhiteSpaceRunIsEnglish | constants.ts:49 | eleven spaces in a row make any text English, since `\s` is inside the class |
| EnglishClassifier.SchoolSentenceIsEnglish | constants.ts:35 | "I go to school yesterday." goes to the grammar check |
| EnglishClassifier.GreetingIsNotEnglish | Soulingo.tsx:102 | "Merhaba, nasılsın?" goes to the chat |
| VisionBlocks.RunUntilOccurs | constants.ts:52 | the `[^*]+` and `[^)]+` captures read a run that lies in the text at that point, holds no stop character and is followed by one unless the text ends |
| VisionBlocks.RunUntilAfterRun | constants.ts:52 | any run free of the stop character and followed by it is exactly what the capture reads, so the capture has no other choice |
| VisionBlocks.SentenceRunOccurs | constants.ts:52 | the lazy `.*?` capture reads a run that holds no apostrophe and no line terminator, and is followed by one of them unless the text ends |
| VisionBlocks.SentenceRunAfterRun | constants.ts:52 | any run free of apostrophes and line terminators and followed by an apostrophe is exactly what the lazy capture reads: it stops at the first apostrophe |
| VisionBlocks.RenderPieces | constants.ts:52 | a block occurs at `p` iff its seven pieces (literals and captures) occur one after another from `p` |
| VisionBlocks.BlockAtMatches | constants.ts:52 | a block the scanner reads at `p` is a match of the pattern at `p` |
| VisionBlocks.BlockAtComplete | constants.ts:52 | every match at `p` is the one the scanner reads there: captures are determined by the position |
| VisionBlocks.NoStarNoMatch | constants.ts:52 | no match starts where there is no asterisk |
| VisionBlocks.MatchAllIsScan | services/geminiService.ts:20 | the scan is a result of `matchAll`, and every result of `matchAll` is the scan |
| VisionBlocks.MatchAllUnique | services/geminiService.ts:20 | `matchAll` has exactly one result |
| VisionBlocks.MatchAllEmptyIff | services/geminiService.ts:20-21 | `matchAll` yields nothing exactly when no match starts anywhere |
| VisionBlocks.MatchAllOrdered | services/geminiService.ts:20 | matches come in document order and never overlap |
| VisionBlocks.MatchAllShift | services/geminiService.ts:20 | a prefix shifts the matches of the text after it and adds none of its own from there |
| VisionBlocks.NoParenLineFeedNoMatch | constants.ts:52 | without a `)` directly before a line feed there is no match |
| VisionBlocks.RenderAllMatches | constants.ts:52 | well-formed blocks written one after another are matched back, one each, in order |
| VisionBlocks.OneBlockMatches | constants.ts:52 | a block in text without asterisks is the only match, at its offset |
| GeminiService.IdentifiedTrims | services/geminiService.ts:26-30 | each field of an item is the trim of the corresponding capture |
| GeminiService.Items | services/geminiService.ts:26-30 | one item per match, in the same order |
| GeminiService.ParseVisionResponse | services/geminiService.ts:19-31 | `None` iff no match; never an empty list; otherwise the items of the unique `matchAll` result |
| GeminiService.ParseRenderAll | services/geminiService.ts:26-30 | N blocks written out parse to exactly N items in order, each the trimmed captures |
| GeminiService.ParseOneBlock | services/geminiService.ts:19-31 | one block surrounded by text without asterisks parses to exactly its item |
| GeminiService.ParseLoneBlock | services/geminiService.ts:19-31 | a reply that is one block and nothing else parses to exactly its item |
| GeminiService.ParseNoAsterisk | services/geminiService.ts:21-24 | a reply without asterisks parses to `None` |
| GeminiService.ParseNoParenLineFeed | services/geminiService.ts:21-24 | a reply without `)` directly before a line feed parses to `None` |
| GeminiService.ParseCleanBlock | services/geminiService.ts:26-30 | captures with no white space at their ends are read back exactly |
| GeminiService.TrimOfTrimmed | services/geminiService.ts:27-29 | a string with no white space at its ends is its own trim |
| GeminiService.TextReply | services/geminiService.ts:108-111 | success iff the model answered; the value is the reply text, and exactly the fallback when that text is empty; never empty; any error becomes the fixed message |
| GeminiService.AnalyzeImage | services/geminiService.ts:51-89 | the request is sent iff the key is set, and carries the user's prompt or the default one. The result is success iff the key is set, the model answered and the reply parses. Every later failure has the fixed message. On success the content is the parsed list, which is non-empty, with the prompt or "Resim analizi" |
| GeminiService.GrammarPromptRecovers | services/geminiService.ts:98 | the sentence is read back from its prompt, which is 17 characters longer |
| GeminiService.CheckGrammar | services/geminiService.ts:96-113 | the request is sent iff the key is set, with the quoted prompt and the grammar instruction; the result is the text reply with its fixed error, and an empty reply gives "Üzgünüm, cümle analizi yapılamadı." |
| GeminiService.TurnOf | services/geminiService.ts:128-131 | the role is "user" iff the sender is the user, "model" iff the tutor; the text is the message's |
| GeminiService.ReplayOne | services/geminiService.ts:127-132 | a single message is replayed iff it is text or a grammar correction |
| GeminiService.ReplayAppend | services/geminiService.ts:125-133 | replaying a history split in two is replaying each part, in order |
| GeminiService.ReplayFromDialogue | services/geminiService.ts:125-133 | every replayed turn comes from a text or grammar message, and there are no more turns than messages |
| GeminiService.ChatResult | services/geminiService.ts:147-153 | success iff the key is set and the model answered; a missing key keeps its own message; an empty reply gives "Üzgünüm, yanıt verilemedi." |
| GeminiService.Chat | services/geminiService.ts:121-154 | the loop builds exactly `Replay(chatHistory)`; the request is sent iff the key is set, with that history and the new message; the result is `ChatResult` |
| VisionReplyExamples.ParseInstructionExample | constants.ts:18-21 | the system instruction's example parses to "Coffee Mug" / "Kahve Kupası", with the sentence cut at the apostrophe of "day's" |
| VisionReplyExamples.ParseGreetingAndBlock | constants.ts:13-15 | a greeting followed by one block parses to that one item |
| VisionReplyExamples.ParsePaddedBlock | services/geminiService.ts:27-29 | spaces around the captures are trimmed away, and an all-space sentence becomes `""` |
| VisionReplyExamples.ParseCrLfBlock | constants.ts:52 | a block with `\r\n` between its two lines yields nothing |
| Conversation.AnswerTurnShape | Soulingo.tsx:98-127 | the answer is a tutor message that is never empty. It is a grammar correction iff the text looks English and the call answered. The error message shown depends on the key and the branch taken |
| Conversation.AnalysisTurnShape | Soulingo.tsx:46-74 | the message after an image is an analysis with items iff the file was read, the key is set and the reply parses; otherwise it is non-empty text |
| SoulingoPage.ChatViewMembers | Soulingo.tsx:204 | the chat view holds exactly the messages that are not image analyses |
| SoulingoPage.VisionViewMembers | Soulingo.tsx:253 | the vision view holds exactly the image analyses |
| SoulingoPage.ChatViewAppend | Soulingo.tsx:204 | the chat view keeps the history's order |
| SoulingoPage.VisionViewAppend | Soulingo.tsx:253 | the vision view shows later messages first |
| SoulingoPage.ViewsPartition | Soulingo.tsx:204 | every message is in exactly one of the two views |
| SoulingoPage.ReplayOfChatView | services/geminiService.ts:127 | the chat is given the same turns from the whole history as from the chat view |
| SoulingoPage.SendShowsInChatView | Soulingo.tsx:204 | a sent message and its answer appear at the end of the chat view and not in the vision view |
| SoulingoPage.AnalysisShowsFirst | Soulingo.tsx:253 | a new analysis goes to the top of the vision view and not into the chat view |
| SoulingoPage.ReplaySkipsAnalyses | services/geminiService.ts:127 | after an analysis and a text exchange the chat is given the introduction and the two text turns only |
| SoulingoPage.Soulingo.constructor | Soulingo.tsx:12-24 | landing mode, one welcome message with the introduction, not loading, no error |
| SoulingoPage.Soulingo.SetMode | Soulingo.tsx:138 | sets the mode and nothing else |
| SoulingoPage.Soulingo.HandleSendMessage | Soulingo.tsx:83-131 | all-white-space text changes nothing. Otherwise the history grows by the user's message as typed and exactly one answer: a grammar check when the text looks English, else a chat given the history from before the call. Loading ends, and the error is the thrown message |
| SoulingoPage.Soulingo.HandleFileChange | Soulingo.tsx:36-81 | no file changes nothing. Otherwise: vision mode, exactly one tutor message and no user message, loading ends, and the error is the thrown message |
| SuolingoPage.Suolingo.constructor | Suolingo.tsx:12-24 | one welcome message with the introduction, not loading, no error |
| SuolingoPage.Suolingo.HandleFileChange | Suolingo.tsx:33-87 | no file changes nothing. Otherwise the history grows by the notice "Resim yüklendi: " + name, then exactly one tutor message; the upload button is usable again |
| SuolingoPage.Suolingo.HandleSendMessage | Suolingo.tsx:89-142 | as on the newer page: ignored when all white space, else the user message and exactly one answer of the classified kind |
| SuolingoPage.ImageExchangeReplay | Suolingo.tsx:40-47 | the notice is replayed to the chat as a user turn naming the file; the analysis is not, and an error that replaced it is |
| ChatInputBox.SubmitDisabledIff | components/ChatInput.tsx:35 | the send button is disabled iff loading or the draft is all white space |
| ChatInputBox.ChatInput.constructor | components/ChatInput.tsx:9 | the draft starts empty |
| ChatInputBox.ChatInput.HandleInputChange | components/ChatInput.tsx:11-13 | the draft becomes exactly the field's value |
| ChatInputBox.ChatInput.HandleSubmit | components/ChatInput.tsx:15-21 | sends iff the button would be enabled, sends the untrimmed draft and clears it; otherwise sends nothing and keeps the draft |
| NotebookPanel.WithoutAppend | components/Notebook.tsx:83 | the delete filter splits over concatenation, so it keeps order |
| NotebookPanel.WithoutMembers | components/Notebook.tsx:83 | after a delete, exactly the notes with another id remain |
| NotebookPanel.WithoutAbsent | components/Notebook.tsx:83 | deleting an id no note has changes nothing |
| NotebookPanel.DeleteUndoesAdd | components/Notebook.tsx:41 | deleting a note just added, whose id is new, restores the list |
| NotebookPanel.DeleteKeepsOthers | components/Notebook.tsx:83 | a note with another id stays where it was, between the filtered notes before and after it |
| NotebookPanel.FirstLine | components/Notebook.tsx:61 | the prefix before the first line feed, followed by one when shorter than the text |
| NotebookPanel.ImportedTextParts | components/Notebook.tsx:61 | for a name without line feeds, an imported note's first line is the emoji and the name, and the content follows a blank line |
| NotebookPanel.Notebook.constructor | components/Notebook.tsx:11-12 | no notes and an empty draft |
| NotebookPanel.Notebook.SetDraft | components/Notebook.tsx:139 | the draft becomes the field's value; notes unchanged |
| NotebookPanel.Notebook.HandleAddNote | components/Notebook.tsx:32-43 | a draft that trims to `""` changes nothing; otherwise the untrimmed draft becomes the first note, the others follow unchanged, and the draft is cleared |
| NotebookPanel.Notebook.HandleDeleteNote | components/Notebook.tsx:82-84 | the notes become the filtered list: exactly the notes with another id, in order |
| NotebookPanel.Notebook.HandleFileUpload | components/Notebook.tsx:45-76 | no file changes nothing. A non-empty type other than text/plain gives the type alert, and a read error gives the read alert; neither changes the notes. Content becomes the first note headed by the name, and an empty file adds nothing. The draft is never touched |

## Left out

- The remote model (`generateContent`, `chats.create`, `sendMessage`) is not modelled. Its behaviour is the `Reply` parameter, and the request it would receive is returned as data.
- Reading files is not modelled. `fileToBase64` lives in `utils/base64Utils`, outside the modelled files, and the notebook uses `FileReader`; only the outcome of each read, the contents or a failure, is kept. Each picked file arrives with that outcome.
- The notebook's loading from and saving to `localStorage` is I/O and is left out, so the notebook starts empty.
- Clocks and locale are left out. `Date.now()`, `new Date()`, ISO timestamps and the Turkish date formatting are abstract natural numbers. A note's id is the clock reading as a number, not its decimal string.
- The system instructions travel in requests as an enum (`Constants.SystemInstruction`); their texts are kept verbatim in `Constants`.
- Asynchrony is left out, as are React's batching and interleaving of handlers. Each handler is one atomic step, so the loading state during a call is not observable in the model.
- Layout, scrolling, the reset of the file input and `console` logging are user-interface effects and are left out.
- Strings are sequences of code points, not UTF-16 units. The page emoji of an imported note is one character.
- The comment above the classifier (constants.ts:48) calls it a test for "primarily English" messages. Its class `[A-Za-z\s']` also contains every `\s` character, so eleven white-space characters in a row count as English (`WhiteSpaceRunIsEnglish`).
- `handleSendMessage` does not check `isLoading`; the only guards are the message box (`ChatInput.HandleSubmit`, ChatInput.tsx:17) and the older page's upload button (Suolingo.tsx:187).
