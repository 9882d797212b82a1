# AI_Chat: verified model of the message formatter and the chat helpers

AI_Chat is a small Flask chat front-end for the OpenAI API. This project
models, in Dafny, the parts of it that transform strings and records:

- **`formatMessageContent`** (static/script.js) is the browser-side formatter of a chat message.
  - It cuts the message at triple-backtick fences with a lazy regular expression.
  - Plain text is kept as it is.
  - Each fenced block becomes `<pre data-language="LANG"><code>CODE</code></pre>`.
  - LANG is a first-line tag without a space; CODE is the rest, trimmed and HTML-escaped.
  - Module `MessageFormatter`, file `formatter.dfy`.
- **`format_response`** (app.py) cuts an AI reply into paragraphs at `"\n\n"`.
  - A paragraph holding "```" is kept as it is.
  - Every other paragraph is re-flowed greedily to a 40-column budget.
  - The paragraphs are joined again.
  - The loops are modelled as methods (`WrapParagraph`, `FormatParagraph`, `FormatResponse`).
  - They are proved against a declarative specification of a greedy wrapping, `Wrapped`, which is proved to have exactly one solution.
  - Module `ResponseFormatter`, file `wrap.dfy`.
- **`allowed_file`** (app.py) is the upload whitelist: png, jpg, jpeg and gif, compared after lower-casing the text behind the last dot.
  - Module `Uploads`, file `uploads.dfy`.
- **The record logic of the chat routes** of app.py (module `ChatRecords`, file `chats.dfy`), with the JSON files as values and the file directory as a map:
  - editing a message of the session history and cutting the history after it;
  - merging chat settings;
  - clearing a chat;
  - building the chat list.

Shared string operations live in `text.dfy`:
- occurrence search (JavaScript `includes`, Python `in`);
- Python `str.split(sep)`;
- `join`.

`wrappers.dfy` holds `Option`.

Strings are sequences of Unicode code points. JavaScript `trim` and Python
`str.split()` are modelled with their exact whitespace sets.

## Model

| member | source | states |
|---|---|---|
| MessageFormatter.Trim | static/script.js:66 | the trimmed text neither starts nor ends with ECMAScript whitespace |
| MessageFormatter.TrimIsInfix | static/script.js:66 | trimming removes only whitespace, and only at the two ends |
| MessageFormatter.TrimAround | static/script.js:66 | whitespace around a text that neither starts nor ends with whitespace is removed exactly |
| MessageFormatter.FirstLine | static/script.js:67 | `split('\n')[0]` is a prefix without a line feed, followed in the text by a line feed when it is shorter |
| MessageFormatter.EscapeHtml | static/script.js:71-77 | each of `<`, `>`, `&`, `"`, `'` becomes its entity; its properties are stated by EscapeHtmlIsEscaped, UnescapeEscape, EscapeHtmlInjective and EscapeWithoutMarkup |
| MessageFormatter.EscapeHtmlIsEscaped | static/script.js:71-77 | escaped code has no raw `<`, `>`, `"` or `'`, and every `&` starts one of the five entities |
| MessageFormatter.UnescapeEscape | static/script.js:71-77 | decoding the five entities gives the code back |
| MessageFormatter.EscapeHtmlInjective | static/script.js:71-77 | two codes with the same escaping are equal |
| MessageFormatter.EscapeWithoutMarkup | static/script.js:71-77 | code without any of the five characters is left as it is |
| MessageFormatter.SplitTag | static/script.js:67-69 | the language is the trimmed first line when it holds no ' ' (tabs are not checked); it is then a prefix of the body and the code is the rest, trimmed; otherwise the code is the whole body |
| MessageFormatter.OneTokenBlock | static/script.js:66-69 | a block holding one token, as in "```foo```", has that token as language and empty code |
| MessageFormatter.TaggedBlockRoundTrip | static/script.js:66-69 | a block built from a tag, a line feed, code and a line feed gives back that tag and that code |
| MessageFormatter.FenceBody | static/script.js:66 | `part.slice(3, -3)`; see ShortPartIsEmpty for short parts and OneTokenBlock, TaggedBlockRoundTrip for the middle of a fenced part |
| MessageFormatter.ParseFence | static/script.js:66-69 | strip the fences, trim, split off the language tag; see SplitTag, OneTokenBlock, TaggedBlockRoundTrip and ShortPartIsEmpty |
| MessageFormatter.ShortPartIsEmpty | static/script.js:66 | a part of at most six characters has empty language and code (`slice(3, -3)` is empty) |
| MessageFormatter.RenderBlock | static/script.js:79 | the `<pre data-language=…><code>…</code></pre>` markup of a block; see RenderBlockShape, LanguageInMarkup and LanguageIsNotEscaped |
| MessageFormatter.RenderBlockShape | static/script.js:79 | a block renders as the fixed opening, the language unescaped, the fixed middle, the escaped code (which decodes to the code) and the fixed closing |
| MessageFormatter.LanguageIsNotEscaped | static/script.js:79 | a tag without whitespace or backticks, even one holding `"`, `<` or `>` such as `"><i>`, appears verbatim in the markup of the whole message right after `<pre data-language="` (LanguageInMarkup states it for every block) |
| MessageFormatter.LanguageInMarkup | static/script.js:79 | for every block, whatever its language holds, the language appears verbatim right after `<pre data-language="` |
| MessageFormatter.SplitFences | static/script.js:60 | the parts concatenate to the message; they alternate plain and fenced; each fenced part runs from the leftmost fence to the earliest fence three or more characters later; the last plain part holds no complete block |
| MessageFormatter.SplitFencesUnique | static/script.js:60 | any list of parts with those properties is the split: the lazy leftmost match leaves no choice |
| MessageFormatter.SplitFencesOfUnclosed | static/script.js:60 | text without a complete fenced block is split into itself alone |
| MessageFormatter.RenderAllPlain | static/script.js:61-80 | parts that do not start with a fence are emitted verbatim, in order, joined with "" |
| MessageFormatter.RenderPart | static/script.js:61-64 | a part not starting with "```" is returned as it is, any other is rendered as a code block; see PartsRendering |
| MessageFormatter.RenderAll | static/script.js:61-80 | the rendered parts joined with ""; see RenderAllPlain and PartsRendering |
| MessageFormatter.FormatMessageContent | static/script.js:55-81 | the whole formatter; see FormatWithoutFence, PartsRendering, FormatOneBlock, DanglingFence, ShortDanglingFence, OneBlockMessage and LanguageIsNotEscaped |
| MessageFormatter.FormatWithoutFence | static/script.js:56-58 | a message without "```" comes back unchanged, and the split-render-join path agrees with the early return |
| MessageFormatter.PartsRendering | static/script.js:61-64 | plain parts of the split before the last one are returned as they are; fenced parts are rendered as code blocks |
| MessageFormatter.FormatOneBlock | static/script.js:55-81 | text, one complete block and an unclosed tail: the texts are kept and the block is replaced by its rendering |
| MessageFormatter.DanglingFence | static/script.js:60-79 | a lone fence with no closing one leaves the message unchanged, except when the message starts with it: then the whole message is rendered as code |
| MessageFormatter.ShortDanglingFence | static/script.js:66-79 | "```" followed by at most three characters without a backtick (as in "```abc") renders as an empty block without a language |
| MessageFormatter.OneBlockMessage | static/script.js:55-81 | a tagged block between texts without backticks becomes the texts around the block's markup with the tag and the code |
| MessageFormatter.HelloScenario | static/script.js:55-81 | "Hello ```js\nconsole.log(1)\n``` world" keeps its text and renders a js block of `console.log(1)` |
| Text.Split | app.py:48 | `text.split(sep)`: the pieces joined with `sep` give the text, no piece holds `sep`, and the search is leftmost |
| Text.SplitJoin | app.py:78 | splitting at `sep` undoes joining with `sep` for pieces in which the leftmost search finds nothing early |
| ResponseFormatter.Words | app.py:60 | `paragraph.split()` gives non-empty runs without whitespace |
| ResponseFormatter.WordsAround | app.py:60 | a whitespace character separates the words on its two sides |
| ResponseFormatter.WordsOfJoin | app.py:69 | `' '.join(words)` split again gives the same words |
| ResponseFormatter.WordsOfLines | app.py:76 | the words of the lines joined with "\n" are the words of the lines in order |
| ResponseFormatter.WrappedUnique | app.py:63-71 | two greedy wrappings of the same words are equal |
| ResponseFormatter.StartWrap | app.py:63-71 | the first word starts line one, or line two after an empty line one when it does not fit |
| ResponseFormatter.PlaceWord | app.py:65-67 | a word that passes `line_length + len(word) + 1 <= 40` is added to the current line and the result is still a greedy wrapping |
| ResponseFormatter.BreakLine | app.py:68-71 | a word that fails the test closes the current line and starts a new one; the result is still a greedy wrapping |
| ResponseFormatter.WrapParagraph | app.py:58-76 | the lines are the greedy wrapping of the paragraph's words: the same words in order, single spaces, the first line under 40, every later line of two words or more at most 40 |
| ResponseFormatter.EmptyFirstLine | app.py:65-71 | the first line is empty exactly when the first word has 40 characters or more |
| ResponseFormatter.LongWordAlone | app.py:65-71 | a word of 39 characters or more sits alone on its line |
| ResponseFormatter.WrappedText | app.py:76 | the joined lines split at "\n" give the lines back and hold no "\n\n" |
| ResponseFormatter.FormatParagraph | app.py:51-76 | a paragraph with "```" is kept as it is; any other becomes the greedy wrapping of its words, has the same words in the same order, and stays one paragraph |
| ResponseFormatter.ReformattedWords | app.py:60-76 | a re-flowed paragraph has exactly the whitespace-separated words of the input paragraph, in order |
| ResponseFormatter.ParagraphsSeparate | app.py:78 | the joined result, cut again at "\n\n", gives the output paragraphs back |
| ResponseFormatter.FormatResponse | app.py:45-78 | input and output have as many "\n\n"-separated paragraphs, and each output paragraph is the one at the same place reformatted |
| Uploads.AsciiLower | app.py:37 | lower-casing keeps the length and maps each character on its own |
| Uploads.AsciiLowerIdempotent | app.py:37 | lower-casing twice is lower-casing once |
| Uploads.LastDot | app.py:37 | the position of the last dot, and no position exactly when there is no dot |
| Uploads.LastDotUnique | app.py:37 | a dot with no dot after it is the last dot |
| Uploads.RSplitDot | app.py:37 | `rsplit('.', 1)` splits a name with a dot into a head, the dot and a tail without a dot |
| Uploads.AllowedFile | app.py:36-37 | `allowed_file`; characterised by AllowedFileMeans and ExtensionDecides, with AllowedIgnoresCase and the four examples below |
| Uploads.AllowedFileMeans | app.py:36-37 | a name is accepted exactly when it has a dot whose tail has no dot and lower-cases to png, jpg, jpeg or gif |
| Uploads.ExtensionDecides | app.py:37 | for a name made of any head, a dot and a tail without a dot, the verdict is whether the tail lower-cases to an allowed extension |
| Uploads.AllowedIgnoresCase | app.py:37 | lower-casing the name does not change the verdict |
| Uploads.LastDotOfLower | app.py:37 | lower-casing moves no dot |
| Uploads.BareExtensionAllowed | app.py:20 | ".png" is accepted |
| Uploads.ExtensionWithoutDotRefused | app.py:36-37 | "png" is refused |
| Uploads.UpperCaseExtensionAllowed | app.py:36-37 | "photo.JPG" is accepted |
| Uploads.DoubleExtensionRefused | app.py:36-37 | "a.png.exe" is refused: only the text after the last dot counts |
| ChatRecords.EditHistory | app.py:375-388 | status 200 exactly when there is a session and an id with 0 <= id < len(history) that names a user message; then the history is cut after entry id, whose content alone is replaced; otherwise 400 and the history is unchanged |
| ChatRecords.EditedMessageIsLast | app.py:381-383 | after an accepted edit the edited message is the last one |
| ChatRecords.EditIdempotent | app.py:375-388 | repeating an accepted edit is accepted and changes nothing |
| ChatRecords.EditEarlierOverrides | app.py:375-388 | editing user message i and then user message j <= i is the same as editing j alone |
| ChatRecords.MergeSettings | app.py:161-163 | title, system prompt and model are overwritten exactly when the request has the key; otherwise kept, with an absent key stored as null; id and messages unchanged |
| ChatRecords.MergeIdempotent | app.py:161-163 | sending the same settings twice is sending them once |
| ChatRecords.MergeCompose | app.py:161-163 | two requests in a row act as one request holding both keys, the later one winning |
| ChatRecords.EmptyRequestKeeps | app.py:161-163 | an empty request leaves a chat with all three settings unchanged |
| ChatRecords.UpdateChatSettings | app.py:150-168 | 404 exactly for an unknown chat, with nothing changed; otherwise 200 and only that chat is replaced by its merge |
| ChatRecords.ClearChat | app.py:412 | the messages become empty; id, title, system prompt and model are unchanged |
| ChatRecords.ClearChatIn | app.py:403-417 | always 200; an existing chat is cleared and every other chat is untouched |
| ChatRecords.ClearIdempotent | app.py:403-417 | clearing twice is clearing once |
| ChatRecords.ClearCommutesWithMerge | app.py:412 | clearing and a settings merge give the same chat in either order |
| ChatRecords.Summary | app.py:116-121 | the list entry has the file's stem as id, the title (the default title when the key is absent, a stored null kept), and the last message's content and timestamp, or "" when there are no messages |
| ChatRecords.SummaryAfterAppend | app.py:119-120 | after a message is appended, the entry shows its content and timestamp |
| ChatRecords.SummaryAfterClear | app.py:119-120 | a cleared chat keeps its listed title and shows "" as last message and timestamp |
| ChatRecords.SummaryAfterMerge | app.py:118 | after a settings request with a title, the list shows that title |
| ChatRecords.ListChats | app.py:107-123 | one entry per chat file, in the order of the files, each the file's summary |

## Left out

- The DOM work, `fetch`, dialogs, event listeners and the client-side chat state of static/script.js: user interface and network.
- Flask routing, sessions, request parsing, reading, writing, globbing and deleting the JSON files, and `send_from_directory`: I/O. A chat file is a `ChatData` value, the chat directory a map from id to chat, and the session a flag.
- The order in which `glob` lists the chat files: `ListChats` keeps whatever order it is given.
- The OpenAI calls and base64 encoding (in `chat` and `upload_file`): foreign calls.
- The routes that only do file I/O or call OpenAI (`chat`, `upload_file`, `upload_to_chat`, `create_chat`, `get_chat`, `get_history`, `delete_history`, `delete_chat`): I/O. The message records that `chat` (app.py:189, 207), `upload_file` (app.py:311, 317) and `upload_to_chat` (app.py:455, 468) append to a chat are not modelled.
- `secure_filename` and `generate_filename`: library code and the clock and random ids. The uploaded file's `content_type` is request metadata.
- The 500 paths and uncaught exceptions are not modelled. These include:
  - a message without `role`, `content` or `timestamp` (`get_chats` reads the last message's `content` and `timestamp`, `edit_history` the `role`), and a chat file without `messages` (a `KeyError`);
  - a request body that is not a JSON object;
  - a message id that is not an integer. The model takes an integer or no id. A boolean is accepted and indexes as 0 or 1. A float outside `[0, len(history))` fails the range test and gets 400; an in-range float raises when it indexes the list. A string raises at the comparison.
- Uploads.AsciiLower: Python's `str.lower()` is modelled on ASCII letters only. This gives the same verdict for `allowed_file`: the only non-ASCII characters that lower-case into ASCII are KELVIN SIGN (to 'k') and LATIN CAPITAL LETTER I WITH DOT ABOVE (to "i" plus a combining dot). 'k' occurs in no allowed extension, and the combining dot is not ASCII.
- JavaScript strings count UTF-16 code units; the model counts code points. The two only differ for `slice(3, -3)` on text with characters outside the Basic Multilingual Plane.
- JSON values other than strings and null in message contents and settings (numbers, lists, objects): they are stored and copied without being looked at, which `JsonText` stands for.
- `session['chat_history'] = history` in `edit_history` stores the same cut history that is saved to the file (app.py:383-385); the route itself returns only a status. `EditHistory`'s result value is that saved history; the session copy is not modelled separately.
