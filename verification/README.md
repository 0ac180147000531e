# Telegram YouTube summarizer bot: the per-message decision procedure

This project models, in Dafny, the logic of `handle_message` in `bot.py` and
the text-cleanup tail of `get_transcript`. Each incoming chat message is
classified as a video request or a question. A video request fetches the
video's English captions, cleans the WebVTT payload to one line of text,
stores it as the sender's session and asks the local inference endpoint for
a structured summary. A question is answered from the stored transcript, or
refused when the sender has none. Both prompts carry the first 2000
characters of the transcript and a language picked by keywords in the
message.

The model is purely functional:

- `text.dfy` (module `Text`): substring membership, with an existential
  reference definition. Also ASCII lower-casing, the whitespace class of
  `str.strip`, leading and trailing runs, and the `[:n]` slice.
- `routing.dfy` (module `Routing`): the host-substring routing test and the
  `hindi` / `kannada` / `tamil` keyword cascade. The cascade is stated
  against an independent case-insensitive search.
- `captions.dfy` (module `Captions`): the four cleanup stages. The cue regex
  `\d{2}:\d{2}:\d{2}\.\d+ --> .*` is modelled as a hand-written scanner,
  proved to find the longest cue at each position. The other stages are
  `str.replace("WEBVTT", "")`, `re.sub(r"\n+", " ")` and `str.strip()`.
- `prompts.dfy` (module `Prompts`): the two prompt templates, kept as a
  `Prompt` value. `Render` produces the exact template text and `Parse`
  reads it back. `Parse` recovers every summary prompt, and every question
  prompt whose transcript excerpt has no line break. Every prompt built from
  stored transcripts meets that condition, because cleanup removes all line
  breaks. Conversely, any text `Parse` accepts is the rendering of what it
  returns.
- `bot.dfy` (module `Bot`): the session map `map<UserId, string>`. `Step`
  maps (sessions, user, message, fetch outcome) to (sessions', action).
  `Handle` adds the inference outcome and gives the replies sent. `Run`
  folds `Step` over a message sequence.

The fetch and the inference call are inputs, not computations. A fetch is
one of three outcomes:

- it raised;
- it returned `None`, because there is no caption track or the download
  status was not 200;
- it returned the raw caption text and the title.

Inference either raised or returned a JSON object with string fields.

Three behaviours of the code are easy to misread, and the model follows the
code in each:

- When `get_transcript` returns `None`, the tuple unpacking at line 94
  raises. The user gets "Something went wrong.", not "No transcript
  available.". That second reply is sent only when the cleaned transcript
  is empty.
- The summary template says "Mention exact timestamp and what happens
  there (3–5 timestamps)" even though cleanup has removed all cue timings. The template text is kept as written.
- A fetched transcript is stored before inference is called. A failed
  inference call therefore still leaves the new session in place.

## Model

| member | source | states |
|---|---|---|
| Text.Contains | bot.py:92 | Python's `p in s` holds exactly when `p` occurs at some position of `s`; the empty pattern occurs everywhere |
| Text.Take | bot.py:101 | the `[:2000]` slice is the prefix of length min(\|s\|, n), and the whole string when it is no longer than n |
| Routing.IsVideoRequest | bot.py:92 | a message is a video request iff "youtube.com" or "youtu.be" occurs in it, case-sensitively |
| Routing.ContainsLowerIsMentions | bot.py:107 | searching the lower-cased message for a lower-case keyword is the same as a case-insensitive search of the message |
| Routing.DetectLanguage | bot.py:106-112 | Hindi iff "hindi" is mentioned in any case; Kannada iff "kannada" is but "hindi" is not; Tamil iff only "tamil" of the three is; English iff none is. The question path's copy at lines 164-170 is the same function |
| Routing.DetectLanguageIgnoresCase | bot.py:165-170 | two messages that differ only in ASCII letter case get the same language |
| Routing.ShortLinkInHindi | bot.py:92-108 | "https://youtu.be/xyz in hindi" is a video request and asks for Hindi |
| Captions.CueLength | bot.py:51 | the scanner reports 0 exactly when no prefix matches the cue pattern; otherwise it reports the longest matching prefix, which runs to the end of the line |
| Captions.StripCues | bot.py:51 | deleting cue matches only removes characters, keeps every line break, and changes the text iff some part of it matches the cue pattern |
| Captions.RemoveAll | bot.py:53 | `replace(pat, "")` only removes characters, keeps all characters not in `pat`, and changes the text iff `pat` occurs in it |
| Captions.CollapseNewlines | bot.py:56 | no line break survives, no character other than a space is gained or lost, the text never grows, and text without line breaks is unchanged |
| Captions.Strip | bot.py:58 | `strip()` returns a slice of its input with only whitespace cut on either side, and neither end of the result is whitespace |
| Captions.CollapseKeepsLine | bot.py:56 | text before the first line break passes through the newline stage unchanged, whatever follows it |
| Captions.CollapseRun | bot.py:56 | a whole run of one or more line breaks after a line becomes exactly one space, and the stage goes on with the text after the run |
| Captions.StripKeepsTrimmed | bot.py:58 | `strip()` leaves text with no whitespace at either end unchanged |
| Captions.CleanKeepsCleanText | bot.py:50-58 | a payload that is one line, holds no cue and no "WEBVTT", and has no whitespace at either end comes out of cleanup unchanged |
| Captions.CleanJoinsLines | bot.py:50-58 | two caption lines separated by any run of line breaks come out as the two lines joined by one space |
| Captions.Clean | bot.py:50-58 | the cleaned transcript has no line break, no whitespace at either end, and is never longer than the caption payload |
| Prompts.SummaryFor | bot.py:101-140 | the summary prompt asks for the given language and carries a prefix of the transcript of length min(\|t\|, 2000) |
| Prompts.QuestionFor | bot.py:177-187 | the question prompt asks for the given language, carries a prefix of the stored transcript of length min(\|t\|, 2000) and the question verbatim |
| Prompts.ParseRender | bot.py:118-140 | reading back a rendered prompt returns the language, excerpt and question it was built from, when a question excerpt has no line break |
| Prompts.RenderParse | bot.py:177-188 | any text that reads back as a prompt is exactly that prompt's rendering, and a question excerpt read back holds no line break |
| Bot.Step | bot.py:92-187 | only the sender's entry can change and none is removed; a refusal writes nothing; a changed entry is the cleaned, non-empty fetched transcript; each prompt carries the first 2000 characters of the sender's entry, the detected language and, for a question, the message verbatim |
| Bot.Handle | bot.py:85-200 | at least one reply is sent, and the session map after the message does not depend on the inference outcome |
| Bot.RoutingDecides | bot.py:92-157 | the step takes the summary path iff a host substring occurs in the message, and the question path iff none does |
| Bot.SummarizeStores | bot.py:100-140 | a successful fetch sets the sender's entry to the cleaned transcript, replacing any earlier one, and asks for a summary in the detected language after the title and processing notices |
| Bot.SummarizeRefused | bot.py:94-152 | a fetch that raises or returns `None` gives "Something went wrong."; one that cleans to nothing gives "No transcript available."; neither writes nor calls inference |
| Bot.QuestionReadsOnly | bot.py:157-187 | a question never writes and never fetches; without an entry it gives "Please send a YouTube link first." and calls no inference; with one the prompt uses the stored transcript and the message verbatim |
| Bot.StepPreservesWellFormed | bot.py:96-100 | every stored transcript stays a non-empty single line without surrounding whitespace |
| Bot.PromptTextCarriesExcerpt | bot.py:101-184 | the prompt text sent for inference reads back to a prompt whose excerpt is exactly the first min(\|t\|, 2000) characters of the sender's stored transcript |
| Bot.InferenceDecidesLastReply | bot.py:146-200 | a refusal ignores inference; otherwise the notices come first, then the `response` field verbatim, "No summary generated." or "No answer generated." by path when the field is absent, or "Something went wrong." when the call raised |
| Bot.RunWellFormed | bot.py:23-100 | after any message sequence, every stored transcript is still a non-empty single line without surrounding whitespace |
| Bot.StepEntry | bot.py:100 | a step's only write is the sender's entry, set to the cleaned transcript of a successful video request |
| Bot.RunIsLatest | bot.py:23-100 | after any message sequence, a user's entry is the transcript of that user's last successful video request, or the entry held before |
| Bot.SecondVideoAnswers | bot.py:100-184 | after two successful video requests by one user, a question from that user is answered from the second transcript |

## Left out

- Telegram transport is not modelled: polling, handler registration, `reply_text` and async scheduling. These are framework I/O. The replies are modelled as a sequence of strings.
- The `/start` command handler and its greeting are not modelled. They are transport, outside `handle_message`.
- The yt_dlp extraction and the caption HTTP download are not modelled, including the subtitle options and the "Unknown Title" default. They are a foreign library and network I/O. Their result is the abstract `Fetch` outcome.
- The inference HTTP request is not modelled: model name, 120-second timeout, JSON decoding. Its result is the abstract `Inference` outcome. A reply that decodes to a non-object, or whose `response` field is not a string, counts as the failed outcome.
- The SRT fetch path after the unconditional `return` in `get_transcript` is dead code and is not modelled.
- The token lookup in the process environment and the `print` logging of errors are not modelled. They are configuration and I/O.
- Python's Unicode semantics are restricted to ASCII. Lower-casing is ASCII only, `\d` means an ASCII digit, and whitespace is the ASCII characters `str.isspace` accepts.
- Cleanup does not promise that "WEBVTT" or a cue pattern is absent from its output, because a single pass can expose a new occurrence. The model claims no such thing.
- Captions.StripCues: the contract does not say which spans are deleted. That is stated by Captions.CueLength, which gives the longest cue at each scan position.
- Captions.RemoveAll: the contract does not state that occurrences are removed leftmost and non-overlapping. It states only what is kept and when the text changes.
- Captions.CollapseNewlines: the contract does not state that each maximal run of line breaks becomes exactly one space. Captions.CollapseKeepsLine and Captions.CollapseRun state it, run by run.
- Failed `reply_text` calls are not modelled. The handlers at bot.py:150-152 and bot.py:198-200 also catch an exception raised while sending a reply. For example, the platform rejects an empty `response` field, and the user then gets "Something went wrong.". The model sends every reply text as it is, so Bot.InferenceDecidesLastReply states that an empty `response` is sent.
