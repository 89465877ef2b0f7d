# CV assistant bot: the text-processing core

A Telegram bot answers questions about one CV. It sends the whole CV text and the
question to a hosted language model, cleans up the reply, and sends it back. This
project models the bot's pure string handling and proves properties of it:

- **the prompt envelope** that `ask_cv` builds (`AnswerGenerator.UserPrompt`,
  `AnswerGenerator.BuildRequest`). It holds the CV text and then the stripped question,
  both verbatim, and `AnswerGenerator.SplitPrompt` reads them back out;
- **reply post-processing** in `ask_cv` (`AnswerGenerator.CleanAnswer`,
  `AnswerGenerator.FinishAnswer`). A missing reply becomes `""`. Then `"<s>"` and
  `"</s>"` are removed, whitespace is stripped, and an empty result is replaced by the
  fallback text;
- **`normalize_telegram_text`** (`Sanitizer.Normalize`). It runs
  `re.sub(r"\*\*(.*?)\*\*", r"\1", ·)` (`Sanitizer.UnwrapBold`, with the lazy group's
  search in `Sanitizer.FindClose`), then `re.sub(r"__+", "", ·)`
  (`Sanitizer.DropUnderscoreRuns`), then `.strip()`;
- **`handle_message`** (`Dispatcher.HandleMessage`): strip the text, ask, normalize.

Python's `str.strip()` and `str.replace(sub, "")` are in `PyStrings`. `IsSpace` is
exactly the set of characters for which Python's `str.isspace()` holds. `Subsequences`
defines "obtained by deleting characters" (`IsSubsequence`) and "these characters
survive, in order" (`Filter`).

The remote completion call is the parameter `complete: Request -> Option<string>`. Its
argument is the request `ask_cv` builds: model id, system prompt, user prompt,
temperature 0.3 and at most 600 tokens. `None` stands for a reply whose content is
`None`. The CV text is also a parameter, because the bot reads it from a file at startup.

Two properties one might expect are false for this code, and the model proves them false:
- `normalize_telegram_text` is not idempotent (`Sanitizer.NormalizeNotIdempotent`).
- A reply can still contain `"<s>"` after marker removal (`AnswerGenerator.MarkerSurvives`).

## Model

| member | source | states |
|---|---|---|
| `PyStrings.IsSpaceTable` | bot.py:107 | `IsSpace`, the set of characters `strip()` removes, is exactly the 29 characters for which Python's `str.isspace()` holds, listed one by one |
| `PyStrings.Strip` | bot.py:123 | the result has no leading or trailing whitespace, and it is a slice of the input whose cut-off prefix and suffix are all whitespace |
| `PyStrings.StripUnique` | bot.py:123 | any trimmed slice with all-whitespace edges cut off is what `strip()` returns: the two properties above determine it |
| `PyStrings.StripEmptyIff` | bot.py:123 | `strip()` returns `""` exactly when the input is all whitespace |
| `PyStrings.StripTrimmed` | bot.py:123 | text with no surrounding whitespace is returned unchanged |
| `PyStrings.StripIgnoresPadding` | bot.py:107 | adding whitespace before or after the input does not change the result |
| `PyStrings.StripKeeps` | bot.py:123 | every non-whitespace character survives, in order |
| `PyStrings.StripIsSubsequence` | bot.py:123 | `strip()` only deletes characters |
| `PyStrings.RemoveAll` | bot.py:92 | `replace(sub, "")` as one left-to-right pass over non-overlapping occurrences; the result is never longer |
| `PyStrings.RemoveAllIsSubsequence` | bot.py:92 | `replace(sub, "")` only deletes characters |
| `PyStrings.RemoveAllAbsent` | bot.py:92 | where `sub` does not occur, `replace(sub, "")` changes nothing |
| `PyStrings.RemoveAllAtFirst` | bot.py:92 | the scan deletes the first occurrence of `sub` and carries on after it: when `sub` first occurs right after `x`, the result is `x` followed by the pass over the rest, with one more copy counted; with `RemoveAllAbsent` this fixes the result on every input |
| `PyStrings.RemoveAllLength` | bot.py:92 | `replace(sub, "")` deletes whole copies of `sub`: the input is as long as the result plus `RemovedCopies` times `len(sub)` |
| `PyStrings.RemoveAllShortens` | bot.py:92 | an occurrence of `sub` anywhere in the input means at least one copy is deleted and the result is shorter |
| `PyStrings.RemoveAllUnchangedIff` | bot.py:92 | `replace(sub, "")` returns its input exactly when `sub` does not occur in it |
| `Sanitizer.FindClose` | bot.py:118 | a closer found by the lazy `(.*?)\*\*` search lies inside the text, at or after where the group starts |
| `Sanitizer.FindCloseSpec` | bot.py:118 | the lazy search is the shortest match: `Some(k)` is the first `"**"` at or after the start with no newline before it; `None` means every `"**"` that could follow is behind a newline or missing |
| `Sanitizer.UnwrapBold` | bot.py:118 | the bold pass never lengthens the text and deletes a multiple of four characters (four asterisks per match) |
| `Sanitizer.UnwrapBoldIsSubsequence` | bot.py:118 | the bold pass only deletes characters |
| `Sanitizer.UnwrapBoldKeeps` | bot.py:118 | the bold pass deletes only asterisks: every other character survives, in order |
| `Sanitizer.UnwrapBoldNoPairs` | bot.py:118 | text with no `"**"` is unchanged |
| `Sanitizer.UnwrapBoldPlainPrefix` | bot.py:118 | asterisk-free text is copied through, and the scan goes on after it |
| `Sanitizer.UnwrapBoldMatch` | bot.py:118 | `"**" x "**" y` becomes `x` followed by the pass over `y`, when `x` is newline-free and the shortest group, that is, it has no `"**"` and does not end in `*` |
| `Sanitizer.UnwrapBoldUnreachableCloser` | bot.py:118 | an opener whose group cannot reach any closer without crossing a newline is copied as one character, and the scan resumes at the next position |
| `Sanitizer.UnwrapBoldAcrossNewline` | bot.py:118 | for asterisk-free `x` containing a newline, `"**" x` is kept as it is and the scan goes on after it |
| `Sanitizer.UnwrapBoldWhole` | bot.py:118 | `"**" x "**"` becomes `x` for plain `x` |
| `Sanitizer.UnwrapBoldNewlineExample` | bot.py:118 | `"**a\nb**"` is unchanged by the bold pass |
| `Sanitizer.UnderscoreRun` | bot.py:121 | the length of the underscore run at the front: what the greedy `__+` consumes |
| `Sanitizer.DropUnderscoreRuns` | bot.py:121 | the result never has two adjacent underscores, is never longer, and keeps a leading non-underscore character in front |
| `Sanitizer.DropUnderscoreRunsIsSubsequence` | bot.py:121 | the underscore pass only deletes characters |
| `Sanitizer.DropUnderscoreRunsKeeps` | bot.py:121 | the underscore pass deletes only underscores: every other character survives, in order |
| `Sanitizer.DropUnderscoreRunsClean` | bot.py:121 | text without `"__"` is unchanged, so every lone underscore is kept |
| `Sanitizer.UnderscoreRunConcat` | bot.py:121 | the leading run of `a + b` reaches into `b` only when `a` is all underscores |
| `Sanitizer.DropUnderscoreRunsSplit` | bot.py:121 | runs are matched independently: cut where the two neighbours are not both underscores, and each part is processed on its own |
| `Sanitizer.UnderscoresDropped` | bot.py:121 | a run of two or more underscores is deleted entirely, and a single underscore is kept |
| `Sanitizer.DropUnderscoresExample` | bot.py:121 | the underscore pass turns `"a__b___c"` into `"abc"` |
| `Sanitizer.Normalize` | bot.py:116-123 | the result has no surrounding whitespace and no `"__"`, and it is never longer than the input |
| `Sanitizer.NormalizeIsSubsequence` | bot.py:116-123 | normalizing only deletes characters: the output is a subsequence of the input |
| `Sanitizer.NormalizeKeeps` | bot.py:116-123 | every character other than `*`, `_` and whitespace survives, in order |
| `Sanitizer.NormalizeClean` | bot.py:116-123 | input with no `"**"`, no `"__"` and no surrounding whitespace is returned unchanged |
| `Sanitizer.NormalizePlainBold` | bot.py:116-123 | `"**" x "**"` normalizes to `x` when `x` is trimmed and has no newline, asterisk or underscore |
| `Sanitizer.NormalizeBold` | bot.py:116-123 | `"**bold**"` normalizes to `"bold"` |
| `Sanitizer.NormalizeUnderscores` | bot.py:116-123 | `"a__b___c"` normalizes to `"abc"` |
| `Sanitizer.NormalizeJoinsStars` | bot.py:116-123 | deleting `"__"` in `"*__*a**"` brings two asterisks together, giving `"**a**"` |
| `Sanitizer.NormalizeNotIdempotent` | bot.py:116-123 | `"*__*a**"` normalizes to `"**a**"`, which normalizes to `"a"` |
| `AnswerGenerator.UserPrompt` | bot.py:68-79 | the f-string is the fixed head, the CV text, the question header, the question and the tail, with lengths adding up; `PromptRoundTrip` and `SplitPromptSound` prove both parts read back in full |
| `AnswerGenerator.PromptRoundTrip` | bot.py:68-79 | the CV text and the question can be read back out of the prompt in full |
| `AnswerGenerator.SplitPromptSound` | bot.py:68-79 | whatever is read out of a prompt rebuilds exactly that prompt |
| `AnswerGenerator.PromptEmbedsVerbatim` | bot.py:68-79 | the CV text and then the question occur in the prompt at fixed offsets, and the prompt's length is the sum of its parts, so nothing is truncated |
| `AnswerGenerator.BuildRequest` | bot.py:81-89 | the `chat.completions.create` arguments: two messages, a system message and then a user message holding the prompt; `RequestCarriesQuestion` adds the fixed model, temperature and token limit |
| `AnswerGenerator.RequestCarriesQuestion` | bot.py:81-89 | the request names model `mistralai/devstral-2512:free`, temperature 0.3 and at most 600 tokens, and has exactly two messages: the system prompt, then a user message from which the CV text and the question read back in full |
| `AnswerGenerator.CleanAnswer` | bot.py:91-92 | the cleaned reply has no surrounding whitespace |
| `AnswerGenerator.CleanAnswerLength` | bot.py:92 | marker removal deletes whole markers: the raw reply is as long as the text after both removals plus 3 characters per `"<s>"` and 4 per `"</s>"` removed, and `strip()` only shortens it further |
| `AnswerGenerator.CleanAnswerDeletesMarker` | bot.py:92 | a `"<s>"` in the reply, or a `"</s>"` present after the first pass (in particular in a reply without `"<s>"`), is deleted, so the cleaned reply is shorter |
| `AnswerGenerator.FinishAnswer` | bot.py:91-94 | the answer is never empty and has no surrounding whitespace |
| `AnswerGenerator.AskCv` | bot.py:67-94 | `ask_cv` never returns `""`, whatever the model replies |
| `AnswerGenerator.FinishAnswerFallbackIff` | bot.py:94 | the fallback is returned exactly when the cleaned reply is empty or is itself the fallback text; otherwise the answer is the cleaned reply |
| `AnswerGenerator.FinishAnswerBlank` | bot.py:91-94 | a missing, empty or whitespace-only reply gives the fallback |
| `AnswerGenerator.FinishAnswerPassThrough` | bot.py:91-94 | a non-empty reply with no markers and no surrounding whitespace is returned verbatim |
| `AnswerGenerator.FinishAnswerFromContent` | bot.py:91-94 | the answer is the fallback, or it is obtained from the model's reply by deleting characters |
| `AnswerGenerator.MarkerSurvives` | bot.py:92 | `"<<s>s>"` is cleaned to `"<s>"`: one pass of marker removal can leave a marker |
| `Dispatcher.HandleMessage` | bot.py:106-109 | the reply has no surrounding whitespace and no `"__"` |
| `Dispatcher.HandleMessageAsksStrippedQuestion` | bot.py:107-108 | the request carries the message text with its surrounding whitespace stripped, and otherwise unchanged |
| `Dispatcher.HandleMessageIgnoresPadding` | bot.py:107 | whitespace around a message does not change the reply |
| `Dispatcher.HandleMessageAsksOnce` | bot.py:108 | the reply depends on the model only through its answer to the one request built from the message |
| `Dispatcher.FallbackIsClean` | bot.py:94 | the fallback text passes `normalize_telegram_text` unchanged |
| `Dispatcher.HandleMessageCanBeEmpty` | bot.py:108-109 | if the model replies `"____"`, the text sent back is `""` |
| `Dispatcher.HandleMessageChecked` | bot.py:106-114 | with the emptiness check moved after normalization, the reply is never empty, is trimmed and has no `"__"`, and equals the as-written reply whenever that one is non-empty |

## Findings

| source | as written | input that shows it | evidently intended | confidence | as-written member | corrected member |
|---|---|---|---|---|---|---|
| bot.py:108-109 | `ask_cv` replaces an empty answer with the fallback, but `normalize_telegram_text` runs afterwards and can delete the whole answer, so `reply_text` gets `""` (Telegram refuses an empty message) | model reply `"____"` (likewise `"****"`) | the user always gets a non-empty reply, the fallback when nothing usable is left | medium, not executed | `Dispatcher.HandleMessage` (shown by `Dispatcher.HandleMessageCanBeEmpty`) | `Dispatcher.HandleMessageChecked` |

## Left out

- The OpenRouter client and the `chat.completions.create` call (bot.py:34-37, 81-89). The reply is the parameter `complete`. An exception from the call, or an empty `choices` list, is not modelled. The source does not catch either.
- The Telegram side (bot.py:99-104, 111-114, 129-139): the `start` greeting, `reply_text` and its options, handler registration and polling. These are framework I/O on an event loop. `handle_message`'s reply is the value `Dispatcher.HandleMessage` returns.
- Loading the environment, the missing-secret `RuntimeError` and reading `cv_full_complete.md` (bot.py:17-29). These are process I/O, so the CV text is a parameter.
- `update.message.text` is taken to be a string. The handler's `filters.TEXT` guarantees that.
- Only the two regular expressions the bot uses are modelled, each as its own scan. The general regex engine is not modelled.
- Strings are sequences of Unicode scalar values. Python strings with lone surrogates are not represented.
- `Dispatcher.HandleMessageChecked` is a corrected variant. The as-written behaviour is `Dispatcher.HandleMessage`.
