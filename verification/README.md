# Chat message rendering and citation linking

This is a Dafny model of the text pipeline in the browser script of the OpenAI chat page
(`OpenAi_Chat/static/js/scripts.js`). A message goes through `appendMessage` before it
reaches the transcript:

- User text is inserted as it is.
- Assistant text first has every numeric reference `[digits]` removed by
  `removeNumericReferences`. It is then converted from Markdown by showdown. When the
  citation list is non-empty, `linkifyCitations` then turns each literal `[index]` into
  an anchor to the citation's URL.

The chat form's submit handler drops input that is empty after trimming. Otherwise it
shows the trimmed text as a user message, clears the box and sends the text.

Strings are `seq<char>`. A citation is `Citation(index: nat, url: string)`. The Markdown
converter is an arbitrary function `string -> string`, and nothing is assumed about it.

Modules:

- `Text` (`text.dfy`): decimal rendering of an index, literal occurrences, and the
  leftmost non-overlapping global replacement (`ReplaceAll`). That replacement is
  characterised by `Pieces` and `Join`: the text is its pieces joined by the pattern, and
  the result is the same pieces joined by the replacement.
- `References` (`references.dfy`): `removeNumericReferences` as one left-to-right pass of
  `/\[\d+\]/g`.
- `Citations` (`citations.dfy`): `linkifyCitations`. `LinkifyCitations` is the `forEach`
  loop as a method, proved equal to the fold `Linkified`.
- `Chat` (`chat.dfy`): `Render` is the string result of `appendMessage`. `Trim` is
  `String.prototype.trim` restricted to ASCII whitespace. The class `ChatView` holds the
  transcript and the input box, and its methods change them.

What the code does, and the model with it:

- User text is not HTML-escaped (`UserTextVerbatim`).
- Markers are stripped before linking. A cited marker in the assistant's own text
  therefore never becomes a link (`CitedMarkerDropped`, `CitedSentenceExample`).
- A later citation with the same index nests its anchor inside the earlier one, whose
  URL stays outermost (`SharedIndexNests`).
- There is no fallback when the converter or highlighter is missing.

## Model

| member | source | states |
|---|---|---|
| References.RemoveNumericReferences | OpenAi_Chat/static/js/scripts.js:33-36 | the stripped text is never longer than the input |
| References.MatchLength | OpenAi_Chat/static/js/scripts.js:35 | a regex match starts at the head exactly when the result is positive; the marker prefix is unique and has exactly that length (greedy `\d+`) |
| References.StrippedIsSubsequence | OpenAi_Chat/static/js/scripts.js:33-36 | the result is the input with characters deleted, order kept |
| References.StripKeepsPlainText | OpenAi_Chat/static/js/scripts.js:33-36 | every character other than `[`, `]` or a digit survives, in order |
| References.MarkerShortens | OpenAi_Chat/static/js/scripts.js:35 | a marker anywhere in the text makes the result strictly shorter |
| References.StripUnchangedIff | OpenAi_Chat/static/js/scripts.js:35 | the text comes back unchanged if and only if it contains no `[digits]` marker |
| References.NoBracketUnchanged | OpenAi_Chat/static/js/scripts.js:35 | text with no `[` is returned unchanged |
| References.StripFreePrefix | OpenAi_Chat/static/js/scripts.js:35 | a prefix without `[` is copied and the scan continues after it |
| References.StripLeadingMarker | OpenAi_Chat/static/js/scripts.js:35 | a marker at the head is dropped and the scan resumes right after it |
| References.StripUnmatchedHead | OpenAi_Chat/static/js/scripts.js:35 | where no marker starts at the head, the head character is kept (a `[`, `]` or digit included) and the scan moves on by one |
| References.StripKeepsOpenBracket | OpenAi_Chat/static/js/scripts.js:35 | `[x[1]` strips to `[x`: a `[` that opens no marker survives |
| References.StripUncoversMarker | OpenAi_Chat/static/js/scripts.js:35 | `[1[2]]` strips to `[1]`: removing an inner marker leaves a new one |
| References.StripIsSinglePass | OpenAi_Chat/static/js/scripts.js:35 | `[[1]1]` strips to the marker `[1]`, which a second pass removes: stripping is not idempotent |
| Text.Decimal | OpenAi_Chat/static/js/scripts.js:45-46 | an index is written as digits with no leading zero |
| Text.DecimalValue | OpenAi_Chat/static/js/scripts.js:45-46 | the digits written for an index, read back in base 10, give that index |
| Text.DecimalInjective | OpenAi_Chat/static/js/scripts.js:45 | different indices give different patterns |
| Text.ReplaceAllIsSplitJoin | OpenAi_Chat/static/js/scripts.js:47 | global replace: input = pieces joined by the pattern, output = same pieces joined by the replacement, no piece contains the pattern |
| Text.ReplaceAllAbsent | OpenAi_Chat/static/js/scripts.js:47 | text without the pattern is unchanged |
| Text.ReplaceAllFreePrefix | OpenAi_Chat/static/js/scripts.js:47 | a prefix lacking the pattern's first character is copied through |
| Text.ReplaceAllAtHead | OpenAi_Chat/static/js/scripts.js:47 | an occurrence at the head is replaced and the rest scanned afterwards |
| Citations.LinkifyCitations | OpenAi_Chat/static/js/scripts.js:43-50 | the loop's result is the citations applied one after another in list order |
| Citations.LinkifyOneReplacesEveryMarker | OpenAi_Chat/static/js/scripts.js:45-47 | for one citation every `[k]` becomes the exact anchor and every other character is kept |
| Citations.OwnMarkerLinked | OpenAi_Chat/static/js/scripts.js:45-47 | a bare `[k]` becomes exactly the anchor `<a href="URL" target="_blank">[k]</a>` |
| Citations.BracketedDigitsMatch | OpenAi_Chat/static/js/scripts.js:45 | `[digits]` contains `[k]` if and only if the digits are the decimal form of `k` |
| Citations.OtherMarkerUntouched | OpenAi_Chat/static/js/scripts.js:45-47 | a citation leaves the marker of any other index unchanged |
| Citations.NoPartialMatch | OpenAi_Chat/static/js/scripts.js:45-47 | with index 1, `[10]` and `[01]` stay as they are |
| Citations.OtherMarkerAbsent | OpenAi_Chat/static/js/scripts.js:45 | a marker followed by bracket-free text never contains another index's marker |
| Citations.NoBracketUntouched | OpenAi_Chat/static/js/scripts.js:43-50 | text with no `[` is unchanged by any citation list |
| Citations.LinkifiedConcat | OpenAi_Chat/static/js/scripts.js:44-48 | applying two lists in a row equals applying their concatenation |
| Citations.LinkifiedHeadFirst | OpenAi_Chat/static/js/scripts.js:44-48 | the first citation acts on the original text, the rest on its result |
| Citations.LinkifiedPair | OpenAi_Chat/static/js/scripts.js:44-48 | the second of two citations works on the first one's output |
| Citations.SharedIndexNests | OpenAi_Chat/static/js/scripts.js:44-48 | two citations with one index nest their anchors, first URL outermost; the result is not the second anchor alone |
| Citations.LaterCitationRewritesUrl | OpenAi_Chat/static/js/scripts.js:44-48 | a later citation rewrites its marker inside an earlier citation's URL |
| Citations.RewriteMarkerInUrl | OpenAi_Chat/static/js/scripts.js:46-47 | the exact text produced when a marker sits inside the href of an anchor |
| Chat.UserTextVerbatim | OpenAi_Chat/static/js/scripts.js:13-23 | user text is inserted unchanged, with no escaping |
| Chat.AssistantPipeline | OpenAi_Chat/static/js/scripts.js:13-22 | assistant text is always linkify(convert(strip(text))): the non-empty guard makes no difference |
| Chat.CitationsUnusedWithoutBrackets | OpenAi_Chat/static/js/scripts.js:13-22 | if the converter's output has no `[`, the citations change nothing |
| Chat.PlainAssistantText | OpenAi_Chat/static/js/scripts.js:13-22 | assistant text without `[` whose conversion adds none renders as the converter's output |
| Chat.CitedMarkerDropped | OpenAi_Chat/static/js/scripts.js:13-22 | with an identity converter, a marker between bracket-free text is deleted, never linked |
| Chat.CitedSentenceExample | OpenAi_Chat/static/js/scripts.js:13-22 | `The sky is blue [1].` with a citation for 1 renders as `The sky is blue .` |
| Chat.UncoveredMarkerLinked | OpenAi_Chat/static/js/scripts.js:13-22 | `[[1]1]` with a citation for 1 renders as that citation's anchor |
| Chat.Trim | OpenAi_Chat/static/js/scripts.js:54 | the result is the part of the input between leading and trailing whitespace; it is empty if and only if the input is all whitespace |
| Chat.TrimStart | OpenAi_Chat/static/js/scripts.js:54 | the result is a suffix, and only whitespace was dropped |
| Chat.TrimEnd | OpenAi_Chat/static/js/scripts.js:54 | the result is a prefix, and only whitespace was dropped |
| Chat.ChatView.AppendMessage | OpenAi_Chat/static/js/scripts.js:9-25 | the rendered message is appended to the transcript; the input box is untouched |
| Chat.ChatView.SubmitChat | OpenAi_Chat/static/js/scripts.js:52-58 | input that is empty after trimming sends and shows nothing; otherwise the trimmed text is shown, the box cleared, and the text sent |

## Left out

- DOM work: creating the message element, its class name, scrolling, and highlighting
  `pre code` blocks with hljs (scripts.js:10-11, 24-30). These are browser side effects.
  The transcript is modelled as a sequence of `innerHTML` strings.
- Markdown conversion by showdown (scripts.js:38-41) is a foreign library. It is a
  function parameter, and no claim is made about its output.
- JavaScript replacement patterns: the anchor is a `replace` replacement string, so `$&`,
  `$$` or `$1` in a URL would be expanded. Citation URLs are required to contain no `$`.
- Citation indices that are negative or not integers would be interpolated into the
  regex as they are, and an index of 1e21 or more is printed in exponent form (`1e+21`).
  Indices are `nat` and are always written in plain decimal without leading zeros.
- Values of the wrong type are not modelled: the message is a `string` and the citations
  a `seq<Citation>`. In the code, a `null` `data.citations` (scripts.js:73) bypasses the
  `= []` default, so `citations.length` (scripts.js:19) throws a TypeError after stripping
  and conversion; a missing `data.content` makes `text.replace` (scripts.js:35) throw.
- `Trim` removes only ASCII space, tab, line feed, carriage return, vertical tab and form
  feed. The Unicode whitespace of `String.prototype.trim` is not modelled.
- `SubmitChat` stops at the request, which it returns. Awaiting the response and
  appending the reply or the error text (scripts.js:60-77) is asynchronous network I/O.
- The configuration form, `toggleConfig`, `clearHistory` and `saveConversation`
  (scripts.js:80-142) are network and UI plumbing.
- The Flask server `OpenAi_Chat/app.py` is not part of this model.
