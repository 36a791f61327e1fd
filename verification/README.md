# KBBI harvester: a Dafny model of its core

The harvester looks up every word of a word list with an external dictionary
command-line tool and stores each usable answer as a JSON file under
`result/<first letter>/<word>.json`. A separate repair script patches JSON
files that the decoder rejects. This project models three parts of it and
proves properties of each:

- **The word-list loader** (`Wordlist`). The file's text is split on `\r?\n`,
  every line is trimmed and blank lines are dropped. The loaded words:
  - are the non-blank trimmed lines in file order;
  - are empty exactly when the file holds only whitespace;
  - load to themselves again when written back one per line;
  - are the same for Windows and Unix line endings.
- **One pass of the driver** (`Progress`, `Harvest`). The driver emits
  `start` with the word count, looks every word up in order, writes each
  payload to the word's result path, and emits a `progress` event drawing a
  40-character bar. It stops at the first answer with `authenticated === false`
  and then emits `done`. The lookup tool is not called: what it answers for the
  i-th word is an input, already classified as `Null`, `AuthFalse` or
  `Payload`. The pass produces the event trace, the sequence of words handed
  to the tool, and a map from path to file content. Proved about the pass:
  - where `start`, `done`, the progress events and the failure event sit;
  - that lookups happen in word-list order, stop after the failing word, and
    never look a word up after it;
  - which files exist and what they hold;
  - that the percentage and the bar never go backwards.
- **The JSON repair** (`JsonFix`). It models `fix_json_file`: four line-based
  rules are applied in order, and the result is written back only if it
  differs from the original and decodes. The decoder is a parameter `valid`.
  Proved about it:
  - each rule changes only what it claims;
  - the placeholder rewrite leaves no placeholder and is idempotent;
  - the text changes exactly when some rule fired;
  - the reported outcome matches what was written.

`Text` holds the string helpers shared by all three:
- trimming;
- `split` and `join` on one character, with their round trips;
- `startswith`, `endswith` and substring search;
- upper-casing;
- `repeat`.

`Wrappers` (in `json_fix.dfy`) holds `Option`.

`src/index.js` runs one pass over the list, which is loaded once. It rewrites
no word-list file and treats every falsy or unparsable answer alike as
`Null`. Provided every directory creation and file write succeeds, it always
emits `done`, even after an authentication failure, and an empty list gives
`start` with 0 followed by `done`.

## Model

| member | source | states |
|---|---|---|
| Text.IsWhitespace | src/utils/wordlistLoader.js:10 | definition: the six ASCII whitespace characters, space, tab, line feed, vertical tab, form feed and carriage return, that trimming removes |
| Text.Trim | src/utils/wordlistLoader.js:10 | the trimmed text has no whitespace at either end and is no longer than the input |
| Text.TrimIsInfix | src/utils/wordlistLoader.js:10 | the trimmed text is the infix left after the leading blanks, and only whitespace surrounds it |
| Text.TrimUnique | src/utils/wordlistLoader.js:10 | any infix with non-blank ends and whitespace-only surroundings is the trimmed text |
| Text.TrimBlank | src/utils/wordlistLoader.js:10-11 | trimming leaves nothing exactly when every character is whitespace |
| Text.TrimFixesTrimmed | src/utils/wordlistLoader.js:10 | trimming an already trimmed text changes nothing |
| Text.TrimIgnoresTrailingBlank | src/utils/wordlistLoader.js:9-10 | a whitespace character appended at the end (such as a left-over `\r`) does not change the trimmed text |
| Text.TrimFirstChar | src/index.js:77 | `word.trim()[0]` exists exactly when the word is not blank, and it is the first non-blank character |
| Text.Split | fix_json_errors.py:39 | a split on one character gives one more piece than there are separators, and no piece holds the separator |
| Text.SplitChars | fix_json_errors.py:39 | the pieces hold only characters of the text and every non-separator character of it |
| Text.Join | fix_json_errors.py:79 | definition of `sep.join(parts)`: the pieces in order with one separator between neighbours; its length is stated by `Text.JoinLength` and its round trips by `Text.JoinSplit` and `Text.SplitJoin` |
| Text.JoinSplit | fix_json_errors.py:103 | joining the split lines with `\n` gives back the original text |
| Text.SplitJoin | fix_json_errors.py:84 | splitting joined pieces that contain no separator gives back the pieces |
| Text.JoinLength | fix_json_errors.py:79 | a joined text holds the pieces' characters plus one separator between neighbours |
| Text.JoinRemoveLength | fix_json_errors.py:60 | deleting one of two or more lines shortens the joined text by that line and one line break |
| Text.JoinReplaceLength | fix_json_errors.py:100 | replacing one line changes the joined text's length by the difference of the two lines' lengths |
| Text.ContainsAt | fix_json_errors.py:43 | the substring test holds exactly when the needle occurs at some position |
| Text.StartsWith | fix_json_errors.py:58 | definition: Python's `s.startswith(p)`, `s` is at least as long as `p` and its first characters are `p` |
| Text.EndsWith | fix_json_errors.py:54 | definition: Python's `s.endswith(p)` (also used by rule 2), `s` is at least as long as `p` and its last characters are `p` |
| Text.Contains | fix_json_errors.py:43 | definition: Python's `needle in hay` (also used by rules 2 and 4), some suffix of `hay` starts with `needle` (positions are stated by `Text.ContainsAt`) |
| Text.Upper | src/index.js:77 | lower-case ASCII letters map to their upper-case letters; every other character is unchanged |
| Text.Repeat | src/index.js:21 | `c.repeat(n)` is n copies of c |
| Wordlist.SplitLines | src/utils/wordlistLoader.js:9 | there is one line more than there are line feeds, and no line holds a line feed |
| Wordlist.DropCR | src/utils/wordlistLoader.js:9 | the optional `\r` before a line feed: the result is a prefix of the piece, and when shorter it is the piece without its final `\r` |
| Wordlist.TrimAll | src/utils/wordlistLoader.js:10 | `map(line => line.trim())`: as many lines as given, each one the trim of the line at the same position |
| Wordlist.NonBlank | src/utils/wordlistLoader.js:11 | the filter keeps no more entries than it is given, and none of them is empty |
| Wordlist.LoadWordlist | src/utils/wordlistLoader.js:6-12 | each loaded word is non-empty, trimmed and free of line feeds, and there are no more words than lines |
| Wordlist.NonBlankIsOrderedSelection | src/utils/wordlistLoader.js:11 | the filter keeps exactly the non-blank entries, at strictly increasing positions, and skips none of them |
| Wordlist.NonBlankMembers | src/utils/wordlistLoader.js:11 | every kept entry comes from the input, and every non-blank input entry is kept |
| Wordlist.WordsAreNonBlankLinesInOrder | src/utils/wordlistLoader.js:8-11 | the loaded words are the non-blank trimmed lines, in file order, none skipped |
| Wordlist.NonBlankEmpty | src/utils/wordlistLoader.js:11 | the filter keeps nothing exactly when every entry is empty |
| Wordlist.EmptyExactlyWhenBlank | src/utils/wordlistLoader.js:8-11 | a file yields no words exactly when all its characters are whitespace |
| Wordlist.NonBlankKeepsAll | src/utils/wordlistLoader.js:11 | when no entry is empty, the filter keeps all of them |
| Wordlist.SplitLinesOfJoined | src/utils/wordlistLoader.js:9 | trimmed lines without line feeds, joined with `\n`, split back into themselves |
| Wordlist.TrimAllTrimmed | src/utils/wordlistLoader.js:10 | trimming lines that are already trimmed changes none of them |
| Wordlist.LoadJoinedWords | src/utils/wordlistLoader.js:8-11 | clean words written one per line load back as exactly those words |
| Wordlist.LoadIdempotent | src/utils/wordlistLoader.js:8-11 | loading the loaded words again, one per line, gives them back |
| Wordlist.ToCRLF | src/utils/wordlistLoader.js:9 | the Windows form of a text is longer by one character per line feed |
| Wordlist.SplitCRLF | src/utils/wordlistLoader.js:9 | splitting the Windows form on `\n` gives the same pieces, each but the last ending in an extra `\r` |
| Wordlist.TrimDropCR | src/utils/wordlistLoader.js:9-10 | dropping a line's final `\r` makes no difference once it is trimmed |
| Wordlist.LoadIgnoresCRLF | src/utils/wordlistLoader.js:9-11 | a text with `\r\n` line endings loads to the same words as the text with `\n` |
| Progress.RoundHalfUp | src/index.js:18 | the result is the integer nearest the quotient, the upper one on a tie |
| Progress.RoundHalfUpMonotone | src/index.js:18-19 | rounding keeps the order of two quotients over the same divisor |
| Progress.Percent | src/index.js:17-18 | the percentage is at most 100, is 100 for the last word, and is the rounded share of words done |
| Progress.FilledBars | src/index.js:19 | the filled part is the rounded share of the 40-character bar: at most 40, 40 at 100 percent, 0 at 0 percent |
| Progress.EmptyBars | src/index.js:20 | the filled and empty parts add up to the bar's length |
| Progress.Bar | src/index.js:21 | the bar is exactly 40 characters, `=` up to the filled length and `-` after it |
| Progress.ProgressNeverShrinks | src/index.js:16-21 | a later progress event never shows a smaller percentage or a shorter filled part |
| Progress.FinalBarIsFull | src/index.js:17-21 | the last word's bar is all `=` |
| Harvest.Letter | src/index.js:77 | definition of `word.trim()[0]`: the first character after the leading whitespace; `Text.TrimFirstChar` shows it is the first character of the trimmed word |
| Harvest.ResultPath | src/index.js:77-82 | the path is `result/`, the upper-cased first letter, `/`, the word and `.json` |
| Harvest.ResultPathNamesWord | src/index.js:77-82 | the word can be read back from its path, so two words share a result file only when they are equal |
| Harvest.HaltIndex | src/index.js:72-75 | the halt position is the first authentication failure, or the end when there is none |
| Harvest.Step | src/index.js:66-89 | definition of one iteration that does not halt: a progress event and a lookup are appended, and a payload writes the word's result file |
| Harvest.Loop | src/index.js:62-93 | definition of the loop from position i on: it stops at the end or after recording an authentication failure, and otherwise steps; stated by `LoopEvents`, `LoopLookups`, `LoopFilePaths`, `LoopLastWriteWins` |
| Harvest.RunPass | src/index.js:58-95 | definition of a pass: `start` with the count, the loop from position 0 with no files, then `done`; stated by `RunEvents`, `RunLookups`, `RunFiles` |
| Harvest.LookedUpCount | src/index.js:62-75 | no more words are looked up than there are |
| Harvest.LoopEvents | src/index.js:62-93 | from any position on, the loop emits the progress events up to the halt, then the failure if there is one |
| Harvest.LoopLookups | src/index.js:62-75 | from any position on, the loop looks up the words up to and including the halting one, in order |
| Harvest.LoopFilePaths | src/index.js:77-87 | from any position on, the loop writes exactly the result paths of payload positions before the halt and keeps every other file |
| Harvest.LoopLastWriteWins | src/index.js:81-87 | from any position on, the last payload for a word is what its result file holds |
| Harvest.NotWrittenLater | src/index.js:81-87 | a word that no later payload repeats has its result path written by no later iteration |
| Harvest.RunEvents | src/index.js:58-95 | a pass emits `start` with the word count, the progress events in word order up to the halt, the failure if any, then `done` |
| Harvest.StartFirstDoneLast | src/index.js:60-95 | `start` is emitted once and first; `done` once and last, also after an authentication failure |
| Harvest.EventsLayout | src/index.js:60-95 | event k+1 is the progress event of word k, up to the halt; the failure follows; the trace has two events more than there were lookups |
| Harvest.EventsByPosition | src/index.js:67-89 | progress events sit only between `start` and the halt, and the failure event only right after them |
| Harvest.ProgressInWordOrder | src/index.js:62-89 | the k-th progress event is for the k-th word, and a failure event appears exactly when a lookup failed authentication, naming that word |
| Harvest.RunLookups | src/index.js:62-75 | the tool is called once per word, in list order, up to and including the first authentication failure, and never after it |
| Harvest.RunFiles | src/index.js:66-87 | a file exists exactly at the result paths of the payload words before the halt, and each holds the last payload for its word |
| Harvest.Harvest | src/index.js:55-96 | the loop as written, with `continue` and `break`, computes the pass's events, lookups and files |
| JsonFix.DeleteLine | fix_json_errors.py:60 | deleting a line keeps the earlier lines and moves each later line up by one |
| JsonFix.ClosingBraceApplies | fix_json_errors.py:43-58 | definition of rule 1's guard: the delimiter message, an error line inside the file after the first that is a lone `}`, a previous line ending in `}`, and a next line starting with `]` |
| JsonFix.FixClosingBrace | fix_json_errors.py:43-61 | when the duplicate-`}` conditions hold, exactly the error line goes and one note is added; otherwise nothing changes |
| JsonFix.OpeningBraceApplies | fix_json_errors.py:64-73 | definition of rule 2's guard: the property-name message, an error line inside the file after the first that is a lone `{`, and a previous line ending in `{` |
| JsonFix.PlaceholderShape | fix_json_errors.py:80 | definition of a match of `\[\.\.\.\s*\]` of length n at the start of a text: `[...`, then only whitespace, then `]` as the n-th character |
| JsonFix.FixOpeningBrace | fix_json_errors.py:64-76 | when the duplicate-`{` conditions hold, exactly the error line goes and one note is added; otherwise nothing changes |
| JsonFix.PlaceholderAt | fix_json_errors.py:80 | a non-zero result is the length of a match of `\[\.\.\.\s*\]` at the start of the text |
| JsonFix.PlaceholderAtFindsMatch | fix_json_errors.py:80-81 | whenever the pattern matches at the start, the matcher finds exactly that match |
| JsonFix.NoPlaceholder | fix_json_errors.py:81 | definition of `search` finding nothing: no position starts a match, step by step; stated position-wise by `NoPlaceholderEverywhere` |
| JsonFix.NoPlaceholderEverywhere | fix_json_errors.py:81 | the text has no placeholder exactly when the pattern matches at no position |
| JsonFix.ReplacePlaceholders | fix_json_errors.py:82 | the rewritten text is never longer; what it is is fixed by `ReplaceFirstMatch` and `ReplacementKeepsClean` |
| JsonFix.ReplacementShrinks | fix_json_errors.py:81-82 | a text with a placeholder gets at least three characters shorter |
| JsonFix.ReplacementKeepsClean | fix_json_errors.py:81-82 | a text without placeholders is left as it is |
| JsonFix.ReplacementKeepsMatchBody | fix_json_errors.py:82 | any dots and whitespace followed by `]` at the start of the rewritten text were there at the start of the input |
| JsonFix.ReplacementLeavesNoPlaceholder | fix_json_errors.py:80-82 | after the rewrite no placeholder is left anywhere |
| JsonFix.ReplacementIdempotent | fix_json_errors.py:82 | rewriting a second time changes nothing |
| JsonFix.CopyStep | fix_json_errors.py:82 | proof step for `ReplaceFirstMatch`: where no match starts, the rewrite keeps the first character and goes on with the rest |
| JsonFix.NoMatchBeforeEverywhere | fix_json_errors.py:80-81 | no match starting in the first i positions, defined step by step, means the pattern matches at none of those positions |
| JsonFix.ReplaceFirstMatch | fix_json_errors.py:80-82 | with the leftmost match at position i of length n, the rewrite is the text before it, `[]`, and the rewrite of the text after the match |
| JsonFix.FixPlaceholders | fix_json_errors.py:79-84 | the lines after rule 3 join to the rewrite of the joined lines before it; if the pattern occurred they are the `\n`-free pieces of that rewrite (at least one), and no placeholder is left; if there was one, the text is at least three characters shorter and one note is added; otherwise nothing changes |
| JsonFix.ScanBackForBrace | fix_json_errors.py:95-97 | the scan stops at the last `}` at or before its start other than position 0, or at 0 |
| JsonFix.LineIndex | fix_json_errors.py:89-91 | as in rules 1 and 2, the index of the error line is inside the file exactly when the file has a line and the line number is at most the line count; a line number from 1 on maps to the index one lower |
| JsonFix.CommaApplies | fix_json_errors.py:88-98 | definition of rule 4's guard: the delimiter message, a column past 50 and inside the error line, and a `}` found by the backward scan at a position after 0 |
| JsonFix.InsertCommaAfter | fix_json_errors.py:100 | the line grows by one `,` placed right after the given position; everything else is kept |
| JsonFix.FixMissingComma | fix_json_errors.py:88-101 | when rule 4 applies, only the error line changes, gaining a comma after the found `}`, and one note is added; otherwise nothing changes |
| JsonFix.Repair | fix_json_errors.py:39-101 | definition of the rule sequence: split on `\n`, then rules 1, 2, 3 and 4 in that order, each on the previous one's lines and notes; stated by `ChangedIffSomeRuleFired`, `RepairNotesAreFixes` |
| JsonFix.RepairedText | fix_json_errors.py:103 | definition of `new_content`: the repaired lines joined with `\n`; stated by `ChangedIffSomeRuleFired` |
| JsonFix.ChangedIffSomeRuleFired | fix_json_errors.py:39-105 | the repaired text differs from the original exactly when some rule added a note |
| JsonFix.RepairNotesAreFixes | fix_json_errors.py:37-101 | the rules only ever report fixes, never an outcome message |
| JsonFix.FixJsonFile | fix_json_errors.py:103-114 | the text is written and success reported exactly when it changed and decodes; a changed text that still fails is reported as such; an unchanged one as having no fix |

## Left out

- Reading the word-list file (`readFile`, `process.cwd()`): the loader starts from the file's text.
- Running the lookup tool (`exec`, `JSON.parse`, the error logging in `runKbbiCli`): its answer for each word is an input, already classified as `Null`, `AuthFalse` or `Payload`.
- JSON serialisation of the payload (`JSON.stringify` and the `isMinify` switch): a payload carries the text that is written.
- `randomDelay` and the other timing: they affect neither the events nor the files.
- Console output: `progress` events are recorded with their word, index and total. The text lines the handlers print are not modelled beyond the bar and the percentage.
- `mkdirSync` and `writeFileSync` (src/index.js:79-87) are assumed never to fail: directories are implied by the paths in the file map. In the source a failing call throws out of the loop, so no later word is looked up and `done` is not emitted.
- Progress.RoundHalfUp: `Math.round` on floating-point quotients is modelled as exact rounding half up on rationals. Floating-point error near ties is not modelled.
- Text.Trim: only the six ASCII whitespace characters (space, tab, `\n`, `\v`, `\f`, `\r`) count as whitespace. JavaScript's `trim` also accepts non-ASCII spaces. Python's `str.strip()` and the `re` class `\s` (fix_json_errors.py:47,53,57,67,72,80) also accept the ASCII separators U+001C to U+001F and non-ASCII spaces.
- Text.Upper: upper-cases ASCII letters only, where `toUpperCase` maps all of Unicode.
- Strings are sequences of Unicode characters, where JavaScript's are sequences of UTF-16 code units. For a word whose first character lies outside the Basic Multilingual Plane, `word.trim()[0]` (src/index.js:77) is half of a surrogate pair, while `Harvest.Letter` and `Harvest.ResultPath` take the whole character, so the bucket directory differs.
- Harvest.ResultPath: requires a non-blank word without `/` whose first letter is not `.`. The loader never yields a blank word; for a blank one the source throws on the missing first letter. For a word with `/`, such as `a/b`, the path `result/A/a/b.json` names a directory `mkdirSync` did not create, so `writeFileSync` throws. For a word starting with `.`, `path.join` normalises the path.
- JsonFix.FixJsonFile: requires a line number of at least 0, since the decoder reports lines from 1 and the caller passes 0 for other errors. A line number of 0 indexes the last line, as Python's `lines[-1]` does.
- JsonFix.FixJsonFile: the line number and message of a decoder error left after repair are reduced to `StillInvalid`.
- Checking JSON validity (`json.loads`) is the parameter `valid` and is not modelled.
- Reading and writing the JSON file: the model takes the content in and returns the text to write back, if any. The file is opened in text mode (fix_json_errors.py:33), so Python's universal newlines turn `\r\n` and a lone `\r` into `\n` before the repair sees the text. The model's input is that translated text and contains no `\r`, and a repaired CRLF file is written back with `\n` line ends.
- `find_json_errors` and `main` of the repair script are not part of this model. They walk a directory and print a report.
