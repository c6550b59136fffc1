# TerminalAI: the command-safety core of `ai.py`, in Dafny

`ai.py` turns a request in plain words into a shell command. It asks a chat model for the
command, judges whether the command looks safe, and either runs it or asks the user first.
When the user declines, it offers a list of alternative commands. This project models the
deterministic part of that pipeline and proves what it promises:

- **Safety classifier** (`analyze_command_safety`), in module `Safety`.
  - Safe and dangerous regex pattern lists are loaded from `safe_patterns.txt` and
    `dangerous_patterns.txt`, or from the built-in defaults when a file is missing.
  - The default file written back in that case is modelled too.
  - The verdict order is: safe patterns first, then dangerous patterns, then three substring
    heuristics, then "safe" by default.
- **Confirmation gate** of the main script, in module `Gate`.
  - The safety mode is read from the `openai_safety_mode` file and clamped to 0 or 1.
  - Confirmation is needed unless the mode is 1 and the command is safe.
  - A "n" answer leads to the alternatives, and a typed index picks one of them.
  - The optional context (`-c` / `-C`) is chosen and then truncated to 3000 characters.
- **`cache` decorator**, in module `ResultCache`. It is an insertion-ordered map of at most
  `maxsize` results. A hit moves nothing, and a miss on a full cache evicts the oldest entry,
  so the cache is FIFO.
- **Chat history**, in module `History`.
  - `chat` drops messages from the front while the history holds more than 2000 words.
  - It adds a system message when none is left.
  - `save_history` keeps the last 50 messages.
- **Reply post-processing**, in module `Responses`.
  - `get_cmd` removes the markdown fences and strips whitespace.
  - `get_cmd_list` cleans, filters and de-duplicates the candidates, with `echo` fallbacks.
- **`square_text`**, in module `Layout`. It boxes a text into rows of the terminal width.

Two support modules give Python's meaning to the primitives the core uses:
- `Text`: `str.strip`, `str.lower`, `in`, `startswith`, `replace`, `split(sep)` and `split()`;
- `PyInt`: `int(str)` with sign and underscores, and `str.isdigit`.

Several things are parameters of the model:
- `re.search(p, cmd, re.IGNORECASE)` is a function `matches: (string, string) -> bool`.
- A file's content is an `Option<string>`, `None` when the file does not exist.
- A model reply is an `Option<string>`.
- The terminal width is `columns`.
- The output of each context gatherer is a string.

The cache is a `class` whose `Call` method updates the map in place. The trimming loop of
`chat`, the nested loops of `square_text` and the early-return scans of
`analyze_command_safety` are methods with loops. Each of them is proved equal to a function
that states the result, or to a predicate that characterises it.

## Model

| member | source | states |
|---|---|---|
| Text.Strip | ai.py:787 | `str.strip()`: the result neither starts nor ends with whitespace (Python's `isspace` set) and is no longer than the input |
| Text.StripIsTrimmedSlice | ai.py:787 | stripping removes only whitespace and only at the two ends: the result is the slice of the input between its leading and trailing whitespace |
| Text.StripIdempotent | ai.py:866 | stripping twice, as `get_needed_context` does, gives what stripping once gives |
| Text.StripEmptyIffAllSpace | ai.py:159 | a line strips to the empty string exactly when every character of it is whitespace |
| Text.Lower | ai.py:387 | `str.lower()` keeps the length and lowers each character on its own |
| Text.LowerKeepsSymbol | ai.py:387 | a character that is not an ASCII letter, such as the pipe or the redirect sign, occurs in the lowered command exactly when it occurs in the command |
| Text.ReplaceAllNoMatch | ai.py:784 | `replace` changes nothing when the pattern does not occur in the text |
| Text.ReplaceAllShrinks | ai.py:784 | `replace(pat, "")` never lengthens the text |
| Text.Split | ai.py:922 | `split(sep)` yields at least one piece, and no piece holds the separator |
| Text.JoinSplit | ai.py:922 | joining the pieces of `split(sep)` with `sep` gives the text back |
| Text.SplitJoin | ai.py:922 | splitting a join of separator-free pieces gives the pieces back |
| Text.SplitWords | ai.py:702 | `str.split()` yields non-empty words with no whitespace in them |
| Text.SplitWordsOfWord | ai.py:702 | a non-empty text without whitespace is one word |
| Text.SplitWordsOfSpace | ai.py:702 | a text of whitespace only has no word |
| Text.SplitWordsAtSpace | ai.py:702 | a whitespace character separates words: the words of `a + c + b` are those of `a` followed by those of `b`; with the two rows above this fixes the words of every text |
| PyInt.ParseInt | ai.py:137 | `int()` (also at ai.py:866) succeeds exactly when the stripped text is a digit group, with single underscores between digits, after at most one sign; a negative result comes from a leading '-' |
| PyInt.ParseIntRoundTrip | ai.py:137 | `int(str(n)) == n` for every integer, negative ones included |
| PyInt.ParseIntOfStripped | ai.py:137 | `int()` ignores surrounding whitespace, so stripping first changes nothing |
| PyInt.DecimalRoundTrip | ai.py:1093 | the decimal numeral of an index reads back as that index |
| Safety.FileLines | ai.py:158 | iterating over a file yields non-empty lines that put back together give the whole text |
| Safety.FileLinesShape | ai.py:158 | every line but the last ends with its newline, and no line holds a newline before its end |
| Safety.FileLinesCons | ai.py:158-159 | iterating over a file yields a newline-terminated line with its newline, then the rest of the file |
| Safety.KeepPatternLine | ai.py:159 | a line is kept exactly when it is not all whitespace and its raw text does not start with '#' |
| Safety.PatternLines | ai.py:159 | the comprehension yields at most one pattern per line, each non-empty and already stripped |
| Safety.PatternLinesAppend | ai.py:287 | the filter works line by line: two blocks of lines give the patterns of the first block, then those of the second |
| Safety.PatternLinesMembership | ai.py:287 | a pattern is loaded exactly when some line passes the filter (non-empty once stripped, raw line not starting with '#') and strips to it |
| Safety.IndentedCommentIsPattern | ai.py:159 | only the raw line is tested for '#': "  # x" is loaded as the pattern "# x", while "# y" is skipped |
| Safety.NoKeptLines | ai.py:159 | lines that all fail the filter give no pattern |
| Safety.LoadPatterns | ai.py:157-160 | a missing file gives the defaults; an existing one gives at most one pattern per line, each non-empty and stripped (the safe list, ai.py:285-288, is loaded the same way) |
| Safety.HeaderKeepsNothing | ai.py:368-369 | the two comment lines and the blank line written at the top of a default pattern file yield no pattern |
| Safety.HeaderIsSkipped | ai.py:276-277 | reading a default file gives the same patterns as reading its body alone |
| Safety.BodyReadsBack | ai.py:370-371 | patterns written one per line read back as the same list, in order |
| Safety.DefaultPatternFileRoundTrip | ai.py:273-282 | the default file (`Safety.DefaultPatternFile`, ai.py:273-279) written when `dangerous_patterns.txt` or `safe_patterns.txt` is missing loads back as exactly the list written, for patterns that are well-formed |
| Safety.FirstMatch | ai.py:382-384 | the first index, in list order, whose pattern matches; None exactly when no pattern matches |
| Safety.Classify | ai.py:376-399 | the verdict is safe exactly when its reason is a safe-pattern match or the default; a dangerous reason names a pattern of the dangerous list that matches the command |
| Safety.Message | ai.py:379-399 | the text shown for a dangerous verdict ends with the pattern that matched (ai.py:384) |
| Safety.ScanCommand | ai.py:376-399 | the two early-return loops and the heuristics compute the classifier's verdict |
| Safety.AnalyzeCommandSafety | ai.py:145-399 | the verdict is the classification of the command against the loaded lists, or against the defaults for a missing file |
| Safety.SafePrecedence | ai.py:376-384 | a command matching any safe pattern is safe, even when a dangerous pattern also matches |
| Safety.DangerousNamesFirstMatch | ai.py:381-384 | with no safe match, a dangerous match makes the command unsafe, and the reason names the first matching dangerous pattern |
| Safety.UnmatchedFallsToHeuristics | ai.py:386-399 | with no pattern match, the command is unsafe exactly when the pipe, redirect or download heuristic fires |
| Safety.SafeVerdictIff | ai.py:376-399 | safe exactly when a safe pattern matches, or no dangerous pattern matches and no heuristic fires |
| Safety.PipeHeuristicShortlist | ai.py:387 | because "sh" occurs in "bash" and "powershell", the pipe heuristic fires exactly when the lowered command contains "sh", "cmd", "iex" or "invoke-expression" |
| Safety.HeuristicsIgnoreCase | ai.py:386-395 | the pipe (ai.py:387), redirect (ai.py:391) and download (ai.py:395) heuristics fire on a command exactly when they fire on its lower-cased form |
| Safety.EmptyPatternFilesAcceptRmRf | ai.py:157-159 | an existing empty pattern file loads no pattern, and with both lists empty "rm -rf /" is judged safe |
| Gate.SafetyMode | ai.py:131-142 | the mode is always 0 or 1, and it is 1 exactly when the file exists and parses as the integer 1 |
| Gate.SafetyModeOfInteger | ai.py:137-138 | whatever integer the file holds, only 1 gives mode 1 |
| Gate.NeedsConfirmation | ai.py:1063-1066 | an unsafe verdict always needs confirmation, and so does any mode other than 1 |
| Gate.AutoRunIff | ai.py:1054-1066 | a command runs unasked exactly when the mode file holds 1 and the classifier's safe condition holds |
| Gate.ChooseAlternative | ai.py:1093-1097 | a choice is accepted exactly when it is all digits and its value is below the number of alternatives; the index returned is that value |
| Gate.ChooseShownIndex | ai.py:1093-1094 | typing the number shown beside an alternative selects it, when it is in range |
| Gate.Decide | ai.py:1063-1097 | auto-run exactly when no confirmation is needed; run as typed exactly when asked and the answer is not "n" in lower case; otherwise a valid choice runs exactly the alternative it selects, and an invalid one runs nothing |
| Gate.DeclineOnlyOnN | ai.py:1070 | only "n" and "N" decline; "no" or an empty answer run the command |
| Gate.NeededContext | ai.py:864-872 | the reply's integer when `int()` accepts it, else -1 |
| Gate.NeededContextOfInteger | ai.py:864-870 | a reply holding an integer in Python notation is read back exactly |
| Gate.ContextIndexAsWritten | ai.py:1023-1030 | the context index the main script uses: none unless `-c` or `-C`, then `-C` or the model's reply, kept only when not negative |
| Gate.ReplyIndexAsWritten | ai.py:1026-1030 | with `-c` alone, a reply holding the integer k selects index k whenever k is not negative, however large, and no context otherwise |
| Gate.ReplyBeyondContexts | ai.py:1028-1030 | the reply "9" selects index 9 of the 7-entry CONTEXT table |
| Gate.ContextIndex | ai.py:1023-1030 | the corrected index is always within the table, `-C` is used as given, and without `-c`/`-C` there is no context |
| Gate.ReplyIndex | ai.py:1026-1030 | with `-c` alone, the corrected index is the reply's integer k exactly when 0 <= k < 7, and no context otherwise |
| Gate.ContextIndexAgrees | ai.py:1023-1030 | the corrected index differs from the written one only on replies beyond the table |
| Gate.TruncateContext | ai.py:1031-1032 | the context keeps its first min(length, 3000) characters |
| Gate.ContextPrompt | ai.py:1023-1032 | the context text is empty without an index, else the truncated output of the chosen gatherer; never longer than 3000. It uses the corrected index, so a reply of 7 or more gives no context where the source raises IndexError (see Findings) |
| Responses.CleanReply | ai.py:784-787 | the cleaned reply is stripped and no longer than the raw reply |
| Responses.GetCmd | ai.py:775-788 | an absent or empty reply gives the "No command generated" echo; any other gives a stripped text no longer than the reply. The result is not always free of fences: removing one "```bash\n" can join the pieces of another, so "```ba```bash\nsh\nls" gives "```bash\nls" |
| Responses.FencedReply | ai.py:783-788 | a reply wrapped in a "```bash" fence yields the stripped command inside |
| Responses.UnfencedReply | ai.py:783-788 | a reply without backticks is only stripped |
| Responses.CleanedReplies | ai.py:829-832 | no more entries than replies, each stripped; empty exactly when no reply has content |
| Responses.CleanedRepliesKeeps | ai.py:829-832 | every reply with content contributes its cleaned form |
| Responses.CleanedRepliesFrom | ai.py:829-832 | every entry is the cleaned form of some reply with content |
| Responses.CleanedRepliesMembers | ai.py:829-832 | an entry occurs exactly when some reply with content cleans to it |
| Responses.NonEmpty | ai.py:838 | keeps exactly the non-empty candidates |
| Responses.Dedup | ai.py:838 | every candidate once, with no candidate lost or added |
| Responses.CommandListAsWritten | ai.py:824-839 | the list as written: the "No commands" echo without replies, the "No valid commands" echo when no reply has content, else the distinct non-empty cleaned replies |
| Responses.BlankReplyGivesNoCandidates | ai.py:834-838 | a single reply of spaces gets past the emptiness test and leaves an empty list |
| Responses.CommandList | ai.py:824-839 | the corrected list is never empty, its entries are distinct, and it is either an echo fallback or exactly the non-empty cleaned replies |
| Responses.CommandListAgrees | ai.py:834-839 | the corrected list equals the written one whenever the written one is not empty |
| Layout.Rule | ai.py:921 | a rule is `columns` dashes |
| Layout.PadRight | ai.py:924 | `ljust` keeps the text and pads it with spaces up to the width |
| Layout.ChunksFrom | ai.py:923-924 | every chunk `line[i:i+width]` is non-empty and at most `width` long |
| Layout.ChunksReassemble | ai.py:923-924 | the chunks put back together are the line: nothing lost, repeated or reordered |
| Layout.ChunksAreSlices | ai.py:924 | every character of a chunk comes from its line |
| Layout.Row | ai.py:924 | a row is `width + 4` characters wide |
| Layout.RowShape | ai.py:924 | a row is "| ", the chunk, only spaces, then " |"; removing the frame and padding gives the chunk back |
| Layout.LinesRowsWidth | ai.py:922-924 | every row of the box is as wide as the terminal |
| Layout.AppendRows | ai.py:923-924 | the inner loop appends one row per chunk of the line, each on a new line |
| Layout.SquareText | ai.py:914-926 | the text built by the nested loops is the top rule, the rows of every line in order, and the bottom rule, joined by newlines |
| Layout.EmptyLineHasNoRows | ai.py:923 | an empty line, wherever it ends a text, adds no row, not even a blank one |
| Layout.LinesRowsHaveNoNewline | ai.py:922-924 | no row contains a newline |
| Layout.BoxedTextLines | ai.py:921-925 | split at its newlines, the box (`Layout.BoxedText`) is exactly the top rule, the rows and the bottom rule, and every row is `columns` wide |
| ResultCache.InsertOrder | ai.py:74-78 | after a store the map holds at most `maxsize` keys and the new key is the newest |
| ResultCache.InsertOrderMembers | ai.py:74-78 | the new key is present, every old key stays except the oldest of a full map, and no other key appears |
| ResultCache.InsertOrderEvictsOldest | ai.py:74-76 | with distinct keys, a full map loses exactly its oldest key and keeps the others in order |
| ResultCache.InsertOrderDistinct | ai.py:78 | keys stay distinct |
| ResultCache.InsertValues | ai.py:74-78 | the new key maps to the new result, and every other stored key keeps its old result |
| ResultCache.Cache.constructor | ai.py:64-68 | a fresh cache is empty |
| ResultCache.Cache.Call | ai.py:47-82 | NOCACHE calls the function and leaves the map alone; a hit returns the stored result without calling it and moves nothing; a miss calls it, evicts the oldest entry of a full map and appends the new one; at most `maxsize` entries |
| ResultCache.RepeatedCall | ai.py:70-71 | a second call with the same key is a hit that returns the first result |
| History.SaveHistory | ai.py:684 | `history[-limit:]` is a suffix of the history |
| History.SaveHistoryKeepsLast | ai.py:684 | with a positive limit, exactly the last min(limit, length) messages are kept, in order |
| History.SaveHistoryZeroKeepsAll | ai.py:684 | `history[-0:]` keeps every message |
| History.TotalWordsAppend | ai.py:702 | the word count of a history is the sum of the counts of its two parts |
| History.TotalWordsOfOne | ai.py:702 | one message counts the words of its content |
| History.LongestSuffixUnique | ai.py:702-704 | only one suffix is the longest one within the word budget |
| History.TrimHistory | ai.py:702-704 | the loop ends with the longest suffix of the history holding at most 2000 words |
| History.ChatTurn | ai.py:699-741 | the trimmed history, plus a system message when none is left, plus the prompt, is what is sent; the stripped reply or the error text is saved as the last of at most 50 messages |

## Left out

- The OpenAI calls (ai.py:729, 763, 811, 854, 878) are external services. Their replies are parameters.
- `get_explaination` and `highlight`: they are explanation text and regex colouring, not part of the core.
- The regex engine is a foreign library. `re.search` with IGNORECASE is the parameter `matches`.
- Regex compile errors are not modelled. With a bad pattern the source raises `re.error`; here every pattern is matched by `matches`.
- File and pickle I/O are not modelled: the cache file, the history file, the configuration files and the zsh/bash history line.
  - File contents are parameters.
  - Writing the default pattern files is modelled only as the text written (`Safety.DefaultPatternFile`).
  - A failure while writing is left out; it changes nothing in the verdict.
- Pattern files: only a missing file is modelled. Any other I/O error and undecodable bytes are left out. The text is taken after Python's universal-newline translation.
- The context gatherers (ai.py:539-645) read the system: a directory listing or a subprocess's output. The final command execution (ai.py:1100-1162) runs a subprocess. Each gatherer's output is a parameter of `Gate.ContextPrompt`.
- The interactive configuration menu (ai.py:402-536), the signal handler, ANSI colouring, printing, the terminal-size probe and the platform/distribution probing are left out. `columns` is a parameter.
- The chat mode's `while True` loop is modelled as one `History.ChatTurn`.
- `ResultCache.Cache.Call` takes the call key as `str(args) + str(kwargs)`, already computed.
  - All decorated functions share one `cache.pkl` in the source, and the model does not capture that sharing.
  - The stored map is the object's state rather than a file.
  - A missing or empty cache file (`FileNotFoundError`, `EOFError`) and a pickle that is not an `OrderedDict` start a fresh map; other errors on reading it propagate. Both are left out with the file.
- ResultCache.Cache.constructor requires `maxsize > 0`. With `maxsize` 0 the first miss pops from an empty map and raises `KeyError`, but the source only uses the default 128.
- Layout.SquareText requires `columns > 4`. With a width of 4 `range` raises on a zero step, and below 4 a negative step gives no rows. That happens only on terminals narrower than 5 columns.
- Responses.Dedup keeps first occurrences in order. `list(set(...))` in the source has an order that depends on string hashing, so the contracts of `Dedup`, `CommandListAsWritten` and `CommandList` state only the set of commands and their distinctness, not their order.
- Text.Lower lowers only ASCII letters. Python's `str.lower()` also folds non-ASCII letters, and some of them change length.
- PyInt.ParseInt accepts only ASCII digits. Python's `int()` also accepts other Unicode decimal digits, and it refuses numerals longer than 4300 digits.
- Gate.ChooseAlternative treats only ASCII digits as digits. Python's `str.isdigit()` also accepts superscripts and other Unicode digits, and `int()` then refuses some of them.
- Safety.DefaultPatternFileRoundTrip requires well-formed patterns (`Safety.WellFormedPattern`: non-empty, stripped, not starting with '#', no newline). This is not proved of the 80 + 58 built-in constants themselves, so the round trip of the actual default files is not established.
- The model follows the code:
  - safe patterns are tried before dangerous ones;
  - the verdict has two values, safe and unsafe;
  - a command that matches nothing is judged safe;
  - `ai.py` has no multi-step plan executor, no auto-correct retry and no numbered history replay, so none is modelled.

## Findings

| source | as written | input that shows it | evidently intended | confidence | as-written member | corrected member |
|---|---|---|---|---|---|---|
| ai.py:834-838 | `get_cmd_list` tests `if not cmd_list` before it drops the empty candidates, so replies that are all whitespace pass the test and then vanish | one reply "   " (`Responses.BlankReplyGivesNoCandidates`): the list of alternatives is empty, and the prompt offers "[0--1]" | the "No valid commands generated" echo whenever no non-empty candidate is left | not executed; high | Responses.CommandListAsWritten | Responses.CommandList |
| ai.py:1026-1030 | the model's reply to `get_needed_context` is used to index CONTEXT after a check for `>= 0` only | the reply "9" (`Gate.ReplyBeyondContexts`): index 9 of a 7-entry table raises IndexError | a reply beyond the table means no context, as a negative reply does | not executed; high | Gate.ContextIndexAsWritten | Gate.ContextIndex |
