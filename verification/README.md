# Command steps of the dnf-docker-test suite

This project models the step definitions in
`dnf-docker-test/features/steps/command_steps.py`. These are the behave
steps that run a command in the test container and then check the
command's exit code, its output streams, the `dnf history` listing and the
`dnf history userinstalled` listing.

The scenario context is the class `Steps.Ctx`. It holds two fields:

- `cmdResult` is the result of the last command. Every run replaces it.
- `text` is the multi-line text attached to the step.

Each step is a method or a function on `Ctx`. A step either passes or fails
with a `Base.Failure` naming the assertion that did not hold.

The three parsing steps live in their own modules, and each is proved
against a specification function:

- `ExitCodes` parses the exit-code list, e.g. `1,3,100-102`.
- `History` matches rows of the history listing.
- `Userinstalled` checks packages by substring.

The Python string built-ins they rely on are modelled in `Text`:

- `split(sep)` and `split(sep, 1)`;
- `strip()` over `str.isspace` characters;
- `split()` with no separator;
- the substring test `in`;
- `int()` on decimal text.

Each built-in is paired with its inverse or with an independent
characterisation.

## Model

| member | source | states |
|---|---|---|
| Base.Check | dnf-docker-test/features/steps/command_steps.py:40 | an assertion passes exactly when its condition holds, and otherwise fails as an assertion failure |
| Text.Split | dnf-docker-test/features/steps/command_steps.py:52 | `str.split(sep)` yields at least one piece, and no piece contains the separator |
| Text.SplitLength | dnf-docker-test/features/steps/command_steps.py:89-90 | the number of pieces is the number of separators plus one |
| Text.JoinSplit | dnf-docker-test/features/steps/command_steps.py:52 | joining the pieces with the separator gives back the original string |
| Text.SplitJoin | dnf-docker-test/features/steps/command_steps.py:106 | splitting a join of separator-free pieces gives back exactly those pieces |
| Text.SplitPrefix | dnf-docker-test/features/steps/command_steps.py:52 | a separator-free prefix followed by the separator becomes the first piece, and the rest is split on its own |
| Text.FirstIndex | dnf-docker-test/features/steps/command_steps.py:55 | the index returned holds the character, and no earlier position does |
| Text.SplitOnce | dnf-docker-test/features/steps/command_steps.py:55 | `split(c, 1)` cuts at the first `c`: the first half holds no `c`, and the halves joined by `c` give back the string |
| Text.SplitOnceOf | dnf-docker-test/features/steps/command_steps.py:55 | a `c`-free head followed by `c` and any tail is cut back into exactly that head and tail |
| Text.SplitAround | dnf-docker-test/features/steps/command_steps.py:55 | a `c`-free head followed by `c` is the first piece of `split(c)`, and the rest is the tail split on its own |
| Text.SplitOnceAgreesWithSplit | dnf-docker-test/features/steps/command_steps.py:55 | the first half of `split(c, 1)` is the first piece of `split(c)` |

| Text.Strip | dnf-docker-test/features/steps/command_steps.py:56-57 | `strip()` yields a string with no whitespace at either end, no longer than its input |
| Text.StripShape | dnf-docker-test/features/steps/command_steps.py:95 | the input is the result with whitespace-only padding on both sides |
| Text.StripKeeps | dnf-docker-test/features/steps/command_steps.py:107 | every character of the stripped string occurs in the input |
| Text.StripPadded | dnf-docker-test/features/steps/command_steps.py:107 | stripping a trimmed string padded with whitespace gives back that string |
| Text.StripLeading | dnf-docker-test/features/steps/command_steps.py:107 | leading whitespace is removed whatever follows it |
| Text.StripTrailing | dnf-docker-test/features/steps/command_steps.py:107 | trailing whitespace after a trimmed string is removed, leaving that string |
| Text.StripIdempotent | dnf-docker-test/features/steps/command_steps.py:95 | stripping twice is the same as stripping once |
| Text.StripPieces | dnf-docker-test/features/steps/command_steps.py:94-95 | the list of stripped pieces has one entry per separator-delimited piece; it models both the row columns and `pkgs_split` (lines 105-107) |
| Text.StripPiecesShape | dnf-docker-test/features/steps/command_steps.py:105-107 | every stripped piece, such as a package name, is trimmed and holds no separator |
| Text.StripPiecesJoin | dnf-docker-test/features/steps/command_steps.py:105-107 | pieces written without surrounding whitespace or separators, such as a package list, are split back out exactly as written |
| Text.WordLength | dnf-docker-test/features/steps/command_steps.py:97 | the length of the leading word is within the string, and it is positive when the string starts with a non-space |
| Text.WordLengthShape | dnf-docker-test/features/steps/command_steps.py:97 | the leading word holds no whitespace and ends at whitespace or at the end of the string |
| Text.WordsShape | dnf-docker-test/features/steps/command_steps.py:97 | every word of `split()` is non-empty and free of whitespace |
| Text.VisibleAppend | dnf-docker-test/features/steps/command_steps.py:97 | the non-whitespace characters of a concatenation are those of each part, in order |
| Text.VisibleNoSpace | dnf-docker-test/features/steps/command_steps.py:97 | a string without whitespace keeps all its characters |
| Text.WordsKeepVisible | dnf-docker-test/features/steps/command_steps.py:97 | the words of `split()`, concatenated, are exactly the string's non-whitespace characters in order |
| Text.WordsKeep | dnf-docker-test/features/steps/command_steps.py:97 | every character of a word occurs in the string |
| Text.WordsOfWord | dnf-docker-test/features/steps/command_steps.py:97 | a non-empty string without whitespace splits into itself alone |
| Text.Words | dnf-docker-test/features/steps/command_steps.py:97 | `str.split()` with no separator; a definition whose meaning is given by `Text.WordsShape`, `Text.WordsKeepVisible`, `Text.WordsBreak` and `Text.WordsJoin` |
| Text.WordLengthOf | dnf-docker-test/features/steps/command_steps.py:97 | a run of non-whitespace that ends at whitespace or at the end of the string is exactly the leading word |
| Text.WordsBreak | dnf-docker-test/features/steps/command_steps.py:97 | `split()` breaks at whitespace: a word followed by a whitespace character is the first word, and the rest is split on its own, so `"1 >"` gives `"1"` and `">"` |
| Text.WordsJoin | dnf-docker-test/features/steps/command_steps.py:97 | non-empty, whitespace-free words joined by single spaces are split back out exactly |
| Text.ContainsIff | dnf-docker-test/features/steps/command_steps.py:114-116 | the recursive substring test holds exactly when the pattern occurs at some index of the text |
| Text.OccursAtShift | dnf-docker-test/features/steps/command_steps.py:114 | an occurrence in the tail of the text is an occurrence in the text one place further on |
| Text.ContainsEmpty | dnf-docker-test/features/steps/command_steps.py:116 | the empty string occurs in every text |
| Text.Contains | dnf-docker-test/features/steps/command_steps.py:114-116 | the substring test `p in t`; a definition whose meaning is given by `Text.ContainsIff` |
| Text.ParseInt | dnf-docker-test/features/steps/command_steps.py:56-60 | `int()` succeeds exactly on an optionally signed run of decimal digits, and otherwise fails with an invalid-integer error |
| Text.ShowNat | dnf-docker-test/features/steps/command_steps.py:60 | the decimal text of a natural number is a non-empty run of digits |
| Text.DigitsValueShowNat | dnf-docker-test/features/steps/command_steps.py:60 | reading back the decimal text of a natural number gives that number |
| Text.LeadingZero | dnf-docker-test/features/steps/command_steps.py:56-60 | leading zeros do not change the value that `int()` reads, as in `int("007") == 7` |
| Text.PlusDigits | dnf-docker-test/features/steps/command_steps.py:56-60 | a `+` sign reads as the digits after it, as in `int("+5") == 5` |
| Text.MinusDigits | dnf-docker-test/features/steps/command_steps.py:56-60 | a `-` sign negates the digits after it, so `int("-0") == 0` |
| Text.ParseShow | dnf-docker-test/features/steps/command_steps.py:56-60 | `int()` of the decimal text of any integer gives that integer back |
| ExitCodes.Range | dnf-docker-test/features/steps/command_steps.py:58 | `range(lo, hi + 1)` has `hi - lo + 1` elements (none when `lo > hi`), and element `k` is `lo + k` |
| ExitCodes.RangeMembers | dnf-docker-test/features/steps/command_steps.py:58 | an integer is in the range exactly when it lies between the bounds, both included |
| ExitCodes.TokenCodes | dnf-docker-test/features/steps/command_steps.py:54-60 | what one comma-separated piece contributes; its only error is the ValueError of `int()`; its meaning is given by `ExitCodes.RangeToken`, `ExitCodes.RangeTokenOk` and `ExitCodes.NumberToken` |
| ExitCodes.Gather | dnf-docker-test/features/steps/command_steps.py:51-60 | the contributions concatenated in order, with the first error winning; a definition whose meaning is given by `ExitCodes.GatherMembers`, `ExitCodes.GatherAppend` and `ExitCodes.GatherStopsAtError` |
| ExitCodes.Combine | dnf-docker-test/features/steps/command_steps.py:58-60 | `codes.extend(...)` with errors propagating; a definition whose meaning is given by `ExitCodes.CombineAssoc` |
| ExitCodes.ParseExitCodes | dnf-docker-test/features/steps/command_steps.py:51-60 | the exit-code list written by `values`; a definition whose meaning is given by `ExitCodes.ParseExitCodesMembers` and `ExitCodes.ParseExitCodesError` |
| ExitCodes.Contributions | dnf-docker-test/features/steps/command_steps.py:52-53 | there is one contribution per comma-separated piece |
| ExitCodes.ContributionAt | dnf-docker-test/features/steps/command_steps.py:53-60 | unfolding lemma: entry `k` of the contributions is the token reading of piece `k`; it states nothing beyond the definition |
| ExitCodes.RangeToken | dnf-docker-test/features/steps/command_steps.py:54-58 | a piece `lower-upper` cut at its first `-` contributes the range between its two bounds, and nothing when the bounds are reversed |
| ExitCodes.RangeTokenOk | dnf-docker-test/features/steps/command_steps.py:54-58 | a piece holding `-` is valid exactly when `int()` accepts both stripped bounds, and otherwise it is an invalid-integer error |
| ExitCodes.MalformedRangePieces | dnf-docker-test/features/steps/command_steps.py:54-58 | the pieces `5-` (blank upper bound), `+-3` and `1-+` (a bound that is only a sign) and `a-3` (a letter) are invalid-integer errors |
| ExitCodes.NumberToken | dnf-docker-test/features/steps/command_steps.py:59-60 | a piece without `-` contributes the one integer it holds, and is an error exactly when `int()` refuses it |
| ExitCodes.BlankLowerBoundFails | dnf-docker-test/features/steps/command_steps.py:55-56 | a piece whose text before the first `-` is blank, such as `-1`, is an invalid-integer error |
| ExitCodes.CombineAssoc | dnf-docker-test/features/steps/command_steps.py:58-60 | extending the code list is associative, with errors propagating |
| ExitCodes.GatherAppend | dnf-docker-test/features/steps/command_steps.py:53-60 | gathering two runs of pieces is combining what each run gathers |
| ExitCodes.GatherMembers | dnf-docker-test/features/steps/command_steps.py:53-60 | the list is valid exactly when every piece is, and then it holds a code exactly when some piece contributes it |
| ExitCodes.GatherStopsAtError | dnf-docker-test/features/steps/command_steps.py:56-60 | the first invalid piece decides the error |
| ExitCodes.GatherError | dnf-docker-test/features/steps/command_steps.py:56-60 | every error of a gathered list is an invalid-integer error when every piece's error is |
| ExitCodes.ParseExitCodesError | dnf-docker-test/features/steps/command_steps.py:56-60 | a malformed exit-code list is rejected with the ValueError of `int()` |
| ExitCodes.GatherStep | dnf-docker-test/features/steps/command_steps.py:58-60 | unfolding lemma used by the loop: gathering one more valid piece appends its codes |
| ExitCodes.ParseExitCodesMembers | dnf-docker-test/features/steps/command_steps.py:51-60 | the exit-code list is valid exactly when every piece is, and then a code is accepted exactly when some piece contributes it |
| ExitCodes.CollectExitCodes | dnf-docker-test/features/steps/command_steps.py:51-60 | the loop that appends or extends `codes` piece by piece computes the list the specification describes, including its first error |
| ExitCodes.NumberPiece | dnf-docker-test/features/steps/command_steps.py:60 | the decimal text of a natural number contributes exactly that number |
| ExitCodes.StripShowNat | dnf-docker-test/features/steps/command_steps.py:60 | `int(str(n).strip())` gives back any natural number `n` |
| ExitCodes.RangePiece | dnf-docker-test/features/steps/command_steps.py:49 | the piece `100-102` contributes 100, 101 and 102 |
| ExitCodes.DocumentedExample | dnf-docker-test/features/steps/command_steps.py:49 | the documented example `1,3,100-102` reads to the codes 1, 3, 100, 101 and 102 |
| History.RowMatchesIff | dnf-docker-test/features/steps/command_steps.py:98 | unfolding lemma: the subset test holds exactly when each of the three words is among the row's words, so their order does not matter |
| History.RowWords | dnf-docker-test/features/steps/command_steps.py:94-97 | the words a row offers: its stripped columns, followed by the whitespace-separated tokens of its last column; a definition whose meaning is given by `History.RowWordsShape` and `History.ExampleRow` |
| History.Offers | dnf-docker-test/features/steps/command_steps.py:98 | `set([cmd, act, alt]).issubset(set(words))`; a definition whose meaning is given by `History.RowMatchesIff` |
| History.RowMatches | dnf-docker-test/features/steps/command_steps.py:94-98 | whether one row matches; a definition whose meaning is given by `History.RowMatchesIff` and `History.UnmatchableQuery` |
| History.AnyRowMatches | dnf-docker-test/features/steps/command_steps.py:92-100 | whether some remaining row matches; a definition used by `History.HistoryOutcome` |
| History.HistoryOutcome | dnf-docker-test/features/steps/command_steps.py:88-101 | the verdict on the `dnf history` output; a definition whose meaning is given by `History.NoOutputIff`, `History.BannerIgnored` and `History.FindHistoryRow` |
| History.RowWordsShape | dnf-docker-test/features/steps/command_steps.py:94-97 | every word a row offers is stripped and holds no `|` |
| History.UnmatchableQuery | dnf-docker-test/features/steps/command_steps.py:94-98 | a query word with surrounding whitespace or a `|` in it never matches any row |
| History.NoOutputIff | dnf-docker-test/features/steps/command_steps.py:89-90 | 'No output' is reported exactly when the output has fewer than three newlines |
| History.BannerIgnored | dnf-docker-test/features/steps/command_steps.py:91-101 | below any three-line banner, the verdict is a pass exactly when some row matches |
| History.FindHistoryRow | dnf-docker-test/features/steps/command_steps.py:88-101 | the loop that drops the banner and stops at the first matching row passes exactly when the specification does |
| History.ExampleRow | dnf-docker-test/features/steps/command_steps.py:96-97 | the row `Install \| pkg \| 1 >` offers the words `Install`, `pkg`, `1 >`, `1` and `>`, so it matches `1`, `Install` and `pkg` |
| History.ExampleListing | dnf-docker-test/features/steps/command_steps.py:94 | `Install \| pkg \| 1 >` splits into three columns at its bars |
| Userinstalled.UserinstalledPassIff | dnf-docker-test/features/steps/command_steps.py:112-116 | the step passes exactly when the output is non-empty, every `Match` package occurs in it and no `Not match` package does |
| Userinstalled.PkgsSplit | dnf-docker-test/features/steps/command_steps.py:105-107 | the generator `pkgs_split`, defined as `Text.StripPieces` on commas; its meaning is given by `Text.StripPiecesShape` and `Text.StripPiecesJoin` |
| Userinstalled.UserinstalledOutcome | dnf-docker-test/features/steps/command_steps.py:110-116 | the verdict on the `dnf history userinstalled` output; a definition whose meaning is given by `Userinstalled.UserinstalledPassIff` and `Userinstalled.CheckUserinstalled` |
| Userinstalled.EmptyNotMatchNeverPasses | dnf-docker-test/features/steps/command_steps.py:115-116 | an empty `Not match` value names the empty package, which occurs in any output, so the step never passes |
| Userinstalled.CheckUserinstalled | dnf-docker-test/features/steps/command_steps.py:112-116 | the step's two loops pass or fail exactly as the specification does |
| Steps.Ctx.constructor | dnf-docker-test/features/steps/command_steps.py:24 | a new scenario has no command result yet |
| Steps.Ctx.RunCommand | dnf-docker-test/features/steps/command_steps.py:19-24 | running a command replaces the stored result with that run's result |
| Steps.Ctx.SuccessfullyRunInRepository | dnf-docker-test/features/steps/command_steps.py:26-31 | a missing repository fails before anything runs and leaves the result unchanged; otherwise the command runs in the repository and the step passes exactly on exit code 0 |
| Steps.Ctx.SuccessfullyRun | dnf-docker-test/features/steps/command_steps.py:33-36 | the command runs, and the step passes exactly when it exits with 0 |
| Steps.Ctx.ShouldPass | dnf-docker-test/features/steps/command_steps.py:38-40 | passes exactly when the last exit code is 0 |
| Steps.Ctx.ShouldFail | dnf-docker-test/features/steps/command_steps.py:42-44 | passes exactly when the last exit code is not 0 |
| Steps.Ctx.ExitCodeVerdict | dnf-docker-test/features/steps/command_steps.py:46-61 | the verdict of the exit-code step; a definition whose meaning is given by `Steps.ExitCodeVerdictIff` and `Steps.MalformedListFailsFirst` |
| Steps.StreamText | dnf-docker-test/features/steps/command_steps.py:66 | `getattr(ctx.cmd_result, stream)` for the two stream names; a definition |
| Steps.Ctx.ExitCodeIs | dnf-docker-test/features/steps/command_steps.py:46-61 | the step reads the code list with the loop and gives the verdict of the specification: a malformed list first, then the last exit code's membership |
| Steps.Ctx.ShouldMatchExactly | dnf-docker-test/features/steps/command_steps.py:63-67 | fails without a step text, and otherwise passes exactly when the chosen stream equals the text |
| Steps.Ctx.ShouldBeEmpty | dnf-docker-test/features/steps/command_steps.py:69-72 | sets the step text to the empty string, and passes exactly when the chosen stream is empty |
| Steps.Ctx.HistoryContains | dnf-docker-test/features/steps/command_steps.py:84-101 | runs `dnf history` and gives the row matcher's verdict on its standard output |
| Steps.Ctx.UserinstalledMatch | dnf-docker-test/features/steps/command_steps.py:103-116 | runs `dnf history userinstalled` and gives the package check's verdict on its standard output |
| Steps.PassXorFail | dnf-docker-test/features/steps/command_steps.py:38-44 | once a command has run, exactly one of "should pass" and "should fail" passes |
| Steps.MalformedListFailsFirst | dnf-docker-test/features/steps/command_steps.py:51-61 | a malformed exit-code list fails with the ValueError of `int()` whether or not a command has run |
| Steps.ExitCodeExample | dnf-docker-test/features/steps/command_steps.py:49 | "the command exit code is 1,3,100-102" passes exactly for the codes 1, 3, 100, 101 and 102 |
| Steps.ExitCodeVerdictIff | dnf-docker-test/features/steps/command_steps.py:51-61 | the exit-code step passes exactly when every piece is valid and some piece contributes the last exit code |

## Left out

- The step registration (lines 4–17) is not modelled. This covers the behave decorators, `register_type` and the `stdout|stderr` pattern. The pattern is reflected only in the two-valued `Steps.Stream`.
- The steps "should match regexp" and "should not match regexp" (lines 74–82) are not modelled. Regular-expression matching is outside this model.
- `command_utils.run` is not part of this model. Each step that runs a command takes the runner as a parameter: a function from the command line and the optional working directory to the captured result. Within one call the result is a function of the command and the directory; nothing ties the runners given to different steps together.
- `repo_utils.get_repo_dir` is not part of this model. Its answer is the parameter `repo` of `Steps.Ctx.SuccessfullyRunInRepository`.
- `table_utils.parse_kv_table` is not part of this model. The `Match` and `Not match` values reach `Steps.Ctx.UserinstalledMatch` as strings, and a table that parse rejects is not modelled.
- Failure messages are reduced to a `Base.Failure` tag. This covers the diff printed by `assertMultiLineEqual` and the formatted messages. Line 116 formats the message with `m` where `n` is evidently meant, but only the message text is affected, and messages are not modelled.
- Steps run against a missing command result fail with `NoCommandResult`. In Python the attribute access would raise instead.
- Text.ParseInt: accepts an optional sign followed by ASCII digits. It does not model the rest of Python's `int()`: underscores between digits and non-ASCII decimal digits.
- Text.IsSpace: covers the characters for which Python's `str.isspace()` is true. It assumes text is Unicode code points and does not model byte strings.
- The behave runner is not part of this model. Before each step it sets `ctx.text` to that step's own text, so the empty string written by "should be empty" (line 71) does not reach the next step. In the model, `Steps.Ctx.text` changes only in the constructor and in `Steps.Ctx.ShouldBeEmpty`, and the per-step reset is not modelled.
