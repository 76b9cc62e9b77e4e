# NetExec end-to-end test runner, modelled in Dafny

`tests/e2e_tests.py` runs NetExec's end-to-end tests. It reads a catalog of
command templates, one per line, and keeps the lines the user selected:
by line number (`--line-nums`, parsed by `parse_line_nums`) and by protocol
(`--protocols`, matched against the second whitespace-separated field). It
fills the placeholders of each kept line from the command line, which is
`replace_command`. Then it launches the commands one after the other,
counting passes and failures and logging each one (`run_e2e_tests`).

This project models those four functions:

- `wrappers.dfy`: `Option`, `Result`, and `Flatten`. `Flatten` joins a
  sequence of results in order; the first error wins.
- `builtins.dfy`: the Python built-ins the code relies on, with Python's
  semantics. These are `str.split()` with and without a separator,
  `str.strip()`, `str.startswith`, the substring test `in`, `str.replace`,
  `int()` on a string, and `range()`.
- `cli_args.dfy`: the parsed arguments, as argparse delivers them.
- `line_nums.dfy`: `parse_line_nums`, as method `LineNums.ParseLineNums`.
  Its loop is proved against `TokensNums`, the concatenation of each
  token's own result.
- `replace_command.dfy`: `replace_command`. The seven placeholders form a
  table (`Placeholder`, `Token`, `Value`), applied in the source's fixed
  order.
- `generate_commands.dfy`: `generate_commands` over the catalog's lines, as
  method `Generation.GenerateCommands`. It has the source's two loops and
  is proved against `Commands`, the concatenation of each line's own
  outcome.
- `run_e2e_tests.dfy`: the loop of `run_e2e_tests`, as method
  `Runner.RunTasks`. It is proved against `Expected`, which gives the
  launched commands, the counters, the failures and the console log.
  `Runner.RunE2ETests` composes generation with the run.

Processes and the platform are inputs to the model:

- The i-th launched command exits with `exitCode(i)` and prints `output(i)`.
- The `netexec --version` probe prints `versionOutput`.
- `platform.system() == "Linux"` is the flag `isLinux`.
- The catalog file is its sequence of raw lines, each with its newline.

Exceptions become `Err` values:

- If generation raises an `IndexError` on a line with fewer than two fields,
  the result is `ProtocolFieldMissing(lineNo)`.
- If `parse_line_nums` raises `ValueError`, the result is `TooManyParts` or
  `NotAnInteger`.

Some behaviours of the code are easy to misread; the model follows the
code:

- The seven replacements run one after another, each on the result of the
  one before. They are not independent. A value that spells a later
  placeholder is rewritten again: see
  `Templating.LaterStepsSeeEarlierValues`. So "no placeholder remains in a
  generated command" does not hold in general. It holds for a line made of
  literal text and placeholders when the text and the values of the
  placeholders it holds are clean, that is, free of 'T', 'L', 'K' and '{',
  the characters a token starts with: then every placeholder, wherever and
  however often it occurs, becomes its value (`Templating.FillTemplate`).
  Clean text matters too. With Kerberos off, removing the inner "KERBEROS "
  of "KERBKERBEROS EROS " joins the text around it into a new "KERBEROS "
  token, which the chain leaves in place (`Templating.RemovalJoinsToken`).
- A comment is a line whose very first character is `#`. A line indented
  before its `#` is not a comment: it is treated like any other command
  line, stripped, filtered on its second field and templated.
- `--line-nums 5-3` parses to an empty group. The option is then given but
  selects nothing. This differs from leaving the option out, which selects
  every line (`Generation.EmptyGroupSelectsNothing`).
- "A command that exits with 0 is never among the failures" holds per
  launch position (`Runner.FailuresAre`). Failures are compared as strings,
  so the same command can both pass and fail.

## Model

| member | source | states |
|---|---|---|
| LineNums.ExpandToken | tests/e2e_tests.py:115-119 | one token becomes its numbers: with a '-' it must split into exactly a start and an end, both integers, giving start..end inclusive; without one it must be an integer |
| LineNums.ParseLineNums | tests/e2e_tests.py:112-120 | parse_line_nums gives the in-order concatenation of its whitespace tokens' own results; it stops with the first token's error |
| LineNums.TokenOfNumber | tests/e2e_tests.py:118-119 | a token that spells a non-negative number n stands for [n] |
| LineNums.TokenOfRange | tests/e2e_tests.py:115-117 | "start-end" stands for range(start, end + 1), i.e. start..end inclusive, and for nothing when start > end |
| LineNums.TokenManyDashes | tests/e2e_tests.py:116 | a token with two or more '-' fails to unpack into start and end |
| LineNums.TokenLeadingDash | tests/e2e_tests.py:115-117 | a token beginning with '-' (a negative number or an empty start) is refused |
| LineNums.TokensNumsOk | tests/e2e_tests.py:114-120 | parsing succeeds iff every token does; a number is in the result iff some token contributes it |
| LineNums.TokensNumsErr | tests/e2e_tests.py:114-120 | a failure carries the error of the first failing token, and every earlier token parses |
| LineNums.SingleToken | tests/e2e_tests.py:114 | an argument that is one token parses as that token |
| LineNums.ExampleRange | tests/e2e_tests.py:115-117 | "2-4" parses to [2, 3, 4] |
| LineNums.ExampleEmptyRange | tests/e2e_tests.py:117 | "5-3" parses to [] without an error |
| LineNums.ExampleTwoDashes | tests/e2e_tests.py:116 | "1-2-3" raises the unpacking error |
| LineNums.ExampleNegative | tests/e2e_tests.py:115-117 | "-5" raises, because int("") is refused |
| LineNums.ExampleOne | tests/e2e_tests.py:118-119 | "1" parses to [1] |
| LineNums.ExampleSingletonRange | tests/e2e_tests.py:115-117 | "3-3" parses to [3] |
| LineNums.TokenNums | tests/e2e_tests.py:115-119 | one token's numbers, or the ValueError it raises; characterized by TokenOfNumber, TokenOfRange, TokenManyDashes and TokenLeadingDash, and computed by ExpandToken |
| LineNums.TokensNums | tests/e2e_tests.py:113-120 | the tokens' numbers concatenated in order; characterized by TokensNumsOk and TokensNumsErr, and computed by ParseLineNums |
| Templating.Token | tests/e2e_tests.py:157-163 | every placeholder token is non-empty, so str.replace is well defined on it |
| Templating.TokensApart | tests/e2e_tests.py:156-163 | no placeholder token contains a token that the chain replaces before it |
| Templating.TokenBecomesValue | tests/e2e_tests.py:153-163 | a line that is exactly one placeholder becomes its value when that value holds no later token: the target verbatim, a credential in double quotes, "-k " or nothing, a list-file path, "--dns-server v" or nothing (None and "" both give nothing) |
| Templating.NoPlaceholderUnchanged | tests/e2e_tests.py:156-163 | a line holding none of the seven tokens comes back unchanged when poetry is off |
| Templating.SubstituteAppend | tests/e2e_tests.py:156-163 | the chain is sequential: running one part of it and then the rest is running it all |
| Templating.SubstituteAbsent | tests/e2e_tests.py:156-163 | replacements whose tokens the line lacks leave it alone |
| Templating.ReplaceCommandSameValues | tests/e2e_tests.py:152-166 | the command depends on the arguments only through the seven placeholder values and the poetry flag |
| Templating.PoetryPrefix | tests/e2e_tests.py:164-165 | with poetry on, the command is "poetry run " followed by the command that poetry off gives |
| Templating.LaterStepsSeeEarlierValues | tests/e2e_tests.py:157-158 | a target spelled LOGIN_USERNAME is rewritten again by the next step: "TARGET_HOST" becomes the quoted username |
| Templating.Value | tests/e2e_tests.py:153-163 | the text each placeholder is replaced by, in the chain's order ORDER; TokenBecomesValue states what each one is |
| Templating.Substitute | tests/e2e_tests.py:156-163 | the chained replacements, each on the result of the one before; SubstituteAppend, SubstituteAbsent and FillTemplate characterize it |
| Templating.ReplaceCommand | tests/e2e_tests.py:152-166 | replace_command; its meaning is stated by FillTemplate, TokenBecomesValue, NoPlaceholderUnchanged, PoetryPrefix and ReplaceCommandSameValues |
| Templating.LaterTokenPasses | tests/e2e_tests.py:156-163 | replacing an earlier token passes over a whole later token untouched: no token holds the start of an earlier one |
| Templating.StepPartly | tests/e2e_tests.py:156-163 | on a clean line, step j of the chain turns exactly the j-th placeholder's occurrences into its value and changes nothing else |
| Templating.FillTemplate | tests/e2e_tests.py:152-166 | a line of clean text and placeholders with clean values becomes the line with every placeholder written as its value, after "poetry run " when poetry is on |
| Templating.TextThenSlot | tests/e2e_tests.py:156-163 | clean text followed by one placeholder with a clean value becomes the text followed by the value |
| Templating.SmbTargetLine | tests/e2e_tests.py:152-166 | without poetry, "netexec smb TARGET_HOST" becomes "netexec smb " followed by any clean target |
| Templating.SmbExample | tests/e2e_tests.py:152-166 | with target 10.0.0.1 and no poetry, "netexec smb TARGET_HOST" becomes "netexec smb 10.0.0.1" |
| Templating.RemovalJoinsToken | tests/e2e_tests.py:152-166 | with Kerberos and poetry off, "KERBKERBEROS EROS " becomes "KERBEROS ": a removal can join text into a new token, so clean text is needed |
| Templating.KerberosCollapse | tests/e2e_tests.py:160 | the Kerberos replacement scans from the left: the inner "KERBEROS " of "KERBKERBEROS EROS " is the only occurrence replaced |
| Generation.TemplateLine | tests/e2e_tests.py:132-139 | the body of either loop on a line the number filter lets through: a line starting with '#' yields nothing, a line lacking its second field under a protocol filter raises with its 1-based number, and a kept line yields its templated stripped form |
| Generation.LineCommands | tests/e2e_tests.py:130-149 | what line lineNo contributes: its templated stripped form, nothing, or the IndexError; CommandsOk, CommandsFail and CommandsError state what this means for the whole catalog |
| Generation.Commands | tests/e2e_tests.py:122-150 | what generate_commands returns; GenerateCommands computes it |
| Generation.GenerateCommands | tests/e2e_tests.py:122-150 | both loops of generate_commands compute Commands: the lines' outcomes joined in file order, stopping at the first IndexError |
| Generation.CommandsOk | tests/e2e_tests.py:128-150 | without an error there are at most as many commands as lines; the j-th command is the templated stripped line idx[j]; idx ascends; a line is in idx iff it passes the number filter, is not a comment, and has no protocol filter or has its second field among the protocols |
| Generation.CommandsFail | tests/e2e_tests.py:135-136 | generation raises iff some considered line lacks its protocol field under a protocol filter |
| Generation.CommandsError | tests/e2e_tests.py:135-136 | the IndexError names the first such line, and no earlier considered line lacks the field |
| Generation.CommandsStopAtError | tests/e2e_tests.py:135-136 | lines after the first failing one do not change the outcome |
| Generation.CommandsSameSelection | tests/e2e_tests.py:128-131 | the number filter sees only which catalog line numbers were listed: duplicates, grouping and numbers beyond the catalog change nothing |
| Generation.NothingSelected | tests/e2e_tests.py:128-131 | a given --line-nums that names none of the catalog's lines yields no command |
| Generation.EmptyGroupSelectsNothing | tests/e2e_tests.py:128-131 | --line-nums that parsed to one empty group (as "5-3" does) yields no command, unlike leaving the option out |
| Generation.NoFilters | tests/e2e_tests.py:140-149 | without filters every non-comment line yields its command |
| Generation.ReadLine | tests/e2e_tests.py:134-136 | a catalog line "w1 ... wn\n" strips to the joined words and splits back into the words |
| Generation.ProtocolFilter | tests/e2e_tests.py:140-149 | under any non-empty protocol filter, a catalog of a comment, a line whose second field is among the protocols and a line whose second field is not yields the second line's command alone |
| Generation.ProtocolFilterExample | tests/e2e_tests.py:140-149 | with protocol smb, a catalog of a comment, an smb line and an ldap line yields the smb command alone |
| Generation.ProtocolFilterCommand | tests/e2e_tests.py:140-166 | with protocol smb, target 10.0.0.1 and no poetry, that catalog yields exactly ["netexec smb 10.0.0.1"] |
| Generation.LineNumsExample | tests/e2e_tests.py:128-139 | --line-nums 1 3-3, whose two arguments parse_line_nums turns into [1] and [3] (Generation.ParsedLineNums), on a three-line catalog whose first line is a comment yields the third line's command alone |
| Generation.ParsedLineNums | tests/e2e_tests.py:112-120 | the arguments "1" and "3-3" of --line-nums parse to the groups [1] and [3] |
| Generation.NumberSet | tests/e2e_tests.py:129 | the flattened number set holds exactly the numbers of some group |
| Generation.Numbered | tests/e2e_tests.py:128-131 | the number filter: no --line-nums, or the 1-based line number is in the flattened set; CommandsOk, CommandsSameSelection, NothingSelected and NoFilters state its effect |
| Generation.IsComment | tests/e2e_tests.py:132-133 | a comment is a raw line whose first character is '#'; CommandsOk shows that a comment yields no command, and NoFilters that without filters every other line does |
| Generation.Fields | tests/e2e_tests.py:134-136 | the fields the protocol filter indexes, split() of the stripped line; ReadLine states them for a catalog line |
| Generation.FailsAt | tests/e2e_tests.py:135-136 | the IndexError condition: a considered line under a protocol filter with fewer than two fields; CommandsFail and CommandsError state that generation raises exactly there, at the first such line |
| Generation.Keeps | tests/e2e_tests.py:128-149 | the selection chain: number filter, not a comment, then no protocol filter or the second field among the protocols; CommandsOk states that exactly these lines yield commands |
| Runner.PrepareQuotes | tests/e2e_tests.py:189-190 | on Linux each double quote becomes a single quote and nothing else changes; otherwise the task is launched as generated |
| Runner.Launch | tests/e2e_tests.py:187-221 | one pass of the loop: the launched command is the prepared task. The lines logged for it are Running, then Passed or Failed with the stripped command, then ErrorDetected when errors are asked for and flagged, then Results when verbose |
| Runner.LaunchedAt | tests/e2e_tests.py:186-190 | the k-th launched command is the k-th generated task, prepared for the platform |
| Runner.RunTasks | tests/e2e_tests.py:169-228 | the run reports exactly Expected: every task launched once in order, the pass and fail counts, the stripped failing commands, and the log of status, per-command lines, failure list and totals |
| Runner.Close | tests/e2e_tests.py:224-228 | after the loop: the failed-commands header and one line per failure when print_failures is set and something failed, then the totals |
| Runner.RunE2ETests | tests/e2e_tests.py:169-171 | an IndexError of generation ends the run before any launch; otherwise the run is that of the generated commands |
| Runner.CountsAddUp | tests/e2e_tests.py:204-210 | every launched command is counted exactly once, as passed or as failed |
| Runner.FailuresCount | tests/e2e_tests.py:207-210 | the failure list is exactly as long as the failed counter is high |
| Runner.FailuresAre | tests/e2e_tests.py:207-210 | there are as many failures as failed launches, in launch order; the j-th is the stripped idx[j]-th command, and a launch is among them iff its exit code is not 0 |
| Runner.RunningFirst | tests/e2e_tests.py:191-192 | a command's Running line is in the log before its outcome and before every later command's lines |
| Runner.NoHeaderInLoop | tests/e2e_tests.py:224-225 | the failed-commands header never appears among the per-command lines |
| Runner.LowerOccurs | tests/e2e_tests.py:215 | searching the lower-cased output finds exactly the case-insensitive occurrences |
| Runner.FlaggedIff | tests/e2e_tests.py:215 | the error heuristic fires iff the output holds "error" or "failure" in any mix of case |
| Runner.ReportShape | tests/e2e_tests.py:182-228 | each task is launched once; passed + failed = the number of tasks; one failure per failed command; the status line comes first and the totals last; the failed-commands header appears iff print_failures is set and something failed |
| Runner.LinuxQuotes | tests/e2e_tests.py:189-190 | on Linux no launched command holds a double quote, and a command without one is unchanged |
| Runner.UpperCaseFlagged | tests/e2e_tests.py:215 | an upper-case ERROR is reported |
| Runner.Prepare | tests/e2e_tests.py:189-190 | the command as launched; PrepareQuotes and LinuxQuotes state what it is |
| Runner.Lower | tests/e2e_tests.py:215 | lower-casing keeps the length and lower-cases each character |
| Runner.Flagged | tests/e2e_tests.py:215 | the error heuristic; FlaggedIff states it in terms of case-insensitive occurrences |
| Runner.TaskLog | tests/e2e_tests.py:192-221 | the console lines of one command; Launch produces them and RunningFirst orders them |
| Runner.Launched | tests/e2e_tests.py:186-190 | the tasks as launched, one per task; LaunchedAt states the k-th is Prepare of the k-th task |
| Runner.FailuresOf | tests/e2e_tests.py:207-210 | the stripped failing commands in launch order; FailuresCount and FailuresAre state their number and which launches they are |
| Runner.LoopLog | tests/e2e_tests.py:186-221 | the console lines of the loop, TaskLog per command in launch order; RunningFirst and NoHeaderInLoop state their order and content |
| Runner.Closing | tests/e2e_tests.py:224-228 | the lines after the loop; Close computes them and ReportShape places them last |
| Runner.Expected | tests/e2e_tests.py:169-228 | the report of a whole run; RunTasks computes it, and CountsAddUp, FailuresAre, ReportShape and NoHeaderInLoop state its properties |
| Wrappers.FlattenStep | tests/e2e_tests.py:130-149 | one more pass of the loop: a success appends its values, a failure decides the outcome |
| Wrappers.FlattenErrSticks | tests/e2e_tests.py:114-120 | once a prefix of the loop has raised, the whole loop raises the same way |
| Wrappers.FlattenOk | tests/e2e_tests.py:114-120 | the loop succeeds iff every step does |
| Wrappers.FlattenMembers | tests/e2e_tests.py:114-120 | an element is in the joined list iff some step contributed it |
| Wrappers.FlattenErr | tests/e2e_tests.py:130-149 | a raising loop raises with the first failing step's error |
| Wrappers.FlattenPicks | tests/e2e_tests.py:130-149 | steps that append at most one element each give the elements of the appending steps, in order |
| Wrappers.FlattenAtMostOne | tests/e2e_tests.py:130-149 | such steps append no more elements than there are steps |
| Builtins.ContainsIff | tests/e2e_tests.py:215 | the substring test `in` holds iff the text occurs at some position |
| Builtins.StripShape | tests/e2e_tests.py:134 | strip() removes a leading and a trailing whitespace run, and nothing else, leaving non-whitespace ends |
| Builtins.Strip | tests/e2e_tests.py:134 | strip(); StripShape, StripUnchanged and StripTrailing state what it removes |
| Builtins.StripTrailing | tests/e2e_tests.py:134 | stripping a line with its newline gives the text before the newline when that text has no whitespace at its ends |
| Builtins.Words | tests/e2e_tests.py:114 | split() gives non-empty fields without whitespace |
| Builtins.WordsOfJoin | tests/e2e_tests.py:136 | splitting words joined by single spaces gives the words back |
| Builtins.WordsAfterSpaces | tests/e2e_tests.py:114 | leading whitespace adds no word |
| Builtins.WordsOfWord | tests/e2e_tests.py:114 | a word followed by a whitespace run is the first field, and the rest of the string gives the other fields |
| Builtins.SplitAt | tests/e2e_tests.py:116 | split(sep) always gives at least one piece |
| Builtins.PiecesFree | tests/e2e_tests.py:116 | no piece of split(sep) contains sep |
| Builtins.FirstPiecePrefix | tests/e2e_tests.py:116 | the first piece of split(sep) is a prefix of the string |
| Builtins.ShortNoContain | tests/e2e_tests.py:115 | a string shorter than t does not contain t |
| Builtins.JoinSplitAt | tests/e2e_tests.py:116 | joining the pieces of split(sep) with sep gives the string back |
| Builtins.SplitAtCount | tests/e2e_tests.py:116 | splitting at a one-character separator gives one more piece than there are occurrences |
| Builtins.ReplaceAll | tests/e2e_tests.py:156-163 | replace leaves a string without the pattern unchanged; with ReplaceAllIsJoinSplit it puts the replacement between the pieces of split(pat), which JoinSplitAt, PiecesFree, CutsLeftmost and SplitAtUnique pin down as the cutting at the leftmost non-overlapping occurrences |
| Builtins.CutsLeftmost | tests/e2e_tests.py:156-163 | every piece of split(sep) but the last ends at the leftmost occurrence of sep after the previous cut: the piece followed by all of sep but its last character holds no sep |
| Builtins.SplitAtUnique | tests/e2e_tests.py:156-163 | split(sep) is the only cutting of s that joins back to s with sep, cuts at leftmost occurrences and leaves no sep in its last piece |
| Builtins.SplitAtCut | tests/e2e_tests.py:116 | a piece ending at a leftmost occurrence of sep is the first piece of the split |
| Builtins.SplitAtFree | tests/e2e_tests.py:116 | a string without sep splits into itself alone |
| Builtins.OverlapLeftmost | tests/e2e_tests.py:157 | where "TARGET_HOST" overlaps itself, as in "TARGET_HOSTARGET_HOST", replacing it by "X" gives "XARGET_HOST": the leftmost occurrence wins |
| Builtins.StartsWith | tests/e2e_tests.py:132 | str.startswith: the first characters of s spell the prefix |
| Builtins.Contains | tests/e2e_tests.py:215 | the substring test `in`, scanning from the left; ContainsIff states it as "occurs at some position" |
| Builtins.ParseInt | tests/e2e_tests.py:117-119 | int() on a string; ParseIntShow and ParseIntEmpty state its behaviour on numerals and on the empty string |
| Builtins.ReplaceAllIsJoinSplit | tests/e2e_tests.py:156-163 | s.replace(p, r) equals r.join(s.split(p)) |
| Builtins.ReplaceChar | tests/e2e_tests.py:190 | replacing one character by another keeps the length and rewrites exactly the positions holding it |
| Builtins.ParseIntShow | tests/e2e_tests.py:117-119 | the model's int() reads back every decimal numeral of an integer; CPython's int() and str() agree with this only up to 4300 digits (see Builtins.ParseInt under Left out) |
| Builtins.ParseIntEmpty | tests/e2e_tests.py:117 | int("") is refused |
| Builtins.Range | tests/e2e_tests.py:117 | range(lo, hi) gives lo, lo + 1, ..., hi - 1, and nothing when lo >= hi |

## Left out

- `get_cli_args` (tests/e2e_tests.py:21-110) is not modelled. `CliArgs.Args` stands for its result. An absent --line-nums or --protocols is the empty sequence, and an absent --dns-server is `None`.
- The discovery of the default user and password list files (tests/e2e_tests.py:7-18) is left out: it reads the file system, and the paths are fields of `Args`. When no file is found, the default is `None`, and `str.replace` raises `TypeError` on it. The model keeps the paths as strings, so that error is not modelled.
- Locating and opening `e2e_commands.txt` (tests/e2e_tests.py:124-127) is file I/O. The catalog is passed in as its lines. Universal-newline translation is not modelled.
- The `netexec --version` probe and each launched process (tests/e2e_tests.py:174-180, 193-202) are processes. Their outputs and exit codes are inputs, indexed by launch order. The "y" fed to stdin is not modelled, and neither is the process that never returns (timeouts).
- `platform.system()` (tests/e2e_tests.py:189) is the boolean `isLinux`.
- UTF-8 decoding of the outputs (tests/e2e_tests.py:213, 221) is left out: outputs are already strings, and a decoding error is not modelled.
- Rich console markup, emoji and the status spinner (tests/e2e_tests.py:182, 192-228) are not modelled. Each console line is one `Runner.Event`. "Error Detected:" together with the output is the single event `ErrorDetected`. The spinner's text is the event `Status`.
- Runner.Lower: only ASCII letters are lower-cased. Unicode case mapping, such as 'İ' growing to two characters, is not modelled.
- Builtins.ParseInt: only ASCII digits are accepted. int() also reads other Unicode decimal digits.
- Builtins.ParseInt: the number of digits is not limited. CPython's int() on a string of more than 4300 digits raises ValueError (the default of sys.set_int_max_str_digits), so parse_line_nums refuses such a token where the model returns its value, and Builtins.ParseIntShow holds in CPython only for numerals of at most 4300 digits.
- `str.replace` with an empty pattern never occurs here: every token of the chain and the quote on Linux is non-empty, so `ReplaceAll` requires a non-empty pattern.
- Templating.FillTemplate: its precondition asks for text and values without the letters T, L, K and {. That is stronger than "no token arises"; text that holds these letters without forming a token is not covered.
- No lemma shows that swapping the chain's order changes a command. `Templating.LaterStepsSeeEarlierValues` shows instead that the order matters.
