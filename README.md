# log_analyse: a verified model of the log scanner

`log_analyse.py` scans the test-case logs in `./CSR_tests`. It lists the directory with `ls`,
reads every listed file, and classifies a file as failing when its content contains `"ABORT"`.
For each failing file it prints `<name>is ABORT`, writes the name to `log_testCase_abort.log`
and appends the content to the accumulator `logs`. It counts passing (`num`) and failing
(`num_err`) files. At the end it prints either `<num> logs are right` or
`<num_err> error logs, please check it in<path>/logs.log`, and in the second case writes
`logs` to `logs.log`.

The model has two modules:

- `Text` (`text.dfy`) holds the Python string operations the script uses. These are `in` on
  strings, `str.strip()`, `str.split('\n')` and `str(n)`. Each comes with the definition it is
  proved against: an occurrence index, the whitespace on either side, `'\n'.join`, and the
  decimal value of the digits.
- `LogAnalyse` (`log_analyse.dfy`) holds the classification and the scan loop. `Scan` is a
  method whose `for` loop updates the same five accumulators the script updates: `logs`, `num`,
  `num_err`, the abort-list text and the printed notices. The loop invariants tie each
  accumulator to a specification function of the prefix already processed. `Summary` is the
  final branch. `Run` is the whole script, from the `ls` text to the printed lines and the two
  output files.

The directory is given as two inputs: the text Python's `read()` returns for the `ls` pipe, and a
function from a file name to the text `read()` returns for that file. Both are decoded text with
newlines already normalised, as described under "## Left out". Printing and file writes become
values in a `Report`:

- the printed lines, in order;
- the contents of `log_testCase_abort.log`, which is written on every run;
- the contents of `logs.log`, which is an `Option` because the file is written only when
  something failed.

## Model

| member | source | states |
|---|---|---|
| Text.Contains | log_analyse.py:20 | `'ABORT' in content`, searched from left to right, holds exactly when the marker occurs at some index of the content |
| Text.SkipSpaces | log_analyse.py:10 | the left scan of `strip()` stops at the first non-whitespace character, having passed only whitespace |
| Text.SkipSpacesBack | log_analyse.py:10 | the right scan of `strip()` stops after the last non-whitespace character, having passed only whitespace, and never crosses the left scan |
| Text.Strip | log_analyse.py:10 | `strip()` keeps one contiguous slice of the input with only whitespace before and after it; the result is empty exactly when the input is all whitespace, and otherwise neither starts nor ends with whitespace |
| Text.Split | log_analyse.py:10 | `split('\n')` never returns an empty list, and no piece contains a newline |
| Text.JoinSplit | log_analyse.py:10 | splitting loses nothing: `'\n'.join(s.split('\n')) == s` |
| Text.SplitJoin | log_analyse.py:10 | the converse: newline-free pieces joined by newlines split back into the same pieces |
| Text.LinesConcat | log_analyse.py:21-24 | appending `x + "\n"` item by item builds the concatenation of the batches in order |
| Text.LinesEmptyIff | log_analyse.py:21 | text built from `x + "\n"` chunks is empty exactly when there were no chunks |
| Text.SplitLines | log_analyse.py:24 | newline-free names written one per line read back as exactly those names plus a trailing empty piece |
| Text.NatToString | log_analyse.py:31-33 | `str(n)` is a non-empty string of decimal digits with no leading zero |
| Text.NatToStringValue | log_analyse.py:31-33 | `str(n)` denotes `n`: the decimal value of its digits is `n` |
| LogAnalyse.Failing | log_analyse.py:20-28 | an entry fails exactly when `"ABORT"` occurs in its content; content shorter than the marker, empty content included, passes |
| LogAnalyse.Select | log_analyse.py:16-28 | the entries taken for one branch of the `if` are no more than the listing, and each has that branch's classification |
| LogAnalyse.SelectMembers | log_analyse.py:16-28 | an entry is among the failing (or passing) entries exactly when it is in the listing and has that classification |
| LogAnalyse.SelectConcat | log_analyse.py:16-28 | classification keeps listing order: selecting from two parts in sequence is selecting from each part in turn |
| LogAnalyse.Partition | log_analyse.py:16-28 | failing and passing entries together are the listing as a multiset, so `num + num_err` equals the number of entries |
| LogAnalyse.NoticeNamesOneFile | log_analyse.py:23 | a printed notice `<name>is ABORT` names exactly one file: two different names never give the same notice |
| LogAnalyse.Logs | log_analyse.py:21 | `logs` is empty exactly when `num_err` is zero, since every failing entry appends a chunk ending in a newline |
| LogAnalyse.AbortList | log_analyse.py:24 | the abort-list text is empty exactly when nothing failed |
| LogAnalyse.AbortListSplit | log_analyse.py:24 | when no listed name holds a newline, the abort-list text reads back, line by line, as exactly the failing names in listing order |
| LogAnalyse.OutputsConcat | log_analyse.py:16-28 | `logs`, the abort list, the notices and both counters for a listing are those of its first part followed by those of the rest |
| LogAnalyse.OutputsOfOne | log_analyse.py:20-28 | a failing entry adds `content + "\n"` to `logs`, `name + "\n"` to the abort list, one notice and one to `num_err`; a passing entry adds one to `num` and nothing else |
| LogAnalyse.TwoLogsExample | log_analyse.py:16-35 | with `a.log` holding "ok" and `b.log` holding "something ABORT here", only `b.log` fails; `logs` and the abort list hold its content and its name, and the summary reads `1 error logs, please check it in<path>/logs.log` |
| LogAnalyse.OneFailureSummary | log_analyse.py:32-33 | with `logs` non-empty and one failure, `str(num_err)` is `"1"` and the summary is the failure message for that count |
| LogAnalyse.ScanStep | log_analyse.py:20-28 | one more entry extends `logs`, the abort list, the notices and the right counter by exactly what its branch of the `if` adds, and leaves the rest unchanged |
| LogAnalyse.Scan | log_analyse.py:15-28 | the loop leaves each accumulator equal to its specification over the whole listing, with `num + num_err` equal to the number of entries and `logs` empty exactly when `num_err` is zero |
| LogAnalyse.Summary | log_analyse.py:30-35 | the message opens with the count it reports, in decimal and followed by a space: `num` when `logs` is empty, `num_err` otherwise; `logs.log` is written, with `logs`, exactly when `logs` is non-empty, and the message then ends with `<path>/logs.log` |
| LogAnalyse.SummaryDecision | log_analyse.py:30-35 | the branch prints `str(num) + " logs are right"`, with `num` the number of entries, exactly when nothing failed; otherwise it prints the failure count and the path without a separating space, and writes `logs` to `logs.log` |
| LogAnalyse.Listing | log_analyse.py:10 | the parsed listing is never empty, its names contain no newline, and joined with newlines it is the stripped `ls` output; an all-whitespace listing gives `[""]` |
| LogAnalyse.ReadAll | log_analyse.py:16-19 | one entry per listed name, in listing order, each holding what reading that name gives |
| LogAnalyse.Run | log_analyse.py:10-35 | one run prints one notice per failing entry in order and then one summary line; the abort-list file is always written and holds exactly the failing names, one per line; `logs.log` is written exactly when something failed and then holds `logs` |

## Left out

- Running `ls` through `os.popen` is a foreign process call. Its output is an input string, in whatever order `ls` gives; no sorting is assumed.
- Opening and reading files is an input function from name to content. Printing and the two file writes are values in the result.
- Text-mode reading is not modelled. `os.popen(...).read()` (log_analyse.py:10) and `file.read()` (log_analyse.py:19) use universal newlines, so `\r\n` and a lone `\r` become `\n` before the script sees the text. The model's inputs are that normalised text, not the bytes `ls` and the files hold. For example, a file named `a\rb` is listed as the two names `a` and `b`, and the model sees it the same way only because its listing input is already normalised.
- I/O errors are not modelled. A listed name that cannot be opened makes the script crash partway through. This includes the name `""` that an empty directory yields, which opens the directory itself. The model reads every name successfully.
- Entries are taken purely as given. The script can list its own earlier `log_testCase_abort.log` and `logs.log` as entries, and what it then reads from the file it is writing depends on buffering. That is not modelled.
- Python's `str` indexes code points. The model's `string` is a sequence of Unicode scalar values, which is the same thing for text decoded from the listing and the files.
- The commented-out branch for empty content and the unused imports `sys`, `random` and `time` are dead code and are not modelled.
- The model is a function of its inputs: the same listing and contents give the same outputs. The script itself is not idempotent across runs. It writes its outputs into the directory it lists (log_analyse.py:15, 34), so a second run lists `log_testCase_abort.log` and `logs.log` as entries. After a failure, `logs.log` contains "ABORT", is itself classified as failing, and `logs.log` grows with every run. The model does not state anything about repeated runs.
- The script is read as Python 3 code: `str.strip()` removes the Unicode whitespace that `str.isspace()` recognises, and strings are sequences of code points. Under Python 2, which the `#!/bin/python` line may select, `read()` gives byte strings and `strip()` removes only ASCII whitespace; that reading is not modelled.
