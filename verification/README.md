# Ping-log parser and RTT axis

A Dafny model of the data path of `plot_ping.py`. This script reads the
text output of `ping` and plots round-trip time (RTT) against elapsed time.

- `parse_ping` reads the log line by line and passes over every line
  without the substring "bytes from". From each reply line it reads the
  RTT. To do that it splits the line at single spaces, takes the
  second-to-last field, splits that field at `=`, and converts piece `[1]`
  with `float()`. The first reply line on which any of this raises ends
  the scan. The result is the list of `[num, rtt]` pairs gathered so far,
  where `num` counts the accepted replies from 0.
- `plot_ping_rtt` turns the index column into an x-axis. It subtracts the
  first index and divides by `freq`, a display divisor rather than a
  measured rate. The RTT column becomes the y-axis.

The modules are:

- `Wrappers`: `Option` and `Result`.
- `Text`: the two operations on Python `str` that the parser calls, and
  reference definitions used to state what one of them returns.
  - `in` (`Contains`, line 12)
  - `split` with a one-character separator (`Split`, lines 15-16)
  - `Join`, `FindFirst` and `FindLast` are not called by the script. `Join`
    is the inverse of `Split`. `FindFirst` and `FindLast` locate characters
    for the positional description of what `split` returns.
- `PingLog`: the parser. `Scan` is the loop over the lines. `ParsePing` is
  the function. `ParsePingLoop` is the loop as written, with `continue`
  and `break`.
- `PingLogLemmas`: what the parser promises its callers.
  - `Scan…` lemmas hold for any per-line reader.
  - `Parse…` lemmas are about `parse_ping` itself.
- `Extraction`: the RTT text described by character positions, independent
  of `split`, and what the parser reads from typical reply lines.
- `ExampleLog`: a whole `ping` run, from banner to statistics, parsed end to
  end. It is stated once for any banner, statistics lines and reply prefixes,
  and once for one literal five-line log.
- `RttPlot`: the time axis and the plotted points.

`float()` is a parameter `toFloat: string -> Option<R>`. `R` is left
abstract, and `None` stands for the `ValueError` it raises. Every statement
about the parser therefore holds for any conversion function.

The model keeps these details of the code:

- The line is split at single spaces, not at runs of whitespace. Two spaces
  in a row produce an empty field.
- The value taken is piece `[1]` of `split('=')`. That is the text between
  the first and the second `=`, not everything after the first `=`.
- A line without "bytes from" never ends the scan, wherever it stands. Only
  a reply line that fails extraction does.
- An empty series makes `xaxis[0]` raise `IndexError`, and `freq == 0`
  raises `ZeroDivisionError`. The model reports these as
  `Failure(EmptySeries)` and `Failure(ZeroFrequency)`.
- A duplicate reply ("... time=0.040 ms (DUP!)") has `ms` as its
  second-to-last field, so it ends the scan.

## Model

| member | source | states |
|---|---|---|
| PingLog.ParsePing | plot_ping.py:7-22 | the result has no more samples than the log has reply lines, and sample i carries index i (indices are contiguous from 0) |
| PingLog.ParsePingLoop | plot_ping.py:7-22 | the loop with `continue` on non-replies and `break` on the first failure computes exactly `ParsePing`, with indices 0, 1, 2, … |
| PingLog.ScanNumbering | plot_ping.py:11-21 | scanning from a running count `next`, sample i carries index `next + i`, and there are at most as many samples as reply lines |
| PingLog.Replies | plot_ping.py:11-13 | the lines that pass the `'bytes from' in line` test are all replies and no more numerous than the lines (that every reply is kept, in order, is stated by `RepliesOfOne`, `RepliesAppend` and `RepliesMembers`) |
| PingLog.RepliesOfOne | plot_ping.py:11-13 | a single line is kept exactly when it contains "bytes from" |
| PingLog.RepliesAppend | plot_ping.py:11-13 | the reply lines of a concatenation are those of the first part followed by those of the second, so every reply is kept in its order |
| PingLog.RepliesMembers | plot_ping.py:11-13 | a line is among the replies exactly when it is a line of the log and contains "bytes from" |
| PingLog.RttText | plot_ping.py:15-16 | the text handed to `float()` contains neither a space nor an `=`; None where the indexing raises |
| Text.Count | plot_ping.py:15-16 | the number of separators is zero exactly when the separator is absent, and at most the length |
| Text.Contains | plot_ping.py:12 | `sub in s` holds exactly when some window of `s` equals `sub` |
| Text.Split | plot_ping.py:15-16 | `split(sep)` always gives at least one piece, and no piece contains the separator |
| Text.SplitCount | plot_ping.py:15-16 | `split(sep)` gives exactly one more piece than there are separators |
| Text.FindFirst | plot_ping.py:16 | `find`: the character at the returned position is the one sought and it does not occur before; None exactly when absent; used by the positional description of line 16 |
| Text.FindLast | plot_ping.py:15 | `rfind`: the character at the returned position is the one sought and it does not occur after; None exactly when absent; used by the positional description of line 15 |
| Text.JoinSplit | plot_ping.py:15-16 | joining the pieces of a split with the same separator gives back the original string |
| Text.SplitJoin | plot_ping.py:15-16 | splitting a join of separator-free pieces gives back the pieces |
| Text.SplitNoSep | plot_ping.py:15-16 | a string without the separator splits into itself alone |
| Text.SplitConcat | plot_ping.py:15-16 | a separator between two strings splits them independently |
| Text.SplitAtFirst | plot_ping.py:16 | piece `[0]` of a split is everything before the first separator, and the rest is the split of what follows |
| Text.SplitAtLast | plot_ping.py:15 | piece `[-1]` of a split is everything after the last separator, and the rest is the split of what precedes |
| Text.SplitKeepsAbsent | plot_ping.py:15-16 | a character absent from the string is absent from every piece of its split |
| PingLogLemmas.ScanIsSuccessfulPrefix | plot_ping.py:11-21 | sample i is the value read from the i-th reply, and the reply right after the last sample (if any) is one the reader rejects |
| PingLogLemmas.ScanLength | plot_ping.py:11-21 | the scan consumes every reply exactly when no reply line is rejected |
| PingLogLemmas.ScanAppend | plot_ping.py:11-21 | scanning a concatenation gives the first part's samples alone if the first part stops, and otherwise those followed by the second part's samples, renumbered from where the first ended |
| PingLogLemmas.ScanAppendStopped | plot_ping.py:14-21 | once a rejected reply occurs in the first part, appending lines changes nothing |
| PingLogLemmas.ScanAppendRuns | plot_ping.py:11-21 | if the first part has no rejected reply, the second part's samples follow, numbered on from where the first part ended |
| PingLogLemmas.ScanSkipsNonReply | plot_ping.py:12-13 | inserting a non-reply line anywhere leaves the scan unchanged |
| PingLogLemmas.ScanOfRepliesOnly | plot_ping.py:12-13 | scanning only the reply lines gives the same samples as scanning the whole log |
| PingLogLemmas.ScanTruncatesAtFailure | plot_ping.py:14-21 | a rejected reply line cuts the scan: nothing after it contributes |
| PingLogLemmas.ParseIsSuccessfulPrefix | plot_ping.py:11-21 | sample i of `parse_ping` has index i and the RTT extracted from the i-th reply line, and the next reply line (if any) fails extraction |
| PingLogLemmas.ParseLength | plot_ping.py:11-21 | `parse_ping` yields at most one sample per reply, and exactly one per reply if and only if every reply line extracts |
| PingLogLemmas.ParsePrefix | plot_ping.py:11-22 | the parse of a log is a prefix of the parse of any extension of it, and equal to it once a reply in the log has failed |
| PingLogLemmas.ParseSkipsNonReply | plot_ping.py:12-13 | removing a non-reply line anywhere leaves the parse unchanged |
| PingLogLemmas.ParseOfRepliesOnly | plot_ping.py:12-13 | parsing only the reply lines gives the same samples |
| PingLogLemmas.ParseTruncatesAtFailure | plot_ping.py:14-21 | a reply line that fails extraction ends the parse; later lines, even valid replies, are ignored |
| Extraction.SecondToLastField | plot_ping.py:15 | `split(' ')[-2]` exists exactly when the line has a space, and is then the text between the last two spaces (or before the only one) |
| Extraction.SecondPiece | plot_ping.py:16 | `split('=')[1]` exists exactly when the token has an `=`, and is then the text after the first `=` up to the next one |
| Extraction.RttTextMatchesPositions | plot_ping.py:15-16 | the split-based extraction equals the independent positional description of the RTT text |
| Extraction.ReplyHasSpace | plot_ping.py:12 | every line that contains "bytes from" contains a space |
| Extraction.ReplyFailsOnlyWithoutEquals | plot_ping.py:12-16 | a reply line always has at least two space-separated fields, and the text extraction fails exactly when the second-to-last field has no `=` |
| Extraction.ExtractRttByPosition | plot_ping.py:15-17 | any line yields a value exactly when the positional RTT text exists and `float()` accepts it, and the value is what `float()` returns for it |
| Extraction.SecondToLastOfLineEnd | plot_ping.py:15 | for a line ending in " token last", with no spaces inside the two, the second-to-last field is `token` |
| Extraction.RttTextOfKeyValue | plot_ping.py:15-16 | a line ending in " key=value last" yields exactly `value` |
| Extraction.RttTextWithoutEquals | plot_ping.py:15-16 | a line whose second-to-last field has no `=` yields nothing |
| Extraction.TimeFieldIsRead | plot_ping.py:15-16 | whatever precedes it, a line ending in " time=10.0 ms\n"-shaped text yields the value after `time=` |
| Extraction.DuplicateReplyStopsScan | plot_ping.py:14-21 | a duplicate reply ending in "time=0.040 ms (DUP!)" fails extraction, whatever precedes it |
| ExampleLog.ReplyExtended | plot_ping.py:12 | a line that contains the marker still contains it with text appended |
| ExampleLog.ParseTwoReplies | plot_ping.py:11-22 | two well-formed reply lines parse to samples 0 and 1 with their two values |
| ExampleLog.ParseSkipsFraming | plot_ping.py:11-22 | a banner before, and two marker-free statistics lines after, the replies do not change the parse |
| ExampleLog.WithoutFNoReply | plot_ping.py:12 | a line without the letter `f` cannot contain "bytes from" |
| ExampleLog.MarkerBetween | plot_ping.py:12 | a line with "bytes from" anywhere in it is a reply |
| ExampleLog.BannerIsNotReply | plot_ping.py:12-13 | the banner "PING example (1.2.3.4): 56 data bytes" is skipped as a non-reply |
| ExampleLog.SummaryIsNotReply | plot_ping.py:12-13 | the statistics header "--- 1.2.3.4 ping statistics ---" is skipped as a non-reply |
| ExampleLog.TotalsIsNotReply | plot_ping.py:12-13 | the line "2 packets transmitted, 2 packets received, 0.0% packet loss" is skipped as a non-reply |
| ExampleLog.ReplyHeadsAreReplies | plot_ping.py:12 | "64 bytes from 1.2.3.4: icmp_seq=0 ttl=64" and its `icmp_seq=1` twin are reply lines |
| ExampleLog.ParseLiteralRun | plot_ping.py:7-22 | the literal log of banner, replies "… time=10.0 ms" and "… time=20.0 ms", and two statistics lines parses to `[(0, 10.0), (1, 20.0)]` |
| ExampleLog.ParsePingRun | plot_ping.py:7-22 | a banner, replies reading "time=10.0 ms" and "time=20.0 ms", and two statistics lines parse to `[(0, 10.0), (1, 20.0)]` |
| RttPlot.TimeAxis | plot_ping.py:29-33 | the axis fails on an empty series or a zero divisor and only then; otherwise it has the input's length, starts at 0, and multiplying back by `freq` and adding the start recovers each x |
| RttPlot.PlotPoints | plot_ping.py:28-35 | the plot fails exactly when the parse is empty or `freq` is 0; otherwise point i is at time `i / freq` with the RTT of sample i |
| RttPlot.TimeAxisKeepsOrder | plot_ping.py:31-33 | with a positive divisor, increasing x values stay strictly increasing |
| RttPlot.TimeAxisExample | plot_ping.py:31-33 | indices 0 and 20 with `freq = 10` are drawn at 0.0 and 2.0 |

## Left out

- Reading the file (plot_ping.py:9): the model takes the list of lines that `readlines()` returns, each with its newline.
- `float()` (plot_ping.py:17) is the abstract parameter `toFloat`. The model does not fix which strings Python accepts or the values it returns for them.
- The bare `except` (plot_ping.py:20) catches any exception. The model collapses every raised exception into `None`, without recording which one.
- `helper.col` is not part of this model. It is taken to be the plain column projection (`IndexColumn`, `RttColumn`).
- RttPlot.TimeAxis: uses exact real arithmetic, not IEEE double rounding. The index-to-float conversion of line 30 is taken to be exact.
- The figure, axes, tick locator, labels, grid and title (plot_ping.py:25-26, 37-45) are matplotlib calls, with no data logic to model.
- The default `freq=10` (plot_ping.py:24) is not a separate member. `freq` is always an argument.
