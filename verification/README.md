# jenkins-cli: a Dafny model of the command-line client's core

`jenkins-cli` is a small command-line client for a Jenkins server. This
project models the logic the client runs around its server calls, and proves
properties of that logic:

- the status table and how a job colour token (`blue`, `red_anime`,
  `disabled`, …) is classified;
- job selection (`_get_jobs`) and the row-by-row `jobs` listing;
- how the settings file `.jenkins-cli` is located and parsed;
- the credential cascade of `auth`;
- the job-name check shared by every per-job command;
- `console`: the first/last-lines slice and the follow loop that prints only
  new lines;
- `building`: which jobs are running, and the estimated time left of each;
- the guard in `stop`;
- the table that maps an SCM class to the element holding its branch, and the
  branch rewrite of `set_branch`.

The server, the file system and the clock are inputs. The job list, the job
information and the console texts are values. The sequence of answers to the
follow loop's status requests is a finite list. Every exception the client
raises is a `CliError` carried by a `Result`.

Modules: `Results` (Option, Result, the errors, Python truthiness), `Text`
(Python's `split`, `split(sep, 1)`, `strip`, and the `in` substring test),
`Seqs` (filter and flatten), `Status`, `JobList`, `Settings`, `Auth`,
`Console`, `ConsoleFindings`, `Monitor` and `Scm`.

## Model

| member | source | states |
|---|---|---|
| Status.Classify | jenkins_cli/cli.py:87-91 | A token is in progress exactly when it is a `_`-free colour followed by exactly `_anime`. A colour outside the table is an error that names that colour. |
| Status.ClassifyByColour | jenkins_cli/cli.py:9-19 | The result depends only on the text before the first `_`. It succeeds exactly when that colour is one of the five keys, and then gives that key's status. Otherwise it is an unknown-colour error naming the colour. |
| Status.GreenIsUnknown | jenkins_cli/cli.py:21 | `green` is commented out of the table, so a `green` token is an unknown colour rather than a success. |
| Status.ThreePiecesNotRunning | jenkins_cli/cli.py:89 | The run status is read only when the split has exactly two pieces, so `colour_anime_x` is never in progress. |
| Status.AnimeSplit | jenkins_cli/cli.py:87-89 | Splitting on `_` gives two pieces with `anime` second exactly when the token ends in `_anime` after a `_`-free colour. |
| JobList.CheckJob | jenkins_cli/cli.py:108-112 | It succeeds exactly when the server resolves the name to a non-empty name, and returns that name. Otherwise it fails with "job not found". |
| JobList.GetJobs | jenkins_cli/cli.py:93-98 | Without `-a` the list is unchanged. With `-a`, the jobs kept are exactly those whose colour is not exactly `disabled`, and each kept job keeps its multiplicity. |
| JobList.GetJobsOrder | jenkins_cli/cli.py:96-97 | Selection distributes over concatenation, so the server's order is kept (nothing is re-sorted). |
| JobList.PrintRows | jenkins_cli/cli.py:86-91 | Row i carries job i's name and classification. The listing stops at the first job whose colour is missing or unknown, reporting that job's error, and only there. |
| JobList.ListJobs | jenkins_cli/cli.py:84-91 | `jobs` prints every selected job exactly when every selected job can be classified. |
| JobList.BuildingJobs | jenkins_cli/cli.py:203-205 | The selection succeeds exactly when every non-disabled job has a colour. The jobs it keeps are exactly those whose colour contains `anime`. |
| JobList.DisabledNotAnimated | jenkins_cli/cli.py:204-205 | `disabled` does not contain `anime`. |
| JobList.BuildingIgnoresFlag | jenkins_cli/cli.py:204-205 | Forcing `-a` removes nothing: the selection is the `anime` filter of the server's list, in the server's order. |
| Settings.Entry | jenkins_cli/cli.py:75-77 | A line yields an entry exactly when it contains `=`. The key and the value are both stripped of whitespace. |
| Settings.ValueMayHoldEquals | jenkins_cli/cli.py:76-77 | The line splits at its first `=`, so the value keeps any later `=`. |
| Settings.ParseLinesSpec | jenkins_cli/cli.py:73-78 | The keys of the dictionary are exactly those some line defines. Each key maps to the value of the last line that defines it. |
| Settings.AssignKey | jenkins_cli/cli.py:74-77 | Per key, the dictionary built by successive assignments holds the value of the last assignment to that key, and holds no key that was never assigned. |
| Settings.LineWithoutEquals | jenkins_cli/cli.py:75 | A line without `=` leaves the dictionary unchanged. |
| Settings.LastWins | jenkins_cli/cli.py:77 | A later line for a key overrides every earlier one. |
| Settings.ReadSettings | jenkins_cli/cli.py:58-78 | The current directory's file is used if it exists, else the home directory's. With neither, the settings are empty. A file that exists but cannot be read is an error. |
| Auth.Resolve | jenkins_cli/cli.py:46-56 | With all three values given, the file is never read. When the file is read, a read failure surfaces. A non-empty explicit host wins over the file. Without one, resolution succeeds exactly when the file has `host`. The user name and password fall back to the file, then to nothing. |
| Console.Limit | jenkins_cli/cli.py:188-189 | With `-n` absent or zero, every line is kept. With n > 0, the first min(n, len) lines are kept; with n < 0, the last min(-n, len). |
| Console.LineCount | jenkins_cli/cli.py:186-187 | The line count is the number of newlines plus one, and joining the lines with newlines gives back the text. |
| Console.Initial | jenkins_cli/cli.py:185-190 | The first print is the limited lines. The follow loop starts from the count of the whole text, taken before the limit and whatever `-n` is. It counts complete lines, which is the number of newlines, one less than the source's number of `split('\n')` pieces (see Findings). |
| Console.CompleteLines | jenkins_cli/cli.py:186-187 | A text has as many complete lines as newlines. They are its `split('\n')` pieces without the last, unterminated one. |
| Console.Track | jenkins_cli/cli.py:191-201 | The line count never decreases. Every console fetch follows a "building" status. The loop finishes exactly at the first "not building" status, with one status request more than console fetches. It prints at most one block per fetch, and no block is empty. |
| Console.TrackReconstructs | jenkins_cli/cli.py:194-199 | For any way of reading a text as lines: when each fetch's lines extend the previous fetch's, the lines seen so far plus every printed block are exactly the last fetched lines, and the count ends at their number. |
| Console.FollowReconstructs | jenkins_cli/cli.py:185-201 | On a console that only grows, the complete lines of the initial text followed by every block the loop prints are exactly the complete lines of the last text fetched. No block repeats a line already counted, and no finished line after the initial text is skipped. |
| Console.CompleteLinesPrefix | jenkins_cli/cli.py:194-196 | A text that extends another keeps that text's complete lines as a prefix. |
| Console.Run | jenkins_cli/cli.py:185-201 | Without `-i` there is one console fetch and one print. With `-i`, there is one status request per poll up to and including the first "not building" one, and one console fetch per "building" one. On a console that only grows, the blocks after the first print complete the last text's finished lines. |
| Console.Command | jenkins_cli/cli.py:180-190 | The console is fetched only after the job name resolves and the job has a last build. The first print is the limited lines. |
| ConsoleFindings.FollowAsWritten | jenkins_cli/cli.py:191-201 | As written, once the first status says "building", the loop prints at most one block and raises at `time.sleep` before the second status request, where a loop whose pause returns goes on polling. Up to the crash the two agree, and when the build is not running at the first status request they agree entirely. |
| ConsoleFindings.InitialAsWritten | jenkins_cli/cli.py:185-190 | As written, the first print is the same, and the starting count is the number of `split('\n')` pieces: the newline count plus one, one more than the command's. |
| ConsoleFindings.FollowLosesLine | jenkins_cli/cli.py:195-199 | With the source's count of `split('\n')` pieces, going from `a\n` (count 2, as `ConsoleFindings.InitialAsWritten` gives it) to `a\nb\n` prints only the empty trailing piece, never `b`. |
| ConsoleFindings.FollowCompletePrintsLine | jenkins_cli/cli.py:195-199 | On the same input, the command's loop, which counts complete lines, prints `b`. |
| Monitor.RemainingMs | jenkins_cli/cli.py:214 | The time left plus now equals the start plus the estimated duration. It is negative exactly when the build is overdue. |
| Monitor.EstimateRow | jenkins_cli/cli.py:208-216 | The estimate is unknown exactly when the build number is absent or zero, and then the job name is shown. Otherwise the build's display name and the time left are shown. |
| Monitor.Rows | jenkins_cli/cli.py:207-217 | There is one row per running job, in order, each that job's estimate. Printing stops at the first job without a last build, and only there. |
| Monitor.BuildingReport | jenkins_cli/cli.py:203-219 | It fails exactly when the selection fails. It reports "nothing building" exactly when no coloured job contains `anime`. Every running job gets its row exactly when every running job has a last build. |
| Monitor.BuildingScenario | jenkins_cli/cli.py:204-205 | Of a `blue` job and a `red_anime` job, only the second is reported as building. |
| Monitor.StopDecision | jenkins_cli/cli.py:173-178 | A stop is requested exactly when the build number is present and non-zero and the build is running, and it targets that number. |
| Monitor.StopCommand | jenkins_cli/cli.py:170-178 | It fails exactly when the name does not resolve or the job has no last build. Otherwise it stops exactly under the guard above. |
| Scm.FindIndex | jenkins_cli/cli.py:118 | The position found is that of the first child with the tag, and there is none exactly when no child has it. |
| Scm.ScmNameAndNode | jenkins_cli/cli.py:114-127 | An `<scm>` without `class` is an error. A known kind is the one its `class` names, with the element at the end of that kind's path (`revision`, or `branches/BranchSpec/name`) or none when the path is incomplete. Any other case is the unknown kind with no element. |
| Scm.FindAlongTag | jenkins_cli/cli.py:121-124 | What a chain of `find` calls returns carries the last tag of the chain. |
| Scm.SetBranch | jenkins_cli/cli.py:151-162 | It fails exactly when the lookup fails. It refuses ("Can't set branch name") exactly when there is no branch element. |
| Scm.SetAlong | jenkins_cli/cli.py:157 | Every element along the path keeps its tag and attributes. Every element above the target keeps its text and every child off the path. |
| Scm.SetBranchRoundTrip | jenkins_cli/cli.py:155-158 | Reading the rewritten configuration gives the same kind and the same branch element, now holding the new branch name. |
| Scm.SetBranchRestores | jenkins_cli/cli.py:155-158 | Writing the old branch text back into the rewritten configuration gives back the original exactly: nothing but the branch text changed. |
| Scm.SetAlongRestores | jenkins_cli/cli.py:157 | Putting the old text back at the end of a complete path undoes the rewrite, so the rewrite changes only that element's text. |
| Scm.SetAlongFinds | jenkins_cli/cli.py:157 | Setting the text at the end of a path and reading along that path again finds the same element with the new text. |
| Scm.SetAlongMissing | jenkins_cli/cli.py:124-126 | An incomplete path leaves the configuration unchanged. |

## Left out

- Every server call (`get_jobs`, `get_job_info`, `get_build_info`, `get_build_console_output`, `get_job_name`, `stop_build`, `reconfig_job`): these are foreign code, and their answers are parameters.
- Opening and reading the settings file, `os.getcwd` and `os.path.expanduser`: the two candidate files are parameters (absent, unreadable, or their text).
- XML parsing and serialisation (`ElementTree.fromstring`, `tostring`): the configuration is an already parsed element tree.
- Monitor.RemainingMs: the time left is exact integer milliseconds. Under Python 3 the source divides by 1000 as a float and wraps the result in a `timedelta`; floating point is not modelled. Under Python 2, `/` on integers floors instead, and that variant is not modelled either.
- Python version: the model follows Python 3 semantics. `Text.Strip` strips Python 3's Unicode whitespace set; under Python 2 the file text is a byte string and `strip()` removes ASCII whitespace only.
- Console.Initial: the starting count is the newline count, not the source's newline count plus one. This corrects the lost line (see Findings). The source's count is `ConsoleFindings.InitialAsWritten`.
- Monitor.BuildingReport: one clock reading `now` serves every row, whereas the source reads the clock once per job.
- Printing: ANSI escape sequences, `print` formatting, the `INFO_TEMPLATE` text, and `print(info['lastBuild'])` in `console`. `Status.Symbol`, `Status.ColourCode` and `Status.AnimeSymbol` keep the table's glyphs and codes.
- The `argparse` front end, the `getattr` dispatch of `run_command`, and the socket timeout passed to the server client.
- The `queue`, `info` and `start` commands: they only print server answers or pass names through `_check_job`. The `info` branch lookup is `Scm.ScmNameAndNode`.
- Console.Run: the follow loop sees a finite list of status answers. A build that never stops is a list that runs out (`finished` is false), not an endless loop.
- Console.Run: the pause between polls is a step that does nothing, and the loop counts complete lines. Both differ from the source as written (see Findings).
- Console.Command: the build number used for the console request is not modelled. Only whether the job has a last build matters here.
- Monitor.EstimateRow: the job information and build details come from total functions, so a server answer missing `timestamp`, `estimatedDuration` or `fullDisplayName` (a KeyError in the source) is not modelled.

## Findings

| source | as written | input that shows it | evidently intended | confidence | as-written member | corrected member |
|---|---|---|---|---|---|---|
| jenkins_cli/cli.py:3 | `from time import time` binds `time` to the clock function, so `time.sleep(3)` on line 200 raises AttributeError | `console -i` on a job whose build is running at the first status request | pause three seconds and poll again until the build stops | high; not executed | ConsoleFindings.FollowAsWritten | Console.Track |
| jenkins_cli/cli.py:196-199 | the line count comes from `split('\n')`, which counts the empty piece after a final newline, and later output replaces that piece without being printed | the console grows from `a\n` to `a\nb\n`: `b` is never printed, only an empty line | print each new line once | high; not executed | ConsoleFindings.FollowLosesLine | Console.FollowReconstructs |

For the first finding, `ConsoleFindings.FollowAsWritten` is the loop as
written. `Console.Track` is the loop with a pause that returns, and
`Console.Run` uses it. For the second finding, `ConsoleFindings.FollowSplitLines`
keeps the source's count of `split('\n')` pieces. `Console.Follow`, which
`Console.Run` uses, counts and prints complete lines only. An unfinished
last line in the first print is therefore printed again, whole, once it
ends with a newline. Any later unfinished line is printed only once it is
finished.
