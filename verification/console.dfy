/** The `console` command (jenkins_cli/cli.py): print a build's console
    output, optionally limited to its first or last lines, and in follow mode
    keep polling, printing only the lines that appeared since the previous
    poll, until the server reports that the build stopped.

    The server is replaced by its answers: the initial console text, and a
    finite list of polls, each the answer to one build-status request together
    with the console text fetched after it when the build was still running.
    The three-second pause between polls is a step that does nothing, and the
    loop counts newline-terminated lines; the source as written differs on
    both points (see module `ConsoleFindings`).
 */
module Console {
  import opened Results
  import Text
  import Seqs
  import JobList

  /** `text.split('\n')`. */
  function Lines(text: string): seq<string> {
    Text.Split(text, '\n')
  }

  /** A text with k newlines has k + 1 lines, the last one possibly empty. */
  lemma LineCount(text: string)
    ensures |Lines(text)| == Text.Count(text, '\n') + 1
    ensures Text.Join(Lines(text), '\n') == text
  {
    Text.SplitCount(text, '\n');
    Text.JoinSplit(text, '\n');
  }

  /** Python's normalisation of a slice bound `i` on a sequence of length `len`. */
  function SliceBound(i: int, len: nat): (r: nat)
    ensures r <= len
  {
    if i < 0 then (if len + i < 0 then 0 else len + i)
    else if i > len then len
    else i
  }

  function Min(a: int, b: int): int {
    if a < b then a else b
  }

  /** The `-n` option: `lines[n:]` when `n` is negative, `lines[:n]` when it
      is positive, everything when it is absent or zero. */
  function Limit(lines: seq<string>, n: Option<int>): (r: seq<string>)
    ensures n.None? || n.value == 0 ==> r == lines
    ensures n.Some? && n.value > 0 ==> r == lines[..Min(n.value, |lines|)]
    ensures n.Some? && n.value < 0 ==> r == lines[|lines| - Min(-n.value, |lines|)..]
  {
    if n.None? || n.value == 0 then lines
    else if n.value < 0 then lines[SliceBound(n.value, |lines|)..]
    else lines[..SliceBound(n.value, |lines|)]
  }

  /** The first print: the limited lines, and the line count the follow loop
      starts from. */
  datatype Snapshot = Snapshot(printed: seq<string>, last: nat)

  /** The newline-terminated lines of a text: `split('\n')` without its
      last, unterminated piece (empty when the text ends with a newline). */
  function CompleteLines(text: string): (r: seq<string>)
    ensures |r| == Text.Count(text, '\n')
    ensures r == Lines(text)[..|Lines(text)| - 1]
  {
    LineCount(text);
    var lines := Lines(text);
    lines[..|lines| - 1]
  }

  /** The count is taken BEFORE the limit, over the whole text, whatever `n`
      is; it counts the complete lines only. */
  function Initial(text: string, n: Option<int>): (r: Snapshot)
    ensures r.last == Text.Count(text, '\n')
    // one less than the source's count of `split('\n')` pieces
    ensures r.last + 1 == |Lines(text)|
    ensures r.printed == Limit(Lines(text), n)
  {
    LineCount(text);
    Snapshot(Limit(Lines(text), n), |CompleteLines(text)|)
  }

  /** One build-status answer, and the console text fetched after it. The
      text is fetched only when the build is still running. */
  datatype Poll = Poll(building: bool, console: string)

  /** What the follow loop did: the blocks it printed, the line count it
      ended with, how many status and console requests it made, and whether
      it saw the build stop (rather than running out of polls). */
  datatype Tail = Tail(blocks: seq<seq<string>>, last: nat, statusFetches: nat, consoleFetches: nat, finished: bool)

  /** The follow loop, over any way `view` of reading a console text as
      lines: while the status says "building", fetch the console, and when it
      has more lines than `last`, print the new ones and advance `last`. */
  function Track(view: string -> seq<string>, last: nat, polls: seq<Poll>): (t: Tail)
    ensures t.last >= last
    ensures t.consoleFetches <= |polls|
    ensures forall i :: 0 <= i < t.consoleFetches ==> polls[i].building
    ensures t.finished <==> t.consoleFetches < |polls|
    ensures t.finished ==> !polls[t.consoleFetches].building
    ensures t.statusFetches == if t.finished then t.consoleFetches + 1 else t.consoleFetches
    ensures |t.blocks| <= t.consoleFetches
    ensures forall i :: 0 <= i < |t.blocks| ==> |t.blocks[i]| > 0
    decreases |polls|
  {
    if |polls| == 0 then Tail([], last, 0, 0, false)
    else if !polls[0].building then Tail([], last, 1, 0, true)
    else
      var lines := view(polls[0].console);
      var grew := |lines| > last;
      var block := if grew then [lines[last..]] else [];
      var rest := Track(view, if grew then |lines| else last, polls[1..]);
      Tail(block + rest.blocks, rest.last, rest.statusFetches + 1, rest.consoleFetches + 1, rest.finished)
  }

  /** The loop as the command runs it, counting complete lines. */
  function Follow(last: nat, polls: seq<Poll>): Tail {
    Track(CompleteLines, last, polls)
  }

  /** Every console text fetched before the build stops reads, under
      `view`, as an extension of the previous one. */
  predicate Extends(view: string -> seq<string>, prev: seq<string>, polls: seq<Poll>)
    decreases |polls|
  {
    |polls| == 0 || !polls[0].building ||
    (prev <= view(polls[0].console) && Extends(view, view(polls[0].console), polls[1..]))
  }

  /** The lines of the last console text fetched before the loop ends. */
  function LastView(view: string -> seq<string>, prev: seq<string>, polls: seq<Poll>): seq<string>
    decreases |polls|
  {
    if |polls| == 0 || !polls[0].building then prev
    else LastView(view, view(polls[0].console), polls[1..])
  }

  /** When each fetch extends the previous one, the lines already seen
      followed by every printed block are exactly the last fetched lines:
      nothing printed twice, nothing skipped. */
  lemma {:induction false} TrackReconstructs(view: string -> seq<string>, prev: seq<string>, polls: seq<Poll>)
    requires Extends(view, prev, polls)
    ensures prev + Seqs.Flatten(Track(view, |prev|, polls).blocks) == LastView(view, prev, polls)
    ensures Track(view, |prev|, polls).last == |LastView(view, prev, polls)|
    decreases |polls|
  {
    if |polls| > 0 && polls[0].building {
      var lines := view(polls[0].console);
      TrackReconstructs(view, lines, polls[1..]);
      TrackStep(view, prev, polls);
    }
  }

  /** One poll of an extending console: what was seen plus what is printed
      now is the new text's lines. */
  lemma TrackStep(view: string -> seq<string>, prev: seq<string>, polls: seq<Poll>)
    requires |polls| > 0 && polls[0].building
    requires prev <= view(polls[0].console)
    ensures var lines := view(polls[0].console);
      var t := Track(view, |prev|, polls);
      var rest := Track(view, |lines|, polls[1..]);
      prev + Seqs.Flatten(t.blocks) == lines + Seqs.Flatten(rest.blocks) && t.last == rest.last
  {
    var lines := view(polls[0].console);
    if |lines| > |prev| {
      TrackGrows(view, prev, polls);
    } else {
      TrackSame(view, prev, polls);
    }
  }

  lemma TrackSame(view: string -> seq<string>, prev: seq<string>, polls: seq<Poll>)
    requires |polls| > 0 && polls[0].building
    requires prev <= view(polls[0].console) && |view(polls[0].console)| <= |prev|
    ensures var t := Track(view, |prev|, polls);
      var rest := Track(view, |prev|, polls[1..]);
      view(polls[0].console) == prev && t.blocks == rest.blocks && t.last == rest.last
  {
  }

  lemma TrackGrows(view: string -> seq<string>, prev: seq<string>, polls: seq<Poll>)
    requires |polls| > 0 && polls[0].building
    requires prev <= view(polls[0].console) && |view(polls[0].console)| > |prev|
    ensures var lines := view(polls[0].console);
      var t := Track(view, |prev|, polls);
      var rest := Track(view, |lines|, polls[1..]);
      prev + Seqs.Flatten(t.blocks) == lines + Seqs.Flatten(rest.blocks) && t.last == rest.last
  {
    var lines := view(polls[0].console);
    TrackUnfold(view, prev, polls);
    Glue(prev, lines, Track(view, |lines|, polls[1..]).blocks);
  }

  lemma TrackUnfold(view: string -> seq<string>, prev: seq<string>, polls: seq<Poll>)
    requires |polls| > 0 && polls[0].building
    requires |view(polls[0].console)| > |prev|
    ensures var lines := view(polls[0].console);
      var t := Track(view, |prev|, polls);
      var rest := Track(view, |lines|, polls[1..]);
      t.blocks == [lines[|prev|..]] + rest.blocks && t.last == rest.last
  {
  }

  lemma Glue(prev: seq<string>, lines: seq<string>, rest: seq<seq<string>>)
    requires prev <= lines
    ensures prev + Seqs.Flatten([lines[|prev|..]] + rest) == lines + Seqs.Flatten(rest)
  {
    var block := lines[|prev|..];
    assert ([block] + rest)[0] == block;
    assert ([block] + rest)[1..] == rest;
    assert lines == lines[..|prev|] + block;
  }

  /** The server's console only grows: every text fetched before the build
      stops extends the previous one. */
  predicate TextExtends(prev: string, polls: seq<Poll>)
    decreases |polls|
  {
    |polls| == 0 || !polls[0].building ||
    (prev <= polls[0].console && TextExtends(polls[0].console, polls[1..]))
  }

  /** The last console text fetched before the loop ends. */
  function LastText(prev: string, polls: seq<Poll>): string
    decreases |polls|
  {
    if |polls| == 0 || !polls[0].building then prev
    else LastText(polls[0].console, polls[1..])
  }

  /** The property for the command's own loop: on a console that only
      grows, the complete lines seen first followed by every printed block
      are exactly the complete lines of the last text fetched. */
  lemma FollowReconstructs(initial: string, polls: seq<Poll>)
    ensures TextExtends(initial, polls) ==>
      var t := Follow(|CompleteLines(initial)|, polls);
      CompleteLines(initial) + Seqs.Flatten(t.blocks) == CompleteLines(LastText(initial, polls))
  {
    if TextExtends(initial, polls) {
      ExtendsCompleteLines(initial, polls);
      TrackReconstructs(CompleteLines, CompleteLines(initial), polls);
    }
  }

  lemma {:induction false} ExtendsCompleteLines(prev: string, polls: seq<Poll>)
    requires TextExtends(prev, polls)
    ensures Extends(CompleteLines, CompleteLines(prev), polls)
    ensures LastView(CompleteLines, CompleteLines(prev), polls) == CompleteLines(LastText(prev, polls))
    decreases |polls|
  {
    if |polls| > 0 && polls[0].building {
      CompleteLinesPrefix(prev, polls[0].console);
      ExtendsCompleteLines(polls[0].console, polls[1..]);
    }
  }

  /** A text that extends another keeps its complete lines as a prefix. */
  lemma {:induction false} CompleteLinesPrefix(a: string, b: string)
    requires a <= b
    ensures CompleteLines(a) <= CompleteLines(b)
    decreases |a|
  {
    match Text.IndexOf(a, '\n')
    case None =>
      assert Lines(a) == [a];
    case Some(i) =>
      Text.IndexOfExtended(a, b, '\n');
      assert a[..i] == b[..i];
      assert a[i + 1..] <= b[i + 1..];
      CompleteLinesPrefix(a[i + 1..], b[i + 1..]);
      CompleteLinesCons(a, i);
      CompleteLinesCons(b, i);
  }

  lemma CompleteLinesCons(s: string, i: nat)
    requires Text.IndexOf(s, '\n') == Some(i)
    ensures CompleteLines(s) == [s[..i]] + CompleteLines(s[i + 1..])
  {
    var rest := Lines(s[i + 1..]);
    assert Lines(s) == [s[..i]] + rest;
    assert ([s[..i]] + rest)[..|rest|] == [s[..i]] + rest[..|rest| - 1];
  }

  /** What a whole `console` run printed and requested: `printed[0]` is the
      first print, the rest are the follow loop's blocks. */
  datatype Session = Session(printed: seq<seq<string>>, statusFetches: nat, consoleFetches: nat, finished: bool)

  function Run(text: string, n: Option<int>, follow: bool, polls: seq<Poll>): (s: Session)
    ensures |s.printed| >= 1 && s.printed[0] == Limit(Lines(text), n)
    // without follow: one console fetch, no status request, nothing more printed
    ensures !follow ==> s == Session([Limit(Lines(text), n)], 0, 1, true)
    // with follow: one status request per poll up to and including the first
    // "not building" one, and one console fetch for each "building" one
    ensures follow ==>
      s.consoleFetches >= 1 && s.consoleFetches - 1 <= |polls| &&
      (forall i :: 0 <= i < s.consoleFetches - 1 ==> polls[i].building) &&
      (s.finished <==> s.consoleFetches - 1 < |polls|) &&
      (s.finished ==> !polls[s.consoleFetches - 1].building) &&
      s.statusFetches == (if s.finished then s.consoleFetches else s.consoleFetches - 1)
    // with follow and an append-only console: every finished line, once each
    ensures follow && TextExtends(text, polls) ==>
      CompleteLines(text) + Seqs.Flatten(s.printed[1..]) == CompleteLines(LastText(text, polls))
  {
    var snap := Initial(text, n);
    if !follow then Session([snap.printed], 0, 1, true)
    else
      var t := Follow(snap.last, polls);
      FollowReconstructs(text, polls);
      assert ([snap.printed] + t.blocks)[1..] == t.blocks;
      Session([snap.printed] + t.blocks, t.statusFetches, t.consoleFetches + 1, t.finished)
  }

  /** The command as a whole: the job name must resolve before the job
      information is requested, and the job must have been built at least
      once (`hasLastBuild`) before its console can be fetched. */
  function Command(resolved: Option<string>, hasLastBuild: bool, text: string, n: Option<int>,
                   follow: bool, polls: seq<Poll>): (r: Result<Session>)
    ensures r.Err? <==> !Truthy(resolved) || !hasLastBuild
    ensures r.Err? ==> r.error == (if Truthy(resolved) then NoLastBuild else JobNotFound)
    ensures r.Ok? ==> r.value.consoleFetches >= 1 && |r.value.printed| >= 1 &&
                      r.value.printed[0] == Limit(Lines(text), n)
  {
    match JobList.CheckJob(resolved)
    case Err(e) => Err(e)
    case Ok(_) => if hasLastBuild then Ok(Run(text, n, follow, polls)) else Err(NoLastBuild)
  }
}
