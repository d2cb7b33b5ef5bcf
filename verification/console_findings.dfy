/** Two places where the follow loop of `console` (jenkins_cli/cli.py) does
    not do what it evidently means to do, each modelled as written, shown on
    an input, and paired with the corrected loop and its property. */
module ConsoleFindings {
  import opened Results
  import Text
  import Console

  // ---------------------------------------------------------------------
  // 1. `time.sleep(3)` where `time` is the function `time.time`.
  // ---------------------------------------------------------------------

  /** The loop either ends normally or stops with an exception after
      printing some blocks. */
  datatype Outcome =
    | Completed(tail: Console.Tail)
    | Crashed(blocks: seq<seq<string>>, statusFetches: nat, consoleFetches: nat, error: CliError)

  /** The loop as written: the module imports the function `time` from the
      module `time`, so the pause at the end of the first pass through the
      loop body looks up `sleep` on a function and raises. The line count is
      the source's, over `split('\n')` pieces.

      As soon as the first status says "building", it prints at most one
      block and raises before the second status request, where a loop whose
      pause returns (`FollowSplitLines`, or the command's `Console.Follow`)
      goes on polling; up to the crash the two agree. When the build is not
      running at the first status request, the loop body never runs and the
      loops agree. */
  function FollowAsWritten(last: nat, polls: seq<Console.Poll>): (r: Outcome)
    ensures |polls| > 0 && polls[0].building ==>
      r.Crashed? && r.error == SleepUnavailable && r.statusFetches == 1 && r.consoleFetches == 1 &&
      r.blocks == FollowSplitLines(last, polls[..1]).blocks
    ensures |polls| > 1 && polls[0].building ==>
      r.statusFetches < FollowSplitLines(last, polls).statusFetches &&
      r.statusFetches < Console.Follow(last, polls).statusFetches
    ensures |polls| == 0 || !polls[0].building ==>
      r == Completed(FollowSplitLines(last, polls)) && r == Completed(Console.Follow(last, polls))
  {
    if |polls| == 0 then Completed(Console.Tail([], last, 0, 0, false))
    else if !polls[0].building then Completed(Console.Tail([], last, 1, 0, true))
    else
      var lines := Console.Lines(polls[0].console);
      assert polls[..1][1..] == [];
      assert FollowSplitLines(last, polls[..1]).blocks == (if |lines| > last then [lines[last..]] else []) + [];
      Crashed(if |lines| > last then [lines[last..]] else [], 1, 1, SleepUnavailable)
  }

  // ---------------------------------------------------------------------
  // 2. Counting the unfinished last line.
  // ---------------------------------------------------------------------

  /** The first print and the starting count as written: the count is the
      number of `split('\n')` pieces, one more than the command's. */
  function InitialAsWritten(text: string, n: Option<int>): (r: Console.Snapshot)
    ensures r.last == Text.Count(text, '\n') + 1
    ensures r.printed == Console.Initial(text, n).printed
    ensures r.last == Console.Initial(text, n).last + 1
  {
    Console.LineCount(text);
    var lines := Console.Lines(text);
    Console.Snapshot(Console.Limit(lines, n), |lines|)
  }

  /** The source's count, over `split('\n')` pieces, with a pause that
      returns. */
  function FollowSplitLines(last: nat, polls: seq<Console.Poll>): Console.Tail {
    Console.Track(Console.Lines, last, polls)
  }

  /** A growing console whose previous text ended with a newline: the count
      taken from `split('\n')` includes the empty piece after that newline,
      so the next line written replaces a piece that was already counted and
      is never printed. Here `b` is lost. */
  lemma FollowLosesLine()
    ensures "a\n" <= "a\nb\n"
    ensures Console.Lines("a\n") == ["a", ""]
    ensures Console.Lines("a\nb\n") == ["a", "b", ""]
    ensures InitialAsWritten("a\n", None).last == 2
    ensures FollowSplitLines(2, [Console.Poll(true, "a\nb\n"), Console.Poll(false, "")]).blocks == [[""]]
  {
    assert Text.Join(["a", ""], '\n') == "a\n";
    Text.SplitJoin(["a", ""], '\n');
    assert Text.Join(["a", "b", ""], '\n') == "a\nb\n";
    Text.SplitJoin(["a", "b", ""], '\n');
    var polls := [Console.Poll(true, "a\nb\n"), Console.Poll(false, "")];
    assert polls[1..] == [Console.Poll(false, "")];
    var lines := Console.Lines("a\nb\n");
    assert lines[2..] == [""];
  }

  /** On the same input, the command's loop, counting complete lines,
      prints `b`. */
  lemma FollowCompletePrintsLine()
    ensures Console.CompleteLines("a\n") == ["a"]
    ensures Console.Follow(1, [Console.Poll(true, "a\nb\n"), Console.Poll(false, "")]).blocks == [["b"]]
  {
    FollowLosesLine();
    var polls := [Console.Poll(true, "a\nb\n"), Console.Poll(false, "")];
    assert polls[1..] == [Console.Poll(false, "")];
    assert Console.CompleteLines("a\nb\n") == ["a", "b"];
    assert ["a", "b"][1..] == ["b"];
  }
}
