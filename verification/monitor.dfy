/** The `building` and `stop` commands (jenkins_cli/cli.py): the remaining
    time of every running job, and the guard that decides whether a stop
    request is sent. The server's answers are inputs: `lastBuild` stands for
    the `lastBuild` part of `get_job_info`, `buildInfo` for `get_build_info`,
    and `now` for the clock, all in milliseconds. */
module Monitor {
  import opened Results
  import Text
  import Seqs
  import JobList

  /** The last build of a job as the job information reports it. */
  datatype LastBuild = LastBuild(number: Option<int>, building: bool)

  /** The details of one build. */
  datatype BuildInfo = BuildInfo(timestamp: int, estimatedDuration: int, fullDisplayName: string)

  /** Time left until the build reaches its estimated duration. It is not
      clamped: an overdue build has a negative remaining time. */
  function RemainingMs(b: BuildInfo, now: int): (r: int)
    ensures now + r == b.timestamp + b.estimatedDuration
    ensures r < 0 <==> now > b.timestamp + b.estimatedDuration
  {
    b.timestamp + b.estimatedDuration - now
  }

  datatype Eta = Unknown | Remaining(ms: int)

  /** One printed line of `building`. */
  datatype Row = Row(displayName: string, eta: Eta)

  /** The line for one running job: with no (or a zero) build number, the
      estimate is unknown and the job name is shown; otherwise the build's
      own display name and its remaining time. */
  function EstimateRow(name: string, last: LastBuild, buildInfo: (string, int) -> BuildInfo, now: int): (r: Row)
    ensures r.eta.Unknown? <==> !TruthyInt(last.number)
    ensures r.eta.Unknown? ==> r.displayName == name
    ensures r.eta.Remaining? ==>
      var b := buildInfo(name, last.number.value);
      r.displayName == b.fullDisplayName && now + r.eta.ms == b.timestamp + b.estimatedDuration
  {
    if TruthyInt(last.number) then
      var b := buildInfo(name, last.number.value);
      Row(b.fullDisplayName, Remaining(RemainingMs(b, now)))
    else Row(name, Unknown)
  }

  /** What `building` prints before it stops: the rows of the running jobs
      up to the first one whose job information has no last build, and that
      failure if there is one. */
  datatype Printed = Printed(rows: seq<Row>, failure: Option<CliError>)

  function Rows(jobs: seq<JobList.Job>, lastBuild: string -> Option<LastBuild>,
                buildInfo: (string, int) -> BuildInfo, now: int): (r: Printed)
    ensures |r.rows| <= |jobs|
    ensures forall i :: 0 <= i < |r.rows| ==>
      lastBuild(jobs[i].name).Some? &&
      r.rows[i] == EstimateRow(jobs[i].name, lastBuild(jobs[i].name).value, buildInfo, now)
    ensures r.failure.None? <==> |r.rows| == |jobs|
    ensures r.failure.Some? ==> r.failure.value == NoLastBuild && lastBuild(jobs[|r.rows|].name).None?
    decreases |jobs|
  {
    if |jobs| == 0 then Printed([], None)
    else
      match lastBuild(jobs[0].name)
      case None => Printed([], Some(NoLastBuild))
      case Some(last) =>
        var rest := Rows(jobs[1..], lastBuild, buildInfo, now);
        Printed([EstimateRow(jobs[0].name, last, buildInfo, now)] + rest.rows, rest.failure)
  }

  datatype Report = NothingBuilding | Building(printed: Printed)

  /** `building`: one row per running job in the server's order, or the
      "nothing is building" message when no colour contains `anime`. */
  function BuildingReport(jobs: seq<JobList.Job>, lastBuild: string -> Option<LastBuild>,
                          buildInfo: (string, int) -> BuildInfo, now: int): (r: Result<Report>)
    ensures r.Err? <==> JobList.BuildingJobs(jobs).Err?
    ensures r.Ok? ==> (r.value.NothingBuilding? <==>
      forall j :: j in jobs && j.colour.Some? ==> !JobList.IsAnimated(j))
    ensures r.Ok? && r.value.Building? ==>
      r.value.printed == Rows(JobList.BuildingJobs(jobs).value, lastBuild, buildInfo, now)
    // every running job gets its row unless one of them was never built
    ensures r.Ok? && r.value.Building? ==>
      var running := JobList.BuildingJobs(jobs).value;
      (r.value.printed.failure.None? <==> forall j :: j in running ==> lastBuild(j.name).Some?)
  {
    match JobList.BuildingJobs(jobs)
    case Err(e) => Err(e)
    case Ok(running) =>
      if |running| == 0 then Ok(NothingBuilding)
      else
        assert running[0] in running;
        var p := Rows(running, lastBuild, buildInfo, now);
        assert p.failure.Some? ==> running[|p.rows|] in running;
        Ok(Building(p))
  }

  /** The scenario of a blue job and a failed job that is rebuilding: only
      the second one is reported. */
  lemma BuildingScenario(a: JobList.Job, b: JobList.Job)
    requires a == JobList.Job("A", Some("blue")) && b == JobList.Job("B", Some("red_anime"))
    ensures JobList.BuildingJobs([a, b]) == Ok([b])
  {
    Text.ContainsShort("blue", "anime");
    Text.ContainsAt("red_anime", "anime");
    assert Text.OccursAt("red_anime", "anime", 4);
    assert !JobList.Running(a) && JobList.Running(b);
    JobList.BuildingIgnoresFlag([a, b]);
    assert [a, b] == [a] + [b];
    Seqs.FilterConcat([a], [b], JobList.Running);
    Seqs.FilterSingle(a, JobList.Running);
    Seqs.FilterSingle(b, JobList.Running);
    assert Seqs.Filter([a, b], JobList.Running) == [] + [b] == [b];
  }

  /** What `stop` does with the last build. */
  datatype StopAction = StopBuild(number: int) | NotRunning

  /** The stop request is sent exactly when the build number is present and
      non-zero and the build is running; otherwise the job is reported as not
      running. */
  function StopDecision(last: LastBuild): (r: StopAction)
    ensures r.StopBuild? <==> TruthyInt(last.number) && last.building
    ensures r.StopBuild? ==> Some(r.number) == last.number && r.number != 0
  {
    if TruthyInt(last.number) && last.building then StopBuild(last.number.value) else NotRunning
  }

  /** `stop`: the job name must resolve before the job is inspected, and a
      job that was never built has no last build to look into. */
  function StopCommand(resolved: Option<string>, lastBuild: string -> Option<LastBuild>): (r: Result<StopAction>)
    ensures r.Err? <==> !Truthy(resolved) || lastBuild(resolved.value).None?
    ensures r.Err? ==> r.error == (if Truthy(resolved) then NoLastBuild else JobNotFound)
    ensures r.Ok? ==> (r.value.StopBuild? <==>
      TruthyInt(lastBuild(resolved.value).value.number) && lastBuild(resolved.value).value.building)
  {
    match JobList.CheckJob(resolved)
    case Err(e) => Err(e)
    case Ok(name) =>
      match lastBuild(name)
      case None => Err(NoLastBuild)
      case Some(last) => Ok(StopDecision(last))
  }
}
