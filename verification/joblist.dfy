/** Job selection and the `jobs` listing (jenkins_cli/cli.py, `_get_jobs`,
    `jobs`, and the selection step of `building`). The job list itself comes
    from the server and is an input here. */
module JobList {
  import opened Results
  import Text
  import Seqs
  import Status

  /** `_check_job`: the server's answer to a job-name lookup must be a
      non-empty name, otherwise the command stops before any other request. */
  function CheckJob(resolved: Option<string>): (r: Result<string>)
    ensures r.Ok? <==> Truthy(resolved)
    ensures r.Ok? ==> r.value == resolved.value && r.value != ""
    ensures r.Err? ==> r.error == JobNotFound
  {
    if Truthy(resolved) then Ok(resolved.value) else Err(JobNotFound)
  }

  /** A job record as the server lists it; folders and some job kinds carry
      no colour at all. */
  datatype Job = Job(name: string, colour: Option<string>)

  /** `j.get('color') == 'disabled'`: an exact match, not a prefix. */
  predicate IsDisabled(j: Job) {
    j.colour == Some("disabled")
  }

  predicate Enabled(j: Job) {
    !IsDisabled(j)
  }

  /** `_get_jobs`: with flag `a` set, drop the jobs whose colour is exactly
      `disabled`; never re-sort. */
  function GetJobs(jobs: seq<Job>, a: bool): (r: seq<Job>)
    ensures !a ==> r == jobs
    ensures a ==> forall j :: j in r <==> j in jobs && !IsDisabled(j)
    ensures a ==> forall j :: multiset(r)[j] == if IsDisabled(j) then 0 else multiset(jobs)[j]
  {
    Seqs.FilterMembers(jobs, Enabled);
    if a then Seqs.Filter(jobs, Enabled) else jobs
  }

  /** Selection commutes with concatenation: the survivors of a list are the
      survivors of its first part followed by those of the rest, so their
      relative order is the server's. */
  lemma GetJobsOrder(front: seq<Job>, back: seq<Job>, a: bool)
    ensures GetJobs(front + back, a) == GetJobs(front, a) + GetJobs(back, a)
  {
    Seqs.FilterConcat(front, back, Enabled);
  }

  /** Classification of one job's colour: `job['color'].split('_')` fails on a
      job without a colour before the table is consulted. */
  function ClassifyJob(j: Job): Result<Status.Classification> {
    match j.colour
    case None => Err(MissingColour)
    case Some(c) => Status.Classify(c)
  }

  /** One printed line of `jobs`: symbol, in-progress glyph, job name. */
  datatype Row = Row(name: string, status: Status.StatusClass, inProgress: bool)

  /** What `jobs` prints before it stops: the rows of every job up to the
      first one that cannot be classified, and that failure if there is one. */
  datatype Listing = Listing(rows: seq<Row>, failure: Option<CliError>)

  function PrintRows(jobs: seq<Job>): (r: Listing)
    ensures |r.rows| <= |jobs|
    ensures forall i :: 0 <= i < |r.rows| ==>
      r.rows[i].name == jobs[i].name &&
      ClassifyJob(jobs[i]) == Ok(Status.Classification(r.rows[i].status, r.rows[i].inProgress))
    ensures r.failure.None? <==> |r.rows| == |jobs|
    ensures r.failure.Some? ==> ClassifyJob(jobs[|r.rows|]) == Err(r.failure.value)
    decreases |jobs|
  {
    if |jobs| == 0 then Listing([], None)
    else
      match ClassifyJob(jobs[0])
      case Err(e) => Listing([], Some(e))
      case Ok(c) =>
        var rest := PrintRows(jobs[1..]);
        Listing([Row(jobs[0].name, c.status, c.inProgress)] + rest.rows, rest.failure)
  }

  /** The `jobs` command: select, then print row by row. */
  function ListJobs(jobs: seq<Job>, a: bool): (r: Listing)
    ensures r.failure.None? <==> forall j :: j in GetJobs(jobs, a) ==> ClassifyJob(j).Ok?
  {
    var selected := GetJobs(jobs, a);
    var r := PrintRows(selected);
    assert r.failure.Some? ==> selected[|r.rows|] in selected;
    r
  }

  /** A job is building when its colour contains `anime` anywhere. */
  predicate IsAnimated(j: Job)
    requires j.colour.Some?
  {
    Text.Contains(j.colour.value, "anime")
  }

  predicate Running(j: Job) {
    j.colour.Some? && IsAnimated(j)
  }

  /** The selection step of `building`: force flag `a`, then keep the jobs
      whose colour contains `anime`. A surviving job without a colour makes
      the whole selection fail before anything is printed. */
  function BuildingJobs(jobs: seq<Job>): (r: Result<seq<Job>>)
    ensures r.Ok? <==> forall j :: j in jobs && !IsDisabled(j) ==> j.colour.Some?
    ensures r.Err? ==> r.error == MissingColour
    ensures r.Ok? ==> forall j :: j in r.value <==> j in jobs && j.colour.Some? && IsAnimated(j)
  {
    var selected := GetJobs(jobs, true);
    DisabledNotAnimated();
    Seqs.FilterMembers(selected, Running);
    if exists j :: j in selected && j.colour.None? then Err(MissingColour)
    else Ok(Seqs.Filter(selected, Running))
  }

  /** The colour `disabled` does not contain `anime`, so forcing flag `a`
      removes nothing that the `anime` test would have kept. */
  lemma DisabledNotAnimated()
    ensures !Text.Contains("disabled", "anime")
  {
    var s := "disabled";
    assert s[1..] == "isabled" && s[2..] == "sabled" && s[3..] == "abled" && s[4..] == "bled";
    MismatchNotPrefix("anime", s, 0);
    MismatchNotPrefix("anime", s[1..], 0);
    MismatchNotPrefix("anime", s[2..], 0);
    MismatchNotPrefix("anime", s[3..], 1);
    Text.ContainsShort(s[4..], "anime");
  }

  lemma MismatchNotPrefix(p: string, s: string, k: nat)
    requires k < |p| && k < |s| && p[k] != s[k]
    ensures !(p <= s)
  {
  }

  /** Forcing flag `a` in `building` is redundant: the jobs it drops would
      fail the `anime` test anyway, so the selection is the `anime` filter of
      the server's list, in the server's order. */
  lemma BuildingIgnoresFlag(jobs: seq<Job>)
    requires BuildingJobs(jobs).Ok?
    ensures BuildingJobs(jobs).value == Seqs.Filter(jobs, Running)
  {
    DisabledNotAnimated();
    Seqs.FilterWeaker(jobs, Enabled, Running);
  }
}
