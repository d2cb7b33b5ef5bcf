/** The status table and the classification of a job colour token such as
    `blue`, `red_anime` or `disabled` (jenkins_cli/cli.py, `STATUSES` and the
    body of `jobs`). */
module Status {
  import opened Results
  import Text

  datatype StatusClass = Success | Failure | Unstable | Disabled | Aborted

  /** The five colour keys the client knows. `green` is commented out in the
      source and is therefore NOT a key: it fails like any unknown colour. */
  const Statuses: map<string, StatusClass> :=
    map["blue" := Success, "red" := Failure, "yellow" := Unstable,
        "disabled" := Disabled, "aborted" := Aborted]

  /** The one-letter symbol printed for each class. */
  function Symbol(c: StatusClass): char {
    match c
    case Success => 'S'
    case Failure => 'F'
    case Unstable => 'U'
    case Disabled => 'D'
    case Aborted => 'A'
  }

  /** The ANSI select-graphic-rendition code of each class's colour. */
  function ColourCode(c: StatusClass): nat {
    match c
    case Success => 94
    case Failure => 91
    case Unstable => 93
    case Disabled => 97
    case Aborted => 97
  }

  /** `ANIME_SYMBOL[run_status == 'anime']`. */
  function AnimeSymbol(inProgress: bool): string {
    if inProgress then ">>" else ".."
  }

  datatype Classification = Classification(status: StatusClass, inProgress: bool)

  /** `token` is some `_`-free colour followed by exactly `_anime`. */
  predicate AnimeSuffixed(token: string) {
    |token| >= 6 && token[|token| - 6..] == "_anime" && '_' !in token[..|token| - 6]
  }

  /** Split the token on `_`; the first piece must be a key of the table, and
      the job is in progress exactly when there are two pieces and the second
      is `anime`. */
  function Classify(token: string): (r: Result<Classification>)
    ensures r.Ok? ==> (r.value.inProgress <==> AnimeSuffixed(token))
    ensures r.Err? ==> r.error.UnknownColour? && r.error.colour !in Statuses
  {
    var pieces := Text.Split(token, '_');
    var colour := pieces[0];
    var running := if |pieces| == 2 then Some(pieces[1]) else None;
    AnimeSplit(token);
    if colour in Statuses then Ok(Classification(Statuses[colour], running == Some("anime")))
    else Err(UnknownColour(colour))
  }

  /** The two-piece `anime` split is the same as an `_anime` suffix on a
      `_`-free colour. */
  lemma AnimeSplit(token: string)
    ensures var pieces := Text.Split(token, '_');
      (|pieces| == 2 && pieces[1] == "anime") <==> AnimeSuffixed(token)
  {
    var pieces := Text.Split(token, '_');
    if |pieces| == 2 && pieces[1] == "anime" {
      AnimePiecesSuffixed(token);
    }
    if AnimeSuffixed(token) {
      SuffixedAnimePieces(token);
    }
  }

  lemma AnimePiecesSuffixed(token: string)
    requires |Text.Split(token, '_')| == 2 && Text.Split(token, '_')[1] == "anime"
    ensures AnimeSuffixed(token)
  {
    var pieces := Text.Split(token, '_');
    var c := pieces[0];
    Text.JoinSplit(token, '_');
    assert Text.Join(pieces, '_') == c + ['_'] + Text.Join(pieces[1..], '_');
    assert pieces[1..] == ["anime"];
    assert token == c + "_anime";
    assert token[..|token| - 6] == c;
  }

  lemma SuffixedAnimePieces(token: string)
    requires AnimeSuffixed(token)
    ensures Text.Split(token, '_') == [token[..|token| - 6], "anime"]
  {
    var c := token[..|token| - 6];
    var pieces := [c, "anime"];
    assert Text.Join(pieces, '_') == c + ['_'] + Text.Join(pieces[1..], '_');
    assert pieces[1..] == ["anime"];
    assert token == c + "_anime";
    Text.SplitJoin(pieces, '_');
  }

  /** The colour is the `_`-free text before the first `_` (or the whole
      token): the result is determined by that colour alone, and a colour
      outside the table is an error naming it. */
  lemma {:induction false} ClassifyByColour(colour: string, rest: string)
    requires '_' !in colour
    requires rest == [] || rest[0] == '_'
    ensures Classify(colour + rest).Ok? <==> colour in Statuses
    ensures colour in Statuses ==> Classify(colour + rest).value.status == Statuses[colour]
    ensures colour !in Statuses ==> Classify(colour + rest) == Err(UnknownColour(colour))
  {
    var token := colour + rest;
    if rest == [] {
      assert token == colour;
      Text.SplitJoin([colour], '_');
    } else {
      Text.IndexOfAfter(colour, '_', rest[1..]);
      assert token == colour + ['_'] + rest[1..];
      assert token[..|colour|] == colour;
    }
  }

  /** `green` is not a fallback for `blue`: it is an unknown colour. */
  lemma GreenIsUnknown(rest: string)
    requires rest == [] || rest[0] == '_'
    ensures Classify("green" + rest) == Err(UnknownColour("green"))
  {
    ClassifyByColour("green", rest);
  }

  /** A third piece cancels "in progress": `blue_anime_x` is not running. */
  lemma ThreePiecesNotRunning(colour: string, extra: string)
    ensures var r := Classify(colour + "_anime_" + extra);
      r.Ok? ==> !r.value.inProgress
  {
    var token := colour + "_anime_" + extra;
    assert token[|colour|] == '_';
    assert token[..|token| - 6][|colour|] == '_';
  }
}
