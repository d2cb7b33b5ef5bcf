/** The settings file `.jenkins-cli`: where it is looked for and how its
    `key = value` lines become a dictionary (jenkins_cli/cli.py,
    `read_settings_from_file`). The file system is an input: what the current
    directory and the home directory hold. */
module Settings {
  import opened Results
  import Text

  /** What a directory holds under the settings file name. */
  datatype FileState = Absent | Unreadable | Readable(text: string)

  /** The key and value a line defines, if it holds an `=`: split at the first
      `=`, both sides stripped of whitespace. */
  function Entry(line: string): (r: Option<(string, string)>)
    ensures r.None? <==> '=' !in line
    ensures r.Some? ==> Text.Trimmed(r.value.0) && Text.Trimmed(r.value.1)
  {
    match Text.SplitAtFirst(line, '=')
    case None => None
    case Some((key, value)) => Some((Text.Strip(key), Text.Strip(value)))
  }

  /** Entry `i` defines key `k`. */
  predicate Defines(entries: seq<Option<(string, string)>>, i: int, k: string) {
    0 <= i < |entries| && entries[i].Some? && entries[i].value.0 == k
  }

  /** Entry `i` is the last entry that defines `k`. */
  predicate LastDefinition(entries: seq<Option<(string, string)>>, i: int, k: string) {
    Defines(entries, i, k) && forall j :: i < j < |entries| ==> !Defines(entries, j, k)
  }

  /** The loop body applied to each line in turn: every entry is one
      dictionary assignment, later ones overwriting earlier ones. */
  function Assign(entries: seq<Option<(string, string)>>): map<string, string>
    decreases |entries|
  {
    if |entries| == 0 then map[]
    else
      var m := Assign(entries[..|entries| - 1]);
      match entries[|entries| - 1]
      case None => m
      case Some((key, value)) => m[key := value]
  }

  /** The entries of the lines, in order. */
  function Entries(lines: seq<string>): (r: seq<Option<(string, string)>>)
    ensures |r| == |lines|
    ensures forall i :: 0 <= i < |lines| ==> r[i] == Entry(lines[i])
  {
    seq(|lines|, i requires 0 <= i < |lines| => Entry(lines[i]))
  }

  /** The dictionary the lines of the file yield. */
  function ParseLines(lines: seq<string>): map<string, string> {
    Assign(Entries(lines))
  }

  /** The keys are exactly those some line defines, and each maps to the
      value of the last line that defines it. */
  lemma ParseLinesSpec(lines: seq<string>)
    ensures forall k :: k in ParseLines(lines) <==> exists i :: Defines(Entries(lines), i, k)
    ensures forall k :: k in ParseLines(lines) ==>
      exists i :: LastDefinition(Entries(lines), i, k) && ParseLines(lines)[k] == Entry(lines[i]).value.1
  {
    var es := Entries(lines);
    forall k | true
      ensures k in Assign(es) <==> exists i :: Defines(es, i, k)
      ensures k in Assign(es) ==> exists i :: LastDefinition(es, i, k) && Assign(es)[k] == es[i].value.1
    {
      AssignKey(es, k);
    }
  }

  lemma {:induction false} AssignKey(es: seq<Option<(string, string)>>, k: string)
    ensures k in Assign(es) <==> exists i :: Defines(es, i, k)
    ensures k in Assign(es) ==> exists i :: LastDefinition(es, i, k) && Assign(es)[k] == es[i].value.1
    decreases |es|
  {
    if |es| == 0 {
      assert forall i :: !Defines(es, i, k);
    } else {
      var n := |es| - 1;
      var init := es[..n];
      AssignKey(init, k);
      assert forall i :: 0 <= i < n ==> (Defines(init, i, k) <==> Defines(es, i, k));
      var m := Assign(es);
      if Defines(es, n, k) {
        assert LastDefinition(es, n, k);
      } else if k in m {
        var i :| LastDefinition(init, i, k) && Assign(init)[k] == init[i].value.1;
        assert LastDefinition(es, i, k);
      } else {
        assert forall i :: !Defines(es, i, k);
      }
    }
  }

  /** The dictionary the file text yields. */
  function Parse(text: string): map<string, string> {
    ParseLines(Text.Split(text, '\n'))
  }

  /** A line without `=` changes nothing. */
  lemma LineWithoutEquals(lines: seq<string>, line: string)
    requires '=' !in line
    ensures ParseLines(lines + [line]) == ParseLines(lines)
  {
    assert Entries(lines + [line])[..|lines|] == Entries(lines);
  }

  /** A line `key=value` splits at its FIRST `=`: the value keeps any further
      `=`, and both sides lose their surrounding whitespace. */
  lemma ValueMayHoldEquals(key: string, value: string)
    requires '=' !in key
    ensures Entry(key + "=" + value) == Some((Text.Strip(key), Text.Strip(value)))
  {
    Text.IndexOfAfter(key, '=', value);
    var line := key + "=" + value;
    assert line == key + ['='] + value;
    assert line[..|key|] == key;
    assert line[|key| + 1..] == value;
  }

  /** A later line for the same key overrides every earlier one. */
  lemma LastWins(lines: seq<string>, line: string, k: string, v: string)
    requires Entry(line) == Some((k, v))
    ensures ParseLines(lines + [line]) == ParseLines(lines)[k := v]
  {
    assert Entries(lines + [line])[..|lines|] == Entries(lines);
  }

  /** `read_settings_from_file`: the file in the current directory, else the
      one in the home directory, else no settings at all; a file that exists
      but cannot be read is an error. */
  function ReadSettings(cwd: FileState, home: FileState): (r: Result<map<string, string>>)
    ensures r.Err? <==> (cwd.Unreadable? || (cwd.Absent? && home.Unreadable?))
    ensures r.Err? ==> r.error == SettingsUnreadable
    ensures cwd.Absent? && home.Absent? ==> r == Ok(map[])
    ensures cwd.Readable? ==> r == Ok(Parse(cwd.text))
    ensures cwd.Absent? && home.Readable? ==> r == Ok(Parse(home.text))
  {
    var file := if cwd.Absent? then home else cwd;
    match file
    case Absent => Ok(map[])
    case Unreadable => Err(SettingsUnreadable)
    case Readable(text) => Ok(Parse(text))
  }
}
