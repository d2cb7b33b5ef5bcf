/** Failure-carrying values shared by every part of the command-line client.

    The client signals every failure by raising an exception that reaches the
    top-level dispatch; here each such exception is a `CliError` value carried
    by `Result`, and a Python `None` is `Option.None`.
 */
module Results {

  datatype Option<+T> = None | Some(value: T)

  /** The failures the modelled code can raise. */
  datatype CliError =
    | MissingHost           // no `host` on the command line nor in the settings file
    | SettingsUnreadable    // the settings file exists but could not be opened or read
    | JobNotFound           // the server could not resolve the job name
    | MissingColour         // a job record without a colour (KeyError / AttributeError)
    | UnknownColour(colour: string) // a colour outside the status table (KeyError)
    | ScmClassMissing       // the <scm> element has no `class` attribute (KeyError)
    | SleepUnavailable      // `time.sleep` on the imported `time` function (AttributeError)
    | NoLastBuild           // a job that was never built: `lastBuild` is None (AttributeError)

  datatype Result<+T> = Ok(value: T) | Err(error: CliError)

  /** Python truthiness of an optional string: `None` and `""` are false. */
  predicate Truthy(s: Option<string>) {
    s.Some? && s.value != ""
  }

  /** Python truthiness of an optional integer: `None` and `0` are false. */
  predicate TruthyInt(n: Option<int>) {
    n.Some? && n.value != 0
  }

  /** Python `a or b` on two optional strings. */
  function OrElse(a: Option<string>, b: Option<string>): Option<string> {
    if Truthy(a) then a else b
  }
}
