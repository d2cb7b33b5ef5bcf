/** The credential cascade of `auth` (jenkins_cli/cli.py): command-line
    values first, then the settings file, and a fatal error when no host is
    known. The settings file is consulted at most once, and only when some
    command-line value is missing; `settings` stands for what reading it
    would yield. */
module Auth {
  import opened Results

  /** The arguments handed to the server client. */
  datatype Connection = Connection(host: string, username: Option<string>, password: Option<string>)

  function Lookup(m: map<string, string>, key: string): Option<string> {
    if key in m then Some(m[key]) else None
  }

  /** Whether `auth` reads the settings file at all. */
  predicate ReadsSettings(host: Option<string>, username: Option<string>, password: Option<string>) {
    host.None? || username.None? || password.None?
  }

  function Resolve(host: Option<string>, username: Option<string>, password: Option<string>,
                   settings: Result<map<string, string>>): (r: Result<Connection>)
    // every value given: the file is never read, whatever it would hold
    ensures !ReadsSettings(host, username, password) ==>
      r == Ok(Connection(host.value, username, password))
    // a failing read surfaces whenever the file is consulted
    ensures ReadsSettings(host, username, password) && settings.Err? ==> r == Err(settings.error)
    // a non-empty explicit host is used as is, whether or not the file has one
    ensures Truthy(host) && r.Ok? ==> r.value.host == host.value
    ensures Truthy(host) ==> (r.Ok? <==> (!ReadsSettings(host, username, password) || settings.Ok?))
    // no usable host anywhere
    ensures r.Err? ==> r.error == MissingHost || (settings.Err? && r.error == settings.error)
    ensures ReadsSettings(host, username, password) && !Truthy(host) && settings.Ok? ==>
      (r.Ok? <==> "host" in settings.value) && (r.Ok? ==> r.value.host == settings.value["host"])
    // user name and password fall back to the file, then to nothing
    ensures ReadsSettings(host, username, password) && settings.Ok? && r.Ok? ==>
      r.value.username == (if Truthy(username) then username else Lookup(settings.value, "username")) &&
      r.value.password == (if Truthy(password) then password else Lookup(settings.value, "password"))
  {
    if ReadsSettings(host, username, password) then
      match settings
      case Err(e) => Err(e)
      case Ok(file) =>
        if !Truthy(host) && "host" !in file then Err(MissingHost)
        else
          var h := if Truthy(host) then host.value else file["host"];
          Ok(Connection(h, OrElse(username, Lookup(file, "username")), OrElse(password, Lookup(file, "password"))))
    else
      Ok(Connection(host.value, username, password))
  }
}
