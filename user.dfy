/**
 * Resolution of the campus-network credentials: every field is taken from
 * the command line, else from the config file, else from an interactive
 * prompt.
 *
 * The outside world is given as values: the file system is a map from path
 * to contents (a path that is absent cannot be read), the JSON parser is a
 * function that yields a partial record or nothing, and the two prompts are
 * answered by supplied strings. What the program does to the outside world
 * (reading the config file, warning, prompting) is returned as a log of
 * events, in order.
 */
module User {
  import opened Wrappers

  /** Credentials that are finalized: both fields present. */
  datatype BitUser = BitUser(username: string, password: string)

  /** Credentials of which either field may still be missing. */
  datatype BitUserPartial = BitUserPartial(username: Option<string>, password: Option<string>)

  /** Why the config file contributed nothing; each names the path that was tried. */
  datatype ConfigError =
    | ReadFailed(path: string)
    | ParseFailed(path: string)

  /** What the user sees or causes while credentials are resolved. */
  datatype Event =
    | ConfigRead(path: string)
    | Warning(error: ConfigError)
    | UsernamePrompt
    | PasswordPrompt

  /** The lines typed at the username prompt and at the password prompt. */
  datatype Replies = Replies(username: string, password: string)

  /** The config file used when none is given on the command line. */
  const DefaultConfigPath: string := "bit-user.json"

  /** `BitUserPartial::new`: the record of the two given fields. */
  function NewPartial(username: Option<string>, password: Option<string>): (p: BitUserPartial)
    ensures p.username == username && p.password == password
  {
    BitUserPartial(username, password)
  }

  /** `BitUserPartial::default()`: nothing known. */
  function DefaultPartial(): (p: BitUserPartial)
    ensures p.username.None? && p.password.None?
  {
    BitUserPartial(None, None)
  }

  /** The path of the config file: the one given, else the default. */
  function ConfigPath(configPath: Option<string>): (path: string)
    ensures configPath.Some? ==> path == configPath.value
    ensures configPath.None? ==> path == DefaultConfigPath
  {
    match configPath
    case Some(p) => p
    case None => DefaultConfigPath
  }

  /**
   * `parse_config_file`: read the file at the resolved path, then parse its
   * text; the first step that fails ends it with an error naming the path.
   */
  function ParseConfigFile(configPath: Option<string>, files: map<string, string>,
                           parse: string -> Option<BitUserPartial>): (r: Result<BitUserPartial, ConfigError>)
    ensures r.Err? ==> r.error.path == ConfigPath(configPath)
    ensures r.Err? && r.error.ReadFailed? <==> ConfigPath(configPath) !in files
    ensures r.Err? && r.error.ParseFailed? <==>
              ConfigPath(configPath) in files && parse(files[ConfigPath(configPath)]).None?
    ensures r.Ok? ==> ConfigPath(configPath) in files && Some(r.value) == parse(files[ConfigPath(configPath)])
  {
    var path := ConfigPath(configPath);
    if path !in files then Err(ReadFailed(path))
    else
      match parse(files[path])
      case None => Err(ParseFailed(path))
      case Some(user) => Ok(user)
  }

  /** `Option::get_or_insert`: an existing value is kept, a missing one becomes `v`. */
  function GetOrInsert(o: Option<string>, v: string): (r: Option<string>)
    ensures r.Some?
    ensures o.Some? ==> r == o
    ensures o.None? ==> r.value == v
  {
    match o
    case Some(_) => o
    case None => Some(v)
  }

  /**
   * `Option::get_or_insert_with` with a prompt as the closure: the prompt is
   * issued, and its reply inserted, only when the value is missing.
   */
  method GetOrInsertWith(o: Option<string>, prompt: Event, reply: string, log: seq<Event>)
    returns (r: Option<string>, log': seq<Event>)
    ensures r.Some?
    ensures o.Some? ==> r == o && log' == log
    ensures o.None? ==> r.value == reply && log' == log + [prompt]
  {
    r, log' := o, log;
    if o.None? {
      log' := log' + [prompt];
      r := Some(reply);
    }
  }

  /** `Option::unwrap_or_default` on a string: the value, or the empty string. */
  function UnwrapOrDefault(o: Option<string>): (s: string)
    ensures o.Some? ==> s == o.value
    ensures o.None? ==> s == ""
  {
    match o
    case Some(v) => v
    case None => ""
  }

  // ---------------------------------------------------------------------------
  // Specification: the priority rule, stated field by field.
  // ---------------------------------------------------------------------------

  /** What the config file contributes: its record, or nothing at all when it cannot be read or parsed. */
  function FileCredentials(configPath: Option<string>, files: map<string, string>,
                           parse: string -> Option<BitUserPartial>): (file: BitUserPartial)
    ensures ParseConfigFile(configPath, files, parse).Err? ==> file.username.None? && file.password.None?
    ensures file.username.Some? || file.password.Some? ==> ParseConfigFile(configPath, files, parse) == Ok(file)
    ensures ParseConfigFile(configPath, files, parse).Ok? ==> file == ParseConfigFile(configPath, files, parse).value
  {
    match ParseConfigFile(configPath, files, parse)
    case Ok(user) => user
    case Err(_) => DefaultPartial()
  }

  /** The first present value in priority order, the reply when no other is present. */
  function Pick(first: Option<string>, second: Option<string>, last: string): (v: string)
    ensures first.Some? ==> v == first.value
    ensures first.None? && second.Some? ==> v == second.value
    ensures first.None? && second.None? ==> v == last
  {
    if first.Some? then first.value else if second.Some? then second.value else last
  }

  /** True when the command line leaves a field to be found elsewhere. */
  function NeedsLookup(username: Option<string>, password: Option<string>): (b: bool)
    ensures !b <==> username.Some? && password.Some?
  {
    username.None? || password.None?
  }

  /** The credentials fixed by the rule: command line > config file > prompt, per field. */
  function Resolve(username: Option<string>, password: Option<string>, configPath: Option<string>,
                   files: map<string, string>, parse: string -> Option<BitUserPartial>,
                   replies: Replies): (r: BitUser)
    ensures var file := FileCredentials(configPath, files, parse);
            && (username.Some? ==> r.username == username.value)
            && (username.None? && file.username.Some? ==> r.username == file.username.value)
            && (username.None? && file.username.None? ==> r.username == replies.username)
    ensures var file := FileCredentials(configPath, files, parse);
            && (password.Some? ==> r.password == password.value)
            && (password.None? && file.password.Some? ==> r.password == file.password.value)
            && (password.None? && file.password.None? ==> r.password == replies.password)
  {
    var file := FileCredentials(configPath, files, parse);
    BitUser(Pick(username, file.username, replies.username),
            Pick(password, file.password, replies.password))
  }

  /**
   * The events of one resolution: nothing when the command line is complete;
   * otherwise the config file is read, a failure to use it is reported, and
   * each field still missing after the file is prompted for, username first.
   */
  function Effects(username: Option<string>, password: Option<string>, configPath: Option<string>,
                   files: map<string, string>, parse: string -> Option<BitUserPartial>): (log: seq<Event>)
    ensures log == [] <==> !NeedsLookup(username, password)
    ensures log != [] ==> log[0] == ConfigRead(ConfigPath(configPath))
    ensures |log| <= 4
    ensures forall i, j :: 0 <= i < j < |log| ==> log[i] != log[j]
  {
    if !NeedsLookup(username, password) then []
    else
      var outcome := ParseConfigFile(configPath, files, parse);
      var file := FileCredentials(configPath, files, parse);
      [ConfigRead(ConfigPath(configPath))]
      + (if outcome.Err? then [Warning(outcome.error)] else [])
      + (if username.None? && file.username.None? then [UsernamePrompt] else [])
      + (if password.None? && file.password.None? then [PasswordPrompt] else [])
  }

  // ---------------------------------------------------------------------------
  // The operation.
  // ---------------------------------------------------------------------------

  /**
   * `get_bit_user`: fills the missing fields of the command-line record in
   * place, first from the config file, then from the prompts. It always
   * succeeds; a config file that cannot be used only causes a warning.
   */
  method GetBitUser(username: Option<string>, password: Option<string>, configPath: Option<string>,
                    files: map<string, string>, parse: string -> Option<BitUserPartial>,
                    replies: Replies)
    returns (r: Result<BitUser, ConfigError>, log: seq<Event>)
    ensures r == Ok(Resolve(username, password, configPath, files, parse, replies))
    ensures log == Effects(username, password, configPath, files, parse)
  {
    var bitUser := NewPartial(username, password);
    log := [];

    if bitUser.username.None? || bitUser.password.None? {
      var userFromFile := DefaultPartial();
      log := log + [ConfigRead(ConfigPath(configPath))];
      match ParseConfigFile(configPath, files, parse) {
        case Ok(value) => userFromFile := value;
        case Err(e) => log := log + [Warning(e)];
      }

      match userFromFile.username {
        case Some(u) =>
          bitUser := bitUser.(username := GetOrInsert(bitUser.username, u));
        case None =>
          var filled;
          filled, log := GetOrInsertWith(bitUser.username, UsernamePrompt, replies.username, log);
          bitUser := bitUser.(username := filled);
      }

      match userFromFile.password {
        case Some(p) =>
          bitUser := bitUser.(password := GetOrInsert(bitUser.password, p));
        case None =>
          var filled;
          filled, log := GetOrInsertWith(bitUser.password, PasswordPrompt, replies.password, log);
          bitUser := bitUser.(password := filled);
      }
    }

    // On every path both fields are present here, so the defaults below are never used.
    assert bitUser.username.Some? && bitUser.password.Some?;
    r := Ok(BitUser(UnwrapOrDefault(bitUser.username), UnwrapOrDefault(bitUser.password)));
  }
}
