/**
 * Properties of the credential priority rule, stated on the specification
 * functions `Resolve` and `Effects`, which `User.GetBitUser` is proved to
 * compute.
 */
module UserLemmas {
  import opened Wrappers
  import opened User

  /**
   * Both fields on the command line: the result is exactly those two values,
   * whatever the file system, parser and replies are, and nothing is read or
   * prompted.
   */
  lemma CommandLineComplete(u: string, p: string, configPath: Option<string>,
                            files: map<string, string>, parse: string -> Option<BitUserPartial>,
                            replies: Replies)
    ensures Resolve(Some(u), Some(p), configPath, files, parse, replies) == BitUser(u, p)
    ensures Effects(Some(u), Some(p), configPath, files, parse) == []
  {
  }

  /** A username given on the command line is kept, and the username prompt is not issued. */
  lemma CommandLineUsernameKept(username: Option<string>, password: Option<string>, configPath: Option<string>,
                                files: map<string, string>, parse: string -> Option<BitUserPartial>,
                                replies: Replies)
    requires username.Some?
    ensures Resolve(username, password, configPath, files, parse, replies).username == username.value
    ensures UsernamePrompt !in Effects(username, password, configPath, files, parse)
  {
  }

  /** A password given on the command line is kept, and the password prompt is not issued. */
  lemma CommandLinePasswordKept(username: Option<string>, password: Option<string>, configPath: Option<string>,
                                files: map<string, string>, parse: string -> Option<BitUserPartial>,
                                replies: Replies)
    requires password.Some?
    ensures Resolve(username, password, configPath, files, parse, replies).password == password.value
    ensures PasswordPrompt !in Effects(username, password, configPath, files, parse)
  {
  }

  /** A username missing on the command line but present in a usable config file comes from the file, unprompted. */
  lemma FileUsernameUsed(password: Option<string>, configPath: Option<string>,
                         files: map<string, string>, parse: string -> Option<BitUserPartial>,
                         replies: Replies, fromFile: BitUserPartial)
    requires ParseConfigFile(configPath, files, parse) == Ok(fromFile)
    requires fromFile.username.Some?
    ensures Resolve(None, password, configPath, files, parse, replies).username == fromFile.username.value
    ensures UsernamePrompt !in Effects(None, password, configPath, files, parse)
  {
  }

  /** A password missing on the command line but present in a usable config file comes from the file, unprompted. */
  lemma FilePasswordUsed(username: Option<string>, configPath: Option<string>,
                         files: map<string, string>, parse: string -> Option<BitUserPartial>,
                         replies: Replies, fromFile: BitUserPartial)
    requires ParseConfigFile(configPath, files, parse) == Ok(fromFile)
    requires fromFile.password.Some?
    ensures Resolve(username, None, configPath, files, parse, replies).password == fromFile.password.value
    ensures PasswordPrompt !in Effects(username, None, configPath, files, parse)
  {
  }

  /**
   * The username prompt is issued exactly when neither the command line nor
   * the config file has a username, and then the reply is the username.
   */
  lemma UsernamePromptExactly(username: Option<string>, password: Option<string>, configPath: Option<string>,
                              files: map<string, string>, parse: string -> Option<BitUserPartial>,
                              replies: Replies)
    ensures UsernamePrompt in Effects(username, password, configPath, files, parse)
            <==> username.None? && FileCredentials(configPath, files, parse).username.None?
    ensures UsernamePrompt in Effects(username, password, configPath, files, parse)
            ==> Resolve(username, password, configPath, files, parse, replies).username == replies.username
  {
  }

  /** The password prompt follows the same rule as the username prompt, independently of it. */
  lemma PasswordPromptExactly(username: Option<string>, password: Option<string>, configPath: Option<string>,
                              files: map<string, string>, parse: string -> Option<BitUserPartial>,
                              replies: Replies)
    ensures PasswordPrompt in Effects(username, password, configPath, files, parse)
            <==> password.None? && FileCredentials(configPath, files, parse).password.None?
    ensures PasswordPrompt in Effects(username, password, configPath, files, parse)
            ==> Resolve(username, password, configPath, files, parse, replies).password == replies.password
  {
  }

  /**
   * The config file is read, once and before anything else, exactly when the
   * command line lacks a field; the path read is the resolved one.
   */
  lemma ConfigReadExactlyWhenNeeded(username: Option<string>, password: Option<string>, configPath: Option<string>,
                                    files: map<string, string>, parse: string -> Option<BitUserPartial>)
    ensures var log := Effects(username, password, configPath, files, parse);
            (|log| > 0 <==> NeedsLookup(username, password)) &&
            (|log| > 0 ==> log[0] == ConfigRead(ConfigPath(configPath))) &&
            (forall i :: 0 < i < |log| ==> !log[i].ConfigRead?)
  {
  }

  /** Prompts come after the config file was read, and the username prompt before the password prompt. */
  lemma PromptOrder(username: Option<string>, password: Option<string>, configPath: Option<string>,
                    files: map<string, string>, parse: string -> Option<BitUserPartial>)
    ensures var log := Effects(username, password, configPath, files, parse);
            forall i, j :: 0 <= i < |log| && 0 <= j < |log| && log[i] == UsernamePrompt && log[j] == PasswordPrompt
              ==> 0 < i < j
    ensures var log := Effects(username, password, configPath, files, parse);
            forall i :: 0 <= i < |log| && (log[i] == UsernamePrompt || log[i] == PasswordPrompt) ==> 0 < i
  {
  }

  /**
   * A config file that cannot be read or parsed is not fatal: a warning
   * naming it is logged and resolution proceeds as if the file were empty,
   * so every missing field is prompted for.
   */
  lemma ConfigErrorNotFatal(username: Option<string>, password: Option<string>, configPath: Option<string>,
                            files: map<string, string>, parse: string -> Option<BitUserPartial>,
                            replies: Replies, e: ConfigError)
    requires NeedsLookup(username, password)
    requires ParseConfigFile(configPath, files, parse) == Err(e)
    ensures FileCredentials(configPath, files, parse) == DefaultPartial()
    ensures Warning(e) in Effects(username, password, configPath, files, parse)
    ensures e.path == ConfigPath(configPath)
    ensures Resolve(username, password, configPath, files, parse, replies)
            == BitUser(if username.Some? then username.value else replies.username,
                       if password.Some? then password.value else replies.password)
    ensures username.None? ==> UsernamePrompt in Effects(username, password, configPath, files, parse)
    ensures password.None? ==> PasswordPrompt in Effects(username, password, configPath, files, parse)
  {
  }

  /** A warning is logged only for a config file that was read and could not be used. */
  lemma WarningOnlyOnError(username: Option<string>, password: Option<string>, configPath: Option<string>,
                           files: map<string, string>, parse: string -> Option<BitUserPartial>, e: ConfigError)
    requires Warning(e) in Effects(username, password, configPath, files, parse)
    ensures NeedsLookup(username, password)
    ensures ParseConfigFile(configPath, files, parse) == Err(e)
  {
  }

  /**
   * Every resolved field has a source: the command line, the config file, or
   * the prompt reply; the empty default of `unwrap_or_default` never enters.
   */
  lemma ResolvedFieldsHaveSource(username: Option<string>, password: Option<string>, configPath: Option<string>,
                                 files: map<string, string>, parse: string -> Option<BitUserPartial>,
                                 replies: Replies)
    ensures var r := Resolve(username, password, configPath, files, parse, replies);
            var file := FileCredentials(configPath, files, parse);
            && (Some(r.username) == username || Some(r.username) == file.username || r.username == replies.username)
            && (Some(r.password) == password || Some(r.password) == file.password || r.password == replies.password)
  {
  }

  /**
   * Resolving again with the result given on the command line reproduces it,
   * touching neither the config file nor the prompts.
   */
  lemma ResolveIdempotent(username: Option<string>, password: Option<string>, configPath: Option<string>,
                          files: map<string, string>, parse: string -> Option<BitUserPartial>,
                          replies: Replies, configPath': Option<string>,
                          files': map<string, string>, parse': string -> Option<BitUserPartial>,
                          replies': Replies)
    ensures var r := Resolve(username, password, configPath, files, parse, replies);
            && Resolve(Some(r.username), Some(r.password), configPath', files', parse', replies') == r
            && Effects(Some(r.username), Some(r.password), configPath', files', parse') == []
  {
    var r := Resolve(username, password, configPath, files, parse, replies);
    CommandLineComplete(r.username, r.password, configPath', files', parse', replies');
  }

  /**
   * With nothing on the command line, a config file can stand in for both
   * prompts: whenever the parser turns `text` into a record with both
   * fields, any file system holding `text` at the resolved path makes
   * exactly those credentials the result, and no prompt is issued.
   */
  lemma ConfigFileSuffices(credentials: BitUser, configPath: Option<string>, replies: Replies,
                           files: map<string, string>, parse: string -> Option<BitUserPartial>, text: string)
    requires parse(text) == Some(BitUserPartial(Some(credentials.username), Some(credentials.password)))
    requires ConfigPath(configPath) in files && files[ConfigPath(configPath)] == text
    ensures Resolve(None, None, configPath, files, parse, replies) == credentials
    ensures Effects(None, None, configPath, files, parse) == [ConfigRead(ConfigPath(configPath))]
  {
  }

  /**
   * The prompts are never forced: whatever the command line gives, as soon
   * as the parser accepts some text as a complete record, there is a file
   * system under which neither prompt is issued.
   */
  lemma PromptsAvoidable(username: Option<string>, password: Option<string>, configPath: Option<string>,
                         parse: string -> Option<BitUserPartial>, text: string, fromFile: BitUser)
    requires parse(text) == Some(BitUserPartial(Some(fromFile.username), Some(fromFile.password)))
    ensures exists files: map<string, string> ::
              && UsernamePrompt !in Effects(username, password, configPath, files, parse)
              && PasswordPrompt !in Effects(username, password, configPath, files, parse)
  {
    var files := map[ConfigPath(configPath) := text];
    assert FileCredentials(configPath, files, parse) == parse(text).value;
    assert UsernamePrompt !in Effects(username, password, configPath, files, parse);
  }

  /**
   * Without a config path the default file is the one read: with no
   * `bit-user.json` in the file system, the warning names it.
   */
  lemma DefaultPathRead(username: Option<string>, password: Option<string>,
                        files: map<string, string>, parse: string -> Option<BitUserPartial>)
    requires NeedsLookup(username, password)
    ensures Effects(username, password, None, files, parse)[0] == ConfigRead("bit-user.json")
    ensures "bit-user.json" !in files ==>
              Warning(ReadFailed("bit-user.json")) in Effects(username, password, None, files, parse)
  {
  }
}
