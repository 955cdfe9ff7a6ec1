# bitsrun credential resolution, modelled in Dafny

bitsrun is a command-line client for the SRUN campus-network login portal.
Before logging in or out it needs a username and a password. `get_bit_user`
in `src/user.rs` works them out with a fixed priority: command-line argument,
then the JSON config file, then an interactive prompt. Each field is resolved
on its own. The config file is consulted only when the command line lacks a
field. A config file that cannot be read or parsed only causes a warning. The
default config file is `bit-user.json`.

This project models that rule and proves its properties.

- `wrappers.dfy`: module `Wrappers`, Rust's `Option` and `Result`.
- `user.dfy`: module `User`.
  - The records `BitUser` and `BitUserPartial`.
  - `parse_config_file` as the function `ParseConfigFile`.
  - `get_bit_user` as the imperative method `GetBitUser`. It updates a local
    partial record step by step with `get_or_insert` and `get_or_insert_with`,
    as the source does.
  - The declarative specification `Resolve` (the resulting credentials) and
    `Effects` (the events caused). `GetBitUser` is proved to compute both.
- `user_lemmas.dfy`: module `UserLemmas`, the properties of the rule, proved
  on `Resolve` and `Effects`.

The outside world is given to the model as values:

- The file system is a `map<string, string>` from path to contents. Reading a
  path that is not in the map fails.
- The JSON parser (`serde_json`) is a parameter
  `parse: string -> Option<BitUserPartial>`. `None` means a parse error.
- The two prompt replies are supplied strings (`Replies`).
- The effects are returned as an ordered log of `Event`s:
  - reading the config file;
  - the warning;
  - the username prompt and the password prompt.

`get_bit_user` returns a `Result` but has no path that returns an error. The
model keeps the `Result` type and proves the result is always `Ok`. Its error
type is `ConfigError`. That is the only error caught inside, and it is swallowed.
The prompt failures are turned into panics instead (see "## Left out").

## Model

| member | source | states |
|---|---|---|
| `User.NewPartial` | src/user.rs:24-27 | `BitUserPartial::new(u, p)` stores `u` and `p` unchanged |
| `User.DefaultPartial` | src/user.rs:18-22 | the derived default partial record has neither field |
| `User.ConfigPath` | src/user.rs:73 | the config path is the given one, or `"bit-user.json"` when none is given |
| `User.ParseConfigFile` | src/user.rs:72-80 | fails with a read error exactly when the file at the resolved path cannot be read, and with a parse error exactly when it can be read but not parsed; both errors name that path; otherwise yields the parsed record |
| `User.GetOrInsert` | src/user.rs:47 | an existing value is kept; a missing one becomes the given value; the result is always present |
| `User.GetOrInsertWith` | src/user.rs:48-52 | the prompt is issued and its reply inserted only when the value is missing; an existing value and the log are left as they were |
| `User.UnwrapOrDefault` | src/user.rs:66-67 | a present value is returned as is; a missing one becomes the empty string |
| `User.FileCredentials` | src/user.rs:40-44 | an unreadable or unparsable config file contributes no field; otherwise the parsed record, unchanged |
| `User.Pick` | src/user.rs:46-61 | the command-line value when present, else the file's value when present, else the prompt reply |
| `User.NeedsLookup` | src/user.rs:39 | false exactly when the command line gives both the username and the password |
| `User.Resolve` | src/user.rs:38-62 | per field: the command-line value if given; else the config file's if it has one; else the prompt reply |
| `User.Effects` | src/user.rs:38-62 | the log is empty exactly when the command line is complete; otherwise it starts with the read of the resolved config path; it has at most four events, none repeated |
| `User.GetBitUser` | src/user.rs:31-69 | always returns `Ok`; the credentials are `Resolve` (command line > config file > prompt, per field) and the events are `Effects`, in order |
| `UserLemmas.CommandLineComplete` | src/user.rs:36-39 | with both fields on the command line the result is exactly those values, for any file system, parser and replies, and nothing is read or prompted |
| `UserLemmas.CommandLineUsernameKept` | src/user.rs:46-52 | a username from the command line is never replaced by the file's or a prompt's, and its prompt is not issued |
| `UserLemmas.CommandLinePasswordKept` | src/user.rs:55-61 | a password from the command line is never replaced by the file's or a prompt's, and its prompt is not issued |
| `UserLemmas.FileUsernameUsed` | src/user.rs:46-47 | a missing username that the config file has comes from the file, and its prompt is not issued |
| `UserLemmas.FilePasswordUsed` | src/user.rs:55-56 | a missing password that the config file has comes from the file, and its prompt is not issued |
| `UserLemmas.UsernamePromptExactly` | src/user.rs:48-52 | the username prompt fires if and only if neither the command line nor the config file has a username, and then the reply becomes the username |
| `UserLemmas.PasswordPromptExactly` | src/user.rs:57-61 | the password prompt fires if and only if neither the command line nor the config file has a password, and then the reply becomes the password |
| `UserLemmas.ConfigReadExactlyWhenNeeded` | src/user.rs:39-41 | the config file is read if and only if the command line lacks a field; the read comes first, happens once, and uses the resolved path |
| `UserLemmas.PromptOrder` | src/user.rs:41-61 | prompts come after the config file was read, and the username prompt before the password prompt |
| `UserLemmas.ConfigErrorNotFatal` | src/user.rs:40-44 | an unusable config file yields a warning naming its path and counts as an empty record, so each missing field is prompted for |
| `UserLemmas.WarningOnlyOnError` | src/user.rs:41-43 | a warning is logged only when the config file was consulted and produced that error |
| `UserLemmas.ResolvedFieldsHaveSource` | src/user.rs:39-68 | each resolved field comes from the command line, the config file or the prompt reply; together with `User.GetBitUser`, whose result is `Resolve` and whose body asserts both fields present before `unwrap_or_default`, the empty default is never used |
| `UserLemmas.ResolveIdempotent` | src/user.rs:36-39 | resolving again with the result on the command line gives the same credentials and touches neither the file nor the prompts |
| `UserLemmas.ConfigFileSuffices` | src/user.rs:46-56 | with nothing on the command line, any file system holding, at the resolved path, a text that the parser turns into a complete record yields exactly those credentials without any prompt |
| `UserLemmas.PromptsAvoidable` | src/user.rs:46-57 | whatever the command line gives, if the parser accepts some text as a complete record, some file system makes neither prompt fire |
| `UserLemmas.DefaultPathRead` | src/user.rs:73-76 | without a config path, `bit-user.json` is the file read, and a warning names it when it is absent |

## Left out

- `src/main.rs`, the command-line front end, is not modelled. It parses arguments, starts the async runtime, builds the HTTP client and prints coloured output. Its `error == "ok"` tests only choose the text to display.
- `src/xencode.rs` and `src/client.rs` are not part of this model. They hold the xencode codec, the checksum and the gateway client, and they are outside the scope of this model.
- Reading the file and parsing JSON are foreign calls (`std::fs`, `serde_json`). They are parameters of the model: a map from path to contents, and a parse function.
- GetBitUser: does not model the panic raised when a prompt cannot read from the terminal (the `.unwrap()` on the `rprompt`/`rpassword` results). Each prompt is assumed to return a line, which is given as a supplied string.
- The text of the warning is left out, with its colouring and the file-name underlining. So is the exact wording of the two error contexts. An error keeps only its kind (read or parse) and the path it names.
