/**
 * What the three commands share: the supported clients and platforms, the
 * location of each client's configuration file, the ways reading that file
 * can end, and the ways a command can fail.
 */
module Config {
  import opened Json

  const ClaudeClient := "claude"
  const ContinueClient := "continue"

  /** The names the `--client` flag accepts. */
  predicate IsKnownClient(client: string) {
    client == ClaudeClient || client == ContinueClient
  }

  /** `process.platform`, as far as the commands distinguish it. */
  datatype Platform = Darwin | Win32 | OtherPlatform

  /** A path as its components, joined by the platform separator. */
  type Path = seq<string>

  function ClaudeConfigPath(home: string): Path {
    [home, "Library", "Application Support", "Claude", "claude_desktop_config.json"]
  }

  function ContinueConfigPath(home: string): Path {
    [home, ".continue", "config.json"]
  }

  /** How reading and parsing a configuration file ends: the file is
      missing (`ENOENT`), reading or parsing fails for another reason, or it
      yields a document. */
  datatype ReadResult = Absent | Malformed | Parsed(doc: Json)

  /** Why a command stops with an error. */
  datatype Failure =
    | UnknownServer          // the id is not in the registry
    | SourceDistribution     // source distributions cannot be installed
    | UnsupportedPlatform    // neither macOS nor Windows
    | NotImplemented         // Windows, and uninstalling from Continue
    | UnsupportedClient      // no configuration path for the client
    | ReadFailed             // the file could not be read or parsed
    | PromptAborted          // the user left a prompt unanswered
    | TypeError              // the document's shape made the update throw: a member
                             // read on null, an assignment to a primitive, or the
                             // search on a non-array list or a null entry
    | NotInstalled           // uninstalling a server that is not there
    | ConfigNotFound         // uninstalling when the client has no file

  /** A step that either yields a value or stops the command. */
  datatype Result<+T> = Ok(value: T) | Err(reason: Failure)

  /** The effect of a command: an error, or one write of a document. */
  datatype Outcome = Fail(reason: Failure) | Write(path: Path, doc: Json)
}
