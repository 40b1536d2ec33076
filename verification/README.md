# OpenTools CLI: installing, listing and removing MCP servers

This project models the core of the OpenTools command-line tool in Dafny. The tool has three commands:

- `install` adds a Model Context Protocol server from its registry to a client's configuration file.
- `list` shows which registry servers a client's configuration holds.
- `uninstall` removes one again.

Two clients are supported:

- **Claude Desktop** keeps its servers in the `mcpServers` object, keyed by server id.
- **Continue** keeps them in the `experimental.modelContextProtocolServers` array, as entries with a `transport` (command, args, env, type).

The model works on the parsed JSON document (`Json.Json`). Objects are ordered association lists, because key order is what `Object.keys` lists and what `JSON.stringify` writes.

The JavaScript the commands rely on is modelled explicitly:

- reading a member of `undefined` or `null` throws (`Json.Member`);
- assigning to a primitive throws (`Json.SetProp`);
- `a || b` follows JavaScript truthiness (`Json.Or`);
- `delete` is `Json.DeleteProp`;
- array index names behave as properties.

Every command is a pure function of its inputs:

- the registry (`seq<Server>`);
- the platform;
- the home directory and user name;
- how reading the configuration file ended (`Absent`, `Malformed`, `Parsed(doc)`);
- the sequence of submissions typed at the prompts.

Running out of submissions stands for an aborted prompt. A command ends as `Fail(reason)` or as one `Write(path, doc)`.

Modules:

- **Wrappers, Strings, Json:** options, the string functions used (`trim`, `split`, `join`, first-occurrence `replace`, canonical numerals), and the JSON value with its JavaScript operations.
- **Types:** the registry descriptor schema, with the id pattern and the two enumerations.
- **Config:** clients, platforms, configuration paths, read results, failures and outcomes.
- **Params:** the install-time prompts: the runtime argument and the environment variables.
- **Install:** validation, the Claude and Continue merges, and the whole `install` command.
- **Listing:** the `list` command.
- **Uninstall:** the `uninstall` command.
- **Lifecycle:** properties that connect the commands.
- **Samples and Scenarios:** three registry entries, and concrete runs on them.

Behaviour follows the code where the repository's prose description differs from it:

- In single mode, an empty submission answers with the default. When that default is a list (as for `git-ref`), every entry is appended, not one "literal response" (`Params.SingleModeArguments`).
- The written entries have their keys in the order `args`, `command`, `env` (then `type` for Continue), which is also the order they serialise in.
- A comma inside the OS user name splits the personalised `filesystem-ref` default into two paths, because the first answer is split on commas after the default is substituted. `Scenarios.FilesystemFirstInstall` therefore assumes a user name without a comma.
- The registry's Artemis entry has publisher id `Artemis-xyz`, which the schema's id pattern rejects (`Types.UpperCaseRejected`). The model does not claim that the registry satisfies its schema.

## Model

| member | source | states |
|---|---|---|
| Types.MatchesIdPattern | src/data/types.ts:15-19 | the scan accepts a string exactly when it is non-empty and every character is `a`-`z`, `0`-`9` or `-`, as the anchored pattern does |
| Types.UpperCaseRejected | src/data/servers/index.ts:24-25 | the publisher id `Artemis-xyz` in the registry does not satisfy the id pattern of the schema |
| Types.DistributionTypeRoundTrip | src/data/types.ts:25-28 | parsing the name of a distribution type gives it back, and a parsed name is that type's only name |
| Types.RuntimeRoundTrip | src/data/types.ts:30 | parsing the name of a runtime gives it back, and a parsed name is that runtime's only name |
| Types.FindServer | src/commands/install.ts:390 | `servers.find` finds nothing exactly when no descriptor has the id; otherwise it finds the first one with that id |
| Install.ValidateServer | src/commands/install.ts:389-400 | an unknown id fails as unknown; a known id fails exactly when its first descriptor is a source distribution; success returns a registry descriptor with that id |
| Install.InstallConfigPath | src/commands/install.ts:88-112 | a path exists exactly for the two known clients, and it lies under the home directory; any other client fails as unsupported |
| Install.InstallProbe | src/commands/install.ts:240-243 | the `findIndex` callback throws exactly when the element or its `transport` is `undefined` or `null`; it matches exactly when the command is equal and the stored args serialise like `finalArgs` |
| Install.FindFrom | src/commands/install.ts:240-243 | `findIndex` returns the first matching position with every earlier element a miss; it finds nothing exactly when every element misses; it throws at an element that throws, all earlier ones missing |
| Install.FirstHit | src/commands/install.ts:240-243 | a match preceded only by misses is the index the search returns |
| Install.ClaudeInstall | src/commands/install.ts:213-219 | on a document whose `mcpServers` is an object or falsy, the merge succeeds; `mcpServers` becomes the old entries with the name's entry replaced in place (or appended); every other top-level property is unchanged; `mcpServers` is added as the last key only when it was missing |
| Install.ClaudeInstallIdempotent | src/commands/install.ts:213-219 | installing the same entry into the result a second time changes nothing |
| Install.UpdateTransports | src/commands/install.ts:240-250 | a non-array list throws; otherwise the update throws exactly when the search does; with no match a new entry is appended after the unchanged list; with a match, only that entry's `transport` is replaced, at the same position |
| Install.ExperimentalUpdate | src/commands/install.ts:222-250 | on an `experimental` object, the update throws exactly when the list update does; otherwise `useTools` is `true`, the server list is the updated one, and every other property of `experimental` is unchanged |
| Install.ContinueInstall | src/commands/install.ts:220-251 | on a well-shaped document, the Continue merge succeeds unless the search throws; the result is again well-shaped, holds the updated server list and `useTools: true`, and keeps every other top-level property |
| Install.ContinueKeepsExperimental | src/commands/install.ts:222-227 | an existing `experimental` object keeps every property except `useTools` and the server list |
| Install.ContinueCrash | src/commands/install.ts:240-243 | when the search throws, the whole Continue merge throws, so nothing is written |
| Install.WrittenTransportMatches | src/commands/install.ts:232-243 | an entry that carries the transport just written matches the same command and arguments |
| Install.UpdateTransportsIdempotent | src/commands/install.ts:240-250 | updating a list a second time with the same command, arguments and env leaves it as the first update made it |
| Install.ContinueInstallIdempotent | src/commands/install.ts:220-251 | installing the same command, arguments and env into Continue twice gives the document that installing once gives |
| Install.InstallInto | src/commands/install.ts:136-255 | once the file has been read, the install writes only to the client's path; it fails only because a prompt was aborted or because the document's shape made the merge throw (reading a member of `null`, an assignment to a primitive, or the search on a list that is not an array or on a `null` entry); it writes exactly when the prompts are answered and the merge completes, and what it writes is the merged document |
| Install.Preflight | src/commands/install.ts:54-133 | an unknown id fails first; a valid server fails on an unsupported platform and on Windows; success means a valid server, macOS, a known client, that client's path, and a readable file, with a missing file read as `{}` |
| Install.RunInstall | src/commands/install.ts:54-86 | an unknown id fails; a write happens only for a valid server on macOS, with a known client and a file that was missing or readable, and it goes to that client's configuration path |
| Install.ClaudeCommandWrites | src/commands/install.ts:136-254 | for Claude Desktop, on a readable file whose `mcpServers` is an object (or missing), the command writes exactly when the server is valid, the platform is macOS and the prompts are answered; it writes to Claude Desktop's path a document whose servers are the old ones with the server's entry stored under its id, and every other property is kept |
| Install.ContinueCommandWrites | src/commands/install.ts:136-254 | for Continue, on a readable well-shaped file, the command writes exactly when the server is valid, the platform is macOS, the prompts are answered and the search does not throw; it writes to Continue's path a well-shaped document holding the updated server list, and every other top-level property is kept |
| Params.MorePathsAborted | src/commands/install.ts:162-173 | the loop for more paths never ends (the prompt is aborted) exactly when no submission is blank after trimming |
| Params.AcceptedAt | src/commands/install.ts:196-205 | an env prompt accepts the first submission its validation lets through; every earlier one was rejected; a required variable rejects only the empty string |
| Params.AskAll | src/commands/install.ts:191-210 | one answer per declared variable, each one that variable's validation accepts; what is left for later prompts is a suffix of the submissions |
| Params.EnvAnswers | src/commands/install.ts:195-205 | the env prompts are aborted exactly when some variable, searching after the previous variable's answer, finds no submission its validation accepts; otherwise answer `i` is the submission at the `i`-th position of that chain of first accepted submissions, and what follows the last answer is left over |
| Params.ChainInRange | src/commands/install.ts:195-205 | the answers are taken at increasing positions, each within the submissions |
| Params.EnvEntries | src/commands/install.ts:206-209 | with distinct names, a variable is a key of `answers` exactly when its answer is not blank after trimming, and the stored value is the untrimmed answer |
| Params.EnvKeyOrder | src/commands/install.ts:195-209 | the keys of `answers` are the names with non-blank answers, in declaration order |
| Params.KeptNamesAreNames | src/commands/install.ts:195-209 | every key of `answers` is a declared variable |
| Params.CollectedEnv | src/commands/install.ts:191-210 | once the runtime-argument prompts are done, the install goes on exactly when every variable finds an answer it accepts in the remaining submissions, and the env written is built from exactly those answers |
| Params.Collect | src/commands/install.ts:140-188 | `finalArgs` always starts with the static arguments; it is exactly them when there is no runtime argument; with neither a runtime argument nor variables, no prompt can be aborted |
| Params.SingleModeArguments | src/commands/install.ts:176-188 | single mode appends the submission when it is not empty; otherwise it appends the text default, or every entry of a list default |
| Params.CollectedArguments | src/commands/install.ts:184-188 | `finalArgs` is the static arguments followed by all the runtime values, in order |
| Params.MultipleModeArguments | src/commands/install.ts:153-175 | multiple mode appends the trimmed comma-separated pieces of the first answer (empty pieces kept), then each later submission trimmed, up to the first blank one, every one of them non-empty |
| Params.AcceptedDefaultPaths | src/commands/install.ts:145-159 | accepting the default and then finishing appends exactly the personalised default paths, trimmed, when none contains a comma |
| Strings.SplitJoin | src/commands/install.ts:159 | splitting on a separator undoes joining with it when no part contains it |
| Strings.SplitJoinedTrimmed | src/commands/install.ts:156-159 | splitting the `", "`-joined default on `,` and trimming every piece gives the trimmed default entries |
| Strings.ReplaceFirst | src/commands/install.ts:146-150 | `replace` with a string pattern rewrites only the first occurrence, and leaves a string without one unchanged |
| Json.Put | src/commands/install.ts:214 | assignment stores the value under the key, keeps every other key's value and position, appends a new key last, and keeps keys unique |
| Json.Remove | src/commands/uninstall.ts:87 | `delete` makes the key absent, keeps every other key's value, and on unique keys takes out exactly the one field |
| Json.RemovePut | src/commands/uninstall.ts:87 | deleting a key just assigned gives the object that deleting it from the original gives |
| Json.PutSame | src/commands/install.ts:214 | assigning the value a key already holds changes nothing |
| Json.SetProp | src/commands/install.ts:214-215 | assigning to an object is `Put`; assigning to anything but an object or array throws; a non-index name assigned on an array does not change what is written |
| Json.DeleteProp | src/commands/uninstall.ts:87 | deleting from an object is `Remove`; deleting from `null` throws; deleting from an array keeps its length |
| Install.WrittenTransportMissesOther | src/commands/install.ts:240-243 | an entry holding the transport written for one argument list does not match another argument list of the same command |
| Install.UpdatedListMisses | src/commands/install.ts:240-250 | writing the entry for one argument list into a list without a match for another keeps it without one |
| Install.ContinueSecondEntry | src/commands/install.ts:220-251 | installing the same command with a different argument list into Continue keeps the list the first install wrote as it is and appends exactly one transport after it |
| Json.StrArrayInjective | src/commands/install.ts:242 | two string arrays serialise alike only when they hold the same strings in the same order |
| Listing.RegisteredOnly | src/commands/list.ts:75-77 | the filter keeps exactly the keys that are ids in the registry |
| Listing.RegisteredInKeyOrder | src/commands/list.ts:72-77 | the kept keys are in the order of the configuration's keys |
| Listing.ClaudeIds | src/commands/list.ts:60-100 | a missing file lists nothing; an unreadable file or a `null` document throws; otherwise the ids listed are exactly the `mcpServers` keys that are registered |
| Listing.ClaudeInKeyOrder | src/commands/list.ts:72-77 | the Claude listing follows the key order of `mcpServers` and shows no id twice |
| Listing.ListProbe | src/commands/list.ts:119-121 | the `some` callback matches only when the transport has the command and its args start with the registry's static args |
| Listing.SomeFrom | src/commands/list.ts:119-122 | `some` is true only at an entry that matches and throws only at an entry whose probe throws, in both cases with every earlier entry missing; it is false exactly when every entry misses |
| Listing.SomeFromExact | src/commands/list.ts:119-122 | when no entry's probe throws, `some` does not throw, and it is true exactly when some entry matches |
| Listing.MatchedIds | src/commands/list.ts:117-124 | the Continue scan completes exactly when the search throws for no registry server |
| Listing.MatchedIdsExact | src/commands/list.ts:117-124 | a completed scan lists a registry server's id exactly when some stored entry matches that server |
| Listing.MatchedInRegistryOrder | src/commands/list.ts:117-124 | the listed ids follow registry order, and none appears twice when the registry's ids are distinct |
| Listing.ContinueIds | src/commands/list.ts:102-147 | a missing file lists nothing; an unreadable file or a `null` document throws; on a well-shaped document the ids are those of the Continue scan |
| Listing.TreeShowsIds | src/commands/list.ts:80-87 | the tree shows the ids in order, one line each after the heading, with the corner prefix on exactly the last line |
| Listing.RunList | src/commands/list.ts:32-48 | without a flag, `list` never fails; with a flag, it fails exactly when that client's scan throws |
| Listing.ListAllShows | src/commands/list.ts:40-57 | without a flag, errors are swallowed; the Claude ids are shown, then the Continue ids; the closing message appears exactly when neither client shows a server |
| Listing.ListOneShows | src/commands/list.ts:40-57 | with a flag, the chosen client's ids are shown, and the message naming that client appears exactly when there are none |
| Uninstall.RemoveClaude | src/commands/uninstall.ts:78-90 | a `null` document throws; a falsy `mcpServers` or a falsy entry means the server is not installed; success implies both were truthy |
| Uninstall.ClaudeUninstall | src/commands/uninstall.ts:81-90 | on a well-shaped document, removal succeeds exactly when the entry is truthy; only that entry leaves `mcpServers`; every other property and the top-level key order are unchanged |
| Uninstall.RunUninstall | src/commands/uninstall.ts:32-114 | an unsupported platform fails first; Windows and Continue always fail; a missing file fails without a write; a write happens only for Claude Desktop on macOS, to its configuration path, and when the removal succeeds the document it wrote is what the removal returned |
| Uninstall.ClaudeCommandRemoves | src/commands/uninstall.ts:75-92 | for Claude Desktop on macOS with a readable file whose `mcpServers` is an object (or missing), the command writes exactly when the server's entry is truthy and otherwise fails as not installed; it writes to Claude Desktop's path a document with that one entry removed and every other property kept |
| Lifecycle.ClaudeInstallThenList | src/commands/install.ts:213-219 | after a Claude install of a registered id, listing Claude Desktop shows that id |
| Lifecycle.ClaudeInstallThenUninstall | src/commands/uninstall.ts:81-90 | uninstalling what was just installed succeeds; `mcpServers` becomes the old entries without the name, which is exactly the old object when the name was new; every other property is unchanged |
| Lifecycle.ClaudeUninstallThenList | src/commands/uninstall.ts:87 | after a successful uninstall, listing Claude Desktop does not show the id |
| Lifecycle.ContinueInstallThenList | src/commands/list.ts:117-124 | when the existing entries all have a transport with an args array, installing a registry server into Continue (static args plus any runtime values) makes the listing show it |
| Lifecycle.WrittenEntryListed | src/commands/list.ts:119-121 | an entry written by install is recognised by the listing probe of the server it came from |
| Scenarios.FilesystemFirstInstall | src/data/servers/index.ts:300-327 | installing `filesystem-ref` into a missing Claude Desktop file, accepting the default and finishing, writes `mcpServers` holding the one entry `npx -y @modelcontextprotocol/server-filesystem /Users/<user>/Desktop` with an empty env |
| Scenarios.UserDesktop | src/commands/install.ts:145-151 | the `filesystem-ref` default `/Users/username/Desktop` is shown as `/Users/<user>/Desktop` |
| Scenarios.GitSecondRepository | src/data/servers/index.ts:351-378 | a stored `git-ref` entry is listed as `git-ref`; installing it again for a different repository appends a second entry |
| Scenarios.ArtemisOutsideSchema | src/data/types.ts:14-22 | the registry's Artemis descriptor does not satisfy the schema, whose publisher id pattern admits no upper-case letter |
| Scenarios.ArtemisKey | src/data/servers/index.ts:4-31 | the Artemis install asks once for the key; a non-blank key is stored under `ARTEMIS_API_KEY`, untrimmed |

## Left out

- Restarting the client (`promptForRestart`, `restartClient`, src/commands/install.ts:282-387) is process discovery, `kill` and relaunch through the shell. It is I/O and is not modelled.
- File-system calls, directory creation and JSON text are not modelled. A read is modelled by its outcome, and a write by the document written.
- The commands' argument and flag parsing is not modelled. `Listing.RunList` assumes what the flag parser ensures: the `--client` value is one of the two clients.
- Log lines, error message texts and the OSC-8 hyperlink escapes are left out. Only the kind of failure and the listed ids are modelled.
- The registry table is a parameter. Three of its entries are written out in `Samples` for the concrete scenarios.
- `Types.SatisfiesSchema` states only the id constraints of the descriptor schema. The `url()` checks on `publisher.url` and `sourceUrl` (src/data/types.ts:21, :24) are not modelled.
- `Types.McpConfig` carries `runtimeArgs`, which the `MCPConfig` type at src/data/types.ts:8-12 does not declare. `install` reads it from the registry entry (src/commands/install.ts:141), so the model gives it a field.
- Numbers in documents are integers; floating point is not modelled.
- JavaScript's ordering of integer-like object keys before other keys is not modelled. Nor are the `length` and inherited `Object.prototype` properties, `__proto__`, or UTF-16 code-unit indexing (strings are sequences of characters).
- `$` patterns in the replacement string of `replace` are not interpreted. A user name containing `$` is not modelled faithfully.
- `validateServer` is called twice by `install`, once in `run` and once in `installMCPServer`. The model calls it once, since both calls see the same registry.
- In `uninstall`, the "not installed" error is raised inside the `try` and reported as a read error. The model keeps the reason `NotInstalled`.
- Windows install and uninstall, and uninstall from Continue, are modelled only by the failure they produce.
- Listing.MatchedIds: the function's own contract states only when the scan completes. Which ids it lists is stated by `Listing.MatchedIdsExact`, and their order by `Listing.MatchedInRegistryOrder`.
- Lifecycle.ContinueInstallThenList: it assumes that every existing entry has an object transport with an args array. Entries of other shapes can make the listing throw, and that case is stated by `Listing.MatchedIds`.
- Scenarios.FilesystemFirstInstall: it assumes that the user name contains no comma, for the reason given above.
- Scenarios.ArtemisKey: it assumes a non-empty key. An empty key is rejected and asked again, as `Params.AcceptedAt` states.
