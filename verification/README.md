# montra service lifecycle, in Dafny

montra is a command-line tool for running a developer's local services. Each
service runs in its own tmux window or as a docker-compose container. The
tool keeps services, packages and service groups in a JSON store. This
project models the core of montra as pure functions over explicit states
and proves properties of them:

- **Lifecycle.** `start`, `stop`, `restart` and `status`, for one service,
  for `all`, and for a group. A `docker_compose_service` is brought up and
  stopped with docker-compose on its own compose file. Any other service
  goes to a runtime backend: under tmux it runs in a window named after its
  alias or name, inside a session named after its type; under docker it is
  one service of a shared compose file. `start` reads the global runtime,
  `stop` the service's own.
- **tmux layer.** `execTmux` builds the tmux command line and classifies the
  result. The session and window helpers list, create, kill and probe
  sessions and windows on an abstract tmux server.
- **docker layer.** The container and image listings, `docker-compose up -d`
  and `stop` for a compose file, stopping a container by port, and
  finding a compose service by its image.
- **The store.** Service, package and group CRUD: add, remove, create and
  delete, with the error messages the commands throw.
- **Configuration.** `config set` for the recognised keys, with its validation.
- **The watcher.** One tick of the background status watcher, and the
  manager that starts it only once.
- **Rendering.** The box renderer: word wrapping, one box, boxes side by side.
  Also the key/value pretty printer.
- **The tmux spec parser.** It turns one usage line of tmux into a command's
  name, alias, flags, options and positional arguments.

The world outside the program enters as parameters: child-process results,
the tmux server's windows, the docker listings, compose files and the store's
contents. Module `World` holds them. Every operation returns either its value
and the new state, or the message it throws and the state at that moment
(`Outcomes.Outcome`). The effects an operation has (commands run, containers
stopped, notifications sent) are recorded in that state, in order.

JavaScript behaviour the code depends on is written out in `JsStrings` and
`Lists`: `trim` with the `\s` whitespace set, `split`/`join`, `padEnd`,
`repeat` throwing on a negative count, a `for…of` over a string visiting its
characters, and `filter`.

Three readings of the store follow the code rather than its declared types.
The `Service` shape in src/utils/store.ts:22-30 has no `runtime` field, but
src/commands/service/add.ts:123 writes one, so `Store.Service.runtime` is
optional. A port of 0 counts as no port (`Store.HasPort`), because
src/commands/service/status.ts:66 tests the port for truthiness. `stop`
takes a list of names (src/commands/service/stop.ts:11), but
src/commands/service/restart.ts:16 and src/commands/group/stop.ts:21 hand it
one string, which its loop visits character by character. Both call sites
are modelled as written. The corrected readings, which pass `[name]`, are
modelled beside them (see "## Findings").

## Model

| member | source | states |
|---|---|---|
| Outcomes.ClassifyThrown | src/lib/exec.ts:21-29 | a thrown value is an `exec` error exactly when it is an object with `code` and `message`, keeping its code; every other value is an `unknown` error; the message is kept either way |
| Outcomes.Execute | src/lib/exec.ts:14-30 | `execute` succeeds exactly when the command completed, with its stdout and stderr; a throw becomes the classified failure, never a throw |
| ExecTmux.OptionTokens | src/lib/tmux/execTmux.ts:82-84 | every option entry contributes its key and then its value, in insertion order, an `undefined` value joining as the empty string |
| ExecTmux.BuildTmuxCommand | src/lib/tmux/execTmux.ts:70-89 | the built command line starts with `tmux ` and the subcommand |
| ExecTmux.BuildTokensRoundTrip | src/lib/tmux/execTmux.ts:76-88 | splitting the built line on spaces gives back `tmux`, the subcommand, all flags, each option key followed by its value, then the arguments, in that order whatever the call order, when no part contains a space |
| ExecTmux.AbsentOptionValueLeavesEmptyToken | src/lib/tmux/execTmux.ts:82-84 | an option given as `undefined` still emits its key, followed by an empty token (two spaces in a row) |
| ExecTmux.ExecTmux | src/lib/tmux/execTmux.ts:100-126 | a line that does not start with `tmux ` after trimming is refused with the internal error "Expected a tmux command" and nothing runs; otherwise a completed run is a success with its output, a thrown object with `code` and `message` is an `exec` error and anything else is `unknown` |
| ExecTmux.BuiltCommandPassesGuard | src/lib/tmux/execTmux.ts:107-112 | every line the builder produces passes the `tmux ` prefix guard |
| ExecTmux.GuardRefusesOtherCommands | src/lib/tmux/execTmux.ts:107-112 | a line not starting with `tmux ` always fails with an internal error, whatever running it would have produced |
| Tmux.EscapeShellArg | src/lib/tmux/tmux.ts:12-14 | the escaped argument is single-quoted and POSIX shell quote removal reads it back as exactly the argument |
| Tmux.EscapeRound | src/lib/tmux/tmux.ts:13 | inside an open single quote, the argument with each `'` replaced by `'\''`, followed by the closing quote, reads back as the argument |
| Tmux.WrapShellCommand | src/lib/tmux/tmux.ts:16-28 | the shell reads the wrapped word back as exactly the payload: the nvm prefix when the command contains `npm `, the command, and ` ; exec zsh` when keep-open is asked for |
| Tmux.WrapShellCommandShape | src/lib/tmux/tmux.ts:19-25 | with `npm ` the payload starts with the nvm prefix; with keep-open it ends in ` ; exec zsh`; with neither it is the bare command |
| Tmux.ListingRoundTrip | src/lib/tmux/tmux.ts:52 | trimming, splitting on newlines and dropping empty strings gives back the listed names when each is a non-empty single shell word |
| Tmux.WellFormedNameIsLine | src/lib/tmux/tmux.ts:52 | a name that is a single shell word is a non-empty line with no whitespace at either end, so `trim` and the newline split leave it whole |
| Tmux.SessionListingOfValid | src/lib/tmux/tmux.ts:36-54 | the session listing of a well-formed server parses back to its session names |
| Tmux.WindowListingOfValid | src/lib/tmux/tmux.ts:83-108 | the window listing of a session of a well-formed server parses back to its window names |
| Tmux.Render | src/lib/tmux/tmux.ts:37-41 | every command line the operations issue passes the `execTmux` prefix guard |
| Tmux.RemoveFirst | src/lib/tmux/tmux.ts:260-264 | dropping a killed window keeps the others in order, removes exactly one entry when present, and leaves distinct names without the killed one |
| Tmux.Issue | src/lib/tmux/tmux.ts:43 | issuing a command records it; a faulted command returns its classified error and leaves the server alone; otherwise the server's answer is reported and its new state kept |
| Tmux.IssueIsExecTmux | src/lib/tmux/execTmux.ts:100-126 | what an operation sees from one issued command is exactly what `execTmux` reports for the rendered line and the server's (or the fault's) answer |
| Tmux.ListSessions | src/lib/tmux/tmux.ts:36-54 | on a well-formed unfaulted server the result is exactly the session names, none for an empty server; a status-1 `exec` failure reads as no sessions, any other failure is returned; the server is unchanged |
| Tmux.SessionExists | src/lib/tmux/tmux.ts:56-64 | false whenever the listing fails; on a well-formed unfaulted server, true exactly when the session exists |
| Tmux.EnsureSessionExists | src/lib/tmux/tmux.ts:66-81 | an internal error "Session <name> does not exist" exactly when `sessionExists` is false |
| Tmux.ListWindows | src/lib/tmux/tmux.ts:83-108 | a missing session fails with an internal error before any `list-windows` is issued; a status-1 failure reads as no windows; on a well-formed unfaulted server the result is exactly the session's windows; the server is unchanged |
| Tmux.WindowExists | src/lib/tmux/tmux.ts:110-124 | false when the session is missing or the listing fails; on a well-formed unfaulted server, true exactly when the session has the window |
| Tmux.EnsureWindowExists | src/lib/tmux/tmux.ts:126-147 | an internal error exactly when `windowExists` is false |
| Tmux.NewSession | src/lib/tmux/tmux.ts:149-186 | an existing session gives "Session <name> already exist" with only the listing issued; otherwise exactly one `new-session` is issued, and on a well-formed unfaulted server, for session and window names that are single shell words, the session is appended with exactly that one window |
| Tmux.KillSession | src/lib/tmux/tmux.ts:188-199 | issues one `kill-session` with no existence check; unfaulted, it removes the session of exactly that name, or else the one session whose name starts with it, and succeeds; when no name or several names start with it, it fails with status 1 and nothing changes |
| Tmux.KillSessionByPrefix | src/lib/tmux/tmux.ts:188-199 | with distinct session names, killing a name no session has exactly removes session `n` and succeeds if and only if `n` is the only session whose name starts with it |
| Tmux.NewWindow | src/lib/tmux/tmux.ts:201-246 | a missing session fails first and an existing window name second, each with an internal error and no create issued; the server changes at most by the one `new-window` |
| Tmux.NewWindowOnValidServer | src/lib/tmux/tmux.ts:201-246 | on a well-formed unfaulted server a missing session or a window the session already has gives an internal error and no change; otherwise a window whose name is a single shell word is appended to exactly that session |
| Tmux.NewWindowGrowsOnlyAfterChecks | src/lib/tmux/tmux.ts:214-237 | the server changes only after the session check passed and an answered window listing lacked the window, and then by exactly that window |
| Tmux.KillWindow | src/lib/tmux/tmux.ts:248-272 | an absent window gives an internal error and no `kill-window` is issued; otherwise exactly one `kill-window` for that session and window is issued |
| Tmux.KillWindowOnValidServer | src/lib/tmux/tmux.ts:248-272 | on a well-formed unfaulted server (names are single shell words that tmux resolves only by exact match: no leading `@ % ! ^ + - { =`, not all digits) the window is removed exactly when the session has it; otherwise an internal error and no change |
| Tmux.AppendSessionKeepsValid | src/lib/tmux/tmux.ts:173-178 | appending a session with a new, well-formed name and one well-formed window keeps the server well formed |
| Tmux.NewSessionKeepsValid | src/lib/tmux/tmux.ts:149-186 | `newSession` keeps the server well formed for well-formed names, whatever the faults |
| Tmux.NewWindowKeepsValid | src/lib/tmux/tmux.ts:201-246 | `newWindow` keeps the server well formed for a well-formed window name whenever the window listing is answered |
| Tmux.FaultedWindowListingAdmitsDuplicate | src/lib/tmux/tmux.ts:117-121 | when the window listing fails, the duplicate check passes for a window the session already has and the server ends with two windows of that name |
| Tmux.KillWindowKeepsValid | src/lib/tmux/tmux.ts:248-272 | `killWindow` keeps the server well formed, whatever the faults |
| Tmux.KillSessionKeepsValid | src/lib/tmux/tmux.ts:188-199 | `killSession` keeps the server well formed, whatever the faults |
| Status.LivenessProbe | src/commands/service/status.ts:112-133 | the probe holds exactly when the manifest query succeeds and the HTTP request to the port and the trimmed printed path succeeds; the request is run only after a successful query; the store and tmux are untouched |
| Status.SessionCheck | src/commands/service/status.ts:135-154 | under tmux: true exactly when the window listing of the type's session succeeds and holds the service's name; under docker: true exactly when some active container name contains the name; any other runtime throws `Invalid runtime "<runtime>" specified in config` |
| Status.AnyContains | src/commands/service/status.ts:150 | true exactly when some name contains the substring |
| Status.GetServiceStatus | src/commands/service/status.ts:55-85 | an unknown name throws "Service with the name <name> does not exist"; a throw otherwise only comes from the session check of a service without a port; the store and the server are unchanged |
| Status.StatusWithPort | src/commands/service/status.ts:66-78 | with a port the status is RUNNING exactly when the liveness probe holds or `lsof` succeeds with non-empty output, STOPPED otherwise, never SESSION_EXISTS |
| Status.StatusWithoutPort | src/commands/service/status.ts:80-84 | without a port the status is SESSION_EXISTS exactly when the session check holds, STOPPED when it does not, never RUNNING, and it throws exactly when the check throws |
| Status.TmuxStatusReflectsServer | src/commands/service/status.ts:135-146 | on a well-formed tmux server whose listings answer, a port-less service is SESSION_EXISTS exactly when the session named after its type has a window carrying its name |
| Status.StatusIgnoresHistory | src/commands/service/status.ts:55-85 | the status depends only on the store and the tmux server, not on commands issued or lines written before |
| Store.TypeName | src/utils/store.ts:13-20 | every type is stored as one of the four `SERVICE_TYPES` spellings |
| Store.ParseType | src/utils/store.ts:13-20 | a string reads back as a type exactly when it is one of `SERVICE_TYPES`, and then as the type with that spelling |
| Store.TypeNamesRoundTrip | src/utils/store.ts:13-18 | there are exactly four distinct spellings and each type reads back as itself |
| Store.Defaults | src/utils/store.ts:71-78 | the defaults are runtime `tmux`, `REPO_DIR` or else `~/repos`, and empty lists |
| Store.ParseKey | src/utils/store.ts:56-65 | a key reads back exactly when it is one of the six declared keys |
| Store.ValidatorsAsDeclared | src/utils/store.ts:59-64 | the runtime accepts exactly `tmux` and `docker`; the four list-valued keys reject every string |
| Store.FindService | src/commands/service/status.ts:58-60 | the first service whose name or alias equals the string, and none exactly when no service answers to it |
| Store.FindGroup | src/commands/group/start.ts:10-12 | the first group with the name, and none exactly when no group has it |
| Store.PathJoin | src/commands/service/start.ts:64-68 | the joined path is the first segment, one `/`, then the second segment, and splits back into the two at that `/` |
| Docker.ContainerName | src/lib/docker/docker.ts:9-10 | a container's name is its first name with one leading `/` removed, and there is none when the container has no names |
| Docker.ActiveContainers | src/lib/docker/docker.ts:3-12 | the listing succeeds exactly when every container has a name, and then holds each container's name in the daemon's order |
| Docker.ContainerOnPort | src/lib/docker/docker.ts:19-21 | the first container with a `Ports` array holding a binding whose public port is the port, and none exactly when no container publishes it |
| Docker.StopContainerByPort | src/lib/docker/docker.ts:14-29 | nothing is stopped exactly when no container publishes the port; otherwise the stopped id belongs to a container that publishes it |
| Docker.PulledImages | src/lib/docker/docker.ts:31-42 | a tag is listed exactly when it is the first tag of some image with a non-empty `RepoTags` array; there are no more entries than images |
| Docker.PulledImagesAppend | src/lib/docker/docker.ts:36-41 | the image listing of two snapshots in a row is the concatenation of their listings |
| Docker.ComposeCommandRoundTrip | src/lib/docker/dockerCompose.ts:27-35 | the compose line reads back, word by word, as `docker-compose -f <resolved path>`, `up -d` or `stop`, then the service names |
| Docker.DockerCompose | src/lib/docker/dockerCompose.ts:22-78 | the line run is the compose command for the resolved path; the result is success exactly when it completed and otherwise the classified failure; nothing throws |
| ComposeFile.Scan | src/utils/findComposeServiceByImage.ts:27-34 | a match is an entry whose image is non-empty and contains the search string, returned with its name and image; null exactly when every entry is a mapping without such an image |
| ComposeFile.ScanFindsFirst | src/utils/findComposeServiceByImage.ts:27-32 | the match is the first qualifying entry in the order `Object.entries` lists them |
| ComposeFile.FindComposeServiceByImage | src/utils/findComposeServiceByImage.ts:4-35 | a missing file throws "❌ docker-compose.yml not found at: <path>"; a file whose read fails, or whose YAML the loader rejects, throws the reader's or loader's error; a lookup returns a service or "none" only for a loaded document; a document without `services` throws "❌ No services found in coms compose file."; an empty document throws; otherwise the result is the scan of the services |
| World.ForEachAppend | src/commands/group/start.ts:20-22 | a sequential loop over `a + b` runs over `a` and, unless that threw, continues over `b` from where it left off |
| World.FirstThrowAborts | src/commands/group/start.ts:20-22 | when the step for the first name throws, the loop throws the same message from the same state |
| World.ForEachSingle | src/commands/group/start.ts:20-22 | a loop over one name is the step for it |
| World.ForEachPassesIff | src/commands/group/start.ts:20-22 | a loop whose steps keep an invariant passes exactly when every name is accepted, and keeps the invariant |
| World.ForEachReturnedAccepts | src/commands/group/start.ts:20-22 | a loop that returned visited only names its steps accept |
| Lifecycle.RunCompose | src/lib/docker/dockerCompose.ts:22-49 | a compose helper succeeds exactly when the compose line for the resolved path completed; only the effect list changes, by exactly that line |
| Lifecycle.StartCompose | src/commands/service/start.ts:62-80 | compose up of `<repositoryDirectory>/<repository>/docker-compose.yml` with the service name; success logs "✅ <name> started", failure throws "Failed to start service <name>: <message>" |
| Lifecycle.StartTmux | src/commands/service/start.ts:82-122 | with no session named after the type, a session is created with window `alias ?? name` and a failed create throws; otherwise a window is created and a failure is only logged; the store is untouched |
| Lifecycle.StartDocker | src/commands/service/start.ts:124-164 | a lookup in the shared `coms` compose file that throws rethrows; no match only logs "❌ Service … is not setup in …"; a match is brought up, and a failed compose up throws |
| Lifecycle.Launch | src/commands/service/start.ts:33-59 | compose services use their own compose file; a lambda without a port throws "Starting lambdas running in localstack is not implemented yet"; otherwise the global runtime decides (tmux, docker, or "Invalid runtime" thrown) and exactly one `StartedService` with the current time is appended when the runtime start returned; a throw writes nothing |
| Lifecycle.StartOne | src/commands/service/start.ts:21-59 | an unknown name throws "Service with the name <name> does not exist"; a RUNNING service is left alone; any other is launched from the state the status probe left; the store changes at most by one appended start record |
| Lifecycle.StartOneOnlyRecords | src/commands/service/start.ts:21-59 | a start of one name changes the store at most by one `StartedService`, for a stored service, at the current time |
| Lifecycle.ForEachOnlyRecords | src/commands/service/start.ts:14-16 | a loop whose every step only adds start records only adds start records |
| Lifecycle.Start | src/commands/service/start.ts:13-19 | whatever it starts or throws, the store only gains `StartedService` entries stamped with the current time, each for a stored service; an unknown name throws "Service with the name <name> does not exist" with nothing done; `all` over an empty store does nothing |
| Lifecycle.StartOneRaisedWritesNothing | src/commands/service/start.ts:56-59 | a start that throws appends no start record |
| Lifecycle.StartingAnOpenWindowStillRecords | src/commands/service/start.ts:104-121 | a port-less tmux service whose window is already open reads as not running, its duplicate window create is refused and only logged, and a start record is appended all the same |
| Lifecycle.StopCompose | src/commands/service/stop.ts:57-75 | compose stop of the service's own compose file; success logs "✅ <name> stopped", failure throws "Failed to stop service <name>: <message>" |
| Lifecycle.StopTmux | src/commands/service/stop.ts:77-96 | kills window `alias ?? name` of the type's session; never throws: success logs "stopped", an internal error logs "ℹ️ Nothing changed, <name> was not running", any other failure is logged as a warning |
| Lifecycle.StopDocker | src/commands/service/stop.ts:98-129 | as the docker start with compose stop; a failure throws with the message "Failed to start service …", as the code words it |
| Lifecycle.StopByPort | src/lib/docker/docker.ts:14-29 | stops the first container publishing the port, if any, and changes nothing else |
| Lifecycle.StopOnRuntime | src/commands/service/stop.ts:45-54 | the store is never written; under tmux it never throws and the server changes only by the window kill; under docker the tmux server is untouched; any other runtime throws `Unknown runtime "<runtime>" configured for service <name>` with nothing done |
| Lifecycle.StopService | src/commands/service/stop.ts:22-55 | an unknown name throws; a compose service is stopped by compose; a lambda without a port throws "Stopping lambdas … not implemented yet"; a lambda with one has its container stopped and then goes on to the runtime branch; the store is never written |
| Lifecycle.Stop | src/commands/service/stop.ts:11-20 | the store is never written, whatever it stops or throws; a stop that returned found a service for every name given, unless the first is `all`; no names stop nothing |
| Lifecycle.ForEachKeepsConfig | src/commands/service/stop.ts:17-19 | a loop whose every step keeps the store keeps it |
| Lifecycle.StopOneName | src/commands/service/stop.ts:11-20 | stopping a one-name list other than `all` is stopping that name |
| Lifecycle.RestartOne | src/commands/service/restart.ts:16-17 | restart as written: the store only gains start records, and a restart that returned found a service for every single character of the name, since `stop` is handed the string |
| Lifecycle.Restart | src/commands/service/restart.ts:8-18 | the store only gains start records; `all` over an empty store does nothing; a restart of one name that returned found a service for each character of the name |
| Lifecycle.RestartStopsCharacters | src/commands/service/restart.ts:16 | restarting a name whose first letter no service answers to throws "Service with the name <letter> does not exist" before anything is stopped or started |
| Lifecycle.RestartOneIntended | src/commands/service/restart.ts:16-17 | the restart with `stop` handed `[name]`: the store only gains start records, and an unknown name throws before anything is stopped or started |
| Lifecycle.RestartIntended | src/commands/service/restart.ts:8-18 | the corrected restart over one name or over `all`: the store only gains start records, an unknown name throws with nothing done, and `all` over an empty store does nothing |
| Lifecycle.RestartIntendedStopsThenStarts | src/commands/service/restart.ts:16-17 | the corrected restart stops exactly the named service and then starts it; a stop that throws means no start |
| Lifecycle.GroupStart | src/commands/group/start.ts:7-23 | an unknown group throws `Service group with the name "<group>" does not exist`; the store only gains start records; an empty group does nothing; a group start that returned found a service for every member not named `all` |
| Lifecycle.GroupStartUnknownFirstAborts | src/commands/group/start.ts:20-22 | a group whose first member, other than `all`, names no service throws "Service with the name <member> does not exist" and starts nothing |
| Lifecycle.GroupStop | src/commands/group/stop.ts:7-23 | group stop as written, each member handed to `stop` as a string: an unknown group throws, the store is never written, and an empty group does nothing |
| Lifecycle.GroupStopStopsCharacters | src/commands/group/stop.ts:21 | a group whose first member's first letter names no service throws at that letter and stops nothing |
| Lifecycle.GroupStopIntended | src/commands/group/stop.ts:7-23 | the corrected group stop, each member handed as `[member]`: the store is never written, an empty group does nothing, and a group stop that returned found a service for every member not named `all` |
| Lifecycle.GroupStopIntendedStopsMembers | src/commands/group/stop.ts:20-22 | with no member named `all`, the corrected group stop stops exactly the members, once each, in order |
| Watcher.Remaining | src/watcher.ts:17-27 | the entries kept are entries of the list, each still within its grace period (`expectedSecondsToStart ?? 10` seconds, tripled under docker), in order |
| Watcher.RemainingKeepsUnexpired | src/watcher.ts:24-26 | every entry still within its grace period is kept |
| Watcher.RemainingFull | src/watcher.ts:36-38 | when nothing was dropped, the kept list is the recorded list and no entry had expired |
| Watcher.Sweep | src/watcher.ts:19-34 | the loop's kept list is exactly the reference `Remaining`; it never changes the store or the tmux server |
| Watcher.Tick | src/watcher.ts:5-39 | a tick that finishes leaves the store holding exactly the entries still within their grace period and changes nothing else in it; it writes nothing when none expired, and nothing when a status probe throws |
| Watcher.NoneExpiredKeepsAll | src/watcher.ts:36-38 | when no entry has expired the kept list is the recorded list |
| Watcher.StatusNotifiesNothing | src/watcher.ts:29 | a status probe runs commands but sends no notification |
| Watcher.SweepNotifiesAlarms | src/watcher.ts:19-34 | the loop notifies "⚠️ <name> possibly failed to start." for exactly the expired entries whose status is not RUNNING, in order, judged on the state the tick started from |
| Watcher.TickNotifiesAlarms | src/watcher.ts:5-39 | a finished tick has notified exactly the alarms of the state it started from |
| Watcher.EnsureWatcherRunning | src/watcherManager.ts:9-37 | `tmux` is probed first and nothing else happens without it; an existing watcher window means nothing is created; otherwise a `montra_internal` session with a `watcher` window is created and a failure is only logged; the store is never written |
| Watcher.WatcherRunsBareCommand | src/watcherManager.ts:30-31 | the watcher window runs exactly `node dist/src/watcher.js`, without the nvm prefix and without a shell kept open |
| Watcher.WatcherRunningAfterEnsure | src/watcherManager.ts:9-37 | on a well-formed unfaulted server with tmux available the watcher window exists afterwards, unless its session exists without it: then the create is refused and logged and the watcher stays down |
| Watcher.WatcherCreatedWhenAbsent | src/watcherManager.ts:23-32 | with no watcher session, the call creates it with the watcher window |
| Watcher.WatcherRefusedWhenSessionLeft | src/watcherManager.ts:23-36 | a watcher session without its window is never repaired: the create fails with "Session montra_internal already exist", which is logged |
| ConfigSet.Assign | src/commands/config.ts:43 | writing a string-valued key stores exactly that value and changes nothing else |
| ConfigSet.GuardStepAgainst | src/commands/config.ts:32-40 | one guard step passes exactly on a name whose status is STOPPED, and keeps the store and the server |
| ConfigSet.GuardPassesIffAllStopped | src/commands/config.ts:30-41 | the runtime guard passes exactly when every stored service reads as STOPPED, and never writes the store |
| ConfigSet.Set | src/commands/config.ts:13-45 | an unknown key throws "No such config key: <key>"; the stored value is reported with "already has value" and not written; an invalid value throws `Invalid value "<value>" for key "<key>"`; a throw never writes; a new, valid repository directory is written and confirmed; a write stores exactly the value; keys other than `runtime` run no status probe and leave the effects and the tmux state alone |
| ConfigSet.RuntimeChangeIffAllStopped | src/commands/config.ts:30-43 | the runtime changes exactly when the value is `tmux` or `docker`, differs from the current runtime and every stored service reads as STOPPED, and then to exactly that value |
| ConfigSet.SetIsIdempotent | src/commands/config.ts:18-21 | setting a key to the value it was just set to is only reported |
| ConfigSet.ListKeysRefuseEveryValue | src/commands/config.ts:23-26 | the list-valued keys refuse every value from the command line |
| Crud.AddService | src/commands/service/add.ts:84-129 | a taken name throws `A service named "<name>" already exists.` before the type is checked; an unknown type throws `Invalid service type … Must be one of: backend_service, frontend_service, docker_compose_service, lambda`; it succeeds exactly when the name is free and the type is one of `SERVICE_TYPES`, appending one service whose repository defaults to the name and whose runtime defaults to the global one; a throw changes nothing |
| Crud.RemoveService | src/commands/service/remove.ts:6-16 | an absent name throws "Service with the name <name> does not exist"; otherwise every service with that exact name is filtered out and the removal is logged |
| Crud.RemoveServiceDropsName | src/commands/service/remove.ts:13 | after removal no service has the name, every survivor was stored before, every other service survives, and the list is shorter |
| Crud.AddThenRemoveService | src/commands/service/remove.ts:6-16 | adding a service and removing it by name gives back the store |
| Crud.AddPackage | src/commands/package/add.ts:6-27 | a taken name throws `A package named "<name>" already exists.`; otherwise one package is appended, its repository defaulting to the name |
| Crud.RemovePackage | src/commands/package/remove.ts:6-16 | an absent name throws "Package with the name <name> does not exist"; otherwise every package of that name is filtered out |
| Crud.AddThenRemovePackage | src/commands/package/remove.ts:6-16 | adding a package and removing it gives back the store |
| Crud.FindGroupIffTaken | src/commands/group/add.ts:13-21 | the group lookup finds a group exactly when some group has the name |
| Crud.CreateGroup | src/commands/group/create.ts:6-21 | a taken name throws `A service group named "<name>" already exists.`; otherwise an empty group is appended |
| Crud.DeleteGroup | src/commands/group/delete.ts:7-26 | an absent group throws; without `--force` a declined prompt writes nothing; otherwise every group of that name is filtered out |
| Crud.CreateThenDeleteGroup | src/commands/group/delete.ts:7-26 | creating a group and force-deleting it gives back the store |
| Crud.EditGroups | src/commands/group/add.ts:52-59 | every group of the name is edited, every other group stays as it is, in place |
| Crud.AddToGroup | src/commands/group/add.ts:6-66 | an unknown group throws; otherwise it returns, writing nothing when there is nothing to add and otherwise appending the names to add to every group of that name |
| Crud.ToAddIsKnownNonMembers | src/commands/group/add.ts:23-46 | the names appended are exactly the given names that are stored services and not yet members, in argument order |
| Crud.AddKeepsRepeats | src/commands/group/add.ts:44-46 | a known non-member given twice is appended twice: repeats are not collapsed |
| Crud.RemoveFromGroup | src/commands/group/remove.ts:6-66 | an unknown group throws; otherwise it returns, writing nothing when there is nothing to remove and otherwise filtering every occurrence of the names to remove out of every group of that name |
| Crud.AddThenRemoveFromGroup | src/commands/group/remove.ts:6-66 | adding non-members to a uniquely named group and removing the same names gives back the groups |
| Crud.AddedAreGiven | src/commands/group/add.ts:31-46 | when no given name is a member, the names appended are exactly the known ones and no member is appended again |
| Crud.RemovesWhatWasAdded | src/commands/group/remove.ts:31-44 | after an append, the names to remove are exactly the names appended |
| Crud.UniqueGroupEdited | src/commands/group/add.ts:52-59 | editing the groups of a name held by one group only changes that group, which the lookup still finds at the same place |
| Wrap.WrapLine | src/lib/box.ts:106-124 | a line that fits is kept whole as the only output line; every line emitted for one input line is within the width or a single space-free word, and none holds a newline when the input line holds none |
| Wrap.WordWrap | src/lib/box.ts:101-127 | every returned line is within the width or a single space-free word, and none contains a newline |
| Wrap.WrapLinesAppend | src/lib/box.ts:106-126 | wrapping a list of lines is wrapping each line on its own, in order |
| Wrap.WordWrapLineByLine | src/lib/box.ts:104-110 | the first line of the text is wrapped on its own, ahead of the rest, and kept unchanged when it fits |
| Wrap.FillWordsFits | src/lib/box.ts:112-124 | every line the refill loop emits is within the width or a single space-free word |
| Wrap.FillWordsCloses | src/lib/box.ts:115-117 | a word that would push the trimmed line past the width closes the line so far, trimmed, and opens the next one |
| Wrap.FillWordsJoins | src/lib/box.ts:118-119 | a word that fits joins the line so far, trimmed |
| Wrap.WordWrapKeepsFittingText | src/lib/box.ts:104-110 | a text whose every line fits comes back line for line, and joining the result with newlines gives the text back |
| Wrap.WrapEmpty | src/lib/box.ts:104-108 | the empty text wraps to one empty line |
| Wrap.OverlongFirstWordLeavesBlankLine | src/lib/box.ts:112-117 | an over-long line whose first word alone exceeds the width starts its output with an empty line |
| Wrap.FillWordsKeepsWords | src/lib/box.ts:112-124 | the refill loop emits the words of the line so far followed by the remaining words, none lost, reordered or duplicated |
| Wrap.WrapLineKeepsWords | src/lib/box.ts:106-124 | refilling a line whose only whitespace is spaces keeps its words in order |
| Wrap.WordWrapKeepsWords | src/lib/box.ts:101-127 | wrapping a text whose only whitespace is spaces and newlines keeps the words of its lines, in order |
| Box.HorizontalBorder | src/lib/box.ts:138-190 | the border between the corners is `width - 2` characters: plain line without a title (throwing a RangeError for a width below 2), the padded title cut to fit when it does not fit, and otherwise the title at its left, right or centre position among line |
| Box.CentredTitleIsBalanced | src/lib/box.ts:175-179 | a centred title has the odd column of fill on its right: left fill is the right fill or one less |
| Box.TitleShows | src/lib/box.ts:159-169 | a non-empty title is always visible: the border is never the plain line |
| Box.BorderAvoids | src/lib/box.ts:159-189 | a border holds only line, spaces and characters of its title |
| Box.ContentLine | src/lib/box.ts:219-233 | a wrapped line is drawn exactly when it fits the content width, as a row `contentWidth + 2·padding + 2` wide with bars at both ends and the text at its left-aligned or centred column among spaces; a longer line throws the RangeError of a negative count |
| Box.ContentRows | src/lib/box.ts:219-233 | one framed row per wrapped line, in order, drawn exactly when every line fits |
| Box.ContentLines | src/lib/box.ts:202-234 | a negative padding throws; otherwise one framed row per wrapped line, exactly when every line fits |
| Box.BoxParts | src/lib/box.ts:241-281 | a content width of zero or less throws "Box width is too small for the given padding."; the parts are drawn exactly when the box is drawable, with borders and rows exactly as wide as the box |
| Box.BlankRowIsBlank | src/lib/box.ts:288-290 | the extra blank row is two bars around spaces, as wide as the box |
| Box.Assemble | src/lib/box.ts:294 | the rows are the top border, the content rows in order, the blank row when asked for and the bottom border, each as wide as the box |
| Box.BoxLines | src/lib/box.ts:241-295 | the box is drawn exactly when it is drawable; it has one row per wrapped line plus two borders, plus one blank row when there is no text; every row is as wide as the box |
| Box.CreateBox | src/lib/box.ts:241-295 | `createBox` throws "Box width is too small…" for a content width of zero or less, draws exactly the drawable boxes, and is the rows joined by newlines |
| Box.TitleInTopIffTopPosition | src/lib/box.ts:262-272 | the title is drawn in the top border exactly when its position starts with `top`, and the other border is plain line |
| Box.ContentRowsHoldText | src/lib/box.ts:274-281 | each wrapped line appears in its own row, at its alignment, in order |
| Box.EmptyTextGivesTwoBlankRows | src/lib/box.ts:283-292 | as written, a box of empty text has two blank rows |
| Box.BoxLinesIntended | src/lib/box.ts:283-292 | the corrected box adds the blank row only when no row was drawn |
| Box.CreateBoxIntended | src/lib/box.ts:241-295 | the corrected `createBox` joins the corrected rows |
| Box.NoTextGivesOneBlankRow | src/lib/box.ts:283-292 | with the correction, a box without text has exactly one blank row, and every box with text is drawn as before |
| Box.RowsAvoidNewline | src/lib/box.ts:271-294 | no row of a box holds a newline when its title holds none |
| Box.BoxSplitsIntoRows | src/lib/box.ts:294 | splitting a box at its newlines gives back its rows |
| Box.DrawnBoxesAreWide | src/lib/box.ts:337 | drawable boxes are at least three columns wide, so `width \|\| 80` is their own width |
| Box.RenderAll | src/lib/box.ts:330 | the boxes are drawn exactly when each can be, each split at its newlines |
| Box.Tallest | src/lib/box.ts:333 | the maximum height is at least every box's height and is the height of some box |
| Box.PadTo | src/lib/box.ts:339-341 | a shorter box keeps its rows and is padded with blank rows up to the height |
| Box.Grid | src/lib/box.ts:346-350 | output row `i` is row `i` of every column, joined by the separator |
| Box.SideBySide | src/lib/box.ts:321-352 | a negative distance throws a RangeError; the rows are drawn exactly when the distance is not negative and every box can be drawn |
| Box.CreateBoxes | src/lib/box.ts:321-353 | no boxes give the empty string; a negative distance throws; otherwise the picture is drawn exactly when every box is drawable |
| Box.OneBoxIsItself | src/lib/box.ts:321-353 | one box side by side with nothing is that box |
| Box.GridRowsAreEven | src/lib/box.ts:336-350 | every row of the padded grid is as wide as all the boxes and the gaps, and holds no newline |
| Box.SideBySideIsRectangular | src/lib/box.ts:321-353 | boxes side by side form a rectangle: as many rows as the tallest box, each as wide as all boxes and gaps |
| PrettyPrint.PrettyPrintKeyValue | src/utils/prettyPrintKeyValue.ts:1-10 | nothing is printed exactly when the value is missing, empty or contains `undefined`; otherwise the line is `key:` padded with spaces to the column (never cut), then the value |
| PrettyPrint.ValueStartsAtColumn | src/utils/prettyPrintKeyValue.ts:8-9 | when the label fits, the value starts exactly at column `padding`; a longer key pushes the value right, with no padding |
| JsStrings.TrimStart | src/lib/tmux/tmux.ts:52 | `trim` removes exactly the leading whitespace: what remains is a suffix not starting with whitespace |
| JsStrings.TrimEnd | src/lib/tmux/tmux.ts:52 | `trim` removes exactly the trailing whitespace: what remains is a prefix not ending in whitespace |
| JsStrings.TrimIdempotent | src/lib/tmux/tmux.ts:52 | trimming twice is trimming once |
| JsStrings.TrimKeepsPrefix | src/lib/tmux/execTmux.ts:107 | trimming keeps every prefix that starts and ends with non-whitespace |
| JsStrings.Split | src/lib/tmux/tmux.ts:52 | `split` on one character gives at least one piece, none holding the separator, that join back to the string |
| JsStrings.SplitJoin | src/lib/tmux/tmux.ts:52 | splitting undoes joining when no piece holds the separator |
| JsStrings.SplitAtFirst | src/lib/box.ts:104 | splitting at the first separator gives the separator-free piece before it, then the pieces of the rest |
| JsStrings.NonEmpty | src/lib/tmux/tmux.ts:52 | `filter(Boolean)` keeps exactly the non-empty strings |
| JsStrings.PadEnd | src/utils/prettyPrintKeyValue.ts:8 | `padEnd` keeps the string and pads it with spaces to the length, never shortening it |
| JsStrings.Repeat | src/lib/box.ts:160 | `repeat` gives exactly `n` copies of the character |
| JsStrings.Chars | src/commands/service/restart.ts:16 | a loop over a string visits its characters, one-character strings, in order |
| Lists.Filter | src/commands/service/remove.ts:13 | the result is no longer than the input, holds only accepted elements of the input, and holds every accepted element |
| Lists.FilterCounts | src/commands/service/remove.ts:13 | the result holds each accepted element exactly as often as the input does, and no rejected one |
| Lists.FilterAppend | src/commands/group/remove.ts:54-56 | filtering a concatenation filters each part |
| Lists.FilterTwice | src/commands/group/add.ts:31-46 | two filters in a row are one filter by the conjunction |
| SpecParser.TokenLength | tmuxCommandSpecGenerator.js:96 | the greedy `\S+` takes the whole leading run of non-whitespace and stops only at whitespace or the end |
| SpecParser.LeadingTokenUnique | tmuxCommandSpecGenerator.js:96 | a line has at most one leading token, so the name is determined |
| SpecParser.LastParen | tmuxCommandSpecGenerator.js:96 | the backtracking point of `\((\S+)\)`: the last `)` of the run after its first character |
| SpecParser.AliasIsLongestMatch | tmuxCommandSpecGenerator.js:96-102 | a captured alias follows `" ("`, is non-empty and whitespace-free, is closed by `)`, and is the longest that can match; when no alias can match, the alias is undefined |
| SpecParser.ParenthesisedAlias | tmuxCommandSpecGenerator.js:96-102 | ` (a)` followed by whitespace or nothing gives the alias `a` |
| SpecParser.FirstWhere | tmuxCommandSpecGenerator.js:107 | the first position whose character stops the scan, and none exactly when no character does |
| SpecParser.BlockLength | tmuxCommandSpecGenerator.js:107 | a block match at the head of the text is brackets around at least one character with no `]` inside |
| SpecParser.Blocks | tmuxCommandSpecGenerator.js:107 | every block `matchAll` finds is brackets around at least one character with no `]` inside |
| SpecParser.BlocksOfBracket | tmuxCommandSpecGenerator.js:107 | a bracketed item with no `]` inside is matched whole, and the scan resumes behind it |
| SpecParser.BlocksSkip | tmuxCommandSpecGenerator.js:107 | text without `[` holds no block start |
| SpecParser.FlagOrOption | tmuxCommandSpecGenerator.js:112-126 | no block is both a flag group and an option |
| SpecParser.BlockFlags | tmuxCommandSpecGenerator.js:112-119 | a block adds flags exactly when it is `[-` followed by ASCII letters only and `]`, and then one `-c` per letter, in order |
| SpecParser.BlockOption | tmuxCommandSpecGenerator.js:121-125 | a block adds an option exactly when it is `[-`, a word character, whitespace and a non-empty description, and then just `-` and that character |
| SpecParser.SwitchesAreShort | tmuxCommandSpecGenerator.js:112-126 | every flag and option is a dash and one character, with at most one option per block |
| SpecParser.FlagGroup | tmuxCommandSpecGenerator.js:112-119 | `[-letters]` adds one flag per letter, in order, and no option |
| SpecParser.OptionWithDescription | tmuxCommandSpecGenerator.js:121-125 | `[-x description]` adds exactly the option `-x` and no flag |
| SpecParser.PlainBlockAddsNothing | tmuxCommandSpecGenerator.js:112-126 | a block not opening with `[-` adds neither flags nor options |
| SpecParser.AlternativesAddNothing | tmuxCommandSpecGenerator.js:112-126 | an alternatives block such as `[-L\|-S\|-U]` adds neither flags nor options |
| SpecParser.ArgLength | tmuxCommandSpecGenerator.js:129 | an argument match at the head of the text is `[`, at least one character free of `[`, `]` and `-`, then `]` |
| SpecParser.ArgContents | tmuxCommandSpecGenerator.js:129 | every captured argument is non-empty and free of `[`, `]` and `-` |
| SpecParser.KeepArgs | tmuxCommandSpecGenerator.js:130-132 | the kept arguments are no more than the matches and hold no space |
| SpecParser.KeepArgsWords | tmuxCommandSpecGenerator.js:129-132 | every kept argument is its own trim and holds no space, `[`, `]` or `-` |
| SpecParser.TrimmedArg | tmuxCommandSpecGenerator.js:131-132 | trimming an argument match that has no inner space gives an argument word |
| SpecParser.Args | tmuxCommandSpecGenerator.js:129-132 | every positional argument is its own trim and contains no space, `[`, `]` or `-` |
| SpecParser.ArgsOfBracket | tmuxCommandSpecGenerator.js:129 | a bracketed item is an argument match exactly when it holds no `-`; a hyphenated one is skipped |
| SpecParser.ArgsSkip | tmuxCommandSpecGenerator.js:129 | text without `[` holds no argument match |
| SpecParser.ParseTmuxCommandSpec | tmuxCommandSpecGenerator.js:94-142 | it throws `Could not parse command name/alias from: "<spec>"` exactly when the line is empty or starts with whitespace; otherwise the result has exactly one key |
| SpecParser.ParsedKeyIsLeadingToken | tmuxCommandSpecGenerator.js:134-135 | the one key of a parsed line is its leading token |
| SpecParser.ParseOf | tmuxCommandSpecGenerator.js:101-141 | a line with a leading token parses into one entry under that token: its alias, the flags and options of its blocks and its arguments |
| SpecParser.BlocksOfBracketed | tmuxCommandSpecGenerator.js:107 | the blocks of space-separated bracketed items are those items, in order |
| SpecParser.ArgsOfBracketed | tmuxCommandSpecGenerator.js:129 | the argument matches of bracketed items are the items without `-`, in order |
| SpecParser.AliasOfLine | tmuxCommandSpecGenerator.js:96-102 | the text after the name of a usage line gives back the alias it was written with, or none |
| SpecParser.UsageLineLeadsWithName | tmuxCommandSpecGenerator.js:96-101 | the name is the leading token of its usage line |
| SpecParser.ParseUsageLine | tmuxCommandSpecGenerator.js:94-142 | a usage line built from a name, an optional alias and bracketed items parses back into those parts: the name as the key, the alias written, the flags and options of the items, and the trimmed, space-free, unhyphenated items as arguments |
| SpecParser.ExampleSwitches | tmuxCommandSpecGenerator.js:112-126 | in `[-letters] [-x description] [arg]` the letters become the flags and `-x` the one option |
| SpecParser.ExampleArgs | tmuxCommandSpecGenerator.js:129-132 | in `[-letters] [-x description] [arg]` only `arg` is a positional argument |
| SpecParser.ParseFlagsOptionArg | tmuxCommandSpecGenerator.js:94-142 | `name [-letters] [-x description] [arg]` parses to no alias, one flag per letter, the option `-x` and the argument `arg` |
| SpecParser.Dashed | tmuxCommandSpecGenerator.js:117 | a flag group gives one `-c` per letter `c`, in the letters order |

## Left out

- Terminal output is not modelled. Spinners (ora), colours (chalk), `console.log`, and `printBox`/`printBoxes` are I/O. The model returns the text that would be printed, or the effect that would be recorded.
- Display width is not modelled. Box widths count characters, and a wide or combining character counts as one.
- String lengths are counted in Unicode characters, while the source's `.length`, `substring` and `padEnd` count UTF-16 code units (src/lib/box.ts:107, 115, 164, 168, 221; src/utils/prettyPrintKeyValue.ts:8). A character outside the Basic Multilingual Plane, such as the emoji in the titles of box.ts's examples, counts two there and one here. So in Box.HorizontalBorder, Box.ContentLine, Wrap.WordWrap and PrettyPrint.PrettyPrintKeyValue the fill or padding beside such a character is one longer in the model than in the source, and a line holding it may wrap at a different word. For example, a 10-wide top border titled "📦" has five `─` after the title in the model and four in the source.
- `notify` (src/utils/notify.ts) is not part of this model. A notification is a recorded effect carrying its message.
- Process execution, `path.resolve` and file reads are oracles in `World`. Their results are parameters, not computed.
- The clock is one value per command (`World.now`). src/commands/service/start.ts:58 reads `Date.now()` for each service it starts, so `start all` may stamp its records with different times, while the model stamps them all with the same time.
- Concurrency and timing are not modelled: `setInterval` in the watcher and `Promise.all` when printing all statuses. One watcher tick is modelled, and the statuses are taken in order.
- The interactive prompts are not modelled. In service add the answers are parameters. In group delete the confirmation is a `confirmed` parameter.
- The store's `?? []` defaults are not modelled. A missing collection is the empty sequence.
- Recursion through a stored service that is itself named `all` is not modelled. `start all`, `stop all` and `restart all` would re-enter the `all` branch for it; the model iterates the stored names once.
- Options passed explicitly as `undefined` are not modelled. In the source they override the spread defaults of `createBox`; the model takes options with their defaults filled in.
- `NaN` widths and non-numeric option values are not modelled: all widths are integers.
- Inherited prototype keys of a parsed compose file are not modelled, and neither are image values that are not strings. A compose document is an ordered list of service entries, each `null` or a record whose image is a string or absent. The list is given in the order `Object.entries` yields (src/utils/findComposeServiceByImage.ts:27): integer-like names first, in ascending order, then the other names in document order. The model does not compute that order from the document.
- The docker client library is not part of this model. A throw from its `listContainers` or from a container's `stop` (src/lib/docker/docker.ts:17, 28) is not modelled. Neither is `getPulledImages`, which calls `listImages` (src/lib/docker/docker.ts:31-34) from src/commands/service/start.ts:143 only to choose the spinner text ("Starting" or "Pulling"); a throw from it, which would abort the start, is not modelled either. `Docker.StopContainerByPort` chooses the container to stop from a container listing given as a parameter.
- In tmuxCommandSpecGenerator.js, the `tmuxCommands` list and the `console.log` of the generated object are data and output. Only `parseTmuxCommandSpec` is modelled.
- The debug logging of `execTmux` is output only and is left out.
- `isCommandAvailable` is modelled only through the probe command it runs.
- ConfigSet.Set: keys inherited from `Object.prototype` (`toString`, `hasOwnProperty`, …) pass the `key in configValidators` test at src/commands/config.ts:14. The source then calls the inherited method as the validator, which either lets a stray key be written or throws a TypeError. The prototype chain is not modelled: such a key throws "No such config key".
- Tmux.NewSession: server effects are promised only for session and window names that are single shell words (`Tmux.WellFormedName`). The names go into the `sh` line unquoted (src/lib/tmux/tmux.ts:173-178), and what the shell and tmux make of a name that splits or holds metacharacters is not modelled. Neither is an entrypoint with spaces, which follows `-c` unquoted.
- Tmux.NewSession: the window name and the entrypoint are required. The source leaves `windowName` and `entrypoint` optional, but no lifecycle caller omits them; an omitted one would leave an empty token after `-n` or `-c` (`ExecTmux.AbsentOptionValueLeavesEmptyToken`), and that case is not modelled.
- Tmux.NewWindowOnValidServer: the window is promised to be appended only when its name is a single shell word, because it goes into the line unquoted (src/lib/tmux/tmux.ts:232-237). The `-t <session>` of that line is a target-window, and tmux first looks it up as a window of its current session (exact name, then unique prefix) before trying it as a session. The model has no current session and always appends to the session of that name. So when the current session holds a window named like the session, or starting with its name, tmux picks that window's index, which is in use, and fails; that case is not modelled.
- Tmux.KillSession: tmux's last fallback for a session target, an `fnmatch` pattern, is not modelled. It can only matter for a name holding `*`, `?` or `[`, which is not a well-formed name.
- Tmux.KillWindow: the target `session:window` goes into the line unquoted (src/lib/tmux/tmux.ts:260-264). The kill is promised only on a well-formed server, whose names are single shell words that tmux's target lookup reaches by exact name and not as a window index, an `@` id or a special token such as `!` or `-` (`Tmux.WellFormedName`, `Tmux.KillWindowOnValidServer`). Which window tmux kills for other names is not modelled.
- Store.PathJoin: the normalisation `path.join` applies is not modelled. A repository directory ending in `/`, or a segment that is empty, `.` or `..`, is glued as it is with one `/`. The compose paths, the window entrypoints and the manifest path are therefore exact only for segments that need no normalisation.
- The `config get`, `_list-keys` and `path` subcommands are not modelled. Nor are git, AWS and npm plumbing, import and export, `overview`, the CLI wiring, platform helpers, locale-aware sorting, or the printing of `status all`. None of these is in the lifecycle core.

## Findings

| source | as written | input that shows it | evidently intended | confidence | as-written member | corrected member |
|---|---|---|---|---|---|---|
| src/commands/service/restart.ts:16 | `stop(serviceName)` hands a string to `stop`, whose loop (src/commands/service/stop.ts:17) then visits the name's characters one by one | restarting `api` when no service is named `a` throws `Service with the name a does not exist`, and nothing is stopped or started | `stop([serviceName])`: stop the named service, then start it | high; not executed | Lifecycle.RestartStopsCharacters | Lifecycle.RestartIntendedStopsThenStarts |
| src/commands/group/stop.ts:21 | `stopService(service)` hands each member name to `stop` as a string, so `stop` visits its characters | stopping a group whose first member is `api`, when no service is named `a`, throws at `a` and stops nothing | `stopService([service])`: stop each member once, in order | high; not executed | Lifecycle.GroupStopStopsCharacters | Lifecycle.GroupStopIntendedStopsMembers |
| src/lib/box.ts:283-292 | the blank row for "no text" is also added when wrapping gave one empty line, and that line already drew a blank row | `createBox` with text `""` draws two blank rows between the borders, while text of only spaces longer than the content width wraps to no line at all (src/lib/box.ts:112-124) and draws one | one blank row for a box without text | medium; not executed | Box.EmptyTextGivesTwoBlankRows | Box.NoTextGivesOneBlankRow |

`Box.CreateBoxes` composes the as-written `Box.CreateBox`, so side-by-side boxes keep the source's behaviour. The corrected `Box.CreateBoxIntended` stands alone.
