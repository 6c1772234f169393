# A verified model of the Bitcoin RPC operator's charm logic

The charm changes a node's host in one step per `config-changed` event. It captures ten files and three service
states, rewrites only the files the changed keys require, relaunches only the services those files belong to, and
probes the node. On any failure it stops everything, restores every file and starts again what ran before. Around the
binaries of a release there is a second, inner rollback. This project models that transaction, the event handler that
drives it, the rendering of the three environment files, what the services receive from those files through their
systemd units, and the text handling of the metadata module: the scanner and redactor for serialized fragments, the
hardening of node arguments and the flag parser.

`dafny verify dfyconfig.toml` checks the whole project.

## How the host is modelled

`Hosts.Host` has the disk (path to bytes and mode), the unit files systemd has read, the set of running services and,
for each service, the disk its last process was launched from. Every external step (read, write, chmod, rename,
unlink, download, unit reload, start, stop, restart, probe) takes its outcome from an arbitrary schedule, a function of
the step's position and kind, and is appended to a trace together with the reply and the disk it leaves. A failed rename or unlink changes nothing, a
failed write leaves arbitrary bytes or nothing, a failed service command leaves that one service in any state, in a new
process if it did not run before. The schedule is a field of the host that only the examples of `Limits` fix, so what
is proved of a method holds for all starting disks, all configurations and all fault schedules, and properties of every
intermediate state are properties of the trace.

## How the units read the files

The files are read by systemd, not by the charm: `EnvironmentFile=` and the unbraced `$BITCOIND_CLI_ARGS` of
templates/bitcoind.service:7-8, and `EnvironmentFile=` of templates/bitcoind-monitor.service:8 and
templates/bitcoin-rpc-proxy.service:8. `Units` and `CommandLines` model that reading after systemd.exec(5) and
systemd.service(5), character by character: comments, lines without `=`, names that are no variable names, quotes,
backslashes, continued lines, blanks at either end of a value, repeated assignments, and the splitting into words with
its own quotes and backslashes. All claims about what a service receives are about these readers.

| module | contents |
|---|---|
| `Text`, `Libraries` | splitting, joining and searching strings; Python's library functions as parameters with contracts |
| `Flags` | argument hardening, flag parsing, and what the parser reads after hardening |
| `Options` | hardening, flag parsing and sensitive keys, over options as they are written |
| `Scanner`, `Redaction` | the bracket matcher and its grammar; fragment cutting; redaction along paths |
| `Configs` | tracked configuration, change classes by key and by field, the three rendered files |
| `Renderings` | the three files line by line, as literal text |
| `Units`, `CommandLines` | systemd's reading of an environment file, and its splitting of a variable into words |
| `Deliveries`, `NodeArguments` | what monitor and proxy, and what the node, receive from their files |
| `Agreements` | when monitor and proxy receive the same credentials |
| `Versions`, `Hosts` | version comparison; the host with its external steps |
| `Activation` | the inner level: swapping release binaries, with rollback |
| `Rollbacks` | the outer level's capture and rollback |
| `Transactions` | writing and activating a generation; the transaction |
| `Effects` | files, processes and answers after a commit, by the fields of the two configurations |
| `Charms` | the event handlers, and theorems about whole runs of events |
| `Limits` | hosts and schedules on which events end just outside those theorems |

## What the proofs brought out

- **Emptied version.** A committed change of `version` or `binary-url` whose new `version` is empty rewrites the
  node's environment file but never relaunches the node (src/utils.py:313-322, src/bitcoin.py:200-201), so a change of
  credentials in the same event leaves the node with the old ones. This is the only gap: after a commit, every running
  process has the new files exactly when `LeavesNodeBehind` is false (`CommitKeepsInSync`). On a host where every step
  works, such an event does commit (`EmptiedVersionLeavesNodeBehind`).
- **Quotes in `service-args`.** The node's line is written between double quotes, and nothing in the arguments is
  escaped. An option with a quoted value of several words, such as `-uacomment="my node"`, therefore leaves a quote
  open (`QuotedValueLeavesQuoteOpen`), and everything behind it, pins and credentials included, becomes part of one
  word. The node receives the configured user and password exactly when both are set, neither has a blank, a quote, a
  backslash or a character that systemd rejects in it, and the operator's arguments leave no quote open
  (`NodeReceivesCredentials`). For arguments without quotes and backslashes it receives exactly what the charm composed
  (`QuoteFreeArgumentsReceived`).
- **Plain values.** A file of the monitor or the proxy is read as it was written exactly when every value is plain: no
  backslash, no line end, no blank at either end, no quote at the front, no rejected character (`EnvReadsBack`). The
  renderers do not check this. With a password that ends in a backslash the two services never receive the same one,
  because each swallows the line that follows it in its own file (`BackslashedPasswordsDiffer`). For values without
  line ends the two services agree exactly when user and password end with their lines and the proxy's listening
  address, which stands before them in its file alone, leaves no quote open (`MonitorAndProxyAgree`).
- **Quoted fragments.** When a serialized container stands in quotes, the opening quote is appended to the output
  before the fragment is widened to take it in (src/bitcoin_metadata.py:136-149). So it is both kept and parsed, and
  the closing one is dropped: `'{…}'` becomes `'{…}` without its end. A character is both kept and parsed exactly when
  some fragment is so wrapped (`KeptAndParsedIffWrapped`, `QuotedContainerKeepsOneQuote`).
- **Redaction can raise.** `ast.literal_eval` reads bytes and sets, for which `json.dumps` has no form, so
  `redact_runtime_value("[1, b'x']")` raises instead of returning a text (`BytesMakeItRaise`); it raises exactly when a
  container in the text holds such a value below no sensitive key, directly or in a nested text
  (`FragmentsGiveUp`, `SerializationRaises`). The handler calls it on the new values before it starts the transaction
  (src/charm.py:138-146), so such a configuration ends the event with nothing applied.
- **Rollback probes.** In a rollback, the node that a probe meets runs from the file of the credentials the probe
  sends, if the node's file was restored and its stop did not fail, or if the change was not about the node and the
  node was in sync before (`OnConfigChanged`). For changes of the node neither condition can be dropped: `FailedRestore` and `FailedStop` are events after which the stored user is asked of a node that has the new
  one.
- **After a failed rollback.** A commit repairs exactly the files it rewrites (`CommitRepairsExactly`). So committing
  the configuration that failed renders everything again, however often it has failed (`RetryRecovers`), but reverting
  to the stored one is a no-op that repairs nothing (`RevertRepairsNothing`, `FailedRestore`).
- **`_first_flag`** returns the last value of a repeated flag, not the first (src/bitcoin_metadata.py:303-305). That
  is what makes the pinned port effective whatever the operator wrote before it.

## Model

| member | source | states |
|---|---|---|
| Transactions.ApplyConfigTransaction | src/utils.py:338-379 | For every disk, configuration and fault schedule the transaction ends in exactly one way: nothing changed; capture ended at its first failed read and nothing changed; committed with exactly the generation's files, its binaries downloaded in this very transaction, the captured services running, each affected one relaunched from the files on disk and the node answering; rolled back; or rolled back with errors. The forward direction writes first, then activates node, monitor and proxy in this order, and nothing but clean-up follows the first step that fails; it fails only for such a step or a missing proxy binary, and a commit has neither. Then the rollback follows, and is reported as failed if and only if one of its own steps fails: each error stands for a failed step of that very stop, file, reload, start or probe, and no operation is left out because of another. Without errors every captured file, the running set and the loaded units are back, and every process runs from the restored files and the node has answered since the rollback began; with errors, every file is restored whose own step did not fail, and the others are as the forward direction left them. However it ends, no file but those of the changed keys differs; at no step is a file touched that was not captured or a service launched that was not running. |
| Transactions.RestoredAll | src/utils.py:242-281 | Whatever the forward direction did within the footprint, each file whose own restoration did not fail is as at capture, and an error-free rollback gives back the whole disk apart from scratch files. |
| Transactions.CommitWritesAll | src/utils.py:284-335 | Every managed file after a commit, binaries included, is determined by the new configuration, the changed keys and the downloads. |
| Transactions.WriteConfigGeneration | src/utils.py:284-300 | Success leaves each managed path with the file its changed keys require; success or failure, no file but those of the changed keys and temporary ones differs afterwards, and no step leaves the captured files; failure has a failed step as its reason. |
| Transactions.ActivateConfigGeneration | src/utils.py:303-335 | Success means the captured services run, each whose files were rewritten runs a process launched since the call from the files now on disk and the node has answered a probe (unless an empty new version skips it), every other process is untouched, and the proxy binary was there if needed; node, monitor and proxy are activated in this order, and nothing but clean-up follows the first failure, which has a reason in the trace. |
| Transactions.ActivateNode | src/utils.py:313-322 | Only the two binaries may change and only the node may be relaunched; it is, and answers, exactly when the change class and the version call for it. |
| Transactions.ActivateService | src/utils.py:324-333 | A needed restart yields a new process from the disk as it is, or failure; other services keep their processes; and when none is needed the step succeeds and nothing happens. |
| Transactions.GenerationBuilt | src/utils.py:293-300 | The four conditional parts, each confined to its own paths, compose to the whole generation: none overwrites another's files. |
| Transactions.InstallRpcProxy | src/utils.py:137-166 | At every step the binary is the old file or the complete download; success has what this call downloaded, failure and an empty version the old file. |
| Transactions.UpdateServiceArgs | src/utils.py:471-502 | Success leaves the rendered text with the mode kept, and the returned flag is true exactly when the file changed. |
| Transactions.InstallMonitor | src/utils.py:128-134 | Success leaves the script template and the rendered environment file, and nothing else changes. |
| Transactions.InstallProxyUnit | src/utils.py:112-125 | The unit ends up as the template; a change of the file is followed by a unit reload, and an unchanged unit is neither written nor reloaded. |
| Transactions.InstallRpcProxyService | src/utils.py:169-174 | Unit and environment file end up as template and rendering, and nothing else changes. |
| Rollbacks.RollbackConfigTransaction | src/utils.py:242-281 | Every file whose own restoration did not fail equals the snapshot however many other steps failed; with no errors exactly the captured services run, each launched since from the restored disk, and the node answered the previous credentials; there are errors if and only if some step failed, left a service down or got no version; the errors and the trace account for each other operation by operation (next row); at every step each file is old or restored, never partial; every restoration and reload precedes every start. |
| Rollbacks.RollbackAccountedFor | src/utils.py:247-281 | Proxy, monitor and node are stopped first, every captured path is restored, the units reloaded, every service that ran before is started, and the node asked last, each whatever failed before; an error of a stop, a path, the reload, a start, or readiness is there exactly for a failed step, or a service down, of its own; a service whose stop did not fail runs, if it runs, from the restored disk, and one that survived its stop and was started without an error from the disk before the rollback. |
| Rollbacks.StopAndRestore | src/utils.py:247-266 | All services whose stop did not fail are down, all files whose restoration did not fail are the snapshot's, and units are loaded unless the reload failed; nothing is started yet. |
| Rollbacks.StartAndCheck | src/utils.py:267-279 | Only services that ran before are started, in order, on an unchanged disk; without errors all of them run and the node has answered. |
| Rollbacks.StopServices | src/utils.py:247-257 | Proxy, monitor and node are each stopped, in this order, whatever failed before; an error is recorded exactly for each failed stop, a service without one is down, and one that survived in a new process runs from the disk as it is. |
| Rollbacks.RestoreFiles | src/utils.py:258-262 | Each captured file is restored, by a write or removal of its own, or has an error and a failed step on that very file or its temporary one, and is left as it was. |
| Rollbacks.StartServices | src/utils.py:267-278 | Exactly the services that ran before are started, node before monitor before proxy; one without an error goes on or was launched from the disk as it is, an error stands for a start that failed, and a service still down for one after which it was down. |
| Rollbacks.RestoredServiceErrors | src/utils.py:224-239 | The node is probed with the previous credentials exactly when it ran before; no errors means every captured service runs and the node answered. |
| Rollbacks.RestoreFile | src/utils.py:207-221 | The target goes from old to restored file (bytes, mode, or absence) in one step and is never partial; a failure has a failed step on that very file or its temporary one; the temporary file is left only if its own removal failed. |
| Rollbacks.ReplaceFile | src/utils.py:157-165 | An atomic replacement: old or complete new file at every step; the first step that fails is followed by the removal of the temporary file and nothing else, and no leftover stays unless that failed. |
| Rollbacks.CaptureConfigTransaction | src/utils.py:193-204 | A snapshot shows every managed file and the running set as they are; capture changes nothing. |
| Activation.InstallRelease | src/bitcoin.py:183-231 | Success puts both downloaded binaries in place and a running node runs a process launched from them and has reported, since, a version that agrees with the new one in every component; failure has a reason in the trace, after which nothing but clean-up and bringing the node back happens; whatever fails, the two binaries are both the old ones or both the downloaded ones, unless after the forward direction a rename or removal failed as well; a stopped node stays stopped; nothing but binaries and scratch files changes, and the release directory is gone unless its removal failed. |
| Activation.ActivateRelease | src/bitcoin.py:222-231 | Activation of the staged pair, seen from the disk before staging. |
| Activation.Activate | src/bitcoin.py:149-180 | For any number of destinations with distinct names: activated means every destination has its staged file; otherwise every destination is as before, unless a step that puts a file back has itself failed. The forward direction ends with its first failed step, or its version check; then the rollback follows, whose outcome is a failure if and only if one of its steps fails. A running node is stopped first, which alone ends the activation if it fails, and started again last; without errors it then runs from the old files. At every step each original file is at its destination or its backup. |
| Activation.SwapAndStart | src/bitcoin.py:165-170 | Success leaves all staged files in place and a node that was stopped for the swap runs from them and has reported the version; the first step that fails is the last, and leaves a record from which every original can be found. |
| Activation.SwapBinaries | src/bitcoin.py:107-113 | At every step, and wherever it fails, each original file is at its destination or at the backup recorded for it; success has every staged file in place. |
| Activation.Restore | src/bitcoin.py:89-93 | Success leaves every recorded destination with its saved file, or absent if it was new; a failure anywhere loses no saved file. |
| Activation.Rollback | src/bitcoin.py:124-146 | Stop, restoration and start each happen in spite of earlier failures: the stop is the first step and the start the last, and each error stands for a failed step of its own operation; unless restoring failed, all destinations are restored; with no errors the previous version was launched from the restored disk. |
| Activation.StopForActivation | src/bitcoin.py:96-104 | A failed stop is followed by one start of the node and reported either way; no other service is touched. |
| Activation.VerifyRunningVersion | src/bitcoin.py:116-121 | Passes if and only if the node runs, answers with a version, both texts have numbers, and the numbers agree in every component, missing ones counting as zero. |
| Versions.VersionParts | src/bitcoin.py:70-77 | The components without trailing zeros. |
| Versions.TrimKeepsComponents | src/bitcoin.py:74-77 | Popping trailing zeros changes no component, missing ones counting as zero, and leaves no trailing zero. |
| Versions.SameVersion | src/bitcoin.py:82 | Two versions compare equal exactly when they agree in every component, missing ones counting as zero. |
| Charms.Charm.OnConfigChanged | src/charm.py:143-159 | The stored configuration becomes the new one exactly on success; after a commit all ten files, the processes and the node's answers are as the fields of the stored and the new configuration demand (`Effects`), and however the event ends no file changes whose fields did not; a commit or clean failure is a clean step in the sense of the run theorems, and after any other failure no file but those of the changed keys differs; the transaction's account of forward and backward direction is passed on; from files rendered from the stored configuration, every probe, forward or backward, meets a node launched with the file rendered from the configuration whose credentials it sends, provided that, where a rollback had errors, the node's file was restored and its stop did not fail, or the change was not about the node and the node was in sync. |
| Effects.CommitFiles | src/utils.py:284-318 | After a commit: if version or binary URL differ and the new version is not empty, both binaries are, executable, the pair a successful download of this event brought; if the proxy's version differs and is not empty, so is its binary; each environment file, script and unit is its new text in place, with its mode kept, if one of the fields it depends on differs; and every other file is as before. |
| Effects.CommitServices | src/utils.py:313-333 | After a commit a service that ran runs a process launched since, from the files on disk, if one of its own fields differs (six for the node, two for the monitor, six for the proxy; for the node a change of release also needs a new version that is not empty); otherwise its process is the one before. |
| Effects.CommitNode | src/utils.py:313-322 | A node relaunched by a commit has answered, and after a change of release it has reported a version with the components of the new one. |
| Effects.FootprintOfChange | src/utils.py:348-379 | Committed, rolled back or failed, an event changes no file whose fields are the same in both configurations, and no file elsewhere. |
| Effects.ProxyMissingWhen | src/utils.py:327-329 | An event has the missing proxy binary as its reason only if the proxy runs, one of its six fields differs, the binary was not on disk and the event does not install one. |
| Charms.Charm.PreviousConfig | src/charm.py:149-151 | The previous configuration passed to the rollback is the stored one in every tracked key. |
| Charms.Charm.Store | src/charm.py:157-159 | Assigning only the changed keys makes the stored configuration equal to the new one. |
| Charms.Charm.OnStart | src/charm.py:216-224 | Node, monitor and, if its binary is there, proxy are started in this order up to the first command that fails; success means each runs on or was launched from the disk as it is; whether or not it succeeds, files and stored configuration are unchanged and every running process is an old one or runs from the files on disk. |
| Charms.Charm.OnStop | src/charm.py:226-233 | The three services are stopped in order up to the first command that fails; success leaves none running; whether or not it succeeds, files and stored configuration are unchanged and every running process is an old one or runs from the files on disk. |
| Charms.Charm.OnRestartNode | src/charm.py:327-337 | The node is stopped and started and the proxy, if its binary is there, restarted, up to the first command that fails; success launches them anew from the files on disk; whether or not it succeeds, files and stored configuration are unchanged and every running process is an old one or runs from the files on disk. |
| Charms.CleanStepKeepsRendering | src/utils.py:348-376 | Rewriting only what changed leaves the three files equal to a full rendering, if they were before. |
| Charms.CleanRunsKeepRendering | src/charm.py:143-159 | Over every run of events whose failures roll back cleanly, the three files equal a full rendering of the stored configuration. |
| Charms.CleanRunsKeepInSync | src/charm.py:143-159 | Over every such run in which no commit leaves the node behind, every running process was launched with the rendering of the stored configuration. |
| Charms.CleanRunsCarryCredentials | src/utils.py:488-493 | After every clean run the node receives the configured user and password, if both are set, if and only if both are clean and the operator's arguments leave no quote open; monitor and proxy receive the same ones, for values without line ends, if and only if user and password end with their lines, the proxy's address leaves no quote open and systemd accepts both files; from plain values they are the configured ones. |
| Charms.CommitRepairsExactly | src/utils.py:348-376 | After any event, a commit leaves all three files rendered if and only if each file it skipped was rendered before. |
| Charms.RetryRecovers | src/charm.py:152-159 | From a rendered moment, after any number of failed attempts at one configuration and any rollback, committing it leaves all files rendered. |
| Charms.RevertRepairsNothing | src/utils.py:345-346 | Going back to the stored configuration changes no key, so the files are rendered afterwards if and only if they were before. |
| Charms.CommitKeepsInSync | src/utils.py:313-335 | After a commit every running process has the new configuration if and only if the node is not left behind. |
| Charms.LeftBehindMeansEmptyVersion | src/bitcoin.py:200-201 | The node is left behind only if a release key changed and the new version is empty. |
| Charms.ServiceStepKeepsInSync | src/charm.py:216-233 | Starting, stopping and rolling back cleanly keep every running process in line with the stored configuration. |
| Charms.MatchedProbeCredentials | src/utils.py:447-455 | A matched probe asks with the user and password that the node it meets received if and only if both are set and clean and the operator's arguments leave no quote open. |
| Limits.EmptiedVersionLeavesNodeBehind | src/utils.py:313-318 | On a host where every step works, a new user with an emptied version commits and leaves the running node with the old user's file. |
| Limits.FailedRestore | src/utils.py:207-221 | An event whose rollback cannot write the node's file, and stops the node without an error, ends in a probe that asks the stored user of a node launched with the new one; reverting the change then leaves the file unrendered. |
| Limits.FailedStop | src/utils.py:247-257 | An event whose rollback restores the node's file, but whose stop of the node fails and leaves a new process, ends in a probe that asks the stored user of a node launched with the new one. |
| Configs.RenderMonitorEnv | src/utils.py:585-593 | The text is one line per default variable, in order, with user and password replaced when set. |
| Configs.RenderProxyEnv | src/utils.py:561-582 | The text is one line per default variable, in order; the filter switch is written even when false, the other overrides only when set. |
| Renderings.MonitorFile | src/utils.py:585-593 | The monitor's file is these nine lines, with user and password where they are set. |
| Renderings.ProxyFile | src/utils.py:561-582 | The proxy's file is these ten lines; a deliberate false of the filter is written as such. |
| Renderings.NodeFile | src/utils.py:481-496 | The node's file is one line, the hardened arguments between double quotes, with user and password behind them if and only if both are set. |
| Units.LineRead | templates/bitcoind-monitor.service:8 | A line with a variable name and a plain value is read as that assignment, whatever follows. |
| Units.WeightBound | templates/bitcoind-monitor.service:8 | No reading yields more characters than the file has, an assignment counting its `=` and line end. |
| Deliveries.EnvReadsBack | src/utils.py:585-593 | The unit reads a written file as the pairs written if and only if every value is plain. |
| Deliveries.BackslashSwallowsNextLine | src/utils.py:588-593 | A value that ends in a backslash is read with the whole next line appended, and that line's variable is gone. |
| Deliveries.BackslashedPasswordsDiffer | src/utils.py:561-593 | With a password that ends in a backslash, and plain values otherwise, monitor and proxy receive two different passwords. |
| Deliveries.PlainCredentialsRead | src/utils.py:561-593 | If all values are plain, monitor and proxy receive the same user and password, the configured ones or "default". |
| Deliveries.ProxyReceives | src/utils.py:561-582 | If all values are plain, the proxy receives "true" or "false" for its filter as configured, the configured listening address or its default, and the configured allow list. |
| Agreements.MonitorAndProxyAgree | src/constants.py:40-95 | For values without line ends, monitor and proxy receive the same user and password if and only if systemd accepts both files, user and password each leave the reader outside quotes and escapes at the end of their line, and the proxy's address leaves no quote open; what they receive then is the value without its quotes and escapes. |
| Agreements.KeysRead | templates/bitcoin-rpc-proxy.service:8 | Of a file with one-line values no variable is read but those written, and none whose line is read inside another value. |
| Agreements.QuoteHidesVariable | templates/bitcoin-rpc-proxy.service:8 | Where the first value of a file leaves a quote open, the variable behind the constants that follow is not read at all. |
| CommandLines.BareWords | templates/bitcoind.service:8 | Text without quotes and backslashes is split at its blanks and nowhere else. |
| CommandLines.CountBound | templates/bitcoind.service:8 | Splitting adds no character and loses only blanks, quotes and backslashes. |
| NodeArguments.NodeReceivesCredentials | src/utils.py:481-500 | The node receives the configured user and password as its last arguments if and only if both are set and clean and the operator's arguments leave no quote open and have no rejected character. |
| NodeArguments.QuoteFreeArgumentsReceived | src/utils.py:539-558 | For arguments without quotes and backslashes the node receives exactly the operator's unmanaged tokens, the pins and the credentials. |
| NodeArguments.QuotedValueLeavesQuoteOpen | src/utils.py:495-496 | Any unmanaged option with a quoted value of two words leaves a quote open behind the pins. |
| NodeArguments.TokensReceived | templates/bitcoind.service:7-8 | Two tokens written behind the pins are the last words received if and only if no quote is open there and both are clean. |
| NodeArguments.OpenQuoteSwallows | templates/bitcoind.service:7-8 | Behind an open quote no two tokens, whatever they contain, are received as the last words. |
| Configs.SkippedFilesRenderTheSame | src/utils.py:350-363 | A file outside the change class renders the same from the old and the new configuration, so skipping it is safe. |
| Configs.ClassesAreFields | src/utils.py:348-363 | The four classes of changed keys that steer a transaction are exactly differences in these fields: two for the credentials, two for the release, six for the node, six for the proxy. |
| Charms.NoChange | src/charm.py:34-45 | No tracked key differs if and only if the whole configurations are equal: no field the files depend on escapes the comparison. |
| Flags.HardenSplits | src/utils.py:550-558 | Hardened text splits, by Python's or the shell's rules, into the operator's unmanaged tokens followed by the charm's own. |
| Flags.HardenTokensShape | src/utils.py:550-557 | Two rounds of stripping with pins appended in between equal one strip of all managed names followed by all pins. |
| Flags.HardenIdempotent | src/utils.py:539-558 | Hardening hardened arguments changes nothing. |
| Flags.HardenKeepsOperatorTokens | src/utils.py:550-558 | The operator's tokens that name no managed option survive, each exactly once and in their old order; which tokens those are is `HardenByShape`. |
| Options.HardenByShape | src/utils.py:507-558 | The hardened text is the operator's surviving tokens in their order and then the charm's own three or four, one blank between any two; a token survives if and only if it is not dashes, an optional "no", and one of rpcbind, rpcallowip, rpcport (wallet, disablewallet too when the wallet is disabled), followed by nothing or by "=" and any value. |
| Flags.HardenedFlags | src/utils.py:539-558 | For quote-free arguments in any letter case, the parsed effective rpcport is 8332 and the rpcbind list is whatever overrides hardening let through followed by the two loopback addresses. |
| Flags.ParseEffectiveFlags | src/bitcoin_metadata.py:277-300 | The result is the exact multimap of the command line: each non-sensitive casefolded name has all its values in order, a scalar exactly when there is one, and no other key is present. |
| Flags.FlagTable.Add | src/bitcoin_metadata.py:265-274 | One more value of a non-sensitive name is appended to its entry and no other entry changes. |
| Flags.SettingAdds | src/bitcoin_metadata.py:265-274 | Adding a value keeps the table the exact multimap of the tokens read so far. |
| Flags.GroupedUsesEveryTokenOnce | src/bitcoin_metadata.py:284-299 | Reading tokens as options, options with values and strays uses every token exactly once. |
| Flags.GroupingIsUnique | src/bitcoin_metadata.py:284-299 | No other well-formed grouping has the same tokens. |
| Flags.OptionSetting | src/bitcoin_metadata.py:290-297 | The parser's order of decisions picks the name and value of the unique grouping. |
| Flags.GroupedAppend | src/bitcoin_metadata.py:293-295 | Options appended to a command line are never taken as the value of an earlier token. |
| Flags.EntryEndsWith | src/bitcoin_metadata.py:303-305 | The effective value of a repeated flag is its last one. |
| Options.ParsedFlags | src/bitcoin_metadata.py:277-300 | For a command line written as words, `-name=value`, `-name value` and `-name`, with any number of dashes, the parsed flags hold for a name all its values in order, one as a scalar and more as a list, and nothing for a sensitive or unset name; where the shell's splitting fails, the tokens are what stands between blanks. |
| Options.PiecesExist | src/bitcoin_metadata.py:284-299 | Every list of tokens is written in such pieces, so `ParsedFlags` covers every command line. |
| Options.SensitiveExactly | src/bitcoin_metadata.py:50-52 | A key is sensitive if and only if one of fourteen words stands in it once it is folded and all but letters and digits are dropped. |
| Flags.KeyWithoutAOrEIsNotSensitive | src/bitcoin_metadata.py:50-52 | A lower-case name without the letters a and e is never taken for a credential. |
| Text.SplitJoin | src/utils.py:550-558 | Joining tokens and splitting again gives them back if and only if every token is non-empty and without separators. |
| Text.SplitAtBlank | src/utils.py:493 | Splitting distributes over a blank between two texts. |
| Text.SplitFindsWords | src/utils.py:549 | The tokens of a text are its words in order: each stands at a place of its own, with blanks and nothing else before, between and behind them. |
| Scanner.FindContainerEnd | src/bitcoin_metadata.py:87-108 | The loop returns the one index at which the brackets since the start that are outside quotes and not escaped form a complete balanced word, and none if there is no such index; quoting is defined apart from the scanner, by runs of backslashes and pairs of quotes. |
| Scanner.ContainerEndExact | src/bitcoin_metadata.py:87-108 | The scanner returns an index if and only if the grammar of balanced brackets, with its own account of quoting, accepts it, so there is at most one. |
| Scanner.StatesMean | src/bitcoin_metadata.py:74-84 | After any text the scanner is in an escape exactly if an odd run of backslashes ends it, and inside a quote exactly if the unescaped quotes, each closed by the next of its kind, leave that one open; the brackets it has seen are those outside both. |
| Scanner.ScanFromExact | src/bitcoin_metadata.py:93-107 | In any state of stack, quote and escape, the rest of the scan ends at an index exactly when the brackets up to it close the whole stack there. |
| Scanner.ContainerEndIgnoresRest | src/bitcoin_metadata.py:87-108 | Text after the container has no influence on where it ends. |
| Scanner.OpenThenCloses | src/bitcoin_metadata.py:98-100 | Pushing a closer for an opener loses no accepted continuation. |
| Scanner.ClosesThenOpen | src/bitcoin_metadata.py:98-100 | Pushing a closer for an opener admits no other continuation. |
| Scanner.ClosesThenClose | src/bitcoin_metadata.py:103-105 | A closer continues a balanced word exactly when it matches the top of the stack. |
| Redaction.RedactSerializedFragments | src/bitcoin_metadata.py:122-150 | The loop with cursor and output computes the function the decomposition theorems are about. |
| Redaction.FragmentsDecompose | src/bitcoin_metadata.py:122-150 | There is a text if and only if the value decomposes into ordered, disjoint cuts, each one complete parsable container that can be rendered, with no serialized-looking opener kept; it is the kept text verbatim with each cut replaced by its redacted serialization. |
| Redaction.FragmentsGiveUp | src/bitcoin_metadata.py:137-148 | The loop gives up if and only if a serialized-looking opener outside all cuts is unclosed or its container does not parse, and raises if and only if the container of such an opener cannot be rendered; all cuts before it can. |
| Redaction.FragmentsSound | src/bitcoin_metadata.py:126-150 | Every text comes from a decomposition whose cuts can all be rendered. |
| Redaction.FragmentsComplete | src/bitcoin_metadata.py:126-150 | Every such decomposition yields the text, so there is at most one output. |
| Redaction.NextOpener | src/bitcoin_metadata.py:127-131 | The first opener of either kind from the cursor on. |
| Redaction.LooksSerializedWhen | src/bitcoin_metadata.py:111-119 | An opener looks serialized if and only if only blanks follow, or the first other character is one of four behind a brace, or, behind a bracket, one of seven, a digit, or the start of one of six words. |
| Redaction.CutMeans | src/bitcoin_metadata.py:136-149 | A cut hands exactly its container to the parser, from the opener to its matching closer; with one character more on either side if and only if those two are the same quote. |
| Redaction.KeptAndParsedIffWrapped | src/bitcoin_metadata.py:136-149 | Some character is both kept in the output and handed to the parser if and only if some cut is wrapped in quotes. |
| Redaction.QuotedContainerKeepsOneQuote | src/bitcoin_metadata.py:136-149 | A text that is one quoted container keeps its opening quote and loses its closing one, whatever the container, unless that cannot be serialized. |
| Redaction.OutputRedacted | src/bitcoin_metadata.py:219-221 | The public entry redacts every payload along every path, unless it raises: the empty key it starts with is not sensitive. A text on the path is "REDACTED" or the swept output of its decomposition, as in `RuntimeValueRedacted`. |
| Redaction.RedactionAlongPath | src/bitcoin_metadata.py:205-216 | Along every path, the value below the first sensitive key is "REDACTED" with nothing below it; where no key on the path is sensitive, constructor, keys and lengths are unchanged, a text is "REDACTED" where the loop gives up on it and otherwise the swept output of its decomposition, other leaves are unchanged, and paths that led nowhere still do. |
| Redaction.RuntimeValueRedacted | src/bitcoin_metadata.py:153-157 | A text is redacted to the literal "REDACTED" if a serialized-looking opener outside all cuts is unclosed or does not parse, and otherwise to the swept output of its decomposition into cuts; there is no result if and only if a cut's container cannot be rendered. |
| Redaction.RedactedTextIsUnique | src/bitcoin_metadata.py:153-157 | No text has two such redactions, so the statement determines the redactor. |
| Redaction.CutRedacted | src/bitcoin_metadata.py:148 | What stands in the place of a cut is the serialization of its parsed container, redacted along every path. |
| Redaction.SerializationRaises | src/bitcoin_metadata.py:148 | A parsed container cannot be rendered if and only if, below no sensitive key, it holds something JSON has no form for or a text whose own redaction raises. |
| Redaction.RedactionRaises | src/bitcoin_metadata.py:205-216 | Redacting a value raises if and only if, below no sensitive key, it holds a text whose redaction raises. |
| Redaction.BytesMakeItRaise | src/bitcoin_metadata.py:148 | On the text `[1, b'x']`, read as a list with bytes in it, the redactor raises. |

`Redaction.RedactValue`, `RedactRuntimeValue` and `RedactFragments` are mutually recursive in the way of the source
(src/bitcoin_metadata.py:122-157, 205-216); that they are accepted with their `decreases` clauses (size of all
strings, then nodes, then distance to the end) is the proof that redaction terminates on every input.

## Left out

- Downloads, checksums, URL and version validation, and tar extraction (src/bitcoin.py:18-86, 202-220): one fallible step that stages two files or leaves debris in the release directory.
- Subprocesses, systemd and polling: each service command and each probe is one step; the repeated polls of `service_running` and `wait_for_running_version` are one answer each, and status queries are total.
- Cross-unit effects of systemd: starting one unit is assumed to affect that unit only, although templates/bitcoin-rpc-proxy.service:5 has `Wants=bitcoind.service`.
- Crashes of services in the middle of a transaction, and interrupts between two Python statements: faults occur at external steps.
- Ownership, directory creation and the naming of temporary files: temporary names are assumed fresh and outside the managed files.
- A failed download, chown or directory creation elsewhere than at the modelled steps.
- The several `write` calls of one environment file are one write in place; a failure leaves arbitrary bytes either way.
- File modes are the permission bits the source restores.
- The regular expressions: those of `redact_runtime_value` (src/bitcoin_metadata.py:158-201) are one uninterpreted string function, so the whole redactor is not claimed to be idempotent; the one of `_version_parts` is a parameter of the host.
- `json`, `ast`, `shlex` and `casefold`: parameters with contracts (`Library`). Parsed strings have fewer characters than their source, quote-free text is split at blanks, lower-case ASCII folds to itself, and `json.dumps` fails exactly on values that hold what JSON has no form for; other exceptions of these functions (recursion depth, the length of integers) are not modelled.
- Mappings with keys that are not strings: keys are strings from the start, so two keys that print alike do not collide.
- Agreements.MonitorAndProxyAgree: says nothing about values with line ends, which can add or repeat variables of their own.
- Charms.Charm.OnConfigChanged: starts with the comparison of keys; the summary for the event log, which is made before and redacts the new values, is not part of it.
- systemd's own limits: the readers follow systemd.exec(5) and systemd.service(5), with a carriage return ending a line as in systemd's parser; limits on the size of the environment, and what a service does with its variables and arguments, are not modelled.
- NodeArguments.NodeReceivesCredentials: says nothing about operator's arguments that leave a quote open while no credentials are set, because the one word behind the quote may then look like anything.
- Unset configuration options: options have the defaults of charmcraft.yaml, so `None` is not modelled.
- The install hook: runs start from files that equal the rendering of the stored configuration.
- `_update_status` after an event, status messages, the event log and the waiting time of the restart action.
- The proxy program, its response cache, the Prometheus monitor, the relations, the metadata upload and the release scripts: separate programs, or easy members only.
- Charms.Charm.OnStart: whether a service that was started stays up is left to the schedule, since the source does not check it there.
- Rollbacks.RestoredServiceErrors: the order of monitor and proxy errors in the message is not stated.
