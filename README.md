# WebSphere ND 9 administration scripts — a Dafny model

This project models five wsadmin Jython scripts for WebSphere Application
Server Network Deployment 9, and proves properties about them:

- **AppServerPortsProps** changes the endpoint ports of one application server. It:
  - exports the server's configuration to a properties file in a `/tmp` directory named after the timestamp, created when it does not exist;
  - rewrites every `KEY=digits` assignment found in that file with the matching line of the user's properties file (`editConfigProps`);
  - validates and applies the result, saves, and syncs the nodes;
  - starts or restarts the server, polls until it reports `STARTED`, and removes the directory.
- **serverConfig** can optionally:
  - set daily log rotation for SystemOut/SystemErr;
  - enable verbose garbage collection when it is not already on;
  - disable the WebSphere MQ resource adapter when exactly one adapter matches.

  It then saves, syncs, restarts and polls.
- **wasOpsUser** creates the `wasops` group and a user, adds the user to the group, maps the group to the `operator` administrative role, and saves. It never syncs the nodes.
- **createCluster** turns a server into the first member of a new `APPLICATION_SERVER` cluster, then saves and syncs.
- **createClusterMember** adds a new member to an existing cluster, then saves and syncs.

## How the scripts are modelled

- **Runtime answers.** The administrative runtime (`AdminTask`, `AdminConfig`, `AdminControl`) is closed code. Each of its answers is an input: `Returned(text)`, or `Raised` when the call threw.
- **Command line.** `getopt`'s answer is also an input: either an error, or the recognised (flag, value) pairs in command-line order.
- **Runs.** A run is a function `Run(argc, parsed, answers)` that returns an `Outcome`:
  - the list of calls made (`Step`), with the exact arguments the script passed;
  - how the run ended: `Code(n)` for `os._exit(n)`, or `Uncaught` for an exception that no `try` catches.
- **Unassigned globals.** A global that no option assigned is `None`. The first read of it raises a `NameError`, at the point in `main` where the script first reads it.
- **Loops.** The loops of the scripts are `method`s, each proved equal to the specification function the rest of the model uses:
  - every `get_args` dispatch loop;
  - the `editConfigProps` rewrite loop;
  - the `checkAppSvr` poll.
- **Regular expressions.** The two regular expressions of `editConfigProps` (`\S=\d+` and `KEY=\d+`) are hand-written scanners. The MQ adapter pattern is a predicate: a line matches when the text `"WebSphere MQ Resource Adapte` occurs in it at some position.

Modules:

| module | holds |
|---|---|
| `Common` | `Option`/`Fallible`, `filter`, `split`/`join`, slices |
| `Options` | the (flag, value) pairs and the last-occurrence rule |
| `Admin` | steps and outcomes; save, sync, restart and status check |
| `StatusPoll` | `checkAppSvr` |
| `PropsRewrite` | `editConfigProps` |
| `ClusterArgs` | `get_args`, identical in the two cluster scripts |
| one module per script | its requests and its `main` |

## Model

| member | source | states |
|---|---|---|
| Common.Filter | AppServerPortsProps_J27.py:175 | `filter`: keeps at most the input's elements, every kept element is accepted, and every accepted element is kept |
| Common.FilterCounts | serverConfig_J27.py:162-164 | `filter` keeps every accepted element as often as it occurs, duplicates included, and nothing else, so a repeated adapter line counts twice in `len(findj2c)` |
| Common.FilterAppend | serverConfig_J27.py:162 | filtering a concatenation is the concatenation of the filtered parts |
| Common.Token | AppServerPortsProps_J27.py:182 | `split('=')[0]`: a prefix free of `=` that ends at the first `=` or at the end of the text |
| Common.SliceFrom | wasOpsUser_J27.py:166 | `group[3:]`: empty for a group shorter than 3, otherwise the group shifted by three characters |
| Options.LastOccurrenceWins | AppServerPortsProps_J27.py:109-120 | the last pair carrying a flag decides its variable; earlier pairs are overridden |
| Options.LastValueAbsent | AppServerPortsProps_J27.py:109-120 | a variable stays unassigned exactly when its flag never appears |
| StatusPoll.CheckAppSvr | AppServerPortsProps_J27.py:270-288 | the poll loop makes `Polls` reads and leaves the last successfully read state |
| StatusPoll.PollsStopAtFirstStarted | AppServerPortsProps_J27.py:273-286 | at most `retries` reads; no read before the last returned `STARTED`; an early stop comes right after a `STARTED` read |
| StatusPoll.LastReadWasRead | AppServerPortsProps_J27.py:271-279 | a non-empty reported state is the value of one of the reads (failed reads keep the previous state) |
| StatusPoll.ReportsStartedIff | AppServerPortsProps_J27.py:270-288 | the reported state is `STARTED` exactly when one of the first `retries` reads returned it |
| Admin.ServerQueryFields | AppServerPortsProps_J27.py:249 | for comma-free names the server pattern is exactly the five key properties cell, node, name, `type=Server`, `*` |
| Admin.RestartChoice | AppServerPortsProps_J27.py:247-264 | after the MBean lookup, `startServer` is called exactly when the lookup is empty and `restart` otherwise; only an exception stops the run |
| Admin.StatusCheckReport | serverConfig_J27.py:231-249 | the status check polls at most 10 times and reports `STARTED` exactly when one of those reads did; it never changes the exit |
| PropsRewrite.Lines | AppServerPortsProps_J27.py:172 | `readlines`: the lines concatenate back to the text, none is empty, a line feed only ends a line, and every line but the last ends in one |
| PropsRewrite.TargetLineIff | AppServerPortsProps_J27.py:174-175 | a line is used exactly when a non-whitespace character, `=` and a digit occur in a row somewhere in it |
| PropsRewrite.TargetLineShape | AppServerPortsProps_J27.py:181-182 | for a used line, the replacement is the line minus exactly its last character, and the key is everything before its first `=` |
| PropsRewrite.DigitRun | AppServerPortsProps_J27.py:183 | `\d+` is greedy: the run is all digits and is followed by a non-digit or the end |
| PropsRewrite.MatchLen | AppServerPortsProps_J27.py:183-184 | a match covers the key, `=` and the maximal digit run, and no digit follows it |
| PropsRewrite.RewriteWithoutOccurrence | AppServerPortsProps_J27.py:183-184 | a key that never occurs before `=` and a digit leaves the contents identical |
| PropsRewrite.RewriteFirstOccurrence | AppServerPortsProps_J27.py:183-184 | the text before the first occurrence is kept, and the occurrence with its whole digit run becomes the replacement; the scan continues after it |
| PropsRewrite.RewriteTwice | AppServerPortsProps_J27.py:180-184 | rewriting a key with a well-formed `key=digits` and then rewriting it again equals the second rewrite alone |
| PropsRewrite.LongerKeyRewritten | AppServerPortsProps_J27.py:183-184 | in a server text with a single assignment, matching is unanchored: a key that ends a longer key (`ADDRESS` in `SOAP_ADDRESS=8880`) rewrites the longer key's value and keeps its prefix |
| PropsRewrite.EditConfigProps | AppServerPortsProps_J27.py:170-190 | the loop writes back the server text with the used lines applied in file order, each to the previous result |
| PropsRewrite.ApplyLinesAppend | AppServerPortsProps_J27.py:180-185 | lines apply one after another: a later group sees the result of the earlier one |
| PropsRewrite.UnusedLineHasNoEffect | AppServerPortsProps_J27.py:174-185 | a line without `\S=\d` changes nothing, wherever it stands in the file |
| PropsRewrite.LaterLineWins | AppServerPortsProps_J27.py:180-185 | for a key repeated on two well-formed lines, the later line's value is what remains |
| PropsRewrite.EarlierLineWithoutValueSticks | AppServerPortsProps_J27.py:180-185 | an earlier line whose text no longer contains `key=<digit>` is not overridden by a later line for the same key |
| PropsRewrite.SingleLineEdit | AppServerPortsProps_J27.py:171-188 | a one-line file `KEY=digits` ending in a line feed sets the `KEY` of a server text with a single assignment to exactly those digits and keeps what follows |
| PropsRewrite.FinalLineLosesLastDigit | AppServerPortsProps_J27.py:181 | a last line without a line feed loses its last digit (`PORT=9080` writes `PORT=908`) |
| PropsRewrite.SingleLineShape | AppServerPortsProps_J27.py:172-175 | a text `key=<digit>…` with no line feed before its last character is read as exactly one used line |
| PropsRewrite.SingleLine | AppServerPortsProps_J27.py:172 | a text with no line feed before its last character is a single line |
| AppServerPortsProps.GetArgs | AppServerPortsProps_J27.py:88-121 | fewer than 6 entries, a getopt error or an unknown flag gives the usage exit; otherwise each variable holds the value of its flag's last pair |
| AppServerPortsProps.UsageBeforeWork | AppServerPortsProps_J27.py:94-107 | fewer than 6 entries or a getopt error exits 2 with no other step |
| AppServerPortsProps.TempDirUnique | AppServerPortsProps_J27.py:127-128 | the directory is `/tmp/AppServerPortsProps` followed by the timestamp, so different timestamps give different directories |
| AppServerPortsProps.ParamsJoin | AppServerPortsProps_J27.py:146-216 | the extract, validate and apply parameter strings are their option words and values joined by single spaces |
| AppServerPortsProps.ParamsSplit | AppServerPortsProps_J27.py:146-216 | for space-free names each parameter string splits back into exactly those words |
| AppServerPortsProps.ValidateApplyRules | AppServerPortsProps_J27.py:194-216 | validate exits 1 on an empty result; apply exits 1 on a non-empty result; either failing call is the last step |
| AppServerPortsProps.ValidateApplyPass | AppServerPortsProps_J27.py:194-216 | a non-empty validate result and an empty apply result pass both calls and go on |
| AppServerPortsProps.FinishSucceedsIff | AppServerPortsProps_J27.py:318-334 | the end of `main` reaches exit 0 exactly when save returned nothing, the sync and restart did not raise and the node is known; it then saves, syncs, restarts, polls and removes the directory, in that order |
| AppServerPortsProps.FinishCleanup | AppServerPortsProps_J27.py:318-334 | the end of `main` removes the directory exactly when it reaches exit 0 |
| AppServerPortsProps.ReachesFinish | AppServerPortsProps_J27.py:297-316 | when the steps up to apply pass, the run is those steps followed by the end of `main` |
| AppServerPortsProps.SucceedsIff | AppServerPortsProps_J27.py:295-335 | exit 0 exactly when the arguments parsed with all three options given, the file exists, extract did not raise, validate returned something, apply and save returned nothing, and sync and restart did not raise |
| AppServerPortsProps.SuccessSteps | AppServerPortsProps_J27.py:295-335 | a successful run makes exactly these calls, in order: the directory when new, extract, the edited file, validate, apply, save, sync, start or restart, poll, removal |
| AppServerPortsProps.CleanupOnlyOnSuccess | AppServerPortsProps_J27.py:330-334 | the directory is removed exactly when the run reaches exit 0, and then as its last step |
| AppServerPortsProps.MissingNodeFailsLate | AppServerPortsProps_J27.py:318-325 | without `--node` the run applies, saves and syncs, then ends with an uncaught exception at the restart |
| ServerConfig.GetArgs | serverConfig_J27.py:65-109 | fewer than 4 entries, a getopt error or an unknown flag gives the usage exit; otherwise the switches start at `'no'`, a switch flag turns its switch `'yes'`, and each value holds its flag's last pair |
| ServerConfig.SwitchesFollowFlags | serverConfig_J27.py:67-103 | `rlogs`, `vgc` and `nomq` are `'yes'` exactly when their flag was given and `'no'` otherwise; `r1` is set exactly when `rlogs` is `'yes'` |
| ServerConfig.UsageBeforeWork | serverConfig_J27.py:76-87 | fewer than 4 entries or a getopt error exits 2 with no other step |
| ServerConfig.BothLogsGetPolicy | serverConfig_J27.py:260-272 | both the SystemOut and SystemErr redirects get rollover `TIME`, base hour 1, period 24 and `r1` backups |
| ServerConfig.LogModifyFailureExitsOne | serverConfig_J27.py:114-125 | a `modify` that raises on either log exits 1 |
| ServerConfig.VgcQueryJoin | serverConfig_J27.py:131 | the JVM query is its option words, server and node joined by single spaces |
| ServerConfig.VgcSetJoin | serverConfig_J27.py:132 | the JVM update is its option words, server and node joined by single spaces |
| ServerConfig.VgcRequestsSplit | serverConfig_J27.py:130-132 | for space-free names both JVM requests split back into exactly their words |
| ServerConfig.VgcSetOnlyWhenNotTrue | serverConfig_J27.py:130-149 | the set call is made exactly when the current value is not `'true'`; `'true'` only reads; a raising set exits 1 |
| ServerConfig.ServerPathSplits | serverConfig_J27.py:155 | for slash-free names the server path is the node and the server as two containment steps |
| ServerConfig.UnquotedLineNeverMatches | serverConfig_J27.py:160-162 | a listing line without a double quote never matches the MQ adapter pattern |
| ServerConfig.QuotedAdapterNameMatches | serverConfig_J27.py:160-162 | a line holding `"WebSphere MQ Resource Adapter` matches, whatever surrounds it |
| ServerConfig.MqSingleMatchRule | serverConfig_J27.py:153-177 | `manageWMQ` is called exactly when one listed line matches, and on that line; no match or several matches exit 1 |
| ServerConfig.NoFlagsNoChanges | serverConfig_J27.py:254-297 | with none of the optional flags the run is save, sync, restart, check, and no step changes the configuration |
| ServerConfig.SettingsInFixedOrder | serverConfig_J27.py:259-285 | whatever the switches and answers, no step of a later stage (logs, VGC, MQ, save) comes before a step of an earlier one |
| ServerConfig.MqAddsOnlyMq | serverConfig_J27.py:153-177 | the MQ stage adds no log, VGC or save step |
| ServerConfig.VgcAddsOnlyVgc | serverConfig_J27.py:130-149 | the VGC stage adds no log, MQ or save step |
| ServerConfig.LogsAddOnlyLogs | serverConfig_J27.py:114-125 | the log stage adds no VGC, MQ or save step |
| ServerConfig.SettingsOnlyWhenSwitchedOn | serverConfig_J27.py:259-282 | with `rlogs` not `'yes'` no log step is taken, neither the `/Server:` lookup nor a redirect read or change; with `vgc` not `'yes'` no JVM property is read or set; with `nomq` not `'yes'` no resource adapter is listed or changed |
| WasOpsUser.GetArgs | wasOpsUser_J27.py:77-113 | fewer than 8 entries, a getopt error or an unknown flag gives the usage exit; otherwise the last occurrence of each flag wins |
| WasOpsUser.UsageBeforeWork | wasOpsUser_J27.py:84-96 | fewer than 8 entries or a getopt error exits 2 with no other step |
| WasOpsUser.GroupRequestReadsBack | wasOpsUser_J27.py:117-120 | reading the group request as option/value pairs gives the group name for `-cn`, the description for `-description`, and no other option |
| WasOpsUser.UserRequestReadsBack | wasOpsUser_J27.py:133-136 | reading the user request as option/value pairs gives the user id, password, common name and surname for `-uid`, `-password`, `-cn` and `-sn`, and no other option |
| WasOpsUser.AddRequestReadsBack | wasOpsUser_J27.py:149-151 | reading the add request as option/value pairs gives the returned user for `-memberUniqueName`, the returned group for `-groupUniqueName`, and no other option |
| WasOpsUser.RoleConfigJoin | wasOpsUser_J27.py:164-166 | the role request is `[-roleName operator -accessids [group:<realm>/<group> ] -groupids [<group[3:]> ]]`, as words joined by single spaces |
| WasOpsUser.RoleConfigSplits | wasOpsUser_J27.py:164-166 | for a space-free group and realm the role request splits back into exactly its words |
| WasOpsUser.GroupIdDropsCommonNamePrefix | wasOpsUser_J27.py:166 | for a group `cn=X` the group id in the request is `X` |
| WasOpsUser.RoleMappingRule | wasOpsUser_J27.py:163-182 | an exception or an empty result from the role mapping exits 1 after four calls; only a non-empty result reaches save |
| WasOpsUser.MissingUserOptionRaisesAfterGroup | wasOpsUser_J27.py:212-220 | a missing user option raises only after the group was created |
| WasOpsUser.SucceedsIff | wasOpsUser_J27.py:212-237 | exit 0 exactly when all four options were given, no call raised, the role mapping returned something and save returned nothing; the calls are create group, create user, add the returned user to the returned group, map the role, save |
| WasOpsUser.NeverSyncs | wasOpsUser_J27.py:228-236 | no run syncs the nodes |
| ClusterArgs.GetArgs | createCluster_J27.py:57-91 | fewer than 6 entries, a getopt error or an unknown flag gives the usage exit; otherwise `c1`, `s1`, `n1` hold the last values of their flags |
| CreateCluster.UsageBeforeWork | createCluster_J27.py:64-77 | fewer than 6 entries or a getopt error exits 2 with no other step |
| CreateCluster.ClusterConfigJoin | createCluster_J27.py:96-99 | the request is `[-clusterConfig [-clusterName C -preferLocal true -clusterType APPLICATION_SERVER] -convertServer [-serverNode N -serverName S]]`, as words joined by single spaces |
| CreateCluster.ClusterConfigSplits | createCluster_J27.py:96-99 | for space-free names the request splits back into exactly its words, each name a word of its own |
| CreateCluster.MissingOptionRaises | createCluster_J27.py:142-148 | a missing option raises before the runtime is called |
| CreateCluster.SucceedsIff | createCluster_J27.py:142-158 | exit 0 exactly when all options were given, create did not raise, save returned nothing and sync did not raise; the calls are create, save, sync |
| CreateCluster.FailsWithOneIff | createCluster_J27.py:100-137 | exit 1 exactly when create raised or save returned something; the sync never causes it |
| CreateClusterMember.UsageBeforeWork | createClusterMember_J27.py:63-76 | fewer than 6 entries or a getopt error exits 2 with no other step |
| CreateClusterMember.MemberConfigJoin | createClusterMember_J27.py:95-97 | the request is `[-clusterName C -memberConfig  [-memberNode N -memberName S]]`, with two spaces before `[-memberNode`, as words joined by single spaces |
| CreateClusterMember.MemberConfigSplits | createClusterMember_J27.py:95-97 | for space-free names the request splits back into exactly its words, with one empty word for the doubled space |
| CreateClusterMember.MissingOptionRaises | createClusterMember_J27.py:140-146 | a missing option raises before the runtime is called |
| CreateClusterMember.SucceedsIff | createClusterMember_J27.py:140-156 | exit 0 exactly when all options were given, create did not raise, save returned nothing and sync did not raise; the calls are create member, save, sync |
| CreateClusterMember.FailsWithOneIff | createClusterMember_J27.py:98-136 | exit 1 exactly when create raised or save returned something; the sync never causes it |

In both cluster scripts, the node and the server in the request are the globals
`n1` and `s1`, not the `srvr`/`nde` parameters of the request function. `main`
passes those same globals as the arguments, so the model's request takes the
parsed node and server as its inputs.

## Left out

- The administrative runtime. What `AdminTask`, `AdminConfig` and `AdminControl` do is closed code; only their answers are modelled, as inputs.
- `getopt`. It is a library; its answer is an input: an error, or the recognised pairs in order.
- `argc` is taken as a number. The relationship between `sys.argv` and getopt's answer is not modelled.
- File contents. Files are taken as strings:
  - the user's properties file;
  - the exported server file;
  - the result of `os.path.isfile`;
  - whether the temporary directory exists.

  Errors from `open`, `read` and `write` are not modelled. The written file is a `WriteFile` step.
- `time.time()`. The timestamp is taken as an already formatted string.
- `time.sleep` and the `snooze` parameter. They only delay.
- Printed messages and `usage()`.
- Node sync. `queryNames` and the `syncActiveNodes` invoke are one answer, and the step `SyncActiveNodes`.
- General regular expressions. Only the three fixed patterns are modelled, with ASCII `\s` and `\d`:
  - `\S=\d+`;
  - `KEY=\d+`;
  - `"WebSphere\sMQ\sResource\sAdapter*`.

  The key of a `KEY=\d+` search is matched literally, so regex metacharacters in a key are not modelled. The replacement line is inserted literally, so `re.sub` backslash escapes in it are not modelled.
- The J2C adapter listing. The result of `AdminConfig.list(...).splitlines()` is taken as the given list of lines.
- `AdminControl.getCell()` at module load. The cell name is an input; that call raising is not modelled.
- The `__name__ != '__main__'` branch. It only prints the usage and exits 1 when the script is imported.
- createAppServer_J27.py and AppServerProps_J27.py are not part of this model. Each is one `AdminTask` call behind the same argument pattern.
- AppServerPortsProps.SucceedsIff: does not model `os.makedirs` (line 130) or `shutil.rmtree` (line 331) raising; each is taken as succeeding, so "exit 0 exactly when" holds only for runs where neither raises.
- AppServerPortsProps.FinishSucceedsIff: takes `shutil.rmtree` as succeeding, for the same reason.
- AppServerPortsProps.CleanupOnlyOnSuccess: takes `shutil.rmtree` as succeeding, for the same reason.
- Admin.StatusCheckReport: does not model a `completeObjectName` call inside the poll that raises. That call is outside the `try`, so the exception would end the run, but the model takes every poll's lookup as returning.
- StatusPoll.CheckAppSvr: the same gap. Only the `getAttribute` read of each poll may fail; the `completeObjectName` lookup before it is taken as returning.
