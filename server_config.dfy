/**
 * serverConfig: optional settings for one application server — daily rotation
 * of its SystemOut/SystemErr logs, verbose garbage collection, and turning off
 * the WebSphere MQ resource adapter — then save, sync, restart and status check.
 */
module ServerConfig {
  import opened Common
  import opened Options
  import opened Admin

  /**
   * The globals after `get_args`: `s1`, `n1` and `r1` are unbound (`None`) when their
   * option was not given; `rlogs`, `vgc` and `nomq` start as "no".
   */
  datatype ServerSettings = ServerSettings(
    server: Option<string>, node: Option<string>,
    rlogs: string, retain: Option<string>, vgc: string, nomq: string)

  const MinArgs: nat := 4

  const Flags: set<string> := {"--server", "--node", "--retainlogs", "--enableVGC", "--disableMQ"}

  function YesIf(b: bool): string { if b then "yes" else "no" }

  /** What the argument stage leaves behind. */
  function Parse(argc: nat, parsed: Getopt): ArgsOutcome<ServerSettings> {
    if argc < MinArgs || parsed.GetoptError? || !AllKnown(parsed.opts, Flags) then UsageExit
    else
      var opts := parsed.opts;
      Parsed(ServerSettings(
        LastValue(opts, "--server"), LastValue(opts, "--node"),
        YesIf(Given(opts, "--retainlogs")), LastValue(opts, "--retainlogs"),
        YesIf(Given(opts, "--enableVGC")), YesIf(Given(opts, "--disableMQ"))))
  }

  /** The defaults, then the dispatch loop of `get_args`. */
  method GetArgs(argc: nat, parsed: Getopt) returns (r: ArgsOutcome<ServerSettings>)
    ensures r == Parse(argc, parsed)
  {
    var rlogs, vgc, nomq := "no", "no", "no";
    if argc < MinArgs || parsed.GetoptError? {
      return UsageExit;
    }
    var opts := parsed.opts;
    var s1, n1, r1: Option<string> := None, None, None;
    var i := 0;
    while i < |opts|
      invariant i <= |opts| && AllKnown(opts[..i], Flags)
      invariant s1 == LastValue(opts[..i], "--server")
      invariant n1 == LastValue(opts[..i], "--node")
      invariant r1 == LastValue(opts[..i], "--retainlogs")
      invariant rlogs == YesIf(Given(opts[..i], "--retainlogs"))
      invariant vgc == YesIf(Given(opts[..i], "--enableVGC"))
      invariant nomq == YesIf(Given(opts[..i], "--disableMQ"))
    {
      var flag, val := opts[i].flag, opts[i].value;
      LastValueStep(opts, i, "--server");
      LastValueStep(opts, i, "--node");
      LastValueStep(opts, i, "--retainlogs");
      GivenStep(opts, i, "--retainlogs");
      GivenStep(opts, i, "--enableVGC");
      GivenStep(opts, i, "--disableMQ");
      if flag == "--server" {
        s1 := Some(val);
      } else if flag == "--node" {
        n1 := Some(val);
      } else if flag == "--retainlogs" {
        rlogs := "yes";
        r1 := Some(val);
      } else if flag == "--enableVGC" {
        vgc := "yes";
      } else if flag == "--disableMQ" {
        nomq := "yes";
      } else {
        return UsageExit;
      }
      AllKnownStep(opts, i, Flags);
      i := i + 1;
    }
    assert opts[..i] == opts;
    return Parsed(ServerSettings(s1, n1, rlogs, r1, vgc, nomq));
  }

  /**
   * The three switches are "yes" exactly when their flag was given and "no" otherwise,
   * and `r1` is bound exactly when `rlogs` is "yes", to the last `--retainlogs` value.
   */
  lemma SwitchesFollowFlags(argc: nat, parsed: Getopt)
    requires Parse(argc, parsed).Parsed?
    ensures var g := Parse(argc, parsed).settings;
      (g.rlogs == "yes" <==> Given(parsed.opts, "--retainlogs")) && (g.rlogs == "no" <==> !Given(parsed.opts, "--retainlogs")) &&
      (g.vgc == "yes" <==> Given(parsed.opts, "--enableVGC")) && (g.vgc == "no" <==> !Given(parsed.opts, "--enableVGC")) &&
      (g.nomq == "yes" <==> Given(parsed.opts, "--disableMQ")) && (g.nomq == "no" <==> !Given(parsed.opts, "--disableMQ"))
    ensures var g := Parse(argc, parsed).settings;
      g.rlogs == "yes" <==> g.retain.Some?
  {
    LastValueAbsent(parsed.opts, "--retainlogs");
  }

  // ---------------------------------------------------------------------------
  // Log rotation
  // ---------------------------------------------------------------------------

  /** The attribute list `log_settings` writes: daily rotation at 01:00, keeping `backups` old files. */
  function LogPolicy(backups: string): seq<Attr> {
    [Attr("rolloverType", Str("TIME")), Attr("baseHour", Int(1)), Attr("rolloverPeriod", Int(24)),
     Attr("maxNumberOfBackupFiles", Str(backups))]
  }

  /** The containment path of the server for `AdminConfig.getid`. */
  function LogsPath(s1: string): string { "/Server:" + s1 }

  /** The runtime's answers for the log settings: the server id, the two redirect ids, the two modify calls. */
  datatype LogAnswers = LogAnswers(
    serverId: Fallible<string>, outLog: Fallible<string>, errLog: Fallible<string>,
    modifyOut: Fallible<string>, modifyErr: Fallible<string>)

  /** `log_settings(log, backups)`: an exception exits 1. */
  function LogSettings(log: string, backups: string, answer: Fallible<string>, rest: Outcome): Outcome {
    var call := Modify(log, LogPolicy(backups));
    if answer.Raised? then Outcome([call], Code(1)) else Then([call], rest)
  }

  /** The `rlogs == "yes"` block of `main`: `s1` and `r1` are read where the block first uses them. */
  function RetainLogs(s1: Option<string>, r1: Option<string>, a: LogAnswers, rest: Outcome): Outcome {
    if s1.None? then Outcome([], Uncaught)
    else
      var getId := GetId(LogsPath(s1.value));
      match a.serverId
      case Raised => Outcome([getId], Uncaught)
      case Returned(sid) =>
        var showOut := ShowAttribute(sid, "outputStreamRedirect");
        match a.outLog
        case Raised => Outcome([getId, showOut], Uncaught)
        case Returned(log1) =>
          if r1.None? then Outcome([getId, showOut], Uncaught)
          else
            var showErr := ShowAttribute(sid, "errorStreamRedirect");
            Then([getId, showOut],
              LogSettings(log1, r1.value, a.modifyOut,
                (match a.errLog
                 case Raised => Outcome([showErr], Uncaught)
                 case Returned(log2) => Then([showErr], LogSettings(log2, r1.value, a.modifyErr, rest)))))
  }

  /**
   * With every answer returned, both the SystemOut and the SystemErr redirect get the same
   * policy: rollover by TIME at hour 1 every 24 hours, keeping `r1` backups.
   */
  lemma BothLogsGetPolicy(s1: string, r1: string, a: LogAnswers, rest: Outcome)
    requires a.serverId.Returned? && a.outLog.Returned? && a.errLog.Returned?
    requires a.modifyOut.Returned? && a.modifyErr.Returned?
    ensures var policy := [Attr("rolloverType", Str("TIME")), Attr("baseHour", Int(1)),
                           Attr("rolloverPeriod", Int(24)), Attr("maxNumberOfBackupFiles", Str(r1))];
      RetainLogs(Some(s1), Some(r1), a, rest) == Then([
        GetId("/Server:" + s1),
        ShowAttribute(a.serverId.value, "outputStreamRedirect"), Modify(a.outLog.value, policy),
        ShowAttribute(a.serverId.value, "errorStreamRedirect"), Modify(a.errLog.value, policy)], rest)
  {
    var sid := a.serverId.value;
    var p := LogPolicy(r1);
    ThenThen([ShowAttribute(sid, "errorStreamRedirect")], [Modify(a.errLog.value, p)], rest);
    ThenThen([Modify(a.outLog.value, p)], [ShowAttribute(sid, "errorStreamRedirect"), Modify(a.errLog.value, p)], rest);
    ThenThen([GetId(LogsPath(s1)), ShowAttribute(sid, "outputStreamRedirect")],
             [Modify(a.outLog.value, p), ShowAttribute(sid, "errorStreamRedirect"), Modify(a.errLog.value, p)], rest);
  }

  /** A `modify` that raises exits 1, on either log. */
  lemma LogModifyFailureExitsOne(s1: string, r1: string, a: LogAnswers, rest: Outcome)
    requires a.serverId.Returned? && a.outLog.Returned?
    requires a.modifyOut.Raised? || (a.errLog.Returned? && a.modifyErr.Raised?)
    ensures RetainLogs(Some(s1), Some(r1), a, rest).exit == Code(1)
  {
  }

  // ---------------------------------------------------------------------------
  // Verbose garbage collection
  // ---------------------------------------------------------------------------

  function VgcQuery(svr: string, nde: string): string {
    "[-serverName " + svr + " -nodeName " + nde + " -propertyName verboseModeGarbageCollection]"
  }

  function VgcSet(svr: string, nde: string): string {
    "[-serverName " + svr + " -nodeName " + nde + " -verboseModeGarbageCollection true]"
  }

  /** The common front of both JVM requests. */
  lemma ServerNodeJoin(svr: string, nde: string)
    ensures Join(["[-serverName", svr, "-nodeName", nde], ' ') == "[-serverName " + svr + " -nodeName " + nde
  {
    JoinSnoc(["[-serverName"], svr, ' ');
    assert "[-serverName" + [' '] == "[-serverName ";
    SpacedPair(["[-serverName", svr], "[-serverName " + svr, "-nodeName", nde, " -nodeName ");
  }

  lemma QueryTailWords()
    ensures " -propertyName verboseModeGarbageCollection]" == " " + "-propertyName" + " " + "verboseModeGarbageCollection]"
  {
  }

  /** The JVM query names the server and the node and asks for the verbose GC property. */
  lemma VgcQueryJoin(svr: string, nde: string)
    ensures Join(["[-serverName", svr, "-nodeName", nde, "-propertyName", "verboseModeGarbageCollection]"], ' ') == VgcQuery(svr, nde)
  {
    var front := ["[-serverName", svr, "-nodeName", nde];
    ServerNodeJoin(svr, nde);
    QueryTailWords();
    SpacedEnd(front, "[-serverName " + svr + " -nodeName " + nde, "-propertyName", "verboseModeGarbageCollection]",
              " -propertyName verboseModeGarbageCollection]");
    assert front + ["-propertyName", "verboseModeGarbageCollection]"] ==
      ["[-serverName", svr, "-nodeName", nde, "-propertyName", "verboseModeGarbageCollection]"];
  }

  /** The JVM update names the server and the node and sets verbose GC to true. */
  lemma VgcSetJoin(svr: string, nde: string)
    ensures Join(["[-serverName", svr, "-nodeName", nde, "-verboseModeGarbageCollection", "true]"], ' ') == VgcSet(svr, nde)
  {
    var front := ["[-serverName", svr, "-nodeName", nde];
    ServerNodeJoin(svr, nde);
    SpacedEnd(front, "[-serverName " + svr + " -nodeName " + nde, "-verboseModeGarbageCollection", "true]",
              " -verboseModeGarbageCollection true]");
    assert front + ["-verboseModeGarbageCollection", "true]"] ==
      ["[-serverName", svr, "-nodeName", nde, "-verboseModeGarbageCollection", "true]"];
  }

  /** The literal words of the two JVM requests hold no space. */
  lemma VgcLiteralsFree()
    ensures Free("[-serverName", ' ') && Free("-nodeName", ' ') && Free("-propertyName", ' ')
    ensures Free("verboseModeGarbageCollection]", ' ') && Free("-verboseModeGarbageCollection", ' ') && Free("true]", ' ')
  {
  }

  /** For space-free names each JVM request splits back into its words. */
  lemma VgcRequestsSplit(svr: string, nde: string)
    requires Free(svr, ' ') && Free(nde, ' ')
    ensures Split(VgcQuery(svr, nde), ' ') == ["[-serverName", svr, "-nodeName", nde, "-propertyName", "verboseModeGarbageCollection]"]
    ensures Split(VgcSet(svr, nde), ' ') == ["[-serverName", svr, "-nodeName", nde, "-verboseModeGarbageCollection", "true]"]
  {
    VgcQueryJoin(svr, nde);
    VgcSetJoin(svr, nde);
    VgcLiteralsFree();
    var q := ["[-serverName", svr, "-nodeName", nde, "-propertyName", "verboseModeGarbageCollection]"];
    var s := ["[-serverName", svr, "-nodeName", nde, "-verboseModeGarbageCollection", "true]"];
    forall i | 0 <= i < 6 ensures Free(q[i], ' ') && Free(s[i], ' ') {
    }
    SplitOfJoin(q, ' ');
    SplitOfJoin(s, ' ');
  }

  /** The runtime's answers for `enable_vgc`: the current value and the set call. */
  datatype VgcAnswers = VgcAnswers(current: Fallible<string>, update: Fallible<string>)

  /** `enable_vgc(s1, n1)`: reads the current value and sets it only when it is not "true". */
  function EnableVgc(s1: Option<string>, n1: Option<string>, a: VgcAnswers, rest: Outcome): Outcome {
    if s1.None? || n1.None? then Outcome([], Uncaught)
    else
      var show := ShowJvmProperties(VgcQuery(s1.value, n1.value));
      match a.current
      case Raised => Outcome([show], Uncaught)
      case Returned(v) =>
        if v == "true" then Then([show], rest)
        else
          var setCall := SetJvmProperties(VgcSet(s1.value, n1.value));
          if a.update.Raised? then Outcome([show, setCall], Code(1)) else Then([show, setCall], rest)
  }

  /**
   * The set call is made exactly when the current value was read and is not the string
   * "true"; when it is "true" the stage only reads and the run goes on unchanged.
   */
  lemma VgcSetOnlyWhenNotTrue(svr: string, nde: string, a: VgcAnswers, rest: Outcome)
    requires a.current.Returned?
    requires SetJvmProperties(VgcSet(svr, nde)) !in rest.steps
    ensures SetJvmProperties(VgcSet(svr, nde)) in EnableVgc(Some(svr), Some(nde), a, rest).steps <==> a.current.value != "true"
    ensures a.current.value == "true" ==>
      EnableVgc(Some(svr), Some(nde), a, rest) == Then([ShowJvmProperties(VgcQuery(svr, nde))], rest)
    ensures a.current.value != "true" && a.update.Raised? ==> EnableVgc(Some(svr), Some(nde), a, rest).exit == Code(1)
  {
    var o := EnableVgc(Some(svr), Some(nde), a, rest);
    var show := ShowJvmProperties(VgcQuery(svr, nde));
    if a.current.value == "true" {
      assert o.steps == [show] + rest.steps;
      assert SetJvmProperties(VgcSet(svr, nde)) != show;
    } else {
      assert o.steps[1] == SetJvmProperties(VgcSet(svr, nde));
    }
  }

  // ---------------------------------------------------------------------------
  // WebSphere MQ
  // ---------------------------------------------------------------------------

  /** The containment path of the server under its node. */
  function ServerPath(svr: string, nde: string): string {
    "/Node:" + nde + "/Server:" + svr + "/"
  }

  /** For slash-free names the path is the node and the server as two containment steps. */
  lemma ServerPathSplits(svr: string, nde: string)
    requires Free(svr, '/') && Free(nde, '/')
    ensures Split(ServerPath(svr, nde), '/') == ["", "Node:" + nde, "Server:" + svr, ""]
  {
    var ws := ["", "Node:" + nde, "Server:" + svr, ""];
    assert Join(ws[2..], '/') == "Server:" + svr + "/";
    assert Join(ws[1..], '/') == "Node:" + nde + "/Server:" + svr + "/";
    assert Join(ws, '/') == ServerPath(svr, nde);
    assert forall i :: 0 <= i < 4 ==> Free(ws[i], '/');
    SplitOfJoin(ws, '/');
  }

  const DisableWmqParams := "[-disableWMQ true ]"

  /** Where `"WebSphere\sMQ\sResource\sAdapte` matches: the 29 characters from `i`. */
  predicate MqAdapterAt(line: string, i: nat)
    requires i + 29 <= |line|
  {
    line[i..i + 10] == "\"WebSphere" && IsSpace(line[i + 10]) &&
    line[i + 11..i + 13] == "MQ" && IsSpace(line[i + 13]) &&
    line[i + 14..i + 22] == "Resource" && IsSpace(line[i + 22]) &&
    line[i + 23..i + 29] == "Adapte"
  }

  /**
   * `regex1.search(line)` for `"WebSphere\sMQ\sResource\sAdapter*`. The trailing `r*` also
   * matches zero characters, so the search succeeds wherever the text up to `Adapte` occurs.
   */
  function IsMqAdapterLine(line: string): bool {
    exists i: nat :: i + 29 <= |line| && MqAdapterAt(line, i)
  }

  /** The adapter lines are quoted: a line without a double quote never matches. */
  lemma UnquotedLineNeverMatches(line: string)
    requires forall k :: 0 <= k < |line| ==> line[k] != '"'
    ensures !IsMqAdapterLine(line)
  {
    forall i: nat | i + 29 <= |line| ensures !MqAdapterAt(line, i) {
      assert line[i..i + 10][0] == line[i];
    }
  }

  const AdapterName := "\"WebSphere MQ Resource Adapter"

  lemma AdapterNameParts()
    ensures |AdapterName| == 30
    ensures AdapterName[..10] == "\"WebSphere" && AdapterName[10] == ' '
    ensures AdapterName[11..13] == "MQ" && AdapterName[13] == ' '
    ensures AdapterName[14..22] == "Resource" && AdapterName[22] == ' '
    ensures AdapterName[23..29] == "Adapte"
  {
    assert AdapterName == "\"WebSphere" + " MQ" + " Resource" + " Adapter";
    assert AdapterName[..10] == "\"WebSphere";
    assert AdapterName[11..13] == "MQ";
    assert AdapterName[14..22] == "Resource";
    assert AdapterName[23..29] == "Adapte";
  }

  /** A listing line naming the adapter the usual way matches, whatever follows it. */
  lemma QuotedAdapterNameMatches(before: string, after: string)
    ensures IsMqAdapterLine(before + AdapterName + after)
  {
    var line := before + AdapterName + after;
    var i := |before|;
    AdapterNameParts();
    var w := line[i..i + 30];
    assert w == AdapterName;
    assert line[i..i + 10] == w[..10];
    assert line[i + 11..i + 13] == w[11..13];
    assert line[i + 14..i + 22] == w[14..22];
    assert line[i + 23..i + 29] == w[23..29];
    assert line[i + 10] == w[10] && line[i + 13] == w[13] && line[i + 22] == w[22];
    assert MqAdapterAt(line, i);
  }

  /** The runtime's answers for `disable_mq`: the server id, the adapter listing (split into lines), `manageWMQ`. */
  datatype MqAnswers = MqAnswers(serverId: Fallible<string>, adapters: Fallible<seq<string>>, manage: Fallible<string>)

  /** `disable_mq(s1, n1)`: act on the one matching adapter, or exit 1 when there is none or more than one. */
  function DisableMq(s1: Option<string>, n1: Option<string>, a: MqAnswers, rest: Outcome): Outcome {
    if s1.None? || n1.None? then Outcome([], Uncaught)
    else
      var getId := GetId(ServerPath(s1.value, n1.value));
      match a.serverId
      case Raised => Outcome([getId], Uncaught)
      case Returned(sid) =>
        var list := ListJ2CResourceAdapters(sid);
        match a.adapters
        case Raised => Outcome([getId, list], Uncaught)
        case Returned(lines) =>
          var found := Filter(IsMqAdapterLine, lines);
          if |found| == 1 then
            var manage := ManageWmq(found[0], DisableWmqParams);
            if a.manage.Raised? then Outcome([getId, list, manage], Uncaught) else Then([getId, list, manage], rest)
          else Outcome([getId, list], Code(1))
  }

  /**
   * The adapter is changed exactly when one listed line matches, and then it is that line;
   * no match or several matches exit 1. The `manageWMQ` result is only reported.
   */
  lemma MqSingleMatchRule(svr: string, nde: string, a: MqAnswers, rest: Outcome)
    requires a.serverId.Returned? && a.adapters.Returned?
    ensures var o := DisableMq(Some(svr), Some(nde), a, rest);
      var found := Filter(IsMqAdapterLine, a.adapters.value);
      (|o.steps| >= 3 && o.steps[2].ManageWmq?) <==> |found| == 1
    ensures var o := DisableMq(Some(svr), Some(nde), a, rest);
      var found := Filter(IsMqAdapterLine, a.adapters.value);
      |found| == 1 ==>
        (o.steps[2].adapter in a.adapters.value && IsMqAdapterLine(o.steps[2].adapter) &&
         o.steps[2].params == "[-disableWMQ true ]" &&
         (a.manage.Returned? ==> o.exit == rest.exit))
    ensures var o := DisableMq(Some(svr), Some(nde), a, rest);
      |Filter(IsMqAdapterLine, a.adapters.value)| != 1 ==> o.exit == Code(1) && |o.steps| == 2
  {
  }

  // ---------------------------------------------------------------------------
  // main
  // ---------------------------------------------------------------------------

  /** Everything the runtime answers in one run. */
  datatype Answers = Answers(cell: string, logs: LogAnswers, vgc: VgcAnswers, mq: MqAnswers, tail: Tail)

  /** The end of `main`: save, sync, restart, status check, exit 0. */
  function Finish(g: ServerSettings, env: Answers): Outcome {
    SaveConfig(env.tail.save, SyncNodes(env.tail.sync,
      RestartAndCheck(env.cell, g.server, g.node, env.tail, Outcome([], Code(0)))))
  }

  /** `main` after the arguments: logs, VGC and MQ, each when its switch is "yes", then the end. */
  function Main(g: ServerSettings, env: Answers): Outcome {
    var afterVgc := if g.nomq == "yes" then DisableMq(g.server, g.node, env.mq, Finish(g, env)) else Finish(g, env);
    var afterLogs := if g.vgc == "yes" then EnableVgc(g.server, g.node, env.vgc, afterVgc) else afterVgc;
    if g.rlogs == "yes" then RetainLogs(g.server, g.retain, env.logs, afterLogs) else afterLogs
  }

  function Run(argc: nat, parsed: Getopt, env: Answers): Outcome {
    match Parse(argc, parsed)
    case UsageExit => Outcome([], Code(2))
    case Parsed(g) => Main(g, env)
  }

  /** Too few argv entries or a getopt error: usage and exit 2, before any call to the runtime. */
  lemma UsageBeforeWork(argc: nat, parsed: Getopt, env: Answers)
    requires argc < MinArgs || parsed.GetoptError?
    ensures Run(argc, parsed, env) == Outcome([], Code(2))
  {
  }

  /** Steps that change the server's configuration. */
  predicate ChangesConfig(s: Step) {
    s.Modify? || s.SetJvmProperties? || s.ManageWmq?
  }

  /**
   * With none of the optional flags, the run goes straight to save, sync, restart and the
   * status check: nothing in the configuration is changed before the save.
   */
  lemma NoFlagsNoChanges(argc: nat, parsed: Getopt, env: Answers)
    requires Parse(argc, parsed).Parsed?
    requires !Given(parsed.opts, "--retainlogs") && !Given(parsed.opts, "--enableVGC") && !Given(parsed.opts, "--disableMQ")
    ensures Run(argc, parsed, env) == SaveConfig(env.tail.save, SyncNodes(env.tail.sync,
      RestartAndCheck(env.cell, LastValue(parsed.opts, "--server"), LastValue(parsed.opts, "--node"), env.tail, Outcome([], Code(0)))))
    ensures forall i :: 0 <= i < |Run(argc, parsed, env).steps| ==> !ChangesConfig(Run(argc, parsed, env).steps[i])
  {
    var g := Parse(argc, parsed).settings;
    var o := Run(argc, parsed, env);
    assert o == Finish(g, env);
    forall i | 0 <= i < |o.steps| ensures !ChangesConfig(o.steps[i]) {
    }
  }

  // The fixed order of the three settings.

  /**
   * The stage a step belongs to: 1 logs (including the `/Server:` lookup), 2 VGC, 3 MQ,
   * 4 save; 0 for reads that no stage order constrains.
   */
  function Phase(s: Step): nat {
    match s
    case GetId(path) => if "/Server:" <= path then 1 else 0
    case Modify(_, _) => 1
    case ShowAttribute(_, _) => 1
    case ShowJvmProperties(_) => 2
    case SetJvmProperties(_) => 2
    case ListJ2CResourceAdapters(_) => 3
    case ManageWmq(_, _) => 3
    case Save => 4
    case _ => 0
  }

  /** The staged steps appear in stage order. */
  predicate InStageOrder(steps: seq<Step>) {
    forall i, j :: 0 <= i < j < |steps| && Phase(steps[i]) > 0 && Phase(steps[j]) > 0 ==>
      Phase(steps[i]) <= Phase(steps[j])
  }

  /** The MQ stage's lookup of the server under its node belongs to no stage. */
  lemma ServerPathUnstaged(svr: string, nde: string)
    ensures Phase(GetId(ServerPath(svr, nde))) == 0
  {
    assert ServerPath(svr, nde)[1] == 'N';
  }

  /** Every staged step is of stage `p` or later. */
  predicate FromStage(steps: seq<Step>, p: nat) {
    forall i :: 0 <= i < |steps| && Phase(steps[i]) > 0 ==> Phase(steps[i]) >= p
  }

  /** Every staged step is of stage `p` exactly. */
  predicate OnlyStage(steps: seq<Step>, p: nat) {
    forall i :: 0 <= i < |steps| && Phase(steps[i]) > 0 ==> Phase(steps[i]) == p
  }

  /** No step is of stage `p`. */
  predicate Lacks(steps: seq<Step>, p: nat) {
    forall i :: 0 <= i < |steps| ==> Phase(steps[i]) != p
  }

  /** Steps of stage `p` in front of steps in order from stage `p` on are in order, and from stage `p` on. */
  lemma StageThen(pre: seq<Step>, rest: Outcome, p: nat)
    requires OnlyStage(pre, p) && InStageOrder(rest.steps) && FromStage(rest.steps, p)
    ensures InStageOrder(Then(pre, rest).steps) && FromStage(Then(pre, rest).steps, p)
  {
    var s := pre + rest.steps;
    forall i, j | 0 <= i < j < |s| && Phase(s[i]) > 0 && Phase(s[j]) > 0 ensures Phase(s[i]) <= Phase(s[j]) {
      if j < |pre| {
        assert s[i] == pre[i] && s[j] == pre[j];
      } else if i < |pre| {
        assert s[i] == pre[i] && s[j] == rest.steps[j - |pre|];
      } else {
        assert s[i] == rest.steps[i - |pre|] && s[j] == rest.steps[j - |pre|];
      }
    }
    forall i | 0 <= i < |s| && Phase(s[i]) > 0 ensures Phase(s[i]) >= p {
      if i < |pre| {
        assert s[i] == pre[i];
      } else {
        assert s[i] == rest.steps[i - |pre|];
      }
    }
  }

  /** A run that stops inside stage `p` is in order and from stage `p` on. */
  lemma StageStops(pre: seq<Step>, p: nat)
    requires OnlyStage(pre, p)
    ensures InStageOrder(pre) && FromStage(pre, p)
  {
  }

  lemma FinishInOrder(g: ServerSettings, env: Answers)
    ensures InStageOrder(Finish(g, env).steps) && FromStage(Finish(g, env).steps, 4)
  {
    var o := Finish(g, env);
    assert forall i :: 0 <= i < |o.steps| ==> Phase(o.steps[i]) == 0 || o.steps[i] == Save;
    forall i, j | 0 <= i < j < |o.steps| && Phase(o.steps[i]) > 0 && Phase(o.steps[j]) > 0
      ensures Phase(o.steps[i]) <= Phase(o.steps[j])
    {
      assert o.steps[i] == Save && o.steps[j] == Save;
    }
  }

  lemma MqInOrder(s1: Option<string>, n1: Option<string>, a: MqAnswers, rest: Outcome)
    requires InStageOrder(rest.steps) && FromStage(rest.steps, 3)
    ensures InStageOrder(DisableMq(s1, n1, a, rest).steps) && FromStage(DisableMq(s1, n1, a, rest).steps, 3)
  {
    if s1.Some? && n1.Some? {
      var getId := GetId(ServerPath(s1.value, n1.value));
      ServerPathUnstaged(s1.value, n1.value);
      if a.serverId.Raised? {
        StageStops([getId], 3);
      } else if a.adapters.Raised? {
        StageStops([getId, ListJ2CResourceAdapters(a.serverId.value)], 3);
      } else {
        var found := Filter(IsMqAdapterLine, a.adapters.value);
        var pre := [getId, ListJ2CResourceAdapters(a.serverId.value)];
        if |found| == 1 {
          var pre3 := pre + [ManageWmq(found[0], DisableWmqParams)];
          assert OnlyStage(pre3, 3);
          if a.manage.Raised? {
            StageStops(pre3, 3);
          } else {
            StageThen(pre3, rest, 3);
          }
        } else {
          StageStops(pre, 3);
        }
      }
    }
  }

  lemma VgcInOrder(s1: Option<string>, n1: Option<string>, a: VgcAnswers, rest: Outcome)
    requires InStageOrder(rest.steps) && FromStage(rest.steps, 2)
    ensures InStageOrder(EnableVgc(s1, n1, a, rest).steps) && FromStage(EnableVgc(s1, n1, a, rest).steps, 2)
  {
    if s1.Some? && n1.Some? && a.current.Returned? {
      var show := ShowJvmProperties(VgcQuery(s1.value, n1.value));
      var setCall := SetJvmProperties(VgcSet(s1.value, n1.value));
      if a.current.value == "true" {
        StageThen([show], rest, 2);
      } else if a.update.Raised? {
        StageStops([show, setCall], 2);
      } else {
        StageThen([show, setCall], rest, 2);
      }
    }
  }

  lemma LogsInOrder(s1: Option<string>, r1: Option<string>, a: LogAnswers, rest: Outcome)
    requires InStageOrder(rest.steps) && FromStage(rest.steps, 1)
    ensures InStageOrder(RetainLogs(s1, r1, a, rest).steps) && FromStage(RetainLogs(s1, r1, a, rest).steps, 1)
  {
    if s1.Some? && a.serverId.Returned? && a.outLog.Returned? && r1.Some? {
      var sid := a.serverId.value;
      var front := [GetId(LogsPath(s1.value)), ShowAttribute(sid, "outputStreamRedirect")];
      var showErr := ShowAttribute(sid, "errorStreamRedirect");
      var inner := (match a.errLog
        case Raised => Outcome([showErr], Uncaught)
        case Returned(log2) => Then([showErr], LogSettings(log2, r1.value, a.modifyErr, rest)));
      if a.errLog.Returned? {
        var m2 := Modify(a.errLog.value, LogPolicy(r1.value));
        if a.modifyErr.Raised? {
          StageStops([showErr, m2], 1);
        } else {
          StageThen([m2], rest, 1);
          StageThen([showErr], LogSettings(a.errLog.value, r1.value, a.modifyErr, rest), 1);
        }
      } else {
        StageStops([showErr], 1);
      }
      var m1 := Modify(a.outLog.value, LogPolicy(r1.value));
      if a.modifyOut.Raised? {
        StageStops(front + [m1], 1);
      } else {
        StageThen([m1], inner, 1);
        StageThen(front, LogSettings(a.outLog.value, r1.value, a.modifyOut, inner), 1);
      }
    } else if s1.Some? && a.serverId.Returned? {
      StageStops([GetId(LogsPath(s1.value)), ShowAttribute(a.serverId.value, "outputStreamRedirect")], 1);
    }
  }

  /**
   * Whatever the switches and answers, the run keeps the order logs → VGC → MQ → save:
   * no step of a later stage comes before a step of an earlier one.
   */
  lemma SettingsInFixedOrder(g: ServerSettings, env: Answers)
    ensures InStageOrder(Main(g, env).steps)
  {
    FinishInOrder(g, env);
    var fin := Finish(g, env);
    var afterVgc := if g.nomq == "yes" then DisableMq(g.server, g.node, env.mq, fin) else fin;
    if g.nomq == "yes" {
      MqInOrder(g.server, g.node, env.mq, fin);
    }
    var afterLogs := if g.vgc == "yes" then EnableVgc(g.server, g.node, env.vgc, afterVgc) else afterVgc;
    if g.vgc == "yes" {
      VgcInOrder(g.server, g.node, env.vgc, afterVgc);
    }
    if g.rlogs == "yes" {
      LogsInOrder(g.server, g.retain, env.logs, afterLogs);
    }
  }

  /** Steps of stage `p` in front of steps without stage `q` bring in no step of stage `q`. */
  lemma LacksThen(pre: seq<Step>, rest: Outcome, p: nat, q: nat)
    requires OnlyStage(pre, p) && 0 < q && q != p && Lacks(rest.steps, q)
    ensures Lacks(Then(pre, rest).steps, q)
  {
    var s := pre + rest.steps;
    forall i | 0 <= i < |s| ensures Phase(s[i]) != q {
      if i < |pre| {
        assert s[i] == pre[i];
      } else {
        assert s[i] == rest.steps[i - |pre|];
      }
    }
  }

  /** The MQ stage adds no step of another stage. */
  lemma MqAddsOnlyMq(s1: Option<string>, n1: Option<string>, a: MqAnswers, rest: Outcome, q: nat)
    requires 0 < q && q != 3 && Lacks(rest.steps, q)
    ensures Lacks(DisableMq(s1, n1, a, rest).steps, q)
  {
    if s1.Some? && n1.Some? {
      ServerPathUnstaged(s1.value, n1.value);
    }
    if s1.Some? && n1.Some? && a.serverId.Returned? && a.adapters.Returned? {
      var found := Filter(IsMqAdapterLine, a.adapters.value);
      var pre := [GetId(ServerPath(s1.value, n1.value)), ListJ2CResourceAdapters(a.serverId.value)];
      if |found| == 1 {
        var pre3 := pre + [ManageWmq(found[0], DisableWmqParams)];
        assert OnlyStage(pre3, 3);
        if a.manage.Returned? {
          LacksThen(pre3, rest, 3, q);
        }
      }
    }
  }

  /** The VGC stage adds no step of another stage. */
  lemma VgcAddsOnlyVgc(s1: Option<string>, n1: Option<string>, a: VgcAnswers, rest: Outcome, q: nat)
    requires 0 < q && q != 2 && Lacks(rest.steps, q)
    ensures Lacks(EnableVgc(s1, n1, a, rest).steps, q)
  {
    if s1.Some? && n1.Some? && a.current.Returned? {
      var show := ShowJvmProperties(VgcQuery(s1.value, n1.value));
      var setCall := SetJvmProperties(VgcSet(s1.value, n1.value));
      if a.current.value == "true" {
        LacksThen([show], rest, 2, q);
      } else if a.update.Returned? {
        LacksThen([show, setCall], rest, 2, q);
      }
    }
  }

  /** The log stage adds no step of another stage. */
  lemma LogsAddOnlyLogs(s1: Option<string>, r1: Option<string>, a: LogAnswers, rest: Outcome, q: nat)
    requires 0 < q && q != 1 && Lacks(rest.steps, q)
    ensures Lacks(RetainLogs(s1, r1, a, rest).steps, q)
  {
    if s1.Some? && a.serverId.Returned? && a.outLog.Returned? && r1.Some? {
      var sid := a.serverId.value;
      var front := [GetId(LogsPath(s1.value)), ShowAttribute(sid, "outputStreamRedirect")];
      var showErr := ShowAttribute(sid, "errorStreamRedirect");
      var inner := (match a.errLog
        case Raised => Outcome([showErr], Uncaught)
        case Returned(log2) => Then([showErr], LogSettings(log2, r1.value, a.modifyErr, rest)));
      if a.errLog.Returned? && a.modifyErr.Returned? {
        LacksThen([Modify(a.errLog.value, LogPolicy(r1.value))], rest, 1, q);
        LacksThen([showErr], LogSettings(a.errLog.value, r1.value, a.modifyErr, rest), 1, q);
      }
      assert Lacks(inner.steps, q);
      if a.modifyOut.Returned? {
        LacksThen([Modify(a.outLog.value, LogPolicy(r1.value))], inner, 1, q);
        LacksThen(front, LogSettings(a.outLog.value, r1.value, a.modifyOut, inner), 1, q);
      }
    }
  }

  /**
   * A stage runs only when its switch is "yes": with `--retainlogs` off no log step is taken,
   * with `--enableVGC` off no JVM property is read or set, with `--disableMQ` off no resource
   * adapter is listed or changed.
   */
  lemma SettingsOnlyWhenSwitchedOn(g: ServerSettings, env: Answers)
    ensures g.rlogs != "yes" ==> forall i :: 0 <= i < |Main(g, env).steps| ==> Phase(Main(g, env).steps[i]) != 1
    ensures g.vgc != "yes" ==> forall i :: 0 <= i < |Main(g, env).steps| ==> Phase(Main(g, env).steps[i]) != 2
    ensures g.nomq != "yes" ==> forall i :: 0 <= i < |Main(g, env).steps| ==> Phase(Main(g, env).steps[i]) != 3
  {
    FinishInOrder(g, env);
    var fin := Finish(g, env);
    assert Lacks(fin.steps, 1) && Lacks(fin.steps, 2) && Lacks(fin.steps, 3);
    var afterVgc := if g.nomq == "yes" then DisableMq(g.server, g.node, env.mq, fin) else fin;
    if g.nomq == "yes" {
      MqAddsOnlyMq(g.server, g.node, env.mq, fin, 1);
      MqAddsOnlyMq(g.server, g.node, env.mq, fin, 2);
    }
    var afterLogs := if g.vgc == "yes" then EnableVgc(g.server, g.node, env.vgc, afterVgc) else afterVgc;
    if g.vgc == "yes" {
      VgcAddsOnlyVgc(g.server, g.node, env.vgc, afterVgc, 1);
      if g.nomq != "yes" {
        VgcAddsOnlyVgc(g.server, g.node, env.vgc, afterVgc, 3);
      }
    }
    if g.rlogs == "yes" {
      if g.vgc != "yes" {
        LogsAddOnlyLogs(g.server, g.retain, env.logs, afterLogs, 2);
      }
      if g.nomq != "yes" {
        LogsAddOnlyLogs(g.server, g.retain, env.logs, afterLogs, 3);
      }
    }
  }
}
