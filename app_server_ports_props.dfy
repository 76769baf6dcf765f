/**
 * AppServerPortsProps: changes the endpoint ports of one application server. It
 * exports the server's configuration to a properties file in a `/tmp` directory
 * named after the timestamp, created when missing, rewrites the `KEY=digits` assignments there with the lines of the
 * user's file, validates and applies the result, saves, syncs, restarts the server,
 * waits for it to report STARTED and removes the temporary directory.
 */
module AppServerPortsProps {
  import opened Common
  import opened Options
  import opened Admin
  import opened PropsRewrite

  const ScriptBaseName := "AppServerPortsProps"
  const TempRoot := "/tmp"

  /** The globals `serverName`, `nodeName`, `newPropsFile`; `None` when no option assigned one. */
  datatype PortsSettings = PortsSettings(server: Option<string>, node: Option<string>, newProps: Option<string>)

  const MinArgs: nat := 6

  const Flags: set<string> := {"--server", "--node", "--newprops"}

  /** What the argument stage leaves behind. */
  function Parse(argc: nat, parsed: Getopt): ArgsOutcome<PortsSettings> {
    if argc < MinArgs || parsed.GetoptError? || !AllKnown(parsed.opts, Flags) then UsageExit
    else Parsed(PortsSettings(
      LastValue(parsed.opts, "--server"), LastValue(parsed.opts, "--node"), LastValue(parsed.opts, "--newprops")))
  }

  /** The dispatch loop of `getArgs`. */
  method GetArgs(argc: nat, parsed: Getopt) returns (r: ArgsOutcome<PortsSettings>)
    ensures r == Parse(argc, parsed)
  {
    if argc < MinArgs || parsed.GetoptError? {
      return UsageExit;
    }
    var opts := parsed.opts;
    var serverName, nodeName, newPropsFile: Option<string> := None, None, None;
    var i := 0;
    while i < |opts|
      invariant i <= |opts| && AllKnown(opts[..i], Flags)
      invariant serverName == LastValue(opts[..i], "--server")
      invariant nodeName == LastValue(opts[..i], "--node")
      invariant newPropsFile == LastValue(opts[..i], "--newprops")
    {
      var flag, val := opts[i].flag, opts[i].value;
      LastValueStep(opts, i, "--server");
      LastValueStep(opts, i, "--node");
      LastValueStep(opts, i, "--newprops");
      if flag == "--server" {
        serverName := Some(val);
      } else if flag == "--node" {
        nodeName := Some(val);
      } else if flag == "--newprops" {
        newPropsFile := Some(val);
      } else {
        return UsageExit;
      }
      AllKnownStep(opts, i, Flags);
      i := i + 1;
    }
    assert opts[..i] == opts;
    return Parsed(PortsSettings(serverName, nodeName, newPropsFile));
  }

  /** `createUnixTempDir`'s directory for a given (already formatted) timestamp. */
  function TempDir(timestamp: string): string {
    TempRoot + "/" + ScriptBaseName + timestamp
  }

  /** Different timestamps give different directories, and the timestamp is what follows the fixed prefix. */
  lemma TempDirUnique(t1: string, t2: string)
    ensures StripPrefix(TempDir(t1), "/tmp/AppServerPortsProps") == Some(t1)
    ensures TempDir(t1) == TempDir(t2) ==> t1 == t2
  {
    assert TempDir(t1) == "/tmp/AppServerPortsProps" + t1;
    assert TempDir(t2) == "/tmp/AppServerPortsProps" + t2;
    StripPrefixOfJoin("/tmp/AppServerPortsProps", t1);
    StripPrefixOfJoin("/tmp/AppServerPortsProps", t2);
  }

  /** The exported server properties file inside the temporary directory. */
  function PropsFile(tempdir: string): string {
    tempdir + "/server_config.props"
  }

  function ExtractParams(f1: string, s1: string): string {
    "-propertiesFileName " + f1 + " -configData Server=" + s1
  }

  function ValidateParams(f1: string, tempdir: string): string {
    "-propertiesFileName " + f1 + " -reportFileName " + tempdir + "/report.txt"
  }

  function ApplyParams(f1: string): string {
    "-propertiesFileName " + f1 + " -validate true"
  }

  /** The three parameter strings are these words joined by single spaces. */
  lemma ParamsJoin(f1: string, s1: string, tempdir: string)
    ensures Join(["-propertiesFileName", f1, "-configData", "Server=" + s1], ' ') == ExtractParams(f1, s1)
    ensures Join(["-propertiesFileName", f1, "-reportFileName", tempdir + "/report.txt"], ' ') == ValidateParams(f1, tempdir)
    ensures Join(["-propertiesFileName", f1, "-validate", "true"], ' ') == ApplyParams(f1)
  {
    var w1 := ["-propertiesFileName", f1];
    var p1 := "-propertiesFileName " + f1;
    JoinSnoc(["-propertiesFileName"], f1, ' ');
    assert "-propertiesFileName" + [' '] == "-propertiesFileName ";
    SpacedPairInto(w1, p1, "-configData", "Server=", s1, " -configData Server=");
    SpacedPairThen(w1, p1, "-reportFileName", tempdir, " -reportFileName ", "/report.txt");
    SpacedPair(w1, p1, "-validate", "true", " -validate ");
    assert p1 + " -validate " + "true" == p1 + " -validate true";
  }

  /** For space-free names each parameter string splits back into its words, the file name a word of its own. */
  lemma ParamsSplit(f1: string, s1: string, tempdir: string)
    requires Free(f1, ' ') && Free(s1, ' ') && Free(tempdir, ' ')
    ensures Split(ExtractParams(f1, s1), ' ') == ["-propertiesFileName", f1, "-configData", "Server=" + s1]
    ensures Split(ValidateParams(f1, tempdir), ' ') == ["-propertiesFileName", f1, "-reportFileName", tempdir + "/report.txt"]
    ensures Split(ApplyParams(f1), ' ') == ["-propertiesFileName", f1, "-validate", "true"]
  {
    ParamsJoin(f1, s1, tempdir);
    var e := ["-propertiesFileName", f1, "-configData", "Server=" + s1];
    var v := ["-propertiesFileName", f1, "-reportFileName", tempdir + "/report.txt"];
    var a := ["-propertiesFileName", f1, "-validate", "true"];
    forall i | 0 <= i < 4 ensures Free(e[i], ' ') && Free(v[i], ' ') && Free(a[i], ' ') {
      if i == 3 {
        assert e[i] == "Server=" + s1;
        assert v[i] == tempdir + "/report.txt";
      }
    }
    SplitOfJoin(e, ' ');
    SplitOfJoin(v, ' ');
    SplitOfJoin(a, ' ');
  }

  /**
   * What the world answers: the cell name, the timestamp, whether the new-props path
   * is a file and its text, whether the temporary directory already exists, the
   * extract call and the text it wrote, the validate and apply calls, and the answers
   * at the end of the run.
   */
  datatype Answers = Answers(
    cell: string, timestamp: string,
    newPropsIsFile: bool, newPropsText: string,
    tempDirExists: bool,
    extract: Fallible<string>, exportedProps: string,
    validate: Fallible<string>, apply: Fallible<string>,
    tail: Tail)

  /** `validateConfig`: an empty result exits 1; any non-empty one, even "false", passes. */
  function ValidateConfig(f1: string, tempdir: string, validate: Fallible<string>, rest: Outcome): Outcome {
    var call := ValidateConfigProperties(ValidateParams(f1, tempdir));
    match validate
    case Raised => Outcome([call], Uncaught)
    case Returned(r) => if r == "" then Outcome([call], Code(1)) else Then([call], rest)
  }

  /** `applyConfig`: a non-empty result exits 1; only an empty one passes. */
  function ApplyConfig(f1: string, apply: Fallible<string>, rest: Outcome): Outcome {
    var call := ApplyConfigProperties(ApplyParams(f1));
    match apply
    case Raised => Outcome([call], Uncaught)
    case Returned(r) => if r != "" then Outcome([call], Code(1)) else Then([call], rest)
  }

  /** `main`, in order: arguments, then the rest of the work. */
  function Run(argc: nat, parsed: Getopt, env: Answers): Outcome {
    match Parse(argc, parsed)
    case UsageExit => Outcome([], Code(2))
    case Parsed(g) => Main(g, env)
  }

  /** `main` after the arguments: path check, temp dir, extract, edit, validate, apply, save, sync, restart, check, cleanup. */
  function Main(g: PortsSettings, env: Answers): Outcome {
    if g.newProps.None? then Outcome([], Uncaught)
    else if !env.newPropsIsFile then Outcome([], Code(1))
    else
      var tempdir := TempDir(env.timestamp);
      var made := if env.tempDirExists then [] else [MakeDirs(tempdir)];
      var f1 := PropsFile(tempdir);
      if g.server.None? then Outcome(made, Uncaught)
      else
        var extract := ExtractConfigProperties(ExtractParams(f1, g.server.value));
        if env.extract.Raised? then Outcome(made + [extract], Code(1))
        else
          var write := WriteFile(f1, Edited(env.newPropsText, env.exportedProps));
          Then(made + [extract, write],
            ValidateConfig(f1, tempdir, env.validate,
              ApplyConfig(f1, env.apply, Finish(env.cell, g.server.value, g.node, env.tail, tempdir))))
  }

  /** The end of `main` once the new configuration is applied: save, sync, restart, check, cleanup, exit 0. */
  function Finish(cell: string, server: string, node: Option<string>, t: Tail, tempdir: string): Outcome {
    SaveConfig(t.save, SyncNodes(t.sync,
      RestartAndCheck(cell, Some(server), node, t, Outcome([RemoveTree(tempdir)], Code(0)))))
  }

  /** The runtime lets the restart through: the MBean lookup and the chosen start or restart call return. */
  predicate RestartReturns(t: Tail) {
    t.serverMBean.Returned? && (if t.serverMBean.value == "" then t.start.Returned? else t.restart.Returned?)
  }

  /**
   * The end of the run reaches exit 0 exactly when save returned nothing, the sync and
   * the restart did not raise and the node is known; it then saves, syncs, restarts,
   * polls and removes the temp dir, in that order.
   */
  lemma FinishSucceedsIff(cell: string, server: string, node: Option<string>, t: Tail, tempdir: string)
    ensures Succeeded(Finish(cell, server, node, t, tempdir)) <==>
      t.save == Returned("") && t.sync.Returned? && node.Some? && RestartReturns(t)
    ensures Succeeded(Finish(cell, server, node, t, tempdir)) ==>
      var mb := t.serverMBean.value;
      var polls := StatusPoll.Polls(t.observe, StatusPoll.DefaultRetries);
      Finish(cell, server, node, t, tempdir).steps == [
        Save, SyncActiveNodes,
        CompleteObjectName(ServerQuery(cell, node.value, server)),
        if mb == "" then StartServer(server, node.value) else RestartServer(mb),
        PollState(ServerQuery(cell, node.value, server), polls, StatusPoll.LastRead(t.observe, polls)),
        RemoveTree(tempdir)]
    ensures Finish(cell, server, node, t, tempdir).exit == Code(0) || RemoveTree(tempdir) !in Finish(cell, server, node, t, tempdir).steps
  {
  }

  lemma FlattenSteps(made: seq<Step>, front: seq<Step>, rest: seq<Step>)
    requires |front| == 4 && |rest| == 6
    ensures made + front + rest == made + [front[0], front[1], front[2], front[3],
      rest[0], rest[1], rest[2], rest[3], rest[4], rest[5]]
  {
  }

  /** Too few argv entries or a getopt error: usage and exit 2, before any other work. */
  lemma UsageBeforeWork(argc: nat, parsed: Getopt, env: Answers)
    requires argc < MinArgs || parsed.GetoptError?
    ensures Run(argc, parsed, env) == Outcome([], Code(2))
  {
  }

  /** The steps before the end of the run, when nothing before it failed. */
  function Prepared(env: Answers, server: string): seq<Step> {
    var tempdir := TempDir(env.timestamp);
    var f1 := PropsFile(tempdir);
    (if env.tempDirExists then [] else [MakeDirs(tempdir)]) + [
      ExtractConfigProperties(ExtractParams(f1, server)),
      WriteFile(f1, Edited(env.newPropsText, env.exportedProps)),
      ValidateConfigProperties(ValidateParams(f1, tempdir)),
      ApplyConfigProperties(ApplyParams(f1))]
  }

  /** Validate and apply both pass: the two calls, then the rest. */
  lemma ValidateApplyPass(f1: string, tempdir: string, validate: Fallible<string>, apply: Fallible<string>, rest: Outcome)
    requires validate.Returned? && validate.value != "" && apply == Returned("")
    ensures ValidateConfig(f1, tempdir, validate, ApplyConfig(f1, apply, rest)) ==
      Then([ValidateConfigProperties(ValidateParams(f1, tempdir)), ApplyConfigProperties(ApplyParams(f1))], rest)
  {
    ThenThen([ValidateConfigProperties(ValidateParams(f1, tempdir))], [ApplyConfigProperties(ApplyParams(f1))], rest);
  }

  /** When every step up to apply passes, the run is those steps followed by its end. */
  lemma ReachesFinish(g: PortsSettings, env: Answers)
    requires g.server.Some? && g.newProps.Some?
    requires env.newPropsIsFile && env.extract.Returned?
    requires env.validate.Returned? && env.validate.value != "" && env.apply == Returned("")
    ensures Main(g, env) == Then(Prepared(env, g.server.value),
        Finish(env.cell, g.server.value, g.node, env.tail, TempDir(env.timestamp)))
  {
    var tempdir := TempDir(env.timestamp);
    var f1 := PropsFile(tempdir);
    var made := if env.tempDirExists then [] else [MakeDirs(tempdir)];
    var fin := Finish(env.cell, g.server.value, g.node, env.tail, tempdir);
    var front := [ExtractConfigProperties(ExtractParams(f1, g.server.value)),
                  WriteFile(f1, Edited(env.newPropsText, env.exportedProps))];
    var back := [ValidateConfigProperties(ValidateParams(f1, tempdir)), ApplyConfigProperties(ApplyParams(f1))];
    ValidateApplyPass(f1, tempdir, env.validate, env.apply, fin);
    ThenThen(made + front, back, fin);
    assert made + front + back == Prepared(env, g.server.value);
  }

  /**
   * The run ends in exit 0 exactly when the options parsed with all three given, the
   * new-props file exists, extract did not raise, validate returned something, apply
   * and save returned nothing, and the sync and restart calls did not raise.
   */
  lemma SucceedsIff(argc: nat, parsed: Getopt, env: Answers)
    ensures Succeeded(Run(argc, parsed, env)) <==>
      Parse(argc, parsed).Parsed? &&
      Given(parsed.opts, "--server") && Given(parsed.opts, "--node") && Given(parsed.opts, "--newprops") &&
      env.newPropsIsFile && env.extract.Returned? &&
      env.validate.Returned? && env.validate.value != "" && env.apply == Returned("") &&
      env.tail.save == Returned("") && env.tail.sync.Returned? && RestartReturns(env.tail)
  {
    if Parse(argc, parsed).Parsed? && Given(parsed.opts, "--server") && Given(parsed.opts, "--newprops") &&
       env.newPropsIsFile && env.extract.Returned? && env.validate.Returned? && env.validate.value != "" &&
       env.apply == Returned("") {
      LastValueAbsent(parsed.opts, "--server");
      LastValueAbsent(parsed.opts, "--newprops");
      LastValueAbsent(parsed.opts, "--node");
      ReachesFinish(Parse(argc, parsed).settings, env);
      FinishSucceedsIff(env.cell, LastValue(parsed.opts, "--server").value, LastValue(parsed.opts, "--node"),
                        env.tail, TempDir(env.timestamp));
    } else if parsed.Opts? {
      LastValueAbsent(parsed.opts, "--server");
      LastValueAbsent(parsed.opts, "--newprops");
    }
  }

  /**
   * A successful run makes exactly these calls, in this order: the temp dir (when new),
   * extract, the edited file, validate, apply, save, sync, the start or restart, the
   * status poll and the removal of the temp dir.
   */
  lemma SuccessSteps(argc: nat, parsed: Getopt, env: Answers)
    requires Succeeded(Run(argc, parsed, env))
    ensures LastValue(parsed.opts, "--server").Some? && LastValue(parsed.opts, "--node").Some?
    ensures var s := LastValue(parsed.opts, "--server").value;
      var n := LastValue(parsed.opts, "--node").value;
      var tempdir := TempDir(env.timestamp);
      var f1 := PropsFile(tempdir);
      var mb := env.tail.serverMBean.value;
      var polls := StatusPoll.Polls(env.tail.observe, StatusPoll.DefaultRetries);
      Run(argc, parsed, env).steps ==
        (if env.tempDirExists then [] else [MakeDirs(tempdir)]) + [
          ExtractConfigProperties(ExtractParams(f1, s)),
          WriteFile(f1, Edited(env.newPropsText, env.exportedProps)),
          ValidateConfigProperties(ValidateParams(f1, tempdir)),
          ApplyConfigProperties(ApplyParams(f1)),
          Save, SyncActiveNodes,
          CompleteObjectName(ServerQuery(env.cell, n, s)),
          if mb == "" then StartServer(s, n) else RestartServer(mb),
          PollState(ServerQuery(env.cell, n, s), polls, StatusPoll.LastRead(env.tail.observe, polls)),
          RemoveTree(tempdir)]
  {
    SucceedsIff(argc, parsed, env);
    LastValueAbsent(parsed.opts, "--server");
    LastValueAbsent(parsed.opts, "--newprops");
    LastValueAbsent(parsed.opts, "--node");
    ReachesFinish(Parse(argc, parsed).settings, env);
    var s := LastValue(parsed.opts, "--server").value;
    var n := LastValue(parsed.opts, "--node");
    var tempdir := TempDir(env.timestamp);
    var fin := Finish(env.cell, s, n, env.tail, tempdir);
    FinishSucceedsIff(env.cell, s, n, env.tail, tempdir);
    var pre := Prepared(env, s);
    var made := if env.tempDirExists then [] else [MakeDirs(tempdir)];
    assert pre == made + [pre[|made|], pre[|made| + 1], pre[|made| + 2], pre[|made| + 3]];
    FlattenSteps(made, pre[|made|..], fin.steps);
    assert pre == made + pre[|made|..];
  }

  /** No step before the end of the run removes anything. */
  predicate RemovesNothing(steps: seq<Step>) {
    forall i :: 0 <= i < |steps| ==> !steps[i].RemoveTree?
  }

  lemma RemovesNothingAppend(a: seq<Step>, b: seq<Step>)
    ensures RemovesNothing(a + b) <==> RemovesNothing(a) && RemovesNothing(b)
  {
    if RemovesNothing(a) && RemovesNothing(b) {
      forall i | 0 <= i < |a + b| ensures !(a + b)[i].RemoveTree? {
        if i >= |a| {
          assert (a + b)[i] == b[i - |a|];
        }
      }
    }
    if RemovesNothing(a + b) {
      forall i | 0 <= i < |a| ensures !a[i].RemoveTree? {
        assert (a + b)[i] == a[i];
      }
      forall i | 0 <= i < |b| ensures !b[i].RemoveTree? {
        assert (a + b)[|a| + i] == b[i];
      }
    }
  }

  /** The end of the run removes the temp dir exactly when it reaches exit 0. */
  lemma FinishCleanup(cell: string, server: string, node: Option<string>, t: Tail, tempdir: string)
    ensures RemovesNothing(Finish(cell, server, node, t, tempdir).steps) <==> !Succeeded(Finish(cell, server, node, t, tempdir))
  {
    FinishSucceedsIff(cell, server, node, t, tempdir);
    var o := Finish(cell, server, node, t, tempdir);
    if Succeeded(o) {
      assert o.steps[5].RemoveTree?;
    } else if t.save != Returned("") {
      assert o.steps == [Save];
    } else if t.sync.Raised? || node.None? {
      assert o.steps == [Save, SyncActiveNodes];
    } else {
      var look := CompleteObjectName(ServerQuery(cell, node.value, server));
      assert !RestartReturns(t);
      if t.serverMBean.Raised? {
        assert o.steps == [Save, SyncActiveNodes, look];
      } else {
        assert o.steps == [Save, SyncActiveNodes, look, o.steps[3]];
      }
    }
  }

  /** The temporary directory is removed only on the way to exit 0, and then as the last step. */
  lemma CleanupOnlyOnSuccess(g: PortsSettings, env: Answers)
    ensures RemovesNothing(Main(g, env).steps) <==> !Succeeded(Main(g, env))
    ensures Succeeded(Main(g, env)) ==>
      Main(g, env).steps[|Main(g, env).steps| - 1] == RemoveTree(TempDir(env.timestamp))
  {
    var o := Main(g, env);
    if g.newProps.Some? && env.newPropsIsFile && g.server.Some? && env.extract.Returned? {
      var tempdir := TempDir(env.timestamp);
      var f1 := PropsFile(tempdir);
      var made := if env.tempDirExists then [] else [MakeDirs(tempdir)];
      var front := [ExtractConfigProperties(ExtractParams(f1, g.server.value)),
                    WriteFile(f1, Edited(env.newPropsText, env.exportedProps))];
      var fin := Finish(env.cell, g.server.value, g.node, env.tail, tempdir);
      var rest := ValidateConfig(f1, tempdir, env.validate, ApplyConfig(f1, env.apply, fin));
      assert o == Then(made + front, rest);
      assert RemovesNothing(made + front);
      RemovesNothingAppend(made + front, rest.steps);
      if env.validate.Returned? && env.validate.value != "" && env.apply == Returned("") {
        ReachesFinish(g, env);
        FinishCleanup(env.cell, g.server.value, g.node, env.tail, tempdir);
        FinishSucceedsIff(env.cell, g.server.value, g.node, env.tail, tempdir);
        RemovesNothingAppend(Prepared(env, g.server.value), fin.steps);
      } else {
        assert RemovesNothing(rest.steps) && !Succeeded(rest);
      }
    }
  }

  /**
   * Validate and apply use opposite conventions: validate fails on an empty result and
   * apply fails on a non-empty one; either failure exits 1 with that call as the last step.
   */
  lemma ValidateApplyRules(g: PortsSettings, env: Answers)
    requires g.server.Some? && g.newProps.Some?
    requires env.newPropsIsFile && env.extract.Returned?
    ensures var o := Main(g, env);
      var tempdir := TempDir(env.timestamp);
      env.validate == Returned("") ==>
        o.exit == Code(1) && o.steps[|o.steps| - 1] == ValidateConfigProperties(ValidateParams(PropsFile(tempdir), tempdir))
    ensures var o := Main(g, env);
      env.validate.Returned? && env.validate.value != "" && env.apply.Returned? && env.apply.value != "" ==>
        o.exit == Code(1) && o.steps[|o.steps| - 1] == ApplyConfigProperties(ApplyParams(PropsFile(TempDir(env.timestamp))))
  {
  }

  /**
   * `nodeName` is first read by `restartAppSvr`: without `--node` the run applies,
   * saves and syncs the new configuration, then ends with an uncaught exception.
   */
  lemma MissingNodeFailsLate(g: PortsSettings, env: Answers)
    requires g.server.Some? && g.newProps.Some? && g.node.None?
    requires env.newPropsIsFile && env.extract.Returned?
    requires env.validate.Returned? && env.validate.value != "" && env.apply == Returned("")
    requires env.tail.save == Returned("") && env.tail.sync.Returned?
    ensures Main(g, env) == Outcome(Prepared(env, g.server.value) + [Save, SyncActiveNodes], Uncaught)
  {
    ReachesFinish(g, env);
  }
}
