/**
 * What the scripts do to the outside world, as a trace of steps, and the
 * steps every script shares: saving, syncing the nodes, restarting a server
 * and polling its state.
 *
 * The administrative runtime (`AdminTask`, `AdminConfig`, `AdminControl`) is
 * not modelled; each of its answers is an input, either a returned string or
 * an exception (`Fallible`). `os._exit(n)` ends the run with `Code(n)`; an
 * exception that no `try` catches (a call that raised outside a `try`, or a
 * `NameError` for a global that no option assigned) ends it with `Uncaught`.
 */
module Admin {
  import opened Common
  import opened StatusPoll

  datatype Exit = Code(status: nat) | Uncaught

  /** An attribute value in an `AdminConfig.modify` list: a string or an integer. */
  datatype AttrValue = Str(s: string) | Int(n: int)

  datatype Attr = Attr(name: string, value: AttrValue)

  /** One call into the runtime or the file system, with the arguments the script passed. */
  datatype Step =
    | MakeDirs(path: string)
    | ExtractConfigProperties(params: string)
    | WriteFile(path: string, text: string)
    | ValidateConfigProperties(params: string)
    | ApplyConfigProperties(params: string)
    | GetId(path: string)
    | ShowAttribute(id: string, attr: string)
    | Modify(target: string, attrs: seq<Attr>)
    | ShowJvmProperties(params: string)
    | SetJvmProperties(params: string)
    | ListJ2CResourceAdapters(scope: string)
    | ManageWmq(adapter: string, params: string)
    | CreateGroup(args: seq<string>)
    | CreateUser(args: seq<string>)
    | AddMemberToGroup(args: seq<string>)
    | MapGroupsToAdminRole(params: string)
    | CreateCluster(params: string)
    | CreateClusterMember(params: string)
    | Save
    | SyncActiveNodes
    | CompleteObjectName(query: string)
    | StartServer(server: string, node: string)
    | RestartServer(mbean: string)
    | PollState(query: string, polls: nat, reported: string)
    | RemoveTree(path: string)

  /** The steps of one run and how it ended. */
  datatype Outcome = Outcome(steps: seq<Step>, exit: Exit)

  /** `pre` done, then the rest of the run. */
  function Then(pre: seq<Step>, rest: Outcome): Outcome {
    Outcome(pre + rest.steps, rest.exit)
  }

  /** Two stages in a row are one stage made of both. */
  lemma ThenThen(a: seq<Step>, b: seq<Step>, rest: Outcome)
    ensures Then(a, Then(b, rest)) == Then(a + b, rest)
  {
    assert a + (b + rest.steps) == a + b + rest.steps;
  }

  /**
   * The runtime's answers to the calls at the end of a run: `AdminConfig.save()`,
   * the deployment manager's `syncActiveNodes`, `completeObjectName` for the server,
   * `startServer`, the MBean's `restart`, and the state read by poll `n`.
   */
  datatype Tail = Tail(
    save: Fallible<string>,
    sync: Fallible<string>,
    serverMBean: Fallible<string>,
    start: Fallible<string>,
    restart: Fallible<string>,
    observe: nat -> Fallible<string>)

  /** The object name pattern for a server: `cell=C,node=N,name=S,type=Server,*`. */
  function ServerQuery(cell: string, node: string, server: string): string {
    "cell=" + cell + ",node=" + node + ",name=" + server + ",type=Server,*"
  }

  /** For names without commas, the pattern splits into exactly its five key properties. */
  lemma ServerQueryFields(cell: string, node: string, server: string)
    requires Free(cell, ',') && Free(node, ',') && Free(server, ',')
    ensures Split(ServerQuery(cell, node, server), ',') ==
      ["cell=" + cell, "node=" + node, "name=" + server, "type=Server", "*"]
  {
    var ws := ["cell=" + cell, "node=" + node, "name=" + server, "type=Server", "*"];
    assert Join(ws[4..], ',') == "*";
    assert Join(ws[3..], ',') == "type=Server,*";
    assert Join(ws[2..], ',') == "name=" + server + ",type=Server,*";
    assert Join(ws[1..], ',') == "node=" + node + ",name=" + server + ",type=Server,*";
    assert Join(ws, ',') == ServerQuery(cell, node, server);
    SplitOfJoin(ws, ',');
  }

  /** `saveConfig`: an empty result is success; any other result exits 1. */
  function SaveConfig(save: Fallible<string>, rest: Outcome): Outcome {
    match save
    case Raised => Outcome([Save], Uncaught)
    case Returned(r) => if r == "" then Then([Save], rest) else Outcome([Save], Code(1))
  }

  /** `syncActiveNodes`: the result is only reported. */
  function SyncNodes(sync: Fallible<string>, rest: Outcome): Outcome {
    match sync
    case Raised => Outcome([SyncActiveNodes], Uncaught)
    case Returned(_) => Then([SyncActiveNodes], rest)
  }

  /** `restartAppSvr`: start the server when it has no MBean, restart it otherwise; the restart result is only reported. */
  function RestartAppSvr(cell: string, server: string, node: string, t: Tail, rest: Outcome): Outcome {
    var look := CompleteObjectName(ServerQuery(cell, node, server));
    match t.serverMBean
    case Raised => Outcome([look], Uncaught)
    case Returned(mb) =>
      var call := if mb == "" then StartServer(server, node) else RestartServer(mb);
      var answer := if mb == "" then t.start else t.restart;
      if answer.Raised? then Outcome([look, call], Uncaught) else Then([look, call], rest)
  }

  /** `checkAppSvr` with its default of 10 retries: the polls made and the state it reports. */
  function StatusCheck(cell: string, server: string, node: string, observe: nat -> Fallible<string>, rest: Outcome): Outcome {
    var polls := Polls(observe, DefaultRetries);
    Then([PollState(ServerQuery(cell, node, server), polls, LastRead(observe, polls))], rest)
  }

  /**
   * `restartAppSvr(s, n)` then `checkAppSvr(s, n)`; the arguments are globals that are
   * evaluated at the call, so an unassigned one raises before anything is done.
   */
  function RestartAndCheck(cell: string, server: Option<string>, node: Option<string>, t: Tail, last: Outcome): Outcome {
    if server.None? || node.None? then Outcome([], Uncaught)
    else RestartAppSvr(cell, server.value, node.value, t, StatusCheck(cell, server.value, node.value, t.observe, last))
  }

  /** Did the run stop at `os._exit(0)`? */
  predicate Succeeded(o: Outcome) { o.exit == Code(0) }

  /**
   * The start-or-restart choice: the server's MBean is looked up first, then `startServer`
   * is called exactly when the lookup came back empty, and the MBean's `restart` otherwise.
   * Neither call's result can make the run fail; only an exception can.
   */
  lemma RestartChoice(cell: string, server: string, node: string, t: Tail, rest: Outcome)
    requires t.serverMBean.Returned?
    ensures var o := RestartAppSvr(cell, server, node, t, rest);
      var mb := t.serverMBean.value;
      |o.steps| >= 2 &&
      o.steps[0] == CompleteObjectName(ServerQuery(cell, node, server)) &&
      (o.steps[1] == StartServer(server, node) <==> mb == "") &&
      (o.steps[1] == RestartServer(mb) <==> mb != "") &&
      var answer := if mb == "" then t.start else t.restart;
      (answer.Returned? ==> o.exit == rest.exit && o.steps[2..] == rest.steps) &&
      (answer.Raised? ==> o.exit == Uncaught && |o.steps| == 2)
  {
  }

  /**
   * The status check polls at most 10 times, and the state it reports is "STARTED"
   * exactly when one of those reads returned "STARTED".
   */
  lemma StatusCheckReport(cell: string, server: string, node: string, observe: nat -> Fallible<string>, rest: Outcome)
    ensures var o := StatusCheck(cell, server, node, observe, rest);
      o.steps[0].PollState? && o.steps[0].polls <= DefaultRetries &&
      (o.steps[0].reported == Started <==> exists j :: 0 <= j < DefaultRetries && observe(j) == Returned(Started)) &&
      o.exit == rest.exit
  {
    PollsStopAtFirstStarted(observe, DefaultRetries, 0);
    ReportsStartedIff(observe, DefaultRetries);
  }
}
