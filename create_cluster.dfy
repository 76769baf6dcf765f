/**
 * createCluster: turns an existing application server into the first member
 * of a new APPLICATION_SERVER cluster, then saves and syncs.
 */
module CreateCluster {
  import opened Common
  import opened Options
  import opened Admin
  import opened ClusterArgs

  const PreferLocal := "true"
  const ClusterType := "APPLICATION_SERVER"

  /**
   * The `cluster_create` request. Its node and server come from the globals `n1` and
   * `s1`, not from the function's `srvr`/`nde` parameters, so they are its inputs here;
   * only the cluster name is the parameter `clstr`.
   */
  function ClusterConfig(clstr: string, n1: string, s1: string): string {
    "[-clusterConfig [-clusterName " + clstr + " -preferLocal " + PreferLocal + " -clusterType " + ClusterType + "]"
    + " -convertServer " + "[-serverNode " + n1 + " -serverName " + s1 + "]]"
  }

  /** The words of the request, in order. */
  function ClusterConfigWords(clstr: string, n1: string, s1: string): seq<string> {
    ["[-clusterConfig", "[-clusterName", clstr, "-preferLocal", "true", "-clusterType",
     "APPLICATION_SERVER]", "-convertServer", "[-serverNode", n1, "-serverName", s1 + "]]"]
  }

  /** The request is these words joined by single spaces. */
  lemma ClusterConfigJoin(clstr: string, n1: string, s1: string)
    ensures Join(ClusterConfigWords(clstr, n1, s1), ' ') == ClusterConfig(clstr, n1, s1)
  {
    var w1 := ["[-clusterConfig", "[-clusterName", clstr];
    var p1 := "[-clusterConfig [-clusterName " + clstr;
    SpacedStart("[-clusterConfig", "[-clusterName", clstr, "[-clusterConfig [-clusterName ");
    var w2 := w1 + ["-preferLocal", PreferLocal];
    var p2 := p1 + " -preferLocal " + PreferLocal;
    SpacedPair(w1, p1, "-preferLocal", PreferLocal, " -preferLocal ");
    var w3 := w2 + ["-clusterType", ClusterType + "]"];
    var p3 := p2 + " -clusterType " + ClusterType + "]";
    SpacedPairThen(w2, p2, "-clusterType", ClusterType, " -clusterType ", "]");
    var w4 := w3 + ["-convertServer", "[-serverNode", n1];
    var p4 := p3 + " -convertServer " + "[-serverNode " + n1;
    SpacedTriple(w3, p3, "-convertServer", "[-serverNode", n1, " -convertServer ", "[-serverNode ");
    SpacedPairThen(w4, p4, "-serverName", s1, " -serverName ", "]]");
    assert ClusterType + "]" == "APPLICATION_SERVER]";
    assert w4 + ["-serverName", s1 + "]]"] == ClusterConfigWords(clstr, n1, s1);
  }

  /** For space-free names the request splits back into exactly its words, each name a word of its own. */
  lemma ClusterConfigSplits(clstr: string, n1: string, s1: string)
    requires Free(clstr, ' ') && Free(n1, ' ') && Free(s1, ' ')
    ensures Split(ClusterConfig(clstr, n1, s1), ' ') == ClusterConfigWords(clstr, n1, s1)
  {
    var ws := ClusterConfigWords(clstr, n1, s1);
    ClusterConfigJoin(clstr, n1, s1);
    forall i | 0 <= i < |ws| ensures Free(ws[i], ' ') {
      if i == 11 {
        assert ws[i] == s1 + "]]";
      }
    }
    SplitOfJoin(ws, ' ');
  }

  /** The runtime's answers: `AdminTask.createCluster`, `AdminConfig.save`, the node sync. */
  datatype Answers = Answers(create: Fallible<string>, save: Fallible<string>, sync: Fallible<string>)

  /** `main`: arguments, create, save, sync, exit 0. */
  function Run(argc: nat, parsed: Getopt, env: Answers): Outcome {
    match Parse(argc, parsed)
    case UsageExit => Outcome([], Code(2))
    case Parsed(g) =>
      if g.cluster.None? || g.server.None? || g.node.None? then Outcome([], Uncaught)
      else
        var create := CreateCluster(ClusterConfig(g.cluster.value, g.node.value, g.server.value));
        if env.create.Raised? then Outcome([create], Code(1))
        else Then([create], SaveConfig(env.save, SyncNodes(env.sync, Outcome([], Code(0)))))
  }

  /** Too few argv entries or a getopt error: usage and exit 2, before any call to the runtime. */
  lemma UsageBeforeWork(argc: nat, parsed: Getopt, env: Answers)
    requires argc < MinArgs || parsed.GetoptError?
    ensures Run(argc, parsed, env) == Outcome([], Code(2))
  {
  }

  /**
   * `cluster_create(c1, s1, n1)` reads all three globals at the call, so a missing
   * option ends the run with an uncaught `NameError` before the runtime is called.
   */
  lemma MissingOptionRaises(argc: nat, parsed: Getopt, env: Answers)
    requires Parse(argc, parsed).Parsed?
    requires !Given(parsed.opts, "--cluster") || !Given(parsed.opts, "--server") || !Given(parsed.opts, "--node")
    ensures Run(argc, parsed, env) == Outcome([], Uncaught)
  {
    LastValueAbsent(parsed.opts, "--cluster");
    LastValueAbsent(parsed.opts, "--server");
    LastValueAbsent(parsed.opts, "--node");
  }

  /**
   * The run ends in exit 0 exactly when every option was given, the create call did not
   * raise, save returned nothing and the sync did not raise; the calls are then create,
   * save and sync, in that order, with the values of the last `--cluster`, `--node` and
   * `--server` options in the request.
   */
  lemma SucceedsIff(argc: nat, parsed: Getopt, env: Answers)
    ensures Succeeded(Run(argc, parsed, env)) <==>
      Parse(argc, parsed).Parsed? &&
      Given(parsed.opts, "--cluster") && Given(parsed.opts, "--server") && Given(parsed.opts, "--node") &&
      env.create.Returned? && env.save == Returned("") && env.sync.Returned?
    ensures Succeeded(Run(argc, parsed, env)) ==>
      var opts := parsed.opts;
      Run(argc, parsed, env).steps == [
        CreateCluster(ClusterConfig(LastValue(opts, "--cluster").value, LastValue(opts, "--node").value,
                                    LastValue(opts, "--server").value)),
        Save, SyncActiveNodes]
  {
    if parsed.Opts? {
      LastValueAbsent(parsed.opts, "--cluster");
      LastValueAbsent(parsed.opts, "--server");
      LastValueAbsent(parsed.opts, "--node");
    }
  }

  /** Exit 1 comes from an exception in the create call or a non-empty save result, never from the sync. */
  lemma FailsWithOneIff(argc: nat, parsed: Getopt, env: Answers)
    ensures Run(argc, parsed, env).exit == Code(1) <==>
      Parse(argc, parsed).Parsed? &&
      var g := Parse(argc, parsed).settings;
      g.cluster.Some? && g.server.Some? && g.node.Some? &&
      (env.create.Raised? || (env.save.Returned? && env.save.value != ""))
  {
  }
}
