/**
 * createClusterMember: adds a new application server, created from the cluster's
 * member template, to an existing cluster, then saves and syncs.
 */
module CreateClusterMember {
  import opened Common
  import opened Options
  import opened Admin
  import opened ClusterArgs

  /**
   * The `cluster_newmember` request. As in createCluster, the node and server come
   * from the globals `n1` and `s1` rather than from the `srvr`/`nde` parameters.
   * Two literals meet at `-memberConfig `, ` [-memberNode`, leaving two spaces between them.
   */
  function MemberConfig(clstr: string, n1: string, s1: string): string {
    "[-clusterName " + clstr + " -memberConfig " + " [-memberNode " + n1 + " -memberName " + s1 + "]]"
  }

  /** The words of the request; the doubled space is an empty word between `-memberConfig` and `[-memberNode`. */
  function MemberConfigWords(clstr: string, n1: string, s1: string): seq<string> {
    ["[-clusterName", clstr, "-memberConfig", "", "[-memberNode", n1, "-memberName", s1 + "]]"]
  }

  /** The request is these words joined by single spaces. */
  lemma MemberConfigJoin(clstr: string, n1: string, s1: string)
    ensures Join(MemberConfigWords(clstr, n1, s1), ' ') == MemberConfig(clstr, n1, s1)
  {
    var w1 := ["[-clusterName", clstr];
    var p1 := "[-clusterName " + clstr;
    JoinSnoc(["[-clusterName"], clstr, ' ');
    assert "[-clusterName" + [' '] == "[-clusterName ";
    var w2 := w1 + ["-memberConfig", ""];
    var p2 := p1 + " -memberConfig ";
    SpacedPair(w1, p1, "-memberConfig", "", " -memberConfig ");
    assert p1 + " -memberConfig " + "" == p2;
    var w3 := w2 + ["[-memberNode", n1];
    var p3 := p2 + " [-memberNode " + n1;
    SpacedPair(w2, p2, "[-memberNode", n1, " [-memberNode ");
    SpacedPairThen(w3, p3, "-memberName", s1, " -memberName ", "]]");
    assert w3 + ["-memberName", s1 + "]]"] == MemberConfigWords(clstr, n1, s1);
  }

  /** For space-free names the request splits back into exactly its words, each name a word of its own. */
  lemma MemberConfigSplits(clstr: string, n1: string, s1: string)
    requires Free(clstr, ' ') && Free(n1, ' ') && Free(s1, ' ')
    ensures Split(MemberConfig(clstr, n1, s1), ' ') == MemberConfigWords(clstr, n1, s1)
  {
    var ws := MemberConfigWords(clstr, n1, s1);
    MemberConfigJoin(clstr, n1, s1);
    forall i | 0 <= i < |ws| ensures Free(ws[i], ' ') {
      if i == 7 {
        assert ws[i] == s1 + "]]";
      }
    }
    SplitOfJoin(ws, ' ');
  }

  /** The runtime's answers: `AdminTask.createClusterMember`, `AdminConfig.save`, the node sync. */
  datatype Answers = Answers(create: Fallible<string>, save: Fallible<string>, sync: Fallible<string>)

  /** `main`: arguments, create the member, save, sync, exit 0. */
  function Run(argc: nat, parsed: Getopt, env: Answers): Outcome {
    match Parse(argc, parsed)
    case UsageExit => Outcome([], Code(2))
    case Parsed(g) =>
      if g.cluster.None? || g.server.None? || g.node.None? then Outcome([], Uncaught)
      else
        var create := CreateClusterMember(MemberConfig(g.cluster.value, g.node.value, g.server.value));
        if env.create.Raised? then Outcome([create], Code(1))
        else Then([create], SaveConfig(env.save, SyncNodes(env.sync, Outcome([], Code(0)))))
  }

  /** Too few argv entries or a getopt error: usage and exit 2, before any call to the runtime. */
  lemma UsageBeforeWork(argc: nat, parsed: Getopt, env: Answers)
    requires argc < MinArgs || parsed.GetoptError?
    ensures Run(argc, parsed, env) == Outcome([], Code(2))
  {
  }

  /**
   * `cluster_newmember(c1, s1, n1)` reads all three globals at the call, so a missing
   * option ends the run with an uncaught `NameError` before the runtime is called.
   */
  lemma MissingOptionRaises(argc: nat, parsed: Getopt, env: Answers)
    requires Parse(argc, parsed).Parsed?
    requires !Given(parsed.opts, "--cluster") || !Given(parsed.opts, "--server") || !Given(parsed.opts, "--node")
    ensures Run(argc, parsed, env) == Outcome([], Uncaught)
  {
    LastValueAbsent(parsed.opts, "--cluster");
    LastValueAbsent(parsed.opts, "--server");
    LastValueAbsent(parsed.opts, "--node");
  }

  /**
   * The run ends in exit 0 exactly when every option was given, the create call did not
   * raise, save returned nothing and the sync did not raise; the calls are then create
   * member, save and sync, in that order, with the last `--cluster`, `--node` and
   * `--server` values in the request.
   */
  lemma SucceedsIff(argc: nat, parsed: Getopt, env: Answers)
    ensures Succeeded(Run(argc, parsed, env)) <==>
      Parse(argc, parsed).Parsed? &&
      Given(parsed.opts, "--cluster") && Given(parsed.opts, "--server") && Given(parsed.opts, "--node") &&
      env.create.Returned? && env.save == Returned("") && env.sync.Returned?
    ensures Succeeded(Run(argc, parsed, env)) ==>
      var opts := parsed.opts;
      Run(argc, parsed, env).steps == [
        CreateClusterMember(MemberConfig(LastValue(opts, "--cluster").value, LastValue(opts, "--node").value,
                                         LastValue(opts, "--server").value)),
        Save, SyncActiveNodes]
  {
    if parsed.Opts? {
      LastValueAbsent(parsed.opts, "--cluster");
      LastValueAbsent(parsed.opts, "--server");
      LastValueAbsent(parsed.opts, "--node");
    }
  }

  /** Exit 1 comes from an exception in the create call or a non-empty save result, never from the sync. */
  lemma FailsWithOneIff(argc: nat, parsed: Getopt, env: Answers)
    ensures Run(argc, parsed, env).exit == Code(1) <==>
      Parse(argc, parsed).Parsed? &&
      var g := Parse(argc, parsed).settings;
      g.cluster.Some? && g.server.Some? && g.node.Some? &&
      (env.create.Raised? || (env.save.Returned? && env.save.value != ""))
  {
  }
}
