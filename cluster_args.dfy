/**
 * `get_args` of the two cluster scripts, whose text is the same in both:
 * at least 6 argv entries, then `--cluster`, `--server` and `--node` assign
 * the globals `c1`, `s1` and `n1`.
 */
module ClusterArgs {
  import opened Common
  import opened Options

  /** The globals `c1`, `s1`, `n1`; `None` when no option assigned one. */
  datatype ClusterSettings = ClusterSettings(cluster: Option<string>, server: Option<string>, node: Option<string>)

  const MinArgs: nat := 6

  const Flags: set<string> := {"--cluster", "--server", "--node"}

  /** What the argument stage leaves behind. */
  function Parse(argc: nat, parsed: Getopt): ArgsOutcome<ClusterSettings> {
    if argc < MinArgs || parsed.GetoptError? || !AllKnown(parsed.opts, Flags) then UsageExit
    else Parsed(ClusterSettings(
      LastValue(parsed.opts, "--cluster"), LastValue(parsed.opts, "--server"), LastValue(parsed.opts, "--node")))
  }

  /** The dispatch loop over the recognised pairs. */
  method GetArgs(argc: nat, parsed: Getopt) returns (r: ArgsOutcome<ClusterSettings>)
    ensures r == Parse(argc, parsed)
  {
    if argc < MinArgs || parsed.GetoptError? {
      return UsageExit;
    }
    var opts := parsed.opts;
    var c1, s1, n1: Option<string> := None, None, None;
    var i := 0;
    while i < |opts|
      invariant i <= |opts| && AllKnown(opts[..i], Flags)
      invariant c1 == LastValue(opts[..i], "--cluster")
      invariant s1 == LastValue(opts[..i], "--server")
      invariant n1 == LastValue(opts[..i], "--node")
    {
      var flag, val := opts[i].flag, opts[i].value;
      LastValueStep(opts, i, "--cluster");
      LastValueStep(opts, i, "--server");
      LastValueStep(opts, i, "--node");
      if flag == "--cluster" {
        c1 := Some(val);
      } else if flag == "--server" {
        s1 := Some(val);
      } else if flag == "--node" {
        n1 := Some(val);
      } else {
        return UsageExit;
      }
      AllKnownStep(opts, i, Flags);
      i := i + 1;
    }
    assert opts[..i] == opts;
    return Parsed(ClusterSettings(c1, s1, n1));
  }
}
