/**
 * The command-line stage shared by every script: `getopt.getopt` is a library the model
 * does not see, so its answer is an input, either an error or the recognised
 * (flag, value) pairs in command-line order.
 */
module Options {
  import opened Common

  datatype Opt = Opt(flag: string, value: string)

  /** What `getopt.getopt(sys.argv[0:], '', longForm)` produced. */
  datatype Getopt = GetoptError | Opts(opts: seq<Opt>)

  /** Outcome of an argument stage: the usage text and `os._exit(2)`, or the settings it assigned. */
  datatype ArgsOutcome<+T> = UsageExit | Parsed(settings: T)

  /**
   * The value a dispatch loop leaves in the variable for `flag`: the value of the
   * last pair carrying that flag, or `None` when no pair does (the global stays unbound).
   */
  function LastValue(opts: seq<Opt>, flag: string): Option<string> {
    if opts == [] then None
    else if opts[|opts| - 1].flag == flag then Some(opts[|opts| - 1].value)
    else LastValue(opts[..|opts| - 1], flag)
  }

  /** Does some pair carry `flag`? (a yes/no switch such as `--enableVGC`) */
  predicate Given(opts: seq<Opt>, flag: string) {
    exists i :: 0 <= i < |opts| && opts[i].flag == flag
  }

  /** Every pair carries one of the flags the loop recognises; any other flag ends in the usage exit. */
  predicate AllKnown(opts: seq<Opt>, flags: set<string>) {
    forall i :: 0 <= i < |opts| ==> opts[i].flag in flags
  }

  /** The last occurrence of a flag decides its value; earlier ones are overridden. */
  lemma {:induction false} LastOccurrenceWins(opts: seq<Opt>, flag: string, i: nat)
    requires i < |opts| && opts[i].flag == flag
    requires forall j :: i < j < |opts| ==> opts[j].flag != flag
    ensures LastValue(opts, flag) == Some(opts[i].value)
    decreases |opts|
  {
    if i < |opts| - 1 {
      var init := opts[..|opts| - 1];
      assert init[i] == opts[i];
      LastOccurrenceWins(init, flag, i);
    }
  }

  /** A variable stays unbound exactly when its flag never appears. */
  lemma {:induction false} LastValueAbsent(opts: seq<Opt>, flag: string)
    ensures LastValue(opts, flag).None? <==> !Given(opts, flag)
    decreases |opts|
  {
    if opts != [] {
      var init := opts[..|opts| - 1];
      LastValueAbsent(init, flag);
      if Given(init, flag) {
        var j :| 0 <= j < |init| && init[j].flag == flag;
        assert opts[j].flag == flag;
      }
      if Given(opts, flag) && opts[|opts| - 1].flag != flag {
        var j :| 0 <= j < |opts| && opts[j].flag == flag;
        assert init[j].flag == flag;
      }
    }
  }

  /** One more pair of the dispatch loop: the rule the loop invariants of every `get_args` follow. */
  lemma LastValueStep(opts: seq<Opt>, i: nat, flag: string)
    requires i < |opts|
    ensures LastValue(opts[..i + 1], flag) ==
      if opts[i].flag == flag then Some(opts[i].value) else LastValue(opts[..i], flag)
  {
    assert opts[..i + 1][..i] == opts[..i];
  }

  lemma GivenStep(opts: seq<Opt>, i: nat, flag: string)
    requires i < |opts|
    ensures Given(opts[..i + 1], flag) <==> Given(opts[..i], flag) || opts[i].flag == flag
  {
    if Given(opts[..i + 1], flag) && opts[i].flag != flag {
      var j :| 0 <= j < i + 1 && opts[..i + 1][j].flag == flag;
      assert opts[..i][j].flag == flag;
    }
    if Given(opts[..i], flag) {
      var j :| 0 <= j < i && opts[..i][j].flag == flag;
      assert opts[..i + 1][j].flag == flag;
    }
    if opts[i].flag == flag {
      assert opts[..i + 1][i].flag == flag;
    }
  }

  lemma AllKnownStep(opts: seq<Opt>, i: nat, flags: set<string>)
    requires i < |opts| && AllKnown(opts[..i], flags) && opts[i].flag in flags
    ensures AllKnown(opts[..i + 1], flags)
  {
    assert forall j :: 0 <= j < i ==> opts[..i + 1][j] == opts[..i][j];
  }
}
