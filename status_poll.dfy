/**
 * `checkAppSvr`: the bounded status poll of an application server after a (re)start.
 * The runtime's answer to poll `n` (the server MBean's `state` attribute, or an
 * exception, which the script swallows) is `observe(n)`; the sleeps between polls
 * and the printed report are not modelled.
 */
module StatusPoll {
  import opened Common

  const Started := "STARTED"

  /** The `retries` argument's default. */
  const DefaultRetries: nat := 10

  /** The value `svrstate` holds after `n` polls: the last state read without an exception, or "". */
  function LastRead(observe: nat -> Fallible<string>, n: nat): string {
    if n == 0 then ""
    else match observe(n - 1)
      case Returned(s) => s
      case Raised => LastRead(observe, n - 1)
  }

  /** The number of polls made from poll `i` on: up to the first read of "STARTED", at most `retries` in all. */
  function PollsFrom(observe: nat -> Fallible<string>, retries: nat, i: nat): nat
    decreases retries - i
  {
    if i >= retries then retries
    else if observe(i) == Returned(Started) then i + 1
    else PollsFrom(observe, retries, i + 1)
  }

  function Polls(observe: nat -> Fallible<string>, retries: nat): nat {
    PollsFrom(observe, retries, 0)
  }

  /** The poll loop: reads the state up to `retries` times and stops at the first "STARTED". */
  method CheckAppSvr(observe: nat -> Fallible<string>, retries: nat) returns (state: string, polls: nat)
    ensures polls == Polls(observe, retries)
    ensures state == LastRead(observe, polls)
  {
    state, polls := "", 0;
    while polls < retries
      invariant polls <= retries
      invariant state == LastRead(observe, polls) && state != Started
      invariant PollsFrom(observe, retries, polls) == Polls(observe, retries)
    {
      var read := observe(polls);
      if read.Returned? {
        state := read.value;
      }
      polls := polls + 1;
      if state == Started {
        break;
      }
    }
  }

  /**
   * What the poll does: at most `retries` reads, none of them "STARTED" except possibly
   * the last, and it stops early only right after reading "STARTED".
   */
  lemma {:induction false} PollsStopAtFirstStarted(observe: nat -> Fallible<string>, retries: nat, i: nat)
    requires i <= retries
    ensures i <= PollsFrom(observe, retries, i) <= retries
    ensures forall j :: i <= j < PollsFrom(observe, retries, i) - 1 ==> observe(j) != Returned(Started)
    ensures PollsFrom(observe, retries, i) < retries ==>
      PollsFrom(observe, retries, i) > i && observe(PollsFrom(observe, retries, i) - 1) == Returned(Started)
    ensures PollsFrom(observe, retries, i) == retries && i < retries ==>
      forall j :: i <= j < retries - 1 ==> observe(j) != Returned(Started)
    decreases retries - i
  {
    if i < retries && observe(i) != Returned(Started) {
      PollsStopAtFirstStarted(observe, retries, i + 1);
    }
  }

  /** A non-empty sticky state is the value of one of the reads. */
  lemma {:induction false} LastReadWasRead(observe: nat -> Fallible<string>, n: nat)
    ensures LastRead(observe, n) != "" ==>
      exists j :: 0 <= j < n && observe(j) == Returned(LastRead(observe, n))
  {
    if n > 0 && observe(n - 1).Raised? {
      LastReadWasRead(observe, n - 1);
    }
  }

  /** The reported state is "STARTED" exactly when one of the first `retries` reads returned it. */
  lemma ReportsStartedIff(observe: nat -> Fallible<string>, retries: nat)
    ensures LastRead(observe, Polls(observe, retries)) == Started <==>
      exists j :: 0 <= j < retries && observe(j) == Returned(Started)
  {
    var p := Polls(observe, retries);
    PollsStopAtFirstStarted(observe, retries, 0);
    LastReadWasRead(observe, p);
    if exists j :: 0 <= j < retries && observe(j) == Returned(Started) {
      var j :| 0 <= j < retries && observe(j) == Returned(Started);
      if p == retries {
        assert j == retries - 1;
      }
    }
  }
}
