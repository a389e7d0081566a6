// The launch loop of the RMPI launcher: per-node status letters, the
// bootstrap processes started as nodes come up, the count of nodes running,
// and the teardown after the loop; with the cluster sizing that precedes it.

module LaunchMonitor {
  import opened Common

  const MsgSuccess := "success"
  const MsgFailure := "failed"

  /** What EC2 reports for an instance; anything else is `Other`. */
  datatype InstanceState = Pending | Running | Terminated | Other

  /** The number of clients: `numberOfNodes - 1`, or the legacy `numberOfClientNodes` when no node count is given. */
  function ClientCount(numberOfNodes: int, numberOfClientNodes: int): (clients: int)
    ensures numberOfNodes != 0 ==> clients + 1 == numberOfNodes
    ensures numberOfNodes == 0 ==> clients == numberOfClientNodes
  {
    if numberOfNodes == 0 then numberOfClientNodes else numberOfNodes - 1
  }

  /** The MPI slots of the head: raised to 2 when head and clients together would offer none. */
  function HeadSlots(slotsOnHead: int, clients: int, slotsPerClient: int): (slots: int)
    ensures slots == slotsOnHead || (slots == 2 && slotsOnHead + clients * slotsPerClient == 0)
    ensures slotsOnHead >= 0 && clients >= 0 && slotsPerClient >= 0 ==> slots + clients * slotsPerClient > 0
  {
    if slotsOnHead + clients * slotsPerClient == 0 then 2 else slotsOnHead
  }

  /** The status letter of a node: P, B (R once its bootstrap reported success), T or ?. */
  function Letter(state: InstanceState, current: char): (c: char)
    ensures c == 'R' <==> state == Running && current == 'R'
  {
    match state
    case Pending => 'P'
    case Running => if current == 'R' then 'R' else 'B'
    case Terminated => 'T'
    case Other => '?'
  }

  predicate IsTerminated(s: InstanceState)
  {
    s == Terminated
  }

  predicate IsFailure(msg: string)
  {
    msg == MsgFailure
  }

  /** The launcher's view of the cluster between two polls. */
  datatype Cluster = Cluster(statuses: seq<char>, lastState: seq<Option<InstanceState>>, booters: seq<nat>, nRunning: nat)

  ghost predicate Fits(c: Cluster, n: nat)
  {
    |c.statuses| == n && |c.lastState| == n && forall b :: 0 <= b < |c.booters| ==> c.booters[b] < n
  }

  /** The instances, up to `k`, that have just turned to running: a bootstrap process is started for each. */
  function Started(states: seq<InstanceState>, last: seq<Option<InstanceState>>, k: nat): (r: seq<nat>)
    requires k <= |states| && k <= |last|
    ensures forall x: nat :: x in r <==> x < k && states[x] == Running && last[x] != Some(Running)
  {
    if k == 0 then []
    else Started(states, last, k - 1) + if states[k - 1] == Running && last[k - 1] != Some(Running) then [k - 1] else []
  }

  /** The letters after looking at the instances before `k`. */
  function Letters(statuses: seq<char>, states: seq<InstanceState>, k: nat): (r: seq<char>)
    requires |statuses| == |states|
    ensures |r| == |states|
  {
    seq(|states|, j requires 0 <= j < |states| => if j < k then Letter(states[j], statuses[j]) else statuses[j])
  }

  /** The states remembered after looking at the instances before `k`. */
  function Remembered(lastState: seq<Option<InstanceState>>, states: seq<InstanceState>, k: nat): (r: seq<Option<InstanceState>>)
    requires |lastState| == |states|
    ensures |r| == |states|
  {
    seq(|states|, j requires 0 <= j < |states| => if j < k then Some(states[j]) else lastState[j])
  }

  /** Looking at instance `i`: its letter, its remembered state and whether a bootstrap starts for it. */
  lemma ScanVisit(c: Cluster, states: seq<InstanceState>, i: nat)
    requires Fits(c, |states|) && i < |states|
    ensures Letters(c.statuses, states, i)[i] == c.statuses[i]
    ensures Remembered(c.lastState, states, i)[i] == c.lastState[i]
    ensures Letters(c.statuses, states, i + 1) == Letters(c.statuses, states, i)[i := Letter(states[i], c.statuses[i])]
    ensures Remembered(c.lastState, states, i + 1) == Remembered(c.lastState, states, i)[i := Some(states[i])]
    ensures c.booters + Started(states, c.lastState, i + 1) ==
            (c.booters + Started(states, c.lastState, i)) +
            if states[i] == Running && c.lastState[i] != Some(Running) then [i] else []
  {
    LettersStep(c.statuses, states, i);
    RememberedStep(c.lastState, states, i);
    var extra := if states[i] == Running && c.lastState[i] != Some(Running) then [i] else [];
    assert Started(states, c.lastState, i + 1) == Started(states, c.lastState, i) + extra;
    assert c.booters + (Started(states, c.lastState, i) + extra) == (c.booters + Started(states, c.lastState, i)) + extra;
  }

  lemma LettersStep(statuses: seq<char>, states: seq<InstanceState>, i: nat)
    requires |statuses| == |states| && i < |states|
    ensures Letters(statuses, states, i + 1) == Letters(statuses, states, i)[i := Letter(states[i], statuses[i])]
  {
  }

  lemma RememberedStep(lastState: seq<Option<InstanceState>>, states: seq<InstanceState>, i: nat)
    requires |lastState| == |states| && i < |states|
    ensures Remembered(lastState, states, i + 1) == Remembered(lastState, states, i)[i := Some(states[i])]
  {
  }

  /**
   * The scan of the instances in one round: every instance up to and
   * including the first terminated one gets its letter, the ones before it
   * record their state and start a bootstrap if they just turned to running;
   * the instances after a terminated one are not looked at.
   */
  function Scan(c: Cluster, states: seq<InstanceState>): (r: Cluster)
    requires Fits(c, |states|)
    ensures Fits(r, |states|)
  {
    var stop := FirstWhere(states, IsTerminated);
    var started := Started(states, c.lastState, stop);
    assert forall j :: 0 <= j < |started| ==> started[j] in started;
    Cluster(Letters(c.statuses, states, stop + 1), Remembered(c.lastState, states, stop), c.booters + started, c.nRunning)
  }

  /** A scan that meets its first terminated instance at `i`. */
  lemma ScanStopsAt(c: Cluster, states: seq<InstanceState>, i: nat)
    requires Fits(c, |states|) && i < |states| && IsTerminated(states[i])
    requires forall j :: 0 <= j < i ==> !IsTerminated(states[j])
    ensures Scan(c, states) == Cluster(Letters(c.statuses, states, i + 1), Remembered(c.lastState, states, i),
                                       c.booters + Started(states, c.lastState, i), c.nRunning)
  {
    assert FirstWhere(states, IsTerminated) == i;
  }

  /** The successes a bootstrap process reported before its first failure. */
  function Successes(msgs: seq<string>): nat
  {
    Count(msgs[..FirstWhere(msgs, IsFailure)])
  }

  /** How many of the messages are `MsgSuccess`. */
  function Count(msgs: seq<string>): nat
  {
    if |msgs| == 0 then 0 else Count(msgs[..|msgs| - 1]) + if msgs[|msgs| - 1] == MsgSuccess then 1 else 0
  }

  /** The messages waiting in the pipe of bootstrap process `b`: none beyond those given. */
  function Inbox(inbox: seq<seq<string>>, b: nat): seq<string>
  {
    if b < |inbox| then inbox[b] else []
  }

  /** Reading the pipe of one process of node `node`: each success marks the node running and is counted. */
  function DrainOne(c: Cluster, node: nat, msgs: seq<string>): (r: Cluster)
    requires node < |c.statuses|
    ensures r.nRunning == c.nRunning + Successes(msgs)
  {
    var s := Successes(msgs);
    c.(statuses := if s > 0 then c.statuses[node := 'R'] else c.statuses, nRunning := c.nRunning + s)
  }

  /** Reading the pipes of the first `k` processes, in order. */
  function DrainUpTo(c: Cluster, inbox: seq<seq<string>>, k: nat): (r: Cluster)
    requires k <= |c.booters| && forall b :: 0 <= b < |c.booters| ==> c.booters[b] < |c.statuses|
    ensures |r.statuses| == |c.statuses| && r.lastState == c.lastState && r.booters == c.booters
    ensures r.nRunning >= c.nRunning
  {
    if k == 0 then c else DrainOne(DrainUpTo(c, inbox, k - 1), c.booters[k - 1], Inbox(inbox, k - 1))
  }

  /** Reading one more pipe: a process started for a node of the cluster, on a cluster that still fits. */
  lemma DrainUpToStep(c: Cluster, inbox: seq<seq<string>>, b: nat, n: nat)
    requires Fits(c, n) && b < |c.booters|
    ensures Fits(DrainUpTo(c, inbox, b), n) && c.booters[b] < n
    ensures DrainUpTo(c, inbox, b + 1) == DrainOne(DrainUpTo(c, inbox, b), c.booters[b], Inbox(inbox, b))
  {
  }

  function Drain(c: Cluster, inbox: seq<seq<string>>): (r: Cluster)
    requires forall b :: 0 <= b < |c.booters| ==> c.booters[b] < |c.statuses|
  {
    DrainUpTo(c, inbox, |c.booters|)
  }

  /** What one poll observes: the state of every instance and what each bootstrap process has sent since. */
  datatype Round = Round(states: seq<InstanceState>, inbox: seq<seq<string>>)

  ghost predicate RoundsFit(rounds: seq<Round>, n: nat)
  {
    forall r :: r in rounds ==> |r.states| == n
  }

  /** One pass of the launch loop. */
  function Step(c: Cluster, r: Round): (c': Cluster)
    requires Fits(c, |r.states|)
    ensures Fits(c', |r.states|)
  {
    var s := Scan(c, r.states);
    Drain(s, r.inbox)
  }

  /**
   * The launch loop as written: poll after poll until `nRunning` reaches the
   * number of instances; whether it did within `rounds`, and the state then.
   */
  function Launch(c: Cluster, rounds: seq<Round>, n: nat): (Cluster, bool)
    requires Fits(c, n) && RoundsFit(rounds, n)
    ensures Fits(Launch(c, rounds, n).0, n)
    ensures Launch(c, rounds, n).1 ==> Launch(c, rounds, n).0.nRunning >= n
    decreases |rounds|
  {
    if |rounds| == 0 then (c, false)
    else
      var c' := Step(c, rounds[0]);
      if c'.nRunning >= n then (c', true) else Launch(c', rounds[1..], n)
  }

  /** One pass of the launch loop, then the rest of it. */
  lemma LaunchStep(c: Cluster, rounds: seq<Round>, n: nat)
    requires Fits(c, n) && RoundsFit(rounds, n) && |rounds| > 0
    ensures RoundsFit(rounds[1..], n) && |rounds[0].states| == n
    ensures var c' := Step(c, rounds[0]);
            Launch(c, rounds, n) == if c'.nRunning >= n then (c', true) else Launch(c', rounds[1..], n)
  {
    assert rounds[0] in rounds;
    assert forall r :: r in rounds[1..] ==> r in rounds;
  }

  /** What follows the loop: the instances terminated because not every node came up. */
  function Teardown(nRunning: nat, n: nat, keepHead: bool): (terminated: seq<nat>)
    ensures |terminated| == (if nRunning != n && !keepHead then n else 0)
    ensures forall j :: 0 <= j < |terminated| ==> terminated[j] == j
  {
    if nRunning != n && !keepHead then seq(n, j => j) else []
  }

  // ----- the launch loop as written never gives up -----

  /** A one-node cluster whose bootstrap fails in the first poll and that stays up afterwards. */
  function FailedBootRounds(k: nat): (rounds: seq<Round>)
    ensures |rounds| == k + 1 && RoundsFit(rounds, 1)
  {
    [Round([Running], [[MsgFailure]])] + QuietRounds(k)
  }

  /** `k` polls where the single node stays up and its pipe stays empty. */
  function QuietRounds(k: nat): (rounds: seq<Round>)
    ensures |rounds| == k && RoundsFit(rounds, 1)
  {
    if k == 0 then [] else [Round([Running], [[]])] + QuietRounds(k - 1)
  }

  /** Polls where the node stays up and its pipe stays empty never raise the count, so the loop goes on. */
  lemma {:induction false} QuietRoundsKeepPolling(c: Cluster, k: nat)
    requires Fits(c, 1) && c.nRunning == 0 && c.lastState == [Some(Running)]
    ensures !Launch(c, QuietRounds(k), 1).1
    decreases k
  {
    if k > 0 {
      var rounds := QuietRounds(k);
      LaunchStep(c, rounds, 1);
      assert rounds[0] == Round([Running], [[]]);
      QuietPoll(c);
      assert rounds[1..] == QuietRounds(k - 1);
      QuietRoundsKeepPolling(Step(c, rounds[0]), k - 1);
    }
  }

  /** One poll of a node that stays up with an empty pipe leaves the count at zero. */
  lemma QuietPoll(c: Cluster)
    requires Fits(c, 1) && c.nRunning == 0 && c.lastState == [Some(Running)]
    ensures var c' := Step(c, Round([Running], [[]]));
            c'.nRunning == 0 && c'.lastState == [Some(Running)]
  {
    assert FirstWhere([Running], IsTerminated) == 1;
    assert Started([Running], c.lastState, 1) == [];
    var s := Scan(c, [Running]);
    assert s.lastState == [Some(Running)] && s.booters == c.booters && s.nRunning == 0;
    DrainQuiet(s, [[]], |s.booters|);
  }

  /** Pipes holding no success add nothing to the count. */
  lemma {:induction false} DrainQuiet(c: Cluster, inbox: seq<seq<string>>, k: nat)
    requires k <= |c.booters| && forall b :: 0 <= b < |c.booters| ==> c.booters[b] < |c.statuses|
    requires forall b :: 0 <= b < |inbox| ==> MsgSuccess !in inbox[b]
    ensures DrainUpTo(c, inbox, k).nRunning == c.nRunning
  {
    if k > 0 {
      DrainQuiet(c, inbox, k - 1);
      NoSuccessCountsZero(Inbox(inbox, k - 1));
    }
  }

  lemma {:induction false} NoSuccessCountsZero(msgs: seq<string>)
    requires MsgSuccess !in msgs
    ensures Successes(msgs) == 0
  {
    var p := msgs[..FirstWhere(msgs, IsFailure)];
    assert MsgSuccess !in p;
    CountAbsent(p);
  }

  lemma {:induction false} CountAbsent(msgs: seq<string>)
    requires MsgSuccess !in msgs
    ensures Count(msgs) == 0
  {
    if |msgs| > 0 {
      assert MsgSuccess !in msgs[..|msgs| - 1];
      CountAbsent(msgs[..|msgs| - 1]);
    }
  }

  /**
   * The loop never exits once a node's bootstrap has failed: a single-node
   * cluster whose only bootstrap reports `MsgFailure` is polled forever, so
   * the teardown after the loop is never reached.
   */
  lemma LaunchAsWrittenNeverExits(k: nat)
    ensures var start := Cluster(['?'], [None], [], 0);
            !Launch(start, FailedBootRounds(k), 1).1
  {
    var start := Cluster(['?'], [None], [], 0);
    FirstPollOfFailedBoot();
    FailedBootRoundsTail(k);
    QuietRoundsKeepPolling(Step(start, Round([Running], [[MsgFailure]])), k);
  }

  /** The first poll of that cluster: its bootstrap is started and reports failure, nothing is counted. */
  lemma FirstPollOfFailedBoot()
    ensures var start := Cluster(['?'], [None], [], 0);
            var s := Scan(start, [Running]);
            s == Cluster(['B'], [Some(Running)], [0], 0) &&
            ReportsFailure(s, [[MsgFailure]]) &&
            Step(start, Round([Running], [[MsgFailure]])) == s
  {
    var start := Cluster(['?'], [None], [], 0);
    assert FirstWhere([Running], IsTerminated) == 1;
    assert Started([Running], [None], 1) == [0];
    var s := Scan(start, [Running]);
    assert s == Cluster(['B'], [Some(Running)], [0], 0);
    assert MsgFailure in Inbox([[MsgFailure]], 0);
    assert FirstWhere([MsgFailure], IsFailure) == 0;
    assert [MsgFailure][..0] == [];
    assert Successes([MsgFailure]) == 0;
    assert DrainUpTo(s, [[MsgFailure]], 0) == s;
    assert DrainOne(s, 0, [MsgFailure]) == s;
    assert DrainUpTo(s, [[MsgFailure]], 1) == s;
  }

  lemma FailedBootRoundsTail(k: nat)
    ensures FailedBootRounds(k)[0] == Round([Running], [[MsgFailure]])
    ensures FailedBootRounds(k)[1..] == QuietRounds(k)
  {
    assert FailedBootRounds(k) == [Round([Running], [[MsgFailure]])] + QuietRounds(k);
  }

  // ----- the launch loop as evidently intended -----

  /** Whether some bootstrap process reported a failure in this round. */
  predicate ReportsFailure(c: Cluster, inbox: seq<seq<string>>)
  {
    exists b :: 0 <= b < |c.booters| && MsgFailure in Inbox(inbox, b)
  }

  /**
   * The loop with the failure `break`s leaving the polling loop as well: it
   * stops at the first poll where every node runs or a bootstrap failed.
   * The flag says whether a failure ended it.
   */
  function LaunchStoppingOnFailure(c: Cluster, rounds: seq<Round>, n: nat): (r: (Cluster, bool, bool))
    requires Fits(c, n) && RoundsFit(rounds, n)
    ensures Fits(r.0, n)
    ensures r.1 ==> r.0.nRunning >= n || r.2
    ensures r.2 ==> r.1
    decreases |rounds|
  {
    if |rounds| == 0 then (c, false, false)
    else
      var s := Scan(c, rounds[0].states);
      var c' := Drain(s, rounds[0].inbox);
      var failed := ReportsFailure(s, rounds[0].inbox);
      if c'.nRunning >= n || failed then (c', true, failed) else LaunchStoppingOnFailure(c', rounds[1..], n)
  }

  /**
   * With the corrected loop a failed bootstrap ends the launch in the same
   * poll, and the teardown then terminates every instance unless the head
   * is to be kept.
   */
  lemma LaunchStoppingOnFailureTearsDown(k: nat, keepHead: bool)
    ensures var start := Cluster(['?'], [None], [], 0);
            var r := LaunchStoppingOnFailure(start, FailedBootRounds(k), 1);
            r.1 && r.2 && Teardown(r.0.nRunning, 1, keepHead) == (if keepHead then [] else [0])
  {
    var start := Cluster(['?'], [None], [], 0);
    FirstPollOfFailedBoot();
    FailedBootRoundsTail(k);
    var s := Scan(start, [Running]);
    assert Drain(s, [[MsgFailure]]) == s;
    assert LaunchStoppingOnFailure(start, FailedBootRounds(k), 1) == (s, true, true);
  }

  /** The corrected loop exits no later than the loop as written, and at the same state when no bootstrap fails. */
  lemma {:induction false} StoppingOnFailureAgreesWithoutFailures(c: Cluster, rounds: seq<Round>, n: nat)
    requires Fits(c, n) && RoundsFit(rounds, n)
    requires forall r :: r in rounds ==> forall b :: 0 <= b < |r.inbox| ==> MsgFailure !in r.inbox[b]
    ensures var r := LaunchStoppingOnFailure(c, rounds, n);
            (r.0, r.1) == Launch(c, rounds, n) && !r.2
    decreases |rounds|
  {
    if |rounds| > 0 {
      var s := Scan(c, rounds[0].states);
      assert !ReportsFailure(s, rounds[0].inbox) by {
        forall b | 0 <= b < |s.booters| ensures MsgFailure !in Inbox(rounds[0].inbox, b) {
          assert rounds[0] in rounds;
        }
      }
      assert forall r :: r in rounds[1..] ==> r in rounds;
      StoppingOnFailureAgreesWithoutFailures(Drain(s, rounds[0].inbox), rounds[1..], n);
    }
  }

  /** `main`'s polling state: the view of the cluster, kept up to date poll after poll. */
  class LaunchMonitor {
    const n: nat
    var statuses: seq<char>
    var lastState: seq<Option<InstanceState>>
    var booters: seq<nat>
    var nRunning: nat

    function View(): Cluster
      reads this
    {
      Cluster(statuses, lastState, booters, nRunning)
    }

    ghost predicate Valid()
      reads this
    {
      Fits(View(), n)
    }

    /** Every node starts unknown (`?`), with no state seen and nothing started. */
    constructor (n: nat)
      ensures Valid() && this.n == n
      ensures View() == Cluster(seq(n, _ => '?'), seq(n, _ => None), [], 0)
    {
      this.n := n;
      statuses := seq(n, _ => '?');
      lastState := seq(n, _ => None);
      booters := [];
      nRunning := 0;
    }

    /** The loop over the instances in one poll, stopping at the first terminated one. */
    method ScanInstances(states: seq<InstanceState>)
      requires Valid() && |states| == n
      modifies this
      ensures Valid() && View() == Scan(old(View()), states)
    {
      ghost var c0 := View();
      ghost var stop := FirstWhere(states, IsTerminated);
      var st, ls, bs := statuses, lastState, booters;
      for i := 0 to n
        invariant i <= stop && View() == c0
        invariant st == Letters(c0.statuses, states, i)
        invariant ls == Remembered(c0.lastState, states, i)
        invariant bs == c0.booters + Started(states, c0.lastState, i)
      {
        ScanVisit(c0, states, i);
        st := st[i := Letter(states[i], st[i])];
        if ls[i] != Some(states[i]) && states[i] == Running {
          bs := bs + [i];
        } else {
          assert bs + [] == bs;
        }
        if states[i] == Terminated {
          ScanStopsAt(c0, states, i);
          assert Cluster(st, ls, bs, c0.nRunning) == Scan(c0, states);
          statuses, lastState, booters := st, ls, bs;
          return;
        }
        ls := ls[i := Some(states[i])];
      }
      assert stop == n && Letters(c0.statuses, states, n) == Letters(c0.statuses, states, n + 1);
      assert Cluster(st, ls, bs, c0.nRunning) == Scan(c0, states);
      statuses, lastState, booters := st, ls, bs;
    }

    /** Reading every bootstrap pipe in turn; a failure stops reading that pipe only. */
    method DrainBooters(inbox: seq<seq<string>>)
      requires Valid()
      modifies this
      ensures Valid() && View() == Drain(old(View()), inbox)
    {
      ghost var c0 := View();
      for b := 0 to |booters|
        invariant booters == c0.booters && lastState == c0.lastState
        invariant View() == DrainUpTo(c0, inbox, b)
      {
        DrainUpToStep(c0, inbox, b, n);
        ReadPipe(booters[b], Inbox(inbox, b));
      }
    }

    /** The `while poll()` loop over one pipe. */
    method ReadPipe(node: nat, msgs: seq<string>)
      requires Valid() && node < n
      modifies this
      ensures Valid() && View() == DrainOne(old(View()), node, msgs)
    {
      ghost var c0 := View();
      ghost var stop := FirstWhere(msgs, IsFailure);
      var j := 0;
      while j < |msgs|
        invariant j <= stop && booters == c0.booters && lastState == c0.lastState
        invariant nRunning == c0.nRunning + Count(msgs[..j])
        invariant statuses == if Count(msgs[..j]) > 0 then c0.statuses[node := 'R'] else c0.statuses
      {
        assert msgs[..j + 1][..j] == msgs[..j];
        if msgs[j] == MsgSuccess {
          statuses := statuses[node := 'R'];
          nRunning := nRunning + 1;
        } else if msgs[j] == MsgFailure {
          break;
        }
        j := j + 1;
      }
      assert j == stop;
    }

    /** One pass of the `while True` loop; whether it breaks out. */
    method Poll(r: Round) returns (allRunning: bool)
      requires Valid() && |r.states| == n
      modifies this
      ensures Valid() && View() == Step(old(View()), r)
      ensures allRunning <==> nRunning >= n
    {
      ScanInstances(r.states);
      DrainBooters(r.inbox);
      allRunning := nRunning >= n;
    }

    /**
     * The launch loop as written, over the polls in `rounds` (running out
     * of them stands for a loop that is still polling), then the teardown
     * when it exits without every node up.
     */
    method Run(rounds: seq<Round>, keepHead: bool) returns (exited: bool, terminated: seq<nat>)
      requires Valid() && RoundsFit(rounds, n)
      modifies this
      ensures Valid() && (View(), exited) == Launch(old(View()), rounds, n)
      ensures terminated == if exited then Teardown(nRunning, n, keepHead) else []
    {
      exited := false;
      terminated := [];
      var i := 0;
      while i < |rounds|
        invariant 0 <= i <= |rounds| && Valid()
        invariant Launch(old(View()), rounds, n) == Launch(View(), rounds[i..], n)
      {
        assert forall r :: r in rounds[i..] ==> r in rounds;
        assert rounds[i..][1..] == rounds[i + 1..];
        LaunchStep(View(), rounds[i..], n);
        var allRunning := Poll(rounds[i]);
        if allRunning {
          exited := true;
          terminated := Teardown(nRunning, n, keepHead);
          return;
        }
        i := i + 1;
      }
      assert rounds[i..] == [];
    }
  }
}
