// The bootstrap process of the RMPI launcher (`startNode`): the log that
// collapses repeated lines, the retry loop that pushes the bootstrap to a
// node, and the chunked streaming of the base64 bundle.

module BootTransport {
  import opened Common
  import opened Text

  const MsgSuccess := "success"
  const MsgFailure := "failed"
  /** Seconds slept after a failed attempt. */
  const Wait := 10
  /** Characters of the bundle sent per command. */
  const ChunkSize := 1024
  const Installing := "installing userdata and boot script via ssh..."
  const Starting := "starting configuration script..."
  const Running := "boot script is running."
  /** Failures are reported only once `retries * Wait` exceeds this many seconds. */
  const QuietPeriod := 120

  /** What goes up the pipe to the launcher: a log line, a repeat summary, or the final status. */
  datatype Report = Line(msg: string) | Repeats(msg: string, times: nat) | Status(status: string)

  /** The text of a report as sent by node `nodenum`. */
  function Render(nodenum: nat, r: Report): string
  {
    match r
    case Line(msg) => "node " + NatToString(nodenum) + ": " + msg
    case Repeats(msg, times) => "node " + NatToString(nodenum) + ": " + msg + " (message repeats " + NatToString(times) + " times)"
    case Status(status) => status
  }

  /** How many logged messages a report stands for. */
  function Weight(r: Report): nat
  {
    match r
    case Line(_) => 1
    case Repeats(_, times) => times
    case Status(_) => 0
  }

  /** How many logged messages a sequence of reports stands for. */
  function Accounted(reports: seq<Report>): nat
  {
    if |reports| == 0 then 0 else Accounted(reports[..|reports| - 1]) + Weight(reports[|reports| - 1])
  }

  lemma AccountedAppend(reports: seq<Report>, r: Report)
    ensures Accounted(reports + [r]) == Accounted(reports) + Weight(r)
  {
    assert (reports + [r])[..|reports|] == reports;
  }

  /** `after` is `before` with log reports added, and no status. */
  ghost predicate LogsOnly(before: seq<Report>, after: seq<Report>)
  {
    |before| <= |after| && after[..|before|] == before && NoStatus(after[|before|..])
  }

  /** None of the reports is a status. */
  predicate NoStatus(reports: seq<Report>)
  {
    forall r :: r in reports ==> !r.Status?
  }

  lemma LogsOnlyTransitive(a: seq<Report>, b: seq<Report>, c: seq<Report>)
    requires LogsOnly(a, b) && LogsOnly(b, c)
    ensures LogsOnly(a, c)
  {
    assert c[..|a|] == c[..|b|][..|a|];
  }

  /** How many logged messages the reports stand for, together. */
  function Weights(reports: seq<Report>): nat
  {
    if |reports| == 0 then 0 else Weight(reports[0]) + Weights(reports[1..])
  }

  lemma WeightsOfLogs(out: seq<Report>)
    requires 0 < |out| <= 2
    ensures Weights(out) == Weight(out[0]) + if |out| == 2 then Weight(out[1]) else 0
  {
    assert |out| == 2 ==> out[1..][1..] == [];
  }

  /**
   * What `log` does with a message when logging is on, given the last
   * message and the repeats of it still pending: the reports it sends, the
   * new last message and the new pending count.
   */
  function LogEffect(last: string, repeats: nat, msg: string): (seq<Report>, string, nat)
  {
    if msg != last then ((if repeats > 0 then [Repeats(last, repeats)] else []) + [Line(msg)], msg, 0)
    else if repeats + 1 > 9 then ([Repeats(last, repeats + 1)], last, 0)
    else ([], last, repeats + 1)
  }

  /**
   * A new message is sent at once, after a summary of the pending repeats;
   * a repeat is only counted until the tenth, which is sent as a summary;
   * the pending count stays in 0..9, and every message is sent or pending.
   */
  lemma LogEffectSpec(last: string, repeats: nat, msg: string)
    requires repeats <= 9
    ensures var (out, last', repeats') := LogEffect(last, repeats, msg);
            last' == msg && repeats' <= 9 && |out| <= 2 &&
            NoStatus(out) &&
            Weights(out) + repeats' == repeats + 1 &&
            (msg != last ==> repeats' == 0 && out[|out| - 1] == Line(msg) &&
                             (|out| == 2 <==> repeats > 0) && (repeats > 0 ==> out[0] == Repeats(last, repeats))) &&
            (msg == last ==> (out != [] <==> repeats == 9) && (out != [] ==> out == [Repeats(msg, 10)]))
  {
    var (out, _, _) := LogEffect(last, repeats, msg);
    if |out| > 0 {
      WeightsOfLogs(out);
    }
  }

  /** Sending at most two log reports adds what they stand for, and no status. */
  lemma SendLogs(sent: seq<Report>, out: seq<Report>)
    requires |out| <= 2 && NoStatus(out)
    ensures Accounted(sent + out) == Accounted(sent) + Weights(out)
    ensures LogsOnly(sent, sent + out)
  {
    if |out| > 0 {
      WeightsOfLogs(out);
      AccountedAppend(sent, out[0]);
      if |out| == 2 {
        AccountedAppend(sent + [out[0]], out[1]);
        assert sent + out == sent + [out[0]] + [out[1]];
      } else {
        assert sent + out == sent + [out[0]];
      }
    } else {
      assert sent + out == sent;
    }
    assert (sent + out)[..|sent|] == sent;
    assert (sent + out)[|sent|..] == out;
  }

  /** How one attempt at pushing the bootstrap goes: where it raises, if it does. */
  datatype Attempt =
    | ConnectFails(err: string)       // before anything is logged
    | FailsBeforeStart(err: string)   // while writing the bootstrap or the bundle
    | FailsAfterStart(err: string)    // after `halfBaked` is set
    | Completes

  /** An attempt that ends the retry loop. */
  predicate Final(a: Attempt)
  {
    a.FailsAfterStart? || a.Completes?
  }

  /** The bundle split as `read(1024)` splits it. */
  function Chunks(text: string): (chunks: seq<string>)
    decreases |text|
  {
    if text == "" then []
    else if |text| <= ChunkSize then [text]
    else [text[..ChunkSize]] + Chunks(text[ChunkSize..])
  }

  function Concat(chunks: seq<string>): string
  {
    if |chunks| == 0 then "" else chunks[0] + Concat(chunks[1..])
  }

  /** The chunks put back together give the bundle; each is non-empty, at most 1024 long, and all but the last are full. */
  lemma {:induction false} ChunksSpec(text: string)
    ensures Concat(Chunks(text)) == text
    ensures forall i :: 0 <= i < |Chunks(text)| ==> 0 < |Chunks(text)[i]| <= ChunkSize
    ensures forall i :: 0 <= i < |Chunks(text)| - 1 ==> |Chunks(text)[i]| == ChunkSize
    decreases |text|
  {
    if |text| > ChunkSize {
      var rest := text[ChunkSize..];
      ChunksSpec(rest);
      assert Chunks(text) == [text[..ChunkSize]] + Chunks(rest);
      assert Chunks(text)[1..] == Chunks(rest);
      assert text == text[..ChunkSize] + rest;
      forall i | 1 <= i < |Chunks(text)|
        ensures Chunks(text)[i] == Chunks(rest)[i - 1]
      {
      }
    }
  }

  /**
   * The bundle-writing loop of `run`: 1024 characters are read at a time and
   * each non-empty piece becomes one `echo -n` command. `TryOnce` keeps only
   * an attempt's outcome, so this loop stands on its own: `sent` is the
   * sequence of pieces those commands carry.
   */
  method StreamChunks(text: string) returns (sent: seq<string>)
    ensures sent == Chunks(text)
  {
    sent := [];
    var pos := 0;
    var line := text[pos..if |text| < ChunkSize then |text| else ChunkSize];
    while line != ""
      invariant 0 <= pos <= |text|
      invariant line == text[pos..if |text| - pos < ChunkSize then |text| else pos + ChunkSize]
      invariant sent + Chunks(text[pos..]) == Chunks(text)
      decreases |text| - pos
    {
      assert Chunks(text[pos..]) == [line] + Chunks(text[pos + |line|..]) by {
        if |text| - pos > ChunkSize {
          assert line == text[pos..][..ChunkSize];
          assert text[pos..][ChunkSize..] == text[pos + ChunkSize..];
        } else {
          assert line == text[pos..];
          assert text[pos + |line|..] == "";
        }
      }
      sent := sent + [line];
      pos := pos + |line|;
      line := text[pos..if |text| - pos < ChunkSize then |text| else pos + ChunkSize];
    }
  }

  /** `startNode`: the process that boots one node and reports to the launcher through a pipe. */
  class BootReporter {
    const nodenum: nat
    const verbose: bool
    var lastLogMsg: string
    var logMsgRepeats: nat
    var success: bool
    var retries: nat
    /** Everything sent up the pipe so far. */
    var sent: seq<Report>
    /** How many messages were logged with logging on. */
    ghost var logged: nat

    /** A pending repeat count stays below ten, and every logged message is sent or pending. */
    ghost predicate Valid()
      reads this
    {
      logMsgRepeats <= 9 && Accounted(sent) + logMsgRepeats == logged
    }

    constructor (nodenum: nat, verbose: bool)
      ensures Valid()
      ensures this.nodenum == nodenum && this.verbose == verbose
      ensures lastLogMsg == "" && logMsgRepeats == 0 && !success && retries == 0 && sent == [] && logged == 0
    {
      this.nodenum := nodenum;
      this.verbose := verbose;
      lastLogMsg := "";
      logMsgRepeats := 0;
      success := false;
      retries := 0;
      sent := [];
      logged := 0;
    }

    /**
     * `log`: with logging off nothing happens; otherwise the reports sent
     * and the new repeat state are those of `LogEffect`.
     */
    method Log(msg: string, on: bool)
      requires Valid()
      modifies this
      ensures Valid()
      ensures success == old(success) && retries == old(retries)
      ensures !on ==> sent == old(sent) && lastLogMsg == old(lastLogMsg) && logMsgRepeats == old(logMsgRepeats) &&
                      logged == old(logged)
      ensures on ==> var e := LogEffect(old(lastLogMsg), old(logMsgRepeats), msg);
                     sent == old(sent) + e.0 && lastLogMsg == e.1 && logMsgRepeats == e.2 && logged == old(logged) + 1
      ensures LogsOnly(old(sent), sent)
    {
      if on {
        LogMessage(msg);
      } else {
        SendLogs(sent, []);
        assert sent + [] == sent;
      }
    }

    /** The body of `log` when logging is on. */
    method LogMessage(msg: string)
      requires Valid()
      modifies this
      ensures Valid()
      ensures success == old(success) && retries == old(retries)
      ensures var e := LogEffect(old(lastLogMsg), old(logMsgRepeats), msg);
              sent == old(sent) + e.0 && lastLogMsg == e.1 && logMsgRepeats == e.2 && logged == old(logged) + 1
      ensures LogsOnly(old(sent), sent)
    {
      var last, repeats := lastLogMsg, logMsgRepeats;
      var out: seq<Report> := [];
      if msg != last {
        if repeats > 0 {
          out := [Repeats(last, repeats)];
          repeats := 0;
        }
        out := out + [Line(msg)];
        last := msg;
      } else {
        repeats := repeats + 1;
        if repeats > 9 {
          out := [Repeats(last, repeats)];
          repeats := 0;
        }
      }
      assert (out, last, repeats) == LogEffect(lastLogMsg, logMsgRepeats, msg);
      LogEffectSpec(lastLogMsg, logMsgRepeats, msg);
      SendLogs(sent, out);
      sent, lastLogMsg, logMsgRepeats, logged := sent + out, last, repeats, logged + 1;
    }

    /** The failure branch of an attempt: report the error once the quiet period is over, then count the retry. */
    method Failed(err: string)
      requires Valid()
      modifies this
      ensures Valid() && success == old(success) && retries == old(retries) + 1
      ensures LogsOnly(old(sent), sent)
    {
      if retries * Wait > QuietPeriod {
        Log(err, true);
      }
      retries := retries + 1;
    }

    /**
     * One pass of the retry loop of `run`: the steps of the attempt up to
     * where it raises; `halfBaked` is left set only by a failure after the
     * configuration script was started.
     */
    method TryOnce(a: Attempt) returns (halfBaked: bool)
      requires Valid() && !success
      modifies this
      ensures Valid()
      ensures halfBaked <==> a.FailsAfterStart?
      ensures success <==> a.Completes?
      ensures retries == old(retries) + if a.Completes? then 0 else 1
      ensures LogsOnly(old(sent), sent)
    {
      halfBaked := false;
      ghost var s0 := sent;
      match a {
        case ConnectFails(err) =>
          Failed(err);
        case FailsBeforeStart(err) =>
          Log(Installing, verbose);
          ghost var s1 := sent;
          Failed(err);
          LogsOnlyTransitive(s0, s1, sent);
        case FailsAfterStart(err) =>
          Log(Installing, verbose);
          ghost var s1 := sent;
          Log(Starting, verbose);
          LogsOnlyTransitive(s0, s1, sent);
          ghost var s2 := sent;
          halfBaked := true;
          Failed(err);
          LogsOnlyTransitive(s0, s2, sent);
        case Completes =>
          Log(Installing, verbose);
          ghost var s1 := sent;
          Log(Starting, verbose);
          LogsOnlyTransitive(s0, s1, sent);
          ghost var s2 := sent;
          Log(Running, verbose);
          LogsOnlyTransitive(s0, s2, sent);
          success := true;
      }
    }

    /**
     * `run`: attempts follow `attempts` while neither `halfBaked` nor
     * `success` is set. A failure before the start of the configuration
     * script is retried without limit; one after it ends the loop. When the
     * loop ends, exactly one status is sent: success exactly when the last
     * attempt completed. Running out of `attempts` stands for a node that is
     * still being retried.
     */
    method Run(attempts: seq<Attempt>) returns (finished: bool)
      requires Valid() && !success
      modifies this
      ensures Valid()
      ensures finished <==> FirstWhere(attempts, Final) < |attempts|
      ensures finished ==> (success <==> attempts[FirstWhere(attempts, Final)] == Completes)
      ensures !finished ==> !success
      ensures retries == old(retries) + (if finished && success then FirstWhere(attempts, Final) else FirstWhere(attempts, Final) + if finished then 1 else 0)
      ensures finished ==> |sent| > |old(sent)| && sent[|sent| - 1] == Status(if success then MsgSuccess else MsgFailure)
      ensures forall k :: |old(sent)| <= k < |sent| - (if finished then 1 else 0) ==> !sent[k].Status?
    {
      var halfBaked := false;
      var i := 0;
      while !halfBaked && !success && i < |attempts|
        invariant Valid() && 0 <= i <= |attempts|
        invariant forall j :: 0 <= j < i - 1 ==> !Final(attempts[j])
        invariant !halfBaked && !success ==> i <= FirstWhere(attempts, Final) && retries == old(retries) + i
        invariant halfBaked ==> !success && 0 < i && i - 1 == FirstWhere(attempts, Final) && attempts[i - 1].FailsAfterStart? &&
                                retries == old(retries) + i
        invariant success ==> !halfBaked && 0 < i && i - 1 == FirstWhere(attempts, Final) && attempts[i - 1].Completes? &&
                              retries == old(retries) + i - 1
        invariant LogsOnly(old(sent), sent)
      {
        halfBaked := TryOnce(attempts[i]);
        i := i + 1;
      }
      finished := halfBaked || success;
      if finished {
        AccountedAppend(sent, Status(if success then MsgSuccess else MsgFailure));
        sent := sent + [Status(if success then MsgSuccess else MsgFailure)];
      }
    }
  }
}
