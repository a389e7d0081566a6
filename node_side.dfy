// The node side of an Ensemble cluster (`start_node.py`): how a node turns
// the configuration it was handed back into one dictionary per job, decides
// whether it is the head, fetches its input files, and what the head does
// while it waits for its clients, when it writes the MPI hosts file and when
// it ends the cluster.

module NodeSide {
  import opened Common
  import opened Text
  import EnsembleConfig

  const CfgStackKey := "cfgStack"

  /** Seconds between two polls of the head node. */
  const Wait := 10

  /** `60 * maxwaitMinutes`: the seconds the head waits for its clients before giving up. */
  const MaxWait := 600

  /** Download attempts per file in `checkedBucketRead`. */
  const MaxRetries := 20

  /** Where clients check in and where the head looks for them. */
  const ClientInfoDir := "/mnt/nfs-shared/clientnodeinfo/"

  // ----- the configuration stack -----

  /**
   * The parameters file as parsed: its plain keys, and the list held under
   * "cfgStack" when the file has one.
   */
  datatype Parameters = Parameters(top: Entry, cfgStack: Option<seq<Entry>>)

  /**
   * The jobs a node runs: with a "cfgStack" list, one per element, each the
   * top-level parameters except "cfgStack" overlaid by the element; without
   * one, a single copy of the parameters.
   */
  function Flattened(p: Parameters): (jobs: seq<Entry>)
  {
    match p.cfgStack
    case None => [p.top]
    case Some(stack) => seq(|stack|, n requires 0 <= n < |stack| => (p.top - {CfgStackKey}) + stack[n])
  }

  /** Every key of `src` but those in `omit` copied into `dst`, one at a time. */
  method Overlay(dst: Entry, src: Entry, omit: set<string>) returns (r: Entry)
    ensures r == dst + (src - omit)
  {
    r := dst;
    var todo := src.Keys;
    while todo != {}
      invariant todo <= src.Keys
      invariant r == dst + map k | k in src.Keys - todo && k !in omit :: src[k]
      decreases todo
    {
      var key :| key in todo;
      if key !in omit {
        r := r[key := src[key]];
      }
      todo := todo - {key};
    }
    assert src - omit == map k | k in src.Keys - todo && k !in omit :: src[k];
  }

  /** The nested loops that build `cfgStack` on the node. */
  method FlattenConfig(p: Parameters) returns (jobs: seq<Entry>)
    ensures jobs == Flattened(p)
  {
    match p.cfgStack {
      case None =>
        var job := Overlay(map[], p.top, {});
        assert job == p.top;
        jobs := [job];
      case Some(stack) =>
        jobs := [];
        for n := 0 to |stack|
          invariant |jobs| == n
          invariant forall j :: 0 <= j < n ==> jobs[j] == (p.top - {CfgStackKey}) + stack[j]
        {
          var common := Overlay(map[], p.top, {CfgStackKey});
          var job := Overlay(common, stack[n], {});
          jobs := jobs + [job];
        }
    }
  }

  /**
   * A job on the node reads what the launcher's own lookup read for that
   * configuration, when the launcher sent the whole stack (`cfgNum` < 0)
   * and the configuration holds no `None` for the key.
   */
  lemma FlattenFollowsLauncherRead(s: EnsembleConfig.Snapshot, j: int, key: string)
    requires 0 <= j < |s.entries| && key != CfgStackKey
    requires key in s.entries[j] ==> s.entries[j][key] != Null
    ensures var job := Flattened(Parameters(s.core, Some(s.entries)))[j];
            EnsembleConfig.Read(s.core, Some(s.entries[j]), key, Null, false, true)
              == Ok(if key in job then job[key] else Null)
  {
  }

  /**
   * The same for a parameter file without `cfgStack` that holds one job's
   * keys laid over the core's, as a hand-written single-job file does: the
   * job's keys win. (The launcher's own single-configuration text, written
   * with `cfgNum` >= 0, nests the entry object inside the core's and is not
   * such a file.)
   */
  lemma FlattenSingleFollowsLauncherRead(core: Entry, e: Entry, key: string)
    requires key in e ==> e[key] != Null
    ensures var jobs := Flattened(Parameters(core + e, None));
            |jobs| == 1 &&
            EnsembleConfig.Read(core, Some(e), key, Null, false, true) == Ok(if key in jobs[0] then jobs[0][key] else Null)
  {
  }

  // ----- head or client -----

  datatype Mode = Head | Client

  /** The first position of `id` in `ids`, or `|ids|` when it is absent. */
  function Position(ids: seq<string>, id: string): (i: nat)
    ensures i <= |ids|
    ensures i < |ids| <==> id in ids
    ensures i < |ids| ==> ids[i] == id
    ensures forall j :: 0 <= j < i ==> ids[j] != id
  {
    if ids == [] then 0 else if ids[0] == id then 0 else 1 + Position(ids[1..], id)
  }

  /**
   * The node's launch index as text: in spot mode (a launch group is set)
   * the position of its own instance id in the cluster's instance list, and
   * nothing when the id is not listed (the name is then unbound and the
   * script stops); otherwise the metadata's `ami-launch-index`.
   */
  method FindLaunchIndex(launchgroup: string, myId: string, instanceIds: seq<string>, metadataIndex: nat)
    returns (launchindex: Option<string>)
    ensures launchgroup == "" ==> launchindex == Some(NatToString(metadataIndex))
    ensures launchgroup != "" ==>
              launchindex == if myId in instanceIds then Some(NatToString(Position(instanceIds, myId))) else None
  {
    if launchgroup != "" {
      launchindex := None;
      for index := 0 to |instanceIds|
        invariant forall j :: 0 <= j < index ==> instanceIds[j] != myId
        invariant launchindex == None
      {
        if instanceIds[index] == myId {
          launchindex := Some(NatToString(index));
          return;
        }
      }
    } else {
      launchindex := Some(NatToString(metadataIndex));
    }
  }

  /** The node is the head exactly when its launch index reads "0". */
  function ModeOf(launchindex: string): (m: Mode)
    ensures m == Head <==> launchindex == "0"
  {
    if launchindex == "0" then Head else Client
  }

  /** In spot mode the head is the node listed first. */
  lemma SpotHeadIsListedFirst(instanceIds: seq<string>, myId: string)
    requires myId in instanceIds
    ensures ModeOf(NatToString(Position(instanceIds, myId))) == Head <==> instanceIds[0] == myId
  {
    HeadIsIndexZero(Position(instanceIds, myId));
  }

  /** A launch index makes a head node exactly when it is zero. */
  lemma HeadIsIndexZero(k: nat)
    ensures ModeOf(NatToString(k)) == Head <==> k == 0
  {
    if NatToString(k) == "0" {
      assert NatToString(0) == "0";
      NatToStringInjective(k, 0);
    }
  }

  /** The file a client writes to check in: named by its client id, the launch index less one. */
  function MarkerPath(launchindex: nat): (path: string)
    requires launchindex >= 1
    ensures StartsWith(path, ClientInfoDir + "client_")
  {
    ClientInfoDir + "client_" + NatToString(launchindex - 1)
  }

  /** The file the head reads for client `c` once every client is ready. */
  function HeadReadPath(c: nat): string
  {
    ClientInfoDir + "client_" + NatToString(c)
  }

  /**
   * Two clients never share a marker, and the client with launch index
   * `c + 1` writes the file the head reads as client `c`.
   */
  lemma MarkersDistinct(a: nat, b: nat)
    requires a >= 1 && b >= 1
    ensures MarkerPath(a) == MarkerPath(b) <==> a == b
    ensures MarkerPath(a) == HeadReadPath(a - 1)
  {
    var prefix := ClientInfoDir + "client_";
    if MarkerPath(a) == MarkerPath(b) {
      assert MarkerPath(a)[|prefix|..] == NatToString(a - 1);
      assert MarkerPath(b)[|prefix|..] == NatToString(b - 1);
      NatToStringInjective(a - 1, b - 1);
    }
  }

  // ----- checkedBucketRead -----

  /** The object in the bucket: its size and its etag, an MD5 in double quotes. */
  datatype S3Object = S3Object(size: nat, etag: string)

  /** What one download attempt left behind: an exception, or a local file of some size and MD5. */
  datatype Download = Raised | Downloaded(size: nat, md5: string)

  /**
   * An attempt counts only if the object exists and the local file has its
   * size and the MD5 of its etag with the quotes removed.
   */
  predicate Verified(remote: Option<S3Object>, d: Download)
  {
    remote.Some? && d.Downloaded? && d.size == remote.value.size && d.md5 == Replace(remote.value.etag, "\"", "")
  }

  /** One of the `MaxRetries` attempts at `fileName` would be verified. */
  ghost predicate Retrievable(remote: Option<S3Object>, fileName: string, attemptOf: (string, nat) -> Download)
  {
    exists i :: 0 <= i < MaxRetries && Verified(remote, attemptOf(fileName, i))
  }

  /**
   * The retry loop for one file: attempts until one is verified, at most
   * `MaxRetries`; after the `k`-th failure it sleeps a random number of
   * seconds in [3 + k, 15 + k), the window `randrange` is given.
   * `attemptOf(fileName, i)` is what attempt `i` would leave.
   */
  method FetchWithRetry(remote: Option<S3Object>, fileName: string, attemptOf: (string, nat) -> Download)
    returns (attempts: nat, sleeps: seq<nat>, ok: bool)
    ensures 1 <= attempts <= MaxRetries
    ensures forall i :: 0 <= i < attempts - 1 ==> !Verified(remote, attemptOf(fileName, i))
    ensures ok <==> Verified(remote, attemptOf(fileName, attempts - 1))
    ensures !ok ==> attempts == MaxRetries
    ensures ok <==> Retrievable(remote, fileName, attemptOf)
    ensures |sleeps| == if ok then attempts - 1 else attempts
    ensures forall k :: 0 <= k < |sleeps| ==> 3 + k <= sleeps[k] < 15 + k
  {
    attempts, sleeps, ok := 0, [], false;
    var retriesLeft := MaxRetries;
    while retriesLeft > 0
      invariant 0 <= retriesLeft <= MaxRetries
      invariant !ok ==> attempts == MaxRetries - retriesLeft && |sleeps| == attempts
      invariant ok ==> retriesLeft == 0 && 1 <= attempts <= MaxRetries && |sleeps| == attempts - 1
      invariant ok ==> Verified(remote, attemptOf(fileName, attempts - 1))
      invariant forall i :: 0 <= i < |sleeps| ==> !Verified(remote, attemptOf(fileName, i))
      invariant forall k :: 0 <= k < |sleeps| ==> 3 + k <= sleeps[k] < 15 + k
    {
      var d := attemptOf(fileName, attempts);
      attempts := attempts + 1;
      if Verified(remote, d) {
        ok := true;
        retriesLeft := 0;
      } else {
        var pause: nat :| MaxRetries + 3 - retriesLeft <= pause < MaxRetries + 15 - retriesLeft;
        sleeps := sleeps + [pause];
        retriesLeft := retriesLeft - 1;
      }
    }
  }

  /** What `checkedBucketRead` did for one file: where it went and whether a verified copy arrived. */
  datatype FileFetch = FileFetch(localFilename: string, attempts: nat, ok: bool)

  /**
   * `checkedBucketRead`: every `;`-separated name is fetched into
   * `dataDir`; a file whose attempts all fail is given up silently, and
   * every file, fetched or not, is then made readable. `chmodded` lists the
   * files the chmod was run on.
   */
  method CheckedBucketRead(fileNames: string, dataDir: string, remoteOf: string -> Option<S3Object>,
                           attemptOf: (string, nat) -> Download)
    returns (fetches: seq<FileFetch>, chmodded: seq<string>)
    ensures var names := Split(fileNames, ';');
            |fetches| == |names| && |chmodded| == |names| &&
            forall i :: 0 <= i < |names| ==>
              fetches[i].localFilename == dataDir + names[i] && chmodded[i] == dataDir + names[i] &&
              1 <= fetches[i].attempts <= MaxRetries &&
              (fetches[i].ok <==> Retrievable(remoteOf(names[i]), names[i], attemptOf))
  {
    var names := Split(fileNames, ';');
    fetches, chmodded := [], [];
    for i := 0 to |names|
      invariant |fetches| == i && |chmodded| == i
      invariant forall j :: 0 <= j < i ==>
                  fetches[j].localFilename == dataDir + names[j] && chmodded[j] == dataDir + names[j] &&
                  1 <= fetches[j].attempts <= MaxRetries &&
                  (fetches[j].ok <==> Retrievable(remoteOf(names[j]), names[j], attemptOf))
    {
      var fileName := names[i];
      var localFilename := dataDir + fileName;
      var attempts, _, ok := FetchWithRetry(remoteOf(fileName), fileName, attemptOf);
      fetches := fetches + [FileFetch(localFilename, attempts, ok)];
      chmodded := chmodded + [localFilename];
    }
  }

  // ----- the head's waits -----

  datatype WaitEnd = AllReady | GaveUp

  /**
   * A wait of the head node: `count(k)` is what poll `k` counts, and the
   * wait ends when it reaches `target`. Every poll that falls short sleeps
   * `Wait` seconds and adds them to `totalwait`; once that passes `MaxWait`
   * the head gives up through `myexit(1)`. `failures` is the number of
   * polls that fell short.
   */
  method AwaitCount(count: nat -> nat, target: nat, totalwait0: nat) returns (failures: nat, totalwait: nat, end: WaitEnd)
    requires totalwait0 <= MaxWait
    ensures totalwait == totalwait0 + Wait * failures
    ensures forall k :: 0 <= k < failures ==> count(k) != target
    ensures end == AllReady ==> count(failures) == target
    ensures end == GaveUp <==> totalwait > MaxWait
    ensures end == GaveUp ==> totalwait - Wait <= MaxWait
  {
    failures, totalwait := 0, totalwait0;
    while count(failures) != target
      invariant totalwait == totalwait0 + Wait * failures <= MaxWait
      invariant forall k :: 0 <= k < failures ==> count(k) != target
      decreases MaxWait - totalwait
    {
      failures := failures + 1;
      totalwait := totalwait + Wait;
      if totalwait > MaxWait {
        return failures, totalwait, GaveUp;
      }
    }
    end := AllReady;
  }

  /**
   * The wait for every client to report ready: the markers in the client
   * directory are counted from a fresh budget. The head gives up exactly
   * when none of the first `MaxWait / Wait + 1` polls sees every client.
   */
  method AwaitClientsReady(numready: nat -> nat, numClientNodes: nat) returns (failures: nat, totalwait: nat, end: WaitEnd)
    ensures end == GaveUp <==> forall k :: 0 <= k <= MaxWait / Wait ==> numready(k) != numClientNodes
    ensures end == AllReady ==> failures <= MaxWait / Wait && numready(failures) == numClientNodes
    ensures end == AllReady ==> totalwait == Wait * failures <= MaxWait
    ensures end == GaveUp ==> failures == MaxWait / Wait + 1
  {
    failures, totalwait, end := AwaitCount(numready, numClientNodes, 0);
  }

  /**
   * The pings of the clients, one client after the other, each until it
   * answers; every failed ping costs `Wait` seconds of the budget the
   * readiness wait started. `tries[c]` is the number of failed pings of
   * client `c`; when the head gives up, the last client in `tries` is the
   * one it was pinging.
   */
  method PingClients(numClients: nat, answers: (nat, nat) -> bool, totalwait0: nat)
    returns (tries: seq<nat>, totalwait: nat, end: WaitEnd)
    requires totalwait0 <= MaxWait
    ensures totalwait == totalwait0 + Wait * Sum(tries)
    ensures end == GaveUp <==> totalwait > MaxWait
    ensures end == GaveUp ==> totalwait - Wait <= MaxWait && 1 <= |tries| <= numClients
    ensures end == AllReady ==> |tries| == numClients
    ensures forall c :: 0 <= c < |tries| ==> forall k :: 0 <= k < tries[c] ==> !answers(c, k)
    ensures forall c :: 0 <= c < |tries| && (end == AllReady || c < |tries| - 1) ==> answers(c, tries[c])
  {
    tries, totalwait := [], totalwait0;
    for c := 0 to numClients
      invariant |tries| == c && totalwait == totalwait0 + Wait * Sum(tries) <= MaxWait
      invariant forall d :: 0 <= d < c ==> answers(d, tries[d]) && forall k :: 0 <= k < tries[d] ==> !answers(d, k)
    {
      var answered := (k: nat) => if answers(c, k) then 1 else 0;
      var failed, waited, e := AwaitCount(answered, 1, totalwait);
      assert forall k :: 0 <= k < failed ==> !answers(c, k) by {
        forall k | 0 <= k < failed ensures !answers(c, k) {
          assert answered(k) != 1;
        }
      }
      assert e == AllReady ==> answers(c, failed) by {
        if e == AllReady {
          assert answered(failed) == 1;
        }
      }
      SumAppend(tries, failed);
      tries := tries + [failed];
      totalwait := waited;
      if e == GaveUp {
        return tries, totalwait, GaveUp;
      }
    }
    end := AllReady;
  }

  function Sum(s: seq<nat>): nat
  {
    if s == [] then 0 else Sum(s[..|s| - 1]) + s[|s| - 1]
  }

  lemma SumAppend(s: seq<nat>, x: nat)
    ensures Sum(s + [x]) == Sum(s) + x
  {
    assert (s + [x])[..|s|] == s;
  }

  /**
   * The SSH wait as written: `count(k)` is the number of clients whose SSH
   * test has succeeded at poll `k`. A short poll sleeps but does not add to
   * `totalwait`, so the budget check can never fire once the earlier waits
   * kept within it: with clients that never answer, the head polls through
   * every one of `rounds` polls (running out of them stands for a loop that
   * is still waiting).
   */
  method AwaitSshAsWritten(count: nat -> nat, numClientNodes: nat, totalwait: nat, rounds: nat)
    returns (polls: nat, end: Option<WaitEnd>)
    ensures polls <= rounds
    ensures forall k :: 0 <= k < polls ==> count(k) != numClientNodes
    ensures end == Some(AllReady) ==> count(polls) == numClientNodes
    ensures end == None ==> polls == rounds
    ensures totalwait <= MaxWait ==> end != Some(GaveUp)
  {
    polls := 0;
    while polls < rounds
      invariant polls <= rounds
      invariant forall k :: 0 <= k < polls ==> count(k) != numClientNodes
    {
      if count(polls) == numClientNodes {
        return polls, Some(AllReady);
      }
      polls := polls + 1;
      if totalwait > MaxWait {
        return polls, Some(GaveUp);
      }
    }
    end := None;
  }

  /**
   * The SSH wait charging its sleeps to the budget, as the two waits before
   * it do: after the readiness wait and the pings have used `totalwait`,
   * the head gives up exactly when none of the polls the rest of the budget
   * pays for sees every client.
   */
  method AwaitSsh(count: nat -> nat, numClientNodes: nat, totalwait0: nat) returns (failures: nat, totalwait: nat, end: WaitEnd)
    requires totalwait0 <= MaxWait
    ensures end == GaveUp <==>
              forall k :: 0 <= k <= (MaxWait - totalwait0) / Wait ==> count(k) != numClientNodes
    ensures end == GaveUp ==> failures == (MaxWait - totalwait0) / Wait + 1
  {
    failures, totalwait, end := AwaitCount(count, numClientNodes, totalwait0);
  }

  // ----- the MPI hosts file -----

  /**
   * The slots the head offers: with Open MPI its own setting, raised to one
   * only when there are no clients and the setting is zero; otherwise one
   * more than its setting.
   */
  function HeadSlots(openMPI: bool, numClientNodes: nat, mpiSlotsOnHead: nat): (slots: nat)
    ensures slots == 0 <==> openMPI && mpiSlotsOnHead == 0 && numClientNodes > 0
    ensures !openMPI ==> slots == mpiSlotsOnHead + 1
    ensures openMPI && (numClientNodes > 0 || mpiSlotsOnHead > 0) ==> slots == mpiSlotsOnHead
  {
    if openMPI then (if numClientNodes == 0 && mpiSlotsOnHead == 0 then 1 else mpiSlotsOnHead)
    else mpiSlotsOnHead + 1
  }

  /** One line of the hosts file: "ip slots=n" for Open MPI, "ip:n" otherwise. */
  function HostLine(openMPI: bool, ip: string, slots: nat): string
  {
    if openMPI then ip + " slots=" + NatToString(slots) + "\n" else ip + ":" + NatToString(slots) + "\n"
  }

  /** The hosts file, line by line: the head (its address without trailing blanks), then every client. */
  method WriteHostsFile(openMPI: bool, headIp: string, clientIps: seq<string>, mpiSlotsOnHead: nat, mpiSlotsPerClient: nat)
    returns (lines: seq<string>)
    ensures |lines| == |clientIps| + 1
    ensures lines[0] == HostLine(openMPI, StripRight(headIp), HeadSlots(openMPI, |clientIps|, mpiSlotsOnHead))
    ensures forall c :: 0 <= c < |clientIps| ==> lines[c + 1] == HostLine(openMPI, clientIps[c], mpiSlotsPerClient)
  {
    var slotsOnHead := mpiSlotsOnHead;
    if openMPI {
      if |clientIps| == 0 && slotsOnHead == 0 {
        slotsOnHead := 1;
      }
    } else {
      slotsOnHead := slotsOnHead + 1;
    }
    lines := [HostLine(openMPI, StripRight(headIp), slotsOnHead)];
    for c := 0 to |clientIps|
      invariant |lines| == c + 1
      invariant lines[0] == HostLine(openMPI, StripRight(headIp), HeadSlots(openMPI, |clientIps|, mpiSlotsOnHead))
      invariant forall d :: 0 <= d < c ==> lines[d + 1] == HostLine(openMPI, clientIps[d], mpiSlotsPerClient)
    {
      lines := lines + [HostLine(openMPI, clientIps[c], mpiSlotsPerClient)];
    }
  }

  predicate IsDigit(c: char)
  {
    '0' <= c <= '9'
  }

  predicate AllDigits(s: string)
  {
    |s| >= 1 && forall i :: 0 <= i < |s| ==> IsDigit(s[i])
  }

  /** The number a run of decimal digits stands for. */
  function ParseNat(s: string): nat
    requires AllDigits(s)
  {
    var c := s[|s| - 1];
    assert IsDigit(c);
    var d: nat := (c as int) - ('0' as int);
    if |s| == 1 then d else 10 * ParseNat(s[..|s| - 1]) + d
  }

  /** Reading a printed number back gives the number. */
  lemma {:induction false} ParseNatToString(n: nat)
    ensures AllDigits(NatToString(n)) && ParseNat(NatToString(n)) == n
    decreases n
  {
    var s := NatToString(n);
    if n >= 10 {
      ParseNatToString(n / 10);
      assert s[..|s| - 1] == NatToString(n / 10);
      assert s == NatToString(n / 10) + [DigitChar(n % 10)];
    }
  }

  /** How a line of the hosts file reads back: the address before the last separator, the slots after it. */
  function ParseHostLine(openMPI: bool, line: string): (r: Option<(string, nat)>)
  {
    if |line| == 0 || line[|line| - 1] != '\n' then None
    else
      var body := line[..|line| - 1];
      var k := LastIndexOf(body, if openMPI then ' ' else ':');
      if k < 0 then None
      else
        var rest := body[k + 1..];
        var count := if !openMPI then rest else if StartsWith(rest, "slots=") then rest[6..] else "";
        if AllDigits(count) then Some((body[..k], ParseNat(count))) else None
  }

  /** The last separator of `prefix + tail` is the first character of `tail` when the rest of it holds none. */
  lemma {:induction false} LastSeparator(prefix: string, tail: string, sep: char)
    requires |tail| >= 1 && tail[0] == sep && sep !in tail[1..]
    ensures LastIndexOf(prefix + tail, sep) == |prefix|
    decreases |tail|
  {
    var s := prefix + tail;
    if |tail| > 1 {
      assert tail[|tail| - 1] in tail[1..];
      assert s[..|s| - 1] == prefix + tail[..|tail| - 1];
      assert tail[..|tail| - 1][1..] == tail[1..|tail| - 1];
      assert forall x :: x in tail[1..|tail| - 1] ==> x in tail[1..];
      LastSeparator(prefix, tail[..|tail| - 1], sep);
    }
  }

  /** A line made of an address, a separator and a tail free of it reads back as the address and the tail. */
  lemma ParseBody(openMPI: bool, ip: string, tail: string)
    requires |tail| >= 1 && tail[0] == (if openMPI then ' ' else ':') && (if openMPI then ' ' else ':') !in tail[1..]
    ensures var line := ip + tail + "\n";
            var rest := tail[1..];
            var count := if !openMPI then rest else if StartsWith(rest, "slots=") then rest[6..] else "";
            ParseHostLine(openMPI, line) == if AllDigits(count) then Some((ip, ParseNat(count))) else None
  {
    var line := ip + tail + "\n";
    assert line[..|line| - 1] == ip + tail;
    LastSeparator(ip, tail, if openMPI then ' ' else ':');
    assert (ip + tail)[..|ip|] == ip;
    assert (ip + tail)[|ip| + 1..] == tail[1..];
  }

  /** Every line of the hosts file reads back as the address and the slots it was written with. */
  lemma HostLineRoundTrip(openMPI: bool, ip: string, slots: nat)
    ensures ParseHostLine(openMPI, HostLine(openMPI, ip, slots)) == Some((ip, slots))
  {
    var digits := NatToString(slots);
    ParseNatToString(slots);
    var sep := if openMPI then ' ' else ':';
    var rest := if openMPI then "slots=" + digits else digits;
    assert sep !in rest by {
      forall i | 0 <= i < |digits| ensures digits[i] != sep {
        assert IsDigit(digits[i]);
      }
    }
    var tail := [sep] + rest;
    assert tail[1..] == rest;
    assert HostLine(openMPI, ip, slots) == ip + tail + "\n";
    ParseBody(openMPI, ip, tail);
    if openMPI {
      assert StartsWith(rest, "slots=");
      assert rest[6..] == digits;
    }
  }

  // ----- myexit -----

  /** The instances other than `me`, in their listed order. */
  function Others(ids: seq<string>, me: string): (r: seq<string>)
    ensures forall x :: x in r <==> x in ids && x != me
    ensures |r| <= |ids|
    ensures me in ids ==> |r| < |ids|
  {
    if ids == [] then []
    else if ids[0] == me then Others(ids[1..], me)
    else [ids[0]] + Others(ids[1..], me)
  }

  /** A setting is on only when present and exactly the text "True". */
  predicate Setting(parameters: Entry, key: string)
  {
    key in parameters && parameters[key] == Str("True")
  }

  /** What `myexit` ends: the instances it terminates and whether the node shuts itself down. */
  datatype ExitPlan = ExitPlan(terminated: seq<string>, shutdown: bool, code: int)

  /**
   * `myexit`: a client just exits; the head terminates every listed
   * instance but itself unless "keepClients" is set, and shuts itself down
   * unless "keepHead" is set.
   */
  method MyExit(mode: Mode, parameters: Entry, myId: string, instanceIds: seq<string>, exitcode: int)
    returns (plan: ExitPlan)
    ensures plan.code == exitcode
    ensures mode == Client ==> plan.terminated == [] && !plan.shutdown
    ensures mode == Head ==> plan.shutdown == !Setting(parameters, "keepHead")
    ensures mode == Head ==> plan.terminated == if Setting(parameters, "keepClients") then [] else Others(instanceIds, myId)
  {
    if mode == Client {
      return ExitPlan([], false, exitcode);
    }
    var keepClients := "keepClients" in parameters && parameters["keepClients"] == Str("True");
    var terminated: seq<string> := [];
    if !keepClients {
      for i := 0 to |instanceIds|
        invariant terminated == Others(instanceIds[..i], myId)
      {
        OthersAppend(instanceIds[..i], instanceIds[i], myId);
        assert instanceIds[..i + 1] == instanceIds[..i] + [instanceIds[i]];
        if myId != instanceIds[i] {
          terminated := terminated + [instanceIds[i]];
        }
      }
      assert instanceIds[..|instanceIds|] == instanceIds;
    }
    var keepHead := "keepHead" in parameters && parameters["keepHead"] == Str("True");
    plan := ExitPlan(terminated, !keepHead, exitcode);
  }

  lemma {:induction false} OthersAppend(ids: seq<string>, x: string, me: string)
    ensures Others(ids + [x], me) == Others(ids, me) + (if x == me then [] else [x])
    decreases |ids|
  {
    if ids == [] {
      assert [x][1..] == [];
    } else {
      assert (ids + [x])[1..] == ids[1..] + [x];
      OthersAppend(ids[1..], x, me);
    }
  }
}
