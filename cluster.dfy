/**
 * LogCabinRaftClusterConfig: the cluster controller that launches the
 * LogCabin nodes, writes their configuration and keeps the id -> pid table.
 *
 * The operating system is not modelled. The outcome of createProcess is an
 * input pid (-1 when the process could not be created), and the outcome of
 * stopProcess is an input predicate over pids. `exit(1)` in launchCluster
 * becomes an error outcome.
 */
module LogCabinCluster {
  import opened Wrappers
  import opened LogCabinRender

  /** What launchCluster ends with: success, or one of its two fatal exits. */
  datatype LaunchOutcome =
    | Launched(confText: string, reconfigure: string)
    | ConfWriteFailed
    | NodeLaunchFailed(id: int)

  /** The paths launchCluster derives from the harness root directory. */
  function StorageDir(rootDir: string): string { rootDir + "/teststorage/logcabin" }
  function ConfFilePath(rootDir: string): string { rootDir + "/teststorage/logcabin.conf" }
  function ReconfigureProgram(rootDir: string): string { rootDir + "/logcabin/build/Examples/Reconfigure" }

  /** The number of leading successful process creations. */
  function LeadingSuccesses(pids: seq<int>): (k: nat)
    ensures k <= |pids|
    ensures forall j :: 0 <= j < k ==> pids[j] != -1
    ensures k < |pids| ==> pids[k] == -1
  {
    if |pids| == 0 || pids[0] == -1 then 0 else 1 + LeadingSuccesses(pids[1..])
  }

  /** The table after launching nodes `first`..`first + n - 1` with the first `n` pids, in order. */
  function PidTable(first: int, pids: seq<int>, n: nat): map<int, int>
    requires n <= |pids|
  {
    if n == 0 then map[]
    else PidTable(first, pids, n - 1)[first + n - 1 := pids[n - 1]]
  }

  /** The launched table holds exactly the launched ids, each with its own pid. */
  lemma {:induction false} PidTableContents(first: int, pids: seq<int>, n: nat)
    requires n <= |pids|
    ensures forall id :: id in PidTable(first, pids, n) <==> first <= id < first + n
    ensures forall id :: id in PidTable(first, pids, n) ==> PidTable(first, pids, n)[id] == pids[id - first]
  {
    if n > 0 {
      PidTableContents(first, pids, n - 1);
    }
  }

  /** The launch loop runs to the end exactly when every process creation succeeds. */
  lemma LaunchesAll(pids: seq<int>)
    ensures LeadingSuccesses(pids) == |pids| <==> forall j :: 0 <= j < |pids| ==> pids[j] != -1
  {
  }

  /** The table after stopCluster: no id of `first`..`last` is left, every other entry is kept. */
  function ClearIds(m: map<int, int>, first: int, last: int): (r: map<int, int>)
    ensures forall id :: first <= id <= last ==> id !in r
    ensures forall id :: id in m && (id < first || last < id) ==> id in r && r[id] == m[id]
    ensures r.Keys <= m.Keys
  {
    map id | id in m && (id < first || last < id) :: m[id]
  }

  /** The ids, in increasing order, for which stopCluster reports "Failed to kill node". */
  function FailedKills(m: map<int, int>, first: int, last: int, stopOk: int -> bool): seq<int>
    decreases last - first
  {
    if last < first then []
    else FailedKills(m, first, last - 1, stopOk)
         + (if last in m && stopOk(m[last]) then [] else [last])
  }

  /**
   * An id is reported exactly when it is in the range and either has no
   * process recorded or stopping its process failed.
   */
  lemma {:induction false} FailedKillsMeaning(m: map<int, int>, first: int, last: int, stopOk: int -> bool)
    ensures forall id :: id in FailedKills(m, first, last, stopOk)
              <==> first <= id <= last && (id !in m || !stopOk(m[id]))
    decreases last - first
  {
    if first <= last {
      FailedKillsMeaning(m, first, last - 1, stopOk);
    }
  }

  /** The reports come in increasing id order, each id at most once. */
  lemma {:induction false} FailedKillsAscending(m: map<int, int>, first: int, last: int, stopOk: int -> bool)
    ensures forall i :: 0 <= i < |FailedKills(m, first, last, stopOk)| ==>
              first <= FailedKills(m, first, last, stopOk)[i] <= last
    ensures forall i, j :: 0 <= i < j < |FailedKills(m, first, last, stopOk)| ==>
              FailedKills(m, first, last, stopOk)[i] < FailedKills(m, first, last, stopOk)[j]
    decreases last - first
  {
    if first <= last {
      FailedKillsAscending(m, first, last - 1, stopOk);
      var f := FailedKills(m, first, last - 1, stopOk);
      if !(last in m && stopOk(m[last])) {
        var g := f + [last];
        assert FailedKills(m, first, last, stopOk) == g;
        forall i, j | 0 <= i < j < |g| ensures g[i] < g[j] {
          assert g[i] == f[i];
          if j < |f| {
            assert g[j] == f[j];
          }
        }
      }
    }
  }

  /**
   * Teardown is idempotent: once a range has been cleared, clearing it again
   * changes nothing and every id of the range is reported as not found.
   */
  lemma {:induction false} StopTwiceReportsEveryNode(m: map<int, int>, first: int, last: int, stopOk: int -> bool)
    ensures ClearIds(ClearIds(m, first, last), first, last) == ClearIds(m, first, last)
    ensures FailedKills(ClearIds(m, first, last), first, last, stopOk) == NodeIds(first, last)
    decreases last - first
  {
    var c := ClearIds(m, first, last);
    if first <= last {
      FailedKillsUntracked(c, first, last - 1, stopOk);
      assert last !in c;
    }
  }

  /** When no id of the range is tracked, every id of the range is reported. */
  lemma {:induction false} FailedKillsUntracked(m: map<int, int>, first: int, last: int, stopOk: int -> bool)
    requires forall id :: first <= id <= last ==> id !in m
    ensures FailedKills(m, first, last, stopOk) == NodeIds(first, last)
    decreases last - first
  {
    if first <= last {
      FailedKillsUntracked(m, first, last - 1, stopOk);
    }
  }

  /** Stopping a fully launched cluster leaves nothing in the table. */
  lemma ClearLaunched(pids: seq<int>)
    ensures ClearIds(PidTable(1, pids, |pids|), 1, |pids|) == map[]
  {
    PidTableContents(1, pids, |pids|);
  }

  /** When every node of the range is tracked and stops, nothing is reported. */
  lemma {:induction false} FailedKillsNone(m: map<int, int>, first: int, last: int, stopOk: int -> bool)
    requires forall id :: first <= id <= last ==> id in m && stopOk(m[id])
    ensures FailedKills(m, first, last, stopOk) == []
    decreases last - first
  {
    if first <= last {
      FailedKillsNone(m, first, last - 1, stopOk);
    }
  }

  class ClusterConfig {
    var clusterPort: int
    var numNodes: int
    var confFile: string
    var id2pid: map<int, int>

    /** A controller that has launched nothing yet. */
    constructor ()
      ensures clusterPort == 0 && numNodes == 0 && confFile == "" && id2pid == map[]
    {
      clusterPort, numNodes, confFile, id2pid := 0, 0, "", map[];
    }

    function FirstNodeId(): int { 1 }

    function LastNodeId(): int
      reads this
    {
      numNodes
    }

    /**
     * writeConfFile: when the file at `confFile` can be opened, writes the
     * configuration for the current nodes and port; otherwise writes nothing
     * and reports failure.
     */
    method WriteConfFile(storageDir: string, canOpen: bool) returns (ok: bool, text: string)
      ensures ok == canOpen
      ensures text == if canOpen then ConfText(storageDir, FirstNodeId(), LastNodeId(), clusterPort) else ""
    {
      if !canOpen {
        return false, "";
      }
      text := StorageModuleLine + "\n" + "storagePath = " + storageDir + "\n";
      text := text + "servers = ";
      var servers := RenderServerList(FirstNodeId(), LastNodeId(), clusterPort);
      text := text + servers + "\n";
      ok := true;
    }

    /**
     * launchNode: records the new process under `id` when process creation
     * succeeded (`pid != -1`); on failure the table is unchanged.
     */
    method LaunchNode(id: int, pid: int) returns (ok: bool)
      modifies this`id2pid
      ensures ok <==> pid != -1
      ensures id2pid == if ok then old(id2pid)[id := pid] else old(id2pid)
    {
      if pid == -1 {
        return false;
      }
      id2pid := id2pid[id := pid];
      ok := true;
    }

    /**
     * killNode: fails on an id with no recorded process; otherwise removes
     * that one entry and reports whether stopping the recorded process
     * succeeded.
     */
    method KillNode(id: int, stopOk: int -> bool) returns (ok: bool)
      modifies this`id2pid
      ensures ok <==> id in old(id2pid) && stopOk(old(id2pid)[id])
      ensures id2pid == old(id2pid) - {id}
    {
      if id !in id2pid {
        return false;
      }
      var pid := id2pid[id];
      id2pid := id2pid - {id};
      ok := stopOk(pid);
    }

    /**
     * stopCluster: kills every node of the cluster, best effort, and returns
     * the ids it reports as failed. No node of the cluster stays in the table.
     */
    method StopCluster(stopOk: int -> bool) returns (failed: seq<int>)
      modifies this`id2pid
      ensures id2pid == ClearIds(old(id2pid), FirstNodeId(), LastNodeId())
      ensures failed == FailedKills(old(id2pid), FirstNodeId(), LastNodeId(), stopOk)
    {
      failed := [];
      var id := FirstNodeId();
      while id <= LastNodeId()
        invariant FirstNodeId() <= id <= LastNodeId() + 1 || (id == FirstNodeId() && LastNodeId() < FirstNodeId())
        invariant id2pid == ClearIds(old(id2pid), FirstNodeId(), id - 1)
        invariant failed == FailedKills(old(id2pid), FirstNodeId(), id - 1, stopOk)
      {
        var killed := KillNode(id, stopOk);
        if !killed {
          failed := failed + [id];
        }
        id := id + 1;
      }
    }

    /**
     * The launch loop of launchCluster: starts nodes firstNodeId..lastNodeId in
     * order and stops at the first that cannot be created, returning its id.
     */
    method LaunchNodes(pids: seq<int>) returns (failedId: Option<int>)
      requires id2pid == map[] && |pids| == numNodes
      modifies this`id2pid
      ensures var k := LeadingSuccesses(pids);
              && id2pid == PidTable(FirstNodeId(), pids, k)
              && failedId == if k < |pids| then Some(FirstNodeId() + k) else None
    {
      var id := FirstNodeId();
      while id <= LastNodeId()
        invariant 1 <= id <= numNodes + 1
        invariant id - 1 <= LeadingSuccesses(pids)
        invariant id2pid == PidTable(1, pids, id - 1)
      {
        var launched := LaunchNode(id, pids[id - 1]);
        if !launched {
          assert LeadingSuccesses(pids) == id - 1;
          return Some(id);
        }
        id := id + 1;
      }
      failedId := None;
    }

    /**
     * launchCluster: empties the table and sets the port, node count and
     * configuration path before anything is launched; then writes the
     * configuration, launches nodes 1..nNodes in order and builds the
     * reconfigure command. A configuration that cannot be written, or a node
     * that cannot be launched, ends the run.
     */
    method LaunchCluster(nNodes: int, port: int, rootDir: string, confOpens: bool, pids: seq<int>)
      returns (r: LaunchOutcome)
      requires nNodes >= 1
      requires |pids| == nNodes
      modifies this
      ensures clusterPort == port && numNodes == nNodes && confFile == ConfFilePath(rootDir)
      ensures !confOpens ==> r == ConfWriteFailed && id2pid == map[]
      ensures confOpens ==>
        var k := LeadingSuccesses(pids);
        && id2pid == PidTable(1, pids, k)
        && r == if k < nNodes then NodeLaunchFailed(1 + k)
                else Launched(ConfText(StorageDir(rootDir), 1, nNodes, port),
                              ReconfigureCommand(ReconfigureProgram(rootDir), 1, nNodes, port))
    {
      id2pid := map[];
      clusterPort := port;
      numNodes := nNodes;
      var storageDir := StorageDir(rootDir);
      confFile := ConfFilePath(rootDir);
      var ok, text := WriteConfFile(storageDir, confOpens);
      if !ok {
        return ConfWriteFailed;
      }
      var failedId := LaunchNodes(pids);
      if failedId.Some? {
        return NodeLaunchFailed(failedId.value);
      }
      var cmd := RenderReconfigureCommand(ReconfigureProgram(rootDir), FirstNodeId(), LastNodeId(), clusterPort);
      r := Launched(text, cmd);
    }
  }

  /**
   * One test case's use of a fresh controller: launch the cluster and, when
   * the launch succeeded, stop it. A failed launch ends the program with
   * `exit(1)` before stopCluster is reached, so the nodes launched before
   * the failure are still in the table (and still running).
   */
  method RunCluster(nNodes: int, port: int, rootDir: string, confOpens: bool, pids: seq<int>, stopOk: int -> bool)
    returns (outcome: LaunchOutcome, failed: seq<int>, remaining: map<int, int>)
    requires nNodes >= 1
    requires |pids| == nNodes
    ensures outcome.Launched? <==> confOpens && forall j :: 0 <= j < |pids| ==> pids[j] != -1
    ensures outcome.Launched? ==> remaining == map[] && failed == FailedKills(PidTable(1, pids, nNodes), 1, nNodes, stopOk)
    ensures outcome.Launched? && (forall j :: 0 <= j < |pids| ==> stopOk(pids[j])) ==> failed == []
    ensures outcome.ConfWriteFailed? <==> !confOpens
    ensures outcome.ConfWriteFailed? ==> failed == [] && remaining == map[]
    ensures outcome.NodeLaunchFailed? ==>
              && outcome.id == 1 + LeadingSuccesses(pids)
              && failed == []
              && remaining == PidTable(1, pids, LeadingSuccesses(pids))
  {
    var config := new ClusterConfig();
    outcome := config.LaunchCluster(nNodes, port, rootDir, confOpens, pids);
    LaunchesAll(pids);
    failed := [];
    if outcome.Launched? {
      ghost var launched := config.id2pid;
      failed := config.StopCluster(stopOk);
      ClearLaunched(pids);
      if forall j :: 0 <= j < |pids| ==> stopOk(pids[j]) {
        PidTableContents(1, pids, nNodes);
        forall id | 1 <= id <= nNodes ensures id in launched && stopOk(launched[id]) {
          assert launched[id] == pids[id - 1];
        }
        FailedKillsNone(launched, 1, nNodes, stopOk);
      }
    }
    remaining := config.id2pid;
  }
}
