# LogCabin cluster controller, modelled in Dafny

This project models `LogCabinRaftClusterConfig`, the cluster controller of the
RaftMonitor fault-injection harness for the LogCabin consensus backend. The
controller does three things:

- It derives each node's address from its id. Node `n` is `192.168.2.<n>`, and
  its member address is `192.168.2.<n>:<clusterPort>`.
- It renders the LogCabin configuration file and the command line of the
  `Reconfigure` helper, which commits the initial membership.
- It keeps the `id2pid` table from node id to process id. `launchCluster`
  clears the table, `launchNode` adds to it, `killNode` removes from it, and
  `stopCluster` walks every id of the cluster.

Files:

- `wrappers.dfy`: module `Wrappers`, the `Option` type.
- `decimal.dfy`: module `Decimal`. This is `std::to_string(int)` as `FromInt`,
  with its inverse `ParseInt` and the round trip between them.
- `text.dfy`: module `Text`. It holds `Join` (parts separated by one
  character), `Prefixed` (each part preceded by one character) and `SplitOn`
  (split at every separator). Both round trips are proved: `SplitJoin` and
  `JoinSplit`.
- `render.dfy`: module `LogCabinRender`. These are the pure members
  `getHost` and `getHostPort`, the configuration text, and the two
  string-building loops (the `first`-flag loop of `writeConfFile` and the `+=`
  loop of `launchCluster`). Each loop is a method proved against a function.
- `cluster.dfy`: module `LogCabinCluster`, the class `ClusterConfig`. Its
  fields are `clusterPort`, `numNodes`, `confFile` and `id2pid`. Each method
  that changes the object names what it changes in `modifies` and states the
  whole new state. This module also holds the specification functions of the
  table and the lemmas about them.

The environment is given as inputs:

- `createProcess` gives a pid per node; `-1` means creation failed.
- `stopProcess` is a predicate `stopOk` over pids.
- Whether the configuration file opens is the boolean `canOpen` / `confOpens`.
- `RaftEnv::rootDir` is the string `rootDir`.
- Both `exit(1)` paths of `launchCluster` become values of `LaunchOutcome`:
  `ConfWriteFailed` and `NodeLaunchFailed(id)`.
- The "Failed to kill node" messages of `stopCluster` become the list of ids
  it returns.

Assumptions about code that is not part of this model:

- `firstNodeId()` and `lastNodeId()` are declared in `lg-client.h`, which is
  not part of this model. They are taken to be `1` and `numNodes`, in
  `ClusterConfig.FirstNodeId` and `ClusterConfig.LastNodeId`.
- The class constructor is also in that header. The model's constructor
  starts with port 0, no nodes, an empty configuration path and an empty
  table.

Two behaviours of the code that a reader might not expect, both modelled as
written:

- A node that fails to launch ends the whole program with `exit(1)`, not just
  the current test case. The nodes launched before it are never stopped;
  `RunCluster` returns them in the table.
- `stopCluster` removes only the ids `firstNodeId()..lastNodeId()`, so it does
  not always empty the table. An entry that `launchNode` added for an id
  outside that range stays.

## Model

| member | source | states |
|---|---|---|
| `Decimal.DigitsShape` | clients/logcabin/lg-client.cpp:18 | the decimal rendering of a natural number is all digits, with a leading zero only for 0 |
| `Decimal.FromIntShape` | clients/logcabin/lg-client.cpp:18 | `std::to_string` of an int is non-empty, has a leading '-' exactly for negative values, and digits everywhere else |
| `Decimal.ParseIntRoundTrip` | clients/logcabin/lg-client.cpp:18 | every rendered integer reads back as itself |
| `Decimal.FromIntInjective` | clients/logcabin/lg-client.cpp:18 | distinct integers render differently |
| `LogCabinRender.Host` | clients/logcabin/lg-client.cpp:16-19 | getHost: the address is `192.168.2.` followed by text that reads back as the node number |
| `LogCabinRender.HostPortExtendsHost` | clients/logcabin/lg-client.cpp:16-24 | getHostPort's address is getHost's address for the node, a colon and the decimal cluster port |
| `LogCabinRender.HostPortRoundTrip` | clients/logcabin/lg-client.cpp:21-24 | a member address reads back as the node id and the port it was made from |
| `LogCabinRender.DistinctNodesDistinctAddresses` | clients/logcabin/lg-client.cpp:21-24 | two different node ids never get the same member address |
| `LogCabinRender.NodeIds` | clients/logcabin/lg-client.cpp:39 | the loop's ids from first to last: last-first+1 of them, increasing by one |
| `LogCabinRender.RenderServerList` | clients/logcabin/lg-client.cpp:37-47 | the `first`-flag loop writes the member addresses of first..last joined by single ';' |
| `LogCabinRender.ServerListEntries` | clients/logcabin/lg-client.cpp:37-47 | splitting the member list at ';' gives exactly the addresses of first..last in id order, last-first+1 entries |
| `LogCabinRender.ServerListEdges` | clients/logcabin/lg-client.cpp:38-46 | the member list is non-empty and has no ';' before its first entry or after its last |
| `LogCabinRender.ServerEntriesDistinct` | clients/logcabin/lg-client.cpp:37-47 | no member address appears twice in the list |
| `LogCabinRender.ConfTextLines` | clients/logcabin/lg-client.cpp:35-48 | the configuration is exactly three newline-ended lines: `storageModule = filesystem`, `storagePath = <dir>`, `servers = <list>` |
| `LogCabinRender.ThreeNodeAddresses` | clients/logcabin/lg-client.cpp:21-24 | nodes 1, 2 and 3 on port 61023 have the member addresses 192.168.2.1:61023, 192.168.2.2:61023 and 192.168.2.3:61023 |
| `LogCabinRender.ThreeNodeServerList` | clients/logcabin/lg-client.cpp:37-47 | the three-node cluster on port 61023 lists 192.168.2.1:61023, 192.168.2.2:61023 and 192.168.2.3:61023 |
| `LogCabinRender.RenderReconfigureCommand` | clients/logcabin/lg-client.cpp:93-97 | the `+=` loop yields the program path followed by " host:port" for each id in increasing order |
| `LogCabinRender.ReconfigureArguments` | clients/logcabin/lg-client.cpp:93-98 | split into words, the command is the program followed by one argument per node, in id order |
| `LogCabinCluster.ClusterConfig.WriteConfFile` | clients/logcabin/lg-client.cpp:26-52 | fails exactly when the file cannot be opened and then writes nothing; otherwise writes the configuration for nodes firstNodeId..lastNodeId on the stored port |
| `LogCabinCluster.ClusterConfig.LaunchNode` | clients/logcabin/lg-client.cpp:112-137 | a failed creation (pid -1) returns false and leaves the table unchanged; otherwise the id maps to the new pid and no other entry changes |
| `LogCabinCluster.ClusterConfig.KillNode` | clients/logcabin/lg-client.cpp:139-148 | an unknown id returns false and changes nothing; a known id loses exactly its entry whatever the stop result, and the result is whether stopping its recorded pid succeeded |
| `LogCabinCluster.ClusterConfig.StopCluster` | clients/logcabin/lg-client.cpp:101-110 | no id of the cluster is left in the table, even when kills fail; other entries are kept; the ids reported as failed are characterised by FailedKills |
| `LogCabinCluster.ClusterConfig.LaunchCluster` | clients/logcabin/lg-client.cpp:54-99 | sets port, node count and configuration path and empties the table first; a configuration that cannot be opened exits with an empty table; otherwise nodes launch in order until the first failure, which exits, and a full launch yields the configuration text and the reconfigure command |
| `LogCabinCluster.ClusterConfig.LaunchNodes` | clients/logcabin/lg-client.cpp:82-89 | starting from an empty table, launches nodes in id order until the first failed creation; the table then holds exactly the nodes before it, and the failed id is returned |
| `LogCabinCluster.LeadingSuccesses` | clients/logcabin/lg-client.cpp:82-89 | the launch loop's stopping point: every earlier creation succeeded and the one there, if any, failed |
| `LogCabinCluster.PidTableContents` | clients/logcabin/lg-client.cpp:82-89 | after launching n nodes the table holds exactly ids first..first+n-1, each with the pid created for it |
| `LogCabinCluster.ClearIds` | clients/logcabin/lg-client.cpp:101-110 | after stopping, no id of the range remains and every entry outside it is kept unchanged |
| `LogCabinCluster.FailedKillsMeaning` | clients/logcabin/lg-client.cpp:101-110 | an id is reported as failed exactly when it is in the range and either has no recorded process or stopping that process failed |
| `LogCabinCluster.FailedKillsAscending` | clients/logcabin/lg-client.cpp:103-108 | the failures are reported in increasing id order, each at most once, all inside the range |
| `LogCabinCluster.FailedKillsNone` | clients/logcabin/lg-client.cpp:101-110 | when every node of the range is tracked and stops, no failure is reported |
| `LogCabinCluster.FailedKillsUntracked` | clients/logcabin/lg-client.cpp:101-110 | stopping a range none of whose ids are tracked reports every id of the range |
| `LogCabinCluster.StopTwiceReportsEveryNode` | clients/logcabin/lg-client.cpp:101-110 | a second stopCluster changes nothing and reports every node as not found |
| `LogCabinCluster.RunCluster` | clients/logcabin/lg-client.cpp:54-110 | on a fresh controller, the launch succeeds exactly when the configuration opens and every creation succeeds; only then is the cluster stopped, which leaves the table empty and reports the failed kills (none when every stop succeeds); a configuration that cannot be opened leaves the table empty; a failed creation exits with the earlier nodes still in the table |

## Left out

- `LogCabinRaftClient` (`createClient`, `destroyClient`, `connectToCluster`, `writeFile`, `readFile`, clients/logcabin/lg-client.cpp:150-191): these are thin wrappers over the LogCabin `Cluster` and `Tree` client library, which is not part of this model.
- `executeCommand` is not modelled. Its three calls (the `rm -rf` of the storage directory, the bootstrap run and the `Reconfigure` run) issue no commands in the model. Only the text of the reconfigure command is built.
- `sleep(1)` (clients/logcabin/lg-client.cpp:92) is left out: time is not modelled.
- The argument vector handed to `createProcess` is left out. This covers `copyStr`, the `char*` copies and `--id <id> --config <confFile>` (clients/logcabin/lg-client.cpp:114-127). Only the pid it returns is modelled.
- `exit(1)` is left out; its two calls become error outcomes. The model returns the fields and table as they were at that point. The ending of the process is not modelled.
- File I/O through `std::ofstream` is left out. Only the rendered text and whether the open succeeded are modelled. A write error after a successful open is not modelled.
- The `std::cout` messages are left out, except the "Failed to kill node" messages of `stopCluster`. Those become the returned list of ids.
- Node ids and ports are unbounded integers. The overflow of `id++` when `lastNodeId()` is `INT_MAX` is not modelled.
- stopProcess's outcome is modelled as a predicate over pids (`stopOk`), so it gives the same answer for the same pid each time.
- `testdriver/testdriver.cpp` is left out. It only sequences I/O calls and prints narration. It uses `PacketDropConfig`, whose implementation is not part of this model. It also calls `stopCluster(3)`, which does not match the zero-argument `stopCluster` that is modelled. `RunCluster` models only the driver's launch of the cluster, followed by the stop that is reached when the launch succeeds.
- Packet-drop injection and any concurrent use of clients are left out.
