/**
 * The pure part of LogCabinRaftClusterConfig: the address of every node,
 * the member list, the text of the generated configuration file and the
 * command line that commits the initial membership. The two string-building
 * loops of the configuration class are methods here, each proved against
 * the function that specifies its output.
 */
module LogCabinRender {
  import opened Wrappers
  import opened Decimal
  import opened Text

  /** Every node lives on the same /24 network; its id is the last octet. */
  const HostPrefix: string := "192.168.2."

  /**
   * getHost: the node's address, the network prefix followed by text that
   * reads back as the node number.
   */
  function Host(nodeNumber: int): (r: string)
    ensures |HostPrefix| < |r| && r[..|HostPrefix|] == HostPrefix
    ensures ParseInt(r[|HostPrefix|..]) == Some(nodeNumber)
  {
    ParseIntRoundTrip(nodeNumber);
    var r := HostPrefix + FromInt(nodeNumber);
    assert r[|HostPrefix|..] == FromInt(nodeNumber);
    r
  }

  /** getHostPort: the node's address and the shared cluster port. */
  function HostPort(nodeNumber: int, clusterPort: int): string
  {
    HostPrefix + FromInt(nodeNumber) + ":" + FromInt(clusterPort)
  }

  /** A member address is the node's host, a colon and the cluster port. */
  lemma HostPortExtendsHost(nodeNumber: int, clusterPort: int)
    ensures HostPort(nodeNumber, clusterPort) == Host(nodeNumber) + ":" + FromInt(clusterPort)
  {
  }

  datatype Endpoint = Endpoint(node: int, port: int)

  /** Reads a `host:port` member address back into a node id and a port. */
  function ParseHostPort(s: string): Option<Endpoint>
  {
    if |s| < |HostPrefix| || s[..|HostPrefix|] != HostPrefix then None
    else
      var fields := SplitOn(s[|HostPrefix|..], ':');
      if |fields| != 2 then None
      else match (ParseInt(fields[0]), ParseInt(fields[1]))
        case (Some(node), Some(port)) => Some(Endpoint(node, port))
        case _ => None
  }

  predicate IsAddressChar(c: char) {
    IsDigit(c) || c == '.' || c == ':' || c == '-'
  }

  lemma FromIntHasNoColon(n: int)
    ensures ':' !in FromInt(n)
  {
    var d := FromInt(n);
    FromIntShape(n);
    forall i | 0 <= i < |d| ensures d[i] != ':' {
      assert i == 0 || IsDigit(d[i]);
    }
  }

  /** A member address reads back as the node and port it was made from. */
  lemma HostPortRoundTrip(nodeNumber: int, clusterPort: int)
    ensures ParseHostPort(HostPort(nodeNumber, clusterPort)) == Some(Endpoint(nodeNumber, clusterPort))
  {
    var a, b := FromInt(nodeNumber), FromInt(clusterPort);
    var s := HostPort(nodeNumber, clusterPort);
    assert s == HostPrefix + (a + ":" + b);
    assert s[|HostPrefix|..] == a + ":" + b;
    assert [a, b][..1] == [a];
    assert Join([a, b], ':') == a + ":" + b;
    FromIntHasNoColon(nodeNumber);
    FromIntHasNoColon(clusterPort);
    SplitJoin([a, b], ':');
    ParseIntRoundTrip(nodeNumber);
    ParseIntRoundTrip(clusterPort);
  }

  /** Two nodes of one cluster never share an address. */
  lemma DistinctNodesDistinctAddresses(a: int, b: int, clusterPort: int)
    requires a != b
    ensures HostPort(a, clusterPort) != HostPort(b, clusterPort)
  {
    HostPortRoundTrip(a, clusterPort);
    HostPortRoundTrip(b, clusterPort);
  }

  /** A member address is made of digits, dots, a colon and minus signs only. */
  lemma HostPortChars(nodeNumber: int, clusterPort: int)
    ensures forall i :: 0 <= i < |HostPort(nodeNumber, clusterPort)| ==> IsAddressChar(HostPort(nodeNumber, clusterPort)[i])
  {
    var a, b := FromInt(nodeNumber), FromInt(clusterPort);
    var s := HostPort(nodeNumber, clusterPort);
    FromIntShape(nodeNumber);
    FromIntShape(clusterPort);
    forall i | 0 <= i < |s| ensures IsAddressChar(s[i]) {
      if i < |HostPrefix| {
        assert s[i] == HostPrefix[i];
      } else if i < |HostPrefix| + |a| {
        assert s[i] == a[i - |HostPrefix|];
      } else if i > |HostPrefix| + |a| {
        assert s[i] == b[i - |HostPrefix| - |a| - 1];
      }
    }
  }

  /** The number of ids from `first` to `last` inclusive. */
  function IdCount(first: int, last: int): nat
  {
    if first <= last then last - first + 1 else 0
  }

  /** The ids `first`, `first + 1`, ..., `last`, in increasing order. */
  function NodeIds(first: int, last: int): (r: seq<int>)
    ensures |r| == IdCount(first, last)
    ensures forall i :: 0 <= i < |r| ==> r[i] == first + i
    decreases last - first
  {
    if last < first then [] else NodeIds(first, last - 1) + [last]
  }

  /** The member addresses of the nodes `first` to `last`, in id order. */
  function HostPorts(first: int, last: int, clusterPort: int): seq<string>
  {
    seq(IdCount(first, last), i requires 0 <= i < IdCount(first, last) => HostPort(first + i, clusterPort))
  }

  lemma HostPortsAvoid(first: int, last: int, clusterPort: int, c: char)
    requires !IsAddressChar(c)
    ensures Avoids(HostPorts(first, last, clusterPort), c)
  {
    var hp := HostPorts(first, last, clusterPort);
    forall i | 0 <= i < |hp| ensures c !in hp[i] {
      HostPortChars(first + i, clusterPort);
    }
  }

  /** The value of the `servers` line. */
  function ServerList(first: int, last: int, clusterPort: int): string
  {
    Join(HostPorts(first, last, clusterPort), ';')
  }

  /** The loop of writeConfFile that writes the member list, driven by a `first` flag. */
  method RenderServerList(firstId: int, lastId: int, clusterPort: int) returns (s: string)
    ensures s == ServerList(firstId, lastId, clusterPort)
  {
    ghost var hp := HostPorts(firstId, lastId, clusterPort);
    s := "";
    var first := true;
    var id := firstId;
    while id <= lastId
      invariant firstId <= id <= lastId + 1 || (id == firstId && lastId < firstId)
      invariant first <==> id == firstId
      invariant s == Join(hp[..id - firstId], ';')
    {
      ghost var k := id - firstId;
      JoinSnoc(hp, k, ';');
      var address := HostPort(id, clusterPort);
      assert address == hp[k];
      if !first {
        s := s + ";";
      }
      first := false;
      s := s + address;
      id := id + 1;
    }
    assert hp[..id - firstId] == hp;
  }

  /**
   * The member list names every node once, in id order: splitting it at ';'
   * gives back exactly the addresses of `first`..`last`.
   */
  lemma ServerListEntries(first: int, last: int, clusterPort: int)
    requires first <= last
    ensures SplitOn(ServerList(first, last, clusterPort), ';') == HostPorts(first, last, clusterPort)
    ensures |SplitOn(ServerList(first, last, clusterPort), ';')| == last - first + 1
  {
    HostPortsAvoid(first, last, clusterPort, ';');
    SplitJoin(HostPorts(first, last, clusterPort), ';');
  }

  /** The member list has no separator before its first entry or after its last. */
  lemma ServerListEdges(first: int, last: int, clusterPort: int)
    requires first <= last
    ensures |ServerList(first, last, clusterPort)| > 0
    ensures ServerList(first, last, clusterPort)[0] != ';'
    ensures ServerList(first, last, clusterPort)[|ServerList(first, last, clusterPort)| - 1] != ';'
  {
    var hp := HostPorts(first, last, clusterPort);
    HostPortsAvoid(first, last, clusterPort, ';');
    forall i | 0 <= i < |hp| ensures |hp[i]| > 0 {
      assert hp[i] == HostPort(first + i, clusterPort);
    }
    JoinEdges(hp, ';');
  }

  /** Every node's address appears in the member list only once. */
  lemma ServerEntriesDistinct(first: int, last: int, clusterPort: int)
    ensures var hp := HostPorts(first, last, clusterPort);
            forall i, j :: 0 <= i < j < |hp| ==> hp[i] != hp[j]
  {
    var hp := HostPorts(first, last, clusterPort);
    forall i, j | 0 <= i < j < |hp| ensures hp[i] != hp[j] {
      DistinctNodesDistinctAddresses(first + i, first + j, clusterPort);
    }
  }

  const StorageModuleLine: string := "storageModule = filesystem"

  /** The text writeConfFile writes: three lines, each ended by std::endl. */
  function ConfText(storageDir: string, first: int, last: int, clusterPort: int): string
  {
    StorageModuleLine + "\n"
    + "storagePath = " + storageDir + "\n"
    + "servers = " + ServerList(first, last, clusterPort) + "\n"
  }

  /**
   * The configuration is exactly three newline-terminated lines: the storage
   * module, the storage path, and the member list.
   */
  lemma ConfTextLines(storageDir: string, first: int, last: int, clusterPort: int)
    requires '\n' !in storageDir
    ensures SplitOn(ConfText(storageDir, first, last, clusterPort), '\n')
         == [StorageModuleLine, "storagePath = " + storageDir, "servers = " + ServerList(first, last, clusterPort), ""]
  {
    var servers := ServerList(first, last, clusterPort);
    var l1, l2, l3 := StorageModuleLine, "storagePath = " + storageDir, "servers = " + servers;
    HostPortsAvoid(first, last, clusterPort, '\n');
    JoinAvoids(HostPorts(first, last, clusterPort), ';', '\n');
    assert '\n' !in l3;
    JoinFour(l1, l2, l3, "", '\n');
    assert Join([l1, l2, l3, ""], '\n') == ConfText(storageDir, first, last, clusterPort);
    SplitJoin([l1, l2, l3, ""], '\n');
  }

  /** The reconfigure command: the program followed by " host:port" for each node. */
  function ReconfigureCommand(program: string, first: int, last: int, clusterPort: int): string
  {
    program + Prefixed(HostPorts(first, last, clusterPort), ' ')
  }

  /** The `+=` loop of launchCluster that builds the reconfigure command. */
  method RenderReconfigureCommand(program: string, firstId: int, lastId: int, clusterPort: int) returns (cmd: string)
    ensures cmd == ReconfigureCommand(program, firstId, lastId, clusterPort)
  {
    ghost var hp := HostPorts(firstId, lastId, clusterPort);
    cmd := program;
    var id := firstId;
    while id <= lastId
      invariant firstId <= id <= lastId + 1 || (id == firstId && lastId < firstId)
      invariant cmd == program + Prefixed(hp[..id - firstId], ' ')
    {
      ghost var k := id - firstId;
      PrefixedSnoc(program, hp, k, ' ');
      var address := HostPort(id, clusterPort);
      assert address == hp[k];
      cmd := cmd + [' '] + address;
      id := id + 1;
    }
    assert hp[..id - firstId] == hp;
  }

  /**
   * Split into words, the reconfigure command is the program followed by the
   * address of every node in id order, one argument each.
   */
  lemma ReconfigureArguments(program: string, first: int, last: int, clusterPort: int)
    requires ' ' !in program
    ensures SplitOn(ReconfigureCommand(program, first, last, clusterPort), ' ')
         == [program] + HostPorts(first, last, clusterPort)
  {
    var hp := HostPorts(first, last, clusterPort);
    PrefixedIsJoin(program, hp, ' ');
    HostPortsAvoid(first, last, clusterPort, ' ');
    SplitJoin([program] + hp, ' ');
  }

  /** The member address of a node whose id is a single digit, on port 61023. */
  lemma SingleDigitAddress(n: nat)
    requires n < 10
    ensures HostPort(n, 61023) == "192.168.2." + [DigitChar(n)] + ":61023"
  {
    assert FromInt(n) == [DigitChar(n)];
    assert FromInt(61023) == "61023";
  }

  /** The member addresses of the three-node cluster on port 61023. */
  lemma ThreeNodeAddresses()
    ensures HostPorts(1, 3, 61023) == ["192.168.2.1:61023", "192.168.2.2:61023", "192.168.2.3:61023"]
  {
    SingleDigitAddress(1);
    SingleDigitAddress(2);
    SingleDigitAddress(3);
    assert DigitChar(1) == '1' && DigitChar(2) == '2' && DigitChar(3) == '3';
    assert "192.168.2." + ['1'] + ":61023" == "192.168.2.1:61023";
    assert "192.168.2." + ['2'] + ":61023" == "192.168.2.2:61023";
    assert "192.168.2." + ['3'] + ":61023" == "192.168.2.3:61023";
  }

  /** The member list of the three-node cluster on port 61023. */
  lemma ThreeNodeServerList()
    ensures SplitOn(ServerList(1, 3, 61023), ';')
         == ["192.168.2.1:61023", "192.168.2.2:61023", "192.168.2.3:61023"]
  {
    ThreeNodeAddresses();
    ServerListEntries(1, 3, 61023);
  }
}
