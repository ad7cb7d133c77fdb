/**
 * The `add` command of add.rs: the arguments name new nodes, each either
 * `master` or `replica,master`; the new nodes are introduced to the
 * cluster through one existing node (the origin), then each replica is
 * told which master to follow.
 */
module Add {
  import opened Wrappers
  import opened Text
  import opened ClusterNode
  import Conn

  // ---------------------------------------------------------------------
  // Arguments

  /** The master of an argument: its last `,`-piece. */
  function MasterOf(arg: string): string
  {
    var pieces := Split(arg, ",");
    pieces[|pieces| - 1]
  }

  /** The replica of an argument: the first piece when there are exactly two. */
  function ReplicaOf(arg: string): Option<string>
  {
    var pieces := Split(arg, ",");
    if |pieces| == 2 then Some(pieces[0]) else None
  }

  /** An argument `Add::new` takes without panicking: the addresses it parses are `ip:port`. */
  predicate Acceptable(arg: string)
  {
    New(MasterOf(arg)).Success? && (ReplicaOf(arg).Some? ==> New(ReplicaOf(arg).value).Success?)
  }

  /** The nodes one argument adds: the master first, then the replica, marked as a slave. */
  function ArgNodes(arg: string): seq<Node>
    requires Acceptable(arg)
  {
    [New(MasterOf(arg)).value] +
    (if ReplicaOf(arg).Some? then [New(ReplicaOf(arg).value).value.(role := Some(Slave))] else [])
  }

  /** The node list `Add::new` builds. */
  function ParsedNodes(args: seq<string>): (r: seq<Node>)
    requires forall a | a in args :: Acceptable(a)
    ensures |args| <= |r| <= 2 * |args|
    decreases |args|
  {
    if args == [] then []
    else ParsedNodes(args[..|args| - 1]) + ArgNodes(args[|args| - 1])
  }

  /** The replica-to-master map `Add::new` builds; a later argument naming the same replica wins. */
  function ReplicaMasters(args: seq<string>): (sm: map<string, string>)
    ensures forall r | r in sm :: exists i | 0 <= i < |args| :: ReplicaOf(args[i]) == Some(r) && MasterOf(args[i]) == sm[r]
    decreases |args|
  {
    if args == [] then map[]
    else
      var last := args[|args| - 1];
      var init := args[..|args| - 1];
      assert forall i | 0 <= i < |init| :: init[i] == args[i];
      var m := ReplicaMasters(init);
      if ReplicaOf(last).Some? then m[ReplicaOf(last).value := MasterOf(last)] else m
  }

  /** Every replica an argument names is a key of the map. */
  lemma {:induction false} ReplicaMastersHas(args: seq<string>, i: nat)
    requires i < |args| && ReplicaOf(args[i]).Some?
    ensures ReplicaOf(args[i]).value in ReplicaMasters(args)
    decreases |args|
  {
    var init := args[..|args| - 1];
    if i < |init| {
      assert init[i] == args[i];
      ReplicaMastersHas(init, i);
    }
  }

  /** The map's keys are exactly the replicas named by some argument. */
  lemma ReplicaMastersKeys(args: seq<string>)
    ensures forall r :: r in ReplicaMasters(args) <==> exists i | 0 <= i < |args| :: ReplicaOf(args[i]) == Some(r)
  {
    forall r | (exists i | 0 <= i < |args| :: ReplicaOf(args[i]) == Some(r))
      ensures r in ReplicaMasters(args)
    {
      var i :| 0 <= i < |args| && ReplicaOf(args[i]) == Some(r);
      ReplicaMastersHas(args, i);
    }
  }

  /** A replica follows the master of the last argument that names it. */
  lemma {:induction false} ReplicaMastersLastWins(args: seq<string>, i: nat)
    requires i < |args| && ReplicaOf(args[i]).Some?
    requires forall j | i < j < |args| :: ReplicaOf(args[j]) != ReplicaOf(args[i])
    ensures ReplicaOf(args[i]).value in ReplicaMasters(args)
    ensures ReplicaMasters(args)[ReplicaOf(args[i]).value] == MasterOf(args[i])
    decreases |args|
  {
    var init := args[..|args| - 1];
    if i < |init| {
      ReplicaMastersLastWins(init, i);
    }
  }

  // ---------------------------------------------------------------------
  // nodes_info

  /** `nodes_info` of `set_slave`: each address to the last node with that address. */
  function AddrIndex(nodes: seq<Node>): (info: map<string, Node>)
    ensures forall a :: a in info <==> exists n | n in nodes :: Addr(n) == a
    ensures forall a | a in info :: Addr(info[a]) == a && info[a] in nodes
    decreases |nodes|
  {
    if nodes == [] then map[]
    else
      var init := nodes[..|nodes| - 1];
      var n := nodes[|nodes| - 1];
      assert nodes == init + [n];
      AddrIndex(init)[Addr(n) := n]
  }

  /**
   * Every master address the replica map mentions belongs to a node of the
   * parsed list, so `set_slave` never misses in `nodes_info`.
   */
  lemma {:induction false} ParsedMastersKnown(args: seq<string>)
    requires forall a | a in args :: Acceptable(a)
    ensures forall r | r in ReplicaMasters(args) :: ReplicaMasters(args)[r] in AddrIndex(ParsedNodes(args))
    decreases |args|
  {
    if args != [] {
      var init := args[..|args| - 1];
      var last := args[|args| - 1];
      assert forall a | a in init :: a in args;
      ParsedMastersKnown(init);
      assert last in args;
      NewAccepts(MasterOf(last));
      assert New(MasterOf(last)).value in ParsedNodes(args);
      assert ParsedNodes(args) == ParsedNodes(init) + ArgNodes(last);
      assert forall n | n in ParsedNodes(init) :: n in ParsedNodes(args);
    }
  }

  /** Every parsed node is named after its own address and follows no master yet. */
  lemma {:induction false} ParsedNamed(args: seq<string>)
    requires forall a | a in args :: Acceptable(a)
    ensures forall n | n in ParsedNodes(args) :: n.name == Addr(n) && n.slaveof == None
    decreases |args|
  {
    if args != [] {
      var init := args[..|args| - 1];
      var last := args[|args| - 1];
      assert forall a | a in init :: a in args;
      ParsedNamed(init);
      assert last in args;
      NewAccepts(MasterOf(last));
      if ReplicaOf(last).Some? {
        NewAccepts(ReplicaOf(last).value);
      }
      forall n | n in ParsedNodes(args)
        ensures n.name == Addr(n) && n.slaveof == None
      {
        if n !in ParsedNodes(init) {
          assert n in ArgNodes(last);
        }
      }
    }
  }

  // ---------------------------------------------------------------------
  // set_slave and add_node

  /** One node after `set_slave`: a replica in the map gets the name of its master's node. */
  function Wire(n: Node, sm: map<string, string>, info: map<string, Node>): (w: Node)
    requires Addr(n) in sm ==> sm[Addr(n)] in info
    ensures w.(slaveof := n.slaveof) == n
    ensures Addr(n) !in sm ==> w == n
    ensures Addr(n) in sm ==> w.slaveof.Some?
  {
    if Addr(n) in sm then n.(slaveof := Some(info[sm[Addr(n)]].name)) else n
  }

  /** Whether `set_slave` can look up every master the map names. */
  ghost predicate MastersKnown(nodes: seq<Node>, sm: map<string, string>)
  {
    forall r | r in sm :: sm[r] in AddrIndex(nodes)
  }

  /** Whether `info` resolves the master of every replica among `nodes`. */
  predicate Resolves(nodes: seq<Node>, sm: map<string, string>, info: map<string, Node>)
  {
    forall n | n in nodes :: Addr(n) in sm ==> sm[Addr(n)] in info
  }

  lemma MastersResolve(nodes: seq<Node>, sm: map<string, string>)
    requires MastersKnown(nodes, sm)
    ensures Resolves(nodes, sm, AddrIndex(nodes))
  {
  }

  /** The node list after `set_slave`, with `info` its `nodes_info`. */
  function Wired(nodes: seq<Node>, sm: map<string, string>, info: map<string, Node>): (w: seq<Node>)
    requires Resolves(nodes, sm, info)
    ensures |w| == |nodes|
  {
    seq(|nodes|, i requires 0 <= i < |nodes| => Wire(nodes[i], sm, info))
  }

  /** The `CLUSTER REPLICATE` requests of `set_slave`, to each wired replica in list order. */
  function ReplicateCalls(nodes: seq<Node>, sm: map<string, string>, info: map<string, Node>): (r: seq<Conn.Call>)
    requires Resolves(nodes, sm, info)
    ensures |r| <= |nodes|
    decreases |nodes|
  {
    if nodes == [] then []
    else
      var n := nodes[|nodes| - 1];
      ReplicateCalls(nodes[..|nodes| - 1], sm, info) +
      (if Addr(n) in sm then [Conn.Call(n.ip, n.port, Conn.Replicate(info[sm[Addr(n)]].name))] else [])
  }

  /**
   * `set_slave` touches only the replicas the map names: each of them now
   * follows the name of the node `info` gives for its mapped master; every
   * other node, and every other field, is unchanged.
   */
  lemma WiredOnlyReplicas(nodes: seq<Node>, sm: map<string, string>, info: map<string, Node>)
    requires Resolves(nodes, sm, info)
    ensures forall i | 0 <= i < |nodes| ::
      var w := Wired(nodes, sm, info)[i];
      w.(slaveof := nodes[i].slaveof) == nodes[i] &&
      (Addr(nodes[i]) !in sm ==> w == nodes[i]) &&
      (Addr(nodes[i]) in sm ==> w.slaveof == Some(info[sm[Addr(nodes[i])]].name))
  {
    forall i | 0 <= i < |nodes|
      ensures Addr(nodes[i]) in sm ==> sm[Addr(nodes[i])] in info
    {
      assert nodes[i] in nodes;
    }
  }

  /** `set_slave` sends `CLUSTER REPLICATE` to exactly the named replicas, each with its master's name. */
  lemma {:induction false} ReplicateTargets(nodes: seq<Node>, sm: map<string, string>, info: map<string, Node>)
    requires Resolves(nodes, sm, info)
    ensures forall c :: c in ReplicateCalls(nodes, sm, info) <==>
      exists n | n in nodes :: Addr(n) in sm && c == Conn.Call(n.ip, n.port, Conn.Replicate(info[sm[Addr(n)]].name))
    decreases |nodes|
  {
    if nodes != [] {
      var init, last := nodes[..|nodes| - 1], nodes[|nodes| - 1];
      assert forall n | n in init :: n in nodes;
      ReplicateTargets(init, sm, info);
      assert nodes == init + [last];
    }
  }

  /** The `CLUSTER MEET` requests of `add_node`: one per node, in list order, all to the origin. */
  function MeetCalls(ip: string, port: string, nodes: seq<Node>): (r: seq<Conn.Call>)
    ensures |r| == |nodes|
    ensures forall i | 0 <= i < |nodes| :: r[i] == Conn.Call(ip, port, Conn.Meet(nodes[i].ip, nodes[i].port))
    decreases |nodes|
  {
    if nodes == [] then []
    else MeetCalls(ip, port, nodes[..|nodes| - 1]) + [Conn.Call(ip, port, Conn.Meet(nodes[|nodes| - 1].ip, nodes[|nodes| - 1].port))]
  }

  /**
   * After `Add::new` and `set_slave`, a node follows a master exactly when
   * its address is a replica of some argument, and then its `slaveof` is the
   * address of the master of the last argument naming it.
   */
  lemma WiredSlaveOf(args: seq<string>, i: nat)
    requires forall a | a in args :: Acceptable(a)
    requires i < |ParsedNodes(args)|
    ensures Resolves(ParsedNodes(args), ReplicaMasters(args), AddrIndex(ParsedNodes(args)))
    ensures var n := ParsedNodes(args)[i];
      var sm := ReplicaMasters(args);
      Wired(ParsedNodes(args), sm, AddrIndex(ParsedNodes(args)))[i].slaveof == (if Addr(n) in sm then Some(sm[Addr(n)]) else None)
  {
    ParsedMastersKnown(args);
    MastersResolve(ParsedNodes(args), ReplicaMasters(args));
    ParsedNamed(args);
    var nodes := ParsedNodes(args);
    assert nodes[i] in nodes;
  }

  /**
   * The meets of `add_node` after `Add::new` introduce, for every argument,
   * its master's address and then, for `replica,master`, its replica's.
   */
  lemma {:induction false} MeetsFollowArgs(ip: string, port: string, args: seq<string>)
    requires forall a | a in args :: Acceptable(a)
    ensures forall c | c in MeetCalls(ip, port, ParsedNodes(args)) :: c.ip == ip && c.port == port
    ensures forall k | 0 <= k < |args| :: (Acceptable(args[k]) &&
      Conn.Call(ip, port, Conn.Meet(New(MasterOf(args[k])).value.ip, New(MasterOf(args[k])).value.port)) in MeetCalls(ip, port, ParsedNodes(args)) &&
      HostPort(New(MasterOf(args[k])).value.ip, New(MasterOf(args[k])).value.port) == MasterOf(args[k]))
    decreases |args|
  {
    var nodes := ParsedNodes(args);
    var calls := MeetCalls(ip, port, nodes);
    forall c | c in calls
      ensures c.ip == ip && c.port == port
    {
    }
    forall k | 0 <= k < |args|
      ensures Acceptable(args[k])
      ensures Conn.Call(ip, port, Conn.Meet(New(MasterOf(args[k])).value.ip, New(MasterOf(args[k])).value.port)) in calls
      ensures HostPort(New(MasterOf(args[k])).value.ip, New(MasterOf(args[k])).value.port) == MasterOf(args[k])
    {
      assert args[k] in args;
      NewAccepts(MasterOf(args[k]));
      var m := New(MasterOf(args[k])).value;
      ParsedHasMaster(args, k);
      var j :| 0 <= j < |nodes| && nodes[j] == m;
      assert calls[j] == Conn.Call(ip, port, Conn.Meet(m.ip, m.port));
    }
  }

  lemma {:induction false} ParsedHasMaster(args: seq<string>, k: nat)
    requires forall a | a in args :: Acceptable(a)
    requires k < |args|
    ensures Acceptable(args[k]) && New(MasterOf(args[k])).value in ParsedNodes(args)
    decreases |args|
  {
    var init := args[..|args| - 1];
    assert forall a | a in init :: a in args;
    assert args[k] in args;
    if k < |init| {
      ParsedHasMaster(init, k);
    } else {
      assert New(MasterOf(args[k])).value in ArgNodes(args[k]);
    }
  }

  // ---------------------------------------------------------------------
  // Add

  /** The state of the `add` command: the origin's connection, the new nodes and the replica map. */
  class Add {
    var origin: string
    var originIp: string
    var originPort: string
    var nodes: seq<Node>
    var slaveMaster: map<string, string>

    /** `Add::new`: split the origin on `:` for its connection, then parse the arguments. */
    constructor New(origin: string, args: seq<string>)
      requires |Split(origin, ":")| >= 2
      requires forall a | a in args :: Acceptable(a)
      ensures this.origin == origin
      ensures originIp == Split(origin, ":")[0] && originPort == Split(origin, ":")[1]
      ensures nodes == ParsedNodes(args) && slaveMaster == ReplicaMasters(args)
      ensures MastersKnown(nodes, slaveMaster)
    {
      var items := Split(origin, ":");
      var ns: seq<Node> := [];
      var sm: map<string, string> := map[];
      for i := 0 to |args|
        invariant ns == ParsedNodes(args[..i]) && sm == ReplicaMasters(args[..i])
      {
        assert args[..i + 1][..i] == args[..i];
        assert args[i] in args;
        var ms := Split(args[i], ",");
        var masterHost := ms[|ms| - 1];
        ms := ms[..|ms| - 1];
        var master := ClusterNode.New(masterHost).value;
        ns := ns + [master];
        if |ms| == 1 {
          var slaveHost := ms[0];
          var node := ClusterNode.New(slaveHost).value;
          node := node.(role := Some(Slave));
          ns := ns + [node];
          sm := sm[slaveHost := masterHost];
        }
      }
      assert args[..|args|] == args;
      ParsedMastersKnown(args);
      this.origin := origin;
      originIp := items[0];
      originPort := items[1];
      nodes := ns;
      slaveMaster := sm;
    }

    /** `Add::add_node`: meet every node from the origin. */
    method AddNode() returns (calls: seq<Conn.Call>)
      ensures calls == MeetCalls(originIp, originPort, nodes)
    {
      calls := [];
      for i := 0 to |nodes|
        invariant calls == MeetCalls(originIp, originPort, nodes[..i])
      {
        assert nodes[..i + 1][..i] == nodes[..i];
        calls := calls + [Conn.Call(originIp, originPort, Conn.Meet(nodes[i].ip, nodes[i].port))];
      }
      assert nodes[..|nodes|] == nodes;
    }

    /** `Add::set_slave`: point each replica at its master's node and ask it to replicate. */
    method SetSlave() returns (calls: seq<Conn.Call>)
      requires MastersKnown(nodes, slaveMaster)
      modifies this`nodes
      ensures Resolves(old(nodes), slaveMaster, AddrIndex(old(nodes)))
      ensures nodes == Wired(old(nodes), slaveMaster, AddrIndex(old(nodes)))
      ensures calls == ReplicateCalls(old(nodes), slaveMaster, AddrIndex(old(nodes)))
    {
      var info := IndexByAddr(nodes);
      ghost var before := nodes;
      calls := [];
      SetSlaveStart(before, slaveMaster, info);
      for i := 0 to |nodes|
        invariant WiredUpTo(before, slaveMaster, info, i, nodes, calls)
      {
        SetSlaveStep(before, slaveMaster, info, i, nodes, calls);
        var node := nodes[i];
        if Addr(node) in slaveMaster {
          var master := slaveMaster[Addr(node)];
          var masterNode := info[master];
          node := node.(slaveof := Some(masterNode.name));
          nodes := nodes[i := node];
          calls := calls + [Conn.Call(node.ip, node.port, Conn.Replicate(node.slaveof.value))];
          assert WiredUpTo(before, slaveMaster, info, i + 1, nodes, calls);
        } else {
          assert WiredUpTo(before, slaveMaster, info, i + 1, nodes, calls);
        }
      }
      SetSlaveEnd(before, slaveMaster, info, nodes, calls);
    }
  }

  /** The state of `set_slave`'s loop after `i` nodes. */
  ghost predicate WiredUpTo(before: seq<Node>, sm: map<string, string>, info: map<string, Node>,
                            i: nat, cur: seq<Node>, calls: seq<Conn.Call>)
  {
    Resolves(before, sm, info) && i <= |before| &&
    cur == Wired(before, sm, info)[..i] + before[i..] &&
    calls == ReplicateCalls(before[..i], sm, info)
  }

  lemma SetSlaveStart(before: seq<Node>, sm: map<string, string>, info: map<string, Node>)
    requires MastersKnown(before, sm) && info == AddrIndex(before)
    ensures Resolves(before, sm, info)
    ensures WiredUpTo(before, sm, info, 0, before, [])
  {
    MastersResolve(before, sm);
    assert before[..0] == [];
    assert before == Wired(before, sm, info)[..0] + before[0..];
  }

  lemma SetSlaveEnd(before: seq<Node>, sm: map<string, string>, info: map<string, Node>, cur: seq<Node>, calls: seq<Conn.Call>)
    requires WiredUpTo(before, sm, info, |before|, cur, calls)
    ensures cur == Wired(before, sm, info)
    ensures calls == ReplicateCalls(before, sm, info)
  {
    assert before[..|before|] == before;
  }

  /** One turn of `set_slave`'s loop wires one more node and adds its request to the trace. */
  lemma SetSlaveStep(before: seq<Node>, sm: map<string, string>, info: map<string, Node>, i: nat,
                     cur: seq<Node>, calls: seq<Conn.Call>)
    requires WiredUpTo(before, sm, info, i, cur, calls) && i < |before|
    ensures i < |cur| && cur[i] == before[i]
    ensures Addr(cur[i]) in sm ==> sm[Addr(cur[i])] in info
    ensures Addr(cur[i]) !in sm ==> WiredUpTo(before, sm, info, i + 1, cur, calls)
    ensures Addr(cur[i]) in sm ==>
      var n := cur[i].(slaveof := Some(info[sm[Addr(cur[i])]].name));
      WiredUpTo(before, sm, info, i + 1, cur[i := n], calls + [Conn.Call(n.ip, n.port, Conn.Replicate(n.slaveof.value))])
  {
    assert before[..i + 1][..i] == before[..i];
    assert before[i] in before;
    WiredExtend(before, sm, info, i, cur);
  }

  lemma WiredExtend(before: seq<Node>, sm: map<string, string>, info: map<string, Node>, i: nat, cur: seq<Node>)
    requires Resolves(before, sm, info) && i < |before|
    requires cur == Wired(before, sm, info)[..i] + before[i..]
    ensures cur[i] == before[i]
    ensures cur[i := Wire(before[i], sm, info)] == Wired(before, sm, info)[..i + 1] + before[i + 1..]
  {
    var w := Wired(before, sm, info);
    var next := cur[i := Wire(before[i], sm, info)];
    assert |next| == |before|;
    forall k | 0 <= k < |next|
      ensures next[k] == (w[..i + 1] + before[i + 1..])[k]
    {
      if k < i {
        assert next[k] == cur[k] == w[k];
      } else if k > i {
        assert next[k] == cur[k] == before[k];
      }
    }
  }

  /** The loop filling `nodes_info`. */
  method IndexByAddr(nodes: seq<Node>) returns (info: map<string, Node>)
    ensures info == AddrIndex(nodes)
  {
    info := map[];
    for i := 0 to |nodes|
      invariant info == AddrIndex(nodes[..i])
    {
      assert nodes[..i + 1][..i] == nodes[..i];
      info := info[Addr(nodes[i]) := nodes[i]];
    }
    assert nodes[..|nodes|] == nodes;
  }
}
