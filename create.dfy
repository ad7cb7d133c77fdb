/**
 * Cluster creation (create.rs): the node list parsed from `ip:port`
 * arguments, the validated master count, and `init_slots`, which picks the
 * masters host by host, cuts the slot space into one chunk per master and
 * hands the remaining nodes out to the masters as replicas.
 */
module Create {
  import opened Wrappers
  import opened Text
  import opened SlotAllocator
  import Conn

  /** The failures create.rs reports (its `Error::None` and `IoError` are never produced here). */
  datatype Error = BadAddr | BadCluster

  /** A node of the cluster being built; `slave` is the `ip:port` of the master it replicates. */
  datatype Node = Node(ip: string, port: string, slave: Option<string>)

  /** The `ip:port` key under which a node is known. */
  function Key(n: Node): string
  {
    HostPort(n.ip, n.port)
  }

  /** `Node::new`. */
  function ParseNode(addr: string): (r: Result<Node, Error>)
    ensures r.Failure? ==> r.error == BadAddr
    ensures r.Success? ==> r.value.slave == None && Key(r.value) == addr
  {
    AddrPieces(addr);
    var items := Split(addr, ":");
    if |items| != 2 then Failure(BadAddr) else Success(Node(items[0], items[1], None))
  }

  /**
   * `Node::new` accepts exactly the inputs holding one `:`, with `ip` the
   * text before it and `port` the text after it; the key gives the input back.
   */
  lemma ParseNodeAccepts(s: string)
    ensures ParseNode(s).Success? <==> Count(s, ':') == 1
    ensures ParseNode(s).Success? ==>
      var n := ParseNode(s).value;
      Key(n) == s && n.slave == None && ':' !in n.ip && ':' !in n.port
  {
    AddrPieces(s);
  }

  /** Parsing a node's key gives the node back. */
  lemma ParseNodeOfKey(n: Node)
    requires ':' !in n.ip && ':' !in n.port && n.slave == None
    ensures ParseNode(Key(n)) == Success(n)
  {
    HostPortPieces(n.ip, n.port);
  }

  /** The test case of create.rs. */
  lemma ParseNodeExample()
    ensures ParseNode("127.0.0.1:8888") == Success(Node("127.0.0.1", "8888", None))
  {
    assert Key(Node("127.0.0.1", "8888", None)) == "127.0.0.1:8888";
    ParseNodeOfKey(Node("127.0.0.1", "8888", None));
  }

  /** The master count `Cluster::new` settles on, or `BadCluster`. */
  function MasterCount(nodeCount: nat, masterCount: nat, slaveCount: nat): (r: Result<nat, Error>)
    ensures r.Failure? ==> r.error == BadCluster
    ensures r.Success? ==> r.value >= 3
    ensures masterCount > 0 && r.Success? ==> r.value == masterCount
  {
    var count := if masterCount == 0 then nodeCount / (slaveCount + 1) else masterCount;
    if count < 3 then Failure(BadCluster) else Success(count)
  }

  /**
   * A given master count is kept and must be at least 3. A master count of
   * 0 becomes the largest count that leaves every master `slaveCount`
   * replicas, and succeeds iff there are nodes for 3 such groups.
   */
  lemma MasterCountChoice(nodeCount: nat, masterCount: nat, slaveCount: nat)
    ensures masterCount > 0 ==>
      (MasterCount(nodeCount, masterCount, slaveCount).Success? <==> masterCount >= 3) &&
      (masterCount >= 3 ==> MasterCount(nodeCount, masterCount, slaveCount).value == masterCount)
    ensures masterCount == 0 ==>
      (MasterCount(nodeCount, masterCount, slaveCount).Success? <==> nodeCount >= 3 * (slaveCount + 1))
    ensures masterCount == 0 && MasterCount(nodeCount, masterCount, slaveCount).Success? ==>
      var c := MasterCount(nodeCount, masterCount, slaveCount).value;
      c * (slaveCount + 1) <= nodeCount < (c + 1) * (slaveCount + 1)
  {
    var d := slaveCount + 1;
    var q := nodeCount / d;
    assert nodeCount == q * d + nodeCount % d;
    assert (q + 1) * d == q * d + d;
    if q >= 3 {
      assert q * d >= 3 * d;
    } else {
      assert q * d <= 2 * d;
    }
  }

  /** With the count derived from `slaveCount`, the replicas leave every master at least `slaveCount`. */
  lemma DerivedCountFillsMasters(nodeCount: nat, slaveCount: nat, i: nat)
    requires MasterCount(nodeCount, 0, slaveCount).Success?
    requires i < MasterCount(nodeCount, 0, slaveCount).value
    ensures var c := MasterCount(nodeCount, 0, slaveCount).value;
      c <= nodeCount && Shares(nodeCount - c, c)[i] >= slaveCount
  {
    MasterCountChoice(nodeCount, 0, slaveCount);
    var c := MasterCount(nodeCount, 0, slaveCount).value;
    assert c * (slaveCount + 1) == c * slaveCount + c;
    DivAtLeast(nodeCount - c, c, slaveCount);
  }

  lemma DivAtLeast(a: nat, c: nat, s: nat)
    requires c > 0 && a >= c * s
    ensures a / c >= s
  {
    var q := a / c;
    assert a == q * c + a % c;
    if q < s {
      MulMonotone(q + 1, s, c);
      assert false;
    }
  }

  lemma MulMonotone(x: nat, y: nat, c: nat)
    requires x <= y
    ensures x * c <= y * c
  {
  }

  // ---------------------------------------------------------------------
  // Grouping by host

  /** No two nodes share an address. */
  ghost predicate DistinctKeys(s: seq<Node>)
  {
    forall i, j | 0 <= i < j < |s| :: Key(s[i]) != Key(s[j])
  }

  /** The nodes on host `ip`, in list order. */
  function OnHost(nodes: seq<Node>, ip: string): seq<Node>
  {
    if nodes == [] then []
    else
      var init := OnHost(nodes[..|nodes| - 1], ip);
      if nodes[|nodes| - 1].ip == ip then init + [nodes[|nodes| - 1]] else init
  }

  /** The host map of `init_slots`: one bucket per host, visited in `order`. */
  function Groups(nodes: seq<Node>, order: seq<string>): seq<seq<Node>>
  {
    seq(|order|, i requires 0 <= i < |order| => OnHost(nodes, order[i]))
  }

  /** `order` is an iteration order of the host map: each host of the nodes exactly once. */
  ghost predicate HostOrder(nodes: seq<Node>, order: seq<string>)
  {
    (forall i, j | 0 <= i < j < |order| :: order[i] != order[j]) &&
    (forall n | n in nodes :: n.ip in order) &&
    (forall ip | ip in order :: exists n | n in nodes :: n.ip == ip)
  }

  function IndexOf(order: seq<string>, ip: string): (i: nat)
    requires ip in order
    ensures i < |order| && order[i] == ip
  {
    if order[0] == ip then 0 else 1 + IndexOf(order[1..], ip)
  }

  lemma OnHostIps(nodes: seq<Node>, ip: string)
    ensures forall n | n in OnHost(nodes, ip) :: n.ip == ip
  {
  }

  /** Adding a node to the list adds it to the bucket of its host and to no other. */
  lemma GroupsSnoc(nodes: seq<Node>, x: Node, order: seq<string>)
    requires forall i, j | 0 <= i < j < |order| :: order[i] != order[j]
    requires x.ip in order
    ensures var i := IndexOf(order, x.ip);
      Groups(nodes + [x], order) == Groups(nodes, order)[i := Groups(nodes, order)[i] + [x]]
  {
    assert (nodes + [x])[..|nodes|] == nodes;
  }

  /** The buckets hold exactly the nodes. */
  lemma {:induction false} GroupsHoldNodes(nodes: seq<Node>, order: seq<string>)
    requires forall i, j | 0 <= i < j < |order| :: order[i] != order[j]
    requires forall n | n in nodes :: n.ip in order
    ensures multiset(Flatten(Groups(nodes, order))) == multiset(nodes)
    ensures TotalLen(Groups(nodes, order)) == |nodes|
    decreases |nodes|
  {
    if nodes == [] {
      FlattenEmpties(Groups(nodes, order));
      TotalLenIsFlattenLength(Groups(nodes, order));
    } else {
      var init, x := nodes[..|nodes| - 1], nodes[|nodes| - 1];
      assert nodes == init + [x];
      GroupsHoldNodes(init, order);
      var i := IndexOf(order, x.ip);
      var before := Groups(init, order);
      var after := Groups(nodes, order);
      GroupsSnoc(init, x, order);
      assert after[i := before[i]] == before;
      assert after[i][..|after[i]| - 1] == before[i];
      PopConserves(after, i);
      TotalLenIsFlattenLength(after);
      assert |multiset(Flatten(after))| == |Flatten(after)|;
    }
  }

  lemma {:induction false} FlattenEmpties(groups: seq<seq<Node>>)
    requires forall i | 0 <= i < |groups| :: groups[i] == []
    ensures Flatten(groups) == []
    decreases |groups|
  {
    if groups != [] {
      FlattenEmpties(groups[1..]);
    }
  }

  // ---------------------------------------------------------------------
  // Placement

  /** Masters and (not yet assigned) replicas as `init_slots` draws them. */
  datatype Layout = Layout(masters: seq<Node>, replicas: seq<Node>)

  /**
   * `init_slots`' two draws from the host map: `masterCount` masters, then
   * all the remaining nodes; `None` where either draw panics.
   */
  ghost function PlanLayout(nodes: seq<Node>, order: seq<string>, masterCount: nat): Option<Layout>
    requires masterCount > 0 && HostOrder(nodes, order)
  {
    var groups := Groups(nodes, order);
    var first := SpreadSpec(groups, masterCount);
    if !first.Picked? then None
    else
      GroupsHoldNodes(nodes, order);
      var rest := Remaining(groups, masterCount);
      var second := SpreadSpec(rest, |nodes| - masterCount);
      if !second.Picked? then None else Some(Layout(first.nodes, second.nodes))
  }

  /**
   * Every node is placed exactly once: the masters and the replicas
   * together are the nodes, `masterCount` of them masters.
   */
  lemma LayoutUsesEveryNode(nodes: seq<Node>, order: seq<string>, masterCount: nat)
    requires masterCount > 0 && HostOrder(nodes, order) && PlanLayout(nodes, order, masterCount).Some?
    ensures var l := PlanLayout(nodes, order, masterCount).value;
      |l.masters| == masterCount && |l.replicas| == |nodes| - masterCount &&
      multiset(l.masters) + multiset(l.replicas) == multiset(nodes)
  {
    var groups := Groups(nodes, order);
    GroupsHoldNodes(nodes, order);
    var first := SpreadSpec(groups, masterCount);
    var rest := Remaining(groups, masterCount);
    var n2 := |nodes| - masterCount;
    var second := SpreadSpec(rest, n2);
    assert PlanLayout(nodes, order, masterCount) == Some(Layout(first.nodes, second.nodes));
    SpreadConserves(groups, masterCount);
    SpreadConserves(rest, n2);
    TotalLenIsFlattenLength(groups);
    assert |first.nodes| == masterCount && |second.nodes| == n2;
    TwoDraws(Flatten(groups), first.nodes, Flatten(rest), second.nodes, Flatten(Remaining(rest, n2)));
  }

  /** Two draws that together take as many items as there are take all of them. */
  lemma TwoDraws(all: seq<Node>, a: seq<Node>, rest: seq<Node>, b: seq<Node>, left: seq<Node>)
    requires multiset(a) + multiset(rest) == multiset(all)
    requires multiset(b) + multiset(left) == multiset(rest)
    requires |a| + |b| == |all|
    ensures multiset(a) + multiset(b) == multiset(all)
  {
    assert |multiset(a)| + |multiset(rest)| == |multiset(all)|;
    assert |multiset(b)| + |multiset(left)| == |multiset(rest)|;
    assert multiset(left) == multiset{};
  }

  lemma DistinctKeysOnce(s: seq<Node>, x: Node)
    requires DistinctKeys(s) && x in s
    ensures multiset(s)[x] == 1
    ensures forall y | y in s && Key(y) == Key(x) :: y == x
  {
    var i :| 0 <= i < |s| && s[i] == x;
    assert s == s[..i] + [x] + s[i + 1..];
    assert multiset(s) == multiset(s[..i]) + multiset{x} + multiset(s[i + 1..]);
  }

  /** With distinct addresses, no node is both a master and a replica. */
  lemma LayoutDisjoint(nodes: seq<Node>, order: seq<string>, masterCount: nat)
    requires masterCount > 0 && HostOrder(nodes, order) && PlanLayout(nodes, order, masterCount).Some?
    requires DistinctKeys(nodes)
    ensures var l := PlanLayout(nodes, order, masterCount).value;
      forall a, b | a in l.masters && b in l.replicas :: Key(a) != Key(b)
  {
    LayoutUsesEveryNode(nodes, order, masterCount);
    var l := PlanLayout(nodes, order, masterCount).value;
    forall a, b | a in l.masters && b in l.replicas
      ensures Key(a) != Key(b)
    {
      assert a in multiset(nodes) && b in multiset(nodes);
      if Key(a) == Key(b) {
        DistinctKeysOnce(nodes, a);
      }
    }
  }

  /**
   * The point of the host map: when there are no more masters than hosts,
   * every master is on a different host.
   */
  lemma LayoutMastersOnDistinctHosts(nodes: seq<Node>, order: seq<string>, masterCount: nat)
    requires masterCount > 0 && HostOrder(nodes, order) && PlanLayout(nodes, order, masterCount).Some?
    requires masterCount <= |order|
    ensures var m := PlanLayout(nodes, order, masterCount).value.masters;
      forall i, j | 0 <= i < j < |m| :: m[i].ip != m[j].ip
  {
    var groups := Groups(nodes, order);
    SpreadFirstPass(groups, masterCount);
    var m := PlanLayout(nodes, order, masterCount).value.masters;
    forall k | 0 <= k < masterCount
      ensures m[k].ip == order[k]
    {
      OnHostIps(nodes, order[k]);
      assert m[k] in groups[k];
    }
  }

  /** Every host holds `b` of the nodes. */
  ghost predicate EvenHosts(nodes: seq<Node>, order: seq<string>, b: nat)
  {
    forall i | 0 <= i < |order| :: |OnHost(nodes, order[i])| == b
  }

  lemma {:induction false} TotalLenEven(groups: seq<seq<Node>>, b: nat)
    requires forall j | 0 <= j < |groups| :: |groups[j]| == b
    ensures TotalLen(groups) == |groups| * b
    decreases |groups|
  {
    if groups != [] {
      TotalLenEven(groups[..|groups| - 1], b);
      assert (|groups| - 1) * b + b == |groups| * b;
    }
  }

  /** After `n` picks the buckets hold `n` candidates fewer. */
  lemma RemainingTotal(groups: seq<seq<Node>>, n: nat)
    requires |groups| > 0 && SharesFit(groups, n)
    ensures TotalLen(groups) >= n && TotalLen(Remaining(groups, n)) == TotalLen(groups) - n
  {
    PicksConserve(groups, n);
    TotalLenIsFlattenLength(groups);
    TotalLenIsFlattenLength(Remaining(groups, n));
    assert |multiset(Picks(groups, n))| + |multiset(Flatten(Remaining(groups, n)))| == |multiset(Flatten(groups))|;
  }

  lemma ShareOfFew(m: nat, h: nat, j: nat)
    requires m <= h && j < h
    ensures Share(m, h, j) == if j < m then 1 else 0
  {
    if m == h {
      DivModOf(1, h, 0);
    } else {
      DivModOf(0, h, m);
    }
  }

  /** `m` picks from `h` buckets of `b` each, `m <= h`, take one node from each of the first `m`. */
  lemma EvenFirstDraw(groups: seq<seq<Node>>, b: nat, m: nat)
    requires 0 < |groups| && 0 < b && m <= |groups|
    requires forall j | 0 <= j < |groups| :: |groups[j]| == b
    ensures TotalLen(groups) == |groups| * b >= m
    ensures SharesFit(groups, m) && SpreadSpec(groups, m).Picked?
    ensures forall j | 0 <= j < |groups| :: |Remaining(groups, m)[j]| == if j < m then b - 1 else b
  {
    var h := |groups|;
    TotalLenEven(groups, b);
    MulMonotone(1, b, h);
    forall j | 0 <= j < h
      ensures Share(m, h, j) <= |groups[j]|
    {
      ShareOfFew(m, h, j);
    }
    forall j | 0 <= j < h
      ensures |Remaining(groups, m)[j]| == if j < m then b - 1 else b
    {
      ShareOfFew(m, h, j);
    }
  }

  /** Buckets of `b - 1` each give up all their nodes without a panic. */
  lemma EvenSecondDraw(rest: seq<seq<Node>>, b: nat)
    requires 0 < |rest| && 0 < b
    requires forall j | 0 <= j < |rest| :: |rest[j]| == b - 1
    ensures SpreadSpec(rest, |rest| * b - |rest|).Picked?
  {
    var h := |rest|;
    TotalLenEven(rest, b - 1);
    assert h * (b - 1) == h * b - h;
    forall j | 0 <= j < h
      ensures Share(h * b - h, h, j) <= |rest[j]|
    {
      assert h * b - h == (b - 1) * h + 0;
      DivModOf(b - 1, h, 0);
    }
  }

  /**
   * The shape of create.rs' own test: `b` nodes on each of `h` hosts and
   * `h` masters. Both draws succeed, so `init_slots` does not panic.
   */
  lemma EvenHostsPlace(nodes: seq<Node>, order: seq<string>, b: nat)
    requires HostOrder(nodes, order) && |order| > 0 && b > 0 && EvenHosts(nodes, order, b)
    ensures PlanLayout(nodes, order, |order|).Some?
  {
    var h := |order|;
    var groups := Groups(nodes, order);
    PlanSteps(nodes, order, h);
    GroupsHoldNodes(nodes, order);
    EvenFirstDraw(groups, b, h);
    var rest := Remaining(groups, h);
    EvenSecondDraw(rest, b);
  }

  /** The first bucket after `h - 1` picks is one node short of what `h * b - (h - 1)` more picks take from it. */
  lemma OneShortOverdraws(rest: seq<seq<Node>>, b: nat)
    requires 2 <= |rest| && 0 < b && |rest[0]| == b - 1
    requires TotalLen(rest) == |rest| * b - (|rest| - 1)
    ensures SpreadSpec(rest, |rest| * b - (|rest| - 1)) == EmptyBucket
  {
    var h := |rest|;
    assert h * b - (h - 1) == (b - 1) * h + 1 by {
      assert h * b == (b - 1) * h + h;
    }
    DivModOf(b - 1, h, 1);
    assert Share(h * b - (h - 1), h, 0) == b;
  }

  /**
   * The same shape with one master fewer than hosts makes the second draw
   * panic: it restarts at the first host, which the first draw left one
   * node short.
   */
  lemma EvenHostsOneMasterShort(nodes: seq<Node>, order: seq<string>, b: nat)
    requires HostOrder(nodes, order) && |order| >= 2 && b > 0 && EvenHosts(nodes, order, b)
    ensures PlanLayout(nodes, order, |order| - 1) == None
  {
    var h := |order|;
    var groups := Groups(nodes, order);
    PlanSteps(nodes, order, h - 1);
    GroupsHoldNodes(nodes, order);
    EvenFirstDraw(groups, b, h - 1);
    RemainingTotal(groups, h - 1);
    OneShortOverdraws(Remaining(groups, h - 1), b);
  }

  /** The replicas as `distribute_slave` assigns them: replica `k` follows master `k % |masters|`. */
  function Replicas(masters: seq<Node>, slaves: seq<Node>): seq<Node>
    requires |masters| > 0 || slaves == []
  {
    seq(|slaves|, k requires 0 <= k < |slaves| =>
      Node(slaves[k].ip, slaves[k].port, Some(Key(masters[k % |masters|]))))
  }

  /** How many of `replicas` follow the master with key `key`. */
  function FollowerCount(replicas: seq<Node>, key: string): nat
  {
    if replicas == [] then 0
    else FollowerCount(replicas[..|replicas| - 1], key) + (if replicas[|replicas| - 1].slave == Some(key) then 1 else 0)
  }

  /**
   * Every replica appears once, under its own address, following one of
   * the masters; distinct addresses stay distinct.
   */
  lemma ReplicasCoverSlaves(masters: seq<Node>, slaves: seq<Node>)
    requires |masters| > 0 || slaves == []
    ensures |Replicas(masters, slaves)| == |slaves|
    ensures forall k | 0 <= k < |slaves| ::
      Key(Replicas(masters, slaves)[k]) == Key(slaves[k]) &&
      exists i | 0 <= i < |masters| :: Replicas(masters, slaves)[k].slave == Some(Key(masters[i]))
    ensures DistinctKeys(slaves) ==> DistinctKeys(Replicas(masters, slaves))
  {
  }

  /**
   * The assignment is even: with distinct master addresses, master `i`
   * gets `divide(|slaves|, |masters|)[i]` replicas.
   */
  lemma {:induction false} ReplicasPerMaster(masters: seq<Node>, slaves: seq<Node>, i: nat)
    requires i < |masters| && DistinctKeys(masters)
    ensures FollowerCount(Replicas(masters, slaves), Key(masters[i])) == Shares(|slaves|, |masters|)[i]
    decreases |slaves|
  {
    var m := |masters|;
    if slaves == [] {
    } else {
      var init := slaves[..|slaves| - 1];
      ReplicasPerMaster(masters, init, i);
      var rs := Replicas(masters, slaves);
      assert rs[..|rs| - 1] == Replicas(masters, init);
      var j := |init| % m;
      assert rs[|rs| - 1].slave == Some(Key(masters[j]));
      assert Key(masters[j]) == Key(masters[i]) <==> j == i;
      ShareStep(|init|, m, i);
    }
  }

  /** In one pass over the masters, no master receives two replicas. */
  lemma ReplicasOnePerPass(masters: seq<Node>, slaves: seq<Node>)
    requires |masters| > 0 && DistinctKeys(masters)
    ensures var rs, m := Replicas(masters, slaves), |masters|;
      forall k1, k2 | 0 <= k1 < k2 < |slaves| && k1 / m == k2 / m :: rs[k1].slave != rs[k2].slave
  {
    var rs, m := Replicas(masters, slaves), |masters|;
    forall k1, k2 | 0 <= k1 < k2 < |slaves| && k1 / m == k2 / m
      ensures rs[k1].slave != rs[k2].slave
    {
      var p := k1 / m;
      DivModOf(p, m, k1 % m);
      DivModOf(p, m, k2 % m);
      assert k1 == p * m + k1 % m && k2 == p * m + k2 % m;
      assert k1 % m < k2 % m;
      assert Key(masters[k1 % m]) != Key(masters[k2 % m]);
    }
  }

  function KeySet(s: seq<Node>): set<string>
  {
    set k | 0 <= k < |s| :: Key(s[k])
  }

  // ---------------------------------------------------------------------
  // Slot grants

  /** The slots of a chunk. */
  function ChunkSlots(c: Chunk): seq<nat>
  {
    Conn.SlotRange(c.start, c.end)
  }

  /** `add_slots` as requests: master `i` is granted the chunk popped `i`-th from the end. */
  function Grants(masters: seq<Node>, chunks: seq<Chunk>): seq<Conn.Call>
    requires |chunks| >= |masters|
  {
    seq(|masters|, i requires 0 <= i < |masters| =>
      Conn.Call(masters[i].ip, masters[i].port, Conn.AddSlots(ChunkSlots(chunks[|chunks| - 1 - i]))))
  }

  lemma GrantHolds(masters: seq<Node>, chunks: seq<Chunk>, i: nat, slot: nat)
    requires |chunks| >= |masters| && i < |masters|
    ensures slot in Grants(masters, chunks)[i].command.slots <==> chunks[|chunks| - 1 - i].Holds(slot)
  {
    var c := chunks[|chunks| - 1 - i];
    if c.Holds(slot) {
      assert Conn.SlotRange(c.start, c.end)[slot - c.start] == slot;
    }
  }

  lemma ChunksEndAt(n: nat, m: nat, i: nat)
    requires m > 0 && i < m
    ensures SlotChunks(n, m)[i].end <= n
  {
    PrefixSumMonotone(Shares(n, m), i + 1, m);
    assert Shares(n, m)[..m] == Shares(n, m);
    SharesSum(n, m);
  }

  /**
   * Granting `slpit_slots(16384, m)` to `m` masters gives every slot of the
   * cluster to exactly one master.
   */
  lemma GrantsPartitionSlots(masters: seq<Node>, slot: nat)
    requires |masters| > 0 && slot < ClusterSlots
    ensures var g := Grants(masters, SlotChunks(ClusterSlots, |masters|));
      (exists i | 0 <= i < |masters| :: slot in g[i].command.slots) &&
      (forall i, j | 0 <= i < |masters| && 0 <= j < |masters| && slot in g[i].command.slots && slot in g[j].command.slots :: i == j)
  {
    var m := |masters|;
    var chunks := SlotChunks(ClusterSlots, m);
    var g := Grants(masters, chunks);
    SlotChunksPartition(ClusterSlots, m, slot);
    var k :| 0 <= k < m && chunks[k].Holds(slot);
    GrantHolds(masters, chunks, m - 1 - k, slot);
    assert slot in g[m - 1 - k].command.slots;
    forall i, j | 0 <= i < m && 0 <= j < m && slot in g[i].command.slots && slot in g[j].command.slots
      ensures i == j
    {
      GrantHolds(masters, chunks, i, slot);
      GrantHolds(masters, chunks, j, slot);
    }
  }

  /** No master is granted a slot outside the cluster's 16384. */
  lemma GrantsStayInCluster(masters: seq<Node>, slot: nat)
    requires |masters| > 0 && slot >= ClusterSlots
    ensures var g := Grants(masters, SlotChunks(ClusterSlots, |masters|));
      forall i | 0 <= i < |masters| :: slot !in g[i].command.slots
  {
    var m := |masters|;
    var chunks := SlotChunks(ClusterSlots, m);
    forall i | 0 <= i < m
      ensures slot !in Grants(masters, chunks)[i].command.slots
    {
      GrantHolds(masters, chunks, i, slot);
      ChunksEndAt(ClusterSlots, m, m - 1 - i);
    }
  }

  /** The host map `init_slots` builds: each node pushed onto the bucket of its host. */
  method GroupByHost(nodes: seq<Node>, order: seq<string>) returns (hosts: array<seq<Node>>)
    requires HostOrder(nodes, order)
    ensures fresh(hosts) && hosts[..] == Groups(nodes, order)
  {
    hosts := new seq<Node>[|order|](_ => []);
    for k := 0 to |nodes|
      invariant hosts[..] == Groups(nodes[..k], order)
    {
      assert nodes[..k + 1] == nodes[..k] + [nodes[k]];
      assert nodes[k] in nodes;
      GroupsSnoc(nodes[..k], nodes[k], order);
      var i := IndexOf(order, nodes[k].ip);
      hosts[i] := hosts[i] + [nodes[k]];
    }
    assert nodes[..|nodes|] == nodes;
  }

  /**
   * The two draws of `init_slots` from the host map: the masters, then
   * every node left; `None` where `spread` panics.
   */
  method DrawLayout(nodes: seq<Node>, order: seq<string>, masterCount: nat) returns (r: Option<Layout>)
    requires masterCount > 0 && HostOrder(nodes, order)
    ensures r == PlanLayout(nodes, order, masterCount)
  {
    var hosts := GroupByHost(nodes, order);
    ghost var groups := hosts[..];
    PlanSteps(nodes, order, masterCount);
    var first := Spread(hosts, masterCount);
    if !first.Picked? {
      return None;
    }
    ghost var rest := hosts[..];
    assert rest == Remaining(groups, masterCount);
    var second := Spread(hosts, |nodes| - masterCount);
    if !second.Picked? {
      return None;
    }
    return Some(Layout(first.nodes, second.nodes));
  }

  /** The two draws of `init_slots`, step by step. */
  lemma PlanSteps(nodes: seq<Node>, order: seq<string>, masterCount: nat)
    requires masterCount > 0 && HostOrder(nodes, order)
    ensures var groups := Groups(nodes, order);
      var first := SpreadSpec(groups, masterCount);
      (!first.Picked? ==> PlanLayout(nodes, order, masterCount) == None) &&
      (first.Picked? ==>
        |nodes| >= masterCount && |groups| > 0 && SharesFit(groups, masterCount) &&
        var second := SpreadSpec(Remaining(groups, masterCount), |nodes| - masterCount);
        PlanLayout(nodes, order, masterCount) == if second.Picked? then Some(Layout(first.nodes, second.nodes)) else None)
  {
    GroupsHoldNodes(nodes, order);
  }

  /** The masters drawn number `masterCount`, and the replicas keep distinct addresses. */
  lemma LayoutReplicasDistinct(nodes: seq<Node>, order: seq<string>, masterCount: nat)
    requires masterCount > 0 && HostOrder(nodes, order) && PlanLayout(nodes, order, masterCount).Some?
    requires DistinctKeys(nodes)
    ensures var l := PlanLayout(nodes, order, masterCount).value;
      |l.masters| == masterCount && DistinctKeys(l.replicas)
  {
    LayoutUsesEveryNode(nodes, order, masterCount);
    var l := PlanLayout(nodes, order, masterCount).value;
    SubsetDistinct(l.replicas, nodes, l.masters);
  }

  // ---------------------------------------------------------------------
  // The cluster being created

  class Cluster {
    var nodes: seq<Node>
    var masterCount: nat
    var slaveCount: nat
    var slots: seq<Chunk>
    var master: seq<Node>
    var slave: seq<Node>

    /** The state `Cluster::new` leaves: a validated master count and nothing placed yet. */
    ghost predicate Unplaced()
      reads this
    {
      masterCount >= 3 && slots == [] && master == [] && slave == []
    }

    constructor Init(nodes: seq<Node>, masterCount: nat, slaveCount: nat)
      ensures this.nodes == nodes && this.masterCount == masterCount && this.slaveCount == slaveCount
      ensures slots == [] && master == [] && slave == []
    {
      this.nodes := nodes;
      this.masterCount := masterCount;
      this.slaveCount := slaveCount;
      slots := [];
      master := [];
      slave := [];
    }

    /**
     * `Cluster::new`: parses every address (an unparsable one panics) and
     * settles the master count, failing with `BadCluster` below 3.
     */
    static method New(addrs: seq<string>, masterCount: nat, slaveCount: nat) returns (r: Result<Cluster, Error>)
      requires forall a | a in addrs :: ParseNode(a).Success?
      ensures r.Success? <==> MasterCount(|addrs|, masterCount, slaveCount).Success?
      ensures r.Failure? ==> r.error == BadCluster
      ensures r.Success? ==>
        fresh(r.value) && r.value.Unplaced() &&
        r.value.nodes == seq(|addrs|, i requires 0 <= i < |addrs| => ParseNode(addrs[i]).value) &&
        r.value.masterCount == MasterCount(|addrs|, masterCount, slaveCount).value &&
        r.value.slaveCount == slaveCount
    {
      var nodes: seq<Node> := [];
      for k := 0 to |addrs|
        invariant nodes == seq(k, i requires 0 <= i < k => ParseNode(addrs[i]).value)
      {
        assert addrs[k] in addrs;
        var node := ParseNode(addrs[k]).value;
        nodes := nodes + [node];
      }
      var cluster := new Cluster.Init(nodes, masterCount, slaveCount);
      var count := masterCount;
      if count == 0 {
        count := |cluster.nodes| / (slaveCount + 1);
      }
      if count < 3 {
        return Failure(BadCluster);
      }
      cluster.masterCount := count;
      cluster.slaveCount := slaveCount;
      return Success(cluster);
    }

    /**
     * `init_slots`, with the host map's iteration order given as `order`:
     * draws the masters, splits the slots, draws the replicas and assigns
     * them; `false` where a draw panics.
     */
    method InitSlots(order: seq<string>) returns (ok: bool)
      requires Unplaced() && HostOrder(nodes, order)
      requires PlanLayout(nodes, order, masterCount).Some? ==> DistinctKeys(PlanLayout(nodes, order, masterCount).value.replicas)
      modifies this
      ensures nodes == old(nodes) && masterCount == old(masterCount) && slaveCount == old(slaveCount)
      ensures ok <==> PlanLayout(nodes, order, masterCount).Some?
      ensures ok ==>
        var l := PlanLayout(nodes, order, masterCount).value;
        master == l.masters &&
        slots == SlotChunks(ClusterSlots, masterCount) &&
        |l.masters| > 0 &&
        slave == Replicas(l.masters, l.replicas)
    {
      var layout := DrawLayout(nodes, order, masterCount);
      if layout.None? {
        return false;
      }
      LayoutUsesEveryNode(nodes, order, masterCount);
      master := layout.value.masters;
      var chunks := SplitSlots(ClusterSlots, masterCount);
      slots := chunks.value;
      DistributeSlave(layout.value.replicas);
      return true;
    }

    /**
     * `distribute_slave`: pass after pass, each master in turn takes the
     * first replica whose address is not yet in use, until every replica
     * is placed.
     */
    method DistributeSlave(slaves: seq<Node>)
      requires |master| > 0 || slaves == []
      requires DistinctKeys(slaves) && slave == []
      modifies this`slave
      ensures slave == Replicas(master, slaves)
    {
      var m := |master|;
      var inuse: set<string> := {};
      ghost var p: nat := 0;
      while true
        invariant |slave| == p * m <= |slaves|
        invariant slave == Replicas(master, slaves[..|slave|])
        invariant inuse == KeySet(slaves[..|slave|])
        decreases |slaves| - |slave|
      {
        for mi := 0 to m
          invariant |slave| == if p * m + mi < |slaves| then p * m + mi else |slaves|
          invariant slave == Replicas(master, slaves[..|slave|])
          invariant inuse == KeySet(slaves[..|slave|])
        {
          ghost var t := |slave|;
          for s := 0 to |slaves|
            invariant s <= t && slave == Replicas(master, slaves[..t]) && inuse == KeySet(slaves[..t])
          {
            var key := HostPort(slaves[s].ip, slaves[s].port);
            if key in inuse {
              UsedBefore(slaves, t, s);
              continue;
            }
            assert s == t;
            inuse := inuse + {key};
            var slaveof := HostPort(master[mi].ip, master[mi].port);
            DivModOf(p, m, mi);
            ReplicasSnoc(master, slaves, t);
            assert KeySet(slaves[..t + 1]) == KeySet(slaves[..t]) + {key} by {
              assert forall k | 0 <= k < t :: slaves[..t + 1][k] == slaves[..t][k];
            }
            slave := slave + [Node(slaves[s].ip, slaves[s].port, Some(slaveof))];
            break;
          }
        }
        if |slave| >= |slaves| {
          assert slaves[..|slaves|] == slaves;
          break;
        }
        assert (p + 1) * m == p * m + m;
        p := p + 1;
      }
    }

    /**
     * `add_slots`: each master in order pops the last chunk left and is
     * sent `CLUSTER ADDSLOTS` for its slots.
     */
    method AddSlots() returns (calls: seq<Conn.Call>)
      requires |slots| >= |master|
      modifies this`slots
      ensures slots == old(slots)[..|old(slots)| - |master|]
      ensures calls == Grants(master, old(slots))
    {
      calls := [];
      for i := 0 to |master|
        invariant slots == old(slots)[..|old(slots)| - i]
        invariant calls == Grants(master, old(slots))[..i]
      {
        var node := master[i];
        var chunk := slots[|slots| - 1];
        slots := slots[..|slots| - 1];
        calls := calls + [Conn.Call(node.ip, node.port, Conn.AddSlots(Conn.SlotRange(chunk.start, chunk.end)))];
      }
    }
  }

  lemma UsedBefore(slaves: seq<Node>, t: nat, s: nat)
    requires DistinctKeys(slaves) && s < |slaves| && t <= |slaves|
    requires HostPort(slaves[s].ip, slaves[s].port) in KeySet(slaves[..t])
    ensures s < t
  {
    var u :| 0 <= u < t && Key(slaves[..t][u]) == Key(slaves[s]);
    assert slaves[..t][u] == slaves[u];
  }

  lemma ReplicasSnoc(masters: seq<Node>, slaves: seq<Node>, t: nat)
    requires |masters| > 0 && t < |slaves|
    ensures Replicas(masters, slaves[..t + 1]) ==
      Replicas(masters, slaves[..t]) + [Node(slaves[t].ip, slaves[t].port, Some(Key(masters[t % |masters|])))]
  {
  }

  lemma TwiceInMultiset(s: seq<Node>, i: nat, j: nat)
    requires i < j < |s| && s[i] == s[j]
    ensures multiset(s)[s[i]] >= 2
  {
    assert s == s[..j] + [s[j]] + s[j + 1..];
    assert s[..j][i] == s[i];
    assert multiset(s) == multiset(s[..j]) + multiset{s[j]} + multiset(s[j + 1..]);
  }

  /** Replicas drawn from distinct nodes beside the masters keep distinct addresses. */
  lemma SubsetDistinct(part: seq<Node>, whole: seq<Node>, other: seq<Node>)
    requires DistinctKeys(whole) && multiset(other) + multiset(part) == multiset(whole)
    ensures DistinctKeys(part)
  {
    forall i, j | 0 <= i < j < |part|
      ensures Key(part[i]) != Key(part[j])
    {
      var a, b := part[i], part[j];
      assert a in multiset(whole) && b in multiset(whole);
      if Key(a) == Key(b) {
        DistinctKeysOnce(whole, a);
        TwiceInMultiset(part, i, j);
      }
    }
  }
}
