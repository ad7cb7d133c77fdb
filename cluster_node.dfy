/**
 * The node record of cluster.rs: what the tool knows about one Redis
 * Cluster node, as parsed from an `ip:port` argument or from a line of a
 * `CLUSTER NODES` reply. The connection handle the record carries is not
 * part of the value.
 */
module ClusterNode {
  import opened Wrappers
  import opened Text

  datatype Role = Master | Slave

  /** The failures cluster.rs reports (its `Error::None` is never produced). */
  datatype Error = BadAddr | BadCluster

  datatype Node = Node(
    name: string,
    ip: string,
    port: string,
    role: Option<Role>,
    slaveof: Option<string>,
    slots: Option<seq<nat>>)

  /** `Node::new`: an address with exactly two `:`-pieces, named after the whole address. */
  function New(addr: string): (r: Result<Node, Error>)
    ensures r.Success? ==> r.value.role == None && r.value.slaveof == None && r.value.slots == None
  {
    var items := Split(addr, ":");
    if |items| != 2 then Failure(BadAddr)
    else Success(Node(addr, items[0], items[1], None, None, None))
  }

  /** `Node::addr`. */
  function Addr(n: Node): (a: string)
    ensures WellFormed(n) ==> Split(a, ":") == [n.ip, n.port]
  {
    if WellFormed(n) then HostPortPieces(n.ip, n.port); HostPort(n.ip, n.port)
    else HostPort(n.ip, n.port)
  }

  /** `PartialEq for Node`: two records denote the same node when ip and port agree. */
  predicate Same(a: Node, b: Node)
    ensures Same(a, b) ==> Addr(a) == Addr(b)
  {
    a.ip == b.ip && a.port == b.port
  }

  /** `Node::is_master`. */
  predicate IsMaster(n: Node)
    ensures IsMaster(n) ==> n.role.Some? && n.role.value != Slave
  {
    n.role == Some(Master)
  }

  predicate WellFormed(n: Node)
  {
    ':' !in n.ip && ':' !in n.port
  }

  /**
   * `Node::new` accepts exactly the inputs holding one `:`; then `ip` and
   * `port` are the text either side of it, `name` is the whole input and
   * `addr()` gives the input back.
   */
  lemma NewAccepts(s: string)
    ensures New(s).Success? <==> Count(s, ':') == 1
    ensures New(s).Success? ==> New(s).value.name == s && Addr(New(s).value) == s && WellFormed(New(s).value)
  {
    AddrPieces(s);
  }

  /** Parsing the address of a well-formed node gives back its ip and port, named after the address. */
  lemma NewOfAddr(n: Node)
    requires WellFormed(n)
    ensures New(Addr(n)) == Success(Node(Addr(n), n.ip, n.port, None, None, None))
  {
    HostPortPieces(n.ip, n.port);
  }

  /**
   * Equality compares the address only: for well-formed nodes it holds iff
   * the addresses agree, whatever the names, roles, replica-of and slots.
   */
  lemma SameIffSameAddr(a: Node, b: Node)
    requires WellFormed(a) && WellFormed(b)
    ensures Same(a, b) <==> Addr(a) == Addr(b)
  {
    if Addr(a) == Addr(b) {
      HostPortPieces(a.ip, a.port);
      HostPortPieces(b.ip, b.port);
    }
  }

  /** The test case of cluster.rs. */
  lemma NewExample()
    ensures New("127.0.0.1:8888").Success?
    ensures New("127.0.0.1:8888").value.ip == "127.0.0.1" && New("127.0.0.1:8888").value.port == "8888"
  {
    HostPortPieces("127.0.0.1", "8888");
    assert HostPort("127.0.0.1", "8888") == "127.0.0.1:8888";
  }
}
