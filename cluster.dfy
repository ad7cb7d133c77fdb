/**
 * The cluster operations of cluster.rs over a list of known nodes: address
 * lookup, the slot-ownership consistency check over the `CLUSTER NODES`
 * views the nodes report, live migration of one slot, and the removal of a
 * node (its slots handed to the other masters, then forgotten).
 */
module Cluster {
  import opened Wrappers
  import opened ClusterNode
  import opened SlotAllocator
  import Conn

  // ---------------------------------------------------------------------
  // Cluster::node

  /** `Cluster::node`: the first node whose address is `addr`. */
  function Lookup(nodes: seq<Node>, addr: string): (r: Option<Node>)
    ensures r.None? <==> forall i | 0 <= i < |nodes| :: Addr(nodes[i]) != addr
    ensures r.Some? ==> Addr(r.value) == addr && r.value in nodes
  {
    if nodes == [] then None
    else if Addr(nodes[0]) == addr then Some(nodes[0])
    else
      var r := Lookup(nodes[1..], addr);
      assert forall i | 1 <= i < |nodes| :: nodes[i] == nodes[1..][i - 1];
      r
  }

  /** The node found is the first with that address: every node before it has another. */
  lemma {:induction false} LookupFirst(nodes: seq<Node>, addr: string, i: nat)
    requires i < |nodes| && Addr(nodes[i]) == addr
    requires forall j | 0 <= j < i :: Addr(nodes[j]) != addr
    ensures Lookup(nodes, addr) == Some(nodes[i])
    decreases i
  {
    if i > 0 {
      LookupFirst(nodes[1..], addr, i - 1);
    }
  }

  // ---------------------------------------------------------------------
  // Cluster::consistency

  /** One node's claim, in some view, to own a slot. */
  datatype Claim = Claim(slot: nat, owner: Node)

  /** The claims of a node record: one per slot listed (none when its slots are unknown). */
  function NodeClaims(n: Node): seq<Claim>
  {
    if n.slots.None? then []
    else seq(|n.slots.value|, i requires 0 <= i < |n.slots.value| => Claim(n.slots.value[i], n))
  }

  /** The claims of one view, node by node. */
  function ViewClaims(view: seq<Node>): seq<Claim>
  {
    if view == [] then [] else ViewClaims(view[..|view| - 1]) + NodeClaims(view[|view| - 1])
  }

  /** The claims of all views, view by view. */
  function AllClaims(views: seq<seq<Node>>): seq<Claim>
  {
    if views == [] then [] else AllClaims(views[..|views| - 1]) + ViewClaims(views[|views| - 1])
  }

  /** Claims to the same slot name the same node. */
  ghost predicate Agreeing(claims: seq<Claim>)
  {
    forall c, d | c in claims && d in claims && c.slot == d.slot :: Same(c.owner, d.owner)
  }

  /**
   * What `consistency` checks over the views the nodes report: all claims,
   * across every view, agree on the owner of each slot, and each view
   * counts exactly 16384 claims.
   */
  ghost predicate Consistent(views: seq<seq<Node>>)
    ensures Consistent(views) ==>
      forall c, d | c in AllClaims(views) && d in AllClaims(views) && c.slot == d.slot :: Addr(c.owner) == Addr(d.owner)
    ensures Consistent(views) ==> |AllClaims(views)| == |views| * ClusterSlots
  {
    if Counted(views) then AllClaimsCounted(views); Agreeing(AllClaims(views)) else false
  }

  /** Views of 16384 claims each hold 16384 claims per view in all. */
  lemma {:induction false} AllClaimsCounted(views: seq<seq<Node>>)
    requires Counted(views)
    ensures |AllClaims(views)| == |views| * ClusterSlots
    decreases |views|
  {
    if views != [] {
      var init := views[..|views| - 1];
      assert Counted(init) by {
        forall v | 0 <= v < |init| ensures |ViewClaims(init[v])| == ClusterSlots {
          assert init[v] == views[v];
        }
      }
      AllClaimsCounted(init);
      assert |views| * ClusterSlots == |init| * ClusterSlots + ClusterSlots;
    }
  }

  /** Every view counts exactly 16384 claims. */
  ghost predicate Counted(views: seq<seq<Node>>)
  {
    forall v | 0 <= v < |views| :: |ViewClaims(views[v])| == ClusterSlots
  }

  lemma CountedStep(views: seq<seq<Node>>, v: nat)
    requires v < |views| && Counted(views[..v]) && |ViewClaims(views[v])| == ClusterSlots
    ensures Counted(views[..v + 1])
  {
    assert views[..v + 1] == views[..v] + [views[v]];
  }

  /** The owner map `consistency` keeps: it holds the slots seen and agrees with every claim seen. */
  ghost predicate Recorded(owner: map<nat, Node>, seen: seq<Claim>)
  {
    owner.Keys == (set c | c in seen :: c.slot) &&
    forall c | c in seen :: Same(owner[c.slot], c.owner)
  }

  lemma RecordedAgreeing(owner: map<nat, Node>, seen: seq<Claim>)
    requires Recorded(owner, seen)
    ensures Agreeing(seen)
  {
  }

  /** A first claim to a slot is recorded as its owner. */
  lemma RecordNew(owner: map<nat, Node>, seen: seq<Claim>, c: Claim)
    requires Recorded(owner, seen) && c.slot !in owner
    ensures Recorded(owner[c.slot := c.owner], seen + [c])
  {
    var next := owner[c.slot := c.owner];
    forall x | x in seen + [c]
      ensures Same(next[x.slot], x.owner)
    {
      if x != c {
        assert x in seen;
      }
    }
  }

  /** A further claim that agrees with the recorded owner changes nothing. */
  lemma RecordAgain(owner: map<nat, Node>, seen: seq<Claim>, c: Claim)
    requires Recorded(owner, seen) && c.slot in owner && Same(owner[c.slot], c.owner)
    ensures Recorded(owner, seen + [c])
  {
    forall x | x in seen + [c]
      ensures Same(owner[x.slot], x.owner)
    {
      if x != c {
        assert x in seen;
      }
    }
  }

  /** A further claim that names another owner is a conflict. */
  lemma RecordConflict(owner: map<nat, Node>, seen: seq<Claim>, c: Claim)
    requires Recorded(owner, seen) && c.slot in owner && !Same(owner[c.slot], c.owner)
    ensures !Agreeing(seen + [c])
  {
    var d :| d in seen && d.slot == c.slot;
    assert d in seen + [c] && c in seen + [c];
  }

  lemma DisagreeWithin(a: seq<Claim>, b: seq<Claim>)
    requires forall c | c in a :: c in b
    requires !Agreeing(a)
    ensures !Agreeing(b)
  {
    var c, d :| c in a && d in a && c.slot == d.slot && !Same(c.owner, d.owner);
    assert c in b && d in b;
  }

  lemma AppendMembers(seen: seq<Claim>, a: seq<Claim>, b: seq<Claim>)
    requires forall c | c in a :: c in b
    ensures forall c | c in seen + a :: c in seen + b
  {
  }

  /** A conflict among the claims of the first `k` nodes of a view is a conflict in the whole view. */
  lemma ViewConflict(seen: seq<Claim>, view: seq<Node>, k: nat)
    requires k <= |view| && !Agreeing(seen + ViewClaims(view[..k]))
    ensures !Agreeing(seen + ViewClaims(view))
  {
    ViewClaimsPrefix(view, k);
    AppendMembers(seen, ViewClaims(view[..k]), ViewClaims(view));
    DisagreeWithin(seen + ViewClaims(view[..k]), seen + ViewClaims(view));
  }

  lemma NodeStep(view: seq<Node>, k: nat)
    requires k < |view|
    ensures ViewClaims(view[..k + 1]) == ViewClaims(view[..k]) + NodeClaims(view[k])
  {
    assert view[..k + 1][..k] == view[..k];
  }

  lemma PrefixMembers(s: seq<Claim>, k: nat)
    requires k <= |s|
    ensures forall x | x in s[..k] :: x in s
  {
  }

  lemma {:induction false} ViewClaimsPrefix(view: seq<Node>, k: nat)
    requires k <= |view|
    ensures forall c | c in ViewClaims(view[..k]) :: c in ViewClaims(view)
    decreases |view| - k
  {
    if k < |view| {
      var longer := view[..k + 1];
      assert longer[..k] == view[..k];
      assert ViewClaims(longer) == ViewClaims(view[..k]) + NodeClaims(view[k]);
      ViewClaimsPrefix(view, k + 1);
    } else {
      assert view[..k] == view;
    }
  }

  lemma {:induction false} AllClaimsPrefix(views: seq<seq<Node>>, v: nat)
    requires v <= |views|
    ensures forall c | c in AllClaims(views[..v]) :: c in AllClaims(views)
    decreases |views| - v
  {
    if v < |views| {
      var longer := views[..v + 1];
      assert longer[..v] == views[..v];
      assert AllClaims(longer) == AllClaims(views[..v]) + ViewClaims(views[v]);
      AllClaimsPrefix(views, v + 1);
    } else {
      assert views[..v] == views;
    }
  }

  lemma MiscountedView(views: seq<seq<Node>>, v: nat)
    requires v < |views| && |ViewClaims(views[v])| != ClusterSlots
    ensures !Counted(views)
  {
  }

  lemma ViewStep(views: seq<seq<Node>>, v: nat)
    requires v < |views|
    ensures AllClaims(views[..v + 1]) == AllClaims(views[..v]) + ViewClaims(views[v])
  {
    assert views[..v + 1][..v] == views[..v];
  }

  /** Every claim of view `v` is among the claims of all views. */
  lemma ViewInAll(views: seq<seq<Node>>, v: nat)
    requires v < |views|
    ensures forall c | c in ViewClaims(views[v]) :: c in AllClaims(views)
  {
    var longer := views[..v + 1];
    assert longer[..v] == views[..v];
    assert AllClaims(longer) == AllClaims(views[..v]) + ViewClaims(views[v]);
    AllClaimsPrefix(views, v + 1);
  }

  /**
   * Conflicts between views count too: two views that name owners with
   * different addresses for one slot make the cluster inconsistent.
   */
  lemma CrossViewConflict(views: seq<seq<Node>>, a: nat, b: nat, c: Claim, d: Claim)
    requires a < |views| && b < |views|
    requires c in ViewClaims(views[a]) && d in ViewClaims(views[b])
    requires c.slot == d.slot && !Same(c.owner, d.owner)
    ensures !Consistent(views)
  {
    ViewInAll(views, a);
    ViewInAll(views, b);
  }

  /**
   * The count is of claims, not of distinct slots: one view in which a
   * single node lists slot 0 16384 times passes the check.
   */
  lemma CountIsNotCoverage(n: Node)
    requires n.slots == Some(seq(ClusterSlots, i => 0))
    ensures Consistent([[n]])
  {
    assert [[n]][..0] == [];
    assert [n][..0] == [];
    assert ViewClaims([n]) == NodeClaims(n);
    assert AllClaims([[n]]) == NodeClaims(n);
  }

  /** The inner loop of `consistency` over one node's slots. */
  method AbsorbNode(owner: map<nat, Node>, n: Node, ghost seen: seq<Claim>)
    returns (ok: bool, owner': map<nat, Node>, count: nat)
    requires Recorded(owner, seen)
    ensures ok ==> Recorded(owner', seen + NodeClaims(n)) && count == |NodeClaims(n)|
    ensures !ok ==> !Agreeing(seen + NodeClaims(n))
  {
    owner' := owner;
    count := 0;
    if n.slots.None? {
      assert seen + NodeClaims(n) == seen;
      return true, owner', count;
    }
    var slots := n.slots.value;
    for i := 0 to |slots|
      invariant Recorded(owner', seen + NodeClaims(n)[..i]) && count == i
    {
      var slot := slots[i];
      ghost var before := seen + NodeClaims(n)[..i];
      ClaimStep(seen, n, i);
      if slot in owner' {
        if !Same(owner'[slot], n) {
          NodeConflict(owner', seen, n, i);
          return false, owner', count;
        }
        RecordAgain(owner', before, Claim(slot, n));
        count := count + 1;
      } else {
        RecordNew(owner', before, Claim(slot, n));
        count := count + 1;
        owner' := owner'[slot := n];
      }
    }
    assert NodeClaims(n)[..|slots|] == NodeClaims(n);
    return true, owner', count;
  }

  lemma ClaimStep(seen: seq<Claim>, n: Node, i: nat)
    requires n.slots.Some? && i < |n.slots.value|
    ensures seen + NodeClaims(n)[..i + 1] == (seen + NodeClaims(n)[..i]) + [Claim(n.slots.value[i], n)]
  {
    assert NodeClaims(n)[..i + 1] == NodeClaims(n)[..i] + [Claim(n.slots.value[i], n)];
  }

  /** A claim of `n` that clashes with the recorded owner makes the whole sequence disagree. */
  lemma NodeConflict(owner: map<nat, Node>, seen: seq<Claim>, n: Node, i: nat)
    requires n.slots.Some? && i < |n.slots.value|
    requires Recorded(owner, seen + NodeClaims(n)[..i])
    requires n.slots.value[i] in owner && !Same(owner[n.slots.value[i]], n)
    ensures !Agreeing(seen + NodeClaims(n))
  {
    var c := Claim(n.slots.value[i], n);
    var before := seen + NodeClaims(n)[..i];
    ClaimStep(seen, n, i);
    RecordConflict(owner, before, c);
    assert (seen + NodeClaims(n))[..|seen| + i + 1] == before + [c];
    PrefixMembers(seen + NodeClaims(n), |seen| + i + 1);
    DisagreeWithin(before + [c], seen + NodeClaims(n));
  }

  /** The middle loop of `consistency` over the nodes of one view. */
  method AbsorbView(owner: map<nat, Node>, view: seq<Node>, ghost seen: seq<Claim>)
    returns (ok: bool, owner': map<nat, Node>, count: nat)
    requires Recorded(owner, seen)
    ensures ok ==> Recorded(owner', seen + ViewClaims(view)) && count == |ViewClaims(view)|
    ensures !ok ==> !Agreeing(seen + ViewClaims(view))
  {
    owner' := owner;
    count := 0;
    for k := 0 to |view|
      invariant Recorded(owner', seen + ViewClaims(view[..k])) && count == |ViewClaims(view[..k])|
    {
      ghost var done := seen + ViewClaims(view[..k]);
      NodeStep(view, k);
      var nodeOk, next, added := AbsorbNode(owner', view[k], done);
      assert done + NodeClaims(view[k]) == seen + ViewClaims(view[..k + 1]);
      if !nodeOk {
        ViewConflict(seen, view, k + 1);
        return false, owner', count;
      }
      owner', count := next, count + added;
    }
    assert view[..|view|] == view;
    return true, owner', count;
  }

  /**
   * `Cluster::consistency`, over the views the nodes report (`views[i]` is
   * node `i`'s `CLUSTER NODES`): one owner map shared by all views, and a
   * claim count reset for each view.
   */
  method Consistency(views: seq<seq<Node>>) returns (ok: bool)
    ensures ok == Consistent(views)
  {
    var owner: map<nat, Node> := map[];
    ghost var seen: seq<Claim> := [];
    for v := 0 to |views|
      invariant seen == AllClaims(views[..v]) && Recorded(owner, seen)
      invariant Counted(views[..v])
    {
      ViewStep(views, v);
      var viewOk, next, count := AbsorbView(owner, views[v], seen);
      if !viewOk {
        AllClaimsPrefix(views, v + 1);
        DisagreeWithin(AllClaims(views[..v + 1]), AllClaims(views));
        assert !Agreeing(AllClaims(views));
        return false;
      }
      if count != ClusterSlots {
        MiscountedView(views, v);
        return false;
      }
      CountedStep(views, v);
      owner := next;
      seen := seen + ViewClaims(views[v]);
    }
    assert views[..|views|] == views;
    RecordedAgreeing(owner, AllClaims(views));
    return true;
  }

  // ---------------------------------------------------------------------
  // migrate_slot

  /** The number of keys `migrate_slot` asks for in each `CLUSTER GETKEYSINSLOT`. */
  const KeyBatch: nat := 100

  /**
   * The successive replies of `CLUSTER GETKEYSINSLOT` on the source run dry
   * at some point (an empty reply, or none, ends the drain).
   */
  ghost predicate Drained(replies: seq<seq<string>>)
  {
    exists i | 0 <= i < |replies| :: replies[i] == []
  }

  /** The position of the first empty reply. */
  function FirstEmpty(replies: seq<seq<string>>): (i: nat)
    requires Drained(replies)
    ensures i < |replies| && replies[i] == [] && forall j | 0 <= j < i :: replies[j] != []
    decreases |replies|
  {
    if replies[0] == [] then 0
    else
      assert Drained(replies[1..]) by {
        var i :| 0 <= i < |replies| && replies[i] == [];
        assert replies[1..][i - 1] == [];
      }
      1 + FirstEmpty(replies[1..])
  }

  /** The drain loop: ask `src` for a batch of keys and move the batch to `dst`, until a reply is empty. */
  function Drain(src: Node, dst: Node, slot: nat, replies: seq<seq<string>>): seq<Conn.Call>
    requires Drained(replies)
    decreases |replies|
  {
    var ask := Conn.Call(src.ip, src.port, Conn.GetKeysInSlot(slot, KeyBatch));
    if replies[0] == [] then [ask]
    else
      assert Drained(replies[1..]) by {
        var i :| 0 <= i < |replies| && replies[i] == [];
        assert replies[1..][i - 1] == [];
      }
      [ask, Conn.Call(src.ip, src.port, Conn.MigrateKeys(dst.ip, dst.port, replies[0]))] + Drain(src, dst, slot, replies[1..])
  }

  /** The requests of `migrate_slot(src, dst, slot)`, given what `GETKEYSINSLOT` returns. */
  function MigrationTrace(src: Node, dst: Node, slot: nat, replies: seq<seq<string>>): (t: seq<Conn.Call>)
    requires Drained(replies)
    ensures |t| == 2 * FirstEmpty(replies) + 5
    ensures forall k | 0 <= k < |t| :: t[k].command.SetSlot? ==> t[k].command.slot == slot
  {
    DrainShape(src, dst, slot, replies);
    [Conn.Call(dst.ip, dst.port, Conn.SetSlot(slot, Conn.Importing, src.name)),
     Conn.Call(src.ip, src.port, Conn.SetSlot(slot, Conn.Migrating, dst.name))] +
    Drain(src, dst, slot, replies) +
    [Conn.Call(src.ip, src.port, Conn.SetSlot(slot, Conn.NodeOwner, dst.name)),
     Conn.Call(dst.ip, dst.port, Conn.SetSlot(slot, Conn.NodeOwner, dst.name))]
  }

  /** The keys a list of requests moves, in order. */
  function MovedKeys(calls: seq<Conn.Call>): seq<string>
  {
    if calls == [] then []
    else (if calls[0].command.MigrateKeys? then calls[0].command.keys else []) + MovedKeys(calls[1..])
  }

  function Concat(batches: seq<seq<string>>): seq<string>
  {
    if batches == [] then [] else batches[0] + Concat(batches[1..])
  }

  lemma {:induction false} MovedKeysAppend(a: seq<Conn.Call>, b: seq<Conn.Call>)
    ensures MovedKeys(a + b) == MovedKeys(a) + MovedKeys(b)
    decreases |a|
  {
    if a == [] {
      assert a + b == b;
    } else {
      assert (a + b)[0] == a[0] && (a + b)[1..] == a[1..] + b;
      MovedKeysAppend(a[1..], b);
    }
  }

  /**
   * The drain asks `src` one more time than it moves a batch; every request
   * goes to `src`, and the keys it moves to `dst` are the batches before
   * the first empty reply, each once and in order.
   */
  lemma {:induction false} DrainMoves(src: Node, dst: Node, slot: nat, replies: seq<seq<string>>)
    requires Drained(replies)
    ensures var d := Drain(src, dst, slot, replies);
      |d| == 2 * FirstEmpty(replies) + 1 &&
      (forall k | 0 <= k < |d| :: d[k].ip == src.ip && d[k].port == src.port) &&
      (forall k | 0 <= k < |d| ::
        d[k].command == (if k % 2 == 0 then Conn.GetKeysInSlot(slot, KeyBatch)
                         else Conn.MigrateKeys(dst.ip, dst.port, replies[k / 2]))) &&
      MovedKeys(d) == Concat(replies[..FirstEmpty(replies)])
  {
    DrainShape(src, dst, slot, replies);
    DrainKeys(src, dst, slot, replies);
  }

  lemma DrainRest(replies: seq<seq<string>>)
    requires Drained(replies) && replies[0] != []
    ensures Drained(replies[1..]) && FirstEmpty(replies) == 1 + FirstEmpty(replies[1..])
  {
    var i :| 0 <= i < |replies| && replies[i] == [];
    assert replies[1..][i - 1] == [];
  }

  lemma {:induction false} DrainShape(src: Node, dst: Node, slot: nat, replies: seq<seq<string>>)
    requires Drained(replies)
    ensures var d := Drain(src, dst, slot, replies);
      |d| == 2 * FirstEmpty(replies) + 1 &&
      (forall k | 0 <= k < |d| :: d[k].ip == src.ip && d[k].port == src.port) &&
      (forall k | 0 <= k < |d| ::
        d[k].command == (if k % 2 == 0 then Conn.GetKeysInSlot(slot, KeyBatch)
                         else Conn.MigrateKeys(dst.ip, dst.port, replies[k / 2])))
    decreases |replies|
  {
    if replies[0] != [] {
      var rest := replies[1..];
      DrainRest(replies);
      DrainShape(src, dst, slot, rest);
      var tail := Drain(src, dst, slot, rest);
      var d := Drain(src, dst, slot, replies);
      assert d[2..] == tail;
      forall k | 2 <= k < |d|
        ensures d[k] == tail[k - 2] && (k - 2) / 2 == k / 2 - 1 && (k - 2) % 2 == k % 2
      {
      }
    }
  }

  lemma {:induction false} DrainKeys(src: Node, dst: Node, slot: nat, replies: seq<seq<string>>)
    requires Drained(replies)
    ensures MovedKeys(Drain(src, dst, slot, replies)) == Concat(replies[..FirstEmpty(replies)])
    decreases |replies|
  {
    var ask := Conn.Call(src.ip, src.port, Conn.GetKeysInSlot(slot, KeyBatch));
    if replies[0] == [] {
      assert replies[..0] == [];
      assert MovedKeys([ask]) == [] + MovedKeys([]);
    } else {
      var rest := replies[1..];
      DrainRest(replies);
      DrainKeys(src, dst, slot, rest);
      var move := Conn.Call(src.ip, src.port, Conn.MigrateKeys(dst.ip, dst.port, replies[0]));
      var tail := Drain(src, dst, slot, rest);
      assert Drain(src, dst, slot, replies) == [ask, move] + tail;
      MovedKeysAppend([ask, move], tail);
      assert MovedKeys([ask, move]) == replies[0] by {
        assert [ask, move][1..] == [move];
        assert [move][1..] == [];
      }
      var n := FirstEmpty(replies);
      assert replies[..n] == [replies[0]] + rest[..n - 1];
      assert Concat(replies[..n]) == replies[0] + Concat(rest[..n - 1]);
    }
  }

  /**
   * `migrate_slot`'s order: `dst` is set IMPORTING from `src`, `src` is set
   * MIGRATING to `dst`, the keys are drained from `src`, then `src` and
   * `dst` are both told that `dst` owns the slot.
   */
  lemma MigrationOrder(src: Node, dst: Node, slot: nat, replies: seq<seq<string>>)
    requires Drained(replies)
    ensures var t := MigrationTrace(src, dst, slot, replies);
      var n := |t|;
      n == 2 * FirstEmpty(replies) + 5 &&
      t[0] == Conn.Call(dst.ip, dst.port, Conn.SetSlot(slot, Conn.Importing, src.name)) &&
      t[1] == Conn.Call(src.ip, src.port, Conn.SetSlot(slot, Conn.Migrating, dst.name)) &&
      (forall k | 2 <= k < n - 2 :: t[k].ip == src.ip && t[k].port == src.port &&
        (t[k].command.GetKeysInSlot? || t[k].command.MigrateKeys?)) &&
      t[n - 2] == Conn.Call(src.ip, src.port, Conn.SetSlot(slot, Conn.NodeOwner, dst.name)) &&
      t[n - 1] == Conn.Call(dst.ip, dst.port, Conn.SetSlot(slot, Conn.NodeOwner, dst.name)) &&
      MovedKeys(t) == Concat(replies[..FirstEmpty(replies)])
  {
    var d := Drain(src, dst, slot, replies);
    DrainMoves(src, dst, slot, replies);
    var t := MigrationTrace(src, dst, slot, replies);
    var head := [Conn.Call(dst.ip, dst.port, Conn.SetSlot(slot, Conn.Importing, src.name)),
                 Conn.Call(src.ip, src.port, Conn.SetSlot(slot, Conn.Migrating, dst.name))];
    var tail := [Conn.Call(src.ip, src.port, Conn.SetSlot(slot, Conn.NodeOwner, dst.name)),
                 Conn.Call(dst.ip, dst.port, Conn.SetSlot(slot, Conn.NodeOwner, dst.name))];
    assert t == head + d + tail;
    forall k | 2 <= k < |t| - 2
      ensures t[k] == d[k - 2]
    {
    }
    MovedKeysAppend(head + d, tail);
    MovedKeysAppend(head, d);
    assert MovedKeys(head) == [] by {
      assert head[1..][1..] == [];
    }
    assert MovedKeys(tail) == [] by {
      assert tail[1..][1..] == [];
    }
  }

  /** `migrate_slot(src, dst, slot)`, with `replies` the successive answers to `GETKEYSINSLOT`. */
  method MigrateSlot(src: Node, dst: Node, slot: nat, replies: seq<seq<string>>) returns (calls: seq<Conn.Call>)
    requires Drained(replies)
    ensures calls == MigrationTrace(src, dst, slot, replies)
  {
    calls := [Conn.Call(dst.ip, dst.port, Conn.SetSlot(slot, Conn.Importing, src.name)),
              Conn.Call(src.ip, src.port, Conn.SetSlot(slot, Conn.Migrating, dst.name))];
    ghost var whole := calls + Drain(src, dst, slot, replies);
    var i := 0;
    while true
      invariant i <= FirstEmpty(replies)
      invariant Drained(replies[i..]) && calls + Drain(src, dst, slot, replies[i..]) == whole
      decreases FirstEmpty(replies) - i
    {
      calls := calls + [Conn.Call(src.ip, src.port, Conn.GetKeysInSlot(slot, KeyBatch))];
      var keys := replies[i];
      if keys == [] {
        break;
      }
      calls := calls + [Conn.Call(src.ip, src.port, Conn.MigrateKeys(dst.ip, dst.port, keys))];
      assert replies[i..][1..] == replies[i + 1..];
      assert replies[i + 1..][FirstEmpty(replies) - i - 1] == [];
      i := i + 1;
    }
    calls := calls + [Conn.Call(src.ip, src.port, Conn.SetSlot(slot, Conn.NodeOwner, dst.name)),
                      Conn.Call(dst.ip, dst.port, Conn.SetSlot(slot, Conn.NodeOwner, dst.name))];
  }

  // ---------------------------------------------------------------------
  // delete_node

  /** The masters that take over the slots of `del`: every master not named like it, in list order. */
  function Recipients(nodes: seq<Node>, del: Node): (r: seq<Node>)
    ensures |r| <= |nodes|
    ensures forall x :: x in r <==> x in nodes && IsMaster(x) && x.name != del.name
  {
    if nodes == [] then []
    else (if IsMaster(nodes[0]) && nodes[0].name != del.name then [nodes[0]] else []) + Recipients(nodes[1..], del)
  }

  /**
   * How many slots the `k`-th recipient takes: `divide(n, m)` is popped
   * from its end, so the recipients see its shares in reverse.
   */
  function Handed(n: nat, m: nat): (r: seq<nat>)
    requires m > 0
    ensures |r| == m
  {
    seq(m, k requires 0 <= k < m => Share(n, m, m - 1 - k))
  }

  /** After `k` pops, the slots handed out so far plus what remains in the dispatch vector make `n`. */
  lemma {:induction false} HandedPrefix(n: nat, m: nat, k: nat)
    requires 0 < m && k <= m
    ensures Sum(Handed(n, m)[..k]) + Sum(Shares(n, m)[..m - k]) == n
  {
    if k == 0 {
      assert Handed(n, m)[..0] == [];
      SharesSum(n, m);
      assert Shares(n, m)[..m] == Shares(n, m);
    } else {
      HandedPrefix(n, m, k - 1);
      PrefixSumStep(Handed(n, m), k - 1);
      PrefixSumStep(Shares(n, m), m - k);
    }
  }

  /**
   * `delete_node` hands out every slot of the node, and the recipients'
   * shares differ by at most one; the larger shares go to the last
   * `n % m` recipients.
   */
  lemma HandedBalanced(n: nat, m: nat)
    requires m > 0
    ensures Sum(Handed(n, m)) == n
    ensures forall i, j | 0 <= i < m && 0 <= j < m :: Handed(n, m)[i] <= Handed(n, m)[j] + 1
    ensures forall i | 0 <= i < m :: Handed(n, m)[i] == n / m || Handed(n, m)[i] == n / m + 1
    ensures forall i, j | 0 <= i <= j < m :: Handed(n, m)[i] <= Handed(n, m)[j]
  {
    HandedPrefix(n, m, m);
    assert Handed(n, m)[..m] == Handed(n, m);
    assert Shares(n, m)[..0] == [];
  }

  /** One slot moved to one recipient. */
  datatype Handoff = Handoff(slot: nat, to: Node)

  /** The slots in order, the first `counts[0]` to `rs[0]`, the next `counts[1]` to `rs[1]`, and so on. */
  function Handoffs(slots: seq<nat>, rs: seq<Node>, counts: seq<nat>): (h: seq<Handoff>)
    requires |counts| == |rs| && Sum(counts) <= |slots|
    ensures |h| == Sum(counts)
    decreases |rs|
  {
    if rs == [] then []
    else seq(counts[0], i requires 0 <= i < counts[0] => Handoff(slots[i], rs[0])) +
         Handoffs(slots[counts[0]..], rs[1..], counts[1..])
  }

  /** Each slot is moved in its place in the list of slots, to one of the recipients. */
  lemma {:induction false} HandoffsInOrder(slots: seq<nat>, rs: seq<Node>, counts: seq<nat>)
    requires |counts| == |rs| && Sum(counts) <= |slots|
    ensures forall j | 0 <= j < Sum(counts) :: Handoffs(slots, rs, counts)[j].slot == slots[j]
    ensures forall j | 0 <= j < Sum(counts) :: Handoffs(slots, rs, counts)[j].to in rs
    decreases |rs|
  {
    if rs != [] {
      HandoffsInOrder(slots[counts[0]..], rs[1..], counts[1..]);
      var h := Handoffs(slots, rs, counts);
      var rest := Handoffs(slots[counts[0]..], rs[1..], counts[1..]);
      forall j | counts[0] <= j < Sum(counts)
        ensures h[j] == rest[j - counts[0]]
      {
      }
    }
  }

  /** The `i`-th slot of the `k`-th recipient's run is the one at offset `Sum(counts[..k]) + i`. */
  lemma {:induction false} HandoffsAt(slots: seq<nat>, rs: seq<Node>, counts: seq<nat>, k: nat, i: nat)
    requires |counts| == |rs| && Sum(counts) <= |slots|
    requires k < |rs| && i < counts[k]
    ensures Sum(counts[..k]) + i < Sum(counts)
    ensures Handoffs(slots, rs, counts)[Sum(counts[..k]) + i] == Handoff(slots[Sum(counts[..k]) + i], rs[k])
    decreases k
  {
    PrefixBound(counts, k);
    if k > 0 {
      HandoffsAt(slots[counts[0]..], rs[1..], counts[1..], k - 1, i);
      PrefixShift(counts, k);
      var h := Handoffs(slots, rs, counts);
      var rest := Handoffs(slots[counts[0]..], rs[1..], counts[1..]);
      var j := Sum(counts[..k]) + i;
      assert h[j] == rest[j - counts[0]];
    }
  }

  lemma PrefixBound(counts: seq<nat>, k: nat)
    requires k < |counts|
    ensures Sum(counts[..k]) + counts[k] <= Sum(counts)
  {
    PrefixSumStep(counts, k);
    PrefixSumMonotone(counts, k + 1, |counts|);
    assert counts[..|counts|] == counts;
  }

  lemma PrefixShift(counts: seq<nat>, k: nat)
    requires 0 < k <= |counts|
    ensures Sum(counts[..k]) == counts[0] + Sum(counts[1..][..k - 1])
  {
    assert counts[1..][..k - 1] == counts[..k][1..];
  }

  /** The slots handed to each recipient in turn, as the pops of `divide(|slots|, |rs|)` say. */
  function Dispatch(slots: seq<nat>, rs: seq<Node>): (h: seq<Handoff>)
    requires |rs| > 0
    ensures |h| == |slots|
  {
    HandedBalanced(|slots|, |rs|);
    Handoffs(slots, rs, Handed(|slots|, |rs|))
  }

  /**
   * What `delete_node` moves: nothing when `del` is not a master; a panic
   * when it is one without a slot list or with no other master to take its
   * slots (`divide` by zero); otherwise its slots in order, spread over the
   * other masters by `Handed`.
   */
  function DeletePlan(nodes: seq<Node>, del: Node): (r: Result<seq<Handoff>, Conn.Fault>)
    ensures r.Failure? ==> r.error == Conn.Panicked && IsMaster(del)
    ensures r.Success? ==> |r.value| == if IsMaster(del) && del.slots.Some? then |del.slots.value| else 0
  {
    if !IsMaster(del) then Success([])
    else if del.slots.None? then Failure(Conn.Panicked)
    else
      var rs := Recipients(nodes, del);
      if |rs| == 0 then Failure(Conn.Panicked)
      else
        Success(Dispatch(del.slots.value, rs))
  }

  /** The `forget` closure: every node but `del` and its replicas is told to forget `del`. */
  function ForgetCalls(nodes: seq<Node>, del: Node): (r: seq<Conn.Call>)
    ensures |r| <= |nodes|
    ensures forall c | c in r :: c.command == Conn.Forget(del.name)
    decreases |nodes|
  {
    if nodes == [] then []
    else
      var n := nodes[|nodes| - 1];
      ForgetCalls(nodes[..|nodes| - 1], del) +
      (if n.name == del.name || n.slaveof == Some(del.name) then []
       else [Conn.Call(n.ip, n.port, Conn.Forget(del.name))])
  }

  /** The nodes told to forget `del` are exactly those neither named like it nor replicating it. */
  lemma {:induction false} ForgetTargets(nodes: seq<Node>, del: Node)
    ensures forall ip, port :: Conn.Call(ip, port, Conn.Forget(del.name)) in ForgetCalls(nodes, del) <==>
      exists n | n in nodes :: n.name != del.name && n.slaveof != Some(del.name) && n.ip == ip && n.port == port
    decreases |nodes|
  {
    if nodes != [] {
      var init := nodes[..|nodes| - 1];
      ForgetTargets(init, del);
      assert nodes == init + [nodes[|nodes| - 1]];
    }
  }

  /** The migrations of the planned handoffs, one `migrate_slot` per slot; `drains[j]` feeds the `j`-th. */
  function MoveCalls(del: Node, h: seq<Handoff>, drains: seq<seq<seq<string>>>): seq<Conn.Call>
    requires |h| <= |drains| && forall j | 0 <= j < |drains| :: Drained(drains[j])
    decreases |h|
  {
    if h == [] then []
    else
      var last := h[|h| - 1];
      MoveCalls(del, h[..|h| - 1], drains) + MigrationTrace(del, last.to, last.slot, drains[|h| - 1])
  }

  /** `delete_node(del)` on a cluster of `nodes`: the slot migrations, then the forgets. */
  function DeleteTrace(nodes: seq<Node>, del: Node, drains: seq<seq<seq<string>>>): (r: Result<seq<Conn.Call>, Conn.Fault>)
    requires forall j | 0 <= j < |drains| :: Drained(drains[j])
    requires DeletePlan(nodes, del).Success? ==> |DeletePlan(nodes, del).value| <= |drains|
    ensures r.Success? <==> DeletePlan(nodes, del).Success?
    ensures r.Failure? ==> r.error == Conn.Panicked
    ensures r.Success? ==>
      |ForgetCalls(nodes, del)| <= |r.value| && r.value[|r.value| - |ForgetCalls(nodes, del)|..] == ForgetCalls(nodes, del)
  {
    match DeletePlan(nodes, del)
    case Failure(f) => Failure(f)
    case Success(h) => Success(MoveCalls(del, h, drains) + ForgetCalls(nodes, del))
  }

  /**
   * A master with slots and another master to take them over hands every
   * one of its slots, in order, to a master other than itself, and each
   * recipient takes `n / m` or `n / m + 1` of them.
   */
  lemma DeleteMovesEverySlot(nodes: seq<Node>, del: Node)
    requires IsMaster(del) && del.slots.Some? && |Recipients(nodes, del)| > 0
    ensures DeletePlan(nodes, del).Success?
    ensures var h := DeletePlan(nodes, del).value;
      |h| == |del.slots.value| &&
      forall j | 0 <= j < |h| :: h[j].slot == del.slots.value[j] &&
        h[j].to in nodes && IsMaster(h[j].to) && h[j].to.name != del.name
  {
    var rs := Recipients(nodes, del);
    var slots := del.slots.value;
    HandedBalanced(|slots|, |rs|);
    HandoffsInOrder(slots, rs, Handed(|slots|, |rs|));
  }

  /**
   * The `k`-th recipient takes the run of slots after those of the first
   * `k`, as many as the `k`-th pop of `divide` says.
   */
  lemma DeleteRecipientRun(nodes: seq<Node>, del: Node, k: nat, i: nat)
    requires IsMaster(del) && del.slots.Some? && k < |Recipients(nodes, del)|
    requires i < Handed(|del.slots.value|, |Recipients(nodes, del)|)[k]
    ensures var rs := Recipients(nodes, del);
      var n := |del.slots.value|;
      var start := Sum(Handed(n, |rs|)[..k]);
      start + i < n && DeletePlan(nodes, del).Success? &&
      DeletePlan(nodes, del).value[start + i] == Handoff(del.slots.value[start + i], rs[k])
  {
    var rs := Recipients(nodes, del);
    var slots := del.slots.value;
    HandedBalanced(|slots|, |rs|);
    HandoffsAt(slots, rs, Handed(|slots|, |rs|), k, i);
  }

  /** Deleting a replica (or any node not known as a master) moves nothing: only the forgets are sent. */
  lemma DeleteReplica(nodes: seq<Node>, del: Node, drains: seq<seq<seq<string>>>)
    requires !IsMaster(del) && forall j | 0 <= j < |drains| :: Drained(drains[j])
    ensures DeleteTrace(nodes, del, drains) == Success(ForgetCalls(nodes, del))
  {
    assert MoveCalls(del, [], drains) == [];
    assert [] + ForgetCalls(nodes, del) == ForgetCalls(nodes, del);
  }

  /** A master without a slot list, or the only master, makes `delete_node` panic before any request. */
  lemma DeletePanics(nodes: seq<Node>, del: Node, drains: seq<seq<seq<string>>>)
    requires IsMaster(del) && (del.slots.None? || forall n | n in nodes :: IsMaster(n) ==> n.name == del.name)
    requires forall j | 0 <= j < |drains| :: Drained(drains[j])
    ensures DeletePlan(nodes, del) == Failure(Conn.Panicked)
    ensures DeleteTrace(nodes, del, drains) == Failure(Conn.Panicked)
  {
    if del.slots.Some? {
      NoRecipients(nodes, del);
    }
  }

  lemma {:induction false} NoRecipients(nodes: seq<Node>, del: Node)
    requires forall n | n in nodes :: IsMaster(n) ==> n.name == del.name
    ensures Recipients(nodes, del) == []
    decreases |nodes|
  {
    if nodes != [] {
      assert nodes[0] in nodes;
      NoRecipients(nodes[1..], del);
    }
  }

  /** The `forget` closure as a loop over the nodes. */
  method ForgetAll(nodes: seq<Node>, del: Node) returns (calls: seq<Conn.Call>)
    ensures calls == ForgetCalls(nodes, del)
  {
    calls := [];
    for i := 0 to |nodes|
      invariant calls == ForgetCalls(nodes[..i], del)
    {
      assert nodes[..i + 1][..i] == nodes[..i];
      var n := nodes[i];
      if n.name == del.name {
        continue;
      }
      if Some(del.name) == n.slaveof {
        continue;
      }
      calls := calls + [Conn.Call(n.ip, n.port, Conn.Forget(del.name))];
    }
    assert nodes[..|nodes|] == nodes;
  }

  /**
   * `delete_node(del)`: `drains[j]` holds the `GETKEYSINSLOT` replies met
   * while moving the `j`-th slot of `del`.
   */
  method DeleteNode(nodes: seq<Node>, del: Node, drains: seq<seq<seq<string>>>) returns (r: Result<seq<Conn.Call>, Conn.Fault>)
    requires forall j | 0 <= j < |drains| :: Drained(drains[j])
    requires DeletePlan(nodes, del).Success? ==> |DeletePlan(nodes, del).value| <= |drains|
    ensures r == DeleteTrace(nodes, del, drains)
  {
    var calls := [];
    if IsMaster(del) {
      var rs := Recipients(nodes, del);
      if del.slots.None? {
        return Failure(Conn.Panicked);
      }
      var slots := del.slots.value;
      if |rs| == 0 {
        return Failure(Conn.Panicked);
      }
      calls := MoveAll(del, rs, slots, drains);
    }
    var forgets := ForgetAll(nodes, del);
    r := Success(calls + forgets);
  }

  /** The loop of `delete_node` over the recipients, popping the share of each from `divide`. */
  method MoveAll(del: Node, rs: seq<Node>, slots: seq<nat>, drains: seq<seq<seq<string>>>) returns (calls: seq<Conn.Call>)
    requires |rs| > 0 && |slots| <= |drains|
    requires forall j | 0 <= j < |drains| :: Drained(drains[j])
    ensures calls == MoveCalls(del, Dispatch(slots, rs), drains)
  {
    var dispatch := Divide(|slots|, |rs|);
    var start := 0;
    calls := [];
    assert Handed(|slots|, |rs|)[..0] == [];
    for k := 0 to |rs|
      invariant Dealt(del, rs, slots, drains, k, dispatch, start, calls)
    {
      DealNext(del, rs, slots, drains, k, dispatch, start, calls);
      var count := dispatch[|dispatch| - 1];
      dispatch := dispatch[..|dispatch| - 1];
      calls := MoveRun(del, rs[k], slots, Dispatch(slots, rs), start, count, drains, calls);
      start := start + count;
    }
    DealtAll(del, rs, slots, drains, dispatch, start, calls);
  }

  /** The state of `delete_node`'s loop after `k` recipients. */
  ghost predicate Dealt(del: Node, rs: seq<Node>, slots: seq<nat>, drains: seq<seq<seq<string>>>,
                        k: nat, dispatch: seq<nat>, start: nat, calls: seq<Conn.Call>)
    requires |rs| > 0 && k <= |rs| && |slots| <= |drains|
    requires forall j | 0 <= j < |drains| :: Drained(drains[j])
  {
    dispatch == Shares(|slots|, |rs|)[..|rs| - k] &&
    start == Sum(Handed(|slots|, |rs|)[..k]) <= |slots| &&
    calls == MoveCalls(del, Dispatch(slots, rs)[..start], drains)
  }

  lemma DealNext(del: Node, rs: seq<Node>, slots: seq<nat>, drains: seq<seq<seq<string>>>,
                 k: nat, dispatch: seq<nat>, start: nat, calls: seq<Conn.Call>)
    requires |rs| > 0 && k < |rs| && |slots| <= |drains|
    requires forall j | 0 <= j < |drains| :: Drained(drains[j])
    requires Dealt(del, rs, slots, drains, k, dispatch, start, calls)
    ensures |dispatch| > 0
    ensures var count := dispatch[|dispatch| - 1];
      start + count <= |slots| &&
      (forall j | start <= j < start + count :: Dispatch(slots, rs)[j] == Handoff(slots[j], rs[k])) &&
      var more := MoveCalls(del, Dispatch(slots, rs)[..start + count], drains);
      Dealt(del, rs, slots, drains, k + 1, dispatch[..|dispatch| - 1], start + count, more)
  {
    PopStep(|slots|, |rs|, k);
    RunOf(slots, rs, k);
  }

  lemma DealtAll(del: Node, rs: seq<Node>, slots: seq<nat>, drains: seq<seq<seq<string>>>,
                 dispatch: seq<nat>, start: nat, calls: seq<Conn.Call>)
    requires |rs| > 0 && |slots| <= |drains|
    requires forall j | 0 <= j < |drains| :: Drained(drains[j])
    requires Dealt(del, rs, slots, drains, |rs|, dispatch, start, calls)
    ensures calls == MoveCalls(del, Dispatch(slots, rs), drains)
  {
    HandedPrefix(|slots|, |rs|, |rs|);
    assert Shares(|slots|, |rs|)[..0] == [];
    assert Dispatch(slots, rs)[..start] == Dispatch(slots, rs);
  }

  /** The `k`-th pop of the dispatch vector gives the `k`-th recipient's share. */
  lemma PopStep(n: nat, m: nat, k: nat)
    requires k < m
    ensures var d := Shares(n, m)[..m - k];
      d[|d| - 1] == Handed(n, m)[k] && d[..|d| - 1] == Shares(n, m)[..m - (k + 1)] &&
      Sum(Handed(n, m)[..k + 1]) == Sum(Handed(n, m)[..k]) + Handed(n, m)[k] <= n
  {
    HandedPrefix(n, m, k + 1);
    PrefixSumStep(Handed(n, m), k);
  }

  /** The `k`-th recipient's run of handoffs. */
  lemma RunOf(slots: seq<nat>, rs: seq<Node>, k: nat)
    requires k < |rs|
    ensures var counts := Handed(|slots|, |rs|);
      var start := Sum(counts[..k]);
      start + counts[k] <= |slots| &&
      forall j | start <= j < start + counts[k] :: Dispatch(slots, rs)[j] == Handoff(slots[j], rs[k])
  {
    HandedBalanced(|slots|, |rs|);
    var counts := Handed(|slots|, |rs|);
    var start := Sum(counts[..k]);
    PrefixSumStep(counts, k);
    PrefixSumMonotone(counts, k + 1, |rs|);
    assert counts[..|rs|] == counts;
    forall j | start <= j < start + counts[k]
      ensures Dispatch(slots, rs)[j] == Handoff(slots[j], rs[k])
    {
      HandoffsAt(slots, rs, counts, k, j - start);
    }
  }

  /** The inner loop of `delete_node`: `migrate_slot` for each slot of one recipient's run. */
  method MoveRun(del: Node, to: Node, slots: seq<nat>, ghost h: seq<Handoff>, start: nat, count: nat,
                 drains: seq<seq<seq<string>>>, done: seq<Conn.Call>) returns (calls: seq<Conn.Call>)
    requires start + count <= |h| <= |drains| && start + count <= |slots|
    requires forall j | 0 <= j < |drains| :: Drained(drains[j])
    requires forall j | start <= j < start + count :: h[j] == Handoff(slots[j], to)
    requires done == MoveCalls(del, h[..start], drains)
    ensures calls == MoveCalls(del, h[..start + count], drains)
  {
    calls := done;
    for i := 0 to count
      invariant calls == MoveCalls(del, h[..start + i], drains)
    {
      var t := MigrateSlot(del, to, slots[start + i], drains[start + i]);
      assert h[..start + i + 1][..start + i] == h[..start + i];
      calls := calls + t;
    }
  }
}
