/**
 * The connection layer of conn.rs. Every request a `Conn` sends is
 * recorded as a `Call` value instead of going over the network; the two
 * replies the tool interprets, `CLUSTER NODES` and `CLUSTER INFO`, are
 * parsed from their text, which is an input here.
 */
module Conn {
  import opened Wrappers
  import opened Text
  import opened ClusterNode

  /** The state argument of `CLUSTER SETSLOT`. */
  datatype SlotState = Importing | Migrating | NodeOwner

  /** The requests the tool sends. */
  datatype Command =
    | AddSlots(slots: seq<nat>)                           // CLUSTER ADDSLOTS
    | Meet(ip: string, port: string)                      // CLUSTER MEET
    | Replicate(nodeId: string)                           // CLUSTER REPLICATE
    | Forget(nodeId: string)                              // CLUSTER FORGET
    | SetSlot(slot: nat, state: SlotState, nodeId: string) // CLUSTER SETSLOT
    | GetKeysInSlot(slot: nat, count: nat)                // CLUSTER GETKEYSINSLOT
    | MigrateKeys(ip: string, port: string, keys: seq<string>) // MIGRATE ip port "" 0 5000 KEYS ...

  /** A command sent over a connection to `ip:port`. */
  datatype Call = Call(ip: string, port: string, command: Command)

  /** How `Conn::nodes` fails: an `Err` it returns, or a panic on an `unwrap`. */
  datatype Fault = Returned(error: Error) | Panicked

  // ---------------------------------------------------------------------
  // CLUSTER NODES

  /** The slots `lo, lo + 1, ..., hi - 1`; none when `hi <= lo`. */
  function SlotRange(lo: nat, hi: nat): seq<nat>
  {
    if hi <= lo then [] else seq(hi - lo, i requires 0 <= i < hi - lo => lo + i)
  }

  /**
   * The slots one slot token of a `CLUSTER NODES` line stands for: none for
   * a token holding `->`, `a` for `a`, `a..=b` for `a-b`; `None` where
   * parsing a number panics.
   */
  function TokenSlots(token: string): Option<seq<nat>>
  {
    if Contains(token, "->") then Some([]) else ScopeSlots(Split(token, "-"))
  }

  /** The slots of a token's `-`-pieces: `a` alone, or `a..=b` when there are exactly two. */
  function ScopeSlots(scope: seq<string>): Option<seq<nat>>
    requires |scope| > 0
  {
    match ParseNat(scope[0])
    case None => None
    case Some(start) =>
      if |scope| == 2 then
        match ParseNat(scope[1])
        case None => None
        case Some(end) => Some([start] + SlotRange(start + 1, end + 1))
      else Some([start])
  }

  /** The slots of the tokens from field 8 on, in order; `None` once a token panics. */
  function SlotList(tokens: seq<string>): Option<seq<nat>>
  {
    if tokens == [] then Some([])
    else
      match SlotList(tokens[..|tokens| - 1])
      case None => None
      case Some(init) =>
        match TokenSlots(tokens[|tokens| - 1])
        case None => None
        case Some(more) => Some(init + more)
  }

  /** One line of a `CLUSTER NODES` reply as a node record. */
  function ParseLine(line: string): (r: Result<Node, Fault>)
    ensures r == Failure(Returned(BadCluster)) <==> |Split(line, " ")| < 8
    ensures r.Success? ==> r.value.name == Split(line, " ")[0] && r.value.role.Some? && r.value.slots.Some?
  {
    var kv := Split(line, " ");
    if |kv| < 8 then Failure(Returned(BadCluster))
    else
      match New(Split(kv[1], "@")[0])
      case Failure(_) => Failure(Panicked)
      case Success(node) =>
        match SlotList(kv[8..])
        case None => Failure(Panicked)
        case Some(slots) =>
          Success(node.(
            name := kv[0],
            role := Some(if Contains(kv[2], "master") then Master else Slave),
            slaveof := if kv[3] != "-" then Some(kv[3]) else None,
            slots := Some(slots)))
  }

  /** Results gathered in order; the first failure decides the outcome. */
  function Collect<T>(rs: seq<Result<T, Fault>>): Result<seq<T>, Fault>
  {
    if rs == [] then Success([])
    else
      match Collect(rs[..|rs| - 1])
      case Failure(f) => Failure(f)
      case Success(init) =>
        match rs[|rs| - 1]
        case Failure(f) => Failure(f)
        case Success(x) => Success(init + [x])
  }

  /** The lines of a `CLUSTER NODES` reply parsed in order. */
  function ParseLines(lines: seq<string>): (r: Result<seq<Node>, Fault>)
    ensures r.Success? ==> |r.value| == |lines|
  {
    var rs := seq(|lines|, i requires 0 <= i < |lines| => ParseLine(lines[i]));
    CollectAll(rs);
    Collect(rs)
  }

  lemma {:induction false} CollectStop<T>(rs: seq<Result<T, Fault>>, k: nat)
    requires k < |rs| && Collect(rs[..k]).Success? && rs[k].Failure?
    ensures Collect(rs) == Failure(rs[k].error)
    decreases |rs|
  {
    if k < |rs| - 1 {
      var init := rs[..|rs| - 1];
      assert init[..k] == rs[..k];
      CollectStop(init, k);
    } else {
      assert rs[..|rs| - 1] == rs[..k];
    }
  }

  lemma {:induction false} CollectAll<T>(rs: seq<Result<T, Fault>>)
    ensures Collect(rs).Success? <==> forall i | 0 <= i < |rs| :: rs[i].Success?
    ensures Collect(rs).Success? ==>
      |Collect(rs).value| == |rs| && forall i | 0 <= i < |rs| :: Collect(rs).value[i] == rs[i].value
    decreases |rs|
  {
    if rs != [] {
      var init := rs[..|rs| - 1];
      CollectAll(init);
      assert forall i | 0 <= i < |init| :: init[i] == rs[i];
    }
  }

  lemma {:induction false} CollectFirstFailure<T>(rs: seq<Result<T, Fault>>)
    ensures Collect(rs).Failure? ==>
      exists i | 0 <= i < |rs| ::
        rs[i].Failure? && Collect(rs).error == rs[i].error && forall j | 0 <= j < i :: rs[j].Success?
    decreases |rs|
  {
    if rs != [] && Collect(rs).Failure? {
      var init := rs[..|rs| - 1];
      CollectAll(init);
      if Collect(init).Failure? {
        CollectFirstFailure(init);
        var i :| 0 <= i < |init| &&
          init[i].Failure? && Collect(init).error == init[i].error && forall j | 0 <= j < i :: init[j].Success?;
        assert rs[i] == init[i];
        assert forall j | 0 <= j < i :: rs[j] == init[j];
      } else {
        assert forall j | 0 <= j < |init| :: rs[j] == init[j];
      }
    }
  }

  lemma {:induction false} SlotListStop(tokens: seq<string>, t: nat)
    requires t < |tokens| && SlotList(tokens[..t]).Some? && TokenSlots(tokens[t]).None?
    ensures SlotList(tokens) == None
    decreases |tokens|
  {
    if t < |tokens| - 1 {
      var init := tokens[..|tokens| - 1];
      assert init[..t] == tokens[..t];
      SlotListStop(init, t);
    } else {
      assert tokens[..|tokens| - 1] == tokens[..t];
    }
  }

  /**
   * The text-processing body of `Conn::nodes`: one node per line, its
   * fields set one after the other.
   */
  method Nodes(reply: string) returns (r: Result<seq<Node>, Fault>)
    ensures r == ParseLines(Lines(reply))
  {
    var lines := Lines(reply);
    ghost var results := seq(|lines|, i requires 0 <= i < |lines| => ParseLine(lines[i]));
    var nodes: seq<Node> := [];
    for k := 0 to |lines|
      invariant Collect(results[..k]) == Success(nodes)
    {
      assert results[..k + 1][..k] == results[..k];
      var kv := Split(lines[k], " ");
      if |kv| < 8 {
        CollectStop(results, k);
        return Failure(Returned(BadCluster));
      }
      var addr := Split(kv[1], "@")[0];
      var parsed := New(addr);
      if parsed.Failure? {
        CollectStop(results, k);
        return Failure(Panicked);
      }
      var node := parsed.value;
      if Contains(kv[2], "master") {
        node := node.(role := Some(Master));
      } else {
        node := node.(role := Some(Slave));
      }
      if kv[3] != "-" {
        node := node.(slaveof := Some(kv[3]));
      }
      var slots := LineSlots(kv[8..]);
      if slots.None? {
        CollectStop(results, k);
        return Failure(Panicked);
      }
      node := node.(slots := Some(slots.value), name := kv[0]);
      nodes := nodes + [node];
    }
    assert results[..|lines|] == results;
    return Success(nodes);
  }

  /**
   * The slot-token loop of `Conn::nodes`: each token in turn adds its slots
   * to the list, or makes the parse panic.
   */
  method LineSlots(tokens: seq<string>) returns (r: Option<seq<nat>>)
    ensures r == SlotList(tokens)
  {
    var slots: seq<nat> := [];
    for t := 0 to |tokens|
      invariant SlotList(tokens[..t]) == Some(slots)
    {
      assert tokens[..t + 1][..t] == tokens[..t];
      var next := PushToken(slots, tokens[t]);
      if next.None? {
        SlotListStop(tokens, t);
        return None;
      }
      slots := next.value;
    }
    assert tokens[..|tokens|] == tokens;
    return Some(slots);
  }

  /**
   * The body of the slot-token loop: a `->` token is skipped; otherwise the
   * start is pushed and, for `a-b`, every slot after it up to `b`.
   */
  method PushToken(slots: seq<nat>, content: string) returns (r: Option<seq<nat>>)
    ensures TokenSlots(content).None? ==> r.None?
    ensures TokenSlots(content).Some? ==> r == Some(slots + TokenSlots(content).value)
  {
    if Contains(content, "->") {
      assert slots + [] == slots;
      return Some(slots);
    }
    var scope := Split(content, "-");
    r := PushScope(slots, scope);
  }

  /** The number-parsing part of the loop body, over the `-`-pieces of a token. */
  method PushScope(slots: seq<nat>, scope: seq<string>) returns (r: Option<seq<nat>>)
    requires |scope| > 0
    ensures ScopeSlots(scope).None? ==> r.None?
    ensures ScopeSlots(scope).Some? ==> r == Some(slots + ScopeSlots(scope).value)
  {
    var start := ParseNat(scope[0]);
    if start.None? {
      return None;
    }
    var pushed := slots + [start.value];
    if |scope| == 2 {
      var end := ParseNat(scope[1]);
      if end.None? {
        return None;
      }
      pushed := PushRange(pushed, start.value + 1, end.value + 1);
      AppendAssoc(slots, [start.value], SlotRange(start.value + 1, end.value + 1));
    }
    return Some(pushed);
  }

  lemma AppendAssoc(a: seq<nat>, b: seq<nat>, c: seq<nat>)
    ensures a + b + c == a + (b + c)
  {
  }

  /** The `while` loop of a range token: push `lo, lo + 1, ..., hi - 1`. */
  method PushRange(pushed: seq<nat>, lo: nat, hi: nat) returns (r: seq<nat>)
    ensures r == pushed + SlotRange(lo, hi)
  {
    r := pushed;
    var i := lo;
    while i < hi
      invariant lo <= i && (i <= hi || i == lo)
      invariant r == pushed + SlotRange(lo, i)
    {
      assert SlotRange(lo, i + 1) == SlotRange(lo, i) + [i];
      r := r + [i];
      i := i + 1;
    }
    assert SlotRange(lo, i) == SlotRange(lo, hi);
  }

  /** A reply parses iff every line does, into one node per line in line order. */
  lemma ParseLinesPerLine(lines: seq<string>)
    ensures ParseLines(lines).Success? <==> forall i | 0 <= i < |lines| :: ParseLine(lines[i]).Success?
    ensures ParseLines(lines).Success? ==>
      |ParseLines(lines).value| == |lines| &&
      forall i | 0 <= i < |lines| :: ParseLines(lines).value[i] == ParseLine(lines[i]).value
  {
    var rs := seq(|lines|, i requires 0 <= i < |lines| => ParseLine(lines[i]));
    CollectAll(rs);
    assert forall i | 0 <= i < |lines| :: rs[i] == ParseLine(lines[i]);
  }

  /** A reply that fails to parse fails as its first failing line does. */
  lemma ParseLinesFirstFailure(lines: seq<string>)
    ensures ParseLines(lines).Failure? ==>
      exists i | 0 <= i < |lines| ::
        ParseLine(lines[i]).Failure? && ParseLines(lines).error == ParseLine(lines[i]).error &&
        forall j | 0 <= j < i :: ParseLine(lines[j]).Success?
  {
    var rs := seq(|lines|, i requires 0 <= i < |lines| => ParseLine(lines[i]));
    CollectFirstFailure(rs);
    if Collect(rs).Failure? {
      var i :| 0 <= i < |rs| && rs[i].Failure? && Collect(rs).error == rs[i].error && forall j | 0 <= j < i :: rs[j].Success?;
      assert ParseLine(lines[i]) == rs[i];
      assert forall j | 0 <= j < i :: ParseLine(lines[j]) == rs[j];
    }
  }

  /**
   * The fields of one line: fewer than 8 space-separated fields is
   * `BadCluster`; otherwise `name` is field 0, the address is field 1 up to
   * the first `@`, the role is master iff field 2 contains `master`,
   * `slaveof` is field 3 unless it is `-`, and `slots` is always present.
   */
  lemma ParseLineFields(line: string)
    ensures ParseLine(line) == Failure(Returned(BadCluster)) <==> |Split(line, " ")| < 8
    ensures ParseLine(line).Success? ==>
      var kv, n := Split(line, " "), ParseLine(line).value;
      n.name == kv[0] &&
      Addr(n) == Split(kv[1], "@")[0] &&
      n.role.Some? && (IsMaster(n) <==> Contains(kv[2], "master")) &&
      (n.slaveof.Some? <==> kv[3] != "-") && (n.slaveof.Some? ==> n.slaveof.value == kv[3]) &&
      n.slots == SlotList(kv[8..]) && n.slots.Some?
  {
    var kv := Split(line, " ");
    if |kv| >= 8 {
      NewAccepts(Split(kv[1], "@")[0]);
    }
  }

  lemma DecimalLacks(n: nat, c: char)
    requires !IsDigit(c)
    ensures c !in Decimal(n)
  {
  }

  lemma RangeTokenPieces(a: nat, b: nat)
    ensures Split(Decimal(a) + "-" + Decimal(b), "-") == [Decimal(a), Decimal(b)]
    ensures !Contains(Decimal(a) + "-" + Decimal(b), "->")
  {
    var token := Decimal(a) + "-" + Decimal(b);
    DecimalLacks(a, '-');
    DecimalLacks(b, '-');
    DecimalLacks(a, '>');
    DecimalLacks(b, '>');
    assert Join([Decimal(b)], "-") == Decimal(b);
    assert Join([Decimal(a), Decimal(b)], "-") == token;
    JoinThenSplit([Decimal(a), Decimal(b)], '-');
    assert '>' !in token;
    AbsentCharNotContained(token, "->", 1);
  }

  /** A range token `a-b` stands for `a, a+1, ..., b`, or just `a` when `b < a`. */
  lemma TokenRange(a: nat, b: nat)
    ensures a <= b ==> TokenSlots(Decimal(a) + "-" + Decimal(b)) == Some(seq(b - a + 1, i requires 0 <= i <= b - a => a + i))
    ensures b < a ==> TokenSlots(Decimal(a) + "-" + Decimal(b)) == Some([a])
  {
    TokenRangeParsed(a, b);
    RangeFrom(a, b);
  }

  lemma TokenRangeParsed(a: nat, b: nat)
    ensures TokenSlots(Decimal(a) + "-" + Decimal(b)) == Some([a] + SlotRange(a + 1, b + 1))
  {
    RangeTokenPieces(a, b);
    RangeScope(a, b);
  }

  lemma RangeScope(a: nat, b: nat)
    ensures ScopeSlots([Decimal(a), Decimal(b)]) == Some([a] + SlotRange(a + 1, b + 1))
  {
    DecimalRoundTrip(a);
    DecimalRoundTrip(b);
  }

  lemma RangeFrom(a: nat, b: nat)
    ensures a <= b ==> [a] + SlotRange(a + 1, b + 1) == seq(b - a + 1, i requires 0 <= i <= b - a => a + i)
    ensures b < a ==> [a] + SlotRange(a + 1, b + 1) == [a]
  {
  }

  /** A single-slot token `a` stands for `a`. */
  lemma TokenSingle(a: nat)
    ensures TokenSlots(Decimal(a)) == Some([a])
  {
    DecimalLacks(a, '-');
    DecimalLacks(a, '>');
    assert Join([Decimal(a)], "-") == Decimal(a);
    JoinThenSplit([Decimal(a)], '-');
    AbsentCharNotContained(Decimal(a), "->", 1);
    DecimalRoundTrip(a);
  }

  /** A migrating marker `[slot->-id]` is skipped and stands for no slot. */
  lemma TokenMigratingSkipped(slot: nat, id: string)
    ensures TokenSlots("[" + Decimal(slot) + "->-" + id + "]") == Some([])
  {
    var token := "[" + Decimal(slot) + "->-" + id + "]";
    var k := 1 + |Decimal(slot)|;
    assert token[k..k + 2] == "->";
    assert OccursAt(token, "->", k);
  }

  /**
   * An importing marker `[slot-<-id]` (with an id free of `>`) is not
   * caught by the `->` test: its first `-`-piece `[slot` is no number, and
   * parsing the line panics.
   */
  lemma TokenImportingPanics(slot: nat, id: string)
    requires '>' !in id
    ensures TokenSlots("[" + Decimal(slot) + "-<-" + id + "]") == None
  {
    var token := "[" + Decimal(slot) + "-<-" + id + "]";
    DecimalLacks(slot, '>');
    assert '>' !in token by {
      assert token == "[" + Decimal(slot) + "-<-" + id + "]";
    }
    AbsentCharNotContained(token, "->", 1);
    var head := Split(token, "-")[0];
    SplitHeadIsPrefix(token, "-");
    if |head| > 0 {
      assert head[0] == token[0] == '[';
    }
    NotANumber(head);
  }

  // ---------------------------------------------------------------------
  // CLUSTER INFO

  /** The entry one line of a `CLUSTER INFO` reply contributes: only a line of two `:`-pieces does. */
  function InfoEntry(line: string): Option<(string, string)>
  {
    var kv := Split(line, ":");
    if |kv| == 2 then Some((kv[0], kv[1])) else None
  }

  /** The info map built line by line; a later line overwrites an earlier one's key. */
  function InfoMap(lines: seq<string>): (info: map<string, string>)
    ensures forall k | k in info :: exists i | 0 <= i < |lines| :: InfoEntry(lines[i]) == Some((k, info[k]))
  {
    if lines == [] then map[]
    else
      var init := lines[..|lines| - 1];
      assert forall i | 0 <= i < |init| :: init[i] == lines[i];
      var m := InfoMap(init);
      match InfoEntry(lines[|lines| - 1])
      case None => m
      case Some(e) => m[e.0 := e.1]
  }

  /** The text-processing body of `Conn::node_info`. */
  method NodeInfo(reply: string) returns (info: map<string, string>)
    ensures info == InfoMap(Split(reply, "\r\n"))
  {
    var infos := Split(reply, "\r\n");
    info := map[];
    for k := 0 to |infos|
      invariant info == InfoMap(infos[..k])
    {
      assert infos[..k + 1][..k] == infos[..k];
      var kv := Split(infos[k], ":");
      if |kv| == 2 {
        info := info[kv[0] := kv[1]];
      }
    }
    assert infos[..|infos|] == infos;
  }

  /** A line becomes an entry iff it holds exactly one `:`; key and value then rejoin to the line. */
  lemma InfoEntryShape(line: string)
    ensures InfoEntry(line).Some? <==> Count(line, ':') == 1
    ensures InfoEntry(line).Some? ==> HostPort(InfoEntry(line).value.0, InfoEntry(line).value.1) == line
  {
    AddrPieces(line);
  }

  /** A key is in the info map iff some line has it as its entry key. */
  lemma {:induction false} InfoMapKeys(lines: seq<string>, key: string)
    ensures key in InfoMap(lines) <==>
      exists i | 0 <= i < |lines| :: InfoEntry(lines[i]).Some? && InfoEntry(lines[i]).value.0 == key
    decreases |lines|
  {
    if lines != [] {
      var init := lines[..|lines| - 1];
      InfoMapKeys(init, key);
      assert forall i | 0 <= i < |init| :: init[i] == lines[i];
    }
  }

  /** A key's value comes from the last line whose entry has that key. */
  lemma InfoMapLastWins(lines: seq<string>, key: string)
    requires key in InfoMap(lines)
    ensures exists i | 0 <= i < |lines| ::
      InfoEntry(lines[i]) == Some((key, InfoMap(lines)[key])) && forall j | i < j < |lines| :: !SetsKey(lines, j, key)
  {
    var i := LastKeyLine(lines, key);
    assert InfoEntry(lines[i]) == Some((key, InfoMap(lines)[key])) && forall j | i < j < |lines| :: !SetsKey(lines, j, key);
  }

  /** Whether line `j` sets `key`. */
  predicate SetsKey(lines: seq<string>, j: nat, key: string)
    requires j < |lines|
  {
    InfoEntry(lines[j]).Some? && InfoEntry(lines[j]).value.0 == key
  }

  lemma {:induction false} LastKeyLine(lines: seq<string>, key: string) returns (i: nat)
    requires key in InfoMap(lines)
    ensures i < |lines| && InfoEntry(lines[i]) == Some((key, InfoMap(lines)[key]))
    ensures forall j | i < j < |lines| :: !SetsKey(lines, j, key)
    decreases |lines|
  {
    var init := lines[..|lines| - 1];
    var last := |lines| - 1;
    if SetsKey(lines, last, key) {
      i := last;
    } else {
      assert InfoMap(lines) == (match InfoEntry(lines[last]) case None => InfoMap(init) case Some(e) => InfoMap(init)[e.0 := e.1]);
      assert key in InfoMap(init) && InfoMap(lines)[key] == InfoMap(init)[key];
      i := LastKeyLine(init, key);
      assert lines[i] == init[i];
      forall j | i < j < |lines|
        ensures !SetsKey(lines, j, key)
      {
        if j < last {
          assert !SetsKey(init, j, key);
          assert lines[j] == init[j];
        }
      }
    }
  }
}
