/**
 * The slot-allocation algorithms of create.rs: `divide` splits a count into
 * near-equal shares, `slpit_slots` turns the shares into contiguous
 * half-open chunks of the slot space, and `spread` picks nodes round-robin
 * out of per-host buckets, popping them from the buckets.
 */
module SlotAllocator {
  import opened Wrappers

  /** Number of hash slots of a cluster (`CLUSTER_SLOTS`). */
  const ClusterSlots: nat := 16384

  function Sum(s: seq<nat>): nat
  {
    if s == [] then 0 else s[0] + Sum(s[1..])
  }

  lemma {:induction false} SumAppend(a: seq<nat>, b: seq<nat>)
    ensures Sum(a + b) == Sum(a) + Sum(b)
    decreases |a|
  {
    if a == [] {
      assert a + b == b;
    } else {
      assert (a + b)[1..] == a[1..] + b;
      SumAppend(a[1..], b);
    }
  }

  /** Sums of longer prefixes are larger. */
  lemma PrefixSumMonotone(s: seq<nat>, i: nat, j: nat)
    requires i <= j <= |s|
    ensures Sum(s[..i]) <= Sum(s[..j])
  {
    assert s[..j] == s[..i] + s[i..j];
    SumAppend(s[..i], s[i..j]);
  }

  lemma PrefixSumStep(s: seq<nat>, i: nat)
    requires i < |s|
    ensures Sum(s[..i + 1]) == Sum(s[..i]) + s[i]
  {
    assert s[..i + 1] == s[..i] + [s[i]];
    SumAppend(s[..i], [s[i]]);
  }

  // ---------------------------------------------------------------------
  // divide

  /** The share of bucket `i` when `n` is divided among `m` buckets. */
  function Share(n: nat, m: nat, i: nat): nat
    requires m > 0
  {
    if i < n % m then n / m + 1 else n / m
  }

  /** `divide(n, m)` as a value: `m` shares, the first `n % m` one larger. */
  function Shares(n: nat, m: nat): (r: seq<nat>)
    requires m > 0
    ensures |r| == m
  {
    seq(m, i requires 0 <= i < m => Share(n, m, i))
  }

  /** `divide`: the `while` loop pushing `avg + 1` for the first `remain` buckets and `avg` after. */
  method Divide(n: nat, m: nat) returns (c: seq<nat>)
    requires m > 0
    ensures c == Shares(n, m)
    ensures Sum(c) == n
  {
    var avg := n / m;
    var remain := n % m;
    c := [];
    var i := 0;
    while i < m
      invariant 0 <= i <= m
      invariant c == Shares(n, m)[..i]
    {
      if i < remain {
        c := c + [avg + 1];
      } else {
        c := c + [avg];
      }
      i := i + 1;
    }
    SharesSum(n, m);
  }

  lemma {:induction false} SharesPrefixSum(n: nat, m: nat, k: nat)
    requires 0 < m && k <= m
    ensures Sum(Shares(n, m)[..k]) == k * (n / m) + (if k < n % m then k else n % m)
  {
    if k > 0 {
      SharesPrefixSum(n, m, k - 1);
      PrefixSumStep(Shares(n, m), k - 1);
      MulStep(k, n / m);
    }
  }

  lemma MulStep(k: nat, q: nat)
    requires k > 0
    ensures k * q == (k - 1) * q + q
  {
  }

  /** The shares of `divide(n, m)` add up to `n`. */
  lemma SharesSum(n: nat, m: nat)
    requires m > 0
    ensures Sum(Shares(n, m)) == n
  {
    SharesPrefixSum(n, m, m);
    assert Shares(n, m)[..m] == Shares(n, m);
  }

  /**
   * The shares of `divide(n, m)` are balanced: they never grow along the
   * sequence, the largest is at most one more than the smallest, and the
   * first `n % m` are the ceiling of `n / m`.
   */
  lemma SharesBalanced(n: nat, m: nat)
    requires m > 0
    ensures forall i, j | 0 <= i <= j < m :: Shares(n, m)[j] <= Shares(n, m)[i] <= Shares(n, m)[j] + 1
    ensures forall i | 0 <= i < n % m :: Shares(n, m)[i] * m == n + (m - n % m)
    ensures forall i | n % m <= i < m :: Shares(n, m)[i] * m == n - n % m
  {
    var q, r := n / m, n % m;
    assert n == q * m + r;
    forall i | 0 <= i < r
      ensures Shares(n, m)[i] * m == n + (m - r)
    {
      assert (q + 1) * m == q * m + m;
    }
  }

  // ---------------------------------------------------------------------
  // slpit_slots

  /** A half-open range `[start, end)` of slots. */
  datatype Chunk = Chunk(start: nat, end: nat)
  {
    predicate Holds(slot: nat) { start <= slot < end }
  }

  /** `slpit_slots(n, m)` as a value: chunk `i` runs from the sum of the shares before it. */
  function SlotChunks(n: nat, m: nat): (r: seq<Chunk>)
    requires m > 0
    ensures |r| == m
  {
    var shares := Shares(n, m);
    seq(m, i requires 0 <= i < m => Chunk(Sum(shares[..i]), Sum(shares[..i + 1])))
  }

  /** `slpit_slots`: accumulates `total` over the shares, pushing one chunk per share. */
  method SplitSlots(n: nat, m: nat) returns (r: Option<seq<Chunk>>)
    requires m > 0
    ensures r == Some(SlotChunks(n, m))
  {
    var chunks := Divide(n, m);
    var res: seq<Chunk> := [];
    var total: nat := 0;
    for i := 0 to |chunks|
      invariant res == SlotChunks(n, m)[..i]
      invariant total == Sum(chunks[..i])
    {
      var num := chunks[i];
      PrefixSumStep(chunks, i);
      res := res + [Chunk(total, total + num)];
      total := total + num;
    }
    assert SlotChunks(n, m)[..|chunks|] == SlotChunks(n, m);
    r := Some(res);
  }

  /**
   * The chunks tile `[0, n)`: the first starts at 0, each ends where the next
   * starts, the last ends at `n`, and chunk `i` holds `divide(n, m)[i]` slots.
   */
  lemma SlotChunksTile(n: nat, m: nat)
    requires m > 0
    ensures SlotChunks(n, m)[0].start == 0
    ensures forall i | 0 <= i < m - 1 :: SlotChunks(n, m)[i].end == SlotChunks(n, m)[i + 1].start
    ensures SlotChunks(n, m)[m - 1].end == n
    ensures forall i | 0 <= i < m :: SlotChunks(n, m)[i].end - SlotChunks(n, m)[i].start == Shares(n, m)[i]
  {
    var shares := Shares(n, m);
    SharesSum(n, m);
    assert shares[..m] == shares;
    forall i | 0 <= i < m
      ensures SlotChunks(n, m)[i].end - SlotChunks(n, m)[i].start == shares[i]
    {
      PrefixSumStep(shares, i);
    }
  }

  lemma {:induction false} PrefixLocate(sizes: seq<nat>, slot: nat) returns (i: nat)
    requires slot < Sum(sizes)
    ensures i < |sizes| && Sum(sizes[..i]) <= slot < Sum(sizes[..i + 1])
    decreases |sizes|
  {
    if slot < sizes[0] {
      i := 0;
      assert sizes[..1] == [sizes[0]];
    } else {
      var j := PrefixLocate(sizes[1..], slot - sizes[0]);
      i := j + 1;
      assert sizes[..i] == [sizes[0]] + sizes[1..][..j];
      assert sizes[..i + 1] == [sizes[0]] + sizes[1..][..j + 1];
    }
  }

  /** Every slot below `n` lies in exactly one chunk of `slpit_slots(n, m)`. */
  lemma SlotChunksPartition(n: nat, m: nat, slot: nat)
    requires m > 0 && slot < n
    ensures exists i :: 0 <= i < m && SlotChunks(n, m)[i].Holds(slot)
    ensures forall i, j | 0 <= i < m && 0 <= j < m && SlotChunks(n, m)[i].Holds(slot) && SlotChunks(n, m)[j].Holds(slot) :: i == j
  {
    var shares := Shares(n, m);
    SharesSum(n, m);
    var k := PrefixLocate(shares, slot);
    assert SlotChunks(n, m)[k].Holds(slot);
    forall i, j | 0 <= i < m && 0 <= j < m && SlotChunks(n, m)[i].Holds(slot) && SlotChunks(n, m)[j].Holds(slot)
      ensures i == j
    {
      if i < j {
        PrefixSumMonotone(shares, i + 1, j);
      } else if j < i {
        PrefixSumMonotone(shares, j + 1, i);
      }
    }
  }

  /** The test case of create.rs: 100 slots over 3 masters. */
  lemma SplitSlotsExample()
    ensures SlotChunks(100, 3) == [Chunk(0, 34), Chunk(34, 67), Chunk(67, 100)]
  {
    var shares := Shares(100, 3);
    assert shares == [34, 33, 33];
    assert shares[..0] == [];
    assert shares[..1] == [34];
    assert shares[..2] == [34, 33];
    assert shares[..3] == shares;
    assert Sum([33]) == 33;
    assert Sum([33, 33]) == 66;
    assert Sum([34, 33]) == 67;
    assert Sum([34, 33, 33]) == 100;
    var c := SlotChunks(100, 3);
    assert c[0] == Chunk(0, 34) && c[1] == Chunk(34, 67) && c[2] == Chunk(67, 100);
  }

  // ---------------------------------------------------------------------
  // spread

  /** What `spread` comes to: too few candidates (`None`), a panic on an empty bucket, or the picked nodes. */
  datatype SpreadOutcome<T> = Short | EmptyBucket | Picked(nodes: seq<T>)

  /** Total number of candidates across the host buckets. */
  function TotalLen<T>(buckets: seq<seq<T>>): nat
  {
    if buckets == [] then 0 else TotalLen(buckets[..|buckets| - 1]) + |buckets[|buckets| - 1]|
  }

  function Flatten<T>(buckets: seq<seq<T>>): seq<T>
  {
    if buckets == [] then [] else buckets[0] + Flatten(buckets[1..])
  }

  lemma {:induction false} FlattenAppend<T>(a: seq<seq<T>>, b: seq<seq<T>>)
    ensures Flatten(a + b) == Flatten(a) + Flatten(b)
    decreases |a|
  {
    if a == [] {
      assert a + b == b;
    } else {
      assert (a + b)[1..] == a[1..] + b;
      FlattenAppend(a[1..], b);
    }
  }

  lemma {:induction false} TotalLenIsFlattenLength<T>(buckets: seq<seq<T>>)
    ensures TotalLen(buckets) == |Flatten(buckets)|
    decreases |buckets|
  {
    if buckets != [] {
      var init := buckets[..|buckets| - 1];
      TotalLenIsFlattenLength(init);
      assert buckets == init + [buckets[|buckets| - 1]];
      FlattenAppend(init, [buckets[|buckets| - 1]]);
    }
  }

  /** Popping the last node of bucket `j` removes exactly that node from the pool. */
  lemma {:induction false} PopConserves<T>(buckets: seq<seq<T>>, j: nat)
    requires j < |buckets| && |buckets[j]| > 0
    ensures var b := buckets[j];
      multiset(Flatten(buckets[j := b[..|b| - 1]])) + multiset{b[|b| - 1]} == multiset(Flatten(buckets))
    decreases |buckets|
  {
    var b := buckets[j];
    var shorter, x := b[..|b| - 1], b[|b| - 1];
    if j > 0 {
      var tail := buckets[1..];
      assert buckets[j := shorter] == [buckets[0]] + tail[j - 1 := shorter];
      assert tail[j - 1] == b;
      PopConserves(tail, j - 1);
      var head, rest := buckets[0], Flatten(tail[j - 1 := shorter]);
      assert Flatten(buckets[j := shorter]) == head + rest;
      assert Flatten(buckets) == head + Flatten(tail);
      assert multiset(rest) + multiset{x} == multiset(Flatten(tail));
      assert multiset(head + rest) == multiset(head) + multiset(rest);
    } else {
      PopHead(buckets);
    }
  }

  lemma PopHead<T>(buckets: seq<seq<T>>)
    requires |buckets| > 0 && |buckets[0]| > 0
    ensures var b := buckets[0];
      multiset(Flatten(buckets[0 := b[..|b| - 1]])) + multiset{b[|b| - 1]} == multiset(Flatten(buckets))
  {
    var b := buckets[0];
    var shorter, x := b[..|b| - 1], b[|b| - 1];
    assert buckets[0 := shorter][1..] == buckets[1..];
    assert b == shorter + [x];
    calc {
      multiset(Flatten(buckets[0 := shorter])) + multiset{x};
      multiset(shorter) + multiset(Flatten(buckets[1..])) + multiset{x};
      multiset(shorter) + multiset{x} + multiset(Flatten(buckets[1..]));
      multiset(b) + multiset(Flatten(buckets[1..]));
      multiset(Flatten(buckets));
    }
  }

  lemma DivModOf(p: nat, h: nat, j: nat)
    requires 0 <= j < h
    ensures (p * h + j) / h == p && (p * h + j) % h == j
  {
    var x := p * h + j;
    var q, r := x / h, x % h;
    assert (q - p) * h == j - r;
    if q - p >= 1 {
      assert false;
    } else if q - p <= -1 {
      assert false;
    }
  }

  /** One more pick adds one to the share of exactly the bucket it comes from. */
  lemma ShareStep(n: nat, h: nat, j: nat)
    requires j < h
    ensures Share(n + 1, h, j) == Share(n, h, j) + (if n % h == j then 1 else 0)
  {
    var q, r := n / h, n % h;
    assert n == q * h + r;
    if r + 1 < h {
      DivModOf(q, h, r + 1);
    } else {
      assert n + 1 == (q + 1) * h + 0;
      DivModOf(q + 1, h, 0);
      assert (n + 1) / h == q + 1 && (n + 1) % h == 0;
      assert r == h - 1;
    }
  }

  /** Pick `k` lies within the share of the bucket it comes from. */
  lemma PickInShare(n: nat, h: nat, k: nat)
    requires h > 0 && k < n
    ensures k / h < Share(n, h, k % h)
  {
    if k + 1 < n {
      PickInShare(n - 1, h, k);
      ShareStep(n - 1, h, k % h);
    } else {
      ShareStep(k, h, k % h);
      DivModOf(k / h, h, k % h);
    }
  }

  /** No bucket holds fewer candidates than the round-robin takes from it. */
  ghost predicate SharesFit<T>(buckets: seq<seq<T>>, n: nat)
    requires |buckets| > 0
  {
    forall j | 0 <= j < |buckets| :: Share(n, |buckets|, j) <= |buckets[j]|
  }

  /** Pick `k` takes, from bucket `k % h`, the node `k / h` places before the bucket's end. */
  function PickAt<T>(buckets: seq<seq<T>>, n: nat, k: nat): T
    requires |buckets| > 0 && k < n && SharesFit(buckets, n)
  {
    var h := |buckets|;
    PickInShare(n, h, k);
    var b := buckets[k % h];
    b[|b| - 1 - k / h]
  }

  /** What the buckets hold after `n` picks: each bucket minus its share, popped from the end. */
  function Remaining<T>(buckets: seq<seq<T>>, n: nat): seq<seq<T>>
    requires |buckets| > 0 && SharesFit(buckets, n)
  {
    seq(|buckets|, j requires 0 <= j < |buckets| => buckets[j][..|buckets[j]| - Share(n, |buckets|, j)])
  }

  /** The first `n` picks of the round-robin, in order. */
  ghost function Picks<T>(buckets: seq<seq<T>>, n: nat): seq<T>
    requires |buckets| > 0 && SharesFit(buckets, n)
  {
    seq(n, k requires 0 <= k < n => PickAt(buckets, n, k))
  }

  /** `spread(buckets, n)` as a value. */
  ghost function SpreadSpec<T>(buckets: seq<seq<T>>, n: nat): (r: SpreadOutcome<T>)
    requires |buckets| > 0 || n > 0
    ensures r.Short? <==> TotalLen(buckets) < n
    ensures r.Picked? ==> |r.nodes| == n
  {
    if TotalLen(buckets) < n then Short
    else if !SharesFit(buckets, n) then EmptyBucket
    else Picked(Picks(buckets, n))
  }

  lemma {:induction false} ShareMonotone(a: nat, b: nat, h: nat, j: nat)
    requires a <= b && j < h
    ensures Share(a, h, j) <= Share(b, h, j)
    decreases b - a
  {
    if a < b {
      ShareStep(a, h, j);
      ShareMonotone(a + 1, b, h, j);
    }
  }

  lemma RemainingNone<T>(buckets: seq<seq<T>>)
    requires |buckets| > 0
    ensures SharesFit(buckets, 0) && Remaining(buckets, 0) == buckets
  {
    forall i | 0 <= i < |buckets|
      ensures Remaining(buckets, 0)[i] == buckets[i]
    {
      assert buckets[i][..|buckets[i]|] == buckets[i];
    }
  }

  /**
   * One more pick pops the last remaining node of bucket `m % h`: it is
   * appended to the picks and removed from that bucket, nothing else moves.
   */
  lemma SpreadStep<T>(buckets: seq<seq<T>>, m: nat)
    requires |buckets| > 0 && SharesFit(buckets, m) && |Remaining(buckets, m)[m % |buckets|]| > 0
    ensures SharesFit(buckets, m + 1)
    ensures var rest := Remaining(buckets, m)[m % |buckets|];
      Picks(buckets, m + 1) == Picks(buckets, m) + [rest[|rest| - 1]] &&
      Remaining(buckets, m + 1) == Remaining(buckets, m)[m % |buckets| := rest[..|rest| - 1]]
  {
    var h := |buckets|;
    var j := m % h;
    forall i | 0 <= i < h
      ensures Share(m + 1, h, i) == Share(m, h, i) + (if i == j then 1 else 0)
    {
      ShareStep(m, h, i);
    }
    assert Share(m, h, j) == m / h by {
      DivModOf(m / h, h, j);
    }
    var rest := Remaining(buckets, m)[j];
    assert Picks(buckets, m + 1)[m] == rest[|rest| - 1];
    assert Picks(buckets, m + 1) == Picks(buckets, m) + [rest[|rest| - 1]];
    var after, updated := Remaining(buckets, m + 1), Remaining(buckets, m)[j := rest[..|rest| - 1]];
    forall i | 0 <= i < h
      ensures after[i] == updated[i]
    {
      if i == j {
        assert buckets[j][..|buckets[j]| - Share(m + 1, h, j)] == rest[..|rest| - 1];
      }
    }
  }

  /** A bucket emptied before its share is taken makes the round-robin panic. */
  lemma SpreadStuck<T>(buckets: seq<seq<T>>, n: nat, m: nat)
    requires |buckets| > 0 && m < n <= TotalLen(buckets)
    requires SharesFit(buckets, m) && |Remaining(buckets, m)[m % |buckets|]| == 0
    ensures SpreadSpec(buckets, n) == EmptyBucket
  {
    var h := |buckets|;
    ShareStep(m, h, m % h);
    ShareMonotone(m + 1, n, h, m % h);
  }

  /**
   * `spread`: counts the candidates, returns `None` when they are fewer than
   * `n`, and otherwise pops one node from each host in turn, pass after
   * pass, until `n` are picked; popping an empty bucket panics. The host
   * map is an array of buckets in its iteration order.
   */
  method Spread<T>(hosts: array<seq<T>>, n: nat) returns (r: SpreadOutcome<T>)
    requires hosts.Length > 0 || n > 0
    modifies hosts
    ensures r == SpreadSpec(old(hosts[..]), n)
    ensures r.Picked? ==> hosts[..] == Remaining(old(hosts[..]), n)
    ensures r.Picked? ==> multiset(r.nodes) + multiset(Flatten(hosts[..])) == multiset(Flatten(old(hosts[..])))
    ensures r.Short? ==> hosts[..] == old(hosts[..])
  {
    var h := hosts.Length;
    var total := CountNodes(hosts);
    if total < n {
      return Short;
    }
    ghost var start := hosts[..];
    RemainingNone(start);
    var target: seq<T> := [];
    ghost var p: nat := 0;
    while true
      invariant h == |start| > 0 && TotalLen(start) >= n
      invariant |target| == p * h <= n
      invariant Picking(start, hosts[..], target)
      decreases n - |target|
    {
      var j := 0;
      while j < h
        invariant 0 <= j <= h
        invariant |target| == p * h + j <= n
        invariant Picking(start, hosts[..], target)
      {
        DivModOf(p, h, j);
        if |target| >= n {
          SpreadConserves(start, n);
          return Picked(target);
        }
        if |hosts[j]| == 0 {
          SpreadStuck(start, n, |target|);
          return EmptyBucket;
        }
        PickStep(start, hosts[..], target);
        var bucket := hosts[j];
        var node := bucket[|bucket| - 1];
        hosts[j] := bucket[..|bucket| - 1];
        target := target + [node];
        j := j + 1;
      }
      assert (p + 1) * h == p * h + h;
      p := p + 1;
    }
  }

  /** The counting loop of `spread`. */
  method CountNodes<T>(hosts: array<seq<T>>) returns (total: nat)
    ensures total == TotalLen(hosts[..])
  {
    total := 0;
    for j := 0 to hosts.Length
      invariant total == TotalLen(hosts[..j])
    {
      assert hosts[..j + 1][..j] == hosts[..j];
      total := total + |hosts[j]|;
    }
    assert hosts[..hosts.Length] == hosts[..];
  }

  /** The state of `spread` after the picks in `target`: the buckets hold what those picks left. */
  ghost predicate Picking<T>(start: seq<seq<T>>, cur: seq<seq<T>>, target: seq<T>)
  {
    |start| > 0 && SharesFit(start, |target|) && target == Picks(start, |target|) && cur == Remaining(start, |target|)
  }

  /** Popping the last node of the next bucket in turn is the next pick. */
  lemma PickStep<T>(start: seq<seq<T>>, cur: seq<seq<T>>, target: seq<T>)
    requires Picking(start, cur, target) && |cur[|target| % |start|]| > 0
    ensures var j := |target| % |start|;
      var bucket := cur[j];
      j < |cur| && Picking(start, cur[j := bucket[..|bucket| - 1]], target + [bucket[|bucket| - 1]])
  {
    SpreadStep(start, |target|);
  }

  lemma {:induction false} PicksConserve<T>(buckets: seq<seq<T>>, n: nat)
    requires |buckets| > 0 && SharesFit(buckets, n)
    ensures multiset(Picks(buckets, n)) + multiset(Flatten(Remaining(buckets, n))) == multiset(Flatten(buckets))
    decreases n
  {
    var h := |buckets|;
    if n == 0 {
      RemainingNone(buckets);
    } else {
      var m := n - 1;
      var j := m % h;
      FitShrinks(buckets, n);
      PicksConserve(buckets, m);
      var before := Remaining(buckets, m);
      var rest := before[j];
      SpreadStep(buckets, m);
      var x, shorter := rest[|rest| - 1], rest[..|rest| - 1];
      PopConserves(before, j);
      var pm, fm, fn := multiset(Picks(buckets, m)), multiset(Flatten(before)), multiset(Flatten(before[j := shorter]));
      assert pm + fm == multiset(Flatten(buckets));
      assert fn + multiset{x} == fm;
      assert multiset(Picks(buckets, n)) == pm + multiset{x};
    }
  }

  /** The shares that fit after `n` picks fit after `n - 1`, and pick `n - 1` finds its bucket non-empty. */
  lemma FitShrinks<T>(buckets: seq<seq<T>>, n: nat)
    requires |buckets| > 0 && SharesFit(buckets, n) && n > 0
    ensures SharesFit(buckets, n - 1) && |Remaining(buckets, n - 1)[(n - 1) % |buckets|]| > 0
  {
    var h := |buckets|;
    var m := n - 1;
    var j := m % h;
    ShareStep(m, h, j);
    forall i | 0 <= i < h
      ensures Share(m, h, i) <= |buckets[i]|
    {
      ShareMonotone(m, n, h, i);
    }
  }

  /**
   * The buckets lose exactly the nodes `spread` returns: the picked nodes
   * and what remains in the buckets together are the original candidates.
   */
  lemma SpreadConserves<T>(buckets: seq<seq<T>>, n: nat)
    requires |buckets| > 0 && SpreadSpec(buckets, n).Picked?
    ensures multiset(SpreadSpec(buckets, n).nodes) + multiset(Flatten(Remaining(buckets, n))) == multiset(Flatten(buckets))
  {
    PicksConserve(buckets, n);
  }

  /**
   * The round-robin is even: host `j` gives up exactly `divide(n, h)[j]`
   * nodes, so the numbers taken from any two hosts differ by at most one,
   * and they add up to `n`.
   */
  lemma SpreadBalanced<T>(buckets: seq<seq<T>>, n: nat)
    requires |buckets| > 0 && SpreadSpec(buckets, n).Picked?
    ensures var h := |buckets|;
      forall j | 0 <= j < h :: |buckets[j]| - |Remaining(buckets, n)[j]| == Shares(n, h)[j]
    ensures var h := |buckets|;
      forall i, j | 0 <= i < h && 0 <= j < h ::
        |buckets[i]| - |Remaining(buckets, n)[i]| <= |buckets[j]| - |Remaining(buckets, n)[j]| + 1
    ensures |SpreadSpec(buckets, n).nodes| == n == Sum(Shares(n, |buckets|))
  {
    SharesBalanced(n, |buckets|);
    SharesSum(n, |buckets|);
  }

  /**
   * No host gives a second node before every host has given one: when at
   * most one pass is needed, pick `k` is the last node of bucket `k`.
   */
  lemma SpreadFirstPass<T>(buckets: seq<seq<T>>, n: nat)
    requires |buckets| > 0 && n <= |buckets| && SpreadSpec(buckets, n).Picked?
    ensures forall k | 0 <= k < n :: |buckets[k]| > 0 && SpreadSpec(buckets, n).nodes[k] == buckets[k][|buckets[k]| - 1]
  {
    forall k | 0 <= k < n
      ensures |buckets[k]| > 0 && SpreadSpec(buckets, n).nodes[k] == buckets[k][|buckets[k]| - 1]
    {
      DivModOf(0, |buckets|, k);
      PickInShare(n, |buckets|, k);
    }
  }

  /** The test case of create.rs: two hosts of two nodes, three picks. */
  lemma SpreadExample()
    ensures SpreadSpec([[1, 2], [3, 4]], 3) == Picked([2, 4, 1])
  {
    var b := [[1, 2], [3, 4]];
    assert TotalLen(b) == 4 by {
      assert b[..1] == [[1, 2]];
    }
    assert SharesFit(b, 3);
    var nodes := SpreadSpec(b, 3).nodes;
    DivModOf(0, 2, 0);
    DivModOf(0, 2, 1);
    DivModOf(1, 2, 0);
    assert nodes[0] == 2 && nodes[1] == 4 && nodes[2] == 1;
  }

  /**
   * Enough candidates overall but unevenly spread over hosts: the second
   * pass pops the emptied bucket of the second host, and `spread` panics.
   */
  lemma SpreadUnevenHosts()
    ensures SpreadSpec([[1, 2, 3], [4]], 4) == EmptyBucket
  {
    var b := [[1, 2, 3], [4]];
    assert TotalLen(b) == 4 by {
      assert b[..1] == [[1, 2, 3]];
    }
    assert Share(4, 2, 1) == 2;
  }
}
