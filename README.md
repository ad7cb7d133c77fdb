# rckit core in Dafny

This project models the logic of rckit, a command-line tool for administering Redis Cluster. Every network request is modelled as a value, and every reply the tool reads is an input:

- **Creating a cluster** (`src/create.rs`):
  - split the 16384 hash slots into near-equal contiguous chunks;
  - pick the masters and the replicas round-robin from per-host buckets of nodes;
  - attach each replica to a master;
  - give each master its chunk with `CLUSTER ADDSLOTS`.
- **Cluster topology** (`src/cluster.rs`):
  - the node record and its address;
  - node equality;
  - looking up a node by address;
  - the slot-ownership consistency check over the nodes' `CLUSTER NODES` views;
  - live resharding of one slot (`migrate_slot`);
  - deleting a node: handing its slots to the other masters and having the rest of the cluster forget it.
- **Reply parsing** (`src/conn.rs`): the `CLUSTER NODES` and `CLUSTER INFO` replies.
- **Adding nodes** (`src/add.rs`):
  - parsing the `replica,master` arguments;
  - introducing every new node to the cluster through an existing node with `CLUSTER MEET`;
  - pointing each replica at its master.

Files, one module each:

| file | module | contents |
|---|---|---|
| `wrappers.dfy` | `Wrappers` | `Option` and `Result` |
| `text.dfy` | `Text` | the Rust string operations the source uses: `split`, `contains`, `lines`, `parse::<usize>` and the `ip:port` join |
| `slot_allocator.dfy` | `SlotAllocator` | `divide`, `slpit_slots` and `spread` |
| `create.dfy` | `Create` | the cluster being created |
| `cluster_node.dfy` | `ClusterNode` | the node record of `cluster.rs` |
| `conn.dfy` | `Conn` | the requests sent, and the two reply parsers |
| `cluster.dfy` | `Cluster` | consistency, lookup, `migrate_slot` and `delete_node` |
| `add.dfy` | `Add` | the `add` command |

How the model represents the source:

- Code that changes state step by step is written as methods with loops. Each loop is proved equal to a specification function, and the properties are proved about that function:
  - `divide`, `slpit_slots` and `spread` (which pops from the host buckets held in an array);
  - the two reply parsers;
  - `consistency`, `migrate_slot` and `delete_node`;
  - the `Create.Cluster` and `Add.Add` classes.
- Requests sent over a connection become `Conn.Call` values, and a method returns the sequence of calls it makes.
- The replies whose content the source reads are inputs (every other request is taken to succeed; see "Left out"):
  - the key batches that `CLUSTER GETKEYSINSLOT` returns;
  - the text of `CLUSTER NODES` and `CLUSTER INFO`;
  - the per-node views that `consistency` compares.

## Model

| member | source | states |
|---|---|---|
| ClusterNode.New | src/cluster.rs:206-230 | a parsed node starts with no role, no master and no slots |
| ClusterNode.NewAccepts | src/cluster.rs:206-230 | the `:` split of `Node::new` accepts an input iff it holds exactly one `:`; the node is named after the whole input, `addr()` gives the input back, and neither ip nor port holds a `:` (the redis client that `Node::new` also opens is not modelled) |
| ClusterNode.Addr | src/cluster.rs:242-244 | for a node whose ip and port lack `:`, splitting the address on `:` gives back the ip and the port |
| ClusterNode.Same | src/cluster.rs:32-36 | equal nodes have the same address |
| ClusterNode.IsMaster | src/cluster.rs:264-266 | a master has a role, and it is not the slave role |
| ClusterNode.NewOfAddr | src/cluster.rs:242-244 | parsing the `addr()` of a node gives back its ip and port, named after the address |
| ClusterNode.SameIffSameAddr | src/cluster.rs:32-36 | two nodes are equal iff their addresses agree, whatever their names, roles, masters and slots |
| ClusterNode.NewExample | src/cluster.rs:10-14 | `127.0.0.1:8888` parses to ip `127.0.0.1` and port `8888` |
| SlotAllocator.Divide | src/create.rs:239-253 | the loop yields the balanced shares of `n` over `m` buckets, which add up to `n` |
| SlotAllocator.Shares | src/create.rs:239-253 | there are exactly `m` shares |
| SlotAllocator.SharesSum | src/create.rs:239-253 | the shares add up to `n` |
| SlotAllocator.SharesBalanced | src/create.rs:239-253 | the first `n % m` shares are one more than the rest; shares never increase along the list; any two differ by at most one |
| SlotAllocator.SharesPrefixSum | src/create.rs:239-253 | the first `k` shares add up to `k * (n / m)` plus one for each of them below `n % m` |
| SlotAllocator.SlotChunks | src/create.rs:197-206 | there is one chunk per share |
| SlotAllocator.SplitSlots | src/create.rs:197-206 | the running-total loop returns the chunks |
| SlotAllocator.SlotChunksTile | src/create.rs:197-206 | the first chunk starts at 0; each chunk ends where the next one starts; the last ends at `n`; the size of chunk `i` is share `i` |
| SlotAllocator.SlotChunksPartition | src/create.rs:197-206 | every slot below `n` lies in exactly one chunk |
| SlotAllocator.SplitSlotsExample | src/create.rs:29-36 | 100 slots over 3 masters give `[0,34)`, `[34,67)`, `[67,100)` |
| SlotAllocator.CountNodes | src/create.rs:257-263 | the counting loop gives the number of candidates over all buckets |
| SlotAllocator.Spread | src/create.rs:255-276 | `spread` is described by its specification function: `None` with the buckets untouched when candidates are fewer than `n`; a panic when a bucket runs dry; otherwise the picked nodes and the buckets left. The picked nodes plus the nodes left are the original nodes as a multiset |
| SlotAllocator.SpreadSpec | src/create.rs:255-276 | `spread` returns `None` iff the buckets hold fewer than `n` candidates; a successful `spread` returns exactly `n` nodes |
| SlotAllocator.SpreadStep | src/create.rs:267-275 | pick `m` pops the last node of bucket `m % h` |
| SlotAllocator.SpreadStuck | src/create.rs:267-275 | reaching an empty bucket before `n` picks is the panic outcome |
| SlotAllocator.PicksConserve | src/create.rs:267-275 | the picks together with the buckets left are a permutation of the original candidates |
| SlotAllocator.SpreadConserves | src/create.rs:267-275 | a successful `spread` loses no node and adds none |
| SlotAllocator.SpreadBalanced | src/create.rs:267-275 | bucket `j` gives exactly share `j` of `n` over the hosts; any two buckets give within one of each other; exactly `n` nodes are returned |
| SlotAllocator.SpreadFirstPass | src/create.rs:267-275 | the first pass takes the last node of each host in turn, so no host gives two nodes in one pass |
| SlotAllocator.SpreadExample | src/create.rs:52-81 | two hosts of two nodes, asked for 3, give the last node of each host and then the first node of the first host |
| SlotAllocator.SpreadUnevenHosts | src/create.rs:267-275 | with hosts of 3 nodes and 1 node, asking for 4 panics even though 4 candidates exist |
| Create.ParseNode | src/create.rs:223-236 | `create::Node::new` fails only with `BadAddr`; a parsed node has no master, and its `ip:port` key is the input |
| Create.ParseNodeAccepts | src/create.rs:223-236 | `create::Node::new` accepts an input iff it holds exactly one `:`, and the key of the node is the input |
| Create.ParseNodeOfKey | src/create.rs:223-236 | parsing the `ip:port` key of a node gives the node back |
| Create.ParseNodeExample | src/create.rs:38-42 | `127.0.0.1:8888` parses to ip `127.0.0.1` and port `8888` |
| Create.MasterCount | src/create.rs:115-124 | `Cluster::new` fails only with `BadCluster`; a settled count is at least 3, and a non-zero count given is kept |
| Create.MasterCountChoice | src/create.rs:115-124 | a given count is accepted iff it is at least 3. A zero count becomes the largest `c` with `c * (slave_count + 1) <= nodes`, and is accepted iff `nodes >= 3 * (slave_count + 1)` |
| Create.DerivedCountFillsMasters | src/create.rs:115-117 | with a derived count, every master has at least `slave_count` replicas among the remaining nodes |
| Create.IndexOf | src/create.rs:127-132 | the host's position in the host order |
| Create.GroupsHoldNodes | src/create.rs:127-132 | the per-host buckets hold exactly the nodes, as a multiset |
| Create.GroupsSnoc | src/create.rs:127-132 | pushing a node adds it to the end of its host's bucket only |
| Create.GroupByHost | src/create.rs:127-132 | the grouping loop builds the per-host buckets |
| Create.DrawLayout | src/create.rs:133-135 | drawing masters and then replicas from the same buckets gives the planned layout |
| Create.PlanSteps | src/create.rs:133-135 | the layout exists iff both draws succeed; the replicas are drawn from what the masters leave |
| Create.LayoutUsesEveryNode | src/create.rs:126-136 | there are `master_count` masters and `nodes - master_count` replicas, and together they are the nodes as a multiset |
| Create.LayoutDisjoint | src/create.rs:126-136 | no master shares an `ip:port` with a replica |
| Create.LayoutReplicasDistinct | src/create.rs:126-136 | the replicas have distinct addresses when the nodes do |
| Create.LayoutMastersOnDistinctHosts | src/create.rs:133 | with no more masters than hosts, no two masters share a host |
| Create.EvenHostsPlace | src/create.rs:126-136 | with equally many nodes on each host, one master per host succeeds |
| Create.EvenHostsOneMasterShort | src/create.rs:126-136 | with equally many nodes on each of at least two hosts, one master fewer than hosts has no layout: the replica draw panics |
| Create.ReplicasCoverSlaves | src/create.rs:166-194 | every replica keeps its address in order, follows some master's `ip:port`, and appears once |
| Create.ReplicasPerMaster | src/create.rs:166-194 | master `i` receives exactly share `i` of the replicas |
| Create.ReplicasOnePerPass | src/create.rs:166-194 | within one pass over the masters, no master receives two replicas |
| Create.GrantHolds | src/create.rs:141-147 | master `i` is granted exactly the slots of the `i`-th chunk counted from the end |
| Create.GrantsPartitionSlots | src/create.rs:141-147 | every one of the 16384 slots is granted to exactly one master |
| Create.GrantsStayInCluster | src/create.rs:141-147 | no slot at or above 16384 is granted |
| Create.Cluster.New | src/create.rs:97-125 | succeeds iff the master count is accepted, and fails only with `BadCluster`. On success the cluster holds the parsed addresses in order and the settled master count, with nothing placed yet |
| Create.Cluster.Init | src/create.rs:107-114 | the cluster starts with its nodes and counts, and no slots, masters or replicas |
| Create.Cluster.InitSlots | src/create.rs:126-139 | succeeds iff the layout exists. Then `master` is the drawn masters, `slots` the chunks of 16384 over `master_count`, and `slave` the replicas attached round-robin; `nodes` and the counts are unchanged |
| Create.Cluster.DistributeSlave | src/create.rs:166-194 | `slave` becomes the replicas attached round-robin to the masters |
| Create.Cluster.AddSlots | src/create.rs:141-147 | one `ADDSLOTS` per master, each popping the last chunk |
| Conn.SlotListStop | src/conn.rs:102-115 | a token that panics stops the line's parse |
| Conn.LineSlots | src/conn.rs:102-115 | the token loop yields the slots of the tokens from field 8 onward, or the panic |
| Conn.PushToken | src/conn.rs:103-114 | one token appends its slots to those gathered so far, or panics |
| Conn.PushScope | src/conn.rs:106-114 | one `a` or `a-b` token appends `a` then `a+1..=b` |
| Conn.PushRange | src/conn.rs:111-113 | the range loop appends `lo..hi` in order |
| Conn.TokenRange | src/conn.rs:106-114 | `a-b` gives `a, a+1, ..., b` when `a <= b`, and just `a` otherwise |
| Conn.TokenSingle | src/conn.rs:106-108 | a single number `a` gives `a` |
| Conn.TokenMigratingSkipped | src/conn.rs:103-105 | a migrating marker `[slot->-id]` contributes nothing |
| Conn.TokenImportingPanics | src/conn.rs:103-107 | an importing marker `[slot-<-id]` passes the `->` test and panics when parsed |
| Conn.ParseLine | src/conn.rs:86-117 | a line gives `BadCluster` iff it has fewer than 8 fields; a parsed node is named after field 0 and always has a role and a slot list |
| Conn.ParseLines | src/conn.rs:85-120 | a successful parse gives one node per line |
| Conn.Nodes | src/conn.rs:80-121 | the line loop gives the parse of the reply's lines |
| Conn.ParseLinesPerLine | src/conn.rs:85-119 | the parse succeeds iff every line parses; then there is one node per line, in line order |
| Conn.ParseLinesFirstFailure | src/conn.rs:85-89 | a failed parse reports the failure of the first line that fails |
| Conn.ParseLineFields | src/conn.rs:86-117 | `BadCluster` iff the line has fewer than 8 fields. Otherwise: the name is field 0; the address is field 1 up to the first `@`; the node is a master iff field 2 contains `master`; it has a master iff field 3 is not `-`, and that master is field 3; its slots are always present and are those of the tokens from field 8 onward |
| Conn.InfoMap | src/conn.rs:72-77 | every key maps to a value that some entry line of the reply sets for it |
| Conn.NodeInfo | src/conn.rs:67-79 | the loop gives the map of the reply's `\r\n`-separated lines |
| Conn.InfoEntryShape | src/conn.rs:73-76 | a line is an entry iff it holds exactly one `:`, and key `:` value gives the line back |
| Conn.InfoMapKeys | src/conn.rs:72-77 | the keys are exactly those of the entry lines |
| Conn.InfoMapLastWins | src/conn.rs:72-77 | each key maps to the value of the last line that sets it |
| Conn.LastKeyLine | src/conn.rs:72-77 | finds the last line that sets a key, which carries the mapped value |
| Cluster.Lookup | src/cluster.rs:183-190 | `None` iff no node has the address; otherwise a node of the list with that address |
| Cluster.LookupFirst | src/cluster.rs:183-190 | the node found is the first with the address |
| Cluster.Consistent | src/cluster.rs:86-126 | when it holds, all claims to a slot, across all views, name owners with one address, and the views hold 16384 claims each in all |
| Cluster.AllClaimsCounted | src/cluster.rs:109-123 | views of 16384 claims each hold `views * 16384` claims in all |
| Cluster.CountedStep | src/cluster.rs:119-123 | a view of exactly 16384 claims keeps the count check passing |
| Cluster.MiscountedView | src/cluster.rs:109-123 | any view whose claims do not number 16384 fails the check |
| Cluster.RecordedAgreeing | src/cluster.rs:97-112 | claims recorded in the owner map agree with one another |
| Cluster.RecordNew | src/cluster.rs:110-113 | a claim on a new slot is recorded |
| Cluster.RecordAgain | src/cluster.rs:97-109 | a claim by an equal node keeps the record |
| Cluster.RecordConflict | src/cluster.rs:97-108 | a claim by an unequal node breaks agreement |
| Cluster.CrossViewConflict | src/cluster.rs:87-108 | two unequal owners of one slot in any two views, the same or different, make the cluster inconsistent |
| Cluster.CountIsNotCoverage | src/cluster.rs:109-123 | a single view naming slot 0 16384 times passes; the check counts claims, not distinct slots |
| Cluster.AbsorbNode | src/cluster.rs:94-117 | either all of a node's claims are recorded and counted, or they clash with an earlier claim |
| Cluster.AbsorbView | src/cluster.rs:93-118 | the same for all the nodes of one view |
| Cluster.NodeConflict | src/cluster.rs:97-108 | a clash part-way through a node makes its claims disagree |
| Cluster.Consistency | src/cluster.rs:86-126 | true iff no slot is claimed by two unequal nodes across all views and every view holds exactly 16384 claims |
| Cluster.FirstEmpty | src/cluster.rs:196-201 | the first `GETKEYSINSLOT` reply that comes back empty |
| Cluster.MovedKeysAppend | src/cluster.rs:196-201 | the keys moved by a trace are those of its parts, in order |
| Cluster.DrainShape | src/cluster.rs:196-201 | the drain alternates `GETKEYSINSLOT` and `MIGRATE`, all on the source, until the first empty reply |
| Cluster.DrainKeys | src/cluster.rs:196-201 | the drain migrates exactly the keys of the replies before the first empty one, in order |
| Cluster.DrainMoves | src/cluster.rs:196-201 | the shape and the keys of the drain together |
| Cluster.DrainRest | src/cluster.rs:196-201 | a non-empty reply is followed by the drain of the rest |
| Cluster.MigrationOrder | src/cluster.rs:193-204 | in order: destination `IMPORTING` from the source; source `MIGRATING` to the destination; the drain on the source; source `NODE`; destination `NODE` |
| Cluster.MigrationTrace | src/cluster.rs:193-204 | a migration of a slot issues `2 * k + 5` requests when the `k+1`-th key batch is the first empty one, and every `SETSLOT` in it names that slot |
| Cluster.MigrateSlot | src/cluster.rs:193-204 | the loop issues the migration trace |
| Cluster.Recipients | src/cluster.rs:145-149 | the recipients are exactly the masters of the cluster whose name differs from the deleted node's |
| Cluster.Handed | src/cluster.rs:152-156 | there is one count per recipient |
| Cluster.HandedPrefix | src/cluster.rs:152-162 | the counts already handed out plus the ones still to pop add up to the slot count |
| Cluster.HandedBalanced | src/cluster.rs:152-156 | the counts add up to the slot count, are `n/m` or `n/m + 1`, differ by at most one and never decrease, because they are popped from the end |
| Cluster.Handoffs | src/cluster.rs:153-162 | as many handoffs as the counts add up to |
| Cluster.HandoffsInOrder | src/cluster.rs:153-162 | handoff `j` moves slot `j` of the list, to a recipient |
| Cluster.HandoffsAt | src/cluster.rs:153-162 | recipient `k` receives the consecutive slice of its count starting after the earlier recipients' slices |
| Cluster.Dispatch | src/cluster.rs:150-162 | one handoff per slot of the deleted node |
| Cluster.DeleteMovesEverySlot | src/cluster.rs:144-164 | every slot of the deleted master moves, in order, to a master other than itself |
| Cluster.DeleteRecipientRun | src/cluster.rs:152-162 | recipient `k` receives the slots from the sum of the earlier counts, for its count |
| Cluster.DeleteReplica | src/cluster.rs:143-181 | deleting a node that is not a master moves nothing and only sends the forgets |
| Cluster.DeletePanics | src/cluster.rs:150-152 | a master with no slot list, or with no other master, makes `delete_node` panic |
| Cluster.NoRecipients | src/cluster.rs:145-149 | with no other master the recipient list is empty |
| Cluster.DeletePlan | src/cluster.rs:143-165 | only a master can panic, and a panic is the only failure; a successful plan moves every slot of a master with a slot list, and nothing for any other node |
| Cluster.DeleteTrace | src/cluster.rs:143-181 | `delete_node` completes iff its plan does, fails only by panicking, and ends with the forget requests |
| Cluster.ForgetCalls | src/cluster.rs:167-180 | every call is `CLUSTER FORGET` of the deleted node, at most one per node |
| Cluster.ForgetTargets | src/cluster.rs:167-180 | a node is asked to forget iff its name differs from the deleted node's and it does not replicate it |
| Cluster.ForgetAll | src/cluster.rs:167-180 | the forget loop issues the forget calls |
| Cluster.MoveAll | src/cluster.rs:153-164 | the recipient loop migrates each handed-off slot in order |
| Cluster.DealNext | src/cluster.rs:156-162 | popping the next count moves the next recipient's slice |
| Cluster.DealtAll | src/cluster.rs:154-164 | after the last recipient every handoff has been migrated |
| Cluster.PopStep | src/cluster.rs:152-156 | the popped count is that recipient's handed count |
| Cluster.RunOf | src/cluster.rs:156-161 | a recipient's slice lies within the slot list and goes to it |
| Cluster.MoveRun | src/cluster.rs:159-161 | the slot loop migrates the recipient's slice |
| Cluster.DeleteNode | src/cluster.rs:143-181 | `delete_node` issues the deletion trace: the migrations of the plan, then the forgets |
| Add.ParsedNodes | src/add.rs:20-32 | each argument adds one or two nodes |
| Add.ReplicaMasters | src/add.rs:25-31 | every replica in the map is the first piece of some two-piece argument, and maps to that argument's master |
| Add.ReplicaMastersHas | src/add.rs:25-31 | every replica named by a `replica,master` argument is a key of the map |
| Add.ReplicaMastersKeys | src/add.rs:25-31 | the map's keys are exactly the replicas named by some `replica,master` argument |
| Add.ReplicaMastersLastWins | src/add.rs:25-31 | a replica maps to the master of the last argument that names it |
| Add.AddrIndex | src/add.rs:47-50 | `nodes_info` has exactly the nodes' addresses as keys, and each maps to a node of the list with that address |
| Add.IndexByAddr | src/add.rs:47-50 | the insertion loop builds `nodes_info` |
| Add.ParsedMastersKnown | src/add.rs:20-32 | every master address in the map is the address of a parsed node, so the lookup in `set_slave` never misses |
| Add.ParsedNamed | src/add.rs:20-32 | every parsed node is named after its address and has no master yet |
| Add.ParsedHasMaster | src/add.rs:20-24 | the master of every argument is among the parsed nodes |
| Add.Wire | src/add.rs:54-57 | wiring a node changes at most its master; a node whose address is not in the map is unchanged, and one whose address is gets a master |
| Add.MastersResolve | src/add.rs:53-57 | `nodes_info` resolves the master of every node in the map |
| Add.Wired | src/add.rs:53-60 | the node list keeps its length |
| Add.WiredOnlyReplicas | src/add.rs:53-60 | exactly the nodes whose address is in the map change, and only their master, which becomes the name of their master's node |
| Add.ReplicateCalls | src/add.rs:53-60 | at most one request per node |
| Add.ReplicateTargets | src/add.rs:53-60 | `CLUSTER REPLICATE` goes to exactly the nodes in the map, each with its master's name |
| Add.WiredSlaveOf | src/add.rs:20-32 | after `new` and `set_slave`, a node follows a master iff it is a named replica, and then follows the name of the node for the mapped master address |
| Add.SetSlaveStep | src/add.rs:53-60 | one iteration wires node `i` and sends its request when it is a replica |
| Add.MeetCalls | src/add.rs:40-45 | call `i` is a `CLUSTER MEET` of node `i`, sent to the origin |
| Add.MeetsFollowArgs | src/add.rs:40-45 | every meet goes to the origin, and every argument's master address is met |
| Add.Add.New | src/add.rs:13-39 | the origin's ip and port are its first two `:`-pieces. Each argument pushes its last `,`-piece as a node, then with exactly two pieces the first as a slave node, mapped to the master; every mapped master is a parsed node |
| Add.Add.AddNode | src/add.rs:40-45 | one meet per node, in list order, to the origin |
| Add.Add.SetSlave | src/add.rs:46-61 | `nodes` becomes the wired list and the calls are the replicate requests |
| Text.DecimalRoundTrip | src/conn.rs:107-110 | `parse::<usize>` reads back the decimal digits of every number |
| Text.NotANumber | src/conn.rs:107 | text not starting with a digit or `+` does not parse, so the `unwrap` panics |
| Text.LinesOfTerminated | src/conn.rs:85 | `lines()` of newline-terminated lines gives the lines back |
| Text.SplitCount | src/cluster.rs:208 | splitting on one character gives one more piece than its occurrences |

## Left out

- All network I/O is left out: `redis::cmd`, `get_connection`, the `Rc<Option<Conn>>` handle inside a node, and the `Conn` wrapper methods of `Node`.
  - Requests become `Conn.Call` values.
  - Only three replies are inputs: the `GETKEYSINSLOT` key batches, the `CLUSTER NODES` text and the `CLUSTER INFO` text.
- Create.Cluster.AddSlots, Cluster.MigrateSlot, Cluster.DeleteNode, Add.Add.AddNode, Add.Add.SetSlave: their traces assume every request succeeds. In the source a failed connection (`get_connection().unwrap()`) panics, except before `GETKEYSINSLOT`, where it ends the drain like an empty batch. A failed `ADDSLOTS`, `MEET`, `REPLICATE`, `FORGET`, `MIGRATE` (for example a `BUSYKEY` error part-way through a drain) or `GETKEYSINSLOT` query panics too, through `unwrap` or `expect`. Only a failed `SETSLOT` query is ignored. Those panics and the requests cut short by them are not modelled.
- ClusterNode.New / ClusterNode.NewAccepts / Add.Add.New: the redis client that `Conn::new` opens for a non-empty ip (`redis::Client::open(..).expect(..)`) is not modelled. Neither is its panic on an address the redis URL parser rejects, such as a non-numeric port or one above 65535. The model accepts every address with exactly one `:`, and `Add.Add.New` does not model the panic on the origin's address.
- `Conn::health` always returns `Ok` in the source, so `Add.Add.New` does not model it.
- Output written with `println!` is left out.
- `Cluster::set_config_epoch` and `Cluster::join_cluster` in `src/create.rs` are not modelled. They are loops of single requests with nothing beyond the request order to state.
- `Cluster::check` in `src/cluster.rs` is not modelled. It asserts on a live `CLUSTER INFO` reply and renames nodes from live replies.
- `src/lib.rs` and `bin/main.rs` are not part of this model. They are the command-line dispatch and polling loops.
- `src/util.rs` is not part of this model. `delete_node` is modelled with `util::divide` taken to be the `divide` of `src/create.rs`.
- `HashMap` iteration order is not modelled:
  - In `init_slots`, the host buckets come in the order the caller gives as `order`.
  - `node_info` and `nodes_info` are Dafny maps, where a later insert overwrites an earlier one, as in the source.
- `usize` overflow is not modelled. Counts are unbounded naturals. In the source they count slots (at most 16384) or nodes, far below the `usize` limit.
- `String::from_utf8_lossy` is not modelled. Addresses are already text.
- Create.Cluster.InitSlots: requires that the replicas drawn have distinct `ip:port` addresses. When two copies of an address are both drawn as replicas, `distribute_slave` skips the second for ever and does not terminate, so the model leaves that case out rather than model a non-terminating loop. Repeated addresses drawn as masters, or as a master and a replica, are admitted.
- SlotAllocator.Spread: requires at least one host or `n > 0`. With no host and `n == 0`, the source's outer `loop` never ends.
- Cluster.Consistency: takes the views already parsed, not the `Conn::nodes` request per node, and does not model the `expect` on a failed request.
- Cluster.MigrateSlot: a `GETKEYSINSLOT` connection failure is treated like an empty reply, as the source does. The replies must contain an empty one, since otherwise the source never stops.
- Add.Add.New and Create.Cluster.New: invalid command-line addresses, where `Node::new(...).unwrap()` or `expect` panics, and an origin without a `:`, are preconditions rather than modelled panics.
- Where the description of the tool and the code disagree, the model follows the code:
  - an `add` argument is `replica,master`, with the master last;
  - `delete_node` pops `divide`'s counts from the end, so the last recipients get the larger counts.
