/** The plan-building half of the tree processor as functions: how a tree
    of groups (suites) and leaves (specs) is turned into the `stats`
    dictionary, one record of exclusion, execution and segments per node.
    `Process` follows `#processNode` step by step, including its early
    return and its thrown error; `Recorded` says declaratively what a
    finished plan holds, and `ProcessRecords` connects the two. */
module Plan {
  import opened Wrappers
  import opened Segments

  type HookId = string

  /** A node of the tree: a group with ordered children and its
      `beforeAll`/`afterAll` hooks, or a leaf. */
  datatype Node =
    | Group(id: NodeId, children: seq<Node>, reentrant: bool, beforeAllFns: seq<HookId>, afterAllFns: seq<HookId>)
    | Leaf(id: NodeId, markedPending: bool)

  /** One entry of `stats`. */
  datatype NodeStats = NodeStats(excluded: bool, willExecute: bool, segments: seq<Segment>)

  /** The `stats` dictionary: its `valid` flag and its per-node records. */
  datatype PlanState = PlanState(valid: bool, stats: map<NodeId, NodeStats>)

  /** What the processor is constructed with besides the tree. */
  datatype Config = Config(runnableIds: seq<NodeId>, orderChildren: Node -> seq<Node>, excludeNode: Node -> bool)

  /** An `orderChildren` callback hands back children of the group it is
      given (an ordering of them, in every caller of the processor). */
  ghost predicate OrdersChildren(orderChildren: Node -> seq<Node>) {
    forall n: Node, c: Node :: n.Group? && c in orderChildren(n) ==> c in n.children
  }

  /** A configuration whose `orderChildren` callback is well behaved. */
  ghost predicate ValidConfig(cfg: Config) {
    OrdersChildren(cfg.orderChildren)
  }

  /** The `orderChildren` the processor uses when given none: a group's
      own children. */
  function StructuralOrder(): Node -> seq<Node> {
    (n: Node) => if n.Group? then n.children else []
  }

  /** The `excludeNode` the processor uses when given none. */
  function NothingExcluded(): Node -> bool {
    (n: Node) => false
  }

  lemma StructuralOrderValid(ids: seq<NodeId>, excludeNode: Node -> bool)
    ensures ValidConfig(Config(ids, StructuralOrder(), excludeNode))
  {
  }

  /** `#runnableIndex`: the first position of `id` in the runnable order. */
  function IndexOf(ids: seq<NodeId>, id: NodeId): (r: Option<nat>)
    ensures r.Some? ==> r.value < |ids| && ids[r.value] == id && forall j :: 0 <= j < r.value ==> ids[j] != id
    ensures r.None? <==> id !in ids
  {
    if ids == [] then None
    else if ids[0] == id then Some(0)
    else match IndexOf(ids[1..], id)
      case None => None
      case Some(k) => Some(k + 1)
  }

  /** The segments of `children`, child after child, as `orderChildSegments`
      collects them. */
  function ChildSegments(children: seq<Node>, stats: map<NodeId, NodeStats>): seq<Segment>
    requires forall c :: c in children ==> c.id in stats
  {
    if children == [] then []
    else ChildSegments(children[..|children| - 1], stats) + stats[Last(children).id].segments
  }

  /** The `parentExcluded` a node is processed with once its own position
      is looked up: a node named in the runnable order is never excluded by
      its ancestors. */
  function Inherited(cfg: Config, node: Node, parentExcluded: bool): bool
  {
    if IndexOf(cfg.runnableIds, node.id).Some? then false else parentExcluded
  }

  /** The record of a leaf. */
  function LeafStats(node: Node, excluded: bool, executableIndex: Option<nat>): NodeStats
    requires node.Leaf?
  {
    NodeStats(excluded, !excluded && !node.markedPending, [FirstSegment(node.id, executableIndex)])
  }

  /** The result of `#processNode`: the new `stats`, and whether the
      invalid-order error was thrown. */
  datatype Outcome = Outcome(st: PlanState, threw: bool)

  /** The state of the loop over a group's ordered children: whether it
      stopped by a thrown error or by the early `return`, and
      `hasExecutableChild`. */
  datatype Walk = Walk(st: PlanState, threw: bool, returned: bool, hasExecutableChild: bool)

  /** The ids a walk of `node` through `orderChildren` can reach. */
  ghost function WalkIds(cfg: Config, node: Node): set<NodeId>
    requires ValidConfig(cfg)
    decreases node, 1
  {
    {node.id} + if node.Group? then ChildWalkIds(cfg, node, 0) else {}
  }

  ghost function ChildWalkIds(cfg: Config, node: Node, i: nat): set<NodeId>
    requires ValidConfig(cfg) && node.Group? && i <= |cfg.orderChildren(node)|
    decreases node, 0, |cfg.orderChildren(node)| - i
  {
    var ordered := cfg.orderChildren(node);
    if i == |ordered| then {}
    else
      assert ordered[i] in ordered;
      WalkIds(cfg, ordered[i]) + ChildWalkIds(cfg, node, i + 1)
  }

  /** `after` differs from `before` only at keys in `touched`, and loses none. */
  ghost predicate Frames(before: map<NodeId, NodeStats>, after: map<NodeId, NodeStats>, touched: set<NodeId>) {
    && before.Keys <= after.Keys
    && after.Keys <= before.Keys + touched
    && forall k :: k in before && k !in touched ==> after[k] == before[k]
  }

  /** `#processNode(node, parentExcluded)` run on `st`. */
  function Process(cfg: Config, node: Node, parentExcluded: bool, st: PlanState): (r: Outcome)
    requires ValidConfig(cfg)
    ensures r.threw ==> r.st == PlanState(false, map[])
    ensures !r.threw ==> r.st.valid == st.valid && Frames(st.stats, r.st.stats, WalkIds(cfg, node))
    ensures !r.threw && st.valid ==> node.id in r.st.stats && |r.st.stats[node.id].segments| >= 1
    decreases node, 1
  {
    var executableIndex := IndexOf(cfg.runnableIds, node.id);
    var pe := Inherited(cfg, node, parentExcluded);
    match node
    case Leaf(id, _) =>
      var excluded := pe || cfg.excludeNode(node);
      Outcome(st.(stats := st.stats[id := LeafStats(node, excluded, executableIndex)]), false)
    case Group(id, _, reentrant, _, _) =>
      var w := ProcessChildren(cfg, node, 0, pe, st, false);
      if w.threw || w.returned then Outcome(w.st, w.threw)
      else GroupEntry(cfg, node, pe, w.st, w.hasExecutableChild)
  }

  /** The segments `segmentChildren` cuts for a group once its entry is
      marked with `pe` and `hasExecutableChild` (lines 124-129). */
  function GroupSegments(cfg: Config, node: Node, pe: bool, stats: map<NodeId, NodeStats>,
                         hasExecutableChild: bool): (r: seq<Segment>)
    requires node.Group? && forall c :: c in cfg.orderChildren(node) ==> c.id in stats
    ensures |r| >= 1
  {
    SegmentsOf(node.id, IndexOf(cfg.runnableIds, node.id),
               OrderSegments(ChildSegments(cfg.orderChildren(node), stats[node.id := NodeStats(pe, hasExecutableChild, [])])))
  }

  /** The rest of `#processNode` for a group whose children were all
      processed: mark the group, cut its segments, and throw if a
      non-reentrant group would be split. */
  function GroupEntry(cfg: Config, node: Node, pe: bool, st: PlanState, hasExecutableChild: bool): (r: Outcome)
    requires node.Group? && forall c :: c in cfg.orderChildren(node) ==> c.id in st.stats
    ensures r.threw <==> |GroupSegments(cfg, node, pe, st.stats, hasExecutableChild)| > 1 && !node.reentrant
    ensures r.threw ==> r.st == PlanState(false, map[])
    ensures !r.threw ==> r.st.valid == st.valid && Frames(st.stats, r.st.stats, {node.id})
    ensures !r.threw ==>
      && node.id in r.st.stats
      && r.st.stats[node.id] == NodeStats(pe, hasExecutableChild, GroupSegments(cfg, node, pe, st.stats, hasExecutableChild))
  {
    var marked := st.stats[node.id := NodeStats(pe, hasExecutableChild, [])];
    var segments := GroupSegments(cfg, node, pe, st.stats, hasExecutableChild);
    if |segments| > 1 && !node.reentrant then Outcome(PlanState(false, map[]), true)
    else Outcome(st.(stats := marked[node.id := NodeStats(pe, hasExecutableChild, segments)]), false)
  }

  /** The loop of `#processNode` over the ordered children, from child `i` on. */
  function ProcessChildren(cfg: Config, node: Node, i: nat, parentExcluded: bool, st: PlanState,
                           hasExecutableChild: bool): (w: Walk)
    requires ValidConfig(cfg) && node.Group? && i <= |cfg.orderChildren(node)|
    ensures w.threw ==> w.st == PlanState(false, map[])
    ensures !w.threw ==> w.st.valid == st.valid && Frames(st.stats, w.st.stats, ChildWalkIds(cfg, node, i))
    ensures !w.threw && st.valid ==> !w.returned
    ensures !w.threw && !w.returned && (forall j :: 0 <= j < i ==> cfg.orderChildren(node)[j].id in st.stats) ==>
      forall c :: c in cfg.orderChildren(node) ==> c.id in w.st.stats
    decreases node, 0, |cfg.orderChildren(node)| - i
  {
    var ordered := cfg.orderChildren(node);
    if i == |ordered| then Walk(st, false, false, hasExecutableChild)
    else
      var child := ordered[i];
      assert child in ordered;
      var r := Process(cfg, child, parentExcluded, st);
      if r.threw then Walk(r.st, true, false, hasExecutableChild)
      else if !r.st.valid then Walk(r.st, false, true, hasExecutableChild)
      else ProcessChildren(cfg, node, i + 1, parentExcluded, r.st,
                           hasExecutableChild || r.st.stats[child.id].willExecute)
  }

  /** One turn of the loop over the ordered children. */
  lemma ProcessChildrenStep(cfg: Config, node: Node, i: nat, parentExcluded: bool, st: PlanState,
                            hasExecutableChild: bool, r: Outcome)
    requires ValidConfig(cfg) && node.Group? && i < |cfg.orderChildren(node)|
    requires cfg.orderChildren(node)[i] in cfg.orderChildren(node)
    requires r == Process(cfg, cfg.orderChildren(node)[i], parentExcluded, st)
    ensures var w := ProcessChildren(cfg, node, i, parentExcluded, st, hasExecutableChild);
      var child := cfg.orderChildren(node)[i];
      && (r.threw ==> w == Walk(r.st, true, false, hasExecutableChild))
      && (!r.threw && !r.st.valid ==> w == Walk(r.st, false, true, hasExecutableChild))
      && (!r.threw && r.st.valid ==>
            && child.id in r.st.stats
            && w == ProcessChildren(cfg, node, i + 1, parentExcluded, r.st,
                                    hasExecutableChild || r.st.stats[child.id].willExecute))
  {
  }

  /** `#processNode` on a group whose children all returned normally. */
  lemma GroupStep(cfg: Config, node: Node, pe: bool, st: PlanState, w: Walk, segments: seq<Segment>)
    requires ValidConfig(cfg) && node.Group?
    requires w == ProcessChildren(cfg, node, 0, Inherited(cfg, node, pe), st, false) && !w.threw && !w.returned
    requires forall c :: c in cfg.orderChildren(node) ==> c.id in w.st.stats
    requires segments == GroupSegments(cfg, node, Inherited(cfg, node, pe), w.st.stats, w.hasExecutableChild)
    ensures Process(cfg, node, pe, st) ==
      if |segments| > 1 && !node.reentrant then Outcome(PlanState(false, map[]), true)
      else Outcome(w.st.(stats := w.st.stats[node.id := NodeStats(Inherited(cfg, node, pe), w.hasExecutableChild, segments)]), false)
  {
    ProcessGroup(cfg, node, pe, st, w);
    GroupEntryValue(cfg, node, Inherited(cfg, node, pe), w.st, w.hasExecutableChild, segments);
  }

  /** A group whose children all returned normally ends with `GroupEntry`. */
  lemma ProcessGroup(cfg: Config, node: Node, pe: bool, st: PlanState, w: Walk)
    requires ValidConfig(cfg) && node.Group?
    requires w == ProcessChildren(cfg, node, 0, Inherited(cfg, node, pe), st, false) && !w.threw && !w.returned
    requires forall c :: c in cfg.orderChildren(node) ==> c.id in w.st.stats
    ensures Process(cfg, node, pe, st) == GroupEntry(cfg, node, Inherited(cfg, node, pe), w.st, w.hasExecutableChild)
  {
  }

  /** `GroupEntry` once the group's segments are known. */
  lemma GroupEntryValue(cfg: Config, node: Node, pe: bool, st: PlanState, hasExec: bool, segments: seq<Segment>)
    requires node.Group? && forall c :: c in cfg.orderChildren(node) ==> c.id in st.stats
    requires segments == GroupSegments(cfg, node, pe, st.stats, hasExec)
    ensures GroupEntry(cfg, node, pe, st, hasExec) ==
      if |segments| > 1 && !node.reentrant then Outcome(PlanState(false, map[]), true)
      else Outcome(st.(stats := st.stats[node.id := NodeStats(pe, hasExec, segments)]), false)
  {
  }

  /** A group whose first child throws throws too. */
  lemma FirstChildThrows(cfg: Config, node: Node, pe: bool, st: PlanState)
    requires ValidConfig(cfg) && node.Group? && |cfg.orderChildren(node)| > 0
    requires Process(cfg, cfg.orderChildren(node)[0], Inherited(cfg, node, pe), st).threw
    ensures Process(cfg, node, pe, st) == Outcome(PlanState(false, map[]), true)
  {
  }
}
