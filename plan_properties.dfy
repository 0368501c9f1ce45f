/** What a plan built by `Process` says about the tree: the records of a
    finished plan (`Recorded`), the plan after an earlier failure, and the
    plan for an empty runnable order. */
module PlanProperties {
  import opened Bounds
  import opened Segments
  import opened Plan

  /** No two nodes that a walk of `node` visits share an id (the ids the
      source's node constructors hand out are unique). */
  ghost predicate DistinctWalk(cfg: Config, node: Node)
    requires ValidConfig(cfg)
    decreases node
  {
    node.Group? ==>
      var ordered := cfg.orderChildren(node);
      && (forall c :: c in ordered ==> DistinctWalk(cfg, c) && node.id !in WalkIds(cfg, c))
      && (forall i, j :: 0 <= i < j < |ordered| ==> WalkIds(cfg, ordered[i]) !! WalkIds(cfg, ordered[j]))
  }

  /** `node`'s entry in `stats` says it will execute. */
  ghost predicate HasExecutable(node: Node, stats: map<NodeId, NodeStats>) {
    node.id in stats && stats[node.id].willExecute
  }

  /** The entry of leaf `node`, processed with `pe`. */
  ghost predicate LeafRecorded(cfg: Config, node: Node, pe: bool, stats: map<NodeId, NodeStats>)
    requires node.Leaf?
  {
    var ix := IndexOf(cfg.runnableIds, node.id);
    var excluded := pe || cfg.excludeNode(node);
    && node.id in stats
    && stats[node.id].excluded == excluded
    && stats[node.id].willExecute == (!excluded && !node.markedPending)
    && stats[node.id].segments == [Segment(0, node.id, [], StartingMin(ix), StartingMax(ix))]
  }

  /** The entry of group `node`, processed with `pe`, given its children's
      entries: not excluded unless inherited, executing when some child
      does, segmented by the boundary rule, and split only if reentrant. */
  ghost predicate GroupRecorded(cfg: Config, node: Node, pe: bool, stats: map<NodeId, NodeStats>)
    requires ValidConfig(cfg) && node.Group?
  {
    var ordered := cfg.orderChildren(node);
    && node.id in stats
    && (forall c :: c in ordered ==> c.id in stats)
    && stats[node.id].excluded == pe
    && stats[node.id].willExecute == (exists c :: c in ordered && HasExecutable(c, stats))
    && stats[node.id].segments ==
         SegmentsOf(node.id, IndexOf(cfg.runnableIds, node.id), OrderSegments(ChildSegments(ordered, stats)))
    && (|stats[node.id].segments| > 1 ==> node.reentrant)
  }

  /** The entry of `node` in a finished plan, and recursively those of the
      nodes below it. */
  ghost predicate Recorded(cfg: Config, node: Node, parentExcluded: bool, stats: map<NodeId, NodeStats>)
    requires ValidConfig(cfg)
    decreases node
  {
    var pe := Inherited(cfg, node, parentExcluded);
    match node
    case Leaf(_, _) => LeafRecorded(cfg, node, pe, stats)
    case Group(_, _, _, _, _) =>
      && (forall c :: c in cfg.orderChildren(node) ==> Recorded(cfg, c, pe, stats))
      && GroupRecorded(cfg, node, pe, stats)
  }

  lemma RecordedHasEntry(cfg: Config, node: Node, pe: bool, stats: map<NodeId, NodeStats>)
    requires ValidConfig(cfg) && Recorded(cfg, node, pe, stats)
    ensures node.id in stats
  {
  }

  lemma {:induction false} ChildWalkIdsCover(cfg: Config, node: Node, i: nat, j: nat)
    requires ValidConfig(cfg) && node.Group? && i <= j < |cfg.orderChildren(node)|
    ensures WalkIds(cfg, cfg.orderChildren(node)[j]) <= ChildWalkIds(cfg, node, i)
    decreases j - i
  {
    if i < j {
      ChildWalkIdsCover(cfg, node, i + 1, j);
    }
  }

  lemma {:induction false} ChildSegmentsFrame(children: seq<Node>, s1: map<NodeId, NodeStats>, s2: map<NodeId, NodeStats>)
    requires forall c :: c in children ==> c.id in s1 && c.id in s2 && s1[c.id] == s2[c.id]
    ensures ChildSegments(children, s1) == ChildSegments(children, s2)
  {
    if children != [] {
      ChildSegmentsFrame(children[..|children| - 1], s1, s2);
    }
  }

  /** A record depends only on the entries of the nodes below it. */
  lemma {:induction false} RecordedFrame(cfg: Config, node: Node, pe: bool, s1: map<NodeId, NodeStats>, s2: map<NodeId, NodeStats>)
    requires ValidConfig(cfg) && Recorded(cfg, node, pe, s1)
    requires forall k :: k in WalkIds(cfg, node) && k in s1 ==> k in s2 && s2[k] == s1[k]
    ensures Recorded(cfg, node, pe, s2)
    decreases node
  {
    var pe' := Inherited(cfg, node, pe);
    if node.Group? {
      var ordered := cfg.orderChildren(node);
      forall c | c in ordered ensures Recorded(cfg, c, pe', s2) && c.id in s1 && c.id in s2 && s1[c.id] == s2[c.id] {
        var j :| 0 <= j < |ordered| && ordered[j] == c;
        ChildWalkIdsCover(cfg, node, 0, j);
        RecordedFrame(cfg, c, pe', s1, s2);
      }
      GroupRecordedFrame(cfg, node, pe', s1, s2);
    }
  }

  lemma GroupRecordedFrame(cfg: Config, node: Node, pe: bool, s1: map<NodeId, NodeStats>, s2: map<NodeId, NodeStats>)
    requires ValidConfig(cfg) && node.Group? && GroupRecorded(cfg, node, pe, s1)
    requires node.id in s2 && s2[node.id] == s1[node.id]
    requires forall c :: c in cfg.orderChildren(node) ==> c.id in s2 && s2[c.id] == s1[c.id]
    ensures GroupRecorded(cfg, node, pe, s2)
  {
    var ordered := cfg.orderChildren(node);
    ChildSegmentsFrame(ordered, s1, s2);
    assert forall c :: c in ordered ==> HasExecutable(c, s1) == HasExecutable(c, s2);
  }

  /** The entry a group writes after its children, on top of the entries
      its children left, is the one `GroupRecorded` describes. */
  lemma GroupRecords(cfg: Config, node: Node, pe: bool, children: map<NodeId, NodeStats>, hasExec: bool,
                     segments: seq<Segment>)
    requires ValidConfig(cfg) && node.Group?
    requires forall c :: c in cfg.orderChildren(node) ==> c.id in children && c.id != node.id
    requires hasExec == exists c :: c in cfg.orderChildren(node) && HasExecutable(c, children)
    requires segments == SegmentsOf(node.id, IndexOf(cfg.runnableIds, node.id),
      OrderSegments(ChildSegments(cfg.orderChildren(node), children[node.id := NodeStats(pe, hasExec, [])])))
    requires |segments| > 1 ==> node.reentrant
    ensures GroupRecorded(cfg, node, pe, children[node.id := NodeStats(pe, hasExec, [])][node.id := NodeStats(pe, hasExec, segments)])
  {
    var ordered := cfg.orderChildren(node);
    var marked := children[node.id := NodeStats(pe, hasExec, [])];
    var final := marked[node.id := NodeStats(pe, hasExec, segments)];
    ChildSegmentsFrame(ordered, marked, final);
    assert forall c :: c in ordered ==> HasExecutable(c, final) == HasExecutable(c, children);
  }

  /** A successful `#processNode` from a valid state leaves behind exactly
      the entries `Recorded` describes, for the node and everything below it. */
  lemma {:induction false} ProcessRecords(cfg: Config, node: Node, pe: bool, st: PlanState)
    requires ValidConfig(cfg) && DistinctWalk(cfg, node) && st.valid
    ensures var r := Process(cfg, node, pe, st); !r.threw ==> Recorded(cfg, node, pe, r.st.stats)
    decreases node, 1
  {
    var ix := IndexOf(cfg.runnableIds, node.id);
    var pe' := Inherited(cfg, node, pe);
    var r := Process(cfg, node, pe, st);
    if node.Group? && !r.threw {
      var ordered := cfg.orderChildren(node);
      assert ordered[..0] == [];
      ProcessChildrenRecords(cfg, node, 0, pe', st, false);
      var w := ProcessChildren(cfg, node, 0, pe', st, false);
      GroupFinishRecords(cfg, node, pe, w);
    }
  }

  /** The group's own entry, written once its children are recorded, makes
      the group recorded too. */
  lemma GroupFinishRecords(cfg: Config, node: Node, pe: bool, w: Walk)
    requires ValidConfig(cfg) && DistinctWalk(cfg, node) && node.Group? && !w.threw
    requires var ordered := cfg.orderChildren(node);
      && (forall j :: 0 <= j < |ordered| ==> Recorded(cfg, ordered[j], Inherited(cfg, node, pe), w.st.stats))
      && w.hasExecutableChild == exists c :: c in ordered && HasExecutable(c, w.st.stats)
    ensures var pe' := Inherited(cfg, node, pe);
      var marked := w.st.stats[node.id := NodeStats(pe', w.hasExecutableChild, [])];
      var segments := SegmentsOf(node.id, IndexOf(cfg.runnableIds, node.id),
                                 OrderSegments(ChildSegments(cfg.orderChildren(node), marked)));
      (|segments| <= 1 || node.reentrant) ==>
      Recorded(cfg, node, pe, marked[node.id := NodeStats(pe', w.hasExecutableChild, segments)])
  {
    var ordered := cfg.orderChildren(node);
    var pe' := Inherited(cfg, node, pe);
    var marked := w.st.stats[node.id := NodeStats(pe', w.hasExecutableChild, [])];
    ChildrenKeepRecords(cfg, node, pe', w.st.stats, marked);
    var segments := SegmentsOf(node.id, IndexOf(cfg.runnableIds, node.id), OrderSegments(ChildSegments(ordered, marked)));
    if |segments| <= 1 || node.reentrant {
      var final := marked[node.id := NodeStats(pe', w.hasExecutableChild, segments)];
      ChildrenKeepRecords(cfg, node, pe', w.st.stats, final);
      GroupRecords(cfg, node, pe', w.st.stats, w.hasExecutableChild, segments);
    }
  }

  /** Rewriting the group's own entry leaves its children recorded. */
  lemma ChildrenKeepRecords(cfg: Config, node: Node, pe: bool, s1: map<NodeId, NodeStats>, s2: map<NodeId, NodeStats>)
    requires ValidConfig(cfg) && DistinctWalk(cfg, node) && node.Group?
    requires forall j :: 0 <= j < |cfg.orderChildren(node)| ==> Recorded(cfg, cfg.orderChildren(node)[j], pe, s1)
    requires forall k :: k in s1 && k != node.id ==> k in s2 && s2[k] == s1[k]
    ensures forall c :: c in cfg.orderChildren(node) ==> Recorded(cfg, c, pe, s2) && c.id in s1 && c.id != node.id
  {
    var ordered := cfg.orderChildren(node);
    forall c | c in ordered ensures Recorded(cfg, c, pe, s2) && c.id in s1 && c.id != node.id {
      var j :| 0 <= j < |ordered| && ordered[j] == c;
      assert node.id !in WalkIds(cfg, c);
      RecordedHasEntry(cfg, c, pe, s1);
      RecordedFrame(cfg, c, pe, s1, s2);
    }
  }

  lemma {:induction false} ProcessChildrenRecords(cfg: Config, node: Node, i: nat, pe: bool, st: PlanState, hasExec: bool)
    requires ValidConfig(cfg) && DistinctWalk(cfg, node) && node.Group? && st.valid
    requires i <= |cfg.orderChildren(node)|
    requires forall j :: 0 <= j < i ==> Recorded(cfg, cfg.orderChildren(node)[j], pe, st.stats)
    requires hasExec == exists c :: c in cfg.orderChildren(node)[..i] && HasExecutable(c, st.stats)
    ensures var w := ProcessChildren(cfg, node, i, pe, st, hasExec);
      !w.threw ==>
        && (forall j :: 0 <= j < |cfg.orderChildren(node)| ==> Recorded(cfg, cfg.orderChildren(node)[j], pe, w.st.stats))
        && w.hasExecutableChild == exists c :: c in cfg.orderChildren(node) && HasExecutable(c, w.st.stats)
    decreases node, 0, |cfg.orderChildren(node)| - i
  {
    var ordered := cfg.orderChildren(node);
    if i < |ordered| {
      var child := ordered[i];
      assert child in ordered;
      var r := Process(cfg, child, pe, st);
      if !r.threw {
        ProcessRecords(cfg, child, pe, st);
        EarlierSiblingsKept(cfg, node, i, pe, st.stats, r.st.stats);
        RecordedHasEntry(cfg, child, pe, r.st.stats);
        var hasExec' := hasExec || r.st.stats[child.id].willExecute;
        HasExecutableStep(ordered, i, st.stats, r.st.stats, hasExec);
        ProcessChildrenRecords(cfg, node, i + 1, pe, r.st, hasExec');
      }
    }
  }

  /** Processing child `i` leaves the records of the children before it
      alone: their walks are disjoint from its. */
  lemma EarlierSiblingsKept(cfg: Config, node: Node, i: nat, pe: bool, s1: map<NodeId, NodeStats>, s2: map<NodeId, NodeStats>)
    requires ValidConfig(cfg) && DistinctWalk(cfg, node) && node.Group? && i < |cfg.orderChildren(node)|
    requires forall j :: 0 <= j < i ==> Recorded(cfg, cfg.orderChildren(node)[j], pe, s1)
    requires Frames(s1, s2, WalkIds(cfg, cfg.orderChildren(node)[i]))
    ensures var ordered := cfg.orderChildren(node);
      forall j | 0 <= j < i ::
        && Recorded(cfg, ordered[j], pe, s2)
        && ordered[j].id in s1 && s2[ordered[j].id] == s1[ordered[j].id]
        && HasExecutable(ordered[j], s1) == HasExecutable(ordered[j], s2)
  {
    var ordered := cfg.orderChildren(node);
    forall j | 0 <= j < i
      ensures Recorded(cfg, ordered[j], pe, s2)
      ensures ordered[j].id in s1 && s2[ordered[j].id] == s1[ordered[j].id]
      ensures HasExecutable(ordered[j], s1) == HasExecutable(ordered[j], s2)
    {
      assert WalkIds(cfg, ordered[j]) !! WalkIds(cfg, ordered[i]);
      RecordedFrame(cfg, ordered[j], pe, s1, s2);
      RecordedHasEntry(cfg, ordered[j], pe, s1);
      assert ordered[j].id in WalkIds(cfg, ordered[j]);
    }
  }

  /** One more child in the running `hasExecutableChild`. */
  lemma HasExecutableStep(ordered: seq<Node>, i: nat, s1: map<NodeId, NodeStats>, s2: map<NodeId, NodeStats>, hasExec: bool)
    requires i < |ordered| && ordered[i].id in s2
    requires forall j :: 0 <= j < i ==> HasExecutable(ordered[j], s1) == HasExecutable(ordered[j], s2)
    requires hasExec == exists c :: c in ordered[..i] && HasExecutable(c, s1)
    ensures (hasExec || s2[ordered[i].id].willExecute) == exists c :: c in ordered[..i + 1] && HasExecutable(c, s2)
  {
    if hasExec {
      var c :| c in ordered[..i] && HasExecutable(c, s1);
      var j :| 0 <= j < i && ordered[j] == c;
      assert ordered[..i + 1][j] == c;
    } else if s2[ordered[i].id].willExecute {
      assert ordered[..i + 1][i] == ordered[i];
      assert ordered[i] in ordered[..i + 1] && HasExecutable(ordered[i], s2);
    } else {
      forall c | c in ordered[..i + 1] ensures !HasExecutable(c, s2) {
        var j :| 0 <= j < i + 1 && ordered[..i + 1][j] == c;
        if j < i {
          assert ordered[..i][j] == c;
        }
      }
    }
  }

  // ---------------------------------------------------------------------
  // Reentrant groups
  // ---------------------------------------------------------------------

  /** Every group a walk of `node` reaches can be re-entered. */
  ghost predicate AllReentrant(cfg: Config, node: Node)
    requires ValidConfig(cfg)
    decreases node
  {
    node.Group? ==> node.reentrant && forall c :: c in cfg.orderChildren(node) ==> AllReentrant(cfg, c)
  }

  /** The invalid-order error is thrown only for a non-reentrant group: when
      every group reached can be re-entered, a split is tolerated (only the
      deprecation warning) and the build never throws, whatever the order. */
  lemma {:induction false} ReentrantNeverThrows(cfg: Config, node: Node, pe: bool, st: PlanState)
    requires ValidConfig(cfg) && AllReentrant(cfg, node)
    ensures !Process(cfg, node, pe, st).threw
    decreases node, 1
  {
    if node.Group? {
      var pe' := Inherited(cfg, node, pe);
      ReentrantChildrenNeverThrow(cfg, node, 0, pe', st, false);
      var w := ProcessChildren(cfg, node, 0, pe', st, false);
      if !w.threw && !w.returned {
        ProcessGroup(cfg, node, pe, st, w);
      }
    }
  }

  lemma {:induction false} ReentrantChildrenNeverThrow(cfg: Config, node: Node, i: nat, pe: bool, st: PlanState, hasExec: bool)
    requires ValidConfig(cfg) && node.Group? && AllReentrant(cfg, node) && i <= |cfg.orderChildren(node)|
    ensures !ProcessChildren(cfg, node, i, pe, st, hasExec).threw
    decreases node, 0, |cfg.orderChildren(node)| - i
  {
    var ordered := cfg.orderChildren(node);
    if i < |ordered| {
      var child := ordered[i];
      assert child in ordered;
      ReentrantNeverThrows(cfg, child, pe, st);
      var r := Process(cfg, child, pe, st);
      if r.st.valid {
        ReentrantChildrenNeverThrow(cfg, node, i + 1, pe, r.st, hasExec || r.st.stats[child.id].willExecute);
      }
    }
  }

  /** So a build from a valid plan over reentrant groups always completes,
      and every node it reaches is recorded, splits included. */
  lemma ReentrantBuildRecords(cfg: Config, node: Node, pe: bool, st: PlanState)
    requires ValidConfig(cfg) && DistinctWalk(cfg, node) && AllReentrant(cfg, node) && st.valid
    ensures var r := Process(cfg, node, pe, st); !r.threw && r.st.valid && Recorded(cfg, node, pe, r.st.stats)
  {
    ReentrantNeverThrows(cfg, node, pe, st);
    ProcessRecords(cfg, node, pe, st);
  }

  // ---------------------------------------------------------------------
  // After a failure
  // ---------------------------------------------------------------------

  /** From `{valid: false}` (left by an earlier thrown error), `#processNode`
      never throws: each group returns as soon as its first child is done,
      so a repeated `processTree` returns and `execute` then meets the
      invalid plan. */
  lemma {:induction false} ProcessFromInvalid(cfg: Config, node: Node, pe: bool, st: PlanState)
    requires ValidConfig(cfg) && !st.valid
    ensures var r := Process(cfg, node, pe, st); !r.threw && !r.st.valid
    decreases node, 1
  {
    if node.Group? {
      var ordered := cfg.orderChildren(node);
      var pe' := Inherited(cfg, node, pe);
      if ordered != [] {
        assert ordered[0] in ordered;
        ProcessFromInvalid(cfg, ordered[0], pe', st);
      } else {
        var w := ProcessChildren(cfg, node, 0, pe', st, false);
        var marked := w.st.stats[node.id := NodeStats(pe', w.hasExecutableChild, [])];
        assert ChildSegments(ordered, marked) == [];
        assert OrderSegments([]) == [];
      }
    }
  }

  // ---------------------------------------------------------------------
  // No explicit order
  // ---------------------------------------------------------------------

  /** Every entry of `stats` has only segments without explicit positions. */
  ghost predicate AllUnbounded(stats: map<NodeId, NodeStats>) {
    forall k :: k in stats ==> Unbounded(stats[k].segments)
  }

  lemma {:induction false} ChildSegmentsUnbounded(children: seq<Node>, stats: map<NodeId, NodeStats>)
    requires forall c :: c in children ==> c.id in stats
    requires AllUnbounded(stats)
    ensures Unbounded(ChildSegments(children, stats))
  {
    if children != [] {
      ChildSegmentsUnbounded(children[..|children| - 1], stats);
      assert Last(children) in children;
    }
  }

  /** With an empty runnable order a group is never split: `#processNode`
      does not throw, and every entry keeps bounds (+∞, −∞). */
  lemma {:induction false} UnorderedProcess(cfg: Config, node: Node, pe: bool, st: PlanState)
    requires ValidConfig(cfg) && cfg.runnableIds == [] && AllUnbounded(st.stats)
    ensures var r := Process(cfg, node, pe, st); !r.threw && AllUnbounded(r.st.stats)
    decreases node, 1
  {
    var pe' := Inherited(cfg, node, pe);
    if node.Group? {
      UnorderedProcessChildren(cfg, node, 0, pe', st, false);
      var w := ProcessChildren(cfg, node, 0, pe', st, false);
      if !w.returned {
        UnorderedGroupEntry(cfg, node, pe', w.st.stats, w.hasExecutableChild);
      }
    }
  }

  lemma UnorderedGroupEntry(cfg: Config, node: Node, pe: bool, stats: map<NodeId, NodeStats>, hasExec: bool)
    requires ValidConfig(cfg) && cfg.runnableIds == [] && AllUnbounded(stats) && node.Group?
    requires forall c :: c in cfg.orderChildren(node) ==> c.id in stats
    ensures var marked := stats[node.id := NodeStats(pe, hasExec, [])];
      var xs := ChildSegments(cfg.orderChildren(node), marked);
      var segments := SegmentsOf(node.id, IndexOf(cfg.runnableIds, node.id), OrderSegments(xs));
      segments == [Segment(0, node.id, xs, PosInf, NegInf)] &&
      AllUnbounded(marked[node.id := NodeStats(pe, hasExec, segments)])
  {
    var marked := stats[node.id := NodeStats(pe, hasExec, [])];
    UnboundedUpdate(stats, node.id, NodeStats(pe, hasExec, []));
    var xs := ChildSegments(cfg.orderChildren(node), marked);
    ChildSegmentsUnbounded(cfg.orderChildren(node), marked);
    OrderSegmentsUnordered(xs);
    SegmentsOfUnordered(node.id, xs);
    var segments := [Segment(0, node.id, xs, PosInf, NegInf)];
    UnboundedUpdate(marked, node.id, NodeStats(pe, hasExec, segments));
  }

  lemma UnboundedUpdate(stats: map<NodeId, NodeStats>, id: NodeId, entry: NodeStats)
    requires AllUnbounded(stats) && Unbounded(entry.segments)
    ensures AllUnbounded(stats[id := entry])
  {
  }

  lemma {:induction false} UnorderedProcessChildren(cfg: Config, node: Node, i: nat, pe: bool, st: PlanState,
                                                    hasExec: bool)
    requires ValidConfig(cfg) && cfg.runnableIds == [] && AllUnbounded(st.stats)
    requires node.Group? && i <= |cfg.orderChildren(node)|
    ensures var w := ProcessChildren(cfg, node, i, pe, st, hasExec);
      !w.threw && AllUnbounded(w.st.stats)
    decreases node, 0, |cfg.orderChildren(node)| - i
  {
    var ordered := cfg.orderChildren(node);
    if i < |ordered| {
      var child := ordered[i];
      assert child in ordered;
      UnorderedProcess(cfg, child, pe, st);
      var r := Process(cfg, child, pe, st);
      if r.st.valid {
        assert st.valid && child.id in r.st.stats;
        UnorderedProcessChildren(cfg, node, i + 1, pe, r.st, hasExec || r.st.stats[child.id].willExecute);
      }
    }
  }

  /** So, with an empty runnable order, a finished group entry is one
      segment holding all its children's segments in the order
      `orderChildren` returns. */
  lemma UnorderedOneSegment(cfg: Config, node: Node, pe: bool, stats: map<NodeId, NodeStats>)
    requires ValidConfig(cfg) && cfg.runnableIds == [] && AllUnbounded(stats)
    requires node.Group? && GroupRecorded(cfg, node, pe, stats)
    ensures stats[node.id].segments ==
      [Segment(0, node.id, ChildSegments(cfg.orderChildren(node), stats), PosInf, NegInf)]
  {
    var xs := ChildSegments(cfg.orderChildren(node), stats);
    ChildSegmentsUnbounded(cfg.orderChildren(node), stats);
    OrderSegmentsUnordered(xs);
    SegmentsOfUnordered(node.id, xs);
  }

  // ---------------------------------------------------------------------
  // Exclusion
  // ---------------------------------------------------------------------

  /** A node named in the runnable order is not excluded by its ancestors:
      a named group is never excluded, a named leaf only by `excludeNode`;
      a node not named inherits its parent's exclusion. */
  lemma ExclusionOfRecorded(cfg: Config, node: Node, parentExcluded: bool, stats: map<NodeId, NodeStats>)
    requires ValidConfig(cfg) && Recorded(cfg, node, parentExcluded, stats)
    ensures node.id in stats
    ensures node.id in cfg.runnableIds ==>
      stats[node.id].excluded == (node.Leaf? && cfg.excludeNode(node))
    ensures node.id !in cfg.runnableIds ==>
      stats[node.id].excluded == (parentExcluded || (node.Leaf? && cfg.excludeNode(node)))
  {
  }
}
