/** The tree processor object: it holds the tree, the runnable order, the
    two callbacks and the `stats` dictionary it builds, and its methods run
    the loops of `#runnableIndex`, `#processNode`, `orderChildSegments`,
    `segmentChildren` and `#wrapChildren`. Each method is proved to leave
    exactly the state the functions of the Plan, Segments and WorkUnits
    modules describe. */
module Processor {
  import opened Wrappers
  import opened Bounds
  import opened Segments
  import opened Plan
  import opened WorkUnits

  /** The two errors the processor throws: the one `#processNode` throws
      when a non-reentrant group would be split, and the one `execute`
      throws for a plan already marked invalid. */
  datatype PlanError = SplitsNonReentrantGroup | InvalidOrder

  class TreeProcessor {
    const tree: Node
    const runnableIds: seq<NodeId>
    const orderChildren: Node -> seq<Node>
    const excludeNode: Node -> bool
    /** `#stats.valid` and the per-node entries of `#stats`. */
    var valid: bool
    var stats: map<NodeId, NodeStats>
    var processed: bool

    function Cfg(): Config {
      Config(runnableIds, orderChildren, excludeNode)
    }

    function State(): PlanState
      reads this
    {
      PlanState(valid, stats)
    }

    /** `orderChildren` hands back children of the group it is given, and a
        processed, valid plan has the root's segments. */
    ghost predicate Valid()
      reads this
    {
      && ValidConfig(Cfg())
      && (processed && valid ==> tree.id in stats && |stats[tree.id].segments| >= 1)
    }

    /** Absent callbacks fall back to the group's own children and to
        excluding nothing; the plan starts as `{valid: true}`. */
    constructor (tree: Node, runnableIds: seq<NodeId>, orderChildren: Option<Node -> seq<Node>>,
                 excludeNode: Option<Node -> bool>)
      requires orderChildren.Some? ==> OrdersChildren(orderChildren.value)
      ensures Valid()
      ensures this.tree == tree && this.runnableIds == runnableIds
      ensures this.orderChildren == if orderChildren.Some? then orderChildren.value else StructuralOrder()
      ensures this.excludeNode == if excludeNode.Some? then excludeNode.value else NothingExcluded()
      ensures valid && stats == map[] && !processed
    {
      this.tree := tree;
      this.runnableIds := runnableIds;
      var order: Node -> seq<Node> := if orderChildren.Some? then orderChildren.value else StructuralOrder();
      var exclude: Node -> bool := if excludeNode.Some? then excludeNode.value else NothingExcluded();
      this.orderChildren := order;
      this.excludeNode := exclude;
      valid := true;
      stats := map[];
      processed := false;
      new;
      if orderChildren.None? {
        StructuralOrderValid(runnableIds, this.excludeNode);
      }
    }

    /** `#runnableIndex`: the first position of `id` in the runnable order,
        or none. */
    method RunnableIndex(id: NodeId) returns (r: Option<nat>)
      ensures r == IndexOf(runnableIds, id)
      ensures r.Some? ==> r.value < |runnableIds| && runnableIds[r.value] == id
      ensures forall j :: 0 <= j < |runnableIds| && runnableIds[j] == id ==> r.Some? && r.value <= j
    {
      var i := 0;
      while i < |runnableIds|
        invariant i <= |runnableIds|
        invariant forall j :: 0 <= j < i ==> runnableIds[j] != id
      {
        if runnableIds[i] == id {
          return Some(i);
        }
        i := i + 1;
      }
      return None;
    }

    /** `#processNode(node, parentExcluded)`: the new `stats`, and whether it
        threw, are those of `Process`. */
    method ProcessNode(node: Node, parentExcluded: bool) returns (threw: bool)
      requires ValidConfig(Cfg())
      modifies this`valid, this`stats
      ensures Outcome(State(), threw) == Process(Cfg(), node, parentExcluded, old(State()))
      decreases node, 1
    {
      var executableIndex := RunnableIndex(node.id);
      var pe := parentExcluded;
      if executableIndex.Some? {
        pe := false;
      }
      assert pe == Inherited(Cfg(), node, parentExcluded);
      match node
      case Leaf(id, markedPending) =>
        var excluded := pe || excludeNode(node);
        stats := stats[id := NodeStats(excluded, !excluded && !markedPending,
                                       [Segment(0, id, [], StartingMin(executableIndex), StartingMax(executableIndex))])];
        return false;
      case Group(_, _, _, _, _) =>
        var returned, hasExecutableChild;
        threw, returned, hasExecutableChild := ProcessChildNodes(node, pe);
        if threw || returned {
          return;
        }
        threw := RecordGroup(node, pe, hasExecutableChild, executableIndex);
    }

    /** The loop of `#processNode` over the ordered children of a group: it
        stops at a thrown error, and returns from `#processNode` as soon as
        a child leaves the plan invalid. */
    method ProcessChildNodes(node: Node, pe: bool) returns (threw: bool, returned: bool, hasExecutableChild: bool)
      requires ValidConfig(Cfg()) && node.Group?
      modifies this`valid, this`stats
      ensures Walk(State(), threw, returned, hasExecutableChild) == ProcessChildren(Cfg(), node, 0, pe, old(State()), false)
      decreases node, 0
    {
      threw, returned, hasExecutableChild := false, false, false;
      var ordered := orderChildren(node);
      ghost var whole := ProcessChildren(Cfg(), node, 0, pe, State(), false);
      var i := 0;
      while i < |ordered|
        invariant i <= |ordered|
        invariant whole == ProcessChildren(Cfg(), node, i, pe, State(), hasExecutableChild)
      {
        var child := ordered[i];
        assert child in ordered;
        ghost var before := State();
        threw := ProcessNode(child, pe);
        ProcessChildrenStep(Cfg(), node, i, pe, before, hasExecutableChild, Outcome(State(), threw));
        if threw {
          return;
        }
        if !valid {
          returned := true;
          return;
        }
        hasExecutableChild := hasExecutableChild || stats[child.id].willExecute;
        i := i + 1;
      }
    }

    /** The end of `#processNode` for a group whose children were all
        processed: its entry, and the error for a split non-reentrant group. */
    method RecordGroup(node: Node, pe: bool, hasExecutableChild: bool, executableIndex: Option<nat>) returns (threw: bool)
      requires node.Group? && executableIndex == IndexOf(runnableIds, node.id)
      requires forall c :: c in orderChildren(node) ==> c.id in stats
      modifies this`valid, this`stats
      ensures Outcome(State(), threw) == GroupEntry(Cfg(), node, pe, old(State()), hasExecutableChild)
    {
      var ordered := orderChildren(node);
      stats := stats[node.id := NodeStats(pe, hasExecutableChild, [])];
      SegmentChildren(node, ordered, executableIndex);
      if |stats[node.id].segments| > 1 {
        if !node.reentrant {
          valid, stats := false, map[];
          return true;
        }
        // a reentrant group is split with only a deprecation warning
      }
      return false;
    }

    /** `orderChildSegments`: the children's segments with an explicit
        position, sorted by position, then the others in their order. */
    method OrderChildSegments(children: seq<Node>) returns (r: seq<Segment>)
      requires forall c :: c in children ==> c.id in stats
      ensures r == OrderSegments(ChildSegments(children, stats))
    {
      var specifiedOrder: seq<Segment> := [];
      var unspecifiedOrder: seq<Segment> := [];
      for i := 0 to |children|
        invariant specifiedOrder == Specified(ChildSegments(children[..i], stats))
        invariant unspecifiedOrder == Unspecified(ChildSegments(children[..i], stats))
      {
        var segments := stats[children[i].id].segments;
        ghost var collected := ChildSegments(children[..i], stats);
        assert collected + segments[..0] == collected;
        for j := 0 to |segments|
          invariant specifiedOrder == Specified(collected + segments[..j])
          invariant unspecifiedOrder == Unspecified(collected + segments[..j])
        {
          var seg := segments[j];
          assert collected + segments[..j + 1] == (collected + segments[..j]) + [seg];
          FiltersSnoc(collected + segments[..j], seg);
          if seg.min == PosInf {
            unspecifiedOrder := unspecifiedOrder + [seg];
          } else {
            specifiedOrder := specifiedOrder + [seg];
          }
        }
        assert children[..i + 1][..i] == children[..i];
        assert segments[..|segments|] == segments;
      }
      assert children[..|children|] == children;
      // `Array.prototype.sort` with the comparator `a.min - b.min`
      r := SortByMin(specifiedOrder) + unspecifiedOrder;
    }

    /** `segmentChildren`: stores in the group's entry the segments the
        boundary rule cuts from the ordered child segments. */
    method SegmentChildren(node: Node, ordered: seq<Node>, executableIndex: Option<nat>)
      requires node.id in stats && forall c :: c in ordered ==> c.id in stats
      modifies this`stats
      ensures stats == old(stats)[node.id := old(stats)[node.id].(segments :=
        SegmentsOf(node.id, executableIndex, OrderSegments(ChildSegments(ordered, old(stats)))))]
    {
      var currentSegment := Segment(0, node.id, [], StartingMin(executableIndex), StartingMax(executableIndex));
      var closed: seq<Segment> := [];
      var lastMax := NegInf;
      var orderedChildSegments := OrderChildSegments(ordered);
      for i := 0 to |orderedChildSegments|
        invariant Cut(closed, currentSegment, lastMax) == Cuts(node.id, executableIndex, orderedChildSegments[..i])
      {
        var childSegment := orderedChildSegments[i];
        var maxIndex, minIndex := childSegment.max, childSegment.min;
        assert orderedChildSegments[..i + 1][..i] == orderedChildSegments[..i];
        if IsBoundary(lastMax, minIndex) {
          closed := closed + [currentSegment];
          currentSegment := Segment(|closed|, node.id, [], PosInf, NegInf);
        }
        currentSegment := currentSegment.(nodes := currentSegment.nodes + [childSegment],
                                          min := Min(currentSegment.min, minIndex),
                                          max := Max(currentSegment.max, maxIndex));
        lastMax := maxIndex;
      }
      assert orderedChildSegments[..|orderedChildSegments|] == orderedChildSegments;
      stats := stats[node.id := stats[node.id].(segments := closed + [currentSegment])];
    }

    /** `processTree`: builds the plan from the root, which is processed as
        excluded; only a build that does not throw marks the processor as
        processed. */
    method ProcessTree() returns (r: Result<PlanState, PlanError>)
      requires Valid()
      modifies this`valid, this`stats, this`processed
      ensures Valid()
      ensures var o := Process(Cfg(), tree, true, old(State()));
        && State() == o.st
        && processed == (old(processed) || !o.threw)
        && r == if o.threw then Failure(SplitsNonReentrantGroup) else Success(o.st)
    {
      var threw := ProcessNode(tree, true);
      if threw {
        return Failure(SplitsNonReentrantGroup);
      }
      processed := true;
      return Success(State());
    }

    /** `#wrapChildren(node, segmentNumber)`: the units for one segment. */
    method WrapChildren(node: Node, segmentNumber: nat) returns (result: seq<WorkUnit>)
      requires node.Group? && node.id in stats && segmentNumber < |stats[node.id].segments|
      ensures result == Wrapped(node, stats[node.id], segmentNumber)
    {
      var segmentChildren := stats[node.id].segments[segmentNumber].nodes;
      result := [];
      for i := 0 to |segmentChildren|
        invariant result == MemberUnits(segmentChildren[..i])
      {
        assert segmentChildren[..i + 1][..i] == segmentChildren[..i];
        result := result + [RunSegment(segmentChildren[i].owner, segmentChildren[i].index)];
      }
      assert segmentChildren[..|segmentChildren|] == segmentChildren;
      if !stats[node.id].willExecute {
        return;
      }
      result := Hooks(node.beforeAllFns) + result + Hooks(node.afterAllFns);
    }

    /** `execute`, up to handing its units to the queue runner: builds the
        plan unless it was built, refuses an invalid plan, and otherwise
        returns the units of the root's first segment. */
    method Execute() returns (r: Result<seq<WorkUnit>, PlanError>)
      requires Valid() && tree.Group?
      modifies this`valid, this`stats, this`processed
      ensures Valid()
      ensures var o := if old(processed) then Outcome(old(State()), false)
                       else Process(Cfg(), tree, true, old(State()));
        && State() == o.st
        && processed == (old(processed) || !o.threw)
        && (o.threw ==> r == Failure(SplitsNonReentrantGroup))
        && (!o.threw && !o.st.valid ==> r == Failure(InvalidOrder))
        && (!o.threw && o.st.valid ==> tree.id in stats && r == Success(Wrapped(tree, stats[tree.id], 0)))
    {
      if !processed {
        var built := ProcessTree();
        if built.Failure? {
          return Failure(built.error);
        }
      }
      if !valid {
        return Failure(InvalidOrder);
      }
      var childFns := WrapChildren(tree, 0);
      return Success(childFns);
    }
  }
}
