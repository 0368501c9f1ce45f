# Tree processor plan builder (jasmine `TreeProcessor`)

jasmine runs a tree of suites (groups, with `beforeAll`/`afterAll` hooks)
and specs (leaves). Before anything runs, `TreeProcessor` builds a plan:
for every node an entry `{excluded, willExecute, segments}` in its `stats`
dictionary. A segment is one contiguous run of a group. A group gets more
than one segment when the runnable order (the spec/suite ids the user asked
to run, in the order asked) puts work of another group between two of its
children. A second segment would run the group's hooks twice. For a
non-reentrant group that is the fatal "invalid order" error. A reentrant
group is allowed it, with a deprecation warning.

This project models the plan-building half of `src/core/TreeProcessor.js`
and proves what the plan says. It has three layers.

- **Functions.** Modules `Bounds`, `Segments` and `Plan` state the
  algorithm as functions.
  - `IndexOf` is `#runnableIndex`.
  - `OrderSegments` is `orderChildSegments`.
  - `Cuts`/`SegmentsOf` is the loop of `segmentChildren`.
  - `Process`/`ProcessChildren`/`GroupEntry` is `#processNode`, including
    its early return after a failure and its thrown error. The error is an `Outcome`
    whose `threw` flag is set and whose state is `{valid: false}`.
- **The class.** Module `Processor` holds `TreeProcessor`, with the fields
  of the source object and the loops of the source's methods. Each method's
  postcondition ties its result and its new state to the functions above:
  - `ProcessNode` to `Process`, with its loop over the children in
    `ProcessChildNodes` (tied to `ProcessChildren`) and the group's own
    entry in `RecordGroup` (tied to `GroupEntry`);
  - `OrderChildSegments` to `OrderSegments`;
  - `SegmentChildren` to `SegmentsOf`;
  - `RunnableIndex` to `IndexOf`;
  - `WrapChildren` to `Wrapped`.
- **Properties.** Module `PlanProperties` proves what a finished plan holds
  (`Recorded`), that a tree whose groups can all be reentered never throws,
  what happens after an earlier failure, and what an empty runnable order
  gives. Module `WorkUnits` gives the composition of
  `#wrapChildren`. Module `Scenarios` proves what the builder computes for
  two small trees.

Model conventions:
- **Positions.** The sentinels `Infinity` and `1 - Infinity` are the
  extended integers `PosInf` and `NegInf` of `Bounds.Ext`. An absent
  runnable index (`undefined`) is `None`.
- **Nodes.** A node is a `Plan.Node` value: `Group(id, children,
  reentrant, beforeAllFns, afterAllFns)` or `Leaf(id, markedPending)`.
  - `reentrant` is the answer of `canBeReentered()`.
  - The hooks are opaque `HookId` tokens.
- **Segments.** A segment is a value `Segment(index, owner, nodes, min,
  max)`. The owner is represented by its id.
- **Callbacks.** The `orderChildren` and `excludeNode` callbacks are
  function-valued fields. When none is given they default, as in the
  source, to a group's own children and to excluding nothing.

## Model

| member | source | states |
|---|---|---|
| Bounds.StartingMin | src/core/TreeProcessor.js:282-284 | the starting minimum is the node's runnable position when it has one, and +∞ exactly when it has none; it is never −∞ |
| Bounds.StartingMax | src/core/TreeProcessor.js:286-288 | the starting maximum is the node's runnable position when it has one, and −∞ exactly when it has none; it is never +∞ |
| Bounds.Min | src/core/TreeProcessor.js:248 | `Math.min` on extended integers: the result is one of the two arguments and below both |
| Bounds.Max | src/core/TreeProcessor.js:249 | `Math.max` on extended integers: the result is one of the two arguments and above both |
| Bounds.Pred | src/core/TreeProcessor.js:227 | `minIndex - 1` on extended integers: one less on a position, the infinities unchanged. It has no contract of its own and is used only inside `IsBoundary`, whose meaning `BoundaryNeedsGap` states |
| Bounds.IsBoundary | src/core/TreeProcessor.js:223-229 | `isSegmentBoundary` on the previous element's `max` and the next `min`. It has no contract of its own; `BoundaryNeedsGap` states what it means |
| Bounds.BoundaryNeedsGap | src/core/TreeProcessor.js:223-229 | `isSegmentBoundary` holds exactly when the previous maximum and the next minimum are both finite and more than one position apart |
| Plan.IndexOf | src/core/TreeProcessor.js:75-81 | the result is the smallest index holding the id, and it is none exactly when the id is absent |
| Plan.StructuralOrder | src/core/TreeProcessor.js:29-33 | the default `orderChildren`: a group's own children. `StructuralOrderValid` proves it returns only children of the group |
| Plan.NothingExcluded | src/core/TreeProcessor.js:34-38 | the default `excludeNode`: excludes no node. It has no contract of its own; the constructor's postcondition installs it when no callback is given |
| Plan.Inherited | src/core/TreeProcessor.js:84-88 | the exclusion a node starts from: false when the node has a runnable position, otherwise its parent's. It has no contract of its own; `ExclusionOfRecorded` states its effect on the plan |
| Plan.LeafStats | src/core/TreeProcessor.js:90-104 | a leaf's entry: excluded as given, executing iff not excluded and not pending, one segment at its position. It has no contract of its own; `ProcessRecords` (through `LeafRecorded`) states it for every leaf |
| Plan.ChildSegments | src/core/TreeProcessor.js:260-273 | the ordered children's segments concatenated, child by child, as the two nested loops visit them. It has no contract of its own; `OrderSegmentsPermutes` and `SegmentsOfPartition` state what becomes of it |
| Plan.StructuralOrderValid | src/core/TreeProcessor.js:29-33 | the default `orderChildren` returns only children of the group |
| Plan.Process | src/core/TreeProcessor.js:83-144 | a throw leaves `{valid: false}`. Otherwise `valid` is kept, only entries of nodes the walk reaches change, and from a valid plan the node gets an entry with at least one segment |
| Plan.ProcessChildren | src/core/TreeProcessor.js:106-122 | the loop over the ordered children: a throw leaves `{valid: false}`, and the early return (lines 115-117) happens only when `valid` was already false. A completed loop leaves an entry for every ordered child |
| Plan.GroupEntry | src/core/TreeProcessor.js:124-142 | the end of `#processNode` for a group: it throws exactly when the group has more than one segment and is not reentrant, and a throw leaves `{valid: false}`. Otherwise `valid` is kept, only the group's own entry changes, and it holds the group's segments (at least one) |
| Plan.GroupSegments | src/core/TreeProcessor.js:124-129 | the segments `segmentChildren` cuts for a group, read from the stats in which the group's own entry was just overwritten; there is at least one |
| Plan.GroupStep | src/core/TreeProcessor.js:106-142 | once the children's loop completes without throwing or returning, the group's outcome is the invalid-order error when it has more than one segment and is not reentrant, and otherwise the new entry with those segments |
| Plan.FirstChildThrows | src/core/TreeProcessor.js:110-113 | an error thrown by a group's first ordered child is passed on by the group, leaving `{valid: false}` |
| Segments.Specified | src/core/TreeProcessor.js:264-272 | the collected segments whose `min` is a position, in collected order. It has no contract of its own; `FiltersSelect` and `SpecifiedUnspecifiedSplit` state its meaning |
| Segments.Unspecified | src/core/TreeProcessor.js:264-272 | the collected segments whose `min` is +∞, in collected order. It has no contract of its own; `FiltersSelect` and `SpecifiedUnspecifiedSplit` state its meaning |
| Segments.OrderSegments | src/core/TreeProcessor.js:256-280 | `orderChildSegments`: the sorted specified segments followed by the unspecified ones. It has no contract of its own; `OrderSegmentsPermutes`, `OrderSegmentsLayout` and `OrderSegmentsUnordered` state its meaning |
| Segments.InsertByMin | src/core/TreeProcessor.js:275-277 | one insertion step of the sort keeps the elements, as a multiset |
| Segments.SortByMin | src/core/TreeProcessor.js:275-277 | the sort by `min` is a permutation of its input |
| Segments.SortByMinSorted | src/core/TreeProcessor.js:275-277 | the sort's result is ordered by ascending `min` |
| Segments.FiltersSelect | src/core/TreeProcessor.js:264-272 | the specified list holds exactly the segments with a finite minimum, and the unspecified list exactly those with minimum +∞ |
| Segments.SpecifiedUnspecifiedSplit | src/core/TreeProcessor.js:264-272 | together the two lists hold every collected segment exactly once |
| Segments.OrderSegmentsPermutes | src/core/TreeProcessor.js:256-280 | `orderChildSegments` returns a permutation of the collected child segments |
| Segments.OrderSegmentsLayout | src/core/TreeProcessor.js:256-280 | the specified segments come first, sorted ascending by `min`. They are followed by exactly the +∞ segments, in their collected order |
| Segments.OrderSegmentsUnordered | src/core/TreeProcessor.js:256-280 | when no segment has a position, the collected order is returned unchanged |
| Segments.FirstSegment | src/core/TreeProcessor.js:212-218 | segment 0 of a node, with no members and the node's starting bounds (also a leaf's only segment, lines 95-103). It has no contract of its own; `SegmentsOfBounds` states its bounds |
| Segments.Extend | src/core/TreeProcessor.js:247-249 | appending one child segment to the current segment and widening its bounds with `Math.min`/`Math.max`. It has no contract of its own; `SegmentsOfBounds` states the result |
| Segments.Step | src/core/TreeProcessor.js:231-250 | one turn of the loop: open a new segment at a boundary, extend the current one, remember the element's `max`. It has no contract of its own; `CutsLast` and `CutsIndices` state what each step keeps |
| Segments.Cuts | src/core/TreeProcessor.js:231-251 | the loop of `segmentChildren` over all child segments. It has no contract of its own; `CutsLast` and `CutsIndices` state its invariants |
| Segments.SegmentsOf | src/core/TreeProcessor.js:211-254 | `segmentChildren`'s `result`. It has no contract of its own; `SegmentsOfPartition`, `SegmentsOfBounds`, `SegmentsOfBoundaries` and `SegmentsOfUnordered` state its meaning |
| Segments.CutsLast | src/core/TreeProcessor.js:231-251 | after each step `lastMax` is the maximum of the previous child segment; the current segment is the last one and is non-empty once a child was seen |
| Segments.CutsIndices | src/core/TreeProcessor.js:237-244 | the group's segments are numbered 0, 1, 2 … and all are owned by the group |
| Segments.SegmentsOfPartition | src/core/TreeProcessor.js:211-254 | there is at least one segment; concatenating the segments' nodes gives back the ordered child segments exactly; indices are 0..n-1 |
| Segments.SegmentsOfBounds | src/core/TreeProcessor.js:212-249 | each segment's `min`/`max` is the min/max of its members' bounds, starting from the group's own position for segment 0 and from (+∞, −∞) for the others |
| Segments.SegmentsOfBoundaries | src/core/TreeProcessor.js:223-247 | between consecutive segments the boundary rule holds at the cut, and inside a segment it holds at no step |
| Segments.SegmentsOfUnordered | src/core/TreeProcessor.js:211-254 | without positions a group gets exactly one segment holding all its child segments in order, with bounds (+∞, −∞) |
| PlanProperties.ProcessRecords | src/core/TreeProcessor.js:83-144 | a build that does not throw leaves `Recorded` entries for the node and every node below it. A leaf is excluded iff inherited or by `excludeNode`, and executes iff not excluded and not pending, with one segment at its position. A group keeps the inherited exclusion, executes iff some ordered child does, holds the segments of the boundary rule, and has more than one only if reentrant |
| PlanProperties.ProcessChildrenRecords | src/core/TreeProcessor.js:110-122 | the loop leaves `Recorded` entries for all ordered children, and `hasExecutableChild` is the OR of their `willExecute` |
| PlanProperties.GroupRecords | src/core/TreeProcessor.js:124-129 | the entry a group writes after its children is the one `GroupRecorded` describes |
| PlanProperties.GroupFinishRecords | src/core/TreeProcessor.js:124-142 | once the ordered children are recorded, writing the group's entry records the group too, unless the build throws |
| PlanProperties.RecordedFrame | src/core/TreeProcessor.js:90-127 | an entry's record depends only on its subtree's entries, so later siblings do not disturb it |
| PlanProperties.ExclusionOfRecorded | src/core/TreeProcessor.js:84-94 | a node named in the runnable order is not excluded by its ancestors (a group never, a leaf only by `excludeNode`); an unnamed node inherits its parent's exclusion |
| PlanProperties.ProcessFromInvalid | src/core/TreeProcessor.js:113-117 | from `{valid: false}` left by an earlier throw, `#processNode` never throws and the plan stays invalid |
| PlanProperties.UnorderedProcess | src/core/TreeProcessor.js:83-144 | with an empty runnable order the build never throws and every entry keeps bounds (+∞, −∞) |
| PlanProperties.UnorderedOneSegment | src/core/TreeProcessor.js:124-129 | so with an empty runnable order each group has exactly one segment holding all its children's segments in the order `orderChildren` returns |
| PlanProperties.ReentrantNeverThrows | src/core/TreeProcessor.js:131-141 | when every group in the tree can be reentered, the build never throws, whatever the runnable order |
| PlanProperties.ReentrantChildrenNeverThrow | src/core/TreeProcessor.js:110-122 | the children's loop of a tree whose groups can all be reentered never throws |
| PlanProperties.ReentrantBuildRecords | src/core/TreeProcessor.js:83-144 | so such a build succeeds from a valid plan: it stays valid and every node gets its `Recorded` entry |
| Scenarios.GapRule | src/core/TreeProcessor.js:223-251 | group [A, B, C] with runnable order [C, A] builds one segment [C, A, B] with bounds (0, 1) |
| Scenarios.FatalSplit | src/core/TreeProcessor.js:131-141 | root [G1 = [A, B], X] with runnable order [A, X, B] throws and leaves `{valid: false}` |
| WorkUnits.MemberUnits | src/core/TreeProcessor.js:150-154 | the loop's `#executeNode` units for a segment's members. It has no contract of its own; `MemberUnitsShape` states its meaning |
| WorkUnits.Wrapped | src/core/TreeProcessor.js:146-161 | `#wrapChildren`: the member units, framed by the hooks when the group will execute. It has no contract of its own; `WrappedMeaning` states its meaning |
| WorkUnits.Hooks | src/core/TreeProcessor.js:160 | one hook unit per hook function, in order |
| WorkUnits.MemberUnitsShape | src/core/TreeProcessor.js:150-154 | one `#executeNode(owner, index)` unit per member of the segment, in order |
| WorkUnits.WrappedMeaning | src/core/TreeProcessor.js:146-161 | the units run exactly the segment's members in order. Hooks appear only when the group will execute, `beforeAll` first and `afterAll` last |
| WorkUnits.AllMemberUnitsFlatten | src/core/TreeProcessor.js:146-154 | over all segments of a group, each child segment is run once, in the segments' order |
| Processor.TreeProcessor.constructor | src/core/TreeProcessor.js:19-41 | absent callbacks default to the group's own children and to excluding nothing; the plan starts `{valid: true}` and unprocessed |
| Processor.TreeProcessor.RunnableIndex | src/core/TreeProcessor.js:75-81 | the loop returns the first index holding the id, or none when the id is absent |
| Processor.TreeProcessor.ProcessNode | src/core/TreeProcessor.js:83-144 | the new `stats` and whether it threw are exactly those of `Plan.Process`, from the old `stats` |
| Processor.TreeProcessor.ProcessChildNodes | src/core/TreeProcessor.js:106-122 | the loop's new `stats`, its thrown error, its early return and `hasExecutableChild` are exactly those of `Plan.ProcessChildren` from the first child |
| Processor.TreeProcessor.RecordGroup | src/core/TreeProcessor.js:124-142 | the group's entry and segments, and the error for a split non-reentrant group, are exactly those of `Plan.GroupEntry` |
| Processor.TreeProcessor.OrderChildSegments | src/core/TreeProcessor.js:256-280 | the two loops and the sort return `OrderSegments` of the children's segments |
| Processor.TreeProcessor.SegmentChildren | src/core/TreeProcessor.js:211-254 | the loop stores `SegmentsOf` the ordered child segments in the group's entry and changes nothing else |
| Processor.TreeProcessor.ProcessTree | src/core/TreeProcessor.js:43-47 | the plan becomes that of processing the root as excluded. Only a build that does not throw marks the processor processed, and the thrown error is reported |
| Processor.TreeProcessor.WrapChildren | src/core/TreeProcessor.js:146-161 | the loop returns `Wrapped`: member units, framed by the hooks when the group will execute |
| Processor.TreeProcessor.Execute | src/core/TreeProcessor.js:49-58 | builds the plan unless already built, and passes on the build's error. Refuses a plan marked invalid (lines 54-56), and otherwise returns the root's first-segment units |

## Left out

- The execution half is not modelled: `#executeNode`'s closures, `runQueue`, the Promise in `execute`, the user contexts, `onException`, `onMultipleDone`, `nodeStart`/`nodeComplete`, `cleanupBeforeAfter`, and the join of a spec's `execute` with `failSpecWithNoExpectations`/`detectLateRejectionHandling`/`globalErrors`. This is asynchronous code calling into objects outside this file. A call `#executeNode(owner, index)` is the token `RunSegment(owner, index)`.
- The deprecation warning for a split reentrant group is not modelled. `j$.getEnv().deprecated` is a call into the environment; the model only continues without throwing.
- A leaf's own segment has `nodes == []`. The source stores the leaf node object there, but nothing reads it.
- Segments are values, and the owner is represented by its id. `segmentChildren` keeps `currentSegment` both as a variable and as the last element of `result`, and mutates it through that alias. The model holds the closed segments and the current one separately and appends the current one at the end, which gives the same list.
- `orderChildren` must return only children of the group it is given (`OrdersChildren`, required through `ValidConfig`; jasmine passes a permutation). That is needed for termination. A callback returning anything else is not modelled.
- Several bookkeeping properties assume that the ids along the walk are distinct (`DistinctWalk`); jasmine's node ids are unique. The plan-level `Recorded` lemmas rest on this assumption.
- A tree node whose id is `"valid"` would collide with the `valid` flag of the source's `stats` object. The model keeps the flag separate.
- `Array.prototype.sort` is modelled as a stable insertion sort (`SortByMin`). Its result is proved sorted and a permutation, and the +∞ segments keep their order. Stability among specified segments with equal minima is not stated as a lemma.
- Segments.SortByMin: the comparator `a.min - b.min` is modelled as the order on extended integers. All specified minima are finite, so the two agree.
- The root's `sharedUserContext`, `handleException` and `onMultipleDone` are left out, together with the queue runner they are passed to. Processor.TreeProcessor.Execute returns the root's units instead of running them. Its `requires tree.Group?` reflects that the root is always a suite.
- `src/core/MockDate.js` and its spec are not part of this model; they do not touch the tree processor.
- `lastMax` is the `max` of the previous child segment (line 250), not a running maximum over the segment; the model does the same (`Segments.CutsLast`).
- Plan.Process: a child whose id equals its group's id is read as having no segments. The source throws a TypeError there: line 124 replaces the group's entry with one that has no `segments`, and line 264 then reads `segments.length` of `undefined`. jasmine's node ids are unique.
