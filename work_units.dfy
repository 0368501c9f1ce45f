/** What `#wrapChildren` hands to the queue runner for one segment of a
    group: the group's `beforeAll` hooks, one unit per child segment of the
    segment, and its `afterAll` hooks, the hooks only when the group will
    execute. */
module WorkUnits {
  import opened Segments
  import opened Plan

  /** A queueable unit: one of a group's hook functions, or the run of one
      child segment (what `#executeNode(owner, index)` returns). */
  datatype WorkUnit = Hook(hook: HookId) | RunSegment(owner: NodeId, segmentNumber: nat)

  function Hooks(fns: seq<HookId>): (r: seq<WorkUnit>)
    ensures |r| == |fns| && forall i :: 0 <= i < |fns| ==> r[i] == Hook(fns[i])
  {
    if fns == [] then [] else Hooks(fns[..|fns| - 1]) + [Hook(Last(fns))]
  }

  /** One unit per member segment, in order. */
  function MemberUnits(members: seq<Segment>): seq<WorkUnit>
  {
    if members == [] then []
    else MemberUnits(members[..|members| - 1]) + [RunSegment(Last(members).owner, Last(members).index)]
  }

  /** The units `#wrapChildren(node, segmentNumber)` returns, given the
      group's entry in `stats`. */
  function Wrapped(node: Node, entry: NodeStats, segmentNumber: nat): seq<WorkUnit>
    requires node.Group? && segmentNumber < |entry.segments|
  {
    var units := MemberUnits(entry.segments[segmentNumber].nodes);
    if entry.willExecute then Hooks(node.beforeAllFns) + units + Hooks(node.afterAllFns) else units
  }

  /** The units that run child segments, in order. */
  function Runs(units: seq<WorkUnit>): seq<WorkUnit>
  {
    if units == [] then []
    else Runs(units[..|units| - 1]) + (if Last(units).RunSegment? then [Last(units)] else [])
  }

  lemma {:induction false} MemberUnitsShape(members: seq<Segment>)
    ensures var r := MemberUnits(members);
      |r| == |members| && forall i :: 0 <= i < |members| ==> r[i] == RunSegment(members[i].owner, members[i].index)
  {
    if members != [] {
      MemberUnitsShape(members[..|members| - 1]);
    }
  }

  lemma {:induction false} MemberUnitsAppend(a: seq<Segment>, b: seq<Segment>)
    ensures MemberUnits(a + b) == MemberUnits(a) + MemberUnits(b)
    decreases |b|
  {
    if b != [] {
      var b' := b[..|b| - 1];
      assert (a + b)[..|a + b| - 1] == a + b';
      MemberUnitsAppend(a, b');
      assert Last(a + b) == Last(b);
    } else {
      assert a + b == a;
    }
  }

  lemma {:induction false} RunsAppend(a: seq<WorkUnit>, b: seq<WorkUnit>)
    ensures Runs(a + b) == Runs(a) + Runs(b)
    decreases |b|
  {
    if b != [] {
      var b' := b[..|b| - 1];
      assert (a + b)[..|a + b| - 1] == a + b';
      RunsAppend(a, b');
      assert Last(a + b) == Last(b);
    } else {
      assert a + b == a;
    }
  }

  lemma {:induction false} RunsOfHooks(fns: seq<HookId>)
    ensures Runs(Hooks(fns)) == []
  {
    if fns != [] {
      RunsOfHooks(fns[..|fns| - 1]);
      assert Hooks(fns)[..|fns| - 1] == Hooks(fns[..|fns| - 1]);
    }
  }

  lemma {:induction false} RunsOfMembers(members: seq<Segment>)
    ensures Runs(MemberUnits(members)) == MemberUnits(members)
  {
    if members != [] {
      RunsOfMembers(members[..|members| - 1]);
      var r := MemberUnits(members);
      assert r[..|r| - 1] == MemberUnits(members[..|members| - 1]);
    }
  }

  /** The hooks of a segment run only when the group will execute, the
      `beforeAll` hooks first and the `afterAll` hooks last; between them,
      and without them otherwise, one unit per member segment, in order. */
  lemma WrappedMeaning(node: Node, entry: NodeStats, segmentNumber: nat)
    requires node.Group? && segmentNumber < |entry.segments|
    ensures var r, members := Wrapped(node, entry, segmentNumber), entry.segments[segmentNumber].nodes;
      && Runs(r) == MemberUnits(members)
      && (forall i :: 0 <= i < |r| && r[i].Hook? ==> entry.willExecute)
      && (entry.willExecute ==>
            && r[..|node.beforeAllFns|] == Hooks(node.beforeAllFns)
            && r[|r| - |node.afterAllFns|..] == Hooks(node.afterAllFns))
  {
    var members := entry.segments[segmentNumber].nodes;
    if entry.willExecute {
      FramedRuns(node.beforeAllFns, members, node.afterAllFns);
      FramedEnds(node.beforeAllFns, MemberUnits(members), node.afterAllFns);
    } else {
      RunsOfMembers(members);
      MembersAreRuns(members);
    }
  }

  lemma MembersAreRuns(members: seq<Segment>)
    ensures forall i :: 0 <= i < |MemberUnits(members)| ==> MemberUnits(members)[i].RunSegment?
  {
    MemberUnitsShape(members);
  }

  lemma FramedRuns(before: seq<HookId>, members: seq<Segment>, after: seq<HookId>)
    ensures Runs(Hooks(before) + MemberUnits(members) + Hooks(after)) == MemberUnits(members)
  {
    var units := MemberUnits(members);
    RunsAppend(Hooks(before), units);
    RunsAppend(Hooks(before) + units, Hooks(after));
    RunsOfHooks(before);
    RunsOfHooks(after);
    RunsOfMembers(members);
  }

  lemma FramedEnds(before: seq<HookId>, units: seq<WorkUnit>, after: seq<HookId>)
    ensures var r := Hooks(before) + units + Hooks(after);
      r[..|before|] == Hooks(before) && r[|r| - |after|..] == Hooks(after)
  {
    var r := Hooks(before) + units + Hooks(after);
    assert r[..|before|] == Hooks(before);
    assert r[|r| - |after|..] == Hooks(after);
  }

  /** The units of all segments of a group, segment after segment. */
  function AllMemberUnits(segs: seq<Segment>): seq<WorkUnit>
  {
    if segs == [] then [] else AllMemberUnits(segs[..|segs| - 1]) + MemberUnits(Last(segs).nodes)
  }

  /** Across all the segments of a group every child segment is run once,
      in the order the segments hold them. */
  lemma {:induction false} AllMemberUnitsFlatten(segs: seq<Segment>)
    ensures AllMemberUnits(segs) == MemberUnits(Flatten(segs))
  {
    if segs != [] {
      AllMemberUnitsFlatten(segs[..|segs| - 1]);
      MemberUnitsAppend(Flatten(segs[..|segs| - 1]), Last(segs).nodes);
    }
  }
}
