/** Segments and the two helpers of the tree processor that work on them:
    `orderChildSegments`, which puts a group's child segments in run order,
    and `segmentChildren`, which cuts that sequence into the group's own
    segments. Both are given here as functions; the class in
    tree_processor.dfy runs the source's loops and is proved equal to them. */
module Segments {
  import opened Wrappers
  import opened Bounds

  type NodeId = string

  /** One contiguous run of a group's work: the child segments it holds, in
      order, and the smallest and largest runnable positions among them. */
  datatype Segment = Segment(index: nat, owner: NodeId, nodes: seq<Segment>, min: Ext, max: Ext)

  function Last<T>(s: seq<T>): T
    requires |s| > 0
  {
    s[|s| - 1]
  }

  /** The child segments of all the segments in `segs`, in order. */
  function Flatten(segs: seq<Segment>): seq<Segment>
  {
    if segs == [] then [] else Flatten(segs[..|segs| - 1]) + Last(segs).nodes
  }

  // ---------------------------------------------------------------------
  // orderChildSegments
  // ---------------------------------------------------------------------

  /** The segments with an explicit position, in their original order. */
  function Specified(s: seq<Segment>): (r: seq<Segment>)
  {
    if s == [] then []
    else Specified(s[..|s| - 1]) + (if Last(s).min != PosInf then [Last(s)] else [])
  }

  /** The segments without an explicit position, in their original order. */
  function Unspecified(s: seq<Segment>): (r: seq<Segment>)
  {
    if s == [] then []
    else Unspecified(s[..|s| - 1]) + (if Last(s).min == PosInf then [Last(s)] else [])
  }

  /** Appending one segment extends exactly one of the two filters. */
  lemma FiltersSnoc(s: seq<Segment>, x: Segment)
    ensures Specified(s + [x]) == Specified(s) + (if x.min != PosInf then [x] else [])
    ensures Unspecified(s + [x]) == Unspecified(s) + (if x.min == PosInf then [x] else [])
  {
    assert (s + [x])[..|s|] == s;
  }

  ghost predicate SortedByMin(s: seq<Segment>) {
    forall i, j :: 0 <= i < j < |s| ==> Le(s[i].min, s[j].min)
  }

  /** Inserts `x` before the first element whose minimum is not smaller. */
  function InsertByMin(x: Segment, s: seq<Segment>): (r: seq<Segment>)
    ensures |r| == |s| + 1
    ensures multiset(r) == multiset(s) + multiset{x}
  {
    if s == [] || Le(x.min, s[0].min) then [x] + s
    else
      assert s == [s[0]] + s[1..];
      [s[0]] + InsertByMin(x, s[1..])
  }

  /** `Array.prototype.sort` with the comparator `a.min - b.min`: a stable
      sort by minimum (insertion sort; an earlier element stays in front of
      a later one with the same minimum). */
  function SortByMin(s: seq<Segment>): (r: seq<Segment>)
    ensures |r| == |s|
    ensures multiset(r) == multiset(s)
  {
    if s == [] then []
    else
      assert s == [s[0]] + s[1..];
      InsertByMin(s[0], SortByMin(s[1..]))
  }

  /** What `orderChildSegments` returns for the collected child segments
      `all`: the explicitly ordered ones sorted by minimum, then the others. */
  function OrderSegments(all: seq<Segment>): seq<Segment>
  {
    SortByMin(Specified(all)) + Unspecified(all)
  }

  lemma {:induction false} InsertByMinSorted(x: Segment, s: seq<Segment>)
    requires SortedByMin(s)
    ensures SortedByMin(InsertByMin(x, s))
  {
    if s != [] && !Le(x.min, s[0].min) {
      var rest := InsertByMin(x, s[1..]);
      InsertByMinSorted(x, s[1..]);
      var r := [s[0]] + rest;
      forall i, j | 0 <= i < j < |r| ensures Le(r[i].min, r[j].min) {
        if i == 0 {
          var y := r[j];
          assert y == rest[j - 1];
          assert y in multiset(rest);
          if y != x {
            assert y in multiset(s[1..]);
            var k :| 0 <= k < |s[1..]| && s[1..][k] == y;
            assert s[k + 1] == y;
          }
        } else {
          assert r[i] == rest[i - 1] && r[j] == rest[j - 1];
        }
      }
    }
  }

  lemma {:induction false} SortByMinSorted(s: seq<Segment>)
    ensures SortedByMin(SortByMin(s))
  {
    if s != [] {
      SortByMinSorted(s[1..]);
      InsertByMinSorted(s[0], SortByMin(s[1..]));
    }
  }

  /** Each filter keeps exactly the segments of its kind. */
  lemma {:induction false} FiltersSelect(s: seq<Segment>)
    ensures forall x :: x in Specified(s) <==> x in s && x.min != PosInf
    ensures forall x :: x in Unspecified(s) <==> x in s && x.min == PosInf
  {
    if s != [] {
      FiltersSelect(s[..|s| - 1]);
      assert s == s[..|s| - 1] + [Last(s)];
    }
  }

  lemma {:induction false} SpecifiedUnspecifiedSplit(s: seq<Segment>)
    ensures multiset(Specified(s)) + multiset(Unspecified(s)) == multiset(s)
  {
    if s != [] {
      SpecifiedUnspecifiedSplit(s[..|s| - 1]);
      assert s == s[..|s| - 1] + [Last(s)];
    }
  }

  lemma {:induction false} SpecifiedAppend(a: seq<Segment>, b: seq<Segment>)
    ensures Specified(a + b) == Specified(a) + Specified(b)
    decreases |b|
  {
    if b == [] {
      assert a + b == a;
    } else {
      var b' := b[..|b| - 1];
      SpecifiedAppend(a, b');
      assert (a + b)[..|a + b| - 1] == a + b';
      assert Last(a + b) == Last(b);
    }
  }

  lemma {:induction false} UnspecifiedAppend(a: seq<Segment>, b: seq<Segment>)
    ensures Unspecified(a + b) == Unspecified(a) + Unspecified(b)
    decreases |b|
  {
    if b == [] {
      assert a + b == a;
    } else {
      var b' := b[..|b| - 1];
      UnspecifiedAppend(a, b');
      assert (a + b)[..|a + b| - 1] == a + b';
      assert Last(a + b) == Last(b);
    }
  }

  /** `orderChildSegments` loses and invents no segment. */
  lemma OrderSegmentsPermutes(all: seq<Segment>)
    ensures multiset(OrderSegments(all)) == multiset(all)
  {
    SpecifiedUnspecifiedSplit(all);
  }

  lemma {:induction false} UnspecifiedUnbounded(s: seq<Segment>)
    ensures forall i :: 0 <= i < |Unspecified(s)| ==> Unspecified(s)[i].min == PosInf
  {
    if s != [] {
      UnspecifiedUnbounded(s[..|s| - 1]);
    }
  }

  lemma SortedSpecifiedBounded(all: seq<Segment>, i: nat)
    requires i < |Specified(all)|
    ensures SortByMin(Specified(all))[i].min != PosInf
  {
    var sorted := SortByMin(Specified(all));
    FiltersSelect(all);
    assert sorted[i] in multiset(Specified(all));
  }

  /** The layout of `orderChildSegments`'s result: first every explicitly
      ordered segment, ascending by minimum, then every other segment in
      its original order. */
  lemma OrderSegmentsLayout(all: seq<Segment>)
    ensures var r, n := OrderSegments(all), |Specified(all)|;
      && n <= |r|
      && SortedByMin(r[..n])
      && (forall i :: 0 <= i < n ==> r[i].min != PosInf)
      && (forall i :: n <= i < |r| ==> r[i].min == PosInf)
      && r[n..] == Unspecified(all)
  {
    var sorted, rest := SortByMin(Specified(all)), Unspecified(all);
    var r, n := OrderSegments(all), |Specified(all)|;
    assert r == sorted + rest && |sorted| == n;
    assert r[..n] == sorted;
    assert r[n..] == rest;
    SortByMinSorted(Specified(all));
    UnspecifiedUnbounded(all);
    forall i | 0 <= i < n ensures r[i].min != PosInf {
      assert r[i] == sorted[i];
      SortedSpecifiedBounded(all, i);
    }
    forall i | n <= i < |r| ensures r[i].min == PosInf {
      assert r[i] == rest[i - n];
    }
  }

  // ---------------------------------------------------------------------
  // segmentChildren
  // ---------------------------------------------------------------------

  /** The loop state of `segmentChildren`: the segments already closed, the
      one still being filled (`currentSegment`, the last element of the
      source's `result`), and the maximum of the previous child segment. */
  datatype Cut = Cut(closed: seq<Segment>, current: Segment, lastMax: Ext)

  /** Pushes `x` into `seg` and widens its bounds. */
  function Extend(seg: Segment, x: Segment): Segment
  {
    seg.(nodes := seg.nodes + [x], min := Min(seg.min, x.min), max := Max(seg.max, x.max))
  }

  /** One iteration of the loop in `segmentChildren`. */
  function Step(owner: NodeId, c: Cut, x: Segment): Cut
  {
    if IsBoundary(c.lastMax, x.min) then
      Cut(c.closed + [c.current], Extend(Segment(|c.closed| + 1, owner, [], PosInf, NegInf), x), x.max)
    else
      Cut(c.closed, Extend(c.current, x), x.max)
  }

  /** The segment a group starts with; it carries the group's own position. */
  function FirstSegment(owner: NodeId, executableIndex: Option<nat>): Segment
  {
    Segment(0, owner, [], StartingMin(executableIndex), StartingMax(executableIndex))
  }

  /** The loop state after the child segments `xs` have been visited. */
  function Cuts(owner: NodeId, executableIndex: Option<nat>, xs: seq<Segment>): Cut
    decreases |xs|
  {
    if xs == [] then Cut([], FirstSegment(owner, executableIndex), NegInf)
    else Step(owner, Cuts(owner, executableIndex, xs[..|xs| - 1]), Last(xs))
  }

  /** The segments `segmentChildren` stores for group `owner`. */
  function SegmentsOf(owner: NodeId, executableIndex: Option<nat>, xs: seq<Segment>): seq<Segment>
  {
    var c := Cuts(owner, executableIndex, xs);
    c.closed + [c.current]
  }

  /** Smallest minimum of `nodes`, starting from `start`. */
  function FoldMin(start: Ext, nodes: seq<Segment>): Ext
  {
    if nodes == [] then start else Min(FoldMin(start, nodes[..|nodes| - 1]), Last(nodes).min)
  }

  /** Largest maximum of `nodes`, starting from `start`. */
  function FoldMax(start: Ext, nodes: seq<Segment>): Ext
  {
    if nodes == [] then start else Max(FoldMax(start, nodes[..|nodes| - 1]), Last(nodes).max)
  }

  lemma FlattenSnoc(segs: seq<Segment>, s: Segment)
    ensures Flatten(segs + [s]) == Flatten(segs) + s.nodes
  {
    assert (segs + [s])[..|segs|] == segs;
  }

  /** What the loop state holds besides the segments: `lastMax` is the
      maximum of the previous child segment (not a running maximum), and
      the current segment ends with that child segment. */
  lemma {:induction false} CutsLast(owner: NodeId, ix: Option<nat>, xs: seq<Segment>)
    ensures var c := Cuts(owner, ix, xs);
      && (xs == [] ==> c.lastMax == NegInf && c.closed == [] && c.current == FirstSegment(owner, ix))
      && (xs != [] ==> c.lastMax == Last(xs).max && c.current.nodes != [] && Last(c.current.nodes) == Last(xs))
  {
    if xs != [] {
      CutsLast(owner, ix, xs[..|xs| - 1]);
    }
  }

  lemma {:induction false} CutsIndices(owner: NodeId, ix: Option<nat>, xs: seq<Segment>)
    ensures var r := SegmentsOf(owner, ix, xs);
      forall k :: 0 <= k < |r| ==> r[k].index == k && r[k].owner == owner
    decreases |xs|
  {
    if xs != [] {
      var xs', x := xs[..|xs| - 1], Last(xs);
      CutsIndices(owner, ix, xs');
      var c := Cuts(owner, ix, xs');
      var r', r := SegmentsOf(owner, ix, xs'), SegmentsOf(owner, ix, xs);
      assert r' == c.closed + [c.current];
      if IsBoundary(c.lastMax, x.min) {
        assert r == r' + [Extend(Segment(|c.closed| + 1, owner, [], PosInf, NegInf), x)];
      } else {
        assert r == c.closed + [Extend(c.current, x)];
        forall k | 0 <= k < |r| ensures r[k].index == k && r[k].owner == owner {
          if k < |c.closed| { assert r[k] == r'[k]; } else { assert r'[k] == c.current; }
        }
      }
    }
  }

  lemma {:induction false} CutsFlatten(owner: NodeId, ix: Option<nat>, xs: seq<Segment>)
    ensures Flatten(SegmentsOf(owner, ix, xs)) == xs
    decreases |xs|
  {
    var c := Cuts(owner, ix, xs);
    if xs == [] {
      FlattenSnoc([], c.current);
    } else {
      var xs', x := xs[..|xs| - 1], Last(xs);
      assert xs == xs' + [x];
      CutsFlatten(owner, ix, xs');
      var c' := Cuts(owner, ix, xs');
      FlattenSnoc(c'.closed, c'.current);
      if IsBoundary(c'.lastMax, x.min) {
        FlattenSnoc(c'.closed + [c'.current], c.current);
      } else {
        FlattenSnoc(c'.closed, c.current);
      }
    }
  }

  /** `segmentChildren` always yields at least one segment; the segments
      are numbered 0, 1, ... in order, all belong to the group, and
      concatenating their members gives back the ordered child segments. */
  lemma SegmentsOfPartition(owner: NodeId, ix: Option<nat>, xs: seq<Segment>)
    ensures var r := SegmentsOf(owner, ix, xs);
      && |r| >= 1
      && (forall k :: 0 <= k < |r| ==> r[k].index == k && r[k].owner == owner)
      && Flatten(r) == xs
  {
    CutsIndices(owner, ix, xs);
    CutsFlatten(owner, ix, xs);
  }

  /** The lower bound segment `k` of a group starts from. */
  function StartMin(k: nat, ix: Option<nat>): Ext {
    if k == 0 then StartingMin(ix) else PosInf
  }

  /** The upper bound segment `k` of a group starts from. */
  function StartMax(k: nat, ix: Option<nat>): Ext {
    if k == 0 then StartingMax(ix) else NegInf
  }

  ghost predicate BoundsAreFolds(r: seq<Segment>, ix: Option<nat>) {
    forall k :: 0 <= k < |r| ==>
      r[k].min == FoldMin(StartMin(k, ix), r[k].nodes) && r[k].max == FoldMax(StartMax(k, ix), r[k].nodes)
  }

  lemma FoldsExtend(start: Ext, stop: Ext, seg: Segment, x: Segment)
    requires seg.min == FoldMin(start, seg.nodes) && seg.max == FoldMax(stop, seg.nodes)
    ensures var e := Extend(seg, x); e.min == FoldMin(start, e.nodes) && e.max == FoldMax(stop, e.nodes)
  {
    var e := Extend(seg, x);
    assert e.nodes[..|seg.nodes|] == seg.nodes;
  }

  /** Each segment's bounds are the smallest minimum and the largest maximum
      of its members; the first segment also counts the group's own
      position. */
  lemma {:induction false} SegmentsOfBounds(owner: NodeId, ix: Option<nat>, xs: seq<Segment>)
    ensures BoundsAreFolds(SegmentsOf(owner, ix, xs), ix)
    decreases |xs|
  {
    if xs != [] {
      var xs', x := xs[..|xs| - 1], Last(xs);
      SegmentsOfBounds(owner, ix, xs');
      var c := Cuts(owner, ix, xs');
      var r', r := SegmentsOf(owner, ix, xs'), SegmentsOf(owner, ix, xs);
      assert r' == c.closed + [c.current];
      var n := |c.closed|;
      assert BoundsAreFolds(r', ix);
      if IsBoundary(c.lastMax, x.min) {
        var nu := Segment(n + 1, owner, [], PosInf, NegInf);
        FoldsExtend(StartMin(n + 1, ix), StartMax(n + 1, ix), nu, x);
        assert r == r' + [Extend(nu, x)];
      } else {
        assert r'[n] == c.current;
        FoldsExtend(StartMin(n, ix), StartMax(n, ix), c.current, x);
        assert r == c.closed + [Extend(c.current, x)];
      }
    }
  }

  /** A split between two neighbouring segments: the last member of the
      first and the first member of the second leave a gap. */
  ghost predicate SplitAt(a: Segment, b: Segment) {
    a.nodes != [] && b.nodes != [] && IsBoundary(Last(a.nodes).max, b.nodes[0].min)
  }

  /** No two neighbouring members of a segment leave a gap. */
  ghost predicate Unbroken(seg: Segment) {
    forall j :: 0 < j < |seg.nodes| ==> !IsBoundary(seg.nodes[j - 1].max, seg.nodes[j].min)
  }

  ghost predicate FollowsBoundaryRule(r: seq<Segment>) {
    && (forall k :: 0 <= k < |r| - 1 ==> SplitAt(r[k], r[k + 1]))
    && (forall k :: 0 <= k < |r| ==> Unbroken(r[k]))
  }

  /** The boundary rule: a new segment starts exactly where two consecutive
      ordered child segments leave a gap of more than one explicit position. */
  lemma {:induction false} SegmentsOfBoundaries(owner: NodeId, ix: Option<nat>, xs: seq<Segment>)
    ensures FollowsBoundaryRule(SegmentsOf(owner, ix, xs))
    decreases |xs|
  {
    if xs != [] {
      var xs', x := xs[..|xs| - 1], Last(xs);
      SegmentsOfBoundaries(owner, ix, xs');
      CutsLast(owner, ix, xs');
      var c := Cuts(owner, ix, xs');
      var r', r := SegmentsOf(owner, ix, xs'), SegmentsOf(owner, ix, xs);
      assert r' == c.closed + [c.current];
      var n := |c.closed|;
      var cur := c.current;
      assert FollowsBoundaryRule(r');
      assert r'[n] == cur;
      if IsBoundary(c.lastMax, x.min) {
        var nu := Extend(Segment(n + 1, owner, [], PosInf, NegInf), x);
        assert nu.nodes == [x];
        assert SplitAt(cur, nu);
        assert r == r' + [nu];
      } else {
        var ext := Extend(cur, x);
        assert forall j :: 0 <= j < |cur.nodes| ==> ext.nodes[j] == cur.nodes[j];
        if cur.nodes != [] {
          assert ext.nodes[|cur.nodes| - 1] == Last(cur.nodes);
        }
        assert Unbroken(ext);
        assert r == c.closed + [ext];
        forall k | 0 <= k < n ensures r[k] == r'[k] {
        }
        if n > 0 {
          assert ext.nodes[0] == cur.nodes[0];
          assert SplitAt(r[n - 1], r[n]);
        }
      }
    }
  }

  /** Without explicit positions a group gets exactly one segment, holding
      every child segment in order, with bounds (+∞, −∞). */
  lemma {:induction false} SegmentsOfUnordered(owner: NodeId, xs: seq<Segment>)
    requires forall i :: 0 <= i < |xs| ==> xs[i].min == PosInf && xs[i].max == NegInf
    ensures SegmentsOf(owner, None, xs) == [Segment(0, owner, xs, PosInf, NegInf)]
    decreases |xs|
  {
    if xs != [] {
      var xs', x := xs[..|xs| - 1], Last(xs);
      SegmentsOfUnordered(owner, xs');
      var c := Cuts(owner, None, xs');
      assert c.closed + [c.current] == [Segment(0, owner, xs', PosInf, NegInf)];
      assert |c.closed| == 0;
      assert (c.closed + [c.current])[0] == c.current;
      assert c.current == Segment(0, owner, xs', PosInf, NegInf);
      assert xs == xs' + [x];
    }
  }

  /** Segments without any explicit position. */
  ghost predicate Unbounded(xs: seq<Segment>) {
    forall i :: 0 <= i < |xs| ==> xs[i].min == PosInf && xs[i].max == NegInf
  }

  lemma {:induction false} FiltersUnbounded(xs: seq<Segment>)
    requires Unbounded(xs)
    ensures Specified(xs) == [] && Unspecified(xs) == xs
    decreases |xs|
  {
    if xs != [] {
      var xs', x := xs[..|xs| - 1], Last(xs);
      assert Unbounded(xs') by {
        forall i | 0 <= i < |xs'| ensures xs'[i].min == PosInf && xs'[i].max == NegInf {
          assert xs'[i] == xs[i];
        }
      }
      FiltersUnbounded(xs');
      assert x.min == PosInf;
      assert Specified(xs) == Specified(xs');
      assert Unspecified(xs) == xs' + [x];
      assert xs == xs' + [x];
    }
  }

  /** Without explicit positions `orderChildSegments` keeps the collected
      order. */
  lemma OrderSegmentsUnordered(xs: seq<Segment>)
    requires Unbounded(xs)
    ensures OrderSegments(xs) == xs
  {
    FiltersUnbounded(xs);
  }
}
