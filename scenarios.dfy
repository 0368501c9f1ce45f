/** What the plan builder computes for two small trees: the gap rule and
    the fatal split of a non-reentrant group. */
module Scenarios {
  import opened Wrappers
  import opened Bounds
  import opened Segments
  import opened Plan

  /** The leaf segment of a leaf at position `k`, and of an unnamed leaf. */
  function At(id: NodeId, k: nat): Segment { Segment(0, id, [], Fin(k), Fin(k)) }
  function Unnamed(id: NodeId): Segment { Segment(0, id, [], PosInf, NegInf) }

  // ---------------------------------------------------------------------
  // Gap rule: G = [A, B, C], runnable order [C, A]
  // ---------------------------------------------------------------------

  function GapConfig(): Config { Config(["C", "A"], StructuralOrder(), NothingExcluded()) }
  function GapGroup(): Node { Group("G", [Leaf("A", false), Leaf("B", false), Leaf("C", false)], false, [], []) }

  lemma GapWalk()
    ensures ValidConfig(GapConfig())
    ensures ProcessChildren(GapConfig(), GapGroup(), 0, false, PlanState(true, map[]), false) ==
      Walk(PlanState(true, map["A" := NodeStats(false, true, [At("A", 1)]),
                               "B" := NodeStats(false, true, [Unnamed("B")]),
                               "C" := NodeStats(false, true, [At("C", 0)])]), false, false, true)
  {
    var cfg, g := GapConfig(), GapGroup();
    StructuralOrderValid(cfg.runnableIds, cfg.excludeNode);
    var st0 := PlanState(true, map[]);
    var st1 := PlanState(true, map["A" := NodeStats(false, true, [At("A", 1)])]);
    var st2 := PlanState(true, st1.stats["B" := NodeStats(false, true, [Unnamed("B")])]);
    var st3 := PlanState(true, st2.stats["C" := NodeStats(false, true, [At("C", 0)])]);
    assert IndexOf(cfg.runnableIds, "A") == Some(1);
    assert IndexOf(cfg.runnableIds, "B") == None;
    assert IndexOf(cfg.runnableIds, "C") == Some(0);
    assert Process(cfg, Leaf("A", false), false, st0) == Outcome(st1, false);
    assert Process(cfg, Leaf("B", false), false, st1) == Outcome(st2, false);
    assert Process(cfg, Leaf("C", false), false, st2) == Outcome(st3, false);
    assert ProcessChildren(cfg, g, 3, false, st3, true) == Walk(st3, false, false, true);
    assert ProcessChildren(cfg, g, 2, false, st2, true) == Walk(st3, false, false, true);
    assert ProcessChildren(cfg, g, 1, false, st1, true) == Walk(st3, false, false, true);
  }

  lemma GapFilters()
    ensures Specified([At("A", 1), Unnamed("B"), At("C", 0)]) == [At("A", 1), At("C", 0)]
    ensures Unspecified([At("A", 1), Unnamed("B"), At("C", 0)]) == [Unnamed("B")]
  {
    var sa, sb, sc := At("A", 1), Unnamed("B"), At("C", 0);
    assert [sa][..0] == [] && Last([sa]) == sa;
    assert Specified([sa]) == [sa] && Unspecified([sa]) == [];
    assert [sa, sb][..1] == [sa] && Last([sa, sb]) == sb;
    assert Specified([sa, sb]) == [sa] && Unspecified([sa, sb]) == [sb];
    assert [sa, sb, sc][..2] == [sa, sb] && Last([sa, sb, sc]) == sc;
  }

  lemma GapSort()
    ensures SortByMin([At("A", 1), At("C", 0)]) == [At("C", 0), At("A", 1)]
  {
    var sa, sc := At("A", 1), At("C", 0);
    assert [sa, sc][1..] == [sc];
    assert SortByMin([sc]) == [sc];
  }

  lemma GapCuts1()
    ensures Cuts("G", None, [At("C", 0)]) == Cut([], Segment(0, "G", [At("C", 0)], Fin(0), Fin(0)), Fin(0))
  {
  }

  lemma GapCuts2()
    ensures Cuts("G", None, [At("C", 0), At("A", 1)]) ==
      Cut([], Segment(0, "G", [At("C", 0), At("A", 1)], Fin(0), Fin(1)), Fin(1))
  {
    GapCuts1();
    assert [At("C", 0), At("A", 1)][..1] == [At("C", 0)];
  }

  lemma GapCuts3()
    ensures Cuts("G", None, [At("C", 0), At("A", 1), Unnamed("B")]) ==
      Cut([], Segment(0, "G", [At("C", 0), At("A", 1), Unnamed("B")], Fin(0), Fin(1)), NegInf)
  {
    GapCuts2();
    assert [At("C", 0), At("A", 1), Unnamed("B")][..2] == [At("C", 0), At("A", 1)];
  }

  lemma GapOrder()
    ensures OrderSegments([At("A", 1), Unnamed("B"), At("C", 0)]) == [At("C", 0), At("A", 1), Unnamed("B")]
  {
    GapFilters();
    GapSort();
  }

  lemma GapChildSegments(marked: map<NodeId, NodeStats>)
    requires marked == map["A" := NodeStats(false, true, [At("A", 1)]), "B" := NodeStats(false, true, [Unnamed("B")]),
                           "C" := NodeStats(false, true, [At("C", 0)]), "G" := NodeStats(false, true, [])]
    ensures ChildSegments(GapGroup().children, marked) == [At("A", 1), Unnamed("B"), At("C", 0)]
  {
    var a, b, c := Leaf("A", false), Leaf("B", false), Leaf("C", false);
    assert GapGroup().children == [a, b, c];
    assert [a][..0] == [] && Last([a]) == a;
    assert ChildSegments([a], marked) == [At("A", 1)];
    assert [a, b][..1] == [a] && Last([a, b]) == b;
    assert ChildSegments([a, b], marked) == [At("A", 1), Unnamed("B")];
    assert [a, b, c][..2] == [a, b] && Last([a, b, c]) == c;
  }

  /** Group G holds leaves A, B, C, and the runnable order is [C, A]: C and
      A are next to each other in that order, and B, which is not named,
      runs after them, so G keeps one segment [C, A, B]. */
  lemma GapRule()
    ensures ValidConfig(GapConfig())
    ensures var r := Process(GapConfig(), GapGroup(), false, PlanState(true, map[]));
      !r.threw && "G" in r.st.stats &&
      r.st.stats["G"].segments == [Segment(0, "G", [At("C", 0), At("A", 1), Unnamed("B")], Fin(0), Fin(1))]
  {
    GapWalk();
    var w := ProcessChildren(GapConfig(), GapGroup(), 0, false, PlanState(true, map[]), false);
    GapRuleFrom(GapConfig(), GapGroup(), w);
  }

  lemma GapRuleFrom(cfg: Config, g: Node, w: Walk)
    requires cfg == GapConfig() && g == GapGroup() && ValidConfig(cfg)
    requires w == ProcessChildren(cfg, g, 0, false, PlanState(true, map[]), false)
    requires w == Walk(PlanState(true, map["A" := NodeStats(false, true, [At("A", 1)]),
                                           "B" := NodeStats(false, true, [Unnamed("B")]),
                                           "C" := NodeStats(false, true, [At("C", 0)])]), false, false, true)
    ensures var r := Process(cfg, g, false, PlanState(true, map[]));
      !r.threw && "G" in r.st.stats &&
      r.st.stats["G"].segments == [Segment(0, "G", [At("C", 0), At("A", 1), Unnamed("B")], Fin(0), Fin(1))]
  {
    var segs := [Segment(0, "G", [At("C", 0), At("A", 1), Unnamed("B")], Fin(0), Fin(1))];
    GapInherited(cfg, g);
    GapGroupSegments(cfg, g, w.st.stats["G" := NodeStats(false, true, [])]);
    GroupStep(cfg, g, false, PlanState(true, map[]), w, segs);
  }

  lemma GapInherited(cfg: Config, g: Node)
    requires cfg == GapConfig() && g == GapGroup()
    ensures IndexOf(cfg.runnableIds, g.id) == None && Inherited(cfg, g, false) == false
  {
  }

  lemma GapGroupSegments(cfg: Config, g: Node, marked: map<NodeId, NodeStats>)
    requires cfg == GapConfig() && g == GapGroup()
    requires marked == map["A" := NodeStats(false, true, [At("A", 1)]), "B" := NodeStats(false, true, [Unnamed("B")]),
                           "C" := NodeStats(false, true, [At("C", 0)]), "G" := NodeStats(false, true, [])]
    ensures forall c :: c in cfg.orderChildren(g) ==> c.id in marked
    ensures SegmentsOf(g.id, IndexOf(cfg.runnableIds, g.id), OrderSegments(ChildSegments(cfg.orderChildren(g), marked))) ==
      [Segment(0, "G", [At("C", 0), At("A", 1), Unnamed("B")], Fin(0), Fin(1))]
  {
    GapInherited(cfg, g);
    assert cfg.orderChildren(g) == g.children;
    GapChildSegments(marked);
    var xs := ChildSegments(cfg.orderChildren(g), marked);
    assert xs == [At("A", 1), Unnamed("B"), At("C", 0)];
    GapOrder();
    var ys := OrderSegments(xs);
    assert ys == [At("C", 0), At("A", 1), Unnamed("B")];
    GapSegmentsOf();
    assert g.id == "G";
  }

  lemma GapSegmentsOf()
    ensures SegmentsOf("G", None, [At("C", 0), At("A", 1), Unnamed("B")]) ==
      [Segment(0, "G", [At("C", 0), At("A", 1), Unnamed("B")], Fin(0), Fin(1))]
  {
    GapCuts3();
  }

  // ---------------------------------------------------------------------
  // Fatal split: R = [G1 = [A, B], X], runnable order [A, X, B]
  // ---------------------------------------------------------------------

  function SplitConfig(): Config { Config(["A", "X", "B"], StructuralOrder(), NothingExcluded()) }
  function SplitGroup(): Node { Group("G1", [Leaf("A", false), Leaf("B", false)], false, [], []) }
  function SplitRoot(): Node { Group("R", [SplitGroup(), Leaf("X", false)], false, [], []) }

  lemma SplitWalk()
    ensures ValidConfig(SplitConfig())
    ensures ProcessChildren(SplitConfig(), SplitGroup(), 0, true, PlanState(true, map[]), false) ==
      Walk(PlanState(true, map["A" := NodeStats(false, true, [At("A", 0)]),
                               "B" := NodeStats(false, true, [At("B", 2)])]), false, false, true)
  {
    var cfg, g := SplitConfig(), SplitGroup();
    StructuralOrderValid(cfg.runnableIds, cfg.excludeNode);
    var st0 := PlanState(true, map[]);
    var st1 := PlanState(true, map["A" := NodeStats(false, true, [At("A", 0)])]);
    var st2 := PlanState(true, st1.stats["B" := NodeStats(false, true, [At("B", 2)])]);
    assert IndexOf(cfg.runnableIds, "A") == Some(0);
    assert IndexOf(cfg.runnableIds, "B") == Some(2);
    assert Process(cfg, Leaf("A", false), true, st0) == Outcome(st1, false);
    assert Process(cfg, Leaf("B", false), true, st1) == Outcome(st2, false);
    assert ProcessChildren(cfg, g, 2, true, st2, true) == Walk(st2, false, false, true);
    assert ProcessChildren(cfg, g, 1, true, st1, true) == Walk(st2, false, false, true);
  }

  lemma SplitFilters()
    ensures Specified([At("A", 0), At("B", 2)]) == [At("A", 0), At("B", 2)]
    ensures Unspecified([At("A", 0), At("B", 2)]) == []
  {
    var sa, sb := At("A", 0), At("B", 2);
    assert [sa][..0] == [] && Last([sa]) == sa;
    assert Specified([sa]) == [sa] && Unspecified([sa]) == [];
    assert [sa, sb][..1] == [sa] && Last([sa, sb]) == sb;
  }

  lemma SplitSort()
    ensures SortByMin([At("A", 0), At("B", 2)]) == [At("A", 0), At("B", 2)]
  {
    var sa, sb := At("A", 0), At("B", 2);
    assert [sa, sb][1..] == [sb];
    assert SortByMin([sb]) == [sb];
  }

  lemma SplitCuts()
    ensures Cuts("G1", None, [At("A", 0), At("B", 2)]) ==
      Cut([Segment(0, "G1", [At("A", 0)], Fin(0), Fin(0))], Segment(1, "G1", [At("B", 2)], Fin(2), Fin(2)), Fin(2))
  {
    assert Cuts("G1", None, [At("A", 0)]) == Cut([], Segment(0, "G1", [At("A", 0)], Fin(0), Fin(0)), Fin(0));
    assert [At("A", 0), At("B", 2)][..1] == [At("A", 0)];
    assert IsBoundary(Fin(0), Fin(2));
  }

  lemma SplitOrder()
    ensures OrderSegments([At("A", 0), At("B", 2)]) == [At("A", 0), At("B", 2)]
  {
    SplitFilters();
    SplitSort();
  }

  lemma SplitChildSegments(marked: map<NodeId, NodeStats>)
    requires marked == map["A" := NodeStats(false, true, [At("A", 0)]), "B" := NodeStats(false, true, [At("B", 2)]),
                           "G1" := NodeStats(true, true, [])]
    ensures ChildSegments(SplitGroup().children, marked) == [At("A", 0), At("B", 2)]
  {
    var a, b := Leaf("A", false), Leaf("B", false);
    assert SplitGroup().children == [a, b];
    assert [a][..0] == [] && Last([a]) == a;
    assert ChildSegments([a], marked) == [At("A", 0)];
    assert [a, b][..1] == [a] && Last([a, b]) == b;
  }

  lemma SplitGroupThrows()
    ensures ValidConfig(SplitConfig())
    ensures Process(SplitConfig(), SplitGroup(), true, PlanState(true, map[])).threw
  {
    SplitWalk();
    SplitOrder();
    SplitCuts();
    var cfg, g1 := SplitConfig(), SplitGroup();
    assert IndexOf(cfg.runnableIds, "G1") == None;
    assert Inherited(cfg, g1, true) == true;
    assert cfg.orderChildren(g1) == g1.children;
    var w := ProcessChildren(cfg, g1, 0, true, PlanState(true, map[]), false);
    var marked := w.st.stats["G1" := NodeStats(true, true, [])];
    SplitChildSegments(marked);
    GroupStep(cfg, g1, true, PlanState(true, map[]), w, SegmentsOf("G1", None, [At("A", 0), At("B", 2)]));
  }

  /** Group G1 (not reentrant) holds leaves A and B and sits beside leaf X
      under the root R; the runnable order [A, X, B] would run X between A
      and B, so building the plan throws the invalid-order error and leaves
      `{valid: false}`. */
  lemma FatalSplit()
    ensures ValidConfig(SplitConfig())
    ensures var r := Process(SplitConfig(), SplitRoot(), true, PlanState(true, map[]));
      r.threw && r.st == PlanState(false, map[])
  {
    SplitGroupThrows();
    var cfg, root := SplitConfig(), SplitRoot();
    assert IndexOf(cfg.runnableIds, "R") == None;
    assert Inherited(cfg, root, true) == true;
    assert cfg.orderChildren(root)[0] == SplitGroup();
    FirstChildThrows(cfg, root, true, PlanState(true, map[]));
  }
}
