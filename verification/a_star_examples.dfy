/** The three scenarios of the A* engine's own unit tests, on integer
    nodes, as facts about the model. */
module AStarExamples {
  import opened Maybes
  import opened Seqs
  import opened AStar
  import opened AStarTheory

  /** `Math.abs`. */
  function Abs(x: int): (r: nat)
    ensures r == x || r == -x
  {
    if x < 0 then -x else x
  }

  /** A goal that holds everywhere, on a graph where 0 leads to 1 and 2. */
  function EverywhereGoal(): GraphTools<int>
  {
    GraphTools(n => true, (a, b) => 0, n => 0, n => [1, 2])
  }

  /** When the start node is a goal, the path is the start node alone. */
  lemma StartIsGoal(fuel: nat)
    requires fuel >= 1
    ensures AStarSearch(0, EverywhereGoal(), fuel).result == Returned([0])
  {
    GoalAtStart(0, EverywhereGoal(), fuel);
  }

  /** The complete graph on 0..3 with no goal. */
  function NoGoal(): GraphTools<int>
  {
    GraphTools(n => false, (a, b) => Abs(a - b), n => 1, n => [0, 1, 2, 3])
  }

  /** With no goal on the complete graph on 0..3, the search returns no
      path after testing each of the four nodes exactly once. */
  lemma EachNodeTestedOnce(fuel: nat)
    requires fuel > 4
    ensures var run := AStarSearch(0, NoGoal(), fuel);
      && run.result == Returned([])
      && |run.goalTests| == 4
      && Distinct(run.goalTests)
      && forall x :: 0 <= x < 4 ==> x in run.goalTests
  {
    var tools := NoGoal();
    var nodes := {0, 1, 2, 3};
    assert ClosedUnderNeighbors(nodes, tools);
    assert |nodes| == 4;
    var run := AStarSearch(0, tools, fuel);
    forall x | 0 <= x < 4 ensures x in run.goalTests {
      assert IsWalk([0, x], tools) by {
        assert tools.findNeighbors(0)[x] == x;
      }
      NoGoalTestsEveryReachableNodeOnce(0, tools, fuel, nodes, [0, x]);
    }
    NoGoalTestsEveryReachableNodeOnce(0, tools, fuel, nodes, [0]);
    DistinctCardinality(run.goalTests);
    SubsetCardinality(nodes, set y | y in run.goalTests);
  }

  /** The line of integers where `n` leads to `n - 1` and `n + 2`, edges
      cost the difference of their ends, and the estimate is the distance
      to the goal 2. */
  function Line(): GraphTools<int>
  {
    GraphTools(n => n == 2, (a, b) => Abs(b - a), n => Abs(2 - n), n => [n - 1, n + 2])
  }

  // The records of the search from 1, pass by pass. Each is named after
  // its node; a trailing `c` marks it closed.
  function M1(): NodeMeta<int> { NodeMeta(1, false, 0, 1, Nothing) }
  function M0(): NodeMeta<int> { NodeMeta(0, false, 1, 3, Just(M1().(closed := true))) }
  function M3(): NodeMeta<int> { NodeMeta(3, false, 2, 3, Just(M1().(closed := true))) }
  function MMinus1(): NodeMeta<int> { NodeMeta(-1, false, 2, 5, Just(M0().(closed := true))) }
  function M2From0(): NodeMeta<int> { NodeMeta(2, false, 3, 3, Just(M0().(closed := true))) }
  function M2From3(): NodeMeta<int> { NodeMeta(2, false, 3, 3, Just(M3().(closed := true))) }
  function M5(): NodeMeta<int> { NodeMeta(5, false, 4, 7, Just(M3().(closed := true))) }

  function Pass1(): NodesSet<int> { [M1().(closed := true), M0(), M3()] }
  function Pass2(): NodesSet<int>
  {
    [M1().(closed := true), M0().(closed := true), M3(), MMinus1(), M2From0()]
  }
  function Pass3(): NodesSet<int>
  {
    [M1().(closed := true), M0().(closed := true), M3().(closed := true), MMinus1(), M2From3(), M5()]
  }
  function Pass4(): NodesSet<int>
  {
    [M1().(closed := true), M0().(closed := true), M3().(closed := true), MMinus1(),
     M2From3().(closed := true), M5()]
  }

  /** Setting two records is setting one, then the other. */
  lemma SetTwo(t: NodesSet<int>, a: NodeMeta<int>, b: NodeMeta<int>)
    ensures SetAll(t, [a, b]) == Set(Set(t, a), b)
  {
    assert [a, b][1..] == [b];
    assert [b][1..] == [];
    assert SetAll(t, [a, b]) == SetAll(Set(t, a), [b]);
    assert SetAll(Set(t, a), [b]) == SetAll(Set(Set(t, a), b), []);
  }

  /** Expanding a node with two neighbours, neither of them closed, sets
      their two fresh records in neighbour order. */
  lemma AddTwo(t: NodesSet<int>, c: NodeMeta<int>, tools: GraphTools<int>, x: NodeMeta<int>, y: NodeMeta<int>)
    requires tools.findNeighbors(c.node) == [x.node, y.node]
    requires ComputeNodeMeta(x.node, c, t, tools) == x && ComputeNodeMeta(y.node, c, t, tools) == y
    requires !x.closed && !y.closed
    ensures AddNeighbors(t, c, tools) == Set(Set(t, x), y)
  {
    var nb := tools.findNeighbors(c.node);
    var metas := seq(|nb|, i requires 0 <= i < |nb| => ComputeNodeMeta(nb[i], c, t, tools));
    assert metas == [x, y];
    KeepOpen(x, y);
    SetTwo(t, x, y);
  }

  /** Setting a record under a key no record has appends it. */
  lemma SetNew(t: NodesSet<int>, m: NodeMeta<int>)
    requires forall j :: 0 <= j < |t| ==> t[j].node != m.node
    ensures Set(t, m) == t + [m]
  {
    IndexOfFirst(t, m.node);
  }

  /** Both records of a pass are open, so the filter keeps them. */
  lemma KeepOpen(a: NodeMeta<int>, b: NodeMeta<int>)
    requires !a.closed && !b.closed
    ensures Filter([a, b], IsNotClosed) == [a, b]
  {
    assert [a, b][1..] == [b];
    assert [b][1..] == [];
  }

  /** The first pass closes 1 and opens 0 and 3, both at f-score 3. */
  lemma FirstPass()
    ensures Iterate([StartMeta(1, Line())], Line()) == Expanded(Pass1(), 1)
  {
    var t := [StartMeta(1, Line())];
    assert t == [M1()];
    FindCheapestUnique(t, 0);
    var c := M1().(closed := true);
    assert t[0 := c] == [c];
    assert !Line().checkIfGoalReached(1);
    assert Iterate(t, Line()) == Expanded(AddNeighbors([c], c, Line()), 1);
    assert Line().findNeighbors(1) == [0, 3];
    IndexOfFirst([c], 0);
    IndexOfFirst([c], 3);
    assert ComputeNodeMeta(0, c, [c], Line()) == M0();
    assert ComputeNodeMeta(3, c, [c], Line()) == M3();
    AddTwo([c], c, Line(), M0(), M3());
    SetNew([c], M0());
    SetNew([c, M0()], M3());
  }

  /** The second pass, after closing 0: the records of its neighbours -1
      and 2, both new. */
  function Closed2(): NodesSet<int> { [M1().(closed := true), M0().(closed := true), M3()] }

  lemma SecondPassRecords()
    ensures ComputeNodeMeta(-1, M0().(closed := true), Closed2(), Line()) == MMinus1()
    ensures ComputeNodeMeta(2, M0().(closed := true), Closed2(), Line()) == M2From0()
  {
    IndexOfFirst(Closed2(), -1);
    IndexOfFirst(Closed2(), 2);
  }

  lemma SecondPassSets()
    ensures Set(Set(Closed2(), MMinus1()), M2From0()) == Pass2()
  {
    SetNew(Closed2(), MMinus1());
    SetNew(Closed2() + [MMinus1()], M2From0());
  }

  /** The second pass closes 0, inserted before 3, and opens -1 and 2. */
  lemma SecondPass()
    ensures Iterate(Pass1(), Line()) == Expanded(Pass2(), 0)
  {
    var t := Pass1();
    FindCheapestUnique(t, 1);
    var c := M0().(closed := true);
    assert t[1 := c] == Closed2();
    assert Line().findNeighbors(0) == [-1, 2];
    SecondPassRecords();
    AddTwo(Closed2(), c, Line(), MMinus1(), M2From0());
    SecondPassSets();
  }

  /** The third pass, after closing 3: the records of its neighbours 2,
      already open, and 5, new. */
  function Closed3(): NodesSet<int>
  {
    [M1().(closed := true), M0().(closed := true), M3().(closed := true), MMinus1(), M2From0()]
  }

  lemma ThirdPassRecords()
    ensures ComputeNodeMeta(2, M3().(closed := true), Closed3(), Line()) == M2From3()
    ensures ComputeNodeMeta(5, M3().(closed := true), Closed3(), Line()) == M5()
  {
    IndexOfFirst(Closed3(), 2);
    IndexOfFirst(Closed3(), 5);
  }

  lemma ThirdPassSets()
    ensures Set(Set(Closed3(), M2From3()), M5()) == Pass3()
  {
    SetInPlace(Closed3(), M2From3());
    var replaced := Closed3()[4 := M2From3()];
    assert Set(Closed3(), M2From3()) == replaced;
    SetNew(replaced, M5());
  }

  /** The third pass closes 3, the earliest record at f-score 3, and
      rediscovers 2 at the same f-score: the open record of 2 is replaced
      by one reached from 3. */
  lemma ThirdPass()
    ensures Iterate(Pass2(), Line()) == Expanded(Pass3(), 3)
  {
    var t := Pass2();
    FindCheapestUnique(t, 2);
    var c := M3().(closed := true);
    assert t[2 := c] == Closed3();
    assert Line().findNeighbors(3) == [2, 5];
    ThirdPassRecords();
    AddTwo(Closed3(), c, Line(), M2From3(), M5());
    ThirdPassSets();
  }

  /** The fourth pass closes 2, the goal, and follows its predecessors. */
  lemma FourthPass()
    ensures Iterate(Pass3(), Line()) == GoalReached([1, 3, 2], Pass4(), 2)
  {
    var t := Pass3();
    FindCheapestUnique(t, 4);
    assert FindPath(M2From3().(closed := true), []) == [1, 3, 2];
  }

  /** A pass that expands a node leaves the rest of the run to the
      remaining fuel. */
  lemma SearchStep<N>(t: NodesSet<N>, tools: GraphTools<N>, goalTests: seq<N>, fuel: nat, next: NodesSet<N>, node: N)
    requires fuel > 0 && Iterate(t, tools) == Expanded(next, node)
    ensures Search(t, tools, goalTests, fuel) == Search(next, tools, goalTests + [node], fuel - 1)
  {
  }

  /** A pass that reaches the goal ends the run with its path. */
  lemma SearchGoal<N>(t: NodesSet<N>, tools: GraphTools<N>, goalTests: seq<N>, fuel: nat,
                      path: seq<N>, closedSet: NodesSet<N>, node: N)
    requires fuel > 0 && Iterate(t, tools) == GoalReached(path, closedSet, node)
    ensures Search(t, tools, goalTests, fuel) == Run(Returned(path), closedSet, goalTests + [node])
  {
  }

  /** Two passes that expand a node each. */
  lemma TwoExpansions<N>(t0: NodesSet<N>, t1: NodesSet<N>, t2: NodesSet<N>, tools: GraphTools<N>,
                         goalTests: seq<N>, n0: N, n1: N, fuel: nat)
    requires fuel >= 2
    requires Iterate(t0, tools) == Expanded(t1, n0)
    requires Iterate(t1, tools) == Expanded(t2, n1)
    ensures Search(t0, tools, goalTests, fuel) == Search(t2, tools, goalTests + [n0, n1], fuel - 2)
  {
    SearchStep(t0, tools, goalTests, fuel, t1, n0);
    SearchStep(t1, tools, goalTests + [n0], fuel - 1, t2, n1);
    assert goalTests + [n0] + [n1] == goalTests + [n0, n1];
  }

  /** A pass that expands a node, then one that reaches the goal. */
  lemma ExpansionThenGoal<N>(t0: NodesSet<N>, t1: NodesSet<N>, t2: NodesSet<N>, tools: GraphTools<N>,
                             goalTests: seq<N>, n0: N, n1: N, path: seq<N>, fuel: nat)
    requires fuel >= 2
    requires Iterate(t0, tools) == Expanded(t1, n0)
    requires Iterate(t1, tools) == GoalReached(path, t2, n1)
    ensures Search(t0, tools, goalTests, fuel) == Run(Returned(path), t2, goalTests + [n0, n1])
  {
    SearchStep(t0, tools, goalTests, fuel, t1, n0);
    SearchGoal(t1, tools, goalTests + [n0], fuel - 1, path, t2, n1);
    assert goalTests + [n0] + [n1] == goalTests + [n0, n1];
  }

  /** Three passes that expand a node and a fourth that reaches the goal
      make a run that tests the four nodes in turn and returns the fourth
      pass's path. */
  lemma FourPasses<N>(t0: NodesSet<N>, t1: NodesSet<N>, t2: NodesSet<N>, t3: NodesSet<N>, t4: NodesSet<N>,
                      tools: GraphTools<N>, n0: N, n1: N, n2: N, n3: N, path: seq<N>, fuel: nat)
    requires fuel >= 4
    requires Iterate(t0, tools) == Expanded(t1, n0)
    requires Iterate(t1, tools) == Expanded(t2, n1)
    requires Iterate(t2, tools) == Expanded(t3, n2)
    requires Iterate(t3, tools) == GoalReached(path, t4, n3)
    ensures Search(t0, tools, [], fuel) == Run(Returned(path), t4, [n0, n1, n2, n3])
  {
    TwoExpansions(t0, t1, t2, tools, [], n0, n1, fuel);
    assert [] + [n0, n1] == [n0, n1];
    ExpansionThenGoal(t2, t3, t4, tools, [n0, n1], n2, n3, path, fuel - 2);
    assert [n0, n1] + [n2, n3] == [n0, n1, n2, n3];
  }

  /** From 1 towards 2, the search tests 1, 0, 3 and 2 in that order and
      returns the path through 3: the record of 2 reached from 0 was
      overwritten when 2 was reached again from 3 at the same f-score. */
  lemma OptimisticPath(fuel: nat)
    requires fuel >= 4
    ensures var run := AStarSearch(1, Line(), fuel);
      && run.result == Returned([1, 3, 2])
      && run.goalTests == [1, 0, 3, 2]
  {
    FirstPass();
    SecondPass();
    ThirdPass();
    FourthPass();
    FourPasses([StartMeta(1, Line())], Pass1(), Pass2(), Pass3(), Pass4(), Line(), 1, 0, 3, 2, [1, 3, 2], fuel);
  }
}
