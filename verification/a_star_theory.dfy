/** What the A* engine guarantees, proved from an invariant of its records:
    keys are distinct, every record's predecessor chain is a walk of the
    graph from the start with the scores the engine computes, every
    predecessor is still the record the table holds under its key, and
    every neighbour of a closed node has a record. */
module AStarTheory {
  import opened Maybes
  import opened Seqs
  import opened AStar

  /** The keys of the table, in insertion order. */
  function Keys<N>(t: NodesSet<N>): (r: seq<N>)
    ensures |r| == |t| && forall i {:trigger r[i]} :: 0 <= i < |t| ==> r[i] == t[i].node
  {
    seq(|t|, i requires 0 <= i < |t| => t[i].node)
  }

  /** No node has two records (the keys of a `Map`). */
  predicate DistinctKeys<N(==)>(t: NodesSet<N>)
  {
    Distinct(Keys(t))
  }

  /** The nodes whose records are closed. */
  ghost function ClosedKeys<N>(t: NodesSet<N>): set<N>
  {
    set i | 0 <= i < |t| && t[i].closed :: t[i].node
  }

  /** With distinct keys, a record's position is where its key occurs. */
  lemma IndexOfDistinct<N>(t: NodesSet<N>, j: nat)
    requires DistinctKeys(t) && j < |t|
    ensures IndexOf(t, t[j].node) == Just(j)
    ensures Get(t, t[j].node) == Just(t[j])
  {
    IndexOfAtMost(t, j);
    var k := IndexOf(t, t[j].node).value;
    if k != j {
      KeysDiffer(t, k, j);
    }
  }

  /** The key of the record at `j` is found, at `j` or before. */
  lemma {:induction false} IndexOfAtMost<N>(t: NodesSet<N>, j: nat)
    requires j < |t|
    ensures IndexOf(t, t[j].node).Just?
    ensures IndexOf(t, t[j].node).value <= j
    ensures t[IndexOf(t, t[j].node).value].node == t[j].node
  {
    if t[0].node != t[j].node {
      IndexOfAtMost(t[1..], j - 1);
    }
  }

  /** Two records at different positions of a table with distinct keys
      have different keys. */
  lemma KeysDiffer<N>(t: NodesSet<N>, i: nat, j: nat)
    requires DistinctKeys(t) && i < |t| && j < |t| && i != j
    ensures t[i].node != t[j].node
  {
    assert Keys(t)[i] == t[i].node && Keys(t)[j] == t[j].node;
  }

  /** `Map.set` on a table with distinct keys: the record replaces the one
      under its key, in place, or is appended. */
  lemma SetFacts<N>(t: NodesSet<N>, m: NodeMeta<N>)
    requires DistinctKeys(t)
    ensures var r := Set(t, m);
      && DistinctKeys(r)
      && (forall j :: 0 <= j < |t| ==> r[j] == if t[j].node == m.node then m else t[j])
      && (m.node !in Keys(t) ==> r == t + [m])
      && (m.node in Keys(t) ==> |r| == |t|)
      && m.node in Keys(r)
  {
    var r := Set(t, m);
    SetInPlace(t, m);
    IndexOfFirst(t, m.node);
    if m.node in Keys(t) {
      var k :| 0 <= k < |t| && Keys(t)[k] == m.node;
      IndexOfDistinct(t, k);
      forall j | 0 <= j < |t| ensures r[j] == if t[j].node == m.node then m else t[j] {
        if t[j].node == m.node && j != k { KeysDiffer(t, j, k); }
      }
      assert Keys(r) == Keys(t);
      assert Keys(r)[k] == m.node;
    } else {
      forall j | 0 <= j < |t| ensures t[j].node != m.node {
        assert Keys(t)[j] == t[j].node;
      }
      assert Keys(r) == Keys(t) + [m.node];
      assert Keys(r)[|t|] == m.node;
    }
  }

  /** Records that agree whenever their keys agree. */
  predicate Uniform<N(==)>(metas: seq<NodeMeta<N>>)
  {
    forall a, b :: 0 <= a < |metas| && 0 <= b < |metas| && metas[a].node == metas[b].node ==> metas[a] == metas[b]
  }

  /** Setting a uniform list of records, one after the other. */
  lemma {:induction false} SetAllFacts<N>(t: NodesSet<N>, metas: seq<NodeMeta<N>>)
    requires DistinctKeys(t) && Uniform(metas)
    ensures var r := SetAll(t, metas);
      && DistinctKeys(r)
      && |r| >= |t|
      && (forall j :: 0 <= j < |t| ==> r[j].node == t[j].node)
      && (forall j :: 0 <= j < |t| && (forall a :: 0 <= a < |metas| ==> metas[a].node != t[j].node) ==> r[j] == t[j])
      && (forall j, a :: 0 <= j < |r| && 0 <= a < |metas| && r[j].node == metas[a].node ==> r[j] == metas[a])
      && (forall j :: |t| <= j < |r| ==> r[j] in metas)
      && (forall a :: 0 <= a < |metas| ==> metas[a].node in Keys(r))
    decreases |metas|
  {
    if |metas| > 0 {
      var m := metas[0];
      var t1 := Set(t, m);
      SetFacts(t, m);
      var rest := metas[1..];
      assert Uniform(rest) by {
        forall a, b | 0 <= a < |rest| && 0 <= b < |rest| && rest[a].node == rest[b].node
          ensures rest[a] == rest[b]
        {
          assert rest[a] == metas[a + 1] && rest[b] == metas[b + 1];
        }
      }
      SetAllFacts(t1, rest);
      var r := SetAll(t1, rest);
      assert r == SetAll(t, metas);
      forall j, a | 0 <= j < |r| && 0 <= a < |metas| && r[j].node == metas[a].node
        ensures r[j] == metas[a]
      {
        if a > 0 {
          assert metas[a] == rest[a - 1];
        } else if exists b :: 0 <= b < |rest| && rest[b].node == m.node {
          var b :| 0 <= b < |rest| && rest[b].node == m.node;
          assert rest[b] == metas[b + 1];
        } else {
          assert m.node in Keys(t1);
          var k :| 0 <= k < |t1| && Keys(t1)[k] == m.node;
          assert t1[k] == m;
          assert r[k] == t1[k];
          if j != k { KeysDiffer(r, j, k); }
        }
      }
      forall j | |t| <= j < |r| ensures r[j] in metas {
        if j < |t1| {
          assert t1 == t + [m];
          assert r[j] == t1[j];
        } else {
          assert r[j] in rest;
        }
      }
      forall a | 0 <= a < |metas| ensures metas[a].node in Keys(r) {
        if a > 0 {
          assert metas[a] == rest[a - 1];
        } else {
          var k :| 0 <= k < |t1| && Keys(t1)[k] == m.node;
          assert Keys(r)[k] == m.node;
        }
      }
    }
  }

  /** The records `addNeighbors` sets: for each neighbour without a closed
      record, the fresh record reached from the node just closed. */
  lemma AddedRecords<N>(t: NodesSet<N>, current: NodeMeta<N>, tools: GraphTools<N>)
    requires DistinctKeys(t)
    ensures
      var neighbors := tools.findNeighbors(current.node);
      var metas := seq(|neighbors|, i requires 0 <= i < |neighbors| =>
        ComputeNodeMeta(neighbors[i], current, t, tools));
      var added := Filter(metas, IsNotClosed);
      && Uniform(added)
      && AddNeighbors(t, current, tools) == SetAll(t, added)
      && (forall a :: 0 <= a < |added| ==>
            && added[a] == FreshMeta(added[a].node, current, tools)
            && added[a].node in neighbors
            && added[a].node !in ClosedKeys(t))
      && (forall i :: 0 <= i < |neighbors| && neighbors[i] !in ClosedKeys(t) ==>
            FreshMeta(neighbors[i], current, tools) in added)
  {
    var neighbors := tools.findNeighbors(current.node);
    var metas := seq(|neighbors|, i requires 0 <= i < |neighbors| =>
      ComputeNodeMeta(neighbors[i], current, t, tools));
    var added := Filter(metas, IsNotClosed);
    FilterFacts(metas, IsNotClosed);
    forall i | 0 <= i < |neighbors|
      ensures neighbors[i] in ClosedKeys(t) ==> metas[i].closed
      ensures neighbors[i] !in ClosedKeys(t) ==> metas[i] == FreshMeta(neighbors[i], current, tools)
    {
      var n := neighbors[i];
      if n in ClosedKeys(t) {
        var j :| 0 <= j < |t| && t[j].closed && t[j].node == n;
        IndexOfDistinct(t, j);
      } else {
        IndexOfFirst(t, n);
        match Get(t, n)
        case Nothing =>
        case Just(p) =>
          var j := IndexOf(t, n).value;
          assert t[j] == p;
      }
    }
    forall a | 0 <= a < |added|
      ensures added[a] == FreshMeta(added[a].node, current, tools)
      ensures added[a].node in neighbors && added[a].node !in ClosedKeys(t)
    {
      var i :| 0 <= i < |metas| && metas[i] == added[a];
    }
    forall i | 0 <= i < |neighbors| && neighbors[i] !in ClosedKeys(t)
      ensures FreshMeta(neighbors[i], current, tools) in added
    {
      assert IsNotClosed(metas[i]);
    }
  }

  /** `r` is `t` after the neighbours of `current` were added: keys
      distinct and in place, no closed record touched, every neighbour a
      key, and every record written the fresh record of a neighbour. */
  ghost predicate Expansion<N>(t: NodesSet<N>, current: NodeMeta<N>, r: NodesSet<N>, tools: GraphTools<N>)
  {
    var neighbors := tools.findNeighbors(current.node);
    && DistinctKeys(r)
    && |r| >= |t|
    && (forall j :: 0 <= j < |t| ==> r[j].node == t[j].node)
    && (forall j :: 0 <= j < |t| && t[j].closed ==> r[j] == t[j])
    && (forall j :: 0 <= j < |r| && !(j < |t| && r[j] == t[j]) ==>
          r[j] == FreshMeta(r[j].node, current, tools) && r[j].node in neighbors)
    && (forall i :: 0 <= i < |neighbors| ==> neighbors[i] in Keys(r))
  }

  /** What `addNeighbors` does to a table with distinct keys. */
  lemma AddNeighborsFacts<N>(t: NodesSet<N>, current: NodeMeta<N>, tools: GraphTools<N>)
    requires DistinctKeys(t)
    ensures Expansion(t, current, AddNeighbors(t, current, tools), tools)
  {
    var neighbors := tools.findNeighbors(current.node);
    var metas := seq(|neighbors|, i requires 0 <= i < |neighbors| =>
      ComputeNodeMeta(neighbors[i], current, t, tools));
    var added := Filter(metas, IsNotClosed);
    AddedRecords(t, current, tools);
    SetAllFacts(t, added);
    var r := AddNeighbors(t, current, tools);
    forall j | 0 <= j < |t| && t[j].closed ensures r[j] == t[j] {
      forall a | 0 <= a < |added| ensures added[a].node != t[j].node {
        assert t[j].node in ClosedKeys(t);
      }
    }
    forall j | 0 <= j < |r| && !(j < |t| && r[j] == t[j])
      ensures r[j] == FreshMeta(r[j].node, current, tools) && r[j].node in neighbors
    {
      if j < |t| {
        var a :| 0 <= a < |added| && added[a].node == t[j].node;
      } else {
        var a :| 0 <= a < |added| && r[j] == added[a];
      }
    }
    forall i | 0 <= i < |neighbors| ensures neighbors[i] in Keys(r) {
      if neighbors[i] in ClosedKeys(t) {
        var j :| 0 <= j < |t| && t[j].closed && t[j].node == neighbors[i];
        assert Keys(r)[j] == neighbors[i];
      } else {
        var a :| 0 <= a < |added| && added[a] == FreshMeta(neighbors[i], current, tools);
      }
    }
  }

  /** The predecessor chain of a record walks the graph back to the start
      through closed records, with the scores the engine computes:
      g-score 0 at the start, each g-score its predecessor's plus the edge,
      each f-score the g-score plus the estimate. */
  ghost predicate Linked<N>(m: NodeMeta<N>, start: N, tools: GraphTools<N>)
    decreases m
  {
    && m.fScore == m.gScore + tools.estimateGoalDistance(m.node)
    && match m.previousNodeMeta
       case Nothing => m.node == start && m.gScore == 0
       case Just(p) =>
         && p.closed
         && m.node in tools.findNeighbors(p.node)
         && m.gScore == p.gScore + tools.computeNodesDistance(p.node, m.node)
         && Linked(p, start, tools)
  }

  /** The invariant of the records between two passes of the loop. */
  ghost predicate Invariant<N>(t: NodesSet<N>, start: N, tools: GraphTools<N>)
  {
    && DistinctKeys(t)
    && start in Keys(t)
    && (forall i :: 0 <= i < |t| ==> Linked(t[i], start, tools))
    && (forall i :: 0 <= i < |t| && t[i].previousNodeMeta.Just? ==> t[i].previousNodeMeta.value in t)
    && (forall i, k :: 0 <= i < |t| && t[i].closed && 0 <= k < |tools.findNeighbors(t[i].node)| ==>
          tools.findNeighbors(t[i].node)[k] in Keys(t))
  }

  /** The goal tests so far: one per closed record, none twice, none
      successful. */
  ghost predicate TestLog<N>(t: NodesSet<N>, goalTests: seq<N>, tools: GraphTools<N>)
  {
    && Distinct(goalTests)
    && (set x | x in goalTests) == ClosedKeys(t)
    && forall i :: 0 <= i < |goalTests| ==> !tools.checkIfGoalReached(goalTests[i])
  }

  /** The invariant of the records together with the test log. */
  ghost predicate Good<N>(t: NodesSet<N>, goalTests: seq<N>, start: N, tools: GraphTools<N>)
  {
    Invariant(t, start, tools) && TestLog(t, goalTests, tools)
  }

  /** Each node of `path` is a neighbour of the one before it. */
  ghost predicate IsWalk<N>(path: seq<N>, tools: GraphTools<N>)
  {
    forall i :: 0 <= i < |path| - 1 ==> path[i + 1] in tools.findNeighbors(path[i])
  }

  /** The sum of the edge lengths along `path`. */
  ghost function PathCost<N>(path: seq<N>, tools: GraphTools<N>): int
    decreases |path|
  {
    if |path| < 2 then 0
    else PathCost(path[..|path| - 1], tools) + tools.computeNodesDistance(path[|path| - 2], path[|path| - 1])
  }

  /** The path rebuilt from a linked record starts at the start, ends at the
      record's node, walks the graph and costs the record's g-score. */
  lemma {:induction false} LineageIsWalk<N>(m: NodeMeta<N>, start: N, tools: GraphTools<N>)
    requires Linked(m, start, tools)
    ensures var p := Lineage(m);
      && |p| > 0 && p[0] == start && p[|p| - 1] == m.node
      && IsWalk(p, tools)
      && PathCost(p, tools) == m.gScore
    decreases m
  {
    match m.previousNodeMeta
    case Nothing =>
    case Just(prev) =>
      LineageIsWalk(prev, start, tools);
      var q := Lineage(prev);
      var p := q + [m.node];
      assert p[..|p| - 1] == q;
      forall i | 0 <= i < |p| - 1 ensures p[i + 1] in tools.findNeighbors(p[i]) {
        if i < |q| - 1 { assert p[i] == q[i] && p[i + 1] == q[i + 1]; }
      }
  }

  /** Closing the open record at position `i`. */
  lemma CloseFacts<N>(t: NodesSet<N>, i: nat, start: N, tools: GraphTools<N>)
    requires Invariant(t, start, tools) && i < |t| && !t[i].closed
    ensures var c := t[i].(closed := true);
      var t1 := t[i := c];
      && DistinctKeys(t1)
      && start in Keys(t1)
      && Linked(c, start, tools)
      && (forall j :: 0 <= j < |t1| ==> Linked(t1[j], start, tools))
      && (forall j :: 0 <= j < |t1| && t1[j].previousNodeMeta.Just? ==> t1[j].previousNodeMeta.value in t1)
      && c.node !in ClosedKeys(t)
      && ClosedKeys(t1) == ClosedKeys(t) + {c.node}
  {
    var c := t[i].(closed := true);
    var t1 := t[i := c];
    assert Keys(t1) == Keys(t);
    forall j | 0 <= j < |t1| && t1[j].previousNodeMeta.Just?
      ensures t1[j].previousNodeMeta.value in t1
    {
      var p := t1[j].previousNodeMeta.value;
      assert t[j].previousNodeMeta == t1[j].previousNodeMeta;
      var k :| 0 <= k < |t| && t[k] == p;
      assert p.closed;
      assert t1[k] == p;
    }
    assert c.node !in ClosedKeys(t) by {
      forall j | 0 <= j < |t| && t[j].closed ensures t[j].node != c.node {
        KeysDiffer(t, j, i);
      }
    }
    assert ClosedKeys(t1) == ClosedKeys(t) + {c.node} by {
      forall x | x in ClosedKeys(t1) ensures x in ClosedKeys(t) + {c.node} {
        var j :| 0 <= j < |t1| && t1[j].closed && t1[j].node == x;
        if j != i { assert t[j] == t1[j]; }
      }
      forall x | x in ClosedKeys(t) ensures x in ClosedKeys(t1) {
        var j :| 0 <= j < |t| && t[j].closed && t[j].node == x;
        assert j != i && t1[j] == t[j];
      }
      assert t1[i].closed;
    }
  }

  /** An expansion from a closed, linked record keeps every record linked. */
  lemma ExpandLinked<N>(t1: NodesSet<N>, c: NodeMeta<N>, r: NodesSet<N>, start: N, tools: GraphTools<N>)
    requires Expansion(t1, c, r, tools) && c.closed && Linked(c, start, tools)
    requires forall j :: 0 <= j < |t1| ==> Linked(t1[j], start, tools)
    ensures forall j :: 0 <= j < |r| ==> Linked(r[j], start, tools)
  {
    forall j | 0 <= j < |r| ensures Linked(r[j], start, tools) {
      if !(j < |t1| && r[j] == t1[j]) {
        assert r[j] == FreshMeta(r[j].node, c, tools);
      }
    }
  }

  /** An expansion from a record of the table keeps every predecessor a
      record of the table, when predecessors are closed. */
  lemma ExpandPredecessors<N>(t1: NodesSet<N>, c: NodeMeta<N>, r: NodesSet<N>, tools: GraphTools<N>)
    requires Expansion(t1, c, r, tools) && c in t1 && c.closed
    requires forall j :: 0 <= j < |t1| && t1[j].previousNodeMeta.Just? ==>
      t1[j].previousNodeMeta.value in t1 && t1[j].previousNodeMeta.value.closed
    ensures forall j :: 0 <= j < |r| && r[j].previousNodeMeta.Just? ==> r[j].previousNodeMeta.value in r
  {
    forall j | 0 <= j < |r| && r[j].previousNodeMeta.Just?
      ensures r[j].previousNodeMeta.value in r
    {
      var p := if j < |t1| && r[j] == t1[j] then t1[j].previousNodeMeta.value else c;
      if j < |t1| && r[j] == t1[j] {
        assert p in t1 && p.closed;
      } else {
        assert r[j] == FreshMeta(r[j].node, c, tools);
      }
      var k :| 0 <= k < |t1| && t1[k] == p;
      assert r[k] == t1[k];
    }
  }

  /** After an expansion from `c`, every closed record has its neighbours
      as keys, given that the others closed before already had. */
  lemma ExpandNeighbors<N>(t1: NodesSet<N>, c: NodeMeta<N>, r: NodesSet<N>, tools: GraphTools<N>)
    requires Expansion(t1, c, r, tools)
    requires forall j, k ::
      (0 <= j < |t1| && t1[j].closed && t1[j].node != c.node && 0 <= k < |tools.findNeighbors(t1[j].node)|) ==>
        tools.findNeighbors(t1[j].node)[k] in Keys(t1)
    ensures forall j, k :: 0 <= j < |r| && r[j].closed && 0 <= k < |tools.findNeighbors(r[j].node)| ==>
      tools.findNeighbors(r[j].node)[k] in Keys(r)
  {
    forall j, k | 0 <= j < |r| && r[j].closed && 0 <= k < |tools.findNeighbors(r[j].node)|
      ensures tools.findNeighbors(r[j].node)[k] in Keys(r)
    {
      assert j < |t1| && r[j] == t1[j];
      var n := tools.findNeighbors(r[j].node)[k];
      if r[j].node != c.node {
        var m :| 0 <= m < |t1| && Keys(t1)[m] == n;
        assert Keys(r)[m] == n;
      }
    }
  }

  /** An expansion closes nothing. */
  lemma ExpandClosed<N>(t1: NodesSet<N>, c: NodeMeta<N>, r: NodesSet<N>, tools: GraphTools<N>)
    requires Expansion(t1, c, r, tools)
    ensures ClosedKeys(r) == ClosedKeys(t1)
  {
    forall x | x in ClosedKeys(r) ensures x in ClosedKeys(t1) {
      var j :| 0 <= j < |r| && r[j].closed && r[j].node == x;
      assert j < |t1| && r[j] == t1[j];
    }
    forall x | x in ClosedKeys(t1) ensures x in ClosedKeys(r) {
      var j :| 0 <= j < |t1| && t1[j].closed && t1[j].node == x;
      assert r[j] == t1[j];
    }
  }

  /** Expanding the record just closed restores the invariant and closes
      nothing else. */
  lemma ExpandFacts<N>(t: NodesSet<N>, i: nat, start: N, tools: GraphTools<N>)
    requires Invariant(t, start, tools) && i < |t| && !t[i].closed
    ensures var c := t[i].(closed := true);
      var r := AddNeighbors(t[i := c], c, tools);
      && Invariant(r, start, tools)
      && ClosedKeys(r) == ClosedKeys(t) + {c.node}
  {
    var c := t[i].(closed := true);
    var t1 := t[i := c];
    CloseFacts(t, i, start, tools);
    AddNeighborsFacts(t1, c, tools);
    var r := AddNeighbors(t1, c, tools);
    ExpandLinked(t1, c, r, start, tools);
    assert t1[i] == c;
    ExpandPredecessors(t1, c, r, tools);
    assert Keys(t1) == Keys(t);
    forall j, k | 0 <= j < |t1| && t1[j].closed && t1[j].node != c.node
      && 0 <= k < |tools.findNeighbors(t1[j].node)|
      ensures tools.findNeighbors(t1[j].node)[k] in Keys(t1)
    {
      assert j != i && t[j] == t1[j];
    }
    ExpandNeighbors(t1, c, r, tools);
    ExpandClosed(t1, c, r, tools);
    var s :| 0 <= s < |t1| && Keys(t1)[s] == start;
    assert Keys(r)[s] == start;
  }

  /** One pass of the loop: it closes exactly one record that was open,
      tests its node, and either returns the walk to it or leaves the
      invariant in place with one more (failed) goal test logged. */
  lemma IterateFacts<N>(t: NodesSet<N>, start: N, tools: GraphTools<N>, goalTests: seq<N>)
    requires Invariant(t, start, tools) && TestLog(t, goalTests, tools)
    ensures var turn := Iterate(t, tools);
      && (turn.Expanded? || turn.GoalReached? ==>
            && turn.node !in ClosedKeys(t)
            && ClosedKeys(turn.nodesSet) == ClosedKeys(t) + {turn.node}
            && Distinct(goalTests + [turn.node])
            && (set y | y in goalTests + [turn.node]) == ClosedKeys(turn.nodesSet))
      && (turn.Expanded? ==>
            && Invariant(turn.nodesSet, start, tools)
            && TestLog(turn.nodesSet, goalTests + [turn.node], tools))
      && (turn.GoalReached? ==>
            var path := turn.path;
            && tools.checkIfGoalReached(turn.node)
            && |path| > 0 && path[0] == start && path[|path| - 1] == turn.node
            && IsWalk(path, tools)
            && Get(turn.nodesSet, turn.node).Just? && Get(turn.nodesSet, turn.node).value.closed
            && PathCost(path, tools) == Get(turn.nodesSet, turn.node).value.gScore)
  {
    var turn := Iterate(t, tools);
    FindCheapestIsCheapest(t);
    if turn.Expanded? || turn.GoalReached? {
      var i := FindCheapest(t).value;
      var c := t[i].(closed := true);
      var t1 := t[i := c];
      assert turn.node == c.node;
      CloseFacts(t, i, start, tools);
      LogAppend(goalTests, c.node);
      if turn.GoalReached? {
        assert turn == GoalReached(FindPath(c, []), t1, c.node);
        GoalFacts(t, i, start, tools);
      } else {
        assert turn == Expanded(AddNeighbors(t1, c, tools), c.node);
        ExpandFacts(t, i, start, tools);
      }
    }
  }

  lemma GoalFacts<N>(t: NodesSet<N>, i: nat, start: N, tools: GraphTools<N>)
    requires Invariant(t, start, tools) && i < |t| && !t[i].closed
    ensures var c := t[i].(closed := true);
      var t1 := t[i := c];
      var path := FindPath(c, []);
      && |path| > 0 && path[0] == start && path[|path| - 1] == c.node
      && IsWalk(path, tools)
      && Get(t1, c.node) == Just(c)
      && PathCost(path, tools) == c.gScore
  {
    var c := t[i].(closed := true);
    CloseFacts(t, i, start, tools);
    LineageIsWalk(c, start, tools);
    assert Lineage(c) + [] == Lineage(c);
    IndexOfDistinct(t[i := c], i);
  }

  lemma LogAppend<N>(goalTests: seq<N>, x: N)
    requires Distinct(goalTests) && x !in goalTests
    ensures Distinct(goalTests + [x])
    ensures (set y | y in goalTests + [x]) == (set y | y in goalTests) + {x}
  {
    var tested := goalTests + [x];
    forall a, b | 0 <= a < b < |tested| ensures tested[a] != tested[b] {
      if b == |goalTests| { assert tested[a] in goalTests; }
    }
  }

  /** The run ended on a node that passed the goal test: the path is a
      walk of the graph from the start to it, it was the last node tested
      and the only one that passed, its record is closed, and the path costs
      the g-score recorded for it. */
  ghost predicate FoundGoal<N>(run: Run<N>, start: N, tools: GraphTools<N>)
  {
    && run.result.Returned? && |run.result.value| > 0
    && var path := run.result.value;
       var goal := path[|path| - 1];
       && path[0] == start
       && IsWalk(path, tools)
       && tools.checkIfGoalReached(goal)
       && |run.goalTests| > 0 && run.goalTests[|run.goalTests| - 1] == goal
       && (forall i :: 0 <= i < |run.goalTests| - 1 ==> !tools.checkIfGoalReached(run.goalTests[i]))
       && Get(run.nodesSet, goal).Just? && Get(run.nodesSet, goal).value.closed
       && PathCost(path, tools) == Get(run.nodesSet, goal).value.gScore
  }

  /** The run ended with no open record left, the invariant and the test
      log intact. */
  ghost predicate Drained<N>(run: Run<N>, start: N, tools: GraphTools<N>)
  {
    && Invariant(run.nodesSet, start, tools)
    && TestLog(run.nodesSet, run.goalTests, tools)
    && forall j :: 0 <= j < |run.nodesSet| ==> run.nodesSet[j].closed
  }

  lemma GoalRun<N>(t: NodesSet<N>, start: N, tools: GraphTools<N>, goalTests: seq<N>)
    requires Invariant(t, start, tools) && TestLog(t, goalTests, tools)
    requires Iterate(t, tools).GoalReached?
    ensures var turn := Iterate(t, tools);
      FoundGoal(Run(Returned(turn.path), turn.nodesSet, goalTests + [turn.node]), start, tools)
  {
    IterateFacts(t, start, tools, goalTests);
    var turn := Iterate(t, tools);
    var tested := goalTests + [turn.node];
    assert forall i :: 0 <= i < |tested| - 1 ==> tested[i] == goalTests[i];
  }

  /** A pass that reaches the goal logs one more node, not tested before,
      whose record it closed. */
  lemma GoalLog<N>(t: NodesSet<N>, start: N, tools: GraphTools<N>, goalTests: seq<N>)
    requires Good(t, goalTests, start, tools)
    requires Iterate(t, tools).GoalReached?
    ensures var turn := Iterate(t, tools);
      LogKept(Run(Returned(turn.path), turn.nodesSet, goalTests + [turn.node]))
  {
    IterateFacts(t, start, tools, goalTests);
  }

  /** Each node tested once, and exactly the nodes whose records are
      closed. */
  ghost predicate LogKept<N>(run: Run<N>)
  {
    Distinct(run.goalTests) && (set y | y in run.goalTests) == ClosedKeys(run.nodesSet)
  }

  /** Each pass of the loop tests one node. */
  lemma {:induction false} SearchCount<N>(t: NodesSet<N>, tools: GraphTools<N>, goalTests: seq<N>, fuel: nat)
    ensures var run := Search(t, tools, goalTests, fuel);
      run.result.OutOfFuel? ==> |run.goalTests| == |goalTests| + fuel
    decreases fuel
  {
    if fuel > 0 {
      var turn := Iterate(t, tools);
      if turn.Expanded? {
        SearchCount(turn.nodesSet, tools, goalTests + [turn.node], fuel - 1);
      }
    }
  }

  /** The run is what the loop returns after a pass over `v`, with `g` the
      nodes tested before it, that reached the goal. */
  ghost predicate EndsByGoal<N>(run: Run<N>, v: NodesSet<N>, g: seq<N>, tools: GraphTools<N>)
  {
    && Iterate(v, tools).GoalReached?
    && run.result == Returned(Iterate(v, tools).path)
    && run.nodesSet == Iterate(v, tools).nodesSet
    && run.goalTests == g + [Iterate(v, tools).node]
  }

  /** The loop and any property `keep` of the records and the test log that
      every pass expanding a node preserves: the property holds where the
      loop runs out of fuel and where it finds nothing left to expand, and
      a path is returned from a pass over records that have it. */
  lemma {:induction false} SearchKeeps<N(!new)>(
    t: NodesSet<N>, tools: GraphTools<N>, goalTests: seq<N>, fuel: nat, keep: (NodesSet<N>, seq<N>) -> bool)
    requires keep(t, goalTests)
    requires forall v, g {:trigger keep(v, g), Iterate(v, tools)} ::
      keep(v, g) && Iterate(v, tools).Expanded? ==> keep(Iterate(v, tools).nodesSet, g + [Iterate(v, tools).node])
    ensures var run := Search(t, tools, goalTests, fuel);
      && (run.result.OutOfFuel? ==> keep(run.nodesSet, run.goalTests))
      && (run.result.Returned? ==>
            || (keep(run.nodesSet, run.goalTests) && run.result == Returned([]) && Iterate(run.nodesSet, tools).Exhausted?)
            || exists v, g :: keep(v, g) && EndsByGoal(run, v, g, tools))
    decreases fuel
  {
    if fuel > 0 {
      var turn := Iterate(t, tools);
      if turn.Expanded? {
        SearchKeeps(turn.nodesSet, tools, goalTests + [turn.node], fuel - 1, keep);
      } else if turn.GoalReached? {
        assert EndsByGoal(Search(t, tools, goalTests, fuel), t, goalTests, tools);
      }
    }
  }

  /** What holds where the loop stops, started from records with the
      invariant and the test log. */
  lemma SearchGood<N(!new)>(t: NodesSet<N>, start: N, tools: GraphTools<N>, goalTests: seq<N>, fuel: nat)
    requires Good(t, goalTests, start, tools)
    ensures var run := Search(t, tools, goalTests, fuel);
      && LogKept(run)
      && (run.result.OutOfFuel? ==> Good(run.nodesSet, run.goalTests, start, tools))
      && (run.result == Returned([]) ==> Drained(run, start, tools))
      && (run.result.Returned? && run.result.value != [] ==> FoundGoal(run, start, tools))
  {
    var keep := (v: NodesSet<N>, g: seq<N>) => Good(v, g, start, tools);
    forall v, g | keep(v, g) && Iterate(v, tools).Expanded?
      ensures keep(Iterate(v, tools).nodesSet, g + [Iterate(v, tools).node])
    {
      ExpandKeeps(v, start, tools, g);
    }
    SearchKeeps(t, tools, goalTests, fuel, keep);
    var run := Search(t, tools, goalTests, fuel);
    if run.result.Returned? {
      if exists v, g :: keep(v, g) && EndsByGoal(run, v, g, tools) {
        var v, g :| keep(v, g) && EndsByGoal(run, v, g, tools);
        var turn := Iterate(v, tools);
        assert run == Run(Returned(turn.path), turn.nodesSet, g + [turn.node]);
        GoalRun(v, start, tools, g);
        GoalLog(v, start, tools, g);
      } else {
        IterateExhausted(run.nodesSet, tools);
      }
    }
  }

  /** The records the search starts with. */
  lemma StartFacts<N>(start: N, tools: GraphTools<N>)
    ensures Invariant([StartMeta(start, tools)], start, tools)
    ensures TestLog([StartMeta(start, tools)], [], tools)
  {
    var t := [StartMeta(start, tools)];
    assert Keys(t)[0] == start;
    assert ClosedKeys(t) == {};
  }

  /** A start node that satisfies the goal test is returned alone: it is
      the only node tested and no neighbour is ever looked up, so the only
      record is the start's, closed. */
  lemma GoalAtStart<N>(start: N, tools: GraphTools<N>, fuel: nat)
    requires tools.checkIfGoalReached(start) && fuel >= 1
    ensures AStarSearch(start, tools, fuel)
      == Run(Returned([start]), [StartMeta(start, tools).(closed := true)], [start])
  {
    var t := [StartMeta(start, tools)];
    var c := t[0].(closed := true);
    assert FindCheapest(t) == Just(0);
    assert FindPath(c, []) == [start];
    assert Iterate(t, tools) == GoalReached([start], [c], start);
  }

  /** A non-empty result is a walk of the graph from the start to a node
      that satisfies the goal test, every node tested before it failed the
      test, and the walk costs the g-score recorded for the goal. */
  lemma ResultIsWalkToGoal<N(!new)>(start: N, tools: GraphTools<N>, fuel: nat)
    requires AStarSearch(start, tools, fuel).result.Returned?
    requires AStarSearch(start, tools, fuel).result.value != []
    ensures FoundGoal(AStarSearch(start, tools, fuel), start, tools)
  {
    StartFacts(start, tools);
    SearchGood([StartMeta(start, tools)], start, tools, [], fuel);
  }

  /** The goal test runs at most once per node, and exactly on the nodes
      whose records are closed. */
  lemma GoalTestedOncePerNode<N(!new)>(start: N, tools: GraphTools<N>, fuel: nat)
    ensures var run := AStarSearch(start, tools, fuel);
      && Distinct(run.goalTests)
      && (set y | y in run.goalTests) == ClosedKeys(run.nodesSet)
  {
    StartFacts(start, tools);
    SearchGood([StartMeta(start, tools)], start, tools, [], fuel);
  }

  /** Every walk from the start ends at a key of a table whose closed
      records have all their neighbours as keys and that has no open
      record. */
  lemma {:induction false} WalkEndIsKey<N>(t: NodesSet<N>, path: seq<N>, tools: GraphTools<N>)
    requires |path| > 0 && path[0] in Keys(t) && IsWalk(path, tools)
    requires forall j :: 0 <= j < |t| ==> t[j].closed
    requires forall i, k :: 0 <= i < |t| && t[i].closed && 0 <= k < |tools.findNeighbors(t[i].node)| ==>
      tools.findNeighbors(t[i].node)[k] in Keys(t)
    ensures path[|path| - 1] in Keys(t)
    decreases |path|
  {
    if |path| > 1 {
      var front := path[..|path| - 1];
      assert IsWalk(front, tools) by {
        forall i | 0 <= i < |front| - 1 ensures front[i + 1] in tools.findNeighbors(front[i]) {
          assert front[i] == path[i] && front[i + 1] == path[i + 1];
        }
      }
      WalkEndIsKey(t, front, tools);
      var x := path[|path| - 2];
      var j :| 0 <= j < |t| && Keys(t)[j] == x;
      var k :| 0 <= k < |tools.findNeighbors(x)| && tools.findNeighbors(x)[k] == path[|path| - 1];
    }
  }

  /** When the search returns `[]`, every node reachable from the start was
      tested against the goal, and failed. */
  lemma ExhaustedMeansNoReachableGoal<N(!new)>(start: N, tools: GraphTools<N>, fuel: nat, path: seq<N>)
    requires AStarSearch(start, tools, fuel).result == Returned([])
    requires |path| > 0 && path[0] == start && IsWalk(path, tools)
    ensures path[|path| - 1] in AStarSearch(start, tools, fuel).goalTests
    ensures !tools.checkIfGoalReached(path[|path| - 1])
  {
    var run := AStarSearch(start, tools, fuel);
    StartFacts(start, tools);
    SearchGood([StartMeta(start, tools)], start, tools, [], fuel);
    WalkEndIsKey(run.nodesSet, path, tools);
    var x := path[|path| - 1];
    var j :| 0 <= j < |run.nodesSet| && Keys(run.nodesSet)[j] == x;
    assert x in ClosedKeys(run.nodesSet);
    assert x in (set y | y in run.goalTests);
  }

  /** `nodes` holds every neighbour of each of its members. */
  ghost predicate ClosedUnderNeighbors<N>(nodes: set<N>, tools: GraphTools<N>)
  {
    forall x, k :: x in nodes && 0 <= k < |tools.findNeighbors(x)| ==> tools.findNeighbors(x)[k] in nodes
  }

  lemma {:induction false} WalkStaysInside<N>(path: seq<N>, nodes: set<N>, tools: GraphTools<N>)
    requires |path| > 0 && path[0] in nodes && IsWalk(path, tools) && ClosedUnderNeighbors(nodes, tools)
    ensures path[|path| - 1] in nodes
    decreases |path|
  {
    if |path| > 1 {
      var front := path[..|path| - 1];
      assert IsWalk(front, tools) by {
        forall i | 0 <= i < |front| - 1 ensures front[i + 1] in tools.findNeighbors(front[i]) {
          assert front[i] == path[i] && front[i + 1] == path[i + 1];
        }
      }
      WalkStaysInside(front, nodes, tools);
      var x := path[|path| - 2];
      var k :| 0 <= k < |tools.findNeighbors(x)| && tools.findNeighbors(x)[k] == path[|path| - 1];
    }
  }

  /** A pass that expands a node keeps the invariant and the test log. */
  lemma ExpandKeeps<N>(t: NodesSet<N>, start: N, tools: GraphTools<N>, goalTests: seq<N>)
    requires Invariant(t, start, tools) && TestLog(t, goalTests, tools)
    requires Iterate(t, tools).Expanded?
    ensures var turn := Iterate(t, tools);
      Good(turn.nodesSet, goalTests + [turn.node], start, tools)
  {
    IterateFacts(t, start, tools, goalTests);
  }

  /** The nodes tested so far are distinct members of `nodes`. */
  lemma TestedInside<N>(t: NodesSet<N>, start: N, tools: GraphTools<N>, goalTests: seq<N>, nodes: set<N>)
    requires Invariant(t, start, tools) && TestLog(t, goalTests, tools)
    requires start in nodes && ClosedUnderNeighbors(nodes, tools)
    ensures |goalTests| <= |nodes|
  {
    assert ClosedKeys(t) <= nodes by {
      forall x | x in ClosedKeys(t) ensures x in nodes {
        var j :| 0 <= j < |t| && t[j].closed && t[j].node == x;
        LineageIsWalk(t[j], start, tools);
        WalkStaysInside(Lineage(t[j]), nodes, tools);
      }
    }
    DistinctCardinality(goalTests);
    SubsetCardinality((set y | y in goalTests), nodes);
  }

  lemma SubsetCardinality<N>(a: set<N>, b: set<N>)
    requires a <= b
    ensures |a| <= |b|
  {
    assert b == a + (b - a);
  }

  /** On a finite graph the search returns: `fuel` above the number of
      nodes reachable from the start is enough. */
  lemma FiniteGraphTerminates<N(!new)>(start: N, tools: GraphTools<N>, fuel: nat, nodes: set<N>)
    requires start in nodes && ClosedUnderNeighbors(nodes, tools) && fuel > |nodes|
    ensures AStarSearch(start, tools, fuel).result.Returned?
  {
    var t := [StartMeta(start, tools)];
    var run := AStarSearch(start, tools, fuel);
    StartFacts(start, tools);
    SearchGood(t, start, tools, [], fuel);
    SearchCount(t, tools, [], fuel);
    if run.result.OutOfFuel? {
      TestedInside(run.nodesSet, start, tools, run.goalTests, nodes);
    }
  }

  /** With a goal test that never succeeds on a finite graph, the search
      returns `[]` after testing every node reachable from the start, each
      exactly once. */
  lemma NoGoalTestsEveryReachableNodeOnce<N(!new)>(
    start: N, tools: GraphTools<N>, fuel: nat, nodes: set<N>, path: seq<N>)
    requires start in nodes && ClosedUnderNeighbors(nodes, tools) && fuel > |nodes|
    requires forall x :: x in nodes ==> !tools.checkIfGoalReached(x)
    requires |path| > 0 && path[0] == start && IsWalk(path, tools)
    ensures var run := AStarSearch(start, tools, fuel);
      && run.result == Returned([])
      && Distinct(run.goalTests)
      && |run.goalTests| <= |nodes|
      && path[|path| - 1] in run.goalTests
  {
    var run := AStarSearch(start, tools, fuel);
    FiniteGraphTerminates(start, tools, fuel, nodes);
    GoalTestedOncePerNode(start, tools, fuel);
    if run.result.value != [] {
      ResultIsWalkToGoal(start, tools, fuel);
      var p := run.result.value;
      WalkStaysInside(p, nodes, tools);
      assert false;
    }
    ExhaustedMeansNoReachableGoal(start, tools, fuel, path);
    StartFacts(start, tools);
    SearchGood([StartMeta(start, tools)], start, tools, [], fuel);
    TestedInside(run.nodesSet, start, tools, run.goalTests, nodes);
  }
}
