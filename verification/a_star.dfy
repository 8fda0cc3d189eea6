/** The generic A* engine.

    The program keeps a JavaScript `Map` from node to search record. Here it
    is the sequence of its records in insertion order (`NodesSet`); a
    record's key is its `node`. `Map.set` on a key already present keeps
    the key's position, which, with the stable sort that picks the
    cheapest record, decides ties between equal f-scores.

    A record points at the record it was reached from. The model holds that
    predecessor by value: it is always a closed record, and closed records
    never change afterwards, so the value held is the record the `Map`
    still holds under that key (proved in `AStarTheory`).

    The loop of the program runs until it returns; on an infinite graph
    with no reachable goal it never does. The model runs it with `fuel`. */
module AStar {
  import opened Maybes
  import opened Seqs

  /** The search record of one node (`NodeMeta`). */
  datatype NodeMeta<N> = NodeMeta(
    node: N,
    closed: bool,
    gScore: int,
    fScore: int,
    previousNodeMeta: Maybe<NodeMeta<N>>)

  /** What the engine is given about the graph (`GraphTools`). */
  datatype GraphTools<!N> = GraphTools(
    checkIfGoalReached: N -> bool,
    computeNodesDistance: (N, N) -> int,
    estimateGoalDistance: N -> int,
    findNeighbors: N -> seq<N>)

  /** The records of the search, in the insertion order of their keys. */
  type NodesSet<N> = seq<NodeMeta<N>>

  /** The position of the record kept under `node`, if any. */
  function IndexOf<N(==)>(nodesSet: NodesSet<N>, node: N): (r: Maybe<nat>)
    ensures r.Just? ==> r.value < |nodesSet|
  {
    if |nodesSet| == 0 then Nothing
    else if nodesSet[0].node == node then Just(0)
    else
      match IndexOf(nodesSet[1..], node)
      case Nothing => Nothing
      case Just(i) => Just(i + 1)
  }

  /** `IndexOf` finds the first record kept under `node`, and finds none
      exactly when no record is. */
  lemma {:induction false} IndexOfFirst<N>(nodesSet: NodesSet<N>, node: N)
    ensures var r := IndexOf(nodesSet, node);
      && (r.Just? ==> nodesSet[r.value].node == node)
      && (r.Just? ==> forall j :: 0 <= j < r.value ==> nodesSet[j].node != node)
      && (r.Nothing? <==> forall j :: 0 <= j < |nodesSet| ==> nodesSet[j].node != node)
  {
    if |nodesSet| > 0 && nodesSet[0].node != node {
      IndexOfFirst(nodesSet[1..], node);
      var tail := nodesSet[1..];
      forall j | 1 <= j < |nodesSet| ensures nodesSet[j] == tail[j - 1] { }
    }
  }

  /** `nodesSet.get(node)`. */
  function Get<N(==)>(nodesSet: NodesSet<N>, node: N): Maybe<NodeMeta<N>>
  {
    match IndexOf(nodesSet, node)
    case Nothing => Nothing
    case Just(i) => Just(nodesSet[i])
  }

  /** `nodesSet.set(meta.node, meta)`: replace in place when the key is
      present, append otherwise. */
  function Set<N(==)>(nodesSet: NodesSet<N>, meta: NodeMeta<N>): NodesSet<N>
  {
    match IndexOf(nodesSet, meta.node)
    case Nothing => nodesSet + [meta]
    case Just(i) => nodesSet[i := meta]
  }

  /** `Set` replaces the first record under the key of `meta`, keeping
      every key in place, or appends `meta` when the key is new. */
  lemma SetInPlace<N>(nodesSet: NodesSet<N>, meta: NodeMeta<N>)
    ensures var r := Set(nodesSet, meta);
      && (|r| == |nodesSet| || r == nodesSet + [meta])
      && (forall j :: 0 <= j < |nodesSet| ==> r[j].node == nodesSet[j].node)
      && (forall j :: 0 <= j < |nodesSet| ==>
            r[j] == if IndexOf(nodesSet, meta.node) == Just(j) then meta else nodesSet[j])
      && (IndexOf(nodesSet, meta.node).Nothing? ==> r == nodesSet + [meta])
  {
    IndexOfFirst(nodesSet, meta.node);
  }

  /** `isNotClosed`. */
  predicate IsNotClosed<N>(meta: NodeMeta<N>)
  {
    !meta.closed
  }

  /** `findCheapest`: the open records, sorted by ascending f-score with a
      stable sort, and the first of them. That is the earliest inserted
      open record among those of least f-score. The model returns its
      position; `Nothing` when no record is open. */
  function FindCheapest<N>(nodesSet: NodesSet<N>): (r: Maybe<nat>)
    ensures r.Just? ==> r.value < |nodesSet|
  {
    if |nodesSet| == 0 then Nothing
    else
      var last := |nodesSet| - 1;
      var earlier := FindCheapest(nodesSet[..last]);
      if nodesSet[last].closed then earlier
      else
        match earlier
        case Nothing => Just(last)
        case Just(i) => if nodesSet[i].fScore <= nodesSet[last].fScore then Just(i) else Just(last)
  }

  /** `FindCheapest` picks an open record of least f-score, the earliest
      such, and finds none exactly when every record is closed. */
  lemma {:induction false} FindCheapestIsCheapest<N>(nodesSet: NodesSet<N>)
    ensures var r := FindCheapest(nodesSet);
      && (r.Nothing? <==> forall j :: 0 <= j < |nodesSet| ==> nodesSet[j].closed)
      && (r.Just? ==>
            && !nodesSet[r.value].closed
            && (forall j :: 0 <= j < |nodesSet| && !nodesSet[j].closed ==>
                  nodesSet[r.value].fScore <= nodesSet[j].fScore)
            && (forall j :: 0 <= j < r.value && !nodesSet[j].closed ==>
                  nodesSet[r.value].fScore < nodesSet[j].fScore))
  {
    if |nodesSet| > 0 {
      var last := |nodesSet| - 1;
      var front := nodesSet[..last];
      FindCheapestIsCheapest(front);
      forall j | 0 <= j < last ensures nodesSet[j] == front[j] { }
    }
  }

  /** The property of `FindCheapestIsCheapest` singles out one position:
      an open record of least f-score with no open record of the same
      f-score before it is the one `FindCheapest` picks. */
  lemma FindCheapestUnique<N>(nodesSet: NodesSet<N>, k: nat)
    requires k < |nodesSet| && !nodesSet[k].closed
    requires forall j :: 0 <= j < |nodesSet| && !nodesSet[j].closed ==> nodesSet[k].fScore <= nodesSet[j].fScore
    requires forall j :: 0 <= j < k && !nodesSet[j].closed ==> nodesSet[k].fScore < nodesSet[j].fScore
    ensures FindCheapest(nodesSet) == Just(k)
  {
    FindCheapestIsCheapest(nodesSet);
  }

  /** The nodes from the start to `meta`, following predecessors. */
  ghost function Lineage<N>(meta: NodeMeta<N>): seq<N>
    decreases meta
  {
    match meta.previousNodeMeta
    case Nothing => [meta.node]
    case Just(previous) => Lineage(previous) + [meta.node]
  }

  /** `findPath`: prepend the node to the path built so far and move on to
      the predecessor; stop at the record that has none. */
  function FindPath<N>(targetNodeMeta: NodeMeta<N>, previousPath: seq<N>): (r: seq<N>)
    ensures r == Lineage(targetNodeMeta) + previousPath
    decreases targetNodeMeta
  {
    var path := [targetNodeMeta.node] + previousPath;
    match targetNodeMeta.previousNodeMeta
    case Nothing => path
    case Just(previous) => FindPath(previous, path)
  }

  /** `computeGScore`: the predecessor's cost plus the length of the edge. */
  function ComputeGScore<N>(node: N, previousNodeMeta: NodeMeta<N>, graphTools: GraphTools<N>): int
  {
    previousNodeMeta.gScore + graphTools.computeNodesDistance(previousNodeMeta.node, node)
  }

  /** The `freshMeta` of `computeNodeMeta`: an open record reached from
      `previousNodeMeta`. */
  function FreshMeta<N>(node: N, previousNodeMeta: NodeMeta<N>, graphTools: GraphTools<N>): NodeMeta<N>
  {
    var gScore := ComputeGScore(node, previousNodeMeta, graphTools);
    NodeMeta(node, false, gScore, gScore + graphTools.estimateGoalDistance(node), Just(previousNodeMeta))
  }

  /** `computeNodeMeta`. The mapping function returns the persisted record
      when it is closed and the fresh one when that has the smaller
      f-score; otherwise it returns `undefined`, the chain becomes empty
      and `getValue` supplies the fresh record anyway. So an open record
      is replaced on every rediscovery, whatever its f-score; only a closed
      record is kept. */
  function ComputeNodeMeta<N(==)>(
    node: N, previousNodeMeta: NodeMeta<N>, nodesSet: NodesSet<N>, graphTools: GraphTools<N>): (r: NodeMeta<N>)
    ensures Get(nodesSet, node).Just? && Get(nodesSet, node).value.closed ==> r == Get(nodesSet, node).value
    ensures !(Get(nodesSet, node).Just? && Get(nodesSet, node).value.closed) ==>
      && r.node == node
      && !r.closed
      && r.gScore == previousNodeMeta.gScore + graphTools.computeNodesDistance(previousNodeMeta.node, node)
      && r.fScore == r.gScore + graphTools.estimateGoalDistance(node)
      && r.previousNodeMeta == Just(previousNodeMeta)
  {
    var freshMeta := FreshMeta(node, previousNodeMeta, graphTools);
    Get(nodesSet, node)
      .Map((persistedMeta: NodeMeta<N>) =>
        if persistedMeta.closed then Just(persistedMeta)
        else if persistedMeta.fScore > freshMeta.fScore then Just(freshMeta)
        else Nothing)
      .GetValue(freshMeta)
  }

  /** The `forEach` of `addNeighbors`: set each record in turn. */
  function SetAll<N(==)>(nodesSet: NodesSet<N>, metas: seq<NodeMeta<N>>): NodesSet<N>
    decreases |metas|
  {
    if |metas| == 0 then nodesSet
    else SetAll(Set(nodesSet, metas[0]), metas[1..])
  }

  /** `addNeighbors`: a record for every neighbour of the node just closed,
      all computed against the records as they stand, the closed ones
      dropped, the rest set in neighbour order. */
  function AddNeighbors<N(==)>(
    nodesSet: NodesSet<N>, previousNodeMeta: NodeMeta<N>, graphTools: GraphTools<N>): NodesSet<N>
  {
    var neighbors := graphTools.findNeighbors(previousNodeMeta.node);
    var metas := seq(|neighbors|, i requires 0 <= i < |neighbors| =>
      ComputeNodeMeta(neighbors[i], previousNodeMeta, nodesSet, graphTools));
    SetAll(nodesSet, Filter(metas, IsNotClosed))
  }

  /** What one pass of the loop body does. */
  datatype Turn<N> =
    | Exhausted
    | GoalReached(path: seq<N>, nodesSet: NodesSet<N>, node: N)
    | Expanded(nodesSet: NodesSet<N>, node: N)

  /** One pass of the `while (true)` loop: close the cheapest open record,
      test its node against the goal, then return the path to it or expand
      its neighbours. */
  function Iterate<N(==)>(nodesSet: NodesSet<N>, graphTools: GraphTools<N>): Turn<N>
  {
    match FindCheapest(nodesSet)
    case Nothing => Exhausted
    case Just(i) =>
      var cheapestNodeMeta := nodesSet[i].(closed := true);
      var closedSet := nodesSet[i := cheapestNodeMeta];
      if graphTools.checkIfGoalReached(cheapestNodeMeta.node) then
        GoalReached(FindPath(cheapestNodeMeta, []), closedSet, cheapestNodeMeta.node)
      else
        Expanded(AddNeighbors(closedSet, cheapestNodeMeta, graphTools), cheapestNodeMeta.node)
  }

  /** A pass finds nothing to expand exactly when every record is closed. */
  lemma IterateExhausted<N>(nodesSet: NodesSet<N>, graphTools: GraphTools<N>)
    ensures Iterate(nodesSet, graphTools).Exhausted? <==> forall j :: 0 <= j < |nodesSet| ==> nodesSet[j].closed
  {
    FindCheapestIsCheapest(nodesSet);
  }

  /** A result, or the loop still running when the fuel ran out. */
  datatype Bounded<T> = Returned(value: T) | OutOfFuel

  /** The end of a run: what `aStar` returned, the records at that point,
      and the nodes the goal test was applied to, in order. */
  datatype Run<N> = Run(result: Bounded<seq<N>>, nodesSet: NodesSet<N>, goalTests: seq<N>)

  /** The loop of `aStar`, at most `fuel` passes. */
  function Search<N(==)>(
    nodesSet: NodesSet<N>, graphTools: GraphTools<N>, goalTests: seq<N>, fuel: nat): Run<N>
    decreases fuel
  {
    if fuel == 0 then Run(OutOfFuel, nodesSet, goalTests)
    else
      match Iterate(nodesSet, graphTools)
      case Exhausted => Run(Returned([]), nodesSet, goalTests)
      case GoalReached(path, closedSet, node) => Run(Returned(path), closedSet, goalTests + [node])
      case Expanded(next, node) => Search(next, graphTools, goalTests + [node], fuel - 1)
  }

  /** The record the search starts from. */
  function StartMeta<N>(startNode: N, graphTools: GraphTools<N>): NodeMeta<N>
  {
    NodeMeta(startNode, false, 0, graphTools.estimateGoalDistance(startNode), Nothing)
  }

  /** `aStar`, with at most `fuel` passes of its loop. */
  function AStarSearch<N(==)>(startNode: N, graphTools: GraphTools<N>, fuel: nat): Run<N>
  {
    Search([StartMeta(startNode, graphTools)], graphTools, [], fuel)
  }
}
