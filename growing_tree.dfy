/**
 * The growing-tree generator: keep a list of active cells; repeatedly choose
 * one, connect it to an unvisited neighbour and add that neighbour to the
 * list, or drop the chosen cell when it has no unvisited neighbour left.
 */
module GrowingTree {
  import opened Basics
  import opened MazeGraph

  /** Weights of the three ways to choose the next cell. */
  datatype Weights = Weights(random: int, newest: int, oldest: int) {
    function Sum(): int {
      random + newest + oldest
    }
  }

  /** The weights a new generator starts with. */
  const DefaultWeights: Weights := Weights(1, 1, 0)

  /**
   * The cell that the chooser built for `w` picks from `list`, given the
   * draw `choice` from `[0, w.Sum())` and the index `pick` that a uniform
   * pick from the list returns.  Drawing from an empty range throws.
   */
  function Choose(w: Weights, choice: int, pick: nat, list: seq<nat>): (r: Result<nat, MazeError>)
    requires 0 < |list| && pick < |list|
    requires w.Sum() > 0 ==> 0 <= choice < w.Sum()
    ensures r.Failure? <==> w.Sum() <= 0
    ensures r.Success? ==> r.value in list
  {
    if w.Sum() <= 0 then Failure(EmptyRange)
    else if choice < w.random then Success(list[pick])
    else if choice < w.random + w.newest then Success(list[|list| - 1])
    else Success(list[0])
  }

  /** Only the newest weight set: always the last cell (a recursive backtracker). */
  lemma NewestOnlyChoosesLast(w: Weights, choice: int, pick: nat, list: seq<nat>)
    requires 0 < |list| && pick < |list| && 0 <= choice < w.Sum()
    requires w.random == 0 && w.oldest == 0
    ensures Choose(w, choice, pick, list) == Success(list[|list| - 1])
  {
  }

  /** Only the random weight set: always the uniformly picked cell (Prim's algorithm). */
  lemma RandomOnlyChoosesPick(w: Weights, choice: int, pick: nat, list: seq<nat>)
    requires 0 < |list| && pick < |list| && 0 <= choice < w.Sum()
    requires w.newest == 0 && w.oldest == 0
    ensures Choose(w, choice, pick, list) == Success(list[pick])
  {
  }

  /** Only the oldest weight set: always the first cell. */
  lemma OldestOnlyChoosesFirst(w: Weights, choice: int, pick: nat, list: seq<nat>)
    requires 0 < |list| && pick < |list| && 0 <= choice < w.Sum()
    requires w.random == 0 && w.newest == 0
    ensures Choose(w, choice, pick, list) == Success(list[0])
  {
  }

  /** The default weights choose the picked cell or the newest one, never by age alone. */
  lemma DefaultChoosesPickOrLast(choice: int, pick: nat, list: seq<nat>)
    requires 0 < |list| && pick < |list| && 0 <= choice < DefaultWeights.Sum()
    ensures Choose(DefaultWeights, choice, pick, list) in {Success(list[pick]), Success(list[|list| - 1])}
  {
  }

  /** Removes the first occurrence of `c` from `list`. */
  function RemoveFirst(list: seq<nat>, c: nat): (r: seq<nat>)
    ensures c !in list ==> r == list
    ensures c in list ==> |r| == |list| - 1
  {
    if |list| == 0 then []
    else if list[0] == c then list[1..]
    else [list[0]] + RemoveFirst(list[1..], c)
  }

  /** The first occurrence of `c` is at `i`: the rest keeps its order. */
  lemma {:induction false} RemoveFirstAt(list: seq<nat>, c: nat, i: nat)
    requires i < |list| && list[i] == c && c !in list[..i]
    ensures RemoveFirst(list, c) == list[..i] + list[i + 1..]
  {
    if i > 0 {
      assert list[0] != c by { assert list[0] == list[..i][0]; }
      assert list[1..][..i - 1] == list[1..i];
      RemoveFirstAt(list[1..], c, i - 1);
      assert list[..i] == [list[0]] + list[1..i];
    }
  }

  class GrowingTreeGenerator {
    /** The maze this generator works on. */
    const maze: Maze
    /** The weights that determine how the next cell is chosen. */
    var weights: Weights

    constructor (maze: Maze)
      ensures this.maze == maze && weights == DefaultWeights
    {
      this.maze := maze;
      weights := DefaultWeights;
    }

    /** Sets the weights of choosing a random, the newest and the oldest cell. */
    method SetChooseByWeight(random: int, newest: int, oldest: int)
      modifies this
      ensures weights == Weights(random, newest, oldest)
    {
      weights := Weights(random, newest, oldest);
    }

    /**
     * One pass of the loop for the chosen cell `current`: connect it to an
     * unvisited neighbour and append that neighbour, or drop `current` from
     * the list when it has none.
     */
    method GrowOrDrop(ghost root: nat, list: seq<nat>, current: nat) returns (next: seq<nat>)
      requires maze.Valid() && maze.Carving(root, list) && current in list
      modifies maze, maze.visited, maze.walls
      ensures maze.Carving(root, next)
      ensures 2 * |maze.Unvisited()| + |next| < 2 * old(|maze.Unvisited()|) + |list|
      ensures |maze.connections| == old(|maze.connections|) + (if |next| > |list| then 1 else 0)
      ensures old(maze.HasUnvisitedNeighbour(current)) ==>
        exists b :: 0 <= b < |maze.sides| && old(!maze.visited[b]) && Some(b) in maze.sides[current]
          && next == list + [b] && maze.connections == old(maze.connections) + [(current, b)]
      ensures !old(maze.HasUnvisitedNeighbour(current)) ==>
        && next == RemoveFirst(list, current) && maze.connections == old(maze.connections)
        && maze.visited[..] == old(maze.visited[..]) && maze.walls[..] == old(maze.walls[..])
    {
      var neighbour := maze.UnvisitedNeighbour(current);
      if neighbour.Some? {
        var cell := neighbour.value;
        maze.ConnectAndVisit(root, current, cell);
        assert forall c :: c in list + [cell] ==> c in list || c == cell;
        next := list + [cell];
      } else {
        var i :| 0 <= i < |list| && list[i] == current;
        RemoveAtDistinct(list, i);
        assert current !in list[..i];
        RemoveFirstAt(list, current, i);
        next := RemoveFirst(list, current);
        assert forall c :: c in next ==> c in list;
      }
    }

    /**
     * Resets the maze and carves a spanning tree of the cells reachable from a
     * random root.  `ok` is false when the weights sum to zero or less: the
     * first choice then throws, after the reset and after the root is marked.
     */
    method Generate() returns (ok: bool, ghost root: nat)
      requires maze.Valid()
      modifies maze, maze.visited, maze.walls
      ensures ok <==> weights.Sum() > 0
      ensures maze.IsTreeFrom(root) && maze.WallsMatch()
      ensures |maze.connections| + 1 == |Reached(root, maze.connections)| == |maze.Visited()|
      ensures forall i :: 0 <= i < |maze.sides| && maze.visited[i] ==> maze.CarvedFrom(root, i)
      ensures !ok ==> maze.connections == []
      ensures ok ==> forall i :: 0 <= i < |maze.sides| && maze.visited[i] ==> !maze.HasUnvisitedNeighbour(i)
      ensures ok && Connected(maze.sides) ==> forall i :: 0 <= i < |maze.sides| ==> maze.visited[i]
    {
      maze.Reset();
      var n := |maze.sides|;
      var initial :| 0 <= initial < n;
      root := initial;
      maze.visited[initial] := true;
      var list: seq<nat> := [initial];
      assert Reached(root, maze.connections) == {root};
      while |list| > 0
        invariant maze.Valid() && maze.Carving(root, list)
        invariant weights.Sum() <= 0 ==> maze.connections == [] && |list| > 0
        decreases 2 * |maze.Unvisited()| + |list|
      {
        var choice := 0;
        if weights.Sum() > 0 {
          choice :| 0 <= choice < weights.Sum();
        }
        var pick :| 0 <= pick < |list|;
        var chosen := Choose(weights, choice, pick, list);
        if chosen.Failure? {
          ok := false;
          maze.TreeSummary(root);
          return;
        }
        list := GrowOrDrop(root, list, chosen.value);
      }
      ok := true;
      maze.TreeSummary(root);
      if Connected(maze.sides) {
        maze.FinishedMeansAllVisited(root);
      }
    }
  }
}
