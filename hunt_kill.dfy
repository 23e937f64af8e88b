/**
 * The hunt-and-kill generator, in the variant that hunts among the cells it
 * already visited: a random walk carves from the current cell until it is
 * stuck ("kill"); then a visited cell with an unvisited neighbour is picked at
 * random from the list of visited cells, dropping the cells found to have
 * none, and the walk resumes from it ("hunt").  The maze is done when the
 * list runs empty.
 */
module HuntKill {
  import opened Basics
  import opened MazeGraph

  /** The consecutive pairs of `p`: the steps of a walk through the cells of `p`. */
  function Steps(p: seq<nat>): (r: seq<(nat, nat)>)
    ensures |r| == if |p| == 0 then 0 else |p| - 1
    ensures forall t :: 0 <= t < |r| ==> r[t] == (p[t], p[t + 1])
  {
    if |p| <= 1 then [] else Steps(p[..|p| - 1]) + [(p[|p| - 2], p[|p| - 1])]
  }

  /** One more cell adds one more step, from the former last cell. */
  lemma StepsAppend(p: seq<nat>, c: nat)
    requires |p| >= 1
    ensures Steps(p + [c]) == Steps(p) + [(p[|p| - 1], c)]
  {
    assert (p + [c])[..|p|] == p;
  }

  /** A log holding the steps of `p` after `start`, extended by a step from the end of `p`. */
  lemma LogExtend(start: seq<(nat, nat)>, p: seq<nat>, c: nat)
    requires |p| >= 1
    ensures start + Steps(p) + [(p[|p| - 1], c)] == start + Steps(p + [c])
  {
    StepsAppend(p, c);
  }

  /** One step of the walk: `cell`, an unvisited neighbour of `last`, joins the tree and the list. */
  method Advance(maze: Maze, ghost root: nat, walked: seq<nat>, last: nat, cell: nat)
    requires maze.Valid() && maze.Carving(root, walked) && last in walked
    requires cell < |maze.sides| && Some(cell) in maze.sides[last] && !maze.visited[cell]
    modifies maze, maze.visited, maze.walls
    ensures maze.Valid() && maze.Carving(root, walked + [cell])
    ensures maze.connections == old(maze.connections) + [(last, cell)]
    ensures cell in old(maze.Unvisited()) && maze.Unvisited() == old(maze.Unvisited()) - {cell}
  {
    maze.ConnectAndVisit(root, last, cell);
    assert forall c :: c in walked + [cell] ==> c in walked || c == cell;
  }

  /** Extending the walk `path` by `cell` extends the list behind it by the same cell. */
  lemma WalkExtend(list: seq<nat>, path: seq<nat>, cell: nat)
    requires |path| >= 1
    ensures list + (path + [cell])[1..] == list + path[1..] + [cell]
    ensures (path + [cell])[|path + [cell]| - 1] == cell && (path + [cell])[0] == path[0]
  {
    assert (path + [cell])[1..] == path[1..] + [cell];
  }

  /** The walk is the cell it started from followed by what it appended to `list`. */
  lemma WalkSplit(list: seq<nat>, path: seq<nat>)
    requires |path| >= 1
    ensures list <= list + path[1..]
    ensures [path[0]] + (list + path[1..])[|list|..] == path
    ensures |list + path[1..]| - |list| == |path| - 1
  {
    assert (list + path[1..])[|list|..] == path[1..];
  }

  /**
   * The kill phase: walk from `current`, connecting each cell to one of its
   * unvisited neighbours and moving there, until the cell reached has none.
   * When `current` had an unvisited neighbour, at least one cell is visited.
   */
  method Kill(maze: Maze, ghost root: nat, list: seq<nat>, current: nat) returns (walked: seq<nat>, last: nat)
    requires maze.Valid() && maze.Carving(root, list) && current in list
    modifies maze, maze.visited, maze.walls
    ensures maze.Carving(root, walked) && last in walked
    ensures !maze.HasUnvisitedNeighbour(last)
    ensures maze.Unvisited() <= old(maze.Unvisited()) && |maze.Unvisited()| <= old(|maze.Unvisited()|)
    ensures old(maze.HasUnvisitedNeighbour(current)) ==> |maze.Unvisited()| < old(|maze.Unvisited()|)
    ensures list <= walked && old(maze.connections) <= maze.connections
    ensures maze.connections == old(maze.connections) + Steps([current] + walked[|list|..])
    ensures last == ([current] + walked[|list|..])[|walked| - |list|]
  {
    walked, last := list, current;
    ghost var path := [current];
    ghost var start := maze.connections;
    while true
      invariant maze.Valid() && maze.Carving(root, walked) && last in walked
      invariant |path| >= 1 && path[0] == current && walked == list + path[1..] && last == path[|path| - 1]
      invariant maze.connections == start + Steps(path)
      invariant maze.Unvisited() <= old(maze.Unvisited()) && |maze.Unvisited()| <= old(|maze.Unvisited()|)
      invariant |maze.Unvisited()| < old(|maze.Unvisited()|)
        || (last == current && forall i :: 0 <= i < |maze.sides| ==> maze.visited[i] == old(maze.visited[i]))
      decreases |maze.Unvisited()|
    {
      var neighbour := maze.UnvisitedNeighbour(last);
      if neighbour.None? {
        break;
      }
      var cell := neighbour.value;
      Advance(maze, root, walked, last, cell);
      LogExtend(start, path, cell);
      WalkExtend(list, path, cell);
      walked, last, path := walked + [cell], cell, path + [cell];
    }
    WalkSplit(list, path);
  }

  /**
   * The hunt phase: pick cells of `list` at random; the first one found with
   * an unvisited neighbour becomes the current cell, and each one found
   * without is removed.  Nothing in the maze changes.
   */
  method Hunt(maze: Maze, ghost root: nat, list: seq<nat>) returns (found: bool, remaining: seq<nat>, current: nat)
    requires maze.Valid() && maze.Carving(root, list)
    ensures maze.Carving(root, remaining) && |remaining| <= |list|
    ensures forall c :: c in remaining ==> c in list
    ensures found ==> current in remaining && maze.HasUnvisitedNeighbour(current)
    ensures !found ==> remaining == []
  {
    remaining := list;
    while |remaining| > 0
      invariant maze.Valid() && maze.Carving(root, remaining) && |remaining| <= |list|
      invariant forall c :: c in remaining ==> c in list
      decreases |remaining|
    {
      var index :| 0 <= index < |remaining|;
      var cell := remaining[index];
      assert cell in remaining;
      var neighbour := maze.UnvisitedNeighbour(cell);
      if neighbour.Some? {
        return true, remaining, cell;
      }
      maze.CarvingDrop(root, remaining, index);
      RemoveAtDistinct(remaining, index);
      remaining := remaining[..index] + remaining[index + 1..];
    }
    return false, remaining, 0;
  }

  /**
   * Puts every wall back and carves a spanning tree of the cells reachable
   * from a random root, out of a maze whose cells are all unvisited.
   */
  method Generate(maze: Maze) returns (ghost root: nat)
    requires maze.Valid()
    requires forall i :: 0 <= i < |maze.sides| ==> !maze.visited[i]
    modifies maze, maze.visited, maze.walls
    ensures maze.IsTreeFrom(root) && maze.WallsMatch()
    ensures |maze.connections| + 1 == |Reached(root, maze.connections)| == |maze.Visited()|
    ensures forall i :: 0 <= i < |maze.sides| && maze.visited[i] ==> maze.CarvedFrom(root, i)
    ensures forall i :: 0 <= i < |maze.sides| && maze.visited[i] ==> !maze.HasUnvisitedNeighbour(i)
    ensures Connected(maze.sides) ==> forall i :: 0 <= i < |maze.sides| ==> maze.visited[i]
  {
    maze.FillAll();
    var initial :| 0 <= initial < |maze.sides|;
    root := initial;
    maze.visited[initial] := true;
    var visitedCells: seq<nat> := [initial];
    var current := initial;
    assert Reached(root, maze.connections) == {root};
    while true
      invariant maze.Valid() && maze.Carving(root, visitedCells) && current in visitedCells
      decreases 2 * |maze.Unvisited()| + (if maze.HasUnvisitedNeighbour(current) then 0 else 1)
    {
      ghost var before := 2 * |maze.Unvisited()| + (if maze.HasUnvisitedNeighbour(current) then 0 else 1);
      visitedCells, current := Kill(maze, root, visitedCells, current);
      var found;
      found, visitedCells, current := Hunt(maze, root, visitedCells);
      if !found {
        break;
      }
      assert 2 * |maze.Unvisited()| < before;
    }
    maze.TreeSummary(root);
    if Connected(maze.sides) {
      maze.FinishedMeansAllVisited(root);
    }
  }
}
