/**
 * The maze as the generators see it: `n` cells identified by 0 .. n-1, each
 * with a fixed list of sides that either face a neighbouring cell or lie on
 * the maze boundary.  Every cell carries a `visited` flag and a bitmask of
 * its walls: bit `k` is set while the wall on side `k` is present (the
 * drawing code draws a side exactly when `hasSide` holds).
 */
module MazeGraph {
  import opened Basics

  /** `sides[i][k]` is the cell on side `k` of cell `i`, or `None` on the boundary. */
  type Sides = seq<seq<Option<nat>>>

  /**
   * A neighbour relation a tiling can produce: at least one cell, at most
   * eight sides per cell, no cell next to itself, no two sides of a cell
   * facing the same neighbour, and adjacency is symmetric.
   */
  ghost predicate WellFormed(sides: Sides) {
    && |sides| >= 1
    && (forall i :: 0 <= i < |sides| ==> |sides[i]| <= MaxSides)
    && (forall i, k :: 0 <= i < |sides| && 0 <= k < |sides[i]| && sides[i][k].Some? ==>
          sides[i][k].value < |sides| && sides[i][k].value != i && Some(i) in sides[sides[i][k].value])
    && (forall i, k, k' :: 0 <= i < |sides| && 0 <= k < |sides[i]| && 0 <= k' < |sides[i]|
          && k != k' && sides[i][k].Some?
          ==> sides[i][k] != sides[i][k'])
  }

  /** True when `connections` joined `a` and `b`, in either direction. */
  ghost predicate Linked(connections: seq<(nat, nat)>, a: nat, b: nat) {
    (a, b) in connections || (b, a) in connections
  }

  /** The root and every cell a connection was made to. */
  ghost function Reached(root: nat, connections: seq<(nat, nat)>): set<nat> {
    {root} + set k | 0 <= k < |connections| :: connections[k].1
  }

  /**
   * Each connection joins a cell reached before it to a cell not reached
   * before it: the connections form a tree over `Reached`, grown leaf by leaf.
   */
  ghost predicate GrowsTree(root: nat, connections: seq<(nat, nat)>) {
    forall k :: 0 <= k < |connections| ==>
      connections[k].0 in Reached(root, connections[..k]) &&
      connections[k].1 !in Reached(root, connections[..k])
  }

  lemma ReachedAppend(root: nat, cs: seq<(nat, nat)>, e: (nat, nat))
    ensures Reached(root, cs + [e]) == Reached(root, cs) + {e.1}
  {
    var cs' := cs + [e];
    forall c | c in Reached(root, cs') ensures c in Reached(root, cs) + {e.1} {
      if c != root && c != e.1 {
        var k :| 0 <= k < |cs'| && cs'[k].1 == c;
        assert k < |cs| && cs[k].1 == c;
      }
    }
    forall c | c in Reached(root, cs) ensures c in Reached(root, cs') {
      if c != root {
        var k :| 0 <= k < |cs| && cs[k].1 == c;
        assert cs'[k].1 == c;
      }
    }
    assert cs'[|cs|].1 == e.1;
  }

  /** Connecting a reached cell to an unreached one keeps the tree growing. */
  lemma {:induction false} GrowsTreeExtend(root: nat, cs: seq<(nat, nat)>, a: nat, b: nat)
    requires GrowsTree(root, cs)
    requires a in Reached(root, cs) && b !in Reached(root, cs)
    ensures GrowsTree(root, cs + [(a, b)])
    ensures Reached(root, cs + [(a, b)]) == Reached(root, cs) + {b}
  {
    var cs' := cs + [(a, b)];
    ReachedAppend(root, cs, (a, b));
    forall k | 0 <= k < |cs'|
      ensures cs'[k].0 in Reached(root, cs'[..k]) && cs'[k].1 !in Reached(root, cs'[..k])
    {
      if k < |cs| {
        assert cs'[..k] == cs[..k];
      } else {
        assert cs'[..k] == cs;
      }
    }
  }

  /** A tree grown leaf by leaf has one cell more than it has connections. */
  lemma {:induction false} TreeSize(root: nat, cs: seq<(nat, nat)>)
    requires GrowsTree(root, cs)
    ensures |Reached(root, cs)| == |cs| + 1
  {
    if |cs| == 0 {
      assert Reached(root, cs) == {root};
    } else {
      var init := cs[..|cs| - 1];
      var last := cs[|cs| - 1];
      assert cs == init + [last];
      forall k | 0 <= k < |init|
        ensures init[k].0 in Reached(root, init[..k]) && init[k].1 !in Reached(root, init[..k])
      {
        assert init[..k] == cs[..k];
      }
      TreeSize(root, init);
      ReachedAppend(root, init, last);
      assert cs[..|cs| - 1] == init;
    }
  }

  /** A prefix of a log grown leaf by leaf is grown leaf by leaf. */
  lemma GrowsTreePrefix(root: nat, cs: seq<(nat, nat)>, n: nat)
    requires GrowsTree(root, cs) && n <= |cs|
    ensures GrowsTree(root, cs[..n])
  {
    forall k | 0 <= k < n
      ensures cs[..n][k].0 in Reached(root, cs[..n][..k]) && cs[..n][k].1 !in Reached(root, cs[..n][..k])
    {
      assert cs[..n][..k] == cs[..k];
    }
  }

  /** `p` leads from `p[0]` to its last cell, each step along a logged connection. */
  ghost predicate LinkWalk(cs: seq<(nat, nat)>, p: seq<nat>) {
    |p| >= 1 && forall t :: 0 <= t < |p| - 1 ==> Linked(cs, p[t], p[t + 1])
  }

  /** A walk along logged connections stays one when the log grows. */
  lemma LinkWalkGrowLog(cs: seq<(nat, nat)>, e: (nat, nat), p: seq<nat>)
    requires LinkWalk(cs, p)
    ensures LinkWalk(cs + [e], p)
  {
  }

  /** A walk along logged connections extends by one more logged step. */
  lemma LinkWalkAppend(cs: seq<(nat, nat)>, p: seq<nat>, i: nat)
    requires LinkWalk(cs, p) && Linked(cs, p[|p| - 1], i)
    ensures LinkWalk(cs, p + [i])
  {
    var q := p + [i];
    forall t | 0 <= t < |q| - 1 ensures Linked(cs, q[t], q[t + 1]) {
      if t < |p| - 1 {
        assert q[t] == p[t] && q[t + 1] == p[t + 1];
      }
    }
  }

  /** The walk along logged connections from the root of a tree to a cell it reaches. */
  lemma {:induction false} LinkWalkTo(root: nat, cs: seq<(nat, nat)>, i: nat) returns (p: seq<nat>)
    requires GrowsTree(root, cs) && i in Reached(root, cs)
    ensures LinkWalk(cs, p) && p[0] == root && p[|p| - 1] == i
    decreases |cs|
  {
    if i == root {
      p := [root];
    } else {
      var n := |cs|;
      var init, last := cs[..n - 1], cs[n - 1];
      assert cs == init + [last];
      GrowsTreePrefix(root, cs, n - 1);
      ReachedAppend(root, init, last);
      if i in Reached(root, init) {
        p := LinkWalkTo(root, init, i);
        LinkWalkGrowLog(init, last, p);
      } else {
        assert cs[..n - 1] == init;
        var q := LinkWalkTo(root, init, last.0);
        LinkWalkGrowLog(init, last, q);
        LinkWalkAppend(cs, q, i);
        p := q + [i];
      }
    }
  }

  /** `p` is a walk from `p[0]` to its last cell, stepping between neighbours. */
  ghost predicate IsWalk(sides: Sides, p: seq<nat>) {
    && |p| >= 1
    && (forall t :: 0 <= t < |p| ==> p[t] < |sides|)
    && (forall t :: 0 <= t < |p| - 1 ==> Some(p[t + 1]) in sides[p[t]])
  }

  ghost predicate Reachable(sides: Sides, i: nat, j: nat) {
    exists p :: IsWalk(sides, p) && p[0] == i && p[|p| - 1] == j
  }

  /** Every cell can be reached from every other through neighbours. */
  ghost predicate Connected(sides: Sides) {
    forall i, j :: 0 <= i < |sides| && 0 <= j < |sides| ==> Reachable(sides, i, j)
  }

  /** No cell marked in `marked` has an unmarked neighbour. */
  ghost predicate ClosedUnder(sides: Sides, marked: seq<bool>) {
    && |marked| == |sides|
    && forall i, k :: 0 <= i < |sides| && 0 <= k < |sides[i]| && marked[i] && sides[i][k].Some?
                      && sides[i][k].value < |marked|
                      ==> marked[sides[i][k].value]
  }

  /** A walk that starts inside a closed set never leaves it. */
  lemma {:induction false} WalkStaysInside(sides: Sides, marked: seq<bool>, p: seq<nat>)
    requires ClosedUnder(sides, marked) && IsWalk(sides, p) && marked[p[0]]
    ensures marked[p[|p| - 1]]
  {
    if |p| > 1 {
      var q := p[..|p| - 1];
      assert IsWalk(sides, q);
      WalkStaysInside(sides, marked, q);
      var u, v := p[|p| - 2], p[|p| - 1];
      assert Some(v) in sides[u];
      var k :| 0 <= k < |sides[u]| && sides[u][k] == Some(v);
    }
  }

  /** Over a connected maze, a closed set holding one cell holds every cell. */
  lemma ClosedSetCoversConnected(sides: Sides, marked: seq<bool>, root: nat)
    requires Connected(sides) && ClosedUnder(sides, marked)
    requires root < |sides| && marked[root]
    ensures forall i :: 0 <= i < |sides| ==> marked[i]
  {
    forall i | 0 <= i < |sides| ensures marked[i] {
      assert Reachable(sides, root, i);
      var p :| IsWalk(sides, p) && p[0] == root && p[|p| - 1] == i;
      WalkStaysInside(sides, marked, p);
    }
  }

  /** No cell appears twice in a work list. */
  ghost predicate Distinct(list: seq<nat>) {
    forall s, t :: 0 <= s < t < |list| ==> list[s] != list[t]
  }

  /** Removing position `i` from a list without repeats drops exactly `list[i]`. */
  lemma RemoveAtDistinct(list: seq<nat>, i: nat)
    requires Distinct(list) && i < |list|
    ensures Distinct(list[..i] + list[i + 1..])
    ensures forall c :: c in list[..i] + list[i + 1..] <==> c in list && c != list[i]
  {
    var r := list[..i] + list[i + 1..];
    assert forall t :: 0 <= t < |r| ==> r[t] == (if t < i then list[t] else list[t + 1]);
    forall c | c in list && c != list[i] ensures c in r {
      var t :| 0 <= t < |list| && list[t] == c;
      assert r[if t < i then t else t - 1] == c;
    }
  }

  class Maze {
    /** The neighbour on each side of each cell. */
    const sides: Sides
    /** The generators' per-cell `visited` flags. */
    const visited: array<bool>
    /** The per-cell wall bitmasks. */
    const walls: array<Mask>
    /** Every `connectWith(a, b)` made since the walls were last filled, in order. */
    ghost var connections: seq<(nat, nat)>

    ghost predicate Valid() {
      && WellFormed(sides)
      && visited.Length == |sides| && walls.Length == |sides|
      && visited as object != walls as object
    }

    /** The walls are present exactly on the sides no connection went through. */
    ghost predicate WallsMatch()
      reads this, walls
      requires Valid()
    {
      forall i :: 0 <= i < |sides| ==> CellWallsMatch(i)
    }

    /**
     * The walls of cell `i` are present exactly on the sides no connection
     * went through, and no bit beyond the cell's sides is set.
     */
    ghost predicate CellWallsMatch(i: nat)
      reads this, walls
      requires Valid() && i < |sides|
    {
      && (forall k :: 0 <= k < |sides[i]| ==>
            (HasSide(walls[i], k) <==> !(sides[i][k].Some? && Linked(connections, i, sides[i][k].value))))
      && (forall k :: |sides[i]| <= k < MaxSides ==> !HasSide(walls[i], k))
    }

    /** Matching walls never set a bit beyond a cell's own sides. */
    lemma WallsWithinSides()
      requires Valid() && WallsMatch()
      ensures forall i :: 0 <= i < |sides| ==> walls[i] & !FullMask(|sides[i]|) == 0
    {
      forall i | 0 <= i < |sides| ensures walls[i] & !FullMask(|sides[i]|) == 0 {
        assert CellWallsMatch(i);
        WithinFullMask(walls[i], |sides[i]|);
      }
    }

    /** Every logged connection joins a cell to one of its neighbours. */
    ghost predicate LogJoinsNeighbours()
      reads this
      requires Valid()
    {
      forall k :: 0 <= k < |connections| ==>
        connections[k].0 < |sides| && Some(connections[k].1) in sides[connections[k].0]
    }

    /**
     * The visited cells are the cells reached by a tree grown from `root`
     * out of connections between neighbours.
     */
    ghost predicate IsTreeFrom(root: nat)
      reads this, visited
      requires Valid()
    {
      && root < |sides|
      && LogJoinsNeighbours()
      && GrowsTree(root, connections)
      && forall i :: 0 <= i < |sides| ==> (visited[i] <==> i in Reached(root, connections))
    }

    /** The visited cells. */
    ghost function Visited(): set<nat>
      reads visited
      requires Valid()
    {
      set i | 0 <= i < |sides| && visited[i]
    }

    /** The visited cells are exactly the cells the tree reaches. */
    lemma VisitedIsReached(root: nat)
      requires Valid() && IsTreeFrom(root)
      ensures Visited() == Reached(root, connections)
    {
      forall c | c in Reached(root, connections) ensures c in Visited() {
        if c != root {
          var k :| 0 <= k < |connections| && connections[k].1 == c;
          var a := connections[k].0;
          var j :| 0 <= j < |sides[a]| && sides[a][j] == Some(c);
        }
      }
    }

    /** The wall on the side of `a` that faces `b` has been removed. */
    ghost predicate OpenPassage(a: nat, b: nat)
      reads this, walls
      requires Valid() && a < |sides|
    {
      exists k :: 0 <= k < |sides[a]| && sides[a][k] == Some(b) && !HasSide(walls[a], k)
    }

    /** `p` walks from `p[0]` to its last cell through removed walls only. */
    ghost predicate CarvedWalk(p: seq<nat>)
      reads this, walls
      requires Valid()
    {
      && |p| >= 1
      && (forall t :: 0 <= t < |p| ==> p[t] < |sides|)
      && (forall t :: 0 <= t < |p| - 1 ==> OpenPassage(p[t], p[t + 1]))
    }

    /** A walk through removed walls leads from `root` to `i`. */
    ghost predicate CarvedFrom(root: nat, i: nat)
      reads this, walls
      requires Valid()
    {
      exists p :: CarvedWalk(p) && p[0] == root && p[|p| - 1] == i
    }

    /** A logged connection between neighbours left no wall between them. */
    lemma LinkedIsOpen(u: nat, v: nat)
      requires Valid() && LogJoinsNeighbours() && WallsMatch() && Linked(connections, u, v)
      ensures u < |sides| && v < |sides| && OpenPassage(u, v)
    {
      if (u, v) in connections {
        var k :| 0 <= k < |connections| && connections[k] == (u, v);
        assert Some(v) in sides[u];
      } else {
        var k :| 0 <= k < |connections| && connections[k] == (v, u);
        assert Some(u) in sides[v];
        var j :| 0 <= j < |sides[v]| && sides[v][j] == Some(u);
      }
      var j :| 0 <= j < |sides[u]| && sides[u][j] == Some(v);
      assert CellWallsMatch(u);
    }

    /** Every visited cell is joined to the root through removed walls. */
    lemma CarvedFromRoot(root: nat, i: nat)
      requires Valid() && IsTreeFrom(root) && WallsMatch() && i < |sides| && visited[i]
      ensures CarvedFrom(root, i)
    {
      var p := LinkWalkTo(root, connections, i);
      forall t | 0 <= t < |p| - 1 ensures p[t] < |sides| {
        LinkedIsOpen(p[t], p[t + 1]);
      }
      forall t | 0 <= t < |p| - 1 ensures OpenPassage(p[t], p[t + 1]) {
        LinkedIsOpen(p[t], p[t + 1]);
      }
      assert CarvedWalk(p);
    }

    /**
     * A tree grown from `root` has one connection fewer than visited cells,
     * and every visited cell is joined to the root through removed walls.
     */
    lemma TreeSummary(root: nat)
      requires Valid() && IsTreeFrom(root) && WallsMatch()
      ensures |connections| + 1 == |Reached(root, connections)| == |Visited()|
      ensures forall i :: 0 <= i < |sides| && visited[i] ==> CarvedFrom(root, i)
    {
      TreeSize(root, connections);
      VisitedIsReached(root);
      forall i | 0 <= i < |sides| && visited[i] ensures CarvedFrom(root, i) {
        CarvedFromRoot(root, i);
      }
    }

    /**
     * When no visited cell has an unvisited neighbour and the maze is
     * connected, every cell is visited.
     */
    lemma FinishedMeansAllVisited(root: nat)
      requires Valid() && Connected(sides) && root < |sides| && visited[root]
      requires forall i :: 0 <= i < |sides| && visited[i] ==> !HasUnvisitedNeighbour(i)
      ensures forall i :: 0 <= i < |sides| ==> visited[i]
    {
      var marked := visited[..];
      forall i, k | 0 <= i < |sides| && 0 <= k < |sides[i]| && marked[i] && sides[i][k].Some?
        ensures marked[sides[i][k].value]
      {
        assert !HasUnvisitedNeighbour(i);
      }
      ClosedSetCoversConnected(sides, marked, root);
    }

    /** A maze as constructed: every wall present, no cell visited. */
    constructor (sides: Sides)
      requires WellFormed(sides)
      ensures Valid() && this.sides == sides && fresh(visited) && fresh(walls)
      ensures forall i :: 0 <= i < |sides| ==> !visited[i] && walls[i] == FullMask(|sides[i]|)
      ensures connections == [] && WallsMatch()
    {
      this.sides := sides;
      visited := new bool[|sides|](_ => false);
      walls := new Mask[|sides|](i requires 0 <= i < |sides| && |sides[i]| <= MaxSides => FullMask(|sides[i]|));
      connections := [];
    }

    /**
     * The state a generator keeps while carving from `root` with the work list
     * `list`: the visited cells form a tree, every listed cell is visited and
     * listed once, and a visited cell that left the list has no unvisited
     * neighbour.
     */
    ghost predicate Carving(root: nat, list: seq<nat>)
      reads this, visited, walls
      requires Valid()
    {
      && IsTreeFrom(root) && WallsMatch()
      && (forall c :: c in list ==> c < |sides| && visited[c])
      && Distinct(list)
      && (forall i :: 0 <= i < |sides| && visited[i] && i !in list ==> !HasUnvisitedNeighbour(i))
    }

    /** A listed cell without unvisited neighbours may leave the list. */
    lemma CarvingDrop(root: nat, list: seq<nat>, index: nat)
      requires Valid() && Carving(root, list) && index < |list| && list[index] < |sides|
      requires !HasUnvisitedNeighbour(list[index])
      ensures Carving(root, list[..index] + list[index + 1..])
    {
      var rest := list[..index] + list[index + 1..];
      RemoveAtDistinct(list, index);
      forall c | c in rest ensures c < |sides| && visited[c] {
        assert c in list;
      }
      forall i | 0 <= i < |sides| && visited[i] && i !in rest ensures !HasUnvisitedNeighbour(i) {
        assert i !in list || i == list[index];
      }
    }

    /** The cells not visited yet. */
    ghost function Unvisited(): set<nat>
      reads visited
      requires Valid()
    {
      set i | 0 <= i < |sides| && !visited[i]
    }

    predicate HasUnvisitedNeighbour(i: nat)
      reads visited
      requires Valid() && i < |sides|
    {
      exists k :: 0 <= k < |sides[i]| && sides[i][k].Some? && !visited[sides[i][k].value]
    }

    /** Puts every wall back and clears every `visited` flag. */
    method Reset()
      requires Valid()
      modifies this, visited, walls
      ensures forall i :: 0 <= i < |sides| ==> !visited[i] && walls[i] == FullMask(|sides[i]|)
      ensures connections == [] && WallsMatch()
    {
      connections := [];
      for i := 0 to |sides|
        invariant connections == []
        invariant forall j :: 0 <= j < i ==> !visited[j]
        invariant forall j :: 0 <= j < i ==> walls[j] == FullMask(|sides[j]|)
      {
        visited[i] := false;
        walls[i] := FullMask(|sides[i]|);
      }
    }

    /** Puts every wall back; the `visited` flags are left alone. */
    method FillAll()
      requires Valid()
      modifies this, walls
      ensures forall i :: 0 <= i < |sides| ==> walls[i] == FullMask(|sides[i]|)
      ensures connections == [] && WallsMatch()
    {
      connections := [];
      for i := 0 to |sides|
        invariant connections == []
        invariant forall j :: 0 <= j < i ==> walls[j] == FullMask(|sides[j]|)
      {
        walls[i] := FullMask(|sides[i]|);
      }
    }

    /** The side of `a` that faces its neighbour `b`, found by scanning the sides. */
    method SideToward(a: nat, b: nat) returns (k: nat)
      requires Valid() && a < |sides| && Some(b) in sides[a]
      ensures k < |sides[a]| && sides[a][k] == Some(b)
    {
      k := 0;
      while sides[a][k] != Some(b)
        invariant k <= |sides[a]| && Some(b) in sides[a][k..]
        decreases |sides[a]| - k
      {
        k := k + 1;
      }
    }

    /** Some neighbour of `i` that is not visited yet, or `None` when there is none. */
    method UnvisitedNeighbour(i: nat) returns (r: Option<nat>)
      requires Valid() && i < |sides|
      ensures r.Some? ==> Some(r.value) in sides[i] && r.value < |sides| && !visited[r.value]
      ensures r.None? <==> !HasUnvisitedNeighbour(i)
    {
      for k := 0 to |sides[i]|
        invariant forall t :: 0 <= t < k && sides[i][t].Some? ==> visited[sides[i][t].value]
      {
        if sides[i][k].Some? && !visited[sides[i][k].value] {
          return sides[i][k];
        }
      }
      return None;
    }

    /**
     * Connects the visited cell `a` to its unvisited neighbour `b` and marks
     * `b` visited: the tree grows by the leaf `b`, and a cell that had no
     * unvisited neighbour still has none.
     */
    method ConnectAndVisit(ghost root: nat, a: nat, b: nat)
      requires Valid() && IsTreeFrom(root) && WallsMatch()
      requires a < |sides| && visited[a] && Some(b) in sides[a] && b < |sides| && !visited[b]
      modifies this, walls, visited
      ensures IsTreeFrom(root) && WallsMatch()
      ensures connections == old(connections) + [(a, b)]
      ensures forall i :: 0 <= i < |sides| ==> (visited[i] <==> old(visited[i]) || i == b)
      ensures forall i :: 0 <= i < |sides| && old(!HasUnvisitedNeighbour(i)) ==> !HasUnvisitedNeighbour(i)
      ensures b in old(Unvisited()) && Unvisited() == old(Unvisited()) - {b}
    {
      GrowsTreeExtend(root, connections, a, b);
      ConnectWith(a, b);
      visited[b] := true;
    }

    /** Removes the wall between neighbours `a` and `b`, on both cells. */
    method ConnectWith(a: nat, b: nat)
      requires Valid() && a < |sides| && Some(b) in sides[a]
      modifies this, walls
      ensures connections == old(connections) + [(a, b)]
      ensures forall i :: 0 <= i < |sides| && i != a && i != b ==> walls[i] == old(walls[i])
      ensures forall k :: 0 <= k < |sides[a]| ==>
        (HasSide(walls[a], k) <==> old(HasSide(walls[a], k)) && sides[a][k] != Some(b))
      ensures b < |sides| && forall k :: 0 <= k < |sides[b]| ==>
        (HasSide(walls[b], k) <==> old(HasSide(walls[b], k)) && sides[b][k] != Some(a))
      ensures old(WallsMatch()) ==> WallsMatch()
    {
      var ka := SideToward(a, b);
      assert b < |sides| && Some(a) in sides[b];
      var kb := SideToward(b, a);
      walls[a] := OpenSide(walls[a], ka);
      walls[b] := OpenSide(walls[b], kb);
      connections := connections + [(a, b)];
      if old(WallsMatch()) {
        forall i | 0 <= i < |sides| ensures CellWallsMatch(i) {
          assert old(CellWallsMatch(i));
          forall k | 0 <= k < |sides[i]|
            ensures HasSide(walls[i], k) <==> !(sides[i][k].Some? && Linked(connections, i, sides[i][k].value))
          {
            assert old(HasSide(walls[i], k)) <==>
              !(sides[i][k].Some? && Linked(old(connections), i, sides[i][k].value));
            if sides[i][k].Some? {
              var j := sides[i][k].value;
              assert Linked(connections, i, j) <==> Linked(old(connections), i, j) || (i == a && j == b) || (i == b && j == a);
            }
          }
        }
      }
    }
  }
}
