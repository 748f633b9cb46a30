/** `get_continuous_bodies`: a breadth-first flood fill over the non-empty
    cells of the sheet, joining right/down/left/up neighbours. The bodies it
    finds are exactly the connected components of the non-empty cells. */
module Bodies {
  import opened Sheet

  /** The number of grid cells, in row-major order, not yet seen: the flood
      fill's termination measure. */
  function CountUnseen(cells: seq<Coord>, seen: set<Coord>): nat
  {
    if cells == [] then 0
    else CountUnseen(cells[..|cells| - 1], seen) + (if cells[|cells| - 1] in seen then 0 else 1)
  }

  function Unseen(data: Grid, seen: set<Coord>): nat
  {
    CountUnseen(GridList(|data|, Width(data)), seen)
  }

  lemma {:induction false} UnseenMonotone(cells: seq<Coord>, seen: set<Coord>, n: Coord)
    ensures CountUnseen(cells, seen + {n}) <= CountUnseen(cells, seen)
  {
    if cells != [] {
      UnseenMonotone(cells[..|cells| - 1], seen, n);
    }
  }

  lemma {:induction false} UnseenDrops(cells: seq<Coord>, seen: set<Coord>, n: Coord)
    requires n in cells && n !in seen
    ensures CountUnseen(cells, seen + {n}) < CountUnseen(cells, seen)
  {
    var init := cells[..|cells| - 1];
    UnseenMonotone(init, seen, n);
    if cells[|cells| - 1] != n {
      assert n in init;
      UnseenDrops(init, seen, n);
    }
  }

  lemma InGridListed(data: Grid, n: Coord)
    requires InGrid(data, n)
    ensures n in GridList(|data|, Width(data))
  {
    GridListMembers(|data|, Width(data));
  }

  /** Every occupied neighbour of `b` has been seen. */
  ghost predicate Settled(data: Grid, b: Coord, seen: set<Coord>)
  {
    forall n :: Adjacent(b, n) && Occupied(data, n) ==> n in seen
  }

  /** The inner loop of `flood_fill`: every unseen neighbour of `current` is
      marked seen, added to the body and queued; `added` lists them. */
  method VisitNeighbors(data: Grid, current: Coord, body0: set<Coord>, seen0: set<Coord>, toVisit0: seq<Coord>)
    returns (body: set<Coord>, seen: set<Coord>, toVisit: seq<Coord>, ghost added: seq<Coord>)
    ensures seen == seen0 + (set q | q in added) && body == body0 + (set q | q in added)
    ensures toVisit == toVisit0 + added
    ensures forall q :: q in added ==> Adjacent(current, q) && Occupied(data, q) && q !in seen0
    ensures Settled(data, current, seen)
    ensures 2 * Unseen(data, seen) + |added| <= 2 * Unseen(data, seen0)
  {
    body, seen, toVisit, added := body0, seen0, toVisit0, [];
    var ns := Neighbors(data, current);
    for j := 0 to |ns|
      invariant seen == seen0 + (set q | q in added) && body == body0 + (set q | q in added)
      invariant toVisit == toVisit0 + added
      invariant forall q :: q in added ==> Adjacent(current, q) && Occupied(data, q) && q !in seen0
      invariant forall k :: 0 <= k < j ==> ns[k] in seen
      invariant 2 * Unseen(data, seen) + |added| <= 2 * Unseen(data, seen0)
    {
      var neighbor := ns[j];
      if neighbor !in seen {
        assert neighbor in ns;
        InGridListed(data, neighbor);
        UnseenDrops(GridList(|data|, Width(data)), seen, neighbor);
        seen := seen + {neighbor};
        body := body + {neighbor};
        toVisit := toVisit + [neighbor];
        added := added + [neighbor];
      }
    }
  }

  /** The state of one flood fill started at `start` with `visited` already
      seen: `body` is what it has added, all of it reachable from `start`. */
  ghost predicate Filling(data: Grid, start: Coord, visited: set<Coord>, body: set<Coord>,
                          seen: set<Coord>, toVisit: seq<Coord>)
  {
    seen == visited + body && body * visited == {}
    && start in body && (forall b :: b in body ==> Reachable(data, start, b))
    && (forall q :: q in toVisit ==> q in body)
  }

  lemma VisitKeepsFilling(data: Grid, start: Coord, visited: set<Coord>, current: Coord,
                          body: set<Coord>, seen: set<Coord>, rest: seq<Coord>, added: seq<Coord>)
    requires Filling(data, start, visited, body, seen, rest) && current in body
    requires forall q :: q in added ==> Adjacent(current, q) && Occupied(data, q) && q !in seen
    ensures Filling(data, start, visited, body + (set q | q in added), seen + (set q | q in added), rest + added)
  {
    forall q | q in added
      ensures Reachable(data, start, q)
    {
      ReachableStep(data, start, current, q);
    }
  }

  lemma VisitKeepsSettled(data: Grid, body: set<Coord>, toVisit: seq<Coord>, seen0: set<Coord>,
                          added: seq<Coord>, seen: set<Coord>)
    requires toVisit != [] && seen0 <= seen && Settled(data, toVisit[0], seen)
    requires forall b :: b in body && b !in toVisit ==> Settled(data, b, seen0)
    ensures forall b :: b in body + (set q | q in added) && b !in toVisit[1..] + added ==> Settled(data, b, seen)
  {
    forall b | b in body + (set q | q in added) && b !in toVisit[1..] + added
      ensures Settled(data, b, seen)
    {
      assert b !in added && b in body;
      if b != toVisit[0] {
        assert b !in toVisit by {
          assert forall q :: q in toVisit ==> q == toVisit[0] || q in toVisit[1..];
        }
        assert Settled(data, b, seen0);
      }
    }
  }

  /** `flood_fill(start, visited)`. The source adds to the caller's `visited`
      set; here the grown set is returned as `visitedOut`. */
  method FloodFill(data: Grid, start: Coord, visited: set<Coord>)
    returns (body: set<Coord>, visitedOut: set<Coord>)
    requires Rectangular(data) && InGrid(data, start)
    ensures start in visited || !Occupied(data, start) ==> body == {} && visitedOut == visited
    ensures start !in visited && Occupied(data, start) ==> start in body
    ensures visitedOut == visited + body && body * visited == {}
    ensures forall b :: b in body ==> Reachable(data, start, b)
    ensures forall b :: b in body ==> Settled(data, b, visitedOut)
  {
    if start in visited || IsCellEmpty(data[start.row][start.col]) {
      return {}, visited;
    }
    ReachableSelf(data, start);
    body := {start};
    var toVisit := [start];
    visitedOut := visited + {start};
    while toVisit != []
      invariant Filling(data, start, visited, body, visitedOut, toVisit)
      invariant forall b :: b in body && b !in toVisit ==> Settled(data, b, visitedOut)
      decreases 2 * Unseen(data, visitedOut) + |toVisit|
    {
      var current := toVisit[0];
      var rest := toVisit[1..];
      ghost var body0, seen0, queue0 := body, visitedOut, toVisit;
      ghost var added;
      body, visitedOut, toVisit, added := VisitNeighbors(data, current, body, visitedOut, rest);
      VisitKeepsFilling(data, start, visited, current, body0, seen0, rest, added);
      VisitKeepsSettled(data, body0, queue0, seen0, added, visitedOut);
    }
  }

  /** Every cell of some body in `bodies`. */
  function Union(bodies: seq<set<Coord>>): set<Coord>
  {
    if bodies == [] then {} else Union(bodies[..|bodies| - 1]) + bodies[|bodies| - 1]
  }

  lemma {:induction false} UnionMembers(bodies: seq<set<Coord>>)
    ensures forall k :: 0 <= k < |bodies| ==> bodies[k] <= Union(bodies)
    ensures forall v :: v in Union(bodies) ==> exists k :: 0 <= k < |bodies| && v in bodies[k]
  {
    if bodies != [] {
      var init := bodies[..|bodies| - 1];
      UnionMembers(init);
      assert forall k :: 0 <= k < |init| ==> init[k] == bodies[k];
    }
  }

  /** The bodies found so far are non-empty and `visited` is their union. */
  ghost predicate Covering(bodies: seq<set<Coord>>, visited: set<Coord>)
  {
    (forall k :: 0 <= k < |bodies| ==> bodies[k] != {}) && visited == Union(bodies)
  }

  /** Each body is the component of each of its cells. */
  ghost predicate AreComponents(data: Grid, bodies: seq<set<Coord>>)
  {
    forall k, c :: 0 <= k < |bodies| && c in bodies[k] ==> bodies[k] == Component(data, c) && Occupied(data, c)
  }

  predicate Disjoint(bodies: seq<set<Coord>>)
  {
    forall j, k :: 0 <= j < k < |bodies| ==> bodies[j] * bodies[k] == {}
  }

  /** The partial result of `get_continuous_bodies`: `visited` is the union
      of the bodies found so far, each is the component of each of its
      cells, they do not overlap, and `visited` is neighbour-closed. */
  ghost predicate Partition(data: Grid, bodies: seq<set<Coord>>, visited: set<Coord>)
  {
    Covering(bodies, visited) && AreComponents(data, bodies) && Disjoint(bodies)
    && NeighbourClosed(data, visited)
  }

  lemma NotInBoth(a: set<Coord>, b: set<Coord>, x: Coord)
    requires a * b == {} && x in a
    ensures x !in b
  {
    assert x !in a * b;
  }

  lemma ClosedStep(data: Grid, s: set<Coord>, c: Coord, n: Coord)
    requires NeighbourClosed(data, s) && c in s && Adjacent(c, n) && Occupied(data, n)
    ensures n in s
  {
  }

  /** A body found from an unvisited start, when everything visited before
      is neighbour-closed, is the start's whole component. */
  lemma FilledBodyIsComponent(data: Grid, start: Coord, visited: set<Coord>, body: set<Coord>)
    requires NeighbourClosed(data, visited)
    requires start in body && body * visited == {}
    requires forall b :: b in body ==> Reachable(data, start, b)
    requires forall b :: b in body ==> Settled(data, b, visited + body)
    ensures body == Component(data, start)
    ensures NeighbourClosed(data, visited + body)
  {
    ComponentClosed(data, start);
    forall b | b in body
      ensures b in Component(data, start)
    {
      var p :| IsPath(data, p) && p[0] == start && p[|p| - 1] == b;
      assert Occupied(data, p[|p| - 1]);
      assert b == Coord(b.row, b.col);
    }
    forall b, n | b in body && Adjacent(b, n) && Occupied(data, n)
      ensures n in body
    {
      assert Settled(data, b, visited + body);
      NotInBoth(body, visited, b);
      if n in visited {
        assert Adjacent(n, b) && Occupied(data, b);
        ClosedStep(data, visited, n, b);
        assert false;
      }
    }
    ClosedHoldsComponent(data, body, start);
  }

  lemma AddCovering(bodies: seq<set<Coord>>, visited: set<Coord>, body: set<Coord>)
    requires Covering(bodies, visited) && body != {}
    ensures Covering(bodies + [body], visited + body)
  {
    assert (bodies + [body])[..|bodies|] == bodies;
  }

  lemma AddComponent(data: Grid, bodies: seq<set<Coord>>, start: Coord, body: set<Coord>)
    requires AreComponents(data, bodies) && body == Component(data, start)
    ensures AreComponents(data, bodies + [body])
  {
    ComponentClosed(data, start);
    forall d | d in body
      ensures body == Component(data, d)
    {
      ComponentOfMember(data, start, d);
    }
  }

  lemma AddDisjoint(bodies: seq<set<Coord>>, body: set<Coord>)
    requires Disjoint(bodies) && body * Union(bodies) == {}
    ensures Disjoint(bodies + [body])
  {
    var visited := Union(bodies);
    UnionMembers(bodies);
    var bs := bodies + [body];
    forall j, k | 0 <= j < k < |bs|
      ensures bs[j] * bs[k] == {}
    {
      if k == |bodies| {
        assert bs[j] <= visited;
      }
    }
  }

  lemma AddBody(data: Grid, bodies: seq<set<Coord>>, visited: set<Coord>, start: Coord, body: set<Coord>)
    requires Partition(data, bodies, visited)
    requires start in body && body * visited == {}
    requires forall b :: b in body ==> Reachable(data, start, b)
    requires forall b :: b in body ==> Settled(data, b, visited + body)
    ensures Partition(data, bodies + [body], visited + body)
  {
    FilledBodyIsComponent(data, start, visited, body);
    AddCovering(bodies, visited, body);
    AddComponent(data, bodies, start, body);
    AddDisjoint(bodies, body);
  }

  /** One turn of the scan of `get_continuous_bodies`: a non-empty cell
      not yet visited starts a new body. */
  method ScanCell(data: Grid, coord: Coord, bodies: seq<set<Coord>>, visited: set<Coord>)
    returns (bodiesOut: seq<set<Coord>>, visitedOut: set<Coord>)
    requires Rectangular(data) && InGrid(data, coord) && Partition(data, bodies, visited)
    ensures Partition(data, bodiesOut, visitedOut)
    ensures visited <= visitedOut
    ensures Occupied(data, coord) ==> coord in visitedOut
  {
    bodiesOut, visitedOut := bodies, visited;
    if coord !in visited && !IsCellEmpty(data[coord.row][coord.col]) {
      var body, seen := FloodFill(data, coord, visited);
      if body != {} {
        AddBody(data, bodies, visited, coord, body);
        bodiesOut := bodies + [body];
      }
      visitedOut := seen;
    }
  }

  /** Every non-empty cell before row `r`, column `c` in reading order has
      been visited. */
  ghost predicate ScannedBefore(data: Grid, visited: set<Coord>, r: int, c: int)
  {
    forall d :: Occupied(data, d) && (d.row < r || (d.row == r && d.col < c)) ==> d in visited
  }

  /** One row of the scan of `get_continuous_bodies`, left to right. */
  method ScanRow(data: Grid, r: nat, bodies: seq<set<Coord>>, visited: set<Coord>)
    returns (bodiesOut: seq<set<Coord>>, visitedOut: set<Coord>)
    requires Rectangular(data) && r < |data| && Partition(data, bodies, visited)
    requires ScannedBefore(data, visited, r, 0)
    ensures Partition(data, bodiesOut, visitedOut)
    ensures ScannedBefore(data, visitedOut, r + 1, 0)
  {
    bodiesOut, visitedOut := bodies, visited;
    for c := 0 to |data[0]|
      invariant Partition(data, bodiesOut, visitedOut)
      invariant ScannedBefore(data, visitedOut, r, c)
    {
      bodiesOut, visitedOut := ScanCell(data, Coord(r, c), bodiesOut, visitedOut);
    }
  }

  /** The bodies of the sheet: each is the connected component of each of
      its cells, the bodies do not overlap, and every non-empty cell lies in
      one of them. */
  method ContinuousBodies(data: Grid) returns (bodies: seq<set<Coord>>)
    requires Rectangular(data)
    ensures forall k :: 0 <= k < |bodies| ==> bodies[k] != {}
    ensures forall k, c :: 0 <= k < |bodies| && c in bodies[k] ==> bodies[k] == Component(data, c) && Occupied(data, c)
    ensures forall j, k :: 0 <= j < k < |bodies| ==> bodies[j] * bodies[k] == {}
    ensures forall c :: Occupied(data, c) ==> exists k :: 0 <= k < |bodies| && c in bodies[k]
  {
    var visited: set<Coord> := {};
    bodies := [];
    for r := 0 to |data|
      invariant Partition(data, bodies, visited)
      invariant ScannedBefore(data, visited, r, 0)
    {
      bodies, visited := ScanRow(data, r, bodies, visited);
    }
    UnionMembers(bodies);
  }
}
