/** Day 23: the longest hike. Open cells of the trail map are nodes of a
    networkx graph (one-way on icy slopes for part 1, two-way for part 2);
    corridors are collapsed into weighted edges between junctions, and the
    answer is the heaviest simple path from the top-row entrance to the
    bottom-row exit. */
module Day23 {
  import opened Common

  /** A cell: column `x` of row `y`, rows counted downwards. */
  datatype Pos = Pos(x: int, y: int)

  /** One entry of an adjacency list: the neighbour and the edge's weight. */
  datatype Step = Step(to: Pos, weight: nat)

  /** A networkx graph: each node's adjacency list in insertion order, and
      whether edges are one-way (`DiGraph`) or two-way (`Graph`). */
  datatype Graph = Graph(directed: bool, adj: map<Pos, seq<Step>>)

  /** The exceptions the solver can end in, plus the step bound of the model. */
  datatype Error = KeyError | ValueError | NodeNotFound | OutOfFuel

  datatype Result<T> = Ok(value: T) | Err(error: Error)

  // ---------------------------------------------------------------------
  // Longest simple path (`max(path_weight(p) for p in all_simple_paths)`)
  // ---------------------------------------------------------------------

  /** Total weight of a path given as its steps. */
  function Weight(steps: seq<Step>): nat
  {
    if steps == [] then 0 else steps[0].weight + Weight(steps[1..])
  }

  /** `steps` leads from `s` to `t` along adjacency lists of `g`; every node
      on the way, `s` and `t` included, is a node of `g` that is neither in
      `seen` nor met earlier on the path. */
  ghost predicate SimplePath(g: Graph, s: Pos, steps: seq<Step>, t: Pos, seen: set<Pos>)
    decreases |steps|
  {
    s in g.adj && s !in seen &&
    if steps == [] then s == t
    else steps[0] in g.adj[s] && SimplePath(g, steps[0].to, steps[1..], t, seen + {s})
  }

  lemma DropOne(keys: set<Pos>, seen: set<Pos>, u: Pos)
    requires u in keys && u !in seen
    ensures |keys - (seen + {u})| < |keys - seen|
  {
    assert (keys - (seen + {u})) + {u} == keys - seen;
  }

  /** Heaviest simple path from `u` to `t` that avoids `seen`, if any. */
  function Longest(g: Graph, u: Pos, t: Pos, seen: set<Pos>): Option<nat>
    decreases |g.adj.Keys - seen|, 0, 0
  {
    if u !in g.adj || u in seen then None
    else if u == t then Some(0)
    else
      DropOne(g.adj.Keys, seen, u);
      Best(g, u, 0, t, seen + {u})
  }

  /** Heaviest continuation through entries `i..` of `u`'s adjacency list. */
  function Best(g: Graph, u: Pos, i: nat, t: Pos, seen: set<Pos>): Option<nat>
    requires u in g.adj && i <= |g.adj[u]|
    decreases |g.adj.Keys - seen|, 1, |g.adj[u]| - i
  {
    if i == |g.adj[u]| then None
    else
      var rest := Best(g, u, i + 1, t, seen);
      var st := g.adj[u][i];
      match Longest(g, st.to, t, seen)
      case None => rest
      case Some(w) =>
        if rest.Some? && rest.value >= st.weight + w then rest else Some(st.weight + w)
  }

  lemma WeightCons(st: Step, steps: seq<Step>)
    ensures Weight([st] + steps) == st.weight + Weight(steps)
  {
    assert ([st] + steps)[1..] == steps;
  }

  /** Whatever `Longest` reports is the weight of a simple path. */
  lemma {:induction false} LongestSound(g: Graph, u: Pos, t: Pos, seen: set<Pos>) returns (steps: seq<Step>)
    requires Longest(g, u, t, seen).Some?
    ensures SimplePath(g, u, steps, t, seen)
    ensures Weight(steps) == Longest(g, u, t, seen).value
    decreases |g.adj.Keys - seen|, 0, 0
  {
    if u == t {
      steps := [];
    } else {
      DropOne(g.adj.Keys, seen, u);
      steps := BestSound(g, u, 0, t, seen + {u});
    }
  }

  lemma {:induction false} BestSound(g: Graph, u: Pos, i: nat, t: Pos, seen: set<Pos>) returns (steps: seq<Step>)
    requires u in g.adj && i <= |g.adj[u]|
    requires Best(g, u, i, t, seen).Some?
    ensures |steps| > 0 && steps[0] in g.adj[u]
    ensures SimplePath(g, steps[0].to, steps[1..], t, seen)
    ensures Weight(steps) == Best(g, u, i, t, seen).value
    decreases |g.adj.Keys - seen|, 1, |g.adj[u]| - i
  {
    var rest := Best(g, u, i + 1, t, seen);
    var st := g.adj[u][i];
    var here := Longest(g, st.to, t, seen);
    if here.Some? && !(rest.Some? && rest.value >= st.weight + here.value) {
      var tail := LongestSound(g, st.to, t, seen);
      steps := [st] + tail;
      assert steps[1..] == tail;
      WeightCons(st, tail);
    } else {
      steps := BestSound(g, u, i + 1, t, seen);
    }
  }

  /** A simple path ends at a node of the graph outside `seen`. */
  lemma {:induction false} PathEnd(g: Graph, s: Pos, steps: seq<Step>, t: Pos, seen: set<Pos>)
    requires SimplePath(g, s, steps, t, seen)
    ensures t in g.adj && t !in seen
    decreases |steps|
  {
    if steps != [] {
      PathEnd(g, steps[0].to, steps[1..], t, seen + {s});
    }
  }

  /** Every simple path weighs at most what `Longest` reports. */
  lemma {:induction false} LongestComplete(g: Graph, u: Pos, steps: seq<Step>, t: Pos, seen: set<Pos>)
    requires SimplePath(g, u, steps, t, seen)
    ensures Longest(g, u, t, seen).Some?
    ensures Weight(steps) <= Longest(g, u, t, seen).value
    decreases |g.adj.Keys - seen|, 0, 0
  {
    if steps != [] {
      PathEnd(g, steps[0].to, steps[1..], t, seen + {u});
      DropOne(g.adj.Keys, seen, u);
      BestComplete(g, u, 0, steps, t, seen + {u});
    }
  }

  lemma {:induction false} BestComplete(g: Graph, u: Pos, i: nat, steps: seq<Step>, t: Pos, seen: set<Pos>)
    requires u in g.adj && i <= |g.adj[u]|
    requires |steps| > 0 && steps[0] in g.adj[u][i..]
    requires SimplePath(g, steps[0].to, steps[1..], t, seen)
    ensures Best(g, u, i, t, seen).Some?
    ensures Weight(steps) <= Best(g, u, i, t, seen).value
    decreases |g.adj.Keys - seen|, 1, |g.adj[u]| - i
  {
    var st := g.adj[u][i];
    assert steps == [steps[0]] + steps[1..];
    WeightCons(steps[0], steps[1..]);
    if st == steps[0] {
      LongestComplete(g, st.to, steps[1..], t, seen);
    } else {
      assert steps[0] in g.adj[u][i + 1..];
      BestComplete(g, u, i + 1, steps, t, seen);
    }
  }

  /** `Longest` is the maximum of the path weights over all simple paths
      from `s` to `t`, and fails exactly when there is none. */
  lemma LongestIsMaximum(g: Graph, s: Pos, t: Pos)
    ensures Longest(g, s, t, {}).Some? <==> exists steps :: SimplePath(g, s, steps, t, {})
    ensures forall steps :: SimplePath(g, s, steps, t, {}) ==> Weight(steps) <= Longest(g, s, t, {}).value
    ensures Longest(g, s, t, {}).Some? ==>
              exists steps :: SimplePath(g, s, steps, t, {}) && Weight(steps) == Longest(g, s, t, {}).value
  {
    forall steps | SimplePath(g, s, steps, t, {})
      ensures Longest(g, s, t, {}).Some? && Weight(steps) <= Longest(g, s, t, {}).value
    {
      LongestComplete(g, s, steps, t, {});
    }
    if Longest(g, s, t, {}).Some? {
      var steps := LongestSound(g, s, t, {});
      assert SimplePath(g, s, steps, t, {});
      assert exists p :: SimplePath(g, s, p, t, {});
    }
    assert Longest(g, s, t, {}).None? ==> !exists p :: SimplePath(g, s, p, t, {});
  }

  // ---------------------------------------------------------------------
  // The trail map as a graph of cells (`parse`, before the corridors go)
  // ---------------------------------------------------------------------

  /** The character at a cell; cells off the map read as forest. */
  function Char(lines: seq<string>, p: Pos): char
  {
    if 0 <= p.y < |lines| && 0 <= p.x < |lines[p.y]| then lines[p.y][p.x] else '#'
  }

  /** Every character other than `#` is a node. */
  predicate Open(lines: seq<string>, p: Pos)
  {
    Char(lines, p) != '#'
  }

  function Cells(lines: seq<string>): set<Pos>
  {
    set y, x | 0 <= y < |lines| && 0 <= x < |lines[y]| && lines[y][x] != '#' :: Pos(x, y)
  }

  lemma CellsOpen(lines: seq<string>, p: Pos)
    ensures p in Cells(lines) <==> Open(lines, p)
  {
    if Open(lines, p) {
      assert lines[p.y][p.x] != '#';
    }
  }

  const Right := Pos(1, 0)
  const Down := Pos(0, 1)
  const Left := Pos(-1, 0)
  const Up := Pos(0, -1)

  function Add(p: Pos, d: Pos): Pos
  {
    Pos(p.x + d.x, p.y + d.y)
  }

  /** The move that leads from `p` to `q`. */
  function Dir(p: Pos, q: Pos): Pos
  {
    Pos(q.x - p.x, q.y - p.y)
  }

  /** Moves out of a cell of terrain `c`: the `directions` table on icy
      slopes, where any other character is a KeyError, and all four moves
      without slopes, listed in the order an undirected `Graph` ends up with
      its neighbours when the nodes are visited row by row. */
  function Moves(c: char, icy: bool): Option<seq<Pos>>
  {
    if !icy then Some([Up, Left, Right, Down])
    else if c == '.' then Some([Right, Down, Left, Up])
    else if c == '>' then Some([Right])
    else if c == '<' then Some([Left])
    else if c == 'v' then Some([Down])
    else if c == '^' then Some([Up])
    else None
  }

  /** Unit-weight edges from `p` to the open cells one move away. */
  function CellSteps(lines: seq<string>, p: Pos, moves: seq<Pos>): (r: seq<Step>)
    ensures forall st :: st in r <==> st.weight == 1 && Open(lines, st.to) && Dir(p, st.to) in moves
  {
    if moves == [] then []
    else
      var q := Add(p, moves[0]);
      assert Dir(p, q) == moves[0];
      (if Open(lines, q) then [Step(q, 1)] else []) + CellSteps(lines, p, moves[1..])
  }

  /** Every node's terrain has an entry in the moves table. */
  predicate Known(lines: seq<string>, icy: bool)
  {
    forall p | p in Cells(lines) :: Moves(Char(lines, p), icy).Some?
  }

  /** The graph `parse` builds before collapsing corridors: a `DiGraph` on
      icy slopes and a `Graph` without them, with unit weights. */
  function CellGraph(lines: seq<string>, icy: bool): Result<Graph>
  {
    if !Known(lines, icy) then Err(KeyError)
    else Ok(Graph(icy, map p | p in Cells(lines) :: CellSteps(lines, p, Moves(Char(lines, p), icy).value)))
  }

  /** The nodes are the open cells, and an edge leads from a node to each
      open neighbour its terrain allows, with weight 1; unknown terrain is
      a KeyError only on icy slopes. */
  lemma CellGraphEdges(lines: seq<string>, icy: bool)
    ensures CellGraph(lines, icy).Err? <==>
              icy && exists p :: Open(lines, p) && Moves(Char(lines, p), icy).None?
    ensures CellGraph(lines, icy).Ok? ==>
              var g := CellGraph(lines, icy).value;
              g.directed == icy &&
              (forall p :: p in g.adj <==> Open(lines, p)) &&
              forall p, st :: p in g.adj ==>
                (st in g.adj[p] <==>
                   st.weight == 1 && Open(lines, st.to) && Dir(p, st.to) in Moves(Char(lines, p), icy).value)
  {
    forall p
      ensures p in Cells(lines) <==> Open(lines, p)
    {
      CellsOpen(lines, p);
    }
  }

  /** Without slopes every edge can be walked back. */
  lemma DrySymmetric(lines: seq<string>, p: Pos, st: Step)
    requires CellGraph(lines, false).Ok?
    requires p in CellGraph(lines, false).value.adj && st in CellGraph(lines, false).value.adj[p]
    ensures st.to in CellGraph(lines, false).value.adj
    ensures Step(p, 1) in CellGraph(lines, false).value.adj[st.to]
  {
    CellGraphEdges(lines, false);
  }

  /** Slopes only take edges away: the icy graph has the same nodes and a
      subset of the edges of the graph without slopes. */
  lemma IcyWithinDry(lines: seq<string>, p: Pos, st: Step)
    requires CellGraph(lines, true).Ok?
    ensures CellGraph(lines, false).Ok?
    ensures p in CellGraph(lines, true).value.adj <==> p in CellGraph(lines, false).value.adj
    ensures p in CellGraph(lines, true).value.adj && st in CellGraph(lines, true).value.adj[p] ==>
              st in CellGraph(lines, false).value.adj[p]
  {
    assert Known(lines, false);
    var gi := CellGraph(lines, true).value;
    var gd := CellGraph(lines, false).value;
    if p in gi.adj && st in gi.adj[p] {
      var c := Char(lines, p);
      assert gi.adj[p] == CellSteps(lines, p, Moves(c, true).value);
      assert gd.adj[p] == CellSteps(lines, p, Moves(c, false).value);
      var d := Dir(p, st.to);
      assert d in Moves(c, true).value;
      MovesWithin(c, d);
      assert st.weight == 1 && Open(lines, st.to) && d in Moves(c, false).value;
    }
  }

  /** Every move a slope allows is a move without slopes. */
  lemma MovesWithin(c: char, d: Pos)
    requires Moves(c, true).Some? && d in Moves(c, true).value
    ensures d in Moves(c, false).value
  {
  }

  lemma {:induction false} IcyPathIsDry(lines: seq<string>, s: Pos, steps: seq<Step>, t: Pos, seen: set<Pos>)
    requires CellGraph(lines, true).Ok?
    requires SimplePath(CellGraph(lines, true).value, s, steps, t, seen)
    ensures CellGraph(lines, false).Ok?
    ensures SimplePath(CellGraph(lines, false).value, s, steps, t, seen)
    decreases |steps|
  {
    IcyWithinDry(lines, s, if steps == [] then Step(s, 0) else steps[0]);
    if steps != [] {
      IcyPathIsDry(lines, steps[0].to, steps[1..], t, seen + {s});
    }
  }

  /** On the uncollapsed maps, the longest hike with slopes is never longer
      than the longest without them. */
  lemma SlopesNeverLonger(lines: seq<string>, s: Pos, t: Pos)
    requires CellGraph(lines, true).Ok?
    requires Longest(CellGraph(lines, true).value, s, t, {}).Some?
    ensures CellGraph(lines, false).Ok?
    ensures Longest(CellGraph(lines, false).value, s, t, {}).Some?
    ensures Longest(CellGraph(lines, true).value, s, t, {}).value
              <= Longest(CellGraph(lines, false).value, s, t, {}).value
  {
    var steps := LongestSound(CellGraph(lines, true).value, s, t, {});
    IcyPathIsDry(lines, s, steps, t, {});
    LongestComplete(CellGraph(lines, false).value, s, steps, t, {});
  }

  // ---------------------------------------------------------------------
  // networkx graph updates
  // ---------------------------------------------------------------------

  /** `g[u][v]["weight"]` for one adjacency dict: the first entry for `v`. */
  function Lookup(steps: seq<Step>, v: Pos): Option<nat>
  {
    if steps == [] then None
    else if steps[0].to == v then Some(steps[0].weight)
    else Lookup(steps[1..], v)
  }

  /** Setting the entry for `v` in one adjacency dict: an existing entry is
      overwritten where it stands, a new one goes at the end. */
  function Put(steps: seq<Step>, v: Pos, w: nat): (r: seq<Step>)
    ensures Lookup(r, v) == Some(w)
    ensures forall x :: x != v ==> Lookup(r, x) == Lookup(steps, x)
    ensures forall st :: st in r ==> st == Step(v, w) || st in steps
  {
    if steps == [] then [Step(v, w)]
    else if steps[0].to == v then [Step(v, w)] + steps[1..]
    else [steps[0]] + Put(steps[1..], v, w)
  }

  /** `g[v]`, empty for a node not yet in the graph. */
  function Get(g: Graph, v: Pos): seq<Step>
  {
    if v in g.adj then g.adj[v] else []
  }

  /** `g.add_edge(u, v, weight=w)`: both ends become nodes; a two-way graph
      records the edge in both adjacency dicts. */
  function AddEdge(g: Graph, u: Pos, v: Pos, w: nat): (r: Graph)
    ensures r.directed == g.directed
    ensures r.adj.Keys == g.adj.Keys + {u, v}
  {
    var a := g.adj[u := Put(Get(g, u), v, w)];
    var b :=
      if g.directed then (if v in a then a else a[v := []])
      else a[v := Put(if v in a then a[v] else [], u, w)];
    Graph(g.directed, b)
  }

  /** After `add_edge(u, v, weight=w)` the edge weighs `w` (both ways in a
      two-way graph), the adjacency of every other node is as it was, and
      no entry appears besides the new edge. */
  lemma AddEdgeSets(g: Graph, u: Pos, v: Pos, w: nat)
    ensures var r := AddEdge(g, u, v, w);
            Lookup(r.adj[u], v) == Some(w) &&
            (!g.directed ==> Lookup(r.adj[v], u) == Some(w)) &&
            (forall x :: x in g.adj && x != u && x != v ==> r.adj[x] == g.adj[x]) &&
            forall x, st :: x in r.adj && st in r.adj[x] ==>
              st in Get(g, x) || (x == u && st == Step(v, w)) || (!g.directed && x == v && st == Step(u, w))
  {
  }

  /** One adjacency dict with the entries into `gone` deleted. */
  function Drop(steps: seq<Step>, gone: set<Pos>): (r: seq<Step>)
    ensures forall st :: st in r <==> st in steps && st.to !in gone
    ensures forall x :: x !in gone ==> Lookup(r, x) == Lookup(steps, x)
  {
    if steps == [] then []
    else if steps[0].to in gone then Drop(steps[1..], gone)
    else
      var rest := Drop(steps[1..], gone);
      assert ([steps[0]] + rest)[1..] == rest;
      [steps[0]] + rest
  }

  /** `g.remove_nodes_from(gone)`: the nodes go, with every edge into them. */
  function RemoveNodes(g: Graph, gone: set<Pos>): (r: Graph)
    ensures r.directed == g.directed
    ensures forall x :: x in r.adj <==> x in g.adj && x !in gone
  {
    Graph(g.directed, map x | x in g.adj && x !in gone :: Drop(g.adj[x], gone))
  }

  /** After `remove_nodes_from(gone)` a remaining node keeps exactly its
      entries into remaining nodes, with their weights. */
  lemma RemoveNodesEdges(g: Graph, gone: set<Pos>)
    ensures var r := RemoveNodes(g, gone);
            (forall x, st :: x in r.adj ==> (st in r.adj[x] <==> st in g.adj[x] && st.to !in gone)) &&
            forall x, y :: x in r.adj && y !in gone ==> Lookup(r.adj[x], y) == Lookup(g.adj[x], y)
  {
  }

  // ---------------------------------------------------------------------
  // Collapsing corridors (the `while q:` loop of `parse`)
  // ---------------------------------------------------------------------

  /** The cells of a list, as a set. */
  function Elems(cells: seq<Pos>): set<Pos>
  {
    set c | c in cells
  }

  /** Every node some edge leads to. */
  ghost function Targets(g: Graph): set<Pos>
  {
    set x, st | x in g.adj && st in g.adj[x] :: st.to
  }

  /** Every edge leads to a node. */
  ghost predicate Closed(g: Graph)
  {
    forall x, st :: x in g.adj && st in g.adj[x] ==> st.to in g.adj
  }

  /** Every edge stands for at least one step. */
  ghost predicate Positive(g: Graph)
  {
    forall x, st :: x in g.adj && st in g.adj[x] ==> st.weight >= 1
  }

  /** `set(g[v]) - avoid`. */
  function Exits(g: Graph, v: Pos, avoid: set<Pos>): set<Pos>
    requires v in g.adj
  {
    set st | st in g.adj[v] && st.to !in avoid :: st.to
  }

  /** Index of the first entry leading outside `avoid`; `|steps|` if none does. */
  function FirstExit(steps: seq<Step>, avoid: set<Pos>): (k: nat)
    ensures k <= |steps|
    ensures forall j :: 0 <= j < k ==> steps[j].to in avoid
    ensures k < |steps| ==> steps[k].to !in avoid
  {
    if steps == [] || steps[0].to !in avoid then 0 else 1 + FirstExit(steps[1..], avoid)
  }

  /** When there is exactly one way out, the first entry that leaves `avoid`
      is it. */
  lemma SoleExit(g: Graph, v: Pos, avoid: set<Pos>)
    requires v in g.adj && |Exits(g, v, avoid)| == 1
    ensures FirstExit(g.adj[v], avoid) < |g.adj[v]|
    ensures Exits(g, v, avoid) == {g.adj[v][FirstExit(g.adj[v], avoid)].to}
  {
    var steps := g.adj[v];
    var k := FirstExit(steps, avoid);
    var e :| e in Exits(g, v, avoid);
    var st :| st in steps && st.to !in avoid && st.to == e;
    var n := steps[k].to;
    assert n in Exits(g, v, avoid);
    assert |Exits(g, v, avoid) - {n}| == 0;
  }

  /** The one way on from `there` outside `avoid`, when there is exactly one. */
  function Forward(g: Graph, avoid: set<Pos>, there: Pos): (r: Option<Pos>)
    requires there in g.adj
    ensures r.Some? <==> |Exits(g, there, avoid)| == 1
    ensures r.Some? ==> Exits(g, there, avoid) == {r.value}
    ensures r.Some? ==> r.value !in avoid && r.value in Targets(g)
  {
    if |Exits(g, there, avoid)| != 1 then None
    else
      SoleExit(g, there, avoid);
      var st := g.adj[there][FirstExit(g.adj[there], avoid)];
      assert st.to in Targets(g);
      Some(st.to)
  }

  lemma Shrinks(g: Graph, cells: seq<Pos>, n: Pos)
    requires n in Targets(g) && n !in Elems(cells)
    ensures |Targets(g) - Elems(cells + [n])| < |Targets(g) - Elems(cells)|
  {
    assert Elems(cells + [n]) == Elems(cells) + {n};
    DropOne(Targets(g), Elems(cells), n);
  }

  /** Lines 38-41: `cells` are the cells consumed so far, in order; while
      the last one has exactly one neighbour that is neither consumed nor
      visited, step there. None is the KeyError of a cell that is no node. */
  function Corridor(g: Graph, visited: set<Pos>, cells: seq<Pos>): (r: Option<seq<Pos>>)
    requires |cells| > 0
    ensures r.Some? ==> |cells| <= |r.value|
    decreases |Targets(g) - Elems(cells)|
  {
    var there := cells[|cells| - 1];
    if there !in g.adj then None
    else
      match Forward(g, Elems(cells) + visited, there)
      case None => Some(cells)
      case Some(n) =>
        Shrinks(g, cells, n);
        Corridor(g, visited, cells + [n])
  }

  /** From cell `k` the walk had exactly one way on that was neither
      consumed nor visited, and took it. */
  ghost predicate Forced(g: Graph, visited: set<Pos>, cells: seq<Pos>, k: int)
    requires 0 <= k < |cells| - 1
  {
    cells[k] in g.adj && Exits(g, cells[k], Elems(cells[..k + 1]) + visited) == {cells[k + 1]}
  }

  /** The walk ends at a node with no way on, or with several. */
  ghost predicate Stuck(g: Graph, visited: set<Pos>, cells: seq<Pos>)
    requires |cells| > 0
  {
    cells[|cells| - 1] in g.adj && |Exits(g, cells[|cells| - 1], Elems(cells) + visited)| != 1
  }

  /** A corridor walk extends the cells it was given. */
  lemma {:induction false} CorridorExtends(g: Graph, visited: set<Pos>, cells: seq<Pos>, r: seq<Pos>)
    requires |cells| > 0 && Corridor(g, visited, cells) == Some(r)
    ensures r[..|cells|] == cells
    decreases |Targets(g) - Elems(cells)|
  {
    var next := Forward(g, Elems(cells) + visited, cells[|cells| - 1]);
    if next.Some? {
      var n := next.value;
      Shrinks(g, cells, n);
      CorridorExtends(g, visited, cells + [n], r);
      assert r[..|cells|] == r[..|cells| + 1][..|cells|];
    }
  }

  /** A corridor walk takes every forced step. */
  lemma {:induction false} CorridorForced(g: Graph, visited: set<Pos>, cells: seq<Pos>, r: seq<Pos>)
    requires |cells| > 0 && Corridor(g, visited, cells) == Some(r)
    ensures forall k :: |cells| - 1 <= k < |r| - 1 ==> Forced(g, visited, r, k)
    decreases |Targets(g) - Elems(cells)|
  {
    var there := cells[|cells| - 1];
    var next := Forward(g, Elems(cells) + visited, there);
    if next.Some? {
      var n := next.value;
      Shrinks(g, cells, n);
      CorridorForced(g, visited, cells + [n], r);
      CorridorExtends(g, visited, cells + [n], r);
      ForcedHead(g, visited, cells, n, r);
    }
  }

  /** The step a walk takes when `Forward` allows exactly one is forced. */
  lemma ForcedHead(g: Graph, visited: set<Pos>, cells: seq<Pos>, n: Pos, r: seq<Pos>)
    requires |cells| > 0 && cells[|cells| - 1] in g.adj
    requires Forward(g, Elems(cells) + visited, cells[|cells| - 1]) == Some(n)
    requires |cells| + 1 <= |r| && r[..|cells| + 1] == cells + [n]
    ensures Forced(g, visited, r, |cells| - 1)
  {
    assert r[..|cells|] == r[..|cells| + 1][..|cells|];
    assert r[|cells|] == r[..|cells| + 1][|cells|];
  }

  /** A corridor walk stops where no step is forced. */
  lemma {:induction false} CorridorStuck(g: Graph, visited: set<Pos>, cells: seq<Pos>, r: seq<Pos>)
    requires |cells| > 0 && Corridor(g, visited, cells) == Some(r)
    ensures Stuck(g, visited, r)
    decreases |Targets(g) - Elems(cells)|
  {
    var next := Forward(g, Elems(cells) + visited, cells[|cells| - 1]);
    if next.Some? {
      Shrinks(g, cells, next.value);
      CorridorStuck(g, visited, cells + [next.value], r);
    }
  }

  /** A forced step follows an edge to a cell that is neither visited nor
      met before on the walk. */
  lemma ForcedStep(g: Graph, visited: set<Pos>, cells: seq<Pos>, k: int)
    requires 0 <= k < |cells| - 1 && Forced(g, visited, cells, k)
    ensures Lookup(g.adj[cells[k]], cells[k + 1]).Some?
    ensures cells[k + 1] !in visited
    ensures forall j :: 0 <= j <= k ==> cells[j] != cells[k + 1]
  {
    var e := cells[k + 1];
    assert e in Exits(g, cells[k], Elems(cells[..k + 1]) + visited);
    var st :| st in g.adj[cells[k]] && st.to !in Elems(cells[..k + 1]) + visited && st.to == e;
    LookupFinds(g.adj[cells[k]], st);
    forall j | 0 <= j <= k
      ensures cells[j] != e
    {
      assert cells[j] == cells[..k + 1][j];
    }
  }

  lemma LookupFinds(steps: seq<Step>, st: Step)
    requires st in steps
    ensures Lookup(steps, st.to).Some?
  {
    if steps[0] != st {
      LookupFinds(steps[1..], st);
    }
  }

  /** A queued pair `(here, there)`. */
  datatype Pending = Pending(here: Pos, there: Pos)

  /** The graph, the visited set and the queue of the collapsing loop. */
  datatype State = State(g: Graph, visited: set<Pos>, queue: seq<Pending>)

  /** `(there, n) for n in g[there] if n not in visited`. */
  function Fanout(there: Pos, steps: seq<Step>, visited: set<Pos>): (r: seq<Pending>)
    ensures forall k :: 0 <= k < |r| ==> r[k].here == there && r[k].there !in visited
    ensures forall st :: st in steps && st.to !in visited ==> Pending(there, st.to) in r
  {
    if steps == [] then []
    else (if steps[0].to in visited then [] else [Pending(there, steps[0].to)]) + Fanout(there, steps[1..], visited)
  }

  /** Lines 36-41: the cells walked from the first queued pair. */
  function Walked(s: State): Option<seq<Pos>>
    requires s.queue != []
  {
    Corridor(s.g, s.visited + {s.queue[0].here}, [s.queue[0].there])
  }

  /** Lines 44-45: join `here` to the last walked cell by an edge weighted
      by the number of cells walked, then delete the walked cells that are
      not in `seen`. */
  function Joined(g: Graph, here: Pos, cells: seq<Pos>, seen: set<Pos>): (r: Graph)
    requires |cells| > 0
    ensures r.directed == g.directed
    ensures forall x :: x in r.adj <==> (x in g.adj || x == here || x == cells[|cells| - 1]) && !(x in Elems(cells) && x !in seen)
  {
    RemoveNodes(AddEdge(g, here, cells[|cells| - 1], |cells|), Elems(cells) - seen)
  }

  /** Lines 43-46, given the walked cells: join the ends, mark both
      visited, and queue the unvisited neighbours of the far end. */
  function Advance(s: State, cells: seq<Pos>): State
    requires s.queue != [] && |cells| > 0
  {
    var there := cells[|cells| - 1];
    var seen := s.visited + {s.queue[0].here, there};
    var g := Joined(s.g, s.queue[0].here, cells, seen);
    State(g, seen, s.queue[1..] + Fanout(there, Get(g, there), seen))
  }

  /** One pass of the loop body, lines 36-46. */
  function Collapse(s: State): Result<State>
    requires s.queue != []
  {
    match Walked(s)
    case None => Err(KeyError)
    case Some(cells) => Ok(Advance(s, cells))
  }

  /** The `while q:` loop, run for at most `fuel` passes. */
  function Compress(s: State, fuel: nat): Result<Graph>
    decreases fuel
  {
    if s.queue == [] then Ok(s.g)
    else if fuel == 0 then Err(OutOfFuel)
    else
      match Collapse(s)
      case Err(e) => Err(e)
      case Ok(next) => Compress(next, fuel - 1)
  }

  /** The walk starts at the queued cell, takes every forced step and
      stops where no step is forced. */
  lemma CollapseWalk(s: State)
    requires s.queue != [] && Walked(s).Some?
    ensures var cells := Walked(s).value;
            var visited := s.visited + {s.queue[0].here};
            cells[0] == s.queue[0].there &&
            (forall k :: 0 <= k < |cells| - 1 ==> Forced(s.g, visited, cells, k)) &&
            Stuck(s.g, visited, cells)
  {
    var cells := Walked(s).value;
    var visited := s.visited + {s.queue[0].here};
    CorridorExtends(s.g, visited, [s.queue[0].there], cells);
    CorridorForced(s.g, visited, [s.queue[0].there], cells);
    CorridorStuck(s.g, visited, [s.queue[0].there], cells);
    assert cells[0] == cells[..1][0];
  }

  /** The two ends of the walk are joined by an edge (both ways in a
      two-way graph) weighted by the number of cells walked, and every
      walked cell outside `seen` is gone. */
  lemma JoinedEdge(g: Graph, here: Pos, cells: seq<Pos>, seen: set<Pos>)
    requires |cells| > 0 && here in seen && cells[|cells| - 1] in seen
    ensures var r := Joined(g, here, cells, seen);
            var there := cells[|cells| - 1];
            here in r.adj && there in r.adj &&
            Lookup(r.adj[here], there) == Some(|cells|) &&
            (!g.directed ==> Lookup(r.adj[there], here) == Some(|cells|)) &&
            forall c :: c in cells && c !in seen ==> c !in r.adj
  {
    AddEdgeSets(g, here, cells[|cells| - 1], |cells|);
    RemoveNodesEdges(AddEdge(g, here, cells[|cells| - 1], |cells|), Elems(cells) - seen);
  }

  /** Joining and deleting keep edges leading to nodes and weighing at least one. */
  lemma JoinedKeeps(g: Graph, here: Pos, cells: seq<Pos>, seen: set<Pos>)
    requires |cells| > 0 && Closed(g) && Positive(g)
    ensures Closed(Joined(g, here, cells, seen)) && Positive(Joined(g, here, cells, seen))
  {
    var g1 := AddEdge(g, here, cells[|cells| - 1], |cells|);
    forall x, st | x in g1.adj && st in g1.adj[x]
      ensures st.to in g1.adj && st.weight >= 1
    {
      if st in Get(g, x) {
        assert x in g.adj;
      }
    }
    RemoveNodesEdges(g1, Elems(cells) - seen);
  }

  /** What the loop keeps true: edges lead to nodes and weigh at least
      one, visited cells stay nodes, and the start is visited or about to
      be. */
  ghost predicate Kept(s: State, start: Pos)
  {
    Closed(s.g) && Positive(s.g) && s.visited <= s.g.adj.Keys &&
    (start in s.visited || (s.queue != [] && s.queue[0].here == start))
  }

  /** The state after one pass, given the walked cells, is still `Kept`. */
  lemma KeptAfter(s: State, start: Pos, cells: seq<Pos>)
    requires Kept(s, start) && s.queue != [] && |cells| > 0
    ensures Kept(Advance(s, cells), start)
    ensures start in Advance(s, cells).visited
  {
    var here := s.queue[0].here;
    var there := cells[|cells| - 1];
    var seen := s.visited + {here, there};
    JoinedKeeps(s.g, here, cells, seen);
    var g := Joined(s.g, here, cells, seen);
    forall x | x in seen
      ensures x in g.adj
    {
    }
  }

  lemma CollapseKeeps(s: State, start: Pos)
    requires Kept(s, start) && s.queue != [] && Collapse(s).Ok?
    ensures Kept(Collapse(s).value, start)
    ensures Collapse(s).value.g.directed == s.g.directed
  {
    KeptAfter(s, start, Walked(s).value);
  }

  /** A graph fit for the path search from `start`: edges lead to nodes and
      weigh at least one, and `start` is a node. */
  ghost predicate Searchable(h: Graph, start: Pos)
  {
    Closed(h) && Positive(h) && start in h.adj
  }

  /** One turn of the loop, when the loop ends well. */
  lemma CompressUnfold(s: State, fuel: nat) returns (rest: nat)
    requires s.queue != [] && Compress(s, fuel).Ok?
    ensures rest < fuel && Collapse(s).Ok? && Compress(s, fuel) == Compress(Collapse(s).value, rest)
  {
    rest := fuel - 1;
  }

  /** The pass that `Compress` takes first keeps the invariant and leaves
      the rest of the loop to produce the same graph. */
  lemma CompressNext(s: State, start: Pos, fuel: nat, h: Graph) returns (next: State, rest: nat)
    requires Kept(s, start) && s.queue != [] && Compress(s, fuel) == Ok(h)
    ensures rest < fuel && Kept(next, start) && Compress(next, rest) == Ok(h)
    ensures next.g.directed == s.g.directed
  {
    rest := CompressUnfold(s, fuel);
    CollapseKeeps(s, start);
    next := Collapse(s).value;
  }

  /** What the whole loop keeps: the result is a graph of the same kind,
      fit for the path search from the start. */
  lemma {:induction false} CompressKeeps(s: State, start: Pos, fuel: nat, h: Graph)
    requires Kept(s, start) && Compress(s, fuel) == Ok(h)
    ensures Searchable(h, start) && h.directed == s.g.directed
    decreases fuel
  {
    if s.queue != [] {
      var next, rest := CompressNext(s, start, fuel, h);
      CompressKeeps(next, start, rest, h);
    }
  }

  // ---------------------------------------------------------------------
  // The ends of the hike and the two parts
  // ---------------------------------------------------------------------

  /** What `more_itertools.only` makes of an iterable: nothing, its one
      item, or a ValueError for more than one. */
  datatype Single<T> = Nothing | Unique(value: T) | Several

  function Only<T>(xs: seq<T>): (r: Single<T>)
    ensures r.Nothing? <==> xs == []
    ensures r.Unique? <==> |xs| == 1
    ensures r.Unique? ==> r.value == xs[0]
  {
    if xs == [] then Nothing else if |xs| == 1 then Unique(xs[0]) else Several
  }

  /** The `.` cells of row `y` from column `x` on, left to right. */
  function Dots(lines: seq<string>, y: int, x: nat): (r: seq<Pos>)
    requires 0 <= y < |lines|
    ensures forall p :: p in r <==> p.y == y && x <= p.x && Char(lines, p) == '.'
    ensures forall i, j :: 0 <= i < j < |r| ==> r[i].x < r[j].x
    ensures forall i :: 0 <= i < |r| ==> x <= r[i].x
    decreases |lines[y]| - x
  {
    if x >= |lines[y]| then []
    else
      var rest := Dots(lines, y, x + 1);
      if lines[y][x] == '.' then [Pos(x, y)] + rest else rest
  }

  /** Row `y` holds a node. */
  predicate RowOpen(lines: seq<string>, y: nat)
    requires y < |lines|
  {
    exists x :: 0 <= x < |lines[y]| && lines[y][x] != '#'
  }

  /** `max(z.imag for z in g.nodes)` over the first `n` rows: the lowest
      row that holds a node, None for no node (the ValueError of `max`). */
  function LastOpenRow(lines: seq<string>, n: nat): (r: Option<nat>)
    requires n <= |lines|
    ensures r.Some? ==> r.value < n && RowOpen(lines, r.value)
    ensures r.Some? ==> forall y: nat :: r.value < y < n ==> !RowOpen(lines, y)
    ensures r.None? ==> forall y: nat :: y < n ==> !RowOpen(lines, y)
  {
    if n == 0 then None
    else if RowOpen(lines, n - 1) then Some(n - 1)
    else LastOpenRow(lines, n - 1)
  }

  /** The collapsed graph with `g.graph["start"]` and `g.graph["target"]`. */
  datatype Trails = Trails(g: Graph, start: Pos, target: Option<Pos>)

  /** The entrance, the exit if any, and the entrance's one neighbour. */
  datatype Ends = Ends(start: Pos, target: Option<Pos>, first: Pos)

  /** Lines 27-33: find the entrance in the top row and the exit in the
      lowest row holding a node, then the entrance's only neighbour. The
      errors come in the order the source meets them; `g[z]` of a `z` that
      is no node is a KeyError. */
  function FindEnds(lines: seq<string>, g: Graph): Result<Ends>
  {
    var start := if |lines| == 0 then Nothing else Only(Dots(lines, 0, 0));
    if start.Several? then Err(ValueError)
    else
      match LastOpenRow(lines, |lines|)
      case None => Err(ValueError)
      case Some(maxY) =>
        var target := Only(Dots(lines, maxY, 0));
        if target.Several? then Err(ValueError)
        else if start.Nothing? || start.value !in g.adj then Err(KeyError)
        else
          match Only(g.adj[start.value])
          case Several => Err(ValueError)
          case Nothing => Err(KeyError)
          case Unique(first) =>
            Ok(Ends(start.value, if target.Unique? then Some(target.value) else None, first.to))
  }

  /** `parse`: build the cell graph, find its ends, queue the entrance with
      its only neighbour and collapse the corridors. */
  function Parse(lines: seq<string>, icy: bool, fuel: nat): Result<Trails>
  {
    match CellGraph(lines, icy)
    case Err(e) => Err(e)
    case Ok(g) =>
      match FindEnds(lines, g)
      case Err(e) => Err(e)
      case Ok(ends) =>
        match Compress(State(g, {}, [Pending(ends.start, ends.first)]), fuel)
        case Err(e) => Err(e)
        case Ok(h) => Ok(Trails(h, ends.start, ends.target))
  }

  /** `max(path_weight(g, p) for p in all_simple_paths(g, start, target))`:
      NodeNotFound for an end that is no node, an empty generator (and so
      the ValueError of `max`) when the ends coincide or no path joins
      them. */
  function Search(t: Trails): (r: Result<nat>)
    ensures r == Err(NodeNotFound) <==>
              t.start !in t.g.adj || t.target.None? || t.target.value !in t.g.adj
    ensures r.Ok? ==>
              t.target.Some? && t.start != t.target.value &&
              forall steps :: SimplePath(t.g, t.start, steps, t.target.value, {}) ==> Weight(steps) <= r.value
  {
    if t.start !in t.g.adj || t.target.None? || t.target.value !in t.g.adj then Err(NodeNotFound)
    else if t.start == t.target.value then Err(ValueError)
    else
      LongestIsMaximum(t.g, t.start, t.target.value);
      match Longest(t.g, t.start, t.target.value, {})
      case None => Err(ValueError)
      case Some(w) => Ok(w)
  }

  /** `part_1` and `part_2` without the choice of slopes. */
  function Hike(lines: seq<string>, icy: bool, fuel: nat): (r: Result<nat>)
    ensures r.Ok? ==> Parse(lines, icy, fuel).Ok? && Bounds(Parse(lines, icy, fuel).value, r.value)
  {
    match Parse(lines, icy, fuel)
    case Err(e) => Err(e)
    case Ok(t) => Search(t)
  }

  /** No simple path from the start to the target of `t` weighs more than `w`. */
  ghost predicate Bounds(t: Trails, w: nat)
  {
    t.target.Some? && forall steps :: SimplePath(t.g, t.start, steps, t.target.value, {}) ==> Weight(steps) <= w
  }

  /** Part 1: the longest hike on icy slopes, searched in a directed graph. */
  function Part1(lines: seq<string>, fuel: nat): (r: Result<nat>)
    ensures r.Ok? ==>
              Parse(lines, true, fuel).Ok? && Parse(lines, true, fuel).value.g.directed &&
              Bounds(Parse(lines, true, fuel).value, r.value)
  {
    if Parse(lines, true, fuel).Ok? then
      ParseKeeps(lines, true, fuel);
      Hike(lines, true, fuel)
    else
      Hike(lines, true, fuel)
  }

  /** Part 2: the longest hike with the slopes walked as plain paths, so
      searched in an undirected graph. */
  function Part2(lines: seq<string>, fuel: nat): (r: Result<nat>)
    ensures r.Ok? ==>
              Parse(lines, false, fuel).Ok? && !Parse(lines, false, fuel).value.g.directed &&
              Bounds(Parse(lines, false, fuel).value, r.value)
  {
    if Parse(lines, false, fuel).Ok? then
      ParseKeeps(lines, false, fuel);
      Hike(lines, false, fuel)
    else
      Hike(lines, false, fuel)
  }

  /** The cell graph is fit for the loop: edges lead to nodes and weigh one. */
  lemma CellGraphClosed(lines: seq<string>, icy: bool)
    requires CellGraph(lines, icy).Ok?
    ensures Closed(CellGraph(lines, icy).value) && Positive(CellGraph(lines, icy).value)
  {
    CellGraphEdges(lines, icy);
  }

  /** How `Parse` got its result: the cell graph, the entrance and its one
      neighbour, and a run of the loop that ended in the returned graph. */
  lemma ParseSteps(lines: seq<string>, icy: bool, fuel: nat) returns (g: Graph, ends: Ends)
    requires Parse(lines, icy, fuel).Ok?
    ensures CellGraph(lines, icy) == Ok(g) && FindEnds(lines, g) == Ok(ends)
    ensures var t := Parse(lines, icy, fuel).value;
            t.start == ends.start && t.target == ends.target &&
            Compress(State(g, {}, [Pending(ends.start, ends.first)]), fuel) == Ok(t.g)
  {
    g := CellGraph(lines, icy).value;
    ends := FindEnds(lines, g).value;
  }

  /** The graph `parse` returns is of the kind asked for, and fit for the
      path search from its start. */
  lemma ParseKeeps(lines: seq<string>, icy: bool, fuel: nat)
    requires Parse(lines, icy, fuel).Ok?
    ensures var t := Parse(lines, icy, fuel).value;
            Searchable(t.g, t.start) && t.g.directed == icy
  {
    var t := Parse(lines, icy, fuel).value;
    var g, ends := ParseSteps(lines, icy, fuel);
    CellGraphClosed(lines, icy);
    CompressKeeps(State(g, {}, [Pending(ends.start, ends.first)]), t.start, fuel, t.g);
  }

  /** The one `.` of a row, when `only` finds one, is the row's only `.`;
      when it finds none, the row has none. */
  lemma OnlyDot(lines: seq<string>, y: int)
    requires 0 <= y < |lines| && !Only(Dots(lines, y, 0)).Several?
    ensures Only(Dots(lines, y, 0)).Nothing? <==> !exists x :: Char(lines, Pos(x, y)) == '.'
    ensures Only(Dots(lines, y, 0)).Unique? ==>
              var p := Only(Dots(lines, y, 0)).value;
              p.y == y && Char(lines, p) == '.' &&
              forall x :: Char(lines, Pos(x, y)) == '.' ==> x == p.x
  {
    var row := Dots(lines, y, 0);
    if exists x :: Char(lines, Pos(x, y)) == '.' {
      var x :| Char(lines, Pos(x, y)) == '.';
      assert Pos(x, y) in row;
    }
    if |row| == 1 {
      forall x | Char(lines, Pos(x, y)) == '.'
        ensures x == row[0].x
      {
        assert Pos(x, y) in row;
      }
    }
  }

  /** Where `FindEnds` found the two ends. */
  lemma FoundEnds(lines: seq<string>, g: Graph)
    requires FindEnds(lines, g).Ok?
    ensures var e := FindEnds(lines, g).value;
            |lines| > 0 && Only(Dots(lines, 0, 0)) == Unique(e.start) &&
            LastOpenRow(lines, |lines|).Some? &&
            var row := Dots(lines, LastOpenRow(lines, |lines|).value, 0);
            !Only(row).Several? &&
            (e.target.Some? <==> Only(row).Unique?) &&
            (e.target.Some? ==> Only(row).value == e.target.value)
  {
  }

  /** The start is the only `.` of the top row; the target, when there is
      one, is the only `.` of the lowest row holding a node, and there is
      none exactly when that row has no `.`. */
  lemma ParseEnds(lines: seq<string>, icy: bool, fuel: nat)
    requires Parse(lines, icy, fuel).Ok?
    ensures var t := Parse(lines, icy, fuel).value;
            t.start.y == 0 && Char(lines, t.start) == '.' &&
            forall x :: Char(lines, Pos(x, 0)) == '.' ==> x == t.start.x
    ensures var t := Parse(lines, icy, fuel).value;
            var maxY := LastOpenRow(lines, |lines|);
            maxY.Some? &&
            (t.target.Some? <==> exists x :: Char(lines, Pos(x, maxY.value)) == '.') &&
            (t.target.Some? ==>
               t.target.value.y == maxY.value && Char(lines, t.target.value) == '.' &&
               forall x :: Char(lines, Pos(x, maxY.value)) == '.' ==> x == t.target.value.x)
  {
    var g, ends := ParseSteps(lines, icy, fuel);
    FoundEnds(lines, g);
    OnlyDot(lines, 0);
    OnlyDot(lines, LastOpenRow(lines, |lines|).value);
  }

  /** The search reports the weight of a simple path from the start to the
      target and no simple path between them weighs more; when both ends
      are distinct nodes, the ValueError means there is no path at all. */
  lemma SearchIsLongest(t: Trails)
    ensures Search(t).Ok? ==>
              t.target.Some? && t.start != t.target.value &&
              (exists steps :: SimplePath(t.g, t.start, steps, t.target.value, {}) &&
                                Weight(steps) == Search(t).value) &&
              forall steps :: SimplePath(t.g, t.start, steps, t.target.value, {}) ==>
                                Weight(steps) <= Search(t).value
    ensures t.start in t.g.adj && t.target.Some? && t.target.value in t.g.adj && t.start != t.target.value ==>
              (Search(t) == Err(ValueError) <==> !exists steps :: SimplePath(t.g, t.start, steps, t.target.value, {}))
  {
    if t.target.Some? {
      LongestIsMaximum(t.g, t.start, t.target.value);
    }
  }

  /** The same for the whole hike: since the start always survives the
      collapsing, the ValueError for distinct ends that are nodes means
      there is no path. */
  lemma HikeIsLongest(lines: seq<string>, icy: bool, fuel: nat)
    requires Parse(lines, icy, fuel).Ok?
    ensures var t := Parse(lines, icy, fuel).value;
            Hike(lines, icy, fuel) == Search(t) &&
            (t.target.Some? && t.target.value in t.g.adj && t.start != t.target.value ==>
               (Hike(lines, icy, fuel) == Err(ValueError) <==>
                  !exists steps :: SimplePath(t.g, t.start, steps, t.target.value, {})))
  {
    var t := Parse(lines, icy, fuel).value;
    ParseKeeps(lines, icy, fuel);
    SearchIsLongest(t);
  }
}
