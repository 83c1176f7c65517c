/**
 A* over the walkable cells of the loaded chunks, and the bounded cache of the paths it found.

 The search keeps one score per 16-bit-per-axis key, has no closed set and reopens cells, and stops
 at the first pop of the target. The heap is a multiset from which any node of least cost may come
 out: `Node` orders by cost alone.
*/
module Pathfind {
  import opened Common

  datatype Cell = Cell(x: int, z: int)

  /** A heap entry: a cell and the cost (score plus estimate) it was pushed with. */
  datatype Node = Node(cell: Cell, cost: int)

  type Heap = multiset<Node>

  /** By key: the cell a scored cell was reached from, and its score. */
  type Parents = map<nat, Cell>

  type Scores = map<nat, int>

  /** The block ids of one chunk column by local x, world y and local z. */
  datatype Chunk = Chunk(blockAt: (int, int, int) -> nat)

  datatype Waypoint = Waypoint(x: real, y: real, z: real)

  const AIR: nat := 0

  predicate IsPassable(id: nat) {
    match id
    case 0 | 31 | 32 | 33 => true
    case 50 | 78 | 79 | 83 | 85 | 96 | 267 | 268 | 27 | 28 | 157 => true
    case _ => 37 <= id <= 47
  }

  /** Whether a mob with its feet at `footY` can stand in a cell: the chunk is loaded and the feet, or failing
      that the head, are free. */
  predicate CanStand(chunks: map<Cell, Chunk>, footY: int, c: Cell) {
    var at := Cell(c.x / 16, c.z / 16);
    at in chunks &&
    var foot := chunks[at].blockAt(c.x % 16, footY, c.z % 16);
    var head := chunks[at].blockAt(c.x % 16, footY + 1, c.z % 16);
    foot == AIR || IsPassable(foot) || (foot != AIR && head == AIR)
  }

  /** What one call can see of the world, which does not change while it searches. */
  datatype Terrain = Terrain(passable: Cell -> bool)

  function TerrainAt(chunks: map<Cell, Chunk>, footY: int): Terrain {
    Terrain((c: Cell) => CanStand(chunks, footY, c))
  }

  /** The loaded chunks show this part of a world, given by block coordinates. */
  ghost predicate Shows(chunks: map<Cell, Chunk>, world: (int, int, int) -> nat) {
    forall at, lx, y, lz :: at in chunks && 0 <= lx < 16 && 0 <= lz < 16 ==>
      chunks[at].blockAt(lx, y, lz) == world(16 * at.x + lx, y, 16 * at.z + lz)
  }

  /** The block column of a cell is loaded. */
  ghost predicate Loaded(chunks: map<Cell, Chunk>, c: Cell) {
    exists at :: at in chunks && InChunk(at, c)
  }

  predicate InChunk(at: Cell, c: Cell) {
    16 * at.x <= c.x < 16 * (at.x + 1) && 16 * at.z <= c.z < 16 * (at.z + 1)
  }

  /** In block coordinates: the feet, or failing that the head, are free. */
  ghost predicate Clear(world: (int, int, int) -> nat, footY: int, c: Cell) {
    world(c.x, footY, c.z) == AIR || IsPassable(world(c.x, footY, c.z)) || world(c.x, footY + 1, c.z) == AIR
  }

  /** A cell is passable exactly when its chunk is loaded and the two blocks of the world there are not both in the
      way. */
  lemma PassableInWorld(chunks: map<Cell, Chunk>, world: (int, int, int) -> nat, footY: int, c: Cell)
    requires Shows(chunks, world)
    ensures TerrainAt(chunks, footY).passable(c) <==> Loaded(chunks, c) && Clear(world, footY, c)
  {
    var at := Cell(c.x / 16, c.z / 16);
    assert InChunk(at, c);
    assert c.x == 16 * at.x + c.x % 16 && c.z == 16 * at.z + c.z % 16;
    if b :| b in chunks && InChunk(b, c) {
      assert b == at;
    }
    if at in chunks {
      var lx, lz := c.x % 16, c.z % 16;
      assert chunks[at].blockAt(lx, footY, lz) == world(16 * at.x + lx, footY, 16 * at.z + lz);
      assert chunks[at].blockAt(lx, footY + 1, lz) == world(16 * at.x + lx, footY + 1, 16 * at.z + lz);
    }
  }

  const DIRECTIONS: seq<(int, int)> := [(1, 0), (-1, 0), (0, 1), (0, -1)]

  function Neighbour(c: Cell, i: nat): Cell
    requires i < 4
  {
    Cell(c.x + DIRECTIONS[i].0, c.z + DIRECTIONS[i].1)
  }

  function Heuristic(c: Cell, goal: Cell): nat {
    Abs(c.x - goal.x) + Abs(c.z - goal.z)
  }

  const KEYS: nat := 0x1_0000_0000

  /** The packed key of a cell: 16 bits of each coordinate. */
  function Key(c: Cell): (k: nat)
    ensures k < KEYS
  {
    (c.x % 0x1_0000) * 0x1_0000 + c.z % 0x1_0000
  }

  /** Two cells share a key exactly when both coordinates agree in their lowest 16 bits. */
  lemma KeyExact(a: Cell, b: Cell)
    ensures Key(a) == Key(b) <==> a.x % 0x1_0000 == b.x % 0x1_0000 && a.z % 0x1_0000 == b.z % 0x1_0000
  {
    assert Key(a) / 0x1_0000 == a.x % 0x1_0000 && Key(b) / 0x1_0000 == b.x % 0x1_0000;
  }

  function ScoreOf(g: Scores, k: nat): int {
    if k in g then g[k] else I32_MAX
  }

  // ----- what a path is -----

  ghost predicate Adjacent(a: Cell, b: Cell) {
    Abs(a.x - b.x) + Abs(a.z - b.z) == 1
  }

  /** `q` walks from `from` over passable cells, one 4-neighbour step at a time. */
  ghost predicate Chain(t: Terrain, from: Cell, q: seq<Cell>)
    decreases |q|
  {
    q == [] || (t.passable(q[0]) && Adjacent(from, q[0]) && Chain(t, q[0], q[1..]))
  }

  ghost predicate Leads(t: Terrain, from: Cell, q: seq<Cell>, to: Cell) {
    Chain(t, from, q) && to == if q == [] then from else q[|q| - 1]
  }

  ghost predicate Reachable(t: Terrain, s: Cell, c: Cell) {
    exists q :: Leads(t, s, q, c)
  }

  /** No two cells the search could visit share a packed key. */
  ghost predicate KeysDistinct(t: Terrain, s: Cell) {
    forall a, b :: Reachable(t, s, a) && Reachable(t, s, b) && Key(a) == Key(b) ==> a == b
  }

  ghost predicate Shortest(t: Terrain, s: Cell, goal: Cell, q: seq<Cell>) {
    Leads(t, s, q, goal) && forall p :: Leads(t, s, p, goal) ==> |q| <= |p|
  }

  lemma {:induction false} ChainExtends(t: Terrain, from: Cell, q: seq<Cell>, c: Cell, n: Cell)
    requires Leads(t, from, q, c) && t.passable(n) && Adjacent(c, n)
    ensures Leads(t, from, q + [n], n)
    decreases |q|
  {
    if q == [] {
      assert (q + [n])[1..] == [];
    } else {
      ChainExtends(t, q[0], q[1..], c, n);
      assert (q + [n])[1..] == q[1..] + [n];
    }
  }

  lemma ReachableStep(t: Terrain, s: Cell, c: Cell, n: Cell)
    requires Reachable(t, s, c) && t.passable(n) && Adjacent(c, n)
    ensures Reachable(t, s, n)
  {
    var q :| Leads(t, s, q, c);
    ChainExtends(t, s, q, c, n);
  }

  /** The Manhattan estimate never exceeds the length of a chain. */
  lemma {:induction false} HeuristicAdmissible(t: Terrain, from: Cell, q: seq<Cell>, goal: Cell)
    requires Leads(t, from, q, goal)
    ensures Heuristic(from, goal) <= |q|
    decreases |q|
  {
    if q != [] {
      HeuristicAdmissible(t, q[0], q[1..], goal);
    }
  }

  /** It is met where nothing is in the way, so it could not be larger. */
  lemma {:induction false} HeuristicTight(t: Terrain, from: Cell, goal: Cell) returns (q: seq<Cell>)
    requires forall c :: t.passable(c)
    ensures Leads(t, from, q, goal) && |q| == Heuristic(from, goal)
    decreases Heuristic(from, goal)
  {
    if from == goal {
      q := [];
    } else {
      var next :=
        if from.x < goal.x then Cell(from.x + 1, from.z) else if from.x > goal.x then Cell(from.x - 1, from.z)
        else if from.z < goal.z then Cell(from.x, from.z + 1) else Cell(from.x, from.z - 1);
      var rest := HeuristicTight(t, next, goal);
      q := [next] + rest;
    }
  }

  /** A caller's check that rules out shared keys: everything loaded, and the start, fits in a window of
      65536 blocks on each axis. */
  lemma {:induction false} WindowMakesKeysDistinct(t: Terrain, s: Cell, corner: Cell)
    requires forall c :: t.passable(c) || c == s ==>
      corner.x <= c.x < corner.x + 0x1_0000 && corner.z <= c.z < corner.z + 0x1_0000
    ensures KeysDistinct(t, s)
  {
    forall a, b | Reachable(t, s, a) && Reachable(t, s, b) && Key(a) == Key(b)
      ensures a == b
    {
      ReachableIsPassable(t, s, a);
      ReachableIsPassable(t, s, b);
      ModWindow(a.x, b.x, corner.x);
      ModWindow(a.z, b.z, corner.z);
    }
  }

  /** The same check on the loaded chunks: 4096 of them per axis, and the start among them. */
  lemma ChunkWindowMakesKeysDistinct(chunks: map<Cell, Chunk>, footY: int, s: Cell, corner: Cell)
    requires forall at: Cell :: at in chunks || at == Cell(s.x / 16, s.z / 16) ==>
      corner.x <= at.x < corner.x + 4096 && corner.z <= at.z < corner.z + 4096
    ensures KeysDistinct(TerrainAt(chunks, footY), s)
  {
    var t, low := TerrainAt(chunks, footY), Cell(16 * corner.x, 16 * corner.z);
    forall c: Cell | t.passable(c) || c == s
      ensures low.x <= c.x < low.x + 0x1_0000 && low.z <= c.z < low.z + 0x1_0000
    {
      assert Cell(c.x / 16, c.z / 16) in chunks || Cell(c.x / 16, c.z / 16) == Cell(s.x / 16, s.z / 16);
    }
    WindowMakesKeysDistinct(t, s, low);
  }

  lemma ModWindow(a: int, b: int, lo: int)
    requires lo <= a < lo + 0x1_0000 && lo <= b < lo + 0x1_0000
    ensures a % 0x1_0000 == b % 0x1_0000 ==> a == b
  {
  }

  lemma ReachableIsPassable(t: Terrain, s: Cell, c: Cell)
    requires Reachable(t, s, c)
    ensures c == s || t.passable(c)
  {
    var q :| Leads(t, s, q, c);
    LastIsPassable(t, s, q, c);
  }

  lemma {:induction false} LastIsPassable(t: Terrain, s: Cell, q: seq<Cell>, c: Cell)
    requires Leads(t, s, q, c)
    ensures q == [] || t.passable(c)
    decreases |q|
  {
    if |q| > 1 {
      LastIsPassable(t, q[0], q[1..], c);
    }
  }

  lemma {:induction false} ChainSplits(t: Terrain, from: Cell, p: seq<Cell>, q: seq<Cell>)
    ensures Chain(t, from, p + q) <==> Chain(t, from, p) && Chain(t, if p == [] then from else p[|p| - 1], q)
    decreases |p|
  {
    if p == [] {
      assert p + q == q;
    } else {
      ChainSplits(t, p[0], p[1..], q);
      assert (p + q)[1..] == p[1..] + q;
    }
  }

  lemma {:induction false} ChainStaysIn(t: Terrain, from: Cell, q: seq<Cell>, cells: set<Cell>)
    requires Chain(t, from, q) && forall c :: t.passable(c) ==> c in cells
    ensures forall i :: 0 <= i < |q| ==> q[i] in cells
    decreases |q|
  {
    if q != [] {
      ChainStaysIn(t, q[0], q[1..], cells);
    }
  }

  /** Loops can be cut out of a chain, so a chain never needs more steps than there are passable cells. */
  lemma {:induction false} FewCellsMakeShortChains(t: Terrain, s: Cell, goal: Cell, q: seq<Cell>, cells: set<Cell>)
    requires Leads(t, s, q, goal)
    requires forall c :: t.passable(c) ==> c in cells
    ensures exists p :: Leads(t, s, p, goal) && |p| <= |cells|
    decreases |q|
  {
    ChainStaysIn(t, s, q, cells);
    if i, j :| 0 <= i < j < |q| && q[i] == q[j] {
      var before, loop, after := q[..i + 1], q[i + 1..j + 1], q[j + 1..];
      assert q == before + (loop + after);
      ChainSplits(t, s, before, loop + after);
      ChainSplits(t, q[i], loop, after);
      ChainSplits(t, s, before, after);
      FewCellsMakeShortChains(t, s, goal, before + after, cells);
    } else {
      DistinctBound(q, cells);
    }
  }

  // ----- what the search keeps -----

  /** Scores fall strictly along the parent links, down to 0 at the start. */
  ghost predicate Descends(s: Cell, parent: Parents, g: Scores) {
    && Key(s) in g && g[Key(s)] == 0
    && (forall k :: k in g ==> 0 <= g[k] < I32_MAX && k < KEYS)
    && (forall k :: k in parent ==> k in g && Key(parent[k]) in g && g[Key(parent[k])] < g[k])
    && (forall k :: k in g ==> k == Key(s) || k in parent)
  }

  /** Every parent link of a reachable cell is one step of a chain. */
  ghost predicate Traced(t: Terrain, s: Cell, parent: Parents) {
    forall c :: Reachable(t, s, c) && Key(c) in parent ==>
      Reachable(t, s, parent[Key(c)]) && Adjacent(parent[Key(c)], c) && t.passable(c)
  }

  ghost predicate HeapScored(open: Heap, g: Scores) {
    forall n :: n in open ==> Key(n.cell) in g
  }

  /** Heap entries are reachable, and at best stale: never cheaper than the score they stand for. */
  ghost predicate HeapSound(t: Terrain, s: Cell, goal: Cell, open: Heap, g: Scores)
    requires HeapScored(open, g)
  {
    forall n :: n in open ==> Reachable(t, s, n.cell) && g[Key(n.cell)] <= n.cost - Heuristic(n.cell, goal)
  }

  /** All passable neighbours of `c` have a score at most one more than that of `c`. */
  ghost predicate Expanded(t: Terrain, g: Scores, c: Cell)
    requires Key(c) in g
  {
    forall n :: Adjacent(c, n) && t.passable(n) && g[Key(c)] + 1 < I32_MAX ==>
      Key(n) in g && g[Key(n)] <= g[Key(c)] + 1
  }

  ghost predicate InHeap(goal: Cell, open: Heap, g: Scores, c: Cell)
    requires Key(c) in g
  {
    Node(c, g[Key(c)] + Heuristic(c, goal)) in open
  }

  ghost predicate SettledAt(t: Terrain, goal: Cell, open: Heap, g: Scores, c: Cell)
    requires Key(c) in g
  {
    InHeap(goal, open, g, c) || (c != goal && Expanded(t, g, c))
  }

  /** Every scored cell either waits in the heap at its score or has been expanded at that score;
      the target never counts as expanded. `busy` marks the cell being expanded now. */
  ghost predicate Settled(t: Terrain, s: Cell, goal: Cell, open: Heap, g: Scores, busy: set<Cell>) {
    forall c :: Reachable(t, s, c) && Key(c) in g && c !in busy ==> SettledAt(t, goal, open, g, c)
  }

  /** While a chain to the target is open, the cheapest heap entry costs no more than it. */
  lemma {:induction false} FrontierBound(t: Terrain, s: Cell, goal: Cell, open: Heap, g: Scores,
                       c: Cell, d: nat, q: seq<Cell>, f: int)
    requires Settled(t, s, goal, open, g, {})
    requires Reachable(t, s, c) && Key(c) in g && g[Key(c)] <= d
    requires Leads(t, c, q, goal) && d + |q| < I32_MAX
    requires forall n :: n in open ==> f <= n.cost
    ensures f <= d + |q|
    decreases |q|
  {
    if InHeap(goal, open, g, c) {
      HeuristicAdmissible(t, c, q, goal);
    } else {
      assert q != [];
      ReachableStep(t, s, c, q[0]);
      FrontierBound(t, s, goal, open, g, q[0], d + 1, q[1..], f);
    }
  }

  /** Following parents from a scored cell gives a chain no longer than its score. */
  lemma {:induction false} TraceBack(t: Terrain, s: Cell, parent: Parents, g: Scores, c: Cell) returns (q: seq<Cell>)
    requires KeysDistinct(t, s) && Descends(s, parent, g) && Traced(t, s, parent)
    requires Reachable(t, s, c) && Key(c) in g
    ensures Leads(t, s, q, c) && |q| <= g[Key(c)]
    decreases g[Key(c)]
  {
    if c == s {
      q := [];
    } else {
      assert Leads(t, s, [], s);
      var p := parent[Key(c)];
      q := TraceBack(t, s, parent, g, p);
      ChainExtends(t, s, q, p, c);
      q := q + [c];
    }
  }

  // ----- termination -----

  /** The sum of all scores, an absent one counting as `I32_MAX`. */
  ghost function Potential(g: Scores, n: nat): nat
    requires forall k :: k in g ==> 0 <= g[k]
  {
    if n == 0 then 0 else Potential(g, n - 1) + ScoreOf(g, n - 1)
  }

  lemma {:induction false} PotentialDrops(g: Scores, k: nat, v: nat, n: nat)
    requires forall i :: i in g ==> 0 <= g[i]
    requires v < ScoreOf(g, k)
    ensures k < n ==> Potential(g[k := v], n) < Potential(g, n)
    ensures n <= k ==> Potential(g[k := v], n) == Potential(g, n)
  {
    if n != 0 {
      PotentialDrops(g, k, v, n - 1);
    }
  }

  lemma {:induction false} CheapestInSet(nodes: set<Node>) returns (best: Node)
    requires nodes != {}
    ensures best in nodes && forall m :: m in nodes ==> best.cost <= m.cost
    decreases |nodes|
  {
    best :| best in nodes;
    var rest := nodes - {best};
    if rest != {} {
      var other := CheapestInSet(rest);
      assert forall m :: m in nodes ==> m == best || m in rest;
      if other.cost < best.cost {
        best := other;
      }
    } else {
      assert forall m :: m in nodes ==> m == best || m in rest;
    }
  }

  lemma CheapestExists(open: Heap)
    requires open != multiset{}
    ensures exists n :: n in open && forall m :: m in open ==> n.cost <= m.cost
  {
    var n :| n in open;
    var nodes := set m | m in open;
    assert n in nodes;
    var best := CheapestInSet(nodes);
  }

  lemma NeighbourIsAdjacent(c: Cell)
    ensures forall i | 0 <= i < 4 :: Adjacent(c, Neighbour(c, i))
    ensures forall n | Adjacent(c, n) :: exists i | 0 <= i < 4 :: n == Neighbour(c, i)
  {
    forall n | Adjacent(c, n)
      ensures exists i | 0 <= i < 4 :: n == Neighbour(c, i)
    {
      var i := if n.x == c.x + 1 then 0 else if n.x == c.x - 1 then 1 else if n.z == c.z + 1 then 2 else 3;
      assert n == Neighbour(c, i);
    }
  }

  // ----- one relaxation -----

  /** The state half-way through expanding `cur`: its first `i` neighbours are done. */
  ghost predicate Expanding(t: Terrain, s: Cell, goal: Cell, open: Heap, parent: Parents,
                            g: Scores, cur: Cell, i: nat)
    requires i <= 4
  {
    && HeapScored(open, g) && HeapSound(t, s, goal, open, g)
    && Traced(t, s, parent)
    && Settled(t, s, goal, open, g, {cur})
    && Reachable(t, s, cur) && Key(cur) in g
    && forall j :: 0 <= j < i && t.passable(Neighbour(cur, j)) && g[Key(cur)] + 1 < I32_MAX ==>
         Key(Neighbour(cur, j)) in g && g[Key(Neighbour(cur, j))] <= g[Key(cur)] + 1
  }

  lemma ExpandedAll(t: Terrain, s: Cell, goal: Cell, open: Heap, parent: Parents, g: Scores, cur: Cell)
    requires Expanding(t, s, goal, open, parent, g, cur, 4) && cur != goal
    ensures Settled(t, s, goal, open, g, {})
  {
    NeighbourIsAdjacent(cur);
    assert Expanded(t, g, cur);
  }

  lemma RelaxKeepsDescent(s: Cell, parent: Parents, g: Scores, cur: Cell, n: Cell)
    requires Descends(s, parent, g) && Key(cur) in g
    requires g[Key(cur)] + 1 < ScoreOf(g, Key(n))
    ensures Descends(s, parent[Key(n) := cur], g[Key(n) := g[Key(cur)] + 1])
  {
  }

  /** Lowering the score of another key keeps a cell settled. */
  lemma LowerKeepsSettledAt(t: Terrain, goal: Cell, open: Heap, g: Scores, c: Cell, k: nat, v: int, extra: Node)
    requires Key(c) in g && SettledAt(t, goal, open, g, c) && Key(c) != k && v < ScoreOf(g, k)
    ensures SettledAt(t, goal, open + multiset{extra}, g[k := v], c)
  {
  }

  lemma RelaxKeepsSettledAt(t: Terrain, goal: Cell, open: Heap, g: Scores, n: Cell, v: int, c: Cell)
    requires v < ScoreOf(g, Key(n)) && Key(c) in g[Key(n) := v]
    requires Key(c) == Key(n) ==> c == n
    requires Key(c) in g ==> SettledAt(t, goal, open, g, c)
    ensures SettledAt(t, goal, open + multiset{Node(n, v + Heuristic(n, goal))}, g[Key(n) := v], c)
  {
    if c != n {
      LowerKeepsSettledAt(t, goal, open, g, c, Key(n), v, Node(n, v + Heuristic(n, goal)));
    }
  }

  lemma RelaxKeepsSettled(t: Terrain, s: Cell, goal: Cell, open: Heap, g: Scores, cur: Cell, n: Cell, v: int)
    requires KeysDistinct(t, s) && Reachable(t, s, n) && Key(cur) in g
    requires Settled(t, s, goal, open, g, {cur})
    requires v < ScoreOf(g, Key(n))
    ensures Settled(t, s, goal, open + multiset{Node(n, v + Heuristic(n, goal))}, g[Key(n) := v], {cur})
  {
    var open', g' := open + multiset{Node(n, v + Heuristic(n, goal))}, g[Key(n) := v];
    forall c | Reachable(t, s, c) && Key(c) in g' && c !in {cur}
      ensures SettledAt(t, goal, open', g', c)
    {
      assert Key(c) == Key(n) ==> c == n;
      RelaxKeepsSettledAt(t, goal, open, g, n, v, c);
    }
  }

  lemma RelaxKeepsTraced(t: Terrain, s: Cell, parent: Parents, cur: Cell, n: Cell)
    requires KeysDistinct(t, s) && Traced(t, s, parent) && Reachable(t, s, n)
    requires Reachable(t, s, cur) && Adjacent(cur, n) && t.passable(n)
    ensures Traced(t, s, parent[Key(n) := cur])
  {
  }

  lemma RelaxKeepsExpanding(t: Terrain, s: Cell, goal: Cell, open: Heap, parent: Parents,
                            g: Scores, cur: Cell, i: nat, n: Cell, v: int)
    requires i < 4 && KeysDistinct(t, s)
    requires Expanding(t, s, goal, open, parent, g, cur, i)
    requires n == Neighbour(cur, i) && t.passable(n) && v == g[Key(cur)] + 1 < ScoreOf(g, Key(n))
    ensures Expanding(t, s, goal, open + multiset{Node(n, v + Heuristic(n, goal))},
                      parent[Key(n) := cur], g[Key(n) := v], cur, i + 1)
  {
    var open' := open + multiset{Node(n, v + Heuristic(n, goal))};
    var g' := g[Key(n) := v];
    NeighbourIsAdjacent(cur);
    ReachableStep(t, s, cur, n);
    RelaxKeepsSettled(t, s, goal, open, g, cur, n, v);
    RelaxKeepsTraced(t, s, parent, cur, n);
    assert HeapScored(open', g') && HeapSound(t, s, goal, open', g');
    assert Key(cur) != Key(n);
  }

  /** Dropping a stale heap entry loses nothing; taking a fresh one makes its cell the busy one. */
  lemma PopKeepsSettled(t: Terrain, s: Cell, goal: Cell, open: Heap, g: Scores, cur: Node)
    requires HeapScored(open, g) && HeapSound(t, s, goal, open, g) && Settled(t, s, goal, open, g, {}) && cur in open
    ensures
      var rest := open - multiset{cur};
      if g[Key(cur.cell)] < cur.cost - Heuristic(cur.cell, goal) then Settled(t, s, goal, rest, g, {})
      else Settled(t, s, goal, rest, g, {cur.cell})
  {
    var rest := open - multiset{cur};
    forall c | Reachable(t, s, c) && Key(c) in g && (c != cur.cell || g[Key(c)] < cur.cost - Heuristic(c, goal))
      ensures SettledAt(t, goal, rest, g, c)
    {
      if InHeap(goal, open, g, c) {
        assert Node(c, g[Key(c)] + Heuristic(c, goal)) != cur;
      }
    }
  }

  // ----- the search -----

  ghost predicate ShortChainExists(t: Terrain, s: Cell, goal: Cell) {
    exists q :: Leads(t, s, q, goal) && |q| < I32_MAX
  }

  /** With fewer passable cells than a score can count, the length bound is no restriction. */
  lemma SmallTerrainIsComplete(t: Terrain, s: Cell, goal: Cell, cells: set<Cell>)
    requires forall c :: t.passable(c) ==> c in cells
    requires |cells| < I32_MAX
    ensures ShortChainExists(t, s, goal) <==> Reachable(t, s, goal)
  {
    if q :| Leads(t, s, q, goal) {
      FewCellsMakeShortChains(t, s, goal, q, cells);
    }
  }

  /** The first `n` cells of a row of a chunk. */
  function Row(at: Cell, i: int, n: nat): (cells: set<Cell>)
    ensures |cells| <= n
  {
    if n == 0 then {} else Row(at, i, n - 1) + {Cell(16 * at.x + i, 16 * at.z + (n - 1))}
  }

  /** The first `n` rows of a chunk. */
  function Rows(at: Cell, n: nat): (cells: set<Cell>)
    ensures |cells| <= 16 * n
  {
    if n == 0 then {} else Rows(at, n - 1) + Row(at, n - 1, 16)
  }

  lemma {:induction false} RowHas(at: Cell, i: int, n: nat, j: nat)
    requires j < n
    ensures Cell(16 * at.x + i, 16 * at.z + j) in Row(at, i, n)
    decreases n
  {
    if j < n - 1 {
      RowHas(at, i, n - 1, j);
    }
  }

  lemma {:induction false} RowsHave(at: Cell, n: nat, i: nat, j: nat)
    requires i < n && j < 16
    ensures Cell(16 * at.x + i, 16 * at.z + j) in Rows(at, n)
    decreases n
  {
    if i < n - 1 {
      RowsHave(at, n - 1, i, j);
    } else {
      RowHas(at, i, 16, j);
    }
  }

  /** A chunk column has 256 cells, so the cells of the columns are no more than that each. */
  lemma {:induction false} ColumnsHold(columns: set<Cell>) returns (cells: set<Cell>)
    ensures |cells| <= 256 * |columns|
    ensures forall c: Cell :: Cell(c.x / 16, c.z / 16) in columns ==> c in cells
    decreases |columns|
  {
    cells := {};
    if columns != {} {
      var at :| at in columns;
      var others := ColumnsHold(columns - {at});
      var side := 16;
      cells := others + Rows(at, side);
      forall c: Cell | Cell(c.x / 16, c.z / 16) in columns
        ensures c in cells
      {
        if Cell(c.x / 16, c.z / 16) == at {
          RowsHave(at, side, c.x % 16, c.z % 16);
        } else {
          assert Cell(c.x / 16, c.z / 16) in columns - {at};
        }
      }
    }
  }

  /** With fewer than I32_MAX / 256 chunks loaded the search succeeds exactly when the target can be reached. */
  lemma LoadedChunksAreComplete(chunks: map<Cell, Chunk>, footY: int, s: Cell, goal: Cell)
    requires 256 * |chunks| < I32_MAX
    ensures ShortChainExists(TerrainAt(chunks, footY), s, goal) <==> Reachable(TerrainAt(chunks, footY), s, goal)
  {
    var cells := ColumnsHold(chunks.Keys);
    assert |chunks.Keys| == |chunks|;
    SmallTerrainIsComplete(TerrainAt(chunks, footY), s, goal, cells);
  }

  /** What the loop leaves behind when the cells it may visit have distinct keys. */
  ghost predicate SearchResult(t: Terrain, s: Cell, goal: Cell, found: bool, parent: Parents, g: Scores) {
    && found == ShortChainExists(t, s, goal)
    && Traced(t, s, parent)
    && (found ==> Reachable(t, s, goal) && Key(goal) in g && forall p :: Leads(t, s, p, goal) ==> g[Key(goal)] <= |p|)
  }

  lemma PoppedGoalIsShortest(t: Terrain, s: Cell, goal: Cell, open: Heap, parent: Parents,
                             g: Scores, cur: Node)
    requires KeysDistinct(t, s) && Descends(s, parent, g) && Traced(t, s, parent)
    requires HeapScored(open, g) && HeapSound(t, s, goal, open, g) && Settled(t, s, goal, open, g, {})
    requires cur in open && cur.cell == goal && forall n :: n in open ==> cur.cost <= n.cost
    ensures SearchResult(t, s, goal, true, parent, g)
  {
    assert Leads(t, s, [], s);
    forall p | Leads(t, s, p, goal)
      ensures g[Key(goal)] <= |p|
    {
      if |p| < I32_MAX {
        FrontierBound(t, s, goal, open, g, s, 0, p, cur.cost);
      }
    }
    var q := TraceBack(t, s, parent, g, goal);
  }

  lemma EmptyHeapMeansNoChain(t: Terrain, s: Cell, goal: Cell, parent: Parents, g: Scores)
    requires Descends(s, parent, g) && Traced(t, s, parent)
    requires Settled(t, s, goal, multiset{}, g, {})
    ensures SearchResult(t, s, goal, false, parent, g)
  {
    assert Leads(t, s, [], s);
    forall p | Leads(t, s, p, goal)
      ensures |p| >= I32_MAX
    {
      if |p| < I32_MAX {
        FrontierBound(t, s, goal, multiset{}, g, s, 0, p, |p| + 1);
      }
    }
  }

  /** The loop invariant of the search. */
  ghost predicate Searching(t: Terrain, s: Cell, goal: Cell, open: Heap, parent: Parents, g: Scores) {
    && Descends(s, parent, g) && HeapScored(open, g)
    && (KeysDistinct(t, s) ==>
          HeapSound(t, s, goal, open, g) && Traced(t, s, parent) && Settled(t, s, goal, open, g, {}))
  }

  /** The loop invariant of the expansion of one cell. */
  ghost predicate ExpandingAny(t: Terrain, s: Cell, goal: Cell, open: Heap, parent: Parents,
                               g: Scores, cur: Cell, i: nat)
    requires i <= 4
  {
    && Descends(s, parent, g) && HeapScored(open, g) && Key(cur) in g
    && (KeysDistinct(t, s) ==> Expanding(t, s, goal, open, parent, g, cur, i))
  }

  lemma SkipNeighbour(t: Terrain, s: Cell, goal: Cell, open: Heap, parent: Parents, g: Scores,
                      cur: Cell, i: nat)
    requires i < 4 && ExpandingAny(t, s, goal, open, parent, g, cur, i)
    requires !t.passable(Neighbour(cur, i)) || ScoreOf(g, Key(cur)) + 1 >= ScoreOf(g, Key(Neighbour(cur, i)))
    ensures ExpandingAny(t, s, goal, open, parent, g, cur, i + 1)
  {
  }

  lemma RelaxNeighbour(t: Terrain, s: Cell, goal: Cell, open: Heap, parent: Parents, g: Scores,
                       cur: Cell, i: nat, n: Cell, v: int)
    requires i < 4 && ExpandingAny(t, s, goal, open, parent, g, cur, i)
    requires n == Neighbour(cur, i) && t.passable(n) && v == ScoreOf(g, Key(cur)) + 1 < ScoreOf(g, Key(n))
    ensures ExpandingAny(t, s, goal, open + multiset{Node(n, v + Heuristic(n, goal))},
                         parent[Key(n) := cur], g[Key(n) := v], cur, i + 1)
    ensures forall k :: k in g ==> 0 <= g[k]
    ensures Potential(g[Key(n) := v], KEYS) < Potential(g, KEYS)
  {
    RelaxKeepsDescent(s, parent, g, cur, n);
    PotentialDrops(g, Key(n), v, KEYS);
    if KeysDistinct(t, s) {
      RelaxKeepsExpanding(t, s, goal, open, parent, g, cur, i, n, v);
    }
  }

  lemma FinishExpanding(t: Terrain, s: Cell, goal: Cell, open: Heap, parent: Parents, g: Scores, cur: Cell)
    requires ExpandingAny(t, s, goal, open, parent, g, cur, 4) && cur != goal
    ensures Searching(t, s, goal, open, parent, g)
  {
    if KeysDistinct(t, s) {
      ExpandedAll(t, s, goal, open, parent, g, cur);
    }
  }

  /** A pop either discards a stale entry or starts expanding its cell. */
  lemma PopStep(t: Terrain, s: Cell, goal: Cell, open: Heap, parent: Parents, g: Scores, cur: Node)
    requires Searching(t, s, goal, open, parent, g) && cur in open
    ensures
      var rest := open - multiset{cur};
      if ScoreOf(g, Key(cur.cell)) < cur.cost - Heuristic(cur.cell, goal) then Searching(t, s, goal, rest, parent, g)
      else ExpandingAny(t, s, goal, rest, parent, g, cur.cell, 0)
  {
    if KeysDistinct(t, s) {
      PopKeepsSettled(t, s, goal, open, g, cur);
    }
  }

  ghost predicate Stands(t: Terrain, s: Cell, c: Cell) {
    c == s || t.passable(c)
  }

  ghost predicate ParentsStand(t: Terrain, s: Cell, parent: Parents) {
    forall k :: k in parent ==> Stands(t, s, parent[k])
  }

  /** With distinct keys or not: the search only ever visits the start and passable cells. */
  ghost predicate OnGround(t: Terrain, s: Cell, open: Heap, parent: Parents) {
    (forall n :: n in open ==> Stands(t, s, n.cell)) && ParentsStand(t, s, parent)
  }

  ghost predicate AllPassable(t: Terrain, q: seq<Cell>) {
    forall i :: 0 <= i < |q| ==> t.passable(q[i])
  }

  /** Relaxes the four neighbours of a freshly popped cell. */
  method Expand(t: Terrain, ghost s: Cell, goal: Cell, open0: Heap, parent0: Parents, g0: Scores, cur: Cell)
    returns (open: Heap, parent: Parents, g: Scores)
    requires ExpandingAny(t, s, goal, open0, parent0, g0, cur, 0) && cur != goal
    requires OnGround(t, s, open0, parent0) && Stands(t, s, cur)
    ensures OnGround(t, s, open, parent)
    ensures Searching(t, s, goal, open, parent, g)
    ensures Potential(g, KEYS) < Potential(g0, KEYS) || (g == g0 && open == open0)
  {
    open, parent, g := open0, parent0, g0;
    for i := 0 to 4
      invariant ExpandingAny(t, s, goal, open, parent, g, cur, i)
      invariant OnGround(t, s, open, parent)
      invariant Potential(g, KEYS) < Potential(g0, KEYS) || (g == g0 && open == open0)
    {
      var n := Neighbour(cur, i);
      if !t.passable(n) {
        SkipNeighbour(t, s, goal, open, parent, g, cur, i);
        continue;
      }
      var tentative := ScoreOf(g, Key(cur)) + 1;
      if tentative < ScoreOf(g, Key(n)) {
        RelaxNeighbour(t, s, goal, open, parent, g, cur, i, n, tentative);
        parent := parent[Key(n) := cur];
        g := g[Key(n) := tentative];
        open := open + multiset{Node(n, tentative + Heuristic(n, goal))};
      } else {
        SkipNeighbour(t, s, goal, open, parent, g, cur, i);
      }
    }
    FinishExpanding(t, s, goal, open, parent, g, cur);
  }

  lemma SearchStarts(t: Terrain, s: Cell, goal: Cell)
    ensures Searching(t, s, goal, multiset{Node(s, Heuristic(s, goal))}, map[], map[Key(s) := 0])
  {
    assert Leads(t, s, [], s);
  }

  lemma SearchEnds(t: Terrain, s: Cell, goal: Cell, open: Heap, parent: Parents, g: Scores, cur: Option<Node>)
    requires Searching(t, s, goal, open, parent, g) && KeysDistinct(t, s)
    requires if cur.None? then open == multiset{} else
      cur.value in open && cur.value.cell == goal && forall n :: n in open ==> cur.value.cost <= n.cost
    ensures SearchResult(t, s, goal, cur.Some?, parent, g)
  {
    if cur.None? {
      EmptyHeapMeansNoChain(t, s, goal, parent, g);
    } else {
      PoppedGoalIsShortest(t, s, goal, open, parent, g, cur.value);
    }
  }

  method Search(t: Terrain, s: Cell, goal: Cell) returns (found: bool, parent: Parents, g: Scores)
    ensures Descends(s, parent, g)
    ensures found ==> Key(goal) in g && Stands(t, s, goal)
    ensures ParentsStand(t, s, parent)
    ensures KeysDistinct(t, s) ==> SearchResult(t, s, goal, found, parent, g)
  {
    var open := multiset{Node(s, Heuristic(s, goal))};
    parent := map[];
    g := map[Key(s) := 0];
    SearchStarts(t, s, goal);

    while open != multiset{}
      invariant Searching(t, s, goal, open, parent, g)
      invariant OnGround(t, s, open, parent)
      decreases Potential(g, KEYS), |open|
    {
      CheapestExists(open);
      var current :| current in open && forall n :: n in open ==> current.cost <= n.cost;
      if current.cell == goal {
        if KeysDistinct(t, s) {
          SearchEnds(t, s, goal, open, parent, g, Some(current));
        }
        return true, parent, g;
      }
      PopStep(t, s, goal, open, parent, g, current);
      open := open - multiset{current};
      if ScoreOf(g, Key(current.cell)) < current.cost - Heuristic(current.cell, goal) {
        continue;
      }
      open, parent, g := Expand(t, s, goal, open, parent, g, current.cell);
    }
    if KeysDistinct(t, s) {
      SearchEnds(t, s, goal, open, parent, g, None);
    }
    found := false;
  }

  // ----- reconstruction -----

  function Reversed<T>(q: seq<T>): (r: seq<T>)
    ensures |r| == |q|
    ensures forall i :: 0 <= i < |q| ==> r[i] == q[|q| - 1 - i]
  {
    seq(|q|, i requires 0 <= i < |q| => q[|q| - 1 - i])
  }

  /** Walks the parent links from the target back to the start, then reverses. */
  method Reconstruct(ghost t: Terrain, s: Cell, goal: Cell, parent: Parents, ghost g: Scores) returns (path: seq<Cell>)
    requires Descends(s, parent, g) && Key(goal) in g
    requires ParentsStand(t, s, parent) && Stands(t, s, goal)
    ensures AllPassable(t, path)
    ensures KeysDistinct(t, s) && Traced(t, s, parent) && Reachable(t, s, goal) ==>
      Leads(t, s, path, goal) && |path| <= g[Key(goal)]
    ensures s != goal ==> path != []
  {
    ghost var ideal := KeysDistinct(t, s) && Traced(t, s, parent) && Reachable(t, s, goal);
    assert Leads(t, s, [], s);
    path := [];
    var cur := goal;
    while cur != s
      invariant Key(cur) in g && (cur != goal ==> path != [])
      invariant Stands(t, s, cur) && AllPassable(t, path)
      invariant ideal ==>
        Reachable(t, s, cur) && Leads(t, cur, Reversed(path), goal) && |path| + g[Key(cur)] <= g[Key(goal)]
      decreases g[Key(cur)]
    {
      ghost var behind := Reversed(path);
      path := path + [cur];
      assert Reversed(path) == [cur] + behind;
      assert Reversed(path)[1..] == behind;
      if Key(cur) in parent {
        cur := parent[Key(cur)];
      } else {
        assert !ideal;
        break;
      }
    }
    path := Reversed(path);
  }

  /** The uncached core: search, then reconstruct. */
  method ShortestPath(t: Terrain, s: Cell, goal: Cell) returns (found: bool, path: seq<Cell>)
    requires s != goal
    ensures found ==> path != []
    ensures AllPassable(t, path)
    ensures KeysDistinct(t, s) ==>
      found == ShortChainExists(t, s, goal) && (found ==> Shortest(t, s, goal, path))
  {
    var parent, g;
    found, parent, g := Search(t, s, goal);
    path := [];
    if found {
      path := Reconstruct(t, s, goal, parent, g);
    }
  }

  // ----- the entry point and its cache -----

  /** A float cast to an integer drops the fraction. */
  function Truncate(r: real): int {
    if r >= 0.0 then r.Floor else -((-r).Floor)
  }

  function ToWaypoints(path: seq<Cell>, y: real): seq<Waypoint> {
    seq(|path|, i requires 0 <= i < |path| => Waypoint(path[i].x as real + 0.5, y, path[i].z as real + 0.5))
  }

  /** The number without its fraction: nearest towards zero, never beyond. */
  lemma TruncateExact(r: real)
    ensures r >= 0.0 ==> Truncate(r) as real <= r < (Truncate(r) + 1) as real
    ensures r <= 0.0 ==> (Truncate(r) - 1) as real < r <= Truncate(r) as real
  {
  }

  /** A waypoint lies over its cell, in the middle, at the height of the target. */
  lemma WaypointCentred(path: seq<Cell>, y: real, i: nat)
    requires i < |path|
    ensures
      var w := ToWaypoints(path, y)[i];
      Cell(w.x.Floor, w.z.Floor) == path[i] && w.y == y && w.x - w.x.Floor as real == w.z - w.z.Floor as real == 0.5
  {
  }

  /** No waypoint stands where the world is solid at foot and head height. */
  ghost predicate AvoidsWalls(chunks: map<Cell, Chunk>, world: (int, int, int) -> nat, footY: int, r: seq<Waypoint>) {
    forall i :: 0 <= i < |r| ==>
      var c := Cell(r[i].x.Floor, r[i].z.Floor);
      Loaded(chunks, c) && Clear(world, footY, c)
  }

  lemma PassableAvoidsWalls(chunks: map<Cell, Chunk>, world: (int, int, int) -> nat, footY: int, q: seq<Cell>, y: real)
    requires Shows(chunks, world) && AllPassable(TerrainAt(chunks, footY), q)
    ensures AvoidsWalls(chunks, world, footY, ToWaypoints(q, y))
  {
    forall i | 0 <= i < |q|
      ensures Loaded(chunks, q[i]) && Clear(world, footY, q[i])
    {
      PassableInWorld(chunks, world, footY, q[i]);
    }
    forall i | 0 <= i < |q|
      ensures
        var w := ToWaypoints(q, y)[i];
        Cell(w.x.Floor, w.z.Floor) == q[i]
    {
      WaypointCentred(q, y, i);
    }
  }

  datatype CacheKey = CacheKey(from: Cell, to: Cell)

  datatype CacheEntry = CacheEntry(path: seq<Waypoint>, uses: nat)

  const CACHE_MAX: nat := 64

  const MAX_DIST: nat := 16

  function ChunkKey(s: Cell, goal: Cell): CacheKey {
    CacheKey(Cell(s.x / 16, s.z / 16), Cell(goal.x / 16, goal.z / 16))
  }

  /** Paths share a cache entry exactly when they begin in the same chunk and end in the same chunk. */
  lemma ChunkKeyExact(s: Cell, goal: Cell, from: Cell, to: Cell)
    ensures ChunkKey(s, goal) == CacheKey(from, to) <==> InChunk(from, s) && InChunk(to, goal)
  {
  }

  function CellAt(w: Waypoint): Cell {
    Cell(Truncate(w.x), Truncate(w.z))
  }

  /** Start and target are close enough to search for a path, and not adjacent. */
  predicate Searches(s: Cell, goal: Cell) {
    && (Abs(s.x - goal.x) > 1 || Abs(s.z - goal.z) > 1)
    && Abs(s.x - goal.x) <= MAX_DIST && Abs(s.z - goal.z) <= MAX_DIST
  }

  /** A search takes place exactly when the larger of the two distances is from 2 up to 16 blocks. */
  lemma SearchesRange(s: Cell, goal: Cell)
    ensures Searches(s, goal) <==> 2 <= Max(Abs(s.x - goal.x), Abs(s.z - goal.z)) <= 16
  {
  }

  predicate LeastUsed(cache: map<CacheKey, CacheEntry>, k: CacheKey) {
    k in cache && forall j :: j in cache ==> cache[k].uses <= cache[j].uses
  }

  /** Inserting into the cache: below the capacity nothing is lost, at capacity one least-used entry goes. */
  ghost predicate Remembered(before: map<CacheKey, CacheEntry>, key: CacheKey, path: seq<Waypoint>,
                             after: map<CacheKey, CacheEntry>) {
    if |before| < CACHE_MAX then after == before[key := CacheEntry(path, 1)]
    else exists victim :: LeastUsed(before, victim) && after == (before - {victim})[key := CacheEntry(path, 1)]
  }

  lemma {:induction false} LeastUsedExists(cache: map<CacheKey, CacheEntry>)
    requires cache != map[]
    ensures exists k :: LeastUsed(cache, k)
    decreases |cache|
  {
    var k :| k in cache;
    var rest := cache - {k};
    assert rest.Keys == cache.Keys - {k};
    if rest == map[] {
      assert forall j :: j in cache ==> j == k || j in rest.Keys;
      assert LeastUsed(cache, k);
    } else {
      LeastUsedExists(rest);
      var r :| LeastUsed(rest, r);
      assert forall j :: j in cache ==> j == k || j in rest;
      assert LeastUsed(cache, if cache[k].uses <= cache[r].uses then k else r);
    }
  }

  class PathFinder {
    var pathCache: map<CacheKey, CacheEntry>

    ghost predicate Valid()
      reads this
    {
      |pathCache| <= CACHE_MAX
    }

    constructor ()
      ensures Valid() && pathCache == map[]
    {
      pathCache := map[];
    }

    method Remember(key: CacheKey, path: seq<Waypoint>)
      requires Valid() && key !in pathCache
      modifies this
      ensures Valid() && Remembered(old(pathCache), key, path, pathCache)
    {
      if |pathCache| < CACHE_MAX {
        InsertSize(pathCache, key, CacheEntry(path, 1));
        pathCache := pathCache[key := CacheEntry(path, 1)];
      } else {
        LeastUsedExists(pathCache);
        var oldest :| oldest in pathCache && LeastUsed(pathCache, oldest);
        RemoveSize(pathCache, oldest);
        InsertSize(pathCache - {oldest}, key, CacheEntry(path, 1));
        pathCache := pathCache - {oldest};
        pathCache := pathCache[key := CacheEntry(path, 1)];
      }
    }

    /** The waypoints from `start` (excluded) to `target`, or the target itself when there is nothing to search. */
    method FindPath(start: Waypoint, target: Waypoint, chunks: map<Cell, Chunk>) returns (r: seq<Waypoint>)
      requires Valid()
      modifies this
      ensures Valid()
      ensures
        var s, goal, t := CellAt(start), CellAt(target), TerrainAt(chunks, Truncate(start.y));
        var key := ChunkKey(s, goal);
        if !Searches(s, goal) then
          r == [target] && pathCache == old(pathCache)
        else if key in old(pathCache) then
          && r == old(pathCache)[key].path
          && pathCache == old(pathCache)[key := CacheEntry(r, (old(pathCache)[key].uses + 1) % 0x1_0000_0000_0000_0000)]
        else
          && ((r == [target] && pathCache == old(pathCache)) || Remembered(old(pathCache), key, r, pathCache))
          && (r == [target] ||
                forall world :: Shows(chunks, world) ==> AvoidsWalls(chunks, world, Truncate(start.y), r))
          && (KeysDistinct(t, s) && !ShortChainExists(t, s, goal) ==> r == [target] && pathCache == old(pathCache))
          && (KeysDistinct(t, s) && ShortChainExists(t, s, goal) ==>
                && Remembered(old(pathCache), key, r, pathCache)
                && exists q :: q != [] && Shortest(t, s, goal, q) && r == ToWaypoints(q, target.y))
    {
      var s, goal := CellAt(start), CellAt(target);
      if Abs(s.x - goal.x) <= 1 && Abs(s.z - goal.z) <= 1 {
        return [target];
      }
      if Abs(s.x - goal.x) > MAX_DIST || Abs(s.z - goal.z) > MAX_DIST {
        return [target];
      }
      var key := ChunkKey(s, goal);
      if key in pathCache {
        var hit := pathCache[key];
        pathCache := pathCache[key := hit.(uses := (hit.uses + 1) % 0x1_0000_0000_0000_0000)];
        assert pathCache.Keys == old(pathCache).Keys;
        return hit.path;
      }
      var t := TerrainAt(chunks, Truncate(start.y));
      var found, path := ShortestPath(t, s, goal);
      if !found {
        return [target];
      }
      r := ToWaypoints(path, target.y);
      forall world | Shows(chunks, world)
        ensures AvoidsWalls(chunks, world, Truncate(start.y), r)
      {
        PassableAvoidsWalls(chunks, world, Truncate(start.y), path, target.y);
      }
      if r != [] {
        Remember(key, r);
      }
    }
  }
}
