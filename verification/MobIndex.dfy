/**
 The mob table and its spatial index: for each chunk, the ids of the mobs put there. Positions may change without
 the index being told. The square root of the source is a function that comes with the query.
*/
module MobIndex {
  import opened Common
  import opened Position
  import opened Sorting

  datatype Mob = Mob(id: int, x: real, y: real, z: real)

  datatype Index = Index(mobs: map<int, Mob>, chunks: map<ChunkPos, seq<int>>)

  /** Where to look, and the square root to measure with. */
  datatype Query = Query(x: real, y: real, z: real, radius: real, root: real -> real)

  function ChunkAt(x: real, z: real): ChunkPos {
    ChunkPos(x.Floor / 16, z.Floor / 16)
  }

  function ChunkOf(m: Mob): ChunkPos {
    ChunkAt(m.x, m.z)
  }

  function ListAt(ix: Index, c: ChunkPos): seq<int> {
    if c in ix.chunks then ix.chunks[c] else []
  }

  function Registered(ix: Index, m: Mob): Index {
    Index(ix.mobs[m.id := m], ix.chunks[ChunkOf(m) := ListAt(ix, ChunkOf(m)) + [m.id]])
  }

  function Without(ids: seq<int>, id: int): seq<int> {
    if ids == [] then []
    else if ids[|ids| - 1] == id then Without(ids[..|ids| - 1], id)
    else Without(ids[..|ids| - 1], id) + [ids[|ids| - 1]]
  }

  function Removed(ix: Index, id: int): Index {
    if id !in ix.mobs then ix
    else
      var c := ChunkOf(ix.mobs[id]);
      Index(ix.mobs - {id}, if c in ix.chunks then ix.chunks[c := Without(ix.chunks[c], id)] else ix.chunks)
  }

  function AbsReal(r: real): real {
    if r < 0.0 then -r else r
  }

  /** Moves of less than a hundredth on every axis are ignored. */
  predicate Ignored(m: Mob, x: real, y: real, z: real) {
    AbsReal(m.x - x) < 0.01 && AbsReal(m.y - y) < 0.01 && AbsReal(m.z - z) < 0.01
  }

  /** The index is never touched. */
  function Moved(ix: Index, id: int, x: real, y: real, z: real): Index {
    if id !in ix.mobs then ix
    else
      var m := ix.mobs[id];
      if Ignored(m, x, y, z) then ix
      else ix.(mobs := ix.mobs[id := Mob(m.id, x, y, z)])
  }

  /** A move puts the mob where it is sent unless no coordinate changes by a hundredth, and touches no other mob. */
  lemma MovedTo(ix: Index, id: int, x: real, y: real, z: real)
    requires id in ix.mobs
    ensures
      var after, m := Moved(ix, id, x, y, z), ix.mobs[id];
      && after.chunks == ix.chunks && after.mobs - {id} == ix.mobs - {id} && id in after.mobs
      && after.mobs[id] ==
         if -0.01 < x - m.x < 0.01 && -0.01 < y - m.y < 0.01 && -0.01 < z - m.z < 0.01 then m else Mob(m.id, x, y, z)
  {
    var after := Moved(ix, id, x, y, z);
    assert after.mobs - {id} == ix.mobs - {id};
  }

  /** A registered mob is known as it is, and touches no other. */
  lemma RegisteredAs(ix: Index, m: Mob)
    ensures
      var after := Registered(ix, m);
      m.id in after.mobs && after.mobs[m.id] == m && after.mobs - {m.id} == ix.mobs - {m.id}
  {
    assert Registered(ix, m).mobs - {m.id} == ix.mobs - {m.id};
  }

  // ----- when the index is exact -----

  /** Every mob is listed once, under the chunk it is in, and nothing else is listed. */
  ghost predicate Exact(ix: Index) {
    && (forall id :: id in ix.mobs ==> ix.mobs[id].id == id && id in ListAt(ix, ChunkOf(ix.mobs[id])))
    && (forall c, i :: c in ix.chunks && 0 <= i < |ix.chunks[c]| ==>
          ix.chunks[c][i] in ix.mobs && ChunkOf(ix.mobs[ix.chunks[c][i]]) == c)
    && (forall c :: c in ix.chunks ==> NoRepeats(ix.chunks[c]))
  }

  lemma {:induction false} WithoutExact(ids: seq<int>, id: int)
    ensures forall e :: e in Without(ids, id) <==> e in ids && e != id
  {
    if ids != [] {
      WithoutExact(ids[..|ids| - 1], id);
      assert ids == ids[..|ids| - 1] + [ids[|ids| - 1]];
    }
  }

  lemma {:induction false} WithoutDistinct(ids: seq<int>, id: int)
    requires NoRepeats(ids)
    ensures NoRepeats(Without(ids, id))
  {
    if ids != [] {
      var n := |ids| - 1;
      WithoutDistinct(ids[..n], id);
      WithoutExact(ids[..n], id);
      var r := Without(ids[..n], id);
      forall i | 0 <= i < |r|
        ensures r[i] != ids[n]
      {
        assert r[i] in Without(ids[..n], id);
        var k :| 0 <= k < n && ids[..n][k] == r[i];
        assert ids[k] == r[i];
      }
    }
  }

  lemma RegisterNew(ix: Index, m: Mob)
    requires Exact(ix) && m.id !in ix.mobs
    ensures Exact(Registered(ix, m))
  {
    var after := Registered(ix, m);
    var list := after.chunks[ChunkOf(m)];
    assert list[|list| - 1] == m.id;
    forall id | id in after.mobs
      ensures after.mobs[id].id == id && id in ListAt(after, ChunkOf(after.mobs[id]))
    {
      if id != m.id {
        assert id in ListAt(ix, ChunkOf(ix.mobs[id]));
      }
    }
  }

  lemma RegisterAgain(ix: Index, m: Mob)
    requires Exact(ix) && m.id in ix.mobs
    ensures !Exact(Registered(ix, m))
  {
    var after, c, c0 := Registered(ix, m), ChunkOf(m), ChunkOf(ix.mobs[m.id]);
    var list := after.chunks[c];
    var n := |list| - 1;
    assert list[n] == m.id;
    assert m.id in ListAt(ix, c0);
    var i :| 0 <= i < |ix.chunks[c0]| && ix.chunks[c0][i] == m.id;
    assert after.chunks[c0][i] == m.id;
    if c0 == c {
      assert list[i] == list[n] && !NoRepeats(list);
    } else {
      assert ChunkOf(after.mobs[after.chunks[c0][i]]) != c0;
    }
  }

  /** Registering keeps the index exact exactly when the id is new. */
  lemma RegisterExact(ix: Index, m: Mob)
    requires Exact(ix)
    ensures Exact(Registered(ix, m)) <==> m.id !in ix.mobs
  {
    if m.id in ix.mobs {
      RegisterAgain(ix, m);
    } else {
      RegisterNew(ix, m);
    }
  }

  lemma RemoveExact(ix: Index, id: int)
    requires Exact(ix)
    ensures Exact(Removed(ix, id)) && Removed(ix, id).mobs == ix.mobs - {id}
  {
    if id in ix.mobs {
      var c := ChunkOf(ix.mobs[id]);
      assert id in ListAt(ix, c);
      WithoutExact(ix.chunks[c], id);
      WithoutDistinct(ix.chunks[c], id);
      var after := Removed(ix, id);
      forall d, i | d in after.chunks && 0 <= i < |after.chunks[d]|
        ensures after.chunks[d][i] in after.mobs && ChunkOf(after.mobs[after.chunks[d][i]]) == d
      {
        var e := after.chunks[d][i];
        assert e in after.chunks[d] && e in ix.chunks[d];
      }
      forall e | e in after.mobs
        ensures after.mobs[e].id == e && e in ListAt(after, ChunkOf(after.mobs[e]))
      {
        assert e in ListAt(ix, ChunkOf(ix.mobs[e]));
      }
    } else {
      assert ix.mobs - {id} == ix.mobs;
    }
  }

  /** A move keeps the index exact exactly when it is ignored or its target lies in the chunk the mob is in. */
  lemma MoveExact(ix: Index, id: int, x: real, y: real, z: real)
    requires Exact(ix)
    ensures Exact(Moved(ix, id, x, y, z)) <==>
      (id in ix.mobs ==> Ignored(ix.mobs[id], x, y, z) || ChunkAt(x, z) == ChunkOf(ix.mobs[id]))
  {
    var after := Moved(ix, id, x, y, z);
    if id in ix.mobs {
      var c := ChunkOf(ix.mobs[id]);
      assert id in ListAt(ix, c);
      var i :| 0 <= i < |ix.chunks[c]| && ix.chunks[c][i] == id;
      if ChunkOf(after.mobs[id]) != c {
        assert after.chunks[c][i] == id;
      } else {
        forall e | e in after.mobs
          ensures after.mobs[e].id == e && e in ListAt(after, ChunkOf(after.mobs[e]))
        {
          assert e in ListAt(ix, ChunkOf(ix.mobs[e]));
        }
      }
    }
  }

  // ----- the index while mobs move -----

  datatype Event = Register(mob: Mob) | Remove(id: int) | Move(id: int, x: real, y: real, z: real)

  function Step(ix: Index, e: Event): Index {
    match e
    case Register(m) => Registered(ix, m)
    case Remove(id) => Removed(ix, id)
    case Move(id, x, y, z) => Moved(ix, id, x, y, z)
  }

  function After(events: seq<Event>): Index {
    if events == [] then Index(map[], map[]) else Step(After(events[..|events| - 1]), events[|events| - 1])
  }

  /** For every id ever registered, the chunk it was registered in. */
  function Homes(events: seq<Event>): map<int, ChunkPos> {
    if events == [] then map[]
    else
      var before, last := Homes(events[..|events| - 1]), events[|events| - 1];
      if last.Register? then before[last.mob.id := ChunkOf(last.mob)] else before
  }

  /** No id is registered twice; the server counts entity ids up. */
  ghost predicate FreshIds(events: seq<Event>) {
    events == [] ||
    var before, last := events[..|events| - 1], events[|events| - 1];
    FreshIds(before) && (last.Register? ==> last.mob.id !in Homes(before))
  }

  /** Every mob is listed under its home, wherever it is now; what else is listed is listed under its home as well. */
  ghost predicate Homed(ix: Index, homes: map<int, ChunkPos>) {
    && (forall id :: id in ix.mobs ==> ix.mobs[id].id == id && id in homes && id in ListAt(ix, homes[id]))
    && (forall c, i :: c in ix.chunks && 0 <= i < |ix.chunks[c]| ==>
          ix.chunks[c][i] in homes && homes[ix.chunks[c][i]] == c)
    && (forall c :: c in ix.chunks ==> NoRepeats(ix.chunks[c]))
  }

  lemma ListedAtHome(ix: Index, homes: map<int, ChunkPos>, c: ChunkPos, id: int)
    requires Homed(ix, homes) && id in ListAt(ix, c)
    ensures id in homes && homes[id] == c
  {
    var i :| 0 <= i < |ix.chunks[c]| && ix.chunks[c][i] == id;
  }

  lemma RegisterHomed(ix: Index, homes: map<int, ChunkPos>, m: Mob)
    requires Homed(ix, homes) && m.id !in homes
    ensures Homed(Registered(ix, m), homes[m.id := ChunkOf(m)])
  {
    var after, to := Registered(ix, m), homes[m.id := ChunkOf(m)];
    var list := after.chunks[ChunkOf(m)];
    assert list[|list| - 1] == m.id;
    forall id | id in after.mobs
      ensures after.mobs[id].id == id && id in to && id in ListAt(after, to[id])
    {
      if id != m.id {
        assert id in ListAt(ix, homes[id]);
      }
    }
    if m.id in ListAt(ix, ChunkOf(m)) {
      ListedAtHome(ix, homes, ChunkOf(m), m.id);
    }
    AppendFresh(ListAt(ix, ChunkOf(m)), m.id);
  }

  lemma RemoveHomed(ix: Index, homes: map<int, ChunkPos>, id: int)
    requires Homed(ix, homes)
    ensures Homed(Removed(ix, id), homes)
  {
    var after := Removed(ix, id);
    if id in ix.mobs {
      var c := ChunkOf(ix.mobs[id]);
      if c in ix.chunks {
        WithoutExact(ix.chunks[c], id);
        WithoutDistinct(ix.chunks[c], id);
      }
      forall d, i | d in after.chunks && 0 <= i < |after.chunks[d]|
        ensures after.chunks[d][i] in homes && homes[after.chunks[d][i]] == d
      {
        assert after.chunks[d][i] in after.chunks[d];
        ListedAtHome(ix, homes, d, after.chunks[d][i]);
      }
      forall e | e in after.mobs
        ensures after.mobs[e].id == e && e in homes && e in ListAt(after, homes[e])
      {
        assert e in ListAt(ix, homes[e]);
      }
    }
  }

  lemma {:induction false} RunHomed(events: seq<Event>)
    requires FreshIds(events)
    ensures Homed(After(events), Homes(events))
    decreases |events|
  {
    if events != [] {
      var n := |events| - 1;
      RunHomed(events[..n]);
      var ix, homes := After(events[..n]), Homes(events[..n]);
      hide After, Homes, Removed, Registered;
      match events[n]
      case Register(m) => RegisterHomed(ix, homes, m);
      case Remove(id) => RemoveHomed(ix, homes, id);
      case Move(id, x, y, z) => MoveHomed(ix, homes, id, x, y, z);
    }
  }

  lemma MoveHomed(ix: Index, homes: map<int, ChunkPos>, id: int, x: real, y: real, z: real)
    requires Homed(ix, homes)
    ensures Homed(Moved(ix, id, x, y, z), homes)
  {
    var after := Moved(ix, id, x, y, z);
    forall e | e in after.mobs
      ensures after.mobs[e].id == e && e in homes && e in ListAt(after, homes[e])
    {
      assert e in ListAt(ix, homes[e]);
    }
  }

  /** In an exact index every mob is at home. */
  lemma ExactHomed(ix: Index) returns (homes: map<int, ChunkPos>)
    requires Exact(ix)
    ensures Homed(ix, homes) && homes.Keys == ix.mobs.Keys && forall id :: id in ix.mobs ==>
      homes[id] == ChunkOf(ix.mobs[id])
  {
    homes := map id | id in ix.mobs :: ChunkOf(ix.mobs[id]);
  }

  // ----- range queries -----

  function Distance2(m: Mob, q: Query): real {
    (m.x - q.x) * (m.x - q.x) + (m.y - q.y) * (m.y - q.y) + (m.z - q.z) * (m.z - q.z)
  }

  /** Along one axis the squared distance is the square of the difference, and differences along different axes add
      up: in space, not on the ground. */
  lemma DistanceByAxes(m: Mob, q: Query)
    ensures m.y == q.y && m.z == q.z ==> Distance2(m, q) == (m.x - q.x) * (m.x - q.x)
    ensures m.x == q.x && m.z == q.z ==> Distance2(m, q) == (m.y - q.y) * (m.y - q.y)
    ensures m.x == q.x && m.y == q.y ==> Distance2(m, q) == (m.z - q.z) * (m.z - q.z)
    ensures Distance2(m, q) == Distance2(m.(y := q.y, z := q.z), q) + Distance2(m.(x := q.x), q)
    ensures Distance2(m, q) == Distance2(m.(y := q.y), q) + Distance2(m.(x := q.x, z := q.z), q)
  {
  }

  function Distance(m: Mob, q: Query): real {
    q.root(Distance2(m, q))
  }

  ghost predicate IsRoot(root: real -> real) {
    forall r: real :: r >= 0.0 ==> root(r) >= 0.0 && root(r) * root(r) == r
  }

  /** The brute-force answer. */
  predicate InRange(ix: Index, q: Query, id: int) {
    id in ix.mobs && Distance2(ix.mobs[id], q) <= q.radius * q.radius
  }

  function Ceil(r: real): int {
    -((-r).Floor)
  }

  function ChunkRadius(radius: real): int {
    Max(Ceil(radius / 16.0), 1)
  }

  predicate InWindow(c: ChunkPos, q: Query) {
    var r, at := ChunkRadius(q.radius), ChunkAt(q.x, q.z);
    at.x - r <= c.x <= at.x + r && at.z - r <= c.z <= at.z + r
  }

  function ListHits(ix: Index, q: Query, ids: seq<int>): seq<Keyed<int>> {
    if ids == [] then []
    else
      var id := ids[|ids| - 1];
      ListHits(ix, q, ids[..|ids| - 1]) + if InRange(ix, q, id) then [Keyed(Distance(ix.mobs[id], q), id)] else []
  }

  /** Hits in the chunks (x, lo), …, (x, hi - 1). */
  function RowHits(ix: Index, q: Query, x: int, lo: int, hi: int): seq<Keyed<int>>
    decreases hi - lo
  {
    if hi <= lo then [] else RowHits(ix, q, x, lo, hi - 1) + ListHits(ix, q, ListAt(ix, ChunkPos(x, hi - 1)))
  }

  /** Hits in the rows x = lo, …, hi - 1 of the window. */
  function WindowHits(ix: Index, q: Query, lo: int, hi: int, zlo: int, zhi: int): seq<Keyed<int>>
    decreases hi - lo
  {
    if hi <= lo then [] else WindowHits(ix, q, lo, hi - 1, zlo, zhi) + RowHits(ix, q, hi - 1, zlo, zhi)
  }

  function Hits(ix: Index, q: Query): seq<Keyed<int>> {
    var r, at := ChunkRadius(q.radius), ChunkAt(q.x, q.z);
    WindowHits(ix, q, at.x - r, at.x + r + 1, at.z - r, at.z + r + 1)
  }

  /** A hit carries a mob in range, and its distance. */
  ghost predicate Sound(ix: Index, q: Query, hits: seq<Keyed<int>>) {
    forall i :: 0 <= i < |hits| ==> InRange(ix, q, hits[i].value) && hits[i].key == Distance(ix.mobs[hits[i].value], q)
  }

  ghost predicate Contains(hits: seq<Keyed<int>>, id: int) {
    exists i :: 0 <= i < |hits| && hits[i].value == id
  }

  lemma ContainsConcat(a: seq<Keyed<int>>, b: seq<Keyed<int>>, id: int)
    ensures Contains(a + b, id) <==> Contains(a, id) || Contains(b, id)
  {
    if Contains(a, id) {
      var i :| 0 <= i < |a| && a[i].value == id;
      assert (a + b)[i].value == id;
    }
    if Contains(b, id) {
      var i :| 0 <= i < |b| && b[i].value == id;
      assert (a + b)[|a| + i].value == id;
    }
  }

  lemma {:induction false} ListHitsExact(ix: Index, q: Query, ids: seq<int>, id: int)
    ensures Sound(ix, q, ListHits(ix, q, ids)) && |ListHits(ix, q, ids)| <= |ids|
    ensures Contains(ListHits(ix, q, ids), id) <==> id in ids && InRange(ix, q, id)
  {
    if ids != [] {
      var n := |ids| - 1;
      ListHitsExact(ix, q, ids[..n], id);
      var tail := if InRange(ix, q, ids[n]) then [Keyed(Distance(ix.mobs[ids[n]], q), ids[n])] else [];
      ContainsConcat(ListHits(ix, q, ids[..n]), tail, id);
      assert tail != [] ==> tail[0].value == ids[n];
      assert ids == ids[..n] + [ids[n]];
    }
  }

  lemma {:induction false} RowHitsExact(ix: Index, q: Query, x: int, lo: int, hi: int, id: int)
    ensures Sound(ix, q, RowHits(ix, q, x, lo, hi))
    ensures Contains(RowHits(ix, q, x, lo, hi), id) <==>
      InRange(ix, q, id) && exists z :: lo <= z < hi && id in ListAt(ix, ChunkPos(x, z))
    decreases hi - lo
  {
    if lo < hi {
      RowHitsExact(ix, q, x, lo, hi - 1, id);
      ListHitsExact(ix, q, ListAt(ix, ChunkPos(x, hi - 1)), id);
      ContainsConcat(RowHits(ix, q, x, lo, hi - 1), ListHits(ix, q, ListAt(ix, ChunkPos(x, hi - 1))), id);
    }
  }

  lemma {:induction false} WindowHitsExact(ix: Index, q: Query, lo: int, hi: int, zlo: int, zhi: int, id: int)
    ensures Sound(ix, q, WindowHits(ix, q, lo, hi, zlo, zhi))
    ensures Contains(WindowHits(ix, q, lo, hi, zlo, zhi), id) <==>
      InRange(ix, q, id) && exists x, z :: lo <= x < hi && zlo <= z < zhi && id in ListAt(ix, ChunkPos(x, z))
    decreases hi - lo
  {
    if lo < hi {
      WindowHitsExact(ix, q, lo, hi - 1, zlo, zhi, id);
      RowHitsExact(ix, q, hi - 1, zlo, zhi, id);
      ContainsConcat(WindowHits(ix, q, lo, hi - 1, zlo, zhi), RowHits(ix, q, hi - 1, zlo, zhi), id);
    }
  }

  /** Always, moved mobs or not: the hits are the mobs in range that are listed under a chunk of the window. */
  lemma HitsExact(ix: Index, q: Query, id: int)
    ensures Sound(ix, q, Hits(ix, q))
    ensures Contains(Hits(ix, q), id) <==>
      InRange(ix, q, id) && exists c :: InWindow(c, q) && id in ListAt(ix, c)
  {
    var r, at := ChunkRadius(q.radius), ChunkAt(q.x, q.z);
    WindowHitsExact(ix, q, at.x - r, at.x + r + 1, at.z - r, at.z + r + 1, id);
    if c :| InWindow(c, q) && id in ListAt(ix, c) {
      assert id in ListAt(ix, ChunkPos(c.x, c.z));
    }
    if x, z :| at.x - r <= x < at.x + r + 1 && at.z - r <= z < at.z + r + 1 && id in ListAt(ix, ChunkPos(x, z)) {
      assert InWindow(ChunkPos(x, z), q);
    }
  }

  // ----- the window reaches far enough -----

  lemma SquareBound(a: real, b: real)
    requires a * a <= b * b && 0.0 <= b
    ensures -b <= a <= b
  {
    if a > b {
      SquareGrows(b, a);
      assert false;
    }
    if -a > b {
      SquareGrows(b, -a);
      assert false;
    }
  }

  lemma SquareGrows(b: real, a: real)
    requires 0.0 <= b < a
    ensures b * b < a * a && (-a) * (-a) == a * a
  {
    var u, v := a - b, a + b;
    assert u * v > 0.0;
    assert u * v == a * a - b * b;
  }

  lemma SquareNonNegative(a: real)
    ensures a * a >= 0.0
  {
  }

  lemma ChunksApart(a: real, b: real, r: int)
    requires a <= b + 16.0 * r as real
    ensures a.Floor / 16 <= b.Floor / 16 + r
  {
    assert a.Floor as real <= a;
    assert a.Floor as real < (b.Floor + 1 + 16 * r) as real;
    assert a.Floor <= b.Floor + 16 * r;
  }

  /** The radius fits in the chunk radius of the window. A negative radius of less than a chunk still does. */
  lemma RadiusCovered(radius: real)
    requires radius >= -16.0
    ensures AbsReal(radius) <= 16.0 * ChunkRadius(radius) as real
  {
    var c := Ceil(radius / 16.0);
    assert (-(radius / 16.0)).Floor as real <= -(radius / 16.0);
    assert radius / 16.0 <= c as real;
  }

  /** The chunk radius is the least, from one on, that covers the radius. */
  lemma ChunkRadiusLeast(radius: real)
    ensures ChunkRadius(radius) >= 1 && radius <= 16.0 * ChunkRadius(radius) as real
    ensures ChunkRadius(radius) > 1 ==> radius > 16.0 * (ChunkRadius(radius) - 1) as real
  {
    var c := Ceil(radius / 16.0);
    assert (-(radius / 16.0)).Floor as real <= -(radius / 16.0) < ((-(radius / 16.0)).Floor + 1) as real;
    assert (c - 1) as real < radius / 16.0 <= c as real;
  }

  /** A mob in range stands in a chunk of the window. */
  lemma WindowCovers(ix: Index, q: Query, id: int)
    requires q.radius >= -16.0 && InRange(ix, q, id)
    ensures InWindow(ChunkOf(ix.mobs[id]), q)
  {
    var m, r, reach := ix.mobs[id], ChunkRadius(q.radius), AbsReal(q.radius);
    var dx, dy, dz := m.x - q.x, m.y - q.y, m.z - q.z;
    SquareNonNegative(dx);
    SquareNonNegative(dy);
    SquareNonNegative(dz);
    assert reach * reach == q.radius * q.radius;
    SquareBound(dx, reach);
    SquareBound(dz, reach);
    RadiusCovered(q.radius);
    ChunksApart(m.x, q.x, r);
    ChunksApart(q.x, m.x, r);
    ChunksApart(m.z, q.z, r);
    ChunksApart(q.z, m.z, r);
  }

  // ----- no mob is reported twice -----

  lemma DistinctConcat(a: seq<Keyed<int>>, b: seq<Keyed<int>>)
    requires Distinct(a) && Distinct(b)
    requires forall id :: !(Contains(a, id) && Contains(b, id))
    ensures Distinct(a + b)
  {
    forall i, j | 0 <= i < j < |a + b|
      ensures (a + b)[i].value != (a + b)[j].value
    {
      if i < |a| <= j {
        assert Contains(a, a[i].value) && Contains(b, b[j - |a|].value);
      }
    }
  }

  lemma {:induction false} ListHitsDistinct(ix: Index, q: Query, ids: seq<int>)
    requires NoRepeats(ids)
    ensures Distinct(ListHits(ix, q, ids))
  {
    if ids != [] {
      var n := |ids| - 1;
      ListHitsDistinct(ix, q, ids[..n]);
      ListHitsExact(ix, q, ids[..n], ids[n]);
      var before := ListHits(ix, q, ids[..n]);
      assert ids[n] !in ids[..n];
      assert !Contains(before, ids[n]);
      assert forall i :: 0 <= i < |before| ==> before[i].value != ids[n];
    }
  }

  lemma {:induction false} RowHitsDistinct(ix: Index, homes: map<int, ChunkPos>, q: Query, x: int, lo: int, hi: int)
    requires Homed(ix, homes)
    ensures Distinct(RowHits(ix, q, x, lo, hi))
    ensures forall id :: Contains(RowHits(ix, q, x, lo, hi), id) ==> id in homes && homes[id].x == x && homes[id].z < hi
    decreases hi - lo
  {
    if lo < hi {
      RowHitsDistinct(ix, homes, q, x, lo, hi - 1);
      var c := ChunkPos(x, hi - 1);
      var before, list := RowHits(ix, q, x, lo, hi - 1), ListHits(ix, q, ListAt(ix, c));
      ListHitsDistinct(ix, q, ListAt(ix, c));
      forall id
        ensures Contains(list, id) ==> id in homes && homes[id] == c
        ensures Contains(before + list, id) <==> Contains(before, id) || Contains(list, id)
      {
        ListHitsExact(ix, q, ListAt(ix, c), id);
        ContainsConcat(before, list, id);
        if id in ListAt(ix, c) {
          ListedAtHome(ix, homes, c, id);
        }
      }
      DistinctConcat(before, list);
    }
  }

  lemma {:induction false} WindowHitsDistinct(ix: Index, homes: map<int, ChunkPos>, q: Query,
                                              lo: int, hi: int, zlo: int, zhi: int)
    requires Homed(ix, homes)
    ensures Distinct(WindowHits(ix, q, lo, hi, zlo, zhi))
    ensures forall id :: Contains(WindowHits(ix, q, lo, hi, zlo, zhi), id) ==> id in homes && homes[id].x < hi
    decreases hi - lo
  {
    if lo < hi {
      WindowHitsDistinct(ix, homes, q, lo, hi - 1, zlo, zhi);
      RowHitsDistinct(ix, homes, q, hi - 1, zlo, zhi);
      var before, row := WindowHits(ix, q, lo, hi - 1, zlo, zhi), RowHits(ix, q, hi - 1, zlo, zhi);
      forall id
        ensures Contains(before + row, id) <==> Contains(before, id) || Contains(row, id)
      {
        ContainsConcat(before, row, id);
      }
      DistinctConcat(before, row);
    }
  }

  // ----- the query against brute force -----

  /** With any index the answer is sorted and reports only mobs in range, at their true distance. */
  lemma QuerySound(ix: Index, q: Query)
    ensures Sorted(SortByKey(Hits(ix, q))) && Sound(ix, q, SortByKey(Hits(ix, q)))
  {
    var hits := Hits(ix, q);
    var r := SortByKey(hits);
    HitsExact(ix, q, 0);
    SortKeeps(hits);
    forall i | 0 <= i < |r|
      ensures InRange(ix, q, r[i].value) && r[i].key == Distance(ix.mobs[r[i].value], q)
    {
      SortMember(hits, r[i]);
      assert r[i] in r;
      var k :| 0 <= k < |hits| && hits[k] == r[i];
    }
  }

  /** Nearer mobs come first, with a true square root. */
  lemma NearestFirst(ix: Index, q: Query, hits: seq<Keyed<int>>, i: nat, j: nat)
    requires IsRoot(q.root) && Sorted(hits) && Sound(ix, q, hits) && i < j < |hits|
    ensures Distance2(ix.mobs[hits[i].value], q) <= Distance2(ix.mobs[hits[j].value], q)
  {
    var a, b := Distance2(ix.mobs[hits[i].value], q), Distance2(ix.mobs[hits[j].value], q);
    Distance2NonNegative(ix.mobs[hits[i].value], q);
    Distance2NonNegative(ix.mobs[hits[j].value], q);
    assert hits[i].key <= hits[j].key;
    RootsAscend(q.root(a), q.root(b));
  }

  lemma RootsAscend(a: real, b: real)
    requires 0.0 <= a <= b
    ensures a * a <= b * b
  {
    if a < b {
      SquareGrows(a, b);
    }
  }

  lemma Distance2NonNegative(m: Mob, q: Query)
    ensures Distance2(m, q) >= 0.0
  {
    SquareNonNegative(m.x - q.x);
    SquareNonNegative(m.y - q.y);
    SquareNonNegative(m.z - q.z);
  }

  lemma SortContains(hits: seq<Keyed<int>>, id: int)
    ensures Contains(SortByKey(hits), id) <==> Contains(hits, id)
  {
    var r := SortByKey(hits);
    SortKeeps(hits);
    if Contains(hits, id) {
      var i :| 0 <= i < |hits| && hits[i].value == id;
      assert hits[i] in r;
    }
    if Contains(r, id) {
      var i :| 0 <= i < |r| && r[i].value == id;
      assert r[i] in r && r[i] in hits;
    }
  }

  /** An id is found exactly when its mob is in range and its home is searched. */
  lemma HitsAtHome(ix: Index, homes: map<int, ChunkPos>, q: Query, id: int)
    requires Homed(ix, homes)
    ensures Contains(Hits(ix, q), id) <==> InRange(ix, q, id) && InWindow(homes[id], q)
  {
    HitsExact(ix, q, id);
    if id in ix.mobs {
      assert id in ListAt(ix, homes[id]);
    }
    if c :| InWindow(c, q) && id in ListAt(ix, c) {
      ListedAtHome(ix, homes, c, id);
    }
  }

  lemma HitsDistinct(ix: Index, homes: map<int, ChunkPos>, q: Query)
    requires Homed(ix, homes)
    ensures Distinct(Hits(ix, q))
  {
    var at, r := ChunkAt(q.x, q.z), ChunkRadius(q.radius);
    WindowHitsDistinct(ix, homes, q, at.x - r, at.x + r + 1, at.z - r, at.z + r + 1);
  }

  /** The answer in an index whose listings are all at home: sorted, no mob twice, each at its true distance, and
      exactly the mobs in range whose home is searched. */
  lemma HomedAnswer(ix: Index, homes: map<int, ChunkPos>, q: Query, id: int)
    requires Homed(ix, homes)
    ensures
      var r := SortByKey(Hits(ix, q));
      && Sorted(r) && Distinct(r) && Sound(ix, q, r)
      && (Contains(r, id) <==> InRange(ix, q, id) && InWindow(homes[id], q))
  {
    hide Hits, SortByKey, InRange, InWindow, Distance, Contains, Sound;
    HitsDistinct(ix, homes, q);
    QuerySound(ix, q);
    SortKeeps(Hits(ix, q));
    HitsAtHome(ix, homes, q, id);
    SortContains(Hits(ix, q), id);
  }

  /** Over any run of registrations, removals and moves without an id used twice: a query reports a mob, once and at
      its true distance, exactly when it is in range and the chunk of its registration is searched. */
  lemma RunReported(events: seq<Event>, q: Query, id: int)
    requires FreshIds(events)
    ensures
      var ix, r := After(events), SortByKey(Hits(After(events), q));
      && Sorted(r) && Distinct(r) && Sound(ix, q, r)
      && (Contains(r, id) <==> InRange(ix, q, id) && id in Homes(events) && InWindow(Homes(events)[id], q))
  {
    RunHomed(events);
    HomedAnswer(After(events), Homes(events), q, id);
  }

  /** So a query misses no mob exactly when every mob in range was registered in a chunk that is searched. */
  lemma RunComplete(events: seq<Event>, q: Query)
    requires FreshIds(events)
    ensures
      var ix, r := After(events), SortByKey(Hits(After(events), q));
      (forall id :: InRange(ix, q, id) ==> Contains(r, id)) <==>
        forall id :: InRange(ix, q, id) ==> id in Homes(events) && InWindow(Homes(events)[id], q)
  {
    hide InRange, After, Hits, SortByKey, InWindow, Homes;
    forall id
      ensures Contains(SortByKey(Hits(After(events), q)), id) <==>
        InRange(After(events), q, id) && id in Homes(events) && InWindow(Homes(events)[id], q)
    {
      RunReported(events, q, id);
    }
  }

  /** With an exact index the sorted answer is the brute-force answer: each mob in range once, nearest first. */
  lemma QueryExact(ix: Index, q: Query, id: int)
    requires Exact(ix) && q.radius >= -16.0
    ensures
      var r := SortByKey(Hits(ix, q));
      && Sorted(r) && Distinct(r) && Sound(ix, q, r)
      && (Contains(r, id) <==> InRange(ix, q, id))
  {
    var homes := ExactHomed(ix);
    HomedAnswer(ix, homes, q, id);
    if InRange(ix, q, id) {
      WindowCovers(ix, q, id);
    }
  }

  /** A mob that walked on is not found by a search around the place where it stands, although its first stop is. */
  lemma MovedMobMissed(root: real -> real)
    ensures
      var walk := [Register(Mob(1, 8.0, 64.0, 8.0)), Move(1, 68.0, 64.0, 8.0), Move(1, 128.0, 64.0, 8.0)];
      var q := Query(128.0, 64.0, 8.0, 64.0, root);
      && FreshIds(walk) && InRange(After(walk), q, 1) && InWindow(ChunkAt(68.0, 8.0), q)
      && !Contains(SortByKey(Hits(After(walk), q)), 1)
  {
    hide Hits, SortByKey;
    var start := [Register(Mob(1, 8.0, 64.0, 8.0))];
    var half := start + [Move(1, 68.0, 64.0, 8.0)];
    var walk := half + [Move(1, 128.0, 64.0, 8.0)];
    assert start[..0] == [] && half[..1] == start && walk[..2] == half;
    var q := Query(128.0, 64.0, 8.0, 64.0, root);
    assert After(start).mobs[1] == Mob(1, 8.0, 64.0, 8.0);
    assert After(half).mobs[1] == Mob(1, 68.0, 64.0, 8.0);
    assert After(walk).mobs[1] == Mob(1, 128.0, 64.0, 8.0);
    assert Homes(start)[1] == ChunkPos(0, 0) && Homes(half)[1] == ChunkPos(0, 0) && Homes(walk)[1] == ChunkPos(0, 0);
    assert FreshIds(start) && FreshIds(half) && FreshIds(walk);
    assert ChunkRadius(64.0) == 4 && ChunkAt(128.0, 8.0) == ChunkPos(8, 0) && ChunkAt(68.0, 8.0) == ChunkPos(4, 0);
    RunReported(walk, q, 1);
  }

  // ----- the count -----

  function RowCount(ix: Index, x: int, lo: int, hi: int): nat
    decreases hi - lo
  {
    if hi <= lo then 0 else RowCount(ix, x, lo, hi - 1) + |ListAt(ix, ChunkPos(x, hi - 1))|
  }

  function WindowCount(ix: Index, lo: int, hi: int, zlo: int, zhi: int): nat
    decreases hi - lo
  {
    if hi <= lo then 0 else WindowCount(ix, lo, hi - 1, zlo, zhi) + RowCount(ix, hi - 1, zlo, zhi)
  }

  function Count(ix: Index, q: Query): nat {
    var r, at := ChunkRadius(q.radius), ChunkAt(q.x, q.z);
    WindowCount(ix, at.x - r, at.x + r + 1, at.z - r, at.z + r + 1)
  }

  lemma {:induction false} RowCountBounds(ix: Index, q: Query, x: int, lo: int, hi: int)
    ensures |RowHits(ix, q, x, lo, hi)| <= RowCount(ix, x, lo, hi)
    decreases hi - lo
  {
    if lo < hi {
      RowCountBounds(ix, q, x, lo, hi - 1);
      ListHitsExact(ix, q, ListAt(ix, ChunkPos(x, hi - 1)), 0);
    }
  }

  lemma {:induction false} WindowCountBounds(ix: Index, q: Query, lo: int, hi: int, zlo: int, zhi: int)
    ensures |WindowHits(ix, q, lo, hi, zlo, zhi)| <= WindowCount(ix, lo, hi, zlo, zhi)
    decreases hi - lo
  {
    if lo < hi {
      WindowCountBounds(ix, q, lo, hi - 1, zlo, zhi);
      RowCountBounds(ix, q, hi - 1, zlo, zhi);
    }
  }

  lemma {:induction false} ValuesSize(hits: seq<Keyed<int>>, s: set<int>)
    requires forall id :: id in s ==> Contains(hits, id)
    ensures |s| <= |hits|
    decreases |hits|
  {
    if hits == [] {
      forall id
        ensures id !in s
      {
        assert !Contains(hits, id);
      }
      assert s == {};
    } else {
      var last := hits[|hits| - 1].value;
      forall id | id in s - {last}
        ensures Contains(hits[..|hits| - 1], id)
      {
        assert Contains(hits, id);
        var i :| 0 <= i < |hits| && hits[i].value == id;
        assert hits[..|hits| - 1][i].value == id;
      }
      ValuesSize(hits[..|hits| - 1], s - {last});
    }
  }

  lemma HitsBounded(ix: Index, q: Query)
    ensures |Hits(ix, q)| <= Count(ix, q)
  {
    var r, at := ChunkRadius(q.radius), ChunkAt(q.x, q.z);
    WindowCountBounds(ix, q, at.x - r, at.x + r + 1, at.z - r, at.z + r + 1);
  }

  /** The mobs in range, by brute force. */
  function AllInRange(ix: Index, q: Query): set<int> {
    set id | id in ix.mobs && InRange(ix, q, id)
  }

  lemma FoundAreCounted(ix: Index, q: Query, found: set<int>)
    requires forall id :: id in found ==> Contains(Hits(ix, q), id)
    ensures |found| <= Count(ix, q)
  {
    ValuesSize(Hits(ix, q), found);
    HitsBounded(ix, q);
  }

  /** The quick count is never below the number of mobs in range. */
  lemma CountNeverUnder(ix: Index, q: Query)
    requires Exact(ix) && q.radius >= -16.0
    ensures |AllInRange(ix, q)| <= Count(ix, q)
  {
    var homes := ExactHomed(ix);
    forall id | id in AllInRange(ix, q)
      ensures Contains(Hits(ix, q), id)
    {
      HitsAtHome(ix, homes, q, id);
      WindowCovers(ix, q, id);
    }
    FoundAreCounted(ix, q, AllInRange(ix, q));
  }

  /** Mobs in range whose registration chunk is searched. */
  function InRangeAtHome(events: seq<Event>, q: Query): set<int> {
    set id | id in AllInRange(After(events), q) && id in Homes(events) && InWindow(Homes(events)[id], q)
  }

  /** Over any run it is never below the number of mobs in range whose registration chunk is searched. */
  lemma RunCountNeverUnder(events: seq<Event>, q: Query)
    requires FreshIds(events)
    ensures |InRangeAtHome(events, q)| <= Count(After(events), q)
  {
    RunHomed(events);
    forall id | id in InRangeAtHome(events, q)
      ensures Contains(Hits(After(events), q), id)
    {
      HitsAtHome(After(events), Homes(events), q, id);
    }
    FoundAreCounted(After(events), q, InRangeAtHome(events, q));
  }

  // ----- the manager -----

  method ScanList(ix: Index, q: Query, list: seq<int>, before: seq<Keyed<int>>) returns (results: seq<Keyed<int>>)
    ensures results == before + ListHits(ix, q, list)
  {
    results := before;
    for i := 0 to |list|
      invariant results == before + ListHits(ix, q, list[..i])
    {
      assert list[..i + 1][..i] == list[..i];
      var id := list[i];
      if id in ix.mobs {
        var d2 := Distance2(ix.mobs[id], q);
        if d2 <= q.radius * q.radius {
          results := results + [Keyed(q.root(d2), id)];
        }
      }
    }
    assert list[..|list|] == list;
  }

  method ScanRow(ix: Index, q: Query, x: int, lo: int, hi: int, before: seq<Keyed<int>>)
    returns (results: seq<Keyed<int>>)
    requires lo <= hi
    ensures results == before + RowHits(ix, q, x, lo, hi)
  {
    results := before;
    for z := lo to hi
      invariant results == before + RowHits(ix, q, x, lo, z)
    {
      ThreeParts(before, RowHits(ix, q, x, lo, z), ListHits(ix, q, ListAt(ix, ChunkPos(x, z))));
      results := ScanList(ix, q, ListAt(ix, ChunkPos(x, z)), results);
    }
  }

  method ScanWindow(ix: Index, q: Query) returns (results: seq<Keyed<int>>)
    ensures results == Hits(ix, q)
  {
    var r, at := ChunkRadius(q.radius), ChunkAt(q.x, q.z);
    results := [];
    for x := at.x - r to at.x + r + 1
      invariant results == WindowHits(ix, q, at.x - r, x, at.z - r, at.z + r + 1)
    {
      results := ScanRow(ix, q, x, at.z - r, at.z + r + 1, results);
    }
  }

  class MobManager {
    var mobs: map<int, Mob>
    var chunkMobs: map<ChunkPos, seq<int>>

    constructor ()
      ensures Abstract() == Index(map[], map[]) && Exact(Abstract())
    {
      mobs, chunkMobs := map[], map[];
    }

    ghost function Abstract(): Index
      reads this
    {
      Index(mobs, chunkMobs)
    }

    method Register(m: Mob)
      modifies this
      ensures Abstract() == Registered(old(Abstract()), m)
    {
      var chunk := ChunkAt(m.x, m.z);
      var list := if chunk in chunkMobs then chunkMobs[chunk] else [];
      chunkMobs := chunkMobs[chunk := list + [m.id]];
      mobs := mobs[m.id := m];
    }

    method Remove(id: int) returns (r: Option<Mob>)
      modifies this
      ensures Abstract() == Removed(old(Abstract()), id)
      ensures r == if id in old(mobs) then Some(old(mobs)[id]) else None
    {
      if id !in mobs {
        return None;
      }
      var m := mobs[id];
      mobs := mobs - {id};
      var chunk := ChunkAt(m.x, m.z);
      if chunk in chunkMobs {
        var list, kept := chunkMobs[chunk], [];
        for i := 0 to |list|
          invariant kept == Without(list[..i], id)
        {
          assert list[..i + 1][..i] == list[..i];
          if list[i] != id {
            kept := kept + [list[i]];
          }
        }
        assert list[..|list|] == list;
        chunkMobs := chunkMobs[chunk := kept];
      }
      return Some(m);
    }

    method SendPosition(id: int, x: real, y: real, z: real)
      modifies this`mobs
      ensures Abstract() == Moved(old(Abstract()), id, x, y, z)
    {
      if id in mobs {
        var m := mobs[id];
        if AbsReal(m.x - x) < 0.01 && AbsReal(m.y - y) < 0.01 && AbsReal(m.z - z) < 0.01 {
          return;
        }
        mobs := mobs[id := m.(x := x, y := y, z := z)];
      }
    }

    method EntitiesInRange(q: Query) returns (results: seq<Keyed<int>>)
      ensures results == SortByKey(Hits(Abstract(), q))
    {
      results := ScanWindow(Index(mobs, chunkMobs), q);
      results := SortByKey(results);
    }

    method CountInRange(q: Query) returns (count: nat)
      ensures count == Count(Abstract(), q)
    {
      ghost var ix := Abstract();
      var r, at := ChunkRadius(q.radius), ChunkAt(q.x, q.z);
      var zlo, zhi := at.z - r, at.z + r + 1;
      count := 0;
      for cx := at.x - r to at.x + r + 1
        invariant count == WindowCount(ix, at.x - r, cx, zlo, zhi)
      {
        ghost var before := count;
        for cz := zlo to zhi
          invariant count == before + RowCount(ix, cx, zlo, cz)
        {
          if ChunkPos(cx, cz) in chunkMobs {
            count := count + |chunkMobs[ChunkPos(cx, cz)]|;
          }
        }
      }
    }
  }
}
