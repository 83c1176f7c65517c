/**
 Streaming chunks to a moving player: what the server believes is loaded, and what the client was really sent.
 At most six chunks go out per step; the rest are recorded as loaded all the same.
*/
module ChunkStream {
  import opened Common
  import opened Position
  import opened Sorting

  const MAX_CHUNKS_PER_SEND: nat := 6

  datatype View = View(loaded: set<ChunkPos>, client: set<ChunkPos>)

  /** The square of chunks around the player. */
  function Visible(centre: ChunkPos, radius: int): set<ChunkPos> {
    set x, z |
      centre.x - radius <= x <= centre.x + radius && centre.z - radius <= z <= centre.z + radius :: ChunkPos(x, z)
  }

  function Distance(a: ChunkPos, b: ChunkPos): nat {
    Max(Abs(a.x - b.x), Abs(a.z - b.z))
  }

  /** A chunk is in view exactly when it is no further away than the radius. */
  lemma DistanceExact(c: ChunkPos, centre: ChunkPos, radius: int)
    ensures c in Visible(centre, radius) <==> Distance(c, centre) <= radius
  {
  }

  /** The first `n` columns of the view. */
  function Columns(centre: ChunkPos, radius: nat, n: nat): set<ChunkPos> {
    set c | c in Visible(centre, radius) && c.x < centre.x - radius + n
  }

  function ColumnAt(centre: ChunkPos, radius: nat, x: int): (r: seq<ChunkPos>)
    ensures |r| == 2 * radius + 1
  {
    seq(2 * radius + 1, i => ChunkPos(x, centre.z - radius + i))
  }

  lemma NextColumn(centre: ChunkPos, radius: nat, n: nat, c: ChunkPos)
    requires 0 < n <= 2 * radius + 1
    ensures
      var x := centre.x - radius + (n - 1);
      && (c in Columns(centre, radius, n) <==>
            c in Columns(centre, radius, n - 1) || c in Elements(ColumnAt(centre, radius, x)))
      && !(c in Columns(centre, radius, n - 1) && c in Elements(ColumnAt(centre, radius, x)))
  {
    var x := centre.x - radius + (n - 1);
    var column := ColumnAt(centre, radius, x);
    if c in Columns(centre, radius, n) && c.x == x {
      assert column[c.z - (centre.z - radius)] == c;
    }
  }

  lemma {:induction false} ColumnsSize(centre: ChunkPos, radius: nat, n: nat)
    requires n <= 2 * radius + 1
    ensures |Columns(centre, radius, n)| == n * (2 * radius + 1)
    decreases n
  {
    if n == 0 {
      assert Columns(centre, radius, 0) == {};
    } else {
      ColumnsSize(centre, radius, n - 1);
      var column, side := ColumnAt(centre, radius, centre.x - radius + (n - 1)), 2 * radius + 1;
      hide Columns, ColumnAt;
      forall c
        ensures c in Columns(centre, radius, n) <==> c in Columns(centre, radius, n - 1) || c in Elements(column)
        ensures !(c in Columns(centre, radius, n - 1) && c in Elements(column))
      {
        NextColumn(centre, radius, n, c);
      }
      assert Columns(centre, radius, n) == Columns(centre, radius, n - 1) + Elements(column);
      ColumnDistinct(centre, radius, centre.x - radius + (n - 1));
      DistinctSize(column);
      assert n * side == (n - 1) * side + side;
    }
  }

  lemma ColumnDistinct(centre: ChunkPos, radius: nat, x: int)
    ensures NoRepeats(ColumnAt(centre, radius, x))
  {
  }

  /** The view is a square. */
  lemma VisibleSize(centre: ChunkPos, radius: nat)
    ensures |Visible(centre, radius)| == (2 * radius + 1) * (2 * radius + 1)
  {
    ColumnsSize(centre, radius, 2 * radius + 1);
    assert Visible(centre, radius) == Columns(centre, radius, 2 * radius + 1);
  }

  function WithDistance(order: seq<ChunkPos>, centre: ChunkPos): (r: seq<Keyed<ChunkPos>>)
    ensures |r| == |order|
  {
    if order == [] then []
    else
      var last := order[|order| - 1];
      WithDistance(order[..|order| - 1], centre) + [Keyed(Distance(last, centre) as real, last)]
  }

  function Values(s: seq<Keyed<ChunkPos>>): (r: seq<ChunkPos>)
    ensures |r| == |s|
  {
    if s == [] then [] else Values(s[..|s| - 1]) + [s[|s| - 1].value]
  }

  /** The new chunks, nearest first. */
  function Nearest(order: seq<ChunkPos>, centre: ChunkPos): (r: seq<Keyed<ChunkPos>>) {
    SortByKey(WithDistance(order, centre))
  }

  function Sent(order: seq<ChunkPos>, centre: ChunkPos): seq<ChunkPos> {
    var sorted := Nearest(order, centre);
    Values(sorted[..Min(MAX_CHUNKS_PER_SEND, |sorted|)])
  }

  function Elements(s: seq<ChunkPos>): set<ChunkPos> {
    set c | c in s
  }

  /** One step. `order` is the order in which the hash set yields the new chunks. */
  function Streamed(v: View, centre: ChunkPos, radius: int, order: seq<ChunkPos>): View {
    if radius <= 0 then v
    else
      var visible := Visible(centre, radius);
      var evicted := v.loaded - visible;
      View((v.loaded * visible) + Elements(order), (v.client + Elements(Sent(order, centre))) - evicted)
  }

  // ----- one step -----

  lemma {:induction false} WithDistanceAt(order: seq<ChunkPos>, centre: ChunkPos, i: nat)
    requires i < |order|
    ensures WithDistance(order, centre)[i] == Keyed(Distance(order[i], centre) as real, order[i])
    decreases |order|
  {
    if i < |order| - 1 {
      WithDistanceAt(order[..|order| - 1], centre, i);
    }
  }

  lemma {:induction false} ValuesAt(s: seq<Keyed<ChunkPos>>, i: nat)
    requires i < |s|
    ensures Values(s)[i] == s[i].value
    decreases |s|
  {
    if i < |s| - 1 {
      ValuesAt(s[..|s| - 1], i);
    }
  }

  /** The sorted list holds each new chunk once, at its distance. */
  lemma NearestExact(order: seq<ChunkPos>, centre: ChunkPos)
    requires NoRepeats(order)
    ensures
      var r := Nearest(order, centre);
      && |r| == |order| && Sorted(r) && Distinct(r)
      && (forall i :: 0 <= i < |r| ==> r[i].value in order && r[i].key == Distance(r[i].value, centre) as real)
      && (forall c :: c in order ==> Keyed(Distance(c, centre) as real, c) in r)
  {
    var keyed := WithDistance(order, centre);
    forall i | 0 <= i < |order|
      ensures keyed[i] == Keyed(Distance(order[i], centre) as real, order[i])
    {
      WithDistanceAt(order, centre, i);
    }
    SortSorts(keyed);
    SortKeeps(keyed);
    var r := Nearest(order, centre);
    forall i | 0 <= i < |r|
      ensures r[i].value in order && r[i].key == Distance(r[i].value, centre) as real
    {
      assert r[i] in r;
      var k :| 0 <= k < |keyed| && keyed[k] == r[i];
    }
    forall c | c in order
      ensures Keyed(Distance(c, centre) as real, c) in r
    {
      var k :| 0 <= k < |order| && order[k] == c;
      assert keyed[k] in keyed;
    }
  }

  lemma SentPrefix(order: seq<ChunkPos>, centre: ChunkPos)
    ensures
      var sent, sorted := Sent(order, centre), Nearest(order, centre);
      |sent| == Min(MAX_CHUNKS_PER_SEND, |sorted|) && forall i :: 0 <= i < |sent| ==> sent[i] == sorted[i].value
  {
    var sorted := Nearest(order, centre);
    var n := Min(MAX_CHUNKS_PER_SEND, |sorted|);
    forall i | 0 <= i < n
      ensures Values(sorted[..n])[i] == sorted[i].value
    {
      ValuesAt(sorted[..n], i);
    }
  }

  lemma NoneNearerDeferred(order: seq<ChunkPos>, centre: ChunkPos, c: ChunkPos, d: ChunkPos)
    requires NoRepeats(order)
    requires c in Sent(order, centre) && d in order && d !in Sent(order, centre)
    ensures Distance(c, centre) <= Distance(d, centre)
  {
    NearestExact(order, centre);
    SentPrefix(order, centre);
    var sorted, sent := Nearest(order, centre), Sent(order, centre);
    var i :| 0 <= i < |sent| && sent[i] == c;
    var j :| 0 <= j < |sorted| && sorted[j] == Keyed(Distance(d, centre) as real, d);
    assert forall k :: 0 <= k < |sent| ==> sent[k] != d;
    assert j >= |sent|;
    assert sorted[i].key <= sorted[j].key;
  }

  /** At most six chunks are sent, as many as there are new ones up to that, none twice, and no chunk is
      deferred that is nearer than one sent. */
  lemma SentExact(order: seq<ChunkPos>, centre: ChunkPos)
    requires NoRepeats(order)
    ensures
      var sent := Sent(order, centre);
      && |sent| == Min(MAX_CHUNKS_PER_SEND, |order|)
      && NoRepeats(sent)
      && (forall c :: c in sent ==> c in order)
      && (forall c, d :: c in sent && d in order && d !in sent ==> Distance(c, centre) <= Distance(d, centre))
  {
    NearestExact(order, centre);
    SentPrefix(order, centre);
    var sent := Sent(order, centre);
    forall c, d | c in sent && d in order && d !in sent
      ensures Distance(c, centre) <= Distance(d, centre)
    {
      NoneNearerDeferred(order, centre, c, d);
    }
  }

  /** `order` lists the chunks that come into view. */
  ghost predicate ListsNew(v: View, centre: ChunkPos, radius: int, order: seq<ChunkPos>) {
    Enumerates(order, Visible(centre, radius) - v.loaded)
  }

  /** What is recorded as loaded is exactly the square; what the client holds is always part of it. */
  lemma StepLoaded(v: View, centre: ChunkPos, radius: int, order: seq<ChunkPos>)
    requires radius > 0 && ListsNew(v, centre, radius, order)
    ensures Streamed(v, centre, radius, order).loaded == Visible(centre, radius)
    ensures v.client <= v.loaded ==> Streamed(v, centre, radius, order).client <= Visible(centre, radius)
  {
    SentExact(order, centre);
  }

  lemma AllSentWhenFew(order: seq<ChunkPos>, centre: ChunkPos)
    requires NoRepeats(order)
    ensures Elements(Sent(order, centre)) == Elements(order) <==> |order| <= MAX_CHUNKS_PER_SEND
  {
    SentExact(order, centre);
    var sent := Sent(order, centre);
    DistinctSize(sent);
    DistinctSize(order);
    if |order| <= MAX_CHUNKS_PER_SEND {
      SubsetOfSameSize(Elements(sent), Elements(order));
    }
  }

  lemma {:induction false} DistinctSize(s: seq<ChunkPos>)
    requires NoRepeats(s)
    ensures |Elements(s)| == |s|
  {
    if s != [] {
      var n := |s| - 1;
      DistinctSize(s[..n]);
      assert Elements(s) == Elements(s[..n]) + {s[n]};
    }
  }

  lemma SubsetOfSameSize(a: set<ChunkPos>, b: set<ChunkPos>)
    requires a <= b && |a| == |b|
    ensures a == b
  {
    assert |b - a| == |b| - |a|;
  }

  lemma NothingMissing(a: set<ChunkPos>, b: set<ChunkPos>)
    requires a <= b
    ensures b - a == {} <==> a == b
  {
    if b - a == {} {
      assert forall c :: c in b ==> c in a || c in b - a;
    }
  }

  /** What a step leaves missing at the client: what was missing and is still visible, and what was deferred. */
  lemma MissingExact(v: View, centre: ChunkPos, radius: int, order: seq<ChunkPos>)
    requires radius > 0 && ListsNew(v, centre, radius, order) && v.client <= v.loaded
    ensures
      var after := Streamed(v, centre, radius, order);
      after.loaded - after.client ==
        ((v.loaded - v.client) * Visible(centre, radius)) + (Elements(order) - Elements(Sent(order, centre)))
  {
    SentExact(order, centre);
    StepLoaded(v, centre, radius, order);
  }

  /** The client is in step after a move exactly when nothing missing stays in view and at most six chunks are new. */
  lemma InStepExact(v: View, centre: ChunkPos, radius: int, order: seq<ChunkPos>)
    requires radius > 0 && ListsNew(v, centre, radius, order) && v.client <= v.loaded
    ensures
      var after := Streamed(v, centre, radius, order);
      after.client == after.loaded <==>
        (v.loaded - v.client) * Visible(centre, radius) == {} && |order| <= MAX_CHUNKS_PER_SEND
  {
    var after := Streamed(v, centre, radius, order);
    SentExact(order, centre);
    StepLoaded(v, centre, radius, order);
    MissingExact(v, centre, radius, order);
    AllSentWhenFew(order, centre);
    NothingMissing(after.client, after.loaded);
    NothingMissing(Elements(Sent(order, centre)), Elements(order));
  }

  /** A client that holds the whole view, as on joining, falls behind in the next step, wherever it leads, exactly
      when more than six chunks come into view. */
  lemma StepLags(from: ChunkPos, to: ChunkPos, radius: int, order: seq<ChunkPos>)
    requires radius > 0
    requires ListsNew(View(Visible(from, radius), Visible(from, radius)), to, radius, order)
    ensures
      var after := Streamed(View(Visible(from, radius), Visible(from, radius)), to, radius, order);
      after.client != after.loaded <==> |Visible(to, radius) - Visible(from, radius)| > MAX_CHUNKS_PER_SEND
  {
    var seen := Visible(from, radius);
    assert Elements(order) == Visible(to, radius) - seen;
    DistinctSize(order);
    InStepExact(View(seen, seen), to, radius, order);
  }

  /** Where the square newly reaches, on one axis, after a step along it. */
  function NewEdge(at: int, step: int, radius: nat): int {
    if step > 0 then at + radius + 1 else at - radius - 1
  }

  /** The chunks that a step of one along an axis brings into view. */
  function NewSide(from: ChunkPos, dx: int, dz: int, radius: nat): (r: seq<ChunkPos>)
    ensures |r| == 2 * radius + 1
  {
    seq(2 * radius + 1, i => if dz == 0 then ChunkPos(NewEdge(from.x, dx, radius), from.z - radius + i)
                             else ChunkPos(from.x - radius + i, NewEdge(from.z, dz, radius)))
  }

  lemma NewSideHas(from: ChunkPos, dx: int, dz: int, radius: nat, c: ChunkPos)
    requires Abs(dx) + Abs(dz) == 1
    ensures c in NewSide(from, dx, dz, radius) <==>
      c in Visible(ChunkPos(from.x + dx, from.z + dz), radius) - Visible(from, radius)
  {
    var side, i := NewSide(from, dx, dz, radius), if dz == 0 then c.z - (from.z - radius) else c.x - (from.x - radius);
    if c in side {
      var k :| 0 <= k < |side| && side[k] == c;
    }
    if c in Visible(ChunkPos(from.x + dx, from.z + dz), radius) - Visible(from, radius) {
      assert 0 <= i < |side| && side[i] == c;
    }
  }

  lemma NewSideExact(from: ChunkPos, dx: int, dz: int, radius: nat)
    requires Abs(dx) + Abs(dz) == 1
    ensures |Visible(ChunkPos(from.x + dx, from.z + dz), radius) - Visible(from, radius)| == 2 * radius + 1
  {
    hide Visible, NewSide;
    var side := NewSide(from, dx, dz, radius);
    var entering := Visible(ChunkPos(from.x + dx, from.z + dz), radius) - Visible(from, radius);
    forall c
      ensures c in entering <==> c in Elements(side)
    {
      NewSideHas(from, dx, dz, radius, c);
    }
    assert entering == Elements(side);
    NewSideDistinct(from, dx, dz, radius);
    DistinctSize(side);
  }

  lemma NewSideDistinct(from: ChunkPos, dx: int, dz: int, radius: nat)
    ensures NoRepeats(NewSide(from, dx, dz, radius))
  {
  }

  /** One step along an axis lags exactly when the view reaches three chunks or more. */
  lemma StraightStepLags(from: ChunkPos, dx: int, dz: int, radius: int, order: seq<ChunkPos>)
    requires radius > 0 && Abs(dx) + Abs(dz) == 1
    requires
      ListsNew(View(Visible(from, radius), Visible(from, radius)), ChunkPos(from.x + dx, from.z + dz), radius, order)
    ensures
      var to := ChunkPos(from.x + dx, from.z + dz);
      var after := Streamed(View(Visible(from, radius), Visible(from, radius)), to, radius, order);
      after.client != after.loaded <==> radius >= 3
  {
    NewSideExact(from, dx, dz, radius);
    StepLags(from, ChunkPos(from.x + dx, from.z + dz), radius, order);
  }

  // ----- runs -----

  datatype Move = Move(centre: ChunkPos, radius: int, order: seq<ChunkPos>)

  function Run(v: View, moves: seq<Move>): View {
    if moves == [] then v
    else
      var last := moves[|moves| - 1];
      Streamed(Run(v, moves[..|moves| - 1]), last.centre, last.radius, last.order)
  }

  /** Every step has a view and walks exactly its new chunks. */
  ghost predicate Legal(v: View, moves: seq<Move>) {
    moves == [] ||
    var before, last := moves[..|moves| - 1], moves[|moves| - 1];
    Legal(v, before) && last.radius > 0 && ListsNew(Run(v, before), last.centre, last.radius, last.order)
  }

  /** After any run the loaded set is the square around the player, and the client holds part of it. */
  lemma {:induction false} RunLoaded(v: View, moves: seq<Move>)
    requires Legal(v, moves) && v.client <= v.loaded
    ensures
      var after := Run(v, moves);
      && after.client <= after.loaded
      && (moves != [] ==> after.loaded == Visible(moves[|moves| - 1].centre, moves[|moves| - 1].radius))
    decreases |moves|
  {
    if moves != [] {
      var n := |moves| - 1;
      RunLoaded(v, moves[..n]);
      StepLoaded(Run(v, moves[..n]), moves[n].centre, moves[n].radius, moves[n].order);
    }
  }

  /** Step `k` deferred the chunk, and it has been in view ever since. */
  ghost predicate DeferredAt(moves: seq<Move>, k: nat, c: ChunkPos) {
    && k < |moves| && c in moves[k].order && c !in Sent(moves[k].order, moves[k].centre)
    && forall j :: k < j < |moves| ==> c in Visible(moves[j].centre, moves[j].radius)
  }

  ghost predicate Deferred(moves: seq<Move>, c: ChunkPos) {
    exists k: nat :: DeferredAt(moves, k, c)
  }

  lemma DeferredStep(moves: seq<Move>, last: Move, c: ChunkPos)
    ensures Deferred(moves + [last], c) <==>
      || (Deferred(moves, c) && c in Visible(last.centre, last.radius))
      || (c in last.order && c !in Sent(last.order, last.centre))
  {
    var all := moves + [last];
    if Deferred(moves, c) && c in Visible(last.centre, last.radius) {
      var k: nat :| DeferredAt(moves, k, c);
      assert DeferredAt(all, k, c);
    }
    if c in last.order && c !in Sent(last.order, last.centre) {
      assert DeferredAt(all, |moves|, c);
    }
    if Deferred(all, c) {
      var k: nat :| DeferredAt(all, k, c);
      if k < |moves| {
        assert all[|moves|] == last;
        assert forall j :: k < j < |moves| ==> all[j] == moves[j];
        assert DeferredAt(moves, k, c);
      }
    }
  }

  /** Over any run that begins in step, what the client lacks is told by the moves alone: the chunks that some step
      deferred and that have stayed in view since. */
  lemma {:induction false} RunMissingExact(v: View, moves: seq<Move>, c: ChunkPos)
    requires Legal(v, moves) && v.client == v.loaded
    ensures c in Run(v, moves).loaded - Run(v, moves).client <==> Deferred(moves, c)
    decreases |moves|
  {
    if moves != [] {
      var n := |moves| - 1;
      var before, last := moves[..n], moves[n];
      assert moves == before + [last];
      RunMissingExact(v, before, c);
      RunLoaded(v, before);
      DeferredStep(before, last, c);
      MissingExact(Run(v, before), last.centre, last.radius, last.order);
    }
  }

  /** The client holds all that is loaded exactly when no chunk in view was deferred and stayed in view. */
  lemma RunInStepExact(v: View, moves: seq<Move>)
    requires Legal(v, moves) && v.client == v.loaded
    ensures Run(v, moves).client == Run(v, moves).loaded <==> forall c :: !Deferred(moves, c)
  {
    var after := Run(v, moves);
    RunLoaded(v, moves);
    NothingMissing(after.client, after.loaded);
    forall c
      ensures c in after.loaded - after.client <==> Deferred(moves, c)
    {
      RunMissingExact(v, moves, c);
    }
  }

  /** In particular the client stays in step while no step has more than six new chunks. */
  lemma {:induction false} FewNewInStep(v: View, moves: seq<Move>)
    requires Legal(v, moves) && v.client == v.loaded
    requires forall i :: 0 <= i < |moves| ==> |moves[i].order| <= MAX_CHUNKS_PER_SEND
    ensures Run(v, moves).client == Run(v, moves).loaded
    decreases |moves|
  {
    if moves != [] {
      var n := |moves| - 1;
      FewNewInStep(v, moves[..n]);
      InStepExact(Run(v, moves[..n]), moves[n].centre, moves[n].radius, moves[n].order);
    }
  }

  /** A chunk the client lacks is never sent while it stays in view. */
  lemma {:induction false} MissingStaysMissing(v: View, moves: seq<Move>, c: ChunkPos)
    requires Legal(v, moves) && v.client <= v.loaded && c in v.loaded - v.client
    requires forall i :: 0 <= i < |moves| ==> c in Visible(moves[i].centre, moves[i].radius)
    ensures c in Run(v, moves).loaded - Run(v, moves).client
    decreases |moves|
  {
    if moves != [] {
      var n := |moves| - 1;
      RunLoaded(v, moves[..n]);
      MissingStaysMissing(v, moves[..n], c);
      MissingExact(Run(v, moves[..n]), moves[n].centre, moves[n].radius, moves[n].order);
    }
  }

  // ----- the connection -----

  /** One player's connection; `client` is what the chunk and forget packets sent so far leave with the client. */
  class Connection {
    var playerChunk: ChunkPos
    var loadedChunks: set<ChunkPos>
    var client: set<ChunkPos>

    constructor (at: ChunkPos)
      ensures playerChunk == at && loadedChunks == {} && client == {}
    {
      playerChunk, loadedChunks, client := at, {}, {};
    }

    method StreamNewChunks(newChunk: ChunkPos, radius: int, order: seq<ChunkPos>)
      requires ListsNew(View(loadedChunks, client), newChunk, radius, order)
      modifies this
      ensures playerChunk == newChunk
      ensures View(loadedChunks, client) == Streamed(old(View(loadedChunks, client)), newChunk, radius, order)
    {
      playerChunk := newChunk;
      if radius <= 0 {
        return;
      }
      var visible := Visible(newChunk, radius);
      var newChunks := order;
      if newChunks != [] {
        var sorted := SortByKey(WithDistance(newChunks, newChunk));
        var toSend := Values(sorted[..Min(MAX_CHUNKS_PER_SEND, |sorted|)]);
        ghost var held := client;
        for i := 0 to |toSend|
          invariant client == held + Elements(toSend[..i])
          invariant playerChunk == newChunk && loadedChunks == old(loadedChunks)
        {
          assert toSend[..i + 1] == toSend[..i] + [toSend[i]];
          client := client + {toSend[i]};
        }
        assert toSend[..|toSend|] == toSend;
      }
      var evicted := loadedChunks - visible;
      client := client - evicted;
      loadedChunks := loadedChunks * visible;
      loadedChunks := loadedChunks + Elements(newChunks);
    }
  }
}
