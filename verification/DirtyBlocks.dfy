/**
 Block changes waiting to be sent, per section, and the client that applies them. Draining hands out copies and
 removes nothing, so the same change may be sent again and again.
*/
module DirtyBlocks {
  import opened Common
  import opened Items
  import opened Position

  datatype Change = Change(index: int, state: I32)

  type Pending = map<SectionKey, seq<Change>>

  /** A change as the world reports it. */
  datatype Mark = Mark(pos: BlockPos, state: U32)

  /** One section's changes, as one packet carries them. */
  datatype Update = Update(section: SectionKey, blocks: seq<Change>)

  function ListAt(pending: Pending, s: SectionKey): seq<Change> {
    if s in pending then pending[s] else []
  }

  function Marked(pending: Pending, m: Mark): Pending {
    pending[SectionOf(m.pos) := ListAt(pending, SectionOf(m.pos)) + [Change(LocalIndex(m.pos), ToI32(m.state))]]
  }

  function AllMarked(marks: seq<Mark>): Pending {
    if marks == [] then map[] else Marked(AllMarked(marks[..|marks| - 1]), marks[|marks| - 1])
  }

  predicate Near(c: ChunkPos, centre: ChunkPos, maxDist: int) {
    Abs(c.x - centre.x) <= maxDist && Abs(c.z - centre.z) <= maxDist
  }

  /** In range means no further than `maxDist` along either axis, one by one. */
  lemma NearExact(c: ChunkPos, centre: ChunkPos, maxDist: int)
    ensures Near(c, centre, maxDist) <==>
      centre.x - maxDist <= c.x <= centre.x + maxDist && centre.z - maxDist <= c.z <= centre.z + maxDist
  {
  }

  /** The packets for the sections in range, in the order the map is walked. */
  function Drained(pending: Pending, order: seq<SectionKey>, centre: ChunkPos, maxDist: int): seq<Update> {
    if order == [] then []
    else
      var before, s := Drained(pending, order[..|order| - 1], centre, maxDist), order[|order| - 1];
      var list := ListAt(pending, s);
      if Near(s.chunk, centre, maxDist) && list != [] then before + [Update(s, list)] else before
  }

  // ----- the client -----

  type Client = map<BlockPos, I32>

  function Look(c: Client, p: BlockPos): Option<I32> {
    if p in c then Some(c[p]) else None
  }

  function ApplyChanges(c: Client, s: SectionKey, blocks: seq<Change>): Client {
    if blocks == [] then c
    else
      var last := blocks[|blocks| - 1];
      ApplyChanges(c, s, blocks[..|blocks| - 1])[BlockAt(s, last.index) := last.state]
  }

  function ApplyAll(c: Client, updates: seq<Update>): Client {
    if updates == [] then c
    else
      var last := updates[|updates| - 1];
      ApplyChanges(ApplyAll(c, updates[..|updates| - 1]), last.section, last.blocks)
  }

  // ----- what the client ends up seeing -----

  /** The state a position was last marked with. */
  function LastWrite(marks: seq<Mark>, p: BlockPos): Option<I32> {
    if marks == [] then None
    else if marks[|marks| - 1].pos == p then Some(ToI32(marks[|marks| - 1].state))
    else LastWrite(marks[..|marks| - 1], p)
  }

  function LastIn(blocks: seq<Change>, index: int): Option<I32> {
    if blocks == [] then None
    else if blocks[|blocks| - 1].index == index then Some(blocks[|blocks| - 1].state)
    else LastIn(blocks[..|blocks| - 1], index)
  }

  ghost predicate IndicesFit(blocks: seq<Change>) {
    forall i :: 0 <= i < |blocks| ==> 0 <= blocks[i].index <= 4095
  }

  /** The lists hold, for every position, its last write. */
  lemma {:induction false} PendingHoldsLastWrite(marks: seq<Mark>, p: BlockPos)
    ensures
      var list := ListAt(AllMarked(marks), SectionOf(p));
      IndicesFit(list) && LastIn(list, LocalIndex(p)) == LastWrite(marks, p)
  {
    if marks != [] {
      var n := |marks| - 1;
      PendingHoldsLastWrite(marks[..n], p);
      SplitRoundTrip(p);
      SplitRoundTrip(marks[n].pos);
      var list := ListAt(AllMarked(marks[..n]), SectionOf(marks[n].pos));
      assert (list + [Change(LocalIndex(marks[n].pos), ToI32(marks[n].state))])[..|list|] == list;
    }
  }

  lemma {:induction false} ApplyChangesLook(c: Client, s: SectionKey, blocks: seq<Change>, p: BlockPos)
    requires IndicesFit(blocks)
    ensures Look(ApplyChanges(c, s, blocks), p) ==
      if SectionOf(p) == s && LastIn(blocks, LocalIndex(p)).Some? then LastIn(blocks, LocalIndex(p)) else Look(c, p)
  {
    if blocks != [] {
      var n := |blocks| - 1;
      ApplyChangesLook(c, s, blocks[..n], p);
      SplitRoundTrip(p);
      SplitBijective(s, blocks[n].index);
    }
  }

  /** Draining and applying shows the client the last write of every position in range, and nothing else. */
  lemma {:induction false} DrainLook(marks: seq<Mark>, order: seq<SectionKey>, centre: ChunkPos, maxDist: int,
                                     c: Client, p: BlockPos)
    requires NoRepeats(order)
    ensures Look(ApplyAll(c, Drained(AllMarked(marks), order, centre, maxDist)), p) ==
      if SectionOf(p) in order && Near(p.ToChunkPos(), centre, maxDist) && LastWrite(marks, p).Some?
      then LastWrite(marks, p) else Look(c, p)
    decreases |order|
  {
    if order != [] {
      var n := |order| - 1;
      var s := order[n];
      DrainLook(marks, order[..n], centre, maxDist, c, p);
      var pending := AllMarked(marks);
      var before, list := Drained(pending, order[..n], centre, maxDist), ListAt(pending, s);
      assert order == order[..n] + [s];
      if Near(s.chunk, centre, maxDist) && list != [] {
        assert (before + [Update(s, list)])[..|before|] == before;
        SectionFits(marks, s);
        ApplyChangesLook(ApplyAll(c, before), s, list, p);
        if SectionOf(p) == s {
          PendingHoldsLastWrite(marks, p);
        }
      } else if SectionOf(p) == s {
        PendingHoldsLastWrite(marks, p);
      }
    }
  }

  lemma SectionFits(marks: seq<Mark>, s: SectionKey)
    ensures IndicesFit(ListAt(AllMarked(marks), s))
  {
    SplitBijective(s, 0);
    PendingHoldsLastWrite(marks, BlockAt(s, 0));
  }

  lemma {:induction false} MarkedSectionPending(marks: seq<Mark>, p: BlockPos)
    ensures LastWrite(marks, p).Some? ==> SectionOf(p) in AllMarked(marks)
  {
    if marks != [] {
      MarkedSectionPending(marks[..|marks| - 1], p);
    }
  }

  /** For any marks and any client, whatever it saw before and in whatever order the sections come: after applying
      what was drained it agrees with the last write at every marked position in range, and is unchanged elsewhere. */
  lemma ClientAgrees(marks: seq<Mark>, order: seq<SectionKey>, centre: ChunkPos, maxDist: int, c: Client, p: BlockPos)
    requires Enumerates(order, AllMarked(marks).Keys)
    ensures Look(ApplyAll(c, Drained(AllMarked(marks), order, centre, maxDist)), p) ==
      if Near(p.ToChunkPos(), centre, maxDist) && LastWrite(marks, p).Some? then LastWrite(marks, p) else Look(c, p)
  {
    DrainLook(marks, order, centre, maxDist, c, p);
    MarkedSectionPending(marks, p);
  }

  /** Sending the same lists again changes nothing. */
  lemma ResendIdle(marks: seq<Mark>, order: seq<SectionKey>, again: seq<SectionKey>, centre: ChunkPos, maxDist: int,
                   c: Client, p: BlockPos)
    requires Enumerates(order, AllMarked(marks).Keys) && Enumerates(again, AllMarked(marks).Keys)
    ensures
      var once := ApplyAll(c, Drained(AllMarked(marks), order, centre, maxDist));
      Look(ApplyAll(once, Drained(AllMarked(marks), again, centre, maxDist)), p) == Look(once, p)
  {
    var once := ApplyAll(c, Drained(AllMarked(marks), order, centre, maxDist));
    ClientAgrees(marks, order, centre, maxDist, c, p);
    ClientAgrees(marks, again, centre, maxDist, once, p);
  }

  // ----- with clean-ups in between -----

  const MAX_SECTIONS: nat := 1024

  datatype Event = Marking(mark: Mark) | Cleanup

  function CleanedUp(pending: Pending): Pending {
    if |pending| > MAX_SECTIONS then map[] else pending
  }

  function PendingAfter(events: seq<Event>): Pending {
    if events == [] then map[]
    else
      var before := PendingAfter(events[..|events| - 1]);
      match events[|events| - 1]
      case Marking(m) => Marked(before, m)
      case Cleanup => CleanedUp(before)
  }

  function Marks(events: seq<Event>): seq<Mark> {
    if events == [] then []
    else
      var before := Marks(events[..|events| - 1]);
      match events[|events| - 1]
      case Marking(m) => before + [m]
      case Cleanup => before
  }

  /** The marks since the last clean-up that found more than 1024 sections. */
  function KeptMarks(events: seq<Event>): seq<Mark> {
    if events == [] then []
    else
      var before := KeptMarks(events[..|events| - 1]);
      match events[|events| - 1]
      case Marking(m) => before + [m]
      case Cleanup => if |(set i | 0 <= i < |before| :: SectionOf(before[i].pos))| > MAX_SECTIONS then [] else before
  }

  lemma {:induction false} SectionsOfMarks(marks: seq<Mark>)
    ensures AllMarked(marks).Keys == set i | 0 <= i < |marks| :: SectionOf(marks[i].pos)
    decreases |marks|
  {
    if marks != [] {
      var n := |marks| - 1;
      var front := marks[..n];
      SectionsOfMarks(front);
      var before := set i | 0 <= i < |front| :: SectionOf(front[i].pos);
      var all := set i | 0 <= i < |marks| :: SectionOf(marks[i].pos);
      forall s
        ensures s in all <==> s in before || s == SectionOf(marks[n].pos)
      {
        if s in before {
          var i :| 0 <= i < |front| && SectionOf(front[i].pos) == s;
          assert SectionOf(marks[i].pos) == s;
        }
        if s in all {
          var i :| 0 <= i < |marks| && SectionOf(marks[i].pos) == s;
          assert i < n ==> SectionOf(front[i].pos) == s;
        }
      }
      assert AllMarked(marks).Keys == AllMarked(front).Keys + {SectionOf(marks[n].pos)};
    }
  }

  /** What is pending is what the kept marks alone would leave. */
  lemma {:induction false} PendingIsKept(events: seq<Event>)
    ensures PendingAfter(events) == AllMarked(KeptMarks(events))
    decreases |events|
  {
    if events != [] {
      var front := events[..|events| - 1];
      PendingIsKept(front);
      var kept := KeptMarks(front);
      match events[|events| - 1]
      case Marking(m) =>
        hide Marked;
        assert (kept + [m])[..|kept|] == kept;
      case Cleanup =>
        SectionsOfMarks(kept);
        hide AllMarked;
        assert |AllMarked(kept)| == |AllMarked(kept).Keys|;
    }
  }

  /** The kept marks are the last of all marks. */
  lemma {:induction false} KeptAreLast(events: seq<Event>)
    ensures |KeptMarks(events)| <= |Marks(events)|
    ensures KeptMarks(events) == Marks(events)[|Marks(events)| - |KeptMarks(events)|..]
    decreases |events|
  {
    if events != [] {
      KeptAreLast(events[..|events| - 1]);
    }
  }

  lemma {:induction false} LastWriteOfEnd(marks: seq<Mark>, k: nat, p: BlockPos)
    requires k <= |marks| && LastWrite(marks[k..], p).Some?
    ensures LastWrite(marks, p) == LastWrite(marks[k..], p)
    decreases |marks|
  {
    var n := |marks| - 1;
    assert k <= n && marks[k..][..n - k] == marks[..n][k..];
    if marks[n].pos != p {
      LastWriteOfEnd(marks[..n], k, p);
    }
  }

  /** Over any run of marks and clean-ups: at a marked position in range every client comes to agree with the last
      write exactly when that position was marked since the last clean-up that dropped anything; a client that
      already saw something else there keeps it otherwise. */
  lemma RunAgreesExactly(events: seq<Event>, order: seq<SectionKey>, centre: ChunkPos, maxDist: int, p: BlockPos)
    requires Enumerates(order, PendingAfter(events).Keys)
    requires Near(p.ToChunkPos(), centre, maxDist) && LastWrite(Marks(events), p).Some?
    ensures (forall c: Client :: AgreesAfter(events, order, centre, maxDist, c, p)) <==>
      LastWrite(KeptMarks(events), p).Some?
  {
    PendingIsKept(events);
    KeptAreLast(events);
    var kept := KeptMarks(events);
    if LastWrite(kept, p).Some? {
      LastWriteOfEnd(Marks(events), |Marks(events)| - |kept|, p);
      forall c: Client
        ensures AgreesAfter(events, order, centre, maxDist, c, p)
      {
        ClientAgrees(kept, order, centre, maxDist, c, p);
      }
    } else {
      var other: I32 := if LastWrite(Marks(events), p).value == 0 then 1 else 0;
      ClientAgrees(kept, order, centre, maxDist, map[p := other], p);
      assert !AgreesAfter(events, order, centre, maxDist, map[p := other], p);
    }
  }

  ghost predicate AgreesAfter(events: seq<Event>, order: seq<SectionKey>, centre: ChunkPos, maxDist: int,
                              c: Client, p: BlockPos) {
    Look(ApplyAll(c, Drained(PendingAfter(events), order, centre, maxDist)), p) == LastWrite(Marks(events), p)
  }

  // ----- the tracker -----

  class DirtyBlockTracker {
    var pending: Pending

    constructor ()
      ensures pending == AllMarked([])
    {
      pending := map[];
    }

    method MarkBlock(p: BlockPos, state: U32)
      modifies this
      ensures pending == Marked(old(pending), Mark(p, state))
    {
      var key := SectionKey(ChunkPos(p.x / 16, p.z / 16), p.y / 16);
      var index := p.y % 16 * 256 + p.z % 16 * 16 + p.x % 16;
      if key !in pending {
        pending := pending[key := []];
      }
      pending := pending[key := pending[key] + [Change(index, ToI32(state))]];
    }

    method DrainNearby(order: seq<SectionKey>, centre: ChunkPos, maxDist: int) returns (results: seq<Update>)
      requires Enumerates(order, pending.Keys)
      ensures results == Drained(pending, order, centre, maxDist)
    {
      results := [];
      for i := 0 to |order|
        invariant results == Drained(pending, order[..i], centre, maxDist)
      {
        assert order[..i + 1][..i] == order[..i];
        var s := order[i];
        if Abs(s.chunk.x - centre.x) <= maxDist && Abs(s.chunk.z - centre.z) <= maxDist {
          assert s in pending.Keys;
          var blocks := pending[s];
          if blocks != [] {
            results := results + [Update(s, blocks)];
          }
        }
      }
      assert order[..|order|] == order;
    }

    /** Past 1024 sections everything is dropped; up to then nothing is. */
    method CleanupStale()
      modifies this
      ensures pending == CleanedUp(old(pending))
    {
      if |pending| > MAX_SECTIONS {
        pending := map[];
      }
    }
  }
}
