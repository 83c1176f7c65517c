/** Open containers, their persistent copies keyed by block position, and the save file of the latter. */
module Container {
  import opened Common
  import opened Items

  datatype Pos = Pos(x: I32, y: I32, z: I32)

  // ----- the save file -----

  datatype Entry = Entry(pos: Pos, slots: seq<Slot>)

  /** `entries` is the map as its iterator yields it, in some order. */
  ghost predicate Lists(entries: seq<Entry>, m: map<Pos, seq<Slot>>) {
    && (forall i :: 0 <= i < |entries| ==> entries[i].pos in m && entries[i].slots == m[entries[i].pos])
    && (forall i, j :: 0 <= i < j < |entries| ==> entries[i].pos != entries[j].pos)
    && (forall p :: p in m ==> exists i :: 0 <= i < |entries| && entries[i].pos == p)
    && |entries| == |m|
  }

  function PosBytes(p: Pos): seq<U8> {
    Le32(FromI32(p.x)) + Le32(FromI32(p.y)) + Le32(FromI32(p.z))
  }

  function EntryBytes(e: Entry): seq<U8> {
    PosBytes(e.pos) + Le16(|e.slots| % 0x1_0000) + SlotsBytes(e.slots)
  }

  function SaveBytes(entries: seq<Entry>): seq<U8> {
    [2] + Le32(|entries| % 0x1_0000_0000) + FlatMap(EntryBytes, entries)
  }

  /** Reading one slot: a slot and the position after it, an early end, or an index out of bounds. */
  datatype SlotRead = Got(slot: Slot, pos: nat) | End | Panic

  function ReadSlot(data: seq<U8>, pos: nat, v2: bool): (r: SlotRead)
    ensures r.Got? ==> pos < r.pos
  {
    if pos >= |data| then End
    else if data[pos] != 1 then Got(None, pos + 1)
    else if pos + 5 > |data| then End
    else if pos + 5 == |data| then Panic  // the guard lets the count byte be missing
    else
      var id := FromLe32(data[pos + 1], data[pos + 2], data[pos + 3], data[pos + 4]);
      var stack := NewStack(BlockState(id, 0), data[pos + 5]);
      if v2 && pos + 10 <= |data| then
        var nbtLen := FromLe16(data[pos + 6], data[pos + 7]);
        var hasNbt := nbtLen > 0 && pos + 8 + nbtLen <= |data|;
        var nbt := if hasNbt then Some(data[pos + 8..pos + 8 + nbtLen]) else None;
        var p := if hasNbt then pos + 8 + nbtLen else pos + 8;
        if p + 2 <= |data| then
          var d := FromLe16(data[p], data[p + 1]);
          Got(Some(stack.(nbt := nbt, durability := if d > 0 then Some(d) else MaxDurability(id))), p + 2)
        else Got(Some(stack.(nbt := nbt, durability := None)), p)
      else Got(Some(stack), pos + 6)
  }

  datatype SlotsRead = Slots(slots: seq<Slot>, pos: nat) | SlotsPanic

  function ReadSlots(data: seq<U8>, pos: nat, n: nat, v2: bool): SlotsRead
    decreases n
  {
    if n == 0 then Slots([], pos)
    else match ReadSlot(data, pos, v2)
      case End => Slots([], pos)
      case Panic => SlotsPanic
      case Got(slot, next) => match ReadSlots(data, next, n - 1, v2)
        case SlotsPanic => SlotsPanic
        case Slots(slots, end) => Slots([slot] + slots, end)
  }

  function PosAt(data: seq<U8>, pos: nat): Pos
    requires pos + 12 <= |data|
  {
    Pos(ToI32(FromLe32(data[pos], data[pos + 1], data[pos + 2], data[pos + 3])),
        ToI32(FromLe32(data[pos + 4], data[pos + 5], data[pos + 6], data[pos + 7])),
        ToI32(FromLe32(data[pos + 8], data[pos + 9], data[pos + 10], data[pos + 11])))
  }

  /** Reads entries into `m`; no answer when an index leaves the data. */
  function ReadEntries(data: seq<U8>, pos: nat, count: nat, v2: bool,
                       m: map<Pos, seq<Slot>>): Option<map<Pos, seq<Slot>>>
    decreases count
  {
    if count == 0 || pos + 14 > |data| then Some(m)
    else match ReadSlots(data, pos + 14, FromLe16(data[pos + 12], data[pos + 13]), v2)
      case SlotsPanic => None
      case Slots(slots, next) => ReadEntries(data, next, count - 1, v2, m[PosAt(data, pos) := slots])
  }

  function LoadBytes(data: seq<U8>, m: map<Pos, seq<Slot>>): Option<map<Pos, seq<Slot>>> {
    if |data| < 4 || (data[0] == 2 && |data| < 5) then Some(m)
    else
      var start := if data[0] == 2 then 1 else 0;
      var count := FromLe32(data[start], data[start + 1], data[start + 2], data[start + 3]);
      ReadEntries(data, start + 4, count, data[0] == 2, m)
  }

  // ----- reading back a save -----

  /** The two fields a written stack may come back with changed. */
  lemma ReadStackBack(data: seq<U8>, pos: nat, s: ItemStack, nbt: seq<U8>)
    requires pos + 10 + |nbt| <= |data| && data[pos] == 1 && nbt == s.nbt.GetOr([])
    requires FromLe32(data[pos + 1], data[pos + 2], data[pos + 3], data[pos + 4]) == s.item.id &&
      data[pos + 5] == s.count
    requires FromLe16(data[pos + 6], data[pos + 7]) == |nbt| && data[pos + 8..pos + 8 + |nbt|] == nbt
    requires FromLe16(data[pos + 8 + |nbt|], data[pos + 9 + |nbt|]) == s.durability.GetOr(0)
    ensures ReadSlot(data, pos, true) == Got(Some(NormalStack(s)), pos + 10 + |nbt|)
  {
  }

  lemma ReadSlotBack(data: seq<U8>, pos: nat, slot: Slot)
    requires At(data, pos, SlotBytes(slot)) && NbtFits(slot)
    ensures ReadSlot(data, pos, true) == Got(NormalSlot(slot), pos + |SlotBytes(slot)|)
  {
    hide FromLe16, FromLe32, StackTail, StackSize, MaxDurability;
    match slot
    case None =>
      U8At(data, pos, 0);
    case Some(s) =>
      StackLayout(data, pos, s);
      ReadStackBack(data, pos, s, s.nbt.GetOr([]));
  }

  lemma FirstSlotBack(data: seq<U8>, pos: nat, slots: seq<Slot>) returns (next: nat)
    requires slots != [] && At(data, pos, SlotsBytes(slots)) && NbtFits(slots[0])
    ensures ReadSlot(data, pos, true) == Got(NormalSlot(slots[0]), next)
    ensures At(data, next, SlotsBytes(slots[1..])) && next + |SlotsBytes(slots[1..])| == pos + |SlotsBytes(slots)|
  {
    FlatMapAt(data, pos, SlotBytes, slots);
    ReadSlotBack(data, pos, slots[0]);
    next := pos + |SlotBytes(slots[0])|;
  }

  lemma ReadSlotsCons(data: seq<U8>, pos: nat, n: nat, v2: bool, slot: Slot, next: nat, slots: seq<Slot>, end: nat)
    requires ReadSlot(data, pos, v2) == Got(slot, next) && ReadSlots(data, next, n, v2) == Slots(slots, end)
    ensures ReadSlots(data, pos, n + 1, v2) == Slots([slot] + slots, end)
  {
  }

  lemma {:induction false} ReadSlotsBack(data: seq<U8>, pos: nat, slots: seq<Slot>)
    requires At(data, pos, SlotsBytes(slots))
    requires forall i :: 0 <= i < |slots| ==> NbtFits(slots[i])
    ensures ReadSlots(data, pos, |slots|, true) == Slots(NormalSlots(slots), pos + |SlotsBytes(slots)|)
    decreases |slots|
  {
    if slots != [] {
      var tail := slots[1..];
      var next := FirstSlotBack(data, pos, slots);
      ReadSlotsBack(data, next, tail);
      ReadSlotsCons(data, pos, |tail|, true, NormalSlot(slots[0]), next, NormalSlots(tail), pos + |SlotsBytes(slots)|);
    }
  }

  predicate EntryFits(e: Entry) {
    |e.slots| < 0x1_0000 && forall i :: 0 <= i < |e.slots| ==> NbtFits(e.slots[i])
  }

  /** Slot counts and NBT lengths fit their 16-bit fields. */
  predicate AllFit(entries: seq<Entry>) {
    entries == [] || (EntryFits(entries[0]) && AllFit(entries[1..]))
  }

  lemma I32At(data: seq<U8>, pos: nat, x: I32)
    requires At(data, pos, Le32(FromI32(x)))
    ensures ToI32(FromLe32(data[pos], data[pos + 1], data[pos + 2], data[pos + 3])) == x
  {
    U32At(data, pos, FromI32(x));
  }

  lemma PosBack(data: seq<U8>, pos: nat, p: Pos)
    requires At(data, pos, PosBytes(p))
    ensures PosAt(data, pos) == p
  {
    var x, y, z := Le32(FromI32(p.x)), Le32(FromI32(p.y)), Le32(FromI32(p.z));
    AtConcat(data, pos, x + y, z);
    AtConcat(data, pos, x, y);
    I32At(data, pos, p.x);
    I32At(data, pos + 4, p.y);
    I32At(data, pos + 8, p.z);
  }

  lemma AtThree(data: seq<U8>, pos: nat, a: seq<U8>, b: seq<U8>, c: seq<U8>)
    requires At(data, pos, a + b + c)
    ensures At(data, pos, a) && At(data, pos + |a|, b) && At(data, pos + |a| + |b|, c)
  {
    AtConcat(data, pos, a + b, c);
    AtConcat(data, pos, a, b);
  }

  lemma EntryBack(data: seq<U8>, pos: nat, e: Entry)
    requires At(data, pos, EntryBytes(e)) && EntryFits(e)
    ensures pos + 14 <= |data| && PosAt(data, pos) == e.pos
    ensures FromLe16(data[pos + 12], data[pos + 13]) == |e.slots|
    ensures At(data, pos + 14, SlotsBytes(e.slots)) && |EntryBytes(e)| == 14 + |SlotsBytes(e.slots)|
  {
    hide Le16, Le32, FromLe16, FromLe32, FromI32, ToI32;
    AtThree(data, pos, PosBytes(e.pos), Le16(|e.slots|), SlotsBytes(e.slots));
    PosBack(data, pos, e.pos);
    U16At(data, pos + 12, |e.slots|);
  }

  function Inserted(entries: seq<Entry>, m: map<Pos, seq<Slot>>): map<Pos, seq<Slot>> {
    if entries == [] then m else Inserted(entries[1..], m[entries[0].pos := NormalSlots(entries[0].slots)])
  }

  lemma FirstEntryBack(data: seq<U8>, pos: nat, entries: seq<Entry>) returns (next: nat)
    requires entries != [] && At(data, pos, FlatMap(EntryBytes, entries)) && EntryFits(entries[0])
    ensures At(data, next, FlatMap(EntryBytes, entries[1..]))
    ensures pos + 14 <= |data| && PosAt(data, pos) == entries[0].pos
    ensures ReadSlots(data, pos + 14, FromLe16(data[pos + 12], data[pos + 13]), true) ==
      Slots(NormalSlots(entries[0].slots), next)
  {
    hide EntryBytes, PosAt, FromLe16, ReadSlots, NormalSlots;
    var e := entries[0];
    FlatMapAt(data, pos, EntryBytes, entries);
    EntryBack(data, pos, e);
    ReadSlotsBack(data, pos + 14, e.slots);
    next := pos + |EntryBytes(e)|;
  }

  lemma ReadEntriesCons(data: seq<U8>, pos: nat, entries: seq<Entry>, m: map<Pos, seq<Slot>>, slots: seq<Slot>,
                        next: nat)
    requires entries != [] && pos + 14 <= |data| && PosAt(data, pos) == entries[0].pos &&
      slots == NormalSlots(entries[0].slots)
    requires ReadSlots(data, pos + 14, FromLe16(data[pos + 12], data[pos + 13]), true) == Slots(slots, next)
    requires ReadEntries(data, next, |entries| - 1, true, m[entries[0].pos := slots]) ==
      Some(Inserted(entries[1..], m[entries[0].pos := slots]))
    ensures ReadEntries(data, pos, |entries|, true, m) == Some(Inserted(entries, m))
  {
  }

  lemma {:induction false} ReadEntriesBack(data: seq<U8>, pos: nat, entries: seq<Entry>, m: map<Pos, seq<Slot>>)
    requires At(data, pos, FlatMap(EntryBytes, entries))
    requires AllFit(entries)
    ensures ReadEntries(data, pos, |entries|, true, m) == Some(Inserted(entries, m))
    decreases |entries|
  {
    hide EntryBytes, EntryFits, PosAt, FromLe16, ReadSlots, NormalSlots;
    if entries != [] {
      var next := FirstEntryBack(data, pos, entries);
      var slots := NormalSlots(entries[0].slots);
      ReadEntriesBack(data, next, entries[1..], m[entries[0].pos := slots]);
      ReadEntriesCons(data, pos, entries, m, slots, next);
    }
  }

  function NormalMap(m: map<Pos, seq<Slot>>): map<Pos, seq<Slot>> {
    map p | p in m :: NormalSlots(m[p])
  }

  lemma {:induction false} InsertedAt(entries: seq<Entry>, m: map<Pos, seq<Slot>>, p: Pos)
    requires forall i, j :: 0 <= i < j < |entries| ==> entries[i].pos != entries[j].pos
    ensures (exists i :: 0 <= i < |entries| && entries[i].pos == p) || p in m <==> p in Inserted(entries, m)
    ensures forall i :: 0 <= i < |entries| && entries[i].pos == p ==>
      Inserted(entries, m)[p] == NormalSlots(entries[i].slots)
    ensures (forall i :: 0 <= i < |entries| ==> entries[i].pos != p) && p in m ==> Inserted(entries, m)[p] == m[p]
    decreases |entries|
  {
    if entries != [] {
      var m' := m[entries[0].pos := NormalSlots(entries[0].slots)];
      InsertedAt(entries[1..], m', p);
      assert forall i :: 0 < i < |entries| ==> entries[i] == entries[1..][i - 1];
    }
  }

  /** Loading a save adds exactly the saved containers, in normal form, whatever the order they were written in. */
  lemma SaveLoad(entries: seq<Entry>, m: map<Pos, seq<Slot>>, into: map<Pos, seq<Slot>>)
    requires Lists(entries, m) && |m| < 0x1_0000_0000
    requires AllFit(entries)
    ensures LoadBytes(SaveBytes(entries), into) == Some(into + NormalMap(m))
  {
    HeaderBack(entries, into);
    ReadEntriesBack(SaveBytes(entries), 5, entries, into);
    InsertedIsUnion(entries, m, into);
  }

  lemma HeaderBack(entries: seq<Entry>, into: map<Pos, seq<Slot>>)
    requires |entries| < 0x1_0000_0000
    ensures At(SaveBytes(entries), 5, FlatMap(EntryBytes, entries))
    ensures LoadBytes(SaveBytes(entries), into) == ReadEntries(SaveBytes(entries), 5, |entries|, true, into)
  {
    HeaderBytes(SaveBytes(entries), |entries|, FlatMap(EntryBytes, entries));
  }

  lemma HeaderBytes(data: seq<U8>, count: U32, body: seq<U8>)
    requires data == [2] + Le32(count) + body
    ensures At(data, 5, body) && data[0] == 2 && FromLe32(data[1], data[2], data[3], data[4]) == count
  {
    var n := Le32(count);
    Le32RoundTrip(count);
    assert data[1] == n[0] && data[2] == n[1] && data[3] == n[2] && data[4] == n[3];
  }

  lemma UnionAt(entries: seq<Entry>, m: map<Pos, seq<Slot>>, into: map<Pos, seq<Slot>>, p: Pos)
    requires Lists(entries, m)
    ensures p in Inserted(entries, into) <==> p in m || p in into
    ensures p in m ==> Inserted(entries, into)[p] == NormalSlots(m[p])
    ensures p !in m && p in into ==> Inserted(entries, into)[p] == into[p]
  {
    InsertedAt(entries, into, p);
    if p in m {
      var i :| 0 <= i < |entries| && entries[i].pos == p;
    }
  }

  lemma InsertedIsUnion(entries: seq<Entry>, m: map<Pos, seq<Slot>>, into: map<Pos, seq<Slot>>)
    requires Lists(entries, m)
    ensures Inserted(entries, into) == into + NormalMap(m)
  {
    var loaded := Inserted(entries, into);
    forall p
      ensures p in loaded <==> p in m || p in into
      ensures p in m ==> loaded[p] == NormalSlots(m[p])
      ensures p !in m && p in into ==> loaded[p] == into[p]
    {
      UnionAt(entries, m, into, p);
    }
  }

  // ----- when loading leaves the data -----

  /** After `k` slots the reader stands at a present slot with enough left for its id, not for its count. */
  predicate StandsBeforeCount(data: seq<U8>, pos: nat, k: nat, v2: bool) {
    var read := ReadSlots(data, pos, k, v2);
    read.Slots? && read.pos + 5 == |data| && data[read.pos] == 1
  }

  lemma {:induction false} PanicStands(data: seq<U8>, pos: nat, n: nat, v2: bool) returns (k: nat)
    requires ReadSlots(data, pos, n, v2).SlotsPanic?
    ensures k < n && StandsBeforeCount(data, pos, k, v2)
    decreases n
  {
    match ReadSlot(data, pos, v2)
    case Panic =>
      k := 0;
    case Got(_, next) =>
      var later := PanicStands(data, next, n - 1, v2);
      k := later + 1;
  }

  lemma {:induction false} StandsPanics(data: seq<U8>, pos: nat, n: nat, v2: bool, k: nat)
    requires k < n && StandsBeforeCount(data, pos, k, v2)
    ensures ReadSlots(data, pos, n, v2).SlotsPanic?
    decreases n
  {
    if k > 0 && ReadSlot(data, pos, v2).Got? {
      StandsPanics(data, ReadSlot(data, pos, v2).pos, n - 1, v2, k - 1);
    }
  }

  /** A run of slots leaves the data exactly when, after some of them, the reader stands five bytes before the end
      at a present slot. */
  lemma SlotsPanicExact(data: seq<U8>, pos: nat, n: nat, v2: bool)
    ensures ReadSlots(data, pos, n, v2).SlotsPanic? <==>
      exists k: nat :: k < n && StandsBeforeCount(data, pos, k, v2)
  {
    if ReadSlots(data, pos, n, v2).SlotsPanic? {
      var k := PanicStands(data, pos, n, v2);
    }
    if k: nat :| k < n && StandsBeforeCount(data, pos, k, v2) {
      StandsPanics(data, pos, n, v2, k);
    }
  }

  lemma {:induction false} ReadSlotsMovesOn(data: seq<U8>, pos: nat, n: nat, v2: bool)
    ensures ReadSlots(data, pos, n, v2).Slots? ==> pos <= ReadSlots(data, pos, n, v2).pos
    ensures ReadSlots(data, pos, n, v2).SlotsPanic? ==> pos + 5 <= |data| && data[|data| - 5] == 1
    decreases n
  {
    if n > 0 && ReadSlot(data, pos, v2).Got? {
      ReadSlotsMovesOn(data, ReadSlot(data, pos, v2).pos, n - 1, v2);
    }
  }

  lemma {:induction false} EntriesPanicByte(data: seq<U8>, pos: nat, count: nat, v2: bool, m: map<Pos, seq<Slot>>)
    requires ReadEntries(data, pos, count, v2, m).None?
    ensures pos + 19 <= |data| && data[|data| - 5] == 1
    decreases count
  {
    hide ReadSlots, PosAt, FromLe16;
    var n := FromLe16(data[pos + 12], data[pos + 13]);
    ReadSlotsMovesOn(data, pos + 14, n, v2);
    match ReadSlots(data, pos + 14, n, v2)
    case SlotsPanic =>
    case Slots(slots, next) => EntriesPanicByte(data, next, count - 1, v2, m[PosAt(data, pos) := slots]);
  }

  /** A byte to look at beforehand: a load can only leave the data when the fifth byte from the end is a one and the
      file holds at least one entry and the start of a slot. */
  lemma PanicByte(data: seq<U8>, m: map<Pos, seq<Slot>>)
    requires LoadBytes(data, m).None?
    ensures |data| >= (if data[0] == 2 then 24 else 23) && data[|data| - 5] == 1
  {
    hide ReadEntries, FromLe32;
    var start := if data[0] == 2 then 1 else 0;
    var count := FromLe32(data[start], data[start + 1], data[start + 2], data[start + 3]);
    EntriesPanicByte(data, start + 4, count, data[0] == 2, m);
  }

  /** Where the reader stands after `k` entries; nothing when it does not get that far. */
  function EntriesEnd(data: seq<U8>, pos: nat, k: nat, v2: bool): Option<nat>
    decreases k
  {
    if k == 0 then Some(pos)
    else if pos + 14 > |data| then None
    else match ReadSlots(data, pos + 14, FromLe16(data[pos + 12], data[pos + 13]), v2)
      case SlotsPanic => None
      case Slots(_, next) => EntriesEnd(data, next, k - 1, v2)
  }

  /** After `k` entries and `j` slots of the next the reader stands at a present slot, with enough left for its id and
      not for its count. */
  predicate StandsInEntry(data: seq<U8>, pos: nat, k: nat, j: nat, v2: bool) {
    match EntriesEnd(data, pos, k, v2)
    case None => false
    case Some(p) =>
      p + 14 <= |data| && j < FromLe16(data[p + 12], data[p + 13]) && StandsBeforeCount(data, p + 14, j, v2)
  }

  lemma {:induction false} EntriesPanicStands(data: seq<U8>, pos: nat, count: nat, v2: bool, m: map<Pos, seq<Slot>>)
    returns (k: nat, j: nat)
    requires ReadEntries(data, pos, count, v2, m).None?
    ensures k < count && StandsInEntry(data, pos, k, j, v2)
    decreases count
  {
    hide ReadSlots, PosAt, FromLe16;
    var n := FromLe16(data[pos + 12], data[pos + 13]);
    match ReadSlots(data, pos + 14, n, v2)
    case SlotsPanic =>
      j := PanicStands(data, pos + 14, n, v2);
      k := 0;
      assert EntriesEnd(data, pos, k, v2) == Some(pos);
    case Slots(slots, next) =>
      k, j := EntriesPanicStands(data, next, count - 1, v2, m[PosAt(data, pos) := slots]);
      k := k + 1;
  }

  lemma {:induction false} EntriesStandPanics(data: seq<U8>, pos: nat, count: nat, v2: bool, m: map<Pos, seq<Slot>>,
                                              k: nat, j: nat)
    requires k < count && StandsInEntry(data, pos, k, j, v2)
    ensures ReadEntries(data, pos, count, v2, m).None?
    decreases count
  {
    hide ReadSlots, PosAt, FromLe16, StandsBeforeCount;
    var n := FromLe16(data[pos + 12], data[pos + 13]);
    if k == 0 {
      StandsPanics(data, pos + 14, n, v2, j);
    } else {
      match ReadSlots(data, pos + 14, n, v2)
      case SlotsPanic =>
      case Slots(slots, next) =>
        EntriesStandPanics(data, next, count - 1, v2, m[PosAt(data, pos) := slots], k - 1, j);
    }
  }

  /** The file has a header, and the reader comes to stand so in the entry `k`, one of those it announces. */
  predicate LoadStands(data: seq<U8>, k: nat, j: nat) {
    && |data| >= 4 && (data[0] == 2 ==> |data| >= 5)
    && var start := if data[0] == 2 then 1 else 0;
       && k < FromLe32(data[start], data[start + 1], data[start + 2], data[start + 3])
       && StandsInEntry(data, start + 4, k, j, data[0] == 2)
  }

  /** Loading any file leaves the data exactly when, after some of the entries it announces and some of the slots the
      next of them announces, the reader stands five bytes before the end at a present slot. */
  lemma LoadPanicsExact(data: seq<U8>, m: map<Pos, seq<Slot>>)
    ensures LoadBytes(data, m).None? <==> exists k: nat, j: nat :: LoadStands(data, k, j)
  {
    hide ReadEntries, FromLe32, StandsInEntry;
    if |data| >= 4 && (data[0] == 2 ==> |data| >= 5) {
      var start := if data[0] == 2 then 1 else 0;
      var count := FromLe32(data[start], data[start + 1], data[start + 2], data[start + 3]);
      if LoadBytes(data, m).None? {
        var k, j := EntriesPanicStands(data, start + 4, count, data[0] == 2, m);
        assert LoadStands(data, k, j);
      }
      if k: nat, j: nat :| LoadStands(data, k, j) {
        EntriesStandPanics(data, start + 4, count, data[0] == 2, m, k, j);
      }
    }
  }

  // ----- reading does not look back -----

  function MovedRead(r: SlotRead, d: nat): SlotRead {
    match r
    case Got(slot, pos) => Got(slot, pos + d)
    case End => End
    case Panic => Panic
  }

  lemma ReadSlotShift(data: seq<U8>, d: nat, pos: nat, v2: bool)
    requires d <= |data|
    ensures ReadSlot(data, d + pos, v2) == MovedRead(ReadSlot(data[d..], pos, v2), d)
  {
    hide FromLe16, FromLe32, NewStack, MaxDurability;
    var tail := data[d..];
    if pos + 10 <= |tail| {
      var n := FromLe16(tail[pos + 6], tail[pos + 7]);
      if pos + 8 + n <= |tail| {
        assert tail[pos + 8..pos + 8 + n] == data[d + pos + 8..d + pos + 8 + n];
      }
    }
  }

  function MovedSlots(r: SlotsRead, d: nat): SlotsRead {
    match r
    case Slots(slots, pos) => Slots(slots, pos + d)
    case SlotsPanic => SlotsPanic
  }

  lemma {:induction false} ReadSlotsShift(data: seq<U8>, d: nat, pos: nat, n: nat, v2: bool)
    requires d <= |data|
    ensures ReadSlots(data, d + pos, n, v2) == MovedSlots(ReadSlots(data[d..], pos, n, v2), d)
    decreases n
  {
    hide ReadSlot;
    if n > 0 {
      ReadSlotShift(data, d, pos, v2);
      var first := ReadSlot(data[d..], pos, v2);
      if first.Got? {
        ReadSlotsShift(data, d, first.pos, n - 1, v2);
      }
    }
  }

  /** Nor does it matter for leaving the data what was loaded before. */
  lemma {:induction false} ReadEntriesShift(data: seq<U8>, d: nat, pos: nat, count: nat, v2: bool,
                                            m: map<Pos, seq<Slot>>, other: map<Pos, seq<Slot>>)
    requires d <= |data|
    ensures ReadEntries(data, d + pos, count, v2, m).None? <==> ReadEntries(data[d..], pos, count, v2, other).None?
    decreases count
  {
    hide ReadSlots, PosAt, FromLe16;
    var tail := data[d..];
    if count > 0 && pos + 14 <= |tail| {
      var n := FromLe16(tail[pos + 12], tail[pos + 13]);
      assert n == FromLe16(data[d + pos + 12], data[d + pos + 13]);
      ReadSlotsShift(data, d, pos + 14, n, v2);
      match ReadSlots(tail, pos + 14, n, v2)
      case SlotsPanic =>
      case Slots(slots, next) =>
        ReadEntriesShift(data, d, next, count - 1, v2, m[PosAt(data, d + pos) := slots],
                         other[PosAt(tail, pos) := slots]);
    }
  }

  // ----- a save that was cut off -----

  /** Reading the rest of a slot list, and `entries` entries after it, leaves the data. */
  predicate PanicsFrom(data: seq<U8>, pos: nat, slots: nat, entries: nat) {
    match ReadSlots(data, pos, slots, true)
    case SlotsPanic => true
    case Slots(_, next) => ReadEntries(data, next, entries, true, map[]).None?
  }

  /** A cut `n` bytes into a present slot leaves the data right behind the id; inside the NBT field the reader takes
      two NBT bytes for the durability and the others for the slots and entries that should follow. */
  predicate CutPanicsIn(s: ItemStack, n: nat, slots: nat, entries: nat) {
    var nbt := s.nbt.GetOr([]);
    n == 5 || (10 <= n < 8 + |nbt| && PanicsFrom(nbt[2..n - 8], 0, slots, entries))
  }

  predicate CutPanics(slots: seq<Slot>, n: nat, entries: nat) {
    slots != [] &&
    if n < |SlotBytes(slots[0])| then slots[0].Some? && CutPanicsIn(slots[0].value, n, |slots| - 1, entries)
    else CutPanics(slots[1..], n - |SlotBytes(slots[0])|, entries)
  }

  predicate SaveCutPanics(entries: seq<Entry>, n: nat) {
    entries != [] &&
    if n < |EntryBytes(entries[0])| then n >= 14 && CutPanics(entries[0].slots, n - 14, |entries| - 1)
    else SaveCutPanics(entries[1..], n - |EntryBytes(entries[0])|)
  }

  /** With fewer than five bytes left nothing can go wrong any more. */
  lemma {:induction false} ShortTailSafe(data: seq<U8>, pos: nat, n: nat)
    requires |data| < pos + 5
    ensures ReadSlots(data, pos, n, true).Slots? && |data| < ReadSlots(data, pos, n, true).pos + 5
    decreases n
  {
    if n > 0 && ReadSlot(data, pos, true).Got? {
      ShortTailSafe(data, ReadSlot(data, pos, true).pos, n - 1);
    }
  }

  lemma ShortTailDone(data: seq<U8>, pos: nat, slots: nat, entries: nat)
    requires |data| < pos + 5
    ensures !PanicsFrom(data, pos, slots, entries)
  {
    ShortTailSafe(data, pos, slots);
  }

  /** What the reader makes of a present slot that is cut off: it stops or is nearly through, or it has lost its way
      in the NBT field. */
  lemma CutSlot(full: seq<U8>, data: seq<U8>, pos: nat, s: ItemStack)
    requires data <= full && pos <= |data| < pos + |SlotBytes(Some(s))|
    requires At(full, pos, SlotBytes(Some(s))) && NbtFits(Some(s))
    ensures
      var r, n, nbt := ReadSlot(data, pos, true), |data| - pos, s.nbt.GetOr([]);
      && (n == 5 ==> r == Panic)
      && (10 <= n < 8 + |nbt| ==> r.Got? && r.pos == pos + 10 && data[pos + 10..] == nbt[2..n - 8])
      && (n != 5 && !(10 <= n < 8 + |nbt|) ==> (r == End && n < 5) || (r.Got? && |data| < r.pos + 5))
  {
    hide FromLe32, StackTail, StackSize, MaxDurability;
    StackLayout(full, pos, s);
    var n, nbt := |data| - pos, s.nbt.GetOr([]);
    if n >= 10 {
      assert FromLe16(data[pos + 6], data[pos + 7]) == |nbt|;
      if n < 8 + |nbt| {
        CutNbt(full, data, pos + 8, nbt);
      }
    }
  }

  lemma CutNbt(full: seq<U8>, data: seq<U8>, pos: nat, nbt: seq<U8>)
    requires data <= full && pos + 2 <= |data| < pos + |nbt| <= |full| && full[pos..pos + |nbt|] == nbt
    ensures data[pos + 2..] == nbt[2..|data| - pos]
  {
    assert forall i :: 0 <= i < |nbt| ==> nbt[i] == full[pos + i];
  }

  lemma PanicsFromNext(data: seq<U8>, pos: nat, slots: nat, entries: nat)
    requires slots > 0
    ensures PanicsFrom(data, pos, slots, entries) <==> match ReadSlot(data, pos, true)
      case Got(_, next) => PanicsFrom(data, next, slots - 1, entries)
      case End => ReadEntries(data, pos, entries, true, map[]).None?
      case Panic => true
  {
    hide ReadSlot, ReadEntries;
  }

  lemma PanicsFromShift(data: seq<U8>, pos: nat, slots: nat, entries: nat)
    requires pos <= |data|
    ensures PanicsFrom(data, pos, slots, entries) <==> PanicsFrom(data[pos..], 0, slots, entries)
  {
    hide ReadSlots, ReadEntries;
    ReadSlotsShift(data, pos, 0, slots, true);
    match ReadSlots(data[pos..], 0, slots, true)
    case SlotsPanic =>
    case Slots(_, next) => ReadEntriesShift(data, pos, next, entries, true, map[], map[]);
  }

  /** A cut within the first of the slots still to be read. */
  lemma CutFirstSlot(full: seq<U8>, data: seq<U8>, pos: nat, slot: Slot, slots: nat, entries: nat)
    requires data <= full && pos <= |data| < pos + |SlotBytes(slot)|
    requires At(full, pos, SlotBytes(slot)) && NbtFits(slot)
    ensures PanicsFrom(data, pos, slots + 1, entries) <==>
      slot.Some? && CutPanicsIn(slot.value, |data| - pos, slots, entries)
  {
    hide ReadSlot, PanicsFrom;
    match slot
    case None =>
      ShortTailDone(data, pos, slots + 1, entries);
    case Some(s) =>
      hide SlotBytes;
      CutSlot(full, data, pos, s);
      PanicsFromNext(data, pos, slots + 1, entries);
      var r := ReadSlot(data, pos, true);
      if r == End {
        ShortTailDone(data, pos, slots + 1, entries);
      } else if r.Got? && |data| < r.pos + 5 {
        ShortTailDone(data, r.pos, slots, entries);
        if r.pos <= |data| {
          PanicsFromShift(data, r.pos, slots, entries);
        }
      } else if r.Got? {
        PanicsFromShift(data, r.pos, slots, entries);
      }
  }

  lemma {:induction false} CutSlots(full: seq<U8>, data: seq<U8>, pos: nat, slots: seq<Slot>, entries: nat)
    requires data <= full && pos <= |data| < pos + |SlotsBytes(slots)| && At(full, pos, SlotsBytes(slots))
    requires forall i :: 0 <= i < |slots| ==> NbtFits(slots[i])
    ensures PanicsFrom(data, pos, |slots|, entries) <==> CutPanics(slots, |data| - pos, entries)
    decreases |slots|
  {
    hide ReadSlot, SlotBytes, NormalSlot, PanicsFrom, CutPanicsIn;
    FlatMapAt(full, pos, SlotBytes, slots);
    var next := pos + |SlotBytes(slots[0])|;
    if |data| < next {
      CutFirstSlot(full, data, pos, slots[0], |slots| - 1, entries);
    } else {
      assert full[pos..next] == data[pos..next];
      ReadSlotBack(data, pos, slots[0]);
      PanicsFromNext(data, pos, |slots|, entries);
      CutSlots(full, data, next, slots[1..], entries);
    }
  }

  /** The entry at hand is cut, or the file goes on behind it. */
  lemma CutEntry(full: seq<U8>, data: seq<U8>, pos: nat, e: Entry, entries: nat, m: map<Pos, seq<Slot>>)
    requires data <= full && pos <= |data| && At(full, pos, EntryBytes(e)) && EntryFits(e)
    ensures |EntryBytes(e)| >= 14
    ensures
      var next := pos + |EntryBytes(e)|;
      if |data| < next then
        ReadEntries(data, pos, entries + 1, true, m).None? <==>
          |data| >= pos + 14 && CutPanics(e.slots, |data| - pos - 14, entries)
      else
        ReadEntries(data, pos, entries + 1, true, m) ==
          ReadEntries(data, next, entries, true, m[PosAt(data, pos) := NormalSlots(e.slots)])
  {
    hide EntryBytes, PosAt, FromLe16, ReadSlots, CutPanics, NormalSlots;
    EntryBack(full, pos, e);
    if |data| >= pos + 14 {
      assert FromLe16(data[pos + 12], data[pos + 13]) == |e.slots|;
      if |data| < pos + |EntryBytes(e)| {
        CutSlots(full, data, pos + 14, e.slots, entries);
        match ReadSlots(data, pos + 14, |e.slots|, true)
        case SlotsPanic =>
        case Slots(slots, next) => OtherMap(data, next, entries, m[PosAt(data, pos) := slots]);
      } else {
        assert full[pos + 14..pos + |EntryBytes(e)|] == data[pos + 14..pos + |EntryBytes(e)|];
        ReadSlotsBack(data, pos + 14, e.slots);
      }
    }
  }

  lemma OtherMap(data: seq<U8>, pos: nat, entries: nat, m: map<Pos, seq<Slot>>)
    ensures ReadEntries(data, pos, entries, true, m).None? <==> ReadEntries(data, pos, entries, true, map[]).None?
  {
    assert data[0..] == data;
    ReadEntriesShift(data, 0, pos, entries, true, m, map[]);
  }

  lemma {:induction false} CutEntries(full: seq<U8>, data: seq<U8>, pos: nat, entries: seq<Entry>,
                                      m: map<Pos, seq<Slot>>)
    requires data <= full && pos <= |data| && At(full, pos, FlatMap(EntryBytes, entries)) && AllFit(entries)
    ensures ReadEntries(data, pos, |entries|, true, m).None? <==> SaveCutPanics(entries, |data| - pos)
    decreases |entries|
  {
    hide EntryBytes, PosAt, FromLe16, ReadSlots, CutPanics, NormalSlots, EntryFits;
    if entries != [] {
      var e := entries[0];
      var next := pos + |EntryBytes(e)|;
      FlatMapAt(full, pos, EntryBytes, entries);
      CutEntry(full, data, pos, e, |entries| - 1, m);
      if |data| >= next {
        CutEntries(full, data, next, entries[1..], m[PosAt(data, pos) := NormalSlots(e.slots)]);
      }
    }
  }

  /** Loading a save that was cut off anywhere leaves the data exactly when the cut falls right behind the id of a
      present slot, or inside an NBT field whose remaining bytes do so when they are read for what was cut off. */
  lemma CutSavePanicsExactly(entries: seq<Entry>, n: nat, into: map<Pos, seq<Slot>>)
    requires AllFit(entries) && |entries| < 0x1_0000_0000 && n <= |SaveBytes(entries)|
    ensures LoadBytes(SaveBytes(entries)[..n], into).None? <==> n >= 5 && SaveCutPanics(entries, n - 5)
  {
    hide EntryBytes, ReadEntries, AllFit, SaveCutPanics, FlatMap, Le32, FromLe32;
    var full := SaveBytes(entries);
    if n >= 5 {
      HeaderBytes(full, |entries|, FlatMap(EntryBytes, entries));
      CutEntries(full, full[..n], 5, entries, into);
    }
  }

  /** The save of one chest with one stack in it, cut off in the middle of the stack, makes the loader index out of
      bounds. */
  lemma CutChestPanics(s: ItemStack, into: map<Pos, seq<Slot>>)
    requires NbtFits(Some(s))
    ensures
      var save := SaveBytes([Entry(Pos(0, 64, 0), [Some(s)])]);
      |save| >= 29 && LoadBytes(save[..24], into).None?
  {
    hide Le16, Le32;
    var e := Entry(Pos(0, 64, 0), [Some(s)]);
    assert e.slots[1..] == [] && [e][1..] == [];
    assert FlatMap(SlotBytes, e.slots) == SlotBytes(Some(s)) + FlatMap(SlotBytes, e.slots[1..]);
    assert FlatMap(EntryBytes, [e]) == EntryBytes(e) + FlatMap(EntryBytes, [e][1..]);
    assert EntryFits(e) && AllFit([e]);
    assert CutPanics(e.slots, 5, 0);
    CutSavePanicsExactly([e], 24, into);
  }

  // ----- one save on paper, and the older version -----

  /** Version, entry count, position, slot count, slots; the integers lowest byte first, negative ones in two's
      complement. */
  lemma WrittenSave()
    ensures SaveBytes([Entry(Pos(1, -2, 0x0304), [None, None])]) ==
      [2, 1, 0, 0, 0, 1, 0, 0, 0, 0xFE, 0xFF, 0xFF, 0xFF, 0x04, 0x03, 0, 0, 2, 0, 0, 0]
  {
    hide SaveBytes, EntryBytes;
    WrittenEntry();
    SaveOfOne(Entry(Pos(1, -2, 0x0304), [None, None]));
  }

  lemma SaveOfOne(e: Entry)
    ensures SaveBytes([e]) == [2, 1, 0, 0, 0] + EntryBytes(e)
  {
    hide EntryBytes;
    assert [e][1..] == [];
    assert FlatMap(EntryBytes, [e]) == EntryBytes(e) + FlatMap(EntryBytes, [e][1..]);
    assert Le32(1) == [1, 0, 0, 0];
  }

  lemma WrittenPos()
    ensures PosBytes(Pos(1, -2, 0x0304)) == [1, 0, 0, 0, 0xFE, 0xFF, 0xFF, 0xFF, 0x04, 0x03, 0, 0]
  {
    assert Le32(FromI32(-2)) == [0xFE, 0xFF, 0xFF, 0xFF] && Le32(1) == [1, 0, 0, 0];
  }

  lemma WrittenEntry()
    ensures EntryBytes(Entry(Pos(1, -2, 0x0304), [None, None])) ==
      [1, 0, 0, 0, 0xFE, 0xFF, 0xFF, 0xFF, 0x04, 0x03, 0, 0, 2, 0, 0, 0]
  {
    hide PosBytes;
    var slots: seq<Slot> := [None, None];
    WrittenPos();
    assert slots[1..] == [None] && slots[1..][1..] == [];
    assert SlotsBytes(slots) == [0] + ([0] + []);
    assert Le16(2) == [2, 0];
  }

  /** A slot of version 1: no NBT and no durability. */
  function OldSlotBytes(slot: Slot): seq<U8> {
    match slot
    case None => [0]
    case Some(s) => [1] + (Le32(s.item.id) + [s.count])
  }

  function OldEntryBytes(e: Entry): seq<U8> {
    PosBytes(e.pos) + Le16(|e.slots| % 0x1_0000) + FlatMap(OldSlotBytes, e.slots)
  }

  function OldSaveBytes(entries: seq<Entry>): seq<U8> {
    Le32(|entries| % 0x1_0000_0000) + FlatMap(OldEntryBytes, entries)
  }

  predicate Plain(slot: Slot) {
    slot.Some? ==> slot.value.nbt.None? && slot.value.durability.None?
  }

  predicate AllPlain(entries: seq<Entry>) {
    forall i, j :: 0 <= i < |entries| && 0 <= j < |entries[i].slots| ==> Plain(entries[i].slots[j])
  }

  lemma OldSlotBack(data: seq<U8>, pos: nat, slot: Slot)
    requires At(data, pos, OldSlotBytes(slot)) && Plain(slot)
    ensures ReadSlot(data, pos, false) == Got(NormalSlot(slot), pos + |OldSlotBytes(slot)|)
  {
    hide FromLe16, FromLe32, Le32, StackSize, MaxDurability;
    match slot
    case None =>
      U8At(data, pos, 0);
    case Some(s) =>
      AtConcat(data, pos, [1], Le32(s.item.id) + [s.count]);
      AtConcat(data, pos + 1, Le32(s.item.id), [s.count]);
      U8At(data, pos, 1);
      U32At(data, pos + 1, s.item.id);
      U8At(data, pos + 5, s.count);
  }

  lemma {:induction false} OldSlotsBack(data: seq<U8>, pos: nat, slots: seq<Slot>)
    requires At(data, pos, FlatMap(OldSlotBytes, slots))
    requires forall i :: 0 <= i < |slots| ==> Plain(slots[i])
    ensures ReadSlots(data, pos, |slots|, false) == Slots(NormalSlots(slots), pos + |FlatMap(OldSlotBytes, slots)|)
    decreases |slots|
  {
    hide ReadSlot, OldSlotBytes, NormalSlot;
    if slots != [] {
      var next, tail := pos + |OldSlotBytes(slots[0])|, slots[1..];
      FlatMapAt(data, pos, OldSlotBytes, slots);
      OldSlotBack(data, pos, slots[0]);
      OldSlotsBack(data, next, tail);
      ReadSlotsCons(data, pos, |tail|, false, NormalSlot(slots[0]), next, NormalSlots(tail),
                    pos + |FlatMap(OldSlotBytes, slots)|);
    }
  }

  lemma OldEntryBack(data: seq<U8>, pos: nat, e: Entry)
    requires At(data, pos, OldEntryBytes(e)) && |e.slots| < 0x1_0000
    ensures pos + 14 <= |data| && PosAt(data, pos) == e.pos
    ensures FromLe16(data[pos + 12], data[pos + 13]) == |e.slots|
    ensures At(data, pos + 14, FlatMap(OldSlotBytes, e.slots))
    ensures |OldEntryBytes(e)| == 14 + |FlatMap(OldSlotBytes, e.slots)|
  {
    hide Le16, Le32, FromLe16, FromLe32, FromI32, ToI32;
    AtThree(data, pos, PosBytes(e.pos), Le16(|e.slots|), FlatMap(OldSlotBytes, e.slots));
    PosBack(data, pos, e.pos);
    U16At(data, pos + 12, |e.slots|);
  }

  lemma {:induction false} OldEntriesBack(data: seq<U8>, pos: nat, entries: seq<Entry>, m: map<Pos, seq<Slot>>)
    requires At(data, pos, FlatMap(OldEntryBytes, entries)) && AllPlain(entries)
    requires forall i :: 0 <= i < |entries| ==> |entries[i].slots| < 0x1_0000
    ensures ReadEntries(data, pos, |entries|, false, m) == Some(Inserted(entries, m))
    decreases |entries|
  {
    hide OldEntryBytes, OldSlotBytes, PosAt, FromLe16, ReadSlots, NormalSlots, Plain;
    if entries != [] {
      var e := entries[0];
      FlatMapAt(data, pos, OldEntryBytes, entries);
      OldEntryBack(data, pos, e);
      OldSlotsBack(data, pos + 14, e.slots);
      OldEntriesBack(data, pos + |OldEntryBytes(e)|, entries[1..], m[e.pos := NormalSlots(e.slots)]);
    }
  }

  lemma OldHeader(data: seq<U8>, count: U32, body: seq<U8>)
    requires data == Le32(count) + body
    ensures At(data, 4, body) && data[0] == count % 0x100 && FromLe32(data[0], data[1], data[2], data[3]) == count
  {
    var n := Le32(count);
    Le32RoundTrip(count);
    assert data[0] == n[0] && data[1] == n[1] && data[2] == n[2] && data[3] == n[3];
  }

  /** A file of version 1 loads as well, unless the lowest byte of its entry count is taken for the version. */
  lemma OldSaveLoad(entries: seq<Entry>, m: map<Pos, seq<Slot>>, into: map<Pos, seq<Slot>>)
    requires Lists(entries, m) && |m| < 0x1_0000_0000 && |entries| % 0x100 != 2 && AllPlain(entries)
    requires forall i :: 0 <= i < |entries| ==> |entries[i].slots| < 0x1_0000
    ensures LoadBytes(OldSaveBytes(entries), into) == Some(into + NormalMap(m))
  {
    hide OldEntryBytes, ReadEntries, FromLe32, Le32, FlatMap;
    var data := OldSaveBytes(entries);
    OldHeader(data, |entries|, FlatMap(OldEntryBytes, entries));
    OldEntriesBack(data, 4, entries, into);
    InsertedIsUnion(entries, m, into);
  }

  // ----- window ids -----

  /** The id after `id`: ids run from 1 to 255 and start over. */
  function NextId(id: U8): (r: U8)
    ensures r != 0
  {
    if id == 255 then 1 else id + 1
  }

  function IdAfter(id: U8, openings: nat): U8 {
    if openings == 0 then id else NextId(IdAfter(id, openings - 1))
  }

  lemma {:induction false} IdAfterClosed(id: U8, k: nat)
    requires id != 0
    ensures IdAfter(id, k) == (id - 1 + k) % 255 + 1
    decreases k
  {
    if k > 0 {
      IdAfterClosed(id, k - 1);
    }
  }

  /** A window id comes up again after every 255 openings and not before. */
  lemma WindowIdReturns(id: U8, j: nat, k: nat)
    requires id != 0
    ensures IdAfter(id, j) == IdAfter(id, k) <==> (j - k) % 255 == 0
  {
    hide IdAfter;
    IdAfterClosed(id, j);
    IdAfterClosed(id, k);
    SameRemainder(id - 1 + j, id - 1 + k);
  }

  lemma SameRemainder(a: nat, b: nat)
    ensures a % 255 == b % 255 <==> (a - b) % 255 == 0
  {
    assert a == a / 255 * 255 + a % 255 && b == b / 255 * 255 + b % 255;
    var r := a % 255 - b % 255;
    assert a - b == (a / 255 - b / 255) * 255 + r && -255 < r < 255;
  }

  // ----- the manager -----

  datatype ContainerData = ContainerData(pos: Pos, slots: seq<Slot>, stateId: I32)

  /** Appends one entry to the buffer. */
  method WriteEntry(before: seq<U8>, e: Entry) returns (buf: seq<U8>)
    ensures buf == before + EntryBytes(e)
  {
    buf := before + PosBytes(e.pos) + Le16(|e.slots| % 0x1_0000);
    ghost var head := buf;
    for j := 0 to |e.slots|
      invariant buf == head + SlotsBytes(e.slots[..j])
    {
      AppendStep(SlotBytes, e.slots, j, head, buf);
      buf := buf + SlotBytes(e.slots[j]);
    }
    assert e.slots[..|e.slots|] == e.slots;
  }

  function Continued(before: seq<Slot>, r: SlotsRead): SlotsRead {
    match r
    case SlotsPanic => SlotsPanic
    case Slots(slots, pos) => Slots(before + slots, pos)
  }

  lemma ReadSlotsStep(data: seq<U8>, pos: nat, n: nat, v2: bool, before: seq<Slot>)
    requires n > 0
    ensures match ReadSlot(data, pos, v2)
      case Panic => Continued(before, ReadSlots(data, pos, n, v2)) == SlotsPanic
      case End => Continued(before, ReadSlots(data, pos, n, v2)) == Slots(before, pos)
      case Got(slot, next) =>
        Continued(before, ReadSlots(data, pos, n, v2)) == Continued(before + [slot], ReadSlots(data, next, n - 1, v2))
  {
    match ReadSlot(data, pos, v2) {
      case Panic =>
      case End =>
        assert before + [] == before;
      case Got(slot, next) =>
        match ReadSlots(data, next, n - 1, v2) {
          case SlotsPanic =>
          case Slots(slots, _) =>
            assert before + ([slot] + slots) == before + [slot] + slots;
        }
    }
  }

  /** Reads up to `n` slots. */
  method ReadSlotList(data: seq<U8>, start: nat, n: nat, v2: bool) returns (r: SlotsRead)
    ensures r == ReadSlots(data, start, n, v2)
  {
    var slots, pos, j := [], start, 0;
    while j < n
      invariant 0 <= j <= n
      invariant ReadSlots(data, start, n, v2) == Continued(slots, ReadSlots(data, pos, n - j, v2))
    {
      ReadSlotsStep(data, pos, n - j, v2, slots);
      var one := ReadSlot(data, pos, v2);
      if one.Panic? {
        return SlotsPanic;
      }
      if one.End? {
        return Slots(slots, pos);
      }
      slots, pos, j := slots + [one.slot], one.pos, j + 1;
    }
    return Slots(slots, pos);
  }

  /** Writes the whole file. */
  method WriteEntries(entries: seq<Entry>) returns (buf: seq<U8>)
    ensures buf == SaveBytes(entries)
  {
    buf := [2] + Le32(|entries| % 0x1_0000_0000);
    ghost var head := buf;
    for i := 0 to |entries|
      invariant buf == head + FlatMap(EntryBytes, entries[..i])
    {
      AppendStep(EntryBytes, entries, i, head, buf);
      buf := WriteEntry(buf, entries[i]);
    }
    assert entries[..|entries|] == entries;
  }

  class ContainerManager {
    var containers: map<U8, ContainerData>
    var playerWindows: map<Uuid, U8>
    var nextWindowId: U8
    var persistent: map<Pos, seq<Slot>>

    ghost predicate Valid()
      reads this
    {
      nextWindowId != 0
    }

    constructor ()
      ensures Valid() && containers == map[] && playerWindows == map[] && persistent == map[] && nextWindowId == 1
    {
      containers, playerWindows, nextWindowId, persistent := map[], map[], 1, map[];
    }

    /** The slots of a window, none when it is not open. */
    ghost function View(windowId: U8): seq<Slot>
      reads this
    {
      if windowId in containers then containers[windowId].slots else []
    }

    method Open(player: Uuid, pos: Pos, slotCount: nat) returns (windowId: U8)
      requires Valid()
      modifies this
      ensures Valid() && windowId != 0 && persistent == old(persistent)
      ensures playerWindows == old(playerWindows)[player := windowId]
      ensures View(windowId) == if pos in persistent then persistent[pos] else seq(slotCount, i => None)
      ensures windowId in containers && containers[windowId].pos == pos
      ensures containers - {windowId} == old(containers) - {windowId}
      ensures containers[windowId].stateId == 0
      ensures windowId == old(nextWindowId) && nextWindowId == NextId(windowId)
    {
      windowId := nextWindowId;
      nextWindowId := (nextWindowId + 1) % 0x100;
      if nextWindowId == 0 {
        nextWindowId := 1;
      }
      var slots := if pos in persistent then persistent[pos] else seq(slotCount, i => None);
      containers := containers[windowId := ContainerData(pos, slots, 0)];
      playerWindows := playerWindows[player := windowId];
    }

    method Close(player: Uuid, windowId: U8) returns (r: Option<ContainerData>)
      requires Valid()
      modifies this
      ensures Valid() && playerWindows == old(playerWindows) - {player} && nextWindowId == old(nextWindowId)
      ensures windowId !in old(containers) ==>
        r == None && containers == old(containers) && persistent == old(persistent)
      ensures windowId in old(containers) ==>
        var c := old(containers)[windowId];
        r == Some(c) && containers == old(containers) - {windowId} && persistent == old(persistent)[c.pos := c.slots]
    {
      playerWindows := playerWindows - {player};
      if windowId !in containers {
        return None;
      }
      var c := containers[windowId];
      containers := containers - {windowId};
      persistent := persistent[c.pos := c.slots];
      return Some(c);
    }

    method SetSlot(windowId: U8, slot: nat, item: Slot)
      modifies this`containers
      ensures View(windowId) ==
        if slot < |old(View(windowId))| then old(View(windowId))[slot := item] else old(View(windowId))
      ensures windowId in containers <==> windowId in old(containers)
      ensures containers - {windowId} == old(containers) - {windowId}
      ensures windowId in containers ==> containers[windowId].pos == old(containers)[windowId].pos
      ensures windowId in containers ==>
        var before, after := old(containers)[windowId].stateId as int, containers[windowId].stateId as int;
        if slot < |old(View(windowId))| then (after - before) % 0x1_0000_0000 == 1 else after == before
    {
      if windowId in containers && slot < |containers[windowId].slots| {
        var c := containers[windowId];
        var bumped := if c.stateId == 0x7FFF_FFFF then -0x8000_0000 else c.stateId + 1;
        containers := containers[windowId := c.(slots := c.slots[slot := item], stateId := bumped)];
      }
    }

    method GetSlot(windowId: U8, slot: nat) returns (r: Slot)
      ensures r == if slot < |View(windowId)| then View(windowId)[slot] else None
    {
      if windowId in containers && slot < |containers[windowId].slots| {
        return containers[windowId].slots[slot];
      }
      return None;
    }

    method AllSlots(windowId: U8) returns (r: seq<Slot>)
      ensures r == View(windowId)
    {
      r := if windowId in containers then containers[windowId].slots else [];
    }

    /** `entries` is the order in which the map is walked. */
    method SerializeAll(entries: seq<Entry>) returns (buf: seq<U8>)
      requires Lists(entries, persistent)
      ensures buf == SaveBytes(entries)
    {
      buf := WriteEntries(entries);
    }

    /** False when the source would index out of bounds, which aborts the server. */
    method DeserializeAll(data: seq<U8>) returns (ok: bool)
      modifies this`persistent
      ensures ok == LoadBytes(data, old(persistent)).Some?
      ensures ok ==> Some(persistent) == LoadBytes(data, old(persistent))
    {
      if |data| < 4 {
        return true;
      }
      var pos: nat := 0;
      var v2 := data[pos] == 2;
      if v2 {
        pos := pos + 1;
        if |data| < 5 {
          return true;
        }
      }
      var count := FromLe32(data[pos], data[pos + 1], data[pos + 2], data[pos + 3]);
      pos := pos + 4;
      var left := count;
      while left > 0
        invariant 0 <= left <= count
        invariant LoadBytes(data, old(persistent)) == ReadEntries(data, pos, left, v2, persistent)
      {
        if pos + 14 > |data| {
          break;
        }
        var n := FromLe16(data[pos + 12], data[pos + 13]);
        var read := ReadSlotList(data, pos + 14, n, v2);
        if read.SlotsPanic? {
          return false;
        }
        persistent := persistent[PosAt(data, pos) := read.slots];
        pos := read.pos;
        left := left - 1;
      }
      return true;
    }
  }
}
