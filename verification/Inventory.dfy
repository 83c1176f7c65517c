/** A player's inventory: adding and removing items, and its binary save format. */
module InventoryModel {
  import opened Common
  import opened Items

  const MAIN: nat := 36
  const ARMOR: nat := 4
  const SLOT_COUNT: nat := 41  // main slots, off hand, armour
  const MAX_STACK: nat := 64

  // ----- counting -----

  function CountIn(slot: Slot, item: BlockState): nat {
    if slot.Some? && slot.value.item == item then slot.value.count else 0
  }

  function Total(slots: seq<Slot>, item: BlockState): nat {
    if slots == [] then 0 else Total(slots[..|slots| - 1], item) + CountIn(slots[|slots| - 1], item)
  }

  lemma {:induction false} TotalUpdate(slots: seq<Slot>, i: nat, slot: Slot, item: BlockState)
    requires i < |slots|
    ensures Total(slots[i := slot], item) == Total(slots, item) - CountIn(slots[i], item) + CountIn(slot, item)
  {
    var n := |slots| - 1;
    var after := slots[i := slot];
    if i == n {
      assert after[..n] == slots[..n];
    } else {
      assert after[..n] == slots[..n][i := slot];
      TotalUpdate(slots[..n], i, slot, item);
    }
  }

  // ----- adding and removing -----

  /** The three sweeps over the main slots, each handing on the number of items still to move. */
  datatype Sweep = Stacking | Placing | Taking

  function Step(sweep: Sweep, item: BlockState, slot: Slot, n: nat): (r: (Slot, nat))
    ensures r.1 <= n && (n == 0 ==> r == (slot, 0))
  {
    match sweep
    case Stacking =>
      if slot.Some? && slot.value.item == item && slot.value.count < MAX_STACK then
        var add := Min(n, MAX_STACK - slot.value.count);
        (Some(slot.value.(count := slot.value.count + add)), n - add)
      else (slot, n)
    case Placing =>
      if slot.None? && n > 0 then (Some(NewStack(item, Min(n, MAX_STACK))), n - Min(n, MAX_STACK)) else (slot, n)
    case Taking =>
      if slot.Some? && slot.value.item == item then
        var take := Min(n, slot.value.count);
        (Some(slot.value.(count := slot.value.count - take)), n - take)
      else (slot, n)
  }

  function Swept(sweep: Sweep, item: BlockState, slots: seq<Slot>, n: nat): (r: (seq<Slot>, nat))
    ensures |r.0| == |slots| && r.1 <= n
  {
    if slots == [] then ([], n)
    else
      var before := Swept(sweep, item, slots[..|slots| - 1], n);
      var last := Step(sweep, item, slots[|slots| - 1], before.1);
      (before.0 + [last.0], last.1)
  }

  function Cleared(slot: Slot): Slot {
    if slot.Some? && slot.value.count == 0 then None else slot
  }

  function AllCleared(slots: seq<Slot>): (r: seq<Slot>)
    ensures |r| == |slots|
  {
    if slots == [] then [] else AllCleared(slots[..|slots| - 1]) + [Cleared(slots[|slots| - 1])]
  }

  /** The main slots after an addition, and how many items did not fit. */
  function Added(slots: seq<Slot>, item: BlockState, count: nat): (r: (seq<Slot>, nat))
    ensures |r.0| == |slots| && r.1 <= count
  {
    var stacked := Swept(Stacking, item, slots, count);
    Swept(Placing, item, stacked.0, stacked.1)
  }

  lemma OneSlotSwept(sweep: Sweep, item: BlockState, slot: Slot, n: nat)
    ensures Swept(sweep, item, [slot], n) == ([Step(sweep, item, slot, n).0], Step(sweep, item, slot, n).1)
  {
    var slots, last := [slot], Step(sweep, item, slot, n);
    assert slots[..|slots| - 1] == [];
    assert Swept(sweep, item, slots, n) == ([] + [last.0], last.1);
    assert [] + [last.0] == [last.0];
  }

  /** Adding merges up to 64 whatever the item's limit: a second tool joins the first in one stack. */
  lemma SecondToolOverfills(item: BlockState)
    requires MaxDurability(item.id).Some?
    ensures
      var tool := NewStack(item, 1);
      tool.maxCount == 1 && Added([Some(tool)], item, 1) == ([Some(tool.(count := 2))], 0)
  {
    var slots := [Some(NewStack(item, 1))];
    var after := [Some(NewStack(item, 1).(count := 2))];
    OneSlotSwept(Stacking, item, slots[0], 1);
    OneSlotSwept(Placing, item, after[0], 0);
  }

  /** The main slots after a removal, and how many items were removed. */
  function Removed(slots: seq<Slot>, item: BlockState, count: nat): (seq<Slot>, int) {
    var taken := Swept(Taking, item, slots, count);
    (AllCleared(taken.0), count - taken.1)
  }

  /** What a sweep adds to the slots, or takes from them, is what it takes off the number handed on. */
  lemma {:induction false} SweepConserves(sweep: Sweep, item: BlockState, slots: seq<Slot>, n: nat, other: BlockState)
    ensures
      var r := Swept(sweep, item, slots, n);
      Total(r.0, other) == Total(slots, other)
           + if other != item then 0 else if sweep.Taking? then r.1 - n else n - r.1
  {
    if slots != [] {
      SweepConserves(sweep, item, slots[..|slots| - 1], n, other);
      var r := Swept(sweep, item, slots, n);
      assert r.0[..|slots| - 1] == Swept(sweep, item, slots[..|slots| - 1], n).0;
    }
  }

  lemma {:induction false} ClearedKeepsTotal(slots: seq<Slot>, item: BlockState)
    ensures Total(AllCleared(slots), item) == Total(slots, item)
  {
    if slots != [] {
      ClearedKeepsTotal(slots[..|slots| - 1], item);
      assert AllCleared(slots)[..|slots| - 1] == AllCleared(slots[..|slots| - 1]);
    }
  }

  /** `add_item` conserves items: its own grow by what fitted, all others stay. */
  lemma AddConserves(slots: seq<Slot>, item: BlockState, count: nat, other: BlockState)
    ensures
      var r := Added(slots, item, count);
      Total(r.0, other) == Total(slots, other) + if other == item then count - r.1 else 0
  {
    SweepConserves(Stacking, item, slots, count, other);
    var stacked := Swept(Stacking, item, slots, count);
    SweepConserves(Placing, item, stacked.0, stacked.1, other);
  }

  lemma {:induction false} SweptAt(sweep: Sweep, item: BlockState, slots: seq<Slot>, n: nat, i: nat)
    requires i < |slots|
    ensures Swept(sweep, item, slots, n).0[i] ==
      Step(sweep, item, slots[i], Swept(sweep, item, slots[..i], n).1).0
    decreases |slots|
  {
    var k := |slots| - 1;
    if i < k {
      SweptAt(sweep, item, slots[..k], n, i);
      assert slots[..k][..i] == slots[..i];
    }
  }

  /** One more slot of a sweep. */
  lemma SweptStep(sweep: Sweep, item: BlockState, slots: seq<Slot>, n: nat, i: nat)
    requires i < |slots|
    ensures
      var before := Swept(sweep, item, slots[..i], n);
      var last := Step(sweep, item, slots[i], before.1);
      Swept(sweep, item, slots[..i + 1], n) == (before.0 + [last.0], last.1)
  {
    assert slots[..i + 1][..i] == slots[..i];
  }

  lemma {:induction false} SweptShrinks(sweep: Sweep, item: BlockState, slots: seq<Slot>, n: nat, i: nat)
    requires i <= |slots|
    ensures Swept(sweep, item, slots, n).1 <= Swept(sweep, item, slots[..i], n).1
    decreases |slots|
  {
    if i < |slots| {
      var k := |slots| - 1;
      SweptShrinks(sweep, item, slots[..k], n, i);
      assert slots[..k][..i] == slots[..i];
    } else {
      assert slots[..i] == slots;
    }
  }

  lemma SweepAt(sweep: Sweep, item: BlockState, slots: seq<Slot>, n: nat, i: nat) returns (m: nat)
    requires i < |slots|
    ensures
      var r := Swept(sweep, item, slots, n);
      && r.1 <= m <= n
      && r.0[i] == Step(sweep, item, slots[i], m).0
      && r.1 <= Step(sweep, item, slots[i], m).1
  {
    hide Swept, Step;
    m := Swept(sweep, item, slots[..i], n).1;
    SweptAt(sweep, item, slots, n, i);
    SweptStep(sweep, item, slots, n, i);
    SweptShrinks(sweep, item, slots, n, i);
    SweptShrinks(sweep, item, slots, n, i + 1);
  }

  /** A slot after an addition: as it was, a matching stack grown to at most 64, or a new stack of at most 64. */
  predicate GrownSlot(before: Slot, after: Slot, item: BlockState) {
    || after == before
    || (after.Some? && before.Some? && before.value.item == item
        && before.value.count < after.value.count <= MAX_STACK
        && after.value == before.value.(count := after.value.count))
    || (after.Some? && before.None? && 0 < after.value.count <= MAX_STACK
        && after.value == NewStack(item, after.value.count))
  }

  predicate HasRoom(slot: Slot, item: BlockState) {
    slot.None? || (slot.value.item == item && slot.value.count < MAX_STACK)
  }

  /** Only matching stacks grow, only empty slots are filled, none beyond 64; something is left over only
      when no slot is empty and no matching stack has room. */
  lemma AddFills(slots: seq<Slot>, item: BlockState, count: nat, i: nat)
    requires i < |slots|
    ensures
      var r := Added(slots, item, count);
      GrownSlot(slots[i], r.0[i], item) && (r.1 > 0 ==> !HasRoom(r.0[i], item))
  {
    var stacked := Swept(Stacking, item, slots, count);
    var m := SweepAt(Stacking, item, slots, count, i);
    var p := SweepAt(Placing, item, stacked.0, stacked.1, i);
  }

  /** New stacks appear only when the old ones are full. */
  lemma AddStacksFirst(slots: seq<Slot>, item: BlockState, count: nat, i: nat, j: nat)
    requires i < |slots| && j < |slots|
    ensures
      var r := Added(slots, item, count).0;
      slots[i].Some? && HasRoom(r[i], item) ==> (slots[j].None? ==> r[j].None?)
  {
    var stacked := Swept(Stacking, item, slots, count);
    var m := SweepAt(Stacking, item, slots, count, i);
    var p := SweepAt(Placing, item, stacked.0, stacked.1, i);
    var m' := SweepAt(Stacking, item, slots, count, j);
    var p' := SweepAt(Placing, item, stacked.0, stacked.1, j);
  }

  /** `remove_item` removes exactly what is there, up to the number asked for, and nothing else. */
  lemma {:induction false} RemoveExact(slots: seq<Slot>, item: BlockState, count: nat, other: BlockState)
    ensures
      var r := Removed(slots, item, count);
      && r.1 == Min(count, Total(slots, item))
      && Total(r.0, other) == Total(slots, other) - if other == item then r.1 else 0
  {
    var taken := Swept(Taking, item, slots, count);
    SweepConserves(Taking, item, slots, count, item);
    SweepConserves(Taking, item, slots, count, other);
    ClearedKeepsTotal(taken.0, other);
    TakesAll(item, slots, count);
  }

  lemma {:induction false} TakesAll(item: BlockState, slots: seq<Slot>, n: nat)
    ensures Swept(Taking, item, slots, n).1 == SaturatingSub(n, Total(slots, item))
  {
    if slots != [] {
      TakesAll(item, slots[..|slots| - 1], n);
    }
  }

  /** Taking back what was added restores every count. */
  lemma AddThenRemove(slots: seq<Slot>, item: BlockState, count: nat, other: BlockState)
    ensures
      var added := Added(slots, item, count);
      var back := Removed(added.0, item, count - added.1);
      back.1 == count - added.1 && Total(back.0, other) == Total(slots, other)
  {
    AddConserves(slots, item, count, item);
    AddConserves(slots, item, count, other);
    var added := Added(slots, item, count);
    RemoveExact(added.0, item, count - added.1, other);
  }

  // ----- slot by slot -----

  lemma {:induction false} ClearedAt(slots: seq<Slot>, i: nat)
    requires i < |slots|
    ensures AllCleared(slots)[i] == Cleared(slots[i])
    decreases |slots|
  {
    if i < |slots| - 1 {
      ClearedAt(slots[..|slots| - 1], i);
    }
  }

  /** A slot after a removal: a matching stack gives what is still asked for after the slots before it gave all they
      had, and goes when nothing is left of it; no slot ever holds a stack of zero items. */
  lemma RemoveAt(slots: seq<Slot>, item: BlockState, count: nat, i: nat)
    requires i < |slots|
    ensures
      var after := Removed(slots, item, count).0;
      && |after| == |slots| && (after[i].Some? ==> after[i].value.count > 0)
      && var asked := SaturatingSub(count, Total(slots[..i], item));
         if slots[i].None? || slots[i].value.count == 0 then after[i] == None
         else if slots[i].value.item != item || asked == 0 then after[i] == slots[i]
         else if asked >= slots[i].value.count then after[i] == None
         else after[i] == Some(slots[i].value.(count := slots[i].value.count - asked))
  {
    var taken := Swept(Taking, item, slots, count).0;
    SweptAt(Taking, item, slots, count, i);
    TakesAll(item, slots[..i], count);
    ClearedAt(taken, i);
    if slots[i].Some? {
      var s := slots[i].value;
      assert s.(count := s.count) == s;
    }
  }

  lemma {:induction false} TotalBetween(slots: seq<Slot>, i: nat, j: nat, item: BlockState)
    requires i < j <= |slots|
    ensures Total(slots[..j], item) >= Total(slots[..i], item) + CountIn(slots[i], item)
    decreases j
  {
    assert slots[..j][..j - 1] == slots[..j - 1];
    if i < j - 1 {
      TotalBetween(slots, i, j - 1, item);
    }
  }

  /** A stack is touched only when every matching stack before it is used up. */
  lemma RemoveInOrder(slots: seq<Slot>, item: BlockState, count: nat, i: nat, j: nat)
    requires i < j < |slots| && slots[j].Some? && slots[j].value.count > 0
    requires Removed(slots, item, count).0[j] != slots[j]
    ensures CountIn(Removed(slots, item, count).0[i], item) == 0
  {
    hide Removed;
    RemoveAt(slots, item, count, i);
    RemoveAt(slots, item, count, j);
    TotalBetween(slots, i, j, item);
  }

  /** How many more items matching stacks take. */
  function Room(slots: seq<Slot>, item: BlockState): nat {
    if slots == [] then 0
    else
      var last := slots[|slots| - 1];
      var free :=
        if last.Some? && last.value.item == item && last.value.count < MAX_STACK then MAX_STACK - last.value.count
        else 0;
      Room(slots[..|slots| - 1], item) + free
  }

  function Empties(slots: seq<Slot>): nat {
    if slots == [] then 0
    else Empties(slots[..|slots| - 1]) + if slots[|slots| - 1].None? then 1 else 0
  }

  lemma {:induction false} StacksAll(item: BlockState, slots: seq<Slot>, n: nat)
    ensures Swept(Stacking, item, slots, n).1 == SaturatingSub(n, Room(slots, item))
    ensures Empties(Swept(Stacking, item, slots, n).0) == Empties(slots)
  {
    if slots != [] {
      var k := |slots| - 1;
      StacksAll(item, slots[..k], n);
      var r := Swept(Stacking, item, slots, n).0;
      assert r[..k] == Swept(Stacking, item, slots[..k], n).0;
    }
  }

  lemma {:induction false} PlacesAll(item: BlockState, slots: seq<Slot>, n: nat)
    ensures Swept(Placing, item, slots, n).1 == SaturatingSub(n, MAX_STACK * Empties(slots))
  {
    if slots != [] {
      PlacesAll(item, slots[..|slots| - 1], n);
    }
  }

  lemma {:induction false} SweptPrefix(sweep: Sweep, item: BlockState, slots: seq<Slot>, n: nat, i: nat)
    requires i <= |slots|
    ensures Swept(sweep, item, slots, n).0[..i] == Swept(sweep, item, slots[..i], n).0
    decreases |slots|
  {
    var k := |slots| - 1;
    if i < |slots| {
      SweptPrefix(sweep, item, slots[..k], n, i);
      assert slots[..k][..i] == slots[..i];
    } else {
      assert slots[..i] == slots;
    }
  }

  /** What does not fit is what exceeds the room in matching stacks and 64 for each empty slot. */
  lemma AddLeftover(slots: seq<Slot>, item: BlockState, count: nat)
    ensures Added(slots, item, count).1 == SaturatingSub(count, Room(slots, item) + MAX_STACK * Empties(slots))
  {
    var stacked := Swept(Stacking, item, slots, count);
    StacksAll(item, slots, count);
    PlacesAll(item, stacked.0, stacked.1);
  }

  /** A slot when the matching stacks are filled up, first slot first. */
  lemma StackedAt(slots: seq<Slot>, item: BlockState, count: nat, i: nat)
    requires i < |slots|
    ensures
      var stacked, asked := Swept(Stacking, item, slots, count).0, SaturatingSub(count, Room(slots[..i], item));
      stacked[i] ==
        if slots[i].Some? && slots[i].value.item == item && slots[i].value.count < MAX_STACK
        then Some(slots[i].value.(count := Min(slots[i].value.count + asked, MAX_STACK)))
        else slots[i]
  {
    hide Swept, Room;
    SweptAt(Stacking, item, slots, count, i);
    StacksAll(item, slots[..i], count);
  }

  /** A slot after an addition: matching stacks fill up first, first slot first, then empty slots, first slot first,
      each up to 64. */
  lemma AddAt(slots: seq<Slot>, item: BlockState, count: nat, i: nat)
    requires i < |slots|
    ensures
      var after := Added(slots, item, count).0[i];
      match slots[i]
      case None =>
        var left := SaturatingSub(count, Room(slots, item) + MAX_STACK * Empties(slots[..i]));
        after == if left == 0 then None else Some(NewStack(item, Min(left, MAX_STACK)))
      case Some(s) =>
        var asked := SaturatingSub(count, Room(slots[..i], item));
        if s.item == item && s.count < MAX_STACK then after == Some(s.(count := Min(s.count + asked, MAX_STACK)))
        else after == slots[i]
  {
    hide Swept, Room, Empties, NewStack;
    var stacked := Swept(Stacking, item, slots, count);
    StackedAt(slots, item, count, i);
    StacksAll(item, slots, count);
    StacksAll(item, slots[..i], count);
    SweptPrefix(Stacking, item, slots, count, i);
    SweptAt(Placing, item, stacked.0, stacked.1, i);
    PlacesAll(item, stacked.0[..i], stacked.1);
  }

  // ----- one slot read back -----

  datatype SlotRead = SlotRead(slot: Slot, pos: nat)

  /** Reads the slot at `pos`. A present slot is read only when ten more bytes follow its marker. */
  function ReadSlot(data: seq<U8>, pos: nat): (r: SlotRead)
    ensures pos <= r.pos && (pos <= |data| ==> r.pos <= |data|)
  {
    if pos >= |data| then SlotRead(None, pos)
    else if data[pos] != 0 && pos + 11 <= |data| then
      var id := FromLe32(data[pos + 1], data[pos + 2], data[pos + 3], data[pos + 4]);
      var count := data[pos + 5];
      var nbtLen := FromLe16(data[pos + 6], data[pos + 7]);
      var hasNbt := nbtLen > 0 && pos + 8 + nbtLen <= |data|;
      var nbt := if hasNbt then Some(data[pos + 8..pos + 8 + nbtLen]) else None;
      var p := if hasNbt then pos + 8 + nbtLen else pos + 8;
      var d := if p + 2 <= |data| then FromLe16(data[p], data[p + 1]) else 0;
      var stack := NewStack(BlockState(id, 0), count).(
        nbt := nbt, durability := if d > 0 then Some(d) else MaxDurability(id));
      SlotRead(Some(stack), if p + 2 <= |data| then p + 2 else p)
    else SlotRead(None, pos + 1)
  }

  /** A written slot is read back unless it is a bare stack at the very end of the data. */
  predicate ReadableLast(slot: Slot) {
    slot.Some? ==> slot.value.nbt.Some? && slot.value.nbt.value != []
  }

  lemma ReadSlotBack(data: seq<U8>, pos: nat, slot: Slot)
    requires At(data, pos, SlotBytes(slot)) && NbtFits(slot)
    ensures
      var end := pos + |SlotBytes(slot)|;
      ReadSlot(data, pos) ==
        if end < |data| || ReadableLast(slot) then SlotRead(NormalSlot(slot), end) else SlotRead(None, pos + 1)
  {
    hide FromLe16, FromLe32, StackTail, StackSize, MaxDurability;
    match slot
    case None =>
      assert data[pos..pos + 1] == [0];
      assert data[pos] == data[pos..pos + 1][0];
    case Some(s) =>
      StackLayout(data, pos, s);
  }

  /** Reads `n` slots in a row; past the end of the data they are empty. */
  function ReadSlots(data: seq<U8>, pos: nat, n: nat): (r: (seq<Slot>, nat))
    ensures |r.0| == n && pos <= r.1
    decreases n
  {
    if n == 0 then ([], pos)
    else
      var first := ReadSlot(data, pos);
      var others := ReadSlots(data, first.pos, n - 1);
      ([first.slot] + others.0, others.1)
  }

  lemma FirstSlotRead(data: seq<U8>, pos: nat, slots: seq<Slot>)
    requires slots != [] && At(data, pos, SlotsBytes(slots)) && pos + |SlotsBytes(slots)| == |data|
    requires NbtFits(slots[0])
    ensures
      var next := pos + |SlotBytes(slots[0])|;
      && At(data, next, SlotsBytes(slots[1..])) && next + |SlotsBytes(slots[1..])| == |data|
      && ReadSlot(data, pos) ==
           if |slots| > 1 || ReadableLast(slots[0]) then SlotRead(NormalSlot(slots[0]), next)
           else SlotRead(None, pos + 1)
  {
    FlatMapAt(data, pos, SlotBytes, slots);
    ReadSlotBack(data, pos, slots[0]);
    if |slots| > 1 {
      assert SlotsBytes(slots[1..]) == SlotBytes(slots[1]) + SlotsBytes(slots[1..][1..]);
    }
  }

  /** `read` is what the slots become when they end the data. */
  ghost predicate ReadBack(read: seq<Slot>, slots: seq<Slot>)
    requires slots != []
  {
    var last := |slots| - 1;
    && |read| == |slots|
    && (forall i :: 0 <= i < last ==> read[i] == NormalSlot(slots[i]))
    && read[last] == if ReadableLast(slots[last]) then NormalSlot(slots[last]) else None
  }

  /** The written slots are all read back, but for a bare stack in the last one. */
  lemma {:induction false} ReadSlotsBack(data: seq<U8>, pos: nat, slots: seq<Slot>)
    requires slots != [] && At(data, pos, SlotsBytes(slots)) && pos + |SlotsBytes(slots)| == |data|
    requires forall i :: 0 <= i < |slots| ==> NbtFits(slots[i])
    ensures ReadBack(ReadSlots(data, pos, |slots|).0, slots)
    decreases |slots|
  {
    FirstSlotRead(data, pos, slots);
    var first := ReadSlot(data, pos);
    if |slots| > 1 {
      ReadSlotsBack(data, first.pos, slots[1..]);
      ReadBackCons(first.slot, ReadSlots(data, first.pos, |slots| - 1).0, slots);
    }
  }

  lemma ReadBackCons(first: Slot, read: seq<Slot>, slots: seq<Slot>)
    requires |slots| > 1 && first == NormalSlot(slots[0]) && ReadBack(read, slots[1..])
    ensures ReadBack([first] + read, slots)
  {
  }

  // ----- the save format -----

  function Save(slots: seq<Slot>): seq<U8> {
    [2, SLOT_COUNT] + SlotsBytes(slots)
  }

  function Empty(n: nat): seq<Slot> {
    seq(n, i => None)
  }

  /** The 41 slots of a save: version 2, or version 1 with main slots only, which starts with its count. */
  function Load(data: seq<U8>): (r: Option<seq<Slot>>)
    ensures r.Some? ==> |r.value| == SLOT_COUNT
  {
    if data == [] || (data[0] == 2 && |data| == 1) then None
    else
      var v2 := data[0] == 2;
      var count, start := if v2 then data[1] else data[0], if v2 then 2 else 1;
      var mainCount := Min(count, MAIN);
      var main := ReadSlots(data, start, mainCount);
      var offhand := if v2 && count >= 37 then ReadSlot(data, main.1) else SlotRead(None, main.1);
      var armor := if v2 && count >= 41 then ReadSlots(data, offhand.pos, ARMOR).0 else Empty(ARMOR);
      Some(main.0 + Empty(MAIN - mainCount) + [offhand.slot] + armor)
  }

  lemma {:induction false} ReadSlotsJoin(data: seq<U8>, pos: nat, a: nat, b: nat)
    ensures
      var first := ReadSlots(data, pos, a);
      var second := ReadSlots(data, first.1, b);
      ReadSlots(data, pos, a + b) == (first.0 + second.0, second.1)
    decreases a
  {
    if a == 0 {
      assert [] + ReadSlots(data, pos, b).0 == ReadSlots(data, pos, b).0;
    } else {
      var first := ReadSlot(data, pos);
      ReadSlotsJoin(data, first.pos, a - 1, b);
      var x := ReadSlots(data, first.pos, a - 1);
      var y := ReadSlots(data, x.1, b);
      assert [first.slot] + (x.0 + y.0) == [first.slot] + x.0 + y.0;
    }
  }

  lemma ReadSlotsParts(data: seq<U8>, pos: nat, main: nat, armor: nat)
    ensures
      var m := ReadSlots(data, pos, main);
      var off := ReadSlot(data, m.1);
      ReadSlots(data, pos, main + 1 + armor).0 == m.0 + [off.slot] + ReadSlots(data, off.pos, armor).0
  {
    var m := ReadSlots(data, pos, main);
    var off := ReadSlot(data, m.1);
    ReadSlotsJoin(data, pos, main, 1 + armor);
    assert ReadSlots(data, m.1, 1 + armor).0 == [off.slot] + ReadSlots(data, off.pos, armor).0;
  }

  lemma ReadSlotsStep(data: seq<U8>, pos: nat, n: nat)
    ensures
      var before := ReadSlots(data, pos, n);
      var last := ReadSlot(data, before.1);
      ReadSlots(data, pos, n + 1) == (before.0 + [last.slot], last.pos)
  {
    ReadSlotsJoin(data, pos, n, 1);
    var before := ReadSlots(data, pos, n);
    var last := ReadSlot(data, before.1);
    assert ReadSlots(data, last.pos, 0) == ([], last.pos);
    assert ReadSlots(data, before.1, 1) == ([last.slot] + [], last.pos);
    assert [last.slot] + [] == [last.slot];
  }

  /** A version 2 save is 41 slots read in a row. */
  lemma LoadIsReadSlots(data: seq<U8>, n: nat)
    requires |data| >= 2 && data[0] == 2 && data[1] == n == SLOT_COUNT
    ensures Load(data) == Some(ReadSlots(data, 2, n).0)
  {
    hide ReadSlot;
    var m := n - 5;
    ReadSlotsParts(data, 2, m, ARMOR);
    assert Min(n, MAIN) == m;
    var main := ReadSlots(data, 2, m).0;
    assert main + Empty(0) == main;
  }

  /** A file of version 1 is a count, not two, and that many main slots: they all come back, but for a bare stack at
      the very end, and everything else is empty. */
  lemma LoadVersionOne(data: seq<U8>, slots: seq<Slot>)
    requires 0 < |slots| <= MAIN && |slots| != 2 && data == [|slots|] + SlotsBytes(slots)
    requires forall i :: 0 <= i < |slots| ==> NbtFits(slots[i])
    ensures Load(data).Some? && ReadBack(Load(data).value[..|slots|], slots)
    ensures Load(data).value[|slots|..] == Empty(SLOT_COUNT - |slots|)
  {
    hide ReadSlot;
    var n := |slots|;
    assert At(data, 1, SlotsBytes(slots));
    ReadSlotsBack(data, 1, slots);
    var main := ReadSlots(data, 1, n).0;
    assert Load(data) == Some(main + Empty(MAIN - n) + [None] + Empty(ARMOR));
  }

  /** A version 1 file of two slots is taken for version 2, its first slot's marker for the slot count. */
  lemma CountTwoIsMisread(data: seq<U8>)
    requires |data| >= 2 && data[0] == 2 && data[1] <= 1
    ensures Load(data).Some? && forall i :: 1 <= i < SLOT_COUNT ==> Load(data).value[i] == None
  {
  }

  lemma SaveHeader(data: seq<U8>, body: seq<U8>)
    requires data == [2, SLOT_COUNT] + body
    ensures At(data, 2, body)
  {
  }

  /** What a load gives for a save: the normal form of every slot, but a bare stack in the last armour slot is lost. */
  lemma SaveLoad(slots: seq<Slot>)
    requires |slots| == SLOT_COUNT && forall i :: 0 <= i < |slots| ==> NbtFits(slots[i])
    ensures Load(Save(slots)).Some? && ReadBack(Load(Save(slots)).value, slots)
  {
    var data := Save(slots);
    LoadIsReadSlots(data, |slots|);
    SaveHeader(data, SlotsBytes(slots));
    ReadSlotsBack(data, 2, slots);
  }

  lemma {:induction false} ReadBackIsNormal(read: seq<Slot>, slots: seq<Slot>)
    requires slots != [] && ReadBack(read, slots)
    ensures read == NormalSlots(slots) <==> ReadableLast(slots[|slots| - 1])
    decreases |slots|
  {
    assert NormalSlots(slots)[0] == NormalSlot(slots[0]);
    if |slots| > 1 {
      assert ReadBack(read[1..], slots[1..]);
      ReadBackIsNormal(read[1..], slots[1..]);
      assert NormalSlots(slots)[1..] == NormalSlots(slots[1..]);
      assert read == [read[0]] + read[1..];
    }
  }

  /** The round trip holds exactly when the last armour slot is empty or carries NBT. */
  lemma SaveLoadExact(slots: seq<Slot>)
    requires |slots| == SLOT_COUNT && forall i :: 0 <= i < |slots| ==> NbtFits(slots[i])
    ensures Load(Save(slots)) == Some(NormalSlots(slots)) <==> ReadableLast(slots[SLOT_COUNT - 1])
  {
    SaveLoad(slots);
    ReadBackIsNormal(Load(Save(slots)).value, slots);
  }

  /** Bare iron boots in the last armour slot do not survive a save. */
  lemma BareBootsLost()
    ensures
      var slots := Empty(SLOT_COUNT)[SLOT_COUNT - 1 := Some(NewStack(BlockState(822, 0), 1).(nbt := None))];
      Load(Save(slots)) != Some(NormalSlots(slots))
  {
    SaveLoadExact(Empty(SLOT_COUNT)[SLOT_COUNT - 1 := Some(NewStack(BlockState(822, 0), 1).(nbt := None))]);
  }

  // ----- the inventory object -----

  lemma {:induction false} SweptNothing(sweep: Sweep, item: BlockState, slots: seq<Slot>)
    ensures Swept(sweep, item, slots, 0) == (slots, 0)
  {
    if slots != [] {
      SweptNothing(sweep, item, slots[..|slots| - 1]);
      assert slots == slots[..|slots| - 1] + [slots[|slots| - 1]];
    }
  }

  lemma SweptNone(sweep: Sweep, item: BlockState, n: nat)
    ensures Swept(sweep, item, [], n) == ([], n)
  {
  }

  lemma Halves<T>(s: seq<T>, i: nat)
    requires i <= |s|
    ensures s == s[..i] + s[i..]
  {
  }

  /** A sweep that has nothing left to move may stop. */
  lemma {:induction false} SweptStops(sweep: Sweep, item: BlockState, slots: seq<Slot>, n: nat, i: nat)
    requires i <= |slots| && Swept(sweep, item, slots[..i], n).1 == 0
    ensures Swept(sweep, item, slots, n) == (Swept(sweep, item, slots[..i], n).0 + slots[i..], 0)
    decreases |slots| - i
  {
    var done := Swept(sweep, item, slots[..i], n).0;
    if i == |slots| {
      assert slots[..i] == slots && done + slots[i..] == done;
    } else {
      SweptStep(sweep, item, slots, n, i);
      SweptStops(sweep, item, slots, n, i + 1);
      assert done + slots[i..] == done + [slots[i]] + slots[i + 1..];
    }
  }

  /** Reads `n` slots into an array of empty ones. Past the end of the data a read yields nothing, so the
      source's early exit changes nothing. */
  method ReadInto(a: array<Slot>, data: seq<U8>, start: nat, n: nat) returns (pos: nat)
    requires n <= a.Length && a[..] == Empty(a.Length)
    modifies a
    ensures (a[..], pos) == (ReadSlots(data, start, n).0 + Empty(a.Length - n), ReadSlots(data, start, n).1)
  {
    pos := start;
    for i := 0 to n
      invariant ReadSlots(data, start, i) == (a[..i], pos)
      invariant a[i..] == Empty(a.Length - i)
    {
      ReadSlotsStep(data, start, i);
      var read := ReadSlot(data, pos);
      ghost var done := a[..i];
      a[i] := read.slot;
      pos := read.pos;
      assert a[..i + 1] == done + [read.slot];
      assert a[i + 1..] == Empty(a.Length - i)[1..];
    }
    assert a[..] == a[..n] + a[n..];
  }

  class Inventory {
    const items: array<Slot>
    const armor: array<Slot>
    var offhand: Slot
    var selectedSlot: U8

    ghost predicate Valid()
      reads this
    {
      items.Length == MAIN && armor.Length == ARMOR && items != armor
    }

    ghost function Slots(): (s: seq<Slot>)
      reads this, items, armor
      requires Valid()
      ensures |s| == SLOT_COUNT
    {
      items[..] + [offhand] + armor[..]
    }

    constructor ()
      ensures Valid() && fresh(items) && fresh(armor)
      ensures items[..] == Empty(MAIN) && offhand == None && armor[..] == Empty(ARMOR) && selectedSlot == 0
    {
      items, armor := new Slot[MAIN](_ => None), new Slot[ARMOR](_ => None);
      offhand, selectedSlot := None, 0;
      new;
      assert items[..] == Empty(MAIN) && armor[..] == Empty(ARMOR);
    }

    /** One sweep over the main slots, stopping when nothing is left to move. */
    method DoSweep(sweep: Sweep, item: BlockState, count: nat) returns (remaining: nat)
      requires Valid()
      modifies items
      ensures Swept(sweep, item, old(items[..]), count) == (items[..], remaining)
    {
      remaining := count;
      ghost var before := items[..];
      SweptNone(sweep, item, count);
      assert before[..0] == [];
      hide Swept, Step;
      for i := 0 to items.Length
        invariant Swept(sweep, item, before[..i], count) == (items[..i], remaining)
        invariant items[i..] == before[i..]
      {
        if remaining == 0 {
          SweptStops(sweep, item, before, count, i);
          Halves(items[..], i);
          assert items[..][..i] == items[..i] && items[..][i..] == items[i..];
          return;
        }
        SweptStep(sweep, item, before, count, i);
        assert items[i] == before[i..][0];
        var next := Step(sweep, item, items[i], remaining);
        ghost var done := items[..i];
        items[i], remaining := next.0, next.1;
        assert items[..i + 1] == done + [next.0];
        assert items[i + 1..] == before[i..][1..];
      }
      assert before[..items.Length] == before && items[..items.Length] == items[..];
    }

    method AddItem(item: BlockState, count: U32) returns (leftover: nat)
      requires Valid()
      modifies items
      ensures Added(old(items[..]), item, count) == (items[..], leftover)
    {
      leftover := DoSweep(Stacking, item, count);
      leftover := DoSweep(Placing, item, leftover);
    }

    method CountItem(item: BlockState) returns (total: nat)
      requires Valid()
      ensures total == Total(items[..], item)
    {
      total := 0;
      for i := 0 to items.Length
        invariant total == Total(items[..i], item)
      {
        assert items[..i + 1][..i] == items[..i];
        total := total + CountIn(items[i], item);
      }
      assert items[..items.Length] == items[..];
    }

    method RemoveItem(item: BlockState, count: U32) returns (removed: int)
      requires Valid()
      modifies items
      ensures Removed(old(items[..]), item, count) == (items[..], removed)
    {
      var remaining := DoSweep(Taking, item, count);
      ghost var taken := items[..];
      for i := 0 to items.Length
        invariant items[..i] == AllCleared(taken[..i])
        invariant items[i..] == taken[i..]
      {
        assert taken[..i + 1][..i] == taken[..i];
        assert items[i] == taken[i..][0];
        ghost var done := items[..i];
        items[i] := Cleared(items[i]);
        assert items[..i + 1] == done + [items[i]];
        assert items[i + 1..] == taken[i..][1..];
      }
      assert taken[..items.Length] == taken && items[..items.Length] == items[..];
      removed := count - remaining;
    }

    method Serialize() returns (buf: seq<U8>)
      requires Valid()
      ensures buf == Save(Slots())
    {
      buf := [2, SLOT_COUNT];
      ghost var head := buf;
      var slots := items[..] + [offhand] + armor[..];
      for i := 0 to |slots|
        invariant buf == head + SlotsBytes(slots[..i])
      {
        AppendStep(SlotBytes, slots, i, head, buf);
        buf := buf + SlotBytes(slots[i]);
      }
      assert slots[..|slots|] == slots;
    }

    /** Rebuilds an inventory; the selected slot is always the first. No index leaves the data. */
    static method Deserialize(data: seq<U8>) returns (r: Option<Inventory>)
      ensures match Load(data)
        case None => r == None
        case Some(slots) =>
          r.Some? && fresh(r.value) && r.value.Valid() && r.value.Slots() == slots && r.value.selectedSlot == 0
    {
      if data == [] {
        return None;
      }
      var v2 := data[0] == 2;
      if v2 && |data| == 1 {
        return None;
      }
      var inv := new Inventory();
      var count := if v2 then data[1] else data[0];
      var pos: nat := if v2 then 2 else 1;
      var n := Min(count, MAIN);
      pos := ReadInto(inv.items, data, pos, n);
      if v2 && count >= 37 {
        var read := ReadSlot(data, pos);
        inv.offhand := read.slot;
        pos := read.pos;
      }
      if v2 && count >= 41 {
        pos := ReadInto(inv.armor, data, pos, ARMOR);
      }
      return Some(inv);
    }
  }
}
