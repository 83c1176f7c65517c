/**
 Clicks in an open container: the default branch of the click handler, for plain clicks, hotbar swaps,
 drags and double clicks. A click may name any slot below 100, in the container or not.
*/
module Clicks {
  import opened Common
  import opened Items
  import opened Container
  import InventoryModel

  datatype Mode = Normal | HotbarSwap | Drag | Collect

  datatype Click = Click(slot: nat, button: U8, mode: Mode)

  /** Everything a click can move items between. */
  datatype ClickState = ClickState(cursor: Slot, slots: seq<Slot>, hotbar: seq<Slot>)

  const HOTBAR: nat := 9

  function SlotAt(slots: seq<Slot>, i: nat): Slot {
    if i < |slots| then slots[i] else None
  }

  /** Writing outside the container does nothing. */
  function WithSlot(slots: seq<Slot>, i: nat, item: Slot): (r: seq<Slot>)
    ensures |r| == |slots|
  {
    if i < |slots| then slots[i := item] else slots
  }

  /** A stack with another count, nothing when the count is zero. */
  function Sized(s: ItemStack, count: U8): Slot {
    if count == 0 then None else Some(s.(count := count))
  }

  // ----- what a click does -----

  function RightClicked(st: ClickState, i: nat): ClickState {
    var clicked := SlotAt(st.slots, i);
    match (st.cursor, clicked)
    case (Some(cur), Some(s)) =>
      if s.item.id == cur.item.id && s.count < s.maxCount then
        st.(slots := WithSlot(st.slots, i, Some(s.(count := s.count + 1))),
            cursor := if cur.count > 1 then Some(cur.(count := cur.count - 1)) else None)
      else st
    case (Some(cur), None) =>
      st.(slots := WithSlot(st.slots, i, Some(cur.(count := 1))),
          cursor := if cur.count > 1 then Some(cur.(count := cur.count - 1)) else None)
    case (None, Some(s)) =>
      var half := (s.count + 1) / 2;
      st.(cursor := Some(s.(count := half)),
          slots := WithSlot(st.slots, i, if half < s.count then Some(s.(count := s.count - half)) else None))
    case (None, None) => st
  }

  function Swapped(st: ClickState, i: nat): ClickState {
    st.(slots := WithSlot(st.slots, i, st.cursor), cursor := SlotAt(st.slots, i))
  }

  function HotbarSwapped(st: ClickState, i: nat, button: U8): ClickState {
    if button >= HOTBAR then st
    else
      st.(slots := WithSlot(st.slots, i, SlotAt(st.hotbar, button)),
          hotbar := WithSlot(st.hotbar, button, SlotAt(st.slots, i)))
  }

  /** The end of a drag puts a quarter of the cursor, rounded up, into an empty slot. */
  function DragEnded(st: ClickState, i: nat): ClickState {
    match st.cursor
    case None => st
    case Some(cur) =>
      var placed := if SlotAt(st.slots, i).None? then Min((cur.count + 3) / 4, cur.count) else 0;
      st.(slots := if placed > 0 then WithSlot(st.slots, i, Some(cur.(count := placed))) else st.slots,
          cursor := Sized(cur, cur.count - placed))
  }

  /** What a double click leaves in one slot, and what is in hand after it, when `collected` items were before. */
  function CollectedFrom(slot: Slot, id: U32, limit: U8, collected: nat): (r: (Slot, nat))
    ensures collected <= r.1 <= Max(collected, limit)
  {
    if slot.Some? && slot.value.item.id == id && collected < limit then
      var taken := Min(slot.value.count, limit - collected);
      (Sized(slot.value, slot.value.count - taken), collected + taken)
    else (slot, collected)
  }

  /** Sweeps the container from the first slot, taking matching items up to the limit. */
  function Collected(slots: seq<Slot>, id: U32, limit: U8, collected: nat): (r: (seq<Slot>, nat))
    ensures |r.0| == |slots| && collected <= r.1 <= Max(collected, limit)
  {
    if slots == [] then ([], collected)
    else
      var before := Collected(slots[..|slots| - 1], id, limit, collected);
      var last := CollectedFrom(slots[|slots| - 1], id, limit, before.1);
      (before.0 + [last.0], last.1)
  }

  function DoubleClicked(st: ClickState): ClickState {
    match st.cursor
    case None => st
    case Some(cur) =>
      var r := Collected(st.slots, cur.item.id, cur.maxCount, cur.count);
      st.(slots := r.0, cursor := Some(cur.(count := Min(r.1, cur.maxCount))))
  }

  function Clicked(st: ClickState, c: Click): (r: ClickState) {
    match c.mode
    case Normal => if c.button == 0 then Swapped(st, c.slot) else RightClicked(st, c.slot)
    case HotbarSwap => HotbarSwapped(st, c.slot, c.button)
    case Drag => if c.button <= 3 then Swapped(st, c.slot) else DragEnded(st, c.slot)
    case Collect => DoubleClicked(st)
  }

  // ----- conservation -----

  function CountOf(slot: Slot, id: U32): nat {
    if slot.Some? && slot.value.item.id == id then slot.value.count else 0
  }

  function Sum(slots: seq<Slot>, id: U32): nat {
    if slots == [] then 0 else Sum(slots[..|slots| - 1], id) + CountOf(slots[|slots| - 1], id)
  }

  function ItemCount(st: ClickState, id: U32): nat {
    CountOf(st.cursor, id) + Sum(st.slots, id) + Sum(st.hotbar, id)
  }

  ghost predicate FilledSlot(slot: Slot) {
    slot.Some? ==> 1 <= slot.value.count && 1 <= slot.value.maxCount
  }

  ghost predicate AllFilled(slots: seq<Slot>) {
    forall i :: 0 <= i < |slots| ==> FilledSlot(slots[i])
  }

  /** Every stack holds at least one item. It may hold more than its limit: items added to an inventory merge
      up to 64 whatever their limit is. */
  ghost predicate Filled(st: ClickState) {
    |st.hotbar| == HOTBAR && FilledSlot(st.cursor) && AllFilled(st.slots) && AllFilled(st.hotbar)
  }

  ghost predicate Conserves(st: ClickState, c: Click) {
    forall id: U32 :: ItemCount(Clicked(st, c), id) == ItemCount(st, id)
  }

  /** The clicks that destroy items: they name a slot outside the container and have something to put there,
      or double-click with a stack above its limit in hand. */
  predicate Lossy(st: ClickState, c: Click) {
    match c.mode
    case Normal => c.slot >= |st.slots| && st.cursor.Some?
    case Drag => c.slot >= |st.slots| && st.cursor.Some?
    case HotbarSwap => c.slot >= |st.slots| && c.button < HOTBAR && SlotAt(st.hotbar, c.button).Some?
    case Collect => st.cursor.Some? && st.cursor.value.count > st.cursor.value.maxCount
  }

  /** What a click destroys. */
  function Vanished(st: ClickState, c: Click): Slot {
    if !Lossy(st, c) then None
    else match c.mode
      case Normal => if c.button == 0 then st.cursor else Some(st.cursor.value.(count := 1))
      case Drag =>
        var cur := st.cursor.value;
        if c.button <= 3 then st.cursor else Some(cur.(count := Min((cur.count + 3) / 4, cur.count)))
      case HotbarSwap => SlotAt(st.hotbar, c.button)
      case Collect => Some(st.cursor.value.(count := st.cursor.value.count - st.cursor.value.maxCount))
  }

  lemma {:induction false} SumUpdate(slots: seq<Slot>, i: nat, slot: Slot, id: U32)
    requires i < |slots|
    ensures Sum(slots[i := slot], id) == Sum(slots, id) - CountOf(slots[i], id) + CountOf(slot, id)
  {
    var n := |slots| - 1;
    var after := slots[i := slot];
    if i == n {
      assert after[..n] == slots[..n];
    } else {
      assert after[..n] == slots[..n][i := slot];
      SumUpdate(slots[..n], i, slot, id);
    }
  }

  lemma WithSlotSum(slots: seq<Slot>, i: nat, slot: Slot, id: U32)
    ensures Sum(WithSlot(slots, i, slot), id) ==
      if i < |slots| then Sum(slots, id) - CountOf(slots[i], id) + CountOf(slot, id) else Sum(slots, id)
  {
    if i < |slots| {
      SumUpdate(slots, i, slot, id);
    }
  }

  lemma {:induction false} CollectedSum(slots: seq<Slot>, id: U32, limit: U8, collected: nat, other: U32)
    ensures
      var r := Collected(slots, id, limit, collected);
      Sum(r.0, other) == Sum(slots, other) - if other == id then r.1 - collected else 0
  {
    if slots != [] {
      var n := |slots| - 1;
      CollectedSum(slots[..n], id, limit, collected, other);
      assert Collected(slots, id, limit, collected).0[..n] == Collected(slots[..n], id, limit, collected).0;
    }
  }

  lemma {:induction false} CollectedFilled(slots: seq<Slot>, id: U32, limit: U8, collected: nat)
    requires AllFilled(slots)
    ensures AllFilled(Collected(slots, id, limit, collected).0)
  {
    if slots != [] {
      var n := |slots| - 1;
      CollectedFilled(slots[..n], id, limit, collected);
      var before := Collected(slots[..n], id, limit, collected);
      assert FilledSlot(CollectedFrom(slots[n], id, limit, before.1).0);
    }
  }

  lemma SwapAccounts(st: ClickState, i: nat, id: U32)
    ensures ItemCount(Swapped(st, i), id) + (if i < |st.slots| then 0 else CountOf(st.cursor, id)) == ItemCount(st, id)
  {
    WithSlotSum(st.slots, i, st.cursor, id);
  }

  lemma RightClickAccounts(st: ClickState, c: Click, id: U32)
    requires Filled(st) && c.mode.Normal? && c.button != 0
    ensures ItemCount(RightClicked(st, c.slot), id) + CountOf(Vanished(st, c), id) == ItemCount(st, id)
  {
    if c.slot < |st.slots| {
      WithSlotSum(st.slots, c.slot, RightClicked(st, c.slot).slots[c.slot], id);
    }
  }

  lemma HotbarSwapAccounts(st: ClickState, c: Click, id: U32)
    requires Filled(st) && c.mode.HotbarSwap?
    ensures ItemCount(HotbarSwapped(st, c.slot, c.button), id) + CountOf(Vanished(st, c), id) == ItemCount(st, id)
  {
    if c.button < HOTBAR {
      WithSlotSum(st.slots, c.slot, st.hotbar[c.button], id);
      WithSlotSum(st.hotbar, c.button, SlotAt(st.slots, c.slot), id);
    }
  }

  lemma DragEndAccounts(st: ClickState, c: Click, id: U32)
    requires Filled(st) && c.mode.Drag? && c.button > 3
    ensures ItemCount(DragEnded(st, c.slot), id) + CountOf(Vanished(st, c), id) == ItemCount(st, id)
  {
    if c.slot < |st.slots| {
      WithSlotSum(st.slots, c.slot, DragEnded(st, c.slot).slots[c.slot], id);
    }
  }

  lemma DoubleClickAccounts(st: ClickState, c: Click, id: U32)
    requires Filled(st) && c.mode.Collect?
    ensures ItemCount(DoubleClicked(st), id) + CountOf(Vanished(st, c), id) == ItemCount(st, id)
  {
    if st.cursor.Some? {
      var cur := st.cursor.value;
      CollectedSum(st.slots, cur.item.id, cur.maxCount, cur.count, id);
    }
  }

  /** No click makes an item, and what it destroys is exactly the stack that vanishes. */
  lemma ClickAccounts(st: ClickState, c: Click, id: U32)
    requires Filled(st)
    ensures ItemCount(Clicked(st, c), id) + CountOf(Vanished(st, c), id) == ItemCount(st, id)
  {
    hide Swapped, RightClicked, HotbarSwapped, DragEnded, DoubleClicked;
    match c.mode {
      case Normal =>
        if c.button == 0 {
          SwapAccounts(st, c.slot, id);
        } else {
          RightClickAccounts(st, c, id);
        }
      case Drag =>
        if c.button <= 3 {
          SwapAccounts(st, c.slot, id);
        } else {
          DragEndAccounts(st, c, id);
        }
      case HotbarSwap =>
        HotbarSwapAccounts(st, c, id);
      case Collect =>
        DoubleClickAccounts(st, c, id);
    }
  }

  lemma LossyLoses(st: ClickState, c: Click)
    requires Filled(st) && Lossy(st, c)
    ensures Vanished(st, c).Some? && Vanished(st, c).value.count > 0
  {
  }

  /** A click conserves every item exactly when it is not one of the lossy ones. */
  lemma ConservesExactly(st: ClickState, c: Click)
    requires Filled(st)
    ensures Conserves(st, c) <==> !Lossy(st, c)
  {
    hide Clicked;
    if Lossy(st, c) {
      LossyLoses(st, c);
      ClickAccounts(st, c, Vanished(st, c).value.item.id);
    } else {
      forall id: U32
        ensures ItemCount(Clicked(st, c), id) == ItemCount(st, id)
      {
        ClickAccounts(st, c, id);
      }
    }
  }

  /** A left click on slot 50 of an empty chest throws the cursor away. */
  lemma LeftClickOutsideLoses()
    ensures
      var st := ClickState(Some(NewStack(BlockState(1, 0), 1)), seq(27, i => None), seq(HOTBAR, i => None));
      Filled(st) && !Conserves(st, Click(50, 0, Normal))
  {
    var st := ClickState(Some(NewStack(BlockState(1, 0), 1)), seq(27, i => None), seq(HOTBAR, i => None));
    ConservesExactly(st, Click(50, 0, Normal));
  }

  const ROD: BlockState := BlockState(844, 0)

  /** Two tools with durability, caught one after the other, become one stack above its limit of one; double-clicking
      with it in hand, in range, leaves one of them. */
  lemma OverfullDoubleClickLoses()
    ensures
      var inventory := InventoryModel.Added([Some(NewStack(ROD, 1))], ROD, 1).0;
      var st := ClickState(inventory[0], seq(27, i => None), seq(HOTBAR, i => None));
      && Filled(st) && CountOf(st.cursor, ROD.id) == 2
      && ItemCount(Clicked(st, Click(0, 0, Collect)), ROD.id) + 1 == ItemCount(st, ROD.id)
  {
    InventoryModel.SecondToolOverfills(ROD);
    var st := ClickState(Some(NewStack(ROD, 1).(count := 2)), seq(27, i => None), seq(HOTBAR, i => None));
    ClickAccounts(st, Click(0, 0, Collect), ROD.id);
  }

  lemma DoubleClickKeepsFilled(st: ClickState)
    requires Filled(st)
    ensures Filled(DoubleClicked(st)) && |DoubleClicked(st).slots| == |st.slots|
  {
    if st.cursor.Some? {
      var cur := st.cursor.value;
      CollectedFilled(st.slots, cur.item.id, cur.maxCount, cur.count);
    }
  }

  /** No click, lossy or not, leaves an empty stack. */
  lemma ClickKeepsFilled(st: ClickState, c: Click)
    requires Filled(st)
    ensures Filled(Clicked(st, c)) && |Clicked(st, c).slots| == |st.slots|
  {
    hide DoubleClicked;
    if c.mode.Collect? {
      DoubleClickKeepsFilled(st);
    }
  }

  // ----- what a click moves where -----

  /** Hand and container are as they were but for slot `i`. */
  ghost predicate OnlySlot(st: ClickState, after: ClickState, i: nat) {
    && |after.slots| == |st.slots| && after.hotbar == st.hotbar
    && forall j :: 0 <= j < |st.slots| && j != i ==> after.slots[j] == st.slots[j]
  }

  /** A left click, and a drag that goes on, exchange the hand with the slot. */
  lemma LeftClickExchanges(st: ClickState, c: Click)
    requires c.slot < |st.slots| && ((c.mode.Normal? && c.button == 0) || (c.mode.Drag? && c.button <= 3))
    ensures
      var after := Clicked(st, c);
      OnlySlot(st, after, c.slot) && after.cursor == st.slots[c.slot] && after.slots[c.slot] == st.cursor
  {
  }

  /** A right click with an empty hand takes half of a stack, the larger half when it is odd. */
  lemma RightClickHalves(st: ClickState, c: Click)
    requires c.slot < |st.slots| && c.mode.Normal? && c.button != 0 && Filled(st)
    requires st.cursor.None? && st.slots[c.slot].Some?
    ensures
      var s, after := st.slots[c.slot].value, Clicked(st, c);
      && OnlySlot(st, after, c.slot)
      && after.cursor.Some? && after.cursor.value == s.(count := after.cursor.value.count)
      && var taken, left := after.cursor.value.count as int, CountOf(after.slots[c.slot], s.item.id) as int;
         && taken + left == s.count && 0 <= taken - left <= 1
         && (after.slots[c.slot].Some? ==> after.slots[c.slot].value == s.(count := left))
  {
  }

  /** A right click with a stack in hand puts one item into an empty slot or onto a stack of the same item that
      has room, and does nothing else. */
  lemma RightClickPlacesOne(st: ClickState, c: Click)
    requires c.slot < |st.slots| && c.mode.Normal? && c.button != 0 && Filled(st) && st.cursor.Some?
    ensures
      var cur, slot, after := st.cursor.value, st.slots[c.slot], Clicked(st, c);
      if slot.None? || (slot.value.item.id == cur.item.id && slot.value.count < slot.value.maxCount) then
        && OnlySlot(st, after, c.slot) && after.cursor == Sized(cur, cur.count - 1)
        && after.slots[c.slot] ==
           if slot.None? then Some(cur.(count := 1)) else Some(slot.value.(count := slot.value.count + 1))
      else after == st
  {
    var cur, slot, after := st.cursor.value, st.slots[c.slot], Clicked(st, c);
    if !(slot.None? || (slot.value.item.id == cur.item.id && slot.value.count < slot.value.maxCount)) {
      assert after == st;
    }
  }

  /** A hotbar click exchanges the slot with that place of the hotbar. */
  lemma HotbarClickExchanges(st: ClickState, c: Click)
    requires c.slot < |st.slots| && c.mode.HotbarSwap? && |st.hotbar| == HOTBAR
    ensures
      var after := Clicked(st, c);
      if c.button >= HOTBAR then after == st
      else
        && after.cursor == st.cursor && |after.slots| == |st.slots| && |after.hotbar| == HOTBAR
        && after.slots[c.slot] == st.hotbar[c.button] && after.hotbar[c.button] == st.slots[c.slot]
        && (forall j :: 0 <= j < |st.slots| && j != c.slot ==> after.slots[j] == st.slots[j])
        && (forall j :: 0 <= j < HOTBAR && j != c.button ==> after.hotbar[j] == st.hotbar[j])
  {
  }

  /** The end of a drag leaves a quarter of the stack in an empty slot, rounded up, and nothing in any other. */
  lemma DragEndPlacesQuarter(st: ClickState, c: Click)
    requires c.slot < |st.slots| && c.mode.Drag? && c.button > 3 && Filled(st) && st.cursor.Some?
    ensures
      var cur, after := st.cursor.value, Clicked(st, c);
      if st.slots[c.slot].Some? then after == st
      else
        && OnlySlot(st, after, c.slot) && after.slots[c.slot].Some?
        && var placed := after.slots[c.slot].value.count;
           && after.slots[c.slot].value == cur.(count := placed) && 4 * placed >= cur.count > 4 * (placed - 1)
           && after.cursor == Sized(cur, cur.count - placed)
  {
    var cur, after := st.cursor.value, Clicked(st, c);
    if st.slots[c.slot].Some? {
      assert cur.(count := cur.count) == cur;
      assert after == st;
    }
  }

  /** What a sweep has taken by the time it is through. */
  lemma {:induction false} CollectedTotal(slots: seq<Slot>, id: U32, limit: U8, collected: nat)
    requires collected <= limit
    ensures Collected(slots, id, limit, collected).1 == Min(limit, collected + Sum(slots, id))
  {
    if slots != [] {
      CollectedTotal(slots[..|slots| - 1], id, limit, collected);
    }
  }

  lemma {:induction false} CollectedAt(slots: seq<Slot>, id: U32, limit: U8, collected: nat, i: nat)
    requires i < |slots|
    ensures Collected(slots, id, limit, collected).0[i] ==
      CollectedFrom(slots[i], id, limit, Collected(slots[..i], id, limit, collected).1).0
    decreases |slots|
  {
    var n := |slots| - 1;
    if i < n {
      CollectedAt(slots[..n], id, limit, collected, i);
      assert slots[..n][..i] == slots[..i];
    }
  }

  /** A double click fills the hand from the container up to the limit of the stack, first slot first: each slot
      gives what the hand still lacks after the slots before it have given all they had. */
  lemma DoubleClickCollects(st: ClickState, c: Click, i: nat)
    requires c.mode.Collect? && Filled(st) && st.cursor.Some? && st.cursor.value.count <= st.cursor.value.maxCount
    ensures
      var cur, after := st.cursor.value, Clicked(st, c);
      && |after.slots| == |st.slots| && after.hotbar == st.hotbar
      && after.cursor == Some(cur.(count := Min(cur.maxCount, cur.count + Sum(st.slots, cur.item.id))))
      && (i < |st.slots| ==>
            if CountOf(st.slots[i], cur.item.id) == 0 then after.slots[i] == st.slots[i]
            else
              var had := st.slots[i].value.count;
              var lacking := SaturatingSub(cur.maxCount, cur.count + Sum(st.slots[..i], cur.item.id));
              after.slots[i] == if lacking >= had then None else Some(st.slots[i].value.(count := had - lacking)))
  {
    var cur := st.cursor.value;
    CollectedTotal(st.slots, cur.item.id, cur.maxCount, cur.count);
    if i < |st.slots| {
      CollectedAt(st.slots, cur.item.id, cur.maxCount, cur.count, i);
      CollectedTotal(st.slots[..i], cur.item.id, cur.maxCount, cur.count);
      if CountOf(st.slots[i], cur.item.id) > 0 {
        var s := st.slots[i].value;
        assert s.(count := s.count) == s;
      }
    }
  }

  lemma {:induction false} SumBetween(slots: seq<Slot>, i: nat, j: nat, id: U32)
    requires i < j <= |slots|
    ensures Sum(slots[..j], id) >= Sum(slots[..i], id) + CountOf(slots[i], id)
    decreases j
  {
    assert slots[..j][..j - 1] == slots[..j - 1];
    if i < j - 1 {
      SumBetween(slots, i, j - 1, id);
    }
  }

  /** So a slot is touched only when every matching slot before it was emptied. */
  lemma DoubleClickInOrder(st: ClickState, c: Click, i: nat, j: nat)
    requires c.mode.Collect? && Filled(st) && st.cursor.Some? && st.cursor.value.count <= st.cursor.value.maxCount
    requires i < j < |st.slots| && Clicked(st, c).slots[j] != st.slots[j]
    ensures CountOf(Clicked(st, c).slots[i], st.cursor.value.item.id) == 0
  {
    hide Clicked;
    DoubleClickCollects(st, c, i);
    DoubleClickCollects(st, c, j);
    SumBetween(st.slots, i, j, st.cursor.value.item.id);
    var s := st.slots[j].value;
    assert s.(count := s.count) == s;
  }

  /** With a stack above its limit in hand a double click only cuts it down to the limit. */
  lemma OverfullDoubleClickCuts(st: ClickState, c: Click)
    requires c.mode.Collect? && st.cursor.Some? && st.cursor.value.count > st.cursor.value.maxCount
    ensures Clicked(st, c) == st.(cursor := Some(st.cursor.value.(count := st.cursor.value.maxCount)))
  {
    var cur := st.cursor.value;
    OverfullCollectsNothing(st.slots, cur.item.id, cur.maxCount, cur.count);
  }

  lemma {:induction false} OverfullCollectsNothing(slots: seq<Slot>, id: U32, limit: U8, collected: nat)
    requires collected >= limit
    ensures Collected(slots, id, limit, collected) == (slots, collected)
  {
    if slots != [] {
      var n := |slots| - 1;
      OverfullCollectsNothing(slots[..n], id, limit, collected);
      assert slots == slots[..n] + [slots[n]];
    }
  }

  /** Nothing in hand: a double click does nothing. */
  lemma EmptyHandDoubleClick(st: ClickState, c: Click)
    requires c.mode.Collect? && st.cursor.None?
    ensures Clicked(st, c) == st
  {
  }

  // ----- runs -----

  function Run(st: ClickState, clicks: seq<Click>): ClickState
    decreases |clicks|
  {
    if clicks == [] then st else Run(Clicked(st, clicks[0]), clicks[1..])
  }

  predicate SomeLossy(st: ClickState, clicks: seq<Click>)
    decreases |clicks|
  {
    clicks != [] && (Lossy(st, clicks[0]) || SomeLossy(Clicked(st, clicks[0]), clicks[1..]))
  }

  /** How many items of a kind a run destroys. */
  function Losses(st: ClickState, clicks: seq<Click>, id: U32): nat
    decreases |clicks|
  {
    if clicks == [] then 0 else CountOf(Vanished(st, clicks[0]), id) + Losses(Clicked(st, clicks[0]), clicks[1..], id)
  }

  /** Over any run the number of an item falls by exactly what the lossy clicks destroyed. */
  lemma {:induction false} RunAccounts(st: ClickState, clicks: seq<Click>, id: U32)
    requires Filled(st)
    ensures Filled(Run(st, clicks)) && ItemCount(Run(st, clicks), id) + Losses(st, clicks, id) == ItemCount(st, id)
    decreases |clicks|
  {
    hide Clicked, Vanished, ItemCount, Filled;
    if clicks != [] {
      ClickKeepsFilled(st, clicks[0]);
      ClickAccounts(st, clicks[0], id);
      RunAccounts(Clicked(st, clicks[0]), clicks[1..], id);
    }
  }

  lemma {:induction false} LosslessRun(st: ClickState, clicks: seq<Click>, id: U32)
    requires !SomeLossy(st, clicks)
    ensures Losses(st, clicks, id) == 0
    decreases |clicks|
  {
    hide Clicked;
    if clicks != [] {
      LosslessRun(Clicked(st, clicks[0]), clicks[1..], id);
    }
  }

  lemma {:induction false} LossyRun(st: ClickState, clicks: seq<Click>) returns (id: U32)
    requires Filled(st) && SomeLossy(st, clicks)
    ensures Losses(st, clicks, id) > 0
    decreases |clicks|
  {
    hide Clicked, Filled, Vanished, Lossy;
    if Lossy(st, clicks[0]) {
      LossyLoses(st, clicks[0]);
      id := Vanished(st, clicks[0]).value.item.id;
    } else {
      ClickKeepsFilled(st, clicks[0]);
      id := LossyRun(Clicked(st, clicks[0]), clicks[1..]);
    }
  }

  ghost predicate ConservesOver(st: ClickState, clicks: seq<Click>) {
    forall id: U32 :: ItemCount(Run(st, clicks), id) == ItemCount(st, id)
  }

  /** A run, however long, conserves every item exactly when none of its clicks is lossy when it comes. */
  lemma RunConserves(st: ClickState, clicks: seq<Click>)
    requires Filled(st)
    ensures ConservesOver(st, clicks) <==> !SomeLossy(st, clicks)
  {
    hide ItemCount, Filled, SomeLossy, Losses, Run;
    if SomeLossy(st, clicks) {
      var id := LossyRun(st, clicks);
      RunAccounts(st, clicks, id);
    } else {
      forall id: U32
        ensures ItemCount(Run(st, clicks), id) == ItemCount(st, id)
      {
        LosslessRun(st, clicks, id);
        RunAccounts(st, clicks, id);
      }
    }
  }

  // ----- stacks within their limits -----

  ghost predicate SoundSlot(slot: Slot) {
    slot.Some? ==> 1 <= slot.value.count <= slot.value.maxCount
  }

  ghost predicate AllSound(slots: seq<Slot>) {
    forall i :: 0 <= i < |slots| ==> SoundSlot(slots[i])
  }

  /** Every stack holds at least one item and no more than it may. */
  ghost predicate Sound(st: ClickState) {
    |st.hotbar| == HOTBAR && SoundSlot(st.cursor) && AllSound(st.slots) && AllSound(st.hotbar)
  }

  lemma {:induction false} CollectedSound(slots: seq<Slot>, id: U32, limit: U8, collected: nat)
    requires AllSound(slots)
    ensures AllSound(Collected(slots, id, limit, collected).0)
  {
    if slots != [] {
      var n := |slots| - 1;
      CollectedSound(slots[..n], id, limit, collected);
      var before := Collected(slots[..n], id, limit, collected);
      assert SoundSlot(CollectedFrom(slots[n], id, limit, before.1).0);
    }
  }

  lemma DoubleClickKeepsSound(st: ClickState)
    requires Sound(st)
    ensures Sound(DoubleClicked(st)) && |DoubleClicked(st).slots| == |st.slots|
  {
    if st.cursor.Some? {
      var cur := st.cursor.value;
      CollectedSound(st.slots, cur.item.id, cur.maxCount, cur.count);
    }
  }

  /** No click, lossy or not, leaves an empty or an overfull stack where there was none. */
  lemma ClickKeepsSound(st: ClickState, c: Click)
    requires Sound(st)
    ensures Sound(Clicked(st, c)) && |Clicked(st, c).slots| == |st.slots|
  {
    hide DoubleClicked;
    if c.mode.Collect? {
      DoubleClickKeepsSound(st);
    }
  }

  /** From stacks within their limits no run of clicks inside the container is lossy. */
  lemma {:induction false} SoundRunConserves(st: ClickState, clicks: seq<Click>)
    requires Sound(st) && forall i :: 0 <= i < |clicks| ==> clicks[i].slot < |st.slots|
    ensures Sound(Run(st, clicks)) && !SomeLossy(st, clicks) && ConservesOver(st, clicks)
    decreases |clicks|
  {
    hide Clicked;
    if clicks != [] {
      ClickKeepsSound(st, clicks[0]);
      SoundRunConserves(Clicked(st, clicks[0]), clicks[1..]);
    }
    RunConserves(st, clicks);
  }

  // ----- the handler -----

  /** One more slot of a double click, the slots after it still untouched. */
  lemma CollectedStep(slots: seq<Slot>, id: U32, limit: U8, collected: nat, i: nat)
    requires i < |slots|
    ensures
      var before := Collected(slots[..i], id, limit, collected);
      var last := CollectedFrom(slots[i], id, limit, before.1);
      var after := Collected(slots[..i + 1], id, limit, collected);
      var view := before.0 + slots[i..];
      && after.1 == last.1 && view[i] == slots[i]
      && after.0 + slots[i + 1..] == view[i := last.0]
  {
    assert slots[..i + 1][..i] == slots[..i];
  }

  /** One player with a window open. */
  class Session {
    const manager: ContainerManager
    const windowId: U8
    var cursor: Slot
    const hotbar: array<Slot>

    constructor (manager: ContainerManager, windowId: U8)
      ensures this.manager == manager && this.windowId == windowId && cursor == None
      ensures fresh(hotbar) && hotbar.Length == HOTBAR && forall i :: 0 <= i < HOTBAR ==> hotbar[i] == None
    {
      this.manager, this.windowId, cursor := manager, windowId, None;
      hotbar := new Slot[HOTBAR](_ => None);
    }

    ghost function State(): ClickState
      reads this, manager, hotbar
    {
      ClickState(cursor, manager.View(windowId), hotbar[..])
    }

    /** Steps through the handler as the source does, slot by slot. */
    method HandleClick(c: Click)
      requires hotbar.Length == HOTBAR
      modifies this`cursor, hotbar, manager`containers
      ensures State() == Clicked(old(State()), c)
    {
      var clicked := manager.GetSlot(windowId, c.slot);
      match c.mode
      case Normal =>
        if c.button == 0 {
          manager.SetSlot(windowId, c.slot, cursor);
          cursor := clicked;
        } else {
          RightClick(c.slot, clicked);
        }
      case HotbarSwap =>
        if c.button < HOTBAR {
          var hotbarItem := hotbar[c.button];
          manager.SetSlot(windowId, c.slot, hotbarItem);
          hotbar[c.button] := clicked;
        }
      case Drag =>
        if c.button <= 3 {
          manager.SetSlot(windowId, c.slot, cursor);
          cursor := clicked;
        } else {
          EndDrag(c.slot, clicked);
        }
      case Collect =>
        DoubleClick();
    }

    method RightClick(slot: nat, clicked: Slot)
      requires clicked == SlotAt(State().slots, slot)
      modifies this`cursor, manager`containers
      ensures State() == RightClicked(old(State()), slot)
    {
      if cursor.Some? {
        var cur := cursor.value;
        if clicked.Some? {
          var s := clicked.value;
          if s.item.id == cur.item.id && s.count < s.maxCount {
            manager.SetSlot(windowId, slot, Some(s.(count := Min(s.count + 1, s.maxCount))));
            cursor := if cur.count > 1 then Some(cur.(count := cur.count - 1)) else None;
          }
        } else {
          manager.SetSlot(windowId, slot, Some(cur.(count := 1)));
          cursor := if cur.count > 1 then Some(cur.(count := cur.count - 1)) else None;
        }
      } else if clicked.Some? {
        var s := clicked.value;
        var half := (s.count + 1) / 2;
        cursor := Some(s.(count := half));
        if half < s.count {
          manager.SetSlot(windowId, slot, Some(s.(count := s.count - half)));
        } else {
          manager.SetSlot(windowId, slot, None);
        }
      }
    }

    method EndDrag(slot: nat, clicked: Slot)
      requires clicked == SlotAt(State().slots, slot)
      modifies this`cursor, manager`containers
      ensures State() == DragEnded(old(State()), slot)
    {
      if cursor.Some? {
        var cur := cursor.value;
        var placed := 0;
        if clicked.None? {
          var toPlace := Min((cur.count + 3) / 4, cur.count);
          if toPlace > 0 {
            manager.SetSlot(windowId, slot, Some(cur.(count := toPlace)));
            placed := toPlace;
          }
        }
        cursor := if cur.count - placed > 0 then Some(cur.(count := cur.count - placed)) else None;
      }
    }

    /** What the sweep does to one slot. */
    method CollectSlot(i: nat, slot: Slot, id: U32, limit: U8, before: nat) returns (collected: nat)
      requires i < |State().slots| && State().slots[i] == slot
      modifies manager`containers
      ensures collected == CollectedFrom(slot, id, limit, before).1
      ensures State().slots == old(State().slots)[i := CollectedFrom(slot, id, limit, before).0]
    {
      collected := before;
      if slot.Some? && slot.value.item.id == id && collected < limit {
        var toTake := Min(slot.value.count, limit - collected);
        collected := collected + toTake;
        var remaining := slot.value.count - toTake;
        if remaining > 0 {
          manager.SetSlot(windowId, i, Some(slot.value.(count := remaining)));
        } else {
          manager.SetSlot(windowId, i, None);
        }
      }
    }

    method DoubleClick()
      modifies this`cursor, manager`containers
      ensures State() == DoubleClicked(old(State()))
    {
      if cursor.Some? {
        var cur := cursor.value;
        var all := manager.AllSlots(windowId);
        var collected: nat := cur.count;
        assert Collected(all[..0], cur.item.id, cur.maxCount, cur.count).0 + all[0..] == all;
        for i := 0 to |all|
          invariant cursor == Some(cur)
          invariant Collected(all[..i], cur.item.id, cur.maxCount, cur.count).1 == collected
          invariant manager.View(windowId) == Collected(all[..i], cur.item.id, cur.maxCount, cur.count).0 + all[i..]
        {
          CollectedStep(all, cur.item.id, cur.maxCount, cur.count, i);
          collected := CollectSlot(i, all[i], cur.item.id, cur.maxCount, collected);
        }
        assert all[..|all|] == all;
        cursor := Some(cur.(count := Min(collected, cur.maxCount)));
      }
    }
  }
}
