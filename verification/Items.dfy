/** Item stacks, the tables that bound them, and the bytes both save formats write for one slot. */
module Items {
  import opened Common

  type U16 = n: int | 0 <= n < 0x1_0000

  type U32 = n: int | 0 <= n < 0x1_0000_0000

  type I32 = n: int | -0x8000_0000 <= n < 0x8000_0000

  datatype BlockState = BlockState(id: U32, props: U16)

  datatype ItemStack = ItemStack(item: BlockState, count: U8, maxCount: U8, nbt: Option<seq<U8>>,
                                 durability: Option<U16>)

  type Slot = Option<ItemStack>

  function MaxDurability(id: U32): Option<U16> {
    match id
    case 781 | 782 | 783 | 784 | 804 => Some(59)
    case 785 | 786 | 787 | 788 | 805 => Some(131)
    case 780 | 768 | 769 | 770 | 806 => Some(250)
    case 789 | 790 | 791 | 792 | 793 => Some(1561)
    case 819 => Some(165)
    case 820 => Some(240)
    case 821 => Some(225)
    case 822 => Some(195)
    case 823 => Some(363)
    case 824 => Some(528)
    case 825 => Some(495)
    case 826 => Some(429)
    case 773 => Some(384)
    case 844 => Some(64)
    case 845 => Some(238)
    case 995 => Some(64)
    case _ => None
  }

  function StackSize(id: U32): U8 {
    if MaxDurability(id).Some? then 1
    else if 790 <= id <= 797 then 1
    else if 870 <= id <= 874 || 909 <= id <= 926 then 16
    else if 683 <= id <= 733 || 969 <= id <= 984 then 1
    else if id == 879 || id == 880 || id == 890 then 16
    else 64
  }

  /** A stack of a plain block as every part of the server creates one. */
  function NewStack(item: BlockState, count: U8): ItemStack {
    var dur := MaxDurability(item.id);
    ItemStack(item, count, if dur.Some? then 1 else StackSize(item.id), None, dur)
  }

  // ----- little-endian integers -----

  function Le16(n: U16): (r: seq<U8>)
    ensures |r| == 2
  {
    [n % 0x100, n / 0x100]
  }

  function Le32(n: U32): (r: seq<U8>)
    ensures |r| == 4
  {
    Le16(n % 0x1_0000) + Le16(n / 0x1_0000)
  }

  function FromLe16(lo: U8, hi: U8): U16 {
    var n: int := lo + 0x100 * hi;
    n
  }

  function FromLe32(b0: U8, b1: U8, b2: U8, b3: U8): U32 {
    var n: int := FromLe16(b0, b1) + 0x1_0000 * FromLe16(b2, b3);
    n
  }

  /** Two's complement. */
  function FromI32(x: I32): U32 {
    if x < 0 then x + 0x1_0000_0000 else x
  }

  function ToI32(n: U32): I32 {
    if n < 0x8000_0000 then n else n - 0x1_0000_0000
  }

  lemma Le32RoundTrip(n: U32)
    ensures var b := Le32(n); |b| == 4 && FromLe32(b[0], b[1], b[2], b[3]) == n
  {
  }

  // ----- one slot in a save file -----

  /** What follows the count: NBT length cut to 16 bits, NBT, durability with 0 for none. */
  function StackTail(s: ItemStack): seq<U8> {
    var nbt := s.nbt.GetOr([]);
    Le16(|nbt| % 0x1_0000) + (nbt + Le16(s.durability.GetOr(0)))
  }

  function SlotBytes(slot: Slot): seq<U8> {
    match slot
    case None => [0]
    case Some(s) => [1] + (Le32(s.item.id) + ([s.count] + StackTail(s)))
  }

  /** What a slot can be after a save and a load: no block properties, the stack limit of the item, an empty
      NBT dropped, and an absent or zero durability reset to the item's maximum. */
  function NormalStack(s: ItemStack): ItemStack {
    NewStack(BlockState(s.item.id, 0), s.count).(
      nbt := if s.nbt == Some([]) then None else s.nbt,
      durability := if s.durability.GetOr(0) == 0 then MaxDurability(s.item.id) else s.durability)
  }

  /** A load changes no id, count, non-empty NBT or positive durability, and what it changes it changes once. */
  lemma NormalKeeps(s: ItemStack)
    ensures
      var r := NormalStack(s);
      && r.item.id == s.item.id && r.count == s.count
      && (s.nbt.GetOr([]) != [] ==> r.nbt == s.nbt) && (s.durability.GetOr(0) > 0 ==> r.durability == s.durability)
      && (s.nbt.GetOr([]) == [] ==> r.nbt == None)
      && (s.durability.GetOr(0) == 0 ==> r.durability == MaxDurability(s.item.id))
      && NormalStack(r) == r
  {
  }

  function NormalSlot(slot: Slot): Slot {
    match slot
    case None => None
    case Some(s) => Some(NormalStack(s))
  }

  function NormalSlots(slots: seq<Slot>): (r: seq<Slot>)
    ensures |r| == |slots|
  {
    if slots == [] then [] else [NormalSlot(slots[0])] + NormalSlots(slots[1..])
  }

  function SlotsBytes(slots: seq<Slot>): seq<U8> {
    FlatMap(SlotBytes, slots)
  }

  predicate NbtFits(slot: Slot) {
    slot.Some? && slot.value.nbt.Some? ==> |slot.value.nbt.value| < 0x1_0000
  }

  /** `bytes` stands in `data` at `pos`. */
  predicate At(data: seq<U8>, pos: nat, bytes: seq<U8>) {
    pos + |bytes| <= |data| && data[pos..pos + |bytes|] == bytes
  }

  lemma AtConcat(data: seq<U8>, pos: nat, a: seq<U8>, b: seq<U8>)
    requires At(data, pos, a + b)
    ensures At(data, pos, a) && At(data, pos + |a|, b)
  {
    assert a == (a + b)[..|a|] && b == (a + b)[|a|..];
  }

  /** A list of written things, split into the first and the others. */
  lemma FlatMapAt<A>(data: seq<U8>, pos: nat, f: A -> seq<U8>, s: seq<A>)
    requires s != [] && At(data, pos, FlatMap(f, s))
    ensures
      var next := pos + |f(s[0])|;
      && At(data, pos, f(s[0])) && At(data, next, FlatMap(f, s[1..]))
      && next + |FlatMap(f, s[1..])| == pos + |FlatMap(f, s)|
  {
    AtConcat(data, pos, f(s[0]), FlatMap(f, s[1..]));
  }

  lemma U8At(data: seq<U8>, pos: nat, n: U8)
    requires At(data, pos, [n])
    ensures data[pos] == n
  {
    assert data[pos..pos + 1][0] == data[pos];
  }

  lemma U16At(data: seq<U8>, pos: nat, n: U16)
    requires At(data, pos, Le16(n))
    ensures FromLe16(data[pos], data[pos + 1]) == n
  {
    var b := data[pos..pos + 2];
    assert b[0] == data[pos] && b[1] == data[pos + 1];
  }

  lemma U32At(data: seq<U8>, pos: nat, n: U32)
    requires At(data, pos, Le32(n))
    ensures FromLe32(data[pos], data[pos + 1], data[pos + 2], data[pos + 3]) == n
  {
    Le32RoundTrip(n);
    var b := data[pos..pos + 4];
    assert b[0] == data[pos] && b[1] == data[pos + 1] && b[2] == data[pos + 2] && b[3] == data[pos + 3];
  }

  /** Where the parts of a written stack stand. */
  lemma StackParts(data: seq<U8>, pos: nat, s: ItemStack)
    requires At(data, pos, SlotBytes(Some(s))) && NbtFits(Some(s))
    ensures
      var nbt := s.nbt.GetOr([]);
      && |SlotBytes(Some(s))| == 10 + |nbt|
      && At(data, pos, [1]) && At(data, pos + 1, Le32(s.item.id)) && At(data, pos + 5, [s.count])
      && At(data, pos + 6, Le16(|nbt|)) && At(data, pos + 8, nbt)
      && At(data, pos + 8 + |nbt|, Le16(s.durability.GetOr(0)))
  {
    hide Le16, Le32;
    var nbt := s.nbt.GetOr([]);
    var id, len, dur := Le32(s.item.id), Le16(|nbt|), Le16(s.durability.GetOr(0));
    AtConcat(data, pos, [1], id + ([s.count] + (len + (nbt + dur))));
    AtConcat(data, pos + 1, id, [s.count] + (len + (nbt + dur)));
    AtConcat(data, pos + 5, [s.count], len + (nbt + dur));
    AtConcat(data, pos + 6, len, nbt + dur);
    AtConcat(data, pos + 8, nbt, dur);
  }

  /** What the reader finds there. */
  lemma StackLayout(data: seq<U8>, pos: nat, s: ItemStack)
    requires At(data, pos, SlotBytes(Some(s))) && NbtFits(Some(s))
    ensures
      var nbt := s.nbt.GetOr([]);
      && |SlotBytes(Some(s))| == 10 + |nbt| && pos + 10 + |nbt| <= |data|
      && data[pos] == 1
      && FromLe32(data[pos + 1], data[pos + 2], data[pos + 3], data[pos + 4]) == s.item.id
      && data[pos + 5] == s.count
      && FromLe16(data[pos + 6], data[pos + 7]) == |nbt|
      && data[pos + 8..pos + 8 + |nbt|] == nbt
      && FromLe16(data[pos + 8 + |nbt|], data[pos + 9 + |nbt|]) == s.durability.GetOr(0)
  {
    hide Le16, Le32, FromLe16, FromLe32, SlotBytes;
    var nbt := s.nbt.GetOr([]);
    StackParts(data, pos, s);
    U8At(data, pos, 1);
    U32At(data, pos + 1, s.item.id);
    U8At(data, pos + 5, s.count);
    U16At(data, pos + 6, |nbt|);
    U16At(data, pos + 8 + |nbt|, s.durability.GetOr(0));
  }

  /** One slot on paper: marker, id, count, NBT length, NBT and durability, the integers lowest byte first. */
  lemma WrittenStack()
    ensures SlotBytes(Some(ItemStack(BlockState(0x1234_5678, 9), 5, 64, Some([7, 8, 9]), Some(0x0102)))) ==
      [1, 0x78, 0x56, 0x34, 0x12, 5, 3, 0, 7, 8, 9, 0x02, 0x01]
    ensures SlotBytes(None) == [0]
  {
  }
}
