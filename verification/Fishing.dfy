/** Fishing: the bobber's life from cast to bite, and the weighted choice of what is on the hook. */
module Fishing {
  import opened Common
  import opened Items

  datatype Category = Fish | Junk | Treasure

  datatype Loot = Loot(item: U32, weight: nat, minCount: U8, maxCount: U8, category: Category)

  /** Treasure gains two and junk loses one per level of luck. */
  function Weight(l: Loot, luck: U8): nat {
    match l.category
    case Treasure => l.weight + luck * 2
    case Junk => SaturatingSub(l.weight, luck)
    case Fish => l.weight
  }

  function Total(table: seq<Loot>, luck: U8): nat {
    if table == [] then 0 else Weight(table[0], luck) + Total(table[1..], luck)
  }

  /** The entry a roll falls on: weights are laid end to end and the roll is measured along them. */
  function Pick(table: seq<Loot>, luck: U8, roll: nat): (i: nat)
    requires roll < Total(table, luck)
    ensures i < |table|
  {
    if roll < Weight(table[0], luck) then 0
    else 1 + Pick(table[1..], luck, roll - Weight(table[0], luck))
  }

  /** How many items, from a second roll; no answer where the 8-bit arithmetic of the source overflows. */
  function CountFor(l: Loot, roll: nat): Option<U8> {
    if l.minCount == l.maxCount then Some(l.minCount)
    else if l.maxCount < l.minCount || l.maxCount - l.minCount == 255 then None
    else
      ModBelow(roll, l.maxCount - l.minCount + 1);
      Some(l.minCount + roll % (l.maxCount - l.minCount + 1))
  }

  function StackFor(l: Loot, roll: nat): Option<ItemStack> {
    match CountFor(l, roll)
    case None => None
    case Some(count) => Some(NewStack(BlockState(l.item, 0), count))
  }

  const COD: ItemStack := NewStack(BlockState(854, 0), 1)

  // ----- fair shares -----

  /** The weight of everything before entry `i`. */
  function Before(table: seq<Loot>, luck: U8, i: nat): nat
    requires i <= |table|
  {
    if i == 0 then 0 else Weight(table[0], luck) + Before(table[1..], luck, i - 1)
  }

  /** An entry is picked by exactly the rolls in its own stretch of the weights. */
  lemma {:induction false} PickExact(table: seq<Loot>, luck: U8, roll: nat, i: nat)
    requires roll < Total(table, luck) && i < |table|
    ensures Pick(table, luck, roll) == i <==>
      Before(table, luck, i) <= roll < Before(table, luck, i) + Weight(table[i], luck)
    decreases |table|
  {
    var w := Weight(table[0], luck);
    if roll >= w && i > 0 {
      PickExact(table[1..], luck, roll - w, i - 1);
    }
  }

  lemma {:induction false} BeforeFits(table: seq<Loot>, luck: U8, i: nat)
    requires i < |table|
    ensures Before(table, luck, i) + Weight(table[i], luck) <= Total(table, luck)
    decreases |table|
  {
    if i > 0 {
      BeforeFits(table[1..], luck, i - 1);
    }
  }

  function Range(lo: nat, n: nat): set<nat> {
    if n == 0 then {} else Range(lo, n - 1) + {lo + n - 1}
  }

  lemma {:induction false} RangeSize(lo: nat, n: nat)
    ensures |Range(lo, n)| == n && forall r :: r in Range(lo, n) <==> lo <= r < lo + n
  {
    if n != 0 {
      RangeSize(lo, n - 1);
    }
  }

  /** The rolls below the total that pick entry `i`. */
  function RollsFor(table: seq<Loot>, luck: U8, i: nat): set<nat> {
    set r: nat | r < Total(table, luck) && Pick(table, luck, r) == i
  }

  /** Of all rolls below the total, each entry gets as many as its adjusted weight. */
  lemma FairShare(table: seq<Loot>, luck: U8, i: nat)
    requires i < |table|
    ensures |RollsFor(table, luck, i)| == Weight(table[i], luck)
  {
    var share := RollsFor(table, luck, i);
    var lo, n := Before(table, luck, i), Weight(table[i], luck);
    BeforeFits(table, luck, i);
    RangeSize(lo, n);
    forall r: nat
      ensures r in share <==> r in Range(lo, n)
    {
      if r < Total(table, luck) {
        PickExact(table, luck, r, i);
      }
    }
    assert share == Range(lo, n);
  }

  lemma ModBelow(k: nat, m: nat)
    requires 0 < m
    ensures 0 <= k % m < m && (k < m ==> k % m == k)
  {
  }

  /** The count lies in the entry's range whenever it can be computed, which fails only for an empty range and
      for the range of all bytes. */
  lemma CountExact(l: Loot, roll: nat)
    ensures CountFor(l, roll).None? <==> l.maxCount < l.minCount || (l.minCount == 0 && l.maxCount == 255)
    ensures CountFor(l, roll).Some? ==> l.minCount <= CountFor(l, roll).value <= l.maxCount
  {
    if l.minCount < l.maxCount {
      ModBelow(roll, l.maxCount - l.minCount + 1);
    }
  }

  /** The catch is a fresh stack of the entry's item, of a size the entry allows. */
  lemma CatchExact(l: Loot, roll: nat)
    ensures StackFor(l, roll).Some? <==> CountFor(l, roll).Some?
    ensures StackFor(l, roll).Some? ==>
      var s := StackFor(l, roll).value;
      && s.item == BlockState(l.item, 0) && l.minCount <= s.count <= l.maxCount
      && s == NewStack(s.item, s.count)
  {
    CountExact(l, roll);
  }

  /** Every count of the range comes up. */
  lemma CountReached(l: Loot, n: U8)
    requires l.minCount <= n <= l.maxCount && l.maxCount - l.minCount < 255
    ensures CountFor(l, n - l.minCount) == Some(n)
  {
    ModBelow(n - l.minCount, l.maxCount - l.minCount + 1);
  }

  // ----- luck -----

  /** What one more level of luck does to one entry, from no luck on. */
  lemma LuckSteps(l: Loot, luck: U8)
    ensures luck == 0 ==> Weight(l, luck) == l.weight
    ensures luck < 255 ==>
      var before, after := Weight(l, luck), Weight(l, luck + 1);
      match l.category
      case Treasure => after == before + 2
      case Junk => if before > 0 then after == before - 1 else after == 0
      case Fish => after == before
  {
  }

  /** The weight of all entries of one category. */
  function Share(table: seq<Loot>, luck: U8, c: Category): nat {
    if table == [] then 0
    else (if table[0].category == c then Weight(table[0], luck) else 0) + Share(table[1..], luck, c)
  }

  lemma {:induction false} SharesAddUp(table: seq<Loot>, luck: U8)
    ensures Total(table, luck) == Share(table, luck, Fish) + Share(table, luck, Junk) + Share(table, luck, Treasure)
    decreases |table|
  {
    if table != [] {
      SharesAddUp(table[1..], luck);
    }
  }

  lemma {:induction false} LuckShifts(table: seq<Loot>, luck: U8)
    requires luck < 255
    ensures Share(table, luck, Treasure) <= Share(table, luck + 1, Treasure)
    ensures Share(table, luck, Junk) >= Share(table, luck + 1, Junk)
    ensures Share(table, luck, Fish) == Share(table, luck + 1, Fish)
    decreases |table|
  {
    if table != [] {
      LuckShifts(table[1..], luck);
    }
  }

  lemma ProductGrows(a: nat, b: nat, c: nat, d: nat)
    requires a <= b && c <= d
    ensures a * c <= b * d
  {
  }

  lemma CrossTerms(t: nat, t': nat, j: nat, j': nat, f: nat)
    requires t <= t' && j' <= j
    ensures t * (f + j' + t') <= t' * (f + j + t)
    ensures j' * (f + j + t) <= j * (f + j' + t')
  {
    ProductGrows(t, t', f, f);
    ProductGrows(t, t', j', j);
    ProductGrows(j', j, f, f);
    ProductGrows(j', j, t, t');
  }

  /** With more luck the chance of treasure never falls and that of junk never rises: both as shares of the total. */
  lemma LuckHelps(table: seq<Loot>, luck: U8)
    requires luck < 255
    ensures Share(table, luck, Treasure) * Total(table, luck + 1) <=
      Share(table, luck + 1, Treasure) * Total(table, luck)
    ensures Share(table, luck + 1, Junk) * Total(table, luck) <=
      Share(table, luck, Junk) * Total(table, luck + 1)
  {
    SharesAddUp(table, luck);
    SharesAddUp(table, luck + 1);
    LuckShifts(table, luck);
    CrossTerms(Share(table, luck, Treasure), Share(table, luck + 1, Treasure),
               Share(table, luck, Junk), Share(table, luck + 1, Junk), Share(table, luck, Fish));
  }

  // ----- entries without weight -----

  function Candidates(table: seq<Loot>, luck: U8): seq<Loot> {
    if table == [] then []
    else
      var last := table[|table| - 1];
      Candidates(table[..|table| - 1], luck) + if Weight(last, luck) > 0 then [last] else []
  }

  lemma {:induction false} TotalAppend(a: seq<Loot>, b: seq<Loot>, luck: U8)
    ensures Total(a + b, luck) == Total(a, luck) + Total(b, luck)
    decreases |a|
  {
    if a == [] {
      assert a + b == b;
    } else {
      TotalAppend(a[1..], b, luck);
      assert (a + b)[1..] == a[1..] + b;
    }
  }

  lemma {:induction false} PickAppend(a: seq<Loot>, b: seq<Loot>, luck: U8, roll: nat)
    requires roll < Total(a, luck) + Total(b, luck) == Total(a + b, luck)
    ensures Pick(a + b, luck, roll) ==
      if roll < Total(a, luck) then Pick(a, luck, roll) else |a| + Pick(b, luck, roll - Total(a, luck))
    decreases |a|
  {
    if a == [] {
      assert a + b == b;
    } else {
      assert (a + b)[1..] == a[1..] + b;
      TotalAppend(a[1..], b, luck);
      if roll >= Weight(a[0], luck) {
        PickAppend(a[1..], b, luck, roll - Weight(a[0], luck));
      }
    }
  }

  /** Leaving out the entries of no weight changes no choice. */
  lemma {:induction false} CandidatesPick(table: seq<Loot>, luck: U8, roll: nat)
    ensures Total(Candidates(table, luck), luck) == Total(table, luck)
    ensures roll < Total(table, luck) ==>
      Candidates(table, luck)[Pick(Candidates(table, luck), luck, roll)] == table[Pick(table, luck, roll)]
    decreases |table|
  {
    if table != [] {
      var front, last := table[..|table| - 1], table[|table| - 1];
      var cands, tail := Candidates(front, luck), if Weight(last, luck) > 0 then [last] else [];
      CandidatesPick(front, luck, roll);
      assert table == front + [last];
      TotalAppend(front, [last], luck);
      TotalAppend(cands, tail, luck);
      if roll < Total(table, luck) {
        PickAppend(front, [last], luck, roll);
        PickAppend(cands, tail, luck, roll);
      }
    }
  }

  // ----- a bobber -----

  datatype Bobber = Bobber(waitTicks: nat, bites: bool)

  /** One tick, and whether the fish bites in it. */
  function Ticked(b: Bobber): (Bobber, bool) {
    if b.bites || b.waitTicks == 0 then (b, false)
    else if b.waitTicks == 1 then (Bobber(0, true), true)
    else (Bobber(b.waitTicks - 1, false), false)
  }

  function TickedTimes(b: Bobber, n: nat): Bobber {
    if n == 0 then b else Ticked(TickedTimes(b, n - 1)).0
  }

  /** A cast bobber bites in its last waiting tick, in no other, and from then on for good. */
  lemma {:induction false} BitesOnce(wait: nat, n: nat)
    requires wait > 0
    ensures TickedTimes(Bobber(wait, false), n) == if n < wait then Bobber(wait - n, false) else Bobber(0, true)
    ensures Ticked(TickedTimes(Bobber(wait, false), n)).1 <==> n + 1 == wait
  {
    if n > 0 {
      BitesOnce(wait, n - 1);
    }
  }

  /** `roll` is the random part, from 100 up to 599. */
  function CastWait(roll: nat, lure: U8): (wait: nat)
    requires 100 <= roll < 600
    ensures 20 <= wait <= 699
  {
    Max(SaturatingSub(100 + roll, lure * 100), 20)
  }

  /** Each level of the lure takes off a hundred ticks, down to twenty. */
  lemma LureShortens(roll: nat, lure: U8)
    requires 100 <= roll < 600
    ensures lure == 0 ==> CastWait(roll, lure) == 100 + roll
    ensures lure < 255 ==>
      var before, after := CastWait(roll, lure), CastWait(roll, lure + 1);
      if before >= 120 then after == before - 100 else after == 20
  {
  }

  /** Walks along the weights until the roll is used up. The fallback at the end is never reached. */
  method Fall(candidates: seq<Loot>, luck: U8, roll: nat, countRoll: nat) returns (r: Option<ItemStack>)
    requires roll < Total(candidates, luck)
    ensures r == StackFor(candidates[Pick(candidates, luck, roll)], countRoll)
  {
    r := Some(COD);
    var left: nat := roll;
    for i := 0 to |candidates|
      invariant left < Total(candidates[i..], luck)
      invariant Pick(candidates, luck, roll) == i + Pick(candidates[i..], luck, left)
    {
      assert candidates[i..][0] == candidates[i] && candidates[i..][1..] == candidates[i + 1..];
      var w := Weight(candidates[i], luck);
      if left < w {
        r := StackFor(candidates[i], countRoll);
        return;
      }
      left := left - w;
    }
    assert false;
  }

  method TickOne(before: Bobber) returns (b: Bobber, bite: bool)
    ensures (b, bite) == Ticked(before)
  {
    b, bite := before, false;
    if !b.bites && b.waitTicks > 0 {
      b := b.(waitTicks := b.waitTicks - 1);
      if b.waitTicks == 0 {
        b := b.(bites := true);
        bite := true;
      }
    }
  }

  class FishingManager {
    var bobbers: map<int, Bobber>
    const table: seq<Loot>

    constructor (table: seq<Loot>)
      ensures bobbers == map[] && this.table == table
    {
      bobbers, this.table := map[], table;
    }

    method Cast(id: int, roll: nat, lure: U8)
      requires 100 <= roll < 600
      modifies this
      ensures bobbers == old(bobbers)[id := Bobber(CastWait(roll, lure), false)]
    {
      var baseWait := 100 + roll;
      bobbers := bobbers[id := Bobber(Max(SaturatingSub(baseWait, lure * 100), 20), false)];
    }

    method Cancel(id: int)
      modifies this
      ensures bobbers == old(bobbers) - {id}
    {
      bobbers := bobbers - {id};
    }

    /** Advances every bobber, in the order the map is walked, and reports the new bites. */
    method Tick(order: seq<int>) returns (bites: seq<int>)
      requires Enumerates(order, bobbers.Keys)
      modifies this
      ensures bobbers.Keys == old(bobbers.Keys)
      ensures forall id :: id in bobbers ==> bobbers[id] == Ticked(old(bobbers)[id]).0
      ensures forall id :: id in bites <==> id in old(bobbers) && Ticked(old(bobbers)[id]).1
      ensures NoRepeats(bites)
    {
      bites := [];
      ghost var before := bobbers;
      for i := 0 to |order|
        invariant bobbers.Keys == before.Keys
        invariant forall k :: 0 <= k < i ==> bobbers[order[k]] == Ticked(before[order[k]]).0
        invariant forall k :: i <= k < |order| ==> bobbers[order[k]] == before[order[k]]
        invariant forall id :: id in bites <==> id in order[..i] && Ticked(before[id]).1
        invariant NoRepeats(bites)
      {
        var id := order[i];
        assert id in bobbers.Keys;
        var b, bite := TickOne(bobbers[id]);
        bobbers := bobbers[id := b];
        if bite {
          assert id !in order[..i];
          AppendFresh(bites, id);
          bites := bites + [id];
        }
        assert order[..i + 1] == order[..i] + [id];
      }
      assert order[..|order|] == order;
      forall id | id in before
        ensures bobbers[id] == Ticked(before[id]).0
      {
        assert id in order;
      }
    }

    /** What is on the hook, for a roll and a second roll for the count; nothing when the source would overflow. */
    method RollLoot(luck: U8, roll: nat, countRoll: nat) returns (r: Option<ItemStack>)
      ensures r == if Total(table, luck) == 0 then Some(COD)
                   else StackFor(table[Pick(table, luck, roll % Total(table, luck))], countRoll)
    {
      var totalWeight: nat := 0;
      var candidates: seq<Loot> := [];
      for i := 0 to |table|
        invariant totalWeight == Total(table[..i], luck) && candidates == Candidates(table[..i], luck)
      {
        assert table[..i + 1] == table[..i] + [table[i]];
        TotalAppend(table[..i], [table[i]], luck);
        var weight := Weight(table[i], luck);
        if weight > 0 {
          totalWeight := totalWeight + weight;
          candidates := candidates + [table[i]];
        }
      }
      assert table[..|table|] == table;
      if totalWeight == 0 {
        return Some(COD);
      }
      var left := roll % totalWeight;
      CandidatesPick(table, luck, left);
      r := Fall(candidates, luck, left, countRoll);
    }

    /** Reeling in removes the bobber and yields loot exactly when a fish was on it. */
    method ReelIn(id: int, luck: U8, roll: nat, countRoll: nat) returns (loot: Option<ItemStack>, caught: bool)
      modifies this
      ensures bobbers == old(bobbers) - {id}
      ensures caught <==> id in old(bobbers) && old(bobbers)[id].bites
      ensures !caught ==> loot == None
      ensures caught ==> loot == if Total(table, luck) == 0 then Some(COD)
                                 else StackFor(table[Pick(table, luck, roll % Total(table, luck))], countRoll)
    {
      if id !in bobbers {
        assert bobbers - {id} == bobbers;
        return None, false;
      }
      var b := bobbers[id];
      bobbers := bobbers - {id};
      if !b.bites {
        return None, false;
      }
      loot := RollLoot(luck, roll, countRoll);
      caught := true;
    }
  }
}
