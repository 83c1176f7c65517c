/** Enchantments: rolling a set of them for an item, and the text they are written to and parsed from. */
module Enchanting {
  import opened Common

  // ----- the registry -----

  datatype Enchant =
    | Protection | FireProtection | BlastProtection | ProjectileProtection | Thorns | DepthStrider | FrostWalker
    | Respiration | AquaAffinity
    | Sharpness | Smite | BaneOfArthropods | FireAspect | Knockback | Looting | SweepingEdge
    | Efficiency | Fortune | SilkTouch
    | Power | Infinity | Flame | Punch
    | Piercing | Multishot | QuickCharge
    | Loyalty | Riptide | Channeling | Impaling
    | Unbreaking | Mending
    | FeatherFalling | SoulSpeed | SwiftSneak
    | LuckOfTheSea | Lure
    | WindBurst | Density | Breach
    | VanishingCurse | BindingCurse

  datatype Category = Armor | Weapon | Tool | Bow | Crossbow | Trident | All | FishingRod | Mace

  datatype Entry = Entry(maxLevel: nat, category: Category, treasure: bool)

  const REGISTRY: seq<Enchant> := [
    Protection, FireProtection, BlastProtection, ProjectileProtection, Thorns, DepthStrider, FrostWalker,
    Respiration, AquaAffinity,
    Sharpness, Smite, BaneOfArthropods, FireAspect, Knockback, Looting, SweepingEdge,
    Efficiency, Fortune, SilkTouch,
    Power, Infinity, Flame, Punch,
    Piercing, Multishot, QuickCharge,
    Loyalty, Riptide, Channeling, Impaling,
    Unbreaking, Mending,
    FeatherFalling, SoulSpeed, SwiftSneak,
    LuckOfTheSea, Lure,
    WindBurst, Density, Breach,
    VanishingCurse, BindingCurse]

  function EntryOf(e: Enchant): Entry {
    match e
    case Protection => Entry(4, Armor, false)
    case FireProtection => Entry(4, Armor, false)
    case BlastProtection => Entry(4, Armor, false)
    case ProjectileProtection => Entry(4, Armor, false)
    case Thorns => Entry(3, Armor, false)
    case DepthStrider => Entry(3, Armor, false)
    case FrostWalker => Entry(2, Armor, true)
    case Respiration => Entry(3, Armor, false)
    case AquaAffinity => Entry(1, Armor, false)
    case Sharpness => Entry(5, Weapon, false)
    case Smite => Entry(5, Weapon, false)
    case BaneOfArthropods => Entry(5, Weapon, false)
    case FireAspect => Entry(2, Weapon, false)
    case Knockback => Entry(2, Weapon, false)
    case Looting => Entry(3, Weapon, false)
    case SweepingEdge => Entry(3, Weapon, false)
    case Efficiency => Entry(5, Tool, false)
    case Fortune => Entry(3, Tool, false)
    case SilkTouch => Entry(1, Tool, false)
    case Power => Entry(5, Bow, false)
    case Infinity => Entry(1, Bow, false)
    case Flame => Entry(1, Bow, false)
    case Punch => Entry(2, Bow, false)
    case Piercing => Entry(4, Crossbow, false)
    case Multishot => Entry(1, Crossbow, false)
    case QuickCharge => Entry(3, Crossbow, false)
    case Loyalty => Entry(3, Trident, false)
    case Riptide => Entry(3, Trident, false)
    case Channeling => Entry(1, Trident, false)
    case Impaling => Entry(5, Trident, false)
    case Unbreaking => Entry(3, All, false)
    case Mending => Entry(1, All, true)
    case FeatherFalling => Entry(4, Armor, false)
    case SoulSpeed => Entry(3, Armor, true)
    case SwiftSneak => Entry(3, Armor, true)
    case LuckOfTheSea => Entry(3, FishingRod, false)
    case Lure => Entry(3, FishingRod, false)
    case WindBurst => Entry(3, Mace, true)
    case Density => Entry(5, Mace, true)
    case Breach => Entry(4, Mace, true)
    case VanishingCurse => Entry(1, All, true)
    case BindingCurse => Entry(1, Armor, true)
  }

  /** The conflict list each entry carries. */
  function Conflicts(e: Enchant): set<Enchant> {
    match e
    case Protection => {FireProtection, BlastProtection, ProjectileProtection}
    case FireProtection => {Protection, BlastProtection, ProjectileProtection}
    case BlastProtection => {Protection, FireProtection, ProjectileProtection}
    case ProjectileProtection => {Protection, FireProtection, BlastProtection}
    case DepthStrider => {FrostWalker}
    case FrostWalker => {DepthStrider}
    case Sharpness => {Smite, BaneOfArthropods}
    case Smite => {Sharpness, BaneOfArthropods}
    case BaneOfArthropods => {Sharpness, Smite}
    case Fortune => {SilkTouch}
    case SilkTouch => {Fortune}
    case Piercing => {Multishot}
    case Multishot => {Piercing}
    case Loyalty => {Riptide}
    case Riptide => {Loyalty, Channeling}
    case Channeling => {Riptide}
    case _ => {}
  }

  function ItemCategory(id: nat): Category {
    if 785 <= id <= 789 || id == 792 || 690 <= id <= 695 then Weapon
    else if 796 <= id <= 807 then Tool
    else if 810 <= id <= 849 then Armor
    else if id == 773 then Bow
    else if id == 941 then Crossbow
    else if id == 940 then Trident
    else All
  }

  ghost predicate Conflict(a: Enchant, b: Enchant) {
    b in Conflicts(a)
  }

  lemma GuardConflictBack(a: Enchant, b: Enchant)
    requires Conflict(a, b) && (a.Protection? || a.FireProtection? || a.BlastProtection? || a.ProjectileProtection?)
    ensures Conflict(b, a)
  {
    match a {
      case Protection => case FireProtection => case BlastProtection => case ProjectileProtection =>
    }
  }

  lemma ConflictBack(a: Enchant, b: Enchant)
    requires Conflict(a, b)
    ensures Conflict(b, a)
  {
    match a {
      case Protection | FireProtection | BlastProtection | ProjectileProtection => GuardConflictBack(a, b);
      case DepthStrider => case FrostWalker =>
      case Sharpness => case Smite => case BaneOfArthropods =>
      case Fortune => case SilkTouch =>
      case Piercing => case Multishot =>
      case Loyalty => case Riptide => case Channeling =>
      case _ =>
    }
  }

  /** Each entry lists its own conflicts; the lists agree with each other. */
  lemma ConflictsSymmetric(a: Enchant, b: Enchant)
    ensures Conflict(a, b) <==> Conflict(b, a)
  {
    if Conflict(a, b) {
      ConflictBack(a, b);
    }
    if Conflict(b, a) {
      ConflictBack(b, a);
    }
  }

  lemma LevelsPositive(e: Enchant)
    ensures 1 <= EntryOf(e).maxLevel <= 5
  {
  }

  // ----- rolling -----

  predicate Eligible(e: Enchant, c: Category) {
    (EntryOf(e).category == c || EntryOf(e).category == All) && !EntryOf(e).treasure
  }

  function Candidates(registry: seq<Enchant>, c: Category): seq<Enchant> {
    if registry == [] then []
    else
      var last := registry[|registry| - 1];
      Candidates(registry[..|registry| - 1], c) + if Eligible(last, c) then [last] else []
  }

  predicate Free(e: Enchant, chosen: set<Enchant>) {
    e !in chosen && Conflicts(e) !! chosen
  }

  function Available(candidates: seq<Enchant>, chosen: set<Enchant>): seq<Enchant> {
    if candidates == [] then []
    else
      var last := candidates[|candidates| - 1];
      Available(candidates[..|candidates| - 1], chosen) + if Free(last, chosen) then [last] else []
  }

  function Elements(s: seq<Enchant>): set<Enchant> {
    set e | e in s
  }

  function Level(e: Enchant, level: nat): nat {
    LevelsPositive(e);
    LevelUpTo(EntryOf(e).maxLevel, level)
  }

  function LevelUpTo(max: nat, level: nat): nat
    requires max > 0
  {
    Min(level % max + 1, max)
  }

  /** Which of the fitting enchantments is chosen. */
  function ChoiceIndex(available: nat, item: nat, level: nat): nat
    requires available > 0
  {
    (level * 13 + item * 7) % available
  }

  /** The choice among what is still free. */
  function Next(candidates: seq<Enchant>, chosen: set<Enchant>, item: nat, level: nat): Option<Enchant> {
    var available := Available(candidates, chosen);
    if available == [] then None else Some(available[ChoiceIndex(|available|, item, level)])
  }

  /** The enchantments after `rounds` rounds; a round without anything left to choose adds nothing. */
  function Rolled(candidates: seq<Enchant>, item: nat, level: nat, rounds: nat): seq<Enchant> {
    if rounds == 0 then []
    else
      var chosen := Rolled(candidates, item, level, rounds - 1);
      match Next(candidates, Elements(chosen), item, level)
      case None => chosen
      case Some(e) => chosen + [e]
  }

  function Rounds(level: nat): nat {
    1 + Min(level / 15, 2)
  }

  function Roll(item: nat, level: nat): seq<Enchant> {
    Rolled(Candidates(REGISTRY, ItemCategory(item)), item, level, Rounds(level))
  }

  lemma {:induction false} CandidatesExact(registry: seq<Enchant>, c: Category)
    ensures forall e :: e in Candidates(registry, c) <==> e in registry && Eligible(e, c)
  {
    if registry != [] {
      CandidatesExact(registry[..|registry| - 1], c);
      assert registry == registry[..|registry| - 1] + [registry[|registry| - 1]];
    }
  }

  lemma {:induction false} AvailableExact(candidates: seq<Enchant>, chosen: set<Enchant>)
    ensures forall e :: e in Available(candidates, chosen) <==> e in candidates && Free(e, chosen)
  {
    if candidates != [] {
      AvailableExact(candidates[..|candidates| - 1], chosen);
      assert candidates == candidates[..|candidates| - 1] + [candidates[|candidates| - 1]];
    }
  }

  /** Distinct, and no two conflict in either direction. */
  ghost predicate Compatible(r: seq<Enchant>) {
    forall i, j :: 0 <= i < j < |r| ==> r[i] != r[j] && !Conflict(r[i], r[j]) && !Conflict(r[j], r[i])
  }

  lemma FreeKeepsCompatible(chosen: seq<Enchant>, next: Enchant)
    requires Compatible(chosen) && Free(next, Elements(chosen))
    ensures Compatible(chosen + [next])
  {
    forall i | 0 <= i < |chosen|
      ensures chosen[i] != next && !Conflict(chosen[i], next) && !Conflict(next, chosen[i])
    {
      assert chosen[i] in Elements(chosen);
      ConflictsSymmetric(chosen[i], next);
    }
  }

  lemma NextExact(candidates: seq<Enchant>, chosen: set<Enchant>, item: nat, level: nat)
    ensures match Next(candidates, chosen, item, level)
      case None => forall e :: e in candidates ==> !Free(e, chosen)
      case Some(e) => e in candidates && Free(e, chosen)
  {
    AvailableExact(candidates, chosen);
    var available := Available(candidates, chosen);
    assert forall i :: 0 <= i < |available| ==> available[i] in available;
    if available == [] {
      assert forall e :: e in candidates ==> e !in available;
    }
  }

  lemma {:induction false} RolledCompatible(candidates: seq<Enchant>, item: nat, level: nat, rounds: nat)
    ensures
      var r := Rolled(candidates, item, level, rounds);
      |r| <= rounds && Compatible(r) && forall i :: 0 <= i < |r| ==> r[i] in candidates
  {
    if rounds != 0 {
      RolledCompatible(candidates, item, level, rounds - 1);
      var chosen := Rolled(candidates, item, level, rounds - 1);
      NextExact(candidates, Elements(chosen), item, level);
      match Next(candidates, Elements(chosen), item, level) {
        case None =>
        case Some(e) => FreeKeepsCompatible(chosen, e);
      }
    }
  }

  /** For every item and level: at most three enchantments that fit the item, none of them a treasure, pairwise
      distinct and free of conflicts, each at a level it can have. */
  lemma RollExact(item: nat, level: nat)
    ensures
      var r := Roll(item, level);
      && |r| <= 3 && Compatible(r)
      && (forall i :: 0 <= i < |r| ==>
        Eligible(r[i], ItemCategory(item)) && 1 <= Level(r[i], level) <= EntryOf(r[i]).maxLevel)
  {
    var candidates := Candidates(REGISTRY, ItemCategory(item));
    RolledCompatible(candidates, item, level, Rounds(level));
    CandidatesExact(REGISTRY, ItemCategory(item));
    var r := Roll(item, level);
    forall i | 0 <= i < |r|
      ensures 1 <= Level(r[i], level) <= EntryOf(r[i]).maxLevel
    {
      LevelsPositive(r[i]);
    }
  }

  /** The roll is cut short only when nothing more would fit. */
  lemma {:induction false} RolledMaximal(candidates: seq<Enchant>, item: nat, level: nat, rounds: nat)
    ensures
      var r := Rolled(candidates, item, level, rounds);
      |r| < rounds ==> forall e :: e in candidates ==> !Free(e, Elements(r))
  {
    if rounds != 0 {
      RolledMaximal(candidates, item, level, rounds - 1);
      NextExact(candidates, Elements(Rolled(candidates, item, level, rounds - 1)), item, level);
    }
  }

  /** The number of rounds grows with the level of the table: one below 15, two below 30, three from there on. */
  lemma RoundsExact(level: nat)
    ensures Rounds(level) == if level < 15 then 1 else if level < 30 then 2 else 3
  {
  }

  lemma FreeOfNothing(e: Enchant)
    ensures Free(e, Elements([]))
  {
    assert Elements([]) == {};
  }

  /** A roll has that many enchantments unless nothing is left that would fit; so it is empty only when nothing fits
      the item at all. */
  lemma RollFills(item: nat, level: nat)
    ensures
      var r := Roll(item, level);
      && (|r| == Rounds(level) ||
          forall e :: e in REGISTRY && Eligible(e, ItemCategory(item)) ==> !Free(e, Elements(r)))
      && (r == [] <==> forall e :: e in REGISTRY ==> !Eligible(e, ItemCategory(item)))
  {
    var candidates, r := Candidates(REGISTRY, ItemCategory(item)), Roll(item, level);
    RolledCompatible(candidates, item, level, Rounds(level));
    RolledMaximal(candidates, item, level, Rounds(level));
    CandidatesExact(REGISTRY, ItemCategory(item));
    forall e
      ensures Free(e, Elements([]))
    {
      FreeOfNothing(e);
    }
    assert r != [] ==> r[0] in candidates;
  }

  /** Levels go round: the first is one, each next table level gives one more, and after the highest comes one again. */
  lemma LevelsCycle(e: Enchant, level: nat)
    ensures Level(e, 0) == 1
    ensures Level(e, level + 1) == if Level(e, level) == EntryOf(e).maxLevel then 1 else Level(e, level) + 1
  {
    hide EntryOf, LevelUpTo;
    LevelsPositive(e);
    LevelsUpToCycle(EntryOf(e).maxLevel, level);
  }

  lemma LevelsUpToCycle(max: nat, level: nat)
    requires max > 0
    ensures LevelUpTo(max, 0) == 1
    ensures LevelUpTo(max, level + 1) == if LevelUpTo(max, level) == max then 1 else LevelUpTo(max, level) + 1
  {
    ModStep(level, max);
    ModBounds(level, max);
  }

  lemma ModBounds(n: nat, m: nat)
    requires m > 0
    ensures 0 <= n % m < m && 0 % m == 0 && (m > 1 ==> 1 % m == 1)
  {
  }

  lemma ModStep(n: nat, m: nat)
    requires m > 0
    ensures (n + 1) % m == if n % m == m - 1 then 0 else n % m + 1
  {
    ModShift(n, 1, m);
    if n % m == m - 1 {
      QuotientUnique(m, m, 1, 0);
    } else {
      QuotientUnique(n % m + 1, m, 0, n % m + 1);
    }
  }

  /** Adding before taking the remainder is adding to the remainder. */
  lemma ModShift(n: nat, d: nat, m: nat)
    requires m > 0
    ensures (n + d) % m == (n % m + d) % m
  {
    var q := (n % m + d) / m;
    assert n == n / m * m + n % m && n % m + d == q * m + (n % m + d) % m;
    assert n + d == (n / m + q) * m + (n % m + d) % m;
    QuotientUnique(n + d, m, n / m + q, (n % m + d) % m);
  }

  /** The choice is the first for level and item zero; seven places further on, going round, for each next item id,
      and thirteen for each next level. */
  lemma ChoiceMoves(available: nat, item: nat, level: nat)
    requires available > 0
    ensures ChoiceIndex(available, 0, 0) == 0
    ensures ChoiceIndex(available, item + 1, level) == (ChoiceIndex(available, item, level) + 7) % available
    ensures ChoiceIndex(available, item, level + 1) == (ChoiceIndex(available, item, level) + 13) % available
  {
    var n := level * 13 + item * 7;
    assert level * 13 + (item + 1) * 7 == n + 7 && (level + 1) * 13 + item * 7 == n + 13;
    ModShift(n, 7, available);
    ModShift(n, 13, available);
    QuotientUnique(0, available, 0, 0);
  }

  function WithLevels(r: seq<Enchant>, level: nat): seq<(Enchant, nat)> {
    if r == [] then [] else WithLevels(r[..|r| - 1], level) + [(r[|r| - 1], Level(r[|r| - 1], level))]
  }

  /** Every enchantment rolled is handed out, in order, each at its own level. */
  lemma {:induction false} WithLevelsAt(r: seq<Enchant>, level: nat, i: nat)
    requires i < |r|
    ensures |WithLevels(r, level)| == |r| && WithLevels(r, level)[i] == (r[i], Level(r[i], level))
    decreases |r|
  {
    hide Level;
    var n := |r| - 1;
    WithLevelsSize(r[..n], level);
    if i < n {
      WithLevelsAt(r[..n], level, i);
    }
  }

  lemma {:induction false} WithLevelsSize(r: seq<Enchant>, level: nat)
    ensures |WithLevels(r, level)| == |r|
  {
    if r != [] {
      WithLevelsSize(r[..|r| - 1], level);
    }
  }

  method Choose(candidates: seq<Enchant>, chosen: set<Enchant>, item: nat, level: nat) returns (r: Option<Enchant>)
    ensures r == Next(candidates, chosen, item, level)
  {
    var available := Available(candidates, chosen);
    if available == [] {
      return None;
    }
    var index := (level * 13 + item * 7) % |available|;
    return Some(available[index]);
  }

  method RollFrom(candidates: seq<Enchant>, item: nat, level: nat, count: nat) returns (result: seq<(Enchant, nat)>)
    ensures result == WithLevels(Rolled(candidates, item, level, count), level)
  {
    var chosen: set<Enchant> := {};
    ghost var picks: seq<Enchant> := [];
    result := [];
    for round := 0 to count
      invariant picks == Rolled(candidates, item, level, round) && chosen == Elements(picks)
      invariant result == WithLevels(picks, level)
    {
      var next := Choose(candidates, chosen, item, level);
      if next.Some? {
        var enchant := next.value;
        assert Elements(picks + [enchant]) == chosen + {enchant};
        assert (picks + [enchant])[..|picks|] == picks;
        picks := picks + [enchant];
        chosen := chosen + {enchant};
        result := result + [(enchant, Level(enchant, level))];
      }
    }
  }

  method RollEnchantment(item: nat, level: nat) returns (result: seq<(Enchant, nat)>)
    ensures result == WithLevels(Roll(item, level), level)
  {
    var category := ItemCategory(item);
    var candidates := Candidates(REGISTRY, category);
    result := RollFrom(candidates, item, level, 1 + Min(level / 15, 2));
  }
}
