/**
 The advancement tracker. One call walks the registry once, in whatever order its hash map yields, and
 grants what is ready at that moment; the goal is the least set that the registry's rules close.
*/
module Advancement {
  import opened Common

  type Id = string

  datatype Criterion =
    | InventoryChanged(item: nat) | ItemUsed(item: nat) | EntityKilled(entity: int) | LocationChanged(dimension: string)
    | EnchantedItem | TamedAnimal | FishCaught | BredAnimals | PlacedBlock(block: nat) | BrewedPotion
    | ConstructedBeacon | ConsumeItem(item: nat) | VillagerTrade | CuredZombieVillager | ShotCrossbow | RaidWin | UhOh

  datatype Advancement = Advancement(id: Id, parent: Option<Id>, criteria: seq<Criterion>)

  type Registry = map<Id, Advancement>

  /** `order` lists every advancement of the registry once, each under its own id. */
  ghost predicate Walks(order: seq<Advancement>, reg: Registry) {
    && (forall i, j :: 0 <= i < j < |order| ==> order[i].id != order[j].id)
    && (forall i :: 0 <= i < |order| ==> order[i].id in reg && reg[order[i].id] == order[i])
    && (forall id :: id in reg ==> exists i :: 0 <= i < |order| && order[i].id == id)
  }

  /** May be granted now. An advancement without criteria ignores its parent. */
  predicate Grantable(a: Advancement, met: set<Criterion>, done: set<Id>) {
    || a.criteria == []
    || ((forall i :: 0 <= i < |a.criteria| ==> a.criteria[i] in met) && (a.parent.Some? ==> a.parent.value in done))
  }

  /** One walk: the completed set after it, and the ids granted on the way. */
  function Pass(order: seq<Advancement>, met: set<Criterion>, done: set<Id>): (set<Id>, seq<Id>) {
    if order == [] then (done, [])
    else
      var before := Pass(order[..|order| - 1], met, done);
      var a := order[|order| - 1];
      if a.id !in before.0 && Grantable(a, met, before.0) then (before.0 + {a.id}, before.1 + [a.id]) else before
  }

  // ----- what one walk does -----

  /** The ids reported are exactly the new ones, each once. */
  lemma {:induction false} PassReports(order: seq<Advancement>, met: set<Criterion>, done: set<Id>)
    ensures
      var r := Pass(order, met, done);
      && done <= r.0
      && (forall id :: id in r.1 <==> id in r.0 && id !in done)
      && (forall i, j :: 0 <= i < j < |r.1| ==> r.1[i] != r.1[j])
  {
    if order != [] {
      PassReports(order[..|order| - 1], met, done);
    }
  }

  /** A set the rules cannot extend. */
  ghost predicate Closed(reg: Registry, met: set<Criterion>, s: set<Id>) {
    forall id :: id in reg && Grantable(reg[id], met, s) ==> id in s
  }

  lemma GrantableMonotone(a: Advancement, met: set<Criterion>, more: set<Criterion>, done: set<Id>, wider: set<Id>)
    requires Grantable(a, met, done) && met <= more && done <= wider
    ensures Grantable(a, more, wider)
  {
  }

  /** Nothing is granted beyond what every closed set contains. */
  lemma {:induction false} PassSound(reg: Registry, order: seq<Advancement>, met: set<Criterion>, done: set<Id>,
                                     s: set<Id>)
    requires forall i :: 0 <= i < |order| ==> order[i].id in reg && reg[order[i].id] == order[i]
    requires Closed(reg, met, s) && done <= s
    ensures Pass(order, met, done).0 <= s
  {
    if order != [] {
      var n := |order| - 1;
      PassSound(reg, order[..n], met, done, s);
      var before := Pass(order[..n], met, done).0;
      if Grantable(order[n], met, before) {
        GrantableMonotone(order[n], met, met, before, s);
      }
    }
  }

  /** Everything that could be granted before the walk is granted after it. */
  lemma {:induction false} PassProgress(order: seq<Advancement>, met: set<Criterion>, done: set<Id>, i: nat)
    requires i < |order| && Grantable(order[i], met, done)
    ensures order[i].id in Pass(order, met, done).0
  {
    var n := |order| - 1;
    if i < n {
      PassProgress(order[..n], met, done, i);
    } else {
      PassReports(order[..n], met, done);
      GrantableMonotone(order[n], met, met, done, Pass(order[..n], met, done).0);
    }
  }

  /** An advancement already completed when the walk comes to it, or granted there, counts for those after it. */
  lemma {:induction false} PassDecides(order: seq<Advancement>, met: set<Criterion>, done: set<Id>, j: nat)
    requires j < |order| && Grantable(order[j], met, Pass(order[..j], met, done).0)
    ensures order[j].id in Pass(order, met, done).0
    decreases |order|
  {
    var n := |order| - 1;
    if j < n {
      assert order[..n][..j] == order[..j];
      PassDecides(order[..n], met, done, j);
    }
  }

  /** What the walk has granted up to some point stays granted. */
  lemma {:induction false} PassGrows(order: seq<Advancement>, met: set<Criterion>, done: set<Id>, j: nat)
    requires j <= |order|
    ensures Pass(order[..j], met, done).0 <= Pass(order, met, done).0
    decreases |order|
  {
    var n := |order| - 1;
    if j < |order| {
      assert order[..n][..j] == order[..j];
      PassGrows(order[..n], met, done, j);
    } else {
      assert order[..j] == order;
    }
  }

  /** A child that comes after its granted parent is granted in the same walk. */
  lemma ChildAfterParent(order: seq<Advancement>, met: set<Criterion>, done: set<Id>, i: nat, j: nat)
    requires i < j < |order| && order[j].parent == Some(order[i].id)
    requires Grantable(order[i], met, Pass(order[..i], met, done).0)
    requires forall k :: 0 <= k < |order[j].criteria| ==> order[j].criteria[k] in met
    ensures order[j].id in Pass(order, met, done).0
  {
    assert order[..j][..i] == order[..i];
    PassDecides(order[..j], met, done, i);
    PassDecides(order, met, done, j);
  }

  lemma {:induction false} PassListed(order: seq<Advancement>, met: set<Criterion>, done: set<Id>, id: Id)
    requires id in Pass(order, met, done).0 && id !in done
    ensures exists i :: 0 <= i < |order| && order[i].id == id && Grantable(order[i], met, Pass(order[..i], met, done).0)
    decreases |order|
  {
    var n := |order| - 1;
    if id in Pass(order[..n], met, done).0 {
      PassListed(order[..n], met, done, id);
      var i :| 0 <= i < n && order[..n][i].id == id &&
        Grantable(order[..n][i], met, Pass(order[..n][..i], met, done).0);
      assert order[..n][..i] == order[..i] && order[i] == order[..n][i];
    } else {
      assert order[n].id == id;
    }
  }

  /** Of a parent and its child, both ready but for each other and both still open, the walk grants the child
      exactly when it meets the parent first. */
  lemma OrderDecides(reg: Registry, order: seq<Advancement>, met: set<Criterion>, done: set<Id>, i: nat, j: nat)
    requires Walks(order, reg) && i < |order| && j < |order| && i != j
    requires order[j].parent == Some(order[i].id) && order[i].id !in done && order[j].id !in done
    requires Grantable(order[i], met, done) && order[j].criteria != []
    requires forall k :: 0 <= k < |order[j].criteria| ==> order[j].criteria[k] in met
    ensures order[i].id in Pass(order, met, done).0
    ensures order[j].id in Pass(order, met, done).0 <==> i < j
  {
    PassProgress(order, met, done, i);
    PassReports(order[..i], met, done);
    GrantableMonotone(order[i], met, met, done, Pass(order[..i], met, done).0);
    if i < j {
      ChildAfterParent(order, met, done, i, j);
    } else if order[j].id in Pass(order, met, done).0 {
      PassListed(order, met, done, order[j].id);
      var k :| 0 <= k < |order| && order[k].id == order[j].id &&
        Grantable(order[k], met, Pass(order[..k], met, done).0);
      assert k == j;
      PassListed(order[..j], met, done, order[i].id);
    }
  }

  /** No child comes before its parent. */
  ghost predicate ParentsFirst(order: seq<Advancement>) {
    forall i, j :: 0 <= i < |order| && 0 <= j < |order| && order[j].parent == Some(order[i].id) ==> i < j
  }

  /** One walk in such an order is enough: it earns the least closed set. */
  lemma ParentsFirstCloses(reg: Registry, order: seq<Advancement>, met: set<Criterion>, done: set<Id>)
    requires Walks(order, reg) && ParentsFirst(order)
    ensures
      var after := Pass(order, met, done).0;
      && Closed(reg, met, after) && done <= after
      && forall s :: Closed(reg, met, s) && done <= s ==> after <= s
  {
    var after := Pass(order, met, done).0;
    PassReports(order, met, done);
    forall s | Closed(reg, met, s) && done <= s
      ensures after <= s
    {
      PassSound(reg, order, met, done, s);
    }
    forall id | id in reg && Grantable(reg[id], met, after)
      ensures id in after
    {
      var j :| 0 <= j < |order| && order[j].id == id;
      ReadyInTime(order, met, done, j);
      PassDecides(order, met, done, j);
    }
  }

  lemma ReadyInTime(order: seq<Advancement>, met: set<Criterion>, done: set<Id>, j: nat)
    requires j < |order| && ParentsFirst(order) && Grantable(order[j], met, Pass(order, met, done).0)
    ensures Grantable(order[j], met, Pass(order[..j], met, done).0)
  {
    var before := Pass(order[..j], met, done).0;
    PassReports(order[..j], met, done);
    if order[j].criteria != [] && order[j].parent.Some? && order[j].parent.value !in done {
      PassListed(order, met, done, order[j].parent.value);
      var i :| 0 <= i < |order| && order[i].id == order[j].parent.value &&
        Grantable(order[i], met, Pass(order[..i], met, done).0);
      assert order[j].parent == Some(order[i].id);
      assert i < j;
      assert order[..j][..i] == order[..i];
      PassDecides(order[..j], met, done, i);
    }
  }

  ghost predicate ParentClosed(reg: Registry, done: set<Id>) {
    forall id :: id in done && id in reg && reg[id].parent.Some? ==> reg[id].parent.value in done
  }

  lemma {:induction false} PassParents(reg: Registry, order: seq<Advancement>, met: set<Criterion>, done: set<Id>)
    requires forall i :: 0 <= i < |order| ==> order[i].id in reg && reg[order[i].id] == order[i]
    requires ParentClosed(reg, done)
    ensures
      var after := Pass(order, met, done).0;
      forall id :: id in after && id in reg && reg[id].criteria != [] && reg[id].parent.Some? && id !in done ==>
        reg[id].parent.value in after
  {
    if order != [] {
      PassParents(reg, order[..|order| - 1], met, done);
    }
  }

  /** The registry's keys are the ids of its entries. */
  ghost predicate Keyed(reg: Registry) {
    forall id :: id in reg ==> reg[id].id == id
  }

  /** An advancement without criteria below a parent that is neither earned nor ready. */
  ghost predicate Hangs(reg: Registry, met: set<Criterion>, done: set<Id>, id: Id) {
    && id in reg && reg[id].criteria == [] && reg[id].parent.Some?
    && var parent := reg[id].parent.value;
       parent !in done && (parent in reg ==> !Grantable(reg[parent], met, done))
  }

  ghost predicate KeepsParents(reg: Registry, met: set<Criterion>, done: set<Id>, order: seq<Advancement>) {
    ParentClosed(reg, Pass(order, met, done).0)
  }

  lemma NothingHangsKeeps(reg: Registry, met: set<Criterion>, done: set<Id>, order: seq<Advancement>)
    requires Walks(order, reg) && ParentClosed(reg, done)
    requires forall id :: !Hangs(reg, met, done, id)
    ensures KeepsParents(reg, met, done, order)
  {
    var after := Pass(order, met, done).0;
    PassParents(reg, order, met, done);
    PassReports(order, met, done);
    forall id | id in after && id in reg && reg[id].parent.Some?
      ensures reg[id].parent.value in after
    {
      assert !Hangs(reg, met, done, id);
      var parent := reg[id].parent.value;
      if parent in reg && Grantable(reg[parent], met, done) {
        var i :| 0 <= i < |order| && order[i].id == parent;
        PassProgress(order, met, done, i);
      }
    }
  }

  /** What is looked at only once, first, and is not ready then, is not granted. */
  lemma {:induction false} PassOmits(order: seq<Advancement>, met: set<Criterion>, done: set<Id>, id: Id)
    requires id !in done
    requires forall i :: 0 <= i < |order| && order[i].id == id ==> i == 0 && !Grantable(order[0], met, done)
    ensures id !in Pass(order, met, done).0
  {
    if order != [] {
      PassOmits(order[..|order| - 1], met, done, id);
    }
  }

  /** Some order of the entries of `ids`. */
  lemma OrderOf(reg: Registry, ids: set<Id>) returns (order: seq<Advancement>)
    requires Keyed(reg) && ids <= reg.Keys
    ensures forall i :: 0 <= i < |order| ==> order[i].id in ids && reg[order[i].id] == order[i]
    ensures forall i, j :: 0 <= i < j < |order| ==> order[i].id != order[j].id
    ensures forall id :: id in ids ==> exists i :: 0 <= i < |order| && order[i].id == id
    decreases |ids|
  {
    order := [];
    if ids != {} {
      var id :| id in ids;
      var others := OrderOf(reg, ids - {id});
      order := others + [reg[id]];
      forall e | e in ids
        ensures exists i :: 0 <= i < |order| && order[i].id == e
      {
        if e == id {
          assert order[|others|].id == e;
        } else {
          assert e in ids - {id};
          var i :| 0 <= i < |others| && others[i].id == e;
          assert order[i].id == e;
        }
      }
    }
  }

  /** Some order of the whole registry that begins with a given id, if it is registered at all. */
  lemma OrderFrom(reg: Registry, first: Id) returns (order: seq<Advancement>)
    requires Keyed(reg)
    ensures Walks(order, reg)
    ensures forall i :: 0 <= i < |order| && order[i].id == first ==> i == 0
  {
    if first in reg {
      var others := OrderOf(reg, reg.Keys - {first});
      order := [reg[first]] + others;
      forall id | id in reg
        ensures exists i :: 0 <= i < |order| && order[i].id == id
      {
        if id == first {
          assert order[0].id == id;
        } else {
          assert id in reg.Keys - {first};
          var i :| 0 <= i < |others| && others[i].id == id;
          assert order[1 + i].id == id;
        }
      }
    } else {
      order := OrderOf(reg, reg.Keys);
    }
  }

  /** A walk that looks at the parent first grants the child alone. */
  lemma HangingBreaks(reg: Registry, met: set<Criterion>, done: set<Id>, id: Id) returns (order: seq<Advancement>)
    requires Keyed(reg) && Hangs(reg, met, done, id)
    ensures Walks(order, reg) && !KeepsParents(reg, met, done, order)
  {
    var parent := reg[id].parent.value;
    order := OrderFrom(reg, parent);
    PassOmits(order, met, done, parent);
    var i :| 0 <= i < |order| && order[i].id == id;
    PassProgress(order, met, done, i);
  }

  /** A walk keeps the completed set closed under parents, whatever its order, exactly when the parent of each
      advancement without criteria is earned or ready beforehand. */
  lemma PassKeepsParentClosed(reg: Registry, met: set<Criterion>, done: set<Id>)
    requires Keyed(reg) && ParentClosed(reg, done)
    ensures (forall order :: Walks(order, reg) ==> KeepsParents(reg, met, done, order)) <==>
      forall id :: id in reg && reg[id].criteria == [] && reg[id].parent.Some? ==>
        var parent := reg[id].parent.value;
        parent in done || (parent in reg && Grantable(reg[parent], met, done))
  {
    if forall id :: !Hangs(reg, met, done, id) {
      forall id | id in reg && reg[id].criteria == [] && reg[id].parent.Some?
        ensures
          var parent := reg[id].parent.value;
          parent in done || (parent in reg && Grantable(reg[parent], met, done))
      {
        assert !Hangs(reg, met, done, id);
      }
      forall order | Walks(order, reg)
        ensures KeepsParents(reg, met, done, order)
      {
        NothingHangsKeeps(reg, met, done, order);
      }
    } else {
      var id :| Hangs(reg, met, done, id);
      var order := HangingBreaks(reg, met, done, id);
    }
  }

  // ----- repeated walks -----

  function Passes(orders: seq<seq<Advancement>>, met: set<Criterion>, done: set<Id>): set<Id> {
    if orders == [] then done else Pass(orders[|orders| - 1], met, Passes(orders[..|orders| - 1], met, done)).0
  }

  function Ready(reg: Registry, met: set<Criterion>, done: set<Id>): set<Id> {
    set id | id in reg && Grantable(reg[id], met, done)
  }

  /** What is earned within `k` generations. */
  function Level(reg: Registry, met: set<Criterion>, done: set<Id>, k: nat): set<Id> {
    if k == 0 then done
    else
      var before := Level(reg, met, done, k - 1);
      before + Ready(reg, met, before)
  }

  /** A walk from a wider set grants what the narrower one makes ready. */
  lemma PassCatchesUp(reg: Registry, order: seq<Advancement>, met: set<Criterion>, low: set<Id>, high: set<Id>, id: Id)
    requires Walks(order, reg) && low <= high
    requires id in reg && Grantable(reg[id], met, low)
    ensures id in Pass(order, met, high).0
  {
    GrantableMonotone(reg[id], met, met, low, high);
    var i :| 0 <= i < |order| && order[i].id == id;
    PassProgress(order, met, high, i);
  }

  lemma PassReachesNext(reg: Registry, order: seq<Advancement>, met: set<Criterion>, low: set<Id>, high: set<Id>)
    requires Walks(order, reg) && low <= high
    ensures low + Ready(reg, met, low) <= Pass(order, met, high).0
  {
    PassReports(order, met, high);
    forall id | id in Ready(reg, met, low)
      ensures id in Pass(order, met, high).0
    {
      PassCatchesUp(reg, order, met, low, high, id);
    }
  }

  lemma {:induction false} PassesReachLevel(reg: Registry, orders: seq<seq<Advancement>>, met: set<Criterion>,
                                            done: set<Id>)
    requires forall i :: 0 <= i < |orders| ==> Walks(orders[i], reg)
    ensures Level(reg, met, done, |orders|) <= Passes(orders, met, done)
    decreases |orders|
  {
    if orders != [] {
      var n := |orders| - 1;
      PassesReachLevel(reg, orders[..n], met, done);
      PassReachesNext(reg, orders[n], met, Level(reg, met, done, n), Passes(orders[..n], met, done));
    }
  }

  lemma {:induction false} PassesSound(reg: Registry, orders: seq<seq<Advancement>>, met: set<Criterion>,
                                       done: set<Id>, s: set<Id>)
    requires forall i :: 0 <= i < |orders| ==> Walks(orders[i], reg)
    requires Closed(reg, met, s) && done <= s
    ensures Passes(orders, met, done) <= s
    decreases |orders|
  {
    if orders != [] {
      var n := |orders| - 1;
      PassesSound(reg, orders[..n], met, done, s);
      PassSound(reg, orders[n], met, Passes(orders[..n], met, done), s);
    }
  }

  /** The parents form a forest of at most `depth` links. */
  ghost predicate Forest(reg: Registry, rank: map<Id, nat>, depth: nat) {
    && (forall id :: id in reg ==> id in rank && rank[id] <= depth)
    && (forall id :: id in reg && reg[id].parent.Some? && reg[id].parent.value in reg ==>
          rank[reg[id].parent.value] < rank[id])
  }

  lemma {:induction false} LevelGrows(reg: Registry, met: set<Criterion>, done: set<Id>, j: nat, k: nat)
    requires j <= k
    ensures Level(reg, met, done, j) <= Level(reg, met, done, k)
    decreases k
  {
    if j < k {
      LevelGrows(reg, met, done, j, k - 1);
    }
  }

  /** Whatever is earned at all is earned as soon as its ancestors can be. */
  lemma {:induction false} EarnedByRank(reg: Registry, rank: map<Id, nat>, depth: nat, met: set<Criterion>,
                                        done: set<Id>, k: nat, id: Id)
    requires Forest(reg, rank, depth) && id in Level(reg, met, done, k) && id !in done
    ensures id in reg && id in Level(reg, met, done, rank[id] + 1)
    decreases k
  {
    var before := Level(reg, met, done, k - 1);
    if id in before {
      EarnedByRank(reg, rank, depth, met, done, k - 1, id);
    } else {
      var r := rank[id];
      var wide := Level(reg, met, done, r);
      LevelGrows(reg, met, done, 0, r);
      if reg[id].criteria != [] && reg[id].parent.Some? && reg[id].parent.value !in done {
        var p := reg[id].parent.value;
        EarnedByRank(reg, rank, depth, met, done, k - 1, p);
        LevelGrows(reg, met, done, rank[p] + 1, r);
      }
      assert Grantable(reg[id], met, wide);
    }
  }

  lemma DepthCloses(reg: Registry, rank: map<Id, nat>, depth: nat, met: set<Criterion>, done: set<Id>)
    requires Forest(reg, rank, depth)
    ensures Closed(reg, met, Level(reg, met, done, depth + 1))
  {
    var top := Level(reg, met, done, depth + 1);
    forall id | id in reg && Grantable(reg[id], met, top)
      ensures id in top
    {
      if id in done {
        LevelGrows(reg, met, done, 0, depth + 1);
      } else {
        assert id in Level(reg, met, done, depth + 2);
        EarnedByRank(reg, rank, depth, met, done, depth + 2, id);
        LevelGrows(reg, met, done, rank[id] + 1, depth + 1);
      }
    }
  }

  /** After one walk more than the tree is deep, in whatever orders, the completed set is the least closed set
      above what was completed before: it no longer depends on the orders. */
  lemma PassesReachLeastClosed(reg: Registry, rank: map<Id, nat>, depth: nat, orders: seq<seq<Advancement>>,
                               met: set<Criterion>, done: set<Id>)
    requires Forest(reg, rank, depth) && |orders| > depth
    requires forall i :: 0 <= i < |orders| ==> Walks(orders[i], reg)
    ensures
      var earned := Passes(orders, met, done);
      && Closed(reg, met, earned) && done <= earned
      && (forall s :: Closed(reg, met, s) && done <= s ==> earned <= s)
      && earned == Level(reg, met, done, depth + 1)
  {
    var top := Level(reg, met, done, depth + 1);
    DepthCloses(reg, rank, depth, met, done);
    LevelGrows(reg, met, done, 0, depth + 1);
    LevelGrows(reg, met, done, depth + 1, |orders|);
    PassesReachLevel(reg, orders, met, done);
    PassesSound(reg, orders, met, done, top);
    forall s | Closed(reg, met, s) && done <= s
      ensures Passes(orders, met, done) <= s
    {
      PassesSound(reg, orders, met, done, s);
    }
  }

  // ----- the tracker -----

  /** One event: a criterion met, and the order in which the registry was walked for it. */
  datatype Event = Event(criterion: Criterion, order: seq<Advancement>)

  datatype Progress = Progress(met: set<Criterion>, done: set<Id>)

  function Checked(p: Progress, e: Event): Progress {
    Progress(p.met + {e.criterion}, Pass(e.order, p.met + {e.criterion}, p.done).0)
  }

  function Run(p: Progress, events: seq<Event>): Progress {
    if events == [] then p else Checked(Run(p, events[..|events| - 1]), events[|events| - 1])
  }

  ghost predicate AllWalk(events: seq<Event>, reg: Registry) {
    forall i :: 0 <= i < |events| ==> Walks(events[i].order, reg)
  }

  /** Over any run of events, only what the final criteria justify is ever granted. */
  lemma {:induction false} RunSound(reg: Registry, p: Progress, events: seq<Event>, s: set<Id>)
    requires AllWalk(events, reg)
    requires Closed(reg, Run(p, events).met, s) && p.done <= s
    ensures Run(p, events).done <= s
    decreases |events|
  {
    if events != [] {
      var n := |events| - 1;
      var before, after := Run(p, events[..n]), Run(p, events);
      forall id | id in reg && Grantable(reg[id], before.met, s)
        ensures id in s
      {
        GrantableMonotone(reg[id], before.met, after.met, s, s);
      }
      RunSound(reg, p, events[..n], s);
      PassSound(reg, events[n].order, after.met, before.done, s);
    }
  }

  /** Walks for one criterion, repeated, are what the fixed point is about. */
  lemma {:induction false} RunRepeats(p: Progress, events: seq<Event>, criterion: Criterion,
                                      orders: seq<seq<Advancement>>)
    requires |orders| == |events|
    requires forall i :: 0 <= i < |events| ==> events[i] == Event(criterion, orders[i])
    ensures Run(p, events).done == Passes(orders, p.met + {criterion}, p.done)
    ensures events != [] ==> Run(p, events).met == p.met + {criterion}
    decreases |events|
  {
    if events != [] {
      var n := |events| - 1;
      RunRepeats(p, events[..n], criterion, orders[..n]);
      var before := Run(p, events[..n]);
      assert before.met + {criterion} == p.met + {criterion};
    }
  }

  /** Checking one criterion again and again, once more than the tree is deep, earns the least closed set. */
  lemma RepeatedChecksReachLeastClosed(reg: Registry, rank: map<Id, nat>, depth: nat, p: Progress, events: seq<Event>,
                                       criterion: Criterion)
    requires Forest(reg, rank, depth) && |events| > depth
    requires AllWalk(events, reg) && forall i :: 0 <= i < |events| ==> events[i].criterion == criterion
    ensures
      var after := Run(p, events);
      && after.met == p.met + {criterion} && Closed(reg, after.met, after.done) && p.done <= after.done
      && forall s :: Closed(reg, after.met, s) && p.done <= s ==> after.done <= s
  {
    var orders := seq(|events|, i requires 0 <= i < |events| => events[i].order);
    RunRepeats(p, events, criterion, orders);
    PassesReachLeastClosed(reg, rank, depth, orders, p.met + {criterion}, p.done);
  }

  /** What stands without criteria stands on nothing that has any. */
  ghost predicate Grounded(reg: Registry) {
    forall id :: id in reg && reg[id].criteria == [] && reg[id].parent.Some? ==>
      reg[id].parent.value in reg && reg[reg[id].parent.value].criteria == []
  }

  lemma {:induction false} GroundedRuns(reg: Registry, p: Progress, events: seq<Event>)
    requires Grounded(reg) && ParentClosed(reg, p.done) && AllWalk(events, reg)
    ensures ParentClosed(reg, Run(p, events).done)
    decreases |events|
  {
    if events != [] {
      var n := |events| - 1;
      var before, met := Run(p, events[..n]), Run(p, events[..n]).met + {events[n].criterion};
      GroundedRuns(reg, p, events[..n]);
      forall id
        ensures !Hangs(reg, met, before.done, id)
      {
      }
      NothingHangsKeeps(reg, met, before.done, events[n].order);
    }
  }

  ghost predicate RunKeepsParents(reg: Registry, p: Progress, events: seq<Event>) {
    ParentClosed(reg, Run(p, events).done)
  }

  /** Without grants the completed set stays closed under parents, over all runs from all closed sets, exactly
      when the registry is grounded. */
  lemma RunsKeepParentClosed(reg: Registry)
    requires Keyed(reg)
    ensures
      (forall p: Progress, events: seq<Event> ::
        ParentClosed(reg, p.done) && AllWalk(events, reg) ==> RunKeepsParents(reg, p, events)) <==>
      Grounded(reg)
  {
    if Grounded(reg) {
      forall p: Progress, events: seq<Event> | ParentClosed(reg, p.done) && AllWalk(events, reg)
        ensures RunKeepsParents(reg, p, events)
      {
        GroundedRuns(reg, p, events);
      }
    } else {
      var id :| id in reg && reg[id].criteria == [] && reg[id].parent.Some? &&
        !(reg[id].parent.value in reg && reg[reg[id].parent.value].criteria == []);
      UngroundedBreaks(reg, id);
    }
  }

  /** One event of a new player suffices: any criterion the parent does not start with. */
  lemma UngroundedBreaks(reg: Registry, id: Id)
    requires Keyed(reg) && id in reg && reg[id].criteria == [] && reg[id].parent.Some?
    requires reg[id].parent.value !in reg || reg[reg[id].parent.value].criteria != []
    ensures
      exists p: Progress, events: seq<Event> ::
        ParentClosed(reg, p.done) && AllWalk(events, reg) && !RunKeepsParents(reg, p, events)
  {
    var parent := reg[id].parent.value;
    var criterion := if parent in reg && reg[parent].criteria[0] == UhOh then RaidWin else UhOh;
    var p := Progress({}, {});
    if parent in reg {
      assert reg[parent].criteria[0] !in {criterion};
    }
    assert Hangs(reg, {criterion}, {}, id);
    var order := HangingBreaks(reg, {criterion}, {}, id);
    var events := [Event(criterion, order)];
    assert events[..0] == [];
    assert p.met + {criterion} == {criterion};
    assert Run(p, events).done == Pass(order, {criterion}, {}).0;
    assert ParentClosed(reg, p.done) && AllWalk(events, reg) && !RunKeepsParents(reg, p, events);
  }

  // ----- the registry of the server -----

  const ROOT: Advancement := Advancement("story/root", None, [])

  function Task(id: Id, parent: Id, criterion: Criterion): Advancement {
    Advancement(id, Some(parent), [criterion])
  }

  /** Every other entry, in the order of insertion, ids without their common prefix; one id is inserted twice. */
  const TASKS: seq<Advancement> := [
    Task("story/mine_stone", "story/root", InventoryChanged(1)),
    Task("story/upgrade_tools", "story/mine_stone", InventoryChanged(774)),
    Task("story/smelt_iron", "story/upgrade_tools", InventoryChanged(996)),
    Task("story/obtain_armor", "story/smelt_iron", InventoryChanged(787)),
    Task("story/lava_bucket", "story/smelt_iron", InventoryChanged(87)),
    Task("story/iron_tools", "story/smelt_iron", InventoryChanged(775)),
    Task("story/deflect_arrow", "story/obtain_armor", ItemUsed(845)),
    Task("story/form_obsidian", "story/lava_bucket", InventoryChanged(49)),
    Task("story/mine_diamond", "story/iron_tools", InventoryChanged(57)),
    Task("story/enter_nether", "story/form_obsidian", LocationChanged("the_nether")),
    Task("story/enchant_item", "story/mine_diamond", EnchantedItem),
    Task("story/cure_zombie_villager", "story/enter_nether", ItemUsed(1033)),
    Task("story/enter_end", "story/enter_nether", LocationChanged("the_end")),
    Task("nether/root", "story/enter_nether", LocationChanged("the_nether")),
    Task("nether/obtain_blaze_rod", "nether/root", InventoryChanged(903)),
    Task("nether/brew_potion", "nether/obtain_blaze_rod", InventoryChanged(1004)),
    Task("end/root", "story/enter_end", LocationChanged("the_end")),
    Task("end/kill_dragon", "end/root", EntityKilled(53)),
    Task("husbandry/root", "story/root", InventoryChanged(829)),
    Task("husbandry/tame_animal", "husbandry/root", TamedAnimal),
    Task("husbandry/uh_oh", "husbandry/root", UhOh),
    Task("husbandry/fish_fish", "husbandry/root", FishCaught),
    Task("adventure/root", "story/root", EntityKilled(36)),
    Task("adventure/kill_a_mob", "adventure/root", EntityKilled(0)),
    Task("adventure/shoot_arrow", "adventure/root", ItemUsed(773)),
    Task("adventure/sniper_duel", "adventure/shoot_arrow", EntityKilled(37)),
    Task("adventure/ol_betsy", "adventure/shoot_arrow", ShotCrossbow),
    Task("adventure/hero_of_the_village", "adventure/root", RaidWin),
    Task("nether/brew_potion", "nether/obtain_blaze_rod", BrewedPotion),
    Task("nether/create_beacon", "nether/obtain_blaze_rod", ConstructedBeacon),
    Task("husbandry/trade", "husbandry/root", VillagerTrade),
    Task("husbandry/cure_zombie_villager", "husbandry/root", CuredZombieVillager),
    Task("husbandry/balanced_diet", "husbandry/root", ConsumeItem(0))
  ]

  function Built(tasks: seq<Advancement>): Registry {
    if tasks == [] then map[ROOT.id := ROOT]
    else Built(tasks[..|tasks| - 1])[tasks[|tasks| - 1].id := tasks[|tasks| - 1]]
  }

  lemma {:induction false} BuiltGrounded(tasks: seq<Advancement>)
    requires forall i :: 0 <= i < |tasks| ==> tasks[i].criteria != []
    ensures Keyed(Built(tasks))
    ensures forall id :: id in Built(tasks) && Built(tasks)[id].criteria == [] ==> Built(tasks)[id] == ROOT
    decreases |tasks|
  {
    if tasks != [] {
      BuiltGrounded(tasks[..|tasks| - 1]);
    }
  }

  /** With the entries the server ships, the completed set is closed under parents in every run without grants. */
  lemma ShippedRegistryKeepsParents(p: Progress, events: seq<Event>)
    requires ParentClosed(Built(TASKS), p.done) && AllWalk(events, Built(TASKS))
    ensures ParentClosed(Built(TASKS), Run(p, events).done)
  {
    hide Built;
    BuiltGrounded(TASKS);
    GroundedRuns(Built(TASKS), p, events);
  }

  // ----- how deep the shipped tree is -----

  /** How many parents an id of the server has above it. */
  function Generation(id: Id): nat {
    match id
    case "story/root" => 0
    case "story/mine_stone" | "husbandry/root" | "adventure/root" => 1
    case "story/upgrade_tools" | "husbandry/tame_animal" | "husbandry/uh_oh" | "husbandry/fish_fish" |
       "adventure/kill_a_mob" | "adventure/shoot_arrow" | "adventure/hero_of_the_village" | "husbandry/trade" |
       "husbandry/cure_zombie_villager" | "husbandry/balanced_diet" => 2
    case "story/smelt_iron" | "adventure/sniper_duel" | "adventure/ol_betsy" => 3
    case "story/obtain_armor" | "story/lava_bucket" | "story/iron_tools" => 4
    case "story/deflect_arrow" | "story/form_obsidian" | "story/mine_diamond" => 5
    case "story/enter_nether" | "story/enchant_item" => 6
    case "story/cure_zombie_villager" | "story/enter_end" | "nether/root" => 7
    case "nether/obtain_blaze_rod" | "end/root" => 8
    case "nether/brew_potion" | "end/kill_dragon" | "nether/create_beacon" => 9
    case _ => 0
  }

  lemma Generation0()
    ensures Generation("story/root") == 0
  {
  }

  lemma Generation1()
    ensures Generation("story/mine_stone") == 1
    ensures Generation("husbandry/root") == 1
    ensures Generation("adventure/root") == 1
  {
  }

  lemma Generation2()
    ensures Generation("story/upgrade_tools") == 2
    ensures Generation("husbandry/tame_animal") == 2
    ensures Generation("husbandry/uh_oh") == 2
    ensures Generation("husbandry/fish_fish") == 2
    ensures Generation("adventure/kill_a_mob") == 2
    ensures Generation("adventure/shoot_arrow") == 2
    ensures Generation("adventure/hero_of_the_village") == 2
    ensures Generation("husbandry/trade") == 2
    ensures Generation("husbandry/cure_zombie_villager") == 2
    ensures Generation("husbandry/balanced_diet") == 2
  {
  }

  lemma Generation3()
    ensures Generation("story/smelt_iron") == 3
    ensures Generation("adventure/sniper_duel") == 3
    ensures Generation("adventure/ol_betsy") == 3
  {
  }

  lemma Generation4()
    ensures Generation("story/obtain_armor") == 4
    ensures Generation("story/lava_bucket") == 4
    ensures Generation("story/iron_tools") == 4
  {
  }

  lemma Generation5()
    ensures Generation("story/deflect_arrow") == 5
    ensures Generation("story/form_obsidian") == 5
    ensures Generation("story/mine_diamond") == 5
  {
  }

  lemma Generation6()
    ensures Generation("story/enter_nether") == 6
    ensures Generation("story/enchant_item") == 6
  {
  }

  lemma Generation7()
    ensures Generation("story/cure_zombie_villager") == 7
    ensures Generation("story/enter_end") == 7
    ensures Generation("nether/root") == 7
  {
  }

  lemma Generation8()
    ensures Generation("nether/obtain_blaze_rod") == 8
    ensures Generation("end/root") == 8
  {
  }

  lemma Generation9()
    ensures Generation("nether/brew_potion") == 9
    ensures Generation("end/kill_dragon") == 9
    ensures Generation("nether/create_beacon") == 9
  {
  }

  ghost predicate Rises(task: Advancement) {
    task.parent.Some? && Generation(task.parent.value) < Generation(task.id) <= 9
  }

  lemma TasksRise()
    ensures forall i :: 0 <= i < |TASKS| ==> Rises(TASKS[i])
  {
    hide Generation;
    Generation0();
    Generation1();
    Generation2();
    Generation3();
    Generation4();
    Generation5();
    Generation6();
    Generation7();
    Generation8();
    Generation9();
  }

  lemma {:induction false} BuiltFrom(tasks: seq<Advancement>, id: Id)
    requires id in Built(tasks)
    ensures Built(tasks)[id].id == id
    ensures Built(tasks)[id] == ROOT || exists i :: 0 <= i < |tasks| && tasks[i] == Built(tasks)[id]
    decreases |tasks|
  {
    if tasks != [] {
      var n := |tasks| - 1;
      if id != tasks[n].id {
        BuiltFrom(tasks[..n], id);
        if Built(tasks[..n])[id] != ROOT {
          var i :| 0 <= i < n && tasks[..n][i] == Built(tasks[..n])[id];
          assert tasks[i] == Built(tasks)[id];
        }
      }
    }
  }

  /** The tree the server ships is nine generations deep. */
  lemma ShippedForest() returns (rank: map<Id, nat>)
    ensures Forest(Built(TASKS), rank, 9)
  {
    hide Generation, Built;
    var reg := Built(TASKS);
    rank := map id | id in reg :: Generation(id);
    Generation0();
    TasksRise();
    forall id | id in reg
      ensures Generation(id) <= 9
      ensures reg[id].parent.Some? ==> Generation(reg[id].parent.value) < Generation(id)
    {
      BuiltFrom(TASKS, id);
    }
  }

  /** With the entries the server ships, checking a criterion ten times, whatever the orders, earns the least closed
      set above what was earned before. */
  lemma TenChecksSuffice(p: Progress, events: seq<Event>, criterion: Criterion)
    requires |events| >= 10 && AllWalk(events, Built(TASKS))
    requires forall i :: 0 <= i < |events| ==> events[i].criterion == criterion
    ensures
      var after := Run(p, events);
      && after.met == p.met + {criterion} && Closed(Built(TASKS), after.met, after.done) && p.done <= after.done
      && forall s :: Closed(Built(TASKS), after.met, s) && p.done <= s ==> after.done <= s
  {
    hide Built;
    var rank := ShippedForest();
    RepeatedChecksReachLeastClosed(Built(TASKS), rank, 9, p, events, criterion);
  }

  // ----- the tracker object -----

  class AdvancementTracker {
    var completed: map<Uuid, set<Id>>
    var criteriaDone: map<Uuid, set<Criterion>>

    constructor ()
      ensures completed == map[] && criteriaDone == map[]
    {
      completed, criteriaDone := map[], map[];
    }

    /** A player nobody has seen has neither criteria nor advancements. */
    ghost function ProgressOf(uuid: Uuid): Progress
      reads this
    {
      Progress(if uuid in criteriaDone then criteriaDone[uuid] else {},
               if uuid in completed then completed[uuid] else {})
    }

    method CheckCriterion(uuid: Uuid, criterion: Criterion, ghost reg: Registry, order: seq<Advancement>)
      returns (newly: seq<Id>)
      requires Walks(order, reg)
      modifies this
      ensures ProgressOf(uuid) == Checked(old(ProgressOf(uuid)), Event(criterion, order))
      ensures newly == Pass(order, old(ProgressOf(uuid)).met + {criterion}, old(ProgressOf(uuid)).done).1
      ensures completed - {uuid} == old(completed) - {uuid} && criteriaDone - {uuid} == old(criteriaDone) - {uuid}
    {
      var met := (if uuid in criteriaDone then criteriaDone[uuid] else {}) + {criterion};
      criteriaDone := criteriaDone[uuid := met];
      var done := if uuid in completed then completed[uuid] else {};
      ghost var before := done;
      newly := [];
      for i := 0 to |order|
        invariant (done, newly) == Pass(order[..i], met, before)
      {
        assert order[..i + 1][..i] == order[..i];
        var a := order[i];
        if a.id in done {
          continue;
        }
        if a.criteria == [] {
          done := done + {a.id};
          newly := newly + [a.id];
        } else if forall j :: 0 <= j < |a.criteria| ==> a.criteria[j] in met {
          var parentOk := a.parent.Some? ==> a.parent.value in done;
          if parentOk {
            done := done + {a.id};
            newly := newly + [a.id];
          }
        }
      }
      assert order[..|order|] == order;
      completed := completed[uuid := done];
    }

    method Grant(uuid: Uuid, id: Id) returns (isNew: bool)
      modifies this`completed
      ensures isNew == (id !in old(ProgressOf(uuid)).done)
      ensures ProgressOf(uuid) == old(ProgressOf(uuid)).(done := old(ProgressOf(uuid)).done + {id})
      ensures completed - {uuid} == old(completed) - {uuid}
    {
      var done := if uuid in completed then completed[uuid] else {};
      isNew := id !in done;
      completed := completed[uuid := done + {id}];
    }
  }
}
