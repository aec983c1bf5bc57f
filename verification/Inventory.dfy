/** A player's inventory: giving, removing, wearing, and the bonuses of what is worn. */
module Inventory {
  import opened Arrays
  import opened Limits

  const MAX_INV_SIZE := 30

  /** The shield, weapon, head, torso, neck, hands, legs, shoes and back slots, in the order they are tried. */
  const BASIC_TYPES: seq<bv16> := [0x0008, 0x0010, 0x0020, 0x0040, 0x0400, 0x0100, 0x0080, 0x0200, 0x0800]

  /** The bits of all basic slots. */
  const BASIC_MASK: bv16 := 0x0ff8

  datatype Bonus = Bonus(armour: nat, aim: nat, power: nat, magic: nat, prayer: nat)

  /** A configured item; weight 0 means that it stacks. */
  datatype ItemConfig = ItemConfig(weight: nat, equipType: bv16, bonus: Bonus)

  /** The configured items by id. */
  type Catalog = map<nat, ItemConfig>

  datatype InvItem = InvItem(id: nat, stack: nat, worn: bool)

  type Inv = seq<InvItem>

  predicate Stackable(cat: Catalog, id: nat) {
    id in cat && cat[id].weight == 0
  }

  // ---- giving and removing as functions ----------------------------------------------------------------

  /** The first slot with the item, or the number of slots. */
  function SlotOf(inv: Inv, id: nat): (i: nat)
    ensures i <= |inv|
    ensures i < |inv| ==> inv[i].id == id
    ensures forall j :: 0 <= j < i ==> inv[j].id != id
  {
    if |inv| == 0 || inv[0].id == id then 0 else 1 + SlotOf(inv[1..], id)
  }

  /** A stack after count more were added, with the wrap of 32 bits and the cap of the client. */
  function Stacked(stack: nat, count: nat): nat {
    var sum := (stack + count) % UINT32;
    if sum > MAX_STACK_SIZE || sum < stack then MAX_STACK_SIZE else sum
  }

  function Copies(id: nat, n: nat): Inv {
    seq(n, _ => InvItem(id, 1, false))
  }

  /** The inventory after player_inv_give, and how many of the item fell to the ground. */
  function Given(cat: Catalog, inv: Inv, id: nat, count: nat): (Inv, nat) {
    if Stackable(cat, id) then
      var i := SlotOf(inv, id);
      if i < |inv| then (inv[i := inv[i].(stack := Stacked(inv[i].stack, count))], 0)
      else if |inv| >= MAX_INV_SIZE then (inv, count)
      else (inv + [InvItem(id, count, false)], 0)
    else
      var room := if |inv| < MAX_INV_SIZE then MAX_INV_SIZE - |inv| else 0;
      var n := if count < room then count else room;
      (inv + Copies(id, n), count - n)
  }

  function Without(inv: Inv, i: nat): (r: Inv)
    requires i < |inv|
    ensures |r| == |inv| - 1
  {
    inv[..i] + inv[i + 1..]
  }

  predicate FitsBytes(b: Bonus) {
    b.armour < 256 && b.aim < 256 && b.power < 256 && b.magic < 256 && b.prayer < 256
  }

  function AddBonus(a: Bonus, b: Bonus): (c: Bonus)
    ensures FitsBytes(c)
  {
    Bonus((a.armour + b.armour) % 256, (a.aim + b.aim) % 256, (a.power + b.power) % 256,
          (a.magic + b.magic) % 256, (a.prayer + b.prayer) % 256)
  }

  function BonusOf(cat: Catalog, it: InvItem): Bonus {
    if it.worn && it.id in cat then cat[it.id].bonus else Bonus(0, 0, 0, 0, 0)
  }

  /** The bonuses of what is worn: one plus the sum, in 8 bits. */
  function WornBonus(cat: Catalog, inv: Inv): (b: Bonus)
    ensures FitsBytes(b)
  {
    if |inv| == 0 then Bonus(1, 1, 1, 1, 1) else AddBonus(WornBonus(cat, inv[..|inv| - 1]), BonusOf(cat, inv[|inv| - 1]))
  }

  /** An inventory, and the bonus fields of its player. */
  datatype Kit = Kit(inv: Inv, bonus: Bonus)

  function Recalculated(cat: Catalog, kit: Kit): Kit {
    kit.(bonus := WornBonus(cat, kit.inv))
  }

  /** One item leaves its slot; if it was worn the bonuses are computed anew. */
  function TakenOut(cat: Catalog, kit: Kit, i: nat): (r: Kit)
    requires i < |kit.inv|
    ensures |r.inv| == |kit.inv| - 1
  {
    var less := kit.(inv := Without(kit.inv, i));
    if kit.inv[i].worn then Recalculated(cat, less) else less
  }

  /**
   * The removal loop of player_inv_remove_id from slot i on. After a removal it sets i to 0, and the loop header
   * then adds one: slot 0 is not looked at again.
   */
  function RemoveLoop(cat: Catalog, kit: Kit, id: nat, count: nat, i: nat): (r: Kit)
    requires i <= |kit.inv| + 1
    ensures |r.inv| <= |kit.inv|
    decreases |kit.inv|, |kit.inv| + 1 - i
  {
    if i >= |kit.inv| || count == 0 then kit
    else if kit.inv[i].id != id then RemoveLoop(cat, kit, id, count, i + 1)
    else RemoveLoop(cat, TakenOut(cat, kit, i), id, count - 1, 1)
  }

  /** player_inv_remove_id */
  function Removed(cat: Catalog, kit: Kit, id: nat, count: nat): (r: Kit)
    ensures |r.inv| <= |kit.inv|
  {
    var i := SlotOf(kit.inv, id);
    if Stackable(cat, id) && i < |kit.inv| then
      if count < kit.inv[i].stack then kit.(inv := kit.inv[i := kit.inv[i].(stack := kit.inv[i].stack - count)])
      else RemoveLoop(cat, kit, id, 1, 0)
    else RemoveLoop(cat, kit, id, count, 0)
  }

  /** How many slots hold the item. */
  function Matches(inv: Inv, id: nat): (n: nat)
    ensures n <= |inv|
  {
    if |inv| == 0 then 0 else Matches(inv[..|inv| - 1], id) + (if inv[|inv| - 1].id == id then 1 else 0)
  }

  /** player_inv_held_id */
  function HeldId(cat: Catalog, inv: Inv, id: nat, count: nat): bool {
    if Stackable(cat, id) && SlotOf(inv, id) < |inv| then inv[SlotOf(inv, id)].stack >= count
    else Matches(inv, id) >= count
  }

  // ---- wearing as a function --------------------------------------------------------------------------

  /** item_equip_clear: the two equipment types share a basic slot. */
  function EquipClear(a: bv16, b: bv16, from: nat): bool
    requires from <= |BASIC_TYPES|
    decreases |BASIC_TYPES| - from
  {
    from < |BASIC_TYPES|
    && ((a & BASIC_TYPES[from] != 0 && b & BASIC_TYPES[from] != 0) || EquipClear(a, b, from + 1))
  }

  /** The equipment type of an item; 0 if it cannot be worn. */
  function EquipType(cat: Catalog, id: nat): bv16 {
    if id in cat then cat[id].equipType else 0
  }

  /** A worn item that has to go when an item of the given type is put on. */
  predicate Clashes(cat: Catalog, it: InvItem, equipType: bv16) {
    it.worn && EquipType(cat, it.id) != 0 && EquipClear(equipType, EquipType(cat, it.id), 0)
  }

  /** What becomes of the item of slot i when the item of another slot is put on. */
  function Spared(cat: Catalog, inv: Inv, slot: nat, i: nat): InvItem
    requires slot < |inv| && i < |inv|
  {
    if i != slot && Clashes(cat, inv[i], EquipType(cat, inv[slot].id)) then inv[i].(worn := false) else inv[i]
  }

  lemma SparedKeepsId(cat: Catalog, inv: Inv, slot: nat, i: nat)
    requires slot < |inv| && i < |inv|
    ensures Spared(cat, inv, slot, i).id == inv[i].id
  {
  }

  /** The inventory after everything that clashes with the item of slot was taken off. */
  function Cleared(cat: Catalog, inv: Inv, slot: nat): Inv
    requires slot < |inv|
  {
    seq(|inv|, i requires 0 <= i < |inv| => Spared(cat, inv, slot, i))
  }

  /** player_wear; whether the script allows it is given. */
  function Worn(cat: Catalog, kit: Kit, slot: int, allowed: bool): Kit {
    if slot < 0 || slot >= |kit.inv| || EquipType(cat, kit.inv[slot].id) == 0 || !allowed then kit
    else
      var inv := Cleared(cat, kit.inv, slot);
      Recalculated(cat, kit.(inv := inv[slot := inv[slot].(worn := true)]))
  }

  /** player_unwear */
  function Unworn(cat: Catalog, kit: Kit, slot: int): Kit {
    if slot < 0 || slot >= |kit.inv| || EquipType(cat, kit.inv[slot].id) == 0 then kit
    else Recalculated(cat, kit.(inv := kit.inv[slot := kit.inv[slot].(worn := false)]))
  }

  // ---- in place ------------------------------------------------------------------------------------------

  class Player {
    const cat: Catalog
    const inventory: array<InvItem>
    var invCount: nat
    var bonus: Bonus

    ghost predicate Valid()
      reads this
    {
      inventory.Length == MAX_INV_SIZE && invCount <= MAX_INV_SIZE
    }

    ghost function Items(): (inv: Inv)
      requires Valid()
      reads this, inventory
      ensures |inv| == invCount
    {
      inventory[..invCount]
    }

    ghost function AsKit(): Kit
      requires Valid()
      reads this, inventory
    {
      Kit(Items(), bonus)
    }

    method Append(it: InvItem)
      requires Valid() && invCount < MAX_INV_SIZE
      modifies this`invCount, inventory
      ensures Valid() && Items() == old(Items()) + [it]
    {
      inventory[invCount] := it;
      invCount := invCount + 1;
    }

    /** player_inv_give: how many fell to the ground for lack of room. */
    method Give(id: nat, count: nat) returns (dropped: nat)
      requires Valid() && id in cat && count < UINT32
      modifies this`invCount, inventory
      ensures Valid() && (Items(), dropped) == Given(cat, old(Items()), id, count)
    {
      dropped := 0;
      ghost var was := Items();
      if cat[id].weight == 0 {
        for i := 0 to invCount
          invariant Items() == was && invCount == |was|
          invariant forall j :: 0 <= j < i ==> was[j].id != id
        {
          if inventory[i].id == id {
            assert was[i] == inventory[i] && SlotOf(was, id) == i;
            var newStack := (inventory[i].stack + count) % UINT32;
            if newStack > MAX_STACK_SIZE || newStack < inventory[i].stack {
              inventory[i] := inventory[i].(stack := MAX_STACK_SIZE);
            } else {
              inventory[i] := inventory[i].(stack := newStack);
            }
            assert Items() == was[i := was[i].(stack := Stacked(was[i].stack, count))];
            return;
          }
        }
        assert SlotOf(was, id) == |was|;
        if invCount >= MAX_INV_SIZE {
          dropped := count;
          return;
        }
        Append(InvItem(id, count, false));
        return;
      }
      for i := 0 to count
        invariant Valid() && |was| <= MAX_INV_SIZE
        invariant invCount == if |was| + i < MAX_INV_SIZE then |was| + i else MAX_INV_SIZE
        invariant Items() == was + Copies(id, invCount - |was|) && dropped == i - (invCount - |was|)
      {
        if invCount < MAX_INV_SIZE {
          Append(InvItem(id, 1, false));
        } else {
          dropped := dropped + 1;
        }
      }
    }

    /** player_recalculate_equip, as far as the bonuses are concerned. */
    method RecalculateEquip()
      requires Valid()
      modifies this`bonus
      ensures AsKit() == Recalculated(cat, old(AsKit()))
    {
      ghost var was := Items();
      bonus := Bonus(1, 1, 1, 1, 1);
      for i := 0 to invCount
        invariant bonus == WornBonus(cat, was[..i])
      {
        assert was[..i + 1][..i] == was[..i] && was[i] == inventory[i];
        bonus := AddBonus(bonus, BonusOf(cat, inventory[i]));
      }
      assert was[..invCount] == was;
    }

    /** The statements that close the gap of a removed item. */
    method TakeOut(i: nat)
      requires Valid() && i < invCount
      modifies this, inventory
      ensures Valid() && AsKit() == TakenOut(cat, old(AsKit()), i)
    {
      ghost var was := Items();
      var wasWorn := inventory[i].worn;
      assert wasWorn == was[i].worn;
      CloseGap(inventory, i, invCount);
      invCount := invCount - 1;
      assert Items() == Without(was, i);
      if wasWorn {
        RecalculateEquip();
      }
    }

    /** player_inv_remove_id */
    method RemoveId(id: nat, count: nat)
      requires Valid() && id in cat
      modifies this, inventory
      ensures Valid() && AsKit() == Removed(cat, old(AsKit()), id, count)
    {
      hide TakenOut;
      ghost var was := AsKit();
      var left := count;
      if cat[id].weight == 0 {
        for i := 0 to invCount
          invariant Items() == was.inv && invCount == |was.inv| && bonus == was.bonus
          invariant forall j :: 0 <= j < i ==> was.inv[j].id != id
        {
          if inventory[i].id == id {
            assert was.inv[i] == inventory[i] && SlotOf(was.inv, id) == i;
            if left < inventory[i].stack {
              inventory[i] := inventory[i].(stack := inventory[i].stack - left);
              assert Items() == was.inv[i := was.inv[i].(stack := was.inv[i].stack - count)];
              return;
            }
            left := 1;
            break;
          }
        }
      }
      RemoveEach(id, left);
    }

    /** The second loop of player_inv_remove_id. */
    method RemoveEach(id: nat, count: nat)
      requires Valid()
      modifies this, inventory
      ensures Valid() && AsKit() == RemoveLoop(cat, old(AsKit()), id, count, 0)
    {
      hide TakenOut;
      ghost var was := AsKit();
      var removed := 0;
      var i := 0;
      while i < invCount && removed < count
        invariant Valid() && 0 <= i <= invCount + 1 && removed <= count
        invariant RemoveLoop(cat, was, id, count, 0) == RemoveLoop(cat, AsKit(), id, count - removed, i)
        decreases invCount, invCount + 1 - i
      {
        assert Items()[i] == inventory[i];
        if inventory[i].id != id {
          i := i + 1;
          continue;
        }
        TakeOut(i);
        removed := removed + 1;
        i := 0;
        i := i + 1;
      }
    }

    /** player_inv_held_id */
    method Held(id: nat, count: nat) returns (held: bool)
      requires Valid() && id in cat
      ensures held == HeldId(cat, Items(), id, count)
    {
      var found := 0;
      ghost var was := Items();
      for i := 0 to invCount
        invariant found == Matches(was[..i], id)
        invariant Stackable(cat, id) ==> forall j :: 0 <= j < i ==> was[j].id != id
      {
        assert was[..i + 1][..i] == was[..i] && was[i] == inventory[i];
        if inventory[i].id == id {
          if cat[id].weight == 0 {
            assert SlotOf(was, id) == i;
            return inventory[i].stack >= count;
          }
          found := found + 1;
        }
      }
      assert was[..invCount] == was;
      held := found >= count;
    }

    /** item_equip_clear */
    method ItemEquipClear(a: bv16, b: bv16) returns (clear: bool)
      ensures clear == EquipClear(a, b, 0)
    {
      clear := false;
      for i := 0 to |BASIC_TYPES|
        invariant EquipClear(a, b, 0) == EquipClear(a, b, i)
      {
        if a & BASIC_TYPES[i] != 0 && b & BASIC_TYPES[i] != 0 {
          return true;
        }
      }
    }

    method SetWorn(i: nat, worn: bool)
      requires Valid() && i < invCount
      modifies inventory
      ensures Items() == old(Items())[i := old(Items())[i].(worn := worn)]
    {
      inventory[i] := inventory[i].(worn := worn);
    }

    /** What the loop of player_wear does with one slot. */
    method TakeOffIfClashing(i: nat, slot: nat, ghost was: Inv)
      requires Valid() && i < invCount == |was| && slot < invCount
      requires inventory[i] == was[i] && inventory[slot].id == was[slot].id
      modifies inventory
      ensures Items() == old(Items())[i := Spared(cat, was, slot, i)]
    {
      hide EquipClear;
      if i != slot && inventory[i].worn && EquipType(cat, inventory[i].id) != 0 {
        var clear := ItemEquipClear(EquipType(cat, inventory[slot].id), EquipType(cat, inventory[i].id));
        if clear {
          SetWorn(i, false);
        }
      }
    }

    /** The loop of player_wear: whatever clashes with the item of the slot is taken off. */
    method TakeOffClashing(slot: nat)
      requires Valid() && slot < invCount
      modifies inventory
      ensures Items() == Cleared(cat, old(Items()), slot)
    {
      hide Spared;
      ghost var was := Items();
      for i := 0 to invCount
        invariant forall k :: 0 <= k < i ==> Items()[k] == Spared(cat, was, slot, k)
        invariant forall k :: i <= k < invCount ==> Items()[k] == was[k]
        invariant Items()[slot].id == was[slot].id
      {
        SparedKeepsId(cat, was, slot, i);
        TakeOffIfClashing(i, slot, was);
      }
    }

    /** player_wear */
    method Wear(slot: int, allowed: bool)
      requires Valid()
      modifies this`bonus, inventory
      ensures AsKit() == Worn(cat, old(AsKit()), slot, allowed)
    {
      if slot < 0 || slot >= invCount || EquipType(cat, inventory[slot].id) == 0 || !allowed {
        return;
      }
      TakeOffClashing(slot);
      SetWorn(slot, true);
      RecalculateEquip();
    }

    /** player_unwear */
    method Unwear(slot: int)
      requires Valid()
      modifies this`bonus, inventory
      ensures AsKit() == Unworn(cat, old(AsKit()), slot)
    {
      if slot < 0 || slot >= invCount || EquipType(cat, inventory[slot].id) == 0 {
        return;
      }
      SetWorn(slot, false);
      RecalculateEquip();
    }

    /** player_inv_clear: the bonuses are left as they are. */
    method Clear()
      requires Valid()
      modifies this`invCount
      ensures Valid() && AsKit() == Kit([], old(bonus))
    {
      invCount := 0;
    }
  }
}
