/** What giving, removing and wearing keep. */
module InventoryProofs {
  import opened Inventory
  import opened Limits

  // ---- counting ------------------------------------------------------------------------------------------

  /** How many of the item the inventory holds, stacks counted out. */
  function Amount(inv: Inv, id: nat): nat {
    if |inv| == 0 then 0
    else Amount(inv[..|inv| - 1], id) + (if inv[|inv| - 1].id == id then inv[|inv| - 1].stack else 0)
  }

  lemma {:induction false} CountAppend(a: Inv, b: Inv, id: nat)
    ensures Matches(a + b, id) == Matches(a, id) + Matches(b, id)
    ensures Amount(a + b, id) == Amount(a, id) + Amount(b, id)
    decreases |b|
  {
    if |b| == 0 {
      assert a + b == a;
    } else {
      assert (a + b)[..|a + b| - 1] == a + b[..|b| - 1];
      CountAppend(a, b[..|b| - 1], id);
    }
  }

  lemma CountOne(it: InvItem, id: nat)
    ensures Matches([it], id) == (if it.id == id then 1 else 0)
    ensures Amount([it], id) == (if it.id == id then it.stack else 0)
  {
  }

  /** One slot changed, or gone. */
  lemma CountSlot(inv: Inv, i: nat, it: InvItem, id: nat)
    requires i < |inv|
    ensures Amount(inv[i := it], id) == Amount(inv, id) - (if inv[i].id == id then inv[i].stack else 0)
                                                       + (if it.id == id then it.stack else 0)
    ensures Amount(Without(inv, i), id) == Amount(inv, id) - (if inv[i].id == id then inv[i].stack else 0)
    ensures Matches(inv[i := it], id) == Matches(inv, id) - (if inv[i].id == id then 1 else 0)
                                                          + (if it.id == id then 1 else 0)
    ensures Matches(Without(inv, i), id) == Matches(inv, id) - (if inv[i].id == id then 1 else 0)
  {
    hide Matches, Amount;
    var a := inv[..i];
    var b := inv[i + 1..];
    assert inv == a + [inv[i]] + b && inv[i := it] == a + [it] + b && Without(inv, i) == a + b;
    CountAppend(a + [inv[i]], b, id);
    CountAppend(a, [inv[i]], id);
    CountAppend(a + [it], b, id);
    CountAppend(a, [it], id);
    CountAppend(a, b, id);
    CountOne(inv[i], id);
    CountOne(it, id);
  }

  lemma {:induction false} NoMatch(inv: Inv, id: nat)
    ensures Matches(inv, id) == 0 <==> forall i :: 0 <= i < |inv| ==> inv[i].id != id
    ensures Matches(inv, id) == 0 ==> Amount(inv, id) == 0
    decreases |inv|
  {
    if |inv| > 0 {
      NoMatch(inv[..|inv| - 1], id);
    }
  }

  // ---- what an inventory looks like ------------------------------------------------------------------------

  /** Stacks hold at least one and at most MAX_STACK_SIZE; what does not stack is held one to a slot. */
  ghost predicate Tidy(cat: Catalog, inv: Inv) {
    && |inv| <= MAX_INV_SIZE
    && (forall i :: 0 <= i < |inv| ==> 1 <= inv[i].stack <= MAX_STACK_SIZE)
    && (forall i :: 0 <= i < |inv| && !Stackable(cat, inv[i].id) ==> inv[i].stack == 1)
    && (forall i, j :: 0 <= i < j < |inv| && Stackable(cat, inv[i].id) ==> inv[i].id != inv[j].id)
  }

  lemma {:induction false} LooseAmount(cat: Catalog, inv: Inv, id: nat)
    requires Tidy(cat, inv) && !Stackable(cat, id)
    ensures Amount(inv, id) == Matches(inv, id)
    decreases |inv|
  {
    if |inv| > 0 {
      LooseAmount(cat, inv[..|inv| - 1], id);
    }
  }

  lemma StackAmount(cat: Catalog, inv: Inv, id: nat)
    requires Tidy(cat, inv) && Stackable(cat, id)
    ensures Amount(inv, id) == if SlotOf(inv, id) < |inv| then inv[SlotOf(inv, id)].stack else 0
    ensures Matches(inv, id) == if SlotOf(inv, id) < |inv| then 1 else 0
  {
    hide Matches, Amount;
    var i := SlotOf(inv, id);
    if i < |inv| {
      CountSlot(inv, i, inv[i], id);
      var rest := Without(inv, i);
      forall j | 0 <= j < |rest| ensures rest[j].id != id {
        assert rest[j] == inv[if j < i then j else j + 1];
      }
      NoMatch(rest, id);
    } else {
      NoMatch(inv, id);
    }
  }

  // ---- removing several loose items ---------------------------------------------------------------------------

  /** Slots 0 and 1 both hold the item: the removal loop will pass one of them over. */
  predicate Passed(inv: Inv, id: nat) {
    |inv| >= 2 && inv[0].id == id && inv[1].id == id
  }

  /** From slot 1 on, items behind slot 0 are removed as long as there are any. */
  lemma {:induction false} LoopFromOne(cat: Catalog, kit: Kit, id: nat, count: nat, i: nat)
    requires 1 <= i <= |kit.inv| + 1
    requires forall j :: 1 <= j < i && j < |kit.inv| ==> kit.inv[j].id != id
    ensures var here := if |kit.inv| > 0 && kit.inv[0].id == id then 1 else 0;
            var there := Matches(kit.inv, id) - here;
            Matches(RemoveLoop(cat, kit, id, count, i).inv, id) == here + (if count < there then there - count else 0)
    decreases |kit.inv|, |kit.inv| + 1 - i
  {
    hide Matches, WornBonus;
    if i >= |kit.inv| || count == 0 {
      if i >= |kit.inv| && |kit.inv| > 0 {
        var tail := kit.inv[1..];
        assert kit.inv == [kit.inv[0]] + tail;
        forall j | 0 <= j < |tail| ensures tail[j].id != id { assert tail[j] == kit.inv[j + 1]; }
        NoMatch(tail, id);
        CountAppend([kit.inv[0]], tail, id);
        CountOne(kit.inv[0], id);
      } else if |kit.inv| == 0 {
        NoMatch(kit.inv, id);
      } else {
        HereFirst(kit.inv, id);
      }
    } else if kit.inv[i].id != id {
      LoopFromOne(cat, kit, id, count, i + 1);
    } else {
      CountSlot(kit.inv, i, kit.inv[i], id);
      HereFirst(Without(kit.inv, i), id);
      LoopFromOne(cat, TakenOut(cat, kit, i), id, count - 1, 1);
    }
  }

  lemma HereFirst(inv: Inv, id: nat)
    requires |inv| > 0
    ensures inv[0].id == id ==> Matches(inv, id) >= 1
  {
    NoMatch(inv, id);
  }

  lemma {:induction false} LoopFromZero(cat: Catalog, kit: Kit, id: nat, count: nat, i: nat)
    requires i <= |kit.inv| && count >= 1
    requires forall j :: 0 <= j < i ==> kit.inv[j].id != id
    ensures var m := Matches(kit.inv, id);
            var most := if Passed(kit.inv, id) then m - 1 else m;
            Matches(RemoveLoop(cat, kit, id, count, i).inv, id) == m - (if count < most then count else most)
    decreases |kit.inv| - i
  {
    hide Matches, WornBonus;
    if i == |kit.inv| {
      NoMatch(kit.inv, id);
    } else if kit.inv[i].id != id {
      LoopFromZero(cat, kit, id, count, i + 1);
    } else {
      var less := TakenOut(cat, kit, i);
      CountSlot(kit.inv, i, kit.inv[i], id);
      LoopFromOne(cat, less, id, count - 1, 1);
      if |less.inv| > 0 {
        HereFirst(less.inv, id);
        assert less.inv[0] == if i == 0 then kit.inv[1] else kit.inv[0];
      }
    }
  }

  /**
   * player_inv_remove_id removes exactly as many loose items as asked for, unless all that are held are asked for
   * while slots 0 and 1 both hold one: then it leaves one behind.
   */
  lemma RemovedLoose(cat: Catalog, kit: Kit, id: nat, count: nat)
    requires !Stackable(cat, id) && 1 <= count <= Matches(kit.inv, id)
    ensures Matches(Removed(cat, kit, id, count).inv, id) == Matches(kit.inv, id) - count
            <==> !(Passed(kit.inv, id) && count == Matches(kit.inv, id))
    ensures Passed(kit.inv, id) && count == Matches(kit.inv, id) ==> Matches(Removed(cat, kit, id, count).inv, id) == 1
  {
    hide Matches, RemoveLoop;
    LoopFromZero(cat, kit, id, count, 0);
    if Passed(kit.inv, id) {
      CountSlot(kit.inv, 0, kit.inv[0], id);
      HereFirst(Without(kit.inv, 0), id);
    }
  }

  // ---- what removal and giving keep -------------------------------------------------------------------------------

  /** Two loose items in the first two slots: both are to go, and one stays. */
  lemma RemovedLooseInstance(cat: Catalog, id: nat, bonus: Bonus)
    requires !Stackable(cat, id)
    ensures var kit := Kit([InvItem(id, 1, false), InvItem(id, 1, false)], bonus);
            Matches(kit.inv, id) == 2 && Matches(Removed(cat, kit, id, 2).inv, id) == 1
  {
    hide Matches;
    var item := InvItem(id, 1, false);
    assert [item] + [item] == [item, item];
    CountOne(item, id);
    CountAppend([item], [item], id);
    RemovedLoose(cat, Kit([item, item], bonus), id, 2);
  }

  lemma WithoutTidy(cat: Catalog, inv: Inv, i: nat)
    requires Tidy(cat, inv) && i < |inv|
    ensures Tidy(cat, Without(inv, i))
  {
    var r := Without(inv, i);
    forall j | 0 <= j < |r| ensures r[j] == inv[if j < i then j else j + 1] { }
  }

  /** The loop removes nothing but the item. */
  lemma {:induction false} LoopKeeps(cat: Catalog, kit: Kit, id: nat, count: nat, i: nat, other: nat)
    requires Tidy(cat, kit.inv) && i <= |kit.inv| + 1
    ensures Tidy(cat, RemoveLoop(cat, kit, id, count, i).inv)
    ensures other != id ==> Amount(RemoveLoop(cat, kit, id, count, i).inv, other) == Amount(kit.inv, other)
    decreases |kit.inv|, |kit.inv| + 1 - i
  {
    hide Amount, Tidy, WornBonus;
    if i < |kit.inv| && count > 0 {
      if kit.inv[i].id != id {
        LoopKeeps(cat, kit, id, count, i + 1, other);
      } else {
        WithoutTidy(cat, kit.inv, i);
        CountSlot(kit.inv, i, kit.inv[i], other);
        LoopKeeps(cat, TakenOut(cat, kit, i), id, count - 1, 1, other);
      }
    }
  }

  lemma RemovedKeeps(cat: Catalog, kit: Kit, id: nat, count: nat, other: nat)
    requires Tidy(cat, kit.inv)
    ensures Tidy(cat, Removed(cat, kit, id, count).inv)
    ensures other != id ==> Amount(Removed(cat, kit, id, count).inv, other) == Amount(kit.inv, other)
  {
    hide Amount, RemoveLoop;
    var i := SlotOf(kit.inv, id);
    if Stackable(cat, id) && i < |kit.inv| && count < kit.inv[i].stack {
      CountSlot(kit.inv, i, kit.inv[i].(stack := kit.inv[i].stack - count), other);
    } else {
      LoopKeeps(cat, kit, id, if Stackable(cat, id) && i < |kit.inv| then 1 else count, 0, other);
    }
  }

  /** A stack loses exactly the count. */
  lemma RemovedStack(cat: Catalog, kit: Kit, id: nat, count: nat)
    requires Tidy(cat, kit.inv) && Stackable(cat, id) && 1 <= count && HeldId(cat, kit.inv, id, count)
    ensures Amount(Removed(cat, kit, id, count).inv, id) == Amount(kit.inv, id) - count
  {
    hide Amount, Matches, RemoveLoop;
    var i := SlotOf(kit.inv, id);
    StackAmount(cat, kit.inv, id);
    if count < kit.inv[i].stack {
      CountSlot(kit.inv, i, kit.inv[i].(stack := kit.inv[i].stack - count), id);
    } else {
      LoopFromZero(cat, kit, id, 1, 0);
      RemovedKeeps(cat, kit, id, count, id);
      StackAmount(cat, Removed(cat, kit, id, count).inv, id);
      assert !Passed(kit.inv, id);
    }
  }

  lemma {:induction false} CopiesCount(id: nat, n: nat, other: nat)
    ensures Amount(Copies(id, n), other) == (if other == id then n else 0)
    decreases n
  {
    if n > 0 {
      assert Copies(id, n)[..n - 1] == Copies(id, n - 1);
      CopiesCount(id, n - 1, other);
    }
  }

  lemma GivenStack(cat: Catalog, inv: Inv, id: nat, count: nat, other: nat)
    requires Tidy(cat, inv) && 1 <= count < UINT32 && Stackable(cat, id)
    ensures var g := Given(cat, inv, id, count);
            && (other != id ==> Amount(g.0, other) == Amount(inv, other))
            && (Amount(g.0, id) + g.1 == Amount(inv, id) + count
                <==> !(SlotOf(inv, id) < |inv| && Amount(inv, id) + count > MAX_STACK_SIZE))
            && (count <= MAX_STACK_SIZE ==> Tidy(cat, g.0))
  {
    hide Amount, Matches;
    var i := SlotOf(inv, id);
    var g := Given(cat, inv, id, count);
    StackAmount(cat, inv, id);
    if i < |inv| {
      CountSlot(inv, i, g.0[i], id);
      CountSlot(inv, i, g.0[i], other);
    } else if |inv| < MAX_INV_SIZE {
      CountAppend(inv, [InvItem(id, count, false)], id);
      CountAppend(inv, [InvItem(id, count, false)], other);
      CountOne(InvItem(id, count, false), id);
      CountOne(InvItem(id, count, false), other);
    }
  }

  lemma GivenLoose(cat: Catalog, inv: Inv, id: nat, count: nat, other: nat)
    requires Tidy(cat, inv) && !Stackable(cat, id)
    ensures var g := Given(cat, inv, id, count);
            && (other != id ==> Amount(g.0, other) == Amount(inv, other))
            && Amount(g.0, id) + g.1 == Amount(inv, id) + count
            && Tidy(cat, g.0)
  {
    hide Amount, Stackable;
    var g := Given(cat, inv, id, count);
    var n := |g.0| - |inv|;
    CountAppend(inv, Copies(id, n), id);
    CountAppend(inv, Copies(id, n), other);
    CopiesCount(id, n, id);
    CopiesCount(id, n, other);
  }

  /** Giving adds exactly the count, what falls to the ground included, unless a stack hits its cap. */
  lemma GivenCounts(cat: Catalog, inv: Inv, id: nat, count: nat, other: nat)
    requires Tidy(cat, inv) && 1 <= count < UINT32
    ensures var g := Given(cat, inv, id, count);
            && (other != id ==> Amount(g.0, other) == Amount(inv, other))
            && (Amount(g.0, id) + g.1 == Amount(inv, id) + count
                <==> !(Stackable(cat, id) && SlotOf(inv, id) < |inv| && Amount(inv, id) + count > MAX_STACK_SIZE))
            && (count <= MAX_STACK_SIZE ==> Tidy(cat, g.0))
  {
    hide Amount, Given, Tidy, Stackable;
    if Stackable(cat, id) {
      GivenStack(cat, inv, id, count, other);
    } else {
      GivenLoose(cat, inv, id, count, other);
    }
  }

  /** What is given to a stack goes on it, up to the limit; else into one new slot, or, without room, to the ground. */
  lemma GivenStackExact(cat: Catalog, inv: Inv, id: nat, count: nat)
    requires Tidy(cat, inv) && Stackable(cat, id) && 1 <= count < UINT32
    ensures var g := Given(cat, inv, id, count);
            && (forall i :: 0 <= i < |inv| && inv[i].id == id ==>
                  && g.1 == 0 && |g.0| == |inv| && (forall j :: 0 <= j < |inv| && j != i ==> g.0[j] == inv[j])
                  && g.0[i] == InvItem(id, if inv[i].stack + count <= 0x7fff_ffff then inv[i].stack + count else 0x7fff_ffff,
                                       inv[i].worn))
            && ((forall i :: 0 <= i < |inv| ==> inv[i].id != id) ==>
                  g == if |inv| < 30 then (inv + [InvItem(id, count, false)], 0) else (inv, count))
  {
    hide Amount, Matches;
    var s := SlotOf(inv, id);
    forall i | 0 <= i < |inv| && inv[i].id == id ensures i == s {
    }
    if s < |inv| {
      var sum := (inv[s].stack + count) % UINT32;
      if inv[s].stack + count >= UINT32 {
        assert sum == inv[s].stack + count - UINT32;
      }
    }
  }

  /** Loose items go one to a slot as long as there are any; the others fall to the ground. */
  lemma GivenLooseExact(cat: Catalog, inv: Inv, id: nat, count: nat)
    requires !Stackable(cat, id) && |inv| <= 30
    ensures var g := Given(cat, inv, id, count);
            && g.1 == (if |inv| + count <= 30 then 0 else |inv| + count - 30)
            && |g.0| == |inv| + count - g.1 && g.0[..|inv|] == inv
            && forall i :: |inv| <= i < |g.0| ==> g.0[i] == InvItem(id, 1, false)
  {
  }

  /** A single loose item, or a stack given up whole, leaves the first slot that holds it; the rest moves up. */
  lemma RemovedOne(cat: Catalog, kit: Kit, id: nat, count: nat)
    requires var i := SlotOf(kit.inv, id);
             i < |kit.inv| && if Stackable(cat, id) then count >= kit.inv[i].stack else count == 1
    ensures var i := SlotOf(kit.inv, id);
            var r := Removed(cat, kit, id, count);
            && r.inv == kit.inv[..i] + kit.inv[i + 1..]
            && r.bonus == if kit.inv[i].worn then WornBonus(cat, r.inv) else kit.bonus
  {
    hide WornBonus;
    LoopTakesFirst(cat, kit, id, 0);
  }

  lemma {:induction false} LoopTakesFirst(cat: Catalog, kit: Kit, id: nat, i: nat)
    requires i <= SlotOf(kit.inv, id) < |kit.inv|
    ensures var k := SlotOf(kit.inv, id);
            var r := RemoveLoop(cat, kit, id, 1, i);
            && r.inv == kit.inv[..k] + kit.inv[k + 1..]
            && r.bonus == if kit.inv[k].worn then WornBonus(cat, r.inv) else kit.bonus
    decreases |kit.inv| - i
  {
    hide WornBonus;
    if kit.inv[i].id != id {
      LoopTakesFirst(cat, kit, id, i + 1);
    } else {
      assert RemoveLoop(cat, TakenOut(cat, kit, i), id, 0, 1) == TakenOut(cat, kit, i);
    }
  }

  /** Part of a stack: it shrinks by the count where it is, and nothing else changes. */
  lemma RemovedPart(cat: Catalog, kit: Kit, id: nat, count: nat)
    requires Stackable(cat, id) && SlotOf(kit.inv, id) < |kit.inv| && count < kit.inv[SlotOf(kit.inv, id)].stack
    ensures var i := SlotOf(kit.inv, id);
            var r := Removed(cat, kit, id, count);
            && r.bonus == kit.bonus && |r.inv| == |kit.inv| && (forall j :: 0 <= j < |kit.inv| && j != i ==> r.inv[j] == kit.inv[j])
            && r.inv[i] == InvItem(id, kit.inv[i].stack - count, kit.inv[i].worn)
  {
  }

  /** Nothing goes when nothing is there. */
  lemma RemovedNone(cat: Catalog, kit: Kit, id: nat, count: nat)
    requires SlotOf(kit.inv, id) == |kit.inv|
    ensures Removed(cat, kit, id, count) == kit
  {
    LoopFindsNone(cat, kit, id, count, 0);
  }

  lemma {:induction false} LoopFindsNone(cat: Catalog, kit: Kit, id: nat, count: nat, i: nat)
    requires i <= |kit.inv| && SlotOf(kit.inv, id) == |kit.inv|
    ensures RemoveLoop(cat, kit, id, count, i) == kit
    decreases |kit.inv| - i
  {
    if i < |kit.inv| {
      LoopFindsNone(cat, kit, id, count, i + 1);
    }
  }

  // ---- equipment ------------------------------------------------------------------------------------------------------

  lemma SharedBits(a: bv16, b: bv16)
    ensures a & 0x0008 != 0 && b & 0x0008 != 0 <==> a & b & 0x0008 != 0
    ensures a & 0x0010 != 0 && b & 0x0010 != 0 <==> a & b & 0x0010 != 0
    ensures a & 0x0020 != 0 && b & 0x0020 != 0 <==> a & b & 0x0020 != 0
    ensures a & 0x0040 != 0 && b & 0x0040 != 0 <==> a & b & 0x0040 != 0
    ensures a & 0x0080 != 0 && b & 0x0080 != 0 <==> a & b & 0x0080 != 0
    ensures a & 0x0100 != 0 && b & 0x0100 != 0 <==> a & b & 0x0100 != 0
    ensures a & 0x0200 != 0 && b & 0x0200 != 0 <==> a & b & 0x0200 != 0
    ensures a & 0x0400 != 0 && b & 0x0400 != 0 <==> a & b & 0x0400 != 0
    ensures a & 0x0800 != 0 && b & 0x0800 != 0 <==> a & b & 0x0800 != 0
  {
  }

  lemma BitsOfMask(x: bv16)
    ensures x & BASIC_MASK != 0 <==>
              || x & 0x0008 != 0 || x & 0x0010 != 0 || x & 0x0020 != 0 || x & 0x0040 != 0 || x & 0x0400 != 0
              || x & 0x0100 != 0 || x & 0x0080 != 0 || x & 0x0200 != 0 || x & 0x0800 != 0
  {
  }

  lemma ClearStep(a: bv16, b: bv16, from: nat)
    requires from < |BASIC_TYPES|
    ensures EquipClear(a, b, from) <==>
              (a & BASIC_TYPES[from] != 0 && b & BASIC_TYPES[from] != 0) || EquipClear(a, b, from + 1)
    ensures !EquipClear(a, b, |BASIC_TYPES|)
  {
  }

  /** The loop over the basic slots tests one mask. */
  lemma EquipClearMeaning(a: bv16, b: bv16)
    ensures EquipClear(a, b, 0) <==> a & b & BASIC_MASK != 0
  {
    hide EquipClear;
    ClearStep(a, b, 0);
    ClearStep(a, b, 1);
    ClearStep(a, b, 2);
    ClearStep(a, b, 3);
    ClearStep(a, b, 4);
    ClearStep(a, b, 5);
    ClearStep(a, b, 6);
    ClearStep(a, b, 7);
    ClearStep(a, b, 8);
    SharedBits(a, b);
    BitsOfMask(a & b);
  }

  /** Two items would need the same basic slot. */
  predicate Collide(cat: Catalog, a: InvItem, b: InvItem) {
    a.worn && b.worn && EquipType(cat, a.id) & EquipType(cat, b.id) & BASIC_MASK != 0
  }

  /** No two worn items need the same basic slot. */
  ghost predicate Exclusive(cat: Catalog, inv: Inv) {
    forall i, j :: 0 <= i < j < |inv| ==> !Collide(cat, inv[i], inv[j])
  }

  /** The bonus fields are those of the items worn now. */
  predicate UpToDate(cat: Catalog, kit: Kit) {
    kit.bonus == WornBonus(cat, kit.inv)
  }

  ghost predicate Dressed(cat: Catalog, kit: Kit) {
    Exclusive(cat, kit.inv) && UpToDate(cat, kit)
  }

  lemma SharedSlot(a: bv16, b: bv16)
    ensures a & b & BASIC_MASK == b & a & BASIC_MASK
    ensures a & b & BASIC_MASK != 0 ==> a != 0 && b != 0
  {
  }

  lemma WearKeeps(cat: Catalog, kit: Kit, slot: int, allowed: bool)
    requires Dressed(cat, kit)
    ensures Dressed(cat, Worn(cat, kit, slot, allowed))
  {
    hide EquipClear, WornBonus, EquipType;
    var r := Worn(cat, kit, slot, allowed);
    if 0 <= slot < |kit.inv| {
      forall i, j | 0 <= i < j < |r.inv| ensures !Collide(cat, r.inv[i], r.inv[j]) {
        var ti := EquipType(cat, r.inv[i].id);
        var tj := EquipType(cat, r.inv[j].id);
        EquipClearMeaning(ti, tj);
        EquipClearMeaning(tj, ti);
        SharedSlot(ti, tj);
        assert !Collide(cat, kit.inv[i], kit.inv[j]);
      }
    }
  }

  /** Two equipment types need no basic slot in common. */
  predicate Apart(a: bv16, b: bv16) {
    a & b & 0x0ff8 == 0
  }

  /**
   * An item allowed and able to be worn is worn afterwards. Whatever else was worn stays worn exactly if it shares no
   * basic slot with it; nothing else is put on, and nothing is moved.
   */
  lemma WearExact(cat: Catalog, kit: Kit, slot: nat)
    requires slot < |kit.inv| && kit.inv[slot].id in cat && cat[kit.inv[slot].id].equipType != 0
    ensures var inv := Worn(cat, kit, slot, true).inv;
            && |inv| == |kit.inv| && inv[slot].worn
            && (forall i :: 0 <= i < |inv| ==> inv[i].id == kit.inv[i].id && inv[i].stack == kit.inv[i].stack)
            && forall i :: 0 <= i < |inv| && i != slot ==>
                 (inv[i].worn <==>
                    kit.inv[i].worn
                    && (kit.inv[i].id in cat ==> Apart(cat[kit.inv[slot].id].equipType, cat[kit.inv[i].id].equipType)))
  {
    hide WornBonus, EquipClear, Apart;
    var type0 := cat[kit.inv[slot].id].equipType;
    forall i | 0 <= i < |kit.inv| && kit.inv[i].id in cat
      ensures Clashes(cat, kit.inv[i], type0) <==> kit.inv[i].worn && !Apart(type0, cat[kit.inv[i].id].equipType)
    {
      ClashIff(type0, cat[kit.inv[i].id].equipType);
    }
  }

  lemma ClashIff(a: bv16, b: bv16)
    ensures b != 0 && EquipClear(a, b, 0) <==> !Apart(a, b)
  {
    hide EquipClear;
    EquipClearMeaning(a, b);
    SharedSlot(a, b);
  }

  /** What is not there, cannot be worn, or may not, changes nothing. */
  lemma WearRefused(cat: Catalog, kit: Kit, slot: int, allowed: bool)
    requires !allowed || slot < 0 || slot >= |kit.inv| || kit.inv[slot].id !in cat || cat[kit.inv[slot].id].equipType == 0
    ensures Worn(cat, kit, slot, allowed) == kit
  {
  }

  /** Taking off takes off exactly that item, if it is one that can be worn. */
  lemma UnwearExact(cat: Catalog, kit: Kit, slot: int)
    ensures var t := Unworn(cat, kit, slot);
            if 0 <= slot < |kit.inv| && kit.inv[slot].id in cat && cat[kit.inv[slot].id].equipType != 0 then
              t.inv == kit.inv[slot := InvItem(kit.inv[slot].id, kit.inv[slot].stack, false)]
            else t == kit
  {
    hide WornBonus;
  }

  lemma UnwearKeeps(cat: Catalog, kit: Kit, slot: int)
    requires Dressed(cat, kit)
    ensures Dressed(cat, Unworn(cat, kit, slot))
  {
    hide WornBonus, EquipType;
    var r := Unworn(cat, kit, slot);
    forall i, j | 0 <= i < j < |r.inv| ensures !Collide(cat, r.inv[i], r.inv[j]) {
      assert !Collide(cat, kit.inv[i], kit.inv[j]);
    }
  }

  lemma WornSnoc(cat: Catalog, inv: Inv, it: InvItem)
    ensures WornBonus(cat, inv + [it]) == AddBonus(WornBonus(cat, inv), BonusOf(cat, it))
    ensures !it.worn ==> WornBonus(cat, inv + [it]) == WornBonus(cat, inv)
  {
    hide AddBonus;
    assert (inv + [it])[..|inv|] == inv;
    AddNothing(WornBonus(cat, inv));
  }

  /** The five bonus fields in the order of their declaration. */
  function Field(b: Bonus, k: nat): nat {
    if k == 0 then b.armour else if k == 1 then b.aim else if k == 2 then b.power else if k == 3 then b.magic else b.prayer
  }

  /** The sum of a field over what is worn. */
  function SumWorn(cat: Catalog, inv: Inv, k: nat): nat {
    if |inv| == 0 then 0
    else
      var it := inv[|inv| - 1];
      SumWorn(cat, inv[..|inv| - 1], k) + (if it.worn && it.id in cat then Field(cat[it.id].bonus, k) else 0)
  }

  /** Every bonus field is one plus the sum of that field over what is worn, in 8 bits. */
  lemma {:induction false} BonusIsSum(cat: Catalog, inv: Inv, k: nat)
    ensures Field(WornBonus(cat, inv), k) == (1 + SumWorn(cat, inv, k)) % 256
    decreases |inv|
  {
    if |inv| > 0 {
      hide AddBonus, BonusOf, Field;
      var it := inv[|inv| - 1];
      BonusIsSum(cat, inv[..|inv| - 1], k);
      FieldAdds(cat, WornBonus(cat, inv[..|inv| - 1]), it, k);
      Modulo(1 + SumWorn(cat, inv[..|inv| - 1], k), if it.worn && it.id in cat then Field(cat[it.id].bonus, k) else 0);
    } else {
      assert Field(Bonus(1, 1, 1, 1, 1), k) == 1;
    }
  }

  lemma FieldAdds(cat: Catalog, a: Bonus, it: InvItem, k: nat)
    ensures Field(AddBonus(a, BonusOf(cat, it)), k)
         == (Field(a, k) + (if it.worn && it.id in cat then Field(cat[it.id].bonus, k) else 0)) % 256
  {
  }

  lemma Modulo(a: nat, b: nat)
    ensures (a % 256 + b) % 256 == (a + b) % 256
  {
  }

  lemma AddNothing(b: Bonus)
    requires FitsBytes(b)
    ensures AddBonus(b, Bonus(0, 0, 0, 0, 0)) == b
  {
  }

  /** A slot with nothing worn adds nothing. */
  lemma {:induction false} UnwornAddsNothing(cat: Catalog, a: Inv, it: InvItem, b: Inv)
    requires !it.worn
    ensures WornBonus(cat, a + [it] + b) == WornBonus(cat, a + b)
    decreases |b|
  {
    hide WornBonus, AddBonus, BonusOf;
    if |b| == 0 {
      assert a + [it] + b == a + [it] && a + b == a;
      WornSnoc(cat, a, it);
    } else {
      var c := b[..|b| - 1];
      var last := b[|b| - 1];
      assert a + [it] + b == a + [it] + c + [last] && a + b == a + c + [last];
      UnwornAddsNothing(cat, a, it, c);
      WornSnoc(cat, a + [it] + c, last);
      WornSnoc(cat, a + c, last);
    }
  }

  /** Changing a stack changes no bonus. */
  lemma {:induction false} StackAddsNothing(cat: Catalog, inv: Inv, i: nat, stack: nat)
    requires i < |inv|
    ensures WornBonus(cat, inv[i := inv[i].(stack := stack)]) == WornBonus(cat, inv)
    decreases |inv|
  {
    var now := inv[i := inv[i].(stack := stack)];
    if i < |inv| - 1 {
      assert now[..|inv| - 1] == inv[..|inv| - 1][i := inv[i].(stack := stack)];
      StackAddsNothing(cat, inv[..|inv| - 1], i, stack);
    } else {
      assert now[..i] == inv[..i];
    }
  }

  lemma TakenOutKeeps(cat: Catalog, kit: Kit, i: nat)
    requires Dressed(cat, kit) && i < |kit.inv|
    ensures Dressed(cat, TakenOut(cat, kit, i))
  {
    hide WornBonus, Collide;
    var r := Without(kit.inv, i);
    forall j | 0 <= j < |r| ensures r[j] == kit.inv[if j < i then j else j + 1] { }
    if !kit.inv[i].worn {
      UnwornAddsNothing(cat, kit.inv[..i], kit.inv[i], kit.inv[i + 1..]);
      assert kit.inv == kit.inv[..i] + [kit.inv[i]] + kit.inv[i + 1..];
    }
  }

  lemma {:induction false} LoopDressed(cat: Catalog, kit: Kit, id: nat, count: nat, i: nat)
    requires Dressed(cat, kit) && i <= |kit.inv| + 1
    ensures Dressed(cat, RemoveLoop(cat, kit, id, count, i))
    decreases |kit.inv|, |kit.inv| + 1 - i
  {
    hide Dressed, TakenOut;
    if i < |kit.inv| && count > 0 {
      if kit.inv[i].id != id {
        LoopDressed(cat, kit, id, count, i + 1);
      } else {
        TakenOutKeeps(cat, kit, i);
        LoopDressed(cat, TakenOut(cat, kit, i), id, count - 1, 1);
      }
    }
  }

  lemma RemovedDressed(cat: Catalog, kit: Kit, id: nat, count: nat)
    requires Dressed(cat, kit)
    ensures Dressed(cat, Removed(cat, kit, id, count))
  {
    hide RemoveLoop, WornBonus, Collide;
    var i := SlotOf(kit.inv, id);
    if Stackable(cat, id) && i < |kit.inv| && count < kit.inv[i].stack {
      StackAddsNothing(cat, kit.inv, i, kit.inv[i].stack - count);
      SameClothes(cat, kit.inv, i, kit.inv[i].stack - count);
    } else {
      LoopDressed(cat, kit, id, if Stackable(cat, id) && i < |kit.inv| then 1 else count, 0);
    }
  }

  lemma SameClothes(cat: Catalog, inv: Inv, i: nat, stack: nat)
    requires Exclusive(cat, inv) && i < |inv|
    ensures Exclusive(cat, inv[i := inv[i].(stack := stack)])
  {
    var now := inv[i := inv[i].(stack := stack)];
    forall j, k | 0 <= j < k < |now| ensures !Collide(cat, now[j], now[k]) {
      assert !Collide(cat, inv[j], inv[k]);
    }
  }

  /** Unworn items behind the others change neither the slots taken nor the bonuses. */
  lemma {:induction false} AppendDressed(cat: Catalog, inv: Inv, more: Inv)
    requires Exclusive(cat, inv) && forall i :: 0 <= i < |more| ==> !more[i].worn
    ensures Exclusive(cat, inv + more) && WornBonus(cat, inv + more) == WornBonus(cat, inv)
    decreases |more|
  {
    hide WornBonus, AddBonus, BonusOf, EquipType;
    if |more| == 0 {
      assert inv + more == inv;
    } else {
      var rest := more[..|more| - 1];
      var last := more[|more| - 1];
      AppendDressed(cat, inv, rest);
      assert inv + more == inv + rest + [last];
      WornSnoc(cat, inv + rest, last);
    }
  }

  lemma GivenDressed(cat: Catalog, kit: Kit, id: nat, count: nat)
    requires Dressed(cat, kit)
    ensures Dressed(cat, kit.(inv := Given(cat, kit.inv, id, count).0))
  {
    hide WornBonus, Collide;
    var i := SlotOf(kit.inv, id);
    var g := Given(cat, kit.inv, id, count).0;
    if Stackable(cat, id) && i < |kit.inv| {
      StackAddsNothing(cat, kit.inv, i, g[i].stack);
      SameClothes(cat, kit.inv, i, g[i].stack);
    } else if Stackable(cat, id) {
      AppendDressed(cat, kit.inv, [InvItem(id, count, false)]);
    } else {
      AppendDressed(cat, kit.inv, Copies(id, |g| - |kit.inv|));
    }
  }

  /** What a player, a script or the engine does to a kit. */
  datatype Deed =
    | Wear(slot: int, allowed: bool)
    | Unwear(slot: int)
    | Give(id: nat, count: nat)
    | Remove(id: nat, count: nat)

  function Done(cat: Catalog, kit: Kit, d: Deed): Kit {
    match d
    case Wear(slot, allowed) => Worn(cat, kit, slot, allowed)
    case Unwear(slot) => Unworn(cat, kit, slot)
    case Give(id, count) => kit.(inv := Given(cat, kit.inv, id, count).0)
    case Remove(id, count) => Removed(cat, kit, id, count)
  }

  function DoneAll(cat: Catalog, kit: Kit, deeds: seq<Deed>): Kit
    decreases |deeds|
  {
    if |deeds| == 0 then kit else DoneAll(cat, Done(cat, kit, deeds[0]), deeds[1..])
  }

  /**
   * Over every run of wearing, unwearing, giving and removing, no two worn items need the same basic slot, and
   * the bonus fields are those of what is worn, although only some of the deeds compute them.
   */
  lemma {:induction false} RunDressed(cat: Catalog, kit: Kit, deeds: seq<Deed>)
    requires Dressed(cat, kit)
    ensures Dressed(cat, DoneAll(cat, kit, deeds))
    decreases |deeds|
  {
    hide Dressed, Worn, Unworn, Given, Removed;
    if |deeds| > 0 {
      match deeds[0] {
        case Wear(slot, allowed) => WearKeeps(cat, kit, slot, allowed);
        case Unwear(slot) => UnwearKeeps(cat, kit, slot);
        case Give(id, count) => GivenDressed(cat, kit, id, count);
        case Remove(id, count) => RemovedDressed(cat, kit, id, count);
      }
      RunDressed(cat, Done(cat, kit, deeds[0]), deeds[1..]);
    }
  }

  /** Clearing the whole inventory computes no bonuses: they are right afterwards only if they were those of nothing. */
  lemma ClearedIff(cat: Catalog, kit: Kit)
    requires Dressed(cat, kit)
    ensures Dressed(cat, Kit([], kit.bonus)) <==> WornBonus(cat, kit.inv) == Bonus(1, 1, 1, 1, 1)
  {
  }

  /** A worn item with a bonus, and the inventory cleared: the bonus stays. */
  lemma ClearedInstance(cat: Catalog, id: nat)
    requires id in cat && cat[id].bonus == Bonus(5, 0, 0, 0, 0)
    ensures var kit := Kit([InvItem(id, 1, true)], Bonus(6, 1, 1, 1, 1));
            Dressed(cat, kit) && !Dressed(cat, Kit([], kit.bonus))
  {
    var inv := [InvItem(id, 1, true)];
    assert inv[..0] == [];
    assert WornBonus(cat, inv) == AddBonus(WornBonus(cat, []), cat[id].bonus);
  }
}
