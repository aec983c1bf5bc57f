/** The bank: moving items between it and the inventory. */
module Bank {
  import opened Arrays
  import opened Inventory
  import opened Limits
  import opened InventoryProofs

  const MAX_BANK_SIZE := 48

  datatype BankItem = BankItem(id: nat, amount: nat)

  type Vault = seq<BankItem>

  /** What a player owns. */
  datatype Holdings = Holdings(kit: Kit, bank: Vault)

  // ---- the operations as functions -------------------------------------------------------------------

  /** The entry of an item, or the number of entries. */
  function EntryOf(bank: Vault, id: nat): (i: nat)
    ensures i <= |bank|
    ensures i < |bank| ==> bank[i].id == id
    ensures forall j :: 0 <= j < i ==> bank[j].id != id
  {
    if |bank| == 0 || bank[0].id == id then 0 else 1 + EntryOf(bank[1..], id)
  }

  /** Whether player_deposit moves anything; the free part of an entry is an unsigned 32-bit difference. */
  predicate Accepts(cat: Catalog, h: Holdings, id: nat, amount: nat, open: bool) {
    && open && HeldId(cat, h.kit.inv, id, amount)
    && var i := EntryOf(h.bank, id);
       if i < |h.bank| then (MAX_STACK_SIZE - h.bank[i].amount) % UINT32 >= amount else |h.bank| < MAX_BANK_SIZE
  }

  /** player_deposit */
  function Deposited(cat: Catalog, h: Holdings, id: nat, amount: nat, open: bool): Holdings {
    if !Accepts(cat, h, id, amount, open) then h
    else
      var i := EntryOf(h.bank, id);
      Holdings(Removed(cat, h.kit, id, amount),
               if i < |h.bank| then h.bank[i := BankItem(id, (h.bank[i].amount + amount) % UINT32)]
               else h.bank + [BankItem(id, amount)])
  }

  /** player_bank_remove: the bank afterwards, and how much came out. */
  function BankRemoved(bank: Vault, id: nat, amount: nat): (Vault, nat) {
    var i := EntryOf(bank, id);
    if i == |bank| then (bank, 0)
    else if amount >= bank[i].amount then (bank[..i] + bank[i + 1..], bank[i].amount)
    else (bank[i := BankItem(id, bank[i].amount - amount)], amount)
  }

  /** An unsigned 32-bit amount stored in an int. */
  function AsInt32(amount: nat): int {
    if amount >= 0x8000_0000 then amount - UINT32 else amount
  }

  /** The withdrawal passes the test for room. */
  predicate HasRoom(cat: Catalog, inv: Inv, id: nat, amount: nat) {
    (Stackable(cat, id) && SlotOf(inv, id) < |inv|)
    || MAX_INV_SIZE - |inv| >= (if Stackable(cat, id) then 1 else AsInt32(amount))
  }

  /** player_withdraw: the holdings afterwards, and how many items fell to the ground. */
  function Withdrawn(cat: Catalog, h: Holdings, id: nat, amount: nat, open: bool): (Holdings, nat) {
    if !open || id !in cat || !HasRoom(cat, h.kit.inv, id, amount) then (h, 0)
    else
      var out := BankRemoved(h.bank, id, amount);
      if out.1 == 0 then (h.(bank := out.0), 0)
      else
        var g := Given(cat, h.kit.inv, id, out.1);
        (Holdings(h.kit.(inv := g.0), out.0), g.1)
  }

  // ---- in place ----------------------------------------------------------------------------------------

  class Account {
    const owner: Player
    const bank: array<BankItem>
    var bankCount: nat
    var uiBankOpen: bool

    constructor (owner: Player, bank: array<BankItem>)
      ensures this.owner == owner && this.bank == bank && bankCount == 0 && !uiBankOpen
    {
      this.owner := owner;
      this.bank := bank;
      bankCount := 0;
      uiBankOpen := false;
    }

    ghost predicate Valid()
      reads this, owner
    {
      owner.Valid() && bank.Length == MAX_BANK_SIZE && bankCount <= MAX_BANK_SIZE
      && bank as object != owner.inventory
    }

    ghost function Vaulted(): (v: Vault)
      requires Valid()
      reads this, owner, bank
      ensures |v| == bankCount
    {
      bank[..bankCount]
    }

    ghost function AsHoldings(): Holdings
      requires Valid()
      reads this, owner, owner.inventory, bank
    {
      Holdings(owner.AsKit(), Vaulted())
    }

    /** The search loop for the entry of an item. */
    method FindEntry(id: nat) returns (i: nat)
      requires Valid()
      ensures i == EntryOf(Vaulted(), id)
    {
      ghost var v := Vaulted();
      for k := 0 to bankCount
        invariant forall j :: 0 <= j < k ==> v[j].id != id
      {
        assert v[k] == bank[k];
        if bank[k].id == id {
          assert EntryOf(v, id) == k;
          return k;
        }
      }
      assert EntryOf(v, id) == |v|;
      i := bankCount;
    }

    /** player_deposit */
    method Deposit(id: nat, amount: nat)
      requires Valid() && id in owner.cat && amount < UINT32
      modifies this`bankCount, bank, owner, owner.inventory
      ensures Valid() && AsHoldings() == Deposited(owner.cat, old(AsHoldings()), id, amount, uiBankOpen)
    {
      hide Removed, HeldId;
      if !uiBankOpen {
        return;
      }
      var held := owner.Held(id, amount);
      if !held {
        return;
      }
      ghost var v := Vaulted();
      var i := FindEntry(id);
      if i < bankCount {
        assert v[i] == bank[i];
        if (MAX_STACK_SIZE - bank[i].amount) % UINT32 < amount {
          return;
        }
        owner.RemoveId(id, amount);
        bank[i] := BankItem(id, (bank[i].amount + amount) % UINT32);
        assert Vaulted() == v[i := BankItem(id, (v[i].amount + amount) % UINT32)];
        return;
      }
      if bankCount < MAX_BANK_SIZE {
        owner.RemoveId(id, amount);
        bank[bankCount] := BankItem(id, amount);
        bankCount := bankCount + 1;
        assert Vaulted() == v + [BankItem(id, amount)];
      }
    }

    /** player_bank_remove */
    method BankRemove(id: nat, amount: nat) returns (moved: nat)
      requires Valid()
      modifies this`bankCount, bank
      ensures Valid() && (Vaulted(), moved) == BankRemoved(old(Vaulted()), id, amount)
    {
      hide EntryOf;
      ghost var v := Vaulted();
      var i := FindEntry(id);
      if i == bankCount {
        return 0;
      }
      assert v[i] == bank[i];
      if amount < bank[i].amount {
        bank[i] := BankItem(bank[i].id, bank[i].amount - amount);
        assert Vaulted() == v[i := BankItem(id, v[i].amount - amount)];
        return amount;
      }
      moved := bank[i].amount;
      CloseGap(bank, i, bankCount);
      bankCount := bankCount - 1;
      assert Vaulted() == v[..i] + v[i + 1..];
    }

    /** player_withdraw: how many items fell to the ground. */
    method Withdraw(id: nat, amount: nat) returns (dropped: nat)
      requires Valid() && amount < UINT32
      requires forall i :: 0 <= i < bankCount ==> bank[i].amount < UINT32
      modifies this`bankCount, bank, owner, owner.inventory
      ensures Valid()
      ensures (AsHoldings(), dropped) == Withdrawn(owner.cat, old(AsHoldings()), id, amount, uiBankOpen)
    {
      hide Given;
      dropped := 0;
      if !uiBankOpen || id !in owner.cat {
        return;
      }
      ghost var inv := owner.Items();
      var stacked := false;
      if owner.cat[id].weight == 0 {
        for i := 0 to owner.invCount
          invariant forall j :: 0 <= j < i ==> inv[j].id != id
          invariant !stacked
        {
          assert inv[i] == owner.inventory[i];
          if owner.inventory[i].id == id {
            stacked := true;
            break;
          }
        }
        assert stacked <==> SlotOf(inv, id) < |inv|;
      }
      var neededSpace := if owner.cat[id].weight == 0 then 1 else AsInt32(amount);
      if !stacked && MAX_INV_SIZE - owner.invCount < neededSpace {
        return;
      }
      var moved := BankRemove(id, amount);
      if moved > 0 {
        dropped := owner.Give(id, moved);
      }
    }
  }

  // ---- conservation --------------------------------------------------------------------------------------

  function Banked(bank: Vault, id: nat): nat {
    if EntryOf(bank, id) < |bank| then bank[EntryOf(bank, id)].amount else 0
  }

  /** What a player owns of an item. */
  function Total(h: Holdings, id: nat): nat {
    Amount(h.kit.inv, id) + Banked(h.bank, id)
  }

  /** One entry to an item, none of them empty or above the stack limit; 30 slots and 48 entries at most. */
  ghost predicate Orderly(cat: Catalog, h: Holdings) {
    && Tidy(cat, h.kit.inv) && |h.bank| <= MAX_BANK_SIZE
    && (forall i :: 0 <= i < |h.bank| ==> 1 <= h.bank[i].amount <= MAX_STACK_SIZE)
    && (forall i, j :: 0 <= i < j < |h.bank| ==> h.bank[i].id != h.bank[j].id)
  }

  lemma EntryUnique(bank: Vault, id: nat, i: nat)
    requires i < |bank| && bank[i].id == id && forall j, k :: 0 <= j < k < |bank| ==> bank[j].id != bank[k].id
    ensures EntryOf(bank, id) == i
  {
  }

  lemma EntryNone(bank: Vault, id: nat)
    requires forall i :: 0 <= i < |bank| ==> bank[i].id != id
    ensures Banked(bank, id) == 0
  {
  }

  /** An entry changed, appended or gone. */
  lemma BankedUpdate(bank: Vault, i: nat, amount: nat, other: nat)
    requires i < |bank| && forall j, k :: 0 <= j < k < |bank| ==> bank[j].id != bank[k].id
    ensures var now := bank[i := BankItem(bank[i].id, amount)];
            && (forall j, k :: 0 <= j < k < |now| ==> now[j].id != now[k].id)
            && Banked(now, other) == if other == bank[i].id then amount else Banked(bank, other)
  {
    var now := bank[i := BankItem(bank[i].id, amount)];
    forall j, k | 0 <= j < k < |now| ensures now[j].id != now[k].id {
      assert bank[j].id != bank[k].id;
    }
    var e := EntryOf(bank, other);
    if e < |bank| {
      EntryUnique(now, other, e);
    } else {
      EntryNone(now, other);
    }
    EntryUnique(bank, bank[i].id, i);
  }

  lemma BankedAppend(bank: Vault, it: BankItem, other: nat)
    requires forall j, k :: 0 <= j < k < |bank| ==> bank[j].id != bank[k].id
    requires EntryOf(bank, it.id) == |bank|
    ensures var now := bank + [it];
            && (forall j, k :: 0 <= j < k < |now| ==> now[j].id != now[k].id)
            && Banked(now, other) == if other == it.id then it.amount else Banked(bank, other)
  {
    var now := bank + [it];
    var e := EntryOf(bank, other);
    if other == it.id {
      EntryUnique(now, other, |bank|);
    } else if e < |bank| {
      EntryUnique(now, other, e);
    } else {
      EntryNone(now, other);
    }
  }

  lemma BankedGone(bank: Vault, i: nat, other: nat)
    requires i < |bank| && forall j, k :: 0 <= j < k < |bank| ==> bank[j].id != bank[k].id
    ensures var now := bank[..i] + bank[i + 1..];
            && (forall j, k :: 0 <= j < k < |now| ==> now[j].id != now[k].id)
            && Banked(now, other) == if other == bank[i].id then 0 else Banked(bank, other)
  {
    var now := bank[..i] + bank[i + 1..];
    forall j | 0 <= j < |now| ensures now[j] == bank[if j < i then j else j + 1] { }
    var e := EntryOf(bank, other);
    if other == bank[i].id {
      forall j | 0 <= j < |now| ensures now[j].id != other { }
      EntryNone(now, other);
    } else if e < |bank| {
      EntryUnique(now, other, if e < i then e else e - 1);
    } else {
      forall j | 0 <= j < |now| ensures now[j].id != other { }
      EntryNone(now, other);
    }
  }

  /**
   * The deposit that creates an item: all of a loose item are deposited at once while two of them are in the
   * first two slots, and the inventory keeps one.
   */
  predicate Duplicates(cat: Catalog, h: Holdings, id: nat, amount: nat, open: bool) {
    && Accepts(cat, h, id, amount, open) && !Stackable(cat, id)
    && Passed(h.kit.inv, id) && amount == Matches(h.kit.inv, id)
  }

  lemma HeldAmount(cat: Catalog, inv: Inv, id: nat, amount: nat)
    requires Tidy(cat, inv) && 1 <= amount
    ensures HeldId(cat, inv, id, amount) <==> Amount(inv, id) >= amount
    ensures !Stackable(cat, id) ==> Amount(inv, id) == Matches(inv, id) <= MAX_INV_SIZE
    ensures Stackable(cat, id) ==> Amount(inv, id) <= MAX_STACK_SIZE
  {
    hide Amount, Matches;
    if Stackable(cat, id) {
      StackAmount(cat, inv, id);
    } else {
      LooseAmount(cat, inv, id);
    }
  }

  lemma FreePart(stored: nat, amount: nat)
    requires stored <= MAX_STACK_SIZE && (MAX_STACK_SIZE - stored) % UINT32 >= amount
    ensures stored + amount <= MAX_STACK_SIZE && (stored + amount) % UINT32 == stored + amount
  {
  }

  lemma BankedAt(bank: Vault, i: nat)
    requires i < |bank| && forall j, k :: 0 <= j < k < |bank| ==> bank[j].id != bank[k].id
    ensures Banked(bank, bank[i].id) == bank[i].amount
  {
    EntryUnique(bank, bank[i].id, i);
  }

  lemma DepositBank(cat: Catalog, h: Holdings, id: nat, amount: nat, open: bool, other: nat)
    requires Orderly(cat, h) && 1 <= amount < UINT32 && Accepts(cat, h, id, amount, open)
    ensures var b := Deposited(cat, h, id, amount, open).bank;
            && |b| <= MAX_BANK_SIZE && (forall i :: 0 <= i < |b| ==> 1 <= b[i].amount <= MAX_STACK_SIZE)
            && (forall j, k :: 0 <= j < k < |b| ==> b[j].id != b[k].id)
            && Banked(b, other) == Banked(h.bank, other) + (if other == id then amount else 0)
  {
    hide Removed, HeldId, Amount, Matches, Tidy, Banked;
    HeldAmount(cat, h.kit.inv, id, amount);
    var i := EntryOf(h.bank, id);
    if i < |h.bank| {
      FreePart(h.bank[i].amount, amount);
      BankedAt(h.bank, i);
      BankedUpdate(h.bank, i, h.bank[i].amount + amount, other);
    } else {
      EntryNone(h.bank, id);
      BankedAppend(h.bank, BankItem(id, amount), other);
    }
  }

  lemma DepositKit(cat: Catalog, h: Holdings, id: nat, amount: nat, open: bool, other: nat)
    requires Orderly(cat, h) && 1 <= amount < UINT32 && Accepts(cat, h, id, amount, open)
    ensures var kit := Removed(cat, h.kit, id, amount);
            && Tidy(cat, kit.inv)
            && (other != id ==> Amount(kit.inv, other) == Amount(h.kit.inv, other))
            && Amount(kit.inv, id) == Amount(h.kit.inv, id) - amount
                                      + (if Duplicates(cat, h, id, amount, open) then 1 else 0)
  {
    hide Removed, Amount, Matches, Tidy;
    RemovedKeeps(cat, h.kit, id, amount, other);
    HeldAmount(cat, h.kit.inv, id, amount);
    if Stackable(cat, id) {
      RemovedStack(cat, h.kit, id, amount);
    } else {
      RemovedLoose(cat, h.kit, id, amount);
      LooseAmount(cat, Removed(cat, h.kit, id, amount).inv, id);
    }
  }

  /** A deposit conserves what is owned of every item, exactly unless it is one that duplicates; then one is gained. */
  lemma DepositConserves(cat: Catalog, h: Holdings, id: nat, amount: nat, open: bool, other: nat)
    requires Orderly(cat, h) && 1 <= amount < UINT32
    ensures var t := Deposited(cat, h, id, amount, open);
            && Orderly(cat, t)
            && (other != id ==> Total(t, other) == Total(h, other))
            && (Total(t, id) == Total(h, id) <==> !Duplicates(cat, h, id, amount, open))
            && (Duplicates(cat, h, id, amount, open) ==> Total(t, id) == Total(h, id) + 1)
  {
    hide Removed, Amount, Matches, Tidy, Banked, HeldId;
    if Accepts(cat, h, id, amount, open) {
      DepositBank(cat, h, id, amount, open, other);
      DepositBank(cat, h, id, amount, open, id);
      DepositKit(cat, h, id, amount, open, other);
    }
  }

  lemma WithdrawBank(cat: Catalog, h: Holdings, id: nat, amount: nat, other: nat)
    requires Orderly(cat, h) && 1 <= amount
    ensures var b := BankRemoved(h.bank, id, amount);
            && |b.0| <= MAX_BANK_SIZE && (forall i :: 0 <= i < |b.0| ==> 1 <= b.0[i].amount <= MAX_STACK_SIZE)
            && (forall j, k :: 0 <= j < k < |b.0| ==> b.0[j].id != b.0[k].id)
            && b.1 == (if amount < Banked(h.bank, id) then amount else Banked(h.bank, id)) <= MAX_STACK_SIZE
            && Banked(b.0, other) == Banked(h.bank, other) - (if other == id then b.1 else 0)
  {
    hide Tidy, EntryOf, Banked;
    var i := EntryOf(h.bank, id);
    if i == |h.bank| {
      EntryNone(h.bank, id);
    } else {
      BankedAt(h.bank, i);
      if amount >= h.bank[i].amount {
        BankedGone(h.bank, i, other);
        var now := h.bank[..i] + h.bank[i + 1..];
        forall j | 0 <= j < |now| ensures 1 <= now[j].amount <= MAX_STACK_SIZE {
          assert now[j] == h.bank[if j < i then j else j + 1];
        }
      } else {
        BankedUpdate(h.bank, i, h.bank[i].amount - amount, other);
      }
    }
  }

  /** The withdrawal that loses coins: the stack it goes to would exceed the limit. */
  predicate Overflows(cat: Catalog, h: Holdings, id: nat, amount: nat, open: bool) {
    && open && id in cat && Stackable(cat, id) && SlotOf(h.kit.inv, id) < |h.kit.inv|
    && Banked(h.bank, id) > 0
    && Amount(h.kit.inv, id) + (if amount < Banked(h.bank, id) then amount else Banked(h.bank, id)) > MAX_STACK_SIZE
  }

  /**
   * A withdrawal conserves what is owned of every item, what falls to the ground included, exactly unless it
   * overflows a stack. Something can fall only when the amount asked for is negative as a signed number.
   */
  lemma WithdrawConserves(cat: Catalog, h: Holdings, id: nat, amount: nat, open: bool, other: nat)
    requires Orderly(cat, h) && 1 <= amount < UINT32
    ensures var t := Withdrawn(cat, h, id, amount, open);
            && Orderly(cat, t.0)
            && (other != id ==> Total(t.0, other) == Total(h, other))
            && (Total(t.0, id) + t.1 == Total(h, id) <==> !Overflows(cat, h, id, amount, open))
            && (t.1 > 0 ==> AsInt32(amount) < 0 && !Stackable(cat, id))
  {
    hide Amount, Tidy, Banked, Given;
    if open && id in cat && HasRoom(cat, h.kit.inv, id, amount) {
      WithdrawBank(cat, h, id, amount, other);
      WithdrawBank(cat, h, id, amount, id);
      var moved := BankRemoved(h.bank, id, amount).1;
      if moved > 0 {
        GivenCounts(cat, h.kit.inv, id, moved, other);
        GivenDrops(cat, h.kit.inv, id, moved, amount);
      }
    }
  }

  lemma GivenDrops(cat: Catalog, inv: Inv, id: nat, moved: nat, amount: nat)
    requires Tidy(cat, inv) && HasRoom(cat, inv, id, amount) && moved <= amount < UINT32
    ensures Given(cat, inv, id, moved).1 > 0 ==> AsInt32(amount) < 0 && !Stackable(cat, id)
  {
  }

  // ---- when a transfer takes place -------------------------------------------------------------------------

  /**
   * A deposit puts exactly the amount into the bank, iff the bank is open, the player has that much, and the entry has
   * room for it, or, without an entry, there are fewer than 48; else nothing changes at all.
   */
  lemma DepositIff(cat: Catalog, h: Holdings, id: nat, amount: nat, open: bool)
    requires Orderly(cat, h) && 1 <= amount < UINT32
    ensures var t := Deposited(cat, h, id, amount, open);
            && (Banked(t.bank, id) == Banked(h.bank, id) + amount
                <==> && open && Amount(h.kit.inv, id) >= amount
                     && if Banked(h.bank, id) > 0 then Banked(h.bank, id) + amount <= 0x7fff_ffff else |h.bank| < 48)
            && (Banked(t.bank, id) != Banked(h.bank, id) + amount ==> t == h)
            && |h.bank| <= |t.bank| <= |h.bank| + 1
            && (forall i :: 0 <= i < |h.bank| && h.bank[i].id != id ==> t.bank[i] == h.bank[i])
            && (forall i :: 0 <= i < |h.bank| && h.bank[i].id == id ==> |t.bank| == |h.bank| && t.bank[i].id == id)
  {
    hide Removed, Amount, Matches, Tidy, HeldId, Banked, EntryOf;
    HeldAmount(cat, h.kit.inv, id, amount);
    EntryBanked(cat, h, id);
    if Accepts(cat, h, id, amount, open) {
      DepositBank(cat, h, id, amount, open, id);
    }
  }

  /** An item has an entry iff some of it is banked. */
  lemma EntryBanked(cat: Catalog, h: Holdings, id: nat)
    requires Orderly(cat, h)
    ensures EntryOf(h.bank, id) < |h.bank| <==> Banked(h.bank, id) > 0
    ensures EntryOf(h.bank, id) < |h.bank| ==> h.bank[EntryOf(h.bank, id)].amount == Banked(h.bank, id) <= MAX_STACK_SIZE
  {
    hide Tidy, EntryOf;
  }

  /** Where a withdrawal would put the items: onto a stack, or into as many new slots as the amount, read as signed, says. */
  predicate SpaceFor(cat: Catalog, inv: Inv, id: nat, amount: nat)
    requires id in cat
  {
    if cat[id].weight == 0 then |inv| < 30 || exists i :: 0 <= i < |inv| && inv[i].id == id
    else amount >= 0x8000_0000 || |inv| + amount <= 30
  }

  /**
   * A withdrawal takes exactly the amount, or what there is, out of the bank, iff the bank is open, the item is known
   * and there is space for it; else nothing changes at all.
   */
  lemma WithdrawIff(cat: Catalog, h: Holdings, id: nat, amount: nat, open: bool)
    requires Orderly(cat, h) && 1 <= amount < UINT32
    ensures var t := Withdrawn(cat, h, id, amount, open);
            var out := if amount < Banked(h.bank, id) then amount else Banked(h.bank, id);
            if open && id in cat && SpaceFor(cat, h.kit.inv, id, amount) then
              && Banked(t.0.bank, id) == Banked(h.bank, id) - out
              && (out > 0 ==> (t.0.kit.inv, t.1) == Given(cat, h.kit.inv, id, out))
              && (out == 0 ==> t == (h, 0))
              && (forall i :: 0 <= i < |h.bank| && h.bank[i].id == id ==>
                    t.0.bank == if out == h.bank[i].amount then h.bank[..i] + h.bank[i + 1..]
                                else h.bank[i := BankItem(id, h.bank[i].amount - out)])
            else t == (h, 0)
  {
    hide Tidy, Banked, EntryOf, Given;
    assert |h.kit.inv| <= MAX_INV_SIZE by { TidySize(cat, h.kit.inv); }
    if open && id in cat {
      SpaceIff(cat, h.kit.inv, id, amount);
      WithdrawBank(cat, h, id, amount, id);
      EntryBanked(cat, h, id);
    }
  }

  lemma TidySize(cat: Catalog, inv: Inv)
    requires Tidy(cat, inv)
    ensures |inv| <= MAX_INV_SIZE
  {
  }

  lemma SpaceIff(cat: Catalog, inv: Inv, id: nat, amount: nat)
    requires id in cat && |inv| <= MAX_INV_SIZE && 1 <= amount < UINT32
    ensures HasRoom(cat, inv, id, amount) <==> SpaceFor(cat, inv, id, amount)
  {
  }

  // ---- runs ------------------------------------------------------------------------------------------------

  datatype Transfer = Deposit(id: nat, amount: nat, open: bool) | Withdraw(id: nat, amount: nat, open: bool)

  function Transferred(cat: Catalog, h: Holdings, t: Transfer): Holdings {
    match t
    case Deposit(id, amount, open) => Deposited(cat, h, id, amount, open)
    case Withdraw(id, amount, open) => Withdrawn(cat, h, id, amount, open).0
  }

  function TransferredAll(cat: Catalog, h: Holdings, ts: seq<Transfer>): Holdings
    decreases |ts|
  {
    if |ts| == 0 then h else TransferredAll(cat, Transferred(cat, h, ts[0]), ts[1..])
  }

  /** How many of the item the transfer drops to the ground. */
  function DroppedBy(cat: Catalog, h: Holdings, t: Transfer, id: nat): nat {
    if t.Withdraw? && t.id == id then Withdrawn(cat, h, t.id, t.amount, t.open).1 else 0
  }

  function DroppedByAll(cat: Catalog, h: Holdings, ts: seq<Transfer>, id: nat): nat
    decreases |ts|
  {
    if |ts| == 0 then 0
    else DroppedBy(cat, h, ts[0], id) + DroppedByAll(cat, Transferred(cat, h, ts[0]), ts[1..], id)
  }

  /** A transfer of a positive amount that neither duplicates nor overflows. */
  predicate Fair(cat: Catalog, h: Holdings, t: Transfer) {
    && 1 <= t.amount < UINT32
    && if t.Deposit? then !Duplicates(cat, h, t.id, t.amount, t.open) else !Overflows(cat, h, t.id, t.amount, t.open)
  }

  predicate AllFair(cat: Catalog, h: Holdings, ts: seq<Transfer>)
    decreases |ts|
  {
    |ts| == 0 || (Fair(cat, h, ts[0]) && AllFair(cat, Transferred(cat, h, ts[0]), ts[1..]))
  }

  lemma TransferConserves(cat: Catalog, h: Holdings, t: Transfer, id: nat)
    requires Orderly(cat, h) && 1 <= t.amount < UINT32
    ensures Orderly(cat, Transferred(cat, h, t))
    ensures id != t.id || Fair(cat, h, t) <==> Total(Transferred(cat, h, t), id) + DroppedBy(cat, h, t, id) == Total(h, id)
  {
    hide Deposited, Withdrawn, Orderly, Duplicates, Overflows, Total;
    match t
    case Deposit(_, _, open) =>
      DepositConserves(cat, h, t.id, t.amount, open, id);
      DepositConserves(cat, h, t.id, t.amount, open, t.id);
    case Withdraw(_, _, open) =>
      WithdrawConserves(cat, h, t.id, t.amount, open, id);
      WithdrawConserves(cat, h, t.id, t.amount, open, t.id);
  }

  /**
   * Over every run of transfers that neither duplicate nor overflow, what is owned of an item and what falls to the
   * ground of it add up, and the holdings stay orderly.
   */
  lemma {:induction false} RunConserves(cat: Catalog, h: Holdings, ts: seq<Transfer>, id: nat)
    requires Orderly(cat, h) && AllFair(cat, h, ts)
    ensures Orderly(cat, TransferredAll(cat, h, ts))
    ensures Total(TransferredAll(cat, h, ts), id) + DroppedByAll(cat, h, ts, id) == Total(h, id)
    decreases |ts|
  {
    hide Transferred, Orderly, Total, DroppedBy, Duplicates, Overflows;
    if |ts| > 0 {
      TransferConserves(cat, h, ts[0], id);
      RunConserves(cat, Transferred(cat, h, ts[0]), ts[1..], id);
    }
  }

  // ---- plain transfers -------------------------------------------------------------------------------------

  /** Amounts are positive signed numbers, and loose items are deposited one at a time. */
  predicate Plain(cat: Catalog, t: Transfer) {
    && 1 <= t.amount <= MAX_STACK_SIZE
    && (t.Deposit? && !Stackable(cat, t.id) ==> t.amount == 1)
  }

  /** No stack of the player could exceed the limit. */
  ghost predicate Bounded(cat: Catalog, h: Holdings) {
    forall id :: Stackable(cat, id) ==> Total(h, id) <= MAX_STACK_SIZE
  }

  lemma PlainFair(cat: Catalog, h: Holdings, t: Transfer, id: nat)
    requires Orderly(cat, h) && Bounded(cat, h) && Plain(cat, t)
    ensures Fair(cat, h, t) && DroppedBy(cat, h, t, id) == 0
  {
    hide Orderly, Matches, HeldId, Withdrawn, Amount, EntryOf;
    if t.Deposit? {
      if Passed(h.kit.inv, t.id) {
        PassedTwo(h.kit.inv, t.id);
      }
    } else {
      WithdrawConserves(cat, h, t.id, t.amount, t.open, t.id);
    }
  }

  lemma PassedTwo(inv: Inv, id: nat)
    requires Passed(inv, id)
    ensures Matches(inv, id) >= 2
  {
    hide Matches;
    CountSlot(inv, 0, inv[0], id);
    HereFirst(Without(inv, 0), id);
  }

  /** Runs of plain transfers, with no more of anything than a stack holds, are fair, and drop nothing. */
  lemma {:induction false} PlainRunsFair(cat: Catalog, h: Holdings, ts: seq<Transfer>, id: nat)
    requires Orderly(cat, h) && Bounded(cat, h) && forall t :: t in ts ==> Plain(cat, t)
    ensures AllFair(cat, h, ts) && DroppedByAll(cat, h, ts, id) == 0
    decreases |ts|
  {
    hide Transferred, Orderly, Total, DroppedBy, Fair, Plain;
    if |ts| > 0 {
      var next := Transferred(cat, h, ts[0]);
      PlainFair(cat, h, ts[0], id);
      PlainAmount(cat, ts[0]);
      TransferConserves(cat, h, ts[0], id);
      forall other | Stackable(cat, other) ensures Total(next, other) <= MAX_STACK_SIZE {
        TransferConserves(cat, h, ts[0], other);
      }
      PlainRunsFair(cat, next, ts[1..], id);
    }
  }

  lemma PlainAmount(cat: Catalog, t: Transfer)
    requires Plain(cat, t)
    ensures 1 <= t.amount < UINT32
  {
  }

  // ---- the exceptions happen -------------------------------------------------------------------------------

  /** Two loose items in the first two slots are both deposited, and one of them stays. */
  lemma DuplicatesInstance(cat: Catalog, id: nat, bonus: Bonus)
    requires id in cat && cat[id].weight != 0
    ensures var item := InvItem(id, 1, false);
            var h := Holdings(Kit([item, item], bonus), []);
            && Orderly(cat, h) && Duplicates(cat, h, id, 2, true) && Total(h, id) == 2
            && Total(Deposited(cat, h, id, 2, true), id) == 3
  {
    hide HeldId, Deposited, Amount, Matches;
    var item := InvItem(id, 1, false);
    var h := Holdings(Kit([item, item], bonus), []);
    assert [item] + [item] == h.kit.inv;
    CountOne(item, id);
    CountAppend([item], [item], id);
    HeldAmount(cat, h.kit.inv, id, 2);
    DepositConserves(cat, h, id, 2, true, id);
  }

  /** A full stack in the inventory, one coin in the bank: the coin is withdrawn, and gone. */
  lemma OverflowsInstance(cat: Catalog, id: nat, bonus: Bonus)
    requires Stackable(cat, id)
    ensures var h := Holdings(Kit([InvItem(id, MAX_STACK_SIZE, false)], bonus), [BankItem(id, 1)]);
            && Orderly(cat, h) && Overflows(cat, h, id, 1, true)
            && var t := Withdrawn(cat, h, id, 1, true); Total(t.0, id) + t.1 < Total(h, id)
  {
    var item := InvItem(id, MAX_STACK_SIZE, false);
    var h := Holdings(Kit([item], bonus), [BankItem(id, 1)]);
    CountOne(item, id);
    var t := Withdrawn(cat, h, id, 1, true);
    assert SlotOf(h.kit.inv, id) == 0 && EntryOf(h.bank, id) == 0;
    assert t.0.kit.inv == [item] && t.0.bank == [] && t.1 == 0;
  }
}
