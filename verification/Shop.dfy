/** Shops with stock-dependent prices, and why trading with one in circles does not pay. */
module Shop {
  import opened Arrays
  import opened Limits

  const MAX_SHOP_STACK := 65535
  const MAX_SHOP_ITEMS := 40

  datatype ShopItem = ShopItem(
    id: nat, quantity: nat, curQuantity: nat, restock: nat, restockTimer: nat, removalTimer: nat)

  /** The numbers of struct shop_config that prices depend on; both modifiers are 8 bits wide. */
  datatype Terms = Terms(sellModifier: nat, buyModifier: nat, pawnLimit: nat)

  predicate ValidTerms(t: Terms) {
    t.sellModifier <= 255 && t.buyModifier <= 255
  }

  // ---- prices ------------------------------------------------------------------------------------

  /** shop_price_modifier */
  function PriceModifier(quantity: int, curQuantity: int): (d: int)
    ensures -127 <= d <= 127
    ensures -127 <= quantity - curQuantity <= 127 ==> curQuantity + d == quantity
    ensures d == -127 <==> curQuantity - quantity >= 127
    ensures d == 127 <==> quantity - curQuantity >= 127
  {
    var difference := quantity - curQuantity;
    if difference < -127 then -127 else if difference > 127 then 127 else difference
  }

  /** The price at a percentage: the product is a 32-bit unsigned number. */
  function PriceAt(percent: int, value: nat): nat {
    var mod := if percent < 10 then 10 else percent;
    mod * value % UINT32 / 100
  }

  /** What the shop pays for one more of an item it has cur of. */
  function BuyPrice(t: Terms, quantity: int, cur: int, value: nat): nat {
    PriceAt(t.buyModifier + PriceModifier(quantity, cur), value)
  }

  /** What the shop asks for one of an item it has cur of. */
  function SellPrice(t: Terms, quantity: int, cur: int, value: nat): nat {
    PriceAt(t.sellModifier + PriceModifier(quantity, cur), value)
  }

  /** No price of the item exceeds 32 bits, whatever the shop. */
  predicate Affordable(value: nat) {
    382 * value < UINT32
  }

  lemma ProductMonotone(a: nat, b: nat, v: nat)
    requires a <= b
    ensures a * v <= b * v
  {
  }

  lemma NoWrap(percent: nat, value: nat)
    requires percent <= 382 && Affordable(value)
    ensures percent * value % UINT32 == percent * value
  {
    ProductMonotone(percent, 382, value);
  }

  lemma PriceMonotone(p: int, q: int, value: nat)
    requires p <= q <= 382 && Affordable(value)
    ensures PriceAt(p, value) <= PriceAt(q, value)
  {
    hide Affordable;
    var a := if p < 10 then 10 else p;
    var b := if q < 10 then 10 else q;
    NoWrap(a, value);
    NoWrap(b, value);
    ProductMonotone(a, b, value);
  }

  /** Selling one item and buying it straight back never gains. */
  lemma BuyBackCosts(t: Terms, quantity: int, cur: int, value: nat)
    requires ValidTerms(t) && t.buyModifier < t.sellModifier && Affordable(value)
    ensures BuyPrice(t, quantity, cur, value) <= SellPrice(t, quantity, cur + 1, value)
  {
    PriceMonotone(t.buyModifier + PriceModifier(quantity, cur), t.sellModifier + PriceModifier(quantity, cur + 1), value);
  }

  /** If the shop's terms are not that way round, some item at some stock gains. */
  lemma TermsMustDiffer(t: Terms)
    requires ValidTerms(t) && t.buyModifier >= t.sellModifier
    ensures BuyPrice(t, 20, 0, 100) > SellPrice(t, 20, 1, 100)
  {
    assert PriceModifier(20, 0) == 20 && PriceModifier(20, 1) == 19;
    HundredPrice(t.buyModifier + 20);
    HundredPrice(t.sellModifier + 19);
  }

  lemma HundredPrice(p: int)
    requires 10 <= p <= 382
    ensures PriceAt(p, 100) == p
  {
  }

  // ---- a price that wraps around can be exploited ---------------------------------------------------

  lemma {:induction false} FindWrap(value: nat, lo: nat, hi: nat) returns (m: nat)
    requires lo <= hi && lo * value / UINT32 < hi * value / UINT32
    ensures lo <= m < hi && m * value / UINT32 < (m + 1) * value / UINT32
    decreases hi - lo
  {
    if lo * value / UINT32 < (lo + 1) * value / UINT32 {
      m := lo;
    } else {
      ProductMonotone(lo, lo + 1, value);
      m := FindWrap(value, lo + 1, hi);
    }
  }

  lemma WrapDrops(value: nat, m: nat)
    requires 10 <= m <= 381 && value <= UINT32 - 100
    requires m * value / UINT32 < (m + 1) * value / UINT32
    ensures PriceAt(m, value) > PriceAt(m + 1, value)
  {
    var a := m * value;
    var b := (m + 1) * value;
    assert b == a + value;
    assert b / UINT32 == a / UINT32 + 1;
    assert b % UINT32 == a % UINT32 + value - UINT32;
  }

  /** An item so dear that its price wraps can be sold to some shop for more than buying it back costs. */
  lemma WrapPays(value: nat) returns (t: Terms, quantity: nat, cur: nat)
    requires value < UINT32 && !Affordable(value)
    ensures ValidTerms(t) && t.buyModifier < t.sellModifier && quantity <= 65535 && cur < 65535
    ensures BuyPrice(t, quantity, cur, value) > SellPrice(t, quantity, cur + 1, value)
  {
    cur := 0;
    if value > UINT32 - 100 {
      t := Terms(255, 0, 0);
      quantity := 1000;
      NearTop(value, 127);
      NearTop(value, 382);
    } else {
      assert 10 * value / UINT32 < 382 * value / UINT32;
      var m := FindWrap(value, 10, 382);
      WrapDrops(value, m);
      if m <= 127 {
        t := Terms(2, 0, 0);
        quantity := m;
        assert PriceModifier(quantity, 0) == m && PriceModifier(quantity, 1) == m - 1;
      } else {
        t := Terms(m - 126, m - 127, 0);
        quantity := 1000;
        assert PriceModifier(quantity, 0) == 127 && PriceModifier(quantity, 1) == 127;
      }
    }
  }

  lemma NearTop(value: nat, m: nat)
    requires UINT32 - 100 < value < UINT32 && 10 <= m <= 382
    ensures PriceAt(m, value) == (UINT32 - m * (UINT32 - value)) / 100
  {
    var e := UINT32 - value;
    assert m * value == m * UINT32 - m * e;
    assert 0 < m * e < UINT32 by { ProductMonotone(m, 382, e); }
    assert m * value == (m - 1) * UINT32 + (UINT32 - m * e);
    Remainder(m - 1, UINT32 - m * e);
  }

  lemma Remainder(q: nat, r: nat)
    requires r < UINT32
    ensures (q * UINT32 + r) % UINT32 == r
  {
  }

  /** Selling and buying back an item is never a gain, in any shop at any stock, exactly for affordable items. */
  lemma NoGainIff(value: nat)
    requires value < UINT32
    ensures Affordable(value) <==>
              forall t: Terms, quantity: nat, cur: nat ::
                ValidTerms(t) && t.buyModifier < t.sellModifier && quantity <= 65535 && cur < 65535
                ==> BuyPrice(t, quantity, cur, value) <= SellPrice(t, quantity, cur + 1, value)
  {
    if Affordable(value) {
      forall t: Terms, quantity: nat, cur: nat | ValidTerms(t) && t.buyModifier < t.sellModifier
        ensures BuyPrice(t, quantity, cur, value) <= SellPrice(t, quantity, cur + 1, value)
      {
        BuyBackCosts(t, quantity, cur, value);
      }
    } else {
      var t, quantity, cur := WrapPays(value);
    }
  }

  // ---- trades as functions ---------------------------------------------------------------------------

  /** The first item with the id, or the number of items. */
  function Find(items: seq<ShopItem>, id: nat): (i: nat)
    ensures i <= |items|
    ensures i < |items| ==> items[i].id == id
    ensures forall j :: 0 <= j < i ==> items[j].id != id
  {
    if |items| == 0 || items[0].id == id then 0 else 1 + Find(items[1..], id)
  }

  /** What a customer does: hands over an item it holds, or asks for one with the coins and room it has. */
  datatype Trade =
    | Sell(id: nat, held: bool)
    | Buy(id: nat, stackable: bool, hasStack: bool, full: bool, coins: nat)

  /** The coins the shop pays out; negative when it takes coins in. */
  datatype Deal = Deal(items: seq<ShopItem>, paid: int)

  /** A pawned item takes over whatever restock timer the memory behind the last item holds. */
  function Pawned(t: Terms, id: nat, staleTimer: nat): ShopItem {
    ShopItem(id, 0, 1, 0, staleTimer, t.pawnLimit / 5)
  }

  /** shop_sell */
  function Sold(t: Terms, items: seq<ShopItem>, id: nat, held: bool, value: nat, staleTimer: nat): Deal {
    var i := Find(items, id);
    if !held then Deal(items, 0)
    else if i < |items| then
      var it := items[i];
      if it.curQuantity == MAX_SHOP_STACK then Deal(items, 0)
      else Deal(items[i := it.(curQuantity := it.curQuantity + 1)], BuyPrice(t, it.quantity, it.curQuantity, value))
    else if |items| < MAX_SHOP_ITEMS && t.pawnLimit != 0 then
      Deal(items + [Pawned(t, id, staleTimer)], t.buyModifier * value % UINT32 / 100)
    else Deal(items, 0)
  }

  /** The item after one is taken from the shop. */
  function Taken(it: ShopItem): ShopItem
    requires it.curQuantity > 0
  {
    it.(curQuantity := it.curQuantity - 1, restockTimer := if it.restock != 0 then it.restock / 5 else it.restockTimer)
  }

  /** shop_remove for a customer with the given coins */
  function Removed(t: Terms, items: seq<ShopItem>, id: nat, coins: nat, value: nat): Deal {
    var i := Find(items, id);
    if i == |items| || items[i].curQuantity == 0 then Deal(items, 0)
    else
      var it := items[i];
      var price: int := SellPrice(t, it.quantity, it.curQuantity, value);
      if coins < price then Deal(items, 0)
      else if it.curQuantity == 1 && it.restock == 0 then Deal(items[..i] + items[i + 1..], -price)
      else Deal(items[i := Taken(it)], -price)
  }

  /** shop_buy */
  function Bought(t: Terms, items: seq<ShopItem>, b: Trade, value: nat): Deal
    requires b.Buy?
  {
    if !(b.stackable && b.hasStack) && b.full then Deal(items, 0)
    else Removed(t, items, b.id, b.coins, value)
  }

  // ---- trades in place ---------------------------------------------------------------------------------

  class ShopConfig {
    const terms: Terms
    const items: array<ShopItem>
    var itemCount: nat
    var changed: bool

    ghost predicate Valid()
      reads this
    {
      items.Length == MAX_SHOP_ITEMS && itemCount <= MAX_SHOP_ITEMS
    }

    ghost function Stock(): seq<ShopItem>
      requires Valid()
      reads this, items
    {
      items[..itemCount]
    }

    /** shop_sell: the coins paid for the item. */
    method SellTo(id: nat, held: bool, value: nat) returns (paid: nat)
      requires Valid()
      modifies this, items
      ensures Valid()
      ensures exists stale: nat :: Deal(Stock(), paid) == Sold(terms, old(Stock()), id, held, value, stale)
      ensures changed == (old(changed) || Stock() != old(Stock()))
    {
      paid := 0;
      ghost var was := Stock();
      ghost var stale: nat := 0;
      if !held {
        assert Deal(Stock(), paid) == Sold(terms, was, id, held, value, stale);
        return;
      }
      for i := 0 to itemCount
        invariant Stock() == was && changed == old(changed)
        invariant forall j :: 0 <= j < i ==> was[j].id != id
      {
        if items[i].id == id {
          assert was[i] == items[i] && Find(was, id) == i;
          if items[i].curQuantity == MAX_SHOP_STACK {
            assert Deal(Stock(), paid) == Sold(terms, was, id, held, value, stale);
            return;
          }
          paid := BuyPrice(terms, items[i].quantity, items[i].curQuantity, value);
          items[i] := items[i].(curQuantity := items[i].curQuantity + 1);
          changed := true;
          assert Stock() == was[i := items[i]] && Stock()[i] != was[i];
          assert Deal(Stock(), paid) == Sold(terms, was, id, held, value, stale);
          return;
        }
      }
      assert Find(was, id) == |was|;
      if itemCount < MAX_SHOP_ITEMS {
        if terms.pawnLimit == 0 {
          assert Deal(Stock(), paid) == Sold(terms, was, id, held, value, stale);
          return;
        }
        paid := terms.buyModifier * value % UINT32 / 100;
        stale := items[itemCount].restockTimer;
        items[itemCount] := items[itemCount].(id := id, restock := 0, removalTimer := terms.pawnLimit / 5,
                                              quantity := 0, curQuantity := 1);
        itemCount := itemCount + 1;
        changed := true;
        assert Stock() == was + [Pawned(terms, id, stale)];
      }
      assert Deal(Stock(), paid) == Sold(terms, was, id, held, value, stale);
    }

    /** shop_remove for a customer: the coins taken, or -1. */
    method Remove(id: nat, coins: nat, value: nat) returns (taken: int)
      requires Valid()
      modifies this, items
      ensures Valid()
      ensures Deal(Stock(), if taken == -1 then 0 else -taken) == Removed(terms, old(Stock()), id, coins, value)
      ensures taken >= -1 && (taken == -1 ==> changed == old(changed)) && (taken != -1 ==> changed)
    {
      hide SellPrice;
      ghost var was := Stock();
      for i := 0 to itemCount
        invariant Stock() == was && changed == old(changed)
        invariant forall j :: 0 <= j < i ==> was[j].id != id
      {
        if items[i].id == id {
          assert was[i] == items[i] && Find(was, id) == i;
          if items[i].curQuantity == 0 {
            return -1;
          }
          var price := SellPrice(terms, items[i].quantity, items[i].curQuantity, value);
          if coins < price {
            return -1;
          }
          if items[i].curQuantity == 1 && items[i].restock == 0 {
            CloseGap(items, i, itemCount);
            itemCount := itemCount - 1;
            assert Stock() == was[..i] + was[i + 1..];
          } else {
            items[i] := Taken(items[i]);
            assert Stock() == was[i := Taken(was[i])];
          }
          changed := true;
          return price;
        }
      }
      assert Find(was, id) == |was|;
      taken := -1;
    }

    /** shop_buy: the coins taken for the item. */
    method BuyFrom(b: Trade, value: nat) returns (taken: int)
      requires Valid() && b.Buy?
      modifies this, items
      ensures Valid()
      ensures taken >= 0 && Deal(Stock(), -taken) == Bought(terms, old(Stock()), b, value)
    {
      taken := 0;
      if (b.stackable && b.hasStack) || !b.full {
        var r := Remove(b.id, b.coins, value);
        if r != -1 {
          taken := r;
        }
      }
    }
  }

  // ---- trading in circles ----------------------------------------------------------------------------------

  /** The item values of the configuration, by id. */
  type Values = map<nat, nat>

  function ValueOf(values: Values, id: nat): nat {
    if id in values then values[id] else 0
  }

  /** What the shop would have paid for cur of the item, had it bought them one by one. */
  function Worth(t: Terms, quantity: nat, cur: nat, value: nat): nat {
    if cur == 0 then 0 else Worth(t, quantity, cur - 1, value) + BuyPrice(t, quantity, cur - 1, value)
  }

  /** The potential of a stock. */
  function Potential(t: Terms, values: Values, items: seq<ShopItem>): nat {
    if |items| == 0 then 0
    else Worth(t, items[0].quantity, items[0].curQuantity, ValueOf(values, items[0].id))
         + Potential(t, values, items[1..])
  }

  /** One trade; an id that is no item does nothing. */
  function Traded(t: Terms, values: Values, items: seq<ShopItem>, trade: Trade, staleTimer: nat): Deal {
    if trade.id !in values then Deal(items, 0)
    else
      match trade
      case Sell(id, held) => Sold(t, items, id, held, values[id], staleTimer)
      case Buy(id, _, _, _, _) => Bought(t, items, trade, values[id])
  }

  /** All trades of a run, by whichever players; paid is the balance of coins. */
  function TradedAll(t: Terms, values: Values, items: seq<ShopItem>, trades: seq<(Trade, nat)>): Deal
    decreases |trades|
  {
    if |trades| == 0 then Deal(items, 0)
    else
      var first := Traded(t, values, items, trades[0].0, trades[0].1);
      var rest := TradedAll(t, values, first.items, trades[1..]);
      Deal(rest.items, first.paid + rest.paid)
  }

  ghost predicate Sound(t: Terms, values: Values) {
    ValidTerms(t) && t.buyModifier < t.sellModifier && forall id :: id in values ==> Affordable(values[id])
  }

  lemma {:induction false} PotentialUpdate(t: Terms, values: Values, items: seq<ShopItem>, i: nat, it: ShopItem)
    requires i < |items|
    ensures Potential(t, values, items[i := it]) - Worth(t, it.quantity, it.curQuantity, ValueOf(values, it.id))
         == Potential(t, values, items) - Worth(t, items[i].quantity, items[i].curQuantity, ValueOf(values, items[i].id))
    decreases |items|
  {
    hide Worth;
    if i == 0 {
      assert items[i := it][1..] == items[1..];
    } else {
      assert items[i := it][1..] == items[1..][i - 1 := it];
      PotentialUpdate(t, values, items[1..], i - 1, it);
    }
  }

  lemma {:induction false} PotentialRemove(t: Terms, values: Values, items: seq<ShopItem>, i: nat)
    requires i < |items|
    ensures Potential(t, values, items[..i] + items[i + 1..])
         == Potential(t, values, items) - Worth(t, items[i].quantity, items[i].curQuantity, ValueOf(values, items[i].id))
    decreases |items|
  {
    hide Worth;
    var less := items[..i] + items[i + 1..];
    if i == 0 {
      assert less == items[1..];
    } else {
      assert less[1..] == items[1..][..i - 1] + items[1..][i..];
      PotentialRemove(t, values, items[1..], i - 1);
    }
  }

  lemma {:induction false} PotentialAppend(t: Terms, values: Values, items: seq<ShopItem>, it: ShopItem)
    ensures Potential(t, values, items + [it])
         == Potential(t, values, items) + Worth(t, it.quantity, it.curQuantity, ValueOf(values, it.id))
    decreases |items|
  {
    hide Worth;
    if |items| == 0 {
      assert items + [it] == [it] && [it][1..] == [];
    } else {
      assert (items + [it])[1..] == items[1..] + [it];
      PotentialAppend(t, values, items[1..], it);
    }
  }

  /** A pawned item is not paid for better than a first stocked one. */
  lemma PawnPrice(t: Terms, value: nat)
    requires ValidTerms(t) && Affordable(value)
    ensures t.buyModifier * value % UINT32 / 100 <= BuyPrice(t, 0, 0, value)
  {
    var mod := if t.buyModifier < 10 then 10 else t.buyModifier;
    ProductMonotone(t.buyModifier, mod, value);
    ProductMonotone(mod, 382, value);
  }

  /** No trade pays out more coins than the potential grows, or takes in fewer than it falls. */
  lemma TradeBounded(t: Terms, values: Values, items: seq<ShopItem>, trade: Trade, staleTimer: nat)
    requires Sound(t, values)
    ensures var d := Traded(t, values, items, trade, staleTimer);
            d.paid <= Potential(t, values, d.items) - Potential(t, values, items)
  {
    hide BuyPrice, SellPrice, Potential;
    var id := trade.id;
    if id in values {
      var i := Find(items, id);
      match trade
      case Sell(_, held) =>
        if i < |items| {
          PotentialUpdate(t, values, items, i, items[i].(curQuantity := items[i].curQuantity + 1));
        } else {
          PotentialAppend(t, values, items, Pawned(t, id, staleTimer));
          PawnPrice(t, values[id]);
          assert Worth(t, 0, 1, values[id]) == Worth(t, 0, 0, values[id]) + BuyPrice(t, 0, 0, values[id]);
        }
      case Buy(_, _, _, _, _) =>
        if i < |items| && items[i].curQuantity > 0 {
          BuyBackCosts(t, items[i].quantity, items[i].curQuantity - 1, values[id]);
          PotentialUpdate(t, values, items, i, Taken(items[i]));
          PotentialRemove(t, values, items, i);
        }
    }
  }

  /**
   * Over any run of trades by any players, the coins paid out minus the coins taken in are at most the growth of
   * the potential.
   */
  lemma {:induction false} TradesBounded(t: Terms, values: Values, items: seq<ShopItem>, trades: seq<(Trade, nat)>)
    requires Sound(t, values)
    ensures var d := TradedAll(t, values, items, trades);
            d.paid <= Potential(t, values, d.items) - Potential(t, values, items)
    decreases |trades|
  {
    hide Traded, Potential;
    if |trades| > 0 {
      TradeBounded(t, values, items, trades[0].0, trades[0].1);
      TradesBounded(t, values, Traded(t, values, items, trades[0].0, trades[0].1).items, trades[1..]);
    }
  }

  /** The part of a stock the potential depends on. */
  function Counts(items: seq<ShopItem>): seq<(nat, nat, nat)> {
    seq(|items|, i requires 0 <= i < |items| => (items[i].id, items[i].quantity, items[i].curQuantity))
  }

  lemma {:induction false} CountsDecidePotential(t: Terms, values: Values, a: seq<ShopItem>, b: seq<ShopItem>)
    requires Counts(a) == Counts(b)
    ensures Potential(t, values, a) == Potential(t, values, b)
    decreases |a|
  {
    assert |a| == |Counts(a)| == |b|;
    if |a| > 0 {
      assert Counts(a)[0] == Counts(b)[0];
      forall i | 0 <= i < |a| - 1
        ensures Counts(a[1..])[i] == Counts(b[1..])[i]
      {
        assert Counts(a)[i + 1] == Counts(b)[i + 1];
      }
      CountsDecidePotential(t, values, a[1..], b[1..]);
    }
  }

  /** No run of trades that brings the stock back to where it was makes a profit. */
  lemma NoFreeCoins(t: Terms, values: Values, items: seq<ShopItem>, trades: seq<(Trade, nat)>)
    requires Sound(t, values)
    requires Counts(TradedAll(t, values, items, trades).items) == Counts(items)
    ensures TradedAll(t, values, items, trades).paid <= 0
  {
    TradesBounded(t, values, items, trades);
    CountsDecidePotential(t, values, items, TradedAll(t, values, items, trades).items);
  }

  // ---- what every trade does, exactly ------------------------------------------------------------------

  /** A price written out: the percentage moves with the shortage, by 127 at most, and never falls below 10. */
  function Written(percent: nat, quantity: nat, cur: nat, value: nat): nat {
    var shortage := quantity - cur;
    var shift := if shortage > 127 then 127 else if shortage < -127 then -127 else shortage;
    var p := if percent + shift > 10 then percent + shift else 10;
    p * value % 0x1_0000_0000 / 100
  }

  lemma PricesWritten(t: Terms, quantity: nat, cur: nat, value: nat)
    ensures BuyPrice(t, quantity, cur, value) == Written(t.buyModifier, quantity, cur, value)
    ensures SellPrice(t, quantity, cur, value) == Written(t.sellModifier, quantity, cur, value)
  {
  }

  /** The first entry of the item. */
  ghost predicate FirstOf(items: seq<ShopItem>, id: nat, i: nat) {
    i < |items| && items[i].id == id && forall j :: 0 <= j < i ==> items[j].id != id
  }

  ghost predicate NotStocked(items: seq<ShopItem>, id: nat) {
    forall i :: 0 <= i < |items| ==> items[i].id != id
  }

  /** A held item that the shop stocks, with room for one more: its first entry grows by one, at exactly the price. */
  lemma SaleExact(t: Terms, items: seq<ShopItem>, id: nat, value: nat, stale: nat, i: nat)
    requires FirstOf(items, id, i) && items[i].curQuantity < 65535
    ensures var d := Sold(t, items, id, true, value, stale);
            && d.items == items[i := items[i].(curQuantity := items[i].curQuantity + 1)]
            && d.paid == Written(t.buyModifier, items[i].quantity, items[i].curQuantity, value)
  {
    hide BuyPrice, Written;
    PricesWritten(t, items[i].quantity, items[i].curQuantity, value);
    assert Find(items, id) == i;
  }

  /** One it does not stock, where it takes things in pawn: a new entry at the end, at exactly its percentage. */
  lemma PawnExact(t: Terms, items: seq<ShopItem>, id: nat, value: nat, stale: nat)
    requires NotStocked(items, id) && |items| < 40 && t.pawnLimit > 0
    ensures var d := Sold(t, items, id, true, value, stale);
            && |d.items| == |items| + 1 && d.items[..|items|] == items
            && d.items[|items|] == ShopItem(id, 0, 1, 0, d.items[|items|].restockTimer, t.pawnLimit / 5)
            && d.paid == t.buyModifier * value % 0x1_0000_0000 / 100
  {
    assert Find(items, id) == |items|;
  }

  /** A sale happens iff the item is held, and its entry has room or the shop takes it in pawn; else nothing does. */
  lemma SaleIff(t: Terms, items: seq<ShopItem>, id: nat, held: bool, value: nat, stale: nat)
    ensures var d := Sold(t, items, id, held, value, stale);
            && (d.items != items
                <==> held && ((exists i: nat :: FirstOf(items, id, i) && items[i].curQuantity != 65535)
                              || (NotStocked(items, id) && |items| < 40 && t.pawnLimit > 0)))
            && (d.items == items ==> d.paid == 0)
  {
    hide BuyPrice;
    var i := Find(items, id);
    if i < |items| {
      assert FirstOf(items, id, i);
      assert items[i := items[i].(curQuantity := items[i].curQuantity + 1)][i] != items[i];
      assert forall j: nat :: FirstOf(items, id, j) ==> j == i;
    } else {
      assert NotStocked(items, id);
    }
  }

  /** For an item the shop stocks the payout is the growth of the potential. */
  lemma SaleGrowth(t: Terms, values: Values, items: seq<ShopItem>, id: nat, stale: nat, i: nat)
    requires FirstOf(items, id, i) && items[i].curQuantity < 65535 && id in values
    ensures var d := Sold(t, items, id, true, values[id], stale);
            d.paid == Potential(t, values, d.items) - Potential(t, values, items)
  {
    hide BuyPrice, Potential;
    assert Find(items, id) == i;
    PotentialUpdate(t, values, items, i, items[i].(curQuantity := items[i].curQuantity + 1));
  }

  /** A purchase happens iff there is a piece, the coins for it, and room; else nothing does. */
  lemma PurchaseIff(t: Terms, items: seq<ShopItem>, b: Trade, value: nat)
    requires b.Buy?
    ensures var d := Bought(t, items, b, value);
            && (d.items != items
                <==> && ((b.stackable && b.hasStack) || !b.full)
                     && exists i: nat :: Affords(t, items, b, value, i))
            && (d.items == items ==> d.paid == 0)
  {
    hide SellPrice, Written;
    var i := Find(items, b.id);
    if i < |items| {
      assert FirstOf(items, b.id, i);
      assert forall j: nat :: FirstOf(items, b.id, j) ==> j == i;
      PricesWritten(t, items[i].quantity, items[i].curQuantity, value);
      if items[i].curQuantity > 0 {
        assert items[i := Taken(items[i])][i] != items[i];
      }
      assert |items[..i] + items[i + 1..]| != |items|;
      var open := (b.stackable && b.hasStack) || !b.full;
      if open && Affords(t, items, b, value, i) {
        assert Bought(t, items, b, value).items != items;
      }
    } else {
      assert forall j: nat :: !FirstOf(items, b.id, j);
    }
  }

  /** The first entry of the item has a piece left, and the customer the coins for it. */
  ghost predicate Affords(t: Terms, items: seq<ShopItem>, b: Trade, value: nat, i: nat)
    requires b.Buy?
  {
    && FirstOf(items, b.id, i) && items[i].curQuantity > 0
    && b.coins >= Written(t.sellModifier, items[i].quantity, items[i].curQuantity, value)
  }

  /** Exactly the price is taken, and exactly one piece leaves; the last piece of what is not restocked takes its entry along. */
  lemma PurchaseExact(t: Terms, items: seq<ShopItem>, b: Trade, value: nat, i: nat)
    requires b.Buy? && ((b.stackable && b.hasStack) || !b.full) && Affords(t, items, b, value, i)
    ensures var d := Bought(t, items, b, value);
            var it := items[i];
            && d.paid == -(Written(t.sellModifier, it.quantity, it.curQuantity, value) as int)
            && if it.curQuantity == 1 && it.restock == 0 then d.items == items[..i] + items[i + 1..]
               else |d.items| == |items| && (forall j :: 0 <= j < |items| && j != i ==> d.items[j] == items[j])
                    && d.items[i] == it.(curQuantity := it.curQuantity - 1, restockTimer := d.items[i].restockTimer)
                    && d.items[i].restockTimer == (if it.restock == 0 then it.restockTimer else it.restock / 5)
  {
    hide SellPrice, Written;
    PricesWritten(t, items[i].quantity, items[i].curQuantity, value);
    assert Find(items, b.id) == i;
  }
}
