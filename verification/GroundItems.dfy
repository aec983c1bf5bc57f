/** Temporary ground items: the sweep that removes stale ones, and how long one can survive it. */
module GroundItems {
  import opened Arrays
  import Bits

  /** Ticks after which an item is stale. */
  const LIFETIME := 200

  /** A dropped item; its contents do not matter here. */
  datatype Item = Item(uniqueId: nat, creationTime: nat, kind: nat, stack: nat)

  predicate Stale(it: Item, now: nat) {
    now >= it.creationTime + LIFETIME
  }

  // ---- the operations as functions -----------------------------------------------------------------

  /**
   * Both removal loops of the server: an item that has to go is removed, and the item that moves into its place is
   * passed over.
   */
  function Skimmed(items: seq<Item>, goes: Item -> bool): (r: seq<Item>)
    ensures |r| <= |items|
    decreases |items|
  {
    if |items| == 0 then []
    else if !goes(items[0]) then [items[0]] + Skimmed(items[1..], goes)
    else if |items| == 1 then []
    else [items[1]] + Skimmed(items[2..], goes)
  }

  /** The sweep of stale items in server_tick. */
  function Swept(items: seq<Item>, now: nat): seq<Item> {
    Skimmed(items, it => Stale(it, now))
  }

  /** server_remove_temp_item */
  function Dropped(items: seq<Item>, uniqueId: nat): seq<Item> {
    Skimmed(items, (it: Item) => it.uniqueId == uniqueId)
  }

  lemma Split(done: seq<Item>, rest: seq<Item>)
    requires |rest| > 0
    ensures (done + rest)[|done|] == rest[0]
    ensures (done + rest)[..|done|] + (done + rest)[|done| + 1..] == done + rest[1..]
    ensures done + rest == done + [rest[0]] + rest[1..]
    ensures if |rest| > 1 then done + rest[1..] == done + [rest[1]] + rest[2..] else done + rest[1..] == done + []
  {
  }

  lemma Regroup(a: seq<Item>, x: Item, b: seq<Item>)
    ensures a + ([x] + b) == a + [x] + b
  {
  }

  lemma SkimmedOne(items: seq<Item>, goes: Item -> bool)
    requires |items| > 0
    ensures Skimmed(items, goes)
         == if !goes(items[0]) then [items[0]] + Skimmed(items[1..], goes)
            else if |items| > 1 then [items[1]] + Skimmed(items[2..], goes)
            else Skimmed([], goes)
  {
  }

  /** One turn of a removal loop. */
  lemma SkimmedFront(done: seq<Item>, rest: seq<Item>, goes: Item -> bool)
    requires |rest| > 0
    ensures done + Skimmed(rest, goes)
         == if !goes(rest[0]) then done + [rest[0]] + Skimmed(rest[1..], goes)
            else if |rest| > 1 then done + [rest[1]] + Skimmed(rest[2..], goes)
            else done + Skimmed([], goes)
  {
    hide Skimmed;
    SkimmedOne(rest, goes);
    Regroup(done, rest[0], Skimmed(rest[1..], goes));
    if |rest| > 1 {
      Regroup(done, rest[1], Skimmed(rest[2..], goes));
    }
  }

  lemma SkimmedNone(goes: Item -> bool)
    ensures Skimmed([], goes) == []
  {
  }

  // ---- in place ------------------------------------------------------------------------------------

  class ItemList {
    var items: array<Item>
    var count: nat
    var nextId: nat

    ghost predicate Valid()
      reads this
    {
      count <= items.Length
    }

    ghost function Contents(): (s: seq<Item>)
      requires Valid()
      reads this, items
      ensures |s| == count
    {
      items[..count]
    }

    /** The inner loop of a removal. */
    method TakeOut(i: nat)
      requires Valid() && i < count
      modifies this`count, items
      ensures Valid() && Contents() == old(Contents())[..i] + old(Contents())[i + 1..]
    {
      ghost var was := Contents();
      CloseGap(items, i, count);
      count := count - 1;
      assert Contents() == was[..i] + was[i + 1..];
    }

    /** The removal of stale items in server_tick. */
    method Sweep(now: nat)
      requires Valid()
      modifies this`count, items
      ensures Valid() && Contents() == Swept(old(Contents()), now)
    {
      hide Skimmed;
      var i := 0;
      ghost var goes := (it: Item) => Stale(it, now);
      ghost var done: seq<Item> := [];
      ghost var rest := Contents();
      while i < count
        invariant Valid() && (i == |done| || (rest == [] && i == count + 1))
        invariant Contents() == done + rest
        invariant Skimmed(old(Contents()), goes) == done + Skimmed(rest, goes)
        decreases count - i
      {
        SkimmedFront(done, rest, goes);
        Split(done, rest);
        assert items[i] == Contents()[i];
        if !Stale(items[i], now) {
          done, rest := done + [rest[0]], rest[1..];
          i := i + 1;
          continue;
        }
        TakeOut(i);
        if |rest| > 1 {
          done, rest := done + [rest[1]], rest[2..];
        } else {
          rest := [];
        }
        i := i + 1;
      }
      SkimmedNone(goes);
      assert Swept(old(Contents()), now) == Skimmed(old(Contents()), goes);
    }

    /** server_add_temp_item */
    method Add(now: nat, kind: nat, stack: nat)
      requires Valid()
      modifies this, items
      ensures Valid() && nextId == old(nextId) + 1
      ensures Contents() == old(Contents()) + [Item(old(nextId), now, kind, stack)]
    {
      ghost var was := Contents();
      var item := Item(nextId, now, kind, stack);
      nextId := nextId + 1;
      if count >= items.Length {
        var n := if items.Length == 0 then 128 else 2 * items.Length;
        var grown := new Item[n](_ => item);
        for j := 0 to count
          invariant grown[..j] == was[..j] && count == old(count) && items == old(items) && nextId == old(nextId) + 1
          invariant Contents() == was
        {
          assert items[j] == was[j];
          grown[j] := items[j];
        }
        assert was[..count] == was;
        items := grown;
      }
      assert Contents() == was;
      items[count] := item;
      count := count + 1;
      assert Contents()[..|was|] == was;
    }

    /** server_remove_temp_item */
    method Remove(uniqueId: nat)
      requires Valid()
      modifies this`count, items
      ensures Valid() && Contents() == Dropped(old(Contents()), uniqueId)
    {
      hide Skimmed;
      var i := 0;
      ghost var goes := (it: Item) => it.uniqueId == uniqueId;
      ghost var done: seq<Item> := [];
      ghost var rest := Contents();
      while i < count
        invariant Valid() && (i == |done| || (rest == [] && i == count + 1))
        invariant Contents() == done + rest
        invariant Skimmed(old(Contents()), goes) == done + Skimmed(rest, goes)
        decreases count - i
      {
        SkimmedFront(done, rest, goes);
        Split(done, rest);
        assert items[i] == Contents()[i];
        if items[i].uniqueId != uniqueId {
          done, rest := done + [rest[0]], rest[1..];
          i := i + 1;
          continue;
        }
        TakeOut(i);
        if |rest| > 1 {
          done, rest := done + [rest[1]], rest[2..];
        } else {
          rest := [];
        }
        i := i + 1;
      }
      SkimmedNone(goes);
      assert Dropped(old(Contents()), uniqueId) == Skimmed(old(Contents()), goes);
    }
  }

  // ---- what a sweep leaves -----------------------------------------------------------------------------

  ghost predicate Sorted(items: seq<Item>) {
    forall i, j :: 0 <= i < j < |items| ==> items[i].creationTime <= items[j].creationTime
  }

  /** How many items at the front are stale. */
  function StalePrefix(items: seq<Item>, now: nat): (k: nat)
    ensures k <= |items|
    ensures forall i :: 0 <= i < k ==> Stale(items[i], now)
    ensures k < |items| ==> !Stale(items[k], now)
  {
    if |items| == 0 || !Stale(items[0], now) then 0 else 1 + StalePrefix(items[1..], now)
  }

  /** The items at odd places. */
  function Odds(items: seq<Item>): (r: seq<Item>)
    ensures |r| == |items| / 2
    ensures forall i :: 0 <= i < |r| ==> r[i] == items[2 * i + 1]
    decreases |items|
  {
    if |items| < 2 then [] else [items[1]] + Odds(items[2..])
  }

  lemma {:induction false} SweptFresh(items: seq<Item>, now: nat)
    requires forall i :: 0 <= i < |items| ==> !Stale(items[i], now)
    ensures Swept(items, now) == items
    decreases |items|
  {
    if |items| > 0 {
      SweptFresh(items[1..], now);
      SweptFront(items, now);
    }
  }

  lemma SweptFront(items: seq<Item>, now: nat)
    requires |items| > 0
    ensures Swept(items, now)
         == if !Stale(items[0], now) then [items[0]] + Swept(items[1..], now)
            else if |items| == 1 then [] else [items[1]] + Swept(items[2..], now)
  {
  }

  /**
   * In a list ordered by age a sweep removes only stale items and keeps the order: of k stale items it leaves
   * those at odd places, and all others stay.
   */
  lemma {:induction false} SweptSorted(items: seq<Item>, now: nat)
    requires Sorted(items)
    ensures var k := StalePrefix(items, now);
            Swept(items, now) == Odds(items[..k]) + items[k..] && |Odds(items[..k])| == k / 2
    decreases |items|
  {
    hide Odds;
    var k := StalePrefix(items, now);
    if k == 0 {
      SweptFresh(items, now);
    } else if |items| == 1 {
      assert items[k..] == [];
    } else if k == 1 {
      forall i | 0 <= i < |items[2..]| ensures !Stale(items[2..][i], now) {
        assert items[1].creationTime <= items[i + 2].creationTime;
      }
      SweptFresh(items[2..], now);
      assert items[1..] == [items[1]] + items[2..];
    } else {
      PrefixDrop(items, now);
      SweptSorted(items[2..], now);
      TwoMore(items, now);
    }
  }

  lemma TwoMore(items: seq<Item>, now: nat)
    requires StalePrefix(items, now) >= 2
    requires var k := StalePrefix(items, now);
             Swept(items[2..], now) == Odds(items[2..][..k - 2]) + items[2..][k - 2..]
    ensures var k := StalePrefix(items, now);
            Swept(items, now) == Odds(items[..k]) + items[k..]
  {
    hide StalePrefix;
    var k := StalePrefix(items, now);
    assert items[..k][2..] == items[2..][..k - 2];
    assert items[2..][k - 2..] == items[k..];
    assert Odds(items[..k]) == [items[1]] + Odds(items[..k][2..]);
  }

  lemma PrefixDrop(items: seq<Item>, now: nat)
    requires StalePrefix(items, now) >= 2
    ensures StalePrefix(items[2..], now) == StalePrefix(items, now) - 2
  {
    assert items[1..][1..] == items[2..];
    assert StalePrefix(items, now) == 1 + StalePrefix(items[1..], now);
    assert StalePrefix(items[1..], now) == 1 + StalePrefix(items[1..][1..], now);
  }

  lemma {:induction false} StaleInPrefix(items: seq<Item>, now: nat, j: nat)
    requires Sorted(items) && j < |items| && Stale(items[j], now)
    ensures j < StalePrefix(items, now)
    decreases j
  {
    if j > 0 {
      assert items[0].creationTime <= items[j].creationTime;
      StaleInPrefix(items[1..], now, j - 1);
    }
  }

  /** A stale item at an even place goes, one at an odd place j comes to place (j - 1) / 2. */
  lemma SweptPlace(items: seq<Item>, now: nat, j: nat)
    requires Sorted(items) && j < |items| && Stale(items[j], now) && Distinct(items)
    ensures if j % 2 == 1 then (j - 1) / 2 < |Swept(items, now)| && Swept(items, now)[(j - 1) / 2] == items[j]
            else items[j] !in Swept(items, now)
  {
    hide Swept, Odds, StalePrefix;
    var k := StalePrefix(items, now);
    StaleInPrefix(items, now, j);
    SweptSorted(items, now);
    var odds := Odds(items[..k]);
    if j % 2 == 0 {
      forall i | 0 <= i < |odds| ensures odds[i] != items[j] {
        assert odds[i] == items[2 * i + 1];
      }
      forall i | k <= i < |items| ensures items[i] != items[j] { }
    }
  }

  // ---- runs -----------------------------------------------------------------------------------------------

  // ---- who goes and who stays -------------------------------------------------------------------------

  /** An item is stale when it is 200 ticks old. */
  lemma StaleAge(it: Item, now: nat)
    ensures Stale(it, now) <==> now - it.creationTime >= 200
  {
  }

  lemma {:induction false} SkimmedKeeps(items: seq<Item>, goes: Item -> bool, it: Item)
    requires it in items && !goes(it)
    ensures it in Skimmed(items, goes)
    decreases |items|
  {
    if goes(items[0]) {
      if it != items[1] {
        assert it in items[2..];
        SkimmedKeeps(items[2..], goes, it);
      }
    } else if it != items[0] {
      assert it in items[1..];
      SkimmedKeeps(items[1..], goes, it);
    }
  }

  /** No sweep takes an item before its time, in whatever order the list is. */
  lemma YoungStays(items: seq<Item>, now: nat, it: Item)
    requires it in items && now < it.creationTime + 200
    ensures it in Swept(items, now)
  {
    SkimmedKeeps(items, x => Stale(x, now), it);
  }

  /** Taking an item takes exactly that one, since ids are not given out twice. */
  lemma DroppedExact(items: seq<Item>, uniqueId: nat, i: nat)
    requires Distinct(items) && i < |items| && items[i].uniqueId == uniqueId
    ensures Dropped(items, uniqueId) == items[..i] + items[i + 1..]
  {
    SkimmedSkips(items, (it: Item) => it.uniqueId == uniqueId, i);
  }

  lemma DroppedNone(items: seq<Item>, uniqueId: nat)
    requires forall i :: 0 <= i < |items| ==> items[i].uniqueId != uniqueId
    ensures Dropped(items, uniqueId) == items
  {
    SkimmedAll(items, (it: Item) => it.uniqueId == uniqueId);
  }

  lemma {:induction false} SkimmedAll(items: seq<Item>, goes: Item -> bool)
    requires forall i :: 0 <= i < |items| ==> !goes(items[i])
    ensures Skimmed(items, goes) == items
    decreases |items|
  {
    if |items| > 0 {
      SkimmedAll(items[1..], goes);
    }
  }

  lemma {:induction false} SkimmedSkips(items: seq<Item>, goes: Item -> bool, i: nat)
    requires i < |items| && forall j :: 0 <= j < |items| ==> (goes(items[j]) <==> j == i)
    ensures Skimmed(items, goes) == items[..i] + items[i + 1..]
    decreases |items|
  {
    hide Skimmed;
    SkimmedOne(items, goes);
    if i == 0 {
      SkimmedNone(goes);
      if |items| > 1 {
        SkimmedAll(items[2..], goes);
        assert items[1..] == [items[1]] + items[2..];
      }
    } else {
      SkimmedSkips(items[1..], goes, i - 1);
      assert items[..i] == [items[0]] + items[1..][..i - 1];
      assert items[1..][i..] == items[i + 1..];
    }
  }


  datatype World = World(items: seq<Item>, nextId: nat, now: nat)

  /** A server tick, a dropped item, a taken item. */
  datatype Event = Tick | Add(kind: nat, stack: nat) | Take(uniqueId: nat)

  function Happen(w: World, e: Event): World {
    match e
    case Tick => w.(now := w.now + 1, items := Swept(w.items, w.now + 1))
    case Add(kind, stack) => w.(nextId := w.nextId + 1, items := w.items + [Item(w.nextId, w.now, kind, stack)])
    case Take(uniqueId) => w.(items := Dropped(w.items, uniqueId))
  }

  function HappenAll(w: World, events: seq<Event>): World
    decreases |events|
  {
    if |events| == 0 then w else HappenAll(Happen(w, events[0]), events[1..])
  }

  ghost predicate Distinct(items: seq<Item>) {
    forall i, j :: 0 <= i < j < |items| ==> items[i].uniqueId != items[j].uniqueId
  }

  /** The list is ordered by age and holds no id twice; ids and times are those already given out. */
  ghost predicate Ok(w: World) {
    && Sorted(w.items) && Distinct(w.items)
    && forall i :: 0 <= i < |w.items| ==> w.items[i].uniqueId < w.nextId && w.items[i].creationTime <= w.now
  }

  /** r is what is left of items: some of them, in the same order. */
  ghost predicate Thinned(items: seq<Item>, r: seq<Item>, place: seq<nat>) {
    && |place| == |r|
    && (forall i :: 0 <= i < |r| ==> i <= place[i] < |items| && r[i] == items[place[i]])
    && (forall i, j :: 0 <= i < j < |r| ==> place[i] < place[j])
  }

  lemma ThinnedMore(items: seq<Item>, keep: nat, r: seq<Item>, rest: seq<nat>) returns (place: seq<nat>)
    requires keep < |items| && Thinned(items[keep + 1..], r, rest)
    ensures Thinned(items, [items[keep]] + r, place)
  {
    place := [keep] + seq(|rest|, i requires 0 <= i < |rest| => rest[i] + keep + 1);
  }

  lemma {:induction false} SkimmedThins(items: seq<Item>, goes: Item -> bool) returns (place: seq<nat>)
    ensures Thinned(items, Skimmed(items, goes), place)
    decreases |items|
  {
    hide Skimmed, Thinned;
    if |items| == 0 {
      SkimmedNone(goes);
      place := NothingThinned(items);
    } else {
      SkimmedOne(items, goes);
      if !goes(items[0]) {
        var rest := SkimmedThins(items[1..], goes);
        place := ThinnedMore(items, 0, Skimmed(items[1..], goes), rest);
      } else if |items| > 1 {
        var rest := SkimmedThins(items[2..], goes);
        place := ThinnedMore(items, 1, Skimmed(items[2..], goes), rest);
      } else {
        SkimmedNone(goes);
        place := NothingThinned(items);
      }
    }
  }

  lemma NothingThinned(items: seq<Item>) returns (place: seq<nat>)
    ensures Thinned(items, [], place)
  {
    place := [];
  }

  lemma SweptThins(items: seq<Item>, now: nat) returns (place: seq<nat>)
    ensures Thinned(items, Swept(items, now), place)
  {
    hide Skimmed, Thinned;
    place := SkimmedThins(items, it => Stale(it, now));
  }

  lemma DroppedThins(items: seq<Item>, uniqueId: nat) returns (place: seq<nat>)
    ensures Thinned(items, Dropped(items, uniqueId), place)
  {
    hide Skimmed, Thinned;
    place := SkimmedThins(items, (it: Item) => it.uniqueId == uniqueId);
  }

  /** The order by age survives every event. */
  lemma HappenOk(w: World, e: Event)
    requires Ok(w)
    ensures Ok(Happen(w, e))
  {
    hide Swept, Dropped;
    match e
    case Tick => var place := SweptThins(w.items, w.now + 1);
    case Add(_, _) =>
    case Take(uniqueId) => var place := DroppedThins(w.items, uniqueId);
  }

  /** Where an item is; the length of the list if it is gone. */
  function PlaceOf(items: seq<Item>, it: Item): (i: nat)
    ensures i <= |items| && (i < |items| <==> it in items)
    ensures i < |items| ==> items[i] == it
    ensures forall j :: 0 <= j < i ==> items[j] != it
  {
    if |items| == 0 || items[0] == it then 0 else 1 + PlaceOf(items[1..], it)
  }

  /** Taking items only moves the others forward. */
  lemma TakeMoves(items: seq<Item>, r: seq<Item>, place: seq<nat>, it: Item)
    requires Thinned(items, r, place) && Distinct(items) && it in r
    ensures it in items && PlaceOf(r, it) <= PlaceOf(items, it)
  {
    var i := PlaceOf(r, it);
    assert items[place[i]] == it;
    assert PlaceOf(items, it) == place[i];
  }

  function Ticks(events: seq<Event>): nat {
    if |events| == 0 then 0 else (if events[0].Tick? then 1 else 0) + Ticks(events[1..])
  }

  /** One event: a stale item that survives a sweep has its place plus one at least halved. */
  lemma EventHalves(w: World, e: Event, it: Item)
    requires Ok(w) && it in w.items && Stale(it, w.now) && it in Happen(w, e).items
    ensures Stale(it, Happen(w, e).now)
    ensures (if e.Tick? then 2 else 1) * (PlaceOf(Happen(w, e).items, it) + 1) <= PlaceOf(w.items, it) + 1
  {
    hide Swept, Dropped;
    var j := PlaceOf(w.items, it);
    match e
    case Tick =>
      SweptPlace(w.items, w.now + 1, j);
      var place := SweptThins(w.items, w.now + 1);
      HappenOk(w, e);
      PlaceUnique(Happen(w, e).items, it, (j - 1) / 2);
    case Add(_, _) =>
      assert Happen(w, e).items[j] == it;
      PlaceUnique(w.items, it, j);
      HappenOk(w, e);
      PlaceUnique(Happen(w, e).items, it, j);
    case Take(uniqueId) =>
      var place := DroppedThins(w.items, uniqueId);
      TakeMoves(w.items, Happen(w, e).items, place, it);
  }

  lemma PlaceUnique(items: seq<Item>, it: Item, j: nat)
    requires Distinct(items) && j < |items| && items[j] == it
    ensures PlaceOf(items, it) == j
  {
  }

  lemma {:induction false} GoneStaysGone(w: World, events: seq<Event>, it: Item)
    requires Ok(w) && it !in w.items && it.uniqueId < w.nextId
    ensures it !in HappenAll(w, events).items
    decreases |events|
  {
    hide Swept, Dropped;
    if |events| > 0 {
      var e := events[0];
      HappenOk(w, e);
      match e {
        case Tick => var place := SweptThins(w.items, w.now + 1);
        case Add(_, _) =>
        case Take(uniqueId) => var place := DroppedThins(w.items, uniqueId);
      }
      GoneStaysGone(Happen(w, e), events[1..], it);
    }
  }

  /**
   * A stale item at place j is gone after any run of events with more than log2(j + 1) ticks in it: the place of
   * a stale item, plus one, at least halves with every tick.
   */
  lemma {:induction false} StaleItemGoes(w: World, events: seq<Event>, it: Item)
    requires Ok(w) && it in w.items && Stale(it, w.now)
    requires PlaceOf(w.items, it) + 1 < Bits.Pow2(Ticks(events))
    ensures it !in HappenAll(w, events).items
    decreases |events|
  {
    hide Happen;
    var e := events[0];
    var next := Happen(w, e);
    HappenOk(w, e);
    if it in next.items {
      EventHalves(w, e, it);
      StaleItemGoes(next, events[1..], it);
    } else {
      NextIdGrows(w, e);
      GoneStaysGone(next, events[1..], it);
    }
  }

  lemma NextIdGrows(w: World, e: Event)
    ensures Happen(w, e).nextId >= w.nextId
  {
  }

  /** The bound is reached: with nothing else happening, a stale item at place 2^t - 1 survives t ticks. */
  lemma {:induction false} BoundIsReached(w: World, t: nat, events: seq<Event>, it: Item)
    requires Ok(w) && Bits.Pow2(t) - 1 < |w.items| && w.items[Bits.Pow2(t) - 1] == it && Stale(it, w.now)
    requires |events| == t && forall e :: e in events ==> e.Tick?
    ensures it in HappenAll(w, events).items
    decreases t
  {
    hide Swept;
    if t > 0 {
      SweptPlace(w.items, w.now + 1, Bits.Pow2(t) - 1);
      HappenOk(w, Tick);
      assert events[0] == Tick;
      BoundIsReached(Happen(w, Tick), t - 1, events[1..], it);
    }
  }
}
