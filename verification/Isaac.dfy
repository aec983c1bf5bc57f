/** The ISAAC generator: its state, its blocks of 256 words, and the order in which they are drawn. */
module Isaac {

  const WORDS := 256

  /** struct isaac without the draw counter: the results and the internal state. */
  datatype State = State(randrsl: seq<bv32>, mm: seq<bv32>, aa: bv32, bb: bv32, cc: bv32)

  ghost predicate Shaped(s: State) {
    |s.randrsl| == WORDS && |s.mm| == WORDS
  }

  /** Addition modulo 2^32. */
  function Plus(a: bv32, b: bv32): bv32 {
    a + b
  }

  function Xor(a: bv32, b: bv32): bv32 {
    a ^ b
  }

  /** (x >> 2) % 256 */
  function LowPick(x: bv32): (i: nat)
    ensures i < WORDS
  {
    (x >> 2) as int % WORDS
  }

  /** (y >> 10) % 256 */
  function HighPick(y: bv32): (i: nat)
    ensures i < WORDS
  {
    (y >> 10) as int % WORDS
  }

  function Stirred(aa: bv32, i: nat): bv32 {
    if i % 4 == 0 then aa ^ (aa << 13)
    else if i % 4 == 1 then aa ^ (aa >> 6)
    else if i % 4 == 2 then aa ^ (aa << 2)
    else aa ^ (aa >> 16)
  }

  /** Pass i of the loop of doisaac. */
  function Pass(s: State, i: nat): (t: State)
    requires Shaped(s) && i < WORDS
    ensures Shaped(t)
  {
    var x := s.mm[i];
    var aa := Plus(s.mm[(i + 128) % WORDS], Stirred(s.aa, i));
    var y := Plus(Plus(s.mm[LowPick(x)], aa), s.bb);
    var mm := s.mm[i := y];
    var bb := Plus(mm[HighPick(y)], x);
    State(s.randrsl[i := bb], mm, aa, bb, s.cc)
  }

  function Passes(s: State, n: nat): (t: State)
    requires Shaped(s) && n <= WORDS
    ensures Shaped(t)
  {
    if n == 0 then s else Pass(Passes(s, n - 1), n - 1)
  }

  /** doisaac */
  function Shuffled(s: State): (t: State)
    requires Shaped(s)
    ensures Shaped(t)
  {
    Passes(s.(cc := Plus(s.cc, 1), bb := Plus(s.bb, Plus(s.cc, 1))), WORDS)
  }

  /** The state k shuffles later. */
  function Later(s: State, k: nat): (t: State)
    requires Shaped(s)
    ensures Shaped(t)
  {
    if k == 0 then s else Shuffled(Later(s, k - 1))
  }

  /** The generator with its draw counter. */
  datatype Source = Source(state: State, randcnt: nat)

  /** isaac_next */
  function Draw(g: Source): (r: (bv32, Source))
    requires Shaped(g.state) && g.randcnt <= WORDS
    ensures Shaped(r.1.state) && r.1.randcnt < WORDS
  {
    if g.randcnt == 0 then
      var s := Shuffled(g.state);
      (s.randrsl[255], Source(s, 255))
    else (g.state.randrsl[g.randcnt - 1], Source(g.state, g.randcnt - 1))
  }

  /** The generator after n draws. */
  function Drawn(g: Source, n: nat): (h: Source)
    requires Shaped(g.state) && g.randcnt <= WORDS
    ensures Shaped(h.state) && h.randcnt <= WORDS
  {
    if n == 0 then g else Draw(Drawn(g, n - 1)).1
  }

  function NthDraw(g: Source, n: nat): bv32
    requires Shaped(g.state) && g.randcnt <= WORDS
  {
    Draw(Drawn(g, n)).0
  }

  /** A generator as isaac_init leaves it: one block made, none of it drawn. */
  ghost predicate Ready(g: Source) {
    Shaped(g.state) && g.randcnt == WORDS
  }

  /** After n draws the generator is in block (n - 1) / 256, which is drawn from its end. */
  lemma {:induction false} DrawnMeaning(g: Source, n: nat)
    requires Ready(g)
    ensures n == 0 ==> Drawn(g, n) == g
    ensures n > 0 ==> Drawn(g, n) == Source(Later(g.state, (n - 1) / WORDS), 255 - (n - 1) % WORDS)
    decreases n
  {
    hide Shuffled;
    if n > 0 {
      DrawnMeaning(g, n - 1);
      if n > 1 {
        if (n - 2) % WORDS == 255 {
          assert (n - 1) / WORDS == (n - 2) / WORDS + 1 && (n - 1) % WORDS == 0;
        } else {
          assert (n - 1) / WORDS == (n - 2) / WORDS && (n - 1) % WORDS == (n - 2) % WORDS + 1;
        }
      }
    }
  }

  /** The n-th draw is word 255 - n % 256 of block n / 256. */
  lemma NthDrawMeaning(g: Source, n: nat)
    requires Ready(g)
    ensures NthDraw(g, n) == Later(g.state, n / WORDS).randrsl[255 - n % WORDS]
  {
    hide Shuffled;
    DrawnMeaning(g, n);
    DrawnMeaning(g, n + 1);
    if n > 0 {
      if (n - 1) % WORDS == 255 {
        assert n / WORDS == (n - 1) / WORDS + 1 && n % WORDS == 0;
      } else {
        assert n / WORDS == (n - 1) / WORDS && n % WORDS == (n - 1) % WORDS + 1;
      }
    }
  }

  /** The block and the word that the n-th draw takes. */
  function PlaceOfDraw(n: nat): (nat, nat) {
    (n / WORDS, 255 - n % WORDS)
  }

  /** Every word of every block is drawn, by one draw and no other. */
  lemma EachWordOnce(g: Source, block: nat, word: nat)
    requires Ready(g) && word < WORDS
    ensures exists n :: PlaceOfDraw(n) == (block, word) && NthDraw(g, n) == Later(g.state, block).randrsl[word]
    ensures forall m, n :: PlaceOfDraw(m) == PlaceOfDraw(n) ==> m == n
  {
    hide Shuffled;
    var n := block * WORDS + (255 - word);
    assert PlaceOfDraw(n) == (block, word);
    NthDrawMeaning(g, n);
  }

  // ---- seeding ---------------------------------------------------------------------------------

  /** The eight words that isaac_init stirs. */
  datatype Eight = Eight(a: bv32, b: bv32, c: bv32, d: bv32, e: bv32, f: bv32, g: bv32, h: bv32)

  const GOLDEN: bv32 := 0x9e37_79b9

  /** How often the golden ratio is stirred, and how many blocks of eight words there are. */
  const SCRAMBLES: nat := 4
  const BLOCKS: nat := 32

  // The shifts of the macro mix.
  function Left8(x: bv32): bv32 { x << 8 }
  function Left10(x: bv32): bv32 { x << 10 }
  function Left11(x: bv32): bv32 { x << 11 }
  function Right2(x: bv32): bv32 { x >> 2 }
  function Right4(x: bv32): bv32 { x >> 4 }
  function Right9(x: bv32): bv32 { x >> 9 }
  function Right16(x: bv32): bv32 { x >> 16 }

  /**
   * One line of the macro mix: the first of the eight takes in a shifted neighbour, and the fourth and second grow.
   * The words move up by one, so that the next line starts at the front.
   */
  function MixLine(m: Eight, shifted: bv32): Eight {
    var a := Xor(m.a, shifted);
    Eight(Plus(m.b, m.c), m.c, Plus(m.d, a), m.e, m.f, m.g, m.h, a)
  }

  /** The macro mix; after eight lines every word is back in its place. */
  function Mix(m: Eight): Eight {
    var m := MixLine(m, Left11(m.b));
    var m := MixLine(m, Right2(m.b));
    var m := MixLine(m, Left8(m.b));
    var m := MixLine(m, Right16(m.b));
    var m := MixLine(m, Left10(m.b));
    var m := MixLine(m, Right4(m.b));
    var m := MixLine(m, Left8(m.b));
    MixLine(m, Right9(m.b))
  }

  function MixTimes(m: Eight, n: nat): Eight {
    if n == 0 then m else Mix(MixTimes(m, n - 1))
  }

  function Words(m: Eight): (w: seq<bv32>)
    ensures |w| == 8
  {
    [m.a, m.b, m.c, m.d, m.e, m.f, m.g, m.h]
  }

  /** Eight words of the seed are added to the eight, when the seed is used. */
  function AddWords(m: Eight, w: seq<bv32>, flag: bool): Eight
    requires |w| == 8
  {
    if !flag then m
    else Eight(Plus(m.a, w[0]), Plus(m.b, w[1]), Plus(m.c, w[2]), Plus(m.d, w[3]),
               Plus(m.e, w[4]), Plus(m.f, w[5]), Plus(m.g, w[6]), Plus(m.h, w[7]))
  }

  /** The first n blocks of eight words that a pass over the given words makes, and the eight it ends with. */
  function Filled(w: seq<bv32>, m: Eight, flag: bool, n: nat): (r: (seq<bv32>, Eight))
    requires 8 * n <= |w|
    ensures |r.0| == 8 * n
  {
    if n == 0 then ([], m)
    else
      var before := Filled(w, m, flag, n - 1);
      var mixed := Mix(AddWords(before.1, w[8 * (n - 1)..8 * n], flag));
      (before.0 + Words(mixed), mixed)
  }

  function Golden(): Eight {
    Eight(GOLDEN, GOLDEN, GOLDEN, GOLDEN, GOLDEN, GOLDEN, GOLDEN, GOLDEN)
  }

  /** What isaac_init leaves in mm before it shuffles: one pass over the seed, and with the seed in use a second one. */
  function SeedMemory(seed: seq<bv32>, flag: bool, start: Eight): (mm: seq<bv32>)
    requires |seed| == WORDS
    ensures |mm| == WORDS
  {
    var first := Filled(seed, start, flag, BLOCKS);
    if flag then Filled(first.0, first.1, true, BLOCKS).0 else first.0
  }

  /** isaac_init, from the seed in randrsl: a block is ready, and it took one shuffle. */
  function Seeded(seed: seq<bv32>, flag: bool): (g: Source)
    requires |seed| == WORDS
    ensures Ready(g) && g.state.cc == 1
  {
    hide Mix, MixTimes, Filled, Passes;
    var s := State(seed, SeedMemory(seed, flag, MixTimes(Golden(), SCRAMBLES)), 0, 0, 0);
    ShuffledCounts(s);
    Source(Shuffled(s), WORDS)
  }

  lemma ShuffledCounts(s: State)
    requires Shaped(s)
    ensures Shuffled(s).cc == Plus(s.cc, 1)
  {
    hide Pass, Plus;
    PassesKeepCount(s.(cc := Plus(s.cc, 1), bb := Plus(s.bb, Plus(s.cc, 1))), WORDS);
  }

  lemma {:induction false} PassesKeepCount(s: State, n: nat)
    requires Shaped(s) && n <= WORDS
    ensures Passes(s, n).cc == s.cc
    decreases n
  {
    if n > 0 {
      PassesKeepCount(s, n - 1);
    }
  }

  // ---- nothing is lost in a shuffle ------------------------------------------------------------------

  /** The part of the state that a shuffle works on. */
  ghost predicate SameCore(s: State, t: State) {
    s.mm == t.mm && s.aa == t.aa && s.bb == t.bb && s.cc == t.cc
  }

  // Shifting and adding the shifted bits back in, as often as it takes, undoes a stir.

  function UnstirLeft13(x: bv32): bv32 { x ^ (x << 13) ^ (x << 26) }

  function UnstirRight6(x: bv32): bv32 { x ^ (x >> 6) ^ (x >> 12) ^ (x >> 18) ^ (x >> 24) ^ (x >> 30) }

  function UnstirLeft2(x: bv32): bv32 {
    var y := x ^ (x << 2) ^ (x << 4) ^ (x << 6);
    y ^ (y << 8) ^ (y << 16) ^ (y << 24)
  }

  function UnstirRight16(x: bv32): bv32 { x ^ (x >> 16) }

  lemma UndoLeft13(a: bv32)
    ensures UnstirLeft13(a ^ (a << 13)) == a
  {
  }

  lemma UndoRight6(a: bv32)
    ensures UnstirRight6(a ^ (a >> 6)) == a
  {
  }

  lemma UndoLeft2(a: bv32)
    ensures UnstirLeft2(a ^ (a << 2)) == a
  {
  }

  lemma UndoRight16(a: bv32)
    ensures UnstirRight16(a ^ (a >> 16)) == a
  {
  }

  lemma StirInjective(a: bv32, b: bv32, i: nat)
    requires Stirred(a, i) == Stirred(b, i)
    ensures a == b
  {
    hide UnstirLeft13, UnstirRight6, UnstirLeft2, UnstirRight16;
    if i % 4 == 0 {
      UndoLeft13(a);
      UndoLeft13(b);
    } else if i % 4 == 1 {
      UndoRight6(a);
      UndoRight6(b);
    } else if i % 4 == 2 {
      UndoLeft2(a);
      UndoLeft2(b);
    } else {
      UndoRight16(a);
      UndoRight16(b);
    }
  }

  function Minus(x: bv32, a: bv32): bv32 {
    x - a
  }

  lemma MinusPlus(a: bv32, b: bv32)
    ensures Minus(Plus(a, b), a) == b
    ensures Minus(Plus(b, a), a) == b
  {
  }

  lemma PlusCancels(a: bv32, b: bv32, c: bv32)
    ensures Plus(a, b) == Plus(a, c) ==> b == c
    ensures Plus(b, a) == Plus(c, a) ==> b == c
  {
    hide Plus, Minus;
    MinusPlus(a, b);
    MinusPlus(a, c);
  }

  /** A pass can be undone: two states that it makes equal were equal. */
  lemma PassInjective(s: State, t: State, i: nat)
    requires Shaped(s) && Shaped(t) && i < WORDS && SameCore(Pass(s, i), Pass(t, i))
    ensures SameCore(s, t)
  {
    hide Plus, Stirred, LowPick, HighPick;
    var u := Pass(s, i);
    var v := Pass(t, i);
    var y := u.mm[i];
    assert v.mm[i] == y;
    PlusCancels(u.mm[HighPick(y)], s.mm[i], t.mm[i]);
    assert s.mm == u.mm[i := s.mm[i]] && t.mm == v.mm[i := t.mm[i]];
    PlusCancels(s.mm[(i + 128) % WORDS], Stirred(s.aa, i), Stirred(t.aa, i));
    StirInjective(s.aa, t.aa, i);
    PlusCancels(Plus(s.mm[LowPick(s.mm[i])], u.aa), s.bb, t.bb);
  }

  lemma {:induction false} PassesInjective(s: State, t: State, n: nat)
    requires Shaped(s) && Shaped(t) && n <= WORDS && SameCore(Passes(s, n), Passes(t, n))
    ensures SameCore(s, t)
    decreases n
  {
    hide Pass;
    if n > 0 {
      PassInjective(Passes(s, n - 1), Passes(t, n - 1), n - 1);
      PassesInjective(s, t, n - 1);
    }
  }

  /** No two states shuffle to the same one, so the generator never falls into a shorter cycle than it started on. */
  lemma ShuffleInjective(s: State, t: State)
    requires Shaped(s) && Shaped(t) && SameCore(Shuffled(s), Shuffled(t))
    ensures SameCore(s, t)
  {
    hide Passes, Plus;
    var u := s.(cc := Plus(s.cc, 1), bb := Plus(s.bb, Plus(s.cc, 1)));
    var v := t.(cc := Plus(t.cc, 1), bb := Plus(t.bb, Plus(t.cc, 1)));
    PassesInjective(u, v, WORDS);
    PlusCancels(1, s.cc, t.cc);
    PlusCancels(Plus(s.cc, 1), s.bb, t.bb);
  }

  // ---- every word of the seed counts -----------------------------------------------------------------

  lemma XorTwice(a: bv32, x: bv32)
    ensures Xor(Xor(a, x), x) == a
  {
  }

  lemma XorCancels(a: bv32, b: bv32, x: bv32)
    ensures Xor(a, x) == Xor(b, x) ==> a == b
  {
    hide Xor;
    XorTwice(a, x);
    XorTwice(b, x);
  }

  /** A line of the mix can be undone by whoever knows the shifted word, which it leaves alone. */
  lemma LineInjective(m: Eight, n: Eight, x: bv32, y: bv32)
    requires MixLine(m, x) == MixLine(n, y)
    ensures m.b == n.b && (x == y ==> m == n)
  {
    hide Plus, Xor;
    PlusCancels(m.c, m.b, n.b);
    PlusCancels(Xor(m.a, x), m.d, n.d);
    XorCancels(m.a, n.a, x);
  }

  /** Mixing loses nothing. */
  lemma MixInjective(m: Eight, n: Eight)
    requires Mix(m) == Mix(n)
    ensures m == n
  {
    hide MixLine, Left8, Left10, Left11, Right2, Right4, Right9, Right16;
    var m1, n1 := MixLine(m, Left11(m.b)), MixLine(n, Left11(n.b));
    var m2, n2 := MixLine(m1, Right2(m1.b)), MixLine(n1, Right2(n1.b));
    var m3, n3 := MixLine(m2, Left8(m2.b)), MixLine(n2, Left8(n2.b));
    var m4, n4 := MixLine(m3, Right16(m3.b)), MixLine(n3, Right16(n3.b));
    var m5, n5 := MixLine(m4, Left10(m4.b)), MixLine(n4, Left10(n4.b));
    var m6, n6 := MixLine(m5, Right4(m5.b)), MixLine(n5, Right4(n5.b));
    var m7, n7 := MixLine(m6, Left8(m6.b)), MixLine(n6, Left8(n6.b));
    LineInjective(m7, n7, Right9(m7.b), Right9(n7.b));
    LineInjective(m6, n6, Left8(m6.b), Left8(n6.b));
    LineInjective(m5, n5, Right4(m5.b), Right4(n5.b));
    LineInjective(m4, n4, Left10(m4.b), Left10(n4.b));
    LineInjective(m3, n3, Right16(m3.b), Right16(n3.b));
    LineInjective(m2, n2, Left8(m2.b), Left8(n2.b));
    LineInjective(m1, n1, Right2(m1.b), Right2(n1.b));
    LineInjective(m, n, Left11(m.b), Left11(n.b));
  }

  lemma AddWordsInjective(m: Eight, n: Eight, v: seq<bv32>, w: seq<bv32>)
    requires |v| == |w| == 8 && AddWords(m, v, true) == AddWords(n, w, true)
    ensures m == n ==> v == w
    ensures v == w ==> m == n
  {
    hide Plus;
    PlusCancels(m.a, v[0], w[0]);
    PlusCancels(m.b, v[1], w[1]);
    PlusCancels(m.c, v[2], w[2]);
    PlusCancels(m.d, v[3], w[3]);
    PlusCancels(m.e, v[4], w[4]);
    PlusCancels(m.f, v[5], w[5]);
    PlusCancels(m.g, v[6], w[6]);
    PlusCancels(m.h, v[7], w[7]);
    PlusCancels(v[0], m.a, n.a);
    PlusCancels(v[1], m.b, n.b);
    PlusCancels(v[2], m.c, n.c);
    PlusCancels(v[3], m.d, n.d);
    PlusCancels(v[4], m.e, n.e);
    PlusCancels(v[5], m.f, n.f);
    PlusCancels(v[6], m.g, n.g);
    PlusCancels(v[7], m.h, n.h);
  }

  /** The words of block k. */
  function Block(w: seq<bv32>, k: nat): (b: seq<bv32>)
    requires 8 * k + 8 <= |w|
    ensures |b| == 8
  {
    w[8 * k..8 * k + 8]
  }

  lemma WordsInjective(m: Eight, n: Eight)
    ensures Words(m) == Words(n) ==> m == n
  {
    hide Words;
    WordsAt(m);
    WordsAt(n);
  }

  lemma WordsAt(m: Eight)
    ensures var w := Words(m);
            m == Eight(w[0], w[1], w[2], w[3], w[4], w[5], w[6], w[7])
  {
  }

  /** Block k of a pass is mixed from block k of the words and the block before. */
  lemma {:induction false} BlockMixed(w: seq<bv32>, m: Eight, k: nat, n: nat)
    requires k < n && 8 * n <= |w|
    ensures Block(Filled(w, m, true, n).0, k)
         == Words(Mix(AddWords(Filled(w, m, true, k).1, Block(w, k), true)))
    ensures Words(Filled(w, m, true, k + 1).1) == Block(Filled(w, m, true, n).0, k)
    decreases n
  {
    hide Mix, AddWords, Words;
    if k < n - 1 {
      BlockMixed(w, m, k, n - 1);
    }
  }

  /** Where the words of two passes are the same up to block k, so is what is mixed from them. */
  lemma {:induction false} SameStart(v: seq<bv32>, w: seq<bv32>, m: Eight, k: nat)
    requires |v| == |w| && 8 * k <= |v| && v[..8 * k] == w[..8 * k]
    ensures Filled(v, m, true, k) == Filled(w, m, true, k)
    decreases k
  {
    hide Mix, AddWords, Words;
    if k > 0 {
      assert v[..8 * (k - 1)] == v[..8 * k][..8 * (k - 1)] && w[..8 * (k - 1)] == w[..8 * k][..8 * (k - 1)];
      assert v[8 * (k - 1)..8 * k] == v[..8 * k][8 * (k - 1)..] && w[8 * (k - 1)..8 * k] == w[..8 * k][8 * (k - 1)..];
      SameStart(v, w, m, k - 1);
    }
  }

  /** Different eights, fed the same words, stay different in every block. */
  lemma {:induction false} StaysDifferent(v: seq<bv32>, w: seq<bv32>, m: Eight, n: Eight, k: nat)
    requires |v| == |w| && 8 * k <= |v| && v[..8 * k] == w[..8 * k] && m != n
    ensures Filled(v, m, true, k).1 != Filled(w, n, true, k).1
    decreases k
  {
    hide Mix, AddWords, Words;
    if k > 0 {
      assert v[..8 * (k - 1)] == v[..8 * k][..8 * (k - 1)] && w[..8 * (k - 1)] == w[..8 * k][..8 * (k - 1)];
      assert v[8 * (k - 1)..8 * k] == v[..8 * k][8 * (k - 1)..] && w[8 * (k - 1)..8 * k] == w[..8 * k][8 * (k - 1)..];
      StaysDifferent(v, w, m, n, k - 1);
      var x := AddWords(Filled(v, m, true, k - 1).1, v[8 * (k - 1)..8 * k], true);
      var y := AddWords(Filled(w, n, true, k - 1).1, w[8 * (k - 1)..8 * k], true);
      if Mix(x) == Mix(y) {
        MixInjective(x, y);
        AddWordsInjective(Filled(v, m, true, k - 1).1, Filled(w, n, true, k - 1).1,
                          v[8 * (k - 1)..8 * k], w[8 * (k - 1)..8 * k]);
      }
    }
  }

  /**
   * Two seeds that are the same up to their last eight words leave none of the first 31 blocks of mm the same: the
   * second pass carries every word of the seed to the front.
   */
  lemma LastWordsCount(v: seq<bv32>, w: seq<bv32>, start: Eight, k: nat)
    requires |v| == |w| == WORDS && v[..248] == w[..248] && v != w && k < 31
    ensures Block(SeedMemory(v, true, start), k) != Block(SeedMemory(w, true, start), k)
  {
    hide Mix, AddWords, Words, Filled;
    var p := Filled(v, start, true, BLOCKS);
    var q := Filled(w, start, true, BLOCKS);
    LastBlockDiffers(v, w, start);
    FirstBlocksSame(v, w, start);
    assert p.0[..8 * (k + 1)] == p.0[..248][..8 * (k + 1)] && q.0[..8 * (k + 1)] == q.0[..248][..8 * (k + 1)];
    StaysDifferent(p.0, q.0, p.1, q.1, k + 1);
    BlockMixed(p.0, p.1, k, BLOCKS);
    BlockMixed(q.0, q.1, k, BLOCKS);
    WordsInjective(Filled(p.0, p.1, true, k + 1).1, Filled(q.0, q.1, true, k + 1).1);
  }

  lemma LastBlockDiffers(v: seq<bv32>, w: seq<bv32>, start: Eight)
    requires |v| == |w| == WORDS && v[..248] == w[..248] && v != w
    ensures Filled(v, start, true, BLOCKS).1 != Filled(w, start, true, BLOCKS).1
  {
    hide Mix, AddWords, Words;
    SameStart(v, w, start, 31);
    var e := Filled(v, start, true, 31).1;
    assert v == v[..248] + v[248..256] && w == w[..248] + w[248..256];
    var x := AddWords(e, v[248..256], true);
    var y := AddWords(e, w[248..256], true);
    if Mix(x) == Mix(y) {
      MixInjective(x, y);
      AddWordsInjective(e, e, v[248..256], w[248..256]);
    }
  }

  lemma FirstBlocksSame(v: seq<bv32>, w: seq<bv32>, start: Eight)
    requires |v| == |w| == WORDS && v[..248] == w[..248]
    ensures Filled(v, start, true, BLOCKS).0[..248] == Filled(w, start, true, BLOCKS).0[..248]
  {
    hide Mix, AddWords, Words;
    SameStart(v, w, start, 31);
  }

  // ---- in numbers -----------------------------------------------------------------------------------

  lemma StirNumbers()
    ensures Stirred(1, 0) == 0x2001 && Stirred(0x40, 1) == 0x41 && Stirred(1, 2) == 5 && Stirred(0x1_0000, 3) == 0x1_0001
    ensures LowPick(0x404) == 1 && HighPick(0x4_0400) == 1
  {
  }

  /** One pass in numbers. */
  lemma PassNumbers(s: State)
    requires Shaped(s) && s.aa == 0 && s.bb == 7 && s.mm[0] == 4 && s.mm[1] == 100 && s.mm[128] == 5
    ensures var t := Pass(s, 0);
            t.aa == 5 && t.mm == s.mm[0 := 112] && t.bb == 116 && t.randrsl == s.randrsl[0 := 116] && t.cc == s.cc
  {
  }

  /** The golden ratio, stirred four times: what every seeding starts from. */
  lemma MixNumbers()
    ensures MixTimes(Golden(), SCRAMBLES)
         == Eight(0x1367_df5a, 0x95d9_0059, 0xc316_3e4b, 0x0f42_1ad8, 0xd92a_4a78, 0xa51a_3c49, 0xc4ef_ea1b, 0x3060_9119)
  {
    hide Mix;
    FirstMixes();
    LastMixes();
    var m0 := Golden();
    assert MixTimes(m0, 1) == Mix(m0) && MixTimes(m0, 2) == Mix(Mix(m0)) && MixTimes(m0, 3) == Mix(Mix(Mix(m0)));
  }

  lemma FirstMixes()
    ensures Mix(Golden()) == Eight(0x3f87_9d38, 0x0e56_dea4, 0x616a_0f84, 0x7e4c_685d, 0x41d7_67b9, 0x0b36_0cdb, 0xf273_b188, 0x1127_3859)
    ensures Mix(Eight(0x3f87_9d38, 0x0e56_dea4, 0x616a_0f84, 0x7e4c_685d, 0x41d7_67b9, 0x0b36_0cdb, 0xf273_b188, 0x1127_3859))
         == Eight(0x1b42_7c9a, 0xf1f3_1f86, 0xa075_e066, 0xc130_4266, 0x9007_5276, 0x9fdc_9fdc, 0x7a58_b1bd, 0xca69_404d)
  {
  }

  lemma LastMixes()
    ensures Mix(Eight(0x1b42_7c9a, 0xf1f3_1f86, 0xa075_e066, 0xc130_4266, 0x9007_5276, 0x9fdc_9fdc, 0x7a58_b1bd, 0xca69_404d))
         == Eight(0x3cd2_bab8, 0x03fc_94c3, 0xe590_9c63, 0x8f6b_2317, 0xd679_e1ad, 0xb517_d95b, 0x4987_0cce, 0xd9a5_2cfd)
    ensures Mix(Eight(0x3cd2_bab8, 0x03fc_94c3, 0xe590_9c63, 0x8f6b_2317, 0xd679_e1ad, 0xb517_d95b, 0x4987_0cce, 0xd9a5_2cfd))
         == Eight(0x1367_df5a, 0x95d9_0059, 0xc316_3e4b, 0x0f42_1ad8, 0xd92a_4a78, 0xa51a_3c49, 0xc4ef_ea1b, 0x3060_9119)
  {
  }

  /** The first block that seeding makes, in numbers: without a seed, and with the words 1 to 8. */
  lemma SeedNumbers(seed: seq<bv32>, start: Eight)
    requires |seed| == WORDS
    requires start == Eight(0x1367_df5a, 0x95d9_0059, 0xc316_3e4b, 0x0f42_1ad8,
                            0xd92a_4a78, 0xa51a_3c49, 0xc4ef_ea1b, 0x3060_9119)
    ensures Block(SeedMemory(seed, false, start), 0) == [0x06cc_a0e5, 0x7bcc_7892, 0x1ab2_de71, 0x2bfc_6cb4, 0x5505_6274, 0xaf9b_10f9, 0x13a1_c75c, 0x1023_9bf4]
    ensures seed[..8] == [1, 2, 3, 4, 5, 6, 7, 8] ==> Block(Filled(seed, start, true, BLOCKS).0, 0) == [0x8e38_f2fa, 0x0328_ccc2, 0xdd96_767c, 0x2bfc_5cba, 0x1741_df8b, 0xafab_1edd, 0x9afe_1b88, 0xd2f7_1ef7]
  {
    hide Mix, Filled;
    FirstBlock(seed, start, false, BLOCKS);
    FirstBlock(seed, start, true, BLOCKS);
    FirstMixed();
  }

  lemma FirstMixed()
    ensures Words(Mix(Eight(0x1367_df5a, 0x95d9_0059, 0xc316_3e4b, 0x0f42_1ad8, 0xd92a_4a78, 0xa51a_3c49, 0xc4ef_ea1b, 0x3060_9119)))
         == [0x06cc_a0e5, 0x7bcc_7892, 0x1ab2_de71, 0x2bfc_6cb4, 0x5505_6274, 0xaf9b_10f9, 0x13a1_c75c, 0x1023_9bf4]
    ensures Words(Mix(Eight(0x1367_df5b, 0x95d9_005b, 0xc316_3e4e, 0x0f42_1adc, 0xd92a_4a7d, 0xa51a_3c4f, 0xc4ef_ea22, 0x3060_9121)))
         == [0x8e38_f2fa, 0x0328_ccc2, 0xdd96_767c, 0x2bfc_5cba, 0x1741_df8b, 0xafab_1edd, 0x9afe_1b88, 0xd2f7_1ef7]
  {
  }

  lemma {:induction false} FirstBlock(w: seq<bv32>, m: Eight, flag: bool, n: nat)
    requires n > 0 && 8 * n <= |w|
    ensures Block(Filled(w, m, flag, n).0, 0) == Words(Mix(AddWords(m, w[..8], flag)))
    decreases n
  {
    hide Mix, AddWords, Words;
    if n > 1 {
      FirstBlock(w, m, flag, n - 1);
    } else {
      assert Filled(w, m, flag, 0) == ([], m);
    }
  }

  // ---- in place --------------------------------------------------------------------------------

  class Generator {
    const randrsl: array<bv32>
    var randcnt: nat
    const mm: array<bv32>
    var aa: bv32
    var bb: bv32
    var cc: bv32

    ghost predicate Valid()
      reads this
    {
      randrsl.Length == mm.Length == WORDS && randrsl != mm && randcnt <= WORDS
    }

    ghost function Abstract(): (s: State)
      requires Valid()
      reads this, randrsl, mm
      ensures Shaped(s)
    {
      State(randrsl[..], mm[..], aa, bb, cc)
    }

    ghost function AsSource(): (g: Source)
      requires Valid()
      reads this, randrsl, mm
    {
      Source(Abstract(), randcnt)
    }

    /** doisaac */
    method DoIsaac()
      requires Valid()
      modifies this`aa, this`bb, this`cc, randrsl, mm
      ensures Valid() && Abstract() == Shuffled(old(Abstract()))
    {
      hide Pass, Passes, Plus;
      cc := Plus(cc, 1);
      bb := Plus(bb, cc);
      ghost var start := Abstract();
      NoPasses(start);
      for i := 0 to WORDS
        invariant randcnt == old(randcnt)
        invariant Abstract() == Passes(start, i)
      {
        OnePass(start, i);
        StepPass(i);
      }
    }

    lemma NoPasses(s: State)
      requires Shaped(s)
      ensures Passes(s, 0) == s
    {
    }

    lemma OnePass(s: State, n: nat)
      requires Shaped(s) && n < WORDS
      ensures Passes(s, n + 1) == Pass(Passes(s, n), n)
    {
    }

    method StepPass(i: nat)
      requires Valid() && i < WORDS
      modifies this`aa, this`bb, randrsl, mm
      ensures Valid() && Abstract() == Pass(old(Abstract()), i)
    {
      hide LowPick, HighPick, Stirred, Plus;
      var x := mm[i];
      aa := Stirred(aa, i);
      aa := Plus(mm[(i + 128) % WORDS], aa);
      var y := Plus(Plus(mm[LowPick(x)], aa), bb);
      mm[i] := y;
      bb := Plus(mm[HighPick(y)], x);
      randrsl[i] := bb;
    }

    /** isaac_next */
    method Next() returns (word: bv32)
      requires Valid()
      modifies this, randrsl, mm
      ensures Valid() && (word, AsSource()) == Draw(old(AsSource()))
    {
      hide Shuffled;
      if randcnt == 0 {
        DoIsaac();
        randcnt := 255;
      } else {
        randcnt := randcnt - 1;
      }
      word := randrsl[randcnt];
    }

    /** A pass of isaac_init over 256 words, which may be the words it overwrites. */
    method Fill(src: array<bv32>, m: Eight, flag: bool) returns (last: Eight)
      requires Valid() && src.Length == WORDS
      modifies mm
      ensures (mm[..], last) == Filled(old(src[..]), m, flag, BLOCKS)
    {
      hide Mix, AddWords, Filled, Words;
      ghost var w := src[..];
      last := m;
      NothingFilled(w, m, flag);
      for n := 0 to 32
        invariant mm[..8 * n] == Filled(w, m, flag, n).0 && last == Filled(w, m, flag, n).1
        invariant src[8 * n..] == w[8 * n..]
      {
        OneFilled(w, m, flag, n);
        assert src[8 * n..8 * n + 8] == src[8 * n..][..8] == w[8 * n..8 * n + 8];
        last := Mix(AddWords(last, src[8 * n..8 * n + 8], flag));
        PutBlock(n, Words(last));
        assert src[8 * n + 8..] == w[8 * n..][8..];
      }
      assert mm[..] == mm[..8 * 32];
    }

    lemma NothingFilled(w: seq<bv32>, m: Eight, flag: bool)
      ensures Filled(w, m, flag, 0) == ([], m)
    {
    }

    lemma OneFilled(w: seq<bv32>, m: Eight, flag: bool, n: nat)
      requires 8 * n + 8 <= |w|
      ensures var before := Filled(w, m, flag, n);
              var mixed := Mix(AddWords(before.1, w[8 * n..8 * n + 8], flag));
              Filled(w, m, flag, n + 1) == (before.0 + Words(mixed), mixed)
    {
    }

    /** mm[i] = a; ... mm[i + 7] = h; */
    method PutBlock(n: nat, block: seq<bv32>)
      requires Valid() && n < 32 && |block| == 8
      modifies mm
      ensures mm[..8 * n + 8] == old(mm[..8 * n]) + block
      ensures mm[8 * n + 8..] == old(mm[8 * n + 8..])
    {
      for k := 0 to 8
        invariant mm[..8 * n + k] == old(mm[..8 * n]) + block[..k]
        invariant mm[8 * n + 8..] == old(mm[8 * n + 8..])
      {
        mm[8 * n + k] := block[k];
      }
    }

    /** isaac_init */
    method Init(flag: bool)
      requires Valid()
      modifies this, randrsl, mm
      ensures Valid() && AsSource() == Seeded(old(randrsl[..]), flag)
    {
      hide Mix, Filled, Shuffled;
      aa, bb, cc := 0, 0, 0;
      var m := Eight(GOLDEN, GOLDEN, GOLDEN, GOLDEN, GOLDEN, GOLDEN, GOLDEN, GOLDEN);
      for i := 0 to 4
        invariant randcnt == old(randcnt) && aa == bb == cc == 0
        invariant m == MixTimes(Golden(), i)
      {
        m := Mix(m);
      }
      ghost var seed := randrsl[..];
      var last := Fill(randrsl, m, flag);
      if flag {
        last := Fill(mm, last, true);
      }
      DoIsaac();
      randcnt := 256;
    }
  }
}
