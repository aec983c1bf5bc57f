/** Bit fields: two's complement integers as bits, and the bit stream held by a byte buffer. */
module Bits {

  type Byte = x: int | 0 <= x < 256

  // ---- bits of one integer ---------------------------------------------------------------

  /** Arithmetic shift right: floor division by two, k times, so a negative number keeps its sign. */
  function Shr(v: int, k: nat): int
    decreases k
  {
    if k == 0 then v else Shr(v / 2, k - 1)
  }

  function Shl(v: int, k: nat): int {
    if k == 0 then v else 2 * Shl(v, k - 1)
  }

  /** Bit k of v, counted from the least significant, in two's complement of unbounded width. */
  predicate Bit(v: int, k: nat) {
    Shr(v, k) % 2 == 1
  }

  /** The table entry bitmasks[n]: n ones. */
  function Mask(n: nat): (m: nat) {
    if n == 0 then 0 else 2 * Mask(n - 1) + 1
  }

  function Pow2(n: nat): (p: int)
    ensures p > 0
  {
    if n == 0 then 1 else 2 * Pow2(n - 1)
  }

  lemma {:induction false} ShrShr(v: int, a: nat, b: nat)
    ensures Shr(Shr(v, a), b) == Shr(v, a + b)
    decreases a
  {
    if a != 0 {
      ShrShr(v / 2, a - 1, b);
    }
  }

  lemma {:induction false} BitOfShl(v: int, s: nat, k: nat)
    ensures Bit(Shl(v, s), k) == (k >= s && Bit(v, k - s))
    decreases s
  {
    if s != 0 {
      if k != 0 {
        BitOfShl(v, s - 1, k - 1);
        assert Shl(v, s) / 2 == Shl(v, s - 1);
      }
    }
  }

  lemma {:induction false} BitOfMask(n: nat, k: nat)
    ensures Bit(Mask(n), k) == (k < n)
    decreases k
  {
    if n == 0 {
      if k != 0 {
        BitOfMask(0, k - 1);
      }
    } else if k != 0 {
      assert Mask(n) / 2 == Mask(n - 1);
      BitOfMask(n - 1, k - 1);
    }
  }

  // ---- bitwise operators on bytes ----------------------------------------------------------

  /** The byte whose bit k is f(k). */
  function FromBits(f: nat -> bool, n: nat): (x: nat)
    ensures x < Pow2(n)
  {
    if n == 0 then 0
    else 2 * FromBits((k: nat) => f(k + 1), n - 1) + (if f(0) then 1 else 0)
  }

  lemma {:induction false} BitOfFromBits(f: nat -> bool, n: nat, k: nat)
    requires k < n
    ensures Bit(FromBits(f, n), k) == f(k)
    decreases k
  {
    if k != 0 {
      var g := (j: nat) => f(j + 1);
      assert FromBits(f, n) / 2 == FromBits(g, n - 1);
      BitOfFromBits(g, n - 1, k - 1);
    }
  }

  lemma Pow2Eight()
    ensures Pow2(8) == 256
  {
    assert Pow2(4) == 16;
    assert Pow2(8) == 2 * (2 * (2 * (2 * Pow2(4))));
  }

  /** x & ~y, stored in a byte. */
  function AndNot(x: int, y: int): (r: Byte)
    ensures forall k: nat :: k < 8 ==> Bit(r, k) == (Bit(x, k) && !Bit(y, k))
  {
    var f := (k: nat) => Bit(x, k) && !Bit(y, k);
    assert forall k: nat :: k < 8 ==> Bit(FromBits(f, 8), k) == f(k) by {
      forall k: nat | k < 8 { BitOfFromBits(f, 8, k); }
    }
    Pow2Eight();
    FromBits(f, 8)
  }

  /** x | y, stored in a byte. */
  function Or(x: int, y: int): (r: Byte)
    ensures forall k: nat :: k < 8 ==> Bit(r, k) == (Bit(x, k) || Bit(y, k))
  {
    var f := (k: nat) => Bit(x, k) || Bit(y, k);
    assert forall k: nat :: k < 8 ==> Bit(FromBits(f, 8), k) == f(k) by {
      forall k: nat | k < 8 { BitOfFromBits(f, 8, k); }
    }
    Pow2Eight();
    FromBits(f, 8)
  }

  /** x & y, of which the low 8 bits are used. */
  function And(x: int, y: int): (r: Byte)
    ensures forall k: nat :: k < 8 ==> Bit(r, k) == (Bit(x, k) && Bit(y, k))
  {
    var f := (k: nat) => Bit(x, k) && Bit(y, k);
    assert forall k: nat :: k < 8 ==> Bit(FromBits(f, 8), k) == f(k) by {
      forall k: nat | k < 8 { BitOfFromBits(f, 8, k); }
    }
    Pow2Eight();
    FromBits(f, 8)
  }

  // ---- fields ------------------------------------------------------------------------------

  /** The low n bits of v, most significant first: the wire form of an n-bit field. */
  function BitsOf(v: int, n: nat): (bits: seq<bool>)
    ensures |bits| == n
    decreases n
  {
    if n == 0 then [] else BitsOf(v / 2, n - 1) + [v % 2 == 1]
  }

  /** The unsigned number a reader gets from a field. */
  function NatOf(bits: seq<bool>): nat {
    if |bits| == 0 then 0
    else 2 * NatOf(bits[..|bits| - 1]) + (if bits[|bits| - 1] then 1 else 0)
  }

  /** The signed number a reader gets from a field by two's complement. */
  function SignedOf(bits: seq<bool>): int {
    if |bits| > 0 && bits[0] then NatOf(bits) - Pow2(|bits|) else NatOf(bits)
  }

  lemma {:induction false} BitsOfAt(v: int, n: nat, i: nat)
    requires i < n
    ensures BitsOf(v, n)[i] == Bit(v, n - 1 - i)
    decreases n
  {
    if i < n - 1 {
      BitsOfAt(v / 2, n - 1, i);
    }
  }

  /** An unsigned field reads back as the value it was given, if the value fits. */
  lemma {:induction false} NatFieldRoundTrip(v: int, n: nat)
    requires 0 <= v < Pow2(n)
    ensures NatOf(BitsOf(v, n)) == v
    decreases n
  {
    if n != 0 {
      var bits := BitsOf(v, n);
      assert bits[..n - 1] == BitsOf(v / 2, n - 1);
      NatFieldRoundTrip(v / 2, n - 1);
    }
  }

  /** n bits do not tell values apart that differ by 2^n. */
  lemma {:induction false} FieldShift(v: int, n: nat)
    ensures BitsOf(v + Pow2(n), n) == BitsOf(v, n)
    decreases n
  {
    if n != 0 {
      assert (v + Pow2(n)) / 2 == v / 2 + Pow2(n - 1);
      FieldShift(v / 2, n - 1);
    }
  }

  lemma {:induction false} TopBit(v: int, n: nat)
    requires n > 0 && 0 <= v < Pow2(n)
    ensures BitsOf(v, n)[0] == (v >= Pow2(n - 1))
    decreases n
  {
    if n > 1 {
      TopBit(v / 2, n - 1);
    }
  }

  /** A signed field reads back exactly the values of its two's complement range. */
  lemma SignedFieldRoundTrip(v: int, n: nat)
    requires n > 0
    ensures SignedOf(BitsOf(v, n)) == v <==> -Pow2(n - 1) <= v < Pow2(n - 1)
  {
    var r := SignedOf(BitsOf(v, n));
    NatOfBelow(BitsOf(v, n));
    TopBitOfNat(BitsOf(v, n));
    if 0 <= v < Pow2(n - 1) {
      NatFieldRoundTrip(v, n);
      TopBit(v, n);
    } else if -Pow2(n - 1) <= v < 0 {
      FieldShift(v, n);
      NatFieldRoundTrip(v + Pow2(n), n);
      TopBit(v + Pow2(n), n);
    }
  }

  lemma {:induction false} NatOfBelow(bits: seq<bool>)
    ensures NatOf(bits) < Pow2(|bits|)
    decreases |bits|
  {
    if |bits| != 0 {
      NatOfBelow(bits[..|bits| - 1]);
    }
  }

  lemma {:induction false} TopBitOfNat(bits: seq<bool>)
    requires |bits| > 0
    ensures bits[0] == (NatOf(bits) >= Pow2(|bits| - 1))
    decreases |bits|
  {
    var rest := bits[..|bits| - 1];
    if |rest| > 0 {
      TopBitOfNat(rest);
    } else {
      assert NatOf(rest) == 0;
    }
  }

  // ---- the stream held by a buffer ---------------------------------------------------------

  /** The bits of a byte buffer, in wire order. */
  function Stream(buf: seq<Byte>): (s: seq<bool>)
    ensures |s| == 8 * |buf|
  {
    seq(8 * |buf|, (k: nat) requires k < 8 * |buf| => Bit(buf[k / 8], 7 - k % 8))
  }

  /** s with the bits from pos on replaced by bits. */
  function Written(s: seq<bool>, pos: nat, bits: seq<bool>): (r: seq<bool>)
    requires |bits| == 0 || pos + |bits| <= |s|
    ensures |r| == |s|
  {
    if |bits| == 0 then s else s[..pos] + bits + s[pos + |bits|..]
  }

  /** When a field of num bits at bitpos can be stored in length bytes. */
  predicate Fits(bitpos: nat, num: nat, length: nat) {
    if num == 0 then bitpos < 8 * length else bitpos + num <= 8 * length
  }

  /** How many bits of a field that does not fit are stored before the failure is noticed. */
  function Spilled(bitpos: nat, length: nat): nat {
    if bitpos < 8 * (length - 1) then 8 * (length - 1) - bitpos else 0
  }

  /** A field needs its bits, and even an empty one needs a byte to stand in. */
  lemma FitsIff(bitpos: nat, num: nat, length: nat)
    ensures num > 0 ==> (Fits(bitpos, num, length) <==> bitpos + num <= 8 * length)
    ensures Fits(bitpos, 0, length) <==> bitpos < 8 * length
  {
  }

  /** Of a field that does not fit nothing reaches the last byte of the buffer, and all of it up to there is stored. */
  lemma SpilledUpToLast(bitpos: nat, num: nat, length: nat)
    requires !Fits(bitpos, num, length) && num > 0 && length > 0
    ensures Spilled(bitpos, length) <= num
    ensures Spilled(bitpos, length) > 0 ==> bitpos + Spilled(bitpos, length) == 8 * (length - 1)
    ensures Spilled(bitpos, length) == 0 ==> bitpos >= 8 * (length - 1)
  {
  }

  /** One byte of a field: the cnt bits at shift sh are replaced by the low cnt bits of value. */
  function ByteField(byte: Byte, sh: nat, cnt: nat, value: int): Byte
    requires sh + cnt <= 8
  {
    Or(AndNot(byte, Shl(Mask(cnt), sh)), Shl(And(value, Mask(cnt)), sh))
  }

  lemma ByteFieldBit(byte: Byte, sh: nat, cnt: nat, value: int, k: nat)
    requires sh + cnt <= 8 && k < 8
    ensures Bit(ByteField(byte, sh, cnt, value), k) == if sh <= k < sh + cnt then Bit(value, k - sh) else Bit(byte, k)
  {
    BitOfShl(Mask(cnt), sh, k);
    BitOfShl(And(value, Mask(cnt)), sh, k);
    if k >= sh {
      BitOfMask(cnt, k - sh);
    }
  }

  lemma StreamAt(buf: seq<Byte>, q: nat, j: nat)
    requires q < |buf| && j < 8
    ensures Stream(buf)[8 * q + 7 - j] == Bit(buf[q], j)
  {
    var k := 8 * q + 7 - j;
    assert k / 8 == q && k % 8 == 7 - j;
  }

  lemma WrittenAt(s: seq<bool>, pos: nat, bits: seq<bool>, k: nat)
    requires |bits| == 0 || pos + |bits| <= |s|
    requires k < |s|
    ensures Written(s, pos, bits)[k] == if pos <= k < pos + |bits| then bits[k - pos] else s[k]
  {
  }

  /** Storing the next cnt bits of a field, as one byte field at shift sh, extends what is written by cnt bits. */
  lemma StreamStep(was: seq<bool>, prev: seq<Byte>, now: seq<Byte>, offset: nat, sh: nat, cnt: nat,
                   bitpos: nat, num: nat, value: int, done: nat)
    requires offset < |prev| && sh + cnt <= 8 && done + cnt <= num && |was| == 8 * |prev|
    requires 8 * offset + 8 - sh - cnt == bitpos + done
    requires Stream(prev) == Written(was, bitpos, BitsOf(value, num)[..done])
    requires now == prev[offset := ByteField(prev[offset], sh, cnt, Shr(value, num - done - cnt))]
    ensures Stream(now) == Written(was, bitpos, BitsOf(value, num)[..done + cnt])
  {
    hide Stream, BitsOf, Shr, ByteField, Written;
    var target := Written(was, bitpos, BitsOf(value, num)[..done + cnt]);
    forall k | 0 <= k < 8 * |prev|
      ensures Stream(now)[k] == target[k]
    {
      assert k == 8 * (k / 8) + 7 - (7 - k % 8);
      StreamStepBit(was, prev, now, offset, sh, cnt, bitpos, num, value, done, k / 8, 7 - k % 8);
    }
  }

  lemma StreamStepBit(was: seq<bool>, prev: seq<Byte>, now: seq<Byte>, offset: nat, sh: nat, cnt: nat,
                      bitpos: nat, num: nat, value: int, done: nat, q: nat, j: nat)
    requires offset < |prev| && sh + cnt <= 8 && done + cnt <= num && |was| == 8 * |prev|
    requires 8 * offset + 8 - sh - cnt == bitpos + done
    requires Stream(prev) == Written(was, bitpos, BitsOf(value, num)[..done])
    requires now == prev[offset := ByteField(prev[offset], sh, cnt, Shr(value, num - done - cnt))]
    requires q < |prev| && j < 8
    ensures Stream(now)[8 * q + 7 - j] == Written(was, bitpos, BitsOf(value, num)[..done + cnt])[8 * q + 7 - j]
  {
    hide Stream, BitsOf, Shr, ByteField, Written;
    var k := 8 * q + 7 - j;
    StreamAt(prev, q, j);
    StreamAt(now, q, j);
    WrittenAt(was, bitpos, BitsOf(value, num)[..done], k);
    WrittenAt(was, bitpos, BitsOf(value, num)[..done + cnt], k);
    if q == offset {
      ByteFieldBit(prev[offset], sh, cnt, Shr(value, num - done - cnt), j);
      if sh <= j < sh + cnt {
        BitsOfAt(value, num, k - bitpos);
        ShrShr(value, num - done - cnt, j - sh);
      }
    }
  }

  lemma NothingWritten(s: seq<bool>, pos: nat, bits: seq<bool>, value: int)
    ensures Written(s, pos, bits[..0]) == s
    ensures bits[..|bits|] == bits
    ensures Shr(value, 0) == value
  {
  }

  /** The pair of statements that clears cnt bits of a byte and sets them from value. */
  method StoreByteField(b: array<Byte>, offset: nat, sh: nat, cnt: nat, value: int)
    requires offset < b.Length && sh + cnt <= 8
    modifies b
    ensures b[..] == old(b[..])[offset := ByteField(old(b[offset]), sh, cnt, value)]
  {
    b[offset] := AndNot(b[offset], Shl(Mask(cnt), sh));
    b[offset] := Or(b[offset], Shl(And(value, Mask(cnt)), sh));
  }

  /** buf_putbits: stores the low num bits of value, most significant first, at bit bitpos. */
  method PutBits(b: array<Byte>, bitpos: nat, num: nat, value: int) returns (ok: bool)
    requires num <= 32
    modifies b
    ensures ok <==> Fits(bitpos, num, b.Length)
    ensures ok ==> Stream(b[..]) == Written(old(Stream(b[..])), bitpos, BitsOf(value, num))
    ensures !ok ==> Spilled(bitpos, b.Length) <= num
    ensures !ok ==> Stream(b[..]) == Written(old(Stream(b[..])), bitpos,
                                             BitsOf(value, num)[..Spilled(bitpos, b.Length)])
  {
    hide Stream, BitsOf, ByteField, Written, Shr;
    var offset := bitpos / 8;
    var i := 8 - bitpos % 8;
    var n := num;
    ghost var was := Stream(b[..]);
    NothingWritten(was, bitpos, BitsOf(value, num), value);
    while n > i
      invariant 1 <= i <= 8 && 0 <= n <= num
      invariant 8 * offset + 8 - i == bitpos + (num - n)
      invariant n < num ==> i == 8 && 0 < n && bitpos + (num - n) <= 8 * (b.Length - 1)
      invariant Stream(b[..]) == Written(was, bitpos, BitsOf(value, num)[..num - n])
      decreases n
    {
      if b.Length - offset < 2 {
        return false;
      }
      ghost var prev := b[..];
      StoreByteField(b, offset, 0, i, Shr(value, n - i));
      StreamStep(was, prev, b[..], offset, 0, i, bitpos, num, value, num - n);
      offset := offset + 1;
      n := n - i;
      i := 8;
    }
    if b.Length - offset < 1 {
      return false;
    }
    ghost var prev := b[..];
    if n == i {
      StoreByteField(b, offset, 0, i, value);
    } else {
      StoreByteField(b, offset, i - n, n, value);
    }
    StreamStep(was, prev, b[..], offset, i - n, n, bitpos, num, value, num - n);
    ok := true;
  }

  // ---- fields in a row -------------------------------------------------------------------------

  datatype Field = Field(num: nat, value: int)

  function Width(fields: seq<Field>): nat {
    if |fields| == 0 then 0 else fields[0].num + Width(fields[1..])
  }

  /** Fields written one behind the other from pos on. */
  function WrittenAll(s: seq<bool>, pos: nat, fields: seq<Field>): (r: seq<bool>)
    requires pos + Width(fields) <= |s|
    ensures |r| == |s|
    decreases |fields|
  {
    if |fields| == 0 then s
    else WrittenAll(Written(s, pos, BitsOf(fields[0].value, fields[0].num)), pos + fields[0].num, fields[1..])
  }

  lemma {:induction false} OutsideUnchanged(s: seq<bool>, pos: nat, fields: seq<Field>, k: nat)
    requires pos + Width(fields) <= |s| && k < |s| && (k < pos || pos + Width(fields) <= k)
    ensures WrittenAll(s, pos, fields)[k] == s[k]
    decreases |fields|
  {
    hide BitsOf;
    if |fields| > 0 {
      OutsideUnchanged(Written(s, pos, BitsOf(fields[0].value, fields[0].num)), pos + fields[0].num, fields[1..], k);
    }
  }

  lemma FirstReadsBack(s: seq<bool>, pos: nat, fields: seq<Field>)
    requires |fields| > 0 && pos + Width(fields) <= |s|
    ensures WrittenAll(s, pos, fields)[pos..pos + fields[0].num] == BitsOf(fields[0].value, fields[0].num)
  {
    hide BitsOf, WrittenAll;
    var first := BitsOf(fields[0].value, fields[0].num);
    var next := Written(s, pos, first);
    UnfoldWritten(s, pos, fields);
    forall k | pos <= k < pos + fields[0].num ensures WrittenAll(s, pos, fields)[k] == first[k - pos] {
      OutsideUnchanged(next, pos + fields[0].num, fields[1..], k);
    }
  }

  lemma UnfoldWritten(s: seq<bool>, pos: nat, fields: seq<Field>)
    requires |fields| > 0 && pos + Width(fields) <= |s|
    ensures WrittenAll(s, pos, fields)
         == WrittenAll(Written(s, pos, BitsOf(fields[0].value, fields[0].num)), pos + fields[0].num, fields[1..])
  {
  }

  /** Every field of a row reads back as it was written; by OutsideUnchanged nothing outside the row changes. */
  lemma {:induction false} FieldsReadBack(s: seq<bool>, pos: nat, fields: seq<Field>, i: nat)
    requires pos + Width(fields) <= |s| && i < |fields|
    ensures var at := pos + Width(fields[..i]);
            && at + fields[i].num <= |s|
            && WrittenAll(s, pos, fields)[at..at + fields[i].num] == BitsOf(fields[i].value, fields[i].num)
    decreases |fields|
  {
    hide BitsOf, WrittenAll;
    if i == 0 {
      FirstReadsBack(s, pos, fields);
    } else {
      var next := Written(s, pos, BitsOf(fields[0].value, fields[0].num));
      UnfoldWritten(s, pos, fields);
      FieldsReadBack(next, pos + fields[0].num, fields[1..], i - 1);
      assert fields[..i][1..] == fields[1..][..i - 1];
    }
  }
}
