/** The nibble code that chat messages are compressed with. */
module Chat {
  import Bits
  import opened Chars

  const MAX_CHAT_LEN := 80

  type Byte = Bits.Byte
  type Nibble = x: int | 0 <= x < 16

  /** Characters by frequency; the pound sign is byte 163. The second space, at place 37, is never chosen. */
  function Table(): (t: string)
    ensures |t| == 61 && t[0] == ' '
  {
    " etaoihnsr" + "dlumwcyfgp" + "bvkxjqz012" + "3456789 !?" + ".,:;()-&*\\" + "'@#+=\U{00A3}$%\"[" + "]"
  }

  // ---- the code ------------------------------------------------------------------------------------

  /** The first place of a character in the table, or 0. */
  function TabIndex(ch: char, from: nat): (i: nat)
    requires from <= |Table()|
    ensures i < |Table()|
    ensures Table()[i] == ch || (i == 0 && forall j :: from <= j < |Table()| ==> Table()[j] != ch)
    ensures forall j :: from <= j < i ==> Table()[j] != ch
    decreases |Table()| - from
  {
    if from == |Table()| then 0 else if Table()[from] == ch then from else TabIndex(ch, from + 1)
  }

  /** A frequent character is one nibble, any other two: 13 to 15 start a pair. */
  function NibblesOf(ch: char): (ns: seq<Nibble>)
    ensures 1 <= |ns| <= 2
  {
    var i := TabIndex(ToLower(ch), 0);
    if i < 13 then [i] else [(i + 195) / 16, (i + 195) % 16]
  }

  function Nibbles(message: string): (ns: seq<Nibble>)
    ensures |ns| <= 2 * |message|
  {
    if |message| == 0 then [] else Nibbles(message[..|message| - 1]) + NibblesOf(message[|message| - 1])
  }

  function PairByte(high: Nibble, low: Nibble): (b: Byte)
    ensures b / 16 == high && b % 16 == low
  {
    var h: int := high;
    16 * h + low
  }

  /** Two nibbles to a byte, the first in the high half; an odd one out is padded with 0. */
  function Pack(ns: seq<Nibble>): (bytes: seq<Byte>)
    ensures |bytes| == (|ns| + 1) / 2
    decreases |ns|
  {
    if |ns| == 0 then [] else if |ns| == 1 then [PairByte(ns[0], 0)] else [PairByte(ns[0], ns[1])] + Pack(ns[2..])
  }

  function Unpack(bytes: seq<Byte>): (ns: seq<Nibble>)
    ensures |ns| == 2 * |bytes|
  {
    if |bytes| == 0 then [] else [bytes[0] / 16, bytes[0] % 16] + Unpack(bytes[1..])
  }

  function Truncated(message: string): (t: string)
    ensures |t| <= MAX_CHAT_LEN
  {
    if |message| > MAX_CHAT_LEN then message[..MAX_CHAT_LEN] else message
  }

  /** chat_compress */
  function Compressed(message: string): seq<Byte> {
    Pack(Nibbles(Truncated(message)))
  }

  /** The reader's state: the first half of a pair, or -1, and the text so far. */
  datatype Reading = Reading(leftShift: int, text: string)

  ghost predicate ValidReading(r: Reading) {
    r.leftShift == -1 || 13 <= r.leftShift <= 15
  }

  /** One nibble read by chat_decompress; the table is never read outside its 61 places. */
  function ReadNibble(r: Reading, n: Nibble): (t: Reading)
    requires ValidReading(r)
    ensures ValidReading(t) && |t.text| <= |r.text| + 1
  {
    if r.leftShift == -1 then
      if n < 13 then r.(text := r.text + [Table()[n]]) else r.(leftShift := n)
    else Reading(-1, r.text + [Table()[16 * r.leftShift + n - 195]])
  }

  /** Nibbles are read until the text is 80 characters long. */
  function ReadAll(r: Reading, ns: seq<Nibble>): (t: Reading)
    requires ValidReading(r)
    ensures ValidReading(t)
    decreases |ns|
  {
    if |ns| == 0 || |r.text| >= MAX_CHAT_LEN then r else ReadAll(ReadNibble(r, ns[0]), ns[1..])
  }

  /** The table phase of chat_decompress. */
  function Decompressed(bytes: seq<Byte>): string {
    ReadAll(Reading(-1, ""), Unpack(bytes)).text
  }

  // ---- in place --------------------------------------------------------------------------------------

  /** The compressor's state: the bytes written, and a nibble that waits for its byte, or -1. */
  ghost predicate Writes(bytes: seq<Byte>, leftShift: int, ns: seq<Nibble>) {
    if leftShift == -1 then |ns| % 2 == 0 && bytes == Pack(ns)
    else 0 <= leftShift < 16 && |ns| % 2 == 1 && ns[|ns| - 1] == leftShift && bytes == Pack(ns[..|ns| - 1])
  }

  lemma {:induction false} PackPair(ns: seq<Nibble>, a: Nibble, b: Nibble)
    requires |ns| % 2 == 0
    ensures Pack(ns + [a, b]) == Pack(ns) + [PairByte(a, b)]
    ensures Pack(ns + [a]) == Pack(ns) + [PairByte(a, 0)]
    decreases |ns|
  {
    if |ns| == 0 {
      assert ns + [a, b] == [a, b] && [a, b][2..] == [];
      assert ns + [a] == [a];
    } else {
      assert (ns + [a, b])[2..] == ns[2..] + [a, b];
      assert (ns + [a])[2..] == ns[2..] + [a];
      PackPair(ns[2..], a, b);
    }
  }

  lemma PairIs(high: Nibble, low: Nibble)
    ensures var h: int := high; PairByte(high, low) == (16 * h + low) % 256
  {
  }

  /** One more byte behind the first off. */
  method PutByte(output: array<Byte>, off: nat, b: Byte)
    requires off < output.Length
    modifies output
    ensures output[..off + 1] == old(output[..off]) + [b]
  {
    output[off] := b;
  }

  lemma WritesPair(bytes: seq<Byte>, shift: Nibble, ns: seq<Nibble>, low: Nibble)
    requires Writes(bytes, shift, ns)
    ensures Writes(bytes + [PairByte(shift, low)], -1, ns + [low])
  {
    hide Pack;
    var even := ns[..|ns| - 1];
    assert ns + [low] == even + [shift, low];
    PackPair(even, shift, low);
  }

  lemma WritesHalf(bytes: seq<Byte>, ns: seq<Nibble>, high: Nibble)
    requires Writes(bytes, -1, ns)
    ensures Writes(bytes, high, ns + [high])
  {
    hide Pack;
    assert (ns + [high])[..|ns|] == ns;
  }

  /** One character: its nibbles go out as soon as they fill bytes. */
  method PutChar(ch: char, output: array<Byte>, offset: nat, leftShift: int, ghost ns: seq<Nibble>)
    returns (off: nat, shift: int)
    requires offset < output.Length && Writes(output[..offset], leftShift, ns)
    modifies output
    ensures offset <= off <= offset + 1 && Writes(output[..off], shift, ns + NibblesOf(ch))
  {
    hide Pack, Table, TabIndex, Writes, PairByte;
    off, shift := offset, leftShift;
    WritesShift(output[..offset], leftShift, ns);
    var tabIndex: nat := FindTab(ToLower(ch));
    if tabIndex > 12 {
      tabIndex := tabIndex + 195;
    }
    if shift == -1 {
      if tabIndex < 13 {
        shift := tabIndex;
        WritesHalf(output[..off], ns, tabIndex);
      } else {
        WritesHalf(output[..off], ns, tabIndex / 16);
        WritesPair(output[..off], tabIndex / 16, ns + [tabIndex / 16], tabIndex % 16);
        PairIs(tabIndex / 16, tabIndex % 16);
        assert ns + NibblesOf(ch) == ns + [tabIndex / 16] + [tabIndex % 16];
        PutByte(output, off, tabIndex % 256);
        off := off + 1;
      }
    } else if tabIndex < 13 {
      WritesPair(output[..off], shift, ns, tabIndex);
      PairIs(shift, tabIndex);
      PutByte(output, off, (16 * shift + tabIndex) % 256);
      off := off + 1;
      shift := -1;
    } else {
      ghost var bytes := output[..off] + [PairByte(shift, tabIndex / 16)];
      WritesPair(output[..off], shift, ns, tabIndex / 16);
      WritesHalf(bytes, ns + [tabIndex / 16], tabIndex % 16);
      PairIs(shift, tabIndex / 16);
      assert ns + NibblesOf(ch) == ns + [tabIndex / 16] + [tabIndex % 16];
      PutByte(output, off, (16 * shift + tabIndex / 16) % 256);
      off := off + 1;
      shift := tabIndex % 16;
    }
  }

  lemma WritesShift(bytes: seq<Byte>, shift: int, ns: seq<Nibble>)
    requires Writes(bytes, shift, ns)
    ensures shift == -1 || 0 <= shift < 16
  {
    hide Pack;
  }

  /** The search of the table. */
  method FindTab(ch: char) returns (tabIndex: nat)
    ensures tabIndex == TabIndex(ch, 0)
  {
    tabIndex := 0;
    for j := 0 to |Table()|
      invariant TabIndex(ch, 0) == TabIndex(ch, j)
    {
      if ch == Table()[j] {
        return j;
      }
    }
  }

  /** chat_compress */
  method Compress(input: string, output: array<Byte>) returns (offset: nat)
    requires output.Length >= MAX_CHAT_LEN
    modifies output
    ensures offset <= MAX_CHAT_LEN && output[..offset] == Compressed(input)
  {
    hide Pack, NibblesOf, Nibbles, Writes, PairByte;
    var message := Truncated(input);
    var leftShift := -1;
    offset := 0;
    assert Writes(output[..0], -1, Nibbles(message[..0])) by { NothingWritten(); }
    for i := 0 to |message|
      invariant offset <= i && Writes(output[..offset], leftShift, Nibbles(message[..i]))
    {
      NibblesSnoc(message, i);
      offset, leftShift := PutChar(message[i], output, offset, leftShift, Nibbles(message[..i]));
    }
    assert message[..|message|] == message;
    Flushed(output[..offset], leftShift, Nibbles(message));
    if leftShift != -1 {
      NibblesBound(message);
      PairIs(leftShift, 0);
      PutByte(output, offset, 16 * leftShift % 256);
      offset := offset + 1;
    }
  }

  lemma NothingWritten()
    ensures Writes([], -1, Nibbles([]))
  {
  }

  lemma NibblesSnoc(message: string, i: nat)
    requires i < |message|
    ensures Nibbles(message[..i + 1]) == Nibbles(message[..i]) + NibblesOf(message[i])
  {
    hide NibblesOf;
    assert message[..i + 1][..i] == message[..i];
  }

  lemma NibblesBound(message: string)
    ensures |Nibbles(message)| <= 2 * |message|
  {
    hide TabIndex;
  }

  /** What is written once a waiting nibble has gone out in a byte of its own. */
  lemma Flushed(bytes: seq<Byte>, shift: int, ns: seq<Nibble>)
    requires Writes(bytes, shift, ns)
    ensures shift == -1 ==> bytes == Pack(ns)
    ensures shift != -1 ==> 0 <= shift < 16 && bytes + [PairByte(shift, 0)] == Pack(ns) && 2 * |bytes| + 1 == |ns|
  {
    hide Pack;
    if shift != -1 {
      var even := ns[..|ns| - 1];
      assert ns == even + [shift];
      PackPair(even, shift, 0);
      PackedLength(even);
    }
  }

  lemma PackedLength(ns: seq<Nibble>)
    ensures |Pack(ns)| == (|ns| + 1) / 2
  {
  }

  lemma ReadNext(r: Reading, n: Nibble, rest: seq<Nibble>)
    requires ValidReading(r) && |r.text| < MAX_CHAT_LEN
    ensures ReadAll(r, [n] + rest) == ReadAll(ReadNibble(r, n), rest)
  {
    assert ([n] + rest)[1..] == rest;
  }

  lemma ReadDone(r: Reading, ns: seq<Nibble>)
    requires ValidReading(r) && (|r.text| >= MAX_CHAT_LEN || |ns| == 0)
    ensures ReadAll(r, ns) == r
  {
  }

  lemma UnpackFront(bytes: seq<Byte>)
    requires |bytes| > 0
    ensures Unpack(bytes) == [bytes[0] / 16] + ([bytes[0] % 16] + Unpack(bytes[1..]))
  {
  }

  /** The statements of chat_decompress for one nibble. */
  method TakeNibble(tabIndex: Nibble, out: array<char>, len: nat, leftShift: int) returns (newLength: nat, shift: int)
    requires len < MAX_CHAT_LEN < out.Length && ValidReading(Reading(leftShift, out[..len]))
    modifies out
    ensures len <= newLength <= len + 1
    ensures Reading(shift, out[..newLength]) == ReadNibble(old(Reading(leftShift, out[..len])), tabIndex)
  {
    hide Table;
    newLength, shift := len, leftShift;
    ghost var before := out[..len];
    if shift == -1 {
      if tabIndex < 13 {
        out[newLength] := Table()[tabIndex];
        newLength := newLength + 1;
        assert out[..newLength] == before + [Table()[tabIndex]];
      } else {
        shift := tabIndex;
      }
    } else {
      out[newLength] := Table()[16 * shift + tabIndex - 195];
      newLength := newLength + 1;
      assert out[..newLength] == before + [Table()[16 * shift + tabIndex - 195]];
      shift := -1;
    }
  }

  /** The table phase of chat_decompress: one loop over the bytes, two nibbles to each. */
  method Decompress(buffer: seq<Byte>, out: array<char>) returns (newLength: nat)
    requires out.Length > MAX_CHAT_LEN
    modifies out
    ensures newLength <= MAX_CHAT_LEN && out[..newLength] == Decompressed(buffer)
  {
    hide ReadNibble, ReadAll, Unpack;
    newLength := 0;
    var leftShift := -1;
    ghost var start := Reading(-1, "");
    ghost var r := start;
    ghost var left: seq<Nibble> := Unpack(buffer);
    var i := 0;
    assert buffer[0..] == buffer;
    while i < |buffer|
      invariant i <= |buffer| && newLength <= MAX_CHAT_LEN && ValidReading(r)
      invariant r == Reading(leftShift, out[..newLength])
      invariant ReadAll(start, Unpack(buffer)) == ReadAll(r, left) && left == Unpack(buffer[i..])
    {
      if newLength >= MAX_CHAT_LEN {
        break;
      }
      var cur := buffer[i];
      assert buffer[i..][1..] == buffer[i + 1..];
      UnpackFront(buffer[i..]);
      left := Unpack(buffer[i + 1..]);
      ReadNext(r, cur / 16, [cur % 16] + left);
      newLength, leftShift := TakeNibble(cur / 16 % 16, out, newLength, leftShift);
      r := ReadNibble(r, cur / 16);
      if newLength >= MAX_CHAT_LEN {
        left := [cur % 16] + left;
        break;
      }
      ReadNext(r, cur % 16, left);
      newLength, leftShift := TakeNibble(cur % 16, out, newLength, leftShift);
      r := ReadNibble(r, cur % 16);
      i := i + 1;
    }
    assert i == |buffer| ==> left == [] || newLength >= MAX_CHAT_LEN by { UnpackNone(); }
    ReadDone(r, left);
  }

  lemma UnpackNone()
    ensures Unpack([]) == []
  {
  }

  // ---- round trips -------------------------------------------------------------------------------------

  /** A character as it survives compression: lower case, and a space if it is not in the table. */
  function Lowered(ch: char): char {
    if ToLower(ch) in Table() then ToLower(ch) else ' '
  }

  function LoweredAll(message: string): (s: string)
    ensures |s| == |message|
    ensures forall i :: 0 <= i < |s| ==> s[i] == Lowered(message[i])
  {
    seq(|message|, i requires 0 <= i < |message| => Lowered(message[i]))
  }

  lemma TabOf(ch: char)
    ensures Table()[TabIndex(ToLower(ch), 0)] == Lowered(ch)
  {
    hide Table;
  }

  lemma SpaceFirst()
    ensures TabIndex(' ', 0) == 0
  {
    hide Table;
  }

  /** What survives compression is compressed to the same nibbles. */
  lemma LoweredNibbles(ch: char)
    ensures NibblesOf(Lowered(ch)) == NibblesOf(ch)
  {
    hide Table;
    SpaceFirst();
    var c := ToLower(ch);
    if c in Table() {
      assert ToLower(Lowered(ch)) == c;
    } else {
      assert TabIndex(c, 0) == 0;
    }
  }

  lemma {:induction false} LoweredAllNibbles(message: string)
    ensures Nibbles(LoweredAll(message)) == Nibbles(message)
    decreases |message|
  {
    hide NibblesOf, Lowered;
    if |message| > 0 {
      var before := message[..|message| - 1];
      LoweredAllNibbles(before);
      assert LoweredAll(message)[..|message| - 1] == LoweredAll(before);
      LoweredNibbles(message[|message| - 1]);
    }
  }

  lemma {:induction false} UnpackPack(ns: seq<Nibble>)
    ensures Unpack(Pack(ns)) == ns + (if |ns| % 2 == 1 then [0] else [])
    decreases |ns|
  {
    if |ns| == 1 {
      assert Pack(ns)[1..] == [];
    } else if |ns| > 1 {
      UnpackPack(ns[2..]);
      assert Pack(ns)[1..] == Pack(ns[2..]);
    }
  }

  lemma PackUnpack(ns: seq<Nibble>)
    requires |ns| % 2 == 1
    ensures Pack(ns + [0]) == Pack(ns)
  {
    hide Pack;
    var even := ns[..|ns| - 1];
    assert ns == even + [ns[|ns| - 1]];
    assert ns + [0] == even + [ns[|ns| - 1], 0];
    PackPair(even, ns[|ns| - 1], 0);
  }

  /** One character is read back from its nibbles. */
  lemma ReadChar(text: string, ch: char, rest: seq<Nibble>)
    requires |text| < MAX_CHAT_LEN
    ensures ReadAll(Reading(-1, text), NibblesOf(ch) + rest) == ReadAll(Reading(-1, text + [Lowered(ch)]), rest)
  {
    hide ReadAll, Lowered, Table, TabIndex;
    TabOf(ch);
    var i := TabIndex(ToLower(ch), 0);
    var r := Reading(-1, text);
    if i < 13 {
      ReadNext(r, i, rest);
    } else {
      var a := (i + 195) / 16;
      var b := (i + 195) % 16;
      ReadNext(r, a, [b] + rest);
      ReadNext(ReadNibble(r, a), b, rest);
      assert NibblesOf(ch) + rest == [a] + ([b] + rest);
    }
  }

  lemma {:induction false} ReadMessage(message: string, rest: seq<Nibble>)
    requires |message| <= MAX_CHAT_LEN
    ensures ReadAll(Reading(-1, ""), Nibbles(message) + rest) == ReadAll(Reading(-1, LoweredAll(message)), rest)
    decreases |message|
  {
    hide ReadAll, NibblesOf, Lowered;
    if |message| == 0 {
      assert Nibbles(message) + rest == rest;
      assert LoweredAll(message) == "";
    } else {
      var before := message[..|message| - 1];
      var ch := message[|message| - 1];
      ReadMessage(before, NibblesOf(ch) + rest);
      assert Nibbles(message) + rest == Nibbles(before) + (NibblesOf(ch) + rest);
      ReadChar(LoweredAll(before), ch, rest);
      assert LoweredAll(message) == LoweredAll(before) + [Lowered(ch)];
    }
  }

  /** Whether a message is followed by a space that the padding nibble decodes to. */
  predicate Padded(message: string) {
    |Nibbles(Truncated(message))| % 2 == 1 && |Truncated(message)| < MAX_CHAT_LEN
  }

  /**
   * Decompressing a compressed message gives back its first 80 characters in lower case, followed by a space
   * when the number of nibbles is odd and there is room.
   */
  lemma MessageRoundTrip(message: string)
    ensures |Compressed(message)| <= MAX_CHAT_LEN
    ensures |Compressed(message)| == (|Nibbles(Truncated(message))| + 1) / 2
    ensures Decompressed(Compressed(message))
         == LoweredAll(Truncated(message)) + (if Padded(message) then " " else "")
  {
    hide ReadAll, Nibbles, Pack, Unpack, Lowered;
    var m := Truncated(message);
    var ns := Nibbles(m);
    var low := LoweredAll(m);
    UnpackPack(ns);
    ReadMessage(m, if |ns| % 2 == 1 then [0] else []);
    if |ns| % 2 == 1 && |m| < MAX_CHAT_LEN {
      ReadSpace(low);
    } else {
      ReadDone(Reading(-1, low), if |ns| % 2 == 1 then [0] else []);
    }
  }

  lemma ReadSpace(text: string)
    requires |text| < MAX_CHAT_LEN
    ensures ReadAll(Reading(-1, text), [0]).text == text + " "
  {
    SpaceFirst();
    var none: seq<Nibble> := [];
    assert [0] == [0] + none;
    ReadNext(Reading(-1, text), 0, none);
    ReadDone(ReadNibble(Reading(-1, text), 0), []);
  }

  /** Compressing what was decompressed gives the same bytes again. */
  lemma RecompressStable(message: string)
    ensures Compressed(Decompressed(Compressed(message))) == Compressed(message)
  {
    hide ReadAll, Pack, Unpack, Lowered, NibblesOf, Decompressed;
    var m := Truncated(message);
    var low := LoweredAll(m);
    MessageRoundTrip(message);
    LoweredAllNibbles(m);
    if Padded(message) {
      var again := low + " ";
      assert again[..|again| - 1] == low;
      assert NibblesOf(' ') == [0] by { SpaceNibble(); }
      PackUnpack(Nibbles(m));
    } else {
      assert low + "" == low;
    }
  }

  lemma SpaceNibble()
    ensures NibblesOf(' ') == [0]
  {
    SpaceFirst();
  }

  // ---- the sentence phase -----------------------------------------------------------------------------

  /** The second loop of chat_decompress: markup is blanked, and sentences start with a capital. */
  function SentenceChar(ch: char, i: nat, newSentence: bool): (r: (char, bool)) {
    var blanked := if (i > 4 && ch == '@') || ch == '%' then ' ' else ch;
    var capital := newSentence && IsLower(ch);
    (if capital then ToUpper(blanked) else blanked, if ch == '.' || ch == '!' then true else newSentence && !capital)
  }

  function Sentences(text: string, n: nat): (r: (string, bool))
    requires n <= |text|
    ensures |r.0| == n
  {
    if n == 0 then ("", true)
    else
      var before := Sentences(text, n - 1);
      var c := SentenceChar(text[n - 1], n - 1, before.1);
      (before.0 + [c.0], c.1)
  }

  method SentenceCase(out: array<char>, newLength: nat)
    requires newLength < out.Length
    modifies out
    ensures out[..newLength] == Sentences(old(out[..newLength]), newLength).0
    ensures out[newLength] == '\0'
  {
    var newSentence := true;
    ghost var text := out[..newLength];
    for i := 0 to newLength
      invariant (out[..i], newSentence) == Sentences(text, i)
      invariant forall j :: i <= j < newLength ==> out[j] == text[j]
    {
      var ch := out[i];
      if i > 4 && ch == '@' {
        out[i] := ' ';
      }
      if ch == '%' {
        out[i] := ' ';
      }
      if newSentence && IsLower(ch) {
        out[i] := ToUpper(out[i]);
        newSentence := false;
      }
      if ch == '.' || ch == '!' {
        newSentence := true;
      }
      assert out[..i + 1] == out[..i] + [out[i]];
    }
    ghost var cased := out[..newLength];
    out[newLength] := '\0';
    assert out[..newLength] == cased;
  }

  /** The sentence phase changes nothing but case and markup, and capitals are only put after a full stop or bang. */
  lemma {:induction false} SentencesMeaning(text: string, n: nat, i: nat)
    requires i < n <= |text| && forall j :: 0 <= j < |text| ==> !IsUpper(text[j])
    ensures var r := Sentences(text, n).0;
            && ToLower(r[i]) == (if (i > 4 && text[i] == '@') || text[i] == '%' then ' ' else text[i])
            && (IsUpper(r[i]) <==>
                  IsLower(text[i])
                  && forall j :: 0 <= j < i && IsLower(text[j]) ==>
                       exists k :: j < k < i && (text[k] == '.' || text[k] == '!'))
    decreases n
  {
    if i < n - 1 {
      SentencesMeaning(text, n - 1, i);
    } else {
      SentenceFlag(text, i);
    }
  }

  /** A new sentence starts if no letter has come since the last full stop or bang. */
  lemma {:induction false} SentenceFlag(text: string, n: nat)
    requires n <= |text|
    ensures Sentences(text, n).1 <==>
              forall j :: 0 <= j < n && IsLower(text[j]) ==>
                exists k :: j < k < n && (text[k] == '.' || text[k] == '!')
    decreases n
  {
    if n > 0 {
      SentenceFlag(text, n - 1);
      var ch := text[n - 1];
      if ch == '.' || ch == '!' {
        assert Sentences(text, n).1;
      } else if IsLower(ch) {
        assert !Sentences(text, n).1;
      } else {
        forall j | 0 <= j < n - 1 && IsLower(text[j])
          ensures (exists k :: j < k < n && (text[k] == '.' || text[k] == '!'))
              <==> (exists k :: j < k < n - 1 && (text[k] == '.' || text[k] == '!'))
        {
        }
      }
    }
  }

  /** Of a longer message the first 80 characters are sent. */
  lemma SentPart(message: string)
    ensures |message| <= 80 ==> Truncated(message) == message
    ensures |message| > 80 ==> Truncated(message) == message[..80]
  {
  }

  /** The letters and digits in the order of their codes. */
  lemma TableOrder()
    ensures forall i :: 0 <= i < 27 ==> Table()[i] == " etaoihnsrdlumwcyfgpbvkxjqz"[i]
    ensures forall d :: 0 <= d < 10 ==> Table()[27 + d] == "0123456789"[d]
  {
  }

  /** A message in bytes: frequent characters take half a byte, others a whole one. */
  lemma MessageBytes()
    ensures Compressed("Hello") == [0x61, 0xbb, 0x40]
    ensures Compressed("cat") == [0xd2, 0x32]
  {
    hide TabIndex, Table, NibblesOf, Pack, Nibbles;
    HelloNibbles();
    CatNibbles();
    PackNumbers();
  }

  lemma HelloNibbles()
    ensures Nibbles("Hello") == [6, 1, 11, 11, 4]
  {
    hide Nibbles, NibblesOf;
    CharNibbles();
    var m := "Hello";
    NoNibbles(m);
    NibblesSnoc(m, 0);
    NibblesSnoc(m, 1);
    NibblesSnoc(m, 2);
    NibblesSnoc(m, 3);
    NibblesSnoc(m, 4);
    assert m[..5] == m;
  }

  lemma CatNibbles()
    ensures Nibbles("cat") == [13, 2, 3, 2]
  {
    hide Nibbles, NibblesOf;
    CharNibbles();
    var m := "cat";
    NoNibbles(m);
    NibblesSnoc(m, 0);
    NibblesSnoc(m, 1);
    NibblesSnoc(m, 2);
    assert m[..3] == m;
  }

  lemma NoNibbles(m: string)
    ensures Nibbles(m[..0]) == []
  {
  }

  lemma PackNumbers()
    ensures Pack([6, 1, 11, 11, 4]) == [0x61, 0xbb, 0x40]
    ensures Pack([13, 2, 3, 2]) == [0xd2, 0x32]
  {
    assert [6, 1, 11, 11, 4][2..] == [11, 11, 4] && [11, 11, 4][2..] == [4];
    assert Pack([4]) == [0x40] && Pack([11, 11, 4]) == [0xbb, 0x40];
    assert [13, 2, 3, 2][2..] == [3, 2] && [3, 2][2..] == [];
    assert Pack([]) == [] && Pack([3, 2]) == [0x32];
  }

  lemma CharNibbles()
    ensures NibblesOf('H') == [6] && NibblesOf('e') == [1] && NibblesOf('l') == [11] && NibblesOf('o') == [4]
    ensures NibblesOf('c') == [13, 2] && NibblesOf('a') == [3] && NibblesOf('t') == [2]
  {
    hide TabIndex, Table;
    OnlyPlace('h', 6);
    OnlyPlace('e', 1);
    OnlyPlace('l', 11);
    OnlyPlace('o', 4);
    OnlyPlace('c', 15);
    OnlyPlace('a', 3);
    OnlyPlace('t', 2);
  }

  lemma OnlyPlace(ch: char, i: nat)
    requires i < 16 && " etaoihnsrdlumwc"[i] == ch && ch != ' '
    ensures TabIndex(ch, 0) == i
  {
    hide TabIndex;
    var first := " etaoihnsrdlumwc";
    assert forall j :: 0 <= j < 16 ==> Table()[j] == first[j];
    assert forall j, k :: 0 <= j < k < 16 ==> first[j] != first[k];
  }
}
