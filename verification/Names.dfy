/** Base-37 player names. */
module Names {
  import opened Chars

  const MAX_NAME_LEN := 20

  /** What namedec answers for codes of no name. */
  const INVALID := "-invalid-"

  // ---- characters ----------------------------------------------------------------------------------

  /** username_sanitize, one character. */
  function Sanitized(ch: char): char {
    if IsUpper(ch) then ToLower(ch) else if IsLower(ch) || IsDigit(ch) then ch else ' '
  }

  /** The base-37 digit of a sanitized character. */
  function Digit(ch: char): (d: nat)
    ensures d < 37
  {
    if IsLower(ch) then 1 + (ch as int - 97) else if IsDigit(ch) then 27 + (ch as int - 48) else 0
  }

  /** The character of a base-37 digit; a letter is capital if the digit in front of it is 0. */
  function DigitChar(d: nat, capital: bool): char
    requires d < 37
  {
    if d == 0 then ' '
    else if d < 27 then (if capital then (d + 65 - 1) as char else (d + 97 - 1) as char)
    else (d + 48 - 27) as char
  }

  // ---- the codec as functions ----------------------------------------------------------------------

  function Encode(name: string): nat {
    if |name| == 0 then 0 else 37 * Encode(name[..|name| - 1]) + Digit(Sanitized(name[|name| - 1]))
  }

  function Decode(code: nat): string {
    if code == 0 then "" else Decode(code / 37) + [DigitChar(code % 37, code / 37 % 37 == 0)]
  }

  const INT64 := 0x1_0000_0000_0000_0000
  const INT64_HALF := 0x8000_0000_0000_0000

  /** The 64-bit signed number that a sum or product wraps to. */
  function Int64(v: int): (w: int)
    ensures -INT64_HALF <= w < INT64_HALF
    ensures -INT64_HALF <= v < INT64_HALF ==> w == v
  {
    (v + INT64_HALF) % INT64 - INT64_HALF
  }

  /** mod37_nameenc; names of more than 12 characters may overflow 64 bits. */
  function NameEncSpec(name: string): int {
    if |name| > MAX_NAME_LEN then 0 else Int64(Encode(name))
  }

  /** mod37_namedec */
  function NameDecSpec(code: int): string {
    if code <= 0 then INVALID else Decode(code)
  }

  // ---- in place --------------------------------------------------------------------------------------

  method NameEnc(name: string) returns (encoded: int)
    ensures encoded == NameEncSpec(name)
  {
    hide Int64, Sanitized;
    encoded := 0;
    var len := |name|;
    if len > 20 {
      return;
    }
    assert Encode(name[..0]) == 0 && Int64(0) == 0;
    for i := 0 to len
      invariant encoded == Int64(Encode(name[..i]))
    {
      assert name[..i + 1][..i] == name[..i];
      var ch := Sanitized(name[i]);
      WrapsThrough(Encode(name[..i]), Digit(ch));
      encoded := Int64(encoded * 37);
      if IsLower(ch) {
        encoded := Int64(encoded + 1 + ch as int - 97);
      } else if IsDigit(ch) {
        encoded := Int64(encoded + 27 + ch as int - 48);
      }
    }
    assert name[..len] == name;
  }

  lemma WrapsBy(v: int, k: int)
    ensures Int64(v + k * INT64) == Int64(v)
  {
    var q := (v + INT64_HALF) / INT64;
    assert v + k * INT64 + INT64_HALF == (q + k) * INT64 + (v + INT64_HALF) % INT64;
    Remainder(q + k, (v + INT64_HALF) % INT64);
  }

  lemma Remainder(q: int, r: int)
    requires 0 <= r < INT64
    ensures (q * INT64 + r) % INT64 == r
  {
  }

  /** Wrapping at every step comes to wrapping once. */
  lemma WrapsThrough(code: int, d: int)
    ensures Int64(Int64(Int64(code) * 37) + d) == Int64(37 * code + d)
    ensures Int64(Int64(code)) == Int64(code)
    ensures Int64(Int64(Int64(code) * 37)) == Int64(Int64(code) * 37)
  {
    var k := -((code + INT64_HALF) / INT64);
    assert Int64(code) == code + k * INT64;
    var v := Int64(code) * 37;
    var m := -((v + INT64_HALF) / INT64);
    assert Int64(v) == v + m * INT64;
    assert Int64(v) + d == 37 * code + d + (37 * k + m) * INT64;
    WrapsBy(37 * code + d, 37 * k + m);
  }

  function Reversed(s: string): (r: string)
    ensures |r| == |s| && forall i :: 0 <= i < |s| ==> r[i] == s[|s| - 1 - i]
  {
    if |s| == 0 then "" else Reversed(s[1..]) + [s[0]]
  }

  lemma ReversedSnoc(s: string, ch: char)
    ensures Reversed(s + [ch]) == [ch] + Reversed(s)
  {
  }

  lemma ReversedNone()
    ensures Reversed("") == ""
  {
  }

  lemma DecodeStep(code: nat)
    requires code != 0
    ensures Decode(code) == Decode(code / 37) + [DigitChar(code % 37, code / 37 % 37 == 0)]
  {
  }

  /** The characters of the name, last one first. */
  method PutDigits(code: nat, decoded: array<char>) returns (length: nat)
    requires |Decode(code)| <= decoded.Length
    modifies decoded
    ensures length == |Decode(code)| && Reversed(decoded[..length]) == Decode(code)
  {
    hide Decode, Reversed;
    var encoded := code;
    length := 0;
    assert Reversed(decoded[..0]) == "" by { ReversedNone(); }
    while encoded != 0
      invariant length <= decoded.Length && Decode(code) == Decode(encoded) + Reversed(decoded[..length])
      decreases encoded
    {
      DecodeStep(encoded);
      var c := encoded % 37;
      encoded := encoded / 37;
      var ch;
      if c == 0 {
        ch := ' ';
      } else if c < 27 {
        if encoded % 37 == 0 {
          ch := (c + 65 - 1) as char;
        } else {
          ch := (c + 97 - 1) as char;
        }
      } else {
        ch := (c + 48 - 27) as char;
      }
      assert ch == DigitChar(c, encoded % 37 == 0);
      ghost var before := decoded[..length];
      ReversedSnoc(before, ch);
      assert Decode(encoded) + [ch] + Reversed(before) == Decode(encoded) + ([ch] + Reversed(before));
      decoded[length] := ch;
      length := length + 1;
      assert decoded[..length] == before + [ch];
    }
    assert Decode(0) == "" by { DecodeZero(); }
  }

  lemma DecodeZero()
    ensures Decode(0) == ""
  {
  }

  method ReverseInPlace(decoded: array<char>, length: nat)
    requires 0 < length <= decoded.Length
    modifies decoded
    ensures decoded[..length] == Reversed(old(decoded[..length]))
  {
    var end := length - 1;
    for i := 0 to length / 2
      invariant end == length - 1 - i
      invariant forall k :: 0 <= k < i ==> decoded[k] == old(decoded[length - 1 - k])
                                           && decoded[length - 1 - k] == old(decoded[k])
      invariant forall k :: i <= k < length - i ==> decoded[k] == old(decoded[k])
    {
      var tmp := decoded[i];
      decoded[i] := decoded[end];
      decoded[end] := tmp;
      end := end - 1;
    }
  }

  /** mod37_namedec: the name's length; the name itself is left in the buffer. */
  method NameDec(encoded: int, decoded: array<char>) returns (length: nat)
    requires encoded < 0x8000_0000_0000_0000 && decoded.Length >= 14
    modifies decoded
    ensures length == |NameDecSpec(encoded)| < decoded.Length && decoded[..length] == NameDecSpec(encoded)
    ensures decoded[length] == '\0'
  {
    length := 0;
    if encoded >= 0 {
      DecodeLength(encoded);
      length := PutDigits(encoded, decoded);
    }
    if length == 0 {
      for i := 0 to 9
        invariant decoded[..i] == INVALID[..i]
      {
        decoded[i] := INVALID[i];
      }
      length := 9;
    } else {
      ReverseInPlace(decoded, length);
    }
    ghost var name := decoded[..length];
    decoded[length] := '\0';
    assert decoded[..length] == name;
  }

  // ---- how long names and codes get --------------------------------------------------------------------

  function Pow37(n: nat): (p: nat)
    ensures p > 0
  {
    if n == 0 then 1 else 37 * Pow37(n - 1)
  }

  lemma {:induction false} DecodeShort(code: nat, n: nat)
    requires code < Pow37(n)
    ensures |Decode(code)| <= n
    decreases n
  {
    if code != 0 {
      DecodeShort(code / 37, n - 1);
    }
  }

  lemma PowersOf37()
    ensures Pow37(12) < 0x8000_0000_0000_0000 < 2 * Pow37(12) < Pow37(13)
  {
    assert Pow37(4) == 1874161;
    assert Pow37(8) == 37 * (37 * (37 * (37 * Pow37(4))));
    assert Pow37(12) == 37 * (37 * (37 * (37 * Pow37(8))));
  }

  lemma DecodeLength(code: nat)
    requires code < 0x8000_0000_0000_0000
    ensures |Decode(code)| <= 13
  {
    PowersOf37();
    DecodeShort(code, 13);
  }

  /** Up to 12 characters the code, and every number on the way to it, fits 64 signed bits. */
  lemma {:induction false} EncodeBelow(name: string)
    ensures Encode(name) < Pow37(|name|)
    decreases |name|
  {
    if |name| > 0 {
      EncodeBelow(name[..|name| - 1]);
    }
  }

  lemma {:induction false} Pow37Monotone(m: nat, n: nat)
    requires m <= n
    ensures Pow37(m) <= Pow37(n)
    decreases n
  {
    if m < n {
      Pow37Monotone(m, n - 1);
    }
  }

  lemma EncodeFits(name: string)
    requires |name| <= 12
    ensures Encode(name) < 0x8000_0000_0000_0000
  {
    EncodeBelow(name);
    Pow37Monotone(|name|, 12);
    PowersOf37();
  }

  // ---- round trips ---------------------------------------------------------------------------------------

  lemma DigitOfChar(d: nat, capital: bool)
    requires d < 37
    ensures Digit(Sanitized(DigitChar(d, capital))) == d
  {
  }

  lemma {:induction false} EncodeDecode(code: nat)
    ensures Encode(Decode(code)) == code
    decreases code
  {
    if code != 0 {
      EncodeDecode(code / 37);
      DigitOfChar(code % 37, code / 37 % 37 == 0);
      var name := Decode(code);
      assert name[..|name| - 1] == Decode(code / 37);
    }
  }

  /** Every code from 1 to 2^63 - 1 is the code of the name it stands for. */
  lemma CodeRoundTrip(code: nat)
    requires 1 <= code < INT64_HALF
    ensures NameEncSpec(NameDecSpec(code)) == code
  {
    DecodeLength(code);
    EncodeDecode(code);
  }

  /** Everything from the first letter or digit on. */
  function Stripped(name: string): string {
    if |name| == 0 || Sanitized(name[0]) != ' ' then name else Stripped(name[1..])
  }

  /** Each word capitalised, anything but letters and digits as spaces. */
  function Title(name: string, wordStart: bool): string {
    if |name| == 0 then ""
    else
      var ch := Sanitized(name[0]);
      [if wordStart then ToUpper(ch) else ch] + Title(name[1..], ch == ' ')
  }

  function Canonical(name: string): string {
    Title(Stripped(name), true)
  }

  lemma {:induction false} TitleAppend(name: string, ch: char, wordStart: bool)
    ensures Title(name + [ch], wordStart)
         == Title(name, wordStart)
            + [if (if |name| == 0 then wordStart else Sanitized(name[|name| - 1]) == ' ') then ToUpper(Sanitized(ch))
               else Sanitized(ch)]
    decreases |name|
  {
    hide Sanitized, ToUpper;
    if |name| == 0 {
      assert (name + [ch])[1..] == "";
    } else {
      assert (name + [ch])[1..] == name[1..] + [ch];
      TitleAppend(name[1..], ch, Sanitized(name[0]) == ' ');
    }
  }

  lemma {:induction false} StrippedAppend(name: string, ch: char)
    ensures Stripped(name + [ch]) == if Stripped(name) == "" then (if Sanitized(ch) == ' ' then "" else [ch])
                                     else Stripped(name) + [ch]
    ensures Stripped(name) != "" ==> |Stripped(name)| <= |name| && Stripped(name)[|Stripped(name)| - 1] == name[|name| - 1]
    decreases |name|
  {
    hide Sanitized;
    if |name| == 0 {
      assert (name + [ch])[1..] == "";
    } else {
      assert (name + [ch])[1..] == name[1..] + [ch];
      StrippedAppend(name[1..], ch);
    }
  }

  lemma DigitZero(ch: char)
    ensures Digit(Sanitized(ch)) == 0 <==> Sanitized(ch) == ' '
    ensures DigitChar(Digit(Sanitized(ch)), false) == Sanitized(ch)
    ensures DigitChar(Digit(Sanitized(ch)), true) == ToUpper(Sanitized(ch))
  {
  }

  /** The last digit of a code is that of the last character, and the others are the code of the rest. */
  lemma EncodeStep(name: string)
    requires |name| > 0
    ensures Encode(name) / 37 == Encode(name[..|name| - 1])
    ensures Encode(name) % 37 == Digit(Sanitized(name[|name| - 1]))
    ensures Encode(name) == 37 * Encode(name[..|name| - 1]) + Digit(Sanitized(name[|name| - 1]))
  {
    hide Digit, Sanitized;
  }

  lemma {:induction false} DecodeEncode(name: string)
    ensures Decode(Encode(name)) == Canonical(name)
    ensures Encode(name) == 0 <==> Stripped(name) == ""
    decreases |name|
  {
    hide Sanitized, Digit, DigitChar, ToUpper, Title, Stripped, Encode, Decode;
    NothingStripped();
    DecodeZero();
    if |name| == 0 {
      assert Encode("") == 0 by { EncodeNone(); }
    } else {
      var before := name[..|name| - 1];
      var ch := name[|name| - 1];
      assert name == before + [ch];
      DecodeEncode(before);
      EncodeStep(name);
      StrippedAppend(before, ch);
      TitleAppend(Stripped(before), ch, true);
      DigitZero(ch);
      if Encode(name) != 0 {
        DecodeStep(Encode(name));
      }
      if |before| > 0 {
        EncodeStep(before);
        DigitZero(before[|before| - 1]);
      } else {
        EncodeNone();
      }
    }
  }

  lemma EncodeNone()
    ensures Encode("") == 0
  {
  }

  lemma NothingStripped()
    ensures Stripped("") == "" && Title("", true) == ""
    ensures forall ch :: Title([ch], true) == [ToUpper(Sanitized(ch))]
  {
    forall ch ensures Title([ch], true) == [ToUpper(Sanitized(ch))] {
      assert [ch][1..] == "";
    }
  }

  /** No decoded name looks like the marker of an invalid code. */
  lemma {:induction false} NoDash(code: nat)
    ensures '-' !in Decode(code)
    decreases code
  {
    if code != 0 {
      NoDash(code / 37);
    }
  }

  /**
   * A name comes back without leading spaces, other characters as spaces, and each word capitalised, if and only if
   * it has a letter or digit and its code does not overflow.
   */
  lemma NameRoundTripIff(name: string)
    requires |name| <= 20
    ensures NameDecSpec(NameEncSpec(name)) == Canonical(name) <==> 1 <= Encode(name) < INT64_HALF
  {
    var code := Encode(name);
    var stored := NameEncSpec(name);
    DecodeEncode(name);
    NoDash(code);
    if stored <= 0 {
      assert INVALID[0] == '-';
    } else {
      EncodeDecode(stored);
      EncodeDecode(code);
    }
  }

  /** As every name of at most 12 characters with a letter or digit in it does. */
  lemma ShortNames(name: string)
    requires |name| <= 12
    ensures NameDecSpec(NameEncSpec(name)) == Canonical(name) <==> Stripped(name) != ""
  {
    EncodeFits(name);
    DecodeEncode(name);
    NameRoundTripIff(name);
  }

  /** A name of 13 characters that starts with a letter behind a, or with a digit, overflows and is lost. */
  lemma LongNameLost(name: string)
    requires |name| == 13 && Digit(Sanitized(name[0])) >= 2
    ensures NameDecSpec(NameEncSpec(name)) != Canonical(name)
  {
    hide Encode, Pow37, Canonical, NameEncSpec, NameDecSpec;
    EncodeAbove(name);
    PowersOf37();
    NameRoundTripIff(name);
  }

  lemma {:induction false} EncodeAbove(name: string)
    requires |name| > 0 && Digit(Sanitized(name[0])) >= 2
    ensures Encode(name) >= 2 * Pow37(|name| - 1)
    decreases |name|
  {
    hide Digit, Sanitized;
    var before := name[..|name| - 1];
    if |before| > 0 {
      EncodeAbove(before);
    } else {
      assert Encode(before) == 0;
    }
  }

  /** Two names are the same player exactly when their canonical forms agree, unless a code overflows. */
  lemma SameCodeIff(a: string, b: string)
    requires |a| <= 20 && |b| <= 20 && Encode(a) < INT64_HALF && Encode(b) < INT64_HALF
    ensures NameEncSpec(a) == NameEncSpec(b) <==> Canonical(a) == Canonical(b)
  {
    DecodeEncode(a);
    DecodeEncode(b);
    EncodeDecode(Encode(a));
    EncodeDecode(Encode(b));
  }

  /** A name too long gets the code of no name, and codes of no name are answered with the marker. */
  lemma NoName(name: string, code: int)
    requires |name| > 20 && code <= 0
    ensures NameEncSpec(name) == 0 && NameDecSpec(code) == "-invalid-"
  {
  }

  /** Codes in numbers: letters from 1, digits from 27, anything else 0. */
  lemma CodeNumbers()
    ensures Encode("Zezima") == 1813643468 && Encode("a 9") == 1405
  {
    assert "Zezima"[..5] == "Zezim" && "Zezim"[..4] == "Zezi" && "Zezi"[..3] == "Zez" && "Zez"[..2] == "Ze" && "Ze"[..1] == "Z";
    assert "a 9"[..2] == "a " && "a "[..1] == "a";
    assert Encode("") == 0 && "Z"[..0] == "" && "a"[..0] == "";
    assert Encode("Z") == 26;
    assert Encode("a") == 1;
  }
}
