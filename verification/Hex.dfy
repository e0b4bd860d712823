/**
 The hex forms of byte strings: `hex_encode` in capa-x/src/result_document/feature.rs, `hex_decode` in
 capa-x/src/features.rs.
 */
module Hex {
  import opened Base

  /** The lower-case digit of a value below 16. */
  function Digit(v: bv8): char {
    if v == 0 then '0' else if v == 1 then '1' else if v == 2 then '2' else if v == 3 then '3'
    else if v == 4 then '4' else if v == 5 then '5' else if v == 6 then '6' else if v == 7 then '7'
    else if v == 8 then '8' else if v == 9 then '9' else if v == 10 then 'a' else if v == 11 then 'b'
    else if v == 12 then 'c' else if v == 13 then 'd' else if v == 14 then 'e' else 'f'
  }

  /** `to_digit(16)`: digits of either case. */
  function DigitValue(c: char): Option<bv8> {
    if c == '0' then Some(0) else if c == '1' then Some(1) else if c == '2' then Some(2) else if c == '3' then Some(3)
    else if c == '4' then Some(4) else if c == '5' then Some(5) else if c == '6' then Some(6)
    else if c == '7' then Some(7) else if c == '8' then Some(8) else if c == '9' then Some(9)
    else if c == 'a' || c == 'A' then Some(10) else if c == 'b' || c == 'B' then Some(11)
    else if c == 'c' || c == 'C' then Some(12) else if c == 'd' || c == 'D' then Some(13)
    else if c == 'e' || c == 'E' then Some(14) else if c == 'f' || c == 'F' then Some(15)
    else None
  }

  function Encode(bytes: seq<bv8>): string {
    if bytes == [] then "" else Encode(bytes[..|bytes| - 1]) + EncodeByte(bytes[|bytes| - 1])
  }

  function EncodeByte(b: bv8): string {
    [Digit(b >> 4), Digit(b & 0xf)]
  }

  /** The bytes that `s` spells, two digits each. */
  function Decode(s: string): Option<seq<bv8>> {
    if s == "" then Some([])
    else if |s| == 1 then None
    else
      var init, hi, lo := Decode(s[..|s| - 2]), DigitValue(s[|s| - 2]), DigitValue(s[|s| - 1]);
      if init.None? || hi.None? || lo.None? then None else Some(init.value + [(hi.value << 4) | lo.value])
  }

  lemma DigitIsHexadecimal(n: nat)
    requires n < 16
    ensures n as bv8 < 16 && Digit(n as bv8) == "0123456789abcdef"[n]
  {
    assert n in {0, 1, 2, 3, 4, 5, 6, 7, 8, 9, 10, 11, 12, 13, 14, 15};
  }

  /** A byte is written as its two hexadecimal digits, the higher one first. */
  lemma EncodedByteIsHexadecimal(hi: nat, lo: nat)
    requires hi < 16 && lo < 16
    ensures EncodeByte((hi as bv8 << 4) | lo as bv8) == ["0123456789abcdef"[hi], "0123456789abcdef"[lo]]
  {
    DigitIsHexadecimal(hi);
    DigitIsHexadecimal(lo);
    ByteSpellsDigits(hi as bv8, lo as bv8);
  }

  method HexEncode(bytes: seq<bv8>) returns (s: string)
    ensures s == Encode(bytes)
  {
    s := "";
    for i := 0 to |bytes|
      invariant s == Encode(bytes[..i])
    {
      assert bytes[..i + 1][..i] == bytes[..i];
      s := s + EncodeByte(bytes[i]);
    }
    assert bytes[..|bytes|] == bytes;
  }

  lemma {:induction false} DecodesPrefix(s: string, i: nat)
    requires i <= |s| && |s| % 2 == i % 2 && Decode(s).Some?
    ensures Decode(s[..i]).Some?
    decreases |s|
  {
    if i < |s| {
      assert s[..|s| - 2][..i] == s[..i];
      DecodesPrefix(s[..|s| - 2], i);
    } else {
      assert s[..i] == s;
    }
  }

  lemma {:induction false} OddDoesNotDecode(s: string)
    requires |s| % 2 == 1
    ensures Decode(s).None?
  {
    if |s| > 1 {
      OddDoesNotDecode(s[..|s| - 2]);
    }
  }

  method HexDecode(s: string) returns (r: Option<seq<bv8>>)
    ensures r == Decode(s)
  {
    if |s| % 2 != 0 {
      OddDoesNotDecode(s);
      return None;
    }
    var out: seq<bv8> := [];
    var i := 0;
    while i < |s|
      invariant 0 <= i <= |s| && i % 2 == 0
      invariant Decode(s[..i]) == Some(out)
    {
      var hi := DigitValue(s[i]);
      var lo := DigitValue(s[i + 1]);
      assert s[..i + 2][..i] == s[..i];
      if hi.None? || lo.None? {
        if Decode(s).Some? {
          DecodesPrefix(s, i + 2);
        }
        return None;
      }
      out := out + [(hi.value << 4) | lo.value];
      i := i + 2;
    }
    assert s[..i] == s;
    r := Some(out);
  }

  // ---- the two are inverse, up to the case of the digits ----

  function Lower(c: char): char {
    if c == 'A' then 'a' else if c == 'B' then 'b' else if c == 'C' then 'c'
    else if c == 'D' then 'd' else if c == 'E' then 'e' else if c == 'F' then 'f' else c
  }

  function LowerAll(s: string): string {
    seq(|s|, i requires 0 <= i < |s| => Lower(s[i]))
  }

  lemma DigitsSpellByte(b: bv8)
    ensures DigitValue(Digit(b >> 4)) == Some(b >> 4) && DigitValue(Digit(b & 0xf)) == Some(b & 0xf)
    ensures ((b >> 4) << 4) | (b & 0xf) == b
  {
    assert b >> 4 < 16 && b & 0xf < 16;
  }

  lemma ByteSpellsDigits(hi: bv8, lo: bv8)
    requires hi < 16 && lo < 16
    ensures ((hi << 4) | lo) >> 4 == hi && ((hi << 4) | lo) & 0xf == lo
  {
  }

  lemma DecodeAppend(a: string, hi: char, lo: char)
    requires Decode(a).Some? && DigitValue(hi).Some? && DigitValue(lo).Some?
    ensures Decode(a + [hi, lo]) == Some(Decode(a).value + [(DigitValue(hi).value << 4) | DigitValue(lo).value])
  {
    assert (a + [hi, lo])[..|a|] == a;
  }

  lemma {:induction false} EncodedDecodes(bytes: seq<bv8>)
    ensures Decode(Encode(bytes)) == Some(bytes)
  {
    if bytes != [] {
      var init, last := bytes[..|bytes| - 1], bytes[|bytes| - 1];
      EncodedDecodes(init);
      DigitsSpellByte(last);
      DecodeAppend(Encode(init), Digit(last >> 4), Digit(last & 0xf));
      assert bytes == init + [last];
    }
  }

  /** A string decodes to some bytes exactly when, in lower case, it is their encoding. */
  lemma {:induction false} DecodesIff(s: string, bytes: seq<bv8>)
    ensures Decode(s) == Some(bytes) <==> LowerAll(s) == Encode(bytes)
    decreases |s|
  {
    if |s| < 2 || bytes == [] {
      if bytes != [] {
        assert |Encode(bytes)| >= 2;
      }
    } else {
      var shorter, init, last := s[..|s| - 2], bytes[..|bytes| - 1], bytes[|bytes| - 1];
      DecodesIff(shorter, init);
      LastByteDecides(s, shorter, init, last);
      assert bytes == init + [last];
    }
  }

  /** Whether the whole matches is decided by the last byte and by what comes before it. */
  lemma LastByteDecides(s: string, shorter: string, init: seq<bv8>, last: bv8)
    requires |s| >= 2 && shorter == s[..|s| - 2]
    requires Decode(shorter) == Some(init) <==> LowerAll(shorter) == Encode(init)
    ensures Decode(s) == Some(init + [last]) <==> LowerAll(s) == Encode(init + [last])
  {
    var hi, lo := s[|s| - 2], s[|s| - 1];
    LastByte(hi, lo, last);
    LowerEnds(s, shorter);
    EncodeAppend(init, last);
    SameEnds(LowerAll(shorter), LowerAll([hi, lo]), Encode(init), EncodeByte(last));
    LastIsDecoded(s, shorter, init, last);
  }

  /** The two digits spell the byte. */
  predicate Spells(hi: char, lo: char, b: bv8) {
    DigitValue(hi).Some? && DigitValue(lo).Some? && (DigitValue(hi).value << 4) | DigitValue(lo).value == b
  }

  lemma LowerEnds(s: string, shorter: string)
    requires |s| >= 2 && shorter == s[..|s| - 2]
    ensures LowerAll(s) == LowerAll(shorter) + LowerAll([s[|s| - 2], s[|s| - 1]])
  {
  }

  lemma EncodeAppend(init: seq<bv8>, last: bv8)
    ensures Encode(init + [last]) == Encode(init) + EncodeByte(last)
  {
    assert (init + [last])[..|init|] == init;
  }

  lemma LastIsDecoded(s: string, shorter: string, init: seq<bv8>, last: bv8)
    requires |s| >= 2 && shorter == s[..|s| - 2]
    ensures Decode(s) == Some(init + [last])
            <==> Decode(shorter) == Some(init) && Spells(s[|s| - 2], s[|s| - 1], last)
  {
    var r := Decode(shorter);
    if r.Some? {
      forall b: bv8 ensures r.value + [b] == init + [last] <==> r.value == init && b == last {
        if r.value + [b] == init + [last] {
          assert (r.value + [b])[..|r.value|] == r.value && (init + [last])[..|init|] == init;
          assert (r.value + [b])[|r.value|] == b;
        }
      }
    }
  }

  lemma SameEnds(a: string, x: string, b: string, y: string)
    requires |x| == |y| == 2
    ensures a + x == b + y <==> a == b && x == y
  {
    if a + x == b + y {
      assert |a| == |b|;
      assert a == (a + x)[..|a|] && b == (b + y)[..|b|];
      assert x == (a + x)[|a|..] && y == (b + y)[|b|..];
    }
  }

  lemma LastByte(hi: char, lo: char, b: bv8)
    ensures LowerAll([hi, lo]) == EncodeByte(b) <==> Spells(hi, lo, b)
  {
    assert LowerAll([hi, lo]) == [Lower(hi), Lower(lo)];
    DigitsSpellByte(b);
    SpelledDigit(hi, b >> 4);
    SpelledDigit(lo, b & 0xf);
    if DigitValue(hi).Some? && DigitValue(lo).Some? {
      ByteSpellsDigits(DigitValue(hi).value, DigitValue(lo).value);
    }
  }

  lemma SpelledDigit(c: char, v: bv8)
    requires v < 16
    ensures DigitValue(c) == Some(v) <==> Lower(c) == Digit(v)
  {
  }
}
