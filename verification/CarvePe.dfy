/** capa-x/src/extract/helpers.rs: finding embedded executables that may be hidden under a one-byte XOR key. */
module CarvePe {
  import opened Features
  import opened Sorting

  const MAX_OFFSET_PE_AFTER_MZ := 0x200

  // ---- exclusive or on bytes ----

  function PowerOfTwo(bits: nat): nat {
    if bits == 0 then 1 else 2 * PowerOfTwo(bits - 1)
  }

  /** Exclusive or of the lowest bits. */
  function XorBits(a: nat, b: nat, bits: nat): (r: nat)
    ensures r < PowerOfTwo(bits)
  {
    if bits == 0 then 0 else (if a % 2 == b % 2 then 0 else 1) + 2 * XorBits(a / 2, b / 2, bits - 1)
  }

  function Xor(a: u8, b: u8): u8 {
    assert PowerOfTwo(8) == 0x100 by {
      assert PowerOfTwo(4) == 16;
    }
    XorBits(a, b, 8)
  }

  /** Any two of a byte, a key and the outcome determine the third. */
  lemma {:induction false} XorBitsForced(a: nat, b: nat, c: nat, bits: nat)
    requires a < PowerOfTwo(bits) && b < PowerOfTwo(bits) && c < PowerOfTwo(bits)
    ensures XorBits(a, b, bits) == c <==> b == XorBits(a, c, bits)
    ensures XorBits(a, b, bits) == c <==> a == XorBits(c, b, bits)
  {
    if bits > 0 {
      XorBitsForced(a / 2, b / 2, c / 2, bits - 1);
    }
  }

  lemma XorForced(byte: u8, key: u8, plain: u8)
    ensures Xor(byte, key) == plain <==> key == Xor(byte, plain)
    ensures Xor(byte, key) == plain <==> byte == Xor(plain, key)
  {
    assert PowerOfTwo(4) == 16;
    assert PowerOfTwo(8) == 0x100;
    XorBitsForced(byte, key, plain, 8);
  }

  /** Whether bit `k` of the number is set. */
  predicate Bit(n: nat, k: nat) {
    if k == 0 then n % 2 == 1 else Bit(n / 2, k - 1)
  }

  lemma {:induction false} XorBitsBit(a: nat, b: nat, bits: nat, k: nat)
    requires k < bits
    ensures Bit(XorBits(a, b, bits), k) <==> (Bit(a, k) != Bit(b, k))
  {
    if k > 0 {
      XorBitsBit(a / 2, b / 2, bits - 1, k - 1);
      assert XorBits(a, b, bits) / 2 == XorBits(a / 2, b / 2, bits - 1);
    }
  }

  lemma {:induction false} BitsDetermine(a: nat, b: nat, bits: nat)
    requires a < PowerOfTwo(bits) && b < PowerOfTwo(bits) && forall k: nat | k < bits :: Bit(a, k) <==> Bit(b, k)
    ensures a == b
  {
    if bits > 0 {
      forall k: nat | k < bits - 1 ensures Bit(a / 2, k) <==> Bit(b / 2, k) {
        assert Bit(a, k + 1) <==> Bit(b, k + 1);
      }
      BitsDetermine(a / 2, b / 2, bits - 1);
      assert Bit(a, 0) <==> Bit(b, 0);
    }
  }

  /** It is exclusive or: the one byte whose bits are those that are set in exactly one of the two. */
  lemma XorIsExclusive(a: u8, b: u8, c: u8)
    ensures forall k: nat | k < 8 :: Bit(Xor(a, b), k) <==> (Bit(a, k) != Bit(b, k))
    ensures (forall k: nat | k < 8 :: Bit(c, k) <==> (Bit(a, k) != Bit(b, k))) ==> c == Xor(a, b)
  {
    forall k: nat | k < 8 ensures Bit(Xor(a, b), k) <==> (Bit(a, k) != Bit(b, k)) {
      XorBitsBit(a, b, 8, k);
    }
    if forall k: nat | k < 8 :: Bit(c, k) <==> (Bit(a, k) != Bit(b, k)) {
      assert PowerOfTwo(4) == 16;
      assert PowerOfTwo(8) == 0x100;
      BitsDetermine(c, Xor(a, b), 8);
    }
  }

  // ---- what is looked for ----

  /** The four bytes at `at`, decoded with the key, as a little-endian number. */
  function DecodedWord(buf: seq<u8>, at: nat, key: u8): nat
    requires at + 4 <= |buf|
  {
    Xor(buf[at], key) + 0x100 * Xor(buf[at + 1], key) + 0x1_0000 * Xor(buf[at + 2], key)
    + 0x100_0000 * Xor(buf[at + 3], key)
  }

  /** The two bytes at `at`, decoded with the key, are these. */
  predicate Decodes(buf: seq<u8>, at: nat, key: u8, first: u8, second: u8) {
    at + 2 <= |buf| && Xor(buf[at], key) == first && Xor(buf[at + 1], key) == second
  }

  const M: u8 := 0x4d
  const Z: u8 := 0x5a
  const P: u8 := 0x50
  const E: u8 := 0x45

  /** What the reference scan looks for with each of the 256 keys: `MZ`, a near enough `e_lfanew`, and `PE` there. */
  predicate IsEmbedded(buf: seq<u8>, at: nat, key: u8) {
    && Decodes(buf, at, key, M, Z)
    && at + 0x3c + 4 <= |buf|
    && DecodedWord(buf, at + 0x3c, key) <= MAX_OFFSET_PE_AFTER_MZ
    && Decodes(buf, at + DecodedWord(buf, at + 0x3c, key), key, P, E)
  }

  /** The four bytes at `at` as a little-endian number. */
  function Word(image: seq<u8>, at: nat): nat
    requires at + 4 <= |image|
  {
    var a: nat, b: nat, c: nat, d: nat := image[at], image[at + 1], image[at + 2], image[at + 3];
    a + 0x100 * b + 0x1_0000 * c + 0x100_0000 * d
  }

  /** An undisguised executable begins at `at`: `MZ`, and `PE` at the distance given there, which is at most 0x200. */
  predicate IsExecutable(image: seq<u8>, at: nat) {
    && at + 0x40 <= |image| && image[at] == 0x4d && image[at + 1] == 0x5a
    && var distance := Word(image, at + 0x3c);
       && distance <= 0x200 && at + distance + 2 <= |image|
       && image[at + distance] == 0x50 && image[at + distance + 1] == 0x45
  }

  function Disguised(image: seq<u8>, key: u8): seq<u8> {
    seq(|image|, i requires 0 <= i < |image| => Xor(image[i], key))
  }

  lemma DisguiseTwice(image: seq<u8>, key: u8)
    ensures Disguised(Disguised(image, key), key) == image
  {
    forall i | 0 <= i < |image| ensures Xor(Xor(image[i], key), key) == image[i] {
      XorForced(image[i], key, Xor(image[i], key));
    }
  }

  lemma ZeroDisguisesNothing(image: seq<u8>)
    ensures Disguised(image, 0) == image
  {
    forall i | 0 <= i < |image| ensures Xor(image[i], 0) == image[i] {
      XorIsExclusive(image[i], 0, image[i]);
      forall k: nat ensures !Bit(0, k) {
        ZeroHasNoBits(k);
      }
    }
  }

  lemma {:induction false} ZeroHasNoBits(k: nat)
    ensures !Bit(0, k)
  {
    if k > 0 {
      ZeroHasNoBits(k - 1);
    }
  }

  lemma EmbeddedIsDisguised(buf: seq<u8>, at: nat, key: u8)
    ensures IsEmbedded(buf, at, key) <==> IsExecutable(Disguised(buf, key), at)
  {
  }

  /** An executable under any key is found with that key where it begins, and one under no key with key 0. */
  lemma DisguisedIsFound(image: seq<u8>, at: nat, key: u8)
    ensures IsEmbedded(Disguised(image, key), at, key) <==> IsExecutable(image, at)
    ensures IsEmbedded(image, at, 0) <==> IsExecutable(image, at)
  {
    DisguiseTwice(image, key);
    ZeroDisguisesNothing(image);
    EmbeddedIsDisguised(Disguised(image, key), at, key);
    EmbeddedIsDisguised(image, at, 0);
  }

  type Found = (nat, u8)

  /** Higher keys first, and lower offsets first within a key. */
  predicate Precedes(a: Found, b: Found) {
    a.1 > b.1 || (a.1 == b.1 && a.0 < b.0)
  }

  /** The sort key that puts offsets up to `n` in that order. */
  function Rank(n: nat): Found -> int {
    (x: Found) => RankOf(n, x)
  }

  function RankOf(n: nat, x: Found): int {
    Times(255 - x.1, n + 1) + x.0
  }

  function Times(k: nat, n: nat): nat {
    if k == 0 then 0 else Times(k - 1, n) + n
  }

  lemma {:induction false} TimesGrows(j: nat, k: nat, n: nat)
    requires j < k
    ensures Times(j, n) + n <= Times(k, n)
  {
    if j < k - 1 {
      TimesGrows(j, k - 1, n);
    }
  }

  lemma RankOrders(n: nat, a: Found, b: Found)
    requires a.0 <= n && b.0 <= n && a.0 != b.0 && RankOf(n, a) <= RankOf(n, b)
    ensures Precedes(a, b)
  {
    if a.1 < b.1 {
      TimesGrows(255 - b.1, 255 - a.1, n + 1);
    }
  }

  /** `out` has what the first part of the scan finds, each offset once, in ascending order. */
  ghost predicate Collects(buf: seq<u8>, from: nat, to: nat, out: seq<Found>) {
    && (forall k | 0 <= k < |out| :: from <= out[k].0 < to && IsEmbedded(buf, out[k].0, out[k].1))
    && (forall at: nat, key: u8 | from <= at < to && IsEmbedded(buf, at, key) :: (at, key) in out)
    && (forall i, j | 0 <= i < j < |out| :: out[i].0 != out[j].0)
  }

  /** At most one key fits an offset: the one that turns its first byte into `M`. */
  lemma KeyIsForced(buf: seq<u8>, at: nat, key: u8)
    requires IsEmbedded(buf, at, key)
    ensures key == Xor(buf[at], M)
  {
    XorForced(buf[at], key, M);
  }

  lemma CollectsMore(buf: seq<u8>, from: nat, to: nat, out: seq<Found>, key: u8)
    requires from <= to < |buf| && Collects(buf, from, to, out) && key == Xor(buf[to], M)
    ensures IsEmbedded(buf, to, key) ==> Collects(buf, from, to + 1, out + [(to, key)])
    ensures !IsEmbedded(buf, to, key) ==> Collects(buf, from, to + 1, out)
  {
    forall k: u8 | IsEmbedded(buf, to, k) ensures k == key {
      KeyIsForced(buf, to, k);
    }
    CollectsNext(buf, from, to, out, key);
  }

  lemma CollectsNext(buf: seq<u8>, from: nat, to: nat, out: seq<Found>, key: u8)
    requires from <= to && Collects(buf, from, to, out)
    requires forall k: u8 | IsEmbedded(buf, to, k) :: k == key
    ensures IsEmbedded(buf, to, key) ==> Collects(buf, from, to + 1, out + [(to, key)])
    ensures !IsEmbedded(buf, to, key) ==> Collects(buf, from, to + 1, out)
  {
    var more := out + [(to, key)];
    assert forall x :: x in more <==> x in out || x == (to, key);
  }

  /** The candidate test of the fast scan, with the key derived from the first byte. */
  method TryOffset(buf: seq<u8>, at: nat) returns (key: u8, found: bool)
    requires at + 2 <= |buf|
    ensures key == Xor(buf[at], M) && found == IsEmbedded(buf, at, key)
  {
    key := Xor(buf[at], M);
    XorForced(buf[at], key, M);
    if Xor(buf[at + 1], key) != Z { return key, false; }
    if at + 0x3c + 4 > |buf| { return key, false; }
    var newoff := DecodedWord(buf, at + 0x3c, key);
    if newoff > MAX_OFFSET_PE_AFTER_MZ { return key, false; }
    var peoff := at + newoff;
    if peoff + 2 > |buf| { return key, false; }
    XorForced(buf[peoff], key, P);
    XorForced(buf[peoff + 1], key, E);
    found := buf[peoff] == Xor(P, key) && buf[peoff + 1] == Xor(E, key);
  }

  /**
   `carve_pe`: one pass over the offsets, then a sort. It finds exactly what the 256 scans of the reference find, each
   offset at most once, in the reference's order.
   */
  method Carve(buf: seq<u8>, offset: nat) returns (out: seq<Found>)
    ensures forall at: nat, key: u8 :: (at, key) in out <==> offset <= at && IsEmbedded(buf, at, key)
    ensures forall i, j | 0 <= i < j < |out| :: Precedes(out[i], out[j]) && out[i].0 != out[j].0
  {
    out := [];
    if offset > |buf| { return; }
    var at := offset;
    while at + 2 <= |buf|
      invariant offset <= at
      invariant at <= offset || at < |buf|
      invariant Collects(buf, offset, at, out)
    {
      CollectsMore(buf, offset, at, out, Xor(buf[at], M));
      var key, found := TryOffset(buf, at);
      if found {
        out := out + [(at, key)];
      }
      at := at + 1;
    }
    ghost var collected := out;
    out := SortByKey(out, Rank(|buf|));
    SortedFound(buf, offset, at, collected);
  }

  lemma SortedFound(buf: seq<u8>, from: nat, to: nat, collected: seq<Found>)
    requires Collects(buf, from, to, collected) && to + 2 > |buf|
    ensures var out := SortByKey(collected, Rank(|buf|));
            && (forall at: nat, key: u8 :: (at, key) in out <==> from <= at && IsEmbedded(buf, at, key))
            && forall i, j | 0 <= i < j < |out| :: Precedes(out[i], out[j]) && out[i].0 != out[j].0
  {
    var out := SortByKey(collected, Rank(|buf|));
    SortByKeySorts(collected, Rank(|buf|));
    OffsetsStayDistinct(collected, Rank(|buf|));
    forall x ensures x in out <==> x in collected {
      assert x in multiset(out) <==> x in multiset(collected);
    }
    InReferenceOrder(|buf|, out);
  }

  lemma InReferenceOrder(n: nat, out: seq<Found>)
    requires SortedBy(out, Rank(n)) && DistinctKeys(out, Offset) && forall x | x in out :: x.0 <= n
    ensures forall i, j | 0 <= i < j < |out| :: Precedes(out[i], out[j]) && out[i].0 != out[j].0
  {
    forall i, j | 0 <= i < j < |out| ensures Precedes(out[i], out[j]) && out[i].0 != out[j].0 {
      assert Rank(n)(out[i]) <= Rank(n)(out[j]) && Offset(out[i]) != Offset(out[j]);
      RankOrders(n, out[i], out[j]);
    }
  }

  function Offset(x: Found): int {
    x.0
  }

  /** Sorting does not repeat an offset. */
  lemma {:induction false} OffsetsStayDistinct(s: seq<Found>, key: Found -> int)
    requires DistinctKeys(s, Offset)
    ensures DistinctKeys(SortByKey(s, key), Offset)
  {
    if s != [] {
      var init, last := s[..|s| - 1], s[|s| - 1];
      OffsetsStayDistinct(init, key);
      SortByKeySorts(init, key);
      forall y | y in SortByKey(init, key) ensures Offset(y) != Offset(last) {
        assert y in multiset(init);
      }
      InsertKeepsOffsets(SortByKey(init, key), last, key);
    }
  }

  lemma {:induction false} InsertKeepsOffsets(s: seq<Found>, x: Found, key: Found -> int)
    requires DistinctKeys(s, Offset) && forall y | y in s :: Offset(y) != Offset(x)
    ensures DistinctKeys(InsertByKey(s, x, key), Offset)
  {
    if s != [] && key(s[|s| - 1]) > key(x) {
      var init, last := s[..|s| - 1], s[|s| - 1];
      InsertKeepsOffsets(init, x, key);
      InsertKeepsElements(init, x, key);
      var r := InsertByKey(init, x, key);
      forall i | 0 <= i < |r| ensures Offset(r[i]) != Offset(last) {
        assert r[i] in multiset(r);
        assert r[i] in init || r[i] == x;
      }
    }
  }
}
