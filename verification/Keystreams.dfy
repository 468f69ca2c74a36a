/**
 What key and nonce of src/crypto.c are for: different ones give different seeds, and different
 seeds hide every payload of eight bytes or more differently.
 */
module Keystreams {
  import opened Crypto
  import opened Window32

  // Equality of words, kept apart from the arithmetic on both sides.
  predicate Same(p: bv64, q: bv64) { p == q }

  lemma SameWord(p: bv64, q: bv64)
    requires Same(p, q)
    ensures p == q
  {
  }

  lemma ExclusiveOr(p: bv64, q: bv64, r: bv64)
    ensures p ^ q == p ^ r ==> q == r
    ensures q ^ p == r ^ p ==> q == r
  {
  }

  lemma NoDifference(p: bv64, q: bv64)
    ensures Same(p ^ q, 0) <==> p == q
  {
  }

  // The prime is odd, so that multiplication by it loses nothing.
  lemma SameFactor(t: bv64, u: bv64)
    requires Same(t * 0x100000001b3, u * 0x100000001b3)
    ensures t == u
  {
    SameWord(t * 0x100000001b3, u * 0x100000001b3);
  }

  lemma SameProduct(s: bv64, b: bv64, t: bv64, c: bv64)
    requires Fnv(s, b) == Fnv(t, c)
    ensures Same((s ^ b) * 0x100000001b3, (t ^ c) * 0x100000001b3)
  {
    assert Same(Fnv(s, b), Fnv(s, b));
  }

  lemma SameOperands(s: bv64, b: bv64, t: bv64, c: bv64)
    requires Fnv(s, b) == Fnv(t, c)
    ensures s ^ b == t ^ c
  {
    SameProduct(s, b, t, c);
    SameFactor(s ^ b, t ^ c);
  }

  // A round of the hash keeps apart what differs in one operand.
  lemma DifferentSecond(s: bv64, b: bv64, c: bv64)
    requires b != c
    ensures Fnv(s, b) != Fnv(s, c)
  {
    if Fnv(s, b) == Fnv(s, c) {
      SameOperands(s, b, s, c);
      ExclusiveOr(s, b, c);
    }
  }

  lemma DifferentFirst(s: bv64, t: bv64, b: bv64)
    requires s != t
    ensures Fnv(s, b) != Fnv(t, b)
  {
    if Fnv(s, b) == Fnv(t, b) {
      SameOperands(s, b, t, b);
      ExclusiveOr(b, s, t);
    }
  }

  lemma SameByteWord(a: bv8, b: bv8)
    ensures a as bv64 == b as bv64 ==> a == b
  {
  }

  lemma MixedLast(a: seq<bv8>, x: bv8)
    ensures Mixed(a + [x]) == Fnv(Mixed(a), x as bv64)
  {
    assert (a + [x])[..|a|] == a;
  }

  lemma LastByteChangesHash(a: seq<bv8>, x: bv8, y: bv8)
    requires x != y
    ensures Mixed(a + [x]) != Mixed(a + [y])
  {
    MixedLast(a, x);
    MixedLast(a, y);
    SameByteWord(x, y);
    DifferentSecond(Mixed(a), x as bv64, y as bv64);
  }

  lemma EarlierByteChangesHash(a: seq<bv8>, b: seq<bv8>, x: bv8)
    requires Mixed(a) != Mixed(b)
    ensures Mixed(a + [x]) != Mixed(b + [x])
  {
    MixedLast(a, x);
    MixedLast(b, x);
    DifferentFirst(Mixed(a), Mixed(b), x as bv64);
  }

  ghost predicate DifferAt(a: seq<bv8>, b: seq<bv8>, i: nat)
  {
    |a| == |b| && i < |a| && a[i] != b[i] && forall j :: 0 <= j < |a| && j != i ==> a[j] == b[j]
  }

  // Changing one byte of a key changes the hash.
  lemma {:induction false} OneByteChangesHash(a: seq<bv8>, b: seq<bv8>, i: nat)
    requires DifferAt(a, b, i)
    ensures Mixed(a) != Mixed(b)
    decreases |a|
  {
    var m := |a| - 1;
    assert a == a[..m] + [a[m]] && b == b[..m] + [b[m]];
    if i < m {
      OneByteChangesHash(a[..m], b[..m], i);
      EarlierByteChangesHash(a[..m], b[..m], a[m]);
    } else {
      assert a[..m] == b[..m];
      LastByteChangesHash(a[..m], a[m], b[m]);
    }
  }

  // Different hashes give different seeds, unless one of them is zero and the other the word that
  // stands in for it.
  lemma SeedsOfHashes(h: bv64, g: bv64)
    requires h != g
    ensures NonZeroSeed(h) == NonZeroSeed(g) <==> (h == 0 && g == 0x5a5a5a5a5a5a5a5a) || (g == 0 && h == 0x5a5a5a5a5a5a5a5a)
  {
  }

  // Under one key no two nonces have the same seed, but for the stand-in.
  lemma NoncesHaveSeeds(key: Key, n: bv64, m: bv64)
    requires n != m
    ensures Seed(key, n) != Seed(key, m) || Seed(key, n) == 0x5a5a5a5a5a5a5a5a
  {
    DifferentSecond(Mixed(key), n, m);
    SeedsOfHashes(Fnv(Mixed(key), n), Fnv(Mixed(key), m));
  }

  // Nor have two keys that differ in one byte, under one nonce.
  lemma KeysHaveSeeds(a: Key, b: Key, i: nat, nonce: bv64)
    requires DifferAt(a, b, i)
    ensures Seed(a, nonce) != Seed(b, nonce) || Seed(a, nonce) == 0x5a5a5a5a5a5a5a5a
  {
    OneByteChangesHash(a, b, i);
    DifferentFirst(Mixed(a), Mixed(b), nonce);
    SeedsOfHashes(Fnv(Mixed(a), nonce), Fnv(Mixed(b), nonce));
  }

  lemma Apart13(x: bv64, y: bv64)
    requires Same(x ^ (x << 13), y ^ (y << 13))
    ensures Same(x ^ y, 0)
  {
  }

  lemma Apart7(x: bv64, y: bv64)
    requires Same(x ^ (x >> 7), y ^ (y >> 7))
    ensures Same(x ^ y, 0)
  {
  }

  lemma Apart17(x: bv64, y: bv64)
    requires Same(x ^ (x << 17), y ^ (y << 17))
    ensures Same(x ^ y, 0)
  {
  }

  lemma Left13Injective(x: bv64, y: bv64)
    requires Left13(x) == Left13(y)
    ensures x == y
  {
    assert Same(Left13(x), Left13(x));
    Apart13(x, y);
    NoDifference(x, y);
  }

  lemma Right7Injective(x: bv64, y: bv64)
    requires Right7(x) == Right7(y)
    ensures x == y
  {
    assert Same(Right7(x), Right7(x));
    Apart7(x, y);
    NoDifference(x, y);
  }

  lemma Left17Injective(x: bv64, y: bv64)
    requires Left17(x) == Left17(y)
    ensures x == y
  {
    assert Same(Left17(x), Left17(x));
    Apart17(x, y);
    NoDifference(x, y);
  }

  // The generator loses nothing either.
  lemma XorShiftInjective(x: bv64, y: bv64)
    requires XorShift(x) == XorShift(y)
    ensures x == y
  {
    Left17Injective(Right7(Left13(x)), Right7(Left13(y)));
    Right7Injective(Left13(x), Left13(y));
    Left13Injective(x, y);
  }

  lemma BytesMakeWord(v: bv64, w: bv64)
    requires forall j: nat :: j < 8 ==> ByteAt(v, j) == ByteAt(w, j)
    ensures v == w
  {
    BytesOfWord(v);
    BytesOfWord(w);
    assert ByteAt(v, 0) == ByteAt(w, 0) && ByteAt(v, 1) == ByteAt(w, 1) && ByteAt(v, 2) == ByteAt(w, 2);
    assert ByteAt(v, 3) == ByteAt(w, 3) && ByteAt(v, 4) == ByteAt(w, 4) && ByteAt(v, 5) == ByteAt(w, 5);
    assert ByteAt(v, 6) == ByteAt(w, 6) && ByteAt(v, 7) == ByteAt(w, 7);
  }

  lemma SameMask(a: bv8, k: bv8, l: bv8)
    ensures Mask(a, k) == Mask(a, l) ==> k == l
  {
  }

  // The first word of the keystream gives the seed away, so a payload of eight bytes or more is
  // encrypted to the same bytes under two contexts exactly if their seeds are equal.
  lemma SameSeedsExactly(a: Key, n: bv64, b: Key, m: bv64, data: seq<bv8>)
    requires |data| >= 8
    ensures Crypted(Enabled(a), data, n) == Crypted(Enabled(b), data, m) <==> Seed(a, n) == Seed(b, m)
  {
    var s, t := Seed(a, n), Seed(b, m);
    if Xored(s, data) == Xored(t, data) {
      forall j: nat | j < 8
        ensures ByteAt(State(s, 1), j) == ByteAt(State(t, 1), j)
      {
        XoredAt(s, data, j);
        XoredAt(t, data, j);
        SameMask(data[j], Keystream(s, j), Keystream(t, j));
      }
      BytesMakeWord(State(s, 1), State(t, 1));
      assert State(s, 0) == s && State(t, 0) == t;
      XorShiftInjective(s, t);
    }
  }

  // One key, two nonces: the payloads differ, but for the stand-in.
  lemma NoncesHideDifferently(key: Key, n: bv64, m: bv64, data: seq<bv8>)
    requires n != m && |data| >= 8
    ensures Crypted(Enabled(key), data, n) != Crypted(Enabled(key), data, m) || Seed(key, n) == 0x5a5a5a5a5a5a5a5a
  {
    NoncesHaveSeeds(key, n, m);
    SameSeedsExactly(key, n, key, m, data);
  }

  // Two keys that differ in one byte, one nonce.
  lemma KeysHideDifferently(a: Key, b: Key, i: nat, nonce: bv64, data: seq<bv8>)
    requires DifferAt(a, b, i) && |data| >= 8
    ensures Crypted(Enabled(a), data, nonce) != Crypted(Enabled(b), data, nonce) || Seed(a, nonce) == 0x5a5a5a5a5a5a5a5a
  {
    KeysHaveSeeds(a, b, i, nonce);
    SameSeedsExactly(a, nonce, b, nonce, data);
  }

  // No word of the keystream repeats the one before it.
  lemma KeystreamMoves(key: Key, nonce: bv64, n: nat)
    ensures State(Seed(key, nonce), n + 1) != State(Seed(key, nonce), n)
  {
    StateNeverZero(key, nonce, n);
    MovesOn(State(Seed(key, nonce), n));
  }

  lemma MovesOn(x: bv64)
    requires x != 0
    ensures XorShift(x) != x
  {
  }

  // ---------------------------------------------------------------------------------------
  // Nonces.

  // 2^32, halved 32 - n times.
  function Limit(n: nat): bv64
    decreases if n < 32 then 32 - n else 0
  {
    if n >= 32 then 0x1_0000_0000 else Half(Limit(n + 1))
  }

  function Half(w: bv64): bv64
  {
    w >> 1
  }

  predicate Below(w: bv64, limit: bv64)
  {
    w < limit <= 0x1_0000_0000
  }

  function PowerOfTwo(n: nat): nat
  {
    if n == 0 then 1 else 2 * PowerOfTwo(n - 1)
  }

  lemma LimitOfEight()
    ensures Limit(8) == 0x100 && Limit(0) == 1
  {
    assert Limit(24) == 0x100_0000;
    assert Limit(16) == 0x1_0000;
  }

  lemma ZeroBelow()
    ensures Below(0, 1)
  {
  }

  lemma HalfBelow(limit: bv64)
    requires limit <= 0x1_0000_0000
    ensures Half(limit) <= 0x1_0000_0000
  {
  }

  lemma {:induction false} LimitBelow(n: nat)
    ensures Limit(n) <= 0x1_0000_0000
    decreases if n < 32 then 32 - n else 0
  {
    if n < 32 {
      LimitBelow(n + 1);
      HalfBelow(Limit(n + 1));
    }
  }

  lemma DoubledBelow(w: bv64, limit: bv64, odd: bool)
    requires Below(w, Half(limit)) && limit <= 0x1_0000_0000
    ensures Below(Doubled(w, odd), limit)
  {
  }

  lemma WordOfHalf(v: nat)
    ensures ToWord(v) == Doubled(ToWord(v / 2), v % 2 == 1)
  {
  }

  lemma NextBelow(v: nat, n: nat)
    requires 0 < n <= 32 && Below(ToWord(v / 2), Limit(n - 1))
    ensures Below(ToWord(v), Limit(n))
  {
    LimitBelow(n);
    WordOfHalf(v);
    assert Limit(n - 1) == Half(Limit(n));
    DoubledBelow(ToWord(v / 2), Limit(n), v % 2 == 1);
  }

  lemma {:induction false} WordBelow(v: nat, n: nat)
    requires n <= 32 && v < PowerOfTwo(n)
    ensures Below(ToWord(v), Limit(n))
  {
    if n == 0 {
      LimitOfEight();
      ZeroBelow();
    } else {
      WordBelow(v / 2, n - 1);
      NextBelow(v, n);
    }
  }

  lemma PowersOfTwo()
    ensures PowerOfTwo(8) == 0x100 && PowerOfTwo(32) == 0x1_0000_0000
  {
    assert PowerOfTwo(12) == 0x1000;
    assert PowerOfTwo(16) == 0x1_0000;
    assert PowerOfTwo(20) == 0x10_0000;
    assert PowerOfTwo(24) == 0x100_0000;
    assert PowerOfTwo(28) == 0x1000_0000;
  }

  lemma WordOfId(v: nat)
    requires v < TWO32
    ensures ToWord(v) < 0x8000_0000_0000_0000 && ToWord(v) <= 0x1_0000_0000
  {
    PowersOfTwo();
    WordBelow(v, 32);
  }

  lemma WordOfIndex(i: nat)
    requires i < 0x100
    ensures ToWord(i) < 0x100
  {
    PowersOfTwo();
    LimitOfEight();
    WordBelow(i, 8);
  }

  lemma SameHalves(a: bv64, b: bv64, p: bool, q: bool)
    requires a < 0x8000_0000_0000_0000 && b < 0x8000_0000_0000_0000
    requires Doubled(a, p) == Doubled(b, q)
    ensures a == b && p == q
  {
  }

  // A number is told from another by its word.
  lemma {:induction false} SameNumber(u: nat, v: nat)
    requires u < TWO32 && v < TWO32 && ToWord(u) == ToWord(v)
    ensures u == v
  {
    if u != 0 || v != 0 {
      WordOfId(u / 2);
      WordOfId(v / 2);
      WordOfHalf(u);
      WordOfHalf(v);
      SameHalves(ToWord(u / 2), ToWord(v / 2), u % 2 == 1, v % 2 == 1);
      SameNumber(u / 2, v / 2);
    }
  }

  lemma SameFields(a: bv64, i: bv64, b: bv64, j: bv64)
    requires a <= 0x1_0000_0000 && b <= 0x1_0000_0000 && i < 0x100 && j < 0x100
    requires Joined(a, i) == Joined(b, j)
    ensures a == b && i == j
  {
  }

  // No two shards of the 2^32 block ids have the same nonce.
  lemma NoncesDiffer(b: u32, i: nat, c: u32, j: nat)
    requires i < 0x100 && j < 0x100
    ensures Nonce(b, i) == Nonce(c, j) <==> b == c && i == j
  {
    if Nonce(b, i) == Nonce(c, j) {
      WordOfId(b);
      WordOfId(c);
      WordOfIndex(i);
      WordOfIndex(j);
      SameFields(ToWord(b), ToWord(i), ToWord(c), ToWord(j));
      SameNumber(b, c);
      SameNumber(i, j);
    }
  }

  // The id in the high bits, the index in the low eight.
  lemma NonceVector()
    ensures Nonce(0x12, 0x34) == 0x1234
  {
    assert ToWord(2) == 2;
    assert ToWord(4) == 4;
    assert ToWord(9) == 9;
    assert ToWord(0x12) == 0x12;
    assert ToWord(6) == 6;
    assert ToWord(13) == 13;
    assert ToWord(26) == 26;
    assert ToWord(0x34) == 0x34;
  }

  // So, under one key, the payloads of two shards are hidden differently.
  lemma ShardsHideDifferently(key: Key, b: u32, i: nat, c: u32, j: nat, data: seq<bv8>)
    requires i < 0x100 && j < 0x100 && (b != c || i != j) && |data| >= 8
    ensures Crypted(Enabled(key), data, Nonce(b, i)) != Crypted(Enabled(key), data, Nonce(c, j))
      || Seed(key, Nonce(b, i)) == 0x5a5a5a5a5a5a5a5a
  {
    NoncesDiffer(b, i, c, j);
    NoncesHideDifferently(key, Nonce(b, i), Nonce(c, j), data);
  }

  // ---------------------------------------------------------------------------------------
  // Vectors.

  lemma Hashed(a: seq<bv8>, x: bv8, b: seq<bv8>)
    requires b == a + [x]
    ensures Mixed(b) == Fnv(Mixed(a), x as bv64)
  {
    MixedLast(a, x);
  }

  // FNV-1a of no byte, of "a" and of "foobar", as published with the hash.
  lemma HashVectors()
    ensures Mixed([]) == 0xcbf29ce484222325
    ensures Mixed([0x61]) == 0xaf63dc4c8601ec8c
    ensures Mixed([0x66, 0x6f, 0x6f, 0x62, 0x61, 0x72]) == 0x85944171f73967e8
  {
    Hashed([], 0x61, [0x61]);
    Hashed([], 0x66, [0x66]);
    Hashed([0x66], 0x6f, [0x66, 0x6f]);
    Hashed([0x66, 0x6f], 0x6f, [0x66, 0x6f, 0x6f]);
    Hashed([0x66, 0x6f, 0x6f], 0x62, [0x66, 0x6f, 0x6f, 0x62]);
    Hashed([0x66, 0x6f, 0x6f, 0x62], 0x61, [0x66, 0x6f, 0x6f, 0x62, 0x61]);
    Hashed([0x66, 0x6f, 0x6f, 0x62, 0x61], 0x72, [0x66, 0x6f, 0x6f, 0x62, 0x61, 0x72]);
  }

  // The bytes 0, 1, ..., n - 1.
  function Counting(n: nat): (r: seq<bv8>)
    requires n <= 0x100
    ensures |r| == n
  {
    if n == 0 then [] else Counting(n - 1) + [ByteOf(n - 1)]
  }

  function ByteOf(n: nat): bv8
    requires n < 0x100
  {
    n as bv8
  }

  lemma CountOne(n: nat, h: bv64)
    requires n < KEY_LEN && Mixed(Counting(n)) == h
    ensures Mixed(Counting(n + 1)) == Fnv(h, ByteOf(n) as bv64)
  {
    MixedLast(Counting(n), ByteOf(n));
  }

  lemma CountTo8()
    ensures Mixed(Counting(8)) == 0xa4dc49e2b28ecb7d
  {
    CountOne(0, 0xcbf29ce484222325);
    CountOne(1, 0xaf63bd4c8601b7df);
    CountOne(2, 0x8328707b4eb6e3a);
    CountOne(3, 0xd949aa186c0c4928);
    CountOne(4, 0x4475327f98e05411);
    CountOne(5, 0x3378e3d0c52edfaf);
    CountOne(6, 0xa54ac5bf0ea60dde);
    CountOne(7, 0x841bdba5e4298608);
  }

  lemma CountTo16()
    ensures Mixed(Counting(16)) == 0x7c84dc9477851775
  {
    CountTo8();
    CountOne(8, 0xa4dc49e2b28ecb7d);
    CountOne(9, 0xb11d013568a3b7cf);
    CountOne(10, 0x9800d3c0ce314572);
    CountOne(11, 0x7aad489e5db90ae8);
    CountOne(12, 0x2d7d4819416d7fb9);
    CountOne(13, 0xb96137ea2d10008f);
    CountOne(14, 0x103284ea9230dce6);
    CountOne(15, 0xb6b4c29669075e38);
  }

  lemma CountTo24()
    ensures Mixed(Counting(24)) == 0x4d6366cf7d8aa54d
  {
    CountTo16();
    CountOne(16, 0x7c84dc9477851775);
    CountOne(17, 0x1ada35471726c09f);
    CountOne(18, 0xc78915cc56d9314a);
    CountOne(19, 0xe7216237930ed888);
    CountOne(20, 0xcc927f6ee23a0f61);
    CountOne(21, 0xd6fdfe6a68a843cf);
    CountOne(22, 0xf9db28cfd5eb4b6e);
    CountOne(23, 0x7ab1d1287ed13ce8);
  }

  lemma CountTo32()
    ensures Mixed(Counting(32)) == 0xe6cb594c1a148ac5
  {
    CountTo24();
    CountOne(24, 0x4d6366cf7d8aa54d);
    CountOne(25, 0xa8d07925296ef6f);
    CountOne(26, 0x849353a25678e582);
    CountOne(27, 0xbf3cb4d8ef6e2148);
    CountOne(28, 0x62489f9ed822a009);
    CountOne(29, 0x24074fe942d603af);
    CountOne(30, 0xe707b5c91a84776);
    CountOne(31, 0x3169064b80f155b8);
  }

  // The seed of the key 0, 1, ..., 31 under nonce 42, and the first two words of the generator.
  lemma SeedVector()
    ensures Seed(Counting(KEY_LEN), 42) == 0x4013ab5050e8141d
    ensures State(0x4013ab5050e8141d, 1) == 0x910cc3910e256375
    ensures State(0x4013ab5050e8141d, 2) == 0x364e0d8fa0e954f3
  {
    CountTo32();
  }

  lemma KeystreamOfWord(seed: bv64, q: nat, w: bv64, j: nat)
    requires State(seed, q + 1) == w && j < 8
    ensures Keystream(seed, 8 * q + j) == ByteAt(w, j)
  {
    assert (8 * q + j) / 8 == q && (8 * q + j) % 8 == j;
  }

  lemma MaskZero(k: bv8)
    ensures Mask(0, k) == k
  {
  }

  // Zeros are encrypted to the keystream itself.
  lemma Hidden(seed: bv64, q: nat, w: bv64, zeros: seq<bv8>, b: seq<bv8>)
    requires State(seed, q + 1) == w && |b| <= 8 && 8 * q + |b| <= |zeros|
    requires forall i :: 0 <= i < |zeros| ==> zeros[i] == 0
    requires forall j :: 0 <= j < |b| ==> b[j] == ByteAt(w, j)
    ensures Xored(seed, zeros)[8 * q..8 * q + |b|] == b
  {
    forall j | 0 <= j < |b|
      ensures Xored(seed, zeros)[8 * q + j] == b[j]
    {
      XoredAt(seed, zeros, 8 * q + j);
      KeystreamOfWord(seed, q, w, j);
      MaskZero(b[j]);
    }
  }

  lemma VectorBytes()
    ensures var b: seq<bv8> := [0x75, 0x63, 0x25, 0x0e, 0x91, 0xc3, 0x0c, 0x91];
      forall j :: 0 <= j < 8 ==> b[j] == ByteAt(0x910cc3910e256375, j)
    ensures var b: seq<bv8> := [0xf3, 0x54, 0xe9, 0xa0]; forall j :: 0 <= j < 4 ==> b[j] == ByteAt(0x364e0d8fa0e954f3, j)
  {
    BytesOfWord(0x910cc3910e256375);
    BytesOfWord(0x364e0d8fa0e954f3);
  }

  // Twelve bytes of zeros, encrypted: a word, lowest byte first, and a tail.
  lemma CipherVector(zeros: seq<bv8>)
    requires |zeros| == 12 && forall i :: 0 <= i < 12 ==> zeros[i] == 0
    ensures Crypted(Enabled(Counting(KEY_LEN)), zeros, 42)
         == [0x75, 0x63, 0x25, 0x0e, 0x91, 0xc3, 0x0c, 0x91] + [0xf3, 0x54, 0xe9, 0xa0]
  {
    SeedVector();
    VectorBytes();
    var r := Xored(0x4013ab5050e8141d, zeros);
    Hidden(0x4013ab5050e8141d, 0, 0x910cc3910e256375, zeros, [0x75, 0x63, 0x25, 0x0e, 0x91, 0xc3, 0x0c, 0x91]);
    Hidden(0x4013ab5050e8141d, 1, 0x364e0d8fa0e954f3, zeros, [0xf3, 0x54, 0xe9, 0xa0]);
    assert r == r[0..8] + r[8..12];
  }
}
