/**
 The obfuscation of src/crypto.c: payload bytes are combined by exclusive or with the output of
 a 64-bit xorshift generator, eight bytes at a time.
 */
module Crypto {
  const KEY_LEN: nat := 32
  const FNV_OFFSET: bv64 := 0xcbf29ce484222325
  const NON_ZERO_SEED: bv64 := 0x5a5a5a5a5a5a5a5a

  type Key = k: seq<bv8> | |k| == KEY_LEN witness seq(KEY_LEN, _ => 0)

  datatype Ctx = Disabled | Enabled(key: Key)

  // One round of the FNV-1a hash.
  function Fnv(s: bv64, b: bv64): bv64
  {
    (s ^ b) * 0x100000001b3
  }

  function Mixed(bytes: seq<bv8>): bv64
  {
    if bytes == [] then FNV_OFFSET else Fnv(Mixed(bytes[..|bytes| - 1]), bytes[|bytes| - 1] as bv64)
  }

  function Seed(key: Key, nonce: bv64): bv64
  {
    NonZeroSeed(Fnv(Mixed(key), nonce))
  }

  function NonZeroSeed(s: bv64): bv64
  {
    if s == 0 then NON_ZERO_SEED else s
  }

  method SeedFromKeyNonce(key: Key, nonce: bv64) returns (s: bv64)
    ensures s == Seed(key, nonce)
  {
    s := FNV_OFFSET;
    for i := 0 to KEY_LEN
      invariant s == Mixed(key[..i])
    {
      s := Fnv(s, key[i] as bv64);
      assert key[..i + 1][..i] == key[..i];
    }
    assert key[..KEY_LEN] == key;
    s := Fnv(s, nonce);
    if s == 0 {
      s := NON_ZERO_SEED;
    }
  }

  lemma SeedNonZero(key: Key, nonce: bv64)
    ensures Seed(key, nonce) != 0
  {
  }

  function Left13(x: bv64): bv64 { x ^ (x << 13) }

  function Right7(x: bv64): bv64 { x ^ (x >> 7) }

  function Left17(x: bv64): bv64 { x ^ (x << 17) }

  function XorShift(x: bv64): bv64
  {
    Left17(Right7(Left13(x)))
  }

  lemma XorShiftNonZero(x: bv64)
    ensures XorShift(x) == 0 <==> x == 0
  {
  }

  // The generator state after n steps.
  function State(seed: bv64, n: nat): bv64
  {
    if n == 0 then seed else XorShift(State(seed, n - 1))
  }

  // Byte j of a word, lowest first.
  function ByteAt(w: bv64, j: nat): bv8
  {
    if j == 0 then (w & 0xff) as bv8 else ByteAt(w >> 8, j - 1)
  }

  lemma BytesOfWord(w: bv64)
    ensures ByteAt(w, 0) == (w & 0xff) as bv8
    ensures ByteAt(w, 1) == ((w >> 8) & 0xff) as bv8
    ensures ByteAt(w, 2) == ((w >> 16) & 0xff) as bv8
    ensures ByteAt(w, 3) == ((w >> 24) & 0xff) as bv8
    ensures ByteAt(w, 4) == ((w >> 32) & 0xff) as bv8
    ensures ByteAt(w, 5) == ((w >> 40) & 0xff) as bv8
    ensures ByteAt(w, 6) == ((w >> 48) & 0xff) as bv8
    ensures ByteAt(w, 7) == ((w >> 56) & 0xff) as bv8
  {
    assert (w >> 8) >> 8 == w >> 16 && (w >> 16) >> 8 == w >> 24 && (w >> 24) >> 8 == w >> 32;
  }

  // The keystream byte for position i of a payload.
  function Keystream(seed: bv64, i: nat): bv8
  {
    ByteAt(State(seed, i / 8 + 1), i % 8)
  }

  function Mask(a: bv8, k: bv8): bv8 { a ^ k }

  // Byte-wise exclusive or with the keystream: what `crypto_xor` means.
  function Xored(seed: bv64, data: seq<bv8>): (r: seq<bv8>)
    ensures |r| == |data|
  {
    if data == [] then []
    else Xored(seed, data[..|data| - 1]) + [Mask(data[|data| - 1], Keystream(seed, |data| - 1))]
  }

  lemma {:induction false} XoredAt(seed: bv64, data: seq<bv8>, i: nat)
    requires i < |data|
    ensures Xored(seed, data)[i] == Mask(data[i], Keystream(seed, i))
  {
    if i < |data| - 1 {
      XoredAt(seed, data[..|data| - 1], i);
    }
  }

  // The payload as it leaves `crypto_xor` under a context and a nonce.
  function Crypted(ctx: Ctx, data: seq<bv8>, nonce: bv64): (r: seq<bv8>)
    ensures |r| == |data|
  {
    match ctx
    case Disabled => data
    case Enabled(key) => Xored(Seed(key, nonce), data)
  }

  // Eight bytes with one word of the generator.
  method XorWord(data: array<bv8>, i: nat, ks: bv64)
    requires i + 8 <= data.Length
    modifies data
    ensures forall x :: 0 <= x < data.Length ==>
      data[x] == if i <= x < i + 8 then Mask(old(data[x]), ByteAt(ks, x - i)) else old(data[x])
  {
    BytesOfWord(ks);
    MaskAt(data, i, (ks & 0xff) as bv8);
    MaskAt(data, i + 1, ((ks >> 8) & 0xff) as bv8);
    MaskAt(data, i + 2, ((ks >> 16) & 0xff) as bv8);
    MaskAt(data, i + 3, ((ks >> 24) & 0xff) as bv8);
    MaskAt(data, i + 4, ((ks >> 32) & 0xff) as bv8);
    MaskAt(data, i + 5, ((ks >> 40) & 0xff) as bv8);
    MaskAt(data, i + 6, ((ks >> 48) & 0xff) as bv8);
    MaskAt(data, i + 7, ((ks >> 56) & 0xff) as bv8);
  }

  method MaskAt(data: array<bv8>, i: nat, k: bv8)
    requires i < data.Length
    modifies data
    ensures forall x :: 0 <= x < data.Length ==> data[x] == if x == i then Mask(old(data[x]), k) else old(data[x])
  {
    data[i] := Mask(data[i], k);
  }

  // The bytes left over, fewer than eight.
  method XorTail(data: array<bv8>, i: nat, len: nat, ks: bv64)
    requires i <= len <= data.Length && len - i < 8
    modifies data
    ensures forall x :: 0 <= x < data.Length ==>
      data[x] == if i <= x < len then Mask(old(data[x]), ByteAt(ks, x - i)) else old(data[x])
  {
    var j := 0;
    while j < len - i
      invariant 0 <= j <= len - i
      invariant forall x :: 0 <= x < data.Length ==>
        data[x] == if i <= x < i + j then Mask(old(data[x]), ByteAt(ks, x - i)) else old(data[x])
    {
      data[i + j] := Mask(data[i + j], ByteAt(ks, j));
      j := j + 1;
    }
  }

  lemma WordPositions(seed: bv64, i: nat)
    requires i % 8 == 0
    ensures forall x {:trigger Keystream(seed, x)} :: i <= x < i + 8 ==> Keystream(seed, x) == ByteAt(State(seed, i / 8 + 1), x - i)
  {
    forall x | i <= x < i + 8
      ensures Keystream(seed, x) == ByteAt(State(seed, i / 8 + 1), x - i)
    {
      assert x / 8 == i / 8 && x % 8 == x - i;
    }
  }

  // Everything before position n has been combined with the keystream, nothing after it.
  ghost predicate XoredUpTo(seed: bv64, before: seq<bv8>, now: seq<bv8>, n: nat)
  {
    && |now| == |before|
    && forall x :: 0 <= x < |before| ==> now[x] == if x < n then Mask(before[x], Keystream(seed, x)) else before[x]
  }

  lemma ExtendXored(seed: bv64, before: seq<bv8>, now: seq<bv8>, next: seq<bv8>, i: nat, n: nat)
    requires i % 8 == 0 && i <= n <= i + 8 && n <= |before|
    requires XoredUpTo(seed, before, now, i) && |next| == |now|
    requires forall x :: 0 <= x < |now| ==>
      next[x] == if i <= x < n then Mask(now[x], ByteAt(State(seed, i / 8 + 1), x - i)) else now[x]
    ensures XoredUpTo(seed, before, next, n)
  {
    WordPositions(seed, i);
  }

  lemma AllXored(seed: bv64, before: seq<bv8>, now: seq<bv8>, len: nat)
    requires len <= |before| && XoredUpTo(seed, before, now, len)
    ensures now == Xored(seed, before[..len]) + before[len..]
  {
    var x := Xored(seed, before[..len]);
    forall i | 0 <= i < len
      ensures x[i] == now[i]
    {
      XoredAt(seed, before[..len], i);
    }
    assert now[..len] == x && now[len..] == before[len..];
  }

  // Combines the first `len` bytes of a buffer with the keystream, in place.
  method CryptoXor(ctx: Ctx, data: array<bv8>, len: nat, nonce: bv64)
    requires len <= data.Length
    modifies data
    ensures data[..] == Crypted(ctx, old(data[..len]), nonce) + old(data[len..])
  {
    if ctx.Disabled? {
      return;
    }
    var seed := SeedFromKeyNonce(ctx.key, nonce);
    var state := seed;
    ghost var before := data[..];
    var i := 0;
    while i + 8 <= len
      invariant 0 <= i <= len && i % 8 == 0
      invariant state == State(seed, i / 8)
      invariant XoredUpTo(seed, before, data[..], i)
    {
      ghost var now := data[..];
      state := XorShift(state);
      XorWord(data, i, state);
      ExtendXored(seed, before, now, data[..], i, i + 8);
      i := i + 8;
    }
    if i < len {
      ghost var now := data[..];
      state := XorShift(state);
      XorTail(data, i, len, state);
      ExtendXored(seed, before, now, data[..], i, len);
    }
    AllXored(seed, before, data[..], len);
  }

  // ---------------------------------------------------------------------------------------
  // What the receiver relies on.

  // The same call decrypts.
  lemma CryptedTwice(ctx: Ctx, data: seq<bv8>, nonce: bv64)
    ensures Crypted(ctx, Crypted(ctx, data, nonce), nonce) == data
  {
    if ctx.Enabled? {
      var seed := Seed(ctx.key, nonce);
      forall i | 0 <= i < |data|
        ensures Xored(seed, Xored(seed, data))[i] == data[i]
      {
        XoredAt(seed, Xored(seed, data), i);
        XoredAt(seed, data, i);
        XorTwice(data[i], Keystream(seed, i));
      }
    }
  }

  lemma XorTwice(a: bv8, k: bv8)
    ensures Mask(Mask(a, k), k) == a
  {
  }

  // A prefix of the payload is encrypted as the payload's prefix: no byte depends on the length.
  lemma CryptedPrefix(ctx: Ctx, data: seq<bv8>, nonce: bv64, n: nat)
    requires n <= |data|
    ensures Crypted(ctx, data[..n], nonce) == Crypted(ctx, data, nonce)[..n]
  {
    if ctx.Enabled? {
      var seed := Seed(ctx.key, nonce);
      forall i | 0 <= i < n
        ensures Xored(seed, data[..n])[i] == Xored(seed, data)[i]
      {
        XoredAt(seed, data[..n], i);
        XoredAt(seed, data, i);
      }
    }
  }

  // The generator never reaches the state from which it could not leave.
  lemma {:induction false} StateNeverZero(key: Key, nonce: bv64, n: nat)
    ensures State(Seed(key, nonce), n) != 0
  {
    SeedNonZero(key, nonce);
    if n > 0 {
      StateNeverZero(key, nonce, n - 1);
      XorShiftNonZero(State(Seed(key, nonce), n - 1));
    }
  }
}
