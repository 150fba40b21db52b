/** FNV-1 hashing (Fowler-Noll-Vo, multiply-then-xor variant) as in KFNV.h. */
module KFNV {

  /** KFNV_INIT, the 32-bit FNV offset basis. */
  const Init: nat := 0x811c9dc5
  /** KFNV_PRIME, the 32-bit FNV prime. */
  const Prime: nat := 0x01000193

  function Pow2(w: nat): (r: nat)
    ensures r >= 1
  {
    if w == 0 then 1 else 2 * Pow2(w - 1)
  }

  /** An `unsigned long` of the target platform holds `width` bits; the hash state is reduced modulo 2^width. */
  predicate IsWord(width: nat, h: int) {
    0 <= h < Pow2(width)
  }

  /** XOR of a word with a byte: only the low eight bits change. */
  function XorByte(h: nat, b: bv8): (r: nat)
    ensures r / 256 == h / 256
    ensures (r % 256) as bv8 == (h % 256) as bv8 ^ b
  {
    var y := (h % 256) as bv8 ^ b;
    var x := y as nat;
    ByteSplit(h / 256, x);
    ByteRound(y);
    h / 256 * 256 + x
  }

  /** A byte survives the trip through nat. */
  lemma ByteRound(y: bv8)
    ensures (y as nat) < 256 && (y as nat) as bv8 == y
  {
  }

  /** q * 256 + x with x a byte splits back into q and x. */
  lemma ByteSplit(q: nat, x: nat)
    requires x < 256
    ensures (q * 256 + x) / 256 == q && (q * 256 + x) % 256 == x
  {
  }

  /** One round: `hash *= KFNV_PRIME` (wrapping at the word width), then `hash ^= byte`. */
  function Step(width: nat, h: nat, b: bv8): (r: nat)
    requires width >= 8
    ensures IsWord(width, r)
  {
    var m := (h * Prime) % Pow2(width);
    WordXorStaysWord(width, m, b);
    XorByte(m, b)
  }

  lemma WordXorStaysWord(width: nat, m: nat, b: bv8)
    requires width >= 8 && m < Pow2(width)
    ensures XorByte(m, b) < Pow2(width)
  {
    Pow2Split(width);
    var q := m / 256;
    assert XorByte(m, b) == q * 256 + (((m % 256) as bv8 ^ b) as nat);
    assert q < Pow2(width - 8);
    assert XorByte(m, b) < q * 256 + 256;
    assert (q + 1) * 256 <= Pow2(width - 8) * 256;
  }

  lemma {:induction false} Pow2Split(width: nat)
    requires width >= 8
    ensures Pow2(width) == Pow2(width - 8) * 256
  {
    if width > 8 {
      Pow2Split(width - 1);
    }
  }

  /** The hash of a byte string from a given seed: one Step per byte, lowest address first. */
  function Hash(width: nat, data: seq<bv8>, seed: nat): nat
    requires width >= 8
  {
    if |data| == 0 then seed else Hash(width, data[1..], Step(width, seed, data[0]))
  }

  /** KFNV_Hash: the loop over `count` bytes starting at `data`. */
  method HashBytes(width: nat, data: seq<bv8>, count: nat, seed: nat) returns (hash: nat)
    requires width >= 8
    requires count <= |data|
    ensures hash == Hash(width, data[..count], seed)
  {
    hash := seed;
    var n := 0;
    while n < count
      invariant 0 <= n <= count
      invariant Hash(width, data[..count], seed) == Hash(width, data[n..count], hash)
    {
      assert data[n..count][1..] == data[n + 1..count];
      hash := Step(width, hash, data[n]);
      n := n + 1;
    }
    assert data[..count][0..] == data[..count];
  }

  /** With no bytes the seed comes back unchanged. */
  lemma EmptyKeepsSeed(width: nat, seed: nat)
    requires width >= 8
    ensures Hash(width, [], seed) == seed
  {
  }

  /** Hashing can be split at any point: the state after the first part seeds the second. */
  lemma {:induction false} Streaming(width: nat, a: seq<bv8>, b: seq<bv8>, seed: nat)
    requires width >= 8
    ensures Hash(width, a + b, seed) == Hash(width, b, Hash(width, a, seed))
  {
    if |a| == 0 {
      assert a + b == b;
    } else {
      var s1 := Step(width, seed, a[0]);
      assert (a + b)[1..] == a[1..] + b;
      calc {
        Hash(width, a + b, seed);
        Hash(width, a[1..] + b, s1);
        { Streaming(width, a[1..], b, s1); }
        Hash(width, b, Hash(width, a[1..], s1));
      }
    }
  }

  /** One step multiplies first and XORs second (FNV-1): the high bits are those of the product. */
  lemma StepMultipliesFirst(width: nat, h: nat, b: bv8)
    requires width >= 8
    ensures Step(width, h, b) / 256 == ((h * Prime) % Pow2(width)) / 256
    ensures (Step(width, h, b) % 256) as bv8 == (((h * Prime) % Pow2(width)) % 256) as bv8 ^ b
  {
  }

  /** After at least one byte the state is a word, whatever the seed was. */
  lemma {:induction false} HashIsWord(width: nat, data: seq<bv8>, seed: nat)
    requires width >= 8
    requires |data| > 0 || IsWord(width, seed)
    ensures IsWord(width, Hash(width, data, seed))
  {
    if |data| > 0 {
      HashIsWord(width, data[1..], Step(width, seed, data[0]));
    }
  }

  /** The published FNV-1 32-bit test vector: the hash of "a" from the offset basis. */
  lemma TestVectorA()
    ensures Hash(32, [0x61], Init) == 0x050c5d7e
  {
    assert Pow2(32) == 0x1_0000_0000 by { Pow2Value32(); }
    var m := (Init * Prime) % 0x1_0000_0000;
    assert m == 0x050c5d1f;
    assert m / 256 == 0x050c5d && m % 256 == 0x1f;
    assert (0x1f as bv8 ^ 0x61) as nat == 0x7e;
    assert XorByte(m, 0x61) == 0x050c5d7e;
    assert Step(32, Init, 0x61) == 0x050c5d7e;
    assert [0x61 as bv8][1..] == [];
  }

  lemma Pow2Value32()
    ensures Pow2(32) == 0x1_0000_0000
  {
    assert Pow2(8) == 256;
    assert Pow2(16) == 65536 by { Pow2Add(8, 8); }
    assert Pow2(32) == 0x1_0000_0000 by { Pow2Add(16, 16); }
  }

  lemma {:induction false} Pow2Add(a: nat, b: nat)
    ensures Pow2(a + b) == Pow2(a) * Pow2(b)
  {
    if a > 0 {
      Pow2Add(a - 1, b);
    }
  }
}
