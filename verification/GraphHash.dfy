/**
 The 64-bit FNV-1a hash of a graph's canonical text
 (apps/orbit-openeo/src/provenance.rs, `fnv1a_64` and `graph_hash_of`).
 */
module GraphHash {
  import opened Arithmetic
  import opened Json
  import opened CanonicalJson

  const WORD: int := 0x1_0000_0000_0000_0000

  const OFFSET_BASIS: int := 0xcbf29ce484222325

  const PRIME: int := 0x100000001b3

  /** The inverse of the prime modulo the word size, and the quotient that goes with it. */
  const PRIME_INVERSE: int := 0xce965057aff6957b
  const INVERSE_QUOTIENT: int := 0xce9650590f

  type U64 = x: int | 0 <= x < WORD

  type Byte = x: int | 0 <= x < 256

  /** Exclusive or of the lowest `k` bits. */
  function XorBits(a: nat, b: nat, k: nat): (r: nat)
    ensures r < Pow2(k)
  {
    if k == 0 then 0
    else 2 * XorBits(a / 2, b / 2, k - 1) + if a % 2 == b % 2 then 0 else 1
  }

  function Pow2(k: nat): nat {
    if k == 0 then 1 else 2 * Pow2(k - 1)
  }

  /** `h ^ b` for a word and a byte: only the low byte is affected. */
  function XorLow(h: U64, b: Byte): U64 {
    assert Pow2(8) == 256 by { assert Pow2(4) == 16; }
    h - h % 256 + XorBits(h % 256, b, 8)
  }

  function WrappingMul(a: U64, b: U64): U64 {
    a * b % WORD
  }

  function Step(h: U64, b: Byte): U64 {
    WrappingMul(XorLow(h, b), PRIME)
  }

  function Fold(h: U64, bytes: seq<Byte>): U64
    decreases |bytes|
  {
    if bytes == [] then h else Fold(Step(h, bytes[0]), bytes[1..])
  }

  method Fnv1a64(bytes: seq<Byte>) returns (h: U64)
    ensures h == Fold(OFFSET_BASIS, bytes)
  {
    h := OFFSET_BASIS;
    for i := 0 to |bytes|
      invariant Fold(h, bytes[i..]) == Fold(OFFSET_BASIS, bytes)
    {
      assert bytes[i..][1..] == bytes[i + 1..];
      h := XorLow(h, bytes[i]);
      h := WrappingMul(h, PRIME);
    }
  }

  /** The hash of a graph, for a given text encoding. */
  function GraphHashOf<N(!new)>(graph: Json<N>, render: Renderer<N>, encode: string -> seq<Byte>): U64 {
    Fold(OFFSET_BASIS, encode(Canonical(graph, render)))
  }

  /** Graphs that differ only in key order hash alike. */
  lemma HashIgnoresKeyOrder<N(!new)>(v: Json<N>, w: Json<N>, render: Renderer<N>, encode: string -> seq<Byte>)
    requires WellFormed(v) && WellFormed(w) && Same(v, w)
    ensures GraphHashOf(v, render, encode) == GraphHashOf(w, render, encode)
  {
    SameMeansSameText(v, w, render);
  }

  // ------------------------------------------------------------------ bits

  /** Bit `i` of `n`, from the lowest. */
  predicate Bit(n: nat, i: nat)
    decreases i
  {
    if i == 0 then n % 2 == 1 else Bit(n / 2, i - 1)
  }

  lemma {:induction false} XorOfBits(a: nat, b: nat, k: nat, i: nat)
    requires i < k
    ensures Bit(XorBits(a, b, k), i) <==> Bit(a, i) != Bit(b, i)
  {
    if i > 0 {
      XorOfBits(a / 2, b / 2, k - 1, i - 1);
    }
  }

  /** The bits of a number are those of its lowest `k` bits and of the rest. */
  lemma {:induction false} BitsOfParts(q: nat, x: nat, k: nat, i: nat)
    requires x < Pow2(k)
    ensures Pow2(k) * q + x >= 0
    ensures Bit(Pow2(k) * q + x, i) <==> if i < k then Bit(x, i) else Bit(q, i - k)
    decreases k
  {
    if k > 0 {
      var half := Pow2(k - 1);
      assert Pow2(k) * q == 2 * (half * q);
      assert (Pow2(k) * q + x) / 2 == half * q + x / 2;
      if i > 0 {
        BitsOfParts(q, x / 2, k - 1, i - 1);
      }
    }
  }

  lemma {:induction false} ZeroHasNoBits(i: nat)
    ensures !Bit(0, i)
  {
    if i > 0 {
      ZeroHasNoBits(i - 1);
    }
  }

  /** The mixing is the exclusive or of the word and the byte, bit by bit. */
  lemma XorLowIsExclusiveOr(h: U64, b: Byte, i: nat)
    ensures Bit(XorLow(h, b), i) <==> Bit(h, i) != Bit(b, i)
  {
    assert Pow2(8) == 256 by { assert Pow2(4) == 16; }
    var q, low := h / 256, h % 256;
    var mixed := XorBits(low, b, 8);
    assert h == 256 * q + low && XorLow(h, b) == 256 * q + mixed;
    BitsOfParts(q, low, 8, i);
    BitsOfParts(q, mixed, 8, i);
    BitsOfParts(0, b, 8, i);
    hide Bit, XorBits, Pow2;
    if i < 8 {
      XorOfBits(low, b, 8, i);
    } else {
      ZeroHasNoBits(i - 8);
    }
  }

  /** The published values of the hash for no byte and for "a". */
  lemma KnownVectors()
    ensures Fold(OFFSET_BASIS, []) == 0xcbf29ce484222325
    ensures Fold(OFFSET_BASIS, [0x61]) == 0xaf63dc4c8601ec8c
  {
    hide XorLow, WrappingMul;
    MixesFirstByte();
    MultipliesFirstByte();
    assert [0x61][1..] == [];
  }

  lemma MixesFirstByte()
    ensures XorLow(OFFSET_BASIS, 0x61) == 0xcbf29ce484222344
  {
    assert XorBits(1, 3, 3) == 2;
    assert XorBits(4, 12, 5) == 8;
    assert XorBits(18, 48, 7) == 34;
    assert XorBits(37, 97, 8) == 68;
    assert OFFSET_BASIS % 256 == 37;
  }

  lemma MultipliesFirstByte()
    ensures WrappingMul(0xcbf29ce484222344, PRIME) == 0xaf63dc4c8601ec8c
  {
    QuotientIs(0xcbf29ce484222344 * PRIME, WORD, 0xcbf29ce5de);
  }

  // --------------------------------------------------- one byte always shows

  lemma {:induction false} XorBitsInjective(a: nat, b: nat, c: nat, d: nat, k: nat)
    requires a < Pow2(k) && b < Pow2(k) && c < Pow2(k) && d < Pow2(k)
    requires XorBits(a, b, k) == XorBits(c, d, k) && (a == c || b == d)
    ensures a == c && b == d
    decreases k
  {
    if k > 0 {
      XorBitsInjective(a / 2, b / 2, c / 2, d / 2, k - 1);
    }
  }

  lemma XorLowInjective(g: U64, a: Byte, h: U64, b: Byte)
    requires XorLow(g, a) == XorLow(h, b) && (g == h || a == b)
    ensures g == h && a == b
  {
    assert Pow2(8) == 256 by { assert Pow2(4) == 16; }
    var x, y := XorBits(g % 256, a, 8), XorBits(h % 256, b, 8);
    assert x < 256 && y < 256;
    hide XorBits, Pow2;
    assert g / 256 == h / 256 && x == y;
    XorBitsInjective(g % 256, a, h % 256, b, 8);
  }

  lemma PrimeIsInvertible(x: U64)
    ensures WrappingMul(x, PRIME) * PRIME_INVERSE % WORD == x
  {
    var q, r := x * PRIME / WORD, x * PRIME % WORD;
    assert x * PRIME == q * WORD + r;
    assert r * PRIME_INVERSE == x + (x * INVERSE_QUOTIENT - q * PRIME_INVERSE) * WORD;
    QuotientIs(r * PRIME_INVERSE, WORD, x * INVERSE_QUOTIENT - q * PRIME_INVERSE);
  }

  lemma StepInjective(g: U64, a: Byte, h: U64, b: Byte)
    requires Step(g, a) == Step(h, b) && (g == h || a == b)
    ensures g == h && a == b
  {
    hide XorLow, WrappingMul;
    PrimeIsInvertible(XorLow(g, a));
    PrimeIsInvertible(XorLow(h, b));
    XorLowInjective(g, a, h, b);
  }

  lemma {:induction false} FoldInjective(g: U64, h: U64, bytes: seq<Byte>)
    requires Fold(g, bytes) == Fold(h, bytes)
    ensures g == h
    decreases |bytes|
  {
    hide Step;
    if bytes != [] {
      FoldInjective(Step(g, bytes[0]), Step(h, bytes[0]), bytes[1..]);
      StepInjective(g, bytes[0], h, bytes[0]);
    }
  }

  /** Texts of equal length that differ in exactly one byte never collide. */
  lemma {:induction false} OneByteChangesHash(h: U64, bytes: seq<Byte>, i: nat, b: Byte)
    requires i < |bytes| && bytes[i] != b
    ensures Fold(h, bytes[i := b]) != Fold(h, bytes)
    decreases i
  {
    hide Step;
    var changed := bytes[i := b];
    if i == 0 {
      assert changed[1..] == bytes[1..];
      if Fold(h, changed) == Fold(h, bytes) {
        FoldInjective(Step(h, b), Step(h, bytes[0]), bytes[1..]);
        StepInjective(h, b, h, bytes[0]);
      }
    } else {
      assert changed[1..] == bytes[1..][i - 1 := b];
      OneByteChangesHash(Step(h, bytes[0]), bytes[1..], i - 1, b);
    }
  }
}
