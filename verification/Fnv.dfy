/** The 64-bit FNV-1a hash of src/common/RenderTrace.cpp:27-36 and src/common/BetaConfig.cpp:351-355. */
module Fnv {
  import opened Words

  const MODULUS := 0x1_0000_0000_0000_0000
  const OFFSET: uint64 := 1469598103934665603
  const PRIME := 1099511628211
  /** The inverse of PRIME modulo 2^64, which exists because PRIME is odd: PRIME * INVERSE is 1 more than
      MULTIPLE times 2^64. */
  const INVERSE := 14886173955864302971
  const MULTIPLE := 887285111055

  /** One round: exclusive or, then multiply, wrapping at 64 bits. */
  function Mix(hash: uint64, b: byte): uint64 {
    (Xor(hash, b) * PRIME) % MODULUS
  }

  function HashFrom(hash: uint64, bytes: seq<byte>): uint64 {
    if bytes == [] then hash else Mix(HashFrom(hash, bytes[..|bytes| - 1]), bytes[|bytes| - 1])
  }

  function Hash(bytes: seq<byte>): uint64 {
    HashFrom(OFFSET, bytes)
  }

  /** The hash of nothing, and what one more byte makes of a hash. */
  lemma {:induction false} HashSteps(bytes: seq<byte>, b: byte)
    ensures Hash([]) == 1469598103934665603
    ensures Hash(bytes + [b]) == Xor(Hash(bytes), b) * 1099511628211 % 0x1_0000_0000_0000_0000
  {
    assert (bytes + [b])[..|bytes|] == bytes;
  }

  lemma MultiplyUndone(x: uint64)
    ensures ((x * PRIME) % MODULUS * INVERSE) % MODULUS == x
  {
    var q, r := x * PRIME / MODULUS, (x * PRIME) % MODULUS;
    assert r * INVERSE == x + (x * MULTIPLE - q * INVERSE) * MODULUS;
    WholeTurns(x, x * MULTIPLE - q * INVERSE);
  }

  lemma WholeTurns(x: uint64, turns: int)
    ensures (x + turns * MODULUS) % MODULUS == x
  {
  }

  lemma XorFits(hash: uint64, b: byte)
    ensures Xor(hash, b) < MODULUS
  {
    WordSizes();
    OpsFit(hash, b, 64);
  }

  lemma MixUndone(hash: uint64, b: byte)
    ensures (Mix(hash, b) * INVERSE) % MODULUS == Xor(hash, b)
  {
    XorFits(hash, b);
    MultiplyUndone(Xor(hash, b));
  }

  /** One round loses nothing: neither a difference in the state nor one in the byte. */
  lemma MixInjective(g: uint64, h: uint64, b: byte, c: byte)
    ensures Mix(g, b) == Mix(h, b) ==> g == h
    ensures Mix(h, b) == Mix(h, c) ==> b == c
  {
    MixUndone(g, b);
    MixUndone(h, b);
    MixUndone(h, c);
    XorTwice(g, b);
    XorTwice(h, b);
    XorCommutes(h, b);
    XorCommutes(h, c);
    XorTwice(b, h);
    XorTwice(c, h);
  }

  /** Two states that differ still differ after any bytes. */
  lemma {:induction false} StatesStayApart(g: uint64, h: uint64, bytes: seq<byte>)
    requires g != h
    ensures HashFrom(g, bytes) != HashFrom(h, bytes)
    decreases |bytes|
  {
    if bytes == [] {
    } else {
      var init, last := bytes[..|bytes| - 1], bytes[|bytes| - 1];
      StatesStayApart(g, h, init);
      MixInjective(HashFrom(g, init), HashFrom(h, init), last, last);
    }
  }

  lemma {:induction false} HashFromSplit(hash: uint64, a: seq<byte>, b: seq<byte>)
    ensures HashFrom(hash, a + b) == HashFrom(HashFrom(hash, a), b)
    decreases |b|
  {
    if b == [] {
      assert a + b == a;
    } else {
      assert (a + b)[..|a + b| - 1] == a + b[..|b| - 1];
      HashFromSplit(hash, a, b[..|b| - 1]);
    }
  }

  /** Two byte strings of the same length that differ in exactly one position never hash alike. */
  lemma {:induction false} OneByteChangesHash(a: seq<byte>, b: seq<byte>, i: nat)
    requires |a| == |b| && i < |a| && a[i] != b[i]
    requires forall k :: 0 <= k < |a| && k != i ==> a[k] == b[k]
    ensures Hash(a) != Hash(b)
  {
    var prefix, suffix := a[..i], a[i + 1..];
    assert a == prefix + ([a[i]] + suffix) && b == prefix + ([b[i]] + suffix);
    var h := HashFrom(OFFSET, prefix);
    HashOfThree(prefix, a[i], suffix);
    HashOfThree(prefix, b[i], suffix);
    MixInjective(h, h, a[i], b[i]);
    StatesStayApart(Mix(h, a[i]), Mix(h, b[i]), suffix);
  }

  lemma {:induction false} HashOfThree(prefix: seq<byte>, c: byte, suffix: seq<byte>)
    ensures Hash(prefix + ([c] + suffix)) == HashFrom(Mix(HashFrom(OFFSET, prefix), c), suffix)
  {
    HashFromSplit(OFFSET, prefix, [c] + suffix);
    HashFromSplit(HashFrom(OFFSET, prefix), [c], suffix);
    assert [c][..0] == [];
  }

  method HashBytes(data: array<byte>, byteCount: nat) returns (hash: uint64)
    requires byteCount <= data.Length
    ensures hash == Hash(data[..byteCount])
  {
    hash := OFFSET;
    for i := 0 to byteCount
      invariant hash == Hash(data[..i])
    {
      assert data[..i + 1][..i] == data[..i];
      hash := (Xor(hash, data[i]) * PRIME) % MODULUS;
    }
  }
}
